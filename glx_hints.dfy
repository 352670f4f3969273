/**
 * The window-manager hints the GLX driver derives from a window's flags:
 * the _MOTIF_WM_HINTS record, the ICCCM WM_NORMAL_HINTS size hints
 * (section 4.1.2.3 of the ICCCM) and the property writes of the first
 * map of a window, WM_PROTOCOLS (section 4.1.2.7 of the ICCCM) last.
 * Every Xlib call is replaced by its inputs (which atoms the server knows,
 * what a property read returned) and its output (the record written, the
 * list of property writes).
 */
module GlxHints {
  import opened Wrappers

  /** The AG_WINDOW_* flags the hint code tests, one field each. */
  datatype WindowFlags = WindowFlags(
    modal: bool, noMinimize: bool, noMaximize: bool, noResize: bool,
    noMove: bool, noClose: bool, noBorders: bool, noHResize: bool,
    noTitle: bool, keepAbove: bool, keepBelow: bool, denyFocus: bool)

  // ---------------------------------------------------------------------
  // _MOTIF_WM_HINTS
  // ---------------------------------------------------------------------

  const MWM_HINTS_FUNCTIONS: bv64 := 1
  const MWM_HINTS_DECORATIONS: bv64 := 2
  const MWM_HINTS_INPUT_MODE: bv64 := 4

  const MWM_FN_ALL: bv64 := 1
  const MWM_FN_RESIZE: bv64 := 2
  const MWM_FN_MOVE: bv64 := 4
  const MWM_FN_MINIMIZE: bv64 := 8
  const MWM_FN_MAXIMIZE: bv64 := 16
  const MWM_FN_CLOSE: bv64 := 32

  const MWM_DEC_ALL: bv64 := 1
  const MWM_DEC_BORDER: bv64 := 2
  const MWM_DEC_RESIZEH: bv64 := 4
  const MWM_DEC_TITLE: bv64 := 8
  const MWM_DEC_MENU: bv64 := 16
  const MWM_DEC_MINIMIZE: bv64 := 32
  const MWM_DEC_MAXIMIZE: bv64 := 64

  const MWM_INPUT_MODELESS: int := 0
  const MWM_INPUT_PRIMARY_APPLICATION_MODAL: int := 1
  const MWM_INPUT_FULL_APPLICATION_MODAL: int := 3

  /** struct ag_motif_wm_hints, five longs. */
  datatype MotifHints = MotifHints(flags: bv64, fns: bv64, dec: bv64, inputMode: int, status: bv64)

  /** `bit` when `cond` holds, else no bit. */
  function BitIf(cond: bool, bit: bv64): (b: bv64)
    ensures b == bit || b == 0
  {
    if cond then bit else 0
  }

  /**
   * The record SetMotifWmHints builds: every function and decoration is
   * offered unless its AG_WINDOW_NO* flag forbids it; the window menu and
   * the "all" bits are never set; a modal window asks for full
   * application modality.
   */
  function MotifFor(f: WindowFlags): (h: MotifHints)
    ensures h.flags == MWM_HINTS_FUNCTIONS | MWM_HINTS_DECORATIONS | MWM_HINTS_INPUT_MODE
    ensures h.inputMode == MWM_INPUT_FULL_APPLICATION_MODAL <==> f.modal
    ensures h.inputMode == MWM_INPUT_MODELESS <==> !f.modal
    ensures h.status == 0
    ensures (h.fns & MWM_FN_MINIMIZE != 0) <==> !f.noMinimize
    ensures (h.fns & MWM_FN_MAXIMIZE != 0) <==> !f.noMaximize
    ensures (h.fns & MWM_FN_RESIZE != 0) <==> !f.noResize
    ensures (h.fns & MWM_FN_MOVE != 0) <==> !f.noMove
    ensures (h.fns & MWM_FN_CLOSE != 0) <==> !f.noClose
    ensures (h.dec & MWM_DEC_MINIMIZE != 0) <==> !f.noMinimize
    ensures (h.dec & MWM_DEC_MAXIMIZE != 0) <==> !f.noMaximize
    ensures (h.dec & MWM_DEC_BORDER != 0) <==> !f.noBorders
    ensures (h.dec & MWM_DEC_RESIZEH != 0) <==> !f.noHResize
    ensures (h.dec & MWM_DEC_TITLE != 0) <==> !f.noTitle
    ensures h.fns & (MWM_FN_ALL | !0x3f) == 0
    ensures h.dec & (MWM_DEC_ALL | MWM_DEC_MENU | !0x7f) == 0
  {
    var fns := BitIf(!f.noMinimize, MWM_FN_MINIMIZE) | BitIf(!f.noMaximize, MWM_FN_MAXIMIZE)
               | BitIf(!f.noResize, MWM_FN_RESIZE) | BitIf(!f.noMove, MWM_FN_MOVE)
               | BitIf(!f.noClose, MWM_FN_CLOSE);
    var dec := BitIf(!f.noMinimize, MWM_DEC_MINIMIZE) | BitIf(!f.noMaximize, MWM_DEC_MAXIMIZE)
               | BitIf(!f.noBorders, MWM_DEC_BORDER) | BitIf(!f.noHResize, MWM_DEC_RESIZEH)
               | BitIf(!f.noTitle, MWM_DEC_TITLE);
    MotifHints(MWM_HINTS_FUNCTIONS | MWM_HINTS_DECORATIONS | MWM_HINTS_INPUT_MODE,
               fns, dec,
               if f.modal then MWM_INPUT_FULL_APPLICATION_MODAL else MWM_INPUT_MODELESS,
               0)
  }

  /** What reading the window's _MOTIF_WM_HINTS property back returned. */
  datatype PropertyRead =
    | ReadFailed                   // XGetWindowProperty did not return Success
    | NoData                       // no data came back
    | OtherType                    // a property of another type
    | Present(stored: MotifHints)   // an existing _MOTIF_WM_HINTS record

  /**
   * The record SetMotifWmHints writes, or None when the read failed and
   * nothing is written. An existing record keeps its status field and takes
   * everything else from the new one; otherwise the new record is written.
   */
  function MotifWrite(f: WindowFlags, read: PropertyRead): (w: Option<MotifHints>)
    ensures w.None? <==> read.ReadFailed?
    ensures w.Some? ==>
              w.value == MotifFor(f).(status := if read.Present? then read.stored.status else 0)
  {
    match read
    case ReadFailed => None
    case Present(h) =>
      var n := MotifFor(f);
      Some(h.(flags := n.flags, fns := n.fns, dec := n.dec, inputMode := n.inputMode))
    case _ => Some(MotifFor(f))
  }

  /** Writing the hints again over what was written changes nothing. */
  lemma MotifWriteStable(f: WindowFlags, read: PropertyRead)
    requires !read.ReadFailed?
    ensures MotifWrite(f, Present(MotifWrite(f, read).value)) == MotifWrite(f, read)
  {
  }

  // ---------------------------------------------------------------------
  // WM_NORMAL_HINTS
  // ---------------------------------------------------------------------

  /** XSizeHints flag bits (section 4.1.2.3 of the ICCCM). */
  const USPosition: bv64 := 1
  const USSize: bv64 := 2
  const PPosition: bv64 := 4
  const PSize: bv64 := 8
  const PMinSize: bv64 := 16
  const PMaxSize: bv64 := 32

  datatype SizeHints = SizeHints(flags: bv64, minWidth: int, minHeight: int,
                                 maxWidth: int, maxHeight: int)

  /**
   * The size hints SetWmNormalHints sets for a window of size w x h: the
   * program-specified position unless the driver may place the window
   * anywhere, always a minimum and a maximum size; a window that may not be
   * resized is held at its size, any other may range from 32 to 4096.
   */
  function NormalHintsFor(f: WindowFlags, anyPos: bool, w: int, h: int): (s: SizeHints)
    ensures (s.flags & PPosition != 0) <==> !anyPos
    ensures s.flags & (PMinSize | PMaxSize) == PMinSize | PMaxSize
    ensures s.flags & !(PPosition | PMinSize | PMaxSize) == 0
    ensures f.noResize ==>
              s.minWidth == s.maxWidth == w && s.minHeight == s.maxHeight == h
    ensures !f.noResize ==>
              s.minWidth == s.minHeight == 32 && s.maxWidth == s.maxHeight == 4096
    ensures s.minWidth <= s.maxWidth && s.minHeight <= s.maxHeight
  {
    var flags := BitIf(!anyPos, PPosition) | PMinSize | PMaxSize;
    if !f.noResize then SizeHints(flags, 32, 32, 4096, 4096)
    else SizeHints(flags, w, h, w, h)
  }

  // ---------------------------------------------------------------------
  // The hint block of GLX_MapWindow
  // ---------------------------------------------------------------------

  /** enum ag_window_wm_type: the EWMH window type a window asks for. */
  datatype WmType =
    | Normal | Desktop | Dock | Toolbar | Menu | Utility | Splash | Dialog
    | DropdownMenu | PopupMenu | Tooltip | Notification | Combo | Dnd

  /**
   * Which atoms the X server knows (each is interned with only_if_exists,
   * so an unknown name yields None).
   */
  datatype Atoms = Atoms(
    netWmWindowType: bool, windowTypeOwn: bool, windowTypeMenu: bool, windowTypeDock: bool,
    netWmState: bool, netWmStateSkipTaskbar: bool,
    motifWmHints: bool, kwmWinDecoration: bool, winHints: bool)

  datatype Protocol = DeleteWindow | TakeFocus

  /** An atom written to _NET_WM_WINDOW_TYPE. */
  datatype TypeAtom = OwnType(wmType: WmType) | TypeMenu | TypeDock

  /**
   * What the hint block of the first GLX_MapWindow writes, property by
   * property: the _NET_WM_WINDOW_TYPE atoms (None when no XChangeProperty
   * touches the property: its own atom unknown, or no atom to write), whether _NET_WM_STATE_SKIP_TASKBAR is appended to
   * _NET_WM_STATE, which of the hint setters run, the input hint (None when
   * XSetWMHints is not called) and the WM_PROTOCOLS list, which is always
   * written.
   */
  datatype HintBlock = HintBlock(
    windowType: Option<seq<TypeAtom>>, skipTaskbar: bool,
    motif: bool, kwm: bool, gnome: bool, modal: bool, aboveBelow: bool,
    inputHint: Option<bool>, protocols: seq<Protocol>)

  /** The WM_PROTOCOLS list: WM_DELETE_WINDOW unless closing is denied, then WM_TAKE_FOCUS for a window that denies focus. */
  function ProtocolsFor(f: WindowFlags): (ps: seq<Protocol>)
    ensures |ps| <= 2
    ensures DeleteWindow in ps <==> !f.noClose
    ensures TakeFocus in ps <==> f.denyFocus
    ensures |ps| == 2 ==> ps == [DeleteWindow, TakeFocus]
  {
    (if !f.noClose then [DeleteWindow] else []) + (if f.denyFocus then [TakeFocus] else [])
  }

  /**
   * The _NET_WM_WINDOW_TYPE atoms, in the order written: the window's own
   * type replaces the property, then MENU (drop-down and pop-up menus) and
   * DOCK (every type but NORMAL) are appended, each only when the server
   * knows its atom.
   */
  function WindowTypeAtoms(t: WmType, at: Atoms): (ts: seq<TypeAtom>)
    ensures |ts| <= 3
    ensures OwnType(t) in ts <==> at.windowTypeOwn
    ensures forall u :: OwnType(u) in ts ==> u == t
    ensures TypeMenu in ts <==> (t == DropdownMenu || t == PopupMenu) && at.windowTypeMenu
    ensures TypeDock in ts <==> t != Normal && at.windowTypeDock
    ensures at.windowTypeOwn ==> ts[0] == OwnType(t)
  {
    (if at.windowTypeOwn then [OwnType(t)] else [])
    + (if (t == DropdownMenu || t == PopupMenu) && at.windowTypeMenu then [TypeMenu] else [])
    + (if t != Normal && at.windowTypeDock then [TypeDock] else [])
  }

  /** What the hint block of the first GLX_MapWindow of a window writes. */
  function HintsFor(f: WindowFlags, t: WmType, at: Atoms): (b: HintBlock)
    ensures b.windowType.Some? <==> at.netWmWindowType && WindowTypeAtoms(t, at) != []
    ensures b.windowType.Some? ==> b.windowType.value == WindowTypeAtoms(t, at)
    ensures b.protocols == ProtocolsFor(f)
    ensures b.skipTaskbar <==> t != Normal && at.netWmState && at.netWmStateSkipTaskbar
    ensures b.motif == at.motifWmHints && b.kwm == at.kwmWinDecoration && b.gnome == at.winHints
    ensures b.modal == f.modal && b.aboveBelow == (f.keepAbove || f.keepBelow)
    ensures b.inputHint == (if f.denyFocus then Some(false) else None)
  {
    HintBlock(
      if at.netWmWindowType && WindowTypeAtoms(t, at) != [] then Some(WindowTypeAtoms(t, at)) else None,
      t != Normal && at.netWmState && at.netWmStateSkipTaskbar,
      at.motifWmHints, at.kwmWinDecoration, at.winHints,
      f.modal, f.keepAbove || f.keepBelow,
      if f.denyFocus then Some(false) else None,
      ProtocolsFor(f))
  }

  /**
   * A window that denies focus both refuses keyboard input through the
   * input hint and asks for WM_TAKE_FOCUS, so the window manager offers it
   * focus by message only; every other window accepts focus the default way.
   */
  lemma DenyFocusConsistent(f: WindowFlags, t: WmType, at: Atoms)
    ensures var b := HintsFor(f, t, at);
            (b.inputHint == Some(false) <==> TakeFocus in b.protocols) &&
            (b.inputHint.None? <==> TakeFocus !in b.protocols)
  {
  }

  /**
   * A NORMAL window is never marked a dock, a menu or off the taskbar; a
   * window of any other type is marked a dock whenever the server knows
   * the atoms, a drop-down or pop-up menu also a menu.
   */
  lemma NonNormalMarked(f: WindowFlags, t: WmType, at: Atoms)
    ensures var b := HintsFor(f, t, at);
            t == Normal ==>
              !b.skipTaskbar &&
              (b.windowType.Some? ==> TypeDock !in b.windowType.value
                                      && TypeMenu !in b.windowType.value)
    ensures var b := HintsFor(f, t, at);
            t != Normal && at.netWmWindowType && at.windowTypeDock ==>
              b.windowType.Some? && TypeDock in b.windowType.value
  {
  }
}
