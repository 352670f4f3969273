/**
 * The driver-wide and per-window state of the GLX driver that its entry
 * points change step by step: the count of open drivers sharing one X
 * display, the nominal and effective refresh delays, the focused window
 * and the focus notices posted to windows, the active cursor, the
 * once-only window-manager hints of a mapped window, and the
 * alignment tweak applied to a new window's position. Every Xlib call is
 * replaced by its outcome (an input) or by a record of the call (an
 * output field).
 */
module GlxDriver {
  import opened Wrappers
  import opened GlxHints

  /** An unsigned 32-bit value (Uint, Uint32). */
  type Uint = x: int | 0 <= x < 0x1_0000_0000

  /** Unsigned 32-bit subtraction, wrapping modulo 2^32. */
  function Sub32(a: Uint, b: Uint): (d: Uint)
    ensures a >= b ==> d == a - b
    ensures a < b ==> d == a - b + 0x1_0000_0000
  {
    (a - b) % 0x1_0000_0000
  }

  /**
   * The conversion of an unsigned 32-bit value to a signed int: values of
   * 2^31 and above come out negative (two's complement, as every target
   * the driver runs on does it).
   */
  function ToInt32(u: Uint): (v: int)
    ensures -0x8000_0000 <= v < 0x8000_0000
    ensures v % 0x1_0000_0000 == u
  {
    if u < 0x8000_0000 then u else u - 0x1_0000_0000
  }

  // ---------------------------------------------------------------------
  // nDrivers: GLX_Open, GLX_Close, InitGlobals, DestroyGlobals
  // ---------------------------------------------------------------------

  /** The shared globals: the number of open drivers and whether agDisplay is open. */
  datatype Globals = Globals(nDrivers: int, displayOpen: bool)

  /** No driver count below zero, and the display is open exactly while a driver is. */
  predicate Consistent(g: Globals) {
    g.nDrivers >= 0 && (g.displayOpen <==> g.nDrivers > 0)
  }

  /**
   * The outcomes of the calls GLX_Open makes: XOpenDisplay, the GLX
   * extension query and the creation of the mouse and keyboard devices.
   */
  datatype OpenEnv = OpenEnv(displayOk: bool, glxOk: bool, devicesOk: bool)

  datatype OpenResult = OpenResult(ret: int, after: Globals)

  /**
   * GLX_Open on the globals: the display is opened by the first driver
   * only; a failure to open it leaves the count alone, and a failure to
   * create the devices takes the driver back out again, closing the
   * display when it was the only one.
   */
  function OpenStep(g: Globals, env: OpenEnv): (r: OpenResult)
  {
    if g.nDrivers <= 0 && !(env.displayOk && env.glxOk) then
      OpenResult(-1, g.(displayOpen := false))
    else
      var inited := if g.nDrivers > 0 then g else g.(displayOpen := true);
      if env.devicesOk then OpenResult(0, inited.(nDrivers := g.nDrivers + 1))
      else if g.nDrivers == 0 then OpenResult(-1, Globals(0, false))
      else OpenResult(-1, inited)
  }

  /** GLX_Close on the globals: the last driver out closes the display. */
  function CloseStep(g: Globals): (r: Globals)
    requires g.nDrivers != 0
  {
    if g.nDrivers - 1 == 0 then Globals(0, false) else g.(nDrivers := g.nDrivers - 1)
  }

  /**
   * An open either succeeds and counts one more driver with the display
   * open, or fails and leaves consistent globals as they were.
   */
  lemma OpenCounts(g: Globals, env: OpenEnv)
    requires Consistent(g)
    ensures var r := OpenStep(g, env);
            (r.ret == 0 || r.ret == -1) && Consistent(r.after) &&
            (r.ret == 0 <==> (env.devicesOk && (g.nDrivers > 0 || (env.displayOk && env.glxOk)))) &&
            (r.ret == 0 ==> r.after == Globals(g.nDrivers + 1, true)) &&
            (r.ret == -1 ==> r.after == g)
  {
  }

  /** A close counts one driver fewer, and closing the last one closes the display. */
  lemma CloseCounts(g: Globals)
    requires Consistent(g) && g.nDrivers > 0
    ensures Consistent(CloseStep(g))
    ensures CloseStep(g).nDrivers == g.nDrivers - 1
    ensures !CloseStep(g).displayOpen <==> g.nDrivers == 1
  {
  }

  /** A successful open followed by a close restores the globals. */
  lemma CloseUndoesOpen(g: Globals, env: OpenEnv)
    requires Consistent(g) && OpenStep(g, env).ret == 0
    ensures CloseStep(OpenStep(g, env).after) == g
  {
  }

  /** One call into the driver class. */
  datatype DriverCall = OpenCall(env: OpenEnv) | CloseCall

  /**
   * The globals after a sequence of calls, or None when a close finds no
   * driver open (a fatal error in debug builds).
   */
  function Run(g: Globals, calls: seq<DriverCall>): (r: Option<Globals>)
    decreases |calls|
  {
    if calls == [] then Some(g)
    else match calls[0]
      case OpenCall(env) => Run(OpenStep(g, env).after, calls[1..])
      case CloseCall => if g.nDrivers == 0 then None else Run(CloseStep(g), calls[1..])
  }

  /** The number of calls in a sequence that are closes. */
  function Closes(calls: seq<DriverCall>): (n: nat)
    ensures n <= |calls|
  {
    if calls == [] then 0 else (if calls[0].CloseCall? then 1 else 0) + Closes(calls[1..])
  }

  /**
   * Whatever the outcomes of the X calls, a run from consistent globals
   * that never closes more drivers than are open keeps them consistent,
   * and a run with more close calls than the drivers open at its start
   * plus all its open calls (successful or not) fails: the count never
   * goes below zero.
   */
  lemma {:induction false} RunConsistent(g: Globals, calls: seq<DriverCall>)
    requires Consistent(g)
    ensures Run(g, calls).Some? ==> Consistent(Run(g, calls).value)
    ensures Closes(calls) > g.nDrivers + |calls| - Closes(calls) ==> Run(g, calls).None?
    decreases |calls|
  {
    if calls != [] {
      match calls[0]
      case OpenCall(env) =>
        OpenCounts(g, env);
        RunConsistent(OpenStep(g, env).after, calls[1..]);
      case CloseCall =>
        if g.nDrivers != 0 {
          CloseCounts(g);
          RunConsistent(CloseStep(g), calls[1..]);
        }
    }
  }

  /** The driver-class globals nDrivers and agDisplay. */
  class DriverClass {
    var nDrivers: int
    var displayOpen: bool

    function State(): Globals
      reads this
    {
      Globals(nDrivers, displayOpen)
    }

    constructor ()
      ensures State() == Globals(0, false)
    {
      nDrivers := 0;
      displayOpen := false;
    }

    /** InitGlobals: the first driver opens the display and checks for GLX. */
    method InitGlobals(env: OpenEnv) returns (r: int)
      modifies this
      ensures nDrivers == old(nDrivers)
      ensures r == 0 || r == -1
      ensures old(nDrivers) > 0 ==> r == 0 && displayOpen == old(displayOpen)
      ensures old(nDrivers) <= 0 ==> (r == 0 <==> env.displayOk && env.glxOk) && displayOpen == (r == 0)
    {
      if nDrivers > 0 {
        return 0;
      }
      if !env.displayOk {
        displayOpen := false;
        return -1;
      }
      displayOpen := true;
      if !env.glxOk {
        displayOpen := false;
        return -1;
      }
      return 0;
    }

    /** DestroyGlobals: closes the display once no driver is left. */
    method DestroyGlobals()
      modifies this
      ensures nDrivers == old(nDrivers)
      ensures displayOpen == (old(nDrivers) > 0 && old(displayOpen))
    {
      if nDrivers > 0 {
        return;
      }
      displayOpen := false;
    }

    /** GLX_Open. */
    method Open(env: OpenEnv) returns (r: int)
      modifies this
      ensures OpenResult(r, State()) == OpenStep(old(State()), env)
    {
      r := InitGlobals(env);
      if r == -1 {
        return -1;
      }
      nDrivers := nDrivers + 1;
      if !env.devicesOk {
        nDrivers := nDrivers - 1;
        if nDrivers == 0 {
          DestroyGlobals();
          return -1;
        }
        return -1;
      }
      return 0;
    }

    /** GLX_Close: closing with no driver open is a fatal error in debug builds. */
    method Close()
      requires nDrivers != 0
      modifies this
      ensures State() == CloseStep(old(State()))
    {
      nDrivers := nDrivers - 1;
      if nDrivers == 0 {
        DestroyGlobals();
      }
    }
  }

  // ---------------------------------------------------------------------
  // rNom and rCur: GLX_SetRefreshRate and the render step of the event loop
  // ---------------------------------------------------------------------

  /**
   * The effective delay the event loop computes after rendering: the
   * nominal delay less the time rendering took, both unsigned 32-bit
   * and wrapping, stored into a signed int and raised to at least 1.
   */
  function NextDelay(rNom: Uint, spent: Uint): (d: int)
  {
    if ToInt32(Sub32(rNom, spent)) < 1 then 1 else ToInt32(Sub32(rNom, spent))
  }

  /**
   * The next delay is at least one millisecond and fits an int; when
   * rendering took less than the nominal delay it is the time left of it,
   * and when it took up to 2^31 ms longer it is one millisecond.
   */
  lemma NextDelayBounds(rNom: Uint, spent: Uint)
    ensures 1 <= NextDelay(rNom, spent) < 0x8000_0000
    ensures rNom < 0x8000_0000 && spent < rNom ==> NextDelay(rNom, spent) == rNom - spent
    ensures rNom <= spent <= rNom + 0x8000_0000 ==> NextDelay(rNom, spent) == 1
  {
  }

  /**
   * The render test of GLX_GenericEventLoop: the unsigned difference of the
   * tick counts reaches the nominal delay. The tick counter may wrap between
   * t1 and t2; the difference still counts the ticks elapsed.
   */
  function RenderDue(rNom: Uint, t1: Uint, t2: Uint): (due: bool)
    ensures t1 <= t2 ==> (due <==> t2 - t1 >= rNom)
    ensures t2 < t1 ==> (due <==> t2 + 0x1_0000_0000 - t1 >= rNom)
  {
    Sub32(t2, t1) >= rNom
  }

  /** d ticks after t1, counted on the wrapping counter, a render is due iff d reaches rNom. */
  lemma RenderDueAfter(rNom: Uint, t1: Uint, d: Uint)
    ensures RenderDue(rNom, t1, (t1 + d) % 0x1_0000_0000) <==> d >= rNom
  {
    if t1 + d >= 0x1_0000_0000 {
      assert (t1 + d) % 0x1_0000_0000 == t1 + d - 0x1_0000_0000;
    }
  }

  /** The refresh delays: rNom is a Uint, rCur an int. */
  class Refresh {
    var rNom: Uint
    var rCur: int

    /** rNom never exceeds the one-frame-per-second delay, and rCur is a non-negative int. */
    ghost predicate Valid()
      reads this
    {
      rNom <= 1000 && 0 <= rCur < 0x8000_0000
    }

    constructor ()
      ensures rNom == 20 && rCur == 0 && Valid()
    {
      rNom := 20;
      rCur := 0;
    }

    /**
     * GLX_SetRefreshRate: a rate below one frame per second is refused
     * and nothing changes; otherwise the nominal delay becomes the frame
     * time in milliseconds, rounded down, and the effective delay is reset.
     */
    method SetRefreshRate(fps: int) returns (r: int)
      requires Valid()
      modifies this
      ensures Valid()
      ensures fps < 1 ==> r == -1 && rNom == old(rNom) && rCur == old(rCur)
      ensures fps >= 1 ==> r == 0 && rNom * fps <= 1000 < (rNom + 1) * fps && rCur == 0
    {
      if fps < 1 {
        return -1;
      }
      rNom := 1000 / fps;
      rCur := 0;
      return 0;
    }

    /**
     * One pass of GLX_GenericEventLoop's render test, for tick counts t1
     * (after the last render) and t2 (now): when a render is due, the
     * windows are rendered, t1 becomes tAfter, the tick count after
     * rendering, and rCur is recomputed; otherwise nothing changes.
     */
    method LoopStep(t1: Uint, t2: Uint, tAfter: Uint) returns (rendered: bool, t1': Uint)
      requires Valid()
      modifies this
      ensures Valid() && rNom == old(rNom)
      ensures rendered <==> RenderDue(rNom, t1, t2)
      ensures rendered ==> t1' == tAfter && rCur == NextDelay(rNom, Sub32(tAfter, t2))
      ensures !rendered ==> t1' == t1 && rCur == old(rCur)
    {
      if Sub32(t2, t1) >= rNom {
        Rendered(t2, tAfter);
        return true, tAfter;
      }
      return false, t1;
    }

    /**
     * The render step of GLX_GenericEventLoop: t2 is the tick count
     * before rendering and t1 the one after it.
     */
    method Rendered(t2: Uint, t1: Uint)
      requires Valid()
      modifies this
      ensures Valid() && rNom == old(rNom)
      ensures rCur == NextDelay(rNom, Sub32(t1, t2)) && rCur >= 1
    {
      rCur := ToInt32(Sub32(rNom, Sub32(t1, t2)));
      if rCur < 1 {
        rCur := 1;
      }
      NextDelayBounds(rNom, Sub32(t1, t2));
    }
  }

  // ---------------------------------------------------------------------
  // agWindowFocused: FocusIn and FocusOut in GLX_GetNextEvent and GLX_ProcessEvent
  // ---------------------------------------------------------------------

  /** An AG_Window, by identity. */
  type WinId = nat

  datatype FocusKind = FocusIn | FocusOut

  /** A "window-gainfocus" or "window-lostfocus" event posted to a window. */
  datatype Notice = GainFocus(win: WinId) | LostFocus(win: WinId)

  /** agWindowFocused and the focus notices posted so far. */
  datatype FocusState = FocusState(focused: Option<WinId>, posted: seq<Notice>)

  /** A focus driver event: its type and dev->win. */
  datatype DriverEvent = DriverEvent(kind: FocusKind, win: WinId)

  /**
   * The focused window is the one whose "window-gainfocus" was the last
   * notice posted; with no window focused, the last notice (if any) was a
   * "window-lostfocus".
   */
  predicate Agrees(s: FocusState) {
    match s.focused
    case Some(w) => |s.posted| > 0 && s.posted[|s.posted| - 1] == GainFocus(w)
    case None => |s.posted| > 0 ==> s.posted[|s.posted| - 1].LostFocus?
  }

  /**
   * The focus cases of GLX_GetNextEvent once the X window has been looked
   * up: FocusIn focuses the window and posts "window-gainfocus"; FocusOut
   * posts "window-lostfocus" and clears the focus only for the focused window.
   */
  function Translated(s: FocusState, kind: FocusKind, w: WinId): (t: FocusState)
  {
    match kind
    case FocusIn => FocusState(Some(w), s.posted + [GainFocus(w)])
    case FocusOut =>
      if s.focused == Some(w) then FocusState(None, s.posted + [LostFocus(w)]) else s
  }

  /**
   * The focus cases of GLX_ProcessEvent, which repeat the updates of the
   * translation for the driver event's kind and window.
   */
  function Processed(s: FocusState, ev: DriverEvent): (t: FocusState)
  {
    Translated(s, ev.kind, ev.win)
  }

  /** An X focus event delivered in full: translated, then processed. */
  function Delivered(s: FocusState, kind: FocusKind, w: WinId): (t: FocusState)
  {
    Processed(Translated(s, kind, w), DriverEvent(kind, w))
  }

  /** Both stages keep the focused window in agreement with the notices posted. */
  lemma FocusAgreementKept(s: FocusState, kind: FocusKind, w: WinId)
    requires Agrees(s)
    ensures Agrees(Translated(s, kind, w))
    ensures Agrees(Processed(s, DriverEvent(kind, w)))
    ensures Agrees(Delivered(s, kind, w))
  {
  }

  /**
   * A FocusIn, delivered in full, focuses its window; a FocusOut clears
   * the focus and posts one "window-lostfocus" when it is for the focused
   * window, and changes nothing otherwise.
   */
  lemma FocusTracked(s: FocusState, kind: FocusKind, w: WinId)
    ensures kind == FocusIn ==> Delivered(s, kind, w).focused == Some(w)
    ensures kind == FocusOut && s.focused == Some(w) ==>
              Delivered(s, kind, w) == FocusState(None, s.posted + [LostFocus(w)])
    ensures kind == FocusOut && s.focused != Some(w) ==> Delivered(s, kind, w) == s
  {
  }

  /**
   * As written, one FocusIn posts "window-gainfocus" to its window twice:
   * once when it is translated and once more when it is processed.
   */
  lemma FocusInPostedTwice(s: FocusState, w: WinId)
    ensures Delivered(s, FocusIn, w).posted == s.posted + [GainFocus(w), GainFocus(w)]
    ensures |Delivered(s, FocusIn, w).posted| == |s.posted| + 2
  {
  }

  /**
   * The translation stage with the notice left to the processing stage
   * alone: FocusIn still records the focused window but posts nothing.
   */
  function TranslatedOnce(s: FocusState, kind: FocusKind, w: WinId): (t: FocusState)
  {
    match kind
    case FocusIn => FocusState(Some(w), s.posted)
    case FocusOut => Translated(s, kind, w)
  }

  /** An X focus event delivered in full with the corrected translation. */
  function DeliveredOnce(s: FocusState, kind: FocusKind, w: WinId): (t: FocusState)
  {
    Processed(TranslatedOnce(s, kind, w), DriverEvent(kind, w))
  }

  /**
   * With the corrected translation every focus event posts at most one
   * notice, a FocusIn exactly one "window-gainfocus"; the focus it leaves
   * is the same as as written, and agreement is kept.
   */
  lemma DeliveredOncePostsOne(s: FocusState, kind: FocusKind, w: WinId)
    ensures kind == FocusIn ==> DeliveredOnce(s, kind, w).posted == s.posted + [GainFocus(w)]
    ensures kind == FocusOut ==> DeliveredOnce(s, kind, w) == Delivered(s, kind, w)
    ensures |DeliveredOnce(s, kind, w).posted| <= |s.posted| + 1
    ensures DeliveredOnce(s, kind, w).focused == Delivered(s, kind, w).focused
    ensures Agrees(s) ==> Agrees(DeliveredOnce(s, kind, w))
  {
  }

  /** agWindowFocused and the notices posted to windows. */
  class FocusTracker {
    var focused: Option<WinId>
    var posted: seq<Notice>

    function State(): FocusState
      reads this
    {
      FocusState(focused, posted)
    }

    constructor ()
      ensures State() == FocusState(None, [])
    {
      focused := None;
      posted := [];
    }

    /**
     * The FocusIn and FocusOut cases of GLX_GetNextEvent: an X window
     * that is not one of ours fails with -1 and changes nothing;
     * otherwise the focus is updated and the driver event returned.
     */
    method Translate(kind: FocusKind, xw: nat, windows: map<nat, WinId>)
      returns (r: int, ev: Option<DriverEvent>)
      modifies this
      ensures xw !in windows ==> r == -1 && ev == None && State() == old(State())
      ensures xw in windows ==>
                r == 1 && ev == Some(DriverEvent(kind, windows[xw])) &&
                State() == Translated(old(State()), kind, windows[xw])
    {
      if xw !in windows {
        return -1, None;
      }
      var win := windows[xw];
      if kind == FocusIn {
        focused := Some(win);
        posted := posted + [GainFocus(win)];
      } else if focused == Some(win) {
        posted := posted + [LostFocus(win)];
        focused := None;
      }
      return 1, Some(DriverEvent(kind, win));
    }

    /** The AG_DRIVER_FOCUS_IN and AG_DRIVER_FOCUS_OUT cases of GLX_ProcessEvent. */
    method Process(ev: DriverEvent)
      modifies this
      ensures State() == Processed(old(State()), ev)
    {
      if ev.kind == FocusIn {
        focused := Some(ev.win);
        posted := posted + [GainFocus(ev.win)];
      } else if Some(ev.win) == focused {
        posted := posted + [LostFocus(ev.win)];
        focused := None;
      }
    }
  }

  // ---------------------------------------------------------------------
  // activeCursor: GLX_SetCursor and GLX_UnsetCursor
  // ---------------------------------------------------------------------

  /** An XDefineCursor (cursor i of the driver) or XUndefineCursor call on the driver's window. */
  datatype CursorCall = Define(cursor: nat) | Undefine

  /** The cursor the X server shows in the window after the calls made: the default one, 0, until one is defined. */
  function Shown(calls: seq<CursorCall>): (c: nat)
    ensures calls != [] && calls[|calls| - 1].Undefine? ==> c == 0
  {
    if calls == [] then 0
    else match calls[|calls| - 1]
      case Define(i) => i
      case Undefine => 0
  }

  /**
   * The driver's cursors (index 0 is the default cursor, drv->cursors[0]),
   * their visible flags, the active one and the cursor calls made on its window.
   */
  class CursorState {
    var activeCursor: nat
    var visible: seq<bool>
    var calls: seq<CursorCall>

    /** The active cursor is one of the driver's, and it is the one the server shows. */
    ghost predicate Valid()
      reads this
    {
      activeCursor < |visible| && Shown(calls) == activeCursor
    }

    constructor (vis: seq<bool>)
      requires |vis| >= 1
      ensures activeCursor == 0 && visible == vis && calls == [] && Valid()
    {
      activeCursor := 0;
      visible := vis;
      calls := [];
    }

    /**
     * GLX_SetCursor: nothing happens when the cursor is already active;
     * otherwise the default cursor is restored by undefining the window's
     * cursor, any other is defined, and the cursor becomes the active and
     * visible one.
     */
    method SetCursor(ac: nat) returns (r: int)
      requires Valid() && ac < |visible|
      modifies this
      ensures Valid() && r == 0 && activeCursor == ac
      ensures old(activeCursor) == ac ==> visible == old(visible) && calls == old(calls)
      ensures old(activeCursor) != ac ==>
                visible == old(visible)[ac := true] &&
                calls == old(calls) + [if ac == 0 then Undefine else Define(ac)]
    {
      if activeCursor == ac {
        return 0;
      }
      if ac == 0 {
        calls := calls + [Undefine];
      } else {
        calls := calls + [Define(ac)];
      }
      activeCursor := ac;
      visible := visible[ac := true];
      return 0;
    }

    /** GLX_UnsetCursor: the default cursor becomes active unless it already is. */
    method UnsetCursor()
      requires Valid()
      modifies this
      ensures Valid() && activeCursor == 0 && visible == old(visible)
      ensures old(activeCursor) == 0 ==> calls == old(calls)
      ensures old(activeCursor) != 0 ==> calls == old(calls) + [Undefine]
    {
      if activeCursor == 0 {
        return;
      }
      calls := calls + [Undefine];
      activeCursor := 0;
    }
  }

  // ---------------------------------------------------------------------
  // wmHintsSet: the hint block of GLX_MapWindow
  // ---------------------------------------------------------------------

  /** A driver's X window: whether its hints were set, the hint blocks written and the number of XMapWindow calls. */
  class MappedWindow {
    var wmHintsSet: bool
    var hintsWritten: seq<HintBlock>
    var maps: nat

    /** The hints are written once at most, and exactly when the flag says they were. */
    ghost predicate Valid()
      reads this
    {
      |hintsWritten| <= 1 && (wmHintsSet <==> |hintsWritten| == 1)
    }

    /** Init: a new driver has not set its hints. */
    constructor ()
      ensures !wmHintsSet && hintsWritten == [] && maps == 0 && Valid()
    {
      wmHintsSet := false;
      hintsWritten := [];
      maps := 0;
    }

    /**
     * GLX_MapWindow: the first call writes the window-manager hints for
     * the window's flags, type and the atoms the server knows; every call
     * maps the window.
     */
    method Map(f: WindowFlags, t: WmType, at: Atoms)
      requires Valid()
      modifies this
      ensures Valid() && wmHintsSet && maps == old(maps) + 1
      ensures old(wmHintsSet) ==> hintsWritten == old(hintsWritten)
      ensures !old(wmHintsSet) ==> hintsWritten == [HintsFor(f, t, at)]
    {
      if !wmHintsSet {
        wmHintsSet := true;
        hintsWritten := hintsWritten + [HintsFor(f, t, at)];
      }
      maps := maps + 1;
    }
  }

  // ---------------------------------------------------------------------
  // GLX_TweakAlignment
  // ---------------------------------------------------------------------

  /** enum ag_window_alignment. */
  datatype Alignment = NoAlignment | TL | TC | TR | ML | MC | MR | BL | BC | BR

  /** AG_SizeAlloc: a position and size in signed ints. */
  datatype SizeAlloc = SizeAlloc(x: int, y: int, w: int, h: int)

  predicate TopAligned(al: Alignment) { al == TL || al == TC || al == TR }

  predicate BottomAligned(al: Alignment) { al == BL || al == BC || al == BR }

  /**
   * GLX_TweakAlignment: a top-aligned window moves 50 down, back to the
   * top when its bottom edge, taken as unsigned, passes hMax; a
   * bottom-aligned one moves 100 up, no higher than the top.
   */
  function TweakAlignment(al: Alignment, a: SizeAlloc, wMax: Uint, hMax: Uint): (r: SizeAlloc)
    ensures r.x == a.x && r.w == a.w && r.h == a.h
    ensures !TopAligned(al) && !BottomAligned(al) ==> r == a
  {
    if TopAligned(al) then
      var y := a.y + 50;
      if (y + a.h) % 0x1_0000_0000 > hMax then a.(y := 0) else a.(y := y)
    else if BottomAligned(al) then
      var y := a.y - 100;
      if y < 0 then a.(y := 0) else a.(y := y)
    else a
  }

  /**
   * A top-aligned window of non-negative position and size whose bottom
   * edge fits 32 bits ends either at the top or moved 50 down with its
   * bottom edge within hMax; a bottom-aligned one ends within the screen
   * and never lower than 100 above where it was.
   */
  lemma TweakAlignmentKeepsOnScreen(al: Alignment, a: SizeAlloc, wMax: Uint, hMax: Uint)
    ensures var r := TweakAlignment(al, a, wMax, hMax);
            TopAligned(al) && 0 <= a.y && 0 <= a.h && a.y + 50 + a.h < 0x1_0000_0000 ==>
              r.y == 0 || (r.y == a.y + 50 && r.y + r.h <= hMax)
    ensures var r := TweakAlignment(al, a, wMax, hMax);
            TopAligned(al) && 0 <= a.y && 0 <= a.h && a.y + 50 + a.h < 0x1_0000_0000 ==>
              (r.y == a.y + 50 <==> a.y + 50 + a.h <= hMax)
    ensures var r := TweakAlignment(al, a, wMax, hMax);
            BottomAligned(al) ==> 0 <= r.y && (r.y == 0 || r.y == a.y - 100) && (a.y >= 100 ==> r.y == a.y - 100)
  {
  }
}
