/**
 * Keyboard state in the GLX driver: the translation of an X keycode to an
 * Agar key (LookupKeyCode), the modifier masks read once from the X
 * modifier map (InitModifierMasks), and the rebuild of the key-state array
 * and modifier word from the 32-byte key vector of a KeymapNotify event
 * (UpdateKeyboard). The X server's keycode-to-keysym lookup and the
 * driver's two keysym tables are inputs.
 */
module GlxKeyboard {
  import opened Wrappers

  /** An X keysym (an unsigned value; the driver shifts and masks it as such). */
  type KeySym = nat

  // Agar key symbols (AG_KEY_*) and modifier bits (AG_KEYMOD_*) the driver names.
  const KEY_NONE: nat := 0
  const KEY_NUMLOCK: nat := 300
  const KEY_CAPSLOCK: nat := 301
  const KEY_RSHIFT: nat := 303
  const KEY_LSHIFT: nat := 304
  const KEY_RCTRL: nat := 305
  const KEY_LCTRL: nat := 306
  const KEY_RALT: nat := 307
  const KEY_LALT: nat := 308
  const KEY_RMETA: nat := 309
  const KEY_LMETA: nat := 310

  const KEYMOD_LSHIFT: bv32 := 0x0001
  const KEYMOD_RSHIFT: bv32 := 0x0002
  const KEYMOD_LCTRL: bv32 := 0x0040
  const KEYMOD_RCTRL: bv32 := 0x0080
  const KEYMOD_LALT: bv32 := 0x0100
  const KEYMOD_RALT: bv32 := 0x0200
  const KEYMOD_LMETA: bv32 := 0x0400
  const KEYMOD_RMETA: bv32 := 0x0800
  const KEYMOD_NUMLOCK: bv32 := 0x1000
  const KEYMOD_CAPSLOCK: bv32 := 0x2000
  const KEYMOD_MODE: bv32 := 0x4000

  // X11 values: the Lock modifier bit and the keysyms of the modifier keys.
  const LockMask: bv32 := 2
  const XK_Mode_switch: KeySym := 0xff7e
  const XK_Num_Lock: KeySym := 0xff7f
  const XK_Meta_L: KeySym := 0xffe7
  const XK_Meta_R: KeySym := 0xffe8
  const XK_Alt_L: KeySym := 0xffe9
  const XK_Alt_R: KeySym := 0xffea

  /**
   * The server's keycode-to-keysym map (group 0, level 0) and the driver's
   * translation tables for the miscellany (0xff..) and XKB (0xfe..) keysym
   * classes, indexed by the low byte of the keysym.
   */
  datatype Keymap = Keymap(keysym: nat -> KeySym, misc: seq<nat>, xkb: seq<nat>)

  predicate ValidKeymap(km: Keymap) {
    |km.misc| == 256 && |km.xkb| == 256
  }

  // ---------------------------------------------------------------------
  // LookupKeyCode
  // ---------------------------------------------------------------------

  /**
   * The Agar key for an X keycode, dispatching on the keysym class (the
   * keysym shifted right by 8): None (AG_KEY_NONE, return 0) when the
   * keycode has no keysym; the miscellany table for class 0xff, the XKB
   * table for class 0xfe; any other class gives the keysym's low byte, so
   * Latin-1 keys map to their own code.
   */
  function LookupKeyCode(km: Keymap, kc: nat): (r: Option<nat>)
    requires ValidKeymap(km)
    ensures r.None? <==> km.keysym(kc) == 0
    ensures r.Some? && km.keysym(kc) / 256 == 0xff ==> r.value in km.misc
    ensures r.Some? && km.keysym(kc) / 256 == 0xfe ==> r.value in km.xkb
    ensures r.Some? && km.keysym(kc) / 256 != 0xff && km.keysym(kc) / 256 != 0xfe ==>
              r.value < 256 && r.value == km.keysym(kc) % 256
  {
    if km.keysym(kc) == 0 then None
    else if km.keysym(kc) / 256 == 0xff then Some(km.misc[km.keysym(kc) % 256])
    else if km.keysym(kc) / 256 == 0xfe then Some(km.xkb[km.keysym(kc) % 256])
    else Some(km.keysym(kc) % 256)
  }

  /** A keysym of the Latin-1 block (class 0) gives the key of the same number. */
  lemma LatinKeysKeepTheirCode(km: Keymap, kc: nat)
    requires ValidKeymap(km) && 0 < km.keysym(kc) < 0x100
    ensures LookupKeyCode(km, kc) == Some(km.keysym(kc))
  {
  }

  // ---------------------------------------------------------------------
  // InitModifierMasks
  // ---------------------------------------------------------------------

  /** Flat index of entry c of row r of a modifier map with n keys per modifier. */
  lemma RowIndexFits(r: nat, c: nat, n: nat)
    requires r < 8 && c < n
    ensures r * n + c < 8 * n
  {
    assert r * n + c < (r + 1) * n;
    assert (r + 1) * n <= 8 * n;
  }

  /** The keysym of entry c of row r (modifier r, Shift is 0) of the modifier map. */
  function SymAt(km: Keymap, codes: seq<bv8>, n: nat, r: nat, c: nat): KeySym
    requires r < 8 && c < n && 8 * n <= |codes|
  {
    RowIndexFits(r, c, n);
    km.keysym(codes[r * n + c] as nat)
  }

  /** Entry (r, c) lies among the rows 3..7 scanned before position (i, j). */
  predicate Scanned(r: nat, c: nat, i: nat, j: nat, n: nat) {
    3 <= r < 8 && c < n && (r < i || (r == i && c < j))
  }

  /**
   * The row (3..7, for Mod1..Mod5) of the last entry holding `target`
   * among those scanned before position (i, j), rows in order and each row
   * left to right.
   */
  function ModRow(km: Keymap, codes: seq<bv8>, n: nat, target: KeySym, i: nat, j: nat): (r: Option<nat>)
    requires 3 <= i <= 8 && j <= n && (i == 8 ==> j == 0) && 8 * n <= |codes|
    ensures r.Some? ==> 3 <= r.value <= i && r.value < 8
    decreases i, j
  {
    if j > 0 then
      if SymAt(km, codes, n, i, j - 1) == target then Some(i)
      else ModRow(km, codes, n, target, i, j - 1)
    else if i == 3 then None
    else ModRow(km, codes, n, target, i - 1, n)
  }

  /**
   * ModRow finds nothing exactly when no scanned entry holds the keysym,
   * and otherwise a row that holds it after which no scanned row does.
   */
  lemma {:induction false} ModRowLast(km: Keymap, codes: seq<bv8>, n: nat, target: KeySym,
                                      i: nat, j: nat)
    requires 3 <= i <= 8 && j <= n && (i == 8 ==> j == 0) && 8 * n <= |codes|
    ensures ModRow(km, codes, n, target, i, j).None? <==>
              forall r, c :: Scanned(r, c, i, j, n) ==> SymAt(km, codes, n, r, c) != target
    ensures ModRow(km, codes, n, target, i, j).Some? ==>
              var row := ModRow(km, codes, n, target, i, j).value;
              (exists c :: Scanned(row, c, i, j, n) && SymAt(km, codes, n, row, c) == target) &&
              forall r, c :: Scanned(r, c, i, j, n) && row < r ==> SymAt(km, codes, n, r, c) != target
    decreases i, j
  {
    if j > 0 {
      if SymAt(km, codes, n, i, j - 1) != target {
        ModRowLast(km, codes, n, target, i, j - 1);
      }
    } else if i > 3 {
      ModRowLast(km, codes, n, target, i - 1, n);
    }
  }

  /** The modifier mask of row r (1 << r). */
  function RowMask(r: nat): bv32
    requires r < 32
  {
    (1 as bv32) << r
  }

  /** The modifier mask of a row, or the mask kept when no row holds the key. */
  function MaskOf(row: Option<nat>, kept: bv32): bv32
    requires row.Some? ==> row.value < 32
  {
    if row.Some? then RowMask(row.value) else kept
  }

  /** The six modifier masks the driver keeps (struct modMasks). */
  datatype MaskSet = MaskSet(lmeta: bv32, rmeta: bv32, lalt: bv32, ralt: bv32, num: bv32, mode: bv32)

  /** One entry of the scan: the mask of the key it holds becomes the row's. */
  function Assign(m: MaskSet, ks: KeySym, mask: bv32): MaskSet {
    if ks == XK_Num_Lock then m.(num := mask)
    else if ks == XK_Alt_L then m.(lalt := mask)
    else if ks == XK_Alt_R then m.(ralt := mask)
    else if ks == XK_Meta_L then m.(lmeta := mask)
    else if ks == XK_Meta_R then m.(rmeta := mask)
    else if ks == XK_Mode_switch then m.(mode := mask)
    else m
  }

  /**
   * The masks after scanning up to position (i, j) from `start`: each key's
   * mask is that of the last row holding it, or its start value.
   */
  function ScanMasks(km: Keymap, codes: seq<bv8>, n: nat, i: nat, j: nat, start: MaskSet): MaskSet
    requires 3 <= i <= 8 && j <= n && (i == 8 ==> j == 0) && 8 * n <= |codes|
  {
    MaskSet(MaskOf(ModRow(km, codes, n, XK_Meta_L, i, j), start.lmeta),
            MaskOf(ModRow(km, codes, n, XK_Meta_R, i, j), start.rmeta),
            MaskOf(ModRow(km, codes, n, XK_Alt_L, i, j), start.lalt),
            MaskOf(ModRow(km, codes, n, XK_Alt_R, i, j), start.ralt),
            MaskOf(ModRow(km, codes, n, XK_Num_Lock, i, j), start.num),
            MaskOf(ModRow(km, codes, n, XK_Mode_switch, i, j), start.mode))
  }

  /** Scanning one more entry of a row is one Assign. */
  lemma ScanMasksNext(km: Keymap, codes: seq<bv8>, n: nat, i: nat, j: nat, start: MaskSet)
    requires 3 <= i < 8 && j < n && 8 * n <= |codes|
    ensures ScanMasks(km, codes, n, i, j + 1, start)
            == Assign(ScanMasks(km, codes, n, i, j, start), SymAt(km, codes, n, i, j), RowMask(i))
  {
    ModRowNext(km, codes, n, XK_Meta_L, i, j);
    ModRowNext(km, codes, n, XK_Meta_R, i, j);
    ModRowNext(km, codes, n, XK_Alt_L, i, j);
    ModRowNext(km, codes, n, XK_Alt_R, i, j);
    ModRowNext(km, codes, n, XK_Num_Lock, i, j);
    ModRowNext(km, codes, n, XK_Mode_switch, i, j);
  }

  /** The first j entries of row i applied to m, one Assign each. */
  function RowScan(km: Keymap, codes: seq<bv8>, n: nat, i: nat, j: nat, m: MaskSet): MaskSet
    requires 3 <= i < 8 && j <= n && 8 * n <= |codes|
  {
    if j == 0 then m
    else Assign(RowScan(km, codes, n, i, j - 1, m), SymAt(km, codes, n, i, j - 1), RowMask(i))
  }

  /** Applying a row's entries in order from the masks at its start gives ScanMasks. */
  lemma {:induction false} RowScanIsScanMasks(km: Keymap, codes: seq<bv8>, n: nat, i: nat, j: nat, start: MaskSet)
    requires 3 <= i < 8 && j <= n && 8 * n <= |codes|
    ensures RowScan(km, codes, n, i, j, ScanMasks(km, codes, n, i, 0, start)) == ScanMasks(km, codes, n, i, j, start)
  {
    if j > 0 {
      RowScanIsScanMasks(km, codes, n, i, j - 1, start);
      ScanMasksNext(km, codes, n, i, j - 1, start);
    }
  }

  /** The end of row i is the start of row i + 1. */
  lemma ScanMasksRow(km: Keymap, codes: seq<bv8>, n: nat, i: nat, start: MaskSet)
    requires 3 <= i < 8 && 8 * n <= |codes|
    ensures ScanMasks(km, codes, n, i + 1, 0, start) == ScanMasks(km, codes, n, i, n, start)
  {
    ModRowRow(km, codes, n, XK_Meta_L, i);
    ModRowRow(km, codes, n, XK_Meta_R, i);
    ModRowRow(km, codes, n, XK_Alt_L, i);
    ModRowRow(km, codes, n, XK_Alt_R, i);
    ModRowRow(km, codes, n, XK_Num_Lock, i);
    ModRowRow(km, codes, n, XK_Mode_switch, i);
  }

  lemma ModRowRow(km: Keymap, codes: seq<bv8>, n: nat, target: KeySym, i: nat)
    requires 3 <= i < 8 && 8 * n <= |codes|
    ensures ModRow(km, codes, n, target, i + 1, 0) == ModRow(km, codes, n, target, i, n)
  {
  }

  /** One more entry of a row: it is the last holder of the keysym when it holds it. */
  lemma ModRowNext(km: Keymap, codes: seq<bv8>, n: nat, target: KeySym, i: nat, j: nat)
    requires 3 <= i < 8 && j < n && 8 * n <= |codes|
    ensures ModRow(km, codes, n, target, i, j + 1)
            == if SymAt(km, codes, n, i, j) == target then Some(i) else ModRow(km, codes, n, target, i, j)
  {
  }

  /**
   * The modifier masks of the lock, mode-switch, Alt and Meta keys,
   * computed once from the X modifier map.
   */
  class ModifierMasks {
    var inited: bool
    var masks: MaskSet

    constructor ()
      ensures !inited
      ensures masks == MaskSet(0, 0, 0, 0, 0, 0)
    {
      inited := false;
      masks := MaskSet(0, 0, 0, 0, 0, 0);
    }

    /**
     * InitModifierMasks: the first call scans the rows of Mod1..Mod5 of the
     * modifier map (n keycodes per modifier) and gives each key the mask
     * of the last row holding it; later calls change nothing.
     */
    method Init(km: Keymap, codes: seq<bv8>, n: nat)
      requires 8 * n <= |codes|
      modifies this
      ensures inited
      ensures old(inited) ==> masks == old(masks)
      ensures !old(inited) ==> masks == ScanMasks(km, codes, n, 8, 0, old(masks))
    {
      if inited {
        return;
      }
      inited := true;
      ghost var start := masks;
      var i: nat := 3;
      while i < 8
        invariant 3 <= i <= 8 && inited
        invariant masks == ScanMasks(km, codes, n, i, 0, start)
      {
        masks := ScanRow(km, codes, n, i, masks, start);
        i := i + 1;
      }
    }

    /** The entries of row i, left to right. */
    static method ScanRow(km: Keymap, codes: seq<bv8>, n: nat, i: nat, m: MaskSet, ghost start: MaskSet)
      returns (m': MaskSet)
      requires 3 <= i < 8 && 8 * n <= |codes|
      requires m == ScanMasks(km, codes, n, i, 0, start)
      ensures m' == ScanMasks(km, codes, n, i + 1, 0, start)
    {
      m' := m;
      var j: nat := 0;
      while j < n
        invariant j <= n
        invariant m' == RowScan(km, codes, n, i, j, m)
      {
        m' := Note(m', SymAt(km, codes, n, i, j), RowMask(i));
        j := j + 1;
      }
      RowScanIsScanMasks(km, codes, n, i, n, start);
      ScanMasksRow(km, codes, n, i, start);
    }

    /** One entry of the scan (the switch on the keysym). */
    static method Note(m: MaskSet, ks: KeySym, mask: bv32) returns (m': MaskSet)
      ensures m' == Assign(m, ks, mask)
    {
      m' := m;
      if ks == XK_Num_Lock {
        m' := m'.(num := mask);
      } else if ks == XK_Alt_L {
        m' := m'.(lalt := mask);
      } else if ks == XK_Alt_R {
        m' := m'.(ralt := mask);
      } else if ks == XK_Meta_L {
        m' := m'.(lmeta := mask);
      } else if ks == XK_Meta_R {
        m' := m'.(rmeta := mask);
      } else if ks == XK_Mode_switch {
        m' := m'.(mode := mask);
      }
    }
  }

  // ---------------------------------------------------------------------
  // UpdateKeyboard
  // ---------------------------------------------------------------------

  /** The AG_KEYMOD bit a pressed modifier key adds (the switch on the key). */
  function ModBit(key: nat): (b: bv32)
    ensures b & (KEYMOD_CAPSLOCK | KEYMOD_NUMLOCK | KEYMOD_MODE) == 0
  {
    if key == KEY_LSHIFT then KEYMOD_LSHIFT
    else if key == KEY_RSHIFT then KEYMOD_RSHIFT
    else if key == KEY_LCTRL then KEYMOD_LCTRL
    else if key == KEY_RCTRL then KEYMOD_RCTRL
    else if key == KEY_LALT then KEYMOD_LALT
    else if key == KEY_RALT then KEYMOD_RALT
    else if key == KEY_LMETA then KEYMOD_LMETA
    else if key == KEY_RMETA then KEYMOD_RMETA
    else 0
  }

  /** Bit kc of the 32-byte key vector: keycode kc is down. */
  predicate KeyBit(kv: seq<bv8>, kc: nat)
    requires |kv| == 32 && kc < 256
  {
    kv[kc / 8] & BitOf(kc % 8) != 0
  }

  /** Bit j of a byte, 1 << j, spelled out. */
  function BitOf(j: nat): (b: bv8)
    requires j < 8
    ensures b == (1 as bv8) << j
  {
    if j == 0 then 0x01 else if j == 1 then 0x02 else if j == 2 then 0x04 else if j == 3 then 0x08
    else if j == 4 then 0x10 else if j == 5 then 0x20 else if j == 6 then 0x40 else 0x80
  }

  /** Keycode kc is down and names an Agar key. */
  predicate Pressed(kv: seq<bv8>, km: Keymap, kc: nat)
    requires |kv| == 32 && ValidKeymap(km) && kc < 256
  {
    KeyBit(kv, kc) && LookupKeyCode(km, kc).Some?
  }

  /** Every key the lookup can give indexes a key-state array of `count` entries. */
  ghost predicate KeysFit(km: Keymap, count: nat)
    requires ValidKeymap(km)
  {
    forall kc: nat :: kc < 256 && LookupKeyCode(km, kc).Some? ==> LookupKeyCode(km, kc).value < count
  }

  /** The key states after zeroing and marking the pressed keycodes below p. */
  function KeysAfter(kv: seq<bv8>, km: Keymap, p: nat, count: nat): (ks: seq<bool>)
    requires |kv| == 32 && ValidKeymap(km) && KeysFit(km, count) && p <= 256
    ensures |ks| == count
  {
    if p == 0 then seq(count, _ => false)
    else if Pressed(kv, km, p - 1) then
      KeysAfter(kv, km, p - 1, count)[LookupKeyCode(km, p - 1).value := true]
    else KeysAfter(kv, km, p - 1, count)
  }

  /** The modifier word after adding the bits of the pressed keycodes below p to ms0. */
  function ModsAfter(kv: seq<bv8>, km: Keymap, p: nat, ms0: bv32): bv32
    requires |kv| == 32 && ValidKeymap(km) && p <= 256
  {
    if p == 0 then ms0
    else if Pressed(kv, km, p - 1) then
      ModsAfter(kv, km, p - 1, ms0) | ModBit(LookupKeyCode(km, p - 1).value)
    else ModsAfter(kv, km, p - 1, ms0)
  }

  /**
   * The modifier bits read from the pointer state: CAPSLOCK for the Lock
   * modifier, MODE and NUMLOCK for the masks of the mode-switch and
   * Num Lock keys; nothing when the pointer query fails.
   */
  function PointerMods(pointer: Option<bv32>, masks: MaskSet): (ms: bv32)
    ensures ms & !(KEYMOD_CAPSLOCK | KEYMOD_NUMLOCK | KEYMOD_MODE) == 0
  {
    if pointer.None? then 0
    else
      (if pointer.value & LockMask != 0 then KEYMOD_CAPSLOCK else 0)
      | (if pointer.value & masks.mode != 0 then KEYMOD_MODE else 0)
      | (if pointer.value & masks.num != 0 then KEYMOD_NUMLOCK else 0)
  }

  /**
   * A key is marked pressed exactly when some keycode whose bit is set in
   * the key vector looks up to it.
   */
  lemma {:induction false} KeysAfterPressed(kv: seq<bv8>, km: Keymap, p: nat, count: nat, key: nat)
    requires |kv| == 32 && ValidKeymap(km) && KeysFit(km, count) && p <= 256 && key < count
    ensures KeysAfter(kv, km, p, count)[key] <==>
              exists kc: nat :: kc < p && Pressed(kv, km, kc) && LookupKeyCode(km, kc).value == key
  {
    if p > 0 {
      KeysAfterPressed(kv, km, p - 1, count, key);
    }
  }

  /** Two modifier keys' bits overlap only when they are the same key. */
  lemma ModBitsDisjoint(k1: nat, k2: nat)
    requires ModBit(k2) != 0
    ensures ModBit(k1) & ModBit(k2) != 0 <==> k1 == k2
  {
  }

  /** The modifier word holds the bit of `key`. */
  predicate HasMod(ms: bv32, key: nat) {
    ms & ModBit(key) != 0
  }

  /**
   * The bit of a Shift, Ctrl, Alt or Meta key is set exactly when it was
   * already set or the scan marked that key pressed.
   */
  lemma {:induction false} ModsAfterKey(kv: seq<bv8>, km: Keymap, p: nat, count: nat, ms0: bv32, key: nat)
    requires |kv| == 32 && ValidKeymap(km) && KeysFit(km, count) && p <= 256
    requires key < count && ModBit(key) != 0
    ensures HasMod(ModsAfter(kv, km, p, ms0), key) <==> HasMod(ms0, key) || KeysAfter(kv, km, p, count)[key]
  {
    if p > 0 {
      ModsAfterKey(kv, km, p - 1, count, ms0, key);
      ModsAfterKeyStep(kv, km, p, count, ms0, key);
    }
  }

  /** One keycode more: the bit and the key's entry change together. */
  lemma ModsAfterKeyStep(kv: seq<bv8>, km: Keymap, p: nat, count: nat, ms0: bv32, key: nat)
    requires |kv| == 32 && ValidKeymap(km) && KeysFit(km, count) && 0 < p <= 256
    requires key < count && ModBit(key) != 0
    ensures HasMod(ModsAfter(kv, km, p, ms0), key) <==>
              HasMod(ModsAfter(kv, km, p - 1, ms0), key) || (Pressed(kv, km, p - 1) && LookupKeyCode(km, p - 1).value == key)
  {
    ScanStep(kv, km, p - 1, count, ms0);
    if Pressed(kv, km, p - 1) {
      KeyStep(ModsAfter(kv, km, p, ms0), ModsAfter(kv, km, p - 1, ms0), true, LookupKeyCode(km, p - 1).value, key);
    } else {
      KeyStep(ModsAfter(kv, km, p, ms0), ModsAfter(kv, km, p - 1, ms0), false, 0, key);
    }
  }

  /** One keycode of the scan, seen from a single modifier key's bit. */
  lemma KeyStep(cur: bv32, prev: bv32, added: bool, k: nat, key: nat)
    requires ModBit(key) != 0
    requires cur == if added then prev | ModBit(k) else prev
    ensures HasMod(cur, key) <==> HasMod(prev, key) || (added && k == key)
  {
    if added {
      AddModBit(cur, prev, k, key);
    }
  }

  /** Adding the bit of key k sets the bit of `key` only when they are the same key. */
  lemma AddModBit(cur: bv32, prev: bv32, k: nat, key: nat)
    requires ModBit(key) != 0
    requires cur == prev | ModBit(k)
    ensures cur & ModBit(key) != 0 <==> prev & ModBit(key) != 0 || k == key
  {
    OrStep(cur, prev, ModBit(k), ModBit(key));
    ModBitsDisjoint(k, key);
  }

  lemma OrStep(c: bv32, a: bv32, b: bv32, bit: bv32)
    requires c == a | b
    ensures c & bit != 0 <==> a & bit != 0 || b & bit != 0
  {
  }

  /**
   * After the scan, the bit of a Shift, Ctrl, Alt or Meta key is set in the
   * modifier word exactly when that key is marked pressed: the pointer
   * state contributes only lock and mode bits.
   */
  lemma ModifierBitIffKeyDown(kv: seq<bv8>, km: Keymap, count: nat, pointer: Option<bv32>, masks: MaskSet, key: nat)
    requires |kv| == 32 && ValidKeymap(km) && KeysFit(km, count)
    requires key < count && ModBit(key) != 0
    ensures HasMod(ModsAfter(kv, km, 256, PointerMods(pointer, masks)), key) <==> KeysAfter(kv, km, 256, count)[key]
  {
    ModsAfterKey(kv, km, 256, count, PointerMods(pointer, masks), key);
    LockBitsOnly(PointerMods(pointer, masks), key);
  }

  /** A word holding only lock and mode bits holds no modifier key's bit. */
  lemma LockBitsOnly(ms: bv32, key: nat)
    requires ms & !(KEYMOD_CAPSLOCK | KEYMOD_NUMLOCK | KEYMOD_MODE) == 0
    ensures !HasMod(ms, key)
  {
  }

  /**
   * Caps Lock, Num Lock and mode switch are never added by a pressed key:
   * their bits in the modifier word come from the pointer state alone.
   */
  lemma {:induction false} LockBitsFromPointer(kv: seq<bv8>, km: Keymap, p: nat, ms0: bv32)
    requires |kv| == 32 && ValidKeymap(km) && p <= 256
    ensures ModsAfter(kv, km, p, ms0) & (KEYMOD_CAPSLOCK | KEYMOD_NUMLOCK | KEYMOD_MODE)
            == ms0 & (KEYMOD_CAPSLOCK | KEYMOD_NUMLOCK | KEYMOD_MODE)
  {
    if p > 0 {
      LockBitsFromPointer(kv, km, p - 1, ms0);
    }
  }

  /** Keycode 8i + j is bit j of byte i of the key vector. */
  lemma PressedAt(kv: seq<bv8>, km: Keymap, i: nat, j: nat)
    requires |kv| == 32 && ValidKeymap(km) && i < 32 && j < 8
    ensures Pressed(kv, km, 8 * i + j) <==>
              kv[i] & BitOf(j) != 0 && LookupKeyCode(km, 8 * i + j).Some?
  {
    assert (8 * i + j) / 8 == i && (8 * i + j) % 8 == j;
  }

  /** One more keycode of the scan. */
  lemma ScanStep(kv: seq<bv8>, km: Keymap, p: nat, count: nat, ms0: bv32)
    requires |kv| == 32 && ValidKeymap(km) && KeysFit(km, count) && p < 256
    ensures Pressed(kv, km, p) ==>
              KeysAfter(kv, km, p + 1, count)
              == KeysAfter(kv, km, p, count)[LookupKeyCode(km, p).value := true] &&
              ModsAfter(kv, km, p + 1, ms0)
              == ModsAfter(kv, km, p, ms0) | ModBit(LookupKeyCode(km, p).value)
    ensures !Pressed(kv, km, p) ==>
              KeysAfter(kv, km, p + 1, count) == KeysAfter(kv, km, p, count) &&
              ModsAfter(kv, km, p + 1, ms0) == ModsAfter(kv, km, p, ms0)
  {
  }

  /** A zero byte of the key vector marks nothing: its eight keycodes are skipped. */
  lemma {:induction false} ZeroByteSkipped(kv: seq<bv8>, km: Keymap, i: nat, j: nat, count: nat, ms0: bv32)
    requires |kv| == 32 && ValidKeymap(km) && KeysFit(km, count) && i < 32 && j <= 8 && kv[i] == 0
    ensures KeysAfter(kv, km, 8 * i + j, count) == KeysAfter(kv, km, 8 * i, count)
    ensures ModsAfter(kv, km, 8 * i + j, ms0) == ModsAfter(kv, km, 8 * i, ms0)
  {
    if j > 0 {
      assert (8 * i + j - 1) / 8 == i;
      assert !KeyBit(kv, 8 * i + j - 1);
      ZeroByteSkipped(kv, km, i, j - 1, count, ms0);
    }
  }

  /** The keyboard: one state per Agar key, and the modifier word. */
  class Keyboard {
    const keyState: array<bool>
    var modState: bv32

    constructor (count: nat)
      ensures keyState.Length == count && fresh(keyState) && modState == 0
    {
      keyState := new bool[count];
      modState := 0;
    }

    /**
     * UpdateKeyboard: after the modifier masks are initialised, every key
     * is released and then marked pressed when its keycode's bit is set in
     * the key vector; the modifier word gathers the pointer's lock state
     * and one bit per pressed Shift, Ctrl, Alt or Meta key; finally the
     * Caps Lock and Num Lock entries mirror the modifier word.
     */
    method Update(masks: ModifierMasks, km: Keymap, codes: seq<bv8>, n: nat,
                  pointer: Option<bv32>, kv: seq<bv8>)
      requires |kv| == 32 && ValidKeymap(km) && 8 * n <= |codes|
      requires KEY_CAPSLOCK < keyState.Length && KEY_NUMLOCK < keyState.Length
      requires KeysFit(km, keyState.Length)
      modifies this, keyState, masks
      ensures masks.inited
      ensures old(masks.inited) ==> masks.masks == old(masks.masks)
      ensures !old(masks.inited) ==> masks.masks == ScanMasks(km, codes, n, 8, 0, old(masks.masks))
      ensures modState == ModsAfter(kv, km, 256, PointerMods(pointer, masks.masks))
      ensures keyState[..] == KeysAfter(kv, km, 256, keyState.Length)
                                [KEY_CAPSLOCK := modState & KEYMOD_CAPSLOCK != 0]
                                [KEY_NUMLOCK := modState & KEYMOD_NUMLOCK != 0]
    {
      masks.Init(km, codes, n);
      var ms := PointerMods(pointer, masks.masks);
      ms := MarkPressed(km, kv, ms);
      keyState[KEY_CAPSLOCK] := ms & KEYMOD_CAPSLOCK != 0;
      keyState[KEY_NUMLOCK] := ms & KEYMOD_NUMLOCK != 0;
      modState := ms;
    }

    /** The key states and the modifier word are those of the scan up to keycode p. */
    ghost predicate MarkedUpTo(kv: seq<bv8>, km: Keymap, p: nat, ms: bv32, ms0: bv32)
      requires |kv| == 32 && ValidKeymap(km) && KeysFit(km, keyState.Length) && p <= 256
      reads keyState
    {
      keyState[..] == KeysAfter(kv, km, p, keyState.Length) && ms == ModsAfter(kv, km, p, ms0)
    }

    /**
     * The memset and the scan of the key vector: every key released, then
     * each pressed keycode's key marked and its modifier bit added to ms0.
     */
    method MarkPressed(km: Keymap, kv: seq<bv8>, ms0: bv32) returns (ms: bv32)
      requires |kv| == 32 && ValidKeymap(km) && KeysFit(km, keyState.Length)
      modifies keyState
      ensures keyState[..] == KeysAfter(kv, km, 256, keyState.Length)
      ensures ms == ModsAfter(kv, km, 256, ms0)
    {
      ms := ms0;
      ReleaseAll();
      var i: nat := 0;
      while i < 32
        invariant i <= 32
        invariant MarkedUpTo(kv, km, 8 * i, ms, ms0)
      {
        if kv[i] != 0 {
          ms := MarkByte(km, kv, i, ms, ms0);
        } else {
          ZeroByteSkipped(kv, km, i, 8, keyState.Length, ms0);
          assert 8 * (i + 1) == 8 * i + 8;
        }
        i := i + 1;
      }
    }

    /**
     * The memset of the key-state array: every key released. memset clears
     * keyCount bytes, so this takes a key-state entry to be one byte and
     * AG_KEY_RELEASED to be 0.
     */
    method ReleaseAll()
      modifies keyState
      ensures keyState[..] == seq(keyState.Length, _ => false)
    {
      forall k | 0 <= k < keyState.Length {
        keyState[k] := false;
      }
    }

    /** The eight keycodes of byte i of the key vector, in order. */
    method MarkByte(km: Keymap, kv: seq<bv8>, i: nat, ms: bv32, ghost ms0: bv32) returns (ms': bv32)
      requires |kv| == 32 && ValidKeymap(km) && KeysFit(km, keyState.Length) && i < 32
      requires MarkedUpTo(kv, km, 8 * i, ms, ms0)
      modifies keyState
      ensures MarkedUpTo(kv, km, 8 * (i + 1), ms', ms0)
    {
      ms' := ms;
      var j: nat := 0;
      while j < 8
        invariant j <= 8
        invariant MarkedUpTo(kv, km, 8 * i + j, ms', ms0)
      {
        ms' := MarkKey(km, kv, i, j, ms', ms0);
        j := j + 1;
      }
      assert 8 * (i + 1) == 8 * i + 8;
    }

    /** Bit j of byte i: when set and the keycode names a key, mark it and add its modifier bit. */
    method MarkKey(km: Keymap, kv: seq<bv8>, i: nat, j: nat, ms: bv32, ghost ms0: bv32) returns (ms': bv32)
      requires |kv| == 32 && ValidKeymap(km) && KeysFit(km, keyState.Length) && i < 32 && j < 8
      requires MarkedUpTo(kv, km, 8 * i + j, ms, ms0)
      modifies keyState
      ensures MarkedUpTo(kv, km, 8 * i + j + 1, ms', ms0)
    {
      PressedAt(kv, km, i, j);
      ScanStep(kv, km, 8 * i + j, keyState.Length, ms0);
      ms' := ms;
      if kv[i] & BitOf(j) != 0 {
        var key := LookupKeyCode(km, 8 * i + j);
        if key.Some? {
          keyState[key.value] := true;
          ms' := ms | ModBit(key.value);
        }
      }
      assert keyState[..] == KeysAfter(kv, km, 8 * i + j + 1, keyState.Length);
      assert ms' == ModsAfter(kv, km, 8 * i + j + 1, ms0);
    }
  }
}
