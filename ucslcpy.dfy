/**
 * AG_UCS4Copy (core/unicode/ucslcpy.c): strlcpy for NUL-terminated strings
 * of 32-bit units. The destination size is given in BYTES, so the number of
 * units that fit is bytes / 4, and the return value is the source length in
 * bytes (4 per unit, the terminator not counted).
 */
module UcsCopy {
  import opened CStrings

  /** Bytes per unit (sizeof(Uint32)). */
  const UNIT: nat := 4

  function Min(a: nat, b: nat): nat {
    if a <= b then a else b
  }

  /**
   * Units of the source the copy keeps: none when not even one unit fits,
   * otherwise as many as fit with one unit left for the terminator.
   */
  function KeptUnits(len: nat, bytes: nat): (k: nat)
    ensures k <= len
    ensures bytes / UNIT >= 1 ==> k < bytes / UNIT
  {
    if bytes / UNIT == 0 then 0 else Min(len, bytes / UNIT - 1)
  }

  /**
   * The units the code as written stores from the start of the destination:
   * the kept prefix and a terminator, nothing at all when bytes is 0.
   */
  function Written(src: seq<bv32>, bytes: nat): (w: seq<bv32>)
    requires Terminated(src, 0)
    ensures bytes != 0 ==> Terminated(w, 0)
    ensures bytes != 0 ==> Contents(w, 0) == src[..KeptUnits(Length(src, 0), bytes)]
    ensures bytes == 0 ==> w == []
  {
    if bytes == 0 then []
    else
      var w := src[..KeptUnits(Length(src, 0), bytes)] + [0];
      LengthOfTerminated(src[..KeptUnits(Length(src, 0), bytes)], 0, []);
      assert w == src[..KeptUnits(Length(src, 0), bytes)] + [0] + [];
      w
  }

  /** The copy dropped part of the source. */
  predicate Truncated(src: seq<bv32>, bytes: nat)
    requires Terminated(src, 0)
  {
    KeptUnits(Length(src, 0), bytes) < Length(src, 0)
  }

  /**
   * The do/while of the copy: stores units of the source until it has
   * stored the NUL or `budget` units. On return `n` is 0 exactly when the
   * budget ran out before the NUL was stored.
   */
  method CopyLoop(dst: array<bv32>, src: array<bv32>, budget: nat) returns (d: nat, n: nat)
    requires dst != src
    requires Terminated(src[..], 0)
    requires 1 <= budget <= dst.Length
    modifies dst
    ensures n == 0 ==> d == budget <= Length(src[..], 0)
    ensures n != 0 ==> d == Length(src[..], 0) + 1 <= budget
    ensures forall t :: 0 <= t < d ==> dst[t] == src[t]
    ensures forall t :: d <= t < dst.Length ==> dst[t] == old(dst[t])
  {
    ghost var len := Length(src[..], 0);
    d := 0;
    var s := 0;
    n := budget;
    while true
      invariant d == s <= len
      invariant 1 <= n && s + n == budget
      invariant forall t :: 0 <= t < d ==> dst[t] == src[t]
      invariant forall t :: d <= t < dst.Length ==> dst[t] == old(dst[t])
      decreases n
    {
      dst[d] := src[s];
      d := d + 1;
      s := s + 1;
      assert src[..][s - 1] == dst[d - 1];
      if dst[d - 1] == 0 {
        break;
      }
      n := n - 1;
      if n == 0 {
        break;
      }
    }
  }

  /** The scan `while (*src++ != '\0')` from position `s` to the NUL. */
  method ScanToEnd(src: array<bv32>, s: nat) returns (e: nat)
    requires Terminated(src[..], 0)
    requires s <= Length(src[..], 0)
    ensures e == Length(src[..], 0)
  {
    e := s;
    while src[e] != 0
      invariant s <= e <= Length(src[..], 0)
      decreases Length(src[..], 0) - e
    {
      e := e + 1;
    }
  }

  /** The layout of what the copy stores: the kept units, then the NUL. */
  lemma WrittenShape(src: seq<bv32>, bytes: nat)
    requires Terminated(src, 0)
    requires bytes != 0
    ensures |Written(src, bytes)| == KeptUnits(Length(src, 0), bytes) + 1
    ensures Written(src, bytes)[KeptUnits(Length(src, 0), bytes)] == 0
    ensures forall t :: 0 <= t < KeptUnits(Length(src, 0), bytes) ==> Written(src, bytes)[t] == src[t]
  {
  }

  /**
   * The first half of the copy: `n` starts as the number of units that
   * fit, one is set aside for the terminator, and the do/while runs on the
   * rest. On return `n` is 0 exactly when a terminator is still owed.
   */
  method CopyPhase(dst: array<bv32>, src: array<bv32>, bytes: nat) returns (d: nat, n: nat)
    requires dst != src
    requires Terminated(src[..], 0)
    requires bytes <= UNIT * dst.Length
    modifies dst
    ensures n == 0 ==> d == KeptUnits(Length(src[..], 0), bytes)
    ensures n != 0 ==> bytes != 0 && d == KeptUnits(Length(src[..], 0), bytes) + 1
    ensures n != 0 ==> d == Length(src[..], 0) + 1
    ensures forall t :: 0 <= t < d ==> dst[t] == src[t]
    ensures forall t :: d <= t < dst.Length ==> dst[t] == old(dst[t])
  {
    d := 0;
    n := bytes / UNIT;
    if n != 0 {
      n := n - 1;
      if n != 0 {
        d, n := CopyLoop(dst, src, n);
      }
    }
  }

  /**
   * The copy as written: the do/while above, then (when the unit count
   * ran out) a terminator and a scan to the end of the source for the
   * return value.
   */
  method UCS4Copy(dst: array<bv32>, src: array<bv32>, bytes: nat) returns (r: nat)
    requires dst != src
    requires Terminated(src[..], 0)
    requires bytes <= UNIT * dst.Length
    modifies dst
    ensures r == UNIT * Length(src[..], 0)
    ensures |Written(src[..], bytes)| <= dst.Length
    ensures dst[..|Written(src[..], bytes)|] == Written(src[..], bytes)
    ensures dst[|Written(src[..], bytes)|..] == old(dst[|Written(src[..], bytes)|..])
  {
    ghost var str := src[..];
    ghost var w := Written(str, bytes);
    ghost var orig := dst[..];
    var d, n := CopyPhase(dst, src, bytes);
    var s := d;
    if n == 0 {
      if bytes != 0 {
        dst[d] := 0;
      }
      s := ScanToEnd(src, s);
      s := s + 1;
    }
    assert src[..] == str;
    if bytes != 0 {
      WrittenShape(str, bytes);
    }
    SplitAt(dst[..], orig, w);
    r := (s - 1) * UNIT;
  }

  /**
   * The copy stays inside a destination of `bytes` bytes whenever bytes is
   * 0 or at least one unit, and then keeps the whole source exactly when
   * the source and its terminator fit in the units available.
   */
  lemma WrittenFits(src: seq<bv32>, bytes: nat)
    requires Terminated(src, 0)
    requires bytes == 0 || bytes >= UNIT
    ensures UNIT * |Written(src, bytes)| <= bytes
    ensures bytes != 0 ==> (!Truncated(src, bytes) <==> Length(src, 0) + 1 <= bytes / UNIT)
  {
  }

  /**
   * What the return value tells the caller: the copy was cut short exactly
   * when the return value reaches the whole units of the destination.
   * When bytes is a multiple of the unit this is the documented test
   * `retval >= bytes`.
   */
  lemma TruncationReported(src: seq<bv32>, bytes: nat)
    requires Terminated(src, 0)
    requires bytes >= UNIT
    ensures Truncated(src, bytes) <==> UNIT * Length(src, 0) >= bytes - bytes % UNIT
    ensures bytes % UNIT == 0 ==> (Truncated(src, bytes) <==> UNIT * Length(src, 0) >= bytes)
  {
  }

  /**
   * With a size that is not a multiple of the unit the documented test
   * misses a truncation: two units into 9 bytes keeps one unit, yet the
   * return value 8 is below 9.
   */
  lemma TruncationMissedAtOddSize()
    ensures Length([0x61, 0x62, 0], 0) == 2
    ensures Written([0x61, 0x62, 0], 9) == [0x61, 0]
    ensures Truncated([0x61, 0x62, 0], 9) && UNIT * Length([0x61, 0x62, 0], 0) < 9
  {
    var src: seq<bv32> := [0x61, 0x62, 0];
    LengthOfTerminated([0x61, 0x62], 0, []);
    assert src == [0x61, 0x62] + [0] + [];
    assert KeptUnits(2, 9) == 1;
    assert src[..1] + [0] == [0x61, 0];
  }

  /**
   * A size of 1 to 3 bytes holds no unit, yet the code as written still
   * stores a whole 4-byte terminator.
   */
  lemma SmallSizeOverflows(src: seq<bv32>, bytes: nat)
    requires Terminated(src, 0)
    requires 1 <= bytes < UNIT
    ensures Written(src, bytes) == [0]
    ensures UNIT * |Written(src, bytes)| > bytes
  {
  }

  /** The intended copy: a terminator only where a whole unit fits. */
  function WrittenFixed(src: seq<bv32>, bytes: nat): (w: seq<bv32>)
    requires Terminated(src, 0)
  {
    if bytes / UNIT == 0 then [] else Written(src, bytes)
  }

  /**
   * The intended copy never stores past `bytes` bytes, terminates whenever
   * a unit fits, and keeps a prefix of the source.
   */
  lemma WrittenFixedFits(src: seq<bv32>, bytes: nat)
    requires Terminated(src, 0)
    ensures UNIT * |WrittenFixed(src, bytes)| <= bytes
    ensures bytes >= UNIT ==> Terminated(WrittenFixed(src, bytes), 0)
    ensures bytes >= UNIT ==>
              Contents(WrittenFixed(src, bytes), 0) == src[..KeptUnits(Length(src, 0), bytes)]
    ensures bytes < UNIT ==> WrittenFixed(src, bytes) == []
  {
  }
}
