/**
 * The conversion routines of gui/unicode.c over C buffers: AG_ImportUnicode
 * and AG_CopyUnicode (bytes to 32-bit units), AG_ExportUnicode (units to
 * UTF-8 bytes) and AG_UCS4Dup. Each routine is a method over arrays that
 * keeps the code's loops, and is proved against a value-level function of
 * the input string; the lemmas below those functions state what the
 * routines promise, and where the code falls short of its own comments.
 */
module Unicode {
  import opened Wrappers
  import opened CStrings
  import opened Utf8

  /** enum ag_unicode_conv. */
  datatype Conversion = FromUsAscii | FromUtf8 | ToUtf8

  function Min(a: nat, b: nat): nat {
    if a <= b then a else b
  }

  // ---------------------------------------------------------------------
  // US-ASCII
  // ---------------------------------------------------------------------

  /** A byte zero-extended to a unit (the `unsigned char` cast). */
  function WidenByte(b: bv8): (u: bv32)
    ensures u < 0x100 && u as bv8 == b
  {
    b as bv32
  }

  /** Each byte zero-extended to a unit. */
  function Widen(cs: seq<bv8>): (u: seq<bv32>)
    ensures |u| == |cs|
    ensures forall k :: 0 <= k < |cs| ==> u[k] == WidenByte(cs[k])
  {
    seq(|cs|, k requires 0 <= k < |cs| => WidenByte(cs[k]))
  }

  /** A string of 7-bit bytes. */
  predicate IsAscii(cs: seq<bv8>) {
    forall k :: 0 <= k < |cs| ==> cs[k] < 0x80
  }

  /**
   * On 7-bit text the UTF-8 decoder agrees with the US-ASCII import, and
   * the encoder gives the bytes back.
   */
  lemma {:induction false} AsciiAgrees(cs: seq<bv8>, mask3: bv8)
    requires IsAscii(cs)
    ensures Decodable(cs) && Decode(cs, mask3) == Widen(cs)
    ensures AllEncodable(Widen(cs)) && EncodeAll(Widen(cs)) == cs
  {
    AsciiDecode(cs, mask3);
    AsciiEncodeAll(cs);
  }

  lemma {:induction false} AsciiDecode(cs: seq<bv8>, mask3: bv8)
    requires IsAscii(cs)
    ensures Decodable(cs) && Decode(cs, mask3) == Widen(cs)
    decreases |cs|
  {
    if cs != [] {
      assert CharLength(cs[0]) == 1;
      assert IsAscii(cs[1..]);
      AsciiDecode(cs[1..], mask3);
      assert cs[..1] == [cs[0]];
      assert Widen(cs) == [WidenByte(cs[0])] + Widen(cs[1..]);
    }
  }

  lemma {:induction false} AsciiEncodeAll(cs: seq<bv8>)
    requires IsAscii(cs)
    ensures AllEncodable(Widen(cs)) && EncodeAll(Widen(cs)) == cs
  {
    if cs != [] {
      AsciiEncodeAll(cs[1..]);
      var w := Widen(cs);
      assert w[1..] == Widen(cs[1..]);
      assert EncodeChar(w[0]) == [cs[0]];
      assert cs == [cs[0]] + cs[1..];
    }
  }

  // ---------------------------------------------------------------------
  // Reading one sequence (the body of the decoders' switch)
  // ---------------------------------------------------------------------

  /**
   * The decoders' switch on the lead byte: the unit assembled from the
   * sequence at `i`, and the index of the last byte it took.
   */
  method ReadSequence(s: array<bv8>, i: nat, mask3: bv8) returns (u: bv32, last: nat)
    requires i < s.Length && i + Width(s[i]) <= s.Length
    ensures u == DecodeSequence(s[i..i + Width(s[i])], mask3)
    ensures last == i + Width(s[i]) - 1
  {
    var n := CharLength(s[i]);
    if n == 1 {
      u, last := s[i] as bv32, i;
    } else if n == 2 {
      u, last := ReadTwo(s, i, mask3);
    } else if n == 3 {
      u, last := ReadThree(s, i, mask3);
    } else if n == 4 {
      u, last := ReadFour(s, i, mask3);
    } else if n == 5 {
      u, last := ReadFive(s, i, mask3);
    } else if n == 6 {
      u, last := ReadSix(s, i, mask3);
    } else {
      u, last := REPLACEMENT, i;
    }
  }

  /**
   * ReadSequence at a position of the string `str` held in `s` whose
   * sequence ends inside `str`: the unit decoded from those bytes, and the
   * index of the last of them.
   */
  method ReadUnit(s: array<bv8>, ghost str: seq<bv8>, i: nat, mask3: bv8)
    returns (u: bv32, last: nat)
    requires |str| < s.Length && forall k :: 0 <= k < |str| ==> s[k] == str[k]
    requires i < |str| && i + Width(str[i]) <= |str|
    ensures last == i + Width(str[i]) - 1
    ensures u == DecodeSequence(str[i..i + Width(str[i])], mask3)
  {
    assert s[i] == str[i];
    u, last := ReadSequence(s, i, mask3);
    assert s[i..last + 1] == str[i..last + 1];
  }

  /** Case 2 of the switch: the lead byte's payload, then one continuation byte. */
  method ReadTwo(s: array<bv8>, i: nat, mask3: bv8) returns (u: bv32, last: nat)
    requires i + 2 <= s.Length && CharLength(s[i]) == 2
    ensures u == DecodeSequence(s[i..i + 2], mask3)
    ensures last == i + 1
  {
    last := i;
    u := (s[last] & 0x3f) as bv32 << 6;
    last := last + 1;
    u := u | (s[last] & 0x3f) as bv32;
    Unfold2(s[i..i + 2], mask3);
  }

  /** Case 3 of the switch: the lead byte's payload, then two continuation bytes. */
  method ReadThree(s: array<bv8>, i: nat, mask3: bv8) returns (u: bv32, last: nat)
    requires i + 3 <= s.Length && CharLength(s[i]) == 3
    ensures u == DecodeSequence(s[i..i + 3], mask3)
    ensures last == i + 2
  {
    last := i;
    u := (s[last] & mask3) as bv32 << 12;
    last := last + 1;
    u := u | ((s[last] & 0x3f) as bv32 << 6);
    last := last + 1;
    u := u | (s[last] & 0x3f) as bv32;
    Unfold3(s[i..i + 3], mask3);
  }

  /** Case 4 of the switch: the lead byte's payload, then three continuation bytes. */
  method ReadFour(s: array<bv8>, i: nat, mask3: bv8) returns (u: bv32, last: nat)
    requires i + 4 <= s.Length && CharLength(s[i]) == 4
    ensures u == DecodeSequence(s[i..i + 4], mask3)
    ensures last == i + 3
  {
    last := i;
    u := (s[last] & 0x07) as bv32 << 18;
    last := last + 1;
    u := u | ((s[last] & 0x3f) as bv32 << 12);
    last := last + 1;
    u := u | ((s[last] & 0x3f) as bv32 << 6);
    last := last + 1;
    u := u | (s[last] & 0x3f) as bv32;
    Unfold4(s[i..i + 4], mask3);
  }

  /** Case 5 of the switch: the lead byte's payload, then four continuation bytes. */
  method ReadFive(s: array<bv8>, i: nat, mask3: bv8) returns (u: bv32, last: nat)
    requires i + 5 <= s.Length && CharLength(s[i]) == 5
    ensures u == DecodeSequence(s[i..i + 5], mask3)
    ensures last == i + 4
  {
    last := i;
    u := (s[last] & 0x03) as bv32 << 24;
    last := last + 1;
    u := u | ((s[last] & 0x3f) as bv32 << 18);
    last := last + 1;
    u := u | ((s[last] & 0x3f) as bv32 << 12);
    last := last + 1;
    u := u | ((s[last] & 0x3f) as bv32 << 6);
    last := last + 1;
    u := u | (s[last] & 0x3f) as bv32;
    Unfold5(s[i..i + 5], mask3);
  }

  /** Case 6 of the switch: the lead byte's payload, then five continuation bytes. */
  method ReadSix(s: array<bv8>, i: nat, mask3: bv8) returns (u: bv32, last: nat)
    requires i + 6 <= s.Length && CharLength(s[i]) == 6
    ensures u == DecodeSequence(s[i..i + 6], mask3)
    ensures last == i + 5
  {
    last := i;
    u := (s[last] & 0x01) as bv32 << 30;
    last := last + 1;
    u := u | ((s[last] & 0x3f) as bv32 << 24);
    last := last + 1;
    u := u | ((s[last] & 0x3f) as bv32 << 18);
    last := last + 1;
    u := u | ((s[last] & 0x3f) as bv32 << 12);
    last := last + 1;
    u := u | ((s[last] & 0x3f) as bv32 << 6);
    last := last + 1;
    u := u | (s[last] & 0x3f) as bv32;
    Unfold6(s[i..i + 6], mask3);
  }

  // ---------------------------------------------------------------------
  // AG_ImportUnicode
  // ---------------------------------------------------------------------

  /** Units the import allocates: pLen, or room for the string and a NUL. */
  function ImportBufferLength(sLen: nat, pLen: nat): nat {
    if pLen != 0 then pLen else sLen + 1
  }

  /**
   * A fresh buffer of the requested length holding the converted string and
   * a terminator. The decoder reads continuation bytes without checking for
   * the end, and stores without checking the buffer length, so both are
   * demanded of the caller: a string whose sequences end before its NUL,
   * and (when pLen is given) a buffer long enough for the result.
   * Any other conversion leaves the buffer as allocated.
   */
  method ImportUnicode(conv: Conversion, s: array<bv8>, pLen: nat) returns (ucs: array<bv32>)
    requires Terminated(s[..], 0)
    requires conv == FromUsAscii ==> pLen == 0 || Length(s[..], 0) < pLen
    requires conv == FromUtf8 ==> Decodable(Contents(s[..], 0))
    requires conv == FromUtf8 && pLen != 0 ==>
               Decodable(Contents(s[..], 0)) &&
               |Decode(Contents(s[..], 0), LEAD3_MASK_AS_WRITTEN)| < pLen
    ensures fresh(ucs)
    ensures ucs.Length == ImportBufferLength(Length(s[..], 0), pLen)
    ensures conv == FromUsAscii ==>
              ucs[..Length(s[..], 0) + 1] == Widen(Contents(s[..], 0)) + [0]
    ensures conv == FromUtf8 ==>
              var d := Decode(Contents(s[..], 0), LEAD3_MASK_AS_WRITTEN);
              |d| < ucs.Length && ucs[..|d| + 1] == d + [0]
  {
    var sLen := StrLen(s, 0);
    var bufLen := if pLen != 0 then pLen else sLen + 1;
    ucs := new bv32[bufLen];
    match conv {
      case FromUsAscii =>
        WidenInto(s, sLen, Contents(s[..], 0), ucs);
      case FromUtf8 =>
        var _ := DecodeInto(s, sLen, Contents(s[..], 0), ucs);
      case ToUtf8 =>
    }
  }

  /** The US-ASCII loop of AG_ImportUnicode: widen each byte, then a NUL. */
  method WidenInto(s: array<bv8>, sLen: nat, ghost str: seq<bv8>, ucs: array<bv32>)
    requires |str| == sLen < s.Length && str == s[..sLen]
    requires sLen < ucs.Length
    modifies ucs
    ensures ucs[..sLen + 1] == Widen(str) + [0]
  {
    var i := 0;
    while i < sLen
      invariant i <= sLen
      invariant ucs[..i] == Widen(str[..i])
    {
      ucs[i] := s[i] as bv32;
      i := i + 1;
      assert str[..i] == str[..i - 1] + [s[i - 1]];
    }
    ucs[i] := 0;
    assert str[..i] == str;
  }

  /**
   * The UTF-8 loop of AG_ImportUnicode: one unit per sequence, the index
   * advancing past the bytes the sequence took, then a NUL. Returns the
   * number of units stored before the NUL.
   */
  method DecodeInto(s: array<bv8>, sLen: nat, ghost str: seq<bv8>, ucs: array<bv32>)
    returns (j: nat)
    requires |str| == sLen < s.Length && forall k :: 0 <= k < sLen ==> s[k] == str[k]
    requires Decodable(str) && |Decode(str, LEAD3_MASK_AS_WRITTEN)| < ucs.Length
    modifies ucs
    ensures j == |Decode(str, LEAD3_MASK_AS_WRITTEN)|
    ensures ucs[..j + 1] == Decode(str, LEAD3_MASK_AS_WRITTEN) + [0]
  {
    ghost var d := Decode(str, LEAD3_MASK_AS_WRITTEN);
    var i := 0;
    j := 0;
    assert str[i..] == str;
    while i < sLen
      invariant i <= sLen && j <= |d| < ucs.Length && Decoding(str, i, d, j)
      invariant forall t :: 0 <= t < j ==> ucs[t] == d[t]
      decreases sLen - i
    {
      i := DecodeStep(s, str, i, ucs, j, d);
      j := j + 1;
    }
    assert str[i..] == [];
    assert j == |d|;
    ucs[j] := 0;
    PrefixAt(ucs[..], d + [0]);
  }

  /**
   * One pass of the UTF-8 import loop: the unit of the sequence at `i`
   * stored at `j`, and the index of the next sequence.
   */
  method DecodeStep(s: array<bv8>, ghost str: seq<bv8>, i: nat, ucs: array<bv32>, j: nat,
                    ghost d: seq<bv32>) returns (next: nat)
    requires |str| < s.Length && forall k :: 0 <= k < |str| ==> s[k] == str[k]
    requires i < |str| && j < ucs.Length && Decoding(str, i, d, j)
    modifies ucs
    ensures i < next <= |str| && j < |d| && Decoding(str, next, d, j + 1)
    ensures ucs[j] == d[j]
    ensures forall t :: 0 <= t < ucs.Length && t != j ==> ucs[t] == old(ucs[t])
  {
    DecodingStep(str, i, d, j);
    var u, last := ReadUnit(s, str, i, LEAD3_MASK_AS_WRITTEN);
    assert u == d[j];
    next := last + 1;
    assert Decoding(str, next, d, j + 1);
    ucs[j] := u;
  }

  /** Entries `j` on of `d` are the units of the sequences from index `i` on. */
  ghost predicate Decoding(str: seq<bv8>, i: nat, d: seq<bv32>, j: nat) {
    i <= |str| && Decodable(str[i..]) && j <= |d| && d[j..] == Decode(str[i..], LEAD3_MASK_AS_WRITTEN)
  }

  /** Entry `j` is the unit of the sequence at `i`, and decoding goes on after it. */
  lemma DecodingStep(str: seq<bv8>, i: nat, d: seq<bv32>, j: nat)
    requires i < |str| && Decoding(str, i, d, j)
    ensures i + Width(str[i]) <= |str| && j < |d|
    ensures d[j] == DecodeSequence(str[i..i + Width(str[i])], LEAD3_MASK_AS_WRITTEN)
    ensures Decoding(str, i + Width(str[i]), d, j + 1)
  {
    DecodeAt(str, i, LEAD3_MASK_AS_WRITTEN);
    StepOver(d, j, DecodeSequence(str[i..i + Width(str[i])], LEAD3_MASK_AS_WRITTEN),
             Decode(str[i + Width(str[i])..], LEAD3_MASK_AS_WRITTEN));
  }

  // ---------------------------------------------------------------------
  // AG_CopyUnicode
  // ---------------------------------------------------------------------

  /**
   * What the UTF-8 branch of AG_CopyUnicode does with the rest `t` of the
   * source, which starts at source index `i`: one entry per destination
   * index, a unit stored, or None when the capacity test (which compares
   * the SOURCE index plus the sequence length with ucsLen) skips the
   * sequence. A skip still advances the destination index, and moves the
   * source index by one byte only.
   */
  function CopyUnits(t: seq<bv8>, i: nat, ucsLen: nat): (u: seq<Option<bv32>>)
    requires CopyFits(t, i, ucsLen)
    ensures |u| <= |t|
    decreases |t|
  {
    if t == [] then []
    else if i + Width(t[0]) >= ucsLen then [None] + CopyUnits(t[1..], i + 1, ucsLen)
    else [Some(DecodeSequence(t[..Width(t[0])], LEAD3_MASK_AS_WRITTEN))]
         + CopyUnits(t[Width(t[0])..], i + Width(t[0]), ucsLen)
  }

  /**
   * Every sequence the UTF-8 branch of AG_CopyUnicode reads in the rest `t`
   * of the source (those that pass the capacity test) ends inside it.
   */
  predicate CopyFits(t: seq<bv8>, i: nat, ucsLen: nat)
    decreases |t|
  {
    t == [] ||
    if i + Width(t[0]) >= ucsLen then CopyFits(t[1..], i + 1, ucsLen)
    else Width(t[0]) <= |t| && CopyFits(t[Width(t[0])..], i + Width(t[0]), ucsLen)
  }

  /** One pass of the copy at index `i` of the whole source `s`. */
  lemma CopyAt(s: seq<bv8>, i: nat, ucsLen: nat)
    requires i < |s| && CopyFits(s[i..], i, ucsLen)
    ensures i + Width(s[i]) >= ucsLen ==>
              CopyFits(s[i + 1..], i + 1, ucsLen) &&
              CopyUnits(s[i..], i, ucsLen) == [None] + CopyUnits(s[i + 1..], i + 1, ucsLen)
    ensures i + Width(s[i]) < ucsLen ==>
              i + Width(s[i]) <= |s| && CopyFits(s[i + Width(s[i])..], i + Width(s[i]), ucsLen) &&
              CopyUnits(s[i..], i, ucsLen)
              == [Some(DecodeSequence(s[i..i + Width(s[i])], LEAD3_MASK_AS_WRITTEN))]
                 + CopyUnits(s[i + Width(s[i])..], i + Width(s[i]), ucsLen)
  {
    if i + Width(s[i]) < ucsLen {
      CopyAtStore(s, i, ucsLen);
    } else {
      CopyAtSkip(s, i, ucsLen);
    }
  }

  lemma CopyAtSkip(s: seq<bv8>, i: nat, ucsLen: nat)
    requires i < |s| && CopyFits(s[i..], i, ucsLen) && i + Width(s[i]) >= ucsLen
    ensures CopyFits(s[i + 1..], i + 1, ucsLen)
    ensures CopyUnits(s[i..], i, ucsLen) == [None] + CopyUnits(s[i + 1..], i + 1, ucsLen)
  {
    assert s[i..][0] == s[i] && s[i..][1..] == s[i + 1..];
  }

  lemma CopyAtStore(s: seq<bv8>, i: nat, ucsLen: nat)
    requires i < |s| && CopyFits(s[i..], i, ucsLen) && i + Width(s[i]) < ucsLen
    ensures i + Width(s[i]) <= |s| && CopyFits(s[i + Width(s[i])..], i + Width(s[i]), ucsLen)
    ensures CopyUnits(s[i..], i, ucsLen)
            == [Some(DecodeSequence(s[i..i + Width(s[i])], LEAD3_MASK_AS_WRITTEN))]
               + CopyUnits(s[i + Width(s[i])..], i + Width(s[i]), ucsLen)
  {
    assert s[i..][0] == s[i];
    assert s[i..][Width(s[i])..] == s[i + Width(s[i])..];
    assert s[i..][..Width(s[i])] == s[i..i + Width(s[i])];
  }

  /** Stored units over what the buffer held before; skipped cells keep it. */
  function Overlay(prev: seq<bv32>, u: seq<Option<bv32>>): (r: seq<bv32>)
    requires |prev| == |u|
    ensures |r| == |u|
    ensures forall k :: 0 <= k < |u| && u[k].Some? ==> r[k] == u[k].value
    ensures forall k :: 0 <= k < |u| && u[k].None? ==> r[k] == prev[k]
  {
    seq(|u|, k requires 0 <= k < |u| => if u[k].Some? then u[k].value else prev[k])
  }

  /** Every unit stored. */
  function Stored(d: seq<bv32>): (u: seq<Option<bv32>>)
    ensures |u| == |d|
  {
    if d == [] then [] else [Some(d[0])] + Stored(d[1..])
  }

  /**
   * With a capacity larger than the end of the source string no sequence
   * is skipped: the copy stores exactly the units AG_ImportUnicode would.
   */
  lemma {:induction false} CopyUnitsRoomy(t: seq<bv8>, i: nat, ucsLen: nat)
    requires Decodable(t) && i + |t| < ucsLen
    ensures CopyFits(t, i, ucsLen)
    ensures CopyUnits(t, i, ucsLen) == Stored(Decode(t, LEAD3_MASK_AS_WRITTEN))
    decreases |t|
  {
    if t != [] {
      CopyUnitsRoomy(t[Width(t[0])..], i + Width(t[0]), ucsLen);
      assert Decode(t, LEAD3_MASK_AS_WRITTEN)[1..] == Decode(t[Width(t[0])..], LEAD3_MASK_AS_WRITTEN);
    }
  }

  /**
   * An input on which the UTF-8 branch as written ends past the capacity:
   * for "ab" with ucsLen 1 both capacity tests fail, both bytes are skipped,
   * and the destination index still reaches 2, where the NUL is stored.
   */
  lemma CopyOverrun()
    ensures CopyFits([0x61, 0x62], 0, 1)
    ensures CopyUnits([0x61, 0x62], 0, 1) == [None, None]
  {
    assert [0x61, 0x62][1..] == [0x62 as bv8];
  }

  /**
   * The UTF-8 copy as evidently intended: the capacity test compares the
   * DESTINATION index with ucsLen, keeping the last unit for the NUL, and
   * the copy stops at the first unit that does not fit. Started at index
   * `j` inside the buffer, everything it stores and its NUL fit.
   */
  function CopyFixedFrom(t: seq<bv8>, j: nat, ucsLen: nat, mask3: bv8): (d: seq<bv32>)
    requires Decodable(t)
    ensures j < ucsLen ==> j + |d| < ucsLen
    decreases |t|
  {
    if t == [] || j + 1 >= ucsLen then []
    else [DecodeSequence(t[..Width(t[0])], mask3)]
         + CopyFixedFrom(t[Width(t[0])..], j + 1, ucsLen, mask3)
  }

  /**
   * The corrected copy stores a prefix of what AG_ImportUnicode decodes,
   * and all of it exactly when the decoded units and the NUL fit.
   */
  lemma {:induction false} CopyFixedDecodes(t: seq<bv8>, j: nat, ucsLen: nat, mask3: bv8)
    requires Decodable(t)
    ensures |CopyFixedFrom(t, j, ucsLen, mask3)| <= |Decode(t, mask3)|
    ensures CopyFixedFrom(t, j, ucsLen, mask3)
            == Decode(t, mask3)[..|CopyFixedFrom(t, j, ucsLen, mask3)|]
    ensures j < ucsLen ==>
              (CopyFixedFrom(t, j, ucsLen, mask3) == Decode(t, mask3)
               <==> j + |Decode(t, mask3)| < ucsLen)
    decreases |t|
  {
    if t != [] && j + 1 < ucsLen {
      CopyFixedDecodes(t[Width(t[0])..], j + 1, ucsLen, mask3);
    }
  }

  /**
   * The conversion into a caller's buffer of ucs.Length units, ucsLen of
   * which the caller says are available. The code as written can store
   * outside the first ucsLen units in both branches: the US-ASCII branch
   * puts the NUL at ucs[ucsLen] when strlen(s) >= ucsLen (the first ensures
   * below, with r == ucsLen), and the UTF-8 branch puts it at the index j
   * that skipped sequences still advance (CopyOverrun). So the requires
   * clauses ask only that the indices it writes exist.
   */
  method CopyUnicode(conv: Conversion, s: array<bv8>, ucs: array<bv32>, ucsLen: nat)
    returns (r: nat)
    requires Terminated(s[..], 0)
    requires conv == FromUsAscii ==> Min(Length(s[..], 0), ucsLen) < ucs.Length
    requires conv == FromUtf8 ==> CopyFits(Contents(s[..], 0), 0, ucsLen)
    requires conv == FromUtf8 ==>
               CopyFits(Contents(s[..], 0), 0, ucsLen) &&
               |CopyUnits(Contents(s[..], 0), 0, ucsLen)| < ucs.Length
    modifies ucs
    ensures conv == FromUsAscii ==>
              r == Min(Length(s[..], 0), ucsLen) &&
              ucs[..r + 1] == Widen(Contents(s[..], 0)[..r]) + [0] &&
              ucs[r + 1..] == old(ucs[r + 1..])
    ensures conv == FromUtf8 ==>
              var u := CopyUnits(Contents(s[..], 0), 0, ucsLen);
              r == |u| < ucs.Length &&
              ucs[..r] == Overlay(old(ucs[..r]), u) && ucs[r] == 0 &&
              ucs[r + 1..] == old(ucs[r + 1..])
    ensures conv == ToUtf8 ==> r == 0 && ucs[..] == old(ucs[..])
  {
    var len := StrLen(s, 0);
    ghost var str := Contents(s[..], 0);
    match conv {
      case FromUsAscii =>
        if len > ucsLen {
          len := ucsLen;
        }
        r := CopyAsciiInto(s, len, str, ucs);
      case FromUtf8 =>
        r := CopyDecodeInto(s, len, str, ucs, ucsLen);
      case ToUtf8 =>
        r := 0;
    }
  }

  /** The US-ASCII branch of AG_CopyUnicode: `len` bytes widened, then the terminator. */
  method CopyAsciiInto(s: array<bv8>, len: nat, ghost str: seq<bv8>, ucs: array<bv32>) returns (r: nat)
    requires len <= |str| < s.Length && forall k :: 0 <= k < |str| ==> s[k] == str[k]
    requires len < ucs.Length
    modifies ucs
    ensures r == len
    ensures ucs[..r + 1] == Widen(str[..r]) + [0] && ucs[r + 1..] == old(ucs[r + 1..])
  {
    var i := 0;
    while i < len
      invariant i <= len
      invariant forall t :: 0 <= t < i ==> ucs[t] == WidenByte(str[t])
      invariant forall t :: i <= t < ucs.Length ==> ucs[t] == old(ucs[t])
    {
      ucs[i] := s[i] as bv32;
      i := i + 1;
    }
    ucs[i] := 0;
    SplitAt(ucs[..], old(ucs[..]), Widen(str[..i]) + [0]);
    r := i;
  }

  /** The UTF-8 branch of AG_CopyUnicode: the loop, then the terminator. */
  method CopyDecodeInto(s: array<bv8>, sLen: nat, ghost str: seq<bv8>, ucs: array<bv32>,
                        ucsLen: nat) returns (j: nat)
    requires |str| == sLen < s.Length && forall k :: 0 <= k < sLen ==> s[k] == str[k]
    requires CopyFits(str, 0, ucsLen) && |CopyUnits(str, 0, ucsLen)| < ucs.Length
    modifies ucs
    ensures j == |CopyUnits(str, 0, ucsLen)|
    ensures ucs[..j] == Overlay(old(ucs[..j]), CopyUnits(str, 0, ucsLen)) && ucs[j] == 0
    ensures ucs[j + 1..] == old(ucs[j + 1..])
  {
    ghost var u := CopyUnits(str, 0, ucsLen);
    j := CopyLoop(s, sLen, str, ucs, ucsLen, u);
    ucs[j] := 0;
    SplitAt(ucs[..], old(ucs[..]), Overlay(old(ucs[..j]), u) + [0]);
  }

  /** The UTF-8 loop of AG_CopyUnicode, which stores or skips entry `j` of `u` per pass. */
  method CopyLoop(s: array<bv8>, sLen: nat, ghost str: seq<bv8>, ucs: array<bv32>,
                  ucsLen: nat, ghost u: seq<Option<bv32>>) returns (j: nat)
    requires |str| == sLen < s.Length && forall k :: 0 <= k < sLen ==> s[k] == str[k]
    requires CopyFits(str, 0, ucsLen) && u == CopyUnits(str, 0, ucsLen) && |u| < ucs.Length
    modifies ucs
    ensures j == |u|
    ensures forall t :: 0 <= t < j && u[t].Some? ==> ucs[t] == u[t].value
    ensures forall t :: 0 <= t < j && u[t].None? ==> ucs[t] == old(ucs[t])
    ensures forall t :: j <= t < ucs.Length ==> ucs[t] == old(ucs[t])
  {
    var i := 0;
    j := 0;
    assert str[0..] == str;
    while i < sLen
      invariant i <= sLen && Copying(str, i, ucsLen, u, j)
      invariant j <= |u| && CopiedUpTo(ucs[..], old(ucs[..]), u, j)
      decreases sLen - i
    {
      ghost var before := ucs[..];
      i := CopyStep(s, str, i, ucs, ucsLen, j, u);
      CopiedOneMore(before, ucs[..], old(ucs[..]), u, j);
      j := j + 1;
    }
    assert str[i..] == [];
  }

  /**
   * The first j entries of u are in place (stored units, or the old cell
   * where one was skipped) and the cells from j on are untouched.
   */
  ghost predicate CopiedUpTo(a: seq<bv32>, orig: seq<bv32>, u: seq<Option<bv32>>, j: nat)
    requires |a| == |orig| && j <= |u| && j <= |a|
  {
    (forall t :: 0 <= t < j && u[t].Some? ==> a[t] == u[t].value) &&
    (forall t :: 0 <= t < j && u[t].None? ==> a[t] == orig[t]) &&
    (forall t :: j <= t < |a| ==> a[t] == orig[t])
  }

  /** One more pass of the copy extends the prefix in place by entry j. */
  lemma CopiedOneMore(before: seq<bv32>, after: seq<bv32>, orig: seq<bv32>, u: seq<Option<bv32>>, j: nat)
    requires |before| == |after| == |orig| && j < |u| && j < |after|
    requires CopiedUpTo(before, orig, u, j)
    requires u[j].Some? ==> after[j] == u[j].value
    requires u[j].None? ==> after[j] == before[j]
    requires forall t :: 0 <= t < |after| && t != j ==> after[t] == before[t]
    ensures CopiedUpTo(after, orig, u, j + 1)
  {
  }

  /**
   * One pass of the UTF-8 copy loop: the capacity test on the sequence at
   * `i`, then either a skip by one byte or the unit stored at `j`.
   */
  method CopyStep(s: array<bv8>, ghost str: seq<bv8>, i: nat, ucs: array<bv32>, ucsLen: nat,
                  j: nat, ghost u: seq<Option<bv32>>) returns (next: nat)
    requires |str| < s.Length && forall k :: 0 <= k < |str| ==> s[k] == str[k]
    requires i < |str| && j < ucs.Length && Copying(str, i, ucsLen, u, j)
    modifies ucs
    ensures i < next <= |str| && j < |u| && Copying(str, next, ucsLen, u, j + 1)
    ensures u[j].Some? ==> ucs[j] == u[j].value
    ensures u[j].None? ==> ucs[j] == old(ucs[j])
    ensures forall t :: 0 <= t < ucs.Length && t != j ==> ucs[t] == old(ucs[t])
  {
    var n := CharLength(s[i]);
    // the byte count each case of the switch tests; the '?' case tests 1
    var need := if n == -1 then 1 else n;
    assert s[i] == str[i] && need == Width(str[i]);
    if i + need >= ucsLen {
      CopyingSkip(str, i, ucsLen, u, j);
      next := i + 1;
    } else {
      CopyingStore(str, i, ucsLen, u, j);
      var v, last := ReadUnit(s, str, i, LEAD3_MASK_AS_WRITTEN);
      ucs[j] := v;
      next := last + 1;
    }
  }

  /** Entries `j` on of `u` are what the copy does from source index `i` on. */
  ghost predicate Copying(str: seq<bv8>, i: nat, ucsLen: nat, u: seq<Option<bv32>>, j: nat) {
    i <= |str| && CopyFits(str[i..], i, ucsLen) && j <= |u| && u[j..] == CopyUnits(str[i..], i, ucsLen)
  }

  /** A sequence the capacity test skips: entry `j` is None, and the copy goes on one byte later. */
  lemma CopyingSkip(str: seq<bv8>, i: nat, ucsLen: nat, u: seq<Option<bv32>>, j: nat)
    requires i < |str| && Copying(str, i, ucsLen, u, j) && i + Width(str[i]) >= ucsLen
    ensures j < |u| && u[j] == None && Copying(str, i + 1, ucsLen, u, j + 1)
  {
    CopyAt(str, i, ucsLen);
    StepOver(u, j, None, CopyUnits(str[i + 1..], i + 1, ucsLen));
  }

  /** A sequence that passes the capacity test: entry `j` is its unit, and the copy goes on after it. */
  lemma CopyingStore(str: seq<bv8>, i: nat, ucsLen: nat, u: seq<Option<bv32>>, j: nat)
    requires i < |str| && Copying(str, i, ucsLen, u, j) && i + Width(str[i]) < ucsLen
    ensures i + Width(str[i]) <= |str| && j < |u|
    ensures u[j] == Some(DecodeSequence(str[i..i + Width(str[i])], LEAD3_MASK_AS_WRITTEN))
    ensures Copying(str, i + Width(str[i]), ucsLen, u, j + 1)
  {
    CopyAt(str, i, ucsLen);
    StepOver(u, j, Some(DecodeSequence(str[i..i + Width(str[i])], LEAD3_MASK_AS_WRITTEN)),
             CopyUnits(str[i + Width(str[i])..], i + Width(str[i]), ucsLen));
  }


  /** A suffix that starts with an entry: the entry, and the suffix after it. */
  lemma StepOver<T>(d: seq<T>, j: nat, x: T, rest: seq<T>)
    requires j <= |d| && d[j..] == [x] + rest
    ensures j < |d| && d[j] == x && d[j + 1..] == rest
  {
    assert d[j + 1..] == d[j..][1..];
  }

  // ---------------------------------------------------------------------
  // AG_ExportUnicode
  // ---------------------------------------------------------------------

  /** The return value of the export and the bytes it stored from the start of `dst`. */
  datatype Exported = Exported(ret: int, written: seq<bv8>)

  /**
   * What the UTF-8 export loop does with the units `cps` still to convert
   * after it has stored the bytes `done`: at the terminator (or when the
   * length already reaches dstSize) it stores a NUL and returns the length;
   * a unit above 0x7fffffff returns -1; a sequence that leaves no room for
   * one more byte after it returns the length it would have reached, with
   * nothing more stored; otherwise it stores the sequence and goes on.
   */
  function ExportFrom(cps: seq<bv32>, done: seq<bv8>, dstSize: nat): (e: Exported)
    ensures |done| <= |e.written| && e.written[..|done|] == done
    ensures |e.written| <= if |done| < dstSize then dstSize else |done| + 1
    decreases |cps|
  {
    if cps == [] || |done| >= dstSize then Exported(|done|, done + [0])
    else if cps[0] > MAX_UCS4 then Exported(-1, done)
    else if |done| + SeqLength(cps[0]) + 1 >= dstSize then Exported(|done| + SeqLength(cps[0]), done)
    else ExportFrom(cps[1..], done + EncodeChar(cps[0]), dstSize)
  }

  /**
   * What the return value of the code as written reports: unless it is -1,
   * it is below dstSize - 1 exactly when the whole encoding and its NUL fit
   * with a byte to spare (not "below dstSize exactly when everything was
   * converted", as the code's comment says); -1 only for a unit above
   * 0x7fffffff.
   */
  lemma {:induction false} ExportReport(cps: seq<bv32>, done: seq<bv8>, dstSize: nat)
    ensures var e := ExportFrom(cps, done, dstSize);
            e.ret != -1 ==>
              (e.ret + 1 < dstSize <==> AllEncodable(cps) && |done| + |EncodeAll(cps)| + 1 < dstSize)
    ensures ExportFrom(cps, done, dstSize).ret == -1 ==> !AllEncodable(cps)
    decreases |cps|
  {
    if cps != [] && |done| < dstSize && cps[0] <= MAX_UCS4 {
      EncodeAllCons(cps);
      if |done| + SeqLength(cps[0]) + 1 < dstSize {
        ExportReport(cps[1..], done + EncodeChar(cps[0]), dstSize);
      }
    }
  }

  /**
   * With room for the whole encoding and two bytes more, the code as
   * written stores the encoding and a NUL and returns its length.
   */
  lemma {:induction false} ExportComplete(cps: seq<bv32>, done: seq<bv8>, dstSize: nat)
    requires AllEncodable(cps) && |done| + |EncodeAll(cps)| + 1 < dstSize
    ensures ExportFrom(cps, done, dstSize)
            == Exported(|done| + |EncodeAll(cps)|, done + EncodeAll(cps) + [0])
    decreases |cps|
  {
    if cps != [] {
      EncodeAllCons(cps);
      ExportComplete(cps[1..], done + EncodeChar(cps[0]), dstSize);
      AppendAssoc(done, EncodeChar(cps[0]), EncodeAll(cps[1..]), [0]);
    }
  }

  lemma AppendAssoc<T>(a: seq<T>, b: seq<T>, c: seq<T>, z: seq<T>)
    ensures a + b + c + z == a + (b + c) + z
  {
  }

  /**
   * A string whose first unit can be encoded is encodable exactly when the
   * rest is, and then its encoding is that of the first unit followed by
   * that of the rest.
   */
  lemma EncodeAllCons(cps: seq<bv32>)
    requires cps != [] && cps[0] <= MAX_UCS4
    ensures AllEncodable(cps) <==> AllEncodable(cps[1..])
    ensures AllEncodable(cps) ==> EncodeAll(cps) == EncodeChar(cps[0]) + EncodeAll(cps[1..])
  {
    assert forall k :: 1 <= k < |cps| ==> cps[k] == cps[1..][k - 1];
  }

  /**
   * Exporting a string whose encoding leaves two bytes to spare, then
   * importing the bytes before the NUL, gives the string back with the
   * corrected decoder, and with the as-written one outside 0x800..0xFFFF.
   */
  lemma ExportThenImport(cps: seq<bv32>, dstSize: nat)
    requires AllEncodable(cps) && 0 !in cps && |EncodeAll(cps)| + 1 < dstSize
    ensures var e := ExportFrom(cps, [], dstSize);
            Terminated(e.written, 0) && Contents(e.written, 0) == EncodeAll(cps) &&
            Decodable(Contents(e.written, 0))
    ensures Decode(Contents(ExportFrom(cps, [], dstSize).written, 0), LEAD3_MASK_FIXED) == cps
    ensures Decode(Contents(ExportFrom(cps, [], dstSize).written, 0), LEAD3_MASK_AS_WRITTEN)
            == AsWrittenRoundTripAll(cps)
  {
    ExportedText(cps, dstSize);
    DecodeEncodeAllWith(cps, LEAD3_MASK_FIXED);
    DecodeEncodeAllWith(cps, LEAD3_MASK_AS_WRITTEN);
  }

  /** A complete export of a string without NULs holds exactly its encoding. */
  lemma ExportedText(cps: seq<bv32>, dstSize: nat)
    requires AllEncodable(cps) && 0 !in cps && |EncodeAll(cps)| + 1 < dstSize
    ensures Terminated(ExportFrom(cps, [], dstSize).written, 0)
    ensures Contents(ExportFrom(cps, [], dstSize).written, 0) == EncodeAll(cps)
  {
    ExportComplete(cps, [], dstSize);
    EncodeAllNoNul(cps);
    LengthOfTerminated(EncodeAll(cps), 0, []);
    assert [] + EncodeAll(cps) + [0] == EncodeAll(cps) + [0] + [];
  }

  /**
   * The code as written: "ab" into a 3-byte buffer stores "a" without a NUL
   * and returns 2, which its comment reads as no truncation.
   */
  lemma ExportUnterminated()
    ensures ExportFrom([0x61, 0x62], [], 3) == Exported(2, [0x61])
  {
    assert EncodeChar(0x61) == [0x61];
    assert [0x61, 0x62][1..] == [0x62];
  }

  /** The code as written stores a NUL even into a buffer of size 0. */
  lemma ExportIntoNothing(cps: seq<bv32>)
    ensures ExportFrom(cps, [], 0).written == [0]
  {
  }

  /** A NUL after `done` where the buffer has room for one. */
  function Terminate(done: seq<bv8>, dstSize: nat): (w: seq<bv8>)
    ensures |done| < dstSize ==> w == done + [0]
    ensures |done| >= dstSize ==> w == done
  {
    if |done| < dstSize then done + [0] else done
  }

  /**
   * The export as its comment describes it: a sequence is stored only when
   * a byte is left after it, the buffer is NUL-terminated on every path
   * unless dstSize is 0, and nothing is stored into a buffer of size 0.
   */
  function ExportFixedFrom(cps: seq<bv32>, done: seq<bv8>, dstSize: nat): (e: Exported)
    ensures |done| <= |e.written| && e.written[..|done|] == done
    decreases |cps|
  {
    if cps == [] then Exported(|done|, Terminate(done, dstSize))
    else if cps[0] > MAX_UCS4 then Exported(-1, Terminate(done, dstSize))
    else if |done| + SeqLength(cps[0]) >= dstSize
    then Exported(|done| + SeqLength(cps[0]), Terminate(done, dstSize))
    else ExportFixedFrom(cps[1..], done + EncodeChar(cps[0]), dstSize)
  }

  /**
   * The corrected export stores at most dstSize bytes and ends them with a
   * NUL whenever dstSize is not 0.
   */
  lemma {:induction false} ExportFixedFits(cps: seq<bv32>, done: seq<bv8>, dstSize: nat)
    requires |done| <= dstSize
    ensures var e := ExportFixedFrom(cps, done, dstSize);
            |e.written| <= dstSize && (|done| < dstSize ==> e.written[|e.written| - 1] == 0)
    decreases |cps|
  {
    if cps != [] && cps[0] <= MAX_UCS4 && |done| + SeqLength(cps[0]) < dstSize {
      ExportFixedFits(cps[1..], done + EncodeChar(cps[0]), dstSize);
    }
  }

  /**
   * The corrected export reports a truncation exactly when its return value
   * reaches dstSize, as the code's comment says; -1 only for a unit above
   * 0x7fffffff.
   */
  lemma {:induction false} ExportFixedReport(cps: seq<bv32>, done: seq<bv8>, dstSize: nat)
    ensures var e := ExportFixedFrom(cps, done, dstSize);
            e.ret != -1 ==>
              (e.ret < dstSize <==> AllEncodable(cps) && |done| + |EncodeAll(cps)| < dstSize)
    ensures ExportFixedFrom(cps, done, dstSize).ret == -1 ==> !AllEncodable(cps)
    decreases |cps|
  {
    if cps != [] && cps[0] <= MAX_UCS4 {
      EncodeAllCons(cps);
      if |done| + SeqLength(cps[0]) < dstSize {
        ExportFixedReport(cps[1..], done + EncodeChar(cps[0]), dstSize);
      }
    }
  }

  /**
   * When the whole encoding fits with its NUL, the corrected export stores
   * it and the NUL and returns its length.
   */
  lemma {:induction false} ExportFixedComplete(cps: seq<bv32>, done: seq<bv8>, dstSize: nat)
    requires AllEncodable(cps) && |done| + |EncodeAll(cps)| < dstSize
    ensures ExportFixedFrom(cps, done, dstSize)
            == Exported(|done| + |EncodeAll(cps)|, done + EncodeAll(cps) + [0])
    decreases |cps|
  {
    if cps != [] {
      EncodeAllCons(cps);
      ExportFixedComplete(cps[1..], done + EncodeChar(cps[0]), dstSize);
      AppendAssoc(done, EncodeChar(cps[0]), EncodeAll(cps[1..]), [0]);
    }
  }

  /**
   * The conversion of the string in `ucs` into the buffer `dst`, of which
   * the caller says dstSize bytes are available. The code as written
   * stores a NUL even when dstSize is 0, so one byte of `dst` is demanded.
   */
  method ExportUnicode(conv: Conversion, dst: array<bv8>, ucs: array<bv32>, dstSize: nat)
    returns (r: int)
    requires Terminated(ucs[..], 0)
    requires dstSize <= dst.Length && 0 < dst.Length
    modifies dst
    ensures conv == ToUtf8 ==>
              var e := ExportFrom(Contents(ucs[..], 0), [], dstSize);
              r == e.ret && |e.written| <= dst.Length &&
              dst[..|e.written|] == e.written && dst[|e.written|..] == old(dst[|e.written|..])
    ensures conv != ToUtf8 ==> r == -1 && dst[..] == old(dst[..])
  {
    match conv {
      case ToUtf8 =>
        r := EncodeInto(dst, ucs, Contents(ucs[..], 0), dstSize);
      case FromUsAscii =>
        r := -1;
      case FromUtf8 =>
        r := -1;
    }
  }

  /** The UTF-8 loop of AG_ExportUnicode. */
  method EncodeInto(dst: array<bv8>, ucs: array<bv32>, ghost str: seq<bv32>, dstSize: nat)
    returns (r: int)
    requires Terminated(ucs[..], 0) && str == Contents(ucs[..], 0)
    requires dstSize <= dst.Length && 0 < dst.Length
    modifies dst
    ensures var e := ExportFrom(str, [], dstSize);
            r == e.ret && |e.written| <= dst.Length &&
            dst[..|e.written|] == e.written && dst[|e.written|..] == old(dst[|e.written|..])
  {
    ghost var e := ExportFrom(str, [], dstSize);
    var i: nat := 0;
    var len: nat := 0;
    assert str[0..] == str && dst[..0] == [];
    assert Exporting(str, 0, dst[..0], dstSize, e);
    assert ucs[|str|] == 0 && forall k :: 0 <= k < |str| ==> ucs[k] == str[k];
    while ucs[i] != 0 && len < dstSize
      invariant i <= |str| && (len == 0 || len < dstSize)
      invariant ucs[|str|] == 0 && forall k :: 0 <= k < |str| ==> ucs[k] == str[k]
      invariant Exporting(str, i, dst[..len], dstSize, e)
      invariant forall t :: len <= t < dst.Length ==> dst[t] == old(dst[t])
      decreases |str| - i
    {
      var stop, ret, chlen := ExportStep(dst, len, ucs[i], dstSize, str, i, e);
      if stop {
        SplitAt(dst[..], old(dst[..]), dst[..len]);
        return ret;
      }
      len := len + chlen;
      i := i + 1;
    }
    assert i < |str| ==> str[i] in str;
    r := StoreTerminator(dst, len, str, i, dstSize, e, old(dst[..]));
  }

  /** The terminating NUL after the last sequence stored; the length is returned. */
  method StoreTerminator(dst: array<bv8>, len: nat, ghost str: seq<bv32>, ghost i: nat, dstSize: nat,
                         ghost e: Exported, ghost orig: seq<bv8>)
    returns (r: int)
    requires |orig| == dst.Length && len < dst.Length
    requires Exporting(str, i, dst[..len], dstSize, e) && (i == |str| || len >= dstSize)
    requires forall t :: len <= t < dst.Length ==> dst[t] == orig[t]
    modifies dst
    ensures r == e.ret && |e.written| <= dst.Length
    ensures dst[..|e.written|] == e.written && dst[|e.written|..] == orig[|e.written|..]
  {
    ExportDone(str, i, dst[..len], dstSize, e);
    ghost var before := dst[..];
    dst[len] := 0;
    SplitAt(dst[..], orig, before[..len] + [0]);
    r := len;
  }

  /**
   * The body of the export loop for the unit `uch` at index `i` of the
   * string, with `len` bytes stored so far: `stop` with the value the code
   * returns (-1 for a unit above 0x7fffffff, the length reached when no
   * byte would be left after the sequence), or the sequence stored at
   * `len` and its length.
   */
  method ExportStep(dst: array<bv8>, len: nat, uch: bv32, dstSize: nat,
                    ghost str: seq<bv32>, ghost i: nat, ghost e: Exported)
    returns (stop: bool, r: int, chlen: nat)
    requires len < dstSize <= dst.Length
    requires i < |str| && uch == str[i] && Exporting(str, i, dst[..len], dstSize, e)
    modifies dst
    ensures stop ==> r == e.ret && e.written == dst[..len] && dst[..] == old(dst[..])
    ensures !stop ==> len + chlen < dstSize && Exporting(str, i + 1, dst[..len + chlen], dstSize, e)
    ensures !stop ==> forall t :: len + chlen <= t < dst.Length ==> dst[t] == old(dst[t])
  {
    ExportAt(str, i, dst[..len], dstSize, e);
    var n, ch1 := SequenceFor(uch);
    if n == -1 {
      return true, -1, 0;
    }
    if len + n + 1 >= dstSize {
      return true, len + n, 0;
    }
    EncodeAt(dst, len, uch, n, ch1);
    stop, r, chlen := false, 0, n;
  }

  /**
   * The export's choice of sequence length and lead-byte prefix by range;
   * a length of -1 for a unit above 0x7fffffff, where the code returns -1.
   */
  method SequenceFor(uch: bv32) returns (chlen: int, ch1: bv8)
    ensures uch > MAX_UCS4 ==> chlen == -1
    ensures uch <= MAX_UCS4 ==> chlen == |EncodeChar(uch)| && ch1 == LeadPrefix(chlen)
  {
    if uch < 0x80 {
      chlen, ch1 := 1, 0x00;
    } else if uch < 0x800 {
      chlen, ch1 := 2, 0xc0;
    } else if uch < 0x1_0000 {
      chlen, ch1 := 3, 0xe0;
    } else if uch < 0x20_0000 {
      chlen, ch1 := 4, 0xf0;
    } else if uch < 0x400_0000 {
      chlen, ch1 := 5, 0xf8;
    } else if uch <= 0x7fff_ffff {
      chlen, ch1 := 6, 0xfc;
    } else {
      chlen, ch1 := -1, 0x00;
    }
  }

  /** What remains of the export from index `i` of the string, after `done` was stored, ends in `e`. */
  ghost predicate Exporting(str: seq<bv32>, i: nat, done: seq<bv8>, dstSize: nat, e: Exported) {
    i <= |str| && ExportFrom(str[i..], done, dstSize) == e
  }

  /** One pass of the export loop at index `i` of the string, after `done` was stored. */
  lemma ExportAt(str: seq<bv32>, i: nat, done: seq<bv8>, dstSize: nat, e: Exported)
    requires i < |str| && |done| < dstSize && Exporting(str, i, done, dstSize, e)
    ensures str[i] > MAX_UCS4 ==> e == Exported(-1, done)
    ensures str[i] <= MAX_UCS4 && |done| + SeqLength(str[i]) + 1 >= dstSize ==>
              e == Exported(|done| + SeqLength(str[i]), done)
    ensures str[i] <= MAX_UCS4 && |done| + SeqLength(str[i]) + 1 < dstSize ==>
              Exporting(str, i + 1, done + EncodeChar(str[i]), dstSize, e)
  {
    assert str[i..][0] == str[i] && str[i..][1..] == str[i + 1..];
  }

  /** The export loop ends at the terminator, or with no room left: a NUL is stored. */
  lemma ExportDone(str: seq<bv32>, i: nat, done: seq<bv8>, dstSize: nat, e: Exported)
    requires Exporting(str, i, done, dstSize, e) && (i == |str| || |done| >= dstSize)
    ensures e == Exported(|done|, done + [0])
  {
    if i == |str| {
      assert str[i..] == [];
    }
  }


  /**
   * The store of one sequence at `at`: continuation bytes from the last
   * one backwards, then the lead byte from what is left of the code point
   * under its prefix.
   */
  method EncodeAt(dst: array<bv8>, at: nat, cp: bv32, chlen: nat, ch1: bv8)
    requires cp <= MAX_UCS4 && chlen == SeqLength(cp) && ch1 == LeadPrefix(chlen)
    requires at + chlen <= dst.Length
    modifies dst
    ensures dst[..at + chlen] == old(dst[..at]) + EncodeChar(cp)
    ensures forall t :: at + chlen <= t < dst.Length ==> dst[t] == old(dst[t])
  {
    ghost var before := dst[..];
    var uch := StoreContinuations(dst, at, cp, chlen);
    dst[at] := (uch | ch1 as bv32) as bv8;
    StoredChar(dst[..], before, at, cp, uch, ch1);
  }

  /** Lead and continuation bytes in place, the rest as before: the splice of one encoding. */
  lemma StoredChar(a: seq<bv8>, before: seq<bv8>, at: nat, cp: bv32, uch: bv32, ch1: bv8)
    requires cp <= MAX_UCS4 && |a| == |before| && at + SeqLength(cp) <= |a|
    requires uch == ShiftSextets(cp, SeqLength(cp) - 1) && ch1 == LeadPrefix(SeqLength(cp))
    requires a[at] == (uch | ch1 as bv32) as bv8
    requires forall t :: at < t < at + SeqLength(cp) ==>
               a[t] == ContByte(ShiftSextets(cp, at + SeqLength(cp) - 1 - t))
    requires forall t :: 0 <= t < |a| && !(at <= t < at + SeqLength(cp)) ==> a[t] == before[t]
    ensures a[..at + SeqLength(cp)] == before[..at] + EncodeChar(cp)
    ensures forall t :: at + SeqLength(cp) <= t < |a| ==> a[t] == before[t]
  {
    Assembled(a, at, cp);
    Spliced(a, before, at, EncodeChar(cp));
  }

  /**
   * The backwards loop of the export: each continuation byte takes the low
   * six bits of the code point shifted so far. Returns what is left after
   * the last shift.
   */
  method StoreContinuations(dst: array<bv8>, at: nat, cp: bv32, chlen: nat) returns (uch: bv32)
    requires 1 <= chlen <= 6 && at + chlen <= dst.Length
    modifies dst
    ensures uch == ShiftSextets(cp, chlen - 1)
    ensures forall t :: at < t < at + chlen ==> dst[t] == ContByte(ShiftSextets(cp, at + chlen - 1 - t))
    ensures forall t :: 0 <= t < dst.Length && !(at < t < at + chlen) ==> dst[t] == old(dst[t])
  {
    uch := cp;
    var k := chlen - 1;
    ghost var shifted := 0;  // sextets shifted out so far
    while k > 0
      invariant 0 <= k < chlen && shifted + k == chlen - 1
      invariant uch == ShiftSextets(cp, shifted)
      invariant forall t :: at + k < t < at + chlen ==>
                  dst[t] == ContByte(ShiftSextets(cp, at + chlen - 1 - t))
      invariant forall t :: 0 <= t < dst.Length && !(at + k < t < at + chlen) ==> dst[t] == old(dst[t])
    {
      uch := StoreContinuation(dst, at + k, uch);
      ShiftSextetsStep(cp, shifted);
      k := k - 1;
      shifted := shifted + 1;
    }
  }

  /** One pass of the backwards loop: the low six bits under `10`, then the shift. */
  method StoreContinuation(dst: array<bv8>, i: nat, uch: bv32) returns (next: bv32)
    requires i < dst.Length
    modifies dst
    ensures dst[i] == ContByte(uch) && next == uch >> 6
    ensures forall t :: 0 <= t < dst.Length && t != i ==> dst[t] == old(dst[t])
  {
    dst[i] := ((uch & 0x3f) | 0x80) as bv8;
    next := uch >> 6;
  }

  /** A lead byte over its continuation bytes is the sequence of the code point. */
  lemma Assembled(a: seq<bv8>, at: nat, cp: bv32)
    requires cp <= MAX_UCS4 && at + SeqLength(cp) <= |a|
    requires a[at] == (ShiftSextets(cp, SeqLength(cp) - 1) | LeadPrefix(SeqLength(cp)) as bv32) as bv8
    requires forall t :: at < t < at + SeqLength(cp) ==>
               a[t] == ContByte(ShiftSextets(cp, at + SeqLength(cp) - 1 - t))
    ensures forall t :: 0 <= t < SeqLength(cp) ==> a[at + t] == EncodeChar(cp)[t]
  {
    EncodeCharIndexed(cp);
    forall t | 0 <= t < SeqLength(cp)
      ensures a[at + t] == EncodeChar(cp)[t]
    {
      if t > 0 {
        assert a[at + t] == ContByte(ShiftSextets(cp, SeqLength(cp) - 1 - t));
      }
    }
  }

  /** A buffer that took `w` at `at` and kept `before` elsewhere. */
  lemma Spliced<T>(a: seq<T>, before: seq<T>, at: nat, w: seq<T>)
    requires |a| == |before| && at + |w| <= |a|
    requires forall t :: 0 <= t < |w| ==> a[at + t] == w[t]
    requires forall t :: 0 <= t < |a| && !(at <= t < at + |w|) ==> a[t] == before[t]
    ensures a[..at + |w|] == before[..at] + w && a[at + |w|..] == before[at + |w|..]
  {
    assert forall t :: 0 <= t < at ==> a[t] == before[t];
    assert forall t :: at <= t < at + |w| ==> a[t] == w[t - at];
  }

  /**
   * AG_UCS4Dup: a fresh buffer of the string's length plus one, filled by
   * copying that many units (the string and its terminator).
   */
  method UCS4Dup(ucs: array<bv32>) returns (ns: array<bv32>)
    requires Terminated(ucs[..], 0)
    ensures fresh(ns)
    ensures ns[..] == Contents(ucs[..], 0) + [0]
    ensures Terminated(ns[..], 0) && Contents(ns[..], 0) == Contents(ucs[..], 0)
  {
    var n := StrLen(ucs, 0);
    ns := new bv32[n + 1];
    var k: nat := 0;
    while k < n + 1
      invariant k <= n + 1
      invariant forall t :: 0 <= t < k ==> ns[t] == ucs[t]
    {
      ns[k] := ucs[k];
      k := k + 1;
    }
    assert ns[..] == ucs[..n + 1];
    LengthOfTerminated(Contents(ucs[..], 0), 0, []);
    assert ns[..] == Contents(ucs[..], 0) + [0] + [];
  }
}
