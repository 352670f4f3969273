/**
 * The byte-level UTF-8 form that gui/unicode.c implements: the original
 * 1 to 6 byte sequences of RFC 2279 (section 2), carrying values up to
 * 0x7FFFFFFF, and the two ways the decoders turn bytes back into 32-bit
 * units. Everything here is a value-level specification; the buffer-walking
 * routines of the Unicode module are proved against it.
 */
module Utf8 {

  /** Largest value the 6-byte form can carry (31 payload bits). */
  const MAX_UCS4: bv32 := 0x7fff_ffff

  /** What the decoders store for a byte they cannot classify. */
  const REPLACEMENT: bv32 := 0x3f  // '?'

  /**
   * Mask applied to the lead byte of a 3-byte sequence. The code as written
   * uses 0x3f, which keeps bit 5 of `1110xxxx`; 0x0f is the mask that drops
   * the whole `1110` prefix.
   */
  const LEAD3_MASK_AS_WRITTEN: bv8 := 0x3f
  const LEAD3_MASK_FIXED: bv8 := 0x0f

  // ---------------------------------------------------------------------
  // Lead-byte classification
  // ---------------------------------------------------------------------

  /**
   * Sequence length announced by a lead byte, -1 for a byte that cannot
   * start a sequence (a continuation byte `10xxxxxx`, 0xFE, 0xFF).
   * AG_CharLengthUTF8 is not part of this model; it is assumed to classify
   * lead bytes by their RFC 2279 prefixes exactly as written here.
   */
  function CharLength(b: bv8): (n: int)
    ensures n == -1 || 1 <= n <= 6
    ensures IsContinuation(b) ==> n == -1
  {
    if b & 0x80 == 0 then 1
    else if b & 0xe0 == 0xc0 then 2
    else if b & 0xf0 == 0xe0 then 3
    else if b & 0xf8 == 0xf0 then 4
    else if b & 0xfc == 0xf8 then 5
    else if b & 0xfe == 0xfc then 6
    else -1
  }

  /** A continuation byte `10xxxxxx`. */
  predicate IsContinuation(b: bv8) {
    b & 0xc0 == 0x80
  }

  /** Number of bytes a decoder consumes at a position holding `b`. */
  function Width(b: bv8): (w: nat)
    ensures 1 <= w <= 6
    ensures CharLength(b) != -1 ==> w == CharLength(b)
  {
    var n := CharLength(b);
    if n == -1 then 1 else n
  }

  /**
   * The decoders read, at each sequence they reach, every byte its lead
   * byte announces, without checking for the end of the string. A string
   * is decodable when, walked from its start one sequence at a time, every
   * sequence ends inside it.
   */
  predicate Decodable(s: seq<bv8>)
    decreases |s|
  {
    s == [] || (Width(s[0]) <= |s| && Decodable(s[Width(s[0])..]))
  }

  // ---------------------------------------------------------------------
  // Encoding one code point
  // ---------------------------------------------------------------------

  /** Sequence length chosen for a code point by the range cut-offs. */
  function SeqLength(cp: bv32): (n: nat)
    requires cp <= MAX_UCS4
    ensures 1 <= n <= 6
  {
    if cp < 0x80 then 1
    else if cp < 0x800 then 2
    else if cp < 0x1_0000 then 3
    else if cp < 0x20_0000 then 4
    else if cp < 0x400_0000 then 5
    else 6
  }

  /** Prefix bits of the lead byte of an n-byte sequence. */
  function LeadPrefix(n: nat): bv8
    requires 1 <= n <= 6
  {
    if n == 1 then 0x00
    else if n == 2 then 0xc0
    else if n == 3 then 0xe0
    else if n == 4 then 0xf0
    else if n == 5 then 0xf8
    else 0xfc
  }

  /** A continuation byte carrying the low six bits of `v`. */
  function ContByte(v: bv32): (b: bv8)
    ensures IsContinuation(b)
  {
    ((v & 0x3f) | 0x80) as bv8
  }

  /** `v` shifted right by m groups of six bits (m <= 5). */
  function ShiftSextets(v: bv32, m: nat): bv32
    requires m <= 5
  {
    if m == 0 then v
    else if m == 1 then v >> 6
    else if m == 2 then v >> 12
    else if m == 3 then v >> 18
    else if m == 4 then v >> 24
    else v >> 30
  }

  /** One more six-bit shift, as the encoder's backwards loop does it. */
  lemma ShiftSextetsStep(v: bv32, m: nat)
    requires m < 5
    ensures ShiftSextets(v, m) >> 6 == ShiftSextets(v, m + 1)
  {
    if m == 0 {
    } else if m == 1 {
    } else if m == 2 {
    } else if m == 3 {
    } else {
    }
  }

  /** The lead byte: prefix over the bits left after the continuation bytes. */
  function LeadByte(cp: bv32): bv8
    requires cp <= MAX_UCS4
  {
    var n := SeqLength(cp);
    (ShiftSextets(cp, n - 1) | LeadPrefix(n) as bv32) as bv8
  }

  /**
   * The RFC 2279 sequence for one code point, one row per length (the bit
   * layout of section 2): the lead byte holds the high payload bits under
   * its prefix, each following byte six more bits under `10`.
   */
  function EncodeChar(cp: bv32): (bs: seq<bv8>)
    requires cp <= MAX_UCS4
    ensures |bs| == SeqLength(cp)
  {
    if cp < 0x80 then [cp as bv8]
    else if cp < 0x800 then [((cp >> 6) | 0xc0) as bv8, ContByte(cp)]
    else if cp < 0x1_0000 then [((cp >> 12) | 0xe0) as bv8, ContByte(cp >> 6), ContByte(cp)]
    else if cp < 0x20_0000 then
      [((cp >> 18) | 0xf0) as bv8, ContByte(cp >> 12), ContByte(cp >> 6), ContByte(cp)]
    else if cp < 0x400_0000 then
      [((cp >> 24) | 0xf8) as bv8, ContByte(cp >> 18), ContByte(cp >> 12), ContByte(cp >> 6),
       ContByte(cp)]
    else
      [((cp >> 30) | 0xfc) as bv8, ContByte(cp >> 24), ContByte(cp >> 18), ContByte(cp >> 12),
       ContByte(cp >> 6), ContByte(cp)]
  }

  /**
   * The same sequence read position by position, as the encoder writes it:
   * the lead byte, and at position k >= 1 a continuation byte carrying the
   * code point shifted right by n-1-k sextets.
   */
  lemma EncodeCharIndexed(cp: bv32)
    requires cp <= MAX_UCS4
    ensures EncodeChar(cp)[0] == LeadByte(cp)
    ensures forall k :: 1 <= k < SeqLength(cp) ==>
              EncodeChar(cp)[k] == ContByte(ShiftSextets(cp, SeqLength(cp) - 1 - k))
  {
    var n := SeqLength(cp);
    if n == 1 {
      assert LeadByte(cp) == cp as bv8;
    } else if n == 2 {
      Indexed2(cp);
    } else if n == 3 {
      Indexed3(cp);
    } else if n == 4 {
      Indexed4(cp);
    } else if n == 5 {
      Indexed5(cp);
    } else {
      Indexed6(cp);
    }
  }

  lemma Indexed2(cp: bv32)
    requires 0x80 <= cp < 0x800
    ensures EncodeChar(cp)[0] == LeadByte(cp)
    ensures forall k :: 1 <= k < 2 ==> EncodeChar(cp)[k] == ContByte(ShiftSextets(cp, 1 - k))
  {
    Row2(cp);
    assert LeadByte(cp) == ((cp >> 6) | 0xc0) as bv8;
  }

  lemma Indexed3(cp: bv32)
    requires 0x800 <= cp < 0x1_0000
    ensures EncodeChar(cp)[0] == LeadByte(cp)
    ensures forall k :: 1 <= k < 3 ==> EncodeChar(cp)[k] == ContByte(ShiftSextets(cp, 2 - k))
  {
    Row3(cp);
    assert LeadByte(cp) == ((cp >> 12) | 0xe0) as bv8;
  }

  lemma Indexed4(cp: bv32)
    requires 0x1_0000 <= cp < 0x20_0000
    ensures EncodeChar(cp)[0] == LeadByte(cp)
    ensures forall k :: 1 <= k < 4 ==> EncodeChar(cp)[k] == ContByte(ShiftSextets(cp, 3 - k))
  {
    Row4(cp);
    assert LeadByte(cp) == ((cp >> 18) | 0xf0) as bv8;
  }

  lemma Indexed5(cp: bv32)
    requires 0x20_0000 <= cp < 0x400_0000
    ensures EncodeChar(cp)[0] == LeadByte(cp)
    ensures forall k :: 1 <= k < 5 ==> EncodeChar(cp)[k] == ContByte(ShiftSextets(cp, 4 - k))
  {
    Row5(cp);
    assert LeadByte(cp) == ((cp >> 24) | 0xf8) as bv8;
  }

  lemma Indexed6(cp: bv32)
    requires 0x400_0000 <= cp <= MAX_UCS4
    ensures EncodeChar(cp)[0] == LeadByte(cp)
    ensures forall k :: 1 <= k < 6 ==> EncodeChar(cp)[k] == ContByte(ShiftSextets(cp, 5 - k))
  {
    Row6(cp);
    assert LeadByte(cp) == ((cp >> 30) | 0xfc) as bv8;
  }

  /** The lead byte of each row announces the row's length. */
  lemma LeadAnnouncesLength(cp: bv32)
    requires cp <= MAX_UCS4
    ensures CharLength(EncodeChar(cp)[0]) == SeqLength(cp)
  {
    var n := SeqLength(cp);
    var b := EncodeChar(cp)[0];
    if n == 1 {
      assert b & 0x80 == 0;
    } else if n == 2 {
      assert b & 0xe0 == 0xc0;
    } else if n == 3 {
      assert b & 0xf0 == 0xe0;
    } else if n == 4 {
      assert b & 0xf8 == 0xf0;
    } else if n == 5 {
      assert b & 0xfc == 0xf8;
    } else {
      assert b & 0xfe == 0xfc;
    }
  }

  /**
   * The encoder emits the shortest form: the code point fits in the payload
   * of the chosen length (7 bits for one byte, 5n+1 for n bytes) and not in
   * that of the next shorter one.
   */
  lemma ShortestForm(cp: bv32)
    requires cp <= MAX_UCS4
    ensures SeqLength(cp) == 1 <==> cp >> 7 == 0
    ensures SeqLength(cp) == 2 <==> cp >> 11 == 0 && cp >> 7 != 0
    ensures SeqLength(cp) == 3 <==> cp >> 16 == 0 && cp >> 11 != 0
    ensures SeqLength(cp) == 4 <==> cp >> 21 == 0 && cp >> 16 != 0
    ensures SeqLength(cp) == 5 <==> cp >> 26 == 0 && cp >> 21 != 0
    ensures SeqLength(cp) == 6 <==> cp >> 26 != 0
  {
  }

  /**
   * A sequence starts with a lead byte announcing its own length, is
   * followed only by continuation bytes, and holds a zero byte only for the
   * code point 0.
   */
  lemma EncodeCharShape(cp: bv32)
    requires cp <= MAX_UCS4
    ensures CharLength(EncodeChar(cp)[0]) == |EncodeChar(cp)|
    ensures forall t :: 1 <= t < |EncodeChar(cp)| ==> IsContinuation(EncodeChar(cp)[t])
    ensures (0 in EncodeChar(cp)) <==> cp == 0
  {
    LeadAnnouncesLength(cp);
    var e := EncodeChar(cp);
    assert e[0] == 0 <==> cp == 0;
    assert forall t :: 1 <= t < |e| ==> IsContinuation(e[t]) && e[t] != 0;
  }

  // ---------------------------------------------------------------------
  // Encoding a string
  // ---------------------------------------------------------------------

  /** Every unit is a value the 6-byte form can carry. */
  predicate AllEncodable(cps: seq<bv32>) {
    forall k :: 0 <= k < |cps| ==> cps[k] <= MAX_UCS4
  }

  /** The concatenated sequences of a string of code points. */
  function EncodeAll(cps: seq<bv32>): (bs: seq<bv8>)
    requires AllEncodable(cps)
  {
    if cps == [] then [] else EncodeChar(cps[0]) + EncodeAll(cps[1..])
  }

  /** An encoded string holds no NUL when the code points hold none. */
  lemma {:induction false} EncodeAllNoNul(cps: seq<bv32>)
    requires AllEncodable(cps) && 0 !in cps
    ensures 0 !in EncodeAll(cps)
  {
    if cps != [] {
      EncodeCharShape(cps[0]);
      EncodeAllNoNul(cps[1..]);
    }
  }

  /** An encoded string can be decoded without reading past its end. */
  lemma {:induction false} EncodeAllDecodable(cps: seq<bv32>)
    requires AllEncodable(cps)
    ensures Decodable(EncodeAll(cps))
  {
    if cps != [] {
      var e := EncodeChar(cps[0]);
      var rest := EncodeAll(cps[1..]);
      var s := e + rest;
      assert EncodeAll(cps) == s;
      EncodeCharShape(cps[0]);
      EncodeAllDecodable(cps[1..]);
      assert s[0] == e[0] && s[|e|..] == rest;
    }
  }

  // ---------------------------------------------------------------------
  // Decoding
  // ---------------------------------------------------------------------

  /** The low six bits of a continuation byte, widened. */
  function Low6(b: bv8): bv32 {
    (b & 0x3f) as bv32
  }

  /**
   * The unit the decoders assemble from one sequence `bs` (its lead byte and
   * the bytes the lead byte announces), with `mask3` applied to the lead
   * byte of a 3-byte sequence. Continuation bytes are masked, never checked.
   */
  function DecodeSequence(bs: seq<bv8>, mask3: bv8): bv32
    requires 1 <= |bs| && |bs| == Width(bs[0])
  {
    match CharLength(bs[0])
    case 1 => bs[0] as bv32
    case 2 => (Low6(bs[0]) << 6) | Low6(bs[1])
    case 3 => ((bs[0] & mask3) as bv32 << 12) | (Low6(bs[1]) << 6) | Low6(bs[2])
    case 4 => ((bs[0] & 0x07) as bv32 << 18) | (Low6(bs[1]) << 12) | (Low6(bs[2]) << 6)
              | Low6(bs[3])
    case 5 => ((bs[0] & 0x03) as bv32 << 24) | (Low6(bs[1]) << 18) | (Low6(bs[2]) << 12)
              | (Low6(bs[3]) << 6) | Low6(bs[4])
    case 6 => ((bs[0] & 0x01) as bv32 << 30) | (Low6(bs[1]) << 24) | (Low6(bs[2]) << 18)
              | (Low6(bs[3]) << 12) | (Low6(bs[4]) << 6) | Low6(bs[5])
    case _ => REPLACEMENT
  }

  /**
   * The units decoded from `s`: one unit per sequence, an unclassifiable
   * byte becoming one '?'.
   */
  function Decode(s: seq<bv8>, mask3: bv8): (u: seq<bv32>)
    requires Decodable(s)
    ensures |u| <= |s|
    decreases |s|
  {
    if s == [] then []
    else [DecodeSequence(s[..Width(s[0])], mask3)] + Decode(s[Width(s[0])..], mask3)
  }

  /**
   * Decoding from position `i`, as the buffer-walking loops see it: the
   * sequence at `i` fits, gives the first unit, and decoding resumes after it.
   */
  lemma DecodeAt(s: seq<bv8>, i: nat, mask3: bv8)
    requires i < |s| && Decodable(s[i..])
    ensures i + Width(s[i]) <= |s| && Decodable(s[i + Width(s[i])..])
    ensures Decode(s[i..], mask3)
            == [DecodeSequence(s[i..i + Width(s[i])], mask3)] + Decode(s[i + Width(s[i])..], mask3)
  {
    assert s[i..][0] == s[i];
    assert s[i..][Width(s[i])..] == s[i + Width(s[i])..];
    assert s[i..][..Width(s[i])] == s[i..i + Width(s[i])];
  }

  /** What the as-written decoder makes of one encoded code point. */
  function AsWrittenRoundTrip(cp: bv32): bv32
    requires cp <= MAX_UCS4
  {
    if SeqLength(cp) == 3 then cp | 0x2_0000 else cp
  }

  /**
   * Decoding one encoded code point: the corrected lead mask gives the code
   * point back for every length; the as-written one for every length but 3,
   * where bit 17 comes back set.
   */
  lemma DecodeEncodeChar(cp: bv32)
    requires cp <= MAX_UCS4
    ensures Width(EncodeChar(cp)[0]) == |EncodeChar(cp)|
    ensures DecodeSequence(EncodeChar(cp), LEAD3_MASK_FIXED) == cp
    ensures DecodeSequence(EncodeChar(cp), LEAD3_MASK_AS_WRITTEN) == AsWrittenRoundTrip(cp)
  {
    EncodeCharShape(cp);
    var n := SeqLength(cp);
    if n == 1 {
      DecodeLength1(cp, LEAD3_MASK_FIXED);
      DecodeLength1(cp, LEAD3_MASK_AS_WRITTEN);
    } else if n == 2 {
      DecodeLength2(cp, LEAD3_MASK_FIXED);
      DecodeLength2(cp, LEAD3_MASK_AS_WRITTEN);
    } else if n == 3 {
      DecodeLength3Fixed(cp);
      DecodeLength3AsWritten(cp);
    } else if n == 4 {
      DecodeLength4(cp, LEAD3_MASK_FIXED);
      DecodeLength4(cp, LEAD3_MASK_AS_WRITTEN);
    } else if n == 5 {
      DecodeLength5(cp, LEAD3_MASK_FIXED);
      DecodeLength5(cp, LEAD3_MASK_AS_WRITTEN);
    } else {
      DecodeLength6(cp, LEAD3_MASK_FIXED);
      DecodeLength6(cp, LEAD3_MASK_AS_WRITTEN);
    }
  }

  lemma DecodeLength1(cp: bv32, mask3: bv8)
    requires cp < 0x80
    ensures DecodeSequence(EncodeChar(cp), mask3) == cp
  {
    LeadAnnouncesLength(cp);
  }

  lemma DecodeLength2(cp: bv32, mask3: bv8)
    requires 0x80 <= cp < 0x800
    ensures DecodeSequence(EncodeChar(cp), mask3) == cp
  {
    Row2(cp);
    var e := EncodeChar(cp);
    LeadAnnouncesLength(cp);
    Unfold2(e, mask3);
    Reassemble2(cp, e[0], e[1]);
  }

  lemma Row2(cp: bv32)
    requires 0x80 <= cp < 0x800
    ensures EncodeChar(cp)
            == [((cp >> 6) | 0xc0) as bv8, ContByte(cp)]
  {
  }

  lemma Unfold2(bs: seq<bv8>, mask3: bv8)
    requires |bs| == 2 && CharLength(bs[0]) == 2
    ensures DecodeSequence(bs, mask3)
            == (Low6(bs[0]) << 6) | Low6(bs[1])
  {
  }

  lemma Reassemble2(cp: bv32, b0: bv8, b1: bv8)
    requires 0x80 <= cp < 0x800
    requires b0 == ((cp >> 6) | 0xc0) as bv8 && b1 == ContByte(cp)
    ensures (Low6(b0) << 6) | Low6(b1) == cp
  {
    LowOfContinuation(cp);
    Split2(cp);
  }

  lemma DecodeLength3Fixed(cp: bv32)
    requires 0x800 <= cp < 0x1_0000
    ensures DecodeSequence(EncodeChar(cp), LEAD3_MASK_FIXED) == cp
  {
    Row3(cp);
    var e := EncodeChar(cp);
    LeadAnnouncesLength(cp);
    Unfold3(e, LEAD3_MASK_FIXED);
    Reassemble3Fixed(cp, e[0], e[1], e[2]);
  }

  lemma DecodeLength3AsWritten(cp: bv32)
    requires 0x800 <= cp < 0x1_0000
    ensures DecodeSequence(EncodeChar(cp), LEAD3_MASK_AS_WRITTEN) == cp | 0x2_0000
  {
    Row3(cp);
    var e := EncodeChar(cp);
    LeadAnnouncesLength(cp);
    Unfold3(e, LEAD3_MASK_AS_WRITTEN);
    Reassemble3AsWritten(cp, e[0], e[1], e[2]);
  }

  lemma Row3(cp: bv32)
    requires 0x800 <= cp < 0x1_0000
    ensures EncodeChar(cp)
            == [((cp >> 12) | 0xe0) as bv8, ContByte(cp >> 6), ContByte(cp)]
  {
  }

  lemma Unfold3(bs: seq<bv8>, mask3: bv8)
    requires |bs| == 3 && CharLength(bs[0]) == 3
    ensures DecodeSequence(bs, mask3)
            == ((bs[0] & mask3) as bv32 << 12) | (Low6(bs[1]) << 6) | Low6(bs[2])
  {
  }

  lemma Reassemble3Fixed(cp: bv32, b0: bv8, b1: bv8, b2: bv8)
    requires 0x800 <= cp < 0x1_0000
    requires b0 == ((cp >> 12) | 0xe0) as bv8 && b1 == ContByte(cp >> 6) && b2 == ContByte(cp)
    ensures ((b0 & LEAD3_MASK_FIXED) as bv32 << 12) | (Low6(b1) << 6) | Low6(b2) == cp
  {
    LowOfContinuation(cp >> 6);
    LowOfContinuation(cp);
    Split3Fixed(cp);
  }

  lemma Reassemble3AsWritten(cp: bv32, b0: bv8, b1: bv8, b2: bv8)
    requires 0x800 <= cp < 0x1_0000
    requires b0 == ((cp >> 12) | 0xe0) as bv8 && b1 == ContByte(cp >> 6) && b2 == ContByte(cp)
    ensures ((b0 & LEAD3_MASK_AS_WRITTEN) as bv32 << 12) | (Low6(b1) << 6) | Low6(b2)
            == cp | 0x2_0000
  {
    LowOfContinuation(cp >> 6);
    LowOfContinuation(cp);
    Split3AsWritten(cp);
  }

  lemma DecodeLength4(cp: bv32, mask3: bv8)
    requires 0x1_0000 <= cp < 0x20_0000
    ensures DecodeSequence(EncodeChar(cp), mask3) == cp
  {
    Row4(cp);
    var e := EncodeChar(cp);
    LeadAnnouncesLength(cp);
    Unfold4(e, mask3);
    Reassemble4(cp, e[0], e[1], e[2], e[3]);
  }

  lemma Row4(cp: bv32)
    requires 0x1_0000 <= cp < 0x20_0000
    ensures EncodeChar(cp)
            == [((cp >> 18) | 0xf0) as bv8, ContByte(cp >> 12), ContByte(cp >> 6), ContByte(cp)]
  {
  }

  lemma Unfold4(bs: seq<bv8>, mask3: bv8)
    requires |bs| == 4 && CharLength(bs[0]) == 4
    ensures DecodeSequence(bs, mask3)
            == ((bs[0] & 0x07) as bv32 << 18) | (Low6(bs[1]) << 12) | (Low6(bs[2]) << 6)
               | Low6(bs[3])
  {
  }

  lemma Reassemble4(cp: bv32, b0: bv8, b1: bv8, b2: bv8, b3: bv8)
    requires 0x1_0000 <= cp < 0x20_0000
    requires b0 == ((cp >> 18) | 0xf0) as bv8 && b1 == ContByte(cp >> 12)
    requires b2 == ContByte(cp >> 6) && b3 == ContByte(cp)
    ensures ((b0 & 0x07) as bv32 << 18) | (Low6(b1) << 12) | (Low6(b2) << 6) | Low6(b3) == cp
  {
    LowOfContinuation(cp >> 12);
    LowOfContinuation(cp >> 6);
    LowOfContinuation(cp);
    Split4(cp);
  }

  lemma DecodeLength5(cp: bv32, mask3: bv8)
    requires 0x20_0000 <= cp < 0x400_0000
    ensures DecodeSequence(EncodeChar(cp), mask3) == cp
  {
    Row5(cp);
    var e := EncodeChar(cp);
    LeadAnnouncesLength(cp);
    Unfold5(e, mask3);
    Reassemble5(cp, e[0], e[1], e[2], e[3], e[4]);
  }

  lemma Row5(cp: bv32)
    requires 0x20_0000 <= cp < 0x400_0000
    ensures EncodeChar(cp)
            == [((cp >> 24) | 0xf8) as bv8, ContByte(cp >> 18), ContByte(cp >> 12),
               ContByte(cp >> 6), ContByte(cp)]
  {
  }

  lemma Unfold5(bs: seq<bv8>, mask3: bv8)
    requires |bs| == 5 && CharLength(bs[0]) == 5
    ensures DecodeSequence(bs, mask3)
            == ((bs[0] & 0x03) as bv32 << 24) | (Low6(bs[1]) << 18) | (Low6(bs[2]) << 12)
               | (Low6(bs[3]) << 6) | Low6(bs[4])
  {
  }

  lemma Reassemble5(cp: bv32, b0: bv8, b1: bv8, b2: bv8, b3: bv8, b4: bv8)
    requires 0x20_0000 <= cp < 0x400_0000
    requires b0 == ((cp >> 24) | 0xf8) as bv8 && b1 == ContByte(cp >> 18)
    requires b2 == ContByte(cp >> 12) && b3 == ContByte(cp >> 6) && b4 == ContByte(cp)
    ensures ((b0 & 0x03) as bv32 << 24) | (Low6(b1) << 18) | (Low6(b2) << 12) | (Low6(b3) << 6)
            | Low6(b4) == cp
  {
    LowOfContinuation(cp >> 18);
    LowOfContinuation(cp >> 12);
    LowOfContinuation(cp >> 6);
    LowOfContinuation(cp);
    Split5(cp);
  }

  lemma DecodeLength6(cp: bv32, mask3: bv8)
    requires 0x400_0000 <= cp <= MAX_UCS4
    ensures DecodeSequence(EncodeChar(cp), mask3) == cp
  {
    Row6(cp);
    var e := EncodeChar(cp);
    LeadAnnouncesLength(cp);
    Unfold6(e, mask3);
    Reassemble6(cp, e[0], e[1], e[2], e[3], e[4], e[5]);
  }

  lemma Row6(cp: bv32)
    requires 0x400_0000 <= cp <= MAX_UCS4
    ensures EncodeChar(cp)
            == [((cp >> 30) | 0xfc) as bv8, ContByte(cp >> 24), ContByte(cp >> 18),
               ContByte(cp >> 12), ContByte(cp >> 6), ContByte(cp)]
  {
  }

  lemma Unfold6(bs: seq<bv8>, mask3: bv8)
    requires |bs| == 6 && CharLength(bs[0]) == 6
    ensures DecodeSequence(bs, mask3)
            == ((bs[0] & 0x01) as bv32 << 30) | (Low6(bs[1]) << 24) | (Low6(bs[2]) << 18)
               | (Low6(bs[3]) << 12) | (Low6(bs[4]) << 6) | Low6(bs[5])
  {
  }

  lemma Reassemble6(cp: bv32, b0: bv8, b1: bv8, b2: bv8, b3: bv8, b4: bv8, b5: bv8)
    requires 0x400_0000 <= cp <= MAX_UCS4
    requires b0 == ((cp >> 30) | 0xfc) as bv8 && b1 == ContByte(cp >> 24)
    requires b2 == ContByte(cp >> 18) && b3 == ContByte(cp >> 12)
    requires b4 == ContByte(cp >> 6) && b5 == ContByte(cp)
    ensures ((b0 & 0x01) as bv32 << 30) | (Low6(b1) << 24) | (Low6(b2) << 18) | (Low6(b3) << 12)
            | (Low6(b4) << 6) | Low6(b5) == cp
  {
    LowOfContinuation(cp >> 24);
    LowOfContinuation(cp >> 18);
    LowOfContinuation(cp >> 12);
    LowOfContinuation(cp >> 6);
    LowOfContinuation(cp);
    Split6(cp);
  }

  // Each code point is the sum of the bit fields its row cuts it into, and
  // the lead byte's prefix falls away under the decoder's mask.

  lemma Split2(cp: bv32)
    requires 0x80 <= cp < 0x800
    ensures Low6(((cp >> 6) | 0xc0) as bv8) == (cp >> 6) & 0x1f
    ensures (((cp >> 6) & 0x1f) << 6) | (cp & 0x3f) == cp
  {
  }

  lemma Split3Fixed(cp: bv32)
    requires 0x800 <= cp < 0x1_0000
    ensures (((cp >> 12) | 0xe0) as bv8 & LEAD3_MASK_FIXED) as bv32 == (cp >> 12) & 0x0f
    ensures (((cp >> 12) & 0x0f) << 12) | (((cp >> 6) & 0x3f) << 6) | (cp & 0x3f) == cp
  {
  }

  lemma Split3AsWritten(cp: bv32)
    requires 0x800 <= cp < 0x1_0000
    ensures (((cp >> 12) | 0xe0) as bv8 & LEAD3_MASK_AS_WRITTEN) as bv32
            == ((cp >> 12) & 0x0f) | 0x20
    ensures ((((cp >> 12) & 0x0f) | 0x20) << 12) | (((cp >> 6) & 0x3f) << 6) | (cp & 0x3f)
            == cp | 0x2_0000
  {
  }

  lemma Split4(cp: bv32)
    requires 0x1_0000 <= cp < 0x20_0000
    ensures (((cp >> 18) | 0xf0) as bv8 & 0x07) as bv32 == (cp >> 18) & 0x07
    ensures (((cp >> 18) & 0x07) << 18) | (((cp >> 12) & 0x3f) << 12) | (((cp >> 6) & 0x3f) << 6)
            | (cp & 0x3f) == cp
  {
  }

  lemma Split5(cp: bv32)
    requires 0x20_0000 <= cp < 0x400_0000
    ensures (((cp >> 24) | 0xf8) as bv8 & 0x03) as bv32 == (cp >> 24) & 0x03
    ensures (((cp >> 24) & 0x03) << 24) | (((cp >> 18) & 0x3f) << 18) | (((cp >> 12) & 0x3f) << 12)
            | (((cp >> 6) & 0x3f) << 6) | (cp & 0x3f) == cp
  {
  }

  lemma Split6(cp: bv32)
    requires 0x400_0000 <= cp <= MAX_UCS4
    ensures (((cp >> 30) | 0xfc) as bv8 & 0x01) as bv32 == (cp >> 30) & 0x01
    ensures (((cp >> 30) & 0x01) << 30) | (((cp >> 24) & 0x3f) << 24) | (((cp >> 18) & 0x3f) << 18)
            | (((cp >> 12) & 0x3f) << 12) | (((cp >> 6) & 0x3f) << 6) | (cp & 0x3f) == cp
  {
  }

  /** A continuation byte gives back the six bits it carries. */
  lemma LowOfContinuation(v: bv32)
    ensures Low6(ContByte(v)) == v & 0x3f
  {
  }

  /** The as-written decoder applied to an encoded string. */
  function AsWrittenRoundTripAll(cps: seq<bv32>): (r: seq<bv32>)
    requires AllEncodable(cps)
    ensures |r| == |cps|
  {
    if cps == [] then [] else [AsWrittenRoundTrip(cps[0])] + AsWrittenRoundTripAll(cps[1..])
  }

  lemma {:induction false} DecodeEncodeAllWith(cps: seq<bv32>, mask3: bv8)
    requires AllEncodable(cps)
    requires mask3 == LEAD3_MASK_FIXED || mask3 == LEAD3_MASK_AS_WRITTEN
    ensures Decodable(EncodeAll(cps))
    ensures mask3 == LEAD3_MASK_FIXED ==> Decode(EncodeAll(cps), mask3) == cps
    ensures mask3 == LEAD3_MASK_AS_WRITTEN ==>
      Decode(EncodeAll(cps), mask3) == AsWrittenRoundTripAll(cps)
  {
    EncodeAllDecodable(cps);
    if cps != [] {
      var e := EncodeChar(cps[0]);
      var rest := EncodeAll(cps[1..]);
      var s := e + rest;
      assert EncodeAll(cps) == s;
      DecodeEncodeChar(cps[0]);
      assert s[0] == e[0] && s[..|e|] == e && s[|e|..] == rest;
      DecodeEncodeAllWith(cps[1..], mask3);
    }
  }

  /** Corrected decoding inverts the encoder on every string it accepts. */
  lemma RoundTripFixed(cps: seq<bv32>)
    requires AllEncodable(cps)
    ensures Decodable(EncodeAll(cps))
    ensures Decode(EncodeAll(cps), LEAD3_MASK_FIXED) == cps
  {
    DecodeEncodeAllWith(cps, LEAD3_MASK_FIXED);
  }

  /**
   * As-written decoding inverts the encoder exactly on the strings with no
   * code point in 0x800..0xFFFF (the 3-byte form).
   */
  lemma RoundTripAsWritten(cps: seq<bv32>)
    requires AllEncodable(cps)
    ensures Decodable(EncodeAll(cps))
    ensures Decode(EncodeAll(cps), LEAD3_MASK_AS_WRITTEN) == cps
        <==> forall k :: 0 <= k < |cps| ==> !(0x800 <= cps[k] < 0x1_0000)
  {
    DecodeEncodeAllWith(cps, LEAD3_MASK_AS_WRITTEN);
    AsWrittenRoundTripAllIdentity(cps);
  }

  lemma {:induction false} AsWrittenRoundTripAllIdentity(cps: seq<bv32>)
    requires AllEncodable(cps)
    ensures AsWrittenRoundTripAll(cps) == cps
        <==> forall k :: 0 <= k < |cps| ==> !(0x800 <= cps[k] < 0x1_0000)
  {
    if cps != [] {
      AsWrittenRoundTripAllIdentity(cps[1..]);
      var r := AsWrittenRoundTripAll(cps);
      assert r[0] == AsWrittenRoundTrip(cps[0]);
      assert r[1..] == AsWrittenRoundTripAll(cps[1..]);
      AsWrittenRoundTripFixes(cps[0]);
      if r == cps {
        assert r[1..] == cps[1..];
      }
      if forall k :: 0 <= k < |cps| ==> !(0x800 <= cps[k] < 0x1_0000) {
        assert forall k :: 0 <= k < |cps[1..]| ==> cps[1..][k] == cps[k + 1];
        assert r == [r[0]] + r[1..];
      }
    }
  }

  /** Only the code points of the 3-byte form are changed by the as-written round trip. */
  lemma AsWrittenRoundTripFixes(cp: bv32)
    requires cp <= MAX_UCS4
    ensures AsWrittenRoundTrip(cp) == cp <==> !(0x800 <= cp < 0x1_0000)
  {
    if 0x800 <= cp < 0x1_0000 {
      assert cp & 0x2_0000 == 0;
    }
  }

  /**
   * U+0800, the smallest 3-byte code point, is encoded as E0 A0 80 and
   * decoded by the code as written to 0x20800.
   */
  lemma ThreeByteFormNotInverted()
    ensures EncodeChar(0x800) == [0xe0, 0xa0, 0x80]
    ensures DecodeSequence(EncodeChar(0x800), LEAD3_MASK_AS_WRITTEN) == 0x2_0800
  {
  }
}
