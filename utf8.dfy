/**
 * UTF-8 as defined by RFC 3629 (section 3 for the encoding, section 4 for the
 * byte-sequence syntax).  The segmenter decodes its input with the utf8.h
 * library, which is not part of this model; this module stands in for it on
 * well-formed input.
 */
module Utf8 {

  type Byte = b: int | 0 <= b < 256

  /** The bytes 0x80..0xBF, which never start a character. */
  predicate IsContinuation(b: Byte) {
    0x80 <= b <= 0xBF
  }

  /** Number of bytes of the character that lead byte `b` opens; 0 when `b` cannot lead one. */
  function SequenceLength(b: Byte): (n: nat)
    ensures n <= 4
    ensures n == 0 || !IsContinuation(b)
  {
    if b <= 0x7F then 1
    else if 0xC2 <= b <= 0xDF then 2
    else if 0xE0 <= b <= 0xEF then 3
    else if 0xF0 <= b <= 0xF4 then 4
    else 0
  }

  /** s[p..p + SequenceLength(s[p])] is one UTF8-char of the RFC 3629 syntax. */
  predicate CharAt(s: seq<Byte>, p: nat) {
    p < |s| &&
    var n := SequenceLength(s[p]);
    0 < n && p + n <= |s| &&
    (n >= 2 ==> IsContinuation(s[p + 1])) &&
    (n >= 3 ==> IsContinuation(s[p + 2])) &&
    (n == 4 ==> IsContinuation(s[p + 3])) &&
    (s[p] == 0xE0 ==> 0xA0 <= s[p + 1]) &&
    (s[p] == 0xED ==> s[p + 1] <= 0x9F) &&
    (s[p] == 0xF0 ==> 0x90 <= s[p + 1]) &&
    (s[p] == 0xF4 ==> s[p + 1] <= 0x8F)
  }

  /** A Unicode scalar value: a code point that is not a surrogate. */
  predicate IsScalar(cp: int) {
    0 <= cp <= 0x10FFFF && !(0xD800 <= cp <= 0xDFFF)
  }

  /** The code point of the character at p; its width is determined by its size. */
  function DecodeAt(s: seq<Byte>, p: nat): (cp: nat)
    requires CharAt(s, p)
    ensures IsScalar(cp)
    ensures cp < 0x80 <==> SequenceLength(s[p]) == 1
    ensures 0x80 <= cp < 0x800 <==> SequenceLength(s[p]) == 2
    ensures 0x800 <= cp < 0x10000 <==> SequenceLength(s[p]) == 3
    ensures 0x10000 <= cp <==> SequenceLength(s[p]) == 4
  {
    var n := SequenceLength(s[p]);
    var b0: int := s[p];
    if n == 1 then b0
    else
      var b1: int := s[p + 1];
      if n == 2 then (b0 - 0xC0) * 64 + (b1 - 0x80)
      else
        var b2: int := s[p + 2];
        if n == 3 then (b0 - 0xE0) * 4096 + (b1 - 0x80) * 64 + (b2 - 0x80)
        else (b0 - 0xF0) * 262144 + (b1 - 0x80) * 4096 + (b2 - 0x80) * 64 + (s[p + 3] as int - 0x80)
  }

  lemma DivMod64(x: nat)
    ensures x == 64 * (x / 64) + x % 64 && x % 64 < 64
  {
  }

  lemma DivMod64Unique(x: nat, q: nat, r: nat)
    requires x == 64 * q + r && r < 64
    ensures x / 64 == q && x % 64 == r
  {
    DivMod64(x);
  }

  /** The RFC 3629 encoding of a scalar value. */
  function Encode(cp: nat): (s: seq<Byte>)
    requires IsScalar(cp)
    ensures 1 <= |s| <= 4
  {
    var q1 := cp / 64;
    var q2 := q1 / 64;
    var q3 := q2 / 64;
    DivMod64(cp); DivMod64(q1); DivMod64(q2);
    if cp < 0x80 then [cp]
    else if cp < 0x800 then [0xC0 + q1, 0x80 + cp % 64]
    else if cp < 0x10000 then [0xE0 + q2, 0x80 + q1 % 64, 0x80 + cp % 64]
    else [0xF0 + q3, 0x80 + q2 % 64, 0x80 + q1 % 64, 0x80 + cp % 64]
  }

  /** Encoding then decoding gives back the scalar value. */
  lemma DecodeEncode(cp: nat)
    requires IsScalar(cp)
    ensures CharAt(Encode(cp), 0)
    ensures SequenceLength(Encode(cp)[0]) == |Encode(cp)|
    ensures DecodeAt(Encode(cp), 0) == cp
  {
    DivMod64(cp); DivMod64(cp / 64); DivMod64(cp / 64 / 64);
  }

  /** Decoding then encoding gives back the bytes of the character. */
  lemma EncodeDecode(s: seq<Byte>, p: nat)
    requires CharAt(s, p)
    ensures Encode(DecodeAt(s, p)) == s[p..p + SequenceLength(s[p])]
  {
    var cp := DecodeAt(s, p);
    var n := SequenceLength(s[p]);
    var b0: int := s[p];
    if n == 2 {
      DivMod64Unique(cp, b0 - 0xC0, s[p + 1] - 0x80);
    } else if n == 3 {
      var q1 := (b0 - 0xE0) * 64 + (s[p + 1] - 0x80);
      DivMod64Unique(cp, q1, s[p + 2] - 0x80);
      DivMod64Unique(q1, b0 - 0xE0, s[p + 1] - 0x80);
    } else if n == 4 {
      var q2 := (b0 - 0xF0) * 64 + (s[p + 1] - 0x80);
      var q1 := q2 * 64 + (s[p + 2] - 0x80);
      DivMod64Unique(cp, q1, s[p + 3] - 0x80);
      DivMod64Unique(q1, q2, s[p + 2] - 0x80);
      DivMod64Unique(q2, b0 - 0xF0, s[p + 1] - 0x80);
    }
    assert Encode(cp) == s[p..p + n];
  }

  /** p starts a character: it is inside s and s[p] is not a continuation byte. */
  predicate IsStart(s: seq<Byte>, p: nat) {
    p < |s| && !IsContinuation(s[p])
  }

  /** k is a character boundary of s: the start of a character or the end of s. */
  predicate IsBoundary(s: seq<Byte>, k: nat) {
    k == |s| || IsStart(s, k)
  }

  /** The RFC 3629 syntax UTF8-octets = *( UTF8-char ), read from offset p on. */
  predicate WellFormedFrom(s: seq<Byte>, p: nat)
    requires p <= |s|
    decreases |s| - p
  {
    p == |s| || (CharAt(s, p) && WellFormedFrom(s, p + SequenceLength(s[p])))
  }

  predicate WellFormed(s: seq<Byte>) {
    WellFormedFrom(s, 0)
  }

  /** The local reading of well-formedness that the segmenter relies on. */
  ghost predicate Chars(s: seq<Byte>) {
    (|s| > 0 ==> IsStart(s, 0)) &&
    forall p: nat :: IsStart(s, p) ==> CharAt(s, p) && NextIsBoundary(s, p)
  }

  /** The offset right after the character at p is a boundary (stated without IsStart). */
  predicate NextIsBoundary(s: seq<Byte>, p: nat)
    requires CharAt(s, p)
  {
    var e := p + SequenceLength(s[p]);
    e == |s| || !IsContinuation(s[e])
  }

  /**
   * In a well-formed string, s[0] starts a character, and every byte that is
   * not a continuation byte starts a whole character that ends on a boundary.
   */
  lemma WellFormedChars(s: seq<Byte>)
    requires WellFormed(s)
    ensures Chars(s)
  {
    WellFormedCharsFrom(s, 0);
  }

  lemma {:induction false} WellFormedCharsFrom(s: seq<Byte>, p0: nat)
    requires p0 <= |s| && WellFormedFrom(s, p0)
    ensures p0 < |s| ==> IsStart(s, p0)
    ensures forall p: nat :: p0 <= p && IsStart(s, p) ==> CharAt(s, p) && NextIsBoundary(s, p)
    decreases |s| - p0
  {
    if p0 < |s| {
      var next := p0 + SequenceLength(s[p0]);
      WellFormedCharsFrom(s, next);
      forall q | p0 < q < next ensures IsContinuation(s[q]) {
        InsideChar(s, p0, q);
      }
    }
  }

  /** The start of the character that ends just before offset k. */
  function LastStart(s: seq<Byte>, k: nat): (p: nat)
    requires 0 < k <= |s|
    ensures p < k
  {
    if k == 1 || !IsContinuation(s[k - 1]) then k - 1 else LastStart(s, k - 1)
  }

  lemma {:induction false} LastStartScan(s: seq<Byte>, k: nat)
    requires Chars(s) && 0 < k <= |s|
    ensures IsStart(s, LastStart(s, k))
    ensures forall q :: LastStart(s, k) < q < k ==> IsContinuation(s[q])
  {
    if !(k == 1 || !IsContinuation(s[k - 1])) {
      LastStartScan(s, k - 1);
    }
  }

  /** At a boundary k > 0, LastStart(s, k) starts a character that ends exactly at k. */
  lemma LastStartEndsAt(s: seq<Byte>, k: nat)
    requires Chars(s) && 0 < k <= |s| && IsBoundary(s, k)
    ensures IsStart(s, LastStart(s, k))
    ensures LastStart(s, k) + SequenceLength(s[LastStart(s, k)]) == k
  {
    var p := LastStart(s, k);
    LastStartScan(s, k);
    var e := p + SequenceLength(s[p]);
    assert CharAt(s, p) && NextIsBoundary(s, p);
  }

  /** Every offset strictly inside a character holds a continuation byte, so it is no boundary. */
  lemma InsideChar(s: seq<Byte>, p: nat, q: nat)
    requires CharAt(s, p) && p < q < p + SequenceLength(s[p])
    ensures IsContinuation(s[q]) && !IsBoundary(s, q)
  {
  }

  /** A start i < k is at or before the start of the character that ends at k. */
  lemma LastStartAtLeast(s: seq<Byte>, i: nat, k: nat)
    requires Chars(s) && IsStart(s, i) && i < k <= |s|
    ensures i <= LastStart(s, k)
  {
    LastStartScan(s, k);
  }

  /** The character that starts at i is the one that ends at i + SequenceLength(s[i]). */
  lemma LastStartOfChar(s: seq<Byte>, i: nat)
    requires Chars(s) && IsStart(s, i)
    ensures 0 < i + SequenceLength(s[i]) <= |s|
    ensures LastStart(s, i + SequenceLength(s[i])) == i
  {
    var k := i + SequenceLength(s[i]);
    assert CharAt(s, i) && NextIsBoundary(s, i);
    LastStartScan(s, k);
    LastStartAtLeast(s, i, k);
  }

  /** The character at p decodes the same inside s and as a string of its own. */
  lemma DecodeSlice(s: seq<Byte>, p: nat)
    requires CharAt(s, p)
    ensures var c := s[p..p + SequenceLength(s[p])];
      CharAt(c, 0) && DecodeAt(c, 0) == DecodeAt(s, p)
  {
    var n := SequenceLength(s[p]);
    var c := s[p..p + n];
    assert c[0] == s[p];
    assert n >= 2 ==> c[1] == s[p + 1];
    assert n >= 3 ==> c[2] == s[p + 2];
    assert n == 4 ==> c[3] == s[p + 3];
  }
}
