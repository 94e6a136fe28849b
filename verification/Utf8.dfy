/** Code units and code points shared by the two encodings. */
module CodeUnits {
  type Byte = b: int | 0 <= b < 0x100
  type Unit16 = u: int | 0 <= u < 0x1_0000
  type Char32 = p: int | 0 <= p < 0x1_0000_0000

  const REPLACEMENT: Char32 := 0xFFFD

  /** Result of a checked decode: units consumed and code point, or offset -1. */
  datatype OffsetPt = OffsetPt(offset: int, pt: Char32)

  const INVALID_PT := OffsetPt(-1, 0)

  /** A Unicode scalar value: any code point that is not a surrogate. */
  predicate IsScalar(pt: Char32) {
    pt < 0xD800 || 0xE000 <= pt < 0x11_0000
  }

  ghost predicate AllScalar(ps: seq<Char32>) {
    forall k | 0 <= k < |ps| :: IsScalar(ps[k])
  }

  // The masks, shifts and ors of the decoders and encoders, read as arithmetic. The model uses
  // the right-hand sides; nothing overflows 32 bits on these ranges.

  /**
    Bytes after the first are not cast to unsigned, so where char is signed b, c and d arrive
    sign-extended; the low eight bits decide in any case.
   */
  lemma DecodingBitsAreArithmetic(a: bv32, b: bv32, c: bv32, d: bv32)
    requires a < 0x100
    ensures ((b & 0xC0) == 0x80) == ((b % 256) / 64 == 2)
    ensures ((a & 0x1F) << 6) | (b & 0x3F) == (a % 32) * 64 + (b % 256) % 64
    ensures ((a & 0x0F) << 12) | ((b & 0x3F) << 6) | (c & 0x3F)
            == (a % 16) * 4096 + ((b % 256) % 64) * 64 + (c % 256) % 64
    ensures ((a & 0x0F) << 18) | ((b & 0x3F) << 12) | ((c & 0x3F) << 6) | (d & 0x3F)
            == (a % 16) * 262144 + ((b % 256) % 64) * 4096 + ((c % 256) % 64) * 64 + (d % 256) % 64
  {
  }

  lemma EncodingBitsAreArithmetic(pt: bv32, high: bv32, low: bv32)
    requires pt < 0x11_0000 && high < 0x400 && low < 0x400
    ensures pt < 0x800 ==> (pt >> 6) | 0xC0 == pt / 64 + 0xC0
    ensures pt < 0x1_0000 ==> (pt >> 12) | 0xE0 == pt / 4096 + 0xE0
    ensures (pt >> 18) | 0xF0 == pt / 262144 + 0xF0
    ensures ((pt >> 12) & 0x3F) | 0x80 == (pt / 4096) % 64 + 0x80
    ensures ((pt >> 6) & 0x3F) | 0x80 == (pt / 64) % 64 + 0x80
    ensures (pt & 0x3F) | 0x80 == pt % 64 + 0x80
    ensures pt >= 0x1_0000 ==> ((pt - 0x1_0000) >> 10) + 0xD800 == (pt - 0x1_0000) / 1024 + 0xD800
    ensures (pt & 0x3FF) + 0xDC00 == pt % 1024 + 0xDC00
    ensures ((high << 10) | low) + 0x1_0000 == high * 1024 + low + 0x1_0000
  {
  }
}

/** UTF-8 as decoded and encoded by the JNI support library, against RFC 3629. */
module Utf8 {
  import opened CodeUnits

  /** Element i of a string whose terminator may be read at index length, and no further. */
  function ByteAt(s: seq<Byte>, i: nat): Byte
    requires i <= |s|
  {
    if i < |s| then s[i] else 0
  }

  predicate IsContinuation(b: Byte) {
    b / 64 == 2
  }

  function Low6(b: Byte): int {
    b % 64
  }

  /** utf8_decode_check: the code point at s[i] and its length, or INVALID_PT. */
  function DecodeCheck(s: seq<Byte>, i: nat): (r: OffsetPt)
    requires i < |s|
    ensures r == INVALID_PT || (1 <= r.offset <= 4 && i + r.offset <= |s| && r.pt < 0x11_0000)
  {
    var b0 := ByteAt(s, i);
    if b0 < 0x80 then
      OffsetPt(1, b0)
    else if b0 < 0xC0 then
      INVALID_PT
    else if b0 < 0xE0 then
      if !IsContinuation(ByteAt(s, i + 1)) then INVALID_PT else
      var pt: int := (b0 % 32 as int) * 64 + Low6(s[i + 1]);
      if pt < 0x80 then INVALID_PT else OffsetPt(2, pt)
    else if b0 < 0xF0 then
      if !IsContinuation(ByteAt(s, i + 1)) then INVALID_PT else
      if !IsContinuation(ByteAt(s, i + 2)) then INVALID_PT else
      var pt: int := (b0 % 16 as int) * 4096 + Low6(s[i + 1]) * 64 + Low6(s[i + 2]);
      if pt < 0x800 then INVALID_PT else OffsetPt(3, pt)
    else if b0 < 0xF8 then
      if !IsContinuation(ByteAt(s, i + 1)) then INVALID_PT else
      if !IsContinuation(ByteAt(s, i + 2)) then INVALID_PT else
      if !IsContinuation(ByteAt(s, i + 3)) then INVALID_PT else
      var pt: int := (b0 % 16 as int) * 262144 + Low6(s[i + 1]) * 4096 + Low6(s[i + 2]) * 64 + Low6(s[i + 3]);
      if pt < 0x1_0000 || pt >= 0x11_0000 then INVALID_PT else OffsetPt(4, pt)
    else
      INVALID_PT
  }

  /** utf8_encode: the bytes appended for one code point; U+FFFD for anything too large. */
  function Encode(pt: Char32): (bytes: seq<Byte>)
    ensures 1 <= |bytes| <= 4
  {
    if pt < 0x80 then
      [pt]
    else if pt < 0x800 then
      [pt / 64 + 0xC0, pt % 64 + 0x80]
    else if pt < 0x1_0000 then
      [pt / 4096 + 0xE0, pt / 64 % 64 + 0x80, pt % 64 + 0x80]
    else if pt < 0x11_0000 then
      [pt / 262144 + 0xF0, pt / 4096 % 64 + 0x80, pt / 64 % 64 + 0x80, pt % 64 + 0x80]
    else
      [0xEF, 0xBF, 0xBD]
  }

  /** Code point and length at the head of s, with replacement of bad input (utf8_decode). */
  function Head(s: seq<Byte>): (r: OffsetPt)
    requires s != []
    ensures 1 <= r.offset <= |s| && r.pt < 0x11_0000
  {
    var r := DecodeCheck(s, 0);
    if r.offset < 0 then OffsetPt(1, REPLACEMENT) else r
  }

  function Points(s: seq<Byte>): (ps: seq<Char32>) {
    if s == [] then [] else [Head(s).pt] + Points(s[Head(s).offset..])
  }

  function EncodeAll(ps: seq<Char32>): (s: seq<Byte>) {
    if ps == [] then [] else Encode(ps[0]) + EncodeAll(ps[1..])
  }

  // RFC 3629, section 4: UTF8-octets = *( UTF8-char ).

  predicate IsTail(b: Byte) {
    0x80 <= b <= 0xBF
  }

  predicate IsUtf8Char(c: seq<Byte>) {
    match |c|
    case 1 => c[0] <= 0x7F
    case 2 => 0xC2 <= c[0] <= 0xDF && IsTail(c[1])
    case 3 =>
      && IsTail(c[2])
      && (|| (c[0] == 0xE0 && 0xA0 <= c[1] <= 0xBF)
          || (0xE1 <= c[0] <= 0xEC && IsTail(c[1]))
          || (c[0] == 0xED && 0x80 <= c[1] <= 0x9F)
          || (0xEE <= c[0] <= 0xEF && IsTail(c[1])))
    case 4 =>
      && IsTail(c[2]) && IsTail(c[3])
      && (|| (c[0] == 0xF0 && 0x90 <= c[1] <= 0xBF)
          || (0xF1 <= c[0] <= 0xF3 && IsTail(c[1]))
          || (c[0] == 0xF4 && 0x80 <= c[1] <= 0x8F))
    case _ => false
  }

  /** Three bytes that spell a surrogate, which section 3 prohibits and the decoder accepts. */
  predicate IsSurrogateTriple(c: seq<Byte>) {
    |c| == 3 && c[0] == 0xED && 0xA0 <= c[1] <= 0xBF && IsTail(c[2])
  }

  /** Length of the UTF8-char at the head of s, or 0; the grammar is prefix-free. */
  function CharLength(s: seq<Byte>): (n: nat)
    ensures n <= |s|
  {
    if |s| >= 1 && IsUtf8Char(s[..1]) then 1
    else if |s| >= 2 && IsUtf8Char(s[..2]) then 2
    else if |s| >= 3 && IsUtf8Char(s[..3]) then 3
    else if |s| >= 4 && IsUtf8Char(s[..4]) then 4
    else 0
  }

  predicate Valid(s: seq<Byte>) {
    s == [] || (CharLength(s) > 0 && Valid(s[CharLength(s)..]))
  }

  // Single characters.

  /** Base-64 digits of a code point are recovered by the divisions of the encoder. */
  lemma Digits(a: nat, b: nat, c: nat, d: nat)
    requires b < 64 && c < 64 && d < 64
    ensures var pt := a * 262144 + b * 4096 + c * 64 + d;
            pt / 262144 == a && pt / 4096 == a * 64 + b && pt / 64 == a * 4096 + b * 64 + c && pt % 64 == d
    ensures (a * 64 + b) % 64 == b && (a * 4096 + b * 64 + c) % 64 == c
  {
  }

  /** What the decoder accepts: exactly the grammar's characters and the surrogate triples. */
  lemma AcceptsExactly(s: seq<Byte>, i: nat, n: nat)
    requires i < |s| && 0 < n
    ensures DecodeCheck(s, i).offset == n
            <==> i + n <= |s| && (IsUtf8Char(s[i..i + n]) || IsSurrogateTriple(s[i..i + n]))
  {
    if i + n <= |s| && n <= 4 {
      var c := s[i..i + n];
      assert forall k | 0 <= k < n :: c[k] == s[i + k];
    }
  }

  lemma Encodes1(s: seq<Byte>, i: nat)
    requires i < |s| && DecodeCheck(s, i).offset == 1
    ensures Encode(DecodeCheck(s, i).pt) == s[i..i + 1]
  {
  }

  lemma Encodes2(s: seq<Byte>, i: nat)
    requires i < |s| && DecodeCheck(s, i).offset == 2
    ensures Encode(DecodeCheck(s, i).pt) == s[i..i + 2]
  {
  }

  lemma Encodes3(s: seq<Byte>, i: nat)
    requires i < |s| && DecodeCheck(s, i).offset == 3
    ensures Encode(DecodeCheck(s, i).pt) == s[i..i + 3]
  {
    Digits(0, s[i] % 16, Low6(s[i + 1]), Low6(s[i + 2]));
  }

  lemma Encodes4(s: seq<Byte>, i: nat)
    requires i < |s| && DecodeCheck(s, i).offset == 4
    ensures Encode(DecodeCheck(s, i).pt) == s[i..i + 4]
  {
    Digits(s[i] % 16, Low6(s[i + 1]), Low6(s[i + 2]), Low6(s[i + 3]));
  }

  /** An accepted sequence is the encoding of its code point; overlong forms are refused. */
  lemma EncodeInvertsDecode(s: seq<Byte>, i: nat)
    requires i < |s|
    ensures var r := DecodeCheck(s, i);
            r.offset > 0 ==> i + r.offset <= |s| && Encode(r.pt) == s[i..i + r.offset]
  {
    hide DecodeCheck, Encode;
    match DecodeCheck(s, i).offset
    case 1 => Encodes1(s, i);
    case 2 => Encodes2(s, i);
    case 3 => Encodes3(s, i);
    case 4 => Encodes4(s, i);
    case _ =>
  }

  lemma Recompose(pt: nat)
    ensures pt == pt / 4096 * 4096 + pt / 64 % 64 * 64 + pt % 64
    ensures pt == pt / 262144 * 262144 + pt / 4096 % 64 * 4096 + pt / 64 % 64 * 64 + pt % 64
  {
    var c := pt / 64;
    var b := c / 64;
    var a := b / 64;
    assert pt == c * 64 + pt % 64 && c == b * 64 + c % 64 && b == a * 64 + b % 64;
    Digits(a, b % 64, c % 64, pt % 64);
  }

  lemma Decodes3(s: seq<Byte>, i: nat, a: nat, b: nat, c: nat)
    requires a < 16 && b < 64 && c < 64 && 0x800 <= a * 4096 + b * 64 + c
    requires i + 3 <= |s| && s[i] == a + 0xE0 && s[i + 1] == b + 0x80 && s[i + 2] == c + 0x80
    ensures DecodeCheck(s, i) == OffsetPt(3, a * 4096 + b * 64 + c)
  {
    assert s[i] % 16 == a && Low6(s[i + 1]) == b && Low6(s[i + 2]) == c;
  }

  lemma Decodes4(s: seq<Byte>, i: nat, a: nat, b: nat, c: nat, d: nat)
    requires a < 8 && b < 64 && c < 64 && d < 64
    requires 0x1_0000 <= a * 262144 + b * 4096 + c * 64 + d < 0x11_0000
    requires i + 4 <= |s| && s[i] == a + 0xF0 && s[i + 1] == b + 0x80
    requires s[i + 2] == c + 0x80 && s[i + 3] == d + 0x80
    ensures DecodeCheck(s, i) == OffsetPt(4, a * 262144 + b * 4096 + c * 64 + d)
  {
    assert s[i] % 16 == a && Low6(s[i + 1]) == b && Low6(s[i + 2]) == c && Low6(s[i + 3]) == d;
  }

  /** An encoded code point decodes to itself wherever its bytes stand. */
  lemma DecodeInvertsEncode(s: seq<Byte>, i: nat, pt: Char32)
    requires pt < 0x11_0000
    requires i + |Encode(pt)| <= |s| && s[i..i + |Encode(pt)|] == Encode(pt)
    ensures DecodeCheck(s, i) == OffsetPt(|Encode(pt)|, pt)
  {
    var at := s[i..i + |Encode(pt)|];
    assert forall k | 0 <= k < |at| :: s[i + k] == at[k];
    assert s[i + 0] == at[0];
    if 0x80 <= pt < 0x800 {
      assert s[i] % 32 == pt / 64 && Low6(s[i + 1]) == pt % 64;
    } else if 0x800 <= pt < 0x1_0000 {
      Recompose(pt);
      Decodes3(s, i, pt / 4096, pt / 64 % 64, pt % 64);
    } else if 0x1_0000 <= pt {
      Recompose(pt);
      Decodes4(s, i, pt / 262144, pt / 4096 % 64, pt / 64 % 64, pt % 64);
    }
  }

  /** Decoding looks only forward. */
  lemma DecodeCheckShift(s: seq<Byte>, i: nat)
    requires i < |s|
    ensures DecodeCheck(s[i..], 0) == DecodeCheck(s, i)
  {
  }

  lemma EncodeIsUtf8Char(pt: Char32)
    requires IsScalar(pt)
    ensures IsUtf8Char(Encode(pt))
  {
  }

  lemma CharLengthOfChar(c: seq<Byte>, after: seq<Byte>)
    requires IsUtf8Char(c)
    ensures CharLength(c + after) == |c|
  {
    var s := c + after;
    assert s[..|c|] == c;
    assert forall k | 0 <= k < |c| :: s[k] == c[k];
  }

  /** a comes before b when compared byte by byte from the first on; neither starts the other. */
  predicate SortsBefore(a: seq<Byte>, b: seq<Byte>) {
    a != [] && b != [] && (a[0] < b[0] || (a[0] == b[0] && SortsBefore(a[1..], b[1..])))
  }

  lemma SortsByPrefix(a: seq<Byte>, b: seq<Byte>, k: nat)
    requires k < |a| && k < |b| && a[..k] == b[..k] && a[k] < b[k]
    ensures SortsBefore(a, b)
  {
    if k > 0 {
      assert a[0] == a[..k][0] == b[0];
      assert a[1..][..k - 1] == a[..k][1..] && b[1..][..k - 1] == b[..k][1..];
      SortsByPrefix(a[1..], b[1..], k - 1);
    }
  }

  /** Digits of the same length in the same base sort like the numbers they make up. */
  lemma DigitsSort(a: nat, b: nat, c: nat, d: nat, a': nat, b': nat, c': nat, d': nat)
    requires b < 64 && c < 64 && d < 64 && b' < 64 && c' < 64 && d' < 64
    requires a * 262144 + b * 4096 + c * 64 + d < a' * 262144 + b' * 4096 + c' * 64 + d'
    ensures a < a' || (a == a' && (b < b' || (b == b' && (c < c' || (c == c' && d < d')))))
  {
  }

  lemma SortsLike3(p: Char32, q: Char32)
    requires 0x800 <= p < q < 0x1_0000
    ensures SortsBefore(Encode(p), Encode(q))
  {
    var e, f := Encode(p), Encode(q);
    Recompose(p);
    Recompose(q);
    DigitsSort(0, p / 4096, p / 64 % 64, p % 64, 0, q / 4096, q / 64 % 64, q % 64);
    SortsByPrefix(e, f, if e[0] < f[0] then 0 else if e[1] < f[1] then 1 else 2);
  }

  lemma SortsLike4(p: Char32, q: Char32)
    requires 0x1_0000 <= p < q < 0x11_0000
    ensures SortsBefore(Encode(p), Encode(q))
  {
    var e, f := Encode(p), Encode(q);
    Recompose(p);
    Recompose(q);
    DigitsSort(p / 262144, p / 4096 % 64, p / 64 % 64, p % 64, q / 262144, q / 4096 % 64, q / 64 % 64, q % 64);
    SortsByPrefix(e, f, if e[0] < f[0] then 0 else if e[1] < f[1] then 1 else if e[2] < f[2] then 2 else 3);
  }

  /**
    Encoded characters sort like their numbers (RFC 3629, section 1). Together with what is
    accepted this leaves only one way to number the characters.
   */
  lemma EncodeKeepsOrder(p: Char32, q: Char32)
    requires p < q < 0x11_0000
    ensures SortsBefore(Encode(p), Encode(q))
  {
    if 0x800 <= p && q < 0x1_0000 {
      SortsLike3(p, q);
    } else if 0x1_0000 <= p {
      SortsLike4(p, q);
    } else if 0x80 <= p && q < 0x800 {
      SortsByPrefix(Encode(p), Encode(q), if p / 64 < q / 64 then 0 else 1);
    } else {
      SortsByPrefix(Encode(p), Encode(q), 0);
    }
  }

  // Whole strings.

  /** Decoding inverts encoding on every sequence of code points, surrogates included. */
  lemma {:induction false} PointsInvertEncodeAll(ps: seq<Char32>)
    requires forall k | 0 <= k < |ps| :: ps[k] < 0x11_0000
    ensures Points(EncodeAll(ps)) == ps
  {
    if ps != [] {
      var e, rest := Encode(ps[0]), EncodeAll(ps[1..]);
      assert (e + rest)[0..|e|] == e;
      DecodeInvertsEncode(e + rest, 0, ps[0]);
      assert (e + rest)[|e|..] == rest;
      PointsInvertEncodeAll(ps[1..]);
    }
  }

  lemma ValidHead(s: seq<Byte>)
    requires s != [] && CharLength(s) > 0
    ensures var r := Head(s);
            r.offset == CharLength(s) && IsScalar(r.pt) && Encode(r.pt) == s[..r.offset]
  {
    var n := CharLength(s);
    assert s[0..0 + n] == s[..n];
    AcceptsExactly(s, 0, n);
    EncodeInvertsDecode(s, 0);
  }

  lemma EncodeAllCons(pt: Char32, ps: seq<Char32>)
    ensures EncodeAll([pt] + ps) == Encode(pt) + EncodeAll(ps)
  {
    assert ([pt] + ps)[1..] == ps;
  }

  /** On valid input nothing is replaced: decode then encode is the identity. */
  lemma {:induction false} EncodeAllInvertsPoints(s: seq<Byte>)
    requires Valid(s)
    ensures AllScalar(Points(s)) && EncodeAll(Points(s)) == s
  {
    hide Head, Encode, CharLength;
    if s != [] {
      var n := CharLength(s);
      ValidHead(s);
      EncodeAllInvertsPoints(s[n..]);
      EncodeAllCons(Head(s).pt, Points(s[n..]));
      assert s == s[..n] + s[n..];
    }
  }

  /** Whatever scalars are encoded, the result is valid under RFC 3629. */
  lemma {:induction false} EncodeAllIsValid(ps: seq<Char32>)
    requires AllScalar(ps)
    ensures Valid(EncodeAll(ps))
  {
    if ps != [] {
      var e, rest := Encode(ps[0]), EncodeAll(ps[1..]);
      EncodeIsUtf8Char(ps[0]);
      CharLengthOfChar(e, rest);
      assert (e + rest)[|e|..] == rest;
      EncodeAllIsValid(ps[1..]);
    }
  }
}
