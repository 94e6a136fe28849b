/**
  The two string conversions of the JNI support library: jniStringFromUTF8 and
  jniUTF8FromString, with everything they promise about each other.
 */
module Transcoding {
  import opened CodeUnits
  import Utf8
  import Utf16

  function ToUtf16(s: seq<Byte>): (u: seq<Unit16>) {
    Utf16.EncodeAll(Utf8.Points(s))
  }

  function ToUtf8(u: seq<Unit16>): (s: seq<Byte>) {
    Utf8.EncodeAll(Utf16.Points(u))
  }

  /** utf8_decode: decode one code point and advance past it, past one byte if it is bad. */
  method Utf8Decode(s: seq<Byte>, start: nat) returns (pt: Char32, i: nat)
    requires start < |s|
    ensures start < i <= |s|
    ensures Utf8.Head(s[start..]) == OffsetPt(i - start, pt)
    ensures Utf8.DecodeCheck(s, start) == INVALID_PT ==> i == start + 1 && pt == 0xFFFD
  {
    Utf8.DecodeCheckShift(s, start);
    var res := Utf8.DecodeCheck(s, start);
    if res.offset < 0 {
      i := start + 1;
      pt := REPLACEMENT;
    } else {
      i := start + res.offset;
      pt := res.pt;
    }
  }

  /** utf16_decode. */
  method Utf16Decode(u: seq<Unit16>, start: nat) returns (pt: Char32, i: nat)
    requires start < |u|
    ensures start < i <= |u|
    ensures Utf16.Head(u[start..]) == OffsetPt(i - start, pt)
    ensures Utf16.DecodeCheck(u, start) == INVALID_PT ==> i == start + 1 && pt == 0xFFFD
  {
    Utf16.DecodeCheckShift(u, start);
    var res := Utf16.DecodeCheck(u, start);
    if res.offset < 0 {
      i := start + 1;
      pt := REPLACEMENT;
    } else {
      i := start + res.offset;
      pt := res.pt;
    }
  }

  lemma NothingToTranscode()
    ensures ToUtf16([]) == [] && ToUtf8([]) == []
  {
  }

  /** What one round of either loop adds, and what is left for the rounds after it. */
  lemma ToUtf16Step(s: seq<Byte>, i: nat)
    requires i < |s|
    ensures var r := Utf8.Head(s[i..]);
            ToUtf16(s[i..]) == Utf16.Encode(r.pt) + ToUtf16(s[i + r.offset..])
  {
    var r := Utf8.Head(s[i..]);
    var rest := Utf8.Points(s[i + r.offset..]);
    assert s[i..][r.offset..] == s[i + r.offset..];
    assert ([r.pt] + rest)[1..] == rest;
  }

  lemma ToUtf8Step(u: seq<Unit16>, i: nat)
    requires i < |u|
    ensures var r := Utf16.Head(u[i..]);
            ToUtf8(u[i..]) == Utf8.Encode(r.pt) + ToUtf8(u[i + r.offset..])
  {
    var r := Utf16.Head(u[i..]);
    var rest := Utf16.Points(u[i + r.offset..]);
    assert u[i..][r.offset..] == u[i + r.offset..];
    assert ([r.pt] + rest)[1..] == rest;
  }

  /** The loop of jniStringFromUTF8; i is the index at which it stops. */
  method JniStringFromUtf8(s: seq<Byte>) returns (utf16: seq<Unit16>, i: nat)
    ensures i == |s|
    ensures utf16 == ToUtf16(s)
  {
    hide Utf8.Head, Utf8.Points, Utf16.Encode, Utf16.EncodeAll;
    utf16, i := [], 0;
    assert s[0..] == s;
    while i < |s|
      invariant i <= |s|
      invariant utf16 + ToUtf16(s[i..]) == ToUtf16(s)
    {
      var pt, j := Utf8Decode(s, i);
      ToUtf16Step(s, i);
      utf16 := utf16 + Utf16.Encode(pt);
      i := j;
    }
    assert s[i..] == [];
    NothingToTranscode();
  }

  /** The loop of jniUTF8FromString; i is the index at which it stops. */
  method JniUtf8FromString(u: seq<Unit16>) returns (out: seq<Byte>, i: nat)
    ensures i == |u|
    ensures out == ToUtf8(u)
  {
    hide Utf16.Head, Utf16.Points, Utf8.Encode, Utf8.EncodeAll;
    out, i := [], 0;
    assert u[0..] == u;
    while i < |u|
      invariant i <= |u|
      invariant out + ToUtf8(u[i..]) == ToUtf8(u)
    {
      var pt, j := Utf16Decode(u, i);
      ToUtf8Step(u, i);
      out := out + Utf8.Encode(pt);
      i := j;
    }
    assert u[i..] == [];
    NothingToTranscode();
  }

  /** UTF-16 to UTF-8 and back: exactly the unpaired surrogates become U+FFFD. */
  lemma Utf16RoundTrip(u: seq<Unit16>)
    ensures |ToUtf16(ToUtf8(u))| == |u|
    ensures forall k | 0 <= k < |u| :: ToUtf16(ToUtf8(u))[k] == if Utf16.IsUnpaired(u, k) then 0xFFFD else u[k]
    ensures ToUtf16(ToUtf8(u)) == u <==> Utf16.WellFormed(u)
  {
    Utf8.PointsInvertEncodeAll(Utf16.Points(u));
    Utf16.EncodeAllPointsRepairs(u, 0);
    assert u[0..] == u && Utf16.Repaired(u)[0..] == Utf16.Repaired(u);
    Utf16.RepairedIsIdentityIff(u);
  }

  /** UTF-8 produced from any UTF-16, ill-formed included, is valid under RFC 3629. */
  lemma ToUtf8IsValid(u: seq<Unit16>)
    ensures Utf8.Valid(ToUtf8(u))
  {
    Utf8.EncodeAllIsValid(Utf16.Points(u));
  }

  /** UTF-8 to UTF-16 and back: the identity exactly on the strings valid under RFC 3629. */
  lemma Utf8RoundTrip(s: seq<Byte>)
    ensures ToUtf8(ToUtf16(s)) == s <==> Utf8.Valid(s)
  {
    if Utf8.Valid(s) {
      Utf8.EncodeAllInvertsPoints(s);
      Utf16.PointsInvertEncodeAll(Utf8.Points(s));
    }
    ToUtf8IsValid(ToUtf16(s));
  }

  /** A byte that starts nothing the decoder accepts costs one U+FFFD and nothing else. */
  lemma BadByteIsReplaced(s: seq<Byte>)
    requires s != []
    requires forall n | 0 < n <= |s| :: !Utf8.IsUtf8Char(s[..n]) && !Utf8.IsSurrogateTriple(s[..n])
    ensures ToUtf16(s) == [0xFFFD] + ToUtf16(s[1..])
  {
    var n := Utf8.DecodeCheck(s, 0).offset;
    if n > 0 {
      Utf8.AcceptsExactly(s, 0, n);
    }
    assert Utf8.Points(s)[1..] == Utf8.Points(s[1..]);
  }

  /** A surrogate without its partner becomes the three bytes of U+FFFD, and nothing else changes. */
  lemma LoneSurrogateIsReplaced(u: seq<Unit16>)
    requires u != [] && Utf16.IsUnpaired(u, 0)
    ensures ToUtf8(u) == [0xEF, 0xBF, 0xBD] + ToUtf8(u[1..])
  {
    Utf16.DecodeCheckShift(u, 0);
    ToUtf8Step(u, 0);
    assert u[0..] == u;
    assert Utf8.Encode(0xFFFD) == [0xEF, 0xBF, 0xBD];
  }

  /** Both encoders make U+FFFD of what is no code point at all. */
  lemma TooLargeIsReplaced(pt: Char32)
    requires pt >= 0x11_0000
    ensures Utf8.Encode(pt) == [0xEF, 0xBF, 0xBD] == Utf8.Encode(0xFFFD) && Utf16.Encode(pt) == [0xFFFD]
  {
    assert Utf8.Encode(0xFFFD) == [0xEF, 0xBF, 0xBD];
  }

  /** Going round once normalises: going round again changes nothing, for every byte string. */
  lemma Utf8RoundTripIdempotent(s: seq<Byte>)
    ensures var once := ToUtf8(ToUtf16(s)); ToUtf8(ToUtf16(once)) == once
  {
    ToUtf8IsValid(ToUtf16(s));
    Utf8RoundTrip(ToUtf8(ToUtf16(s)));
  }

  // Which byte strings become well-formed UTF-16.

  /** The three bytes from i on spell a high surrogate. */
  predicate IsHighTriple(s: seq<Byte>, i: int) {
    0 <= i <= |s| - 3 && s[i] == 0xED && 0xA0 <= s[i + 1] <= 0xAF && Utf8.IsTail(s[i + 2])
  }

  predicate IsLowTriple(s: seq<Byte>, i: int) {
    0 <= i <= |s| - 3 && s[i] == 0xED && 0xB0 <= s[i + 1] <= 0xBF && Utf8.IsTail(s[i + 2])
  }

  /** A surrogate in three bytes, without those of its partner right next to it. */
  predicate IsUnpairedTriple(s: seq<Byte>, i: int) {
    (IsHighTriple(s, i) && !IsLowTriple(s, i + 3)) || (IsLowTriple(s, i) && !IsHighTriple(s, i - 3))
  }

  ghost predicate TriplesPaired(s: seq<Byte>, from: nat) {
    forall i | from <= i < |s| :: !IsUnpairedTriple(s, i)
  }

  /** Position j is not in the middle of a surrogate triple. */
  predicate IsOutside(s: seq<Byte>, j: int) {
    forall k | j - 2 <= k < j :: !IsHighTriple(s, k) && !IsLowTriple(s, k)
  }

  lemma HeadIsTriple(s: seq<Byte>, j: nat)
    requires j < |s|
    ensures var r := Utf8.Head(s[j..]);
            && (Utf16.IsHigh(r.pt) <==> IsHighTriple(s, j)) && (Utf16.IsLow(r.pt) <==> IsLowTriple(s, j))
            && (IsHighTriple(s, j) || IsLowTriple(s, j) ==> r.offset == 3)
  {
    Utf8.DecodeCheckShift(s, j);
  }

  /** The lead byte of a triple is no continuation byte, so that no character runs over it. */
  lemma HeadEndsOutside(s: seq<Byte>, j: nat)
    requires j < |s|
    ensures forall k | j < k < j + Utf8.Head(s[j..]).offset :: s[k] != 0xED
  {
    Utf8.DecodeCheckShift(s, j);
  }

  lemma StepStaysOutside(s: seq<Byte>, j: nat)
    requires j < |s| && IsOutside(s, j)
    ensures var r := Utf8.Head(s[j..]);
            && IsOutside(s, j + r.offset)
            && (IsHighTriple(s, j + r.offset - 3) <==> IsHighTriple(s, j))
            && (TriplesPaired(s, j) <==> !IsUnpairedTriple(s, j) && TriplesPaired(s, j + r.offset))
  {
    hide Utf8.Head;
    HeadIsTriple(s, j);
    HeadEndsOutside(s, j);
  }

  lemma {:induction false} TriplesPairedFrom(s: seq<Byte>, j: nat)
    requires j <= |s| && IsOutside(s, j)
    ensures Utf16.Paired(Utf8.Points(s[j..]), IsHighTriple(s, j - 3))
            <==> (IsHighTriple(s, j - 3) ==> IsLowTriple(s, j)) && TriplesPaired(s, j)
    decreases |s| - j
  {
    hide Utf8.Head, IsHighTriple, IsLowTriple, IsOutside, TriplesPaired;
    if j == |s| {
      assert s[j..] == [];
      NothingAtEnd(s);
    } else {
      var r := Utf8.Head(s[j..]);
      HeadIsTriple(s, j);
      StepStaysOutside(s, j);
      TriplesPairedFrom(s, j + r.offset);
      assert s[j..][r.offset..] == s[j + r.offset..];
      assert Utf8.Points(s[j..]) == [r.pt] + Utf8.Points(s[j + r.offset..]);
      assert Utf8.Points(s[j..])[1..] == Utf8.Points(s[j + r.offset..]);
      NotBoth(s, j);
    }
  }

  lemma NothingAtEnd(s: seq<Byte>)
    ensures !IsLowTriple(s, |s|) && TriplesPaired(s, |s|)
  {
  }

  lemma NotBoth(s: seq<Byte>, j: nat)
    ensures !(IsHighTriple(s, j) && IsLowTriple(s, j))
  {
  }

  /**
    The UTF-16 made from a byte string is well formed if and only if each high surrogate spelled
    in three bytes is directly followed by a low one, and each low one directly preceded by a
    high one; that is, if the surrogates among the code points decoded pair up. Valid UTF-8
    spells none at all.
   */
  lemma ToUtf16IsWellFormedIff(s: seq<Byte>)
    ensures Utf16.WellFormed(ToUtf16(s)) <==> TriplesPaired(s, 0)
    ensures Utf16.WellFormed(ToUtf16(s)) <==> Utf16.WellFormed(Utf8.Points(s))
    ensures Utf8.Valid(s) ==> Utf16.WellFormed(ToUtf16(s))
  {
    Utf16.EncodeAllIsWellFormedIff(Utf8.Points(s));
    Utf16.PairedIffWellFormed(Utf8.Points(s));
    TriplesPairedFrom(s, 0);
    assert s[0..] == s;
    if Utf8.Valid(s) {
      Utf8.EncodeAllInvertsPoints(s);
    }
  }

  /**
    From other byte strings it need not be: surrogates spelled in three bytes pass through, and
    so every UTF-16 string at all, ill-formed ones included, is produced by some byte string.
   */
  lemma ToUtf16IsOnto(u: seq<Unit16>)
    ensures ToUtf16(Utf8.EncodeAll(u)) == u
  {
    Utf8.PointsInvertEncodeAll(u);
    UnitsEncodeThemselves(u);
  }

  lemma {:induction false} UnitsEncodeThemselves(u: seq<Unit16>)
    ensures Utf16.EncodeAll(u) == u
  {
    if u != [] {
      UnitsEncodeThemselves(u[1..]);
    }
  }

  /** The shortest witness: the three bytes of U+D800 become a lone surrogate. */
  lemma LoneSurrogateLeaksThrough()
    ensures !Utf8.Valid([0xED, 0xA0, 0x80]) && ToUtf16([0xED, 0xA0, 0x80]) == [0xD800]
    ensures !Utf16.WellFormed([0xD800])
  {
    assert Utf16.IsUnpaired([0xD800], 0);
    assert Utf8.EncodeAll([0xD800]) == [0xED, 0xA0, 0x80];
    ToUtf16IsOnto([0xD800]);
    ToUtf16IsWellFormedIff([0xED, 0xA0, 0x80]);
  }

  /** Length bounds in both directions, for valid and invalid input alike. */
  lemma {:induction false} ToUtf16Length(s: seq<Byte>)
    ensures |ToUtf16(s)| <= |s| <= 3 * |ToUtf16(s)|
  {
    if s != [] {
      var rest := s[Utf8.Head(s).offset..];
      ToUtf16Length(rest);
      assert Utf8.Points(s)[1..] == Utf8.Points(rest);
    }
  }

  lemma {:induction false} ToUtf8Length(u: seq<Unit16>)
    ensures |u| <= |ToUtf8(u)| <= 3 * |u|
  {
    if u != [] {
      var rest := u[Utf16.Head(u).offset..];
      ToUtf8Length(rest);
      assert Utf16.Points(u)[1..] == Utf16.Points(rest);
    }
  }
}
