/** UTF-16 as decoded and encoded by the JNI support library, against RFC 2781. */
module Utf16 {
  import opened CodeUnits

  predicate IsHigh(u: Char32) {
    0xD800 <= u < 0xDC00
  }

  predicate IsLow(u: Char32) {
    0xDC00 <= u < 0xE000
  }

  /** Element i of a string whose terminator may be read at index length, and no further. */
  function UnitAt(s: seq<Unit16>, i: nat): Unit16
    requires i <= |s|
  {
    if i < |s| then s[i] else 0
  }

  /** utf16_decode_check: the code point at s[i] and its length, or INVALID_PT. */
  function DecodeCheck(s: seq<Unit16>, i: nat): (r: OffsetPt)
    requires i < |s|
    ensures r == INVALID_PT || (1 <= r.offset <= 2 && i + r.offset <= |s| && IsScalar(r.pt))
  {
    if IsHigh(s[i]) && IsLow(UnitAt(s, i + 1)) then
      OffsetPt(2, (s[i] as int - 0xD800) * 1024 + (s[i + 1] as int - 0xDC00) + 0x1_0000)
    else if IsHigh(s[i]) || IsLow(s[i]) then
      INVALID_PT
    else
      OffsetPt(1, s[i])
  }

  /** utf16_encode: the units appended for one code point; U+FFFD for anything too large. */
  function Encode(pt: Char32): (units: seq<Unit16>)
    ensures 1 <= |units| <= 2
  {
    if pt < 0x1_0000 then
      [pt]
    else if pt < 0x11_0000 then
      [(pt - 0x1_0000) / 1024 + 0xD800, pt % 1024 + 0xDC00]
    else
      [REPLACEMENT]
  }

  /** Code point and length at the head of s, with replacement of bad input (utf16_decode). */
  function Head(s: seq<Unit16>): (r: OffsetPt)
    requires s != []
    ensures 1 <= r.offset <= |s| && IsScalar(r.pt)
  {
    var r := DecodeCheck(s, 0);
    if r.offset < 0 then OffsetPt(1, REPLACEMENT) else r
  }

  function Points(s: seq<Unit16>): (ps: seq<Char32>)
    ensures AllScalar(ps)
  {
    if s == [] then [] else [Head(s).pt] + Points(s[Head(s).offset..])
  }

  function EncodeAll(ps: seq<Char32>): (s: seq<Unit16>) {
    if ps == [] then [] else Encode(ps[0]) + EncodeAll(ps[1..])
  }

  // RFC 2781, section 2.2: surrogates are legal only as a high one followed by a low one.

  /** Element k, a unit or a code point, is a surrogate without its partner next to it. */
  predicate IsUnpaired(s: seq<Char32>, k: nat)
    requires k < |s|
  {
    || (IsHigh(s[k]) && !(k + 1 < |s| && IsLow(s[k + 1])))
    || (IsLow(s[k]) && !(k > 0 && IsHigh(s[k - 1])))
  }

  /** Every surrogate is a high one directly followed by a low one, or such a low one. */
  ghost predicate WellFormed(s: seq<Char32>) {
    forall k {:trigger IsUnpaired(s, k)} | 0 <= k < |s| :: !IsUnpaired(s, k)
  }

  /** s with exactly its unpaired surrogates replaced by U+FFFD. */
  function Repaired(s: seq<Unit16>): (r: seq<Unit16>)
    ensures |r| == |s|
    ensures forall k {:trigger r[k]} | 0 <= k < |s| :: r[k] == if IsUnpaired(s, k) then REPLACEMENT else s[k]
  {
    seq(|s|, k requires 0 <= k < |s| => if IsUnpaired(s, k) then REPLACEMENT else s[k])
  }

  /** Repair changes nothing exactly on the well-formed strings. */
  lemma RepairedIsIdentityIff(s: seq<Unit16>)
    ensures Repaired(s) == s <==> WellFormed(s)
  {
    if Repaired(s) == s {
      forall k | 0 <= k < |s| ensures !IsUnpaired(s, k) {
        assert Repaired(s)[k] == s[k];
      }
    }
  }

  lemma SplitAt(t: seq<Unit16>, i: nat, j: nat)
    requires i <= j <= |t|
    ensures t[i..] == t[i..j] + t[j..]
  {
  }

  lemma TranscodeStep(s: seq<Unit16>, i: nat)
    requires i < |s|
    ensures var r := Head(s[i..]);
            EncodeAll(Points(s[i..])) == Encode(r.pt) + EncodeAll(Points(s[i + r.offset..]))
  {
    var r := Head(s[i..]);
    var rest := Points(s[i + r.offset..]);
    assert s[i..][r.offset..] == s[i + r.offset..];
    assert ([r.pt] + rest)[1..] == rest;
  }

  lemma DecodeCheckShift(s: seq<Unit16>, i: nat)
    requires i < |s|
    ensures DecodeCheck(s[i..], 0) == DecodeCheck(s, i)
  {
  }

  /** An accepted unit or pair is the encoding of its code point. */
  lemma EncodeInvertsDecode(s: seq<Unit16>, i: nat)
    requires i < |s|
    ensures var r := DecodeCheck(s, i);
            r.offset > 0 ==> Encode(r.pt) == s[i..i + r.offset]
  {
    var r := DecodeCheck(s, i);
    if r.offset == 2 {
      var hi: int, lo: int := s[i] - 0xD800, s[i + 1] - 0xDC00;
      assert r.pt == (hi + 64) * 1024 + lo;
    }
  }

  /** Up to U+FFFF a code point is its own unit; beyond, pairs sort like their numbers. */
  lemma EncodeKeepsOrder(p: Char32, q: Char32)
    requires p < q < 0x11_0000
    ensures p < 0x1_0000 ==> Encode(p) == [p]
    ensures p >= 0x1_0000 ==>
              && |Encode(p)| == 2 && IsHigh(Encode(p)[0]) && IsLow(Encode(p)[1])
              && var e, f := Encode(p), Encode(q);
                 e[0] < f[0] || (e[0] == f[0] && e[1] < f[1])
  {
  }

  /** Decoding inverts encoding on every sequence of scalar values. */
  lemma {:induction false} PointsInvertEncodeAll(ps: seq<Char32>)
    requires AllScalar(ps)
    ensures Points(EncodeAll(ps)) == ps
  {
    if ps != [] {
      var e, rest := Encode(ps[0]), EncodeAll(ps[1..]);
      assert (e + rest)[..|e|] == e && (e + rest)[|e|..] == rest;
      PointsInvertEncodeAll(ps[1..]);
    }
  }

  /** Position i does not fall inside a surrogate pair. */
  predicate IsBoundary(s: seq<Unit16>, i: nat)
    requires i <= |s|
  {
    !(0 < i < |s| && IsHigh(s[i - 1]) && IsLow(s[i]))
  }

  lemma HeadRepairs(s: seq<Unit16>, i: nat)
    requires i < |s| && IsBoundary(s, i)
    ensures var r := Head(s[i..]);
            && IsBoundary(s, i + r.offset)
            && Repaired(s)[i..i + r.offset] == Encode(r.pt)
  {
    DecodeCheckShift(s, i);
    EncodeInvertsDecode(s, i);
    var n := Head(s[i..]).offset;
    if DecodeCheck(s, i).offset > 0 {
      assert !IsUnpaired(s, i) && (n == 2 ==> !IsUnpaired(s, i + 1));
      assert Repaired(s)[i] == s[i] && (n == 2 ==> Repaired(s)[i + 1] == s[i + 1]);
      assert Repaired(s)[i..i + n] == s[i..i + n];
    } else {
      assert IsUnpaired(s, i) && Repaired(s)[i] == REPLACEMENT;
    }
  }

  /** Decoding then encoding from any boundary on gives the repaired rest of the string. */
  lemma {:induction false} EncodeAllPointsRepairs(s: seq<Unit16>, i: nat)
    requires i <= |s| && IsBoundary(s, i)
    ensures EncodeAll(Points(s[i..])) == Repaired(s)[i..]
    decreases |s| - i
  {
    if i == |s| {
      assert s[i..] == [];
    } else {
      HeadRepairs(s, i);
      TranscodeStep(s, i);
      var j := i + Head(s[i..]).offset;
      EncodeAllPointsRepairs(s, j);
      SplitAt(Repaired(s), i, j);
    }
  }

  // Well-formedness of what is encoded.

  /** WellFormed, read from left to right; afterHigh: the element before was a high surrogate. */
  predicate Paired(s: seq<Char32>, afterHigh: bool) {
    if s == [] then !afterHigh
    else IsLow(s[0]) == afterHigh && Paired(s[1..], IsHigh(s[0]))
  }

  predicate AfterHigh(s: seq<Char32>, i: nat)
    requires i <= |s|
  {
    i > 0 && IsHigh(s[i - 1])
  }

  lemma {:induction false} PairedFrom(s: seq<Char32>, i: nat)
    requires i <= |s|
    ensures Paired(s[i..], AfterHigh(s, i))
            <==> (AfterHigh(s, i) ==> i < |s| && IsLow(s[i]))
                 && forall k {:trigger IsUnpaired(s, k)} | i <= k < |s| :: !IsUnpaired(s, k)
    decreases |s| - i
  {
    if i == |s| {
      assert s[i..] == [];
    } else {
      PairedFrom(s, i + 1);
      assert s[i..][1..] == s[i + 1..];
      assert IsUnpaired(s, i) || !IsUnpaired(s, i);
    }
  }

  lemma PairedIffWellFormed(s: seq<Char32>)
    ensures Paired(s, false) <==> WellFormed(s)
  {
    PairedFrom(s, 0);
    assert s[0..] == s;
  }

  lemma PairedEncode(pt: Char32, rest: seq<Unit16>, afterHigh: bool)
    ensures Paired(Encode(pt) + rest, afterHigh)
            <==> IsLow(pt) == afterHigh && Paired(rest, IsHigh(pt))
  {
    var e := Encode(pt);
    assert (e + rest)[1..] == e[1..] + rest;
    if |e| == 2 {
      assert (e[1..] + rest)[1..] == rest;
    } else {
      assert e[1..] + rest == rest;
    }
  }

  lemma {:induction false} PairedEncodeAll(ps: seq<Char32>, afterHigh: bool)
    ensures Paired(EncodeAll(ps), afterHigh) <==> Paired(ps, afterHigh)
  {
    if ps != [] {
      PairedEncode(ps[0], EncodeAll(ps[1..]), afterHigh);
      PairedEncodeAll(ps[1..], IsHigh(ps[0]));
    }
  }

  /** Code points encode to well-formed UTF-16 if and only if the surrogates among them pair up. */
  lemma EncodeAllIsWellFormedIff(ps: seq<Char32>)
    ensures WellFormed(EncodeAll(ps)) <==> WellFormed(ps)
  {
    PairedEncodeAll(ps, false);
    PairedIffWellFormed(EncodeAll(ps));
    PairedIffWellFormed(ps);
  }
}
