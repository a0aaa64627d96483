/**
  What text a workbook's characters are (internal/askoe/biff.go): the reader decodes each
  stretch of a character array on its own, so a character written as two code units survives
  unless a cut falls between them.
*/
module BiffText {
  import opened Biff
  import opened BiffRoundTrip

  predicate High(u: int) { 0xD800 <= u < 0xDC00 }

  predicate Low(u: int) { 0xDC00 <= u < 0xE000 }

  predicate Scalar(r: rune) { 0 <= r < 0x11_0000 && !Surrogate(r) }

  ghost predicate Scalars(t: seq<rune>) {
    forall i :: 0 <= i < |t| ==> Scalar(t[i])
  }

  /** The UTF-16 form of a character: one code unit, or a pair above U+FFFF. */
  function EncodeRune(r: rune): (u: seq<unit>)
    requires Scalar(r)
  {
    if r < 0x1_0000 then [r] else [0xD800 + (r - 0x1_0000) / 0x400, 0xDC00 + (r - 0x1_0000) % 0x400]
  }

  function Utf16Encode(t: seq<rune>): seq<unit>
    requires Scalars(t)
  {
    if t == [] then [] else EncodeRune(t[0]) + Utf16Encode(t[1..])
  }

  lemma DecodeRune(r: rune, v: seq<unit>)
    requires Scalar(r)
    ensures Utf16Decode(EncodeRune(r) + v) == [r] + Utf16Decode(v)
  {
    var u := EncodeRune(r);
    assert (u + v)[|u|..] == v;
    if r >= 0x1_0000 {
      assert (r - 0x1_0000) / 0x400 * 0x400 + (r - 0x1_0000) % 0x400 == r - 0x1_0000;
    }
  }

  lemma DecodeMore(x: seq<unit>, y: seq<unit>, v: seq<unit>, r: rune, tail: seq<rune>, rest: seq<rune>)
    requires Utf16Decode(x + (y + v)) == [r] + Utf16Decode(y + v) && Utf16Decode(y + v) == tail + rest
    ensures Utf16Decode((x + y) + v) == ([r] + tail) + rest
  {
    assert (x + y) + v == x + (y + v);
  }

  /** Encoded text in front of anything decodes to itself. */
  lemma {:induction false} EncodedReadsBack(t: seq<rune>, v: seq<unit>)
    requires Scalars(t)
    ensures Utf16Decode(Utf16Encode(t) + v) == t + Utf16Decode(v)
  {
    if t == [] {
      assert Utf16Encode(t) + v == v && t + Utf16Decode(v) == Utf16Decode(v);
    } else {
      EncodedReadsBack(t[1..], v);
      DecodeRune(t[0], Utf16Encode(t[1..]) + v);
      DecodeMore(EncodeRune(t[0]), Utf16Encode(t[1..]), v, t[0], t[1..], Utf16Decode(v));
      assert t == [t[0]] + t[1..];
    }
  }

  /** Every text the format can hold reads back. */
  lemma TextReadsBack(t: seq<rune>)
    requires Scalars(t)
    ensures Utf16Decode(Utf16Encode(t)) == t
  {
    EncodedReadsBack(t, []);
    assert Utf16Encode(t) + [] == Utf16Encode(t) && t + Utf16Decode([]) == t;
  }

  lemma DecodeLone(u: unit, v: seq<unit>)
    requires Low(u) || (High(u) && (v == [] || !Low(v[0])))
    ensures Utf16Decode([u] + v) == [0xFFFD] + Utf16Decode(v)
  {
    assert ([u] + v)[1..] == v;
  }

  lemma EncodedStart(t: seq<rune>)
    requires Scalars(t)
    ensures Utf16Encode(t) != [] ==> !Low(Utf16Encode(t)[0])
  {
  }

  /** A code unit of a pair that stands alone reads as U+FFFD and takes nothing with it. */
  lemma LoneIsReplaced(a: seq<rune>, u: unit, b: seq<rune>)
    requires Scalars(a) && Scalars(b) && Surrogate(u)
    ensures Utf16Decode(Utf16Encode(a) + [u] + Utf16Encode(b)) == a + [0xFFFD] + b
  {
    EncodedReadsBack(a, [u] + Utf16Encode(b));
    EncodedStart(b);
    DecodeLone(u, Utf16Encode(b));
    TextReadsBack(b);
    assert Utf16Encode(a) + [u] + Utf16Encode(b) == Utf16Encode(a) + ([u] + Utf16Encode(b));
    assert a + ([0xFFFD] + b) == a + [0xFFFD] + b;
  }

  // ------------------------------------------------------------------------ cuts

  /** The stretch ends in the middle of a pair. */
  predicate EndsInPair(u: seq<unit>) { u != [] && High(u[|u| - 1]) }

  /** How a cut divides encoded text: between two characters, or in the middle of `t[k]`. */
  predicate Divides(t: seq<rune>, k: nat, a: seq<unit>, b: seq<unit>)
    requires Scalars(t)
  {
    && k <= |t|
    && if EndsInPair(a) then
         && k < |t| && t[k] >= 0x1_0000
         && a == Utf16Encode(t[..k]) + [EncodeRune(t[k])[0]]
         && b == [EncodeRune(t[k])[1]] + Utf16Encode(t[k + 1..])
       else
         a == Utf16Encode(t[..k]) && b == Utf16Encode(t[k..])
  }

  lemma {:induction false} CutDivides(t: seq<rune>, a: seq<unit>, b: seq<unit>) returns (k: nat)
    requires Scalars(t) && Utf16Encode(t) == a + b
    ensures Divides(t, k, a, b)
    decreases |t|, 1
  {
    if a == [] {
      k := 0;
      assert t[..0] == [] && t[0..] == t && b == a + b;
    } else {
      var first, rest := EncodeRune(t[0]), t[1..];
      assert first + Utf16Encode(rest) == a + b;
      if |a| < |first| {
        k := 0;
        assert (a + b)[0] == first[0] && (a + b)[1] == first[1];
        assert a == [first[0]];
        assert b == (a + b)[1..] == [first[1]] + Utf16Encode(rest);
        assert t[..0] == [] && t[1..] == rest;
      } else {
        k := CutsLater(t, a, b);
      }
    }
  }

  lemma {:induction false} CutsLater(t: seq<rune>, a: seq<unit>, b: seq<unit>) returns (k: nat)
    requires Scalars(t) && Utf16Encode(t) == a + b && t != [] && |EncodeRune(t[0])| <= |a|
    ensures Divides(t, k, a, b)
    decreases |t|, 0
  {
    var first := EncodeRune(t[0]);
    var a' := a[|first|..];
    assert a == first + a' by { assert first == (a + b)[..|first|] == a[..|first|]; }
    assert Utf16Encode(t[1..]) == a' + b by { assert a + b == first + (a' + b); }
    var j := CutDivides(t[1..], a', b);
    k := j + 1;
    DividesLater(t, j, a', b);
  }

  lemma EncodeFront(t: seq<rune>, k: nat)
    requires Scalars(t) && 0 < k <= |t|
    ensures Utf16Encode(t[..k]) == EncodeRune(t[0]) + Utf16Encode(t[1..][..k - 1])
  {
    assert t[..k][1..] == t[1..][..k - 1] && t[..k][0] == t[0];
  }

  lemma DividesLater(t: seq<rune>, j: nat, a: seq<unit>, b: seq<unit>)
    requires Scalars(t) && t != [] && Divides(t[1..], j, a, b)
    ensures Divides(t, j + 1, EncodeRune(t[0]) + a, b)
  {
    EncodeFront(t, j + 1);
    FirstEnds(t[0], a);
    assert t[1..][j..] == t[j + 1..];
    if EndsInPair(a) {
      assert t[1..][j + 1..] == t[j + 2..];
      Regroup(EncodeRune(t[0]), Utf16Encode(t[1..][..j]), [EncodeRune(t[j + 1])[0]]);
    }
  }

  lemma Regroup(x: seq<unit>, y: seq<unit>, z: seq<unit>)
    ensures x + (y + z) == (x + y) + z
  {
  }

  lemma FirstEnds(r: rune, u: seq<unit>)
    requires Scalar(r)
    ensures EndsInPair(EncodeRune(r) + u) == EndsInPair(u)
  {
  }

  lemma FirstStretch(segs: seq<Segment>)
    requires segs != [] && Encodable(segs[0])
    ensures Text(segs) == Utf16Decode(segs[0].units) + Text(segs[1..])
  {
    if !segs[0].wide { PlainDecode(segs[0].units); }
  }

  /** A stretch that ends in the middle of a pair shows U+FFFD in its place. */
  lemma CutShows(t: seq<rune>, k: nat, u: seq<unit>, rest: seq<unit>)
    requires Scalars(t) && Divides(t, k, u, rest)
    ensures if EndsInPair(u) then Utf16Decode(u) == t[..k] + [0xFFFD] && k < |t| && t[k] != 0xFFFD
            else Utf16Decode(u) == t[..k]
  {
    if EndsInPair(u) {
      var h := EncodeRune(t[k])[0];
      EncodedReadsBack(t[..k], [h]);
      DecodeLone(h, []);
      assert [h] + [] == [h];
    } else {
      TextReadsBack(t[..k]);
    }
  }

  predicate CutsPair(segs: seq<Segment>) {
    exists i :: 0 <= i < |segs| && EndsInPair(segs[i].units)
  }

  lemma PairCutLater(segs: seq<Segment>)
    requires segs != []
    ensures CutsPair(segs) <==> EndsInPair(segs[0].units) || CutsPair(segs[1..])
  {
    if CutsPair(segs) {
      var i :| 0 <= i < |segs| && EndsInPair(segs[i].units);
      if i > 0 { assert EndsInPair(segs[1..][i - 1].units); }
    }
    if CutsPair(segs[1..]) {
      var i :| 0 <= i < |segs| - 1 && EndsInPair(segs[1..][i].units);
      assert EndsInPair(segs[i + 1].units);
    }
  }

  lemma TextsDiffer(t: seq<rune>, k: nat, shown: seq<rune>)
    requires k < |t| && t[k] != 0xFFFD
    ensures t[..k] + [0xFFFD] + shown != t
  {
    assert (t[..k] + [0xFFFD] + shown)[k] == 0xFFFD;
  }

  lemma TextsAgree(t: seq<rune>, k: nat, shown: seq<rune>)
    requires k <= |t|
    ensures t[..k] + shown == t <==> shown == t[k..]
  {
    assert t == t[..k] + t[k..];
    if t[..k] + shown == t { assert shown == (t[..k] + shown)[k..]; }
  }

  /** Encoded text, however it is cut into stretches and whatever their widths, is read as that
      text if and only if no cut falls in the middle of a pair. */
  lemma {:induction false} TextSurvivesCutsExactly(segs: seq<Segment>, t: seq<rune>)
    requires Scalars(t) && Characters(segs) == Utf16Encode(t)
    requires forall i :: 0 <= i < |segs| ==> Encodable(segs[i])
    ensures Text(segs) == t <==> !CutsPair(segs)
  {
    if segs == [] {
      assert t == [];
    } else {
      var u, rest := segs[0].units, segs[1..];
      assert Utf16Encode(t)[|u|..] == Characters(rest) && Utf16Encode(t) == u + Utf16Encode(t)[|u|..];
      var k := CutDivides(t, u, Utf16Encode(t)[|u|..]);
      CutShows(t, k, u, Utf16Encode(t)[|u|..]);
      FirstStretch(segs);
      PairCutLater(segs);
      if EndsInPair(u) {
        TextsDiffer(t, k, Text(rest));
      } else {
        TextSurvivesCutsExactly(rest, t[k..]);
        TextsAgree(t, k, Text(rest));
      }
    }
  }
}
