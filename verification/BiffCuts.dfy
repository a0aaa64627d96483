/**
  Strings that begin a fragment: a cut between two strings of the table. [MS-XLS] section
  2.4.265 allows it and puts no option byte there, but the reader's edge flag, set when the
  header is read, makes readString take the first byte of the characters for one
  (internal/askoe/biff.go). When such a string is read back all the same.
*/
module BiffCuts {
  import opened Wrappers
  import opened Biff
  import opened BiffRoundTrip

  /** The string is read back, and what is left is exactly what followed it. */
  predicate ReadsBack(e: Entry, tail: seq<seq<byte>>)
    requires ValidEntry(e) && tail != []
  {
    var r := ReadEntry(Cursor([[]] + EncodeEntry(e, tail), false));
    r.Some? && r.value.0 == Text(e.segments) && r.value.1.frags == tail
  }

  // ------------------------------------------------------ how much is consumed

  /** Every character costs at least a byte. */
  predicate Spends(r: Option<(seq<rune>, Cursor)>, cch: nat, total: nat) {
    r.Some? ==> Total(r.value.1.frags) + cch <= total
  }

  lemma {:induction false} StringTotal(c: Cursor, cch: nat, wide: bool)
    ensures Spends(ReadString(c, cch, wide), cch, Total(c.frags))
    decreases Total(c.frags), 1
  {
    if cch > 0 {
      var a := Advance(c);
      AdvanceTotal(c);
      if a.frags != [] && a.edge {
        SkipTotal(a.(edge := false), 1);
        AdvanceTotal(Skip(a.(edge := false), 1));
        var b := Advance(Skip(a.(edge := false), 1));
        if b.frags != [] { CharsTotal(b, cch, Wide(a.frags[0][0])); }
      } else if a.frags != [] {
        CharsTotal(a, cch, wide);
      }
    }
  }

  lemma {:induction false} CharsTotal(a: Cursor, cch: nat, wide: bool)
    requires cch > 0 && a.frags != [] && a.frags[0] != []
    ensures Spends(ReadChars(a, cch, wide), cch, Total(a.frags))
    decreases Total(a.frags), 0
  {
    if |a.frags[0]| / (if wide then 2 else 1) == 0 {
      SplitCharTotal(a.frags[0][0], Cursor(a.frags[1..], true));
      var split := SplitChar(a.frags[0][0], Cursor(a.frags[1..], true));
      if split.Some? { StringTotal(split.value.2, cch - 1, split.value.1); }
      SplitSpends(a, cch, wide);
    } else {
      var k, n := WholeChars(a, cch, wide);
      SkipTotal(a, n);
      StringTotal(Skip(a, n), cch - k, wide);
      WholeSpends(Decode(a.frags[0][..n], wide), ReadString(Skip(a, n), cch - k, wide), cch, k, n, Total(a.frags));
    }
  }

  lemma SplitSpends(a: Cursor, cch: nat, wide: bool)
    requires cch > 0 && a.frags != [] && a.frags[0] != [] && |a.frags[0]| / (if wide then 2 else 1) == 0
    requires var split := SplitChar(a.frags[0][0], Cursor(a.frags[1..], true));
             split.Some? ==>
               && Total(split.value.2.frags) < Total(a.frags)
               && Spends(ReadString(split.value.2, cch - 1, split.value.1), cch - 1, Total(split.value.2.frags))
    ensures Spends(ReadChars(a, cch, wide), cch, Total(a.frags))
  {
  }

  lemma WholeSpends(s: seq<rune>, r: Option<(seq<rune>, Cursor)>, cch: nat, k: nat, n: nat, total: nat)
    requires k <= cch && k <= n <= total && Spends(r, cch - k, total - n)
    ensures Spends(Prepend(s, r), cch, total)
  {
  }

  /** A pass that finds whole characters takes `k` of them in `n` bytes. */
  lemma WholeChars(a: Cursor, cch: nat, wide: bool) returns (k: nat, n: nat)
    requires cch > 0 && a.frags != [] && |a.frags[0]| / (if wide then 2 else 1) > 0
    ensures 0 < k <= n && k <= cch && n <= |a.frags[0]|
    ensures ReadChars(a, cch, wide) == Prepend(Decode(a.frags[0][..n], wide), ReadString(Skip(a, n), cch - k, wide))
  {
    var charBytes := if wide then 2 else 1;
    var can := |a.frags[0]| / charBytes;
    k := if can > cch then cch else can;
    n := k * charBytes;
  }

  /** The read goes past `end`, or stops before it. */
  predicate Over(r: Option<(seq<rune>, Cursor)>, end: nat) {
    r.Some? ==> Total(r.value.1.frags) < end
  }

  predicate Under(r: Option<(seq<rune>, Cursor)>, end: nat) {
    r.Some? ==> Total(r.value.1.frags) > end
  }

  lemma GlueTotal(b: seq<byte>, frags: seq<seq<byte>>)
    requires frags != []
    ensures Total(Glue(b, frags)) == |b| + Total(frags)
  {
    assert Glue(b, frags)[1..] == frags[1..];
  }

  lemma ConsTotal(b: seq<byte>, frags: seq<seq<byte>>)
    ensures Total([b] + frags) == |b| + Total(frags)
  {
    assert ([b] + frags)[1..] == frags;
  }

  lemma {:induction false} EncodedTotal(segs: seq<Segment>, after: seq<seq<byte>>)
    requires ValidSegments(segs) && after != []
    ensures Total(EncodeSegments(segs, after)) >= Total(after) + Length(segs)
    ensures |segs| == 1 ==> Total(EncodeSegments(segs, after)) == Total(after) + |Body(segs[0])|
    decreases |segs|
  {
    if |segs| == 1 {
      assert Length(segs[1..]) == 0;
      GlueTotal(Body(segs[0]), after);
    } else {
      var inner := EncodeSegments(segs[1..], after);
      EncodedTotal(segs[1..], after);
      GlueTotal([OptionByte(segs[1])], inner);
      ConsTotal(Body(segs[0]), Glue([OptionByte(segs[1])], inner));
    }
  }

  /** Reading a number of characters that lies within the current fragment. */
  lemma ReadWithin(frags: seq<seq<byte>>, cch: nat, wide: bool, edge: bool)
    requires frags != [] && cch > 0 && |frags[0]| >= cch * if wide then 2 else 1
    ensures var n := cch * if wide then 2 else 1;
            ReadChars(Cursor(frags, edge), cch, wide)
            == Some((Decode(frags[0][..n], wide), Skip(Cursor(frags, edge), n)))
  {
    var c := Cursor(frags, edge);
    var n := cch * if wide then 2 else 1;
    var d := Decode(frags[0][..n], wide);
    assert |frags[0]| / (if wide then 2 else 1) >= cch;
    assert ReadString(Skip(c, n), 0, wide) == Some(([], Skip(c, n)));
    assert d + [] == d;
  }

  /** Asked for more characters than are left of an array, the reader runs past its end. */
  lemma {:induction false} TooMany(segs: seq<Segment>, after: seq<seq<byte>>, cch: nat)
    requires ValidSegments(segs) && after != [] && cch > Length(segs)
    ensures Over(ReadString(Cursor(EncodeSegments(segs, after), false), cch, segs[0].wide), Total(after))
    decreases |segs|
  {
    var s := segs[0];
    if |segs| == 1 {
      assert Length(segs[1..]) == 0;
      TooManyInPiece(s, after, cch);
    } else {
      var inner := EncodeSegments(segs[1..], after);
      TooMany(segs[1..], after, cch - |s.units|);
      ReadCutSegment(s, segs[1], inner, cch);
    }
  }

  lemma TooManyInPiece(s: Segment, after: seq<seq<byte>>, cch: nat)
    requires Encodable(s) && after != [] && cch > |s.units|
    ensures Over(ReadString(Cursor(Glue(Body(s), after), false), cch, s.wide), Total(after))
  {
    var c := Cursor(Glue(Body(s), after), false);
    GlueTotal(Body(s), after);
    StringTotal(c, cch, s.wide);
    if s.wide && s.units != [] { WidePast(c, |s.units|, cch); }
  }

  lemma WidePast(c: Cursor, n: nat, cch: nat)
    requires 0 < n < cch && !c.edge && c.frags != [] && |c.frags[0]| >= 2 * n
    ensures var r := ReadString(c, cch, true); r.Some? ==> Total(r.value.1.frags) + 2 * n < Total(c.frags)
  {
    assert Advance(c) == c;
    var can := |c.frags[0]| / 2;
    var k := if can > cch then cch else can;
    SkipTotal(c, 2 * k);
    StringTotal(Skip(c, 2 * k), cch - k, true);
  }

  /** Asked for fewer, it stops inside. */
  lemma {:induction false} TooFew(segs: seq<Segment>, after: seq<seq<byte>>, cch: nat)
    requires ValidSegments(segs) && after != [] && cch < Length(segs)
    ensures Under(ReadString(Cursor(EncodeSegments(segs, after), false), cch, segs[0].wide), Total(after))
    decreases |segs|
  {
    EncodedTotal(segs, after);
    if |segs| > 1 && cch > |segs[0].units| {
      TooFew(segs[1..], after, cch - |segs[0].units|);
      ReadCutSegment(segs[0], segs[1], EncodeSegments(segs[1..], after), cch);
    } else if cch > 0 {
      if |segs| == 1 { OneArray(segs, after); } else { BeyondFirst(segs, after); }
      StopsInFirst(EncodeSegments(segs, after), cch, segs[0].wide);
    }
  }

  lemma StopsInFirst(frags: seq<seq<byte>>, cch: nat, wide: bool)
    requires frags != [] && cch > 0 && |frags[0]| >= cch * if wide then 2 else 1
    ensures var r := ReadString(Cursor(frags, false), cch, wide);
            r.Some? && Total(r.value.1.frags) == Total(frags) - cch * if wide then 2 else 1
  {
    var c := Cursor(frags, false);
    assert Advance(c) == c;
    ReadWithin(frags, cch, wide, false);
    SkipTotal(c, cch * if wide then 2 else 1);
  }

  lemma BeyondFirst(segs: seq<Segment>, after: seq<seq<byte>>)
    requires ValidSegments(segs) && after != [] && |segs| > 1
    ensures Total(EncodeSegments(segs, after)) > Total(after) + |Body(segs[0])|
  {
    var inner := EncodeSegments(segs[1..], after);
    EncodedTotal(segs[1..], after);
    GlueTotal([OptionByte(segs[1])], inner);
    ConsTotal(Body(segs[0]), Glue([OptionByte(segs[1])], inner));
  }

  // ------------------------------------------------- the first byte is swallowed

  /** With the edge flag set, the first unread byte decides the width, whatever the string's
      header says, and is not read as text. */
  lemma FirstByteIsOption(frags: seq<seq<byte>>, cch: nat, wide: bool)
    requires frags != [] && frags[0] != [] && cch > 0
    ensures var b := Advance(Skip(Cursor(frags, false), 1));
            ReadString(Cursor(frags, true), cch, wide)
            == if b.frags == [] then None else ReadChars(b, cch, Wide(frags[0][0]))
  {
    assert Advance(Cursor(frags, true)) == Cursor(frags, true);
  }

  /** The characters as read after the first byte was taken for an option byte. */
  function Misread(segs: seq<Segment>, after: seq<seq<byte>>): Option<(seq<rune>, Cursor)>
    requires ValidSegments(segs) && after != []
  {
    ReadString(Cursor(EncodeSegments(segs, after), true), Length(segs), segs[0].wide)
  }

  lemma FirstByte(s: Segment)
    requires Encodable(s) && s.units != []
    ensures Body(s)[0] == s.units[0] % 0x100
    ensures s.wide ==> |Body(s)| >= 2 && Body(s)[1] == s.units[0] / 0x100
    ensures !s.wide ==> Body(s)[1..] == Body(Segment(false, s.units[1..]))
  {
    var rest := Body(Segment(s.wide, s.units[1..]));
    if s.wide {
      assert Body(s) == Bytes16(s.units[0]) + rest;
    } else {
      assert Body(s) == [s.units[0]] + rest;
    }
  }

  lemma LastByte(s: Segment)
    requires s.wide && |s.units| == 1
    ensures Body(s)[1..] == [s.units[0] / 0x100]
  {
    FirstByte(s);
    assert |Body(s)| == 2;
  }

  function HeaderOf(e: Entry): Header
    requires ValidEntry(e)
  {
    Header(Length(e.segments), Flags(e), if e.runs.Some? then |e.runs.value| / 4 else 0,
           if e.ext.Some? then |e.ext.value| else 0)
  }

  lemma EntryReads(e: Entry, tail: seq<seq<byte>>)
    requires ValidEntry(e) && tail != []
    ensures var r := Misread(e.segments, Glue(TrailerBytes(e), tail));
            ReadEntry(Cursor([[]] + EncodeEntry(e, tail), false)) ==
            if r.None? then None
            else match SkipTrailer(HeaderOf(e), r.value.1)
                 case None => None
                 case Some(c) => Some((r.value.0, c))
  {
    HeaderAfterCut(EncodeEntry(e, tail));
    ReadHeaderBack(e, EncodeSegments(e.segments, Glue(TrailerBytes(e), tail)), true);
  }

  /** The entry is read back exactly when its characters are. */
  lemma EntryIsItsCharacters(e: Entry, tail: seq<seq<byte>>)
    requires ValidEntry(e) && tail != []
    ensures var after := Glue(TrailerBytes(e), tail);
            var r := Misread(e.segments, after);
            && (r.Some? && r.value.0 == Text(e.segments) && r.value.1.frags == after ==> ReadsBack(e, tail))
            && (ReadsBack(e, tail) ==>
                  r.Some? && r.value.0 == Text(e.segments) && Total(r.value.1.frags) == Total(after))
  {
    var r := Misread(e.segments, Glue(TrailerBytes(e), tail));
    EntryReads(e, tail);
    GlueTotal(TrailerBytes(e), tail);
    if r.Some? {
      SkipTrailerBack(e, tail, r.value.1.edge);
      TrailerTotal(HeaderOf(e), r.value.1);
    }
  }

  lemma HeaderAfterCut(frags: seq<seq<byte>>)
    requires frags != [] && |frags[0]| >= 3
    ensures ReadHeader(Cursor([[]] + frags, false)) == ReadHeader(Cursor(frags, true))
  {
    var c, d := Cursor([[]] + frags, false), Cursor(frags, true);
    assert c.frags[1..] == frags;
    assert Advance(d) == d && Advance(c) == d;
    TakeUnfolds(c, 3);
    TakeUnfolds(d, 3);
  }

  lemma TrailerTotal(h: Header, c: Cursor)
    ensures SkipTrailer(h, c).Some? ==>
              Total(SkipTrailer(h, c).value.frags)
              == Total(c.frags) - (if h.HasRuns() then h.runs * 4 else 0) - (if h.HasExt() then h.ext else 0)
  {
    if h.HasRuns() { TakeTotal(c, h.runs * 4); }
    var r := TakeIf(h.HasRuns(), c, h.runs * 4);
    if r.Some? && h.HasExt() { TakeTotal(r.value.1, h.ext); }
  }

  // ------------------------------------------------------------------ the cases

  /** Only what is left of the first stretch is misread: it is empty, or its one character is
      U+0000 and the byte left of it reads as that, or as the next option byte does. */
  predicate Unharmed(segs: seq<Segment>)
    requires segs != []
  {
    || segs[0].units == []
    || (segs[0].units == [0] && (segs[0].wide || (|segs| > 1 && !segs[1].wide)))
  }

  /** An array of several stretches, as fragments. */
  lemma CutArray(segs: seq<Segment>, after: seq<seq<byte>>)
    requires ValidSegments(segs) && after != [] && |segs| > 1
    ensures var inner := EncodeSegments(segs[1..], after);
            && EncodeSegments(segs, after) == [Body(segs[0])] + Glue([OptionByte(segs[1])], inner)
            && inner != [] && inner[0] != [] && Length(segs) == |segs[0].units| + Length(segs[1..])
            && Length(segs[1..]) > 0
            && ReadString(Cursor(inner, false), Length(segs[1..]), segs[1].wide)
               == Some((Text(segs[1..]), Cursor(after, false)))
  {
    ReadSegments(segs[1..], after);
  }

  lemma CutFragments(segs: seq<Segment>, after: seq<seq<byte>>)
    requires ValidSegments(segs) && after != [] && |segs| > 1
    ensures EncodeSegments(segs, after)
            == [Body(segs[0])] + Glue([OptionByte(segs[1])], EncodeSegments(segs[1..], after))
    ensures Length(segs) > 0
  {
  }

  lemma GlueCons(a: seq<byte>, b: seq<byte>, rest: seq<seq<byte>>)
    ensures Glue(a, [b] + rest) == [a + b] + rest
  {
    assert ([b] + rest)[1..] == rest;
  }

  lemma OneArray(segs: seq<Segment>, after: seq<seq<byte>>)
    requires ValidSegments(segs) && after != [] && |segs| == 1
    ensures EncodeSegments(segs, after) == Glue(Body(segs[0]), after)
    ensures Length(segs) == |segs[0].units| && Text(segs) == Text([segs[0]]) && segs[1..] == [] && Text(segs[1..]) == []
  {
    assert segs == [segs[0]] && Length(segs[1..]) == 0;
  }

  /** Nothing to swallow: no characters, or a proper option byte comes first. */
  lemma EmptyFirst(segs: seq<Segment>, after: seq<seq<byte>>)
    requires ValidSegments(segs) && after != [] && segs[0].units == []
    ensures var r := Misread(segs, after); r.Some? && r.value.0 == Text(segs) && r.value.1.frags == after
  {
    assert Text([segs[0]]) == [] by { assert [segs[0]][1..] == []; }
    if |segs| == 1 {
      OneArray(segs, after);
      GlueNothing(after);
    } else {
      EmptyThenCut(segs, after);
    }
  }

  lemma EmptyThenCut(segs: seq<Segment>, after: seq<seq<byte>>)
    requires ValidSegments(segs) && after != [] && segs[0].units == [] && |segs| > 1
    requires Text([segs[0]]) == []
    ensures Misread(segs, after) == Some((Text(segs), Cursor(after, false)))
  {
    var inner := EncodeSegments(segs[1..], after);
    CutArray(segs, after);
    EmptyText(segs);
    assert EncodeSegments(segs, after) == [[]] + Glue([OptionByte(segs[1])], inner);
    OptionFirst(segs[1], inner, Length(segs), segs[0].wide, Text(segs), after);
  }

  lemma EmptyText(segs: seq<Segment>)
    requires segs != [] && Text([segs[0]]) == []
    ensures Text(segs) == Text(segs[1..])
  {
    TextCons(segs);
    assert [] + Text(segs[1..]) == Text(segs[1..]);
  }

  /** What follows an empty fragment is read in the width its option byte says. */
  lemma OptionFirst(
    s: Segment, inner: seq<seq<byte>>, cch: nat, wide: bool, text: seq<rune>, after: seq<seq<byte>>)
    requires inner != [] && inner[0] != [] && cch > 0
    requires ReadString(Cursor(inner, false), cch, s.wide) == Some((text, Cursor(after, false)))
    ensures ReadString(Cursor([[]] + Glue([OptionByte(s)], inner), true), cch, wide)
            == Some((text, Cursor(after, false)))
  {
    ReadCut(s, inner, cch, wide, true);
  }

  /** A string in one piece whose first byte sets the wrong width, or is a whole character. */
  lemma PieceOver(segs: seq<Segment>, after: seq<seq<byte>>)
    requires ValidSegments(segs) && |segs| == 1 && after != [] && segs[0].units != []
    requires segs[0].wide ==> segs[0].units[0] % 2 == 1
    ensures Over(Misread(segs, after), Total(after))
  {
    OneArray(segs, after);
    FirstByte(segs[0]);
    GlueTotal(Body(segs[0]), after);
    PieceReadOver(Glue(Body(segs[0]), after), |segs[0].units|, segs[0].wide);
  }

  lemma PieceReadOver(frags: seq<seq<byte>>, n: nat, wide: bool)
    requires n > 0 && frags != [] && |frags[0]| >= n * (if wide then 2 else 1) && (wide ==> Wide(frags[0][0]))
    ensures var r := ReadString(Cursor(frags, true), n, wide);
            r.Some? ==> Total(r.value.1.frags) + n * (if wide then 2 else 1) < Total(frags)
  {
    FirstByteIsOption(frags, n, wide);
    var rest := Skip(Cursor(frags, false), 1);
    SkipTotal(Cursor(frags, false), 1);
    var b := Advance(rest);
    AdvanceTotal(rest);
    if b.frags != [] {
      CharsTotal(b, n, Wide(frags[0][0]));
      if wide {
        assert b == rest;
        OddWideOver(b, n);
      }
    }
  }

  /** Two bytes a character from an odd number of bytes. */
  lemma OddWideOver(b: Cursor, n: nat)
    requires n > 0 && b.frags != [] && |b.frags[0]| >= 2 * n - 1 && !b.edge
    ensures var r := ReadChars(b, n, true); r.Some? ==> Total(r.value.1.frags) + 2 * n <= Total(b.frags)
  {
    var can := |b.frags[0]| / 2;
    var k := if can > n then n else can;
    if can == 0 {
      SplitLeftover(b, n);
    } else {
      SkipTotal(b, 2 * k);
      var d := Skip(b, 2 * k);
      if k < n {
        assert Advance(d) == d && |d.frags[0]| == 1;
        SplitLeftover(d, n - k);
      }
    }
  }

  lemma SplitLeftover(b: Cursor, n: nat)
    requires n > 0 && b.frags != [] && |b.frags[0]| == 1
    ensures var r := ReadChars(b, n, true); r.Some? ==> Total(r.value.1.frags) + n + 1 <= Total(b.frags)
  {
    SplitCharTotal(b.frags[0][0], Cursor(b.frags[1..], true));
    var split := SplitChar(b.frags[0][0], Cursor(b.frags[1..], true));
    if split.Some? { StringTotal(split.value.2, n - 1, split.value.1); }
  }

  /** A wide stretch read narrow from its second byte on. */
  lemma WideReadNarrow(segs: seq<Segment>, after: seq<seq<byte>>)
    requires ValidSegments(segs) && after != [] && segs[0].wide && segs[0].units != [] && segs[0].units[0] % 2 == 0
    ensures |segs[0].units| > 1 ==> Under(Misread(segs, after), Total(after))
    ensures |segs[0].units| == 1 ==>
              var r := Misread(segs, after);
              r.Some? && r.value.0 == [segs[0].units[0] / 0x100] + Text(segs[1..]) && r.value.1.frags == after
  {
    if |segs| == 1 {
      OneArray(segs, after);
      PieceReadNarrow(segs[0], after);
    } else {
      CutReadNarrow(segs, after);
      if |segs[0].units| > 1 { NarrowThenCut(segs, after); } else { OneThenCut(segs, after); }
    }
  }

  lemma CutReadNarrow(segs: seq<Segment>, after: seq<seq<byte>>)
    requires ValidSegments(segs) && after != [] && |segs| > 1
    requires segs[0].wide && segs[0].units != [] && segs[0].units[0] % 2 == 0
    ensures var next := Glue([OptionByte(segs[1])], EncodeSegments(segs[1..], after));
            Misread(segs, after) == ReadChars(Cursor([Body(segs[0])[1..]] + next, false), Length(segs), false)
  {
    var next := Glue([OptionByte(segs[1])], EncodeSegments(segs[1..], after));
    CutFragments(segs, after);
    FirstByte(segs[0]);
    assert !Wide(Body(segs[0])[0]) && |Body(segs[0])| > 1;
    SwallowedFragment(Body(segs[0]), next, Length(segs), true);
  }

  lemma SwallowedFragment(bytes: seq<byte>, next: seq<seq<byte>>, cch: nat, wide: bool)
    requires |bytes| > 1 && cch > 0
    ensures ReadString(Cursor([bytes] + next, true), cch, wide)
            == ReadChars(Cursor([bytes[1..]] + next, false), cch, Wide(bytes[0]))
  {
    var rest := Cursor([bytes[1..]] + next, false);
    FirstByteIsOption([bytes] + next, cch, wide);
    assert Skip(Cursor([bytes] + next, false), 1) == rest && Advance(rest) == rest;
  }

  lemma PieceReadNarrow(s: Segment, after: seq<seq<byte>>)
    requires Encodable(s) && s.wide && s.units != [] && s.units[0] % 2 == 0 && after != []
    ensures var r := ReadString(Cursor(Glue(Body(s), after), true), |s.units|, true);
            && r.Some? && Total(r.value.1.frags) == Total(after) + |s.units| - 1
            && (|s.units| == 1 ==> r.value.0 == [s.units[0] / 0x100] && r.value.1.frags == after)
  {
    FirstByte(s);
    GlueTotal(Body(s), after);
    SwallowedNarrowly(Glue(Body(s), after), |s.units|);
    if |s.units| == 1 { OneByteLeft(s, after); }
  }

  lemma SwallowedNarrowly(frags: seq<seq<byte>>, n: nat)
    requires n > 0 && frags != [] && |frags[0]| > n && !Wide(frags[0][0])
    ensures var rest := Skip(Cursor(frags, false), 1);
            var r := ReadString(Cursor(frags, true), n, true);
            && r == Some((Decode(rest.frags[0][..n], false), Skip(rest, n)))
            && Total(r.value.1.frags) == Total(frags) - 1 - n
  {
    FirstByteIsOption(frags, n, true);
    var rest := Skip(Cursor(frags, false), 1);
    assert Advance(rest) == rest;
    SkipTotal(Cursor(frags, false), 1);
    ReadWithin(rest.frags, n, false, false);
    SkipTotal(rest, n);
  }

  lemma OneByteLeft(s: Segment, after: seq<seq<byte>>)
    requires Encodable(s) && s.wide && |s.units| == 1 && after != []
    ensures var rest := Skip(Cursor(Glue(Body(s), after), false), 1);
            && Skip(rest, 1).frags == after && rest.frags[0][..1] == [s.units[0] / 0x100]
  {
    LastByte(s);
    var hi: seq<byte> := [s.units[0] / 0x100];
    assert (Body(s) + after[0])[1..] == hi + after[0];
    assert Skip(Cursor(Glue(Body(s), after), false), 1).frags == Glue(hi, after);
    SkipGlued(hi, after, false);
  }

  /** One byte is left of the stretch: it is read as its character. */
  lemma OneThenCut(segs: seq<Segment>, after: seq<seq<byte>>)
    requires ValidSegments(segs) && after != [] && |segs| > 1 && segs[0].wide && |segs[0].units| == 1
    ensures var next := Glue([OptionByte(segs[1])], EncodeSegments(segs[1..], after));
            ReadChars(Cursor([Body(segs[0])[1..]] + next, false), Length(segs), false)
            == Some(([segs[0].units[0] / 0x100] + Text(segs[1..]), Cursor(after, false)))
  {
    var s, cch := segs[0], Length(segs);
    CutArray(segs, after);
    LastByte(s);
    FragmentThenCut(Body(s)[1..], segs[1], EncodeSegments(segs[1..], after), cch, false);
    assert Decode(Body(s)[1..], false) == [s.units[0] / 0x100];
  }

  /** A whole fragment of narrow characters, then a cut. */
  lemma FragmentThenCut(bytes: seq<byte>, s: Segment, inner: seq<seq<byte>>, cch: nat, edge: bool)
    requires bytes != [] && |bytes| < cch && inner != [] && inner[0] != []
    ensures ReadChars(Cursor([bytes] + Glue([OptionByte(s)], inner), edge), cch, false)
            == Prepend(Decode(bytes, false), ReadString(Cursor(inner, false), cch - |bytes|, s.wide))
  {
    var next := Glue([OptionByte(s)], inner);
    var c, m := Cursor([bytes] + next, edge), |bytes|;
    assert bytes[m..] == [] && bytes[..m] == bytes;
    assert Skip(c, m) == Cursor([[]] + next, edge);
    ReadCut(s, inner, cch - m, false, edge);
  }

  lemma StopsInFragment(bytes: seq<byte>, next: seq<seq<byte>>, cch: nat)
    requires 0 < cch <= |bytes|
    ensures var r := ReadChars(Cursor([bytes] + next, false), cch, false);
            r.Some? && Total(r.value.1.frags) >= Total(next)
  {
    var c := Cursor([bytes] + next, false);
    ReadWithin(c.frags, cch, false, false);
    SkipTotal(c, cch);
    ConsTotal(bytes, next);
  }

  lemma NarrowThenCut(segs: seq<Segment>, after: seq<seq<byte>>)
    requires ValidSegments(segs) && after != [] && |segs| > 1 && segs[0].wide && |segs[0].units| > 1
    ensures var next := Glue([OptionByte(segs[1])], EncodeSegments(segs[1..], after));
            Under(ReadChars(Cursor([Body(segs[0])[1..]] + next, false), Length(segs), false), Total(after))
  {
    var cch, inner, bytes := Length(segs), EncodeSegments(segs[1..], after), Body(segs[0])[1..];
    CutArray(segs, after);
    if cch <= |bytes| {
      EncodedTotal(segs[1..], after);
      EndsInFragment(bytes, segs[1], inner, cch, Total(after));
    } else {
      TooFew(segs[1..], after, cch - |bytes|);
      EndsBeyond(bytes, segs[1], inner, cch, Total(after));
    }
  }

  lemma EndsInFragment(bytes: seq<byte>, s: Segment, inner: seq<seq<byte>>, cch: nat, end: nat)
    requires 0 < cch <= |bytes| && inner != [] && end <= Total(inner)
    ensures Under(ReadChars(Cursor([bytes] + Glue([OptionByte(s)], inner), false), cch, false), end)
  {
    StopsInFragment(bytes, Glue([OptionByte(s)], inner), cch);
    GlueTotal([OptionByte(s)], inner);
  }

  lemma EndsBeyond(bytes: seq<byte>, s: Segment, inner: seq<seq<byte>>, cch: nat, end: nat)
    requires bytes != [] && |bytes| < cch && inner != [] && inner[0] != []
    requires Under(ReadString(Cursor(inner, false), cch - |bytes|, s.wide), end)
    ensures Under(ReadChars(Cursor([bytes] + Glue([OptionByte(s)], inner), false), cch, false), end)
  {
    FragmentThenCut(bytes, s, inner, cch, false);
  }

  /** A narrow stretch of two characters or more, read narrow from its second on. */
  lemma NarrowShort(segs: seq<Segment>, after: seq<seq<byte>>)
    requires ValidSegments(segs) && after != [] && !segs[0].wide && |segs[0].units| > 1 && segs[0].units[0] % 2 == 0
    ensures Over(Misread(segs, after), Total(after))
  {
    var s, cch := segs[0], Length(segs);
    var frags := EncodeSegments(segs, after);
    var less := [Segment(false, s.units[1..])] + segs[1..];
    FirstByte(s);
    FirstByteIsOption(frags, cch, false);
    assert less[1..] == segs[1..] && ValidSegments(less);
    var rest := Skip(Cursor(frags, false), 1);
    assert rest.frags == EncodeSegments(less, after) by { SwallowedNarrow(segs, less, after); }
    assert Advance(rest) == rest;
    TooMany(less, after, cch);
  }

  lemma SwallowedNarrow(segs: seq<Segment>, less: seq<Segment>, after: seq<seq<byte>>)
    requires ValidSegments(segs) && ValidSegments(less) && after != [] && !segs[0].wide && segs[0].units != []
    requires less == [Segment(false, segs[0].units[1..])] + segs[1..]
    ensures Skip(Cursor(EncodeSegments(segs, after), false), 1).frags == EncodeSegments(less, after)
  {
    FirstByte(segs[0]);
    assert less[1..] == segs[1..];
    if |segs| == 1 {
      assert (Body(segs[0]) + after[0])[1..] == Body(less[0]) + after[0];
    }
  }

  /** A stretch of one narrow character: the option byte after the cut is read as a character
      in its place. */
  lemma OptionReadAsText(segs: seq<Segment>, after: seq<seq<byte>>)
    requires ValidSegments(segs) && after != [] && |segs| > 1 && !segs[0].wide && |segs[0].units| == 1
    requires segs[0].units[0] % 2 == 0
    ensures var r := Misread(segs, after);
            && (r.Some? ==> r.value.0 != [] && r.value.0[0] == OptionByte(segs[1]))
            && (!segs[1].wide ==> r.Some? && r.value.0 == [0] + Text(segs[1..]) && r.value.1.frags == after)
  {
    var cch, inner := Length(segs), EncodeSegments(segs[1..], after);
    var next := Glue([OptionByte(segs[1])], inner);
    FirstByte(segs[0]);
    assert segs[0].units[1..] == [] && Body(segs[0]) == [segs[0].units[0]];
    LoneByte(segs[0].units[0], next, cch, false);
    var can := |next[0]|;
    var k := if can > cch then cch else can;
    assert Decode(next[0][..k], false)[0] == OptionByte(segs[1]);
    if !segs[1].wide { OptionThenText(segs[1..], after, cch); }
  }

  lemma OptionThenText(segs: seq<Segment>, after: seq<seq<byte>>, cch: nat)
    requires ValidSegments(segs) && after != [] && !segs[0].wide && segs[0].units != [] && cch == Length(segs) + 1
    ensures var r := ReadChars(Cursor(Glue([0], EncodeSegments(segs, after)), true), cch, false);
            r.Some? && r.value.0 == [0] + Text(segs) && r.value.1.frags == after
  {
    if |segs| == 1 { OptionThenPiece(segs, after, cch); } else { OptionThenCut(segs, after, cch); }
  }

  lemma NarrowText(s: Segment)
    requires Encodable(s) && !s.wide
    ensures Text([s]) == s.units && Decode([0] + Body(s), false) == [0] + s.units
  {
    BodyUnits(s);
    assert [s][1..] == [] && s.units + [] == s.units;
  }

  lemma OptionThenPiece(segs: seq<Segment>, after: seq<seq<byte>>, cch: nat)
    requires ValidSegments(segs) && after != [] && !segs[0].wide && |segs| == 1 && cch == Length(segs) + 1
    ensures var r := ReadChars(Cursor(Glue([0], EncodeSegments(segs, after)), true), cch, false);
            r.Some? && r.value.0 == [0] + Text(segs) && r.value.1.frags == after
  {
    var body: seq<byte> := [0] + Body(segs[0]);
    OneArray(segs, after);
    NarrowText(segs[0]);
    GlueTwice([0], Body(segs[0]), after);
    SkipGlued(body, after, true);
    ReadWithin(Glue(body, after), cch, false, true);
  }

  lemma OptionThenCut(segs: seq<Segment>, after: seq<seq<byte>>, cch: nat)
    requires ValidSegments(segs) && after != [] && !segs[0].wide && |segs| > 1 && cch == Length(segs) + 1
    ensures ReadChars(Cursor(Glue([0], EncodeSegments(segs, after)), true), cch, false)
            == Some(([0] + Text(segs), Cursor(after, false)))
  {
    var inner := EncodeSegments(segs[1..], after);
    CutArray(segs, after);
    GlueCons([0], Body(segs[0]), Glue([OptionByte(segs[1])], inner));
    ZeroThenCut(segs[0], segs[1], inner, cch, Text(segs[1..]), after);
  }

  lemma ZeroThenCut(
    s: Segment, next: Segment, inner: seq<seq<byte>>, cch: nat, text: seq<rune>, after: seq<seq<byte>>)
    requires Encodable(s) && !s.wide && inner != [] && inner[0] != [] && cch > |s.units| + 1
    requires ReadString(Cursor(inner, false), cch - 1 - |s.units|, next.wide) == Some((text, Cursor(after, false)))
    ensures ReadChars(Cursor([[0] + Body(s)] + Glue([OptionByte(next)], inner), true), cch, false)
            == Some(([0] + (s.units + text), Cursor(after, false)))
  {
    NarrowText(s);
    FragmentThenText([0] + Body(s), next, inner, cch, [0] + s.units, text, after);
    Together([0], s.units, text);
  }

  lemma FragmentThenText(bytes: seq<byte>, s: Segment, inner: seq<seq<byte>>, cch: nat,
                         head: seq<rune>, text: seq<rune>, after: seq<seq<byte>>)
    requires bytes != [] && |bytes| < cch && inner != [] && inner[0] != [] && head == Decode(bytes, false)
    requires ReadString(Cursor(inner, false), cch - |bytes|, s.wide) == Some((text, Cursor(after, false)))
    ensures ReadChars(Cursor([bytes] + Glue([OptionByte(s)], inner), true), cch, false)
            == Some((head + text, Cursor(after, false)))
  {
    FragmentThenCut(bytes, s, inner, cch, true);
  }

  lemma Together(a: seq<rune>, b: seq<rune>, c: seq<rune>)
    ensures (a + b) + c == a + (b + c)
  {
  }

  /** `text` is read, and the reader stands where `after` begins. */
  predicate Reads(r: Option<(seq<rune>, Cursor)>, text: seq<rune>, after: seq<seq<byte>>) {
    r.Some? && r.value.0 == text && Total(r.value.1.frags) == Total(after)
  }

  /** The characters are read, and the reader stands where they end. */
  predicate RightlyRead(segs: seq<Segment>, after: seq<seq<byte>>)
    requires ValidSegments(segs) && after != []
  {
    Reads(Misread(segs, after), Text(segs), after)
  }

  lemma WideCase(segs: seq<Segment>, after: seq<seq<byte>>)
    requires ValidSegments(segs) && after != [] && segs[0].wide && segs[0].units != [] && segs[0].units[0] % 2 == 0
    ensures RightlyRead(segs, after) <==> segs[0].units == [0]
    ensures segs[0].units == [0] ==> Misread(segs, after).value.1.frags == after
  {
    WideReadNarrow(segs, after);
    if |segs[0].units| == 1 { SingleWide(segs); }
  }

  lemma NarrowCase(segs: seq<Segment>, after: seq<seq<byte>>)
    requires ValidSegments(segs) && after != [] && |segs| > 1
    requires !segs[0].wide && segs[0].units != [] && segs[0].units[0] % 2 == 0
    ensures RightlyRead(segs, after) <==> segs[0].units == [0] && !segs[1].wide
    ensures segs[0].units == [0] && !segs[1].wide ==> Misread(segs, after).value.1.frags == after
  {
    if |segs[0].units| > 1 {
      NarrowShort(segs, after);
    } else {
      OptionReadAsText(segs, after);
      TextCons(segs);
      assert Text([segs[0]]) == segs[0].units by {
        assert [segs[0]][1..] == [] && segs[0].units + [] == segs[0].units;
      }
      assert Text(segs)[0] == segs[0].units[0];
      assert segs[0].units == [segs[0].units[0]];
    }
  }

  // --------------------------------------------------- an odd first byte and a cut

  /** What the first stretch is taken for when its odd first byte makes the rest wide. */
  function Shifted(s: Segment): seq<rune>
    requires Encodable(s) && s.units != []
  {
    var rest := Body(s)[1..];
    Decode(rest[..|rest| / 2 * 2], true)
  }

  /** Those characters are not how the string begins. */
  predicate Garbled(segs: seq<Segment>)
    requires ValidSegments(segs) && segs[0].units != []
  {
    |Body(segs[0])| >= 3 && !(Shifted(segs[0]) <= Text(segs))
  }

  lemma WideHead(bytes: seq<byte>, next: seq<seq<byte>>, cch: nat)
    requires |bytes| >= 2 && cch >= |bytes| / 2
    ensures var r := ReadChars(Cursor([bytes] + next, false), cch, true);
            r.Some? ==> Decode(bytes[..|bytes| / 2 * 2], true) <= r.value.0
  {
    var a, k := Cursor([bytes] + next, false), |bytes| / 2;
    SkipTotal(a, k * 2);
    assert a.frags[0] == bytes;
    var rest := ReadString(Skip(a, k * 2), cch - k, true);
    assert ReadChars(a, cch, true) == Prepend(Decode(bytes[..k * 2], true), rest);
  }

  lemma SwallowedWidely(bytes: seq<byte>, next: seq<seq<byte>>, cch: nat, wide: bool)
    requires |bytes| >= 3 && bytes[0] % 2 == 1 && cch >= (|bytes| - 1) / 2
    ensures var r, rest := ReadString(Cursor([bytes] + next, true), cch, wide), bytes[1..];
            r.Some? ==> Decode(rest[..|rest| / 2 * 2], true) <= r.value.0
  {
    SwallowedFragment(bytes, next, cch, wide);
    WideHead(bytes[1..], next, cch);
  }

  lemma OddReadWide(segs: seq<Segment>, after: seq<seq<byte>>)
    requires ValidSegments(segs) && after != [] && |segs| > 1
    requires segs[0].units != [] && segs[0].units[0] % 2 == 1 && |Body(segs[0])| >= 3
    ensures var r := Misread(segs, after); r.Some? ==> Shifted(segs[0]) <= r.value.0
  {
    var next := Glue([OptionByte(segs[1])], EncodeSegments(segs[1..], after));
    CutFragments(segs, after);
    FirstByte(segs[0]);
    assert Body(segs[0])[0] % 2 == 1;
    SwallowedWidely(Body(segs[0]), next, Length(segs), segs[0].wide);
  }

  /** Then the string is not read back. */
  lemma GarbledIsWrong(segs: seq<Segment>, after: seq<seq<byte>>)
    requires ValidSegments(segs) && after != [] && |segs| > 1
    requires segs[0].units != [] && segs[0].units[0] % 2 == 1 && Garbled(segs)
    ensures !RightlyRead(segs, after)
  {
    OddReadWide(segs, after);
  }

  /** Three narrow characters are enough to be garbled, if the third is not U+0000. */
  lemma ThreeAreGarbled(segs: seq<Segment>)
    requires ValidSegments(segs) && !segs[0].wide && |segs[0].units| >= 3 && segs[0].units[2] != 0
    ensures Garbled(segs)
  {
    var s := segs[0];
    var rest := Body(s)[1..];
    ThreeBytes(s);
    var chunk := rest[..|rest| / 2 * 2];
    assert chunk[0] == s.units[1] && chunk[1] == s.units[2];
    assert Units(chunk)[0] == s.units[1] + 0x100 * s.units[2];
    assert Shifted(s) != [] && Shifted(s)[0] >= 0x100;
    TextCons(segs);
    NarrowText(s);
    assert Text(segs)[0] == s.units[0];
  }

  lemma ThreeBytes(s: Segment)
    requires Encodable(s) && !s.wide && |s.units| >= 3
    ensures Body(s)[1..][0] == s.units[1] && Body(s)[1..][1] == s.units[2]
  {
    var t := Segment(false, s.units[1..]);
    FirstByte(s);
    FirstByte(t);
    FirstByte(Segment(false, t.units[1..]));
  }

  /** What is not decided: characters cut again, whose first byte is odd and whose first
      stretch is not garbled by it. */
  predicate Decided(segs: seq<Segment>)
    requires ValidSegments(segs)
  {
    |segs| > 1 && segs[0].units != [] && segs[0].units[0] % 2 == 1 ==> Garbled(segs)
  }

  /** Exactly when characters are read with the edge flag set: when there are none before the
      first cut, or that stretch is a single U+0000, wide or followed by a narrow one. */
  lemma EdgeReadExactly(segs: seq<Segment>, after: seq<seq<byte>>)
    requires ValidSegments(segs) && after != [] && Decided(segs)
    ensures RightlyRead(segs, after) <==> Unharmed(segs)
    ensures Unharmed(segs) ==> Misread(segs, after).value.1.frags == after
  {
    if segs[0].units == [] {
      EmptyFirst(segs, after);
    } else if |segs| == 1 && (!segs[0].wide || segs[0].units[0] % 2 == 1) {
      PieceOver(segs, after);
    } else if segs[0].units[0] % 2 == 1 {
      GarbledIsWrong(segs, after);
    } else if segs[0].wide {
      WideCase(segs, after);
    } else {
      NarrowCase(segs, after);
    }
  }

  /** Exactly when a string that begins a fragment is read back. */
  lemma StringAfterCutExactly(e: Entry, tail: seq<seq<byte>>)
    requires ValidEntry(e) && tail != [] && Decided(e.segments)
    ensures ReadsBack(e, tail) <==> Unharmed(e.segments)
  {
    EntryIsItsCharacters(e, tail);
    EdgeReadExactly(e.segments, Glue(TrailerBytes(e), tail));
  }

  // ------------------------------------------------ a cut in the middle of a character

  /** A wide stretch `s` and the first byte of one more character; then a cut, the option
      byte, the other byte of that character, and the rest of the array. */
  function SplitArray(s: Segment, lo: byte, hi: byte, rest: seq<seq<byte>>): seq<seq<byte>>
    requires Encodable(s) && rest != []
  {
    [Body(s) + [lo]] + Glue([1, hi], rest)
  }

  /** The array with that character and `n` more, as read. */
  function SplitRun(s: Segment, lo: byte, hi: byte, rest: seq<seq<byte>>, n: nat): Option<(seq<rune>, Cursor)>
    requires Encodable(s) && rest != []
  {
    ReadString(Cursor(SplitArray(s, lo, hi, rest), false), |s.units| + (1 + n), true)
  }

  /** What follows, as read with the edge flag set. */
  function EdgeRun(rest: seq<seq<byte>>, n: nat): Option<(seq<rune>, Cursor)> {
    ReadString(Cursor(rest, true), n, true)
  }

  lemma SplitRest(lo: byte, hi: byte, rest: seq<seq<byte>>, n: nat)
    requires rest != []
    ensures ReadString(Cursor([[lo]] + Glue([1, hi], rest), false), 1 + n, true)
            == Prepend([Written(lo + 0x100 * hi)], EdgeRun(rest, n))
  {
    var c := Cursor([[lo]] + Glue([1, hi], rest), false);
    assert Advance(c) == c && c.frags[1..] == Glue([1, hi], rest);
    GlueTwice([1], [hi], rest);
    assert [1] + [hi] == [1, hi];
    TakeInPlace([1], Glue([hi], rest), true);
    TakeInPlace([hi], rest, true);
    assert Advance(Cursor(Glue([hi], rest), true)) == Cursor(Glue([hi], rest), true);
    assert SplitChar(lo, Cursor(Glue([1, hi], rest), true)) == Some((lo + 0x100 * hi, true, Cursor(rest, true)));
  }

  /** One pass over a fragment with `k` wide characters and a byte. */
  lemma OddPass(bytes: seq<byte>, next: seq<seq<byte>>, k: nat, cch: nat)
    requires k > 0 && |bytes| == 2 * k + 1 && cch > k
    ensures ReadString(Cursor([bytes] + next, false), cch, true)
            == Prepend(Decode(bytes[..2 * k], true), ReadString(Cursor([bytes[2 * k..]] + next, false), cch - k, true))
  {
    var c := Cursor([bytes] + next, false);
    assert Advance(c) == c && c.frags[1..] == next;
    assert |c.frags[0]| / 2 == k;
  }

  /** A wide stretch that leaves one byte of its fragment is read first. */
  lemma StretchLeavesByte(
    s: Segment, x: byte, next: seq<seq<byte>>, cch: nat, n: nat, r: Option<(seq<rune>, Cursor)>)
    requires Encodable(s) && s.wide && s.units != [] && n > 0 && cch == |s.units| + n
    requires ReadString(Cursor([[x]] + next, false), n, true) == r
    ensures ReadString(Cursor([Body(s) + [x]] + next, false), cch, true) == Prepend(Text([s]), r)
  {
    var bytes := Body(s) + [x];
    DecodeBody(s);
    assert bytes[..|Body(s)|] == Body(s) && bytes[|Body(s)|..] == [x];
    OddPass(bytes, next, |s.units|, cch);
  }

  lemma NoStretch(s: Segment, x: byte, next: seq<seq<byte>>, n: nat, r: Option<(seq<rune>, Cursor)>)
    requires s.units == []
    requires ReadString(Cursor([[x]] + next, false), n, true) == r
    ensures ReadString(Cursor([Body(s) + [x]] + next, false), n, true) == Prepend(Text([s]), r)
  {
    assert Body(s) + [x] == [x] && Text([s]) == [];
    PrependNothing(r);
  }

  lemma StretchFirst(s: Segment, x: byte, next: seq<seq<byte>>, cch: nat, n: nat, r: Option<(seq<rune>, Cursor)>)
    requires Encodable(s) && s.wide && n > 0 && cch == |s.units| + n
    requires ReadString(Cursor([[x]] + next, false), n, true) == r
    ensures ReadString(Cursor([Body(s) + [x]] + next, false), cch, true) == Prepend(Text([s]), r)
  {
    if s.units == [] { NoStretch(s, x, next, n, r); } else { StretchLeavesByte(s, x, next, cch, n, r); }
  }

  lemma ReadsMore(a: seq<rune>, b: seq<rune>, r: Option<(seq<rune>, Cursor)>, text: seq<rune>, after: seq<seq<byte>>)
    ensures Reads(Prepend(a, Prepend(b, r)), a + b + text, after) <==> Reads(r, text, after)
  {
    if r.Some? {
      assert (a + (b + r.value.0))[|a| + |b|..] == r.value.0 && (a + b + text)[|a| + |b|..] == text;
      assert r.value.0 == text ==> a + (b + r.value.0) == a + b + text;
    }
  }

  lemma SplitIsEdge(s: Segment, lo: byte, hi: byte, rest: seq<seq<byte>>, n: nat)
    requires Encodable(s) && s.wide && rest != []
    ensures SplitRun(s, lo, hi, rest, n) == Prepend(Text([s]), Prepend([Written(lo + 0x100 * hi)], EdgeRun(rest, n)))
  {
    SplitRest(lo, hi, rest, n);
    var r := Prepend([Written(lo + 0x100 * hi)], EdgeRun(rest, n));
    StretchFirst(s, lo, Glue([1, hi], rest), |s.units| + (1 + n), 1 + n, r);
  }

  lemma SplitKeeps(s: Segment, lo: byte, hi: byte, rest: seq<seq<byte>>, n: nat, text: seq<rune>, after: seq<seq<byte>>)
    requires Encodable(s) && s.wide && rest != []
    ensures Reads(SplitRun(s, lo, hi, rest, n), Text([s]) + [Written(lo + 0x100 * hi)] + text, after)
            <==> Reads(EdgeRun(rest, n), text, after)
  {
    SplitIsEdge(s, lo, hi, rest, n);
    ReadsMore(Text([s]), [Written(lo + 0x100 * hi)], EdgeRun(rest, n), text, after);
  }

  lemma EdgeReads(segs: seq<Segment>, after: seq<seq<byte>>)
    requires ValidSegments(segs) && segs[0].wide && after != [] && Decided(segs)
    ensures Reads(EdgeRun(EncodeSegments(segs, after), Length(segs)), Text(segs), after) <==> Unharmed(segs)
  {
    EdgeReadExactly(segs, after);
    assert Misread(segs, after) == ReadString(Cursor(EncodeSegments(segs, after), true), Length(segs), true);
  }

  /** A character cut in the middle is put together, but the edge flag stays set: the array is
      read back exactly when what follows the character survives that its first byte is taken
      for an option byte. */
  lemma SplitCharacterExactly(s: Segment, lo: byte, hi: byte, segs: seq<Segment>, after: seq<seq<byte>>)
    requires Encodable(s) && s.wide
    requires ValidSegments(segs) && segs[0].wide && after != [] && Decided(segs)
    ensures Reads(SplitRun(s, lo, hi, EncodeSegments(segs, after), Length(segs)),
                  Text([s]) + [Written(lo + 0x100 * hi)] + Text(segs), after)
            <==> Unharmed(segs)
  {
    SplitKeeps(s, lo, hi, EncodeSegments(segs, after), Length(segs), Text(segs), after);
    EdgeReads(segs, after);
  }

  lemma SingleWide(segs: seq<Segment>)
    requires segs != [] && segs[0].wide && |segs[0].units| == 1
    ensures [segs[0].units[0] / 0x100] + Text(segs[1..]) == Text(segs) <==> segs[0].units == [0]
  {
    var u, hi := segs[0].units[0], segs[0].units[0] / 0x100;
    TextCons(segs);
    assert segs[0].units == [u] && [u][1..] == [] && [segs[0]][1..] == [];
    assert Utf16Decode([u]) == [Written(u)];
    assert Text([segs[0]]) == [Written(u)];
    assert ([hi] + Text(segs[1..]))[0] == hi && ([Written(u)] + Text(segs[1..]))[0] == Written(u);
    assert u != 0 ==> Written(u) != hi;
    assert u == 0 ==> segs[0].units == [0];
  }

  /** With an odd first byte and a further cut there are strings of several stretches that come
      out right by chance: U+0001, a cut, a wide U+0000, a cut and any narrow character. */
  lemma OddByteByChance(u: unit, tail: seq<seq<byte>>)
    requires u < 0x100 && tail != []
    ensures var e := Entry(Chance(u), None, None); ValidEntry(e) && ReadsBack(e, tail)
  {
    var e := Entry(Chance(u), None, None);
    ChanceEncoded(u, tail);
    ChanceRead(u, tail);
    ChanceText(u);
    GlueNothing(tail);
    assert TrailerBytes(e) == [];
    EntryIsItsCharacters(e, tail);
  }

  function Chance(u: unit): seq<Segment> {
    [Segment(false, [1]), Segment(true, [0]), Segment(false, [u])]
  }

  lemma ChanceEncoded(u: unit, tail: seq<seq<byte>>)
    requires u < 0x100 && tail != []
    ensures ValidSegments(Chance(u)) && Length(Chance(u)) == 3
    ensures EncodeSegments(Chance(u), tail) == [[1]] + Glue([1], [[0, 0]] + Glue([0], Glue([u], tail)))
  {
    var zero, last := Segment(true, [0]), Segment(false, [u]);
    var segs := Chance(u);
    assert segs[1..] == [zero, last] && [zero, last][1..] == [last] && [last][1..] == [];
    assert Length([last]) == 1;
    assert Length([zero, last]) == 2;
    SmallBodies(u);
    assert EncodeSegments([last], tail) == Glue([u], tail);
    assert EncodeSegments([zero, last], tail) == [[0, 0]] + Glue([0], Glue([u], tail));
  }

  lemma SmallBodies(u: unit)
    requires u < 0x100
    ensures Body(Segment(false, [1])) == [1] && Body(Segment(true, [0])) == [0, 0] && Body(Segment(false, [u])) == [u]
  {
    assert [1][1..] == [] && [0][1..] == [] && [u][1..] == [];
    assert Body(Segment(false, [])) == [] && Body(Segment(true, [])) == [];
  }

  lemma ChanceText(u: unit)
    requires u < 0x100
    ensures Text(Chance(u)) == [1, 0, u]
  {
    var one, zero, last := Segment(false, [1]), Segment(true, [0]), Segment(false, [u]);
    assert [one, zero, last][1..] == [zero, last] && [zero, last][1..] == [last] && [last][1..] == [];
    assert [0][1..] == [] && Utf16Decode([0]) == [0];
    assert Text([last]) == [u] by { assert [u] + [] == [u]; }
    assert Text([zero, last]) == [0] + [u];
    assert [1] + ([0] + [u]) == [1, 0, u];
  }

  /** A lone first byte is swallowed and the next option byte is read as text. */
  lemma LoneByte(x: byte, next: seq<seq<byte>>, cch: nat, wide: bool)
    requires next != [] && next[0] != [] && cch > 0
    ensures ReadString(Cursor([[x]] + next, true), cch, wide) == ReadChars(Cursor(next, true), cch, Wide(x))
  {
    var frags, b := [[x]] + next, Cursor(next, true);
    FirstByteIsOption(frags, cch, wide);
    var rest := Skip(Cursor(frags, false), 1);
    assert rest.frags == [[]] + next && rest.frags[1..] == next;
    assert Advance(b) == b && Advance(rest) == b;
  }

  /** And a wide fragment of three bytes yields one character before it is cut. */
  lemma ThreeBytesWide(bytes: seq<byte>, last: seq<seq<byte>>, cch: nat)
    requires |bytes| == 3 && cch > 0
    ensures ReadChars(Cursor([bytes] + last, true), cch, true)
            == Prepend(Decode(bytes[..2], true), ReadString(Cursor([bytes[2..]] + last, true), cch - 1, true))
  {
    var b := Cursor([bytes] + last, true);
    assert Skip(b, 2).frags == [bytes[2..]] + last;
  }

  lemma ChanceRead(u: unit, tail: seq<seq<byte>>)
    requires u < 0x100 && tail != []
    ensures var frags := [[1]] + Glue([1], [[0, 0]] + Glue([0], Glue([u], tail)));
            var r := ReadString(Cursor(frags, true), 3, false);
            r.Some? && r.value.0 == [1, 0, u] && r.value.1.frags == tail
  {
    var last := Glue([0], Glue([u], tail));
    var bytes: seq<byte> := [1, 0, 0];
    GlueCons([1], [0, 0], last);
    assert [1] + [0, 0] == bytes;
    LoneByte(1, [bytes] + last, 3, false);
    ThreeBytesWide(bytes, last, 3);
    assert bytes[2..] == [0] && bytes[..2] == [1, 0];
    ChanceEnd(u, tail, last);
    assert Units([1, 0]) == [1] by { assert [1, 0][2..] == []; }
    assert Utf16Decode([1]) == [1] by { assert [1][1..] == []; }
    assert [1] + [0, u] == [1, 0, u];
  }

  /** The byte left over is taken for an option byte, and the option byte for a character. */
  lemma ChanceEnd(u: unit, tail: seq<seq<byte>>, last: seq<seq<byte>>)
    requires u < 0x100 && tail != [] && last == Glue([0], Glue([u], tail))
    ensures var r := ReadString(Cursor([[0]] + last, true), 2, true);
            r.Some? && r.value.0 == [0, u] && r.value.1.frags == tail
  {
    var frags := [[0]] + last;
    FirstByteIsOption(frags, 2, true);
    var rest := Skip(Cursor(frags, false), 1);
    assert rest.frags == [[]] + last && rest.frags[1..] == last;
    var b := Cursor(last, true);
    assert Advance(b) == b && Advance(rest) == b;
    GlueTwice([0], [u], tail);
    assert [0] + [u] == [0, u];
    SkipGlued([0, u], tail, true);
    ReadWithin(last, 2, false, true);
  }
}
