/**
  Encoding a shared-string table and reading it back. The layouts covered are
  those of [MS-XLS] section 2.5.293 with every cut at a character boundary
  inside a character array: the next fragment starts with an option byte, which
  may change the width, and at least one character follows it.
*/
module BiffRoundTrip {
  import opened Wrappers
  import opened Biff

  /** A stretch of a character array between two cuts. */
  datatype Segment = Segment(wide: bool, units: seq<unit>)

  datatype Entry = Entry(segments: seq<Segment>, runs: Option<seq<byte>>, ext: Option<seq<byte>>)

  predicate Encodable(s: Segment) {
    s.wide || forall i :: 0 <= i < |s.units| ==> s.units[i] < 0x100
  }

  /** Only the first stretch may be empty: a cut right after the header. */
  predicate ValidSegments(segs: seq<Segment>) {
    && segs != []
    && (forall i :: 0 <= i < |segs| ==> Encodable(segs[i]))
    && (forall i :: 1 <= i < |segs| ==> segs[i].units != [])
  }

  function Length(segs: seq<Segment>): nat {
    if segs == [] then 0 else |segs[0].units| + Length(segs[1..])
  }

  predicate ValidEntry(e: Entry) {
    && ValidSegments(e.segments)
    && Length(e.segments) < 0x1_0000
    && (e.runs.Some? ==> |e.runs.value| % 4 == 0 && |e.runs.value| / 4 < 0x1_0000)
    && (e.ext.Some? ==> |e.ext.value| < 0x1_0000_0000)
  }

  // ----------------------------------------------------------------- encoding

  function Bytes16(u: int): (b: seq<byte>)
    requires 0 <= u < 0x1_0000
    ensures |b| == 2 && Le16(b) == u
  {
    [u % 0x100, u / 0x100]
  }

  function Bytes32(n: int): (b: seq<byte>)
    requires 0 <= n < 0x1_0000_0000
    ensures |b| == 4 && Le32(b) == n
  {
    assert (Bytes16(n % 0x1_0000) + Bytes16(n / 0x1_0000))[2..] == Bytes16(n / 0x1_0000);
    Bytes16(n % 0x1_0000) + Bytes16(n / 0x1_0000)
  }

  function Body(s: Segment): (b: seq<byte>)
    requires Encodable(s)
    ensures |b| == |s.units| * if s.wide then 2 else 1
    decreases |s.units|
  {
    if s.units == [] then []
    else
      var rest := Segment(s.wide, s.units[1..]);
      (if s.wide then Bytes16(s.units[0]) else [s.units[0]]) + Body(rest)
  }

  function OptionByte(s: Segment): byte { if s.wide then 1 else 0 }

  function Flags(e: Entry): (f: byte)
    requires e.segments != []
    ensures Bit(f, 1) == e.segments[0].wide
    ensures Bit(f, 4) == e.ext.Some?
    ensures Bit(f, 8) == e.runs.Some?
  {
    OptionByte(e.segments[0]) + (if e.ext.Some? then 4 else 0) + (if e.runs.Some? then 8 else 0)
  }

  function HeaderBytes(e: Entry): seq<byte>
    requires ValidEntry(e)
  {
    Bytes16(Length(e.segments)) + [Flags(e)]
    + (if e.runs.Some? then Bytes16(|e.runs.value| / 4) else [])
    + (if e.ext.Some? then Bytes32(|e.ext.value|) else [])
  }

  function TrailerBytes(e: Entry): seq<byte> {
    (if e.runs.Some? then e.runs.value else []) + (if e.ext.Some? then e.ext.value else [])
  }

  /** `b` put before the first fragment of `frags`. */
  function Glue(b: seq<byte>, frags: seq<seq<byte>>): seq<seq<byte>>
    requires frags != []
  {
    [b + frags[0]] + frags[1..]
  }

  function EncodeSegments(segs: seq<Segment>, tail: seq<seq<byte>>): (r: seq<seq<byte>>)
    requires ValidSegments(segs) && tail != []
    ensures r != [] && |r[0]| >= |Body(segs[0])|
    decreases |segs|
  {
    if |segs| == 1 then Glue(Body(segs[0]), tail)
    else [Body(segs[0])] + Glue([OptionByte(segs[1])], EncodeSegments(segs[1..], tail))
  }

  function EncodeEntry(e: Entry, tail: seq<seq<byte>>): (r: seq<seq<byte>>)
    requires ValidEntry(e) && tail != []
    ensures r != []
  {
    Glue(HeaderBytes(e), EncodeSegments(e.segments, Glue(TrailerBytes(e), tail)))
  }

  function EncodeAll(es: seq<Entry>): (r: seq<seq<byte>>)
    requires forall i :: 0 <= i < |es| ==> ValidEntry(es[i])
    ensures r != []
  {
    if es == [] then [[]] else EncodeEntry(es[0], EncodeAll(es[1..]))
  }

  /** The text of a character array: stretch by stretch, as the reader decodes it. */
  function Text(segs: seq<Segment>): seq<rune> {
    if segs == [] then []
    else (if segs[0].wide then Utf16Decode(segs[0].units) else segs[0].units) + Text(segs[1..])
  }

  function Texts(es: seq<Entry>): seq<seq<rune>> {
    if es == [] then [] else [Text(es[0].segments)] + Texts(es[1..])
  }

  // ------------------------------------------------------------------- reading

  lemma GlueNothing(frags: seq<seq<byte>>)
    requires frags != []
    ensures Glue([], frags) == frags
  {
    assert [] + frags[0] == frags[0];
  }

  /** Bytes that lie at the start of the current fragment are read in place. */
  lemma TakeInPlace(b: seq<byte>, frags: seq<seq<byte>>, edge: bool)
    requires frags != []
    ensures Take(Cursor(Glue(b, frags), edge), |b|) == Some((b, Cursor(frags, edge)))
  {
    var c := Cursor(Glue(b, frags), edge);
    if b == [] {
      GlueNothing(frags);
    } else {
      assert Advance(c) == c;
      TakeUnfolds(c, |b|);
      SkipGlued(b, frags, edge);
      assert b + [] == b;
    }
  }

  lemma SkipGlued(b: seq<byte>, frags: seq<seq<byte>>, edge: bool)
    requires frags != []
    ensures Skip(Cursor(Glue(b, frags), edge), |b|) == Cursor(frags, edge)
    ensures Glue(b, frags)[0][..|b|] == b
  {
    assert (b + frags[0])[|b|..] == frags[0];
    assert [frags[0]] + Glue(b, frags)[1..] == frags;
  }

  lemma GlueTwice(a: seq<byte>, b: seq<byte>, frags: seq<seq<byte>>)
    requires frags != []
    ensures Glue(a, Glue(b, frags)) == Glue(a + b, frags)
  {
    assert a + (b + frags[0]) == (a + b) + frags[0];
  }

  lemma {:induction false} BodyUnits(s: Segment)
    requires Encodable(s)
    ensures s.wide ==> Units(Body(s)) == s.units
    ensures !s.wide ==> Body(s) == s.units
    decreases |s.units|
  {
    if s.units != [] {
      var rest := Segment(s.wide, s.units[1..]);
      BodyUnits(rest);
      if s.wide { assert Body(s)[2..] == Body(rest); }
      assert s.units == [s.units[0]] + s.units[1..];
    }
  }

  lemma DecodeBody(s: Segment)
    requires Encodable(s)
    ensures Decode(Body(s), s.wide) == Text([s])
  {
    BodyUnits(s);
    assert Text([s][1..]) == [];
    var t := if s.wide then Utf16Decode(s.units) else s.units;
    assert t + [] == t;
  }

  /** A stretch that fits the fragment is read in one go. */
  lemma ReadStretch(s: Segment, frags: seq<seq<byte>>, cch: nat)
    requires Encodable(s) && s.units != [] && frags != []
    requires |s.units| == cch || (|s.units| < cch && frags[0] == [])
    ensures ReadString(Cursor(Glue(Body(s), frags), false), cch, s.wide)
            == Prepend(Text([s]), ReadString(Cursor(frags, false), cch - |s.units|, s.wide))
  {
    var c := Cursor(Glue(Body(s), frags), false);
    var n, width := |Body(s)|, if s.wide then 2 else 1;
    assert Advance(c) == c;
    SkipGlued(Body(s), frags, false);
    DecodeBody(s);
    var can := |c.frags[0]| / width;
    assert (if can > cch then cch else can) == |s.units|;
  }

  /** At a cut the option byte sets the width of the stretch that follows. */
  lemma ReadCut(s: Segment, frags: seq<seq<byte>>, cch: nat, wide: bool, edge: bool)
    requires frags != [] && frags[0] != [] && cch > 0
    ensures ReadString(Cursor([[]] + Glue([OptionByte(s)], frags), edge), cch, wide)
            == ReadString(Cursor(frags, false), cch, s.wide)
  {
    var c := Cursor([[]] + Glue([OptionByte(s)], frags), edge);
    var a := Cursor(Glue([OptionByte(s)], frags), true);
    assert c.frags[1..] == a.frags;
    assert Advance(a) == a && Advance(c) == a;
    assert Skip(a.(edge := false), 1).frags == frags;
    assert Advance(Cursor(frags, false)) == Cursor(frags, false);
  }

  lemma ReadLastSegment(s: Segment, tail: seq<seq<byte>>)
    requires Encodable(s) && tail != []
    ensures ReadString(Cursor(Glue(Body(s), tail), false), |s.units|, s.wide) == Some((Text([s]), Cursor(tail, false)))
  {
    if s.units == [] {
      GlueNothing(tail);
      assert Text([s]) == [];
    } else {
      ReadStretch(s, tail, |s.units|);
      assert Text([s]) + [] == Text([s]);
    }
  }

  /** A stretch, then a cut: what is left is the rest of the array. */
  lemma ReadCutSegment(s: Segment, next: Segment, inner: seq<seq<byte>>, cch: nat)
    requires Encodable(s) && inner != [] && inner[0] != [] && |s.units| < cch
    ensures ReadString(Cursor([Body(s)] + Glue([OptionByte(next)], inner), false), cch, s.wide)
            == Prepend(Text([s]), ReadString(Cursor(inner, false), cch - |s.units|, next.wide))
  {
    var after := [[]] + Glue([OptionByte(next)], inner);
    ReadCut(next, inner, cch - |s.units|, s.wide, false);
    assert Body(s) + [] == Body(s);
    assert [Body(s)] + Glue([OptionByte(next)], inner) == Glue(Body(s), after);
    if s.units == [] {
      GlueNothing(after);
      assert Text([s]) == [];
      PrependNothing(ReadString(Cursor(inner, false), cch, next.wide));
    } else {
      ReadStretch(s, after, cch);
    }
  }

  lemma PrependNothing(r: Option<(seq<rune>, Cursor)>)
    ensures Prepend([], r) == r
  {
    if r.Some? { assert [] + r.value.0 == r.value.0; }
  }

  lemma TextCons(segs: seq<Segment>)
    requires segs != []
    ensures Text(segs) == Text([segs[0]]) + Text(segs[1..])
  {
    assert [segs[0]][1..] == [];
    var t := if segs[0].wide then Utf16Decode(segs[0].units) else segs[0].units;
    assert t + [] == t;
  }

  lemma {:induction false} ReadSegments(segs: seq<Segment>, tail: seq<seq<byte>>)
    requires ValidSegments(segs) && tail != []
    ensures ReadString(Cursor(EncodeSegments(segs, tail), false), Length(segs), segs[0].wide)
            == Some((Text(segs), Cursor(tail, false)))
    decreases |segs|
  {
    if |segs| == 1 {
      assert segs == [segs[0]];
      assert Length(segs[1..]) == 0;
      ReadLastSegment(segs[0], tail);
    } else {
      var rest := segs[1..];
      var inner := EncodeSegments(rest, tail);
      ReadSegments(rest, tail);
      ReadCutSegment(segs[0], rest[0], inner, Length(segs));
      TextCons(segs);
    }
  }

  lemma ReadSizesBack(e: Entry, frags: seq<seq<byte>>, edge: bool)
    requires ValidEntry(e) && frags != []
    ensures var r := if e.runs.Some? then Bytes16(|e.runs.value| / 4) else [];
            var x := if e.ext.Some? then Bytes32(|e.ext.value|) else [];
            ReadSizes(Cursor(Glue(r + x, frags), edge), e.runs.Some?, e.ext.Some?)
            == Some((if e.runs.Some? then |e.runs.value| / 4 else 0, if e.ext.Some? then |e.ext.value| else 0,
                     Cursor(frags, edge)))
  {
    var r := if e.runs.Some? then Bytes16(|e.runs.value| / 4) else [];
    var x := if e.ext.Some? then Bytes32(|e.ext.value|) else [];
    GlueTwice(r, x, frags);
    TakeInPlace(r, Glue(x, frags), edge);
    TakeInPlace(x, frags, edge);
    GlueNothing(frags);
    GlueNothing(Glue(x, frags));
  }

  lemma ReadHeaderBack(e: Entry, frags: seq<seq<byte>>, edge: bool)
    requires ValidEntry(e) && frags != []
    ensures ReadHeader(Cursor(Glue(HeaderBytes(e), frags), edge))
            == Some((Header(Length(e.segments), Flags(e), if e.runs.Some? then |e.runs.value| / 4 else 0,
                            if e.ext.Some? then |e.ext.value| else 0), Cursor(frags, edge)))
  {
    var hdr := Bytes16(Length(e.segments)) + [Flags(e)];
    var r := if e.runs.Some? then Bytes16(|e.runs.value| / 4) else [];
    var x := if e.ext.Some? then Bytes32(|e.ext.value|) else [];
    assert HeaderBytes(e) == hdr + (r + x);
    GlueTwice(hdr, r + x, frags);
    TakeInPlace(hdr, Glue(r + x, frags), edge);
    assert Le16(hdr) == Length(e.segments);
    ReadSizesBack(e, frags, edge);
  }

  lemma SkipTrailerBack(e: Entry, tail: seq<seq<byte>>, edge: bool)
    requires ValidEntry(e) && tail != []
    ensures var h := Header(Length(e.segments), Flags(e), if e.runs.Some? then |e.runs.value| / 4 else 0,
                            if e.ext.Some? then |e.ext.value| else 0);
            SkipTrailer(h, Cursor(Glue(TrailerBytes(e), tail), edge)) == Some(Cursor(tail, edge))
  {
    var r := if e.runs.Some? then e.runs.value else [];
    var x := if e.ext.Some? then e.ext.value else [];
    GlueTwice(r, x, tail);
    TakeInPlace(r, Glue(x, tail), edge);
    TakeInPlace(x, tail, edge);
    GlueNothing(tail);
    GlueNothing(Glue(x, tail));
  }

  lemma ReadEntryBack(e: Entry, tail: seq<seq<byte>>)
    requires ValidEntry(e) && tail != []
    ensures ReadEntry(Cursor(EncodeEntry(e, tail), false)) == Some((Text(e.segments), Cursor(tail, false)))
  {
    var after := Glue(TrailerBytes(e), tail);
    ReadHeaderBack(e, EncodeSegments(e.segments, after), false);
    ReadSegments(e.segments, after);
    SkipTrailerBack(e, tail, false);
  }

  lemma {:induction false} ReadEntriesBack(es: seq<Entry>)
    requires forall i :: 0 <= i < |es| ==> ValidEntry(es[i])
    ensures ReadEntries(Cursor(EncodeAll(es), false), |es|) == Some(Texts(es))
  {
    if es != [] {
      ReadEntryBack(es[0], EncodeAll(es[1..]));
      ReadEntriesBack(es[1..]);
    }
  }

  // ------------------------------------------------------------------- records

  function ContinueRecords(frags: seq<seq<byte>>): seq<Record> {
    if frags == [] then [] else [Record(REC_CONTINUE, frags[0])] + ContinueRecords(frags[1..])
  }

  /** The records of the table; `refs` is its total reference count. */
  function EncodeTable(es: seq<Entry>, refs: nat): seq<Record>
    requires |es| < 0x1_0000_0000 && refs < 0x1_0000_0000
    requires forall i :: 0 <= i < |es| ==> ValidEntry(es[i])
  {
    var frags := EncodeAll(es);
    [Record(REC_SST, Bytes32(refs) + Bytes32(|es|) + frags[0])] + ContinueRecords(frags[1..])
  }

  lemma {:induction false} ContinuedNext(payload: seq<byte>, rest: seq<Record>)
    ensures Continued([Record(REC_CONTINUE, payload)] + rest) == [payload] + Continued(rest)
  {
    assert ([Record(REC_CONTINUE, payload)] + rest)[1..] == rest;
  }

  lemma {:induction false} ContinuedBack(frags: seq<seq<byte>>, after: seq<Record>)
    requires after != [] ==> after[0].id != REC_CONTINUE
    ensures Continued(ContinueRecords(frags) + after) == frags
    decreases |frags|
  {
    if frags == [] {
      assert ContinueRecords(frags) + after == after;
    } else {
      var first, rest := Record(REC_CONTINUE, frags[0]), ContinueRecords(frags[1..]);
      ContinuedBack(frags[1..], after);
      ContinuedNext(frags[0], rest + after);
      assert ([first] + rest) + after == [first] + (rest + after);
    }
  }

  lemma {:induction false} FirstSstAfter(before: seq<Record>, table: seq<Record>)
    requires forall i :: 0 <= i < |before| ==> before[i].id != REC_SST
    requires table != [] && table[0].id == REC_SST
    ensures FirstSst(before + table) == |before|
  {
    if before == [] {
      assert before + table == table;
    } else {
      assert (before + table)[1..] == before[1..] + table;
      FirstSstAfter(before[1..], table);
    }
  }

  lemma FirstFragment(es: seq<Entry>, refs: nat)
    requires |es| < 0x1_0000_0000 && refs < 0x1_0000_0000
    requires forall i :: 0 <= i < |es| ==> ValidEntry(es[i])
    ensures var first := EncodeTable(es, refs)[0].payload;
            |first| >= 8 && first[8..] == EncodeAll(es)[0] && Le32(first[4..]) == |es|
  {
    CountedBack(refs, |es|, EncodeAll(es)[0]);
  }

  lemma CountedBack(refs: nat, count: nat, body: seq<byte>)
    requires count < 0x1_0000_0000 && refs < 0x1_0000_0000
    ensures var first := Bytes32(refs) + Bytes32(count) + body;
            |first| >= 8 && first[8..] == body && Le32(first[4..]) == count
  {
    var tail := Bytes32(count) + body;
    var first := Bytes32(refs) + Bytes32(count) + body;
    assert first[4..] == tail && tail[..4] == Bytes32(count);
    Le32Prefix(tail, count);
  }

  lemma ReadSstAfter(before: seq<Record>, table: seq<Record>)
    requires forall i :: 0 <= i < |before| ==> before[i].id != REC_SST
    requires table != [] && table[0].id == REC_SST && |table[0].payload| >= 8
    ensures var first := table[0].payload;
            ReadSst(before + table)
            == ReadEntries(Cursor([first[8..]] + Continued(table[1..]), false), Le32(first[4..]))
  {
    FirstSstAfter(before, table);
    assert (before + table)[|before|] == table[0];
    assert (before + table)[|before| + 1..] == table[1..];
  }

  lemma TableFragments(es: seq<Entry>, refs: nat, after: seq<Record>)
    requires |es| < 0x1_0000_0000 && refs < 0x1_0000_0000
    requires forall i :: 0 <= i < |es| ==> ValidEntry(es[i])
    requires after != [] ==> after[0].id != REC_CONTINUE
    ensures var table := EncodeTable(es, refs) + after;
            [table[0].payload[8..]] + Continued(table[1..]) == EncodeAll(es)
  {
    var frags := EncodeAll(es);
    var table := EncodeTable(es, refs) + after;
    FirstFragment(es, refs);
    ConsAppend(EncodeTable(es, refs)[0], ContinueRecords(frags[1..]), after);
    ContinuedBack(frags[1..], after);
    HeadTail(frags);
  }

  lemma ConsAppend(r: Record, rest: seq<Record>, after: seq<Record>)
    ensures ([r] + rest + after)[0] == r && ([r] + rest + after)[1..] == rest + after
  {
  }

  lemma HeadTail(frags: seq<seq<byte>>)
    requires frags != []
    ensures [frags[0]] + frags[1..] == frags
  {
  }

  /** The round trip: whatever records stand before and after the table, readSST
      returns exactly the strings that were encoded. */
  lemma TableRoundTrip(es: seq<Entry>, refs: nat, before: seq<Record>, after: seq<Record>)
    requires |es| < 0x1_0000_0000 && refs < 0x1_0000_0000
    requires forall i :: 0 <= i < |es| ==> ValidEntry(es[i])
    requires forall i :: 0 <= i < |before| ==> before[i].id != REC_SST
    requires after != [] ==> after[0].id != REC_CONTINUE
    ensures ReadSst(before + (EncodeTable(es, refs) + after)) == Some(Texts(es))
  {
    var table := EncodeTable(es, refs) + after;
    FirstFragment(es, refs);
    assert table[0] == EncodeTable(es, refs)[0];
    ReadSstAfter(before, table);
    TableFragments(es, refs, after);
    var cursor, count := Cursor([table[0].payload[8..]] + Continued(table[1..]), false), Le32(table[0].payload[4..]);
    assert cursor == Cursor(EncodeAll(es), false) && count == |es|;
    ReadEntriesBack(es);
    assert ReadEntries(cursor, count) == Some(Texts(es));
  }

  lemma Le32Prefix(b: seq<byte>, n: nat)
    requires n < 0x1_0000_0000 && |b| >= 4 && b[..4] == Bytes32(n)
    ensures Le32(b) == n
  {
    assert b[0] == b[..4][0] && b[1] == b[..4][1] && b[2] == b[..4][2] && b[3] == b[..4][3];
    assert b[2..][0] == b[2] && b[2..][1] == b[3];
    assert Bytes32(n)[2..][0] == b[2] && Bytes32(n)[2..][1] == b[3];
  }

  /** On plain text, every character outside the surrogate range, the text is the
      characters, wherever the cuts are and whatever the widths. */
  function Characters(segs: seq<Segment>): seq<rune> {
    if segs == [] then [] else segs[0].units + Characters(segs[1..])
  }

  lemma {:induction false} PlainDecode(u: seq<unit>)
    requires forall i :: 0 <= i < |u| ==> !Surrogate(u[i])
    ensures Utf16Decode(u) == u
  {
    if u != [] {
      PlainDecode(u[1..]);
      assert u == [u[0]] + u[1..];
    }
  }

  lemma {:induction false} PlainText(segs: seq<Segment>)
    requires forall i, j :: 0 <= i < |segs| && 0 <= j < |segs[i].units| ==> !Surrogate(segs[i].units[j])
    ensures Text(segs) == Characters(segs)
  {
    if segs != [] {
      assert forall j :: 0 <= j < |segs[0].units| ==> !Surrogate(segs[0].units[j]);
      if segs[0].wide { PlainDecode(segs[0].units); }
      PlainText(segs[1..]);
    }
  }

  // ---------------------------------------------------------------------- read

  function Flatten(frags: seq<seq<byte>>): seq<byte> {
    if frags == [] then [] else frags[0] + Flatten(frags[1..])
  }

  lemma {:induction false} AdvanceKeepsBytes(c: Cursor)
    ensures Flatten(Advance(c).frags) == Flatten(c.frags)
    decreases |c.frags|
  {
    if c.frags != [] && c.frags[0] == [] { AdvanceKeepsBytes(Cursor(c.frags[1..], true)); }
  }

  lemma SliceOfSlice(s: seq<byte>, k: nat, n: nat)
    requires k <= n <= |s|
    ensures s[..n] == s[..k] + s[k..][..n - k] && s[n..] == s[k..][n - k..]
  {
  }

  lemma SkipDropsBytes(c: Cursor, n: nat)
    requires c.frags != [] && n <= |c.frags[0]|
    ensures Flatten(Skip(c, n).frags) == Flatten(c.frags)[n..]
  {
    assert Skip(c, n).frags[1..] == c.frags[1..];
  }

  /** read(n) returns the next `n` bytes of the fragments put together, and fails
      exactly when fewer remain. */
  lemma {:induction false} TakeIsNextBytes(c: Cursor, n: nat)
    ensures var all := Flatten(c.frags);
            && (Take(c, n).Some? <==> n <= |all|)
            && (n <= |all| ==> Take(c, n).value.0 == all[..n] && Flatten(Take(c, n).value.1.frags) == all[n..])
    decreases n
  {
    if n > 0 {
      var all, a := Flatten(c.frags), Advance(c);
      AdvanceKeepsBytes(c);
      TakeUnfolds(c, n);
      if a.frags != [] {
        var k := if |a.frags[0]| < n then |a.frags[0]| else n;
        var d := Skip(a, k);
        SkipDropsBytes(a, k);
        TakeIsNextBytes(d, n - k);
        assert all[..k] == a.frags[0][..k];
        if n <= |all| { SliceOfSlice(all, k, n); }
      }
    }
  }

  /** A cut between two strings is outside these layouts: with the string's
      first byte taken for an option byte, its last character is missing. */
  lemma NextStringAfterCut(text: byte)
    ensures ReadEntry(Cursor([[], [1, 0, 0, text]], false)) == None
  {
    var c := Cursor([[], [1, 0, 0, text]], false);
    var d := Cursor(Glue([1, 0, 0], [[text]]), true);
    assert [1, 0, 0] + [text] == [1, 0, 0, text];
    assert c.frags[1..] == d.frags;
    assert Advance(d) == d && Advance(c) == d;
    TakeUnfolds(c, 3);
    TakeUnfolds(d, 3);
    TakeInPlace([1, 0, 0], [[text]], true);
    var b := Cursor([[text]], true);
    assert Take(c, 3) == Some(([1, 0, 0], b));
    assert Advance(b) == b;
    var nothing: seq<seq<byte>> := [[]];
    assert [text][1..] == [];
    assert Skip(b.(edge := false), 1).frags == nothing;
    assert nothing[1..] == [];
    assert Advance(Cursor(nothing, false)) == Cursor([], true);
    assert ReadString(b, 1, false) == None;
    assert ReadHeader(c) == Some((Header(1, 0, 0, 0), b));
  }

  /** "a" and "b" in two fragments, one string each, cannot be read back. */
  lemma CutBetweenStringsFails()
    ensures ReadEntries(Cursor([[1, 0, 0, 97], [1, 0, 0, 98]], false), 2) == None
  {
    var tail: seq<seq<byte>> := [[], [1, 0, 0, 98]];
    var e := Entry([Segment(false, [97])], None, None);
    assert e.segments[1..] == [];
    assert Length(e.segments) == 1;
    assert Body(e.segments[0]) == [97] by { assert [97][1..] == []; assert Body(Segment(false, [97][1..])) == []; }
    assert HeaderBytes(e) == [1, 0, 0];
    GlueNothing(tail);
    assert TrailerBytes(e) == [];
    assert [97] + tail[0] == [97] && [1, 0, 0] + [97] == [1, 0, 0, 97];
    assert EncodeSegments(e.segments, tail) == [[97], [1, 0, 0, 98]];
    assert EncodeEntry(e, tail) == [[1, 0, 0, 97], [1, 0, 0, 98]];
    ReadEntryBack(e, tail);
    NextStringAfterCut(98);
  }
}
