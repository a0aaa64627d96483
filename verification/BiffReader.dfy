/** fragReader and readSST as the loops that run (internal/askoe/biff.go), each
    proved equal to the function of the unread bytes that specifies it. */
module BiffReader {
  import opened Wrappers
  import opened Biff

  /** What is read from here on, once the option byte is dealt with. */
  ghost function Run(a: Cursor, cch: nat, wide: bool): Option<(seq<rune>, Cursor)>
    requires cch > 0 && a.frags != [] && a.frags[0] != []
  {
    ReadChars(a, cch, wide)
  }

  /** `s`, and then what is read from `c` on. */
  ghost function Then(s: seq<rune>, c: Cursor, cch: nat, wide: bool): Option<(seq<rune>, Cursor)> {
    Prepend(s, Biff.ReadString(c, cch, wide))
  }

  class FragReader {
    const frags: seq<seq<byte>>
    var fIdx: nat
    var off: nat
    var atEdge: bool

    ghost predicate Valid()
      reads this
    {
      fIdx <= |frags| && if fIdx < |frags| then off <= |frags[fIdx]| else off == 0
    }

    /** What is left to read. */
    ghost function Rest(): Cursor
      reads this
      requires Valid()
    {
      Cursor(if fIdx < |frags| then [frags[fIdx][off..]] + frags[fIdx + 1..] else [], atEdge)
    }

    constructor (frags: seq<seq<byte>>)
      ensures Valid() && Rest() == Cursor(frags, false)
    {
      this.frags := frags;
      fIdx, off, atEdge := 0, 0, false;
    }

    method NextFragment()
      requires Valid() && fIdx < |frags|
      modifies this
      ensures Valid() && Rest() == Cursor(old(Rest()).frags[1..], true)
    {
      fIdx, off, atEdge := fIdx + 1, 0, true;
      assert fIdx < |frags| ==> frags[fIdx][0..] == frags[fIdx];
    }

    method Consume(n: nat)
      requires Valid() && fIdx < |frags| && off + n <= |frags[fIdx]|
      modifies this
      ensures Valid() && Rest() == Skip(old(Rest()), n)
      ensures fIdx == old(fIdx) && atEdge == old(atEdge)
    {
      assert frags[fIdx][off..][n..] == frags[fIdx][off + n..];
      off := off + n;
    }

    method AdvanceIfEmpty()
      requires Valid()
      modifies this
      ensures Valid() && Rest() == Advance(old(Rest()))
    {
      while fIdx < |frags| && off >= |frags[fIdx]|
        invariant Valid() && Advance(Rest()) == Advance(old(Rest()))
        decreases |frags| - fIdx
      {
        NextFragment();
      }
    }

    /** Up to `count` whole characters of the current fragment. */
    method ReadChunk(count: nat, wide: bool) returns (chunk: seq<byte>)
      requires Valid() && fIdx < |frags|
      requires var width := if wide then 2 else 1; off + count * width <= |frags[fIdx]|
      modifies this
      ensures var n := count * if wide then 2 else 1;
              Valid() && Rest() == Skip(old(Rest()), n) && chunk == old(Rest()).frags[0][..n]
    {
      var n := count * if wide then 2 else 1;
      chunk := frags[fIdx][off..off + n];
      assert frags[fIdx][off..][..n] == chunk;
      Consume(n);
    }

    /** One pass of read's loop: as much as the current fragment has. */
    method ReadPiece(n: nat) returns (ok: bool, piece: seq<byte>)
      requires Valid() && n > 0
      modifies this
      ensures Valid()
      ensures !ok ==> Take(old(Rest()), n) == None
      ensures ok ==> 0 < |piece| <= n && Take(old(Rest()), n) == Join(piece, Take(Rest(), n - |piece|))
    {
      TakeUnfolds(Rest(), n);
      AdvanceIfEmpty();
      if fIdx >= |frags| { return false, []; }
      var take := |frags[fIdx]| - off;
      if take > n { take := n; }
      piece := ReadChunk(take, false);
      ok := true;
    }

    /** The next `n` bytes; `ok` is false at the unexpected end of the data. */
    method Read(n: nat) returns (ok: bool, out: seq<byte>)
      requires Valid()
      modifies this
      ensures Valid()
      ensures ok <==> Take(old(Rest()), n).Some?
      ensures ok ==> Take(old(Rest()), n) == Some((out, Rest()))
    {
      out := [];
      ghost var whole := Take(Rest(), n);
      ghost var rest := whole;
      Joined([], whole);
      while |out| < n
        invariant Valid() && |out| <= n
        invariant rest == Take(Rest(), n - |out|) && whole == Join(out, rest)
        decreases n - |out|
      {
        var piece;
        ok, piece := ReadPiece(n - |out|);
        if !ok { return false, []; }
        ghost var left := n - |out| - |piece|;
        ghost var after := Take(Rest(), left);
        assert rest == Join(piece, after);
        JoinTwice(out, piece, after);
        out, rest := out + piece, after;
        assert n - |out| == left;
      }
      assert out + [] == out;
      ok := true;
    }

    /** The rest of a two-byte character cut after its first byte. */
    method ReadSplitChar(lo: byte) returns (ok: bool, u: int, wide: bool)
      requires Valid()
      modifies this
      ensures Valid()
      ensures ok <==> SplitChar(lo, old(Rest())).Some?
      ensures ok ==> SplitChar(lo, old(Rest())) == Some((u, wide, Rest()))
    {
      u, wide := 0, false;
      var fb, b;
      ghost var a := Rest();
      ok, fb := Read(1);
      if !ok { return; }
      wide := Wide(fb[0]);
      ghost var c := Rest();
      assert Take(a, 1) == Some((fb, c));
      AdvanceIfEmpty();
      assert Rest() == Advance(c);
      ok, b := Read(1);
      if !ok { return; }
      u := if wide then (lo as int) + 0x100 * (b[0] as int) else b[0];
    }

    /** The option byte after a cut. */
    method ReadOption() returns (ok: bool, wide: bool)
      requires Valid() && fIdx < |frags| && off < |frags[fIdx]|
      modifies this
      ensures Valid() && wide == Wide(old(Rest()).frags[0][0])
      ensures Rest() == Advance(Skip(old(Rest()).(edge := false), 1))
      ensures ok <==> Rest().frags != []
    {
      ghost var a := Rest();
      wide := Wide(frags[fIdx][off]);
      assert wide == Wide(a.frags[0][0]);
      atEdge := false;
      assert Rest() == a.(edge := false);
      Consume(1);
      AdvanceIfEmpty();
      ok := fIdx < |frags|;
    }

    /** A two-byte character of which one byte is left before the cut. */
    method ReadCutChar(cch: nat) returns (ok: bool, s: seq<rune>, isWide: bool)
      requires Valid() && cch > 0 && fIdx < |frags| && off + 1 == |frags[fIdx]|
      modifies this
      ensures Valid()
      ensures ok ==> Total(Rest().frags) < Total(old(Rest()).frags)
      ensures Run(old(Rest()), cch, true) == if ok then Then(s, Rest(), cch - 1, isWide) else None
    {
      ghost var a := Rest();
      var lo, u := frags[fIdx][off], 0;
      NextFragment();
      ghost var c := Rest();
      assert c == Cursor(a.frags[1..], true) && lo == a.frags[0][0];
      SplitUnfolds(a, cch);
      SplitCharTotal(lo, c);
      ok, u, isWide := ReadSplitChar(lo);
      s := [Written(u)];
    }

    /** The whole characters the current fragment holds, up to `cch`. */
    method ReadWholeChars(cch: nat, wide: bool) returns (s: seq<rune>, left: nat)
      requires Valid() && cch > 0 && fIdx < |frags| && (if wide then off + 1 else off) < |frags[fIdx]|
      modifies this
      ensures Valid() && left < cch
      ensures Total(Rest().frags) < Total(old(Rest()).frags)
      ensures Run(old(Rest()), cch, wide) == Then(s, Rest(), left, wide)
    {
      ghost var a := Rest();
      var can := (|frags[fIdx]| - off) / if wide then 2 else 1;
      if can > cch { can := cch; }
      ChunkUnfolds(a, cch, wide, can);
      SkipTotal(a, can * if wide then 2 else 1);
      var chunk := ReadChunk(can, wide);
      left, s := cch - can, Decode(chunk, wide);
    }

    /** The characters one pass of readString's loop takes, once the option byte
        is dealt with. */
    method ReadRun(cch: nat, wide: bool) returns (ok: bool, s: seq<rune>, left: nat, isWide: bool)
      requires Valid() && cch > 0 && fIdx < |frags| && off < |frags[fIdx]|
      modifies this
      ensures Valid()
      ensures ok ==> left < cch && Total(Rest().frags) < Total(old(Rest()).frags)
      ensures Run(old(Rest()), cch, wide) == if ok then Then(s, Rest(), left, isWide) else None
    {
      left, isWide, ok := cch - 1, wide, true;
      if wide && |frags[fIdx]| - off == 1 {
        ok, s, isWide := ReadCutChar(cch);
      } else {
        s, left := ReadWholeChars(cch, wide);
      }
    }

    method ReadString(cch: nat, wide: bool) returns (ok: bool, s: seq<rune>)
      requires Valid()
      modifies this
      ensures Valid()
      ensures ok <==> Biff.ReadString(old(Rest()), cch, wide).Some?
      ensures ok ==> Biff.ReadString(old(Rest()), cch, wide) == Some((s, Rest()))
    {
      var remaining: nat, isWide := cch, wide;
      ghost var whole := Biff.ReadString(Rest(), cch, wide);
      s := [];
      Prepended(s, whole);
      while remaining > 0
        invariant Valid()
        invariant whole == Prepend(s, Biff.ReadString(Rest(), remaining, isWide))
        decreases Total(Rest().frags)
      {
        StringUnfolds(Rest(), remaining, isWide);
        AdvanceIfEmpty();
        if fIdx >= |frags| { return false, s; }
        if atEdge {
          ok, isWide := ReadOption();
          if !ok { return; }
        }
        var run;
        ghost var before, n := Rest(), remaining;
        ok, run, remaining, isWide := ReadRun(remaining, isWide);
        if !ok { return; }
        PrependTwice(s, run, Biff.ReadString(Rest(), remaining, isWide));
        s := s + run;
      }
      assert s + [] == s;
      ok := true;
    }

    method ReadIf(condition: bool, n: nat) returns (ok: bool, out: seq<byte>)
      requires Valid()
      modifies this
      ensures Valid()
      ensures ok <==> TakeIf(condition, old(Rest()), n).Some?
      ensures ok ==> TakeIf(condition, old(Rest()), n) == Some((out, Rest()))
    {
      ok, out := true, [];
      if condition { ok, out := Read(n); }
    }

    method ReadSizes(hasRuns: bool, hasExt: bool) returns (ok: bool, runs: nat, ext: nat)
      requires Valid()
      modifies this
      ensures Valid()
      ensures ok <==> Biff.ReadSizes(old(Rest()), hasRuns, hasExt).Some?
      ensures ok ==> Biff.ReadSizes(old(Rest()), hasRuns, hasExt) == Some((runs, ext, Rest()))
    {
      runs, ext := 0, 0;
      var rt, sz;
      ok, rt := ReadIf(hasRuns, 2);
      if !ok { return; }
      ok, sz := ReadIf(hasExt, 4);
      if !ok { return; }
      if hasRuns { runs := Le16(rt); }
      if hasExt { ext := Le32(sz); }
    }

    method ReadHeader() returns (ok: bool, h: Header)
      requires Valid()
      modifies this
      ensures Valid()
      ensures ok <==> Biff.ReadHeader(old(Rest())).Some?
      ensures ok ==> Biff.ReadHeader(old(Rest())) == Some((h, Rest()))
    {
      h := Header(0, 0, 0, 0);
      var hdr, runs, ext;
      ok, hdr := Read(3);
      if !ok { return; }
      ok, runs, ext := ReadSizes(Bit(hdr[2], 8), Bit(hdr[2], 4));
      h := Header(Le16(hdr), hdr[2], runs, ext);
    }

    method SkipTrailer(h: Header) returns (ok: bool)
      requires Valid()
      modifies this
      ensures Valid()
      ensures ok <==> Biff.SkipTrailer(h, old(Rest())).Some?
      ensures ok ==> Biff.SkipTrailer(h, old(Rest())) == Some(Rest())
    {
      var skipped;
      ok, skipped := ReadIf(h.HasRuns(), h.runs * 4);
      if !ok { return; }
      ok, skipped := ReadIf(h.HasExt(), h.ext);
    }

    method ReadEntry() returns (ok: bool, s: seq<rune>)
      requires Valid()
      modifies this
      ensures Valid()
      ensures ok <==> Biff.ReadEntry(old(Rest())).Some?
      ensures ok ==> Biff.ReadEntry(old(Rest())) == Some((s, Rest()))
    {
      s := [];
      var h;
      ok, h := ReadHeader();
      if !ok { return; }
      ok, s := ReadString(h.cch, h.Wide());
      if !ok { return; }
      ok := SkipTrailer(h);
    }
  }

  // ------------------------------------------------------------ proof helpers

  lemma Joined(s: seq<byte>, r: Option<(seq<byte>, Cursor)>)
    ensures s == [] ==> Join(s, r) == r
  {
    if r.Some? && s == [] { assert s + r.value.0 == r.value.0; }
  }

  lemma JoinTwice(s: seq<byte>, t: seq<byte>, r: Option<(seq<byte>, Cursor)>)
    ensures Join(s, Join(t, r)) == Join(s + t, r)
  {
    if r.Some? { assert s + (t + r.value.0) == (s + t) + r.value.0; }
  }

  lemma SplitUnfolds(a: Cursor, cch: nat)
    requires cch > 0 && a.frags != [] && |a.frags[0]| == 1
    ensures ReadChars(a, cch, true) ==
            match SplitChar(a.frags[0][0], Cursor(a.frags[1..], true))
            case None => None
            case Some((u, w, d)) => Prepend([Written(u)], Biff.ReadString(d, cch - 1, w))
  {
  }

  lemma ChunkUnfolds(a: Cursor, cch: nat, wide: bool, k: nat)
    requires a.frags != [] && 0 < k <= cch
    requires var can := |a.frags[0]| / if wide then 2 else 1; k == if can > cch then cch else can
    ensures k * (if wide then 2 else 1) <= |a.frags[0]|
    ensures var n := k * if wide then 2 else 1;
            ReadChars(a, cch, wide)
            == Prepend(Decode(a.frags[0][..n], wide), Biff.ReadString(Skip(a, n), cch - k, wide))
  {
  }

  lemma StringUnfolds(c: Cursor, cch: nat, wide: bool)
    requires cch > 0
    ensures var a := Advance(c);
            if a.frags == [] then Biff.ReadString(c, cch, wide) == None
            else if !a.edge then
              Total(a.frags) == Total(c.frags) && Biff.ReadString(c, cch, wide) == ReadChars(a, cch, wide)
            else var b := Advance(Skip(a.(edge := false), 1));
                 && Total(b.frags) < Total(c.frags)
                 && Biff.ReadString(c, cch, wide) == if b.frags == [] then None
                                                     else ReadChars(b, cch, Wide(a.frags[0][0]))
  {
    AdvanceTotal(c);
    var a := Advance(c);
    if a.frags != [] {
      SkipTotal(a.(edge := false), 1);
      AdvanceTotal(Skip(a.(edge := false), 1));
    }
  }

  lemma Prepended(s: seq<rune>, r: Option<(seq<rune>, Cursor)>)
    ensures s == [] ==> Prepend(s, r) == r
  {
    if r.Some? && s == [] { assert s + r.value.0 == r.value.0; }
  }

  lemma PrependTwice(s: seq<rune>, t: seq<rune>, r: Option<(seq<rune>, Cursor)>)
    ensures Prepend(s, Prepend(t, r)) == Prepend(s + t, r)
  {
    if r.Some? { assert s + (t + r.value.0) == (s + t) + r.value.0; }
  }

  // -------------------------------------------------------------------- table

  method FindSst(records: seq<Record>) returns (idx: nat)
    ensures idx == FirstSst(records)
  {
    idx := 0;
    while idx < |records| && records[idx].id != REC_SST
      invariant idx <= |records|
      invariant FirstSst(records) == idx + FirstSst(records[idx..])
    {
      assert records[idx..][1..] == records[idx + 1..];
      idx := idx + 1;
    }
  }

  method Fragments(first: seq<byte>, records: seq<Record>, idx: nat) returns (frags: seq<seq<byte>>)
    requires idx < |records|
    ensures frags == [first] + Continued(records[idx + 1..])
  {
    frags := [first];
    var j := idx + 1;
    while j < |records| && records[j].id == REC_CONTINUE
      invariant idx < j <= |records|
      invariant [first] + Continued(records[idx + 1..]) == frags + Continued(records[j..])
    {
      assert records[j..][1..] == records[j + 1..];
      frags := frags + [records[j].payload];
      j := j + 1;
    }
  }

  /** What the loop will return with `out` read and `n` entries to come. */
  ghost function Left(out: seq<seq<rune>>, c: Cursor, n: nat): Option<seq<seq<rune>>> {
    match ReadEntries(c, n)
    case None => None
    case Some(rest) => Some(out + rest)
  }

  lemma LeftAtFirst(c: Cursor, n: nat)
    ensures Left([], c, n) == ReadEntries(c, n)
  {
    var r := ReadEntries(c, n);
    if r.Some? { assert [] + r.value == r.value; }
  }

  lemma LeftAtLast(out: seq<seq<rune>>, c: Cursor)
    ensures Left(out, c, 0) == Some(out)
  {
    assert out + [] == out;
  }

  lemma EntryDone(out: seq<seq<rune>>, s: seq<rune>, c: Cursor, d: Cursor, n: nat)
    requires n > 0 && Biff.ReadEntry(c) == Some((s, d))
    ensures Left(out, c, n) == Left(out + [s], d, n - 1)
  {
    if ReadEntries(d, n - 1).Some? {
      var rest := ReadEntries(d, n - 1).value;
      assert out + ([s] + rest) == (out + [s]) + rest;
    }
  }

  lemma EntryFails(out: seq<seq<rune>>, c: Cursor, n: nat)
    requires n > 0 && Biff.ReadEntry(c) == None
    ensures Left(out, c, n) == None
  {
  }

  /** One turn of the loop. */
  method ReadNext(r: FragReader, ghost out: seq<seq<rune>>, ghost n: nat) returns (ok: bool, s: seq<rune>)
    requires r.Valid() && n > 0
    modifies r
    ensures r.Valid()
    ensures Left(out, old(r.Rest()), n) == if ok then Left(out + [s], r.Rest(), n - 1) else None
  {
    ghost var c := r.Rest();
    ok, s := r.ReadEntry();
    if ok { EntryDone(out, s, c, r.Rest(), n); } else { EntryFails(out, c, n); }
  }

  method ReadAll(r: FragReader, total: nat) returns (ok: bool, out: seq<seq<rune>>)
    requires r.Valid()
    modifies r
    ensures ReadEntries(old(r.Rest()), total) == if ok then Some(out) else None
  {
    out := [];
    ghost var c, left := r.Rest(), total;
    ghost var whole := Left(out, c, left);
    for k := 0 to total
      invariant r.Valid() && left == total - k && whole == Left(out, r.Rest(), left)
    {
      var s;
      ok, s := ReadNext(r, out, left);
      if !ok {
        LeftAtFirst(c, total);
        return;
      }
      out, left := out + [s], left - 1;
    }
    LeftAtFirst(c, total);
    LeftAtLast(out, r.Rest());
    ok := true;
  }

  method ReadSst(records: seq<Record>) returns (ok: bool, out: seq<seq<rune>>)
    ensures ok <==> Biff.ReadSst(records).Some?
    ensures ok ==> Biff.ReadSst(records) == Some(out)
  {
    var idx := FindSst(records);
    FirstSstBound(records);
    if idx == |records| { return true, []; }
    var first := records[idx].payload;
    if |first| < 8 { return false, []; }
    var frags := Fragments(first[8..], records, idx);
    var r := new FragReader(frags);
    ok, out := ReadAll(r, Le32(first[4..]));
  }
}
