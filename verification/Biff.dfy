/**
  The shared-string table of a BIFF8 workbook (internal/askoe/biff.go), read
  from the SST record and the CONTINUE records after it, as functions on the
  bytes that are left to read. [MS-XLS] sections 2.4.265 (SST), 2.4.58
  (Continue) and 2.5.293 (XLUnicodeRichExtendedString).
*/
module Biff {
  import opened Wrappers

  type byte = x: int | 0 <= x < 0x100
  type unit = x: int | 0 <= x < 0x1_0000 // a UTF-16 code unit
  type rune = int

  const REC_SST := 0x00FC
  const REC_CONTINUE := 0x003C

  datatype Record = Record(id: int, payload: seq<byte>)

  function Le16(b: seq<byte>): unit
    requires |b| >= 2
  {
    (b[0] as int) + 0x100 * (b[1] as int)
  }

  function Le32(b: seq<byte>): nat
    requires |b| >= 4
  {
    Le16(b) + 0x1_0000 * Le16(b[2..])
  }

  // ------------------------------------------------------------------- cursor

  /** The unread bytes, fragment by fragment, and whether a fragment boundary
      was crossed since readString last looked. */
  datatype Cursor = Cursor(frags: seq<seq<byte>>, edge: bool)

  function Advance(c: Cursor): (r: Cursor)
    ensures r.frags != [] ==> r.frags[0] != []
    decreases |c.frags|
  {
    if c.frags != [] && c.frags[0] == [] then Advance(Cursor(c.frags[1..], true)) else c
  }

  function Total(frags: seq<seq<byte>>): nat {
    if frags == [] then 0 else |frags[0]| + Total(frags[1..])
  }

  /** The cursor after the first `n` bytes of its head fragment. */
  function Skip(c: Cursor, n: nat): Cursor
    requires c.frags != [] && n <= |c.frags[0]|
  {
    Cursor([c.frags[0][n..]] + c.frags[1..], c.edge)
  }

  /** read(n); none is io.ErrUnexpectedEOF. */
  function Take(c: Cursor, n: nat): (r: Option<(seq<byte>, Cursor)>)
    ensures r.Some? ==> |r.value.0| == n
    decreases n
  {
    if n == 0 then Some(([], c))
    else
      var a := Advance(c);
      if a.frags == [] then None
      else
        var k := if |a.frags[0]| < n then |a.frags[0]| else n;
        match Take(Skip(a, k), n - k)
        case None => None
        case Some((rest, d)) => Some((a.frags[0][..k] + rest, d))
  }

  lemma {:induction false} AdvanceTotal(c: Cursor)
    ensures Total(Advance(c).frags) == Total(c.frags)
    decreases |c.frags|
  {
    if c.frags != [] && c.frags[0] == [] { AdvanceTotal(Cursor(c.frags[1..], true)); }
  }

  lemma SkipTotal(c: Cursor, n: nat)
    requires c.frags != [] && n <= |c.frags[0]|
    ensures Total(Skip(c, n).frags) == Total(c.frags) - n
  {
    assert Skip(c, n).frags[1..] == c.frags[1..];
  }

  /** read consumes what it returns. */
  lemma {:induction false} TakeTotal(c: Cursor, n: nat)
    ensures Take(c, n).Some? ==> Total(Take(c, n).value.1.frags) == Total(c.frags) - n
    decreases n
  {
    if n > 0 {
      var a := Advance(c);
      AdvanceTotal(c);
      if a.frags != [] {
        var k := if |a.frags[0]| < n then |a.frags[0]| else n;
        SkipTotal(a, k);
        TakeTotal(Skip(a, k), n - k);
      }
    }
  }

  function Join(s: seq<byte>, r: Option<(seq<byte>, Cursor)>): Option<(seq<byte>, Cursor)> {
    match r
    case None => None
    case Some((t, c)) => Some((s + t, c))
  }

  lemma TakeUnfolds(c: Cursor, n: nat)
    requires n > 0
    ensures var a := Advance(c);
            if a.frags == [] then Take(c, n) == None
            else var k := if |a.frags[0]| < n then |a.frags[0]| else n;
                 Take(c, n) == Join(a.frags[0][..k], Take(Skip(a, k), n - k))
  {
  }

  // ---------------------------------------------------------------- characters

  predicate Surrogate(u: int) { 0xD800 <= u < 0xE000 }

  /** strings.Builder.WriteRune: a lone surrogate becomes U+FFFD. */
  function Written(u: int): rune {
    if Surrogate(u) then 0xFFFD else u
  }

  /** utf16.Decode. */
  function Utf16Decode(u: seq<unit>): seq<rune> {
    if u == [] then []
    else if |u| >= 2 && 0xD800 <= u[0] < 0xDC00 && 0xDC00 <= u[1] < 0xE000 then
      [(u[0] - 0xD800) * 0x400 + (u[1] - 0xDC00) + 0x1_0000] + Utf16Decode(u[2..])
    else [Written(u[0])] + Utf16Decode(u[1..])
  }

  function Units(b: seq<byte>): (r: seq<unit>)
    ensures |r| == |b| / 2
  {
    if |b| < 2 then [] else [Le16(b)] + Units(b[2..])
  }

  /** The runes of one chunk of a character array. */
  function Decode(chunk: seq<byte>, wide: bool): seq<rune> {
    if wide then Utf16Decode(Units(chunk)) else seq(|chunk|, i requires 0 <= i < |chunk| => chunk[i] as rune)
  }

  function Wide(option: byte): bool { option % 2 == 1 }

  function Prepend(s: seq<rune>, r: Option<(seq<rune>, Cursor)>): Option<(seq<rune>, Cursor)> {
    match r
    case None => None
    case Some((t, c)) => Some((s + t, c))
  }

  /** The rest of a two-byte character whose first byte `lo` ended a fragment:
      the character, the width the option byte sets, and the cursor after it. */
  function SplitChar(lo: byte, c: Cursor): Option<(int, bool, Cursor)> {
    match Take(c, 1)
    case None => None
    case Some((fb, c1)) =>
      match Take(Advance(c1), 1)
      case None => None
      case Some((b, c2)) =>
        Some((if Wide(fb[0]) then (lo as int) + 0x100 * (b[0] as int) else b[0], Wide(fb[0]), c2))
  }

  lemma SplitCharTotal(lo: byte, c: Cursor)
    ensures SplitChar(lo, c).Some? ==> Total(SplitChar(lo, c).value.2.frags) < Total(c.frags)
  {
    TakeTotal(c, 1);
    if Take(c, 1).Some? {
      var d := Take(c, 1).value.1;
      AdvanceTotal(d);
      TakeTotal(Advance(d), 1);
    }
  }

  /** readString: `cch` characters, honouring the option byte after each cut. */
  function ReadString(c: Cursor, cch: nat, wide: bool): Option<(seq<rune>, Cursor)>
    decreases Total(c.frags), 1
  {
    if cch == 0 then Some(([], c))
    else
      var a := Advance(c);
      AdvanceTotal(c);
      if a.frags == [] then None
      else if a.edge then
        SkipTotal(a.(edge := false), 1);
        AdvanceTotal(Skip(a.(edge := false), 1));
        var b := Advance(Skip(a.(edge := false), 1));
        if b.frags == [] then None else ReadChars(b, cch, Wide(a.frags[0][0]))
      else ReadChars(a, cch, wide)
  }

  /** One pass of readString's loop once the option byte is dealt with. */
  function ReadChars(a: Cursor, cch: nat, wide: bool): Option<(seq<rune>, Cursor)>
    requires cch > 0 && a.frags != [] && a.frags[0] != []
    decreases Total(a.frags), 0
  {
    var charBytes := if wide then 2 else 1;
    var can := |a.frags[0]| / charBytes;
    if can == 0 then
      SplitCharTotal(a.frags[0][0], Cursor(a.frags[1..], true));
      match SplitChar(a.frags[0][0], Cursor(a.frags[1..], true))
      case None => None
      case Some((u, w, d)) => Prepend([Written(u)], ReadString(d, cch - 1, w))
    else
      var k := if can > cch then cch else can;
      SkipTotal(a, k * charBytes);
      Prepend(Decode(a.frags[0][..k * charBytes], wide), ReadString(Skip(a, k * charBytes), cch - k, wide))
  }

  // --------------------------------------------------------------------- table

  predicate Bit(flags: byte, weight: int)
    requires weight > 0
  {
    (flags / weight) % 2 == 1
  }

  /** The fixed part of one XLUnicodeRichExtendedString. */
  datatype Header = Header(cch: nat, flags: byte, runs: nat, ext: nat) {
    predicate Wide() { Bit(flags, 1) }
    predicate HasExt() { Bit(flags, 4) }
    predicate HasRuns() { Bit(flags, 8) }
  }

  function TakeIf(condition: bool, c: Cursor, n: nat): Option<(seq<byte>, Cursor)> {
    if condition then Take(c, n) else Some(([], c))
  }

  function ReadHeader(c: Cursor): Option<(Header, Cursor)> {
    match Take(c, 3)
    case None => None
    case Some((hdr, c1)) =>
      match ReadSizes(c1, Bit(hdr[2], 8), Bit(hdr[2], 4))
      case None => None
      case Some((runs, ext, c2)) => Some((Header(Le16(hdr), hdr[2], runs, ext), c2))
  }

  function ReadSizes(c: Cursor, hasRuns: bool, hasExt: bool): Option<(nat, nat, Cursor)> {
    match TakeIf(hasRuns, c, 2)
    case None => None
    case Some((rt, c1)) =>
      match TakeIf(hasExt, c1, 4)
      case None => None
      case Some((sz, c2)) => Some((if hasRuns then Le16(rt) else 0, if hasExt then Le32(sz) else 0, c2))
  }

  /** Passes over the formatting runs and the extension after the characters. */
  function SkipTrailer(h: Header, c: Cursor): Option<Cursor> {
    match TakeIf(h.HasRuns(), c, h.runs * 4)
    case None => None
    case Some((_, c1)) =>
      match TakeIf(h.HasExt(), c1, h.ext)
      case None => None
      case Some((_, c2)) => Some(c2)
  }

  function ReadEntry(c: Cursor): Option<(seq<rune>, Cursor)> {
    match ReadHeader(c)
    case None => None
    case Some((h, c1)) =>
      match ReadString(c1, h.cch, h.Wide())
      case None => None
      case Some((s, c2)) =>
        match SkipTrailer(h, c2)
        case None => None
        case Some(c3) => Some((s, c3))
  }

  function ReadEntries(c: Cursor, n: nat): Option<seq<seq<rune>>>
    decreases n
  {
    if n == 0 then Some([])
    else
      match ReadEntry(c)
      case None => None
      case Some((s, d)) =>
        match ReadEntries(d, n - 1)
        case None => None
        case Some(rest) => Some([s] + rest)
  }

  function FirstSst(records: seq<Record>): nat {
    if records == [] || records[0].id == REC_SST then 0 else 1 + FirstSst(records[1..])
  }

  function Continued(records: seq<Record>): seq<seq<byte>> {
    if records == [] || records[0].id != REC_CONTINUE then [] else [records[0].payload] + Continued(records[1..])
  }

  lemma FirstSstBound(records: seq<Record>)
    ensures FirstSst(records) <= |records|
    ensures FirstSst(records) < |records| ==> records[FirstSst(records)].id == REC_SST
    ensures forall i :: 0 <= i < FirstSst(records) ==> records[i].id != REC_SST
  {
  }

  /** readSST: the strings of the first SST record; none on a malformed table. */
  function ReadSst(records: seq<Record>): Option<seq<seq<rune>>> {
    FirstSstBound(records);
    var i := FirstSst(records);
    if i == |records| then Some([])
    else
      var first := records[i].payload;
      if |first| < 8 then None
      else ReadEntries(Cursor([first[8..]] + Continued(records[i + 1..]), false), Le32(first[4..]))
  }
}
