/**
  A dispatch plan between hours: how an aligned plan is stored by UTC instant,
  read back at another hour, and how a draft is aligned on its own
  (internal/api/dispatch_model.go). Instants are nanoseconds.
*/
module DispatchModel {
  import opened Wrappers

  const HOUR: int := 3_600_000_000_000
  const FUTURE_HOURS: nat := 24

  datatype CommandType = Target | Export | Fixed | Hold | Auto

  datatype Command = Command(kind: CommandType, value: real, direction: string, id: string)

  /** The limits of a plan; they travel with it unchanged. */
  datatype Constraints = Constraints(reservePct: real, importCapKw: real, exportCapKw: Option<real>, essSale: bool)

  /** An hour-aligned plan: hour `i` starts `i` hours after the plan's start. */
  datatype Model = Model(loads: seq<Option<real>>, commands: seq<Option<Command>>, cfg: Constraints)

  datatype StoredLoad = StoredLoad(ts: int, kw: real)
  datatype Block = Block(from: int, until: int, command: Command)
  datatype Stored = Stored(loads: seq<StoredLoad>, blocks: seq<Block>, cfg: Constraints)

  /** int(math.Round(d.Hours())): to the nearest hour, halves away from zero. */
  function RoundHours(d: int): int {
    if d >= 0 then (2 * d + HOUR) / (2 * HOUR) else -((-2 * d + HOUR) / (2 * HOUR))
  }

  /** No hour is nearer, and from halfway between two the one farther from zero is taken. */
  lemma RoundsToNearest(d: int)
    ensures var off := d - RoundHours(d) * HOUR;
            -HOUR <= 2 * off <= HOUR && (2 * off == HOUR ==> d < 0) && (2 * off == -HOUR ==> d > 0)
  {
  }

  /** A shift of whole hours, give or take less than half an hour, rounds to itself. */
  lemma RoundsTo(h: int, slack: int)
    requires -HOUR < 2 * slack < HOUR
    ensures RoundHours(h * HOUR + slack) == h
  {
  }

  // --------------------------------------------------------------- the meaning

  predicate Manual(c: Option<Command>) { c.Some? && c.value.kind != Auto }

  function LoadAt(m: Model, i: int): Option<real> {
    if 0 <= i < |m.loads| then m.loads[i] else None
  }

  /** The manual command of hour `i`: AUTO and no command are the same. */
  function CommandAt(m: Model, i: int): Option<Command> {
    if 0 <= i < |m.commands| && Manual(m.commands[i]) then m.commands[i] else None
  }

  /** The plan as seen `k` hours later over `n` hours. */
  function Shift(m: Model, k: int, n: nat): Model {
    Model(seq(n, i => LoadAt(m, i + k)), seq(n, i => CommandAt(m, i + k)), m.cfg)
  }

  /** Looking again later is looking once, later by both shifts. */
  lemma ShiftsCompose(m: Model, k: nat, l: nat, n: nat)
    requires |m.loads| <= n && |m.commands| <= n
    ensures Shift(Shift(m, k, n), l, n) == Shift(m, k + l, n)
  {
    var twice, once := Shift(Shift(m, k, n), l, n), Shift(m, k + l, n);
    forall i | 0 <= i < n ensures twice.loads[i] == once.loads[i] {
      var j := i + l;
      assert twice.loads[i] == LoadAt(Shift(m, k, n), j);
      assert j < n ==> Shift(m, k, n).loads[j] == LoadAt(m, j + k);
      assert once.loads[i] == LoadAt(m, j + k);
    }
    forall i | 0 <= i < n ensures twice.commands[i] == once.commands[i] {
      var j := i + l;
      assert twice.commands[i] == CommandAt(Shift(m, k, n), j);
      assert j < n ==> Shift(m, k, n).commands[j] == CommandAt(m, j + k);
      assert once.commands[i] == CommandAt(m, j + k);
    }
  }

  // ------------------------------------------------------------------- storing

  /** `b` stands for hours [i, j) of `m`: all of one manual command, and no longer
      stretch of it. */
  predicate BlockIs(b: Block, m: Model, start: int, i: nat, j: nat) {
    && i < j <= |m.commands|
    && b.from == start + i * HOUR && b.until == start + j * HOUR
    && b.command.kind != Auto
    && (forall h :: i <= h < j ==> m.commands[h] == Some(b.command))
  }

  /** The runs behind the blocks: their bounds in hours. */
  predicate Runs(bounds: seq<(nat, nat)>, blocks: seq<Block>, m: Model, start: int, done: nat) {
    && |bounds| == |blocks| && done <= |m.commands|
    && (forall b :: 0 <= b < |blocks| ==> BlockIs(blocks[b], m, start, bounds[b].0, bounds[b].1) && bounds[b].1 <= done)
    && (forall b, c :: 0 <= b < c < |bounds| ==> bounds[b].1 <= bounds[c].0)
    && (forall b :: 0 <= b < |bounds| && bounds[b].1 < |m.commands| ==>
          m.commands[bounds[b].1] != Some(blocks[b].command))
    && (forall h :: 0 <= h < done && Manual(m.commands[h]) ==> Covered(bounds, h))
  }

  predicate Covered(bounds: seq<(nat, nat)>, h: nat) {
    exists b :: 0 <= b < |bounds| && bounds[b].0 <= h < bounds[b].1
  }

  /** The loads that are set, each at the instant of its hour, in order. */
  function StoredLoads(loads: seq<Option<real>>, start: int): seq<StoredLoad> {
    if loads == [] then []
    else
      var n := |loads| - 1;
      StoredLoads(loads[..n], start)
      + if loads[n].Some? then [StoredLoad(start + n * HOUR, loads[n].value)] else []
  }

  /** A maximal run of one command adds one block. */
  lemma {:induction false} RunAppended(
    bounds: seq<(nat, nat)>, blocks: seq<Block>, m: Model, start: int, i: nat, j: nat, c: Command)
    requires Runs(bounds, blocks, m, start, i) && c.kind != Auto
    requires i < j <= |m.commands| && (forall h :: i <= h < j ==> m.commands[h] == Some(c))
    requires j < |m.commands| ==> m.commands[j] != Some(c)
    ensures Runs(bounds + [(i, j)], blocks + [Block(start + i * HOUR, start + j * HOUR, c)], m, start, j)
  {
    var all := bounds + [(i, j)];
    forall h | 0 <= h < j && Manual(m.commands[h]) ensures Covered(all, h) {
      if h < i {
        assert Covered(bounds, h);
        var b :| 0 <= b < |bounds| && bounds[b].0 <= h < bounds[b].1;
        assert all[b] == bounds[b];
      } else {
        assert all[|bounds|] == (i, j);
      }
    }
  }

  method LoadRows(m: Model, start: int) returns (loads: seq<StoredLoad>)
    ensures loads == StoredLoads(m.loads, start)
  {
    loads := [];
    for i := 0 to |m.loads|
      invariant loads == StoredLoads(m.loads[..i], start)
    {
      assert m.loads[..i + 1][..i] == m.loads[..i];
      if m.loads[i] != None { loads := loads + [StoredLoad(start + i * HOUR, m.loads[i].value)]; }
    }
    assert m.loads[..|m.loads|] == m.loads;
  }

  method CommandBlocks(m: Model, start: int) returns (blocks: seq<Block>, ghost bounds: seq<(nat, nat)>)
    ensures Runs(bounds, blocks, m, start, |m.commands|)
  {
    blocks, bounds := [], [];
    var i := 0;
    while i < |m.commands|
      invariant Runs(bounds, blocks, m, start, i)
      decreases |m.commands| - i
    {
      var c := m.commands[i];
      if c == None || c.value.kind == Auto {
        i := i + 1;
        continue;
      }
      var j := i + 1;
      while j < |m.commands| && m.commands[j] != None && m.commands[j].value == c.value
        invariant i < j <= |m.commands|
        invariant forall h :: i <= h < j ==> m.commands[h] == c
      {
        j := j + 1;
      }
      RunAppended(bounds, blocks, m, start, i, j, c.value);
      blocks := blocks + [Block(start + i * HOUR, start + j * HOUR, c.value)];
      bounds := bounds + [(i, j)];
      i := j;
    }
  }

  method StoredFromModel(m: Model, start: int) returns (s: Stored)
    ensures IsStored(s, m, start)
  {
    var loads := LoadRows(m, start);
    var blocks, bounds := CommandBlocks(m, start);
    s := Stored(loads, blocks, m.cfg);
    assert StoredAs(s, bounds, m, start);
  }

  /** Stored blocks are in order, disjoint and never empty, and two that touch
      carry different commands. */
  lemma BlocksAreMaximalRuns(s: Stored, m: Model, start: int)
    requires IsStored(s, m, start)
    ensures forall b :: 0 <= b < |s.blocks| ==> s.blocks[b].from < s.blocks[b].until
    ensures forall b, c :: 0 <= b < c < |s.blocks| ==> s.blocks[b].until <= s.blocks[c].from
    ensures forall b, c :: 0 <= b < c < |s.blocks| && s.blocks[b].until == s.blocks[c].from ==>
              s.blocks[b].command != s.blocks[c].command
  {
    var bounds: seq<(nat, nat)> :| StoredAs(s, bounds, m, start);
    forall b, c | 0 <= b < c < |s.blocks|
      ensures s.blocks[b].until <= s.blocks[c].from
      ensures s.blocks[b].until == s.blocks[c].from ==> s.blocks[b].command != s.blocks[c].command
    {
      assert BlockIs(s.blocks[b], m, start, bounds[b].0, bounds[b].1);
      assert BlockIs(s.blocks[c], m, start, bounds[c].0, bounds[c].1);
      assert bounds[b].1 <= bounds[c].0;
    }
  }

  // ------------------------------------------------------------------- reading

  function Index(ts: int, start: int): int { RoundHours(ts - start) }

  /** What modelFromStored leaves on hour `i`: the last load or block put there. */
  function ReadLoad(loads: seq<StoredLoad>, start: int, i: int): Option<real> {
    if loads == [] then None
    else
      var l := loads[|loads| - 1];
      if Index(l.ts, start) == i then Some(l.kw) else ReadLoad(loads[..|loads| - 1], start, i)
  }

  function ReadCommand(blocks: seq<Block>, start: int, i: int): Option<Command> {
    if blocks == [] then None
    else
      var b := blocks[|blocks| - 1];
      if Index(b.from, start) <= i < Index(b.until, start) then Some(b.command)
      else ReadCommand(blocks[..|blocks| - 1], start, i)
  }

  method ModelFromStored(s: Stored, start: int, n: nat) returns (m: Model)
    ensures IsRead(m, s, start, n)
  {
    var loads := new Option<real>[n](_ => None);
    var commands := new Option<Command>[n](_ => None);
    for k := 0 to |s.loads|
      invariant forall i :: 0 <= i < n ==> loads[i] == ReadLoad(s.loads[..k], start, i)
      invariant forall i :: 0 <= i < n ==> commands[i] == None
    {
      assert s.loads[..k + 1][..k] == s.loads[..k];
      var i := Index(s.loads[k].ts, start);
      if 0 <= i < n { loads[i] := Some(s.loads[k].kw); }
    }
    assert s.loads[..|s.loads|] == s.loads;
    for k := 0 to |s.blocks|
      invariant forall i :: 0 <= i < n ==> commands[i] == ReadCommand(s.blocks[..k], start, i)
      invariant forall i :: 0 <= i < n ==> loads[i] == ReadLoad(s.loads, start, i)
    {
      assert s.blocks[..k + 1][..k] == s.blocks[..k];
      FillBlock(commands, s.blocks[k], start);
    }
    assert s.blocks[..|s.blocks|] == s.blocks;
    m := Model(loads[..], commands[..], s.cfg);
  }

  method FillBlock(commands: array<Option<Command>>, b: Block, start: int)
    modifies commands
    ensures forall i :: 0 <= i < commands.Length ==>
      commands[i] == if Index(b.from, start) <= i < Index(b.until, start) then Some(b.command) else old(commands[i])
  {
    var i, end := Index(b.from, start), Index(b.until, start);
    while i < end
      invariant forall h :: 0 <= h < commands.Length ==>
        commands[h] == if Index(b.from, start) <= h < i && h < end then Some(b.command) else old(commands[h])
    {
      if 0 <= i < commands.Length { commands[i] := Some(b.command); }
      i := i + 1;
    }
  }

  // ---------------------------------------------------------------- round trip

  /** Hour `h` of the storing clock on a clock that started `k` hours and `slack` seconds later. */
  lemma IndexOfHour(start: int, h: int, k: int, slack: int)
    requires -HOUR < 2 * slack < HOUR
    ensures Index(start + h * HOUR, start + k * HOUR + slack) == h - k
  {
    RoundsTo(h - k, -slack);
    assert start + h * HOUR - (start + k * HOUR + slack) == (h - k) * HOUR - slack;
  }

  lemma {:induction false} ReadLoadNext(stored: seq<StoredLoad>, l: StoredLoad, start: int, i: int)
    ensures ReadLoad(stored + [l], start, i)
            == if Index(l.ts, start) == i then Some(l.kw) else ReadLoad(stored, start, i)
  {
    assert (stored + [l])[..|stored|] == stored;
  }

  lemma {:induction false} ReadLoadStep(
    stored: seq<StoredLoad>, loads: seq<Option<real>>, load: Option<real>, start: int, k: int, slack: int, i: int)
    requires -HOUR < 2 * slack < HOUR
    requires ReadLoad(stored, start + k * HOUR + slack, i) == if 0 <= i + k < |loads| then loads[i + k] else None
    ensures var all := if load.Some? then stored + [StoredLoad(start + |loads| * HOUR, load.value)] else stored;
            ReadLoad(all, start + k * HOUR + slack, i)
            == if 0 <= i + k < |loads| then loads[i + k] else if i + k == |loads| then load else None
  {
    if load.Some? {
      IndexOfHour(start, |loads|, k, slack);
      ReadLoadNext(stored, StoredLoad(start + |loads| * HOUR, load.value), start + k * HOUR + slack, i);
    }
  }

  lemma {:induction false} StoredLoadsNext(loads: seq<Option<real>>, start: int)
    requires loads != []
    ensures var n := |loads| - 1;
            StoredLoads(loads, start)
            == if loads[n].None? then StoredLoads(loads[..n], start)
               else StoredLoads(loads[..n], start) + [StoredLoad(start + n * HOUR, loads[n].value)]
  {
  }

  lemma {:induction false} ReadLoadBack(loads: seq<Option<real>>, start: int, k: int, slack: int, i: int)
    requires -HOUR < 2 * slack < HOUR
    ensures ReadLoad(StoredLoads(loads, start), start + k * HOUR + slack, i)
            == if 0 <= i + k < |loads| then loads[i + k] else None
  {
    if loads != [] {
      var n := |loads| - 1;
      ReadLoadBack(loads[..n], start, k, slack, i);
      StoredLoadsNext(loads, start);
      ReadLoadStep(StoredLoads(loads[..n], start), loads[..n], loads[n], start, k, slack, i);
    }
  }

  /** A block is read back on exactly the hours it was stored for. */
  lemma BlockHours(b: Block, m: Model, start: int, f: nat, u: nat, k: int, slack: int, i: int)
    requires -HOUR < 2 * slack < HOUR && BlockIs(b, m, start, f, u)
    ensures Index(b.from, start + k * HOUR + slack) <= i < Index(b.until, start + k * HOUR + slack) <==> f <= i + k < u
  {
    IndexOfHour(start, f, k, slack);
    IndexOfHour(start, u, k, slack);
  }

  lemma {:induction false} CoveredNext(bounds: seq<(nat, nat)>, h: nat)
    requires bounds != []
    ensures var n := |bounds| - 1; Covered(bounds, h) <==> Covered(bounds[..n], h) || bounds[n].0 <= h < bounds[n].1
  {
    var n := |bounds| - 1;
    if Covered(bounds[..n], h) {
      var b :| 0 <= b < n && bounds[..n][b].0 <= h < bounds[..n][b].1;
      assert bounds[b].0 <= h < bounds[b].1;
    }
    if Covered(bounds, h) {
      var b :| 0 <= b < |bounds| && bounds[b].0 <= h < bounds[b].1;
      if b < n { assert bounds[..n][b].0 <= h < bounds[..n][b].1; }
    }
  }

  lemma {:induction false} ReadCommandBack(
    bounds: seq<(nat, nat)>, blocks: seq<Block>, m: Model, start: int, k: int, slack: int, i: int)
    requires -HOUR < 2 * slack < HOUR && |bounds| == |blocks|
    requires forall b :: 0 <= b < |blocks| ==> BlockIs(blocks[b], m, start, bounds[b].0, bounds[b].1)
    ensures var h := i + k;
            ReadCommand(blocks, start + k * HOUR + slack, i)
            == if h >= 0 && Covered(bounds, h) then CommandAt(m, h) else None
  {
    if blocks != [] {
      var n := |blocks| - 1;
      ReadCommandBack(bounds[..n], blocks[..n], m, start, k, slack, i);
      assert BlockIs(blocks[n], m, start, bounds[n].0, bounds[n].1);
      BlockHours(blocks[n], m, start, bounds[n].0, bounds[n].1, k, slack, i);
      if i + k >= 0 { CoveredNext(bounds, i + k); }
    }
  }

  /** What StoredFromModel ensures of the plan it stores. */
  ghost predicate StoredAs(s: Stored, bounds: seq<(nat, nat)>, m: Model, start: int) {
    s.cfg == m.cfg && s.loads == StoredLoads(m.loads, start) && Runs(bounds, s.blocks, m, start, |m.commands|)
  }

  ghost predicate IsStored(s: Stored, m: Model, start: int) {
    exists bounds :: StoredAs(s, bounds, m, start)
  }

  /** What ModelFromStored ensures of the model it reads. */
  predicate IsRead(r: Model, s: Stored, start: int, n: nat) {
    && |r.loads| == n && |r.commands| == n && r.cfg == s.cfg
    && (forall i :: 0 <= i < n ==> r.loads[i] == ReadLoad(s.loads, start, i))
    && (forall i :: 0 <= i < n ==> r.commands[i] == ReadCommand(s.blocks, start, i))
  }

  /** The runs cover the manual hours and no others. */
  lemma {:induction false} ManualHoursCovered(bounds: seq<(nat, nat)>, blocks: seq<Block>, m: Model, start: int, h: nat)
    requires Runs(bounds, blocks, m, start, |m.commands|)
    ensures Covered(bounds, h) <==> h < |m.commands| && Manual(m.commands[h])
  {
    if Covered(bounds, h) {
      var b :| 0 <= b < |bounds| && bounds[b].0 <= h < bounds[b].1;
      assert BlockIs(blocks[b], m, start, bounds[b].0, bounds[b].1);
    }
  }

  /** An hour lies in a stored block exactly when it has a manual command, and then the
      block carries that command. */
  lemma BlocksAreManualHours(s: Stored, m: Model, start: int, h: nat)
    requires IsStored(s, m, start)
    ensures (exists b :: 0 <= b < |s.blocks| && InBlock(s.blocks[b], start + h * HOUR))
            <==> h < |m.commands| && Manual(m.commands[h])
    ensures forall b :: 0 <= b < |s.blocks| && InBlock(s.blocks[b], start + h * HOUR) ==>
              h < |m.commands| && m.commands[h] == Some(s.blocks[b].command)
  {
    var bounds: seq<(nat, nat)> :| StoredAs(s, bounds, m, start);
    forall b | 0 <= b < |s.blocks| ensures InBlock(s.blocks[b], start + h * HOUR) <==> bounds[b].0 <= h < bounds[b].1 {
      assert BlockIs(s.blocks[b], m, start, bounds[b].0, bounds[b].1);
    }
    ManualHoursCovered(bounds, s.blocks, m, start, h);
    if Covered(bounds, h) {
      var b :| 0 <= b < |bounds| && bounds[b].0 <= h < bounds[b].1;
      assert InBlock(s.blocks[b], start + h * HOUR);
    }
  }

  predicate InBlock(b: Block, t: int) {
    b.from <= t < b.until
  }

  lemma {:induction false} ShiftedCommand(
    m: Model, s: Stored, bounds: seq<(nat, nat)>, start: int, k: int, slack: int, i: nat)
    requires -HOUR < 2 * slack < HOUR
    requires StoredAs(s, bounds, m, start)
    ensures ReadCommand(s.blocks, start + k * HOUR + slack, i) == CommandAt(m, i + k)
  {
    ReadCommandBack(bounds, s.blocks, m, start, k, slack, i);
    if i + k >= 0 { ManualHoursCovered(bounds, s.blocks, m, start, i + k); }
  }

  lemma {:induction false} ShiftedLoad(m: Model, r: Model, s: Stored, start: int, k: int, slack: int, n: nat, i: nat)
    requires -HOUR < 2 * slack < HOUR && i < n
    requires IsStored(s, m, start) && IsRead(r, s, start + k * HOUR + slack, n)
    ensures r.loads[i] == Shift(m, k, n).loads[i]
  {
    ReadLoadBack(m.loads, start, k, slack, i);
    assert Shift(m, k, n).loads[i] == LoadAt(m, i + k);
  }

  lemma {:induction false} CommandRead(m: Model, r: Model, s: Stored, start: int, k: int, slack: int, n: nat, i: nat)
    requires i < n && IsRead(r, s, start + k * HOUR + slack, n)
    requires ReadCommand(s.blocks, start + k * HOUR + slack, i) == CommandAt(m, i + k)
    ensures r.commands[i] == Shift(m, k, n).commands[i]
  {
    assert Shift(m, k, n).commands[i] == CommandAt(m, i + k);
  }

  /** The round trip: a plan stored at hour `start` and read `k` whole hours later
      (or earlier), by a clock off by less than half an hour, is the plan shifted
      by `k`: hours gone are dropped, AUTO reads as no command, the tail is empty. */
  lemma StoreReadIsShift(
    m: Model, s: Stored, r: Model, start: int, k: int, slack: int, n: nat)
    requires -HOUR < 2 * slack < HOUR
    requires IsStored(s, m, start) && IsRead(r, s, start + k * HOUR + slack, n)
    ensures r == Shift(m, k, n)
  {
    var bounds: seq<(nat, nat)> :| StoredAs(s, bounds, m, start);
    var shifted := Shift(m, k, n);
    forall i | 0 <= i < n ensures r.loads[i] == shifted.loads[i] {
      ShiftedLoad(m, r, s, start, k, slack, n, i);
    }
    forall i | 0 <= i < n ensures r.commands[i] == shifted.commands[i] {
      ShiftedCommand(m, s, bounds, start, k, slack, i);
      CommandRead(m, r, s, start, k, slack, n, i);
    }
  }

  /** Storing what was read and reading it later again adds the shifts up. */
  lemma RestoringComposes(
    m: Model, s: Stored, r: Model, s2: Stored, r2: Model, start: int, k: nat, l: nat, n: nat)
    requires |m.loads| <= n && |m.commands| <= n
    requires IsStored(s, m, start) && IsRead(r, s, start + k * HOUR, n)
    requires IsStored(s2, r, start + k * HOUR) && IsRead(r2, s2, start + k * HOUR + l * HOUR, n)
    ensures r2 == Shift(m, k + l, n)
  {
    StoreReadIsShift(m, s, r, start, k, 0, n);
    StoreReadIsShift(r, s2, r2, start + k * HOUR, l, 0, n);
    ShiftsCompose(m, k, l, n);
  }

  // --------------------------------------------------------------------- draft

  /** A draft as the client sends it; no start hour means the current one. */
  datatype Draft = Draft(startHour: Option<int>, model: Model)

  function DraftShift(d: Draft, start: int): int {
    if d.startHour.Some? then RoundHours(start - d.startHour.value) else 0
  }

  /** The draft aligned to the server's hour; none if it starts in the future. */
  method AlignDraft(d: Draft, start: int) returns (m: Option<Model>)
    ensures m == if DraftShift(d, start) < 0 then None else Some(Shift(d.model, DraftShift(d, start), FUTURE_HOURS))
    ensures m.None? <==> d.startHour.Some? && 2 * (d.startHour.value - start) >= HOUR
    ensures d.startHour.None? || d.startHour.value == start ==> m == Some(Shift(d.model, 0, FUTURE_HOURS))
  {
    var shift := 0;
    if d.startHour.Some? { shift := RoundHours(start - d.startHour.value); }
    if shift < 0 { return None; }
    var loads := new Option<real>[FUTURE_HOURS](_ => None);
    var commands := new Option<Command>[FUTURE_HOURS](_ => None);
    for i := 0 to FUTURE_HOURS
      invariant forall h :: 0 <= h < i ==> loads[h] == LoadAt(d.model, h + shift)
      invariant forall h :: 0 <= h < i ==> commands[h] == CommandAt(d.model, h + shift)
      invariant forall h :: i <= h < FUTURE_HOURS ==> loads[h] == None && commands[h] == None
    {
      var src := i + shift;
      if src < |d.model.loads| { loads[i] := d.model.loads[src]; }
      if src < |d.model.commands| {
        var c := d.model.commands[src];
        if c != None && c.value.kind != Auto { commands[i] := c; }
      }
    }
    var r := Model(loads[..], commands[..], d.model.cfg);
    assert r.loads == Shift(d.model, shift, FUTURE_HOURS).loads;
    assert r.commands == Shift(d.model, shift, FUTURE_HOURS).commands;
    m := Some(r);
  }

  /** The two alignments agree: a draft aligned directly is what storing it at its
      own start hour and reading it at the server's hour gives. */
  lemma DraftAgreesWithStored(
    d: Draft, start: int, s: Stored, r: Model, k: nat, slack: int)
    requires -HOUR < 2 * slack < HOUR && d.startHour.Some? && start == d.startHour.value + k * HOUR + slack
    requires IsStored(s, d.model, d.startHour.value) && IsRead(r, s, start, FUTURE_HOURS)
    ensures DraftShift(d, start) == k && r == Shift(d.model, DraftShift(d, start), FUTURE_HOURS)
  {
    RoundsTo(k, slack);
    StoreReadIsShift(d.model, s, r, d.startHour.value, k, slack, FUTURE_HOURS);
  }
}
