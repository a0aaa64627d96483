/**
  The assistant-settings cache (internal/api/chat_handlers.go,
  internal/api/ai_settings.go): liveAssistant reads the settings and the key in
  two separate store calls, any number of readers and savers run at once, and
  the revision guard keeps a torn or replaced pair out of the cache.
*/
module AssistantCache {
  import opened Wrappers
  import opened RevisionGuard

  const SETTINGS_TTL := 30 // seconds
  const DEFAULT_DAILY_LIMIT := 100

  datatype Settings = Settings(
    enabled: bool, model: string, baseUrl: string, effort: string, dailyLimit: int, followUps: bool)

  /** The single row of ai_settings, absent until the first save. */
  datatype Row = Row(settings: Settings, apiKey: string)

  /** The model client of the saved settings under one key. */
  datatype Client = Client(apiKey: string, model: string, baseUrl: string, effort: string)

  datatype Live = Live(settings: Settings, client: Option<Client>)

  function Normalized(s: Settings): Settings {
    if s.dailyLimit <= 0 then s.(dailyLimit := DEFAULT_DAILY_LIMIT) else s
  }

  function ReadSettings(row: Option<Row>): Settings {
    Normalized(if row.Some? then row.value.settings else Settings(false, "", "", "", 0, false))
  }

  /** Whether the settings call for a second read, of the key. */
  predicate NeedsKey(row: Option<Row>) {
    row.Some? && row.value.apiKey != "" && ReadSettings(row).enabled && ReadSettings(row).model != ""
  }

  function Build(row: Option<Row>, later: Option<Row>): Live {
    var s := ReadSettings(row);
    if NeedsKey(row) && later.Some? && later.value.apiKey != ""
    then Live(s, Some(Client(later.value.apiKey, s.model, s.baseUrl, s.effort)))
    else Live(s, None)
  }

  /** A nil key keeps the stored one. */
  function Upsert(row: Option<Row>, s: Settings, apiKey: Option<string>): Option<Row> {
    Some(Row(s, if apiKey.Some? then apiKey.value else if row.Some? then row.value.apiKey else ""))
  }

  // ---------------------------------------------------------------- protocol

  /** What is cached, when, and which writes its two reads followed. */
  datatype CachedLive = CachedLive(live: Live, settingsAt: nat, keyAt: nat)
  type Entry = Stamped<(), CachedLive>

  /** `asOf` is the last settled write when the reader began (bookkeeping). */
  datatype Op =
    | Reader(asOf: nat, pc: ReaderPc)
    | Saver(at: nat, finished: bool)

  datatype ReaderPc =
    | Begun
    | Looked(flight: Flight)
    | SettingsRead(flight: Flight, row: Option<Row>, settingsAt: nat)
    | Built(flight: Flight, entry: Entry)
    | Returned(entry: Entry)
    | Failed

  /** `settledAt` is the last write when the cache was last forgotten (bookkeeping). */
  datatype State = State(
    clock: int, log: seq<Option<Row>>, cache: Cache<(), (), CachedLive>, liveAt: int, settledAt: nat, ops: seq<Op>)
  {
    predicate WellFormed() { log != [] }
    function Writes(): nat requires WellFormed() { |log| - 1 }
    function Stored(): Option<Row> requires WellFormed() { log[|log| - 1] }
  }

  datatype Step =
    | Tick(to: int)
    | Save(s: Settings, apiKey: Option<string>)
    | FinishSave(i: nat)
    | BeginRead
    | ReadStep(i: nat, fault: bool)

  predicate Enabled(s: State, step: Step) {
    match step
    case Tick(to) => s.clock <= to
    case Save(_, _) => true
    case FinishSave(i) => i < |s.ops| && s.ops[i].Saver? && !s.ops[i].finished
    case BeginRead => true
    case ReadStep(i, _) => i < |s.ops| && s.ops[i].Reader? && !s.ops[i].pc.Returned? && !s.ops[i].pc.Failed?
  }

  function SetPc(s: State, i: nat, pc: ReaderPc): State
    requires i < |s.ops| && s.ops[i].Reader?
  {
    s.(ops := s.ops[i := s.ops[i].(pc := pc)])
  }

  function Apply(s: State, step: Step): (s': State)
    requires s.WellFormed() && Enabled(s, step)
    ensures s'.WellFormed()
  {
    match step
    case Tick(to) => s.(clock := to)
    // putAISettings: the upsert commits ...
    case Save(settings, apiKey) =>
      s.(log := s.log + [Upsert(s.Stored(), settings, apiKey)], ops := s.ops + [Saver(|s.log|, false)])
    // ... and only then is the cache forgotten.
    case FinishSave(i) =>
      s.(cache := ForgetOwner(s.cache, ()), settledAt := s.Writes(), ops := s.ops[i := s.ops[i].(finished := true)])
    case BeginRead => s.(ops := s.ops + [Reader(s.settledAt, Begun)])
    case ReadStep(i, fault) =>
      match s.ops[i].pc
      case Begun =>
        if () in s.cache.entries && s.clock - s.liveAt < SETTINGS_TTL
        then SetPc(s, i, Returned(s.cache.entries[()]))
        else SetPc(s, i, Looked(Miss(s.cache, s.Writes())))
      case Looked(f) =>
        SetPc(s, i, if fault then Failed else SettingsRead(f, s.Stored(), s.Writes()))
      case SettingsRead(f, row, settingsAt) =>
        if fault && NeedsKey(row) then SetPc(s, i, Failed)
        else SetPc(s, i, Built(f, Stamped((), f.since, CachedLive(Build(row, s.Stored()), settingsAt, s.Writes()))))
      case Built(f, e) =>
        SetPc(s, i, Returned(e)).(
          cache := Publish(s.cache, f, (), e),
          liveAt := if s.cache.revision == f.revision then s.clock else s.liveAt)
      case Returned(_) => s
      case Failed => s
  }

  predicate AllEnabled(s: State, steps: seq<Step>)
    requires s.WellFormed()
    decreases |steps|
  {
    steps == [] || (Enabled(s, steps[0]) && AllEnabled(Apply(s, steps[0]), steps[1..]))
  }

  function Run(s: State, steps: seq<Step>): (s': State)
    requires s.WellFormed() && AllEnabled(s, steps)
    ensures s'.WellFormed()
    decreases |steps|
  {
    if steps == [] then s else Run(Apply(s, steps[0]), steps[1..])
  }

  predicate Initial(s: State) {
    |s.log| == 1 && s.cache == Cache(0, map[]) && s.settledAt == 0 && s.ops == []
  }

  // --------------------------------------------------------------- invariant

  predicate Genuine(log: seq<Option<Row>>, e: Entry) {
    && e.since <= e.value.settingsAt <= e.value.keyAt < |log|
    && e.value.live == Build(log[e.value.settingsAt], log[e.value.keyAt])
  }

  predicate OpOk(s: State, op: Op) {
    match op
    case Saver(at, finished) => at < |s.log| && (finished ==> at <= s.settledAt)
    case Reader(asOf, pc) =>
      && asOf <= s.settledAt
      && match pc
         case Begun => true
         case Looked(f) => Harmless(s.cache, f, s.settledAt) && asOf <= f.since < |s.log|
         case SettingsRead(f, row, settingsAt) =>
           && Harmless(s.cache, f, s.settledAt) && asOf <= f.since <= settingsAt < |s.log|
           && row == s.log[settingsAt]
         case Built(f, e) =>
           Harmless(s.cache, f, s.settledAt) && asOf <= f.since <= e.since && Genuine(s.log, e)
         case Returned(e) => asOf <= e.since && Genuine(s.log, e)
         case Failed => true
  }

  /** Write `j` is one whose saver has not forgotten the cache yet. */
  ghost predicate BeingSaved(s: State, j: nat) {
    exists i :: 0 <= i < |s.ops| && s.ops[i] == Saver(j, false)
  }

  ghost function Current(s: State): Stamped<(), CachedLive> -> bool {
    (e: Entry) => s.settledAt <= e.since
  }

  lemma CurrentTolerates(s: State)
    ensures Tolerates(Current(s), (), s.settledAt)
  {
    forall e: Entry | e.owner != () || s.settledAt <= e.since ensures Current(s)(e) { assert e.owner == (); }
  }

  ghost predicate Inv(s: State) {
    && s.WellFormed() && s.settledAt < |s.log|
    && Settled(s.cache, Current(s))
    && (forall k :: k in s.cache.entries ==> Genuine(s.log, s.cache.entries[k]))
    && (forall i :: 0 <= i < |s.ops| ==> OpOk(s, s.ops[i]))
    && (forall j: nat :: s.settledAt < j < |s.log| ==> BeingSaved(s, j))
  }

  lemma SaveKeepsInv(s: State, settings: Settings, apiKey: Option<string>)
    requires Inv(s)
    ensures Inv(Apply(s, Save(settings, apiKey)))
  {
    var t := Apply(s, Save(settings, apiKey));
    forall j | 0 <= j < |s.log| ensures t.log[j] == s.log[j] {}
    forall j: nat | t.settledAt < j < |t.log| ensures BeingSaved(t, j) {
      if j < |s.log| {
        assert BeingSaved(s, j);
        var i :| 0 <= i < |s.ops| && s.ops[i] == Saver(j, false);
        assert t.ops[i] == Saver(j, false);
      } else {
        assert t.ops[|s.ops|] == Saver(j, false);
      }
    }
    forall i | 0 <= i < |t.ops| ensures OpOk(t, t.ops[i]) {
      if i < |s.ops| { assert OpOk(s, s.ops[i]); }
    }
  }

  lemma FinishKeepsInv(s: State, i: nat)
    requires Inv(s) && Enabled(s, FinishSave(i))
    ensures Inv(Apply(s, FinishSave(i)))
  {
    var t := Apply(s, FinishSave(i));
    CurrentTolerates(t);
    ForgetOwnerSettles(s.cache, (), t.settledAt, Current(t), []);
    forall k | 0 <= k < |t.ops| ensures OpOk(t, t.ops[k]) { assert OpOk(s, s.ops[k]); }
  }

  lemma ReadKeepsCache(s: State, i: nat, fault: bool)
    requires Inv(s) && Enabled(s, ReadStep(i, fault))
    ensures var t := Apply(s, ReadStep(i, fault));
            && t.cache.revision == s.cache.revision && Settled(t.cache, Current(t))
            && (forall k :: k in t.cache.entries ==> Genuine(t.log, t.cache.entries[k]))
  {
    if s.ops[i].pc.Built? {
      assert OpOk(s, s.ops[i]);
      CurrentTolerates(s);
      PublishKeepsSettled(s.cache, s.ops[i].pc.flight, (), s.ops[i].pc.entry, (), s.settledAt, Current(s));
    }
  }

  lemma ReadKeepsOp(s: State, i: nat, fault: bool)
    requires Inv(s) && Enabled(s, ReadStep(i, fault))
    ensures OpOk(Apply(s, ReadStep(i, fault)), Apply(s, ReadStep(i, fault)).ops[i])
  {
    ReadKeepsCache(s, i, fault);
    assert OpOk(s, s.ops[i]);
    if s.ops[i].pc.Begun? && () in s.cache.entries { assert Current(s)(s.cache.entries[()]); }
  }

  /** A read step touches its own operation and, when it publishes, the cache. */
  lemma ReadFrame(s: State, i: nat, fault: bool)
    requires s.WellFormed() && Enabled(s, ReadStep(i, fault))
    ensures var t := Apply(s, ReadStep(i, fault));
            && t.log == s.log && t.settledAt == s.settledAt && |t.ops| == |s.ops|
            && t.ops[i].Reader? && t.ops == s.ops[i := t.ops[i]]
  {
  }

  lemma FrameKeepsInv(s: State, t: State, i: nat)
    requires Inv(s) && t.log == s.log && t.settledAt == s.settledAt && t.cache.revision == s.cache.revision
    requires i < |s.ops| && s.ops[i].Reader? && |t.ops| == |s.ops| && t.ops[i].Reader? && t.ops == s.ops[i := t.ops[i]]
    requires OpOk(t, t.ops[i]) && Settled(t.cache, Current(t))
    requires forall k :: k in t.cache.entries ==> Genuine(t.log, t.cache.entries[k])
    ensures Inv(t)
  {
    forall k | 0 <= k < |t.ops| ensures OpOk(t, t.ops[k]) {
      if k != i { assert OpOk(s, s.ops[k]); }
    }
    forall j: nat | t.settledAt < j < |t.log| ensures BeingSaved(t, j) {
      assert BeingSaved(s, j);
      var k :| 0 <= k < |s.ops| && s.ops[k] == Saver(j, false);
      assert t.ops[k] == Saver(j, false);
    }
  }

  lemma ReadKeepsInv(s: State, i: nat, fault: bool)
    requires Inv(s) && Enabled(s, ReadStep(i, fault))
    ensures Inv(Apply(s, ReadStep(i, fault)))
  {
    ReadFrame(s, i, fault);
    ReadKeepsCache(s, i, fault);
    ReadKeepsOp(s, i, fault);
    FrameKeepsInv(s, Apply(s, ReadStep(i, fault)), i);
  }

  lemma InvStep(s: State, step: Step)
    requires Inv(s) && Enabled(s, step)
    ensures Inv(Apply(s, step))
  {
    match step
    case Save(settings, apiKey) => SaveKeepsInv(s, settings, apiKey);
    case FinishSave(i) => FinishKeepsInv(s, i);
    case ReadStep(i, fault) => ReadKeepsInv(s, i, fault);
    case _ =>
      var t := Apply(s, step);
      forall k | 0 <= k < |t.ops| ensures OpOk(t, t.ops[k]) { if k < |s.ops| { assert OpOk(s, s.ops[k]); } }
      forall j: nat | t.settledAt < j < |t.log| ensures BeingSaved(t, j) {
        assert BeingSaved(s, j);
        var k :| 0 <= k < |s.ops| && s.ops[k] == Saver(j, false);
        assert t.ops[k] == Saver(j, false);
      }
  }

  lemma {:induction false} InvRun(s: State, steps: seq<Step>)
    requires Inv(s) && AllEnabled(s, steps)
    ensures Inv(Run(s, steps))
    decreases |steps|
  {
    if steps != [] {
      InvStep(s, steps[0]);
      InvRun(Apply(s, steps[0]), steps[1..]);
    }
  }

  // ------------------------------------------------------------------ results

  predicate NoSaveHalfDone(s: State) {
    forall i :: 0 <= i < |s.ops| && s.ops[i].Saver? ==> s.ops[i].finished
  }

  /** Whenever no save lies between its upsert and its forget, what is cached is
      what the stored settings and key define now, though it was read in two steps. */
  lemma CachedIsCurrent(s0: State, steps: seq<Step>)
    requires Initial(s0) && AllEnabled(s0, steps) && NoSaveHalfDone(Run(s0, steps))
    ensures var s := Run(s0, steps);
            () in s.cache.entries ==>
              var live := s.cache.entries[()].value.live;
              live == Build(s.Stored(), s.Stored()) && AsStored(live, s.Stored())
  {
    InvRun(s0, steps);
    QuietIsCurrent(Run(s0, steps));
    BuiltAsStored(Run(s0, steps).Stored());
  }

  /** The assistant one row defines: on exactly when it is enabled with a model and a key, under
      that key, model, address and effort, and with the saved settings otherwise; an
      assistant never saved is off, and a limit that is not positive is the default. */
  predicate AsStored(live: Live, row: Option<Row>) {
    && (row.Some? ==>
          var s := row.value.settings;
          && live.settings.enabled == s.enabled && live.settings.model == s.model
          && live.settings.baseUrl == s.baseUrl && live.settings.effort == s.effort
          && live.settings.followUps == s.followUps
          && live.settings.dailyLimit == (if s.dailyLimit > 0 then s.dailyLimit else 100))
    && (row.None? ==> !live.settings.enabled && live.settings.dailyLimit == 100)
    && (live.client.Some? <==>
          row.Some? && row.value.settings.enabled && row.value.settings.model != "" && row.value.apiKey != "")
    && (live.client.Some? ==>
          var c := live.client.value;
          && c.apiKey == row.value.apiKey && c.model == row.value.settings.model
          && c.baseUrl == row.value.settings.baseUrl && c.effort == row.value.settings.effort)
  }

  lemma BuiltAsStored(row: Option<Row>)
    ensures AsStored(Build(row, row), row)
  {
  }

  lemma QuietIsCurrent(s: State)
    requires Inv(s) && NoSaveHalfDone(s)
    ensures () in s.cache.entries ==> s.cache.entries[()].value.live == Build(s.Stored(), s.Stored())
  {
    assert !BeingSaved(s, s.Writes());
    if () in s.cache.entries { assert Current(s)(s.cache.entries[()]); }
  }

  /** A turn that starts after a save has finished runs on settings and a key
      read at or after that save. */
  lemma TurnsSeeFinishedSaves(s0: State, steps: seq<Step>, later: seq<Step>, w: nat, i: nat)
    requires Initial(s0) && AllEnabled(s0, steps) && AllEnabled(Run(s0, steps), later)
    requires var s, t := Run(s0, steps), Run(Run(s0, steps), later);
             && w < |s.ops| && s.ops[w].Saver? && s.ops[w].finished
             && |s.ops| <= i < |t.ops| && t.ops[i].Reader? && t.ops[i].pc.Returned?
    ensures var s, t := Run(s0, steps), Run(Run(s0, steps), later);
            var e := t.ops[i].pc.entry;
            s.ops[w].at <= e.value.settingsAt <= e.value.keyAt && Genuine(t.log, e)
  {
    InvRun(s0, steps);
    var s := Run(s0, steps);
    assert OpOk(s, s.ops[w]);
    InvRun(s, later);
    LaterReaders(s, later, i);
    var t := Run(s, later);
    assert OpOk(t, t.ops[i]);
  }

  lemma {:induction false} LaterReaders(s: State, steps: seq<Step>, i: nat)
    requires Inv(s) && AllEnabled(s, steps)
    requires i < |Run(s, steps).ops|
    ensures i < |s.ops| ==> (s.ops[i].Reader? == Run(s, steps).ops[i].Reader?
                             && (s.ops[i].Reader? ==> Run(s, steps).ops[i].asOf == s.ops[i].asOf))
    ensures |s.ops| <= i && Run(s, steps).ops[i].Reader? ==> s.settledAt <= Run(s, steps).ops[i].asOf
    decreases |steps|
  {
    if steps != [] {
      InvStep(s, steps[0]);
      var t := Apply(s, steps[0]);
      if steps[0].FinishSave? || steps[0].ReadStep? { assert OpOk(s, s.ops[steps[0].i]); }
      LaterReaders(t, steps[1..], i);
    }
  }

  // -------------------------------------------------------------- what is stored

  lemma RunCons(s: State, step: Step, rest: seq<Step>)
    requires s.WellFormed() && Enabled(s, step) && AllEnabled(Apply(s, step), rest)
    ensures AllEnabled(s, [step] + rest) && Run(s, [step] + rest) == Run(Apply(s, step), rest)
  {
    assert ([step] + rest)[1..] == rest;
  }

  lemma {:induction false} RunInTwo(s: State, steps: seq<Step>, k: nat)
    requires s.WellFormed() && AllEnabled(s, steps) && k <= |steps|
    ensures AllEnabled(s, steps[..k]) && AllEnabled(Run(s, steps[..k]), steps[k..])
    ensures Run(s, steps) == Run(Run(s, steps[..k]), steps[k..])
    decreases |steps|
  {
    if k > 0 {
      var t, rest := Apply(s, steps[0]), steps[1..];
      RunInTwo(t, rest, k - 1);
      RunCons(s, steps[0], rest[..k - 1]);
      assert steps[..k] == [steps[0]] + rest[..k - 1] && steps[k..] == rest[k - 1..];
    } else {
      assert steps[k..] == steps;
    }
  }

  function KeyOf(row: Option<Row>): string {
    if row.Some? then row.value.apiKey else ""
  }

  predicate SavesKey(step: Step) { step.Save? && step.apiKey.Some? }

  lemma {:induction false} KeyStays(s: State, steps: seq<Step>)
    requires s.WellFormed() && AllEnabled(s, steps) && forall i :: 0 <= i < |steps| ==> !SavesKey(steps[i])
    ensures KeyOf(Run(s, steps).Stored()) == KeyOf(s.Stored())
    ensures s.Stored().Some? ==> Run(s, steps).Stored().Some?
    decreases |steps|
  {
    if steps != [] { KeyStays(Apply(s, steps[0]), steps[1..]); }
  }

  lemma {:induction false} RowStays(s: State, steps: seq<Step>)
    requires s.WellFormed() && AllEnabled(s, steps) && forall i :: 0 <= i < |steps| ==> !steps[i].Save?
    ensures Run(s, steps).Stored() == s.Stored()
    decreases |steps|
  {
    if steps != [] { RowStays(Apply(s, steps[0]), steps[1..]); }
  }

  /** After any run the stored settings are those of the last save. */
  lemma LastSaveIsStored(s: State, steps: seq<Step>, k: nat)
    requires s.WellFormed() && AllEnabled(s, steps) && k < |steps| && steps[k].Save?
    requires forall i :: k < i < |steps| ==> !steps[i].Save?
    ensures Run(s, steps).Stored().Some? && Run(s, steps).Stored().value.settings == steps[k].s
  {
    RunInTwo(s, steps, k + 1);
    RunInTwo(s, steps[..k + 1], k);
    assert steps[..k + 1][..k] == steps[..k] && steps[..k + 1][k..] == [steps[k]];
    assert [steps[k]][1..] == [];
    RowStays(Run(s, steps[..k + 1]), steps[k + 1..]);
  }

  /** The stored key is the last one a save brought: saves without one keep it. */
  lemma LastKeyIsStored(s: State, steps: seq<Step>, k: nat)
    requires s.WellFormed() && AllEnabled(s, steps) && k < |steps| && SavesKey(steps[k])
    requires forall i :: k < i < |steps| ==> !SavesKey(steps[i])
    ensures KeyOf(Run(s, steps).Stored()) == steps[k].apiKey.value
  {
    RunInTwo(s, steps, k + 1);
    RunInTwo(s, steps[..k + 1], k);
    assert steps[..k + 1][..k] == steps[..k] && steps[..k + 1][k..] == [steps[k]];
    assert [steps[k]][1..] == [];
    KeyStays(Run(s, steps[..k + 1]), steps[k + 1..]);
  }

  // ------------------------------------------------------------------------- age

  /** No reader publishes anything along the way. */
  predicate NothingPublished(s: State, steps: seq<Step>)
    requires s.WellFormed() && AllEnabled(s, steps)
    decreases |steps|
  {
    steps == [] || (!(steps[0].ReadStep? && s.ops[steps[0].i].pc.Built?)
                    && NothingPublished(Apply(s, steps[0]), steps[1..]))
  }

  lemma {:induction false} StampStays(s: State, steps: seq<Step>)
    requires s.WellFormed() && AllEnabled(s, steps) && NothingPublished(s, steps)
    ensures Run(s, steps).liveAt == s.liveAt
    decreases |steps|
  {
    if steps != [] { StampStays(Apply(s, steps[0]), steps[1..]); }
  }

  /** Half a minute after it was published the cached assistant is read from the store again,
      so that settings saved elsewhere are taken up. */
  lemma OldIsReadAgain(s: State, steps: seq<Step>, i: nat)
    requires s.WellFormed() && AllEnabled(s, steps) && NothingPublished(s, steps)
    requires Run(s, steps).clock >= s.liveAt + 30
    requires Enabled(Run(s, steps), ReadStep(i, false)) && Run(s, steps).ops[i].pc.Begun?
    ensures Apply(Run(s, steps), ReadStep(i, false)).ops[i].pc.Looked?
  {
    StampStays(s, steps);
  }

  // ------------------------------------------------------------------ by itself

  function Reads(i: nat): seq<Step> {
    var step := ReadStep(i, false);
    [step, step, step, step]
  }

  /** A reader that finds nothing cached and is left alone. */
  lemma ReadsAlone(s: State, i: nat) returns (t: State)
    requires s.WellFormed() && i < |s.ops| && s.ops[i].Reader? && s.ops[i].pc.Begun?
    requires () !in s.cache.entries
    ensures var steps := Reads(i); AllEnabled(s, steps) && t == Run(s, steps)
    ensures i < |t.ops| == |s.ops| && t.ops[i].Reader? && t.ops[i].pc.Returned?
    ensures t.ops[i].pc.entry.value.live == Build(s.Stored(), s.Stored())
    ensures () in t.cache.entries && t.cache.entries[()] == t.ops[i].pc.entry && t.liveAt == s.clock
  {
    var step := ReadStep(i, false);
    var looked := Apply(s, step);
    var read := Apply(looked, step);
    var built := Apply(read, step);
    t := Apply(built, step);
    RunCons(built, step, []);
    RunCons(read, step, [step] + []);
    RunCons(looked, step, [step] + ([step] + []));
    RunCons(s, step, [step] + ([step] + ([step] + [])));
    assert Reads(i) == [step] + ([step] + ([step] + ([step] + [])));
  }

  lemma SavesAlone(s: State, settings: Settings, apiKey: Option<string>) returns (t: State)
    requires s.WellFormed()
    ensures var steps := [Save(settings, apiKey), FinishSave(|s.ops|), BeginRead];
            AllEnabled(s, steps) && t == Run(s, steps)
    ensures t.ops == s.ops + [Saver(|s.log|, true), Reader(|s.log|, Begun)]
    ensures t.Stored() == Some(Row(settings, if apiKey.Some? then apiKey.value else KeyOf(s.Stored())))
    ensures () !in t.cache.entries
  {
    var save, finish := Save(settings, apiKey), FinishSave(|s.ops|);
    var saved := Apply(s, save);
    var finished := Apply(saved, finish);
    assert () in saved.cache.entries ==> saved.cache.entries[()].owner == ();
    t := Apply(finished, BeginRead);
    RunCons(finished, BeginRead, []);
    RunCons(saved, finish, [BeginRead] + []);
    RunCons(s, save, [finish] + ([BeginRead] + []));
    assert [save, finish, BeginRead] == [save] + ([finish] + ([BeginRead] + []));
  }

  /** What is saved is what the next turn gets: after a save that nothing interferes with, the
      next reader, by itself, is answered with the saved settings and key, and caches them. */
  lemma SavedIsServed(s: State, settings: Settings, apiKey: Option<string>) returns (t: State, u: State)
    requires s.WellFormed()
    ensures var steps := [Save(settings, apiKey), FinishSave(|s.ops|), BeginRead];
            AllEnabled(s, steps) && t == Run(s, steps)
    ensures t.ops == s.ops + [Saver(|s.log|, true), Reader(|s.log|, Begun)]
    ensures var steps := Reads(|s.ops| + 1); AllEnabled(t, steps) && u == Run(t, steps)
    ensures |u.ops| == |s.ops| + 2 && u.ops[|s.ops| + 1].Reader? && u.ops[|s.ops| + 1].pc.Returned?
    ensures t.Stored() == Some(Row(settings, if apiKey.Some? then apiKey.value else KeyOf(s.Stored())))
    ensures var live := u.ops[|s.ops| + 1].pc.entry.value.live;
            && AsStored(live, t.Stored())
            && () in u.cache.entries && u.cache.entries[()].value.live == live
  {
    t := SavesAlone(s, settings, apiKey);
    u := ReadsAlone(t, |s.ops| + 1);
    BuiltAsStored(t.Stored());
  }
}
