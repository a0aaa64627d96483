/** One pass of the watchdog (cmd/alert-watchdog/main.go, check), and the runs of
    the whole fleet it makes up. */
module AlertCheck {
  import opened Wrappers
  import opened AlertEvaluate
  import opened AlertBatches
  import opened AlertRuns

  type Rows = map<Key, State>

  function FailedEvents(batches: seq<Batch>, delivered: Batch -> bool): seq<Event> {
    if batches == [] then []
    else
      var b := batches[|batches| - 1];
      FailedEvents(batches[..|batches| - 1], delivered) + if delivered(b) then [] else b.events
  }

  /** What is stored after a pass that lost the mails about `failed`: the rows of
      the devices observed, over those of the others. */
  function Stored(prev: Rows, obs: seq<Observation>, now: int, th: Thresholds, failed: seq<Event>): Rows {
    prev + Reverted(DecideAll(obs, prev, now, th).1, prev, failed)
  }

  lemma RevertedTwice(states: Rows, prev: Rows, a: seq<Event>, b: seq<Event>)
    ensures Reverted(Reverted(states, prev, a), prev, b) == Reverted(states, prev, a + b)
  {
    forall k ensures Mentions(a + b, k) <==> Mentions(a, k) || Mentions(b, k) {
      if i :| 0 <= i < |a| && a[i].device.Key() == k { assert (a + b)[i].device.Key() == k; }
      if i :| 0 <= i < |b| && b[i].device.Key() == k { assert (a + b)[|a| + i].device.Key() == k; }
      if i :| 0 <= i < |a + b| && (a + b)[i].device.Key() == k {
        if i < |a| { assert a[i].device.Key() == k; } else { assert b[i - |a|].device.Key() == k; }
      }
    }
  }

  /** Sends the batches in turn and takes back the stamps of those not delivered. */
  method RevertUndelivered(res: Result, prev: Rows, batches: seq<Batch>, delivered: Batch -> bool)
    modifies res
    ensures res.states == Reverted(old(res.states), prev, FailedEvents(batches, delivered))
  {
    ghost var states := res.states;
    assert states == Reverted(states, prev, []);
    for i := 0 to |batches|
      invariant res.states == Reverted(states, prev, FailedEvents(batches[..i], delivered))
    {
      assert batches[..i + 1][..i] == batches[..i];
      if !delivered(batches[i]) {
        RevertedTwice(states, prev, FailedEvents(batches[..i], delivered), batches[i].events);
        res.RevertNotifications(prev, batches[i].events);
      } else {
        assert FailedEvents(batches[..i], delivered) + [] == FailedEvents(batches[..i], delivered);
      }
    }
    assert batches[..|batches|] == batches;
  }

  /** Evaluates, sends one mail per batch, takes back the stamps of the batches that were not
      delivered, and stores the rows. Nothing is stored, and nothing sent, when a probe fails
      or when mail is needed and no mailer can be set up; when the write itself fails the
      mails have gone out all the same. */
  method Check(obs: seq<Observation>, prev: Rows, now: int, th: Thresholds, recipientsFor: string -> seq<string>,
               probed: bool, mailerOk: bool, delivered: Batch -> bool, written: bool)
    returns (rows: Option<Rows>, batches: seq<Batch>, sent: bool)
    ensures !probed ==> rows == None && batches == [] && !sent
    ensures probed ==> Grouped(batches, DecideAll(obs, prev, now, th).0, recipientsFor)
    ensures probed ==> sent == (batches == [] || mailerOk)
    ensures probed ==>
              rows == if sent && written then Some(Stored(prev, obs, now, th, FailedEvents(batches, delivered)))
                               else None
  {
    if !probed { return None, [], false; }
    var res := new Result();
    res.Evaluate(obs, prev, now, th);
    batches := GroupByRecipients(res.events, recipientsFor);
    sent := |batches| == 0 || mailerOk;
    if !sent { return None, batches, sent; }
    RevertUndelivered(res, prev, batches, delivered);
    rows := if written then Some(prev + res.states) else None;
  }

  predicate Lost(b: Batch, delivered: Batch -> bool, e: Event) {
    !delivered(b) && e in b.events
  }

  ghost predicate SomeLost(batches: seq<Batch>, delivered: Batch -> bool, e: Event) {
    exists b :: 0 <= b < |batches| && Lost(batches[b], delivered, e)
  }

  lemma {:induction false} SomeLostNext(batches: seq<Batch>, delivered: Batch -> bool, e: Event)
    requires batches != []
    ensures var n := |batches| - 1;
            SomeLost(batches, delivered, e) <==> SomeLost(batches[..n], delivered, e) || Lost(batches[n], delivered, e)
  {
    var n := |batches| - 1;
    if SomeLost(batches[..n], delivered, e) {
      var b :| 0 <= b < n && Lost(batches[..n][b], delivered, e);
      assert Lost(batches[b], delivered, e);
    }
    if SomeLost(batches, delivered, e) {
      var b :| 0 <= b < |batches| && Lost(batches[b], delivered, e);
      if b < n { assert Lost(batches[..n][b], delivered, e); }
    }
  }

  lemma {:induction false} FailedAreOfFailedBatches(batches: seq<Batch>, delivered: Batch -> bool, e: Event)
    ensures e in FailedEvents(batches, delivered) <==> SomeLost(batches, delivered, e)
  {
    if batches != [] {
      FailedAreOfFailedBatches(batches[..|batches|-1], delivered, e);
      SomeLostNext(batches, delivered, e);
    }
  }

  /** A failed batch rolls back exactly its own events: an event's mail failed if and only if the
      event was deliverable and the batch of its key was not delivered. */
  lemma {:induction false} FailedExactlyOwnKey(
    batches: seq<Batch>, events: seq<Event>, recipientsFor: string -> seq<string>, delivered: Batch -> bool, e: Event)
    requires Grouped(batches, events, recipientsFor) && e in events
    ensures e in FailedEvents(batches, delivered)
            <==> Deliverable(recipientsFor, e) && !delivered(BatchOf(events, recipientsFor, e))
  {
    FailedAreOfFailedBatches(batches, delivered, e);
    if Deliverable(recipientsFor, e) {
      BatchHoldsExactly(batches, events, recipientsFor, e);
      var b :| 0 <= b < |batches| && batches[b] == BatchOf(events, recipientsFor, e);
      assert Lost(batches[b], delivered, e) == !delivered(batches[b]);
    } else {
      forall b | 0 <= b < |batches| ensures !Lost(batches[b], delivered, e) {
        assert BatchOk(batches[b], events, recipientsFor);
        if e in batches[b].events { SelectedAreEvents(events, recipientsFor, Join(batches[b].recipients), e); }
      }
    }
  }

  /** With addresses that hold no comma that batch is the one addressed to the event's own list. */
  lemma {:induction false} FailedExactlyOwnBatch(
    batches: seq<Batch>, events: seq<Event>, recipientsFor: string -> seq<string>, delivered: Batch -> bool, e: Event)
    requires Grouped(batches, events, recipientsFor) && CommaFreeFor(events, recipientsFor) && e in events
    ensures e in FailedEvents(batches, delivered)
            <==> Deliverable(recipientsFor, e)
                 && !delivered(Batch(AddressOf(recipientsFor, e),
                                     AddressedTo(events, recipientsFor, AddressOf(recipientsFor, e))))
  {
    FailedExactlyOwnKey(batches, events, recipientsFor, delivered, e);
    if Deliverable(recipientsFor, e) {
      BatchHoldsExactly(batches, events, recipientsFor, e);
      var b := BatchOf(events, recipientsFor, e);
      var i :| 0 <= i < |batches| && batches[i] == b;
      assert BatchOk(batches[i], events, recipientsFor);
      var j :| 0 <= j < |events| && events[j] == e;
      SelectedAreEvents(events, recipientsFor, Join(b.recipients), e);
      OwnKeyOwnList(b, events, recipientsFor, j);
      BatchListCommaFree(b, events, recipientsFor);
      SelectedIsAddressed(events, recipientsFor, b.recipients);
    }
  }

  // --------------------------------------------------------- fleet and device

  /** One stored pass over the fleet; `failed` are the events rolled back. */
  datatype FleetTick = FleetTick(obs: seq<Observation>, now: int, th: Thresholds, failed: seq<Event>)

  ghost predicate FailedWereEmitted(prev: Rows, t: FleetTick) {
    forall e :: e in t.failed ==> e in DecideAll(t.obs, prev, t.now, t.th).0
  }

  /** What a pass over the fleet sends and loses is what it decided: the tick it makes is one
      the theorems below speak of. */
  lemma {:induction false} PassIsTick(
    batches: seq<Batch>, obs: seq<Observation>, prev: Rows, now: int, th: Thresholds,
    recipientsFor: string -> seq<string>, delivered: Batch -> bool)
    requires Grouped(batches, DecideAll(obs, prev, now, th).0, recipientsFor)
    ensures var t := FleetTick(obs, now, th, FailedEvents(batches, delivered));
            FailedWereEmitted(prev, t)
              && FleetNext(prev, t) == Stored(prev, obs, now, th, FailedEvents(batches, delivered))
  {
    var events := DecideAll(obs, prev, now, th).0;
    forall e | e in FailedEvents(batches, delivered) ensures e in events {
      FailedAreOfFailedBatches(batches, delivered, e);
      var b :| 0 <= b < |batches| && Lost(batches[b], delivered, e);
      assert BatchOk(batches[b], events, recipientsFor);
      SelectedAreEvents(events, recipientsFor, Join(batches[b].recipients), e);
    }
  }

  function FleetNext(prev: Rows, t: FleetTick): Rows {
    Stored(prev, t.obs, t.now, t.th, t.failed)
  }

  predicate Observes(obs: seq<Observation>, k: Key) {
    exists i :: 0 <= i < |obs| && obs[i].device.Key() == k
  }

  function FindObservation(obs: seq<Observation>, k: Key): (i: nat)
    requires Observes(obs, k)
    ensures i < |obs| && obs[i].device.Key() == k
  {
    if obs[0].device.Key() == k then 0
    else
      var i :| 0 <= i < |obs| && obs[i].device.Key() == k;
      assert obs[1..][i - 1].device.Key() == k;
      1 + FindObservation(obs[1..], k)
  }

  function DeviceTick(t: FleetTick, k: Key): Tick
    requires Observes(t.obs, k)
  {
    var o := t.obs[FindObservation(t.obs, k)];
    Tick(t.now, o.lastSample, t.th, Mentions(t.failed, k))
  }

  /** A pass gives an observed device exactly the step of its own state machine,
      and leaves the row of any other device alone. */
  lemma DeviceSeesItsTick(prev: Rows, t: FleetTick, d: Device)
    requires DistinctDevices(t.obs) && FailedWereEmitted(prev, t)
    requires forall i :: 0 <= i < |t.obs| && t.obs[i].device.Key() == d.Key() ==> t.obs[i].device == d
    ensures var k := d.Key();
            Lookup(FleetNext(prev, t), k) ==
            if Observes(t.obs, k) then Some(Next(d, Lookup(prev, k), DeviceTick(t, k))) else Lookup(prev, k)
  {
    var k := d.Key();
    var states := DecideAll(t.obs, prev, t.now, t.th).1;
    RowsAreObserved(t.obs, prev, t.now, t.th, k);
    if Observes(t.obs, k) {
      var i := FindObservation(t.obs, k);
      assert t.obs[i] == Observation(d, t.obs[i].lastSample);
      RowIsOwnVerdict(t.obs, prev, t.now, t.th, i);
      if Mentions(t.failed, k) { MentionedHasEvent(prev, t, i); }
    }
  }

  /** After a pass over the fleet an observed device's row is down exactly when no sample of it
      was found or the last is older than `staleAfter`, whatever was mailed or lost. */
  lemma DownInFleetExactly(prev: Rows, t: FleetTick, i: nat)
    requires DistinctDevices(t.obs) && FailedWereEmitted(prev, t) && i < |t.obs|
    ensures var k, last := t.obs[i].device.Key(), t.obs[i].lastSample;
            && k in FleetNext(prev, t)
            && (FleetNext(prev, t)[k].status == Down <==> last == None || t.now - last.value > t.th.staleAfter)
  {
    var d := t.obs[i].device;
    assert Observes(t.obs, d.Key()) && FindObservation(t.obs, d.Key()) == i;
    DeviceSeesItsTick(prev, t, d);
    DownExactlyWhenStale(d, Lookup(prev, d.Key()), DeviceTick(t, d.Key()));
  }

  lemma MentionedHasEvent(prev: Rows, t: FleetTick, i: nat)
    requires DistinctDevices(t.obs) && FailedWereEmitted(prev, t) && i < |t.obs|
    requires Mentions(t.failed, t.obs[i].device.Key())
    ensures VerdictOn(t.obs, i, prev, t.now, t.th).0.Some?
  {
    var f :| 0 <= f < |t.failed| && t.failed[f].device.Key() == t.obs[i].device.Key();
    var e := t.failed[f];
    assert e in t.failed;
    EventsAreVerdicts(t.obs, prev, t.now, t.th, e);
    var j :| 0 <= j < |t.obs| && VerdictOn(t.obs, j, prev, t.now, t.th).0 == Some(e);
    EventDevice(t.obs[j], Lookup(prev, t.obs[j].device.Key()), t.now, t.th);
    assert j == i;
  }

  function FleetRun(rows: Rows, ticks: seq<FleetTick>): Rows {
    if ticks == [] then rows else FleetNext(FleetRun(rows, ticks[..|ticks| - 1]), ticks[|ticks| - 1])
  }

  /** The ticks of the fleet that observe a device, as the device sees them. */
  function Project(ticks: seq<FleetTick>, k: Key): seq<Tick> {
    if ticks == [] then []
    else
      var rest, t := Project(ticks[..|ticks| - 1], k), ticks[|ticks| - 1];
      if Observes(t.obs, k) then rest + [DeviceTick(t, k)] else rest
  }

  ghost predicate GoodRun(rows: Rows, ticks: seq<FleetTick>, d: Device) {
    forall i :: 0 <= i < |ticks| ==> GoodTick(FleetRun(rows, ticks[..i]), ticks[i], d)
  }

  ghost predicate GoodTick(prev: Rows, t: FleetTick, d: Device) {
    && DistinctDevices(t.obs) && FailedWereEmitted(prev, t)
    && (forall i :: 0 <= i < |t.obs| && t.obs[i].device.Key() == d.Key() ==> t.obs[i].device == d)
  }

  lemma {:induction false} RowOfPrefix(d: Device, first: Option<State>, ticks: seq<Tick>, more: seq<Tick>, i: nat)
    requires i <= |ticks|
    ensures Row(d, first, ticks + more, i) == Row(d, first, ticks, i)
  {
    if i > 0 {
      RowOfPrefix(d, first, ticks, more, i - 1);
      assert (ticks + more)[i - 1] == ticks[i - 1];
    }
  }

  lemma {:induction false} GoodPrefix(rows: Rows, ticks: seq<FleetTick>, d: Device)
    requires GoodRun(rows, ticks, d) && ticks != []
    ensures GoodRun(rows, ticks[..|ticks| - 1], d)
    ensures GoodTick(FleetRun(rows, ticks[..|ticks| - 1]), ticks[|ticks| - 1], d)
  {
    var n := |ticks| - 1;
    forall i | 0 <= i < n ensures GoodTick(FleetRun(rows, ticks[..n][..i]), ticks[..n][i], d) {
      assert ticks[..n][..i] == ticks[..i] && GoodTick(FleetRun(rows, ticks[..i]), ticks[i], d);
    }
  }

  lemma {:induction false} RowNext(d: Device, first: Option<State>, mine: seq<Tick>, t: Tick)
    ensures Row(d, first, mine + [t], |mine| + 1) == Some(Next(d, Row(d, first, mine, |mine|), t))
  {
    RowOfPrefix(d, first, mine, [t], |mine|);
  }

  lemma FleetStep(before: Rows, t: FleetTick, d: Device, first: Option<State>, mine: seq<Tick>)
    requires GoodTick(before, t, d) && Lookup(before, d.Key()) == Row(d, first, mine, |mine|)
    ensures Lookup(FleetNext(before, t), d.Key()) ==
            if Observes(t.obs, d.Key()) then Row(d, first, mine + [DeviceTick(t, d.Key())], |mine| + 1)
            else Row(d, first, mine, |mine|)
  {
    DeviceSeesItsTick(before, t, d);
    if Observes(t.obs, d.Key()) { RowNext(d, first, mine, DeviceTick(t, d.Key())); }
  }

  /** Whatever the fleet goes through, a device's stored row is the one its own
      state machine reaches on the ticks that observed it. */
  lemma {:induction false} FleetIsDevices(rows: Rows, ticks: seq<FleetTick>, d: Device)
    requires GoodRun(rows, ticks, d)
    ensures var mine := Project(ticks, d.Key());
            Lookup(FleetRun(rows, ticks), d.Key()) == Row(d, Lookup(rows, d.Key()), mine, |mine|)
  {
    if ticks != [] {
      var n := |ticks| - 1;
      GoodPrefix(rows, ticks, d);
      FleetIsDevices(rows, ticks[..n], d);
      FleetStep(FleetRun(rows, ticks[..n]), ticks[n], d, Lookup(rows, d.Key()), Project(ticks[..n], d.Key()));
    }
  }

  /** A pass announces exactly what the machines of the devices it observed announce. */
  lemma TickEvents(prev: Rows, t: FleetTick, d: Device, e: Event)
    requires GoodTick(prev, t, d) && e.device == d
    ensures e in DecideAll(t.obs, prev, t.now, t.th).0
            <==> Observes(t.obs, d.Key()) && Verdict(d, Lookup(prev, d.Key()), DeviceTick(t, d.Key())).0 == Some(e)
  {
    var k := d.Key();
    EventsAreVerdicts(t.obs, prev, t.now, t.th, e);
    if Observes(t.obs, k) {
      var i := FindObservation(t.obs, k);
      assert t.obs[i] == Observation(d, t.obs[i].lastSample);
      assert VerdictOn(t.obs, i, prev, t.now, t.th) == Verdict(d, Lookup(prev, k), DeviceTick(t, k));
    }
    if j :| 0 <= j < |t.obs| && VerdictOn(t.obs, j, prev, t.now, t.th).0 == Some(e) {
      EventDevice(t.obs[j], Lookup(prev, t.obs[j].device.Key()), t.now, t.th);
      assert Observes(t.obs, k) && j == FindObservation(t.obs, k);
    }
  }

  /** The events of the fleet's next pass about a device are its own machine's next event, so
      what holds for the runs of a device holds for every device of the fleet. */
  lemma FleetEventsAreDevices(rows: Rows, ticks: seq<FleetTick>, t: FleetTick, d: Device, e: Event)
    requires GoodRun(rows, ticks, d) && GoodTick(FleetRun(rows, ticks), t, d) && e.device == d
    ensures var prev, mine := FleetRun(rows, ticks), Project(ticks, d.Key());
            e in DecideAll(t.obs, prev, t.now, t.th).0
            <==> Observes(t.obs, d.Key())
                 && EventAt(d, Lookup(rows, d.Key()), mine + [DeviceTick(t, d.Key())], |mine|) == Some(e)
  {
    var first, mine := Lookup(rows, d.Key()), Project(ticks, d.Key());
    FleetIsDevices(rows, ticks, d);
    TickEvents(FleetRun(rows, ticks), t, d, e);
    if Observes(t.obs, d.Key()) { NextEvent(d, first, mine, DeviceTick(t, d.Key())); }
  }

  lemma NextEvent(d: Device, first: Option<State>, mine: seq<Tick>, t: Tick)
    ensures EventAt(d, first, mine + [t], |mine|) == Verdict(d, Row(d, first, mine, |mine|), t).0
  {
    RowOfPrefix(d, first, mine, [t], |mine|);
  }
}
