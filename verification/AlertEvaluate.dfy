/** One evaluation of the watchdog: what to announce and what to remember
    (internal/alerts/evaluate.go). Instants and durations are integers. */
module AlertEvaluate {
  import opened Wrappers

  datatype Kind = DownKind | ReminderKind | RecoveredKind

  datatype Key = KeyOf(org: string, host: string)

  datatype Device = Device(org: string, name: string, host: string) {
    function Key(): Key { KeyOf(org, host) }
  }

  datatype Observation = Observation(device: Device, lastSample: Option<int>)

  datatype Status = Ok | Down

  /** The persisted row of a device. */
  datatype State = State(status: Status, since: int, lastSample: Option<int>, lastNotified: Option<int>)

  datatype Thresholds = Thresholds(staleAfter: int, repeatInterval: int, notifyRecovery: bool)

  datatype Event = Event(kind: Kind, device: Device, lastSample: Option<int>, since: int, at: int)

  predicate IsDown(last: Option<int>, now: int, staleAfter: int) {
    last == None || now - last.value > staleAfter
  }

  function OutageStart(last: Option<int>, now: int): int {
    if last == None then now else last.value
  }

  function Lookup(rows: map<Key, State>, k: Key): Option<State> {
    if k in rows then Some(rows[k]) else None
  }

  /** The verdict on one device: its event, if any, and its next row, assuming
      the mail is delivered. */
  function Decide(obs: Observation, before: Option<State>, now: int, th: Thresholds): (Option<Event>, State) {
    var last := obs.lastSample;
    var down := IsDown(last, now, th.staleAfter);
    if before == None && !down then
      (None, State(Ok, now, last, None))
    else if down && (before == None || before.value.status != Down) then
      var since := OutageStart(last, now);
      (Some(Event(DownKind, obs.device, last, since, now)), State(Down, since, last, Some(now)))
    else if down then
      var since, notified := before.value.since, before.value.lastNotified;
      if notified == None then
        (Some(Event(DownKind, obs.device, last, since, now)), State(Down, since, last, Some(now)))
      else if th.repeatInterval > 0 && now - notified.value >= th.repeatInterval then
        (Some(Event(ReminderKind, obs.device, last, since, now)), State(Down, since, last, Some(now)))
      else
        (None, State(Down, since, last, notified))
    else if before.value.status == Down then
      if th.notifyRecovery then
        (Some(Event(RecoveredKind, obs.device, last, before.value.since, now)), State(Ok, now, last, Some(now)))
      else
        (None, State(Ok, now, last, None))
    else
      (None, State(Ok, before.value.since, last, None))
  }

  function DecideAll(obs: seq<Observation>, prev: map<Key, State>, now: int, th: Thresholds)
    : (seq<Event>, map<Key, State>)
  {
    if obs == [] then ([], map[])
    else
      var (events, states) := DecideAll(obs[..|obs| - 1], prev, now, th);
      var o := obs[|obs| - 1];
      var (e, s) := Decide(o, Lookup(prev, o.device.Key()), now, th);
      (if e.Some? then events + [e.value] else events, states[o.device.Key() := s])
  }

  predicate Mentions(events: seq<Event>, k: Key) {
    exists i :: 0 <= i < |events| && events[i].device.Key() == k
  }

  function RolledBack(s: State, before: Option<State>): State {
    s.(lastNotified := if before.Some? then before.value.lastNotified else None)
  }

  /** The rows after the mail about `events` was lost. */
  function Reverted(states: map<Key, State>, prev: map<Key, State>, events: seq<Event>): map<Key, State> {
    map k | k in states :: if Mentions(events, k) then RolledBack(states[k], Lookup(prev, k)) else states[k]
  }

  class Result {
    var events: seq<Event>
    var states: map<Key, State>

    constructor ()
      ensures events == [] && states == map[]
    {
      events, states := [], map[];
    }

    method Evaluate(obs: seq<Observation>, prev: map<Key, State>, now: int, th: Thresholds)
      requires events == [] && states == map[]
      modifies this
      ensures (events, states) == DecideAll(obs, prev, now, th)
    {
      for i := 0 to |obs|
        invariant (events, states) == DecideAll(obs[..i], prev, now, th)
      {
        assert obs[..i + 1][..i] == obs[..i];
        EvaluateOne(obs[i], Lookup(prev, obs[i].device.Key()), now, th);
      }
      assert obs[..|obs|] == obs;
    }

    method EvaluateOne(o: Observation, before: Option<State>, now: int, th: Thresholds)
      modifies this
      ensures var (e, s) := Decide(o, before, now, th);
              && events == (if e.Some? then old(events) + [e.value] else old(events))
              && states == old(states)[o.device.Key() := s]
    {
      var key, last := o.device.Key(), o.lastSample;
      var down := IsDown(last, now, th.staleAfter);
      if before == None {
        if !down {
          states := states[key := State(Ok, now, last, None)];
          return;
        }
        var since := OutageStart(last, now);
        events := events + [Event(DownKind, o.device, last, since, now)];
        states := states[key := State(Down, since, last, Some(now))];
      } else if down && before.value.status != Down {
        var since := OutageStart(last, now);
        events := events + [Event(DownKind, o.device, last, since, now)];
        states := states[key := State(Down, since, last, Some(now))];
      } else if down {
        var notified := before.value.lastNotified;
        var next := State(Down, before.value.since, last, notified);
        if notified == None {
          events := events + [Event(DownKind, o.device, last, before.value.since, now)];
          next := next.(lastNotified := Some(now));
        } else if th.repeatInterval > 0 && now - notified.value >= th.repeatInterval {
          events := events + [Event(ReminderKind, o.device, last, before.value.since, now)];
          next := next.(lastNotified := Some(now));
        }
        states := states[key := next];
      } else if before.value.status == Down {
        var next := State(Ok, now, last, None);
        if th.notifyRecovery {
          events := events + [Event(RecoveredKind, o.device, last, before.value.since, now)];
          next := next.(lastNotified := Some(now));
        }
        states := states[key := next];
      } else {
        states := states[key := State(Ok, before.value.since, last, None)];
      }
    }

    method RevertNotifications(prev: map<Key, State>, failed: seq<Event>)
      modifies this
      ensures states == Reverted(old(states), prev, failed) && events == old(events)
    {
      ghost var before := states;
      for i := 0 to |failed|
        invariant events == old(events)
        invariant states == Reverted(before, prev, failed[..i])
      {
        var key := failed[i].device.Key();
        assert failed[..i + 1] == failed[..i] + [failed[i]];
        MentionsSnoc(failed[..i], failed[i]);
        if key in states {
          states := states[key := RolledBack(states[key], Lookup(prev, key))];
        }
      }
      assert failed[..|failed|] == failed;
    }
  }

  lemma MentionsSnoc(events: seq<Event>, e: Event)
    ensures forall k :: Mentions(events + [e], k) <==> Mentions(events, k) || k == e.device.Key()
  {
    forall k ensures Mentions(events + [e], k) <==> Mentions(events, k) || k == e.device.Key() {
      var all := events + [e];
      if Mentions(events, k) {
        var i :| 0 <= i < |events| && events[i].device.Key() == k;
        assert all[i].device.Key() == k;
      }
      if k == e.device.Key() { assert all[|events|].device.Key() == k; }
      if Mentions(all, k) && k != e.device.Key() {
        var i :| 0 <= i < |all| && all[i].device.Key() == k;
        assert events[i].device.Key() == k;
      }
    }
  }

  predicate DistinctDevices(obs: seq<Observation>) {
    forall i, j :: 0 <= i < j < |obs| ==> obs[i].device.Key() != obs[j].device.Key()
  }

  function VerdictOn(obs: seq<Observation>, i: nat, prev: map<Key, State>, now: int, th: Thresholds)
    : (Option<Event>, State)
    requires i < |obs|
  {
    Decide(obs[i], Lookup(prev, obs[i].device.Key()), now, th)
  }

  /** Every observed device gets a row and nothing else does. */
  lemma {:induction false} RowsAreObserved(obs: seq<Observation>, prev: map<Key, State>, now: int, th: Thresholds,
                                           k: Key)
    ensures k in DecideAll(obs, prev, now, th).1 <==> exists i :: 0 <= i < |obs| && obs[i].device.Key() == k
  {
    if obs != [] {
      var n := |obs| - 1;
      RowsAreObserved(obs[..n], prev, now, th, k);
      if k == obs[n].device.Key() {
      } else if i :| 0 <= i < |obs| && obs[i].device.Key() == k {
        assert obs[..n][i].device.Key() == k;
      }
    }
  }

  /** When no two observations are of one device, each row is its own verdict. */
  lemma {:induction false} RowIsOwnVerdict(obs: seq<Observation>, prev: map<Key, State>, now: int, th: Thresholds,
                                           i: nat)
    requires DistinctDevices(obs) && i < |obs|
    ensures var states := DecideAll(obs, prev, now, th).1;
            obs[i].device.Key() in states && states[obs[i].device.Key()] == VerdictOn(obs, i, prev, now, th).1
  {
    var n := |obs| - 1;
    if i < n {
      assert obs[..n][i] == obs[i];
      RowIsOwnVerdict(obs[..n], prev, now, th, i);
    }
  }

  /** The events are the verdicts' events, none lost and none added. */
  lemma {:induction false} EventsAreVerdicts(obs: seq<Observation>, prev: map<Key, State>, now: int, th: Thresholds,
                                             e: Event)
    ensures e in DecideAll(obs, prev, now, th).0
            <==> exists i :: 0 <= i < |obs| && VerdictOn(obs, i, prev, now, th).0 == Some(e)
  {
    if obs != [] {
      var n := |obs| - 1;
      EventsAreVerdicts(obs[..n], prev, now, th, e);
      forall i | 0 <= i < n
        ensures VerdictOn(obs[..n], i, prev, now, th) == VerdictOn(obs, i, prev, now, th)
      {
      }
      if VerdictOn(obs, n, prev, now, th).0 != Some(e) {
        if i :| 0 <= i < |obs| && VerdictOn(obs, i, prev, now, th).0 == Some(e) {
          assert VerdictOn(obs[..n], i, prev, now, th).0 == Some(e);
        }
        if i :| 0 <= i < n && VerdictOn(obs[..n], i, prev, now, th).0 == Some(e) {
          assert VerdictOn(obs, i, prev, now, th).0 == Some(e);
        }
      }
    }
  }

  /** A verdict's event is about the device observed. */
  lemma EventDevice(o: Observation, before: Option<State>, now: int, th: Thresholds)
    ensures Decide(o, before, now, th).0.Some? ==> Decide(o, before, now, th).0.value.device == o.device
  {
  }
}
