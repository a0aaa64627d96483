/**
  The life of one device over any run of persisted ticks: arbitrary samples,
  thresholds that may change between ticks, and arbitrary delivery outcomes.
  A tick that does not observe the device leaves its row alone and is no step.
*/
module AlertRuns {
  import opened Wrappers
  import opened AlertEvaluate

  /** One tick as the device sees it; `failed` is whether the mail with its
      event, if it has one, was rolled back. */
  datatype Tick = Tick(now: int, lastSample: Option<int>, th: Thresholds, failed: bool)

  function Verdict(d: Device, row: Option<State>, t: Tick): (Option<Event>, State) {
    Decide(Observation(d, t.lastSample), row, t.now, t.th)
  }

  /** The row one tick persists. */
  function Next(d: Device, row: Option<State>, t: Tick): State {
    var (e, s) := Verdict(d, row, t);
    if e.Some? && t.failed then RolledBack(s, row) else s
  }

  /** The row before tick `i`. */
  function Row(d: Device, first: Option<State>, ticks: seq<Tick>, i: nat): Option<State>
    requires i <= |ticks|
  {
    if i == 0 then first else Some(Next(d, Row(d, first, ticks, i - 1), ticks[i - 1]))
  }

  function EventAt(d: Device, first: Option<State>, ticks: seq<Tick>, i: nat): Option<Event>
    requires i < |ticks|
  {
    Verdict(d, Row(d, first, ticks, i), ticks[i]).0
  }

  predicate Emits(d: Device, first: Option<State>, ticks: seq<Tick>, i: nat, kind: Kind)
    requires i < |ticks|
  {
    EventAt(d, first, ticks, i).Some? && EventAt(d, first, ticks, i).value.kind == kind
  }

  /** The announcement of tick `i` was not rolled back. */
  predicate Recorded(d: Device, first: Option<State>, ticks: seq<Tick>, i: nat)
    requires i < |ticks|
  {
    EventAt(d, first, ticks, i).Some? && !ticks[i].failed
  }

  predicate WasDown(row: Option<State>) { row.Some? && row.value.status == Down }

  predicate TickDown(t: Tick) { IsDown(t.lastSample, t.now, t.th.staleAfter) }

  /** Ticks [a, b) are the beginning of one outage: the device was not down
      before `a` and is down on each of them. */
  predicate Outage(d: Device, first: Option<State>, ticks: seq<Tick>, a: nat, b: nat) {
    && a < b <= |ticks| && !WasDown(Row(d, first, ticks, a))
    && forall i :: a <= i < b ==> TickDown(ticks[i])
  }

  predicate ClockForward(ticks: seq<Tick>) {
    forall i, j :: 0 <= i < j < |ticks| ==> ticks[i].now <= ticks[j].now
  }

  function OutageSince(ticks: seq<Tick>, a: nat): int
    requires a < |ticks|
  {
    OutageStart(ticks[a].lastSample, ticks[a].now)
  }

  /** Throughout an outage the row keeps the start the first tick gave it. */
  lemma {:induction false} DownThroughout(d: Device, first: Option<State>, ticks: seq<Tick>, a: nat, b: nat, i: nat)
    requires Outage(d, first, ticks, a, b) && a < i <= b
    ensures WasDown(Row(d, first, ticks, i)) && Row(d, first, ticks, i).value.since == OutageSince(ticks, a)
  {
    if i > a + 1 { DownThroughout(d, first, ticks, a, b, i - 1); }
  }

  /** Once a notification is on the row of an outage, one stays on it. */
  lemma {:induction false} NotifiedStays(d: Device, first: Option<State>, ticks: seq<Tick>, a: nat, b: nat, i: nat,
                                         j: nat)
    requires Outage(d, first, ticks, a, b) && a < i <= j <= b
    requires Row(d, first, ticks, i).value.lastNotified.Some?
    ensures Row(d, first, ticks, j).value.lastNotified.Some?
  {
    if i < j {
      NotifiedStays(d, first, ticks, a, b, i, j - 1);
      DownThroughout(d, first, ticks, a, b, j - 1);
    }
  }

  lemma OutageEvent(d: Device, first: Option<State>, ticks: seq<Tick>, a: nat, b: nat, i: nat)
    requires Outage(d, first, ticks, a, b) && a <= i < b && EventAt(d, first, ticks, i).Some?
    ensures var e := EventAt(d, first, ticks, i).value;
            && e.kind != RecoveredKind && e.device == d
            && e.since == OutageSince(ticks, a) && e.at == ticks[i].now
  {
    if i > a { DownThroughout(d, first, ticks, a, b, i); }
  }

  lemma NoDownAfterReminder(d: Device, first: Option<State>, ticks: seq<Tick>, a: nat, b: nat, i: nat, j: nat)
    requires Outage(d, first, ticks, a, b) && a <= i < j < b && Emits(d, first, ticks, i, ReminderKind)
    ensures !Emits(d, first, ticks, j, DownKind)
  {
    assert a < i;
    DownThroughout(d, first, ticks, a, b, i);
    NotifiedStays(d, first, ticks, a, b, i, j);
    DownThroughout(d, first, ticks, a, b, j);
  }

  /** The events of one outage: Down first, all with the same start, no Down
      after a Reminder, and when the device is next seen up, one Recovered with
      that start if recoveries are announced, and nothing otherwise. */
  lemma OutageShape(d: Device, first: Option<State>, ticks: seq<Tick>, a: nat, b: nat)
    requires Outage(d, first, ticks, a, b)
    ensures Emits(d, first, ticks, a, DownKind)
    ensures forall i :: a <= i < b && EventAt(d, first, ticks, i).Some? ==>
              var e := EventAt(d, first, ticks, i).value;
              && e.kind != RecoveredKind && e.device == d
              && e.since == OutageSince(ticks, a) && e.at == ticks[i].now
    ensures forall i, j :: a <= i < j < b && Emits(d, first, ticks, i, ReminderKind) ==>
              !Emits(d, first, ticks, j, DownKind)
    ensures b < |ticks| && !TickDown(ticks[b]) ==>
              && !WasDown(Row(d, first, ticks, b + 1))
              && EventAt(d, first, ticks, b) ==
                 if ticks[b].th.notifyRecovery
                 then Some(Event(RecoveredKind, d, ticks[b].lastSample, OutageSince(ticks, a), ticks[b].now))
                 else None
  {
    forall i | a <= i < b && EventAt(d, first, ticks, i).Some?
      ensures var e := EventAt(d, first, ticks, i).value;
              && e.kind != RecoveredKind && e.device == d
              && e.since == OutageSince(ticks, a) && e.at == ticks[i].now
    {
      OutageEvent(d, first, ticks, a, b, i);
    }
    forall i, j | a <= i < j < b && Emits(d, first, ticks, i, ReminderKind)
      ensures !Emits(d, first, ticks, j, DownKind)
    {
      NoDownAfterReminder(d, first, ticks, a, b, i, j);
    }
    DownThroughout(d, first, ticks, a, b, b);
  }

  /** A device that is up and was not down is never announced. */
  lemma HealthyIsSilent(d: Device, first: Option<State>, ticks: seq<Tick>, i: nat)
    requires i < |ticks| && !WasDown(Row(d, first, ticks, i)) && !TickDown(ticks[i])
    ensures EventAt(d, first, ticks, i) == None && !WasDown(Row(d, first, ticks, i + 1))
    ensures Row(d, first, ticks, i + 1).value.lastNotified == None
  {
  }

  /** After a recorded announcement the row's stamp is never older than it. */
  lemma {:induction false} StampNotOlder(d: Device, first: Option<State>, ticks: seq<Tick>, a: nat, b: nat, i: nat,
                                         j: nat)
    requires Outage(d, first, ticks, a, b) && ClockForward(ticks) && a <= i < j <= b
    requires Recorded(d, first, ticks, i)
    ensures WasDown(Row(d, first, ticks, j)) && Row(d, first, ticks, j).value.lastNotified.Some?
    ensures ticks[i].now <= Row(d, first, ticks, j).value.lastNotified.value
  {
    if i > a { DownThroughout(d, first, ticks, a, b, i); }
    if i + 1 < j { StampNotOlder(d, first, ticks, a, b, i, j - 1); }
  }

  /** Two announcements of one outage that were both recorded are at least the
      later tick's RepeatInterval apart, and the later tick has reminders on. */
  lemma AnnouncementsAreSpaced(d: Device, first: Option<State>, ticks: seq<Tick>, a: nat, b: nat, i: nat, j: nat)
    requires Outage(d, first, ticks, a, b) && ClockForward(ticks) && a <= i < j < b
    requires Recorded(d, first, ticks, i) && Recorded(d, first, ticks, j)
    ensures ticks[j].th.repeatInterval > 0
    ensures ticks[j].now - ticks[i].now >= ticks[j].th.repeatInterval
    ensures Emits(d, first, ticks, j, ReminderKind)
  {
    StampNotOlder(d, first, ticks, a, b, i, j);
  }

  /** After a recorded announcement, until the next one, the row's stamp is its time. */
  lemma {:induction false} StampIsLast(
    d: Device, first: Option<State>, ticks: seq<Tick>, a: nat, b: nat, i: nat, j: nat)
    requires Outage(d, first, ticks, a, b) && a <= i < j <= b && Recorded(d, first, ticks, i)
    requires forall k :: i < k < j ==> !Recorded(d, first, ticks, k)
    ensures WasDown(Row(d, first, ticks, j)) && Row(d, first, ticks, j).value.lastNotified == Some(ticks[i].now)
  {
    if i > a { DownThroughout(d, first, ticks, a, b, i); }
    if i + 1 < j {
      StampIsLast(d, first, ticks, a, b, i, j - 1);
      assert !Recorded(d, first, ticks, j - 1) && TickDown(ticks[j - 1]);
    }
  }

  /** Reminders come neither early nor late: with tick `i` the last recorded announcement of the
      outage, tick `j` reminds if and only if reminders are on and a whole repeat interval
      has gone by, and is silent otherwise. */
  lemma RemindedExactlyWhenDue(d: Device, first: Option<State>, ticks: seq<Tick>, a: nat, b: nat, i: nat, j: nat)
    requires Outage(d, first, ticks, a, b) && a <= i < j < b && Recorded(d, first, ticks, i)
    requires forall k :: i < k < j ==> !Recorded(d, first, ticks, k)
    ensures Emits(d, first, ticks, j, ReminderKind) <==>
            ticks[j].th.repeatInterval > 0 && ticks[j].now - ticks[i].now >= ticks[j].th.repeatInterval
    ensures !Emits(d, first, ticks, j, ReminderKind) ==> EventAt(d, first, ticks, j) == None
  {
    StampIsLast(d, first, ticks, a, b, i, j);
  }

  /** With reminders off, at most one announcement of an outage is recorded. */
  lemma OneAnnouncementWithoutReminders(d: Device, first: Option<State>, ticks: seq<Tick>, a: nat, b: nat, i: nat,
                                        j: nat)
    requires Outage(d, first, ticks, a, b) && ClockForward(ticks) && a <= i < b && a <= j < b
    requires forall k :: a <= k < b ==> ticks[k].th.repeatInterval <= 0
    requires Recorded(d, first, ticks, i) && Recorded(d, first, ticks, j)
    ensures i == j
  {
    if i < j { AnnouncementsAreSpaced(d, first, ticks, a, b, i, j); }
    if j < i { AnnouncementsAreSpaced(d, first, ticks, a, b, j, i); }
  }

  /** No stamp was left on the row before tick `a`. */
  predicate CleanBefore(d: Device, first: Option<State>, ticks: seq<Tick>, a: nat)
    requires a <= |ticks|
  {
    Row(d, first, ticks, a).Some? ==> Row(d, first, ticks, a).value.lastNotified == None
  }

  predicate AllFailed(ticks: seq<Tick>, a: nat, j: nat)
    requires a <= j <= |ticks|
  {
    forall i :: a <= i < j ==> ticks[i].failed
  }

  /** While every mail fails, the row of an outage keeps the stamp from before it. */
  lemma {:induction false} FailuresKeepStamp(d: Device, first: Option<State>, ticks: seq<Tick>, a: nat, b: nat, j: nat)
    requires Outage(d, first, ticks, a, b) && a < j <= b && AllFailed(ticks, a, j)
    requires CleanBefore(d, first, ticks, a)
    ensures Row(d, first, ticks, j).value.lastNotified == None
  {
    if j > a + 1 {
      FailuresKeepStamp(d, first, ticks, a, b, j - 1);
      DownThroughout(d, first, ticks, a, b, j - 1);
    }
  }

  /** Exactly when a lost announcement is retried: an outage of two ticks or more
      is announced as Down on every tick until a mail goes through, if and only if
      the row it started from carried no notification stamp. */
  lemma RetriedExactlyWhenClean(d: Device, first: Option<State>, ticks: seq<Tick>, a: nat, b: nat)
    requires Outage(d, first, ticks, a, b) && a + 1 < b && ticks[a].failed
    ensures CleanBefore(d, first, ticks, a) <==>
            forall j :: a <= j < b && AllFailed(ticks, a, j) ==> Emits(d, first, ticks, j, DownKind)
  {
    if CleanBefore(d, first, ticks, a) {
      forall j | a <= j < b && AllFailed(ticks, a, j) ensures Emits(d, first, ticks, j, DownKind) {
        if j > a {
          FailuresKeepStamp(d, first, ticks, a, b, j);
          DownThroughout(d, first, ticks, a, b, j);
        }
      }
    } else {
      DownThroughout(d, first, ticks, a, b, a + 1);
      assert Row(d, first, ticks, a + 1).value.lastNotified.Some?;
      assert AllFailed(ticks, a, a + 1) && !Emits(d, first, ticks, a + 1, DownKind);
    }
  }

  /** A stamp on a row that is not down was left by the tick just before, and
      that tick saw the device come back. */
  lemma StampLeftByRecovery(d: Device, ticks: seq<Tick>, i: nat)
    requires i <= |ticks| && !CleanBefore(d, None, ticks, i) && !WasDown(Row(d, None, ticks, i))
    ensures i > 0 && Emits(d, None, ticks, i - 1, RecoveredKind)
  {
    assert i > 0;
    assert WasDown(Row(d, None, ticks, i - 1)) || TickDown(ticks[i - 1]);
  }

  // ------------------------------------------------ what the rows and events mean

  /** No sample at all, or none as recent as the thresholds ask for. */
  predicate Stale(t: Tick) {
    t.lastSample == None || t.lastSample.value < t.now - t.th.staleAfter
  }

  /** Ticks [a, i] are a stretch without a change: all stale or all fresh, and the device's
      first or just after a change. */
  predicate Stretch(ticks: seq<Tick>, a: nat, i: nat) {
    && a <= i < |ticks|
    && (forall k :: a <= k <= i ==> Stale(ticks[k]) == Stale(ticks[i]))
    && (a > 0 ==> Stale(ticks[a - 1]) != Stale(ticks[i]))
  }

  lemma {:induction false} StretchExists(ticks: seq<Tick>, i: nat) returns (a: nat)
    requires i < |ticks|
    ensures Stretch(ticks, a, i)
  {
    a := i;
    if i > 0 && Stale(ticks[i - 1]) == Stale(ticks[i]) { a := StretchExists(ticks, i - 1); }
  }

  /** Since when a stretch that began at tick `t` counts: an outage from the last sample
      there was, and anything else from the tick that saw it. */
  function BeganAt(t: Tick): int {
    if Stale(t) && t.lastSample.Some? then t.lastSample.value else t.now
  }

  lemma FirstOfStretch(d: Device, ticks: seq<Tick>, a: nat)
    requires a < |ticks| && (a > 0 ==> WasDown(Row(d, None, ticks, a)) == Stale(ticks[a - 1]) != Stale(ticks[a]))
    ensures var row := Row(d, None, ticks, a + 1).value;
            && row.status == (if Stale(ticks[a]) then Down else Ok)
            && row.since == BeganAt(ticks[a]) && row.lastSample == ticks[a].lastSample
  {
  }

  lemma NextOfStretch(d: Device, ticks: seq<Tick>, i: nat)
    requires 0 < i < |ticks| && Row(d, None, ticks, i).Some?
    requires WasDown(Row(d, None, ticks, i)) == Stale(ticks[i])
    ensures var row, was := Row(d, None, ticks, i + 1).value, Row(d, None, ticks, i).value;
            && row.status == was.status && row.since == was.since && row.lastSample == ticks[i].lastSample
  {
  }

  /** The row a device is left with, whatever was announced and whatever was lost: down
      exactly when it has no sample or its last is older than `staleAfter`, with that
      sample, and dated from the beginning of the stretch it is in. */
  lemma {:induction false} RowIsItsStretch(d: Device, ticks: seq<Tick>, a: nat, i: nat)
    requires Stretch(ticks, a, i)
    ensures Row(d, None, ticks, i + 1).Some?
    ensures var row, t := Row(d, None, ticks, i + 1).value, ticks[i];
            && (row.status == Down <==> t.lastSample == None || t.now - t.lastSample.value > t.th.staleAfter)
            && row.since == BeganAt(ticks[a]) && row.lastSample == t.lastSample
  {
    if i == a {
      if a > 0 {
        var b := StretchExists(ticks, a - 1);
        RowIsItsStretch(d, ticks, b, a - 1);
      }
      FirstOfStretch(d, ticks, a);
    } else {
      assert Stretch(ticks, a, i - 1);
      RowIsItsStretch(d, ticks, a, i - 1);
      NextOfStretch(d, ticks, i);
    }
  }

  /** An event says what happened: a Down or a Reminder that the device has been stale since the
      outage's beginning, a Recovered that it is fresh after a stale stretch; each gives the
      sample there is and, as the outage's start, the last sample before it or, without
      one, the tick that first missed it. */
  predicate EventIsTrue(ticks: seq<Tick>, i: nat, e: Event)
    requires i < |ticks|
  {
    && e.lastSample == ticks[i].lastSample && e.at == ticks[i].now
    && (e.kind == RecoveredKind <==> !Stale(ticks[i]))
    && exists a :: 0 <= a <= i && OutageBetween(ticks, a, i) && e.since == BeganAt(ticks[a])
  }

  /** The ticks from `a` to `i`, or to the one before if `i` saw the device again, are one outage. */
  predicate OutageBetween(ticks: seq<Tick>, a: nat, i: nat)
    requires i < |ticks|
  {
    if Stale(ticks[i]) then Stretch(ticks, a, i) else i > 0 && Stretch(ticks, a, i - 1) && Stale(ticks[i - 1])
  }

  /** What the verdict says of its tick and of the row before it. */
  lemma VerdictEvent(d: Device, row: Option<State>, t: Tick)
    requires Verdict(d, row, t).0.Some?
    ensures var e := Verdict(d, row, t).0.value;
            && e.lastSample == t.lastSample && e.at == t.now && (e.kind == RecoveredKind <==> !Stale(t))
            && (Stale(t) || WasDown(row)) && e.since == if WasDown(row) then row.value.since else BeganAt(t)
  {
  }

  /** The outage an event belongs to. */
  lemma OutageOf(ticks: seq<Tick>, i: nat, b: nat)
    requires 0 < i < |ticks| && Stretch(ticks, b, i - 1) && (Stale(ticks[i]) || Stale(ticks[i - 1]))
    ensures OutageBetween(ticks, if Stale(ticks[i - 1]) then b else i, i)
  {
  }

  lemma EventsAreTrue(d: Device, ticks: seq<Tick>, i: nat)
    requires i < |ticks| && EventAt(d, None, ticks, i).Some?
    ensures EventIsTrue(ticks, i, EventAt(d, None, ticks, i).value)
  {
    VerdictEvent(d, Row(d, None, ticks, i), ticks[i]);
    if i == 0 {
      assert OutageBetween(ticks, 0, 0);
    } else {
      var b := StretchExists(ticks, i - 1);
      RowIsItsStretch(d, ticks, b, i - 1);
      OutageOf(ticks, i, b);
    }
  }

  /** A device with a sample within `staleAfter` at every tick from its first is never
      announced, whatever the thresholds. */
  lemma FreshIsNeverAnnounced(d: Device, ticks: seq<Tick>, i: nat)
    requires i < |ticks|
    requires forall k :: 0 <= k <= i ==>
               ticks[k].lastSample.Some? && ticks[k].now - ticks[k].lastSample.value <= ticks[k].th.staleAfter
    ensures EventAt(d, None, ticks, i) == None
  {
    if EventAt(d, None, ticks, i).Some? { EventsAreTrue(d, ticks, i); }
  }

  /** Whatever the row was before, a tick leaves it down exactly when there is no sample or
      the last is older than `staleAfter`. */
  lemma DownExactlyWhenStale(d: Device, row: Option<State>, t: Tick)
    ensures Next(d, row, t).status == Down <==>
            t.lastSample == None || t.now - t.lastSample.value > t.th.staleAfter
  {
  }

  /** A fresher sample never turns an up verdict into down. */
  lemma FresherIsNoWorse(d: Device, row: Option<State>, t: Tick, sample: int)
    requires t.lastSample.Some? && t.lastSample.value <= sample && Next(d, row, t).status == Ok
    ensures Next(d, row, t.(lastSample := Some(sample))).status == Ok
  {
  }
}
