/**
  The assistant's admission control (internal/api/chat_handlers.go): one turn in
  flight per user, and a daily limit counted before the turn and recorded after
  it. The requests of many users interleave step by step.
*/
module ChatGate {
  type User = int

  /** One row of the usage log. */
  datatype Row = Row(user: User, at: int)

  datatype Pc =
    | Arrived
    | Admitted
    | Dated(dayStart: int)
    | Running(dayStart: int)
    | Leaving
    | Over

  /** A request, with the DailyLimit of the settings it runs on. */
  datatype Turn = Turn(user: User, limit: int, pc: Pc) {
    predicate InFlight() { pc.Admitted? || pc.Dated? || pc.Running? || pc.Leaving? }
  }

  datatype State = State(clock: int, rows: seq<Row>, busy: set<User>, turns: seq<Turn>)

  datatype Step =
    | Tick(to: int)
    | Arrive(user: User, limit: int)
    | TurnStep(i: nat, fault: bool)

  predicate Enabled(s: State, step: Step) {
    match step
    case Tick(to) => s.clock <= to
    case Arrive(_, _) => true
    case TurnStep(i, _) => i < |s.turns| && !s.turns[i].pc.Over?
  }

  function CountSince(rows: seq<Row>, user: User, since: int): nat {
    if rows == [] then 0
    else
      var last := rows[|rows| - 1];
      CountSince(rows[..|rows| - 1], user, since) + if last.user == user && last.at >= since then 1 else 0
  }

  function SetPc(s: State, i: nat, pc: Pc): State
    requires i < |s.turns|
  {
    s.(turns := s.turns[i := s.turns[i].(pc := pc)])
  }

  function Apply(s: State, step: Step, dayOf: int -> int): State
    requires Enabled(s, step)
  {
    match step
    case Tick(to) => s.(clock := to)
    case Arrive(user, limit) => s.(turns := s.turns + [Turn(user, limit, Arrived)])
    case TurnStep(i, fault) =>
      var u := s.turns[i].user;
      match s.turns[i].pc
      case Arrived => if u in s.busy then SetPc(s, i, Over) else SetPc(s, i, Admitted).(busy := s.busy + {u})
      case Admitted => SetPc(s, i, Dated(dayOf(s.clock)))
      case Dated(dayStart) =>
        if fault || CountSince(s.rows, u, dayStart) >= s.turns[i].limit then SetPc(s, i, Leaving)
        else SetPc(s, i, Running(dayStart))
      // The model has answered; RecordTurn, whose failure is only logged.
      case Running(_) => SetPc(s, i, Leaving).(rows := if fault then s.rows else s.rows + [Row(u, s.clock)])
      case Leaving => SetPc(s, i, Over).(busy := s.busy - {u})
      case Over => s
  }

  predicate AllEnabled(s: State, steps: seq<Step>, dayOf: int -> int)
    decreases |steps|
  {
    steps == [] || (Enabled(s, steps[0]) && AllEnabled(Apply(s, steps[0], dayOf), steps[1..], dayOf))
  }

  function Run(s: State, steps: seq<Step>, dayOf: int -> int): State
    requires AllEnabled(s, steps, dayOf)
    decreases |steps|
  {
    if steps == [] then s else Run(Apply(s, steps[0], dayOf), steps[1..], dayOf)
  }

  predicate Initial(s: State) { s.rows == [] && s.busy == {} && s.turns == [] }

  /** `dayOf` gives the first instant of the civil day of an instant. */
  ghost predicate CivilDays(dayOf: int -> int) {
    && (forall t :: dayOf(t) <= t)
    && (forall t, u :: t <= u ==> dayOf(t) <= dayOf(u))
  }

  /** The rows of `user` recorded on the civil day that starts at `day`. */
  function CountOn(rows: seq<Row>, user: User, day: int, dayOf: int -> int): nat {
    if rows == [] then 0
    else
      var last := rows[|rows| - 1];
      CountOn(rows[..|rows| - 1], user, day, dayOf) + if last.user == user && dayOf(last.at) == day then 1 else 0
  }

  lemma {:induction false} OnDayIsSince(rows: seq<Row>, user: User, day: int, since: int, dayOf: int -> int)
    requires CivilDays(dayOf) && since <= day
    ensures CountOn(rows, user, day, dayOf) <= CountSince(rows, user, since)
  {
    if rows != [] { OnDayIsSince(rows[..|rows| - 1], user, day, since, dayOf); }
  }

  // --------------------------------------------------------------- invariant

  ghost predicate AtMostOneEach(s: State) {
    forall i, j :: 0 <= i < j < |s.turns| && s.turns[i].InFlight() && s.turns[j].InFlight() ==>
      s.turns[i].user != s.turns[j].user
  }

  /** A user is held busy by a turn in flight, never by one that is over. */
  ghost predicate BusyInFlight(s: State) {
    forall u :: u in s.busy ==> exists i :: 0 <= i < |s.turns| && Holds(s.turns[i], u)
  }

  predicate Holds(t: Turn, user: User) { t.InFlight() && t.user == user }

  ghost predicate TurnOk(s: State, t: Turn, max: nat, dayOf: int -> int) {
    && t.limit <= max
    && (t.InFlight() ==> t.user in s.busy)
    && match t.pc
       case Dated(dayStart) => dayStart <= dayOf(s.clock)
       case Running(dayStart) => dayStart <= dayOf(s.clock) && CountSince(s.rows, t.user, dayStart) < t.limit
       case _ => true
  }

  ghost predicate DaysOk(rows: seq<Row>, max: nat, dayOf: int -> int) {
    forall u, d :: CountOn(rows, u, d, dayOf) <= max
  }

  ghost predicate Inv(s: State, max: nat, dayOf: int -> int) {
    && AtMostOneEach(s) && BusyInFlight(s)
    && (forall i :: 0 <= i < |s.turns| ==> TurnOk(s, s.turns[i], max, dayOf))
    && DaysOk(s.rows, max, dayOf)
  }

  /** A turn in flight after a step was in flight before, or has just passed the gate. */
  lemma {:induction false} InFlightWas(s: State, step: Step, i: nat, dayOf: int -> int)
    requires Enabled(s, step) && i < |Apply(s, step, dayOf).turns| && Apply(s, step, dayOf).turns[i].InFlight()
    ensures i < |s.turns| && Apply(s, step, dayOf).turns[i].user == s.turns[i].user
    ensures s.turns[i].InFlight() || (step.TurnStep? && step.i == i && s.turns[i].user !in s.busy)
  {
  }

  lemma {:induction false} GateStep(s: State, step: Step, max: nat, dayOf: int -> int)
    requires Inv(s, max, dayOf) && Enabled(s, step)
    ensures AtMostOneEach(Apply(s, step, dayOf))
  {
    var t := Apply(s, step, dayOf);
    forall i, j | 0 <= i < j < |t.turns| && t.turns[i].InFlight() && t.turns[j].InFlight()
      ensures t.turns[i].user != t.turns[j].user
    {
      InFlightWas(s, step, i, dayOf);
      InFlightWas(s, step, j, dayOf);
      assert TurnOk(s, s.turns[i], max, dayOf) && TurnOk(s, s.turns[j], max, dayOf);
    }
  }

  lemma {:induction false} BusyStep(s: State, step: Step, max: nat, dayOf: int -> int)
    requires Inv(s, max, dayOf) && Enabled(s, step)
    ensures BusyInFlight(Apply(s, step, dayOf))
  {
    var t := Apply(s, step, dayOf);
    forall u | u in t.busy ensures exists i :: 0 <= i < |t.turns| && Holds(t.turns[i], u) {
      if u in s.busy {
        var i :| 0 <= i < |s.turns| && Holds(s.turns[i], u);
        assert Holds(t.turns[i], u);
      } else {
        assert Holds(t.turns[step.i], u);
      }
    }
  }

  /** Another turn's step leaves a turn's condition alone: only its own user's
      rows count for it, and no other turn of that user is in flight. */
  lemma {:induction false} OtherTurnOk(s: State, step: Step, i: nat, max: nat, dayOf: int -> int)
    requires CivilDays(dayOf) && Inv(s, max, dayOf) && Enabled(s, step) && i < |s.turns|
    requires step.TurnStep? ==> step.i != i
    ensures TurnOk(Apply(s, step, dayOf), s.turns[i], max, dayOf)
  {
    var t := Apply(s, step, dayOf);
    assert TurnOk(s, s.turns[i], max, dayOf);
    if s.turns[i].InFlight() && step.TurnStep? && s.turns[step.i].InFlight() {
      assert s.turns[step.i].user != s.turns[i].user;
      if |t.rows| > |s.rows| { assert t.rows[..|t.rows| - 1] == s.rows; }
    }
  }

  lemma {:induction false} OwnTurnOk(s: State, i: nat, fault: bool, max: nat, dayOf: int -> int)
    requires CivilDays(dayOf) && Inv(s, max, dayOf) && Enabled(s, TurnStep(i, fault))
    ensures TurnOk(Apply(s, TurnStep(i, fault), dayOf), Apply(s, TurnStep(i, fault), dayOf).turns[i], max, dayOf)
  {
    assert TurnOk(s, s.turns[i], max, dayOf);
  }

  lemma {:induction false} RecordKeepsDays(s: State, i: nat, fault: bool, max: nat, dayOf: int -> int)
    requires CivilDays(dayOf) && Inv(s, max, dayOf) && Enabled(s, TurnStep(i, fault))
    ensures DaysOk(Apply(s, TurnStep(i, fault), dayOf).rows, max, dayOf)
  {
    var t := Apply(s, TurnStep(i, fault), dayOf);
    if t.rows != s.rows {
      assert t.rows[..|t.rows| - 1] == s.rows;
      assert TurnOk(s, s.turns[i], max, dayOf);
      OnDayIsSince(s.rows, s.turns[i].user, dayOf(s.clock), s.turns[i].pc.dayStart, dayOf);
      forall u, d ensures CountOn(t.rows, u, d, dayOf) <= max {
        assert CountOn(s.rows, u, d, dayOf) <= max;
      }
    }
  }

  lemma {:induction false} InvStep(s: State, step: Step, max: nat, dayOf: int -> int)
    requires CivilDays(dayOf) && Inv(s, max, dayOf) && Enabled(s, step)
    requires step.Arrive? ==> step.limit <= max
    ensures Inv(Apply(s, step, dayOf), max, dayOf)
  {
    var t := Apply(s, step, dayOf);
    GateStep(s, step, max, dayOf);
    BusyStep(s, step, max, dayOf);
    forall i | 0 <= i < |t.turns| ensures TurnOk(t, t.turns[i], max, dayOf) {
      if step.TurnStep? && step.i == i { OwnTurnOk(s, i, step.fault, max, dayOf); }
      else if i < |s.turns| { OtherTurnOk(s, step, i, max, dayOf); }
    }
    if step.TurnStep? { RecordKeepsDays(s, step.i, step.fault, max, dayOf); }
  }

  lemma {:induction false} InvRun(s: State, steps: seq<Step>, max: nat, dayOf: int -> int)
    requires CivilDays(dayOf) && Inv(s, max, dayOf) && AllEnabled(s, steps, dayOf)
    requires forall k :: 0 <= k < |steps| && steps[k].Arrive? ==> steps[k].limit <= max
    ensures Inv(Run(s, steps, dayOf), max, dayOf)
    decreases |steps|
  {
    if steps != [] {
      InvStep(s, steps[0], max, dayOf);
      InvRun(Apply(s, steps[0], dayOf), steps[1..], max, dayOf);
    }
  }

  /** Over every interleaving a user has at most one turn in flight, and while
      no turn runs on a limit above `max`, no user has more than `max` turns
      recorded on any civil day, turns that run across midnight included. */
  lemma {:induction false} GateHolds(s0: State, steps: seq<Step>, max: nat, dayOf: int -> int, user: User, day: int)
    requires CivilDays(dayOf) && Initial(s0) && AllEnabled(s0, steps, dayOf)
    requires forall k :: 0 <= k < |steps| && steps[k].Arrive? ==> steps[k].limit <= max
    ensures AtMostOneEach(Run(s0, steps, dayOf))
    ensures CountOn(Run(s0, steps, dayOf).rows, user, day, dayOf) <= max
  {
    InvRun(s0, steps, max, dayOf);
  }

  /** The gate refuses nobody without reason: over every interleaving a user is held busy
      exactly while a turn of theirs is in flight, so one that has ended, however it
      ended, never keeps its user out. */
  lemma {:induction false} BusyExactlyInFlight(s0: State, steps: seq<Step>, max: nat, dayOf: int -> int, user: User)
    requires CivilDays(dayOf) && Initial(s0) && AllEnabled(s0, steps, dayOf)
    requires forall k :: 0 <= k < |steps| && steps[k].Arrive? ==> steps[k].limit <= max
    ensures var s := Run(s0, steps, dayOf);
            user in s.busy <==> exists i :: 0 <= i < |s.turns| && Holds(s.turns[i], user)
  {
    InvRun(s0, steps, max, dayOf);
    var s := Run(s0, steps, dayOf);
    forall i | 0 <= i < |s.turns| && Holds(s.turns[i], user) ensures user in s.busy {
      assert TurnOk(s, s.turns[i], max, dayOf);
    }
  }

  // ---------------------------------------------------------------- the count

  ghost predicate RowsPast(s: State) {
    forall i :: 0 <= i < |s.rows| ==> s.rows[i].at <= s.clock
  }

  lemma {:induction false} RunKeepsRowsPast(s: State, steps: seq<Step>, dayOf: int -> int)
    requires RowsPast(s) && AllEnabled(s, steps, dayOf)
    ensures RowsPast(Run(s, steps, dayOf))
    decreases |steps|
  {
    if steps != [] { RunKeepsRowsPast(Apply(s, steps[0], dayOf), steps[1..], dayOf); }
  }

  /** On the day itself, what was recorded since its start is what was recorded on it. */
  lemma {:induction false} TodayIsSinceMidnight(rows: seq<Row>, user: User, day: int, now: int, dayOf: int -> int)
    requires CivilDays(dayOf) && dayOf(now) == day && dayOf(day) == day
    requires forall i :: 0 <= i < |rows| ==> rows[i].at <= now
    ensures CountSince(rows, user, day) == CountOn(rows, user, day, dayOf)
  {
    if rows != [] {
      var last := rows[|rows| - 1];
      TodayIsSinceMidnight(rows[..|rows| - 1], user, day, now, dayOf);
      assert last.at >= day <==> dayOf(last.at) == day by {
        assert dayOf(last.at) <= dayOf(now);
        if last.at >= day { assert dayOf(day) <= dayOf(last.at); }
      }
    }
  }

  /** Nobody is refused below the limit: over every interleaving a turn that has passed the gate
      and asks for the count on its own day goes on to the model if and only if the user
      has fewer turns recorded on that day than the limit. */
  lemma {:induction false} RunsExactlyBelowLimit(s0: State, steps: seq<Step>, dayOf: int -> int, i: nat)
    requires CivilDays(dayOf) && Initial(s0) && AllEnabled(s0, steps, dayOf)
    requires var s := Run(s0, steps, dayOf);
             && i < |s.turns| && s.turns[i].pc == Dated(dayOf(s.clock)) && dayOf(dayOf(s.clock)) == dayOf(s.clock)
    ensures var s := Run(s0, steps, dayOf);
            Apply(s, TurnStep(i, false), dayOf).turns[i].pc.Running?
            <==> CountOn(s.rows, s.turns[i].user, dayOf(s.clock), dayOf) < s.turns[i].limit
  {
    var s := Run(s0, steps, dayOf);
    RunKeepsRowsPast(s0, steps, dayOf);
    TodayIsSinceMidnight(s.rows, s.turns[i].user, dayOf(s.clock), s.clock, dayOf);
  }

  /** The turns of `user` that got their answer and whose recording did not fail. */
  function Answered(s: State, steps: seq<Step>, user: User, dayOf: int -> int): nat
    requires AllEnabled(s, steps, dayOf)
    decreases |steps|
  {
    if steps == [] then 0
    else
      var step := steps[0];
      Answered(Apply(s, step, dayOf), steps[1..], user, dayOf)
      + if step.TurnStep? && !step.fault && s.turns[step.i].pc.Running? && s.turns[step.i].user == user then 1 else 0
  }

  function RowsOf(rows: seq<Row>, user: User): nat {
    if rows == [] then 0 else RowsOf(rows[..|rows| - 1], user) + if rows[|rows| - 1].user == user then 1 else 0
  }

  lemma {:induction false} RowsOfStep(s: State, step: Step, user: User, dayOf: int -> int)
    requires Enabled(s, step)
    ensures RowsOf(Apply(s, step, dayOf).rows, user) ==
            RowsOf(s.rows, user)
            + if step.TurnStep? && !step.fault && s.turns[step.i].pc.Running? && s.turns[step.i].user == user
              then 1 else 0
  {
    if step.TurnStep? && !step.fault && s.turns[step.i].pc.Running? {
      var row := Row(s.turns[step.i].user, s.clock);
      assert (s.rows + [row])[..|s.rows|] == s.rows;
    }
  }

  /** Every answered turn is recorded once, and nothing else is. */
  lemma {:induction false} AnsweredTurnsAreRecorded(s: State, steps: seq<Step>, user: User, dayOf: int -> int)
    requires AllEnabled(s, steps, dayOf)
    ensures RowsOf(Run(s, steps, dayOf).rows, user) == RowsOf(s.rows, user) + Answered(s, steps, user, dayOf)
    decreases |steps|
  {
    if steps != [] {
      RowsOfStep(s, steps[0], user, dayOf);
      AnsweredTurnsAreRecorded(Apply(s, steps[0], dayOf), steps[1..], user, dayOf);
    }
  }

  /** The steps of one turn that meets no obstacle. */
  function Turning(user: User, limit: int, i: nat): seq<Step> {
    [Arrive(user, limit)] + seq(5, _ => TurnStep(i, false))
  }

  /** From any state a user with no turn in flight and room under the limit gets an answer:
      the turn can always run to its end, is recorded, and leaves the user free. */
  lemma {:induction false} TurnGoesThrough(s: State, user: User, limit: int, dayOf: int -> int)
    requires user !in s.busy && CountSince(s.rows, user, dayOf(s.clock)) < limit
    ensures var steps := Turning(user, limit, |s.turns|);
            && AllEnabled(s, steps, dayOf)
            && (var t := Run(s, steps, dayOf);
                && t.rows == s.rows + [Row(user, s.clock)] && user !in t.busy
                && |t.turns| == |s.turns| + 1 && t.turns[|s.turns|].pc == Over)
  {
    var n, step := |s.turns|, TurnStep(|s.turns|, false);
    var steps := Turning(user, limit, n);
    var s1 := Apply(s, Arrive(user, limit), dayOf);
    var s2 := Apply(s1, step, dayOf);
    var s3 := Apply(s2, step, dayOf);
    var s4 := Apply(s3, step, dayOf);
    var s5 := Apply(s4, step, dayOf);
    var s6 := Apply(s5, step, dayOf);
    assert steps == [Arrive(user, limit), step, step, step, step, step];
    assert steps[1..] == [step, step, step, step, step];
    assert [step, step, step, step, step][1..] == [step, step, step, step];
    assert [step, step, step, step][1..] == [step, step, step];
    assert [step, step, step][1..] == [step, step];
    assert [step, step][1..] == [step] && [step][1..] == [];
    assert AllEnabled(s6, [], dayOf) && Run(s6, [], dayOf) == s6;
    assert AllEnabled(s5, [step], dayOf) && Run(s5, [step], dayOf) == s6;
    assert AllEnabled(s4, [step, step], dayOf) && Run(s4, [step, step], dayOf) == s6;
    assert AllEnabled(s3, [step, step, step], dayOf) && Run(s3, [step, step, step], dayOf) == s6;
    assert AllEnabled(s2, [step, step, step, step], dayOf) && Run(s2, [step, step, step, step], dayOf) == s6;
    assert AllEnabled(s1, [step, step, step, step, step], dayOf);
    assert Run(s1, [step, step, step, step, step], dayOf) == s6;
  }

  // ---------------------------------------------------------------- the gate

  /** a.busy and the two methods around it: the protocol's steps into and out of flight. */
  class Gate {
    var busy: set<User>

    constructor ()
      ensures busy == {}
    {
      busy := {};
    }

    method Begin(user: User, ghost s: State, ghost i: nat, ghost dayOf: int -> int) returns (admitted: bool)
      requires busy == s.busy && i < |s.turns| && s.turns[i].pc.Arrived? && s.turns[i].user == user
      modifies this
      ensures var t := Apply(s, TurnStep(i, false), dayOf);
              busy == t.busy && admitted == Holds(t.turns[i], user)
    {
      if user in busy { return false; }
      busy := busy + {user};
      admitted := true;
    }

    method End(user: User, ghost s: State, ghost i: nat, ghost max: nat, ghost dayOf: int -> int)
      requires busy == s.busy && i < |s.turns| && s.turns[i].pc.Leaving? && s.turns[i].user == user
      requires Inv(s, max, dayOf)
      modifies this
      ensures var t := Apply(s, TurnStep(i, false), dayOf);
              && busy == t.busy
              && (forall j :: 0 <= j < |t.turns| ==> !Holds(t.turns[j], user))
              && (forall u :: u in busy <==> exists j :: 0 <= j < |t.turns| && Holds(t.turns[j], u))
    {
      busy := busy - {user};
      ghost var t := Apply(s, TurnStep(i, false), dayOf);
      BusyStep(s, TurnStep(i, false), max, dayOf);
      forall j | 0 <= j < |t.turns| && t.turns[j].InFlight() ensures t.turns[j].user in t.busy {
        assert j != i && t.turns[j] == s.turns[j] && TurnOk(s, s.turns[j], max, dayOf);
        assert s.turns[j].user != user;
      }
    }
  }
}
