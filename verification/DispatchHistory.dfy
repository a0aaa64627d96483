/** Which published plan the edge was following at an hour
    (internal/api/dispatch_history.go, plansInForce). */
module DispatchHistory {
  import opened Wrappers

  /** One planned hour; `plan` stands for its figures. */
  datatype RunHour = RunHour(ts: int, plan: int)

  /** A published run: when it was issued, the hour it starts at, what it covers. */
  datatype Run = Run(runAt: int, startHour: int, hours: seq<RunHour>)

  function Find(hours: seq<RunHour>, ts: int): Option<RunHour> {
    if hours == [] then None
    else if hours[0].ts == ts then Some(hours[0])
    else Find(hours[1..], ts)
  }

  /** The scan from the newest run down. */
  function InForce(runs: seq<Run>, ts: int): Option<RunHour> {
    if runs == [] then None
    else
      var older, r := runs[..|runs| - 1], runs[|runs| - 1];
      if r.runAt > ts then InForce(older, ts)
      else if Find(r.hours, ts).Some? then Find(r.hours, ts)
      else if r.startHour <= ts then None
      else InForce(older, ts)
  }

  /** The first planned hour of that very instant, and none only when there is none. */
  lemma {:induction false} FindIs(hours: seq<RunHour>, ts: int)
    ensures Find(hours, ts).None? <==> forall i :: 0 <= i < |hours| ==> hours[i].ts != ts
    ensures Find(hours, ts).Some? ==>
              exists i :: 0 <= i < |hours| && Find(hours, ts) == Some(hours[i]) && hours[i].ts == ts
                          && forall j :: 0 <= j < i ==> hours[j].ts != ts
  {
    if hours != [] && hours[0].ts != ts {
      FindIs(hours[1..], ts);
      if Find(hours, ts).Some? {
        var i :| 0 <= i < |hours[1..]| && Find(hours[1..], ts) == Some(hours[1..][i]) && hours[1..][i].ts == ts
                 && forall j :: 0 <= j < i ==> hours[1..][j].ts != ts;
        forall j | 0 <= j < i + 1 ensures hours[j].ts != ts { if j > 0 { assert hours[1..][j - 1].ts != ts; } }
        assert hours[i + 1] == hours[1..][i];
      } else {
        forall j | 0 <= j < |hours| ensures hours[j].ts != ts { if j > 0 { assert hours[1..][j - 1].ts != ts; } }
      }
    }
  }

  /** What is in force at an hour is planned for that hour, by some run published by then. */
  lemma {:induction false} InForceIsForHour(runs: seq<Run>, ts: int)
    ensures InForce(runs, ts).Some? ==>
              InForce(runs, ts).value.ts == ts
              && exists i :: 0 <= i < |runs| && runs[i].runAt <= ts && InForce(runs, ts).value in runs[i].hours
  {
    if runs != [] {
      var n := |runs| - 1;
      InForceIsForHour(runs[..n], ts);
      FindIs(runs[n].hours, ts);
      if runs[n].runAt <= ts && Find(runs[n].hours, ts).Some? {
        assert InForce(runs, ts).value in runs[n].hours;
      } else if InForce(runs, ts).Some? {
        var i :| 0 <= i < n && runs[..n][i].runAt <= ts && InForce(runs[..n], ts).value in runs[..n][i].hours;
        assert InForce(runs, ts).value in runs[i].hours;
      }
    }
  }

  method FindHour(hours: seq<RunHour>, ts: int) returns (found: Option<RunHour>)
    ensures found == Find(hours, ts)
  {
    for i := 0 to |hours|
      invariant Find(hours, ts) == Find(hours[i..], ts)
    {
      if hours[i].ts == ts { return Some(hours[i]); }
      assert hours[i..][1..] == hours[i + 1..];
    }
    found := None;
  }

  /** For each hour asked, the planned hour in force, or no entry. */
  method PlansInForce(runs: seq<Run>, hours: seq<int>) returns (out: map<int, RunHour>)
    ensures forall ts :: ts in out <==> ts in hours && InForce(runs, ts).Some?
    ensures forall ts :: ts in out ==> InForce(runs, ts) == Some(out[ts])
    ensures forall ts :: ts in out ==> out[ts].ts == ts
  {
    forall ts ensures InForce(runs, ts).Some? ==> InForce(runs, ts).value.ts == ts { InForceIsForHour(runs, ts); }
    out := map[];
    for h := 0 to |hours|
      invariant forall ts :: ts in out <==> ts in hours[..h] && InForce(runs, ts).Some?
      invariant forall ts :: ts in out ==> InForce(runs, ts) == Some(out[ts])
    {
      var ts := hours[h];
      var i := |runs| - 1;
      var answer := None;
      assert runs[..|runs|] == runs;
      while i >= 0
        invariant -1 <= i < |runs|
        invariant answer == None && InForce(runs, ts) == InForce(runs[..i + 1], ts)
        decreases i
      {
        assert runs[..i + 1][..i] == runs[..i];
        if runs[i].runAt > ts { i := i - 1; continue; }
        var found := FindHour(runs[i].hours, ts);
        if found != None { answer := found; break; }
        if runs[i].startHour <= ts { break; }
        i := i - 1;
      }
      assert answer == InForce(runs, ts);
      if answer != None { out := out[ts := answer.value]; }
    }
    assert hours[..|hours|] == hours;
  }

  predicate Published(r: Run, ts: int) { r.runAt <= ts }

  /** Run `i` covers the hour, and every newer run published by then neither
      covers it nor starts by it. */
  predicate Answers(runs: seq<Run>, ts: int, i: nat) {
    && i < |runs| && Published(runs[i], ts) && Find(runs[i].hours, ts).Some?
    && (forall j :: i < j < |runs| && Published(runs[j], ts) ==>
          Find(runs[j].hours, ts) == None && ts < runs[j].startHour)
  }

  /** What the scan returns, for any runs: the answering run's hour, if one answers. */
  lemma {:induction false} InForceIsAnswer(runs: seq<Run>, ts: int)
    ensures InForce(runs, ts).Some? <==> exists i: nat :: Answers(runs, ts, i)
    ensures forall i: nat :: Answers(runs, ts, i) ==> InForce(runs, ts) == Find(runs[i].hours, ts)
  {
    if runs != [] {
      var n := |runs| - 1;
      var older, r := runs[..n], runs[n];
      InForceIsAnswer(older, ts);
      var passed := !Published(r, ts) || (Find(r.hours, ts) == None && ts < r.startHour);
      forall i: nat | i < n ensures Answers(runs, ts, i) <==> passed && Answers(older, ts, i) {
        forall j | i < j < n ensures older[j] == runs[j] {}
      }
      assert Answers(runs, ts, n) <==> Published(r, ts) && Find(r.hours, ts).Some?;
      if InForce(runs, ts).Some? && passed {
        var i: nat :| Answers(older, ts, i);
        assert Answers(runs, ts, i);
      }
    }
  }

  /** Runs come oldest first, so the last one published by the hour is the newest. */
  predicate Newest(runs: seq<Run>, ts: int, i: nat) {
    && i < |runs| && Published(runs[i], ts)
    && (forall j :: i < j < |runs| ==> !Published(runs[j], ts))
  }

  /** When every run starts no later than it is issued, the hour's plan is exactly
      what the newest run published by then says, and there is none when that run
      does not cover the hour or no run was published. */
  lemma NewestRunDecides(runs: seq<Run>, ts: int)
    requires forall i :: 0 <= i < |runs| ==> runs[i].startHour <= runs[i].runAt
    ensures forall i: nat :: Newest(runs, ts, i) ==> InForce(runs, ts) == Find(runs[i].hours, ts)
    ensures (forall i :: 0 <= i < |runs| ==> !Published(runs[i], ts)) ==> InForce(runs, ts) == None
  {
    InForceIsAnswer(runs, ts);
    forall i: nat | Newest(runs, ts, i) ensures InForce(runs, ts) == Find(runs[i].hours, ts) {
      if Find(runs[i].hours, ts).Some? {
        assert Answers(runs, ts, i);
      }
    }
  }
}
