/** The queue between the counter stitcher and the one economics healer
    (cmd/economics-recompute/main.go): a map of pending spans and a wake-up channel that
    holds at most one token. */
module HealQueue {
  import opened Ordering

  /** A stretch of time whose counters changed. */
  datatype Span = Span(from: int, to: int)

  // ---- The protocol ----

  /** The worker between two of its own steps. */
  datatype Worker = Draining | Taking | Healing | Waiting | Stopped

  datatype Job = Job(org: string, spans: seq<Span>)

  /** `posting` counts enqueuers that have queued their spans but not yet posted the token;
      `enqueued` and `handed` record everything that went in and out. */
  datatype State = State(pending: map<string, seq<Span>>, token: bool, posting: nat, worker: Worker,
                         cancelled: bool, enqueued: seq<Job>, handed: seq<Job>)

  datatype Step =
    | Queue(job: Job)      // enqueue, under the lock
    | Post                 // enqueue, the non-blocking send
    | CheckLive            // drain, the loop condition
    | Take(org: string)    // take with something pending
    | TakeNothing
    | HealDone
    | Wake                 // run, a token received
    | Stop                 // run, the context done
    | Cancel

  ghost predicate Least(org: string, pending: map<string, seq<Span>>) {
    org in pending && forall o :: o in pending ==> LexLe(org, o)
  }

  ghost predicate Enabled(s: State, step: Step) {
    match step
    case Queue(_) => true
    case Post => s.posting > 0
    case CheckLive => s.worker == Draining
    case Take(org) => s.worker == Taking && Least(org, s.pending)
    case TakeNothing => s.worker == Taking && s.pending == map[]
    case HealDone => s.worker == Healing
    case Wake => s.worker == Waiting && s.token
    case Stop => s.worker == Waiting && s.cancelled
    case Cancel => true
  }

  function Pending(pending: map<string, seq<Span>>, org: string): seq<Span> {
    if org in pending then pending[org] else []
  }

  function Apply(s: State, step: Step): State
    requires step.Take? ==> step.org in s.pending
    requires step.Post? ==> s.posting > 0
  {
    match step
    case Queue(job) =>
      s.(pending := s.pending[job.org := Pending(s.pending, job.org) + job.spans], posting := s.posting + 1,
         enqueued := s.enqueued + [job])
    case Post => s.(token := true, posting := s.posting - 1)
    case CheckLive => s.(worker := if s.cancelled then Waiting else Taking)
    case Take(org) =>
      s.(pending := s.pending - {org}, worker := Healing, handed := s.handed + [Job(org, s.pending[org])])
    case TakeNothing => s.(worker := Waiting)
    case HealDone => s.(worker := Draining)
    case Wake => s.(token := false, worker := Draining)
    case Stop => s.(worker := Stopped)
    case Cancel => s.(cancelled := true)
  }

  const INITIAL := State(map[], false, 0, Draining, false, [], [])

  ghost predicate Run(states: seq<State>, steps: seq<Step>) {
    && |states| == |steps| + 1 && states[0] == INITIAL
    && forall i :: 0 <= i < |steps| ==> Enabled(states[i], steps[i]) && states[i+1] == Apply(states[i], steps[i])
  }

  /** The spans of one organization, in order. */
  function Of(jobs: seq<Job>, org: string): seq<Span> {
    if jobs == [] then []
    else
      var last := jobs[|jobs|-1];
      Of(jobs[..|jobs|-1], org) + if last.org == org then last.spans else []
  }

  lemma OfSnoc(jobs: seq<Job>, job: Job, org: string)
    ensures Of(jobs + [job], org) == Of(jobs, org) + if job.org == org then job.spans else []
  {
    assert (jobs + [job])[..|jobs|] == jobs;
  }

  /** A worker that sleeps over pending work has a token waiting or about to be posted, and
      what each organization enqueued is what was handed over followed by what is pending. */
  ghost predicate Inv(s: State) {
    && (s.worker == Waiting && !s.cancelled && s.pending != map[] ==> s.token || s.posting > 0)
    && (s.worker == Stopped ==> s.cancelled)
    && (forall org :: InOrder(s, org))
  }

  ghost predicate InOrder(s: State, org: string) {
    Of(s.enqueued, org) == Of(s.handed, org) + Pending(s.pending, org)
  }

  lemma QueueKeepsOrder(s: State, job: Job, org: string)
    requires InOrder(s, org)
    ensures InOrder(Apply(s, Queue(job)), org)
  {
    OfSnoc(s.enqueued, job, org);
    if org == job.org {
      var out, left := Of(s.handed, org), Pending(s.pending, org);
      assert (out + left) + job.spans == out + (left + job.spans);
    }
  }

  lemma {:induction false} TakeKeepsOrder(s: State, taken: string, org: string)
    requires taken in s.pending && InOrder(s, org)
    ensures InOrder(Apply(s, Take(taken)), org)
  {
    var handed, out, left := s.handed + [Job(taken, s.pending[taken])], Of(s.handed, org), Pending(s.pending, org);
    OfSnoc(s.handed, Job(taken, s.pending[taken]), org);
    if org == taken {
      assert Of(handed, org) == out + left && Pending(s.pending - {taken}, org) == [];
      assert (out + left) + [] == out + left;
    } else {
      assert Of(handed, org) == out + [] == out && Pending(s.pending - {taken}, org) == left;
    }
  }

  lemma OrderStep(s: State, step: Step, org: string)
    requires Enabled(s, step) && InOrder(s, org)
    ensures InOrder(Apply(s, step), org)
  {
    if step.Queue? {
      QueueKeepsOrder(s, step.job, org);
    } else if step.Take? {
      TakeKeepsOrder(s, step.org, org);
    }
  }

  lemma InvStep(s: State, step: Step)
    requires Inv(s) && Enabled(s, step)
    ensures Inv(Apply(s, step))
  {
    forall org ensures InOrder(Apply(s, step), org) { OrderStep(s, step, org); }
  }

  lemma {:induction false} InvRun(states: seq<State>, steps: seq<Step>, n: nat)
    requires Run(states, steps) && n < |states|
    ensures Inv(states[n])
  {
    if n > 0 {
      InvRun(states, steps, n - 1);
      assert states[n] == Apply(states[n-1], steps[n-1]);
      InvStep(states[n-1], steps[n-1]);
    }
  }

  /** No lost wake-up: in every reachable state with the worker asleep and no enqueuer between
      its two steps, pending work means a token that will wake it. */
  lemma NoLostWakeUp(states: seq<State>, steps: seq<Step>, n: nat)
    requires Run(states, steps) && n < |states|
    ensures var s := states[n];
            s.worker == Waiting && s.posting == 0 && !s.cancelled && s.pending != map[] ==> s.token
  {
    InvRun(states, steps, n);
  }

  /** No lost work: whatever an organization enqueued has been handed to the healer or is
      still pending, in the order it came in, nothing twice. */
  lemma NoLostWork(states: seq<State>, steps: seq<Step>, n: nat, org: string)
    requires Run(states, steps) && n < |states|
    ensures Of(states[n].enqueued, org) == Of(states[n].handed, org) + Pending(states[n].pending, org)
  {
    InvRun(states, steps, n);
    assert InOrder(states[n], org);
  }

  lemma {:induction false} LeastExists(keys: set<string>)
    requires keys != {}
    ensures exists k :: k in keys && forall o :: o in keys ==> LexLe(k, o)
  {
    var x :| x in keys;
    var rest := keys - {x};
    LexTotal(x, x);
    if rest == {} {
      assert keys == {x};
    } else {
      LeastExists(rest);
      var k :| k in rest && forall o :: o in rest ==> LexLe(k, o);
      LexTotal(x, k);
      var m := if LexLe(x, k) then x else k;
      forall o | o in keys ensures LexLe(m, o) {
        if o != x && m == x {
          assert o in rest;
          LexTransitive(x, k, o);
        }
      }
    }
  }

  /** The worker's own steps. */
  predicate Working(step: Step) {
    !step.Queue? && !step.Post? && !step.Cancel?
  }

  /** The worker only ever rests when there is nothing left to do: in every reachable state
      with no enqueuer mid-way, either it has a step to take, or it was told to stop, or
      every span ever enqueued has been handed to the healer. */
  lemma RestsOnlyWhenDone(states: seq<State>, steps: seq<Step>, n: nat)
    requires Run(states, steps) && n < |states| && states[n].posting == 0
    ensures || (exists step :: Working(step) && Enabled(states[n], step))
            || (states[n].worker == Stopped && states[n].cancelled)
            || (forall org :: Of(states[n].enqueued, org) == Of(states[n].handed, org))
  {
    var s := states[n];
    InvRun(states, steps, n);
    match s.worker
    case Draining => assert Enabled(s, CheckLive) && Working(CheckLive);
    case Taking =>
      if s.pending == map[] {
        assert Enabled(s, TakeNothing) && Working(TakeNothing);
      } else {
        LeastExists(s.pending.Keys);
        var k :| k in s.pending.Keys && forall o :: o in s.pending.Keys ==> LexLe(k, o);
        assert Enabled(s, Take(k)) && Working(Take(k));
      }
    case Healing => assert Enabled(s, HealDone) && Working(HealDone);
    case Waiting =>
      if s.token {
        assert Enabled(s, Wake) && Working(Wake);
      } else if s.cancelled {
        assert Enabled(s, Stop) && Working(Stop);
      } else {
        forall org ensures Of(s.enqueued, org) == Of(s.handed, org) { assert InOrder(s, org); }
      }
    case Stopped =>
  }

  // ---- The worker does no more than it has to ----

  function Rank(w: Worker): nat {
    match w
    case Stopped => 0 case Waiting => 1 case Taking => 2 case Draining => 3 case Healing => 4
  }

  /** A bound on the steps the worker can still take without anything new. */
  function Left(s: State): nat {
    10 * |s.pending.Keys| + (if s.token then 5 else 0) + Rank(s.worker)
  }

  function Count(steps: seq<Step>, kind: Step -> bool): nat {
    if steps == [] then 0
    else Count(steps[..|steps|-1], kind) + if kind(steps[|steps|-1]) then 1 else 0
  }

  /** What one step may add to the bound, the step itself counted. */
  function Adds(step: Step): int {
    if step.Queue? then 10 else if step.Post? then 5 else if step.Cancel? then 0 else -1
  }

  lemma {:induction false} KeysAfterQueue(s: State, job: Job)
    ensures |Apply(s, Queue(job)).pending.Keys| <= |s.pending.Keys| + 1
  {
    assert Apply(s, Queue(job)).pending.Keys == s.pending.Keys + {job.org};
  }

  lemma {:induction false} KeysAfterTake(s: State, org: string)
    requires org in s.pending
    ensures |Apply(s, Take(org)).pending.Keys| == |s.pending.Keys| - 1
  {
    assert Apply(s, Take(org)).pending.Keys == s.pending.Keys - {org};
  }

  lemma {:induction false} StepsUseUp(s: State, step: Step)
    requires Enabled(s, step)
    ensures Left(Apply(s, step)) <= Left(s) + Adds(step)
  {
    match step
    case Queue(job) => KeysAfterQueue(s, job);
    case Take(org) => KeysAfterTake(s, org);
    case _ =>
  }

  predicate IsQueue(step: Step) { step.Queue? }
  predicate IsPost(step: Step) { step.Post? }

  /** No spinning: over every run the number of steps the worker has taken is bounded by what
      was enqueued, however the wake-ups fall. */
  lemma {:induction false} WorkIsBounded(states: seq<State>, steps: seq<Step>, n: nat)
    requires Run(states, steps) && n < |states|
    ensures Count(steps[..n], Working) + Left(states[n])
            <= 3 + 10 * Count(steps[..n], IsQueue) + 5 * Count(steps[..n], IsPost)
  {
    if n > 0 {
      WorkIsBounded(states, steps, n - 1);
      assert steps[..n][..n-1] == steps[..n-1] && steps[..n][n-1] == steps[n-1];
      StepsUseUp(states[n-1], steps[n-1]);
    }
  }

  /** The enqueuers between their two steps are those that queued and have not posted. */
  lemma {:induction false} PostingCounts(states: seq<State>, steps: seq<Step>, n: nat)
    requires Run(states, steps) && n < |states|
    ensures states[n].posting + Count(steps[..n], IsPost) == Count(steps[..n], IsQueue)
  {
    if n > 0 {
      PostingCounts(states, steps, n - 1);
      assert steps[..n][..n-1] == steps[..n-1] && steps[..n][n-1] == steps[n-1];
      assert states[n] == Apply(states[n-1], steps[n-1]);
    }
  }

  /** A cancelled worker lets go: once the context is done and no organization is being
      taken, nothing more is handed over. */
  lemma {:induction false} NothingTakenAfterCancel(states: seq<State>, steps: seq<Step>, m: nat, n: nat)
    requires Run(states, steps) && m <= n < |states|
    requires states[m].cancelled && states[m].worker != Taking
    ensures states[n].cancelled && states[n].worker != Taking && states[n].handed == states[m].handed
  {
    if m < n {
      NothingTakenAfterCancel(states, steps, m, n - 1);
      assert states[n] == Apply(states[n-1], steps[n-1]) && Enabled(states[n-1], steps[n-1]);
    }
  }

  // ---- The healer's own operations ----

  class Healer {
    var pending: map<string, seq<Span>>
    var wake: bool

    constructor ()
      ensures pending == map[] && !wake
    {
      pending, wake := map[], false;
    }

    /** Appends the spans under the lock, then posts the token unless one is there: the
        two steps of the protocol. */
    method Enqueue(job: Job, ghost s: State)
      requires s.pending == pending && s.token == wake
      modifies this
      ensures Enabled(s, Queue(job)) && Enabled(Apply(s, Queue(job)), Post)
      ensures var t := Apply(Apply(s, Queue(job)), Post);
              pending == t.pending && wake == t.token && t.posting == s.posting
    {
      pending := pending[job.org := (if job.org in pending then pending[job.org] else []) + job.spans];
      if !wake { wake := true; }
    }

    /** Takes the pending spans of the organization that sorts first. */
    method Take() returns (org: string, spans: seq<Span>, ok: bool)
      modifies `pending
      ensures ok <==> old(pending) != map[]
      ensures ok ==> Least(org, old(pending)) && spans == old(pending)[org] && pending == old(pending) - {org}
      ensures !ok ==> pending == old(pending)
    {
      if |pending| == 0 { return "", [], false; }
      var orgs := Enumerate(pending.Keys);
      LexIsTotalOrder();
      SortCorrect(LexLe, orgs);
      var sorted := Sort(LexLe, orgs);
      assert sorted != [] by {
        var o :| o in pending;
        assert o in sorted;
      }
      org := sorted[0];
      assert org in sorted;
      forall o | o in pending ensures LexLe(org, o) {
        assert o in sorted;
        var i :| 0 <= i < |sorted| && sorted[i] == o;
        assert LexLe(sorted[0], sorted[0]);
      }
      spans := pending[org];
      pending := pending - {org};
      ok := true;
    }
  }
}
