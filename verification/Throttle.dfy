/** The login throttle (internal/auth/session.go) and the password checks that feed it
    (`verifyPassword`, internal/api/auth.go).

    The throttle keeps one failure window per account and forgets windows that have
    ended, both on lookup and when the map grows. Its reference is `Tally`, which folds
    the whole history of failures and resets and forgets nothing. */
module Throttling {
  import opened Wrappers

  /** Map size at which ended windows are dropped. */
  const PRUNE_AT := 1024

  datatype Event = Failed(key: string, at: int) | Cleared(key: string)
  datatype Window = Window(count: int, first: int)

  /** The window `key` is in after the whole history `log`. */
  function Tally(log: seq<Event>, key: string, window: int): Option<Window> {
    if log == [] then None
    else
      var before := Tally(log[..|log|-1], key, window);
      match log[|log|-1]
      case Failed(k, at) => if k == key then Some(Counted(before, at, window)) else before
      case Cleared(k) => if k == key then None else before
  }

  /** The window after one more failure at `at`. */
  function Counted(before: Option<Window>, at: int, window: int): Window {
    if before.None? || at >= before.value.first + window then Window(1, at)
    else before.value.(count := before.value.count + 1)
  }

  predicate Locked(log: seq<Event>, key: string, now: int, max: int, window: int) {
    var w := Tally(log, key, window);
    w.Some? && now < w.value.first + window && w.value.count >= max
  }

  lemma TallySnoc(log: seq<Event>, e: Event, key: string, window: int)
    ensures Tally(log + [e], key, window) ==
            if e.key != key then Tally(log, key, window)
            else if e.Failed? then Some(Counted(Tally(log, key, window), e.at, window))
            else None
  {
    assert (log + [e])[..|log + [e]|-1] == log;
  }

  // ---- What a window says about the history ----

  /** Failures of `key` in `log` at or after `from`. */
  function Failures(log: seq<Event>, key: string, from: int): nat {
    if log == [] then 0
    else
      var e := log[|log|-1];
      Failures(log[..|log|-1], key, from) + if e.Failed? && e.key == key && e.at >= from then 1 else 0
  }

  predicate NoReset(log: seq<Event>, key: string) {
    Cleared(key) !in log
  }

  /** Failure times never decrease. */
  ghost predicate Chronological(log: seq<Event>) {
    forall i, j :: 0 <= i < j < |log| && log[i].Failed? && log[j].Failed? ==> log[i].at <= log[j].at
  }

  /** The window opened at event `i` and holds everything since. */
  ghost predicate OpenedAt(log: seq<Event>, key: string, w: Window, window: int, i: nat) {
    && i < |log| && log[i] == Failed(key, w.first)
    && NoReset(log[i..], key)
    && Failures(log[i..], key, w.first) == w.count
    && (forall j :: i < j < |log| && log[j].Failed? && log[j].key == key ==> log[j].at < w.first + window)
    && (var before := Tally(log[..i], key, window);
        before.None? || w.first >= before.value.first + window)
  }

  lemma OpensWindow(prior: seq<Event>, key: string, at: int, window: int)
    requires var before := Tally(prior, key, window); before.None? || at >= before.value.first + window
    ensures OpenedAt(prior + [Failed(key, at)], key, Window(1, at), window, |prior|)
  {
    var log, i := prior + [Failed(key, at)], |prior|;
    assert log[i..] == [Failed(key, at)] && log[i..][..0] == [] && log[..i] == prior;
  }

  lemma StaysOpen(prior: seq<Event>, e: Event, key: string, w: Window, window: int, i: nat)
    requires OpenedAt(prior, key, w, window, i) && Chronological(prior + [e])
    requires e.key == key ==> e.Failed? && e.at < w.first + window
    ensures OpenedAt(prior + [e], key, if e.key == key then w.(count := w.count + 1) else w, window, i)
  {
    var log := prior + [e];
    assert log[i..] == prior[i..] + [e] && log[i..][..|log[i..]|-1] == prior[i..];
    assert log[..i] == prior[..i];
    assert log[|prior|] == e && log[i] == prior[i];
  }

  /** A window starts at a failure that found none open, counts every failure since,
      has seen no reset, and no failure it counts comes at or after its end. */
  lemma {:induction false} TallyIsOpenWindow(log: seq<Event>, key: string, window: int)
    requires Chronological(log)
    ensures Tally(log, key, window).Some? ==>
              exists i: nat :: OpenedAt(log, key, Tally(log, key, window).value, window, i)
  {
    if log != [] {
      var n := |log| - 1;
      var prior, e := log[..n], log[n];
      assert log == prior + [e];
      TallyIsOpenWindow(prior, key, window);
      var before := Tally(prior, key, window);
      if e.Failed? && e.key == key && (before.None? || e.at >= before.value.first + window) {
        OpensWindow(prior, key, e.at, window);
      } else if before.Some? && (e.Failed? || e.key != key) {
        var i: nat :| OpenedAt(prior, key, before.value, window, i);
        StaysOpen(prior, e, key, before.value, window, i);
      }
    }
  }

  // ---- Password checks ----

  datatype Check = Match | Mismatch | Cancelled
  datatype Attempt = Attempt(key: string, now: int, check: Check)
  datatype Outcome = Throttled(retryAfter: int) | BadCredentials | Accepted | Aborted

  /** What one check answers and appends to the history. */
  function Verify(log: seq<Event>, a: Attempt, max: int, window: int): (Outcome, seq<Event>) {
    if Locked(log, a.key, a.now, max, window) then
      (Throttled(Tally(log, a.key, window).value.first + window - a.now), log)
    else match a.check
      case Cancelled => (Aborted, log)
      case Mismatch => (BadCredentials, log + [Failed(a.key, a.now)])
      case Match => (Accepted, log + [Cleared(a.key)])
  }

  /** The history after checks made one after the other. */
  function Run(attempts: seq<Attempt>, max: int, window: int): seq<Event> {
    if attempts == [] then []
    else Verify(Run(attempts[..|attempts|-1], max, window), attempts[|attempts|-1], max, window).1
  }

  ghost predicate ClockForward(attempts: seq<Attempt>) {
    forall i, j :: 0 <= i < j < |attempts| ==> attempts[i].now <= attempts[j].now
  }

  /** Every failure was let through by the throttle. */
  ghost predicate Admitted(log: seq<Event>, max: int, window: int) {
    && Chronological(log)
    && forall i :: 0 <= i < |log| && log[i].Failed? ==> !Locked(log[..i], log[i].key, log[i].at, max, window)
  }

  lemma {:induction false} RunAdmits(attempts: seq<Attempt>, max: int, window: int)
    requires ClockForward(attempts)
    ensures Admitted(Run(attempts, max, window), max, window)
    ensures forall e :: e in Run(attempts, max, window) && e.Failed? ==>
              attempts != [] && e.at <= attempts[|attempts|-1].now
  {
    if attempts != [] {
      var n := |attempts| - 1;
      RunAdmits(attempts[..n], max, window);
      var log, a := Run(attempts[..n], max, window), attempts[n];
      var after := Run(attempts, max, window);
      forall e | e in log && e.Failed? ensures e.at <= a.now {
        assert attempts[..n] != [];
      }
      if after != log {
        assert after[..|log|] == log;
        forall i | 0 <= i < |after| && after[i].Failed?
          ensures !Locked(after[..i], after[i].key, after[i].at, max, window)
        {
          assert i <= |log| && after[..i] == log[..i];
          if i == |log| { assert log[..i] == log; }
        }
      }
    }
  }

  /** Failures of `key` at or after `from`, since its last reset. */
  function Since(log: seq<Event>, key: string, from: int): nat {
    if log == [] then 0
    else
      var e, before := log[|log|-1], Since(log[..|log|-1], key, from);
      if e.key != key then before
      else if e.Cleared? then 0
      else before + if e.at >= from then 1 else 0
  }

  /** The window bounds the failures of every span that reaches back less than a window
      before it started. */
  ghost predicate WindowBounds(log: seq<Event>, key: string, max: int, window: int) {
    match Tally(log, key, window)
    case None => forall x :: Since(log, key, x) == 0
    case Some(w) =>
      && 1 <= w.count <= max
      && (forall x :: x > w.first ==> Since(log, key, x) <= w.count - 1)
      && (forall x :: w.first - window < x <= w.first ==> Since(log, key, x) <= w.count + max - 1)
  }

  lemma {:induction false} SinceAfterLast(log: seq<Event>, key: string, x: int)
    requires forall i :: 0 <= i < |log| && log[i].Failed? ==> log[i].at < x
    ensures Since(log, key, x) == 0
  {
    if log != [] { SinceAfterLast(log[..|log|-1], key, x); }
  }

  lemma {:induction false} AdmittedBounds(log: seq<Event>, key: string, max: int, window: int)
    requires Admitted(log, max, window) && max >= 1
    ensures WindowBounds(log, key, max, window)
  {
    if log != [] {
      var n := |log| - 1;
      var prior, e := log[..n], log[n];
      forall i | 0 <= i < n && prior[i].Failed?
        ensures !Locked(prior[..i], prior[i].key, prior[i].at, max, window)
      {
        assert prior[..i] == log[..i];
      }
      AdmittedBounds(prior, key, max, window);
      if e.Failed? && e.key == key {
        assert log[..n] == prior && !Locked(prior, key, e.at, max, window);
        forall x ensures Since(log, key, x) == Since(prior, key, x) + if e.at >= x then 1 else 0 {}
        forall x | x > e.at ensures Since(prior, key, x) == 0 { SinceAfterLast(prior, key, x); }
      } else if e.key != key {
        forall x ensures Since(log, key, x) == Since(prior, key, x) {}
      }
    }
  }

  /** A window never counts more than the limit: what the throttle is described as allowing. */
  lemma WindowHoldsLimit(attempts: seq<Attempt>, key: string, max: int, window: int)
    requires ClockForward(attempts) && max >= 1
    ensures var w := Tally(Run(attempts, max, window), key, window); w.Some? ==> 1 <= w.value.count <= max
  {
    RunAdmits(attempts, max, window);
    AdmittedBounds(Run(attempts, max, window), key, max, window);
  }

  lemma {:induction false} CountOne(log: seq<Event>, tail: seq<Event>, e: Event, key: string, at: int, window: int)
    requires Tally(log, key, window) == Some(Window(Failures(tail, key, at), at))
    requires e.key == key ==> e.Failed? && at <= e.at < at + window
    ensures Tally(log + [e], key, window) == Some(Window(Failures(tail + [e], key, at), at))
  {
    TallySnoc(log, e, key, window);
    assert (tail + [e])[..|tail|] == tail;
  }

  lemma {:induction false} CountOpening(prior: seq<Event>, key: string, at: int, window: int)
    requires var before := Tally(prior, key, window); before.None? || at >= before.value.first + window
    ensures var e := Failed(key, at); Tally(prior + [e], key, window) == Some(Window(Failures([e], key, at), at))
  {
    TallySnoc(prior, Failed(key, at), key, window);
    assert [Failed(key, at)][..0] == [];
  }

  lemma {:induction false} CountNext(log: seq<Event>, key: string, cut: nat, at: int, window: int)
    requires cut < |log| - 1 && NoReset(log[cut..], key)
    requires var e := log[|log|-1]; e.Failed? && e.key == key ==> at <= e.at < at + window
    requires var prior := log[..|log|-1]; Tally(prior, key, window) == Some(Window(Failures(prior[cut..], key, at), at))
    ensures Tally(log, key, window) == Some(Window(Failures(log[cut..], key, at), at))
  {
    var prior, e := log[..|log|-1], log[|log|-1];
    LessResets(log, key, cut);
    CountOne(prior, prior[cut..], e, key, at, window);
    assert log == prior + [e];
  }

  lemma {:induction false} WindowCounts(log: seq<Event>, key: string, cut: nat, window: int)
    requires cut < |log| && log[cut].Failed? && log[cut].key == key && NoReset(log[cut..], key)
    requires var before := Tally(log[..cut], key, window); before.None? || log[cut].at >= before.value.first + window
    requires forall i :: cut < i < |log| && log[i].Failed? && log[i].key == key ==>
               log[cut].at <= log[i].at < log[cut].at + window
    ensures Tally(log, key, window) == Some(Window(Failures(log[cut..], key, log[cut].at), log[cut].at))
  {
    var n, at := |log| - 1, log[cut].at;
    if cut == n {
      assert log == log[..n] + [log[n]] && log[n..] == [log[n]];
      CountOpening(log[..n], key, at, window);
    } else {
      var prior := log[..n];
      LessResets(log, key, cut);
      assert prior[..cut] == log[..cut];
      WindowCounts(prior, key, cut, window);
      CountNext(log, key, cut, at, window);
    }
  }

  lemma {:induction false} LessResets(log: seq<Event>, key: string, cut: nat)
    requires cut < |log| && NoReset(log[cut..], key)
    ensures var n := |log| - 1; log[cut..] == log[..n][cut..] + [log[n]]
    ensures NoReset(log[..|log|-1][cut..], key) && log[|log|-1] != Cleared(key)
  {
    var n := |log| - 1;
    var tail := log[cut..];
    assert tail[n - cut] == log[n];
    forall x | x in log[..n][cut..] ensures x in tail {
      var k :| 0 <= k < n - cut && log[..n][cut..][k] == x;
      assert tail[k] == x;
    }
  }

  /** A span that starts where a window opens holds no more than the limit: take any stretch of
      the history that begins with a failure finding no window open, spans no reset of the
      key and ends before that window does. */
  lemma OpeningSpanHoldsLimit(attempts: seq<Attempt>, key: string, cut: nat, max: int, window: int)
    requires ClockForward(attempts) && max >= 1 && cut < |Run(attempts, max, window)|
    requires var log := Run(attempts, max, window);
             && log[cut].Failed? && log[cut].key == key && NoReset(log[cut..], key)
             && (var before := Tally(log[..cut], key, window);
                 before.None? || log[cut].at >= before.value.first + window)
             && forall i :: cut < i < |log| && log[i].Failed? && log[i].key == key ==> log[i].at < log[cut].at + window
    ensures var log := Run(attempts, max, window); Failures(log[cut..], key, log[cut].at) <= max
  {
    var log := Run(attempts, max, window);
    RunAdmits(attempts, max, window);
    WindowCounts(log, key, cut, window);
    AdmittedBounds(log, key, max, window);
  }

  lemma {:induction false} FailuresWithin(log: seq<Event>, key: string, cut: nat, from: int)
    requires cut <= |log| && NoReset(log[cut..], key)
    ensures Failures(log[cut..], key, from) <= Since(log, key, from)
  {
    if cut < |log| {
      var n := |log| - 1;
      assert log[cut..][..|log[cut..]|-1] == log[..n][cut..];
      assert log[n] in log[cut..];
      FailuresWithin(log[..n], key, cut, from);
    }
  }

  lemma {:induction false} SomeFailureOpensWindow(log: seq<Event>, key: string, cut: nat, window: int)
    requires cut <= |log| && NoReset(log[cut..], key) && Chronological(log)
    requires exists i :: cut <= i < |log| && log[i].Failed? && log[i].key == key
    ensures Tally(log, key, window).Some?
    ensures exists i :: cut <= i < |log| && log[i].Failed? && log[i].key == key
                     && Tally(log, key, window).value.first <= log[i].at
  {
    var n := |log| - 1;
    assert log[n] in log[cut..];
    if log[n].Failed? && log[n].key == key {
      TallyIsOpenWindow(log, key, window);
      var i: nat :| OpenedAt(log, key, Tally(log, key, window).value, window, i);
      assert log[i].at <= log[n].at;
    } else {
      assert log[..n][cut..] == log[cut..][..n-cut];
      SomeFailureOpensWindow(log[..n], key, cut, window);
    }
  }

  /** A failure in the stretch leaves a window that opened before the span's end. */
  lemma {:induction false} SpanOpensWindow(log: seq<Event>, key: string, cut: nat, from: int, window: int)
    requires Chronological(log) && cut <= |log| && NoReset(log[cut..], key)
    requires forall e :: e in log[cut..] && e.Failed? && e.key == key ==> e.at < from + window
    requires Failures(log[cut..], key, from) > 0
    ensures Tally(log, key, window).Some? && Tally(log, key, window).value.first < from + window
  {
    var tail := log[cut..];
    FailureExists(tail, key, from);
    var k :| 0 <= k < |tail| && tail[k].Failed? && tail[k].key == key;
    assert log[cut + k] == tail[k];
    SomeFailureOpensWindow(log, key, cut, window);
    var i :| cut <= i < |log| && log[i].Failed? && log[i].key == key
      && Tally(log, key, window).value.first <= log[i].at;
    assert tail[i - cut] == log[i];
  }

  lemma {:induction false} BoundAtSpan(log: seq<Event>, key: string, from: int, max: int, window: int)
    requires WindowBounds(log, key, max, window)
    requires Tally(log, key, window).Some? && Tally(log, key, window).value.first < from + window
    ensures Since(log, key, from) <= 2 * max - 1
  {
  }

  lemma {:induction false} AdmittedSpan(log: seq<Event>, key: string, cut: nat, from: int, max: int, window: int)
    requires Admitted(log, max, window) && max >= 1 && cut <= |log| && NoReset(log[cut..], key)
    requires forall e :: e in log[cut..] && e.Failed? && e.key == key ==> from <= e.at < from + window
    ensures Failures(log[cut..], key, from) <= 2 * max - 1
  {
    if Failures(log[cut..], key, from) > 0 {
      SpanOpensWindow(log, key, cut, from, window);
      AdmittedBounds(log, key, max, window);
      BoundAtSpan(log, key, from, max, window);
      FailuresWithin(log, key, cut, from);
    }
  }

  /** Between two resets, no half-open span of one window holds 2*max failures.

      `Run(...)[cut..]` is any stretch of the history without a reset of the key. */
  lemma SpanHoldsFewFailures(attempts: seq<Attempt>, key: string, cut: nat, from: int, max: int, window: int)
    requires ClockForward(attempts) && max >= 1
    requires cut <= |Run(attempts, max, window)|
    requires NoReset(Run(attempts, max, window)[cut..], key)
    requires forall e :: e in Run(attempts, max, window)[cut..] && e.Failed? && e.key == key ==>
               from <= e.at < from + window
    ensures Failures(Run(attempts, max, window)[cut..], key, from) <= 2 * max - 1
  {
    RunAdmits(attempts, max, window);
    AdmittedSpan(Run(attempts, max, window), key, cut, from, max, window);
  }

  lemma {:induction false} FailureExists(log: seq<Event>, key: string, from: int)
    requires Failures(log, key, from) > 0
    ensures exists k :: 0 <= k < |log| && log[k].Failed? && log[k].key == key
  {
    var n := |log| - 1;
    if !(log[n].Failed? && log[n].key == key) {
      FailureExists(log[..n], key, from);
      var k :| 0 <= k < n && log[..n][k].Failed? && log[..n][k].key == key;
      assert log[k].Failed?;
    }
  }

  // ---- Who is let through ----

  /** What attempt `i` is answered. */
  function Answer(attempts: seq<Attempt>, i: nat, max: int, window: int): Outcome
    requires i < |attempts|
  {
    Verify(Run(attempts[..i], max, window), attempts[i], max, window).0
  }

  /** Wrong passwords for `key` among the attempts from `from` on. */
  function WrongSince(attempts: seq<Attempt>, key: string, from: nat): nat {
    if |attempts| <= from then 0
    else
      var last := attempts[|attempts|-1];
      WrongSince(attempts[..|attempts|-1], key, from) + if last.key == key && last.check == Mismatch then 1 else 0
  }

  lemma RunNext(attempts: seq<Attempt>, n: nat, max: int, window: int)
    requires 0 < n <= |attempts|
    ensures Run(attempts[..n], max, window) == Verify(Run(attempts[..n-1], max, window), attempts[n-1], max, window).1
  {
    assert attempts[..n][..n-1] == attempts[..n-1];
  }

  lemma WrongSinceNext(attempts: seq<Attempt>, n: nat, key: string, from: nat)
    requires from < n <= |attempts|
    ensures var a := attempts[n-1];
            WrongSince(attempts[..n], key, from)
            == WrongSince(attempts[..n-1], key, from) + if a.key == key && a.check == Mismatch then 1 else 0
  {
    assert attempts[..n][..n-1] == attempts[..n-1];
  }

  /** After `n` attempts the account's window counts at most the wrong passwords from attempt
      `from` on. */
  predicate CountsAtMost(attempts: seq<Attempt>, key: string, from: nat, n: nat, max: int, window: int)
    requires n <= |attempts|
  {
    var w := Tally(Run(attempts[..n], max, window), key, window);
    w.Some? ==> w.value.count <= WrongSince(attempts[..n], key, from)
  }

  lemma NoneAfterAccepted(attempts: seq<Attempt>, p: nat, max: int, window: int)
    requires p < |attempts| && Answer(attempts, p, max, window) == Accepted
    ensures CountsAtMost(attempts, attempts[p].key, p + 1, p + 1, max, window)
  {
    var key := attempts[p].key;
    RunNext(attempts, p + 1, max, window);
    TallySnoc(Run(attempts[..p], max, window), Cleared(key), key, window);
  }

  lemma OneMoreCounted(attempts: seq<Attempt>, key: string, from: nat, n: nat, max: int, window: int)
    requires from < n <= |attempts| && CountsAtMost(attempts, key, from, n - 1, max, window)
    ensures CountsAtMost(attempts, key, from, n, max, window)
  {
    RunNext(attempts, n, max, window);
    WrongSinceNext(attempts, n, key, from);
    OneAttemptTally(Run(attempts[..n-1], max, window), attempts[n-1], key, max, window);
  }

  lemma OneAttemptTally(log: seq<Event>, a: Attempt, key: string, max: int, window: int)
    ensures var was, now := Tally(log, key, window), Tally(Verify(log, a, max, window).1, key, window);
            now.Some? ==> now.value.count <= (if was.Some? && was.value.count > 0 then was.value.count else 0)
                                             + if a.key == key && a.check == Mismatch then 1 else 0
  {
    if !Locked(log, a.key, a.now, max, window) {
      TallySnoc(log, Failed(a.key, a.now), key, window);
      TallySnoc(log, Cleared(a.key), key, window);
    }
  }

  lemma {:induction false} CountedSinceAccepted(attempts: seq<Attempt>, p: nat, n: nat, max: int, window: int)
    requires p < n <= |attempts| && Answer(attempts, p, max, window) == Accepted
    ensures CountsAtMost(attempts, attempts[p].key, p + 1, n, max, window)
  {
    if n == p + 1 {
      NoneAfterAccepted(attempts, p, max, window);
    } else {
      CountedSinceAccepted(attempts, p, n - 1, max, window);
      OneMoreCounted(attempts, attempts[p].key, p + 1, n, max, window);
    }
  }

  /** After an accepted password the account has its whole allowance again: until `max` more
      wrong passwords, no attempt for it is refused. */
  lemma AcceptedStartsAfresh(attempts: seq<Attempt>, p: nat, i: nat, max: int, window: int)
    requires p < i < |attempts| && Answer(attempts, p, max, window) == Accepted
    requires attempts[i].key == attempts[p].key
    requires WrongSince(attempts[..i], attempts[p].key, p + 1) < max
    ensures !Answer(attempts, i, max, window).Throttled?
  {
    CountedSinceAccepted(attempts, p, i, max, window);
  }

  /** The other way round the lock holds: once `max` wrong passwords have been counted since a
      window opened, every attempt before it ends is refused, right or wrong, for exactly
      the time that is left. */
  lemma LockHoldsToTheEnd(log: seq<Event>, a: Attempt, cut: nat, max: int, window: int)
    requires cut < |log| && log[cut].Failed? && log[cut].key == a.key && NoReset(log[cut..], a.key)
    requires var before := Tally(log[..cut], a.key, window); before.None? || log[cut].at >= before.value.first + window
    requires forall i :: cut < i < |log| && log[i].Failed? && log[i].key == a.key ==>
               log[cut].at <= log[i].at < log[cut].at + window
    requires Failures(log[cut..], a.key, log[cut].at) >= max && a.now < log[cut].at + window
    ensures Verify(log, a, max, window) == (Throttled(log[cut].at + window - a.now), log)
  {
    WindowCounts(log, a.key, cut, window);
  }

  // ---- The bound is reached ----

  /** `n` wrong passwords at one moment, and the failures they leave. */
  function Wrong(key: string, now: int, n: nat): (r: seq<Attempt>)
    ensures |r| == n
  {
    if n == 0 then [] else Wrong(key, now, n - 1) + [Attempt(key, now, Mismatch)]
  }

  function Fails(key: string, now: int, n: nat): (r: seq<Event>)
    ensures |r| == n
  {
    if n == 0 then [] else Fails(key, now, n - 1) + [Failed(key, now)]
  }

  /** The window `n` failures at `now` lead to. */
  function After(w: Option<Window>, now: int, n: nat, window: int): Option<Window> {
    if n == 0 then w
    else if w.Some? && now < w.value.first + window then Some(Window(w.value.count + n, w.value.first))
    else Some(Window(n, now))
  }

  lemma {:induction false} AllAlike(key: string, now: int, n: nat, i: nat)
    requires i < n
    ensures Wrong(key, now, n)[i] == Attempt(key, now, Mismatch)
    ensures Fails(key, now, n)[i] == Failed(key, now)
  {
    if i < n - 1 { AllAlike(key, now, n - 1, i); }
  }

  lemma {:induction false} OneMoreFailure(log: seq<Event>, key: string, now: int, n: nat, w: Option<Window>,
                                          window: int)
    requires window >= 1 && Tally(log, key, window) == After(w, now, n, window)
    ensures Tally(log + [Failed(key, now)], key, window) == After(w, now, n + 1, window)
  {
    TallySnoc(log, Failed(key, now), key, window);
  }

  lemma {:induction false} FailsSnoc(log: seq<Event>, key: string, now: int, n: nat)
    requires n > 0
    ensures log + Fails(key, now, n) == (log + Fails(key, now, n - 1)) + [Failed(key, now)]
  {
  }

  lemma {:induction false} WrongSnoc(prior: seq<Attempt>, key: string, now: int, n: nat)
    requires n > 0
    ensures prior + Wrong(key, now, n) == (prior + Wrong(key, now, n - 1)) + [Attempt(key, now, Mismatch)]
  {
  }

  lemma {:induction false} FailsTally(log: seq<Event>, key: string, now: int, n: nat, window: int)
    requires window >= 1
    ensures Tally(log + Fails(key, now, n), key, window) == After(Tally(log, key, window), now, n, window)
  {
    if n == 0 {
      assert log + Fails(key, now, 0) == log;
    } else {
      FailsTally(log, key, now, n - 1, window);
      FailsSnoc(log, key, now, n);
      OneMoreFailure(log + Fails(key, now, n - 1), key, now, n - 1, Tally(log, key, window), window);
    }
  }

  lemma OneMore(prior: seq<Attempt>, log: seq<Event>, a: Attempt, max: int, window: int)
    requires Run(prior, max, window) == log
    requires a.check == Mismatch && !Locked(log, a.key, a.now, max, window)
    ensures Run(prior + [a], max, window) == log + [Failed(a.key, a.now)]
  {
    assert (prior + [a])[..|prior + [a]|-1] == prior;
  }

  /** Room for `n` more failures before the account is locked out. */
  predicate Room(w: Option<Window>, now: int, n: nat, max: int, window: int) {
    n <= max && (w.Some? && now < w.value.first + window ==> w.value.count + n <= max)
  }

  lemma {:induction false} WrongStep(prior: seq<Attempt>, log: seq<Event>, key: string, now: int, n: nat,
                                     w: Option<Window>, max: int, window: int)
    requires window >= 1 && Run(prior, max, window) == log
    requires Tally(log, key, window) == After(w, now, n, window) && Room(w, now, n + 1, max, window)
    ensures Run(prior + [Attempt(key, now, Mismatch)], max, window) == log + [Failed(key, now)]
  {
    OneMore(prior, log, Attempt(key, now, Mismatch), max, window);
  }

  lemma {:induction false} WrongNext(prior: seq<Attempt>, log: seq<Event>, key: string, now: int, n: nat,
                                     w: Option<Window>, max: int, window: int)
    requires window >= 1 && n > 0 && Run(prior + Wrong(key, now, n - 1), max, window) == log + Fails(key, now, n - 1)
    requires Tally(log + Fails(key, now, n - 1), key, window) == After(w, now, n - 1, window)
    requires Room(w, now, n, max, window)
    ensures Run(prior + Wrong(key, now, n), max, window) == log + Fails(key, now, n)
  {
    WrongSnoc(prior, key, now, n);
    FailsSnoc(log, key, now, n);
    WrongStep(prior + Wrong(key, now, n - 1), log + Fails(key, now, n - 1), key, now, n - 1, w, max, window);
  }

  lemma {:induction false} WrongAreCounted(prior: seq<Attempt>, log: seq<Event>, key: string, now: int, n: nat,
                                           max: int, window: int)
    requires window >= 1 && log == Run(prior, max, window)
    requires Room(Tally(log, key, window), now, n, max, window)
    ensures Run(prior + Wrong(key, now, n), max, window) == log + Fails(key, now, n)
  {
    if n == 0 {
      assert prior + Wrong(key, now, 0) == prior && log + Fails(key, now, 0) == log;
    } else {
      WrongAreCounted(prior, log, key, now, n - 1, max, window);
      FailsTally(log, key, now, n - 1, window);
      WrongNext(prior, log, key, now, n, Tally(log, key, window), max, window);
    }
  }

  lemma {:induction false} FailuresAllCount(key: string, log: seq<Event>, from: int)
    requires forall e :: e in log ==> e.Failed? && e.key == key && e.at >= from
    ensures Failures(log, key, from) == |log|
  {
    if log != [] { FailuresAllCount(key, log[..|log|-1], from); }
  }

  /** One failure, `max - 1` more just before the window ends and `max` at its end. */
  function Burst(key: string, max: int, window: int): seq<Attempt>
    requires max >= 1
  {
    Wrong(key, 0, 1) + Wrong(key, window - 1, max - 1) + Wrong(key, window, max)
  }

  lemma BurstLog(key: string, max: int, window: int)
    requires max >= 1 && window >= 2
    ensures Run(Burst(key, max, window), max, window)
         == Fails(key, 0, 1) + Fails(key, window - 1, max - 1) + Fails(key, window, max)
  {
    var one, more := Fails(key, 0, 1), Fails(key, window - 1, max - 1);
    var opening := Wrong(key, 0, 1);
    BurstOpens(key, max, window);
    WrongAreCounted(opening, one, key, window - 1, max - 1, max, window);
    FailsTally(one, key, window - 1, max - 1, window);
    WrongAreCounted(opening + Wrong(key, window - 1, max - 1), one + more, key, window, max, max, window);
  }

  lemma BurstOpens(key: string, max: int, window: int)
    requires max >= 1 && window >= 2
    ensures Run(Wrong(key, 0, 1), max, window) == Fails(key, 0, 1)
    ensures Tally(Fails(key, 0, 1), key, window) == Some(Window(1, 0))
  {
    assert [] + Wrong(key, 0, 1) == Wrong(key, 0, 1) && [] + Fails(key, 0, 1) == Fails(key, 0, 1);
    assert Run([], max, window) == [];
    WrongAreCounted([], [], key, 0, 1, max, window);
    FailsTally([], key, 0, 1, window);
  }

  lemma BurstForward(key: string, max: int, window: int)
    requires max >= 1 && window >= 2
    ensures ClockForward(Burst(key, max, window))
  {
    var b := Burst(key, max, window);
    forall i | 0 <= i < |b| ensures b[i].now == if i < 1 then 0 else if i < max then window - 1 else window {
      var one, more, last := Wrong(key, 0, 1), Wrong(key, window - 1, max - 1), Wrong(key, window, max);
      if i < 1 { AllAlike(key, 0, 1, i); assert b[i] == one[i]; }
      else if i < max { AllAlike(key, window - 1, max - 1, i - 1); assert b[i] == more[i - 1]; }
      else { AllAlike(key, window, max, i - max); assert b[i] == last[i - max]; }
    }
  }

  /** The burst after its first failure: 2*max - 1 failures within two units of time. */
  function Rest(key: string, max: int, window: int): seq<Event>
    requires max >= 1
  {
    Fails(key, window - 1, max - 1) + Fails(key, window, max)
  }

  lemma RestIsFailures(key: string, max: int, window: int)
    requires max >= 1
    ensures forall e :: e in Rest(key, max, window) ==> e.Failed? && e.key == key && window - 1 <= e.at <= window
    ensures Failures(Rest(key, max, window), key, window - 1) == 2 * max - 1
  {
    var rest := Rest(key, max, window);
    forall i | 0 <= i < |rest| ensures rest[i].Failed? && rest[i].key == key && window - 1 <= rest[i].at <= window {
      if i < max - 1 { AllAlike(key, window - 1, max - 1, i); } else { AllAlike(key, window, max, i - (max - 1)); }
    }
    FailuresAllCount(key, rest, window - 1);
  }

  lemma BurstTail(key: string, max: int, window: int)
    requires max >= 1 && window >= 2
    ensures var log := Run(Burst(key, max, window), max, window);
            1 <= |log| && log[1..] == Rest(key, max, window)
  {
    BurstLog(key, max, window);
    var one, rest := Fails(key, 0, 1), Rest(key, max, window);
    assert one + Fails(key, window - 1, max - 1) + Fails(key, window, max) == one + rest;
    assert (one + rest)[1..] == rest;
  }

  /** For every limit there is a run that puts 2*max - 1 failures in one span. */
  lemma SpanBoundIsReached(key: string, max: int, window: int)
    requires max >= 1 && window >= 2
    ensures exists attempts, cut: nat, from ::
              && ClockForward(attempts) && cut <= |Run(attempts, max, window)|
              && NoReset(Run(attempts, max, window)[cut..], key)
              && (forall e :: e in Run(attempts, max, window)[cut..] ==>
                    e.Failed? && e.key == key && from <= e.at < from + window)
              && Failures(Run(attempts, max, window)[cut..], key, from) == 2 * max - 1
  {
    var attempts := Burst(key, max, window);
    BurstForward(key, max, window);
    BurstTail(key, max, window);
    RestIsFailures(key, max, window);
    assert NoReset(Run(attempts, max, window)[1..], key);
  }

  // ---- The throttle itself ----

  class Throttle {
    const max: int
    const window: int
    var failures: map<string, Window>
    /** Every Fail and Reset so far, and the latest time seen. */
    ghost var log: seq<Event>
    ghost var clock: int

    /** What the map still holds is exact, and what it dropped had ended. */
    ghost predicate Valid() reads this {
      && (forall k :: k in failures ==> Tally(log, k, window) == Some(failures[k]))
      && (forall k :: k !in failures && Tally(log, k, window).Some? ==>
            clock >= Tally(log, k, window).value.first + window)
    }

    constructor (max: int, window: int, ghost now: int)
      ensures Valid() && log == [] && clock == now && this.max == max && this.window == window
    {
      this.max, this.window := max, window;
      failures, log, clock := map[], [], now;
    }

    /** Whether `key` is locked out at `now`, and for how long: the answer of the full history. */
    method Blocked(key: string, now: int) returns (blocked: bool, wait: int)
      requires Valid() && clock <= now
      modifies this
      ensures Valid() && log == old(log) && clock == now
      ensures blocked == Locked(log, key, now, max, window)
      ensures wait == if blocked then Tally(log, key, window).value.first + window - now else 0
    {
      clock := now;
      if key !in failures { return false, 0; }
      var f := failures[key];
      var end := f.first + window;
      if now >= end {
        failures := failures - {key};
        return false, 0;
      }
      if f.count < max { return false, 0; }
      return true, end - now;
    }

    /** Records a failed attempt, then drops ended windows if the map is large. */
    method Fail(key: string, now: int)
      requires Valid() && clock <= now
      modifies this
      ensures Valid() && log == old(log) + [Failed(key, now)] && clock == now
      ensures |failures| < PRUNE_AT || forall k :: k in failures ==> now < failures[k].first + window
    {
      var f := Window(0, now);
      if key in failures && now < failures[key].first + window { f := failures[key]; }
      f := f.(count := f.count + 1);
      forall k ensures Tally(log + [Failed(key, now)], k, window) ==
                         if k == key then Some(Counted(Tally(log, key, window), now, window)) else Tally(log, k, window)
      {
        TallySnoc(log, Failed(key, now), k, window);
      }
      failures := failures[key := f];
      log, clock := log + [Failed(key, now)], now;
      if |failures| >= PRUNE_AT { Prune(now); }
    }

    /** Drops the windows that have ended. */
    method Prune(now: int)
      requires Valid() && clock == now
      modifies `failures
      ensures Valid()
      ensures forall k :: k in failures ==> now < failures[k].first + window
    {
      var todo := failures.Keys;
      while todo != {}
        invariant Valid() && todo <= failures.Keys
        invariant forall k :: k in failures && k !in todo ==> now < failures[k].first + window
        decreases |todo|
      {
        var k :| k in todo;
        todo := todo - {k};
        if now >= failures[k].first + window { failures := failures - {k}; }
      }
    }

    /** Forgets `key` after a successful login. */
    method Reset(key: string)
      requires Valid()
      modifies this
      ensures Valid() && log == old(log) + [Cleared(key)] && clock == old(clock)
    {
      forall k ensures Tally(log + [Cleared(key)], k, window) == if k == key then None else Tally(log, k, window) {
        TallySnoc(log, Cleared(key), k, window);
      }
      failures := failures - {key};
      log := log + [Cleared(key)];
    }
  }

  /** One password check under the throttle: accepted exactly when the password matched and the
      account was not locked out, counted exactly when it did not match, and refused for the
      time that is left exactly when the account was locked out, whatever the password. */
  method VerifyPassword(t: Throttle, a: Attempt) returns (r: Outcome)
    requires t.Valid() && t.clock <= a.now
    modifies t
    ensures t.Valid() && t.clock == a.now
    ensures (r, t.log) == Verify(old(t.log), a, t.max, t.window)
    ensures var locked := Locked(old(t.log), a.key, a.now, t.max, t.window);
            && (r == Accepted <==> a.check == Match && !locked)
            && (r == BadCredentials <==> a.check == Mismatch && !locked)
            && (r == Aborted <==> a.check == Cancelled && !locked)
            && (r.Throttled? <==> locked)
    ensures r.Throttled? ==>
              var w := Tally(old(t.log), a.key, t.window).value;
              0 < r.retryAfter == w.first + t.window - a.now && w.count >= t.max
    ensures t.log == old(t.log) + match r
                                  case BadCredentials => [Failed(a.key, a.now)]
                                  case Accepted => [Cleared(a.key)]
                                  case _ => []
  {
    var blocked, wait := t.Blocked(a.key, a.now);
    if blocked { return Throttled(wait); }
    match a.check
    case Cancelled => return Aborted;
    case Mismatch =>
      t.Fail(a.key, a.now);
      return BadCredentials;
    case Match =>
      t.Reset(a.key);
      return Accepted;
  }
}
