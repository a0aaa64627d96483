/** The day loop of the meter import (internal/askoe/import.go): each written day opens
    with the counters the previous written day closed with. */
module AskoeImport {
  import opened AskoeSamples

  /** How the store treats a day. Days that already hold live data are left alone; every
      other failure ends the import. */
  datatype Outcome = Free | Occupied | Interrupted | CheckFails | ClearFails | InsertFails

  datatype CivilDay = CivilDay(midnight: int, dayEnd: int, hours: Day, outcome: Outcome)

  /** A day that was stored, and the counters it opened with. */
  datatype Written = Written(day: CivilDay, seed: Counters)

  datatype Progress = Progress(ok: bool, written: seq<Written>, skipped: nat, seed: Counters)

  /** What one day is stored as, opening snapshot included. */
  function Readings(w: Written): seq<Reading> {
    [Reading(w.day.midnight, w.seed)] + DayReadings(w.day.hours, w.day.midnight, w.day.dayEnd, w.seed)
  }

  function AllReadings(ws: seq<Written>): seq<Reading> {
    if ws == [] then [] else AllReadings(ws[..|ws|-1]) + Readings(ws[|ws|-1])
  }

  /** The import after `days`. */
  function After(days: seq<CivilDay>): Progress {
    if days == [] then Progress(true, [], 0, ZERO)
    else
      var p, day := After(days[..|days|-1]), days[|days|-1];
      if !p.ok then p
      else match day.outcome
        case Occupied => p.(skipped := p.skipped + 1)
        case Free =>
          var w := Written(day, p.seed);
          p.(written := p.written + [w], seed := EndOf(Rows(Readings(w))))
        case _ => p.(ok := false)
  }

  lemma {:induction false} FailureEnds(days: seq<CivilDay>, n: nat)
    requires n <= |days| && !After(days[..n]).ok
    ensures After(days) == After(days[..n])
  {
    if n == |days| {
      assert days[..n] == days;
    } else {
      assert days[..|days|-1][..n] == days[..n];
      FailureEnds(days[..|days|-1], n);
    }
  }

  lemma AllReadingsSnoc(ws: seq<Written>, w: Written)
    ensures AllReadings(ws + [w]) == AllReadings(ws) + Readings(w)
  {
    assert (ws + [w])[..|ws|] == ws;
  }

  // ---- Which days ----

  /** Nothing keeps the day from being handled: it is written, or left alone. */
  predicate Passable(day: CivilDay) {
    day.outcome == Free || day.outcome == Occupied
  }

  /** The import reaches the first `n` days: all of them, or those before the first failure. */
  ghost predicate Reaches(days: seq<CivilDay>, n: nat) {
    && n <= |days| && (forall i :: 0 <= i < n ==> Passable(days[i]))
    && (n < |days| ==> !Passable(days[n]))
  }

  lemma {:induction false} ReachExists(days: seq<CivilDay>) returns (n: nat)
    ensures Reaches(days, n)
  {
    n := 0;
    while n < |days| && Passable(days[n])
      invariant n <= |days| && forall i :: 0 <= i < n ==> Passable(days[i])
    {
      n := n + 1;
    }
  }

  /** The days with one outcome, in order. */
  function With(days: seq<CivilDay>, outcome: Outcome): seq<CivilDay> {
    if days == [] then []
    else With(days[..|days|-1], outcome) + if days[|days|-1].outcome == outcome then [days[|days|-1]] else []
  }

  function DaysOf(ws: seq<Written>): (days: seq<CivilDay>)
    ensures |days| == |ws|
  {
    seq(|ws|, i requires 0 <= i < |ws| => ws[i].day)
  }

  /** While no day fails, the free days are written in order and the occupied ones counted. */
  lemma {:induction false} PassableDays(days: seq<CivilDay>)
    requires forall i :: 0 <= i < |days| ==> Passable(days[i])
    ensures var p := After(days);
            p.ok && DaysOf(p.written) == With(days, Free) && p.skipped == |With(days, Occupied)|
  {
    if days != [] {
      var n := |days| - 1;
      PassableDays(days[..n]);
      var p := After(days[..n]);
      if days[n].outcome == Free {
        var w := Written(days[n], p.seed);
        assert DaysOf(p.written + [w]) == DaysOf(p.written) + [days[n]];
      }
    }
  }

  /** What an import does with its days: it writes, in order, exactly the free days before
      the first failing one, counts the occupied days among them as skipped, and succeeds
      exactly when no day fails. */
  lemma {:induction false} FreeDaysAreWritten(days: seq<CivilDay>, n: nat)
    requires Reaches(days, n)
    ensures var p := After(days);
            && DaysOf(p.written) == With(days[..n], Free)
            && p.skipped == |With(days[..n], Occupied)|
            && (p.ok <==> forall i :: 0 <= i < |days| ==> days[i].outcome == Free || days[i].outcome == Occupied)
  {
    PassableDays(days[..n]);
    if n == |days| {
      assert days[..n] == days;
    } else {
      assert days[..n + 1][..n] == days[..n];
      FailureEnds(days, n + 1);
    }
  }

  /** Writes every free day in turn and returns the rows that reached the store. */
  method Import(days: seq<CivilDay>)
    returns (ok: bool, table: seq<Sample>, daysWritten: nat, daysSkipped: nat, rowsWritten: nat)
    ensures var p := After(days);
            && ok == p.ok && table == Rows(AllReadings(p.written))
            && daysWritten == |p.written| && daysSkipped == p.skipped && rowsWritten == |table|
  {
    ok, table, daysWritten, daysSkipped, rowsWritten := true, [], 0, 0, 0;
    var seed := ZERO;
    for i := 0 to |days|
      invariant ok && After(days[..i]).ok && seed == After(days[..i]).seed
      invariant table == Rows(AllReadings(After(days[..i]).written)) && rowsWritten == |table|
      invariant daysWritten == |After(days[..i]).written| && daysSkipped == After(days[..i]).skipped
    {
      var day := days[i];
      assert days[..i+1][..i] == days[..i];
      if day.outcome == Occupied {
        daysSkipped := daysSkipped + 1;
        continue;
      }
      if day.outcome != Free {
        FailureEnds(days, i + 1);
        ok := false;
        return;
      }
      ghost var w := Written(day, seed);
      var samples := BuildDaySamples(day.hours, day.midnight, day.dayEnd, seed);
      samples := SamplesAt(day.midnight, seed) + samples;
      OpeningRows(w);
      AllReadingsSnoc(After(days[..i]).written, w);
      RowsAppend(AllReadings(After(days[..i]).written), Readings(w));
      table := table + samples;
      rowsWritten := rowsWritten + |samples|;
      daysWritten := daysWritten + 1;
      seed := EndCounters(samples);
    }
    assert days[..|days|] == days;
  }

  lemma OpeningRows(w: Written)
    ensures Rows(Readings(w)) ==
            SamplesAt(w.day.midnight, w.seed) + Rows(DayReadings(w.day.hours, w.day.midnight, w.day.dayEnd, w.seed))
  {
    var opening := Reading(w.day.midnight, w.seed);
    RowsAppend([opening], DayReadings(w.day.hours, w.day.midnight, w.day.dayEnd, w.seed));
    RowsSnoc([], opening.time, opening.counters);
    assert [] + [opening] == [opening];
    assert Rows([]) + SamplesAt(opening.time, opening.counters) == SamplesAt(opening.time, opening.counters);
  }

  /** Rows per insertion. */
  const INSERT_BATCH := 5000

  /** A day is always stored in one insertion, so it is stored as a whole or not at all. */
  lemma OneInsertionPerDay(w: Written)
    ensures 0 < |Rows(Readings(w))| <= INSERT_BATCH
  {
    assert |Readings(w)| <= STEPS + 1;
  }

  // ---- What holds over a whole import ----

  function Last(w: Written): Counters {
    Readings(w)[|Readings(w)| - 1].counters
  }

  ghost predicate Continues(ws: seq<Written>, seed: Counters) {
    && (ws == [] ==> seed == ZERO)
    && (ws != [] ==> ws[0].seed == ZERO && seed == Last(ws[|ws|-1]))
    && forall i :: 0 < i < |ws| ==> ws[i].seed == Last(ws[i-1])
  }

  lemma OneMoreContinues(ws: seq<Written>, w: Written)
    requires Continues(ws, w.seed)
    ensures Continues(ws + [w], EndOf(Rows(Readings(w))))
  {
    EndOfRows(Readings(w));
  }

  /** The first written day starts from zero; every other opens exactly where the previous
      written day closed, however many occupied days lie between. */
  lemma {:induction false} CountersContinue(days: seq<CivilDay>)
    ensures Continues(After(days).written, After(days).seed)
  {
    if days != [] {
      var n := |days| - 1;
      CountersContinue(days[..n]);
      OneMoreContinues(After(days[..n]).written, Written(days[n], After(days[..n]).seed));
    }
  }

  function Energy(ws: seq<Written>): Counters {
    if ws == [] then ZERO
    else
      var e, t := Energy(ws[..|ws|-1]), Total(ws[|ws|-1].day.hours);
      Counters(e.pv + t.pv, e.imp + t.imp, e.exp + t.exp, e.load + t.load)
  }

  lemma DayEnds(w: Written)
    ensures var end, t := EndOf(Rows(Readings(w))), Total(w.day.hours);
            && end.pv == w.seed.pv + t.pv && end.imp == w.seed.imp + t.imp && end.exp == w.seed.exp + t.exp
            && (w.seed.load >= 0.0 && Consuming(w.day.hours) ==> end.load == w.seed.load + t.load >= w.seed.load)
  {
    EndOfRows(Readings(w));
    EndOfRows(DayReadings(w.day.hours, w.day.midnight, w.day.dayEnd, w.seed));
    DayConserves(w.day.hours, w.day.midnight, w.day.dayEnd, w.seed);
  }

  ghost predicate Conserved(ws: seq<Written>, seed: Counters) {
    && seed.pv == Energy(ws).pv && seed.imp == Energy(ws).imp && seed.exp == Energy(ws).exp
    && ((forall i :: 0 <= i < |ws| ==> Consuming(ws[i].day.hours)) ==> seed.load == Energy(ws).load >= 0.0)
  }

  lemma ConservedStep(ws: seq<Written>, w: Written)
    requires Conserved(ws, w.seed)
    ensures Conserved(ws + [w], EndOf(Rows(Readings(w))))
  {
    var after := ws + [w];
    assert after[..|ws|] == ws && after[|ws|] == w;
    assert forall i :: 0 <= i < |ws| ==> ws[i] == after[i];
    DayEnds(w);
  }

  /** Over a whole import the counters hold exactly the energy of the written days:
      nothing is lost at midnight, at a clock change or across a skipped day. */
  lemma {:induction false} ImportConserves(days: seq<CivilDay>)
    ensures Conserved(After(days).written, After(days).seed)
  {
    if days != [] {
      var p := After(days[..|days|-1]);
      ImportConserves(days[..|days|-1]);
      ConservedStep(p.written, Written(days[|days|-1], p.seed));
    }
  }

  ghost predicate Calendar(days: seq<CivilDay>) {
    && (forall i :: 0 <= i < |days| ==> days[i].dayEnd - days[i].midnight > STEP_MINUTES)
    && (forall i, j :: 0 <= i < j < |days| ==> days[i].dayEnd <= days[j].midnight)
  }

  lemma DayIncreases(w: Written)
    requires w.day.dayEnd - w.day.midnight > STEP_MINUTES
    ensures Increasing(Readings(w))
    ensures forall i :: 0 <= i < |Readings(w)| ==> w.day.midnight <= Readings(w)[i].time < w.day.dayEnd
  {
    DayTimes(w.day.hours, w.day.midnight, w.day.dayEnd, w.seed);
  }

  lemma AppendIncreases(a: seq<Reading>, b: seq<Reading>, middle: int, bound: int)
    requires Increasing(a) && Increasing(b) && middle <= bound
    requires forall i :: 0 <= i < |a| ==> a[i].time < middle
    requires forall i :: 0 <= i < |b| ==> middle <= b[i].time < bound
    ensures Increasing(a + b) && forall i :: 0 <= i < |a + b| ==> (a + b)[i].time < bound
  {
  }

  ghost predicate Before(readings: seq<Reading>, bound: int) {
    Increasing(readings) && forall i :: 0 <= i < |readings| ==> readings[i].time < bound
  }

  lemma OneMoreDay(ws: seq<Written>, w: Written, bound: int)
    requires w.day.dayEnd - w.day.midnight > STEP_MINUTES && w.day.dayEnd <= bound
    requires Before(AllReadings(ws), w.day.midnight)
    ensures Before(AllReadings(ws + [w]), bound)
  {
    AllReadingsSnoc(ws, w);
    DayIncreases(w);
    AppendIncreases(AllReadings(ws), Readings(w), w.day.midnight, bound);
  }

  lemma LaterBound(readings: seq<Reading>, bound: int, later: int)
    requires Before(readings, bound) && bound <= later
    ensures Before(readings, later)
  {
  }

  /** Stored times only move forward, over the whole import. */
  lemma {:induction false} TimesIncrease(days: seq<CivilDay>, bound: int)
    requires Calendar(days) && forall i :: 0 <= i < |days| ==> days[i].dayEnd <= bound
    ensures Before(AllReadings(After(days).written), bound)
  {
    if days != [] {
      var n := |days| - 1;
      var p := After(days[..n]);
      TimesIncrease(days[..n], days[n].midnight);
      LaterBound(AllReadings(p.written), days[n].midnight, bound);
      OneMoreDay(p.written, Written(days[n], p.seed), bound);
    }
  }

  lemma {:induction false} ReadingOfDay(ws: seq<Written>, k: nat)
    requires forall i :: 0 <= i < |ws| ==> ws[i].day.dayEnd - ws[i].day.midnight > STEP_MINUTES
    requires k < |AllReadings(ws)|
    ensures exists i :: 0 <= i < |ws| && ws[i].day.midnight <= AllReadings(ws)[k].time < ws[i].day.dayEnd
  {
    var n := |ws| - 1;
    var before := AllReadings(ws[..n]);
    if k < |before| {
      ReadingOfDay(ws[..n], k);
      var i :| 0 <= i < n && ws[..n][i].day.midnight <= before[k].time < ws[..n][i].day.dayEnd;
      assert ws[i] == ws[..n][i];
    } else {
      DayIncreases(ws[n]);
      assert AllReadings(ws)[k] == Readings(ws[n])[k - |before|];
    }
  }

  lemma {:induction false} WithIsSome(days: seq<CivilDay>, outcome: Outcome, k: nat)
    requires k < |With(days, outcome)|
    ensures exists i :: 0 <= i < |days| && days[i] == With(days, outcome)[k] && days[i].outcome == outcome
  {
    var n := |days| - 1;
    if k < |With(days[..n], outcome)| {
      WithIsSome(days[..n], outcome, k);
      var i :| 0 <= i < n && days[..n][i] == With(days[..n], outcome)[k] && days[..n][i].outcome == outcome;
      assert days[i] == days[..n][i];
    }
  }

  ghost predicate FreeAmong(days: seq<CivilDay>, day: CivilDay) {
    exists j :: 0 <= j < |days| && days[j] == day && day.outcome == Free
  }

  lemma WrittenAreFree(days: seq<CivilDay>, i: nat)
    requires i < |After(days).written|
    ensures FreeAmong(days, After(days).written[i].day)
  {
    var n := ReachExists(days);
    FreeDaysAreWritten(days, n);
    var ws := After(days).written;
    assert DaysOf(ws)[i] == ws[i].day;
    WithIsSome(days[..n], Free, i);
    var j :| 0 <= j < n && days[..n][j] == With(days[..n], Free)[i] && days[..n][j].outcome == Free;
    assert days[j] == ws[i].day;
  }

  /** No two days of a calendar share an instant. */
  lemma OneDayOnly(days: seq<CivilDay>, j: nat, l: nat, t: int)
    requires Calendar(days) && j < |days| && l < |days|
    requires days[j].midnight <= t < days[j].dayEnd && days[l].midnight <= t < days[l].dayEnd
    ensures j == l
  {
  }

  /** No row is ever stored on a day that already holds live data, or on any day but a free
      one the import reached. */
  lemma OnlyFreeDaysGetRows(days: seq<CivilDay>, k: nat)
    requires Calendar(days) && k < |AllReadings(After(days).written)|
    ensures var t := AllReadings(After(days).written)[k].time;
            && (exists i :: 0 <= i < |days| && days[i].outcome == Free && days[i].midnight <= t < days[i].dayEnd)
            && (forall i :: 0 <= i < |days| && days[i].midnight <= t < days[i].dayEnd ==> days[i].outcome == Free)
  {
    var ws := After(days).written;
    WrittenAreDays(days);
    ReadingOfDay(ws, k);
    RowOnFreeDay(days, ws, AllReadings(ws)[k].time);
  }

  lemma WrittenAreDays(days: seq<CivilDay>)
    requires Calendar(days)
    ensures forall i :: 0 <= i < |After(days).written| ==>
              var day := After(days).written[i].day; FreeAmong(days, day) && day.dayEnd - day.midnight > STEP_MINUTES
  {
    var ws := After(days).written;
    forall i | 0 <= i < |ws|
      ensures FreeAmong(days, ws[i].day) && ws[i].day.dayEnd - ws[i].day.midnight > STEP_MINUTES
    {
      WrittenAreFree(days, i);
    }
  }

  lemma RowOnFreeDay(days: seq<CivilDay>, ws: seq<Written>, t: int)
    requires Calendar(days) && forall i :: 0 <= i < |ws| ==> FreeAmong(days, ws[i].day)
    requires exists i :: 0 <= i < |ws| && ws[i].day.midnight <= t < ws[i].day.dayEnd
    ensures exists i :: 0 <= i < |days| && days[i].outcome == Free && days[i].midnight <= t < days[i].dayEnd
    ensures forall i :: 0 <= i < |days| && days[i].midnight <= t < days[i].dayEnd ==> days[i].outcome == Free
  {
    var i :| 0 <= i < |ws| && ws[i].day.midnight <= t < ws[i].day.dayEnd;
    assert FreeAmong(days, ws[i].day);
    var j :| 0 <= j < |days| && days[j] == ws[i].day && days[j].outcome == Free;
    forall l | 0 <= l < |days| && days[l].midnight <= t < days[l].dayEnd ensures l == j {
      OneDayOnly(days, j, l, t);
    }
  }

  ghost predicate UpTo(readings: seq<Reading>, c: Counters) {
    NonDecreasing(readings) && forall i :: 0 <= i < |readings| ==> Below(readings[i].counters, c)
  }

  lemma OneMoreGrows(ws: seq<Written>, w: Written)
    requires UpTo(AllReadings(ws), w.seed) && NonNegative(w.day.hours)
    ensures UpTo(AllReadings(ws + [w]), EndOf(Rows(Readings(w))))
  {
    AllReadingsSnoc(ws, w);
    DayGrows(w.day.hours, w.day.midnight, w.day.dayEnd, w.seed);
    EndOfRows(Readings(w));
    AppendGrows(AllReadings(ws), Readings(w), w.seed, Last(w));
  }

  /** With hourly values that are never negative no meter's counter ever steps back, within
      a day or between written days. */
  lemma {:induction false} CountersNeverFall(days: seq<CivilDay>)
    requires forall i :: 0 <= i < |days| ==> NonNegative(days[i].hours)
    ensures UpTo(AllReadings(After(days).written), After(days).seed)
  {
    if days != [] {
      var n := |days| - 1;
      CountersNeverFall(days[..n]);
      var p, q := After(days[..n]), After(days);
      if q.written != p.written {
        OneMoreGrows(p.written, Written(days[n], p.seed));
      }
    }
  }

  lemma AppendGrows(a: seq<Reading>, b: seq<Reading>, middle: Counters, end: Counters)
    requires NonDecreasing(a) && NonDecreasing(b) && b != []
    requires forall i :: 0 <= i < |a| ==> Below(a[i].counters, middle)
    requires b[0].counters == middle && b[|b|-1].counters == end
    ensures NonDecreasing(a + b) && forall i :: 0 <= i < |a + b| ==> Below((a + b)[i].counters, end)
  {
    forall i | 0 <= i < |b| ensures Below(middle, b[i].counters) && Below(b[i].counters, end) {
      assert Below(b[0].counters, b[i].counters) && Below(b[i].counters, b[|b|-1].counters);
    }
    forall i, j | 0 <= i <= j < |a + b| ensures Below((a + b)[i].counters, (a + b)[j].counters) {
      if i < |a| <= j { assert Below(a[i].counters, middle) && Below(middle, b[j - |a|].counters); }
      else if |a| <= i { assert Below(b[i - |a|].counters, b[j - |a|].counters); }
    }
    forall i | 0 <= i < |a + b| ensures Below((a + b)[i].counters, end) {
      if i < |a| { assert Below(a[i].counters, middle) && Below(middle, b[0].counters) && Below(b[0].counters, end); }
    }
  }
}
