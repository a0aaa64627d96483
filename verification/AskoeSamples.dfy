/** Five-minute lifetime counters made from one day of hourly meters
    (internal/askoe/samples.go). Energy is in kWh, time in minutes. */
module AskoeSamples {
  const STEPS_PER_HOUR := 12
  const STEPS := 24 * STEPS_PER_HOUR
  const STEP_MINUTES := 5

  /** One hour of the three meters. */
  datatype Hour = Hour(pv: real, imp: real, exp: real)
  type Day = d: seq<Hour> | |d| == 24 witness seq(24, i => Hour(0.0, 0.0, 0.0))

  datatype Counters = Counters(pv: real, imp: real, exp: real, load: real)

  const ZERO := Counters(0.0, 0.0, 0.0, 0.0)

  /** The stored metrics in the order of their keys. */
  datatype Metric = Import | Export | Load | Pv | Charged | Discharged
  datatype Sample = Sample(time: int, metric: Metric, value: real)

  /** The counters at one moment; stored as one sample per metric. */
  datatype Reading = Reading(time: int, counters: Counters)

  function SamplesAt(t: int, c: Counters): (r: seq<Sample>)
    ensures |r| == 6
  {
    [Sample(t, Import, c.imp), Sample(t, Export, c.exp), Sample(t, Load, c.load),
     Sample(t, Pv, c.pv), Sample(t, Charged, 0.0), Sample(t, Discharged, 0.0)]
  }

  function Rows(readings: seq<Reading>): (r: seq<Sample>)
    ensures |r| == 6 * |readings|
  {
    if readings == [] then []
    else Rows(readings[..|readings|-1]) + SamplesAt(readings[|readings|-1].time, readings[|readings|-1].counters)
  }

  lemma RowsSnoc(readings: seq<Reading>, t: int, c: Counters)
    ensures Rows(readings + [Reading(t, c)]) == Rows(readings) + SamplesAt(t, c)
  {
    assert (readings + [Reading(t, c)])[..|readings|] == readings;
  }

  lemma {:induction false} RowsAppend(a: seq<Reading>, b: seq<Reading>)
    ensures Rows(a + b) == Rows(a) + Rows(b)
  {
    if b == [] {
      assert a + b == a;
    } else {
      var n := |b| - 1;
      RowsAppend(a, b[..n]);
      assert (a + b)[..|a + b|-1] == a + b[..n];
      assert Rows(a) + Rows(b[..n]) + SamplesAt(b[n].time, b[n].counters)
          == Rows(a) + (Rows(b[..n]) + SamplesAt(b[n].time, b[n].counters));
    }
  }

  // ---- The counters slot by slot ----

  function Tick(c: Counters, h: Hour): Counters {
    var load := c.load + (h.pv / 12.0 + h.imp / 12.0 - h.exp / 12.0);
    Counters(c.pv + h.pv / 12.0, c.imp + h.imp / 12.0, c.exp + h.exp / 12.0, if load < 0.0 then 0.0 else load)
  }

  /** The counters after `k` five-minute slots. */
  function After(day: Day, seed: Counters, k: nat): Counters
    requires k <= STEPS
  {
    if k == 0 then seed else Tick(After(day, seed, k - 1), day[(k - 1) / STEPS_PER_HOUR])
  }

  /** Slots that start before the day ends, but at least one. */
  function Slots(length: int): (n: nat)
    ensures 1 <= n <= STEPS
  {
    var before := if length <= 0 then 0 else (length - 1) / STEP_MINUTES;
    if before < 1 then 1 else if before > STEPS then STEPS else before
  }

  /** Slot `k` falls inside the day, or on its last five minutes. */
  function SlotTime(midnight: int, dayEnd: int, k: nat): int {
    var t := midnight + k * STEP_MINUTES;
    if t < dayEnd then t else dayEnd - STEP_MINUTES
  }

  /** What a course of counters is stored as: one reading per slot before the day's end.
      The last of them carries the whole day's energy and, on a day no longer than 24
      hours, stands five minutes before the day's end. */
  function Placed(course: seq<Counters>, midnight: int, dayEnd: int): seq<Reading>
    requires |course| == STEPS + 1
  {
    var n := Slots(dayEnd - midnight);
    seq(n - 1, i requires 0 <= i < n - 1 => Reading(SlotTime(midnight, dayEnd, i + 1), course[i + 1]))
    + [Reading(SlotTime(midnight, dayEnd, STEPS), course[STEPS])]
  }

  /** The counters at midnight and after each of the day's slots. */
  function Course(day: Day, seed: Counters): (r: seq<Counters>)
    ensures |r| == STEPS + 1 && r[0] == seed
  {
    seq(STEPS + 1, k requires 0 <= k <= STEPS => After(day, seed, k))
  }

  function DayReadings(day: Day, midnight: int, dayEnd: int, seed: Counters): seq<Reading> {
    Placed(Course(day, seed), midnight, dayEnd)
  }

  /** The readings kept after `k` slots: a slot at or after the day's end replaces the
      one before it. */
  ghost function Built(course: seq<Counters>, midnight: int, dayEnd: int, k: nat): seq<Reading>
    requires k < |course|
  {
    if k == 0 then []
    else
      var before := Built(course, midnight, dayEnd, k - 1);
      var kept := if midnight + k * STEP_MINUTES < dayEnd || before == [] then before else before[..|before|-1];
      kept + [Reading(SlotTime(midnight, dayEnd, k), course[k])]
  }

  lemma {:induction false} BuiltIs(course: seq<Counters>, midnight: int, dayEnd: int, k: nat)
    requires |course| == STEPS + 1 && 1 <= k <= STEPS
    ensures var b, n := Built(course, midnight, dayEnd, k), Slots(dayEnd - midnight);
            && |b| == (if k < n then k else n)
            && (forall i :: 0 <= i < |b| - 1 ==> b[i] == Reading(SlotTime(midnight, dayEnd, i + 1), course[i + 1]))
            && b[|b|-1] == Reading(SlotTime(midnight, dayEnd, k), course[k])
  {
    if k > 1 { BuiltIs(course, midnight, dayEnd, k - 1); }
  }

  lemma BuiltIsPlaced(course: seq<Counters>, midnight: int, dayEnd: int)
    requires |course| == STEPS + 1
    ensures Built(course, midnight, dayEnd, |course| - 1) == Placed(course, midnight, dayEnd)
  {
    BuiltIs(course, midnight, dayEnd, |course| - 1);
  }

  /** The rows stored after each slot. */
  ghost function Stages(course: seq<Counters>, midnight: int, dayEnd: int): (r: seq<seq<Sample>>)
    ensures |r| == |course|
  {
    seq(|course|, k requires 0 <= k < |course| => Rows(Built(course, midnight, dayEnd, k)))
  }

  lemma StepOf(stored: seq<seq<Sample>>, course: seq<Counters>, midnight: int, dayEnd: int, k: nat)
    requires |stored| == |course| == STEPS + 1 && 1 <= k <= STEPS
    requires stored[k - 1] == Rows(Built(course, midnight, dayEnd, k - 1))
    requires stored[k] == Rows(Built(course, midnight, dayEnd, k))
    ensures RowStep(stored, course, midnight, dayEnd, k)
  {
    BuiltRows(course, midnight, dayEnd, k);
  }

  lemma StageAt(course: seq<Counters>, midnight: int, dayEnd: int, k: nat)
    requires k < |course|
    ensures Stages(course, midnight, dayEnd)[k] == Rows(Built(course, midnight, dayEnd, k))
  {
  }

  lemma OneStage(course: seq<Counters>, midnight: int, dayEnd: int, k: nat)
    requires |course| == STEPS + 1 && 1 <= k <= STEPS
    ensures RowStep(Stages(course, midnight, dayEnd), course, midnight, dayEnd, k)
  {
    var stored := Stages(course, midnight, dayEnd);
    StageAt(course, midnight, dayEnd, k - 1);
    StageAt(course, midnight, dayEnd, k);
    StepOf(stored, course, midnight, dayEnd, k);
  }

  lemma StagesStep(course: seq<Counters>, midnight: int, dayEnd: int)
    requires |course| == STEPS + 1
    ensures var stored := Stages(course, midnight, dayEnd);
            && stored[0] == [] && stored[|course| - 1] == Rows(Placed(course, midnight, dayEnd))
            && forall k :: 1 <= k <= STEPS ==> RowStep(stored, course, midnight, dayEnd, k)
  {
    var stored := Stages(course, midnight, dayEnd);
    forall k | 1 <= k <= STEPS ensures RowStep(stored, course, midnight, dayEnd, k) {
      OneStage(course, midnight, dayEnd, k);
    }
    BuiltIsPlaced(course, midnight, dayEnd);
  }

  /** One slot's effect on the stored rows. */
  lemma BuiltRows(course: seq<Counters>, midnight: int, dayEnd: int, k: nat)
    requires 1 <= k < |course|
    ensures var before := Rows(Built(course, midnight, dayEnd, k - 1));
            var kept := if midnight + k * STEP_MINUTES < dayEnd || |before| < 6 then before else before[..|before|-6];
            Rows(Built(course, midnight, dayEnd, k)) == kept + SamplesAt(SlotTime(midnight, dayEnd, k), course[k])
  {
    var before := Built(course, midnight, dayEnd, k - 1);
    if midnight + k * STEP_MINUTES < dayEnd || before == [] {
      RowsSnoc(before, SlotTime(midnight, dayEnd, k), course[k]);
    } else {
      RowsSnoc(before[..|before|-1], SlotTime(midnight, dayEnd, k), course[k]);
    }
  }

  /** Each hour's energy is spread over its twelve slots. */
  ghost predicate Spreads(day: Day, course: seq<Counters>) {
    && |course| == STEPS + 1
    && forall h, s :: 0 <= h < 24 && 1 <= s <= STEPS_PER_HOUR ==> SlotOf(day, course, h, s)
  }

  ghost predicate SlotOf(day: Day, course: seq<Counters>, h: int, s: int)
    requires |course| == STEPS + 1
  {
    && 0 <= h < 24 && 1 <= s <= STEPS_PER_HOUR
    && course[h * STEPS_PER_HOUR + s] == Tick(course[h * STEPS_PER_HOUR + s - 1], day[h])
  }

  lemma CourseSpreads(day: Day, seed: Counters)
    ensures Spreads(day, Course(day, seed))
  {
    forall h, s | 0 <= h < 24 && 1 <= s <= STEPS_PER_HOUR
      ensures SlotOf(day, Course(day, seed), h, s)
    {
      NextSlot(day, seed, h, s);
    }
  }

  lemma NextSlot(day: Day, seed: Counters, h: nat, s: nat)
    requires h < 24 && 1 <= s <= STEPS_PER_HOUR
    ensures After(day, seed, h * STEPS_PER_HOUR + s) == Tick(After(day, seed, h * STEPS_PER_HOUR + s - 1), day[h])
  {
    assert (h * STEPS_PER_HOUR + s - 1) / STEPS_PER_HOUR == h;
  }

  /** The rows before and after slot `k`. */
  ghost predicate RowStep(stored: seq<seq<Sample>>, course: seq<Counters>, midnight: int, dayEnd: int, k: int)
    requires |stored| == |course| == STEPS + 1
  {
    && 1 <= k <= STEPS
    && stored[k] == WithSlot(stored[k - 1], midnight + k * STEP_MINUTES, dayEnd, course[k])
  }

  /** A slot at or after the day's end moves inside it and takes the place of the last. */
  ghost function WithSlot(rows: seq<Sample>, slot: int, dayEnd: int, c: Counters): seq<Sample> {
    (if slot < dayEnd || |rows| < 6 then rows else rows[..|rows|-6])
    + SamplesAt(if slot < dayEnd then slot else dayEnd - STEP_MINUTES, c)
  }

  method AddSlot(rows: seq<Sample>, slot: int, dayEnd: int, c: Counters) returns (out: seq<Sample>)
    ensures out == WithSlot(rows, slot, dayEnd, c)
  {
    out := rows;
    var t := slot;
    if t >= dayEnd {
      t := dayEnd - STEP_MINUTES;
      if |out| >= 6 { out := out[..|out|-6]; }
    }
    out := out + SamplesAt(t, c);
  }

  /** The day as stored, built slot by slot along the course its counters take. */
  method SpreadDay(day: Day, midnight: int, dayEnd: int, seed: Counters,
                   ghost course: seq<Counters>, ghost stored: seq<seq<Sample>>)
    returns (out: seq<Sample>)
    requires Spreads(day, course) && course[0] == seed
    requires |stored| == STEPS + 1 && stored[0] == []
    requires forall k :: 1 <= k <= STEPS ==> RowStep(stored, course, midnight, dayEnd, k)
    ensures out == stored[STEPS]
  {
    out := [];
    var c := seed;
    ghost var k: nat := 0;
    for h := 0 to 24
      invariant k == h * STEPS_PER_HOUR && c == course[k] && out == stored[k]
    {
      var dPv, dImp, dExp := day[h].pv / 12.0, day[h].imp / 12.0, day[h].exp / 12.0;
      var dLoad := dPv + dImp - dExp;
      for s := 1 to STEPS_PER_HOUR + 1
        invariant k == h * STEPS_PER_HOUR + s - 1 && c == course[k] && out == stored[k]
      {
        assert SlotOf(day, course, h, s);
        k := k + 1;
        assert RowStep(stored, course, midnight, dayEnd, k);
        c := Counters(c.pv + dPv, c.imp + dImp, c.exp + dExp, c.load + dLoad);
        if c.load < 0.0 { c := c.(load := 0.0); }
        out := AddSlot(out, midnight + h * 60 + s * STEP_MINUTES, dayEnd, c);
      }
    }
  }

  method BuildDaySamples(day: Day, midnight: int, dayEnd: int, seed: Counters) returns (out: seq<Sample>)
    ensures out == Rows(DayReadings(day, midnight, dayEnd, seed))
  {
    ghost var course := Course(day, seed);
    StagesStep(course, midnight, dayEnd);
    CourseSpreads(day, seed);
    out := SpreadDay(day, midnight, dayEnd, seed, course, Stages(course, midnight, dayEnd));
  }

  // ---- Times ----

  ghost predicate Increasing(readings: seq<Reading>) {
    forall i, j :: 0 <= i < j < |readings| ==> readings[i].time < readings[j].time
  }

  /** Whatever the length of the civil day, no sample is on another day and no two
      readings share a time; a day of 24 hours or less closes five minutes before its end. */
  lemma DayTimes(day: Day, midnight: int, dayEnd: int, seed: Counters)
    requires dayEnd - midnight > STEP_MINUTES
    ensures var r := DayReadings(day, midnight, dayEnd, seed);
            && Increasing(r)
            && (forall i :: 0 <= i < |r| ==> midnight < r[i].time < dayEnd)
            && (dayEnd - midnight <= STEPS * STEP_MINUTES ==> r[|r|-1].time == dayEnd - STEP_MINUTES)
  {
    var r, n := DayReadings(day, midnight, dayEnd, seed), Slots(dayEnd - midnight);
    forall i | 0 <= i < n - 1 ensures r[i].time == midnight + (i + 1) * STEP_MINUTES < dayEnd {}
    assert midnight + (n - 1) * STEP_MINUTES < r[n - 1].time < dayEnd;
  }

  // ---- Energy ----

  function Total(hours: seq<Hour>): Counters {
    if hours == [] then ZERO
    else
      var t, h := Total(hours[..|hours|-1]), hours[|hours|-1];
      Counters(t.pv + h.pv, t.imp + h.imp, t.exp + h.exp, t.load + (h.pv + h.imp - h.exp))
  }

  /** `s` equal steps. */
  function Times(s: nat, step: real): real {
    if s == 0 then 0.0 else Times(s - 1, step) + step
  }

  lemma TwelveSteps(step: real)
    ensures Times(STEPS_PER_HOUR, step) == 12.0 * step
  {
    var three := Times(3, step);
    TimesAdd(3, 3, step);
    TimesAdd(6, 6, step);
    TimesAdd(1, 2, step);
    TimesAdd(1, 1, step);
    assert Times(1, step) == Times(0, step) + step;
  }

  lemma {:induction false} TimesAdd(m: nat, n: nat, step: real)
    ensures Times(m + n, step) == Times(m, step) + Times(n, step)
  {
    if n > 0 { TimesAdd(m, n - 1, step); }
  }

  lemma {:induction false} WithinHour(day: Day, seed: Counters, h: nat, s: nat)
    requires h < 24 && s <= STEPS_PER_HOUR
    ensures var c, d, hour := After(day, seed, h * STEPS_PER_HOUR), After(day, seed, h * STEPS_PER_HOUR + s), day[h];
            && d.pv == c.pv + Times(s, hour.pv / 12.0)
            && d.imp == c.imp + Times(s, hour.imp / 12.0)
            && d.exp == c.exp + Times(s, hour.exp / 12.0)
            && (c.load >= 0.0 && hour.pv / 12.0 + hour.imp / 12.0 - hour.exp / 12.0 >= 0.0 ==>
                  d.load == c.load + Times(s, hour.pv / 12.0 + hour.imp / 12.0 - hour.exp / 12.0) >= c.load)
  {
    if s > 0 {
      WithinHour(day, seed, h, s - 1);
      NextSlot(day, seed, h, s);
    }
  }

  /** Hours in which the site consumed something or nothing, never less. */
  predicate Consuming(hours: seq<Hour>) {
    forall i :: 0 <= i < |hours| ==> hours[i].pv + hours[i].imp >= hours[i].exp
  }

  lemma HourParts(hour: Hour)
    ensures Times(STEPS_PER_HOUR, hour.pv / 12.0) == hour.pv
    ensures Times(STEPS_PER_HOUR, hour.imp / 12.0) == hour.imp
    ensures Times(STEPS_PER_HOUR, hour.exp / 12.0) == hour.exp
    ensures Times(STEPS_PER_HOUR, hour.pv / 12.0 + hour.imp / 12.0 - hour.exp / 12.0) == hour.pv + hour.imp - hour.exp
  {
    TwelveSteps(hour.pv / 12.0);
    TwelveSteps(hour.imp / 12.0);
    TwelveSteps(hour.exp / 12.0);
    TwelveSteps(hour.pv / 12.0 + hour.imp / 12.0 - hour.exp / 12.0);
  }

  lemma WholeHour(day: Day, seed: Counters, h: nat)
    requires h < 24
    ensures var c, d, hour := After(day, seed, h * STEPS_PER_HOUR), After(day, seed, (h + 1) * STEPS_PER_HOUR), day[h];
            && d.pv == c.pv + hour.pv && d.imp == c.imp + hour.imp && d.exp == c.exp + hour.exp
            && (c.load >= 0.0 && hour.pv + hour.imp >= hour.exp ==>
                  d.load == c.load + (hour.pv + hour.imp - hour.exp) >= c.load)
  {
    WithinHour(day, seed, h, STEPS_PER_HOUR);
    HourParts(day[h]);
  }

  lemma TotalNext(hours: seq<Hour>, h: nat)
    requires 1 <= h <= |hours|
    ensures var t, r, hour := Total(hours[..h]), Total(hours[..h-1]), hours[h-1];
            && t.pv == r.pv + hour.pv && t.imp == r.imp + hour.imp && t.exp == r.exp + hour.exp
            && t.load == r.load + (hour.pv + hour.imp - hour.exp)
    ensures Consuming(hours[..h]) ==> Consuming(hours[..h-1]) && hours[h-1].pv + hours[h-1].imp >= hours[h-1].exp
  {
    assert hours[..h][..h-1] == hours[..h-1] && hours[..h][h-1] == hours[h-1];
  }

  lemma {:induction false} AfterHours(day: Day, seed: Counters, h: nat)
    requires h <= 24
    ensures var c, t := After(day, seed, h * STEPS_PER_HOUR), Total(day[..h]);
            && c.pv == seed.pv + t.pv && c.imp == seed.imp + t.imp && c.exp == seed.exp + t.exp
            && (seed.load >= 0.0 && Consuming(day[..h]) ==> c.load == seed.load + t.load >= seed.load)
  {
    if h > 0 {
      AfterHours(day, seed, h - 1);
      WholeHour(day, seed, h - 1);
      TotalNext(day, h);
    }
  }

  /** The value the last sample of a metric carries, 0 without one. */
  function LastValue(samples: seq<Sample>, m: Metric): real {
    if samples == [] then 0.0
    else if samples[|samples|-1].metric == m then samples[|samples|-1].value
    else LastValue(samples[..|samples|-1], m)
  }

  /** The snapshot handed to the next imported day. */
  method EndCounters(samples: seq<Sample>) returns (c: Counters)
    ensures c == Counters(LastValue(samples, Pv), LastValue(samples, Import), LastValue(samples, Export),
                          LastValue(samples, Load))
  {
    c := ZERO;
    for i := 0 to |samples|
      invariant c == Counters(LastValue(samples[..i], Pv), LastValue(samples[..i], Import),
                              LastValue(samples[..i], Export), LastValue(samples[..i], Load))
    {
      var s := samples[i];
      assert samples[..i+1][..i] == samples[..i];
      match s.metric
      case Pv => c := c.(pv := s.value);
      case Import => c := c.(imp := s.value);
      case Export => c := c.(exp := s.value);
      case Load => c := c.(load := s.value);
      case Charged =>
      case Discharged =>
    }
    assert samples[..|samples|] == samples;
  }

  function EndOf(samples: seq<Sample>): Counters {
    Counters(LastValue(samples, Pv), LastValue(samples, Import), LastValue(samples, Export), LastValue(samples, Load))
  }

  lemma LastValueSkips(samples: seq<Sample>, s: Sample, m: Metric)
    ensures LastValue(samples + [s], m) == if s.metric == m then s.value else LastValue(samples, m)
  {
    assert (samples + [s])[..|samples|] == samples;
  }

  /** One reading's rows overwrite every meter. */
  lemma LastOfReading(before: seq<Sample>, t: int, c: Counters, m: Metric)
    requires m != Charged && m != Discharged
    ensures LastValue(before + SamplesAt(t, c), m) ==
            match m case Pv => c.pv case Import => c.imp case Export => c.exp case _ => c.load
  {
    var s := SamplesAt(t, c);
    var b1 := before + [s[0]];
    var b2 := b1 + [s[1]];
    var b3 := b2 + [s[2]];
    var b4 := b3 + [s[3]];
    var b5 := b4 + [s[4]];
    assert before + s == b5 + [s[5]];
    LastValueSkips(before, s[0], m);
    LastValueSkips(b1, s[1], m);
    LastValueSkips(b2, s[2], m);
    LastValueSkips(b3, s[3], m);
    LastValueSkips(b4, s[4], m);
    LastValueSkips(b5, s[5], m);
  }

  /** Stored rows lead back to the counters of the last reading. */
  lemma EndOfRows(readings: seq<Reading>)
    requires readings != []
    ensures EndOf(Rows(readings)) == readings[|readings|-1].counters
  {
    var n := |readings| - 1;
    var before, r := Rows(readings[..n]), readings[n];
    LastOfReading(before, r.time, r.counters, Pv);
    LastOfReading(before, r.time, r.counters, Import);
    LastOfReading(before, r.time, r.counters, Export);
    LastOfReading(before, r.time, r.counters, Load);
  }

  /** No energy is lost or doubled: read back from the stored rows, each meter's counter
      has moved by exactly its 24 hourly values, on a day of any length. Consumption
      follows too as long as it is never negative. */
  lemma DayConserves(day: Day, midnight: int, dayEnd: int, seed: Counters)
    ensures var end, t := EndOf(Rows(DayReadings(day, midnight, dayEnd, seed))), Total(day);
            && end.pv == seed.pv + t.pv && end.imp == seed.imp + t.imp && end.exp == seed.exp + t.exp
            && (seed.load >= 0.0 && Consuming(day) ==> end.load == seed.load + t.load >= seed.load)
  {
    EndOfRows(DayReadings(day, midnight, dayEnd, seed));
    AfterHours(day, seed, 24);
    assert day[..24] == day;
  }

  // ---- Order of values ----

  predicate NonNegative(hours: seq<Hour>) {
    forall i :: 0 <= i < |hours| ==> hours[i].pv >= 0.0 && hours[i].imp >= 0.0 && hours[i].exp >= 0.0
  }

  /** `c` is nowhere above `d` on the three meters. */
  predicate Below(c: Counters, d: Counters) {
    c.pv <= d.pv && c.imp <= d.imp && c.exp <= d.exp
  }

  ghost predicate NonDecreasing(readings: seq<Reading>) {
    forall i, j :: 0 <= i <= j < |readings| ==> Below(readings[i].counters, readings[j].counters)
  }

  lemma {:induction false} AfterGrows(day: Day, seed: Counters, i: nat, j: nat)
    requires i <= j <= STEPS && NonNegative(day)
    ensures Below(After(day, seed, i), After(day, seed, j))
  {
    if i < j { AfterGrows(day, seed, i, j - 1); }
  }

  /** The day's readings, opened by the snapshot at midnight, never go down. */
  lemma DayGrows(day: Day, midnight: int, dayEnd: int, seed: Counters)
    requires NonNegative(day)
    ensures NonDecreasing([Reading(midnight, seed)] + DayReadings(day, midnight, dayEnd, seed))
  {
    var n := Slots(dayEnd - midnight);
    var r := [Reading(midnight, seed)] + DayReadings(day, midnight, dayEnd, seed);
    forall i, j | 0 <= i <= j < |r| ensures Below(r[i].counters, r[j].counters) {
      AfterGrows(day, seed, if i == n then STEPS else i, if j == n then STEPS else j);
    }
  }
}
