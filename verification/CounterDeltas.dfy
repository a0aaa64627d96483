/** Per-bucket energy of a lifetime counter: the window query of `timeseriesDelta`
    (internal/api/queries.go). A logger that drops out reads near zero and then jumps back
    to its lifetime value; the query rebases on the running maximum so that the jump does
    not show as energy. Values are kWh, times seconds. */
module CounterDeltas {
  import opened Bucketing

  const MAX_POWER_KW := 10000.0
  const ZERO_TOLERANCE := 1.0

  function Max(a: real, b: real): real {
    if a >= b then a else b
  }

  /** `max(last_value)` over all rows so far. */
  function RunMax(rows: seq<Bucket>): real
    requires rows != []
  {
    if |rows| == 1 then rows[0].last else Max(RunMax(rows[..|rows|-1]), rows[|rows|-1].last)
  }

  /** The most a counter can gain between two bucket starts. */
  function Ceiling(from: int, to: int): real {
    MAX_POWER_KW * ((to - from) as real) / 3600.0
  }

  /** The value the query reports for row `i`. */
  function Delta(rows: seq<Bucket>, i: nat): real
    requires i < |rows|
  {
    var row := rows[i];
    if i > 0 && rows[i-1].last <= ZERO_TOLERANCE && RunMax(rows[..i]) > ZERO_TOLERANCE then
      Max(row.last - RunMax(rows[..i]), 0.0)
    else if i > 0 && row.last - rows[i-1].last > Ceiling(rows[i-1].time, row.time) then 0.0
    else Max(if i > 0 then row.last - rows[i-1].last else row.last - row.first, 0.0)
  }

  /** The energy shown by rows `from` up to `to`. */
  function DeltaSum(rows: seq<Bucket>, from: nat, to: nat): real
    requires from <= to <= |rows|
  {
    if from == to then 0.0 else DeltaSum(rows, from, to - 1) + Delta(rows, to - 1)
  }

  /** The counter has just come back from near zero. */
  predicate Rebased(rows: seq<Bucket>, i: nat)
    requires i < |rows|
  {
    i > 0 && rows[i-1].last <= ZERO_TOLERANCE && RunMax(rows[..i]) > ZERO_TOLERANCE
  }

  /** Whatever the readings, no bar is negative, and none but the first one and one after a
      dropout shows more than the plant could have produced since the bucket before. */
  lemma DeltaIsPlausible(rows: seq<Bucket>, i: nat)
    requires BucketsOrdered(rows) && i < |rows|
    ensures Delta(rows, i) >= 0.0
    ensures i > 0 && !Rebased(rows, i) ==> Delta(rows, i) <= Ceiling(rows[i-1].time, rows[i].time)
  {
    if i > 0 {
      assert rows[i].time - rows[i-1].time > 0;
      assert Ceiling(rows[i-1].time, rows[i].time) >= 0.0;
    }
  }

  predicate Dropout(row: Bucket) {
    row.last <= ZERO_TOLERANCE
  }

  /** The last row that did not drop out. */
  function LastGood(rows: seq<Bucket>): real
    requires rows != []
  {
    if |rows| == 1 || !Dropout(rows[|rows|-1]) then rows[|rows|-1].last else LastGood(rows[..|rows|-1])
  }

  /** A counter with dropouts: it starts well, never falls from one good bucket to a later
      one, and neighbouring good buckets differ by no more than the plant can produce. */
  ghost predicate Interrupted(rows: seq<Bucket>) {
    && rows != [] && !Dropout(rows[0]) && BucketsOrdered(rows)
    && (forall i, j :: 0 <= i < j < |rows| && !Dropout(rows[i]) && !Dropout(rows[j]) ==> rows[i].last <= rows[j].last)
    && (forall i :: 0 < i < |rows| && !Dropout(rows[i-1]) && !Dropout(rows[i]) ==>
          rows[i].last - rows[i-1].last <= Ceiling(rows[i-1].time, rows[i].time))
  }

  lemma {:induction false} RunMaxIsLastGood(rows: seq<Bucket>)
    requires Interrupted(rows)
    ensures RunMax(rows) == LastGood(rows) > ZERO_TOLERANCE
    ensures exists i :: 0 <= i < |rows| && !Dropout(rows[i]) && rows[i].last == LastGood(rows)
  {
    var n := |rows| - 1;
    if n == 0 {
      assert !Dropout(rows[0]);
    } else {
      PrefixInterrupted(rows, n);
      RunMaxIsLastGood(rows[..n]);
      var i :| 0 <= i < n && !Dropout(rows[..n][i]) && rows[..n][i].last == LastGood(rows[..n]);
      assert !Dropout(rows[i]) && (!Dropout(rows[n]) ==> rows[i].last <= rows[n].last);
    }
  }

  lemma PrefixInterrupted(rows: seq<Bucket>, n: nat)
    requires Interrupted(rows) && 1 <= n <= |rows|
    ensures Interrupted(rows[..n])
  {
  }

  /** A dropout shows nothing, and a good bucket shows what was gained since the last good
      one, whether or not dropouts lie between them. */
  lemma DeltaIsGain(rows: seq<Bucket>, i: nat)
    requires Interrupted(rows) && 1 <= i < |rows|
    ensures Delta(rows, i) == if Dropout(rows[i]) then 0.0 else rows[i].last - LastGood(rows[..i])
    ensures Delta(rows, i) >= 0.0
  {
    PrefixInterrupted(rows, i);
    RunMaxIsLastGood(rows[..i]);
    var k :| 0 <= k < i && !Dropout(rows[..i][k]) && rows[..i][k].last == LastGood(rows[..i]);
    assert rows[..i][k] == rows[k] && rows[..i][i-1] == rows[i-1];
    assert Ceiling(rows[i-1].time, rows[i].time) >= 0.0 by { assert rows[i].time - rows[i-1].time >= 0; }
    if !Dropout(rows[i]) { assert rows[k].last <= rows[i].last; }
  }

  lemma LastGoodNext(rows: seq<Bucket>, n: nat)
    requires 1 <= n < |rows|
    ensures LastGood(rows[..n+1]) == if Dropout(rows[n]) then LastGood(rows[..n]) else rows[n].last
  {
    assert rows[..n+1][..n] == rows[..n];
  }

  /** Over any run of rows the deltas telescope to what the counter gained. */
  lemma {:induction false} DeltasTelescope(rows: seq<Bucket>, from: nat, to: nat)
    requires Interrupted(rows) && 1 <= from <= to <= |rows|
    ensures DeltaSum(rows, from, to) == LastGood(rows[..to]) - LastGood(rows[..from])
  {
    if from < to {
      DeltasTelescope(rows, from, to - 1);
      DeltaIsGain(rows, to - 1);
      LastGoodNext(rows, to - 1);
    }
  }

  lemma {:induction false} SumFromFirst(rows: seq<Bucket>, to: nat)
    requires 1 <= to <= |rows|
    ensures DeltaSum(rows, 0, to) == Delta(rows, 0) + DeltaSum(rows, 1, to)
  {
    if to > 1 { SumFromFirst(rows, to - 1); }
  }

  /** The energy of all rows, lookback rows included. */
  function Shown(rows: seq<Bucket>): real {
    DeltaSum(rows, 0, |rows|)
  }

  lemma ShownIsGain(rows: seq<Bucket>)
    requires Interrupted(rows)
    ensures Shown(rows) == Delta(rows, 0) + LastGood(rows) - rows[0].last
  {
    var n := |rows|;
    SumFromFirst(rows, n);
    DeltasTelescope(rows, 1, n);
    assert rows[..n] == rows;
    assert LastGood(rows[..1]) == rows[0].last;
  }

  // ---- Inserting dropouts into the readings of a counter ----

  /** The readings without the dropouts. */
  function Good(readings: seq<Reading>): seq<Reading> {
    if readings == [] then []
    else
      var r, good := readings[|readings|-1], Good(readings[..|readings|-1]);
      if r.value <= ZERO_TOLERANCE then good else good + [r]
  }

  ghost predicate Grows(rows: seq<Bucket>) {
    && (forall i, j :: 0 <= i < j < |rows| ==> rows[i].last <= rows[j].last)
    && (forall i :: 0 < i < |rows| ==> rows[i].last - rows[i-1].last <= Ceiling(rows[i-1].time, rows[i].time))
  }

  /** `row` is the same bucket with the same closing value. */
  predicate Same(row: Bucket, other: Bucket) {
    row.time == other.time && row.last == other.last
  }

  ghost predicate HasSame(row: Bucket, plain: seq<Bucket>) {
    exists j :: 0 <= j < |plain| && Same(row, plain[j])
  }

  ghost predicate HasTime(rows: seq<Bucket>, t: int) {
    exists i :: 0 <= i < |rows| && rows[i].time == t
  }

  /** Row by row, `rows` is `plain` with some buckets closed by dropouts and some added. */
  ghost predicate Masks(rows: seq<Bucket>, plain: seq<Bucket>) {
    && (forall i :: 0 <= i < |rows| && !Dropout(rows[i]) ==> HasSame(rows[i], plain))
    && (forall j :: 0 <= j < |plain| ==> !Dropout(plain[j]))
    && (forall j :: 0 <= j < |plain| ==> HasTime(rows, plain[j].time))
  }

  lemma {:induction false} GoodNext(prior: seq<Reading>, r: Reading)
    ensures Good(prior + [r]) == if r.value <= ZERO_TOLERANCE then Good(prior) else Good(prior) + [r]
  {
    assert (prior + [r])[..|prior|] == prior;
  }

  lemma {:induction false} GoodIsSome(readings: seq<Reading>, r: Reading)
    requires r in Good(readings)
    ensures r in readings && r.value > ZERO_TOLERANCE
  {
    var prior, last := readings[..|readings|-1], readings[|readings|-1];
    assert readings == prior + [last];
    if r in Good(prior) { GoodIsSome(prior, r); }
  }

  lemma {:induction false} OrderedNext(readings: seq<Reading>, r: Reading)
    requires Ordered(readings) && forall x :: x in readings ==> x.time < r.time
    ensures Ordered(readings + [r])
  {
  }

  lemma {:induction false} GoodOrdered(readings: seq<Reading>)
    requires Ordered(readings)
    ensures Ordered(Good(readings))
  {
    if readings != [] {
      var prior, last := readings[..|readings|-1], readings[|readings|-1];
      GoodOrdered(prior);
      forall r | r in Good(prior) ensures r.time < last.time { GoodIsSome(prior, r); }
      OrderedNext(Good(prior), last);
    }
  }

  /** Good readings end no later than all readings. */
  lemma {:induction false} GoodEndsEarlier(readings: seq<Reading>, start: int -> int)
    requires BucketStarts(start) && Ordered(readings) && Good(readings) != []
    ensures readings != [] && start(Good(readings)[|Good(readings)|-1].time) <= start(readings[|readings|-1].time)
  {
    var g := Good(readings)[|Good(readings)|-1];
    GoodIsSome(readings, g);
    StartsOrdered(start, g.time, readings[|readings|-1].time);
  }

  /** Where the buckets stand before one more reading. */
  ghost predicate Ready(rows: seq<Bucket>, plain: seq<Bucket>, b: int) {
    && BucketsOrdered(rows) && BucketsOrdered(plain)
    && (rows != [] ==> rows[|rows|-1].time <= b)
    && (plain != [] ==> rows != [] && plain[|plain|-1].time <= rows[|rows|-1].time)
  }

  lemma {:induction false} ReadyFor(prior: seq<Reading>, r: Reading, start: int -> int)
    requires BucketStarts(start) && Ordered(prior) && (prior != [] ==> prior[|prior|-1].time <= r.time)
    ensures Ready(Buckets(prior, start), Buckets(Good(prior), start), start(r.time))
  {
    var good := Good(prior);
    GoodOrdered(prior);
    BucketsShape(prior, start);
    BucketsShape(good, start);
    if prior != [] { StartsOrdered(start, prior[|prior|-1].time, r.time); }
    if good != [] { GoodEndsEarlier(prior, start); }
  }

  lemma {:induction false} GoodBucketsNext(prior: seq<Reading>, r: Reading, start: int -> int)
    ensures var plain := Buckets(Good(prior), start);
            Buckets(Good(prior + [r]), start) == if r.value <= ZERO_TOLERANCE then plain else Add(plain, start, r)
  {
    GoodNext(prior, r);
    BucketsNext(Good(prior), r, start);
  }

  lemma {:induction false} LastReading(readings: seq<Reading>)
    requires Ordered(readings) && readings != []
    ensures var prior, r := readings[..|readings|-1], readings[|readings|-1];
            && readings == prior + [r] && Ordered(prior)
            && (prior != [] ==> prior[|prior|-1].time <= r.time && prior[0] == readings[0])
  {
  }

  lemma {:induction false} StartsOrdered(start: int -> int, t: int, u: int)
    requires BucketStarts(start) && t <= u
    ensures start(t) <= start(u)
  {
  }

  lemma {:induction false} BucketsNext(prior: seq<Reading>, r: Reading, start: int -> int)
    ensures Buckets(prior + [r], start) == Add(Buckets(prior, start), start, r)
  {
    assert (prior + [r])[..|prior|] == prior;
  }

  lemma {:induction false} DropoutsMask(readings: seq<Reading>, start: int -> int)
    requires BucketStarts(start) && Ordered(readings)
    ensures Masks(Buckets(readings, start), Buckets(Good(readings), start))
  {
    if readings != [] {
      var prior, r := readings[..|readings|-1], readings[|readings|-1];
      LastReading(readings);
      DropoutsMask(prior, start);
      BucketsNext(prior, r, start);
      GoodBucketsNext(prior, r, start);
      ReadyFor(prior, r, start);
      NextMasks(Buckets(prior, start), Buckets(Good(prior), start), start, r);
    }
  }

  lemma {:induction false} NextMasks(rows: seq<Bucket>, plain: seq<Bucket>, start: int -> int, r: Reading)
    requires Masks(rows, plain) && Ready(rows, plain, start(r.time))
    ensures Masks(Add(rows, start, r), if r.value <= ZERO_TOLERANCE then plain else Add(plain, start, r))
  {
    if r.value > ZERO_TOLERANCE {
      GoodReadingMasks(rows, plain, start, r);
    } else {
      DropoutMasks(rows, plain, start, r);
    }
  }

  lemma {:induction false} AddKeepsTimes(rows: seq<Bucket>, start: int -> int, r: Reading)
    ensures var after := Add(rows, start, r);
            && |rows| <= |after| && after != []
            && (forall i :: 0 <= i < |rows| ==> after[i].time == rows[i].time)
            && (forall i :: 0 <= i < |after| - 1 ==> i < |rows| && after[i] == rows[i])
            && after[|after|-1].time == start(r.time) && after[|after|-1].last == r.value
    ensures forall t :: HasTime(rows, t) ==> HasTime(Add(rows, start, r), t)
    ensures HasTime(Add(rows, start, r), start(r.time))
  {
    var after := Add(rows, start, r);
    assert after[|after|-1].time == start(r.time);
    forall t | HasTime(rows, t) ensures HasTime(after, t) {
      var i :| 0 <= i < |rows| && rows[i].time == t;
      assert after[i].time == t;
    }
  }

  lemma {:induction false} DropoutMasks(rows: seq<Bucket>, plain: seq<Bucket>, start: int -> int, r: Reading)
    requires Masks(rows, plain) && r.value <= ZERO_TOLERANCE
    ensures Masks(Add(rows, start, r), plain)
  {
    AddKeepsTimes(rows, start, r);
  }

  /** A row that is not the last keeps its counterpart when both sides take a reading. */
  lemma {:induction false} SameSurvives(row: Bucket, plain: seq<Bucket>, start: int -> int, r: Reading)
    requires HasSame(row, plain) && row.time < start(r.time)
    ensures HasSame(row, Add(plain, start, r))
  {
    var j :| 0 <= j < |plain| && Same(row, plain[j]);
    assert Same(row, Add(plain, start, r)[j]);
  }

  lemma {:induction false} GoodReadingMasks(rows: seq<Bucket>, plain: seq<Bucket>, start: int -> int, r: Reading)
    requires Masks(rows, plain) && r.value > ZERO_TOLERANCE && Ready(rows, plain, start(r.time))
    ensures Masks(Add(rows, start, r), Add(plain, start, r))
  {
    var after, good := Add(rows, start, r), Add(plain, start, r);
    AddKeepsTimes(rows, start, r);
    AddKeepsTimes(plain, start, r);
    forall i | 0 <= i < |after| && !Dropout(after[i]) ensures HasSame(after[i], good) {
      if i == |after| - 1 {
        assert Same(after[i], good[|good|-1]);
      } else {
        assert after[i].time < start(r.time);
        SameSurvives(after[i], plain, start, r);
      }
    }
    forall j | 0 <= j < |good| ensures !Dropout(good[j]) && HasTime(after, good[j].time) {
      if j < |good| - 1 { assert HasTime(rows, plain[j].time); }
    }
  }

  lemma {:induction false} SameOrder(rows: seq<Bucket>, plain: seq<Bucket>, i: nat, j: nat)
    requires Masks(rows, plain) && BucketsOrdered(rows) && BucketsOrdered(plain)
    requires i < j < |rows| && !Dropout(rows[i]) && !Dropout(rows[j])
    ensures exists k, l :: 0 <= k < l < |plain| && Same(rows[i], plain[k]) && Same(rows[j], plain[l])
                           && (j == i + 1 ==> l == k + 1)
  {
    assert HasSame(rows[i], plain) && HasSame(rows[j], plain);
    var k :| 0 <= k < |plain| && Same(rows[i], plain[k]);
    var l :| 0 <= l < |plain| && Same(rows[j], plain[l]);
    assert rows[i].time < rows[j].time;
    assert k < l;
    if k + 1 < l && j == i + 1 {
      assert HasTime(rows, plain[k+1].time);
      var m :| 0 <= m < |rows| && rows[m].time == plain[k+1].time;
      assert false;
    }
  }

  /** Buckets with dropouts among them are still an interrupted counter. */
  lemma {:induction false} MaskedIsInterrupted(rows: seq<Bucket>, plain: seq<Bucket>)
    requires Masks(rows, plain) && BucketsOrdered(rows) && BucketsOrdered(plain) && Grows(plain)
    requires rows != [] && !Dropout(rows[0])
    ensures Interrupted(rows)
  {
    forall i, j | 0 <= i < j < |rows| && !Dropout(rows[i]) && !Dropout(rows[j]) ensures rows[i].last <= rows[j].last {
      SameOrder(rows, plain, i, j);
    }
    forall i | 0 < i < |rows| && !Dropout(rows[i-1]) && !Dropout(rows[i])
      ensures rows[i].last - rows[i-1].last <= Ceiling(rows[i-1].time, rows[i].time)
    {
      SameOrder(rows, plain, i - 1, i);
    }
  }

  /** No dropout falls into the first bucket. */
  ghost predicate FirstBucketGood(readings: seq<Reading>, start: int -> int)
    requires readings != []
  {
    forall i :: 0 <= i < |readings| && start(readings[i].time) == start(readings[0].time) ==>
      readings[i].value > ZERO_TOLERANCE
  }

  ghost predicate SameFirst(rows: seq<Bucket>, plain: seq<Bucket>) {
    rows != [] && plain != [] && rows[0] == plain[0]
  }

  lemma {:induction false} FirstBucketGoodPrefix(readings: seq<Reading>, start: int -> int)
    requires |readings| > 1 && FirstBucketGood(readings, start)
    ensures FirstBucketGood(readings[..|readings|-1], start)
    ensures var r := readings[|readings|-1]; start(r.time) == start(readings[0].time) ==> r.value > ZERO_TOLERANCE
  {
  }

  lemma {:induction false} FirstStep(prior: seq<Reading>, r: Reading, start: int -> int)
    requires BucketStarts(start) && Ordered(prior) && prior != [] && prior[|prior|-1].time <= r.time
    requires start(r.time) == start(prior[0].time) ==> r.value > ZERO_TOLERANCE
    requires SameFirst(Buckets(prior, start), Buckets(Good(prior), start))
    ensures SameFirst(Buckets(prior + [r], start), Buckets(Good(prior + [r]), start))
  {
    ReadyFor(prior, r, start);
    BucketsShape(prior, start);
    BucketsNext(prior, r, start);
    GoodBucketsNext(prior, r, start);
    FirstOfAdd(Buckets(prior, start), Buckets(Good(prior), start), start, r);
  }

  lemma {:induction false} OneReading(r: Reading, start: int -> int)
    requires r.value > ZERO_TOLERANCE
    ensures Good([r]) == [r] && Buckets([r], start) == [Bucket(start(r.time), r.value, r.value)]
  {
    assert [r][..0] == [] && Good([]) == [] && Buckets([], start) == [];
  }

  lemma {:induction false} FirstBucketKept(readings: seq<Reading>, start: int -> int)
    requires BucketStarts(start) && Ordered(readings) && readings != []
    requires FirstBucketGood(readings, start)
    ensures SameFirst(Buckets(readings, start), Buckets(Good(readings), start))
  {
    if |readings| == 1 {
      assert readings == [readings[0]];
      OneReading(readings[0], start);
    } else {
      var prior, r := readings[..|readings|-1], readings[|readings|-1];
      FirstBucketGoodPrefix(readings, start);
      LastReading(readings);
      FirstBucketKept(prior, start);
      FirstStep(prior, r, start);
    }
  }

  lemma {:induction false} FirstOfAdd(rows: seq<Bucket>, plain: seq<Bucket>, start: int -> int, r: Reading)
    requires SameFirst(rows, plain) && Ready(rows, plain, start(r.time))
    requires start(r.time) == rows[0].time ==> r.value > ZERO_TOLERANCE
    ensures SameFirst(Add(rows, start, r), if r.value <= ZERO_TOLERANCE then plain else Add(plain, start, r))
  {
    if |rows| > 1 { assert rows[0].time < rows[|rows|-1].time; }
    if |plain| > 1 { assert plain[0].time < plain[|plain|-1].time; }
  }

  // ---- What the chart shows ----

  /** The lookback rows: those that start before `from`, which the query reads and drops. */
  function RowsBefore(rows: seq<Bucket>, from: int): (n: nat)
    ensures n <= |rows|
  {
    if rows == [] then 0
    else if rows[|rows|-1].time < from then |rows|
    else RowsBefore(rows[..|rows|-1], from)
  }

  lemma {:induction false} RowsBeforeAre(rows: seq<Bucket>, from: int)
    requires BucketsOrdered(rows)
    ensures forall i :: 0 <= i < |rows| ==> (i < RowsBefore(rows, from) <==> rows[i].time < from)
  {
    if rows != [] { RowsBeforeAre(rows[..|rows|-1], from); }
  }

  /** The energy of the rows the query returns. */
  function ShownFrom(rows: seq<Bucket>, from: int): real {
    DeltaSum(rows, RowsBefore(rows, from), |rows|)
  }

  /** How far the closing values of `rows` lag behind the counter's. */
  function Lag(rows: seq<Bucket>, plain: seq<Bucket>): real
    requires rows != [] && plain != []
  {
    plain[|plain|-1].last - LastGood(rows)
  }

  /** The lag of the rows before `from`. */
  function SeedLag(rows: seq<Bucket>, plain: seq<Bucket>, from: int): real
    requires rows != [] && plain != []
  {
    var d, p := RowsBefore(rows, from), RowsBefore(plain, from);
    if d == 0 || p == 0 then 0.0 else Lag(rows[..d], plain[..p])
  }

  lemma {:induction false} AllGood(plain: seq<Bucket>)
    requires plain != [] && !Dropout(plain[|plain|-1])
    ensures LastGood(plain) == plain[|plain|-1].last
  {
  }

  /** Masked rows show what the counter gained, less the lag at the end, plus the lag at the
      start. */
  lemma {:induction false} MaskedShowsFrom(rows: seq<Bucket>, plain: seq<Bucket>, from: int)
    requires Masks(rows, plain) && BucketsOrdered(rows) && BucketsOrdered(plain) && Grows(plain)
    requires SameFirst(rows, plain)
    ensures ShownFrom(rows, from) == ShownFrom(plain, from) - Lag(rows, plain) + SeedLag(rows, plain, from)
  {
    MaskedIsInterrupted(rows, plain);
    assert Interrupted(plain);
    RowsBeforeAre(rows, from);
    RowsBeforeAre(plain, from);
    AllGood(plain);
    var d, p := RowsBefore(rows, from), RowsBefore(plain, from);
    if rows[0].time < from {
      DeltasTelescope(rows, d, |rows|);
      DeltasTelescope(plain, p, |plain|);
      AllGood(plain[..p]);
      assert rows[..|rows|] == rows && plain[..|plain|] == plain;
    } else {
      assert d == 0 && p == 0;
      ShownIsGain(rows);
      ShownIsGain(plain);
    }
  }

  lemma {:induction false} MaskedKeeps(rows: seq<Bucket>, plain: seq<Bucket>, from: int)
    requires Masks(rows, plain) && BucketsOrdered(rows) && BucketsOrdered(plain) && Grows(plain)
    requires SameFirst(rows, plain)
    ensures ShownFrom(rows, from) == ShownFrom(plain, from) <==> Lag(rows, plain) == SeedLag(rows, plain, from)
  {
    MaskedShowsFrom(rows, plain, from);
  }

  /** The buckets of the readings with and without the dropouts. */
  lemma {:induction false} ReadingsMask(readings: seq<Reading>, start: int -> int)
    requires BucketStarts(start) && Ordered(readings) && readings != []
    requires FirstBucketGood(readings, start)
    ensures var rows, plain := Buckets(readings, start), Buckets(Good(readings), start);
            && Masks(rows, plain) && BucketsOrdered(rows) && BucketsOrdered(plain) && SameFirst(rows, plain)
            && rows[|rows|-1].last == readings[|readings|-1].value
            && Good(readings) != [] && plain[|plain|-1].last == Good(readings)[|Good(readings)|-1].value
  {
    FirstBucketKept(readings, start);
    DropoutsMask(readings, start);
    GoodOrdered(readings);
    BucketsShape(readings, start);
    BucketsShape(Good(readings), start);
  }

  /** What dropouts do to the chart. Take a counter that grows within the plant's power and
      insert readings near zero anywhere after its first bucket. The energy shown from
      `from` on stays the same exactly when the last bucket that still closes with a real
      reading lags as far behind the counter at the end as it did before `from`. */
  lemma {:induction false} DropoutsKeepEnergy(readings: seq<Reading>, start: int -> int, from: int)
    requires BucketStarts(start) && Ordered(readings) && readings != []
    requires FirstBucketGood(readings, start)
    requires Grows(Buckets(Good(readings), start))
    ensures var rows, plain := Buckets(readings, start), Buckets(Good(readings), start);
            && rows != [] && plain != []
            && (ShownFrom(rows, from) == ShownFrom(plain, from) <==> Lag(rows, plain) == SeedLag(rows, plain, from))
  {
    ReadingsMask(readings, start);
    MaskedKeeps(Buckets(readings, start), Buckets(Good(readings), start), from);
  }

  /** Only the readings of one bucket lie before `from`. */
  ghost predicate OneBucketBefore(readings: seq<Reading>, start: int -> int, from: int)
    requires readings != []
  {
    forall i :: 0 <= i < |readings| && readings[i].time < from ==> start(readings[i].time) == start(readings[0].time)
  }

  /** Buckets are `width` long. */
  ghost predicate Width(start: int -> int, width: int) {
    && (forall t :: t < start(t) + width)
    && (forall t, u :: start(t) <= u < start(t) + width ==> start(u) == start(t))
  }

  /** The query looks back one bucket; from a bucket's start that is one bucket. */
  lemma {:induction false} AlignedLookback(readings: seq<Reading>, start: int -> int, from: int, width: int)
    requires BucketStarts(start) && Width(start, width) && start(from) == from && readings != []
    requires forall i :: 0 <= i < |readings| ==> from - width <= readings[i].time
    requires Ordered(readings)
    ensures OneBucketBefore(readings, start, from)
  {
    forall i | 0 <= i < |readings| && readings[i].time < from
      ensures start(readings[i].time) == start(readings[0].time)
    {
      assert readings[0].time <= readings[i].time;
      SameLookback(start, from, width, readings[i].time);
      SameLookback(start, from, width, readings[0].time);
    }
  }

  lemma {:induction false} SameLookback(start: int -> int, from: int, width: int, t: int)
    requires BucketStarts(start) && Width(start, width) && start(from) == from && from - width <= t < from
    ensures start(t) == start(from - width)
  {
    assert start(t) <= from - width < start(t) + width;
  }

  lemma {:induction false} FewBefore(rows: seq<Bucket>, from: int)
    requires BucketsOrdered(rows) && forall j :: 1 <= j < |rows| ==> rows[j].time >= from
    ensures RowsBefore(rows, from) <= 1
  {
    RowsBeforeAre(rows, from);
    var k := RowsBefore(rows, from);
    assert k > 0 ==> rows[k-1].time < from;
  }

  lemma {:induction false} OneRowBefore(readings: seq<Reading>, start: int -> int, from: int)
    requires BucketStarts(start) && Ordered(readings) && readings != []
    requires OneBucketBefore(readings, start, from) && start(from) == from
    ensures RowsBefore(Buckets(readings, start), from) <= 1
  {
    var rows := Buckets(readings, start);
    BucketsShape(readings, start);
    forall j | 1 <= j < |rows| ensures rows[j].time >= from {
      BucketHasReading(readings, start, j);
      var i :| 0 <= i < |readings| && start(readings[i].time) == rows[j].time;
      assert rows[0].time < rows[j].time;
      assert readings[i].time >= from;
      assert start(from) <= start(readings[i].time);
    }
    FewBefore(rows, from);
  }

  lemma {:induction false} BucketHasReading(readings: seq<Reading>, start: int -> int, j: nat)
    requires j < |Buckets(readings, start)|
    ensures exists i :: 0 <= i < |readings| && start(readings[i].time) == Buckets(readings, start)[j].time
  {
    var n := |readings| - 1;
    var before := Buckets(readings[..n], start);
    if j < |before| {
      BucketHasReading(readings[..n], start, j);
      var i :| 0 <= i < n && start(readings[..n][i].time) == before[j].time;
      assert readings[i] == readings[..n][i];
    } else {
      assert start(readings[n].time) == Buckets(readings, start)[j].time;
    }
  }

  /** On a chart that starts with a bucket there is one lookback row, and the energy shown
      stays the same exactly when the last bucket that closes with a real reading closes
      with the counter's final value. */
  lemma {:induction false} AlignedChartKeepsEnergy(readings: seq<Reading>, start: int -> int, from: int, width: int)
    requires BucketStarts(start) && Ordered(readings) && readings != []
    requires FirstBucketGood(readings, start)
    requires Grows(Buckets(Good(readings), start))
    requires Width(start, width) && start(from) == from
    requires forall i :: 0 <= i < |readings| ==> from - width <= readings[i].time
    ensures var rows, plain := Buckets(readings, start), Buckets(Good(readings), start);
            && rows != [] && Good(readings) != []
            && (ShownFrom(rows, from) == ShownFrom(plain, from)
                <==> LastGood(rows) == Good(readings)[|Good(readings)|-1].value)
  {
    var rows, plain := Buckets(readings, start), Buckets(Good(readings), start);
    ReadingsMask(readings, start);
    DropoutsKeepEnergy(readings, start, from);
    AlignedLookback(readings, start, from, width);
    OneRowBefore(readings, start, from);
    OneSeedNoLag(rows, plain, from);
  }

  lemma {:induction false} OneSeedNoLag(rows: seq<Bucket>, plain: seq<Bucket>, from: int)
    requires Masks(rows, plain) && BucketsOrdered(rows) && BucketsOrdered(plain) && SameFirst(rows, plain)
    requires RowsBefore(rows, from) <= 1
    ensures SeedLag(rows, plain, from) == 0.0
  {
    RowsBeforeAre(rows, from);
    forall j | 1 <= j < |plain| ensures plain[j].time >= from {
      assert HasTime(rows, plain[j].time) && plain[0].time < plain[j].time;
      var i :| 0 <= i < |rows| && rows[i].time == plain[j].time;
      assert i >= RowsBefore(rows, from);
    }
    FewBefore(plain, from);
  }

  /** In particular nothing changes once the counter has come back and no dropout closes the
      last bucket before the chart. */
  lemma {:induction false} EnergyKeptAfterRecovery(readings: seq<Reading>, start: int -> int, from: int)
    requires BucketStarts(start) && Ordered(readings) && readings != []
    requires FirstBucketGood(readings, start)
    requires Grows(Buckets(Good(readings), start))
    requires readings[|readings|-1].value > ZERO_TOLERANCE
    requires SeedLag(Buckets(readings, start), Buckets(Good(readings), start), from) == 0.0
    ensures ShownFrom(Buckets(readings, start), from) == ShownFrom(Buckets(Good(readings), start), from)
  {
    ReadingsMask(readings, start);
    GoodLast(readings);
    var rows, plain := Buckets(readings, start), Buckets(Good(readings), start);
    RecoveredNoLag(rows, plain);
    MaskedShowsFrom(rows, plain, from);
  }

  lemma {:induction false} GoodLast(readings: seq<Reading>)
    requires readings != [] && readings[|readings|-1].value > ZERO_TOLERANCE
    ensures Good(readings) != [] && Good(readings)[|Good(readings)|-1] == readings[|readings|-1]
  {
  }

  lemma {:induction false} RecoveredNoLag(rows: seq<Bucket>, plain: seq<Bucket>)
    requires rows != [] && plain != [] && !Dropout(rows[|rows|-1]) && rows[|rows|-1].last == plain[|plain|-1].last
    ensures Lag(rows, plain) == 0.0
  {
  }

  /** With two lookback rows the second can be a dropout while the chart starts mid-bucket:
      closing values 100, 0, 120 show 20 where 100, 110, 120 show 10. */
  lemma SeedDropoutIsShown()
    ensures var rows := [Bucket(0, 100.0, 100.0), Bucket(3600, 0.0, 0.0), Bucket(7200, 120.0, 120.0)];
            var plain := rows[1 := Bucket(3600, 110.0, 110.0)];
            ShownFrom(rows, 5400) == 20.0 && ShownFrom(plain, 5400) == 10.0
  {
    var rows := [Bucket(0, 100.0, 100.0), Bucket(3600, 0.0, 0.0), Bucket(7200, 120.0, 120.0)];
    var plain := rows[1 := Bucket(3600, 110.0, 110.0)];
    assert rows[..2][..1] == [rows[0]] && plain[..2][..1] == [rows[0]];
    assert rows[..2][1] == rows[1] && plain[..2][1] == plain[1];
    assert RunMax([rows[0]]) == 100.0;
    assert RunMax(rows[..2]) == 100.0;
    assert Delta(rows, 2) == 20.0 && Delta(plain, 2) == 10.0;
    assert RowsBefore(rows[..2], 5400) == 2 && RowsBefore(plain[..2], 5400) == 2;
    assert DeltaSum(rows, 2, 2) == 0.0 && DeltaSum(plain, 2, 2) == 0.0;
  }

  // ---- A counter without dropouts ----

  ghost predicate Rising(readings: seq<Reading>) {
    && (forall i :: 0 <= i < |readings| ==> readings[i].value > ZERO_TOLERANCE)
    && (forall i, j :: 0 <= i < j < |readings| ==> readings[i].value <= readings[j].value)
  }

  /** Rows of a rising counter: each closes at least as high as it opens, and no row has a dropout. */
  ghost predicate RisingRows(rows: seq<Bucket>) {
    forall i :: 0 <= i < |rows| ==> ZERO_TOLERANCE < rows[i].first <= rows[i].last
  }

  lemma {:induction false} AddRises(rows: seq<Bucket>, start: int -> int, r: Reading)
    requires RisingRows(rows) && r.value > ZERO_TOLERANCE
    requires rows != [] ==> rows[|rows|-1].last <= r.value
    ensures RisingRows(Add(rows, start, r))
  {
  }

  lemma {:induction false} BucketsRise(readings: seq<Reading>, start: int -> int)
    requires BucketStarts(start) && Ordered(readings) && Rising(readings)
    ensures RisingRows(Buckets(readings, start))
  {
    if readings != [] {
      var prior, r := readings[..|readings|-1], readings[|readings|-1];
      LastReading(readings);
      BucketsRise(prior, start);
      BucketsShape(prior, start);
      BucketsNext(prior, r, start);
      AddRises(Buckets(prior, start), start, r);
    }
  }

  lemma {:induction false} RowsShowGain(rows: seq<Bucket>)
    requires rows != [] && RisingRows(rows) && Grows(rows) && BucketsOrdered(rows)
    ensures Shown(rows) == rows[|rows|-1].last - rows[0].first
  {
    assert forall i :: 0 <= i < |rows| ==> !Dropout(rows[i]);
    ShownIsGain(rows);
    AllGood(rows);
  }

  lemma {:induction false} NothingBefore(rows: seq<Bucket>, from: int)
    requires rows != [] && BucketsOrdered(rows) && from <= rows[0].time
    ensures ShownFrom(rows, from) == Shown(rows)
  {
    RowsBeforeAre(rows, from);
    assert RowsBefore(rows, from) == 0 || rows[0].time < from;
  }

  /** What the chart is for: a counter that only rises, within the plant's power, and is read
      from its first reading on shows exactly what it gained, from the first reading to the
      last; the first bar is what was gained inside its own bucket. */
  lemma {:induction false} RisingShowsGain(readings: seq<Reading>, start: int -> int, from: int)
    requires BucketStarts(start) && Ordered(readings) && readings != [] && Rising(readings)
    requires Grows(Buckets(readings, start)) && from <= start(readings[0].time)
    ensures ShownFrom(Buckets(readings, start), from) == readings[|readings|-1].value - readings[0].value
    ensures var rows := Buckets(readings, start); rows != [] && Delta(rows, 0) == rows[0].last - readings[0].value
  {
    var rows := Buckets(readings, start);
    BucketsShape(readings, start);
    BucketsRise(readings, start);
    RowsShowGain(rows);
    NothingBefore(rows, from);
  }

  // ---- Dropouts before anything else ----

  lemma {:induction false} LeadingMax(rows: seq<Bucket>)
    requires rows != [] && forall i :: 0 <= i < |rows| ==> Dropout(rows[i])
    ensures RunMax(rows) <= ZERO_TOLERANCE
  {
    if |rows| > 1 { LeadingMax(rows[..|rows|-1]); }
  }

  /** Why the first bucket matters: as long as every bucket so far has been a dropout there is
      no maximum to rebase on. The counter's return then shows as energy exactly when the
      power ceiling does not catch it, and it shows all of it. */
  lemma {:induction false} LeadingDropoutsShown(rows: seq<Bucket>, m: nat)
    requires BucketsOrdered(rows) && 1 <= m < |rows| && !Dropout(rows[m])
    requires forall i :: 0 <= i < m ==> Dropout(rows[i])
    ensures var jump := rows[m].last - rows[m-1].last;
            && (Delta(rows, m) > 0.0 <==> jump <= Ceiling(rows[m-1].time, rows[m].time))
            && (Delta(rows, m) > 0.0 ==> Delta(rows, m) == jump)
  {
    LeadingMax(rows[..m]);
    assert Dropout(rows[m-1]);
  }
}
