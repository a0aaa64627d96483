/** Readings grouped into time buckets, as `time_bucket` with `first` and `last` does. */
module Bucketing {
  datatype Reading = Reading(time: int, value: real)

  /** A bucket's start with its first and last reading. */
  datatype Bucket = Bucket(time: int, first: real, last: real)

  /** `start(t)` is the start of the bucket that holds `t`. */
  ghost predicate BucketStarts(start: int -> int) {
    && (forall t :: start(t) <= t)
    && (forall t, u :: t <= u ==> start(t) <= start(u))
  }

  ghost predicate Ordered(readings: seq<Reading>) {
    forall i, j :: 0 <= i < j < |readings| ==> readings[i].time < readings[j].time
  }

  ghost predicate BucketsOrdered(rows: seq<Bucket>) {
    forall i, j :: 0 <= i < j < |rows| ==> rows[i].time < rows[j].time
  }

  /** One more reading, later than all before. */
  function Add(rows: seq<Bucket>, start: int -> int, r: Reading): seq<Bucket> {
    if rows != [] && rows[|rows|-1].time == start(r.time) then
      rows[..|rows|-1] + [rows[|rows|-1].(last := r.value)]
    else rows + [Bucket(start(r.time), r.value, r.value)]
  }

  function Buckets(readings: seq<Reading>, start: int -> int): seq<Bucket> {
    if readings == [] then []
    else Add(Buckets(readings[..|readings|-1], start), start, readings[|readings|-1])
  }

  /** Buckets come in order; the first is the one of the first reading and opens with it, the
      last is the one of the last reading and ends with it. */
  ghost predicate Shape(rows: seq<Bucket>, readings: seq<Reading>, start: int -> int) {
    && BucketsOrdered(rows)
    && (rows == [] <==> readings == [])
    && (readings != [] ==> rows[|rows|-1].time == start(readings[|readings|-1].time)
                           && rows[|rows|-1].last == readings[|readings|-1].value
                           && rows[0].time == start(readings[0].time)
                           && rows[0].first == readings[0].value)
  }

  lemma {:induction false} AddShape(rows: seq<Bucket>, prior: seq<Reading>, start: int -> int, r: Reading)
    requires Shape(rows, prior, start)
    requires prior != [] ==> start(prior[|prior|-1].time) <= start(r.time)
    ensures Shape(Add(rows, start, r), prior + [r], start)
  {
  }

  lemma {:induction false} BucketsShape(readings: seq<Reading>, start: int -> int)
    requires BucketStarts(start) && Ordered(readings)
    ensures Shape(Buckets(readings, start), readings, start)
  {
    if readings != [] {
      var n := |readings| - 1;
      BucketsShape(readings[..n], start);
      if n > 0 { assert start(readings[n-1].time) <= start(readings[n].time); }
      AddShape(Buckets(readings[..n], start), readings[..n], start, readings[n]);
      assert readings[..n] + [readings[n]] == readings;
    }
  }

  /** The readings of one bucket. */
  function In(readings: seq<Reading>, start: int -> int, b: int): seq<Reading> {
    if readings == [] then []
    else
      var n := |readings| - 1;
      In(readings[..n], start, b) + if start(readings[n].time) == b then [readings[n]] else []
  }

  /** `row` opens with the first and closes with the last reading of its bucket. */
  predicate Summarizes(row: Bucket, readings: seq<Reading>) {
    readings != [] && row.first == readings[0].value && row.last == readings[|readings|-1].value
  }

  ghost predicate HasRow(rows: seq<Bucket>, b: int) {
    exists i :: 0 <= i < |rows| && rows[i].time == b
  }

  /** There is a row for exactly the buckets that hold a reading, and each opens with the first
      and closes with the last reading of its bucket. */
  ghost predicate Summary(rows: seq<Bucket>, readings: seq<Reading>, start: int -> int) {
    && (forall i :: 0 <= i < |rows| ==> Summarizes(rows[i], In(readings, start, rows[i].time)))
    && (forall b :: In(readings, start, b) != [] ==> HasRow(rows, b))
  }

  lemma {:induction false} BucketsSummarize(readings: seq<Reading>, start: int -> int)
    requires BucketStarts(start) && Ordered(readings)
    ensures Summary(Buckets(readings, start), readings, start)
  {
    if readings != [] {
      var n := |readings| - 1;
      var before, r := Buckets(readings[..n], start), readings[n];
      BucketsSummarize(readings[..n], start);
      BucketsShape(readings[..n], start);
      if n > 0 { assert start(readings[n-1].time) <= start(r.time); }
      AddSummarizes(before, readings[..n], start, r);
      assert readings[..n] + [r] == readings;
    }
  }

  lemma {:induction false} InNext(prior: seq<Reading>, start: int -> int, r: Reading, b: int)
    ensures In(prior + [r], start, b) == In(prior, start, b) + if start(r.time) == b then [r] else []
  {
    assert (prior + [r])[..|prior|] == prior;
  }

  /** A row that takes no reading is that of an earlier bucket and stays as it is. */
  lemma {:induction false} KeptRow(row: Bucket, prior: seq<Reading>, start: int -> int, r: Reading)
    requires Summarizes(row, In(prior, start, row.time)) && row.time != start(r.time)
    ensures Summarizes(row, In(prior + [r], start, row.time))
  {
    InNext(prior, start, r, row.time);
  }

  lemma {:induction false} LongerRow(row: Bucket, prior: seq<Reading>, start: int -> int, r: Reading)
    requires Summarizes(row, In(prior, start, row.time)) && row.time == start(r.time)
    ensures Summarizes(row.(last := r.value), In(prior + [r], start, row.time))
  {
    InNext(prior, start, r, row.time);
  }

  lemma {:induction false} NewRow(prior: seq<Reading>, start: int -> int, r: Reading)
    requires In(prior, start, start(r.time)) == []
    ensures Summarizes(Bucket(start(r.time), r.value, r.value), In(prior + [r], start, start(r.time)))
  {
    InNext(prior, start, r, start(r.time));
  }

  lemma {:induction false} RowOfAdd(rows: seq<Bucket>, start: int -> int, r: Reading, i: nat)
    requires BucketsOrdered(rows) && (rows != [] ==> rows[|rows|-1].time <= start(r.time))
    requires i < |Add(rows, start, r)|
    ensures Add(rows, start, r)[i] == if i < |rows| && rows[i].time != start(r.time) then rows[i]
                                      else if i < |rows| then rows[i].(last := r.value)
                                      else Bucket(start(r.time), r.value, r.value)
    ensures i >= |rows| ==> !HasRow(rows, start(r.time))
  {
  }

  lemma {:induction false} AddedRow(rows: seq<Bucket>, prior: seq<Reading>, start: int -> int, r: Reading, i: nat)
    requires BucketsOrdered(rows) && (rows != [] ==> rows[|rows|-1].time <= start(r.time))
    requires Summary(rows, prior, start) && i < |Add(rows, start, r)|
    ensures var row := Add(rows, start, r)[i]; Summarizes(row, In(prior + [r], start, row.time))
  {
    RowOfAdd(rows, start, r, i);
    if i >= |rows| {
      NewRow(prior, start, r);
    } else if rows[i].time != start(r.time) {
      KeptRow(rows[i], prior, start, r);
    } else {
      LongerRow(rows[i], prior, start, r);
    }
  }

  lemma {:induction false} AddedBucket(rows: seq<Bucket>, start: int -> int, r: Reading, b: int)
    requires HasRow(rows, b) || start(r.time) == b
    ensures HasRow(Add(rows, start, r), b)
  {
    var after := Add(rows, start, r);
    if start(r.time) == b {
      assert after[|after|-1].time == b;
    } else {
      var i :| 0 <= i < |rows| && rows[i].time == b;
      assert after[i].time == b;
    }
  }

  lemma {:induction false} AddSummarizes(rows: seq<Bucket>, prior: seq<Reading>, start: int -> int, r: Reading)
    requires BucketsOrdered(rows) && (rows != [] ==> rows[|rows|-1].time <= start(r.time))
    requires Summary(rows, prior, start)
    ensures Summary(Add(rows, start, r), prior + [r], start)
  {
    var after, all := Add(rows, start, r), prior + [r];
    forall i | 0 <= i < |after| ensures Summarizes(after[i], In(all, start, after[i].time)) {
      AddedRow(rows, prior, start, r, i);
    }
    forall b | In(all, start, b) != [] ensures HasRow(after, b) {
      InNext(prior, start, r, b);
      AddedBucket(rows, start, r, b);
    }
  }
}
