/** Merging changed spans into ranges of civil days to recompute
    (`dayRanges`, cmd/economics-recompute/main.go). Days are numbered; `dayOf` gives the
    civil day of an instant. */
module DayRanges {
  import opened HealQueue
  import opened Ordering

  /** Days after a change whose battery cost basis looks back on it. */
  const LOOKAHEAD_DAYS := 2

  /** First and last day, both included. */
  datatype Range = Range(first: int, last: int)

  /** The days one span calls for. */
  predicate Wants(s: Span, dayOf: int -> int, lastDay: int, d: int) {
    dayOf(s.from) <= d <= dayOf(s.to) + LOOKAHEAD_DAYS && d <= lastDay
  }

  ghost predicate Wanted(spans: seq<Span>, dayOf: int -> int, lastDay: int, d: int) {
    exists i :: 0 <= i < |spans| && Wants(spans[i], dayOf, lastDay, d)
  }

  /** Days follow each other: a later instant is on no earlier day, and between two instants
      every day in between is met. */
  ghost predicate CivilDays(dayOf: int -> int) {
    && (forall t, u :: t <= u ==> dayOf(t) <= dayOf(u))
    && (forall t, u, d :: t <= u && dayOf(t) <= d <= dayOf(u) ==> Meets(t, u, dayOf, d))
  }

  ghost predicate Meets(t: int, u: int, dayOf: int -> int, d: int) {
    exists v :: t <= v <= u && dayOf(v) == d
  }

  ghost predicate ChangedBack(spans: seq<Span>, dayOf: int -> int, d: int) {
    exists i, t :: 0 <= i < |spans| && ChangedAt(spans[i], t) && dayOf(t) <= d <= dayOf(t) + 2
  }

  predicate ChangedAt(s: Span, t: int) { s.from <= t <= s.to }

  /** Which days those are: the ones up to the last day with a change on them or on one of the
      two days before. */
  lemma {:induction false} WantedIsChangedBack(spans: seq<Span>, dayOf: int -> int, lastDay: int, d: int)
    requires CivilDays(dayOf) && forall i :: 0 <= i < |spans| ==> spans[i].from <= spans[i].to
    ensures Wanted(spans, dayOf, lastDay, d) <==> d <= lastDay && ChangedBack(spans, dayOf, d)
  {
    if Wanted(spans, dayOf, lastDay, d) {
      var i :| 0 <= i < |spans| && Wants(spans[i], dayOf, lastDay, d);
      var s := spans[i];
      if d <= dayOf(s.to) {
        assert Meets(s.from, s.to, dayOf, d);
        var v :| s.from <= v <= s.to && dayOf(v) == d;
        assert ChangedAt(s, v);
      } else {
        assert ChangedAt(s, s.to);
      }
    }
    if d <= lastDay && ChangedBack(spans, dayOf, d) {
      var i, t :| 0 <= i < |spans| && ChangedAt(spans[i], t) && dayOf(t) <= d <= dayOf(t) + 2;
      assert Wants(spans[i], dayOf, lastDay, d);
    }
  }

  predicate Holds(r: Range, d: int) {
    r.first <= d <= r.last
  }

  ghost predicate Covered(ranges: seq<Range>, d: int) {
    exists i :: 0 <= i < |ranges| && Holds(ranges[i], d)
  }

  /** In order, none empty, and at least one day between neighbours. */
  ghost predicate Separate(ranges: seq<Range>) {
    && (forall i :: 0 <= i < |ranges| ==> ranges[i].first <= ranges[i].last)
    && (forall i, j :: 0 <= i < j < |ranges| ==> ranges[i].last + 1 < ranges[j].first)
  }

  predicate RangeLe(a: Range, b: Range) {
    a.first < b.first || (a.first == b.first && a.last <= b.last)
  }

  lemma RangeOrder()
    ensures TotalOrder(RangeLe)
  {
  }

  /** Ranges by first day. */
  method SortByFirst(ranges: seq<Range>) returns (sorted: seq<Range>)
    ensures multiset(sorted) == multiset(ranges)
    ensures forall i, j :: 0 <= i < j < |sorted| ==> sorted[i].first <= sorted[j].first
  {
    RangeOrder();
    SortCorrect(RangeLe, ranges);
    sorted := Sort(RangeLe, ranges);
    assert forall i, j :: 0 <= i < j < |sorted| ==> RangeLe(sorted[i], sorted[j]);
  }

  lemma {:induction false} SameElementsCover(a: seq<Range>, b: seq<Range>, d: int)
    requires multiset(a) == multiset(b)
    ensures Covered(a, d) ==> Covered(b, d)
  {
    if Covered(a, d) {
      var i :| 0 <= i < |a| && Holds(a[i], d);
      assert a[i] in multiset(b);
      var j :| 0 <= j < |b| && b[j] == a[i];
      assert Holds(b[j], d);
    }
  }

  lemma {:induction false} CoveredSnoc(ranges: seq<Range>, r: Range, d: int)
    ensures Covered(ranges + [r], d) <==> Covered(ranges, d) || Holds(r, d)
  {
    var all := ranges + [r];
    if Covered(ranges, d) {
      var i :| 0 <= i < |ranges| && Holds(ranges[i], d);
      assert Holds(all[i], d);
    }
    if Holds(r, d) { assert Holds(all[|ranges|], d); }
    if Covered(all, d) {
      var i :| 0 <= i < |all| && Holds(all[i], d);
      if i < |ranges| { assert Holds(ranges[i], d); }
    }
  }

  lemma {:induction false} WantedSnoc(spans: seq<Span>, s: Span, dayOf: int -> int, lastDay: int, d: int)
    ensures Wanted(spans + [s], dayOf, lastDay, d) <==> Wanted(spans, dayOf, lastDay, d) || Wants(s, dayOf, lastDay, d)
  {
    var all := spans + [s];
    if Wanted(spans, dayOf, lastDay, d) {
      var i :| 0 <= i < |spans| && Wants(spans[i], dayOf, lastDay, d);
      assert Wants(all[i], dayOf, lastDay, d);
    }
    if Wants(s, dayOf, lastDay, d) { assert Wants(all[|spans|], dayOf, lastDay, d); }
    if Wanted(all, dayOf, lastDay, d) {
      var i :| 0 <= i < |all| && Wants(all[i], dayOf, lastDay, d);
      if i < |spans| { assert Wants(spans[i], dayOf, lastDay, d); }
    }
  }

  /** One range per span, clipped at the last day; spans wholly after it give none. */
  method Ranges(spans: seq<Span>, dayOf: int -> int, lastDay: int) returns (ranges: seq<Range>)
    ensures forall i :: 0 <= i < |ranges| ==> ranges[i].first <= ranges[i].last
    ensures forall d :: Covered(ranges, d) <==> Wanted(spans, dayOf, lastDay, d)
  {
    ranges := [];
    for i := 0 to |spans|
      invariant forall k :: 0 <= k < |ranges| ==> ranges[k].first <= ranges[k].last
      invariant forall d :: Covered(ranges, d) <==> Wanted(spans[..i], dayOf, lastDay, d)
    {
      var s := spans[i];
      var from, to := dayOf(s.from), dayOf(s.to) + LOOKAHEAD_DAYS;
      if to > lastDay { to := lastDay; }
      assert spans[..i+1] == spans[..i] + [s];
      forall d ensures Wanted(spans[..i+1], dayOf, lastDay, d)
                       <==> Wanted(spans[..i], dayOf, lastDay, d) || Holds(Range(from, to), d)
      {
        WantedSnoc(spans[..i], s, dayOf, lastDay, d);
      }
      if from > to { continue; }
      ghost var before := ranges;
      ranges := ranges + [Range(from, to)];
      forall d ensures Covered(ranges, d) <==> Covered(before, d) || Holds(Range(from, to), d) {
        CoveredSnoc(before, Range(from, to), d);
      }
    }
    assert spans[..|spans|] == spans;
  }

  /** Joins a range to the last merged one when they touch. */
  lemma {:induction false} ExtendsLast(merged: seq<Range>, r: Range)
    requires merged != [] && Separate(merged) && r.first <= r.last
    requires merged[|merged|-1].first <= r.first <= merged[|merged|-1].last + 1
    ensures var n := |merged| - 1;
            var grown := if r.last > merged[n].last then merged[n := merged[n].(last := r.last)] else merged;
            Separate(grown) && forall d :: Covered(grown, d) <==> Covered(merged, d) || Holds(r, d)
  {
    var n := |merged| - 1;
    var grown := if r.last > merged[n].last then merged[n := merged[n].(last := r.last)] else merged;
    forall d ensures Covered(grown, d) <==> Covered(merged, d) || Holds(r, d) {
      assert merged == merged[..n] + [merged[n]] && grown == merged[..n] + [grown[n]];
      CoveredSnoc(merged[..n], merged[n], d);
      CoveredSnoc(merged[..n], grown[n], d);
    }
  }

  /** The days to recompute, as ranges that leave no wanted day out, take no other day in
      and never touch, so that no day is recomputed twice. */
  method DayRanges(spans: seq<Span>, dayOf: int -> int, lastDay: int) returns (merged: seq<Range>)
    ensures Separate(merged)
    ensures forall d :: Covered(merged, d) <==> Wanted(spans, dayOf, lastDay, d)
  {
    var unsorted := Ranges(spans, dayOf, lastDay);
    var ranges := SortByFirst(unsorted);
    forall d ensures Covered(ranges, d) <==> Covered(unsorted, d) {
      SameElementsCover(ranges, unsorted, d);
      SameElementsCover(unsorted, ranges, d);
    }
    forall i | 0 <= i < |ranges| ensures ranges[i].first <= ranges[i].last {
      assert ranges[i] in multiset(unsorted);
    }
    merged := Merge(ranges);
  }

  method Merge(ranges: seq<Range>) returns (merged: seq<Range>)
    requires forall i :: 0 <= i < |ranges| ==> ranges[i].first <= ranges[i].last
    requires forall i, j :: 0 <= i < j < |ranges| ==> ranges[i].first <= ranges[j].first
    ensures Separate(merged)
    ensures forall d :: Covered(merged, d) <==> Covered(ranges, d)
  {
    merged := [];
    for i := 0 to |ranges|
      invariant Separate(merged)
      invariant merged != [] ==> i > 0 && merged[|merged|-1].first <= ranges[i-1].first
      invariant forall d :: Covered(merged, d) <==> Covered(ranges[..i], d)
    {
      var r, n := ranges[i], |merged|;
      ghost var before := merged;
      assert ranges[..i+1] == ranges[..i] + [r];
      forall d ensures Covered(ranges[..i+1], d) <==> Covered(before, d) || Holds(r, d) {
        CoveredSnoc(ranges[..i], r, d);
      }
      if n > 0 && r.first <= merged[n-1].last + 1 {
        ExtendsLast(merged, r);
        if r.last > merged[n-1].last { merged := merged[n-1 := merged[n-1].(last := r.last)]; }
        continue;
      }
      merged := merged + [r];
      forall d ensures Covered(merged, d) <==> Covered(before, d) || Holds(r, d) {
        CoveredSnoc(before, r, d);
      }
    }
    assert ranges[..|ranges|] == ranges;
  }

  lemma {:induction false} FirstCovered(a: seq<Range>)
    requires Separate(a) && a != []
    ensures Covered(a, a[0].first) && Covered(a, a[0].last) && !Covered(a, a[0].last + 1)
    ensures forall d :: Covered(a, d) ==> a[0].first <= d
    ensures forall d :: a[0].first <= d <= a[0].last ==> Covered(a, d)
  {
    assert Holds(a[0], a[0].first) && Holds(a[0], a[0].last);
    forall d | Covered(a, d) ensures a[0].first <= d != a[0].last + 1 {
      var i :| 0 <= i < |a| && Holds(a[i], d);
      assert i > 0 ==> a[0].last + 1 < a[i].first;
    }
    forall d | a[0].first <= d <= a[0].last ensures Covered(a, d) { assert Holds(a[0], d); }
  }

  lemma {:induction false} CoveredTail(a: seq<Range>, d: int)
    requires Separate(a) && a != []
    ensures Covered(a[1..], d) <==> Covered(a, d) && d > a[0].last
  {
    if Covered(a[1..], d) {
      var i :| 0 <= i < |a[1..]| && Holds(a[1..][i], d);
      assert Holds(a[i+1], d);
    }
    if Covered(a, d) && d > a[0].last {
      var i :| 0 <= i < |a| && Holds(a[i], d);
      assert Holds(a[1..][i-1], d);
    }
  }

  lemma {:induction false} FirstRange(a: seq<Range>, b: seq<Range>)
    requires Separate(a) && Separate(b) && a != [] && b != []
    requires forall d :: Covered(a, d) <==> Covered(b, d)
    ensures a[0].first <= b[0].first && (a[0].first == b[0].first ==> a[0].last <= b[0].last)
  {
    FirstCovered(a);
    FirstCovered(b);
    assert Covered(a, b[0].first) && !Covered(a, b[0].last + 1);
  }

  ghost predicate SameDays(a: seq<Range>, b: seq<Range>) {
    forall d :: Covered(a, d) <==> Covered(b, d)
  }

  lemma {:induction false} SameHead(a: seq<Range>, b: seq<Range>)
    requires Separate(a) && Separate(b) && SameDays(a, b) && a != []
    ensures b != [] && a[0] == b[0]
  {
    FirstCovered(a);
    assert Covered(b, a[0].first);
    FirstRange(a, b);
    FirstRange(b, a);
  }

  lemma {:induction false} SameTail(a: seq<Range>, b: seq<Range>)
    requires Separate(a) && Separate(b) && SameDays(a, b) && a != [] && b != [] && a[0] == b[0]
    ensures SameDays(a[1..], b[1..])
  {
    forall d ensures Covered(a[1..], d) <==> Covered(b[1..], d) {
      CoveredTail(a, d);
      CoveredTail(b, d);
    }
  }

  /** Such ranges are determined by the days they cover, so the order in which spans
      arrive, or how they are cut up, makes no difference to what is recomputed. */
  lemma {:induction false} RangesAreCanonical(a: seq<Range>, b: seq<Range>)
    requires Separate(a) && Separate(b) && SameDays(a, b)
    ensures a == b
  {
    if a == [] {
      if b != [] { FirstCovered(b); }
    } else {
      SameHead(a, b);
      SameTail(a, b);
      RangesAreCanonical(a[1..], b[1..]);
      assert a == [a[0]] + a[1..] && b == [b[0]] + b[1..];
    }
  }
}
