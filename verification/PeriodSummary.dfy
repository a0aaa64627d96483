/** Energy of a period as `end - seed` on stitched counter readings: `EnergySummary` with its
    two lookup queries (internal/api/queries.go). */
module PeriodSummary {
  import opened Wrappers
  import opened Bucketing

  /** The latest reading before `t`. */
  function LastBefore(s: seq<Reading>, t: int): Option<real> {
    if s == [] then None
    else if s[|s|-1].time < t then Some(s[|s|-1].value)
    else LastBefore(s[..|s|-1], t)
  }

  /** The earliest reading in [a, c). */
  function FirstIn(s: seq<Reading>, a: int, c: int): Option<real> {
    if s == [] then None
    else if a <= s[0].time < c then Some(s[0].value)
    else FirstIn(s[1..], a, c)
  }

  /** One row of the lookup query. */
  datatype Lookup = Lookup(end: Option<real>, before: Option<real>, first: Option<real>)

  function RawLookup(s: seq<Reading>, a: int, c: int): Lookup {
    Lookup(LastBefore(s, c), LastBefore(s, a), FirstIn(s, a, c))
  }

  /** The last reading before the period is the seed, or else the first one inside it. */
  function Seed(l: Lookup): Option<real> {
    if l.before.Some? then l.before else l.first
  }

  /** What the meter moved by, as far as the readings tell. */
  function Change(l: Lookup): real {
    if l.end.Some? && Seed(l).Some? then l.end.value - Seed(l).value else 0.0
  }

  function Total(l: Lookup): real {
    if Change(l) < 0.0 then 0.0 else Change(l)
  }

  // ---- What the lookups find ----

  ghost predicate NonDecreasing(s: seq<Reading>) {
    forall i, j :: 0 <= i <= j < |s| ==> s[i].value <= s[j].value
  }

  ghost predicate IsLastBefore(s: seq<Reading>, t: int, i: int) {
    0 <= i < |s| && s[i].time < t && forall j :: i < j < |s| ==> s[j].time >= t
  }

  ghost predicate IsFirstIn(s: seq<Reading>, a: int, c: int, i: int) {
    0 <= i < |s| && a <= s[i].time < c && forall j :: 0 <= j < i ==> s[j].time < a
  }

  lemma {:induction false} LastBeforeIs(s: seq<Reading>, t: int)
    requires Ordered(s)
    ensures LastBefore(s, t).None? ==> forall j :: 0 <= j < |s| ==> s[j].time >= t
    ensures LastBefore(s, t).Some? ==> exists i :: IsLastBefore(s, t, i) && LastBefore(s, t).value == s[i].value
  {
    if s != [] {
      var n := |s| - 1;
      if s[n].time < t {
        assert IsLastBefore(s, t, n);
      } else {
        LastBeforeIs(s[..n], t);
        if LastBefore(s[..n], t).Some? {
          var i :| IsLastBefore(s[..n], t, i) && LastBefore(s[..n], t).value == s[..n][i].value;
          assert IsLastBefore(s, t, i);
        }
      }
    }
  }

  lemma {:induction false} FirstInIs(s: seq<Reading>, a: int, c: int)
    requires Ordered(s)
    ensures FirstIn(s, a, c).None? ==> forall j :: 0 <= j < |s| ==> !(a <= s[j].time < c)
    ensures FirstIn(s, a, c).Some? ==> exists i :: IsFirstIn(s, a, c, i) && FirstIn(s, a, c).value == s[i].value
  {
    if s != [] {
      if a <= s[0].time < c {
        assert IsFirstIn(s, a, c, 0);
      } else {
        FirstInIs(s[1..], a, c);
        forall j | 0 <= j < |s| && FirstIn(s, a, c).None? ensures !(a <= s[j].time < c) {
          if j > 0 { assert s[j] == s[1..][j-1]; }
        }
        if FirstIn(s[1..], a, c).Some? {
          var i :| IsFirstIn(s[1..], a, c, i) && FirstIn(s[1..], a, c).value == s[1..][i].value;
          forall j | 0 <= j < i + 1 ensures s[j].time < a {
            if j > 0 { assert s[j] == s[1..][j-1]; } else { assert s[0].time < s[1..][i].time; }
          }
          assert IsFirstIn(s, a, c, i + 1);
        }
      }
    }
  }

  lemma {:induction false} FirstInAt(s: seq<Reading>, a: int, c: int, i: int)
    requires Ordered(s) && IsFirstIn(s, a, c, i)
    ensures FirstIn(s, a, c) == Some(s[i].value)
  {
    FirstInIs(s, a, c);
    if FirstIn(s, a, c).Some? {
      var k :| IsFirstIn(s, a, c, k) && FirstIn(s, a, c).value == s[k].value;
      assert k == i;
    }
  }

  // ---- Additivity ----

  /** Splitting a period splits its change, in every case of missing seeds and empty
      halves: the seed of the second half is the end of the first. */
  lemma {:induction false} ChangeAdds(s: seq<Reading>, a: int, b: int, c: int)
    requires Ordered(s) && a <= b <= c
    ensures Change(RawLookup(s, a, c)) == Change(RawLookup(s, a, b)) + Change(RawLookup(s, b, c))
  {
    LastBeforeIs(s, a);
    LastBeforeIs(s, b);
    LastBeforeIs(s, c);
    FirstInIs(s, a, b);
    FirstInIs(s, b, c);
    FirstInIs(s, a, c);
    if LastBefore(s, a).Some? {
      var i :| IsLastBefore(s, a, i) && LastBefore(s, a).value == s[i].value;
      assert LastBefore(s, b).Some? && LastBefore(s, c).Some?;
    } else if LastBefore(s, b).Some? {
      var i :| IsLastBefore(s, b, i) && LastBefore(s, b).value == s[i].value;
      assert a <= s[i].time < b && LastBefore(s, c).Some? && FirstIn(s, a, b).Some?;
      var k :| IsFirstIn(s, a, b, k) && FirstIn(s, a, b).value == s[k].value;
      assert IsFirstIn(s, a, c, k);
      FirstInAt(s, a, c, k);
    } else if LastBefore(s, c).Some? {
      var i :| IsLastBefore(s, c, i) && LastBefore(s, c).value == s[i].value;
      assert b <= s[i].time < c && FirstIn(s, b, c).Some? && FirstIn(s, a, b).None?;
      var k :| IsFirstIn(s, b, c, k) && FirstIn(s, b, c).value == s[k].value;
      assert IsFirstIn(s, a, c, k);
      FirstInAt(s, a, c, k);
    }
  }

  /** The clamp at zero is what can break additivity: totals add up exactly when the two
      halves do not move in opposite directions. */
  lemma {:induction false} TotalsAddExactly(s: seq<Reading>, a: int, b: int, c: int)
    requires Ordered(s) && a <= b <= c
    ensures var x, y := Change(RawLookup(s, a, b)), Change(RawLookup(s, b, c));
            (Total(RawLookup(s, a, c)) == Total(RawLookup(s, a, b)) + Total(RawLookup(s, b, c)))
            <==> (!(x < 0.0 < y) && !(y < 0.0 < x))
  {
    ChangeAdds(s, a, b, c);
  }

  lemma {:induction false} ChangeNonNegative(s: seq<Reading>, a: int, c: int)
    requires Ordered(s) && NonDecreasing(s) && a <= c
    ensures Change(RawLookup(s, a, c)) >= 0.0
  {
    LastBeforeIs(s, a);
    LastBeforeIs(s, c);
    FirstInIs(s, a, c);
    if LastBefore(s, c).Some? {
      var e :| IsLastBefore(s, c, e) && LastBefore(s, c).value == s[e].value;
      if LastBefore(s, a).Some? {
        var i :| IsLastBefore(s, a, i) && LastBefore(s, a).value == s[i].value;
        assert i <= e;
      } else if FirstIn(s, a, c).Some? {
        var i :| IsFirstIn(s, a, c, i) && FirstIn(s, a, c).value == s[i].value;
        assert i <= e;
      }
    }
  }

  /** Totals of a counter that never falls add up over any split. */
  lemma {:induction false} TotalsAdd(s: seq<Reading>, a: int, b: int, c: int)
    requires Ordered(s) && NonDecreasing(s) && a <= b <= c
    ensures Total(RawLookup(s, a, c)) == Total(RawLookup(s, a, b)) + Total(RawLookup(s, b, c))
  {
    ChangeNonNegative(s, a, b);
    ChangeNonNegative(s, b, c);
    TotalsAddExactly(s, a, b, c);
  }

  // ---- The daily form ----

  /** The closing and opening values of each day, at the day's start. */
  function Closing(days: seq<Bucket>): seq<Reading> {
    seq(|days|, i requires 0 <= i < |days| => Reading(days[i].time, days[i].last))
  }

  function Opening(days: seq<Bucket>): seq<Reading> {
    seq(|days|, i requires 0 <= i < |days| => Reading(days[i].time, days[i].first))
  }

  /** The same lookups on one row per day. */
  function DailyLookup(days: seq<Bucket>, a: int, c: int): Lookup {
    Lookup(LastBefore(Closing(days), c), LastBefore(Closing(days), a), FirstIn(Opening(days), a, c))
  }

  lemma {:induction false} LastBeforeSnoc(s: seq<Reading>, r: Reading, t: int)
    ensures LastBefore(s + [r], t) == if r.time < t then Some(r.value) else LastBefore(s, t)
  {
    assert (s + [r])[..|s|] == s;
  }

  lemma {:induction false} FirstInSnoc(s: seq<Reading>, r: Reading, a: int, c: int)
    ensures FirstIn(s + [r], a, c) == if FirstIn(s, a, c).Some? then FirstIn(s, a, c)
                                      else if a <= r.time < c then Some(r.value) else None
  {
    if s == [] {
      assert s + [r] == [r] && [r][1..] == [];
    } else {
      assert (s + [r])[1..] == s[1..] + [r];
      FirstInSnoc(s[1..], r, a, c);
    }
  }

  /** `t` starts a day. */
  ghost predicate Boundary(start: int -> int, t: int) {
    forall u :: start(u) < t <==> u < t
  }

  lemma {:induction false} StartIsBoundary(start: int -> int, t: int)
    requires BucketStarts(start) && start(t) == t
    ensures Boundary(start, t)
  {
    forall u ensures start(u) < t <==> u < t {
      if u >= t { assert start(t) <= start(u); } else { assert start(u) <= u; }
    }
  }

  lemma {:induction false} AddClosing(days: seq<Bucket>, start: int -> int, r: Reading, t: int)
    requires days != [] ==> days[|days|-1].time <= start(r.time)
    ensures LastBefore(Closing(Add(days, start, r)), t) ==
            if start(r.time) < t then Some(r.value) else LastBefore(Closing(days), t)
  {
    var after := Add(days, start, r);
    var n := |after| - 1;
    assert Closing(after) == Closing(after[..n]) + [Reading(start(r.time), r.value)];
    LastBeforeSnoc(Closing(after[..n]), Reading(start(r.time), r.value), t);
    if |after| == |days| {
      assert after[..n] == days[..n];
      assert Closing(days) == Closing(days[..n]) + [Reading(days[n].time, days[n].last)];
      LastBeforeSnoc(Closing(days[..n]), Reading(days[n].time, days[n].last), t);
    } else {
      assert after[..n] == days;
    }
  }

  lemma {:induction false} AddOpening(days: seq<Bucket>, start: int -> int, r: Reading, a: int, c: int)
    ensures FirstIn(Opening(Add(days, start, r)), a, c) ==
            if FirstIn(Opening(days), a, c).Some? then FirstIn(Opening(days), a, c)
            else if (days == [] || days[|days|-1].time != start(r.time)) && a <= start(r.time) < c then Some(r.value)
            else None
  {
    var after := Add(days, start, r);
    if |after| == |days| {
      assert Opening(after) == Opening(days);
    } else {
      assert Opening(after) == Opening(days) + [Reading(start(r.time), r.value)];
      FirstInSnoc(Opening(days), Reading(start(r.time), r.value), a, c);
    }
  }

  /** One more reading keeps the two forms in step. */
  lemma {:induction false} DailyStep(prior: seq<Reading>, days: seq<Bucket>, start: int -> int, r: Reading, a: int,
                                     c: int)
    requires Boundary(start, a) && Boundary(start, c)
    requires days != [] ==> days[|days|-1].time <= start(r.time)
    requires DailyLookup(days, a, c) == RawLookup(prior, a, c)
    requires days != [] && days[|days|-1].time == start(r.time) && a <= r.time < c ==> FirstIn(prior, a, c).Some?
    ensures DailyLookup(Add(days, start, r), a, c) == RawLookup(prior + [r], a, c)
  {
    AddClosing(days, start, r, a);
    AddClosing(days, start, r, c);
    AddOpening(days, start, r, a, c);
    LastBeforeSnoc(prior, r, a);
    LastBeforeSnoc(prior, r, c);
    FirstInSnoc(prior, r, a, c);
  }

  /** Rows of whole days find what the readings themselves would, when the period starts and
      ends at midnights. */
  lemma {:induction false} DailyFindsSame(s: seq<Reading>, start: int -> int, a: int, c: int)
    requires BucketStarts(start) && Ordered(s) && Boundary(start, a) && Boundary(start, c)
    ensures DailyLookup(Buckets(s, start), a, c) == RawLookup(s, a, c)
  {
    if s != [] {
      var n := |s| - 1;
      var prior, r := s[..n], s[n];
      DailyFindsSame(prior, start, a, c);
      BucketsShape(prior, start);
      if n > 0 {
        assert start(prior[n-1].time) <= start(r.time);
        FirstInIs(prior, a, c);
        if start(prior[n-1].time) == start(r.time) && a <= r.time < c {
          assert a <= prior[n-1].time < c;
        }
      }
      assert s == prior + [r];
      DailyStep(prior, Buckets(prior, start), start, r, a, c);
    }
  }

  /** The fast form gives the same totals for whole days. */
  lemma {:induction false} DailyTotalsAgree(s: seq<Reading>, start: int -> int, a: int, c: int)
    requires BucketStarts(start) && Ordered(s) && start(a) == a && start(c) == c
    ensures Total(DailyLookup(Buckets(s, start), a, c)) == Total(RawLookup(s, a, c))
  {
    StartIsBoundary(start, a);
    StartIsBoundary(start, c);
    DailyFindsSame(s, start, a, c);
  }

  lemma {:induction false} BucketsOf(prior: seq<Reading>, r: Reading, start: int -> int)
    ensures Buckets(prior + [r], start) == Add(Buckets(prior, start), start, r)
  {
    assert (prior + [r])[..|prior|] == prior;
  }

  /** Two readings of one day, as a row and as the lookups see them. */
  lemma {:induction false} OneDay(start: int -> int, r: Reading, q: Reading)
    requires start(q.time) == start(r.time)
    ensures var days := Buckets([r, q], start);
            && Closing(days) == [] + [Reading(start(r.time), q.value)]
            && Opening(days) == [] + [Reading(start(r.time), r.value)]
  {
    BucketsOf([], r, start);
    BucketsOf([r], q, start);
    assert [] + [r] == [r] && [r] + [q] == [r, q];
    assert Buckets([], start) == [];
    assert Buckets([r], start) == [Bucket(start(r.time), r.value, r.value)];
  }

  lemma {:induction false} OneDayLookups(start: int -> int, r: Reading, q: Reading, a: int, c: int)
    requires start(q.time) == start(r.time)
    ensures var day := start(r.time);
            DailyLookup(Buckets([r, q], start), a, c)
            == Lookup(if day < c then Some(q.value) else None, if day < a then Some(q.value) else None,
                      if a <= day < c then Some(r.value) else None)
  {
    var day := start(r.time);
    OneDay(start, r, q);
    LastBeforeSnoc([], Reading(day, q.value), c);
    LastBeforeSnoc([], Reading(day, q.value), a);
    FirstInSnoc([], Reading(day, r.value), a, c);
  }

  lemma {:induction false} TwoRawLookups(r: Reading, q: Reading, a: int, c: int)
    requires r.time < q.time
    ensures RawLookup([r, q], a, c)
            == Lookup(if q.time < c then Some(q.value) else if r.time < c then Some(r.value) else None,
                      if q.time < a then Some(q.value) else if r.time < a then Some(r.value) else None,
                      if a <= r.time < c then Some(r.value) else if a <= q.time < c then Some(q.value) else None)
  {
    assert [] + [r] == [r] && [r] + [q] == [r, q];
    LastBeforeSnoc([], r, c);
    LastBeforeSnoc([r], q, c);
    LastBeforeSnoc([], r, a);
    LastBeforeSnoc([r], q, a);
    FirstInSnoc([], r, a, c);
    FirstInSnoc([r], q, a, c);
  }

  /** A bound inside a day tells the two queries apart: two readings of that day suffice. */
  lemma {:induction false} MidDayDiffers(start: int -> int, a: int, c: int) returns (s: seq<Reading>)
    requires BucketStarts(start) && (forall t :: start(start(t)) == start(t)) && a < c
    requires start(a) != a || start(c) != c
    ensures Ordered(s) && NonDecreasing(s)
    ensures Total(DailyLookup(Buckets(s, start), a, c)) != Total(RawLookup(s, a, c))
  {
    var t := if start(a) != a then a else c;
    var r, q := Reading(start(t), 0.0), Reading(t, 1.0);
    s := [r, q];
    assert start(start(t)) == start(t) < t && start(a) <= start(c);
    OneDayLookups(start, r, q, a, c);
    TwoRawLookups(r, q, a, c);
  }

  /** The two queries give the same total on this meter. */
  ghost predicate Agree(s: seq<Reading>, start: int -> int, a: int, c: int) {
    Total(DailyLookup(Buckets(s, start), a, c)) == Total(RawLookup(s, a, c))
  }

  /** Exactly when the daily form may stand in for the raw one: on every meter the totals of a
      period agree if and only if the period starts and ends with a day. */
  lemma {:induction false} DailyTotalsAgreeExactly(start: int -> int, a: int, c: int)
    requires BucketStarts(start) && (forall t :: start(start(t)) == start(t)) && a < c
    ensures (forall s :: Ordered(s) ==> Agree(s, start, a, c)) <==> (start(a) == a && start(c) == c)
  {
    if start(a) == a && start(c) == c {
      forall s | Ordered(s) ensures Agree(s, start, a, c) { DailyTotalsAgree(s, start, a, c); }
    } else {
      var s := MidDayDiffers(start, a, c);
      assert !Agree(s, start, a, c);
    }
  }

  // ---- The request ----

  datatype Summary = BadPeriod | Totals(totals: map<string, real>)

  /** What one query row adds to the totals. */
  method ScanTotal(l: Lookup) returns (total: real)
    ensures total == Total(l)
  {
    if l.end.None? { return 0.0; }
    var seed;
    if l.before.Some? {
      seed := l.before.value;
    } else if l.first.Some? {
      seed := l.first.value;
    } else {
      return 0.0;
    }
    var delta := l.end.value - seed;
    if delta < 0.0 { delta := 0.0; }
    total := delta;
  }

  /** The query the deployment runs: on days when it keeps the daily aggregate. */
  function Find(daily: bool, s: seq<Reading>, start: int -> int, a: int, c: int): Lookup {
    if daily then DailyLookup(Buckets(s, start), a, c) else RawLookup(s, a, c)
  }

  /** The choice shows on any period that does not start and end with a day: on one rising
      meter a deployment with the daily aggregate and one without answer 0 and 1, and
      which of them answers 1 depends on where the period breaks a day. */
  lemma {:induction false} DeploymentsDiffer(start: int -> int, a: int, c: int) returns (s: seq<Reading>)
    requires BucketStarts(start) && (forall t :: start(start(t)) == start(t)) && a < c
    requires start(a) != a || start(c) != c
    ensures Ordered(s) && NonDecreasing(s)
    ensures Total(Find(true, s, start, a, c)) == (if start(a) == a then 1.0 else 0.0)
    ensures Total(Find(false, s, start, a, c)) == (if start(a) == a then 0.0 else 1.0)
  {
    var t := if start(a) != a then a else c;
    var r, q := Reading(start(t), 0.0), Reading(t, 1.0);
    s := [r, q];
    assert start(start(t)) == start(t) < t && start(a) <= start(c);
    OneDayLookups(start, r, q, a, c);
    TwoRawLookups(r, q, a, c);
  }

  const CONSUMPTION := "accumulated_power_consumption_kwh"
  const PV := "accumulated_pv_energy_yield_kwh"
  const PURCHASED := "accumulated_electricity_purchased_kwh"
  const SOLD := "accumulated_electricity_sold_kwh"
  const CHARGED := "total_energy_charged_kwh"
  const DISCHARGED := "total_energy_discharged_kwh"

  function At(totals: map<string, real>, key: string): real {
    if key in totals then totals[key] else 0.0
  }

  /** What the site must have used: what it made, bought and took from the battery, less what
      it put there and sold. */
  function Balance(totals: map<string, real>): real {
    var value := At(totals, PV) + At(totals, PURCHASED) + At(totals, DISCHARGED)
      - At(totals, CHARGED) - At(totals, SOLD);
    if value < 0.0 then 0.0 else value
  }

  /** The balance replaces the device's own consumption counter, where that is asked for. */
  method ApplyApplianceConsumptionRule(totals: map<string, real>) returns (r: map<string, real>)
    ensures r.Keys == totals.Keys
    ensures forall k :: k in totals ==> r[k] == if k == CONSUMPTION then Balance(totals) else totals[k]
  {
    if CONSUMPTION !in totals { return totals; }
    var value := At(totals, PV) + At(totals, PURCHASED) + At(totals, DISCHARGED)
      - At(totals, CHARGED) - At(totals, SOLD);
    if value < 0.0 { value := 0.0; }
    r := totals[CONSUMPTION := value];
  }

  /** The totals read for the asked metrics, the default ones when none are asked for. */
  ghost predicate TotalsRead(
    totals: map<string, real>, store: map<string, seq<Reading>>, start: int -> int, daily: bool,
    keys: seq<string>, a: int, c: int)
  {
    && (forall k :: k in totals <==> k in keys)
    && (forall k :: k in totals ==> totals[k] == if k in store then Total(Find(daily, store[k], start, a, c)) else 0.0)
  }

  method ReadTotals(store: map<string, seq<Reading>>, start: int -> int, daily: bool,
                    keys: seq<string>, a: int, c: int) returns (totals: map<string, real>)
    ensures TotalsRead(totals, store, start, daily, keys, a, c)
  {
    totals := map[];
    for i := 0 to |keys|
      invariant forall k :: k in totals <==> k in keys[..i]
      invariant forall k :: k in totals ==>
                  totals[k] == if k in store then Total(Find(daily, store[k], start, a, c)) else 0.0
    {
      var key := keys[i];
      var total := ScanTotal(Find(daily, if key in store then store[key] else [], start, a, c));
      totals := totals[key := total];
      assert keys[..i+1] == keys[..i] + [key];
    }
    assert keys[..|keys|] == keys;
  }

  /** The totals as returned: consumption by balance, the rest as read. */
  ghost predicate Returned(shown: map<string, real>, read: map<string, real>) {
    && shown.Keys == read.Keys
    && forall k :: k in read ==> shown[k] == if k == CONSUMPTION then Balance(read) else read[k]
  }

  /** The response: every asked metric over [a, c) from the query the deployment runs, with
      consumption by balance. */
  method EnergySummary(store: map<string, seq<Reading>>, start: int -> int, daily: bool,
                       defaults: seq<string>, asked: seq<string>, a: int, c: int)
    returns (r: Summary)
    ensures r.BadPeriod? <==> c <= a
    ensures c > a ==>
              var keys := if asked == [] then defaults else asked;
              exists read :: TotalsRead(read, store, start, daily, keys, a, c) && Returned(r.totals, read)
  {
    if c <= a { return BadPeriod; }
    var totals := ReadTotals(store, start, daily, if asked == [] then defaults else asked, a, c);
    var shown := ApplyApplianceConsumptionRule(totals);
    r := Totals(shown);
    assert Returned(shown, totals);
  }

  /** Over whole days what was read is the same, whichever query ran. */
  lemma {:induction false} WholeDaysReadTheSame(
    read: map<string, real>, store: map<string, seq<Reading>>, start: int -> int, daily: bool,
    keys: seq<string>, a: int, c: int)
    requires BucketStarts(start) && start(a) == a && start(c) == c && forall k :: k in store ==> Ordered(store[k])
    requires TotalsRead(read, store, start, daily, keys, a, c)
    ensures TotalsRead(read, store, start, !daily, keys, a, c)
  {
    forall k | k in read && k in store ensures read[k] == Total(Find(!daily, store[k], start, a, c)) {
      DailyTotalsAgree(store[k], start, a, c);
    }
  }

  /** The balance closes: with consumption by balance, what came in covers what went out and
      was used, exactly unless more went out than came in, when nothing was used. */
  lemma BalanceCloses(t: map<string, real>)
    ensures var came, went := At(t, PV) + At(t, PURCHASED) + At(t, DISCHARGED), At(t, CHARGED) + At(t, SOLD);
            var used := Balance(t);
            used >= 0.0 && (came >= went ==> used + went == came) && (came < went ==> used == 0.0)
  {
  }

  /** Consumption by balance adds up over a split period exactly when the two halves' balances,
      before the clamp, do not have opposite signs; the other totals adding up. */
  lemma BalanceAddsExactly(whole: map<string, real>, first: map<string, real>, second: map<string, real>)
    requires forall k :: At(whole, k) == At(first, k) + At(second, k)
    ensures var x := At(first, PV) + At(first, PURCHASED) + At(first, DISCHARGED)
                     - At(first, CHARGED) - At(first, SOLD);
            var y := At(second, PV) + At(second, PURCHASED) + At(second, DISCHARGED)
                     - At(second, CHARGED) - At(second, SOLD);
            (Balance(whole) == Balance(first) + Balance(second)) <==> (!(x < 0.0 < y) && !(y < 0.0 < x))
  {
    assert At(whole, PV) == At(first, PV) + At(second, PV);
    assert At(whole, PURCHASED) == At(first, PURCHASED) + At(second, PURCHASED);
    assert At(whole, SOLD) == At(first, SOLD) + At(second, SOLD);
    assert At(whole, CHARGED) == At(first, CHARGED) + At(second, CHARGED);
    assert At(whole, DISCHARGED) == At(first, DISCHARGED) + At(second, DISCHARGED);
  }
}
