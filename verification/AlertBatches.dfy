/** One email per distinct recipient list (internal/alerts/settings.go). */
module AlertBatches {
  import opened Ordering
  import opened AlertEvaluate

  /** unicode.IsSpace. */
  predicate IsSpace(c: char) {
    || '\U{0009}' <= c <= '\U{000D}' || c == ' ' || c == '\U{0085}' || c == '\U{00A0}' || c == '\U{1680}'
    || '\U{2000}' <= c <= '\U{200A}' || c == '\U{2028}' || c == '\U{2029}' || c == '\U{202F}' || c == '\U{205F}'
    || c == '\U{3000}'
  }

  function Trim(s: string): string
    decreases |s|
  {
    if s == "" then s
    else if IsSpace(s[0]) then Trim(s[1..])
    else if IsSpace(s[|s| - 1]) then Trim(s[..|s| - 1])
    else s
  }

  /** The trimmed addresses, blanks and repeats dropped, in order of appearance. */
  function Kept(list: seq<string>): seq<string> {
    if list == [] then []
    else
      var kept, a := Kept(list[..|list| - 1]), Trim(list[|list| - 1]);
      if a == "" || a in kept then kept else kept + [a]
  }

  function Normalized(list: seq<string>): seq<string> {
    Sort(LexLe, Kept(list))
  }

  method NormalizeRecipients(list: seq<string>) returns (out: seq<string>)
    ensures out == Normalized(list)
  {
    var seen: set<string> := {};
    out := [];
    for i := 0 to |list|
      invariant out == Kept(list[..i])
      invariant forall a :: a in seen <==> a in out
    {
      assert list[..i + 1][..i] == list[..i];
      var a := Trim(list[i]);
      if a == "" || a in seen { continue; }
      seen := seen + {a};
      out := out + [a];
    }
    assert list[..|list|] == list;
    out := Sort(LexLe, out);
  }

  predicate Lists(list: seq<string>, a: string) {
    a != "" && exists i :: 0 <= i < |list| && Trim(list[i]) == a
  }

  lemma {:induction false} KeptHolds(list: seq<string>)
    ensures Distinct(Kept(list))
    ensures forall a :: a in Kept(list) <==> Lists(list, a)
  {
    if list != [] {
      var n := |list| - 1;
      KeptHolds(list[..n]);
      forall a ensures a in Kept(list) <==> Lists(list, a) {
        if Lists(list[..n], a) {
          var i :| 0 <= i < n && Trim(list[..n][i]) == a;
          assert Trim(list[i]) == a;
        }
        if a == Trim(list[n]) && a != "" { assert Lists(list, a); }
        if Lists(list, a) && a != Trim(list[n]) {
          var i :| 0 <= i < |list| && Trim(list[i]) == a;
          assert Trim(list[..n][i]) == a;
        }
      }
    }
  }

  /** Sorted, without repeats, holding exactly the listed addresses. */
  lemma NormalizedHolds(list: seq<string>)
    ensures SortedBy(LexLe, Normalized(list)) && Distinct(Normalized(list))
    ensures forall a :: a in Normalized(list) <==> Lists(list, a)
  {
    KeptHolds(list);
    LexIsTotalOrder();
    SortCorrect(LexLe, Kept(list));
    MultisetDistinct(Kept(list), Normalized(list));
  }

  ghost predicate Blank(s: string) {
    forall i :: 0 <= i < |s| ==> IsSpace(s[i])
  }

  /** `a` begins and ends with something, and only blanks are around it in `s`. */
  ghost predicate Inside(a: string, s: string) {
    && a != "" && !IsSpace(a[0]) && !IsSpace(a[|a| - 1])
    && exists pre, post :: Around(pre, a, post, s)
  }

  ghost predicate Around(pre: string, a: string, post: string, s: string) {
    Blank(pre) && Blank(post) && s == pre + a + post
  }

  /** Nothing but blanks around `t`, which is all of `s` that is left. */
  ghost predicate Left(t: string, s: string) {
    if t == "" then Blank(s) else Inside(t, s)
  }

  lemma BlankBefore(t: string, c: char, s: string)
    requires Left(t, s) && IsSpace(c)
    ensures Left(t, [c] + s)
  {
    if t != "" {
      var pre, post :| Around(pre, t, post, s);
      assert [c] + (pre + t + post) == ([c] + pre) + t + post;
      assert Around([c] + pre, t, post, [c] + s);
    }
  }

  lemma BlankAfter(t: string, c: char, s: string)
    requires Left(t, s) && IsSpace(c)
    ensures Left(t, s + [c])
  {
    if t != "" {
      var pre, post :| Around(pre, t, post, s);
      assert (pre + t + post) + [c] == pre + t + (post + [c]);
      assert Around(pre, t, post + [c], s + [c]);
    }
  }

  lemma {:induction false} TrimLeaves(s: string)
    ensures Left(Trim(s), s)
    decreases |s|
  {
    if s == "" {
    } else if IsSpace(s[0]) {
      TrimLeaves(s[1..]);
      BlankBefore(Trim(s), s[0], s[1..]);
      assert s == [s[0]] + s[1..];
    } else if IsSpace(s[|s| - 1]) {
      TrimLeaves(s[..|s| - 1]);
      BlankAfter(Trim(s), s[|s| - 1], s[..|s| - 1]);
      assert s == s[..|s| - 1] + [s[|s| - 1]];
    } else {
      assert "" + s + "" == s;
      assert Around("", s, "", s);
    }
  }

  lemma {:induction false} InsideIsTrim(a: string, pre: string, post: string)
    requires a != "" && !IsSpace(a[0]) && !IsSpace(a[|a| - 1]) && Blank(pre) && Blank(post)
    ensures Trim(pre + a + post) == a
    decreases |pre| + |post|
  {
    var s := pre + a + post;
    if pre != "" {
      assert s[0] == pre[0] && s[1..] == pre[1..] + a + post;
      InsideIsTrim(a, pre[1..], post);
    } else if post != "" {
      var n := |post| - 1;
      assert s[0] == a[0] && s[|s| - 1] == post[n] && s[..|s| - 1] == pre + a + post[..n];
      InsideIsTrim(a, pre, post[..n]);
    } else {
      assert s == a;
    }
  }

  /** The normal form of a list, without the code's own trimming: the strings that begin and
      end with something and stand between blanks in one of its lines. */
  lemma NormalizedAre(list: seq<string>, a: string)
    ensures a in Normalized(list) <==> exists i :: 0 <= i < |list| && Inside(a, list[i])
  {
    NormalizedHolds(list);
    if a in Normalized(list) {
      var i :| 0 <= i < |list| && Trim(list[i]) == a;
      TrimLeaves(list[i]);
      assert Inside(a, list[i]);
    }
    if i :| 0 <= i < |list| && Inside(a, list[i]) {
      var pre, post :| Around(pre, a, post, list[i]);
      InsideIsTrim(a, pre, post);
    }
  }

  /** Two lists of the same addresses, in whatever order, spelling of blanks or
      repetition, are one list once normalized. */
  lemma NormalizedIsCanonical(a: seq<string>, b: seq<string>)
    requires forall x :: Lists(a, x) <==> Lists(b, x)
    ensures Normalized(a) == Normalized(b)
  {
    NormalizedHolds(a);
    NormalizedHolds(b);
    LexIsTotalOrder();
    SortedUnique(LexLe, Normalized(a), Normalized(b));
  }

  // --------------------------------------------------------------------- keys

  function Join(parts: seq<string>): string {
    if parts == [] then "" else if |parts| == 1 then parts[0] else parts[0] + "," + Join(parts[1..])
  }

  predicate CommaFree(parts: seq<string>) {
    forall i :: 0 <= i < |parts| ==> ',' !in parts[i]
  }

  lemma JoinHead(a: seq<string>)
    requires a != []
    ensures |a[0]| <= |Join(a)| && Join(a)[..|a[0]|] == a[0]
    ensures |a| == 1 <==> |Join(a)| == |a[0]|
    ensures |a| > 1 ==> Join(a)[|a[0]|] == ',' && Join(a)[|a[0]| + 1..] == Join(a[1..])
  {
    if |a| > 1 { assert Join(a) == a[0] + "," + Join(a[1..]); }
  }

  lemma {:induction false} JoinInjective(a: seq<string>, b: seq<string>)
    requires a != [] && b != [] && CommaFree(a) && CommaFree(b) && Join(a) == Join(b)
    ensures a == b
  {
    JoinHead(a);
    JoinHead(b);
    assert |a[0]| == |b[0]|;
    assert a[0] == b[0];
    if |a| > 1 { JoinInjective(a[1..], b[1..]); }
    assert a == [a[0]] + a[1..] && b == [b[0]] + b[1..];
  }

  /** With a comma in an address the key is ambiguous: these two lists differ and
      would still share one email. */
  lemma CommaMergesLists()
    ensures Join(["a,b"]) == Join(["a", "b"])
  {
    assert ["a", "b"][1..] == ["b"];
    assert Join(["a", "b"]) == "a" + "," + "b";
  }

  // ------------------------------------------------------------------ batches

  datatype Batch = Batch(recipients: seq<string>, events: seq<Event>)

  function AddressOf(recipientsFor: string -> seq<string>, e: Event): seq<string> {
    Normalized(recipientsFor(e.device.org))
  }

  predicate Deliverable(recipientsFor: string -> seq<string>, e: Event) {
    AddressOf(recipientsFor, e) != []
  }

  /** The deliverable events with this key, in their order. */
  function Select(events: seq<Event>, recipientsFor: string -> seq<string>, key: string): seq<Event> {
    if events == [] then []
    else
      var rest, e := Select(events[..|events| - 1], recipientsFor, key), events[|events| - 1];
      if Deliverable(recipientsFor, e) && Join(AddressOf(recipientsFor, e)) == key then rest + [e] else rest
  }

  /** The list of the first event filed under the key, and all events filed under it. */
  predicate BatchOk(b: Batch, events: seq<Event>, recipientsFor: string -> seq<string>) {
    && b.recipients != [] && b.events == Select(events, recipientsFor, Join(b.recipients))
    && b.events != [] && b.recipients == AddressOf(recipientsFor, b.events[0])
  }

  predicate HasBatch(batches: seq<Batch>, key: string) {
    exists b :: 0 <= b < |batches| && Join(batches[b].recipients) == key
  }

  ghost predicate Grouped(batches: seq<Batch>, events: seq<Event>, recipientsFor: string -> seq<string>) {
    && (forall b :: 0 <= b < |batches| ==> BatchOk(batches[b], events, recipientsFor))
    && (forall b, c :: 0 <= b < c < |batches| ==>
          && Join(batches[b].recipients) != Join(batches[c].recipients)
          && LexLe(Join(batches[b].recipients), Join(batches[c].recipients)))
    && (forall j :: 0 <= j < |events| && Deliverable(recipientsFor, events[j]) ==>
          HasBatch(batches, Join(AddressOf(recipientsFor, events[j]))))
  }

  ghost predicate Buckets(buckets: map<string, Batch>, order: seq<string>, events: seq<Event>,
                          recipientsFor: string -> seq<string>)
  {
    && Distinct(order) && (forall k :: k in order <==> k in buckets)
    && (forall k :: k in buckets ==> Join(buckets[k].recipients) == k && BatchOk(buckets[k], events, recipientsFor))
    && (forall j :: 0 <= j < |events| && Deliverable(recipientsFor, events[j]) ==>
          Join(AddressOf(recipientsFor, events[j])) in buckets)
  }

  /** Where the loop of GroupByRecipients files one more event. */
  function Filed(buckets: map<string, Batch>, recipientsFor: string -> seq<string>, e: Event): map<string, Batch> {
    var recipients := AddressOf(recipientsFor, e);
    var key := Join(recipients);
    if recipients == [] then buckets
    else if key in buckets then buckets[key := Batch(buckets[key].recipients, buckets[key].events + [e])]
    else buckets[key := Batch(recipients, [e])]
  }

  lemma {:induction false} NothingSelected(events: seq<Event>, recipientsFor: string -> seq<string>, key: string)
    requires forall j :: 0 <= j < |events| && Deliverable(recipientsFor, events[j]) ==>
               Join(AddressOf(recipientsFor, events[j])) != key
    ensures Select(events, recipientsFor, key) == []
  {
    if events != [] { NothingSelected(events[..|events| - 1], recipientsFor, key); }
  }

  lemma {:induction false} SelectNext(events: seq<Event>, recipientsFor: string -> seq<string>, key: string, e: Event)
    ensures Select(events + [e], recipientsFor, key) ==
            if Deliverable(recipientsFor, e) && Join(AddressOf(recipientsFor, e)) == key
            then Select(events, recipientsFor, key) + [e] else Select(events, recipientsFor, key)
  {
    assert (events + [e])[..|events|] == events;
  }

  lemma {:induction false} FiledOk(
    buckets: map<string, Batch>, order: seq<string>, events: seq<Event>, recipientsFor: string -> seq<string>,
    e: Event, k: string)
    requires Buckets(buckets, order, events, recipientsFor) && k in Filed(buckets, recipientsFor, e)
    ensures var b := Filed(buckets, recipientsFor, e)[k];
            Join(b.recipients) == k && BatchOk(b, events + [e], recipientsFor)
  {
    SelectNext(events, recipientsFor, k, e);
    if k !in buckets {
      NothingSelected(events, recipientsFor, k);
      assert [] + [e] == [e];
    } else {
      assert BatchOk(buckets[k], events, recipientsFor);
    }
  }

  function Listed(buckets: map<string, Batch>, order: seq<string>, recipientsFor: string -> seq<string>,
                  e: Event): seq<string> {
    var recipients := AddressOf(recipientsFor, e);
    if recipients != [] && Join(recipients) !in buckets then order + [Join(recipients)] else order
  }

  lemma {:induction false} FiledKeys(buckets: map<string, Batch>, order: seq<string>,
                                     recipientsFor: string -> seq<string>, e: Event)
    requires Distinct(order) && forall k :: k in order <==> k in buckets
    ensures var order' := Listed(buckets, order, recipientsFor, e);
            Distinct(order') && forall k :: k in order' <==> k in Filed(buckets, recipientsFor, e)
  {
  }

  lemma {:induction false} FiledBuckets(buckets: map<string, Batch>, order: seq<string>, events: seq<Event>,
                     recipientsFor: string -> seq<string>, e: Event)
    requires Buckets(buckets, order, events, recipientsFor)
    ensures Buckets(Filed(buckets, recipientsFor, e), Listed(buckets, order, recipientsFor, e),
                    events + [e], recipientsFor)
  {
    var next := Filed(buckets, recipientsFor, e);
    FiledKeys(buckets, order, recipientsFor, e);
    forall k | k in next ensures Join(next[k].recipients) == k && BatchOk(next[k], events + [e], recipientsFor) {
      FiledOk(buckets, order, events, recipientsFor, e, k);
    }
    forall j | 0 <= j < |events + [e]| && Deliverable(recipientsFor, (events + [e])[j])
      ensures Join(AddressOf(recipientsFor, (events + [e])[j])) in next
    {
      if j < |events| { assert (events + [e])[j] == events[j]; }
    }
  }

  lemma {:induction false} BucketsGrouped(buckets: map<string, Batch>, order: seq<string>, batches: seq<Batch>,
                                          events: seq<Event>, recipientsFor: string -> seq<string>)
    requires Buckets(buckets, order, events, recipientsFor) && SortedBy(LexLe, order) && |batches| == |order|
    requires forall i :: 0 <= i < |order| ==> batches[i] == buckets[order[i]]
    ensures Grouped(batches, events, recipientsFor)
  {
    forall b | 0 <= b < |batches|
      ensures BatchOk(batches[b], events, recipientsFor) && Join(batches[b].recipients) == order[b]
    {
      assert order[b] in buckets;
    }
    forall j | 0 <= j < |events| && Deliverable(recipientsFor, events[j])
      ensures HasBatch(batches, Join(AddressOf(recipientsFor, events[j])))
    {
      var k := Join(AddressOf(recipientsFor, events[j]));
      assert k in order;
      var b :| 0 <= b < |order| && order[b] == k;
      assert Join(batches[b].recipients) == k;
    }
  }

  method FileEvent(buckets: map<string, Batch>, order: seq<string>, recipientsFor: string -> seq<string>, e: Event)
    returns (buckets': map<string, Batch>, order': seq<string>)
    ensures buckets' == Filed(buckets, recipientsFor, e) && order' == Listed(buckets, order, recipientsFor, e)
  {
    buckets', order' := buckets, order;
    var recipients := NormalizeRecipients(recipientsFor(e.device.org));
    if |recipients| == 0 { return; }
    var key := Join(recipients);
    if key !in buckets' {
      buckets' := buckets'[key := Batch(recipients, [])];
      order' := order' + [key];
    }
    assert [] + [e] == [e];
    buckets' := buckets'[key := Batch(buckets'[key].recipients, buckets'[key].events + [e])];
  }

  lemma SortedOrder(
    buckets: map<string, Batch>, order: seq<string>, events: seq<Event>, recipientsFor: string -> seq<string>)
    requires Buckets(buckets, order, events, recipientsFor)
    ensures var sorted := Sort(LexLe, order);
            SortedBy(LexLe, sorted) && Buckets(buckets, sorted, events, recipientsFor)
  {
    LexIsTotalOrder();
    SortCorrect(LexLe, order);
    MultisetDistinct(order, Sort(LexLe, order));
  }

  /** The loop over the events. */
  method FileAll(events: seq<Event>, recipientsFor: string -> seq<string>)
    returns (buckets: map<string, Batch>, order: seq<string>)
    ensures Buckets(buckets, order, events, recipientsFor)
  {
    buckets, order := map[], [];
    for i := 0 to |events|
      invariant Buckets(buckets, order, events[..i], recipientsFor)
    {
      FiledBuckets(buckets, order, events[..i], recipientsFor, events[i]);
      assert events[..i] + [events[i]] == events[..i + 1];
      buckets, order := FileEvent(buckets, order, recipientsFor, events[i]);
    }
    assert events[..|events|] == events;
  }

  /** The loop over the sorted keys. */
  method InOrder(buckets: map<string, Batch>, order: seq<string>) returns (batches: seq<Batch>)
    requires forall k :: k in order ==> k in buckets
    ensures |batches| == |order| && forall j :: 0 <= j < |order| ==> batches[j] == buckets[order[j]]
  {
    batches := [];
    for i := 0 to |order|
      invariant |batches| == i
      invariant forall j :: 0 <= j < i ==> order[j] in buckets && batches[j] == buckets[order[j]]
    {
      assert order[i] in order;
      batches := batches + [buckets[order[i]]];
    }
  }

  method GroupByRecipients(events: seq<Event>, recipientsFor: string -> seq<string>) returns (batches: seq<Batch>)
    ensures Grouped(batches, events, recipientsFor)
  {
    var buckets, order := FileAll(events, recipientsFor);
    SortedOrder(buckets, order, events, recipientsFor);
    order := Sort(LexLe, order);
    batches := InOrder(buckets, order);
    BucketsGrouped(buckets, order, batches, events, recipientsFor);
  }

  // ---------------------------------------------------------------- partition

  /** The events addressed to exactly this list, in their order. */
  function AddressedTo(events: seq<Event>, recipientsFor: string -> seq<string>, recipients: seq<string>): seq<Event> {
    if events == [] then []
    else
      var rest, e := AddressedTo(events[..|events| - 1], recipientsFor, recipients), events[|events| - 1];
      if AddressOf(recipientsFor, e) == recipients then rest + [e] else rest
  }

  ghost predicate CommaFreeFor(events: seq<Event>, recipientsFor: string -> seq<string>) {
    forall j :: 0 <= j < |events| ==> CommaFree(AddressOf(recipientsFor, events[j]))
  }

  lemma {:induction false} SelectedIsAddressed(events: seq<Event>, recipientsFor: string -> seq<string>, r: seq<string>)
    requires r != [] && CommaFree(r) && CommaFreeFor(events, recipientsFor)
    ensures Select(events, recipientsFor, Join(r)) == AddressedTo(events, recipientsFor, r)
  {
    if events != [] {
      var n := |events| - 1;
      SelectedIsAddressed(events[..n], recipientsFor, r);
      var a := AddressOf(recipientsFor, events[n]);
      if a != [] && Join(a) == Join(r) { JoinInjective(a, r); }
    }
  }

  /** With addresses that hold no comma, the batches have pairwise different
      recipient lists; every deliverable event is addressed to exactly one of
      them; and a batch carries, in order, exactly the events addressed to it. */
  lemma {:induction false} BatchesPartition(batches: seq<Batch>, events: seq<Event>,
                                            recipientsFor: string -> seq<string>)
    requires Grouped(batches, events, recipientsFor) && CommaFreeFor(events, recipientsFor)
    ensures forall b, c :: 0 <= b < c < |batches| ==> batches[b].recipients != batches[c].recipients
    ensures forall b :: 0 <= b < |batches| ==>
              batches[b].events == AddressedTo(events, recipientsFor, batches[b].recipients)
    ensures forall j :: 0 <= j < |events| && Deliverable(recipientsFor, events[j]) ==>
              exists b :: 0 <= b < |batches| && batches[b].recipients == AddressOf(recipientsFor, events[j])
  {
    forall b | 0 <= b < |batches|
      ensures batches[b].events == AddressedTo(events, recipientsFor, batches[b].recipients)
    {
      assert BatchOk(batches[b], events, recipientsFor);
      BatchListCommaFree(batches[b], events, recipientsFor);
      SelectedIsAddressed(events, recipientsFor, batches[b].recipients);
    }
    forall j | 0 <= j < |events| && Deliverable(recipientsFor, events[j])
      ensures exists b :: 0 <= b < |batches| && batches[b].recipients == AddressOf(recipientsFor, events[j])
    {
      assert HasBatch(batches, Join(AddressOf(recipientsFor, events[j])));
      var b :| 0 <= b < |batches| && Join(batches[b].recipients) == Join(AddressOf(recipientsFor, events[j]));
      assert BatchOk(batches[b], events, recipientsFor);
      OwnKeyOwnList(batches[b], events, recipientsFor, j);
    }
  }

  lemma {:induction false} OwnKeyOwnList(
    b: Batch, events: seq<Event>, recipientsFor: string -> seq<string>, j: nat)
    requires BatchOk(b, events, recipientsFor) && CommaFreeFor(events, recipientsFor)
    requires j < |events| && Deliverable(recipientsFor, events[j])
    requires Join(b.recipients) == Join(AddressOf(recipientsFor, events[j]))
    ensures b.recipients == AddressOf(recipientsFor, events[j])
  {
    BatchListCommaFree(b, events, recipientsFor);
    JoinInjective(b.recipients, AddressOf(recipientsFor, events[j]));
  }

  lemma {:induction false} BatchListCommaFree(b: Batch, events: seq<Event>, recipientsFor: string -> seq<string>)
    requires BatchOk(b, events, recipientsFor) && CommaFreeFor(events, recipientsFor)
    ensures CommaFree(b.recipients)
  {
    assert b.events[0] in Select(events, recipientsFor, Join(b.recipients));
    SelectedAreEvents(events, recipientsFor, Join(b.recipients), b.events[0]);
    var k :| 0 <= k < |events| && events[k] == b.events[0];
    assert CommaFree(AddressOf(recipientsFor, events[k]));
  }

  lemma {:induction false} SelectedAreEvents(
    events: seq<Event>, recipientsFor: string -> seq<string>, key: string, e: Event)
    requires e in Select(events, recipientsFor, key)
    ensures e in events && Deliverable(recipientsFor, e) && Join(AddressOf(recipientsFor, e)) == key
  {
    var n := |events| - 1;
    if e in Select(events[..n], recipientsFor, key) { SelectedAreEvents(events[..n], recipientsFor, key, e); }
  }

  lemma {:induction false} SelectedAll(events: seq<Event>, recipientsFor: string -> seq<string>, e: Event)
    requires e in events && Deliverable(recipientsFor, e)
    ensures e in Select(events, recipientsFor, Join(AddressOf(recipientsFor, e)))
  {
    var n := |events| - 1;
    if e != events[n] { SelectedAll(events[..n], recipientsFor, e); }
  }

  /** The batch an event travels in: everything with its key, to the list of the first. */
  function BatchOf(events: seq<Event>, recipientsFor: string -> seq<string>, e: Event): (b: Batch)
    requires e in events && Deliverable(recipientsFor, e)
    ensures b.events != [] && e in b.events
  {
    SelectedAll(events, recipientsFor, e);
    var same := Select(events, recipientsFor, Join(AddressOf(recipientsFor, e)));
    Batch(AddressOf(recipientsFor, same[0]), same)
  }

  /** With any addresses, commas included, a batch holds an event exactly when it is the batch
      of its key. */
  lemma {:induction false} BatchHoldsExactly(
    batches: seq<Batch>, events: seq<Event>, recipientsFor: string -> seq<string>, e: Event)
    requires Grouped(batches, events, recipientsFor) && e in events && Deliverable(recipientsFor, e)
    ensures BatchOf(events, recipientsFor, e) in batches
    ensures forall b :: b in batches && e in b.events ==> b == BatchOf(events, recipientsFor, e)
  {
    var key := Join(AddressOf(recipientsFor, e));
    var j :| 0 <= j < |events| && events[j] == e;
    assert HasBatch(batches, key);
    var i :| 0 <= i < |batches| && Join(batches[i].recipients) == key;
    assert BatchOk(batches[i], events, recipientsFor);
    assert batches[i] == BatchOf(events, recipientsFor, e);
    forall b | b in batches && e in b.events ensures b == BatchOf(events, recipientsFor, e) {
      var k :| 0 <= k < |batches| && batches[k] == b;
      assert BatchOk(batches[k], events, recipientsFor);
      SelectedAreEvents(events, recipientsFor, Join(b.recipients), e);
    }
  }

  /** Exactly when a deliverable event reaches its own list, whatever the addresses hold: when the
      first event of the tick whose joined list reads the same has the same list. */
  lemma {:induction false} OwnListExactly(
    batches: seq<Batch>, events: seq<Event>, recipientsFor: string -> seq<string>, e: Event)
    requires Grouped(batches, events, recipientsFor) && e in events && Deliverable(recipientsFor, e)
    ensures (exists b :: b in batches && e in b.events && b.recipients == AddressOf(recipientsFor, e))
            <==> AddressOf(recipientsFor, BatchOf(events, recipientsFor, e).events[0]) == AddressOf(recipientsFor, e)
  {
    BatchHoldsExactly(batches, events, recipientsFor, e);
    assert BatchOf(events, recipientsFor, e) in batches;
  }

  /** Nobody is left out and nobody is written to for nothing: an event is mailed exactly when
      its organization's list has a line that is not blank, and no batch goes to nobody. */
  lemma {:induction false} MailedExactlyWhenAddressed(
    batches: seq<Batch>, events: seq<Event>, recipientsFor: string -> seq<string>, e: Event)
    requires Grouped(batches, events, recipientsFor) && e in events
    ensures (exists b :: b in batches && e in b.events) <==>
            exists i :: 0 <= i < |recipientsFor(e.device.org)| && !Blank(recipientsFor(e.device.org)[i])
    ensures forall b :: b in batches ==> b.recipients != [] && b.events != []
  {
    var list := recipientsFor(e.device.org);
    AddressedExactly(list);
    if Deliverable(recipientsFor, e) {
      BatchHoldsExactly(batches, events, recipientsFor, e);
      SelectedAll(events, recipientsFor, e);
      assert e in BatchOf(events, recipientsFor, e).events;
    } else if b :| b in batches && e in b.events {
      var k :| 0 <= k < |batches| && batches[k] == b;
      assert BatchOk(batches[k], events, recipientsFor);
      SelectedAreEvents(events, recipientsFor, Join(b.recipients), e);
    }
    forall b | b in batches ensures b.recipients != [] && b.events != [] {
      var k :| 0 <= k < |batches| && batches[k] == b;
      assert BatchOk(batches[k], events, recipientsFor);
    }
  }

  lemma AddressedExactly(list: seq<string>)
    ensures Normalized(list) != [] <==> exists i :: 0 <= i < |list| && !Blank(list[i])
  {
    NormalizedHolds(list);
    if Normalized(list) != [] {
      var a := Normalized(list)[0];
      assert a in Normalized(list);
      NormalizedAre(list, a);
      var i :| 0 <= i < |list| && Inside(a, list[i]);
      var pre, post :| Around(pre, a, post, list[i]);
      assert list[i][|pre|] == a[0];
    }
    if i :| 0 <= i < |list| && !Blank(list[i]) {
      TrimLeaves(list[i]);
      assert Lists(list, Trim(list[i]));
    }
  }
}
