/** String order and sorting: what `sort.Strings` and `sort.Slice` return. */
module Ordering {
  /** Go's `<=` on strings (byte order, which is code-point order). */
  predicate LexLe(a: string, b: string) {
    a == "" || (b != "" && (a[0] < b[0] || (a[0] == b[0] && LexLe(a[1..], b[1..]))))
  }

  ghost predicate FirstDifference(a: string, b: string, i: int) {
    0 <= i < |a| && i < |b| && a[i] < b[i] && forall j :: 0 <= j < i ==> a[j] == b[j]
  }

  /** The first place where the strings differ decides, and a beginning comes before what
      continues it. */
  ghost predicate Precedes(a: string, b: string) {
    a <= b || exists i :: FirstDifference(a, b, i)
  }

  lemma PrecedesTail(a: string, b: string)
    requires a != "" && b != "" && a[0] == b[0]
    ensures Precedes(a, b) <==> Precedes(a[1..], b[1..])
  {
    if i :| FirstDifference(a[1..], b[1..], i) {
      assert FirstDifference(a, b, i + 1);
    }
    if i :| FirstDifference(a, b, i) {
      assert FirstDifference(a[1..], b[1..], i - 1);
    }
  }

  lemma {:induction false} LexIsFirstDifference(a: string, b: string)
    ensures LexLe(a, b) <==> Precedes(a, b)
  {
    if a != "" && b != "" && a[0] == b[0] {
      LexIsFirstDifference(a[1..], b[1..]);
      PrecedesTail(a, b);
    } else if a != "" && b != "" {
      DifferAtOnce(a, b);
    }
  }

  lemma DifferAtOnce(a: string, b: string)
    requires a != "" && b != "" && a[0] != b[0]
    ensures Precedes(a, b) <==> a[0] < b[0]
  {
    if a[0] < b[0] { assert FirstDifference(a, b, 0); }
  }

  lemma {:induction false} LexTotal(a: string, b: string)
    ensures LexLe(a, b) || LexLe(b, a)
  {
    if a != "" && b != "" && a[0] == b[0] { LexTotal(a[1..], b[1..]); }
  }

  lemma {:induction false} LexAntisymmetric(a: string, b: string)
    requires LexLe(a, b) && LexLe(b, a)
    ensures a == b
  {
    if a != "" {
      LexAntisymmetric(a[1..], b[1..]);
      assert a == [a[0]] + a[1..] && b == [b[0]] + b[1..];
    }
  }

  lemma {:induction false} LexTransitive(a: string, b: string, c: string)
    requires LexLe(a, b) && LexLe(b, c)
    ensures LexLe(a, c)
  {
    if a != "" && a[0] == b[0] && b[0] == c[0] { LexTransitive(a[1..], b[1..], c[1..]); }
  }

  ghost predicate TotalOrder<T(!new)>(le: (T, T) -> bool) {
    && (forall x, y :: le(x, y) || le(y, x))
    && (forall x, y :: le(x, y) && le(y, x) ==> x == y)
    && (forall x, y, z :: le(x, y) && le(y, z) ==> le(x, z))
  }

  lemma LexIsTotalOrder()
    ensures TotalOrder(LexLe)
  {
    forall x, y ensures LexLe(x, y) || LexLe(y, x) { LexTotal(x, y); }
    forall x, y | LexLe(x, y) && LexLe(y, x) ensures x == y { LexAntisymmetric(x, y); }
    forall x, y, z | LexLe(x, y) && LexLe(y, z) ensures LexLe(x, z) { LexTransitive(x, y, z); }
  }

  ghost predicate SortedBy<T>(le: (T, T) -> bool, s: seq<T>) {
    forall i, j :: 0 <= i < j < |s| ==> le(s[i], s[j])
  }

  ghost predicate Distinct<T>(s: seq<T>) {
    forall i, j :: 0 <= i < j < |s| ==> s[i] != s[j]
  }

  function Insert<T>(le: (T, T) -> bool, x: T, s: seq<T>): seq<T> {
    if s == [] || le(x, s[0]) then [x] + s else [s[0]] + Insert(le, x, s[1..])
  }

  function Sort<T>(le: (T, T) -> bool, s: seq<T>): seq<T> {
    if s == [] then [] else Insert(le, s[0], Sort(le, s[1..]))
  }

  lemma {:induction false} InsertKeepsElements<T>(le: (T, T) -> bool, x: T, s: seq<T>)
    ensures multiset(Insert(le, x, s)) == multiset(s) + multiset{x}
  {
    if s != [] && !le(x, s[0]) {
      InsertKeepsElements(le, x, s[1..]);
      assert s == [s[0]] + s[1..];
    }
  }

  lemma {:induction false} InsertSorted<T(!new)>(le: (T, T) -> bool, x: T, s: seq<T>)
    requires TotalOrder(le) && SortedBy(le, s)
    ensures SortedBy(le, Insert(le, x, s))
  {
    if s != [] && !le(x, s[0]) {
      InsertSorted(le, x, s[1..]);
      var t := Insert(le, x, s[1..]);
      InsertKeepsElements(le, x, s[1..]);
      forall j | 0 <= j < |t| ensures le(s[0], t[j]) {
        assert t[j] in multiset(t);
        assert t[j] == x || t[j] in s[1..];
      }
    } else if s != [] {
      forall j | 0 <= j < |s| ensures le(x, s[j]) { if j > 0 { assert le(s[0], s[j]); } }
    }
  }

  /** Sorting keeps the elements with their multiplicity and orders them. */
  lemma {:induction false} SortCorrect<T(!new)>(le: (T, T) -> bool, s: seq<T>)
    requires TotalOrder(le)
    ensures multiset(Sort(le, s)) == multiset(s)
    ensures SortedBy(le, Sort(le, s))
    ensures |Sort(le, s)| == |s|
    ensures forall x :: x in Sort(le, s) <==> x in s
  {
    if s != [] {
      SortCorrect(le, s[1..]);
      InsertSorted(le, s[0], Sort(le, s[1..]));
      InsertKeepsElements(le, s[0], Sort(le, s[1..]));
      assert s == [s[0]] + s[1..];
    }
    SameElements(Sort(le, s), s);
  }

  lemma SameElements<T>(s: seq<T>, t: seq<T>)
    requires multiset(s) == multiset(t)
    ensures |s| == |t| && forall x :: x in s <==> x in t
  {
    assert |multiset(s)| == |multiset(t)|;
    forall x ensures x in s <==> x in t { assert x in multiset(s) <==> x in multiset(t); }
  }

  lemma MultisetDistinct<T>(s: seq<T>, t: seq<T>)
    requires multiset(s) == multiset(t) && Distinct(s)
    ensures Distinct(t)
  {
    forall i, j | 0 <= i < j < |t| ensures t[i] != t[j] {
      if t[i] == t[j] {
        assert t == t[..i] + [t[i]] + t[i+1..j] + [t[j]] + t[j+1..];
        assert multiset(t)[t[i]] >= 2;
        DistinctMultiplicity(s, t[i]);
      }
    }
  }

  lemma {:induction false} DistinctMultiplicity<T>(s: seq<T>, x: T)
    requires Distinct(s)
    ensures multiset(s)[x] <= 1
  {
    if s != [] {
      assert s == [s[0]] + s[1..];
      DistinctMultiplicity(s[1..], x);
      if x == s[0] { assert x !in s[1..]; }
    }
  }

  /** Two sorted lists without repeats that hold the same elements are the same list. */
  lemma {:induction false} SortedUnique<T(!new)>(le: (T, T) -> bool, s: seq<T>, t: seq<T>)
    requires TotalOrder(le) && SortedBy(le, s) && SortedBy(le, t) && Distinct(s) && Distinct(t)
    requires forall x :: x in s <==> x in t
    ensures s == t
  {
    assert t == [] || t[0] in t;
    if s != [] {
      assert s[0] in t;
      var i :| 0 <= i < |t| && t[i] == s[0];
      assert t[0] in s;
      var j :| 0 <= j < |s| && s[j] == t[0];
      assert le(t[0], s[0]) && le(s[0], t[0]);
      assert s[0] == t[0];
      forall x ensures x in s[1..] <==> x in t[1..] {
        if x in s[1..] { assert x in s && x != s[0]; }
        if x in t[1..] { assert x in t && x != t[0]; }
      }
      SortedUnique(le, s[1..], t[1..]);
      assert s == [s[0]] + s[1..] && t == [t[0]] + t[1..];
    }
  }

  /** The elements of a set in some order, as a Go map is ranged over. */
  method Enumerate<T(==)>(s: set<T>) returns (r: seq<T>)
    ensures Distinct(r) && forall x :: x in r <==> x in s
  {
    r := [];
    var rest := s;
    while rest != {}
      invariant rest <= s && Distinct(r)
      invariant forall x :: x in s <==> x in rest || x in r
      invariant forall x :: x in r ==> x !in rest
      decreases |rest|
    {
      var x :| x in rest;
      rest := rest - {x};
      r := r + [x];
    }
  }
}
