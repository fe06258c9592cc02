/** Python's `sorted` under a strict weak order, as an insertion sort.  Every ordering used by the
    model goes through `SortBy`, and every order-independence result goes through
    `PermutationInvariant`. */
module Sorting {

  ghost predicate StrictWeakOrder<T(!new)>(less: (T, T) -> bool) {
    && (forall x :: !less(x, x))
    && (forall x, y, z :: less(x, y) && less(y, z) ==> less(x, z))
    && (forall x, y, z :: less(x, y) ==> less(x, z) || less(z, y))
  }

  ghost predicate Sorted<T(!new)>(less: (T, T) -> bool, s: seq<T>) {
    forall i, j | 0 <= i < j < |s| :: !less(s[j], s[i])
  }

  /** No two positions hold elements that the order cannot tell apart. */
  ghost predicate Separated<T(!new)>(less: (T, T) -> bool, s: seq<T>) {
    forall i, j | 0 <= i < j < |s| :: less(s[i], s[j]) || less(s[j], s[i])
  }

  function Filter<T>(p: T -> bool, s: seq<T>): seq<T> {
    if s == [] then [] else (if p(s[0]) then [s[0]] else []) + Filter(p, s[1..])
  }

  lemma FilterCons<T>(p: T -> bool, x: T, s: seq<T>)
    ensures Filter(p, [x] + s) == if p(x) then [x] + Filter(p, s) else Filter(p, s)
  {
    assert ([x] + s)[1..] == s;
  }

  lemma {:induction false} FilterMembers<T(!new)>(p: T -> bool, s: seq<T>)
    ensures forall x :: x in Filter(p, s) <==> x in s && p(x)
  {
    if s != [] {
      FilterMembers(p, s[1..]);
    }
  }

  lemma {:induction false} FilterKeepsAll<T>(p: T -> bool, s: seq<T>)
    ensures (forall k | 0 <= k < |s| :: p(s[k])) ==> Filter(p, s) == s
  {
    if s != [] {
      FilterKeepsAll(p, s[1..]);
    }
  }

  lemma {:induction false} FilterSnoc<T>(p: T -> bool, s: seq<T>, x: T)
    ensures Filter(p, s + [x]) == Filter(p, s) + (if p(x) then [x] else [])
  {
    if s == [] {
      FilterCons(p, x, []);
      assert s + [x] == [x] + [];
    } else {
      FilterSnoc(p, s[1..], x);
      FilterMiddle(p, s[0], s[1..], x);
      assert s == [s[0]] + s[1..];
    }
  }

  lemma FilterMiddle<T>(p: T -> bool, first: T, rest: seq<T>, x: T)
    requires Filter(p, rest + [x]) == Filter(p, rest) + (if p(x) then [x] else [])
    ensures Filter(p, [first] + rest + [x]) == Filter(p, [first] + rest) + (if p(x) then [x] else [])
  {
    FilterCons(p, first, rest);
    FilterCons(p, first, rest + [x]);
    assert [first] + rest + [x] == [first] + (rest + [x]);
    var kept, tail := Filter(p, rest), if p(x) then [x] else [];
    hide Filter;
    assert [first] + (kept + tail) == ([first] + kept) + tail;
  }

  function Insert<T>(less: (T, T) -> bool, x: T, s: seq<T>): seq<T> {
    if s == [] || !less(s[0], x) then [x] + s else [s[0]] + Insert(less, x, s[1..])
  }

  function SortBy<T>(less: (T, T) -> bool, s: seq<T>): seq<T> {
    if s == [] then [] else Insert(less, s[0], SortBy(less, s[1..]))
  }

  lemma {:induction false} InsertPermutes<T(!new)>(less: (T, T) -> bool, x: T, s: seq<T>)
    ensures multiset(Insert(less, x, s)) == multiset{x} + multiset(s)
  {
    if s == [] || !less(s[0], x) {
      assert Insert(less, x, s) == [x] + s;
    } else {
      InsertPermutes(less, x, s[1..]);
      assert s == [s[0]] + s[1..];
    }
  }

  lemma {:induction false} InsertFacts<T(!new)>(less: (T, T) -> bool, x: T, s: seq<T>)
    requires StrictWeakOrder(less) && Sorted(less, s)
    ensures Sorted(less, Insert(less, x, s))
    ensures multiset(Insert(less, x, s)) == multiset{x} + multiset(s)
  {
    InsertPermutes(less, x, s);
    if s != [] && less(s[0], x) {
      InsertFacts(less, x, s[1..]);
      var t := Insert(less, x, s[1..]);
      forall j | 0 <= j < |t| ensures !less(t[j], s[0]) {
        assert t[j] in multiset(t);
        if t[j] != x {
          var k :| 0 <= k < |s[1..]| && s[1..][k] == t[j];
          assert s[k + 1] == t[j];
        }
      }
    }
  }

  /** `SortBy` returns an ordered permutation of its input. */
  lemma {:induction false} SortFacts<T(!new)>(less: (T, T) -> bool, s: seq<T>)
    requires StrictWeakOrder(less)
    ensures Sorted(less, SortBy(less, s))
    ensures multiset(SortBy(less, s)) == multiset(s)
    ensures |SortBy(less, s)| == |s|
  {
    if s != [] {
      SortFacts(less, s[1..]);
      InsertFacts(less, s[0], SortBy(less, s[1..]));
      assert s == [s[0]] + s[1..];
    }
    assert |multiset(SortBy(less, s))| == |multiset(s)|;
  }

  lemma SortMembers<T(!new)>(less: (T, T) -> bool, s: seq<T>)
    requires StrictWeakOrder(less)
    ensures forall x :: x in SortBy(less, s) <==> x in s
  {
    SortFacts(less, s);
    forall x ensures x in SortBy(less, s) <==> x in s {
      assert x in multiset(SortBy(less, s)) <==> x in multiset(s);
    }
  }

  lemma {:induction false} InsertKeepsCount<T>(less: (T, T) -> bool, p: T -> bool, x: T, s: seq<T>)
    ensures |Filter(p, Insert(less, x, s))| == |Filter(p, s)| + if p(x) then 1 else 0
  {
    FilterCons(p, x, s);
    if s != [] && less(s[0], x) {
      InsertKeepsCount(less, p, x, s[1..]);
      FilterCons(p, s[0], Insert(less, x, s[1..]));
      FilterCons(p, s[0], s[1..]);
    }
  }

  lemma {:induction false} SortKeepsCount<T>(less: (T, T) -> bool, p: T -> bool, s: seq<T>)
    ensures |Filter(p, SortBy(less, s))| == |Filter(p, s)|
  {
    if s != [] {
      SortKeepsCount(less, p, s[1..]);
      InsertKeepsCount(less, p, s[0], SortBy(less, s[1..]));
      FilterCons(p, s[0], s[1..]);
    }
  }

  lemma HeadsAgree<T(!new)>(less: (T, T) -> bool, s: seq<T>, t: seq<T>)
    requires Sorted(less, s) && Sorted(less, t) && Separated(less, s)
    requires multiset(s) == multiset(t) && s != [] && t != []
    ensures s[0] == t[0]
  {
    assert s[0] in multiset(s) && t[0] in multiset(t);
    var j := FindIn(t, s[0]);
    var i := FindIn(s, t[0]);
  }

  lemma TailsPermute<T>(s: seq<T>, t: seq<T>)
    requires multiset(s) == multiset(t) && s != [] && t != [] && s[0] == t[0]
    ensures multiset(s[1..]) == multiset(t[1..])
  {
    assert s == [s[0]] + s[1..] && t == [t[0]] + t[1..];
    assert multiset(s[1..]) == multiset(s) - multiset{s[0]};
    assert multiset(t[1..]) == multiset(t) - multiset{t[0]};
  }

  /** An ordered arrangement of separable elements is unique. */
  lemma {:induction false} ArrangementUnique<T(!new)>(less: (T, T) -> bool, s: seq<T>, t: seq<T>)
    requires Sorted(less, s) && Sorted(less, t) && Separated(less, s)
    requires multiset(s) == multiset(t)
    ensures s == t
    decreases |s|
  {
    assert |multiset(s)| == |multiset(t)|;
    if s != [] {
      HeadsAgree(less, s, t);
      TailsPermute(s, t);
      ArrangementUnique(less, s[1..], t[1..]);
      assert s == [s[0]] + s[1..] && t == [t[0]] + t[1..];
    }
  }

  lemma FindIn<T>(s: seq<T>, x: T) returns (i: nat)
    requires x in multiset(s)
    ensures i < |s| && s[i] == x
  {
    i :| 0 <= i < |s| && s[i] == x;
  }

  /** Sorting separable elements does not depend on the order they arrive in. */
  lemma PermutationInvariant<T(!new)>(less: (T, T) -> bool, s: seq<T>, t: seq<T>)
    requires StrictWeakOrder(less) && Separated(less, s) && multiset(s) == multiset(t)
    ensures SortBy(less, s) == SortBy(less, t)
  {
    SortFacts(less, s);
    SortFacts(less, t);
    SeparatedPermutes(less, s, SortBy(less, s));
    ArrangementUnique(less, SortBy(less, s), SortBy(less, t));
  }

  lemma SeparatedPermutes<T(!new)>(less: (T, T) -> bool, s: seq<T>, t: seq<T>)
    requires forall y :: !less(y, y)
    requires Separated(less, s) && multiset(s) == multiset(t)
    ensures Separated(less, t)
  {
    forall i, j | 0 <= i < j < |t| ensures less(t[i], t[j]) || less(t[j], t[i]) {
      assert t[i] in multiset(t) && t[j] in multiset(t);
      if t[i] == t[j] {
        assert t == t[..j] + [t[j]] + t[j+1..];
        assert t[i] in t[..j];
        assert multiset(t)[t[i]] >= 2;
        SeparatedNoRepeat(less, s, t[i]);
      } else {
        var a := FindIn(s, t[i]);
        var b := FindIn(s, t[j]);
      }
    }
  }

  lemma {:induction false} SeparatedNoRepeat<T(!new)>(less: (T, T) -> bool, s: seq<T>, x: T)
    requires forall y :: !less(y, y)
    requires Separated(less, s)
    ensures multiset(s)[x] <= 1
  {
    if s != [] {
      SeparatedNoRepeat(less, s[1..], x);
      assert s == [s[0]] + s[1..];
      assert forall i | 0 < i < |s| :: s[i] != s[0];
    }
  }
}
