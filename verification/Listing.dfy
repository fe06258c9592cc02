/** Sorted duplicate-free listings: `sorted(set(...))`, over strings and over identifiers. */
module Listing {
  import opened Sorting

  /** Code-point order of strings. */
  predicate StringLess(a: string, b: string) {
    b != "" && (a == "" || a[0] < b[0] || (a[0] == b[0] && StringLess(a[1..], b[1..])))
  }

  predicate IdLess(a: nat, b: nat) {
    a < b
  }

  lemma {:induction false} StringLessIrreflexive(a: string)
    ensures !StringLess(a, a)
  {
    if a != "" { StringLessIrreflexive(a[1..]); }
  }

  lemma {:induction false} StringLessTransitive(a: string, b: string, c: string)
    requires StringLess(a, b) && StringLess(b, c)
    ensures StringLess(a, c)
  {
    if a != "" && a[0] == b[0] && b[0] == c[0] { StringLessTransitive(a[1..], b[1..], c[1..]); }
  }

  lemma {:induction false} StringLessTotal(a: string, b: string)
    ensures a == b || StringLess(a, b) || StringLess(b, a)
  {
    if a != "" && b != "" && a[0] == b[0] {
      StringLessTotal(a[1..], b[1..]);
      assert a == [a[0]] + a[1..] && b == [b[0]] + b[1..];
    }
  }

  /** At the first position where they differ `a` has the smaller character, or ends. */
  ghost predicate DiffersAt(a: string, b: string, k: nat) {
    k <= |a| && k < |b| && a[..k] == b[..k] && (k == |a| || a[k] < b[k])
  }

  lemma {:induction false} StringLessExactly(a: string, b: string)
    ensures StringLess(a, b) <==> exists k: nat :: DiffersAt(a, b, k)
  {
    if a == "" || b == "" || a[0] != b[0] {
      if StringLess(a, b) {
        assert DiffersAt(a, b, 0);
      }
      forall k: nat | 0 < k <= |a| && k <= |b| ensures a[..k] != b[..k] {
        assert a[..k][0] == a[0] && b[..k][0] == b[0];
      }
    } else {
      StringLessExactly(a[1..], b[1..]);
      if k: nat :| DiffersAt(a[1..], b[1..], k) {
        assert a[..k + 1] == [a[0]] + a[1..][..k] && b[..k + 1] == [b[0]] + b[1..][..k];
        assert DiffersAt(a, b, k + 1);
      }
      if k: nat :| DiffersAt(a, b, k) {
        assert a[1..][..k - 1] == a[..k][1..] && b[1..][..k - 1] == b[..k][1..];
        assert DiffersAt(a[1..], b[1..], k - 1);
      }
    }
  }

  lemma StringLessOrders()
    ensures StrictWeakOrder(StringLess) && forall a, b :: a == b || StringLess(a, b) || StringLess(b, a)
  {
    forall a ensures !StringLess(a, a) { StringLessIrreflexive(a); }
    forall a, b, c | StringLess(a, b) && StringLess(b, c) ensures StringLess(a, c) { StringLessTransitive(a, b, c); }
    forall a, b ensures a == b || StringLess(a, b) || StringLess(b, a) { StringLessTotal(a, b); }
  }

  lemma IdLessOrders()
    ensures StrictWeakOrder(IdLess) && forall a, b :: a == b || IdLess(a, b) || IdLess(b, a)
  {
  }

  ghost predicate TotalOrder<T(!new)>(less: (T, T) -> bool) {
    StrictWeakOrder(less) && forall a, b :: a == b || less(a, b) || less(b, a)
  }

  function Dedup<T(==)>(s: seq<T>): seq<T> {
    if s == [] then []
    else
      var before, last := Dedup(s[..|s| - 1]), s[|s| - 1];
      if last in before then before else before + [last]
  }

  /** `sorted(set(s))`. */
  function SortedUnique<T(==)>(less: (T, T) -> bool, s: seq<T>): seq<T> {
    SortBy(less, Dedup(s))
  }

  ghost predicate StrictlySorted<T(!new)>(less: (T, T) -> bool, s: seq<T>) {
    forall i, j | 0 <= i < j < |s| :: less(s[i], s[j])
  }

  lemma {:induction false} DedupFacts<T(!new)>(s: seq<T>)
    ensures forall x :: x in Dedup(s) <==> x in s
    ensures forall i, j | 0 <= i < j < |Dedup(s)| :: Dedup(s)[i] != Dedup(s)[j]
  {
    if s != [] {
      DedupFacts(s[..|s| - 1]);
      assert s == s[..|s| - 1] + [s[|s| - 1]];
    }
  }

  /** The listing has the members of its input, each once, in strict order. */
  lemma ListingFacts<T(!new)>(less: (T, T) -> bool, s: seq<T>)
    requires TotalOrder(less)
    ensures StrictlySorted(less, SortedUnique(less, s))
    ensures forall x :: x in SortedUnique(less, s) <==> x in s
  {
    var d, r := Dedup(s), SortedUnique(less, s);
    DedupFacts(s);
    SortFacts(less, d);
    SeparatedPermutes(less, d, r);
    forall x ensures x in r <==> x in d {
      assert x in multiset(r) <==> x in multiset(d);
    }
  }

  /** A strictly sorted listing is determined by its members. */
  lemma {:induction false} StrictlySortedUnique<T(!new)>(less: (T, T) -> bool, s: seq<T>, t: seq<T>)
    requires StrictWeakOrder(less) && StrictlySorted(less, s) && StrictlySorted(less, t)
    requires forall x :: x in s <==> x in t
    ensures s == t
    decreases |s|
  {
    MemberOrEmpty(s);
    MemberOrEmpty(t);
    if s != [] && t != [] {
      SameHead(less, s, t);
      SameTail(less, s, t);
      StrictlySortedUnique(less, s[1..], t[1..]);
      assert s == [s[0]] + s[1..] && t == [t[0]] + t[1..];
    }
  }

  /** A strictly sorted listing has as many members as entries. */
  lemma {:induction false} StrictSize<T(!new)>(less: (T, T) -> bool, s: seq<T>)
    requires StrictWeakOrder(less) && StrictlySorted(less, s)
    ensures |set x | x in s| == |s|
  {
    if s != [] {
      StrictSize(less, s[1..]);
      assert (set x | x in s) == {s[0]} + set x | x in s[1..];
      assert s[0] !in s[1..];
    }
  }

  lemma MemberOrEmpty<T(!new)>(s: seq<T>)
    ensures s == [] || exists x :: x in s
  {
    assert s == [] || s[0] in s;
  }

  lemma SameHead<T(!new)>(less: (T, T) -> bool, s: seq<T>, t: seq<T>)
    requires StrictWeakOrder(less) && StrictlySorted(less, s) && StrictlySorted(less, t)
    requires s != [] && t != [] && forall x :: x in s <==> x in t
    ensures s[0] == t[0]
  {
    assert s[0] in s && t[0] in t;
    var j :| 0 <= j < |t| && t[j] == s[0];
    var i :| 0 <= i < |s| && s[i] == t[0];
  }

  lemma SameTail<T(!new)>(less: (T, T) -> bool, s: seq<T>, t: seq<T>)
    requires StrictWeakOrder(less) && StrictlySorted(less, s) && StrictlySorted(less, t)
    requires s != [] && t != [] && s[0] == t[0] && forall x :: x in s <==> x in t
    ensures forall x :: x in s[1..] <==> x in t[1..]
  {
    forall x ensures x in s[1..] <==> x in s && x != s[0] {
      assert x in s <==> x == s[0] || x in s[1..];
    }
    forall x ensures x in t[1..] <==> x in t && x != t[0] {
      assert x in t <==> x == t[0] || x in t[1..];
    }
  }
}
