/** `_select_candidates` of extraction/pipeline.py: orders the regex candidates and keeps a
    greedy choice free of containment, duplicates and cross-type overlap. */
module Selection {
  import opened Wrappers
  import opened Sorting
  import opened GreedyChoice

  datatype IndicatorType =
    | Url | Email | RegistryPath | FilePath | Ipv6 | Ipv4 | Domain | Sha256 | Sha1 | Md5

  datatype Candidate = Candidate(
    kind: IndicatorType,
    start: nat,
    end: nat,
    value: string,
    rule: string,
    transformedStart: nat,
    transformedEnd: nat,
    suppressedReason: Option<string>)

  function Priority(kind: IndicatorType): nat {
    match kind
    case Url => 0
    case Email => 1
    case RegistryPath => 2
    case FilePath => 3
    case Ipv6 => 4
    case Ipv4 => 5
    case Domain => 6
    case Sha256 => 7
    case Sha1 => 8
    case Md5 => 9
  }

  /** The sort key (start, priority, -(end - start)), compared lexicographically. */
  predicate Before(a: Candidate, b: Candidate) {
    || a.start < b.start
    || (a.start == b.start && Priority(a.kind) < Priority(b.kind))
    || (a.start == b.start && a.kind == b.kind && a.end - a.start > b.end - b.start)
  }

  lemma BeforeOrders()
    ensures StrictWeakOrder(Before)
  {
    forall x, y, z | Before(x, y) ensures Before(x, z) || Before(z, y) {}
  }

  function Key(c: Candidate): (IndicatorType, string) {
    (c.kind, c.value)
  }

  predicate Contains(outer: Candidate, inner: Candidate) {
    outer.transformedStart <= inner.transformedStart && inner.transformedEnd <= outer.transformedEnd
  }

  predicate Overlaps(a: Candidate, b: Candidate) {
    a.transformedStart < b.transformedEnd && b.transformedStart < a.transformedEnd
  }

  /** The `i`th candidate lies inside another URL or email candidate, chosen or not.  The source
      compares object identity, so another candidate is another position. */
  predicate Contained(ordered: seq<Candidate>, i: nat)
    requires i < |ordered|
  {
    exists j | 0 <= j < |ordered| ::
      j != i && (ordered[j].kind == Url || ordered[j].kind == Email) && Contains(ordered[j], ordered[i])
  }

  /** An earlier pick excludes a candidate. */
  predicate Conflict(prior: Candidate, c: Candidate) {
    Key(prior) == Key(c) || (Overlaps(c, prior) && c.kind != prior.kind)
  }

  function BarredIn(ordered: seq<Candidate>): Bar {
    (i: nat) => i < |ordered| && Contained(ordered, i)
  }

  function ClashIn(ordered: seq<Candidate>): Clash {
    (p: nat, i: nat) => p < |ordered| && i < |ordered| && Conflict(ordered[p], ordered[i])
  }

  /** Positions kept among the first `n`. */
  function Kept(ordered: seq<Candidate>, n: nat): seq<nat> {
    Picks(BarredIn(ordered), ClashIn(ordered), n)
  }

  function Elements(ordered: seq<Candidate>, picks: seq<nat>): seq<Candidate>
    requires forall p | p in picks :: p < |ordered|
  {
    seq(|picks|, k requires 0 <= k < |picks| => assert picks[k] in picks; ordered[picks[k]])
  }

  lemma KeptBelow(ordered: seq<Candidate>, n: nat)
    ensures forall p | p in Kept(ordered, n) :: p < n
  {
    PicksAreGreedy(BarredIn(ordered), ClashIn(ordered), n);
  }

  lemma KeptNone(ordered: seq<Candidate>)
    ensures Kept(ordered, 0) == []
  {
  }

  function Selected(candidates: seq<Candidate>): seq<Candidate> {
    var ordered := SortBy(Before, candidates);
    KeptBelow(ordered, |ordered|);
    Elements(ordered, Kept(ordered, |ordered|))
  }

  lemma KeptStep(ordered: seq<Candidate>, i: nat)
    requires i < |ordered|
    ensures forall p | p in Kept(ordered, i) :: p < i
    ensures
      var dropped := Contained(ordered, i) || exists p | p in Kept(ordered, i) :: Conflict(ordered[p], ordered[i]);
            Kept(ordered, i + 1) == if dropped then Kept(ordered, i) else Kept(ordered, i) + [i]
  {
    KeptBelow(ordered, i);
    var kept := Kept(ordered, i);
    if p :| p in kept && Conflict(ordered[p], ordered[i]) {
      assert ClashIn(ordered)(p, i);
    }
  }

  lemma ElementConflicts(ordered: seq<Candidate>, kept: seq<nat>, i: nat)
    requires i < |ordered| && forall p | p in kept :: p < |ordered|
    ensures (exists p | p in kept :: Conflict(ordered[p], ordered[i]))
       <==> exists k | 0 <= k < |kept| :: Conflict(Elements(ordered, kept)[k], ordered[i])
  {
    if k :| 0 <= k < |kept| && Conflict(Elements(ordered, kept)[k], ordered[i]) {
      assert kept[k] in kept && Conflict(ordered[kept[k]], ordered[i]);
    }
    if p :| p in kept && Conflict(ordered[p], ordered[i]) {
      var k :| 0 <= k < |kept| && kept[k] == p;
      assert Conflict(Elements(ordered, kept)[k], ordered[i]);
    }
  }

  method SelectCandidates(candidates: seq<Candidate>) returns (selected: seq<Candidate>)
    ensures selected == Selected(candidates)
  {
    hide Kept, Contains, Overlaps;
    var ordered := SortBy(Before, candidates);
    var urls := PositionsOf(ordered, Url);
    var emails := PositionsOf(ordered, Email);
    selected := [];
    var seen: set<(IndicatorType, string)> := {};
    KeptNone(ordered);
    for i := 0 to |ordered|
      invariant forall p | p in Kept(ordered, i) :: p < i
      invariant selected == Elements(ordered, Kept(ordered, i))
      invariant seen == set c | c in selected :: Key(c)
    {
      KeptStep(ordered, i);
      KeptBelow(ordered, i + 1);
      ElementConflicts(ordered, Kept(ordered, i), i);
      var candidate := ordered[i];
      var containedByUrl := exists j | j in urls :: Contains(ordered[j], candidate) && j != i;
      var containedByEmail := exists j | j in emails :: Contains(ordered[j], candidate) && j != i;
      if containedByUrl || containedByEmail { continue; }
      if Key(candidate) in seen {
        var k :| 0 <= k < |selected| && Key(selected[k]) == Key(candidate);
        assert Conflict(selected[k], candidate);
        continue;
      }
      if k :| 0 <= k < |selected| && Overlaps(candidate, selected[k]) && candidate.kind != selected[k].kind {
        assert Conflict(selected[k], candidate);
        continue;
      }
      seen := seen + {Key(candidate)};
      selected := selected + [candidate];
    }
  }

  /** Positions of the candidates of one kind, in order. */
  method PositionsOf(ordered: seq<Candidate>, kind: IndicatorType) returns (positions: seq<nat>)
    ensures forall p: nat :: p in positions <==> p < |ordered| && ordered[p].kind == kind
    ensures forall p | p in positions :: p < |ordered|
  {
    positions := [];
    for i := 0 to |ordered|
      invariant forall p: nat :: p in positions <==> p < i && ordered[p].kind == kind
    {
      if ordered[i].kind == kind {
        positions := positions + [i];
      }
    }
  }

  // --- what the choice guarantees ---

  /** The types, the more telling first. */
  const PRECEDENCE: seq<IndicatorType> := [
    Url, Email, RegistryPath, FilePath, Ipv6, Ipv4, Domain, Sha256, Sha1, Md5]

  ghost predicate Precedes(a: IndicatorType, b: IndicatorType) {
    exists i, j | 0 <= i < j < |PRECEDENCE| :: PRECEDENCE[i] == a && PRECEDENCE[j] == b
  }

  /** By start, then by precedence, then the longer first. */
  ghost predicate InOrder(a: Candidate, b: Candidate) {
    && a.start <= b.start
    && (a.start == b.start ==> a.kind == b.kind || Precedes(a.kind, b.kind))
    && (a.start == b.start && a.kind == b.kind ==> a.end - a.start >= b.end - b.start)
  }

  /** The position lies within some other URL or email. */
  ghost predicate InsideLink(ordered: seq<Candidate>, i: nat)
    requires i < |ordered|
  {
    exists j: nat | j < |ordered| && j != i && (ordered[j].kind == Url || ordered[j].kind == Email) ::
      && ordered[j].transformedStart <= ordered[i].transformedStart
      && ordered[i].transformedEnd <= ordered[j].transformedEnd
  }

  /** They differ in type or value, and share no text unless they have one type. */
  ghost predicate Apart(a: Candidate, b: Candidate) {
    && (a.kind != b.kind || a.value != b.value)
    && (a.kind == b.kind || a.transformedEnd <= b.transformedStart || b.transformedEnd <= a.transformedStart)
  }

  /** An ordered subsequence with distinct (type, value) keys, no overlap between types and no
      element inside another URL or email. */
  ghost predicate Admissible(ordered: seq<Candidate>, kept: seq<nat>) {
    && Increasing(kept)
    && (forall p | p in kept :: p < |ordered| && !InsideLink(ordered, p))
    && (forall p, q | p in kept && q in kept && p < q ::
         p < |ordered| && q < |ordered| && Apart(ordered[p], ordered[q]))
  }

  /** Why position `i` was dropped. */
  ghost predicate Dropped(ordered: seq<Candidate>, kept: seq<nat>, i: nat)
    requires i < |ordered|
  {
    InsideLink(ordered, i) || exists p | p in kept :: p < i && !Apart(ordered[p], ordered[i])
  }

  lemma ClashSpelled(ordered: seq<Candidate>)
    ensures forall i: nat | i < |ordered| :: Contained(ordered, i) <==> InsideLink(ordered, i)
    ensures forall i, j | 0 <= i < |ordered| && 0 <= j < |ordered| ::
              Conflict(ordered[i], ordered[j]) <==> !Apart(ordered[i], ordered[j])
  {
    forall i: nat | i < |ordered| ensures Contained(ordered, i) <==> InsideLink(ordered, i) {
      if Contained(ordered, i) {
        var j :| 0 <= j < |ordered| && j != i && (ordered[j].kind == Url || ordered[j].kind == Email)
          && Contains(ordered[j], ordered[i]);
        var at: nat := j;
        assert ordered[at].transformedStart <= ordered[i].transformedStart;
      }
    }
  }

  lemma PriorityAt(i: nat)
    requires i < |PRECEDENCE|
    ensures |PRECEDENCE| == 10 && Priority(PRECEDENCE[i]) == i
  {
  }

  lemma PriorityTells(a: IndicatorType)
    ensures Priority(a) < |PRECEDENCE| && PRECEDENCE[Priority(a)] == a
  {
  }

  lemma PrecedenceExact(a: IndicatorType, b: IndicatorType)
    ensures Precedes(a, b) <==> Priority(a) < Priority(b)
    ensures Priority(a) == Priority(b) <==> a == b
  {
    PriorityTells(a);
    PriorityTells(b);
    hide Priority;
    if Precedes(a, b) {
      var i, j :| 0 <= i < j < |PRECEDENCE| && PRECEDENCE[i] == a && PRECEDENCE[j] == b;
      PriorityAt(i);
      PriorityAt(j);
    }
  }

  lemma OrderSpelled(a: Candidate, b: Candidate)
    ensures InOrder(a, b) <==> !Before(b, a)
  {
    PrecedenceExact(a.kind, b.kind);
    PrecedenceExact(b.kind, a.kind);
    hide Precedes, Priority;
  }

  /** The result is admissible, and every dropped candidate has one of the reasons. */
  lemma SelectionSound(candidates: seq<Candidate>) returns (ordered: seq<Candidate>, kept: seq<nat>)
    ensures ordered == SortBy(Before, candidates) && Sorted(Before, ordered)
        && multiset(ordered) == multiset(candidates)
    ensures forall i, j | 0 <= i < j < |ordered| :: InOrder(ordered[i], ordered[j])
    ensures Admissible(ordered, kept) && Selected(candidates) == Elements(ordered, kept)
    ensures forall i: nat | i < |ordered| && i !in kept :: Dropped(ordered, kept, i)
  {
    BeforeOrders();
    SortFacts(Before, candidates);
    ordered := SortBy(Before, candidates);
    kept := Kept(ordered, |ordered|);
    var barred, clash := BarredIn(ordered), ClashIn(ordered);
    PicksAreGreedy(barred, clash, |ordered|);
    ClashSpelled(ordered);
    forall i, j | 0 <= i < j < |ordered| ensures InOrder(ordered[i], ordered[j]) {
      OrderSpelled(ordered[i], ordered[j]);
    }
    hide Before, InOrder, InsideLink, Apart, Contained, Conflict, SortBy;
    forall p | p in kept ensures !InsideLink(ordered, p) {
      assert Free(barred, clash, kept, p);
    }
    forall p, q | p in kept && q in kept && p < q ensures Apart(ordered[p], ordered[q]) {
      assert Free(barred, clash, kept, q) && !clash(p, q);
    }
    forall i: nat | i < |ordered| && i !in kept ensures Dropped(ordered, kept, i) {
      assert !Free(barred, clash, kept, i);
    }
  }

  lemma SelectedApart(candidates: seq<Candidate>, i: nat, j: nat)
    requires i < j < |Selected(candidates)|
    ensures Apart(Selected(candidates)[i], Selected(candidates)[j])
  {
    var ordered, kept := SelectionSound(candidates);
    assert kept[i] in kept && kept[j] in kept && kept[i] < kept[j];
    hide Selected, Apart, InsideLink, InOrder, Before, SortBy;
    assert Elements(ordered, kept)[i] == ordered[kept[i]] && Elements(ordered, kept)[j] == ordered[kept[j]];
    assert Apart(ordered[kept[i]], ordered[kept[j]]);
  }

  lemma SelectedAreCandidates(candidates: seq<Candidate>, c: Candidate)
    requires c in Selected(candidates)
    ensures c in candidates
  {
    var ordered, kept := SelectionSound(candidates);
    var k :| 0 <= k < |kept| && Elements(ordered, kept)[k] == c;
    assert kept[k] in kept && c in multiset(ordered);
  }

  /** The choice is the only one that is admissible with every omission justified by an earlier
      pick: greedy and maximal. */
  lemma SelectionUnique(candidates: seq<Candidate>, kept: seq<nat>)
    requires Admissible(SortBy(Before, candidates), kept)
    requires forall i: nat | i < |SortBy(Before, candidates)| && i !in kept ::
        Dropped(SortBy(Before, candidates), kept, i)
    ensures Selected(candidates) == Elements(SortBy(Before, candidates), kept)
  {
    var ordered := SortBy(Before, candidates);
    var barred, clash := BarredIn(ordered), ClashIn(ordered);
    ClashSpelled(ordered);
    hide InsideLink, Apart, Contained, Conflict;
    forall i: nat | i < |ordered| ensures i in kept <==> Free(barred, clash, kept, i) {
      if i !in kept && !InsideLink(ordered, i) {
        var p :| p in kept && p < i && !Apart(ordered[p], ordered[i]);
        assert clash(p, i);
      }
    }
    GreedyIsUnique(barred, clash, |ordered|, kept);
  }

  /** The result does not depend on the order of the patterns or matches. */
  lemma SelectionPermutationInvariant(a: seq<Candidate>, b: seq<Candidate>)
    requires multiset(a) == multiset(b)
    requires forall i, j | 0 <= i < j < |a| :: (a[i].start, a[i].kind, a[i].end) != (a[j].start, a[j].kind, a[j].end)
    ensures Selected(a) == Selected(b)
  {
    BeforeOrders();
    forall i, j | 0 <= i < j < |a| ensures Before(a[i], a[j]) || Before(a[j], a[i]) {
      assert (a[i].start, a[i].kind, a[i].end) != (a[j].start, a[j].kind, a[j].end);
    }
    PermutationInvariant(Before, a, b);
  }

  /** Candidates of one type may overlap: a UNC path matched by the Windows pattern and a POSIX
      path inside it are both kept. */
  lemma SameTypeMayOverlap(windows: Candidate, posix: Candidate)
    requires windows.kind == posix.kind == FilePath && windows.value != posix.value
    requires windows.start < posix.start && Contains(windows, posix) && posix.transformedStart < posix.transformedEnd
    ensures Selected([posix, windows]) == [windows, posix] && Overlaps(windows, posix)
  {
    var ordered := [windows, posix];
    assert SortBy(Before, [posix, windows]) == ordered by {
      assert [posix, windows][1..] == [windows];
      assert SortBy(Before, [windows]) == Insert(Before, windows, []);
      assert Insert(Before, posix, [windows]) == [windows] + Insert(Before, posix, []);
    }
    assert Admissible(ordered, [0, 1]);
    SelectionUnique([posix, windows], [0, 1]);
  }
}
