/** Greedy choice over positions 0..n: keep a position unless it is barred outright or an
    already kept position clashes with it. */
module GreedyChoice {

  type Bar = nat -> bool
  type Clash = (nat, nat) -> bool

  function Picks(barred: Bar, clash: Clash, n: nat): seq<nat> {
    if n == 0 then []
    else
      var before := Picks(barred, clash, n - 1);
      if Free(barred, clash, before, n - 1) then before + [n - 1] else before
  }

  predicate Free(barred: Bar, clash: Clash, picks: seq<nat>, i: nat) {
    !barred(i) && forall p | p in picks :: p < i ==> !clash(p, i)
  }

  predicate Increasing(picks: seq<nat>) {
    forall j, k | 0 <= j < k < |picks| :: picks[j] < picks[k]
  }

  /** `picks` lists in order exactly the positions below `n` that no earlier pick clashes with
      and that are not barred: the greedy choice, as an equation it must solve. */
  ghost predicate Greedy(barred: Bar, clash: Clash, n: nat, picks: seq<nat>) {
    && Increasing(picks)
    && (forall p | p in picks :: p < n)
    && (forall i: nat | i < n :: i in picks <==> Free(barred, clash, picks, i))
  }

  lemma FreeBelow(barred: Bar, clash: Clash, picks: seq<nat>, more: seq<nat>, i: nat)
    requires forall p: nat | p < i :: p in picks <==> p in more
    ensures Free(barred, clash, picks, i) <==> Free(barred, clash, more, i)
  {
  }

  lemma {:induction false} PicksAreGreedy(barred: Bar, clash: Clash, n: nat)
    ensures Greedy(barred, clash, n, Picks(barred, clash, n))
  {
    if n > 0 {
      PicksAreGreedy(barred, clash, n - 1);
      var before, picks := Picks(barred, clash, n - 1), Picks(barred, clash, n);
      assert forall k | 0 <= k < |before| :: before[k] in before;
      forall i: nat | i < n ensures i in picks <==> Free(barred, clash, picks, i) {
        FreeBelow(barred, clash, before, picks, i);
      }
    }
  }

  lemma DropLast(barred: Bar, clash: Clash, n: nat, picks: seq<nat>) returns (before: seq<nat>)
    requires n > 0 && Greedy(barred, clash, n, picks)
    ensures Greedy(barred, clash, n - 1, before)
    ensures picks == if n - 1 in picks then before + [n - 1] else before
  {
    before := picks;
    if n - 1 in picks {
      var k :| 0 <= k < |picks| && picks[k] == n - 1;
      assert picks[|picks| - 1] in picks;
      before := picks[..k];
      assert picks == before + [n - 1];
    }
    forall i: nat | i < n - 1 ensures i in before <==> Free(barred, clash, before, i) {
      FreeBelow(barred, clash, before, picks, i);
    }
  }

  lemma NothingBelowZero(picks: seq<nat>)
    ensures picks == [] || exists p :: p in picks
  {
    assert picks == [] || picks[0] in picks;
  }

  /** The equation has one solution, the one the loop computes. */
  lemma {:induction false} GreedyIsUnique(barred: Bar, clash: Clash, n: nat, picks: seq<nat>)
    ensures Greedy(barred, clash, n, picks) <==> picks == Picks(barred, clash, n)
  {
    PicksAreGreedy(barred, clash, n);
    if Greedy(barred, clash, n, picks) {
      if n == 0 {
        NothingBelowZero(picks);
      } else {
        var before := DropLast(barred, clash, n, picks);
        GreedyIsUnique(barred, clash, n - 1, before);
        FreeBelow(barred, clash, before, picks, n - 1);
      }
    }
  }
}
