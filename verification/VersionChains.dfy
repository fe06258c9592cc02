/** Append-only tables whose rows carry a per-group version and the row they supersede: source
    documents per (source, identity), risk assessments per entity. */
module VersionChains {
  import opened Wrappers

  datatype Row<G, P> = Row(id: nat, group: G, version: nat, supersedes: Option<nat>, payload: P)

  /** Rows in insertion order. */
  type Table<G, P> = seq<Row<G, P>>

  /** The row of a group with the highest version. */
  function Latest<G(==), P>(table: Table<G, P>, g: G): (r: Option<Row<G, P>>)
    ensures r.None? <==> forall i | 0 <= i < |table| :: table[i].group != g
    ensures r.Some? ==> r.value in table && r.value.group == g
    ensures r.Some? ==> forall i | 0 <= i < |table| && table[i].group == g :: table[i].version <= r.value.version
  {
    if table == [] then None
    else
      var front, last := Latest(table[..|table| - 1], g), table[|table| - 1];
      assert forall i | 0 <= i < |table| - 1 :: table[..|table| - 1][i] == table[i];
      if last.group != g || (front.Some? && front.value.version >= last.version) then front else Some(last)
  }

  predicate IdUsed<G, P>(table: Table<G, P>, id: nat) {
    exists i | 0 <= i < |table| :: table[i].id == id
  }

  /** The row the next write to a group inserts. */
  function NextRow<G(==), P>(table: Table<G, P>, id: nat, g: G, base: Option<nat>, payload: P): Row<G, P> {
    match Latest(table, g)
    case None => Row(id, g, 1, base, payload)
    case Some(latest) => Row(id, g, latest.version + 1, Some(latest.id), payload)
  }

  function InGroup<G(==), P>(table: Table<G, P>, g: G): seq<Row<G, P>> {
    if table == [] then []
    else InGroup(table[..|table| - 1], g) + if table[|table| - 1].group == g then [table[|table| - 1]] else []
  }

  /** Versions 1, 2, ..., n, each superseding the one before it. */
  ghost predicate Chain<G(!new), P(!new)>(rows: seq<Row<G, P>>) {
    forall k | 0 <= k < |rows| :: rows[k].version == k + 1 && (k > 0 ==> rows[k].supersedes == Some(rows[k - 1].id))
  }

  ghost predicate DistinctIds<G(!new), P(!new)>(table: Table<G, P>) {
    forall i, j | 0 <= i < j < |table| :: table[i].id != table[j].id
  }

  /** Every group is a chain and identifiers are unique. */
  ghost predicate Chained<G(!new), P(!new)>(table: Table<G, P>) {
    DistinctIds(table) && forall g :: Chain(InGroup(table, g))
  }

  lemma InGroupSnoc<G(!new), P(!new)>(table: Table<G, P>, r: Row<G, P>, g: G)
    ensures InGroup(table + [r], g) == if r.group == g then InGroup(table, g) + [r] else InGroup(table, g)
  {
    assert (table + [r])[..|table|] == table;
  }

  lemma {:induction false} InGroupMembers<G(!new), P(!new)>(table: Table<G, P>, g: G)
    ensures forall r :: r in InGroup(table, g) <==> r in table && r.group == g
  {
    if table != [] {
      InGroupMembers(table[..|table| - 1], g);
      assert table == table[..|table| - 1] + [table[|table| - 1]];
    }
  }

  /** In a chained table the latest row of a group is the last of its chain. */
  lemma LatestIsLast<G(!new), P(!new)>(table: Table<G, P>, g: G)
    requires Chained(table)
    ensures Latest(table, g)
         == if InGroup(table, g) == [] then None else Some(InGroup(table, g)[|InGroup(table, g)| - 1])
  {
    var rows := InGroup(table, g);
    InGroupMembers(table, g);
    if rows == [] {
      forall i | 0 <= i < |table| ensures table[i].group != g {
        assert table[i] in table;
      }
    } else {
      var last := rows[|rows| - 1];
      assert last in rows;
      var i :| 0 <= i < |table| && table[i] == last;
      var latest := Latest(table, g).value;
      assert latest in rows;
      var k :| 0 <= k < |rows| && rows[k] == latest;
      assert rows[k].version == k + 1 && last.version == |rows|;
    }
  }

  lemma ChainExtends<G(!new), P(!new)>(rows: seq<Row<G, P>>, r: Row<G, P>)
    requires Chain(rows) && r.version == |rows| + 1
    requires rows != [] ==> r.supersedes == Some(rows[|rows| - 1].id)
    ensures Chain(rows + [r])
  {
  }

  lemma NextContinues<G(!new), P(!new)>(table: Table<G, P>, id: nat, g: G, base: Option<nat>, payload: P)
    requires Chained(table)
    ensures var rows, r := InGroup(table, g), NextRow(table, id, g, base, payload);
      r.version == |rows| + 1 && (rows != [] ==> r.supersedes == Some(rows[|rows| - 1].id))
  {
    LatestIsLast(table, g);
    var rows := InGroup(table, g);
    assert Chain(rows);
    assert rows != [] ==> rows[|rows| - 1].version == |rows|;
  }

  /** Inserting the next row under an unused identifier extends one chain by one and leaves every
      other chain alone. */
  lemma AppendKeepsChains<G(!new), P(!new)>(table: Table<G, P>, id: nat, g: G, base: Option<nat>, payload: P)
    requires Chained(table) && !IdUsed(table, id)
    ensures Chained(table + [NextRow(table, id, g, base, payload)])
    ensures InGroup(table + [NextRow(table, id, g, base, payload)], g)
         == InGroup(table, g) + [NextRow(table, id, g, base, payload)]
  {
    var r := NextRow(table, id, g, base, payload);
    LatestIsLast(table, g);
    InGroupSnoc(table, r, g);
    assert DistinctIds(table + [r]);
    forall h ensures Chain(InGroup(table + [r], h)) {
      InGroupSnoc(table, r, h);
      assert Chain(InGroup(table, h));
      hide InGroup, Chain, DistinctIds;
      if h == g {
        NextContinues(table, id, g, base, payload);
        ChainExtends(InGroup(table, g), r);
      }
    }
  }

  /** Inside a group a later row supersedes its predecessor and no other row. */
  lemma SupersedesPredecessor<G(!new), P(!new)>(table: Table<G, P>, g: G, j: nat, k: nat)
    requires Chained(table) && j < |InGroup(table, g)| && 0 < k < |InGroup(table, g)|
    ensures InGroup(table, g)[k].supersedes == Some(InGroup(table, g)[j].id) <==> j == k - 1
  {
    var rows := InGroup(table, g);
    assert Chain(rows);
    if j != k - 1 {
      InGroupMembers(table, g);
      assert rows[j] in rows && rows[k - 1] in rows;
      var a :| 0 <= a < |table| && table[a] == rows[j];
      var b :| 0 <= b < |table| && table[b] == rows[k - 1];
      assert rows[j].version != rows[k - 1].version;
    }
  }

  // --- following the links ---

  function IndexOfId<G, P>(table: Table<G, P>, id: nat): (i: Option<nat>)
    ensures i.Some? ==> i.value < |table| && table[i.value].id == id
    ensures i.None? ==> !IdUsed(table, id)
  {
    if table == [] then None
    else if table[|table| - 1].id == id then Some(|table| - 1)
    else IndexOfId(table[..|table| - 1], id)
  }

  /** The row that row `i` supersedes. */
  function Next<G, P>(table: Table<G, P>, i: nat): (j: Option<nat>)
    requires i < |table|
    ensures j.Some? ==> j.value < |table|
  {
    match table[i].supersedes case None => None case Some(id) => IndexOfId(table, id)
  }

  /** The row reached from row `i` over `n` links. */
  function Followed<G, P>(table: Table<G, P>, i: nat, n: nat): Option<nat>
    requires i < |table|
    decreases n
  {
    if n == 0 then Some(i)
    else match Next(table, i) case None => None case Some(j) => Followed(table, j, n - 1)
  }

  ghost predicate Ends<G(!new), P(!new)>(table: Table<G, P>, i: nat)
    requires i < |table|
  {
    exists n :: Followed(table, i, n).None?
  }

  /** The foreign key as it is checked on insertion: a link names an earlier row or its own. */
  predicate LinkResolves<G, P>(table: Table<G, P>, row: Row<G, P>) {
    row.supersedes.Some? ==> IdUsed(table, row.supersedes.value) || row.supersedes.value == row.id
  }

  predicate NamesItself<G, P>(row: Row<G, P>) {
    row.supersedes == Some(row.id)
  }

  ghost predicate LinksBack<G(!new), P(!new)>(table: Table<G, P>) {
    forall i | 0 <= i < |table| :: LinkResolves(table[..i], table[i])
  }

  lemma AppendLinksBack<G(!new), P(!new)>(table: Table<G, P>, row: Row<G, P>)
    requires LinksBack(table) && LinkResolves(table, row)
    ensures LinksBack(table + [row])
  {
    var all := table + [row];
    forall i | 0 <= i < |all| ensures LinkResolves(all[..i], all[i]) {
      assert all[..i] == table[..i];
      assert i < |table| ==> LinkResolves(table[..i], table[i]);
    }
  }

  lemma NextIsEarlier<G(!new), P(!new)>(table: Table<G, P>, i: nat)
    requires DistinctIds(table) && LinksBack(table) && i < |table| && table[i].supersedes.Some?
    ensures Next(table, i).Some?
    ensures NamesItself(table[i]) <==> Next(table, i) == Some(i)
    ensures !NamesItself(table[i]) ==> Next(table, i).value < i
  {
    var id := table[i].supersedes.value;
    assert LinkResolves(table[..i], table[i]);
    if !NamesItself(table[i]) {
      var j :| 0 <= j < |table[..i]| && table[..i][j].id == id;
      assert table[j].id == id;
    } else {
      assert table[i].id == id;
    }
  }

  lemma {:induction false} EndsWithoutLoop<G(!new), P(!new)>(table: Table<G, P>, i: nat) returns (n: nat)
    requires DistinctIds(table) && LinksBack(table) && i < |table|
    requires forall k | 0 <= k <= i :: !NamesItself(table[k])
    ensures n <= i + 1 && Followed(table, i, n).None?
    decreases i
  {
    if table[i].supersedes.None? {
      n := 1;
    } else {
      NextIsEarlier(table, i);
      n := EndsWithoutLoop(table, Next(table, i).value);
      n := n + 1;
    }
  }

  lemma {:induction false} LoopNeverEnds<G(!new), P(!new)>(table: Table<G, P>, i: nat, n: nat)
    requires DistinctIds(table) && LinksBack(table) && i < |table| && NamesItself(table[i])
    ensures Followed(table, i, n) == Some(i)
    decreases n
  {
    if n > 0 {
      NextIsEarlier(table, i);
      LoopNeverEnds(table, i, n - 1);
    }
  }

  /** Where links resolve on insertion, following them from any row comes to an end exactly when no
      row names itself; there are no longer cycles. */
  lemma LinksEndExactly<G(!new), P(!new)>(table: Table<G, P>)
    requires DistinctIds(table) && LinksBack(table)
    ensures (forall i: nat | i < |table| :: Ends(table, i)) <==> (forall i | 0 <= i < |table| :: !NamesItself(table[i]))
  {
    if forall i | 0 <= i < |table| :: !NamesItself(table[i]) {
      forall i: nat | i < |table| ensures Ends(table, i) {
        var n := EndsWithoutLoop(table, i);
      }
    } else {
      var i: nat :| i < |table| && NamesItself(table[i]);
      forall n ensures Followed(table, i, n).Some? {
        LoopNeverEnds(table, i, n);
      }
      assert !Ends(table, i);
    }
  }
}
