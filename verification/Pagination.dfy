/** Keyset pagination of analyst/corpus_repository.py: `_keyset`, `_rows`, `_page`, and whole
    walks along `next_cursor` over a table that may change between pages. */
module Pagination {
  import opened Wrappers
  import opened Sorting
  import opened Cursor
  import L = Listing

  datatype Row = Row(id: nat, updatedAt: int, data: string)

  /** A table without order; `id` is its primary key. */
  type Table = seq<Row>

  type Query = Row -> bool

  function KeyOf(r: Row): Key {
    Key(r.updatedAt, r.id)
  }

  /** `ORDER BY updated_at DESC, id`. */
  predicate Before(a: Row, b: Row) {
    a.updatedAt > b.updatedAt || (a.updatedAt == b.updatedAt && a.id < b.id)
  }

  predicate AfterKey(k: Option<Key>, r: Row) {
    match k
    case None => true
    case Some(key) => r.updatedAt < key.updatedAt || (r.updatedAt == key.updatedAt && r.id > key.id)
  }

  predicate Qualifies(q: Query, k: Option<Key>, r: Row) {
    q(r) && AfterKey(k, r)
  }

  /** Every qualifying row in page order. */
  function Listing(table: Table, q: Query, k: Option<Key>): seq<Row> {
    SortBy(Before, Filter((r: Row) => Qualifies(q, k, r), table))
  }

  function Take<T>(s: seq<T>, n: nat): seq<T> {
    if |s| <= n then s else s[..n]
  }

  /** `_rows`: one row more than the page shows. */
  function Rows(table: Table, q: Query, k: Option<Key>, limit: nat): seq<Row> {
    Take(Listing(table, q, k), limit + 1)
  }

  datatype Page = Page(items: seq<Row>, hasMore: bool, next: Option<string>)

  /** `_page`. */
  function PageOf(codec: Codec, resource: string, rows: seq<Row>, limit: nat): Page
    requires limit > 0
  {
    var visible := Take(rows, limit);
    var hasMore := |rows| > limit;
    Page(visible, hasMore, if hasMore then Some(EncodeCursor(codec, resource, KeyOf(visible[|visible| - 1]))) else None)
  }

  /** What one request reads: the table, and the filter as it stands at that moment, because whether
      a row is published is read from other tables. */
  datatype Snapshot = Snapshot(table: Table, query: Query)

  /** The settings one walk keeps. */
  datatype Walker = Walker(codec: Codec, resource: string, limit: nat)

  ghost predicate Valid(w: Walker) {
    Lawful(w.codec) && w.limit > 0
  }

  /** One request. */
  function ReadPage(w: Walker, at: Snapshot, cursor: Option<string>): Result<Page, CursorError>
    requires w.limit > 0
  {
    match DecodeCursor(w.codec, cursor, w.resource)
    case Err(e) => Err(e)
    case Ok(k) => Ok(PageOf(w.codec, w.resource, Rows(at.table, at.query, k, w.limit), w.limit))
  }

  /** Follow `next_cursor`, reading `shots[i]` for the `i`th page. */
  function Walk(w: Walker, shots: seq<Snapshot>, cursor: Option<string>): seq<Page>
    requires w.limit > 0
    decreases |shots|
  {
    if shots == [] then []
    else match ReadPage(w, shots[0], cursor)
      case Err(_) => []
      case Ok(page) => [page] + if page.hasMore then Walk(w, shots[1..], page.next) else []
  }

  function Items(pages: seq<Page>): seq<Row> {
    if pages == [] then [] else pages[0].items + Items(pages[1..])
  }

  predicate Complete(pages: seq<Page>) {
    pages != [] && !pages[|pages| - 1].hasMore
  }

  // --- one page ---

  ghost predicate DistinctIds(table: Table) {
    forall i, j | 0 <= i < j < |table| :: table[i].id != table[j].id
  }

  lemma BeforeOrders()
    ensures StrictWeakOrder(Before)
  {
  }

  lemma {:induction false} FilterSeparated(p: Row -> bool, s: Table)
    requires DistinctIds(s)
    ensures Separated(Before, Filter(p, s))
  {
    if s != [] {
      FilterSeparated(p, s[1..]);
      FilterMembers(p, s[1..]);
      var rest := Filter(p, s[1..]);
      if p(s[0]) {
        forall j | 0 <= j < |rest| ensures Before(s[0], rest[j]) || Before(rest[j], s[0]) {
          assert rest[j] in rest && rest[j] in s[1..];
        }
      }
    }
  }

  /** The listing is the qualifying rows, each once, in page order. */
  lemma ListingFacts(table: Table, q: Query, k: Option<Key>)
    requires DistinctIds(table)
    ensures L.StrictlySorted(Before, Listing(table, q, k))
    ensures forall r :: r in Listing(table, q, k) <==> r in table && Qualifies(q, k, r)
  {
    var p := (r: Row) => Qualifies(q, k, r);
    var kept, listing := Filter(p, table), Listing(table, q, k);
    BeforeOrders();
    SortFacts(Before, kept);
    FilterMembers(p, table);
    FilterSeparated(p, table);
    SeparatedPermutes(Before, kept, listing);
    forall r ensures r in listing <==> r in kept {
      assert r in multiset(listing) <==> r in multiset(kept);
    }
  }

  function ListingAt(at: Snapshot, k: Option<Key>): seq<Row> {
    Listing(at.table, at.query, k)
  }

  /** A page is the head of the listing; a full listing hands on a cursor at the page's last row. */
  lemma PageFacts(w: Walker, at: Snapshot, cursor: Option<string>, k: Option<Key>) returns (page: Page)
    requires Valid(w) && DecodeCursor(w.codec, cursor, w.resource) == Ok(k)
    ensures ReadPage(w, at, cursor) == Ok(page)
    ensures var all := ListingAt(at, k);
      && page.items == Take(all, w.limit) && page.hasMore == (|all| > w.limit)
      && (page.hasMore ==> |page.items| == w.limit)
      && (page.hasMore ==> DecodeCursor(w.codec, page.next, w.resource) == Ok(Some(KeyOf(all[w.limit - 1]))))
  {
    page := ReadPage(w, at, cursor).value;
    var all := ListingAt(at, k);
    var rows := Rows(at.table, at.query, k, w.limit);
    assert Take(rows, w.limit) == Take(all, w.limit);
    if page.hasMore {
      CursorRoundTrip(w.codec, w.resource, KeyOf(all[w.limit - 1]), w.resource, KeyOf(all[w.limit - 1]));
    }
  }

  // --- a table that does not change ---

  lemma ListingContinues(table: Table, q: Query, k: Option<Key>, n: nat)
    requires DistinctIds(table) && 0 < n <= |Listing(table, q, k)|
    ensures Listing(table, q, Some(KeyOf(Listing(table, q, k)[n - 1]))) == Listing(table, q, k)[n..]
  {
    var all := Listing(table, q, k);
    var last := all[n - 1];
    var next := Some(KeyOf(last));
    ListingFacts(table, q, k);
    ListingFacts(table, q, next);
    assert last in all;
    forall r ensures r in all[n..] <==> r in Listing(table, q, next) {
      if r in all[n..] {
        var i :| 0 <= i < |all[n..]| && all[n..][i] == r;
        assert Before(all[n - 1], all[n + i]) && all[n + i] in all;
      }
    }
    BeforeOrders();
    L.StrictlySortedUnique(Before, all[n..], Listing(table, q, next));
  }

  function PagesNeeded(n: nat, limit: nat): nat
    requires limit > 0
  {
    if n <= limit then 1 else 1 + PagesNeeded(n - limit, limit)
  }

  /** `PagesNeeded` is max(1, ceil(n / limit)). */
  lemma {:induction false} PagesNeededIsCeiling(n: nat, limit: nat)
    requires limit > 0
    ensures var p := PagesNeeded(n, limit); p >= 1 && n <= p * limit && (p > 1 ==> (p - 1) * limit < n)
  {
    if n > limit {
      PagesNeededIsCeiling(n - limit, limit);
      var p := PagesNeeded(n - limit, limit);
      assert (p + 1) * limit == p * limit + limit;
      assert p > 1 ==> p * limit == (p - 1) * limit + limit;
    }
  }

  lemma WalkStep(w: Walker, shots: seq<Snapshot>, cursor: Option<string>, page: Page)
    requires w.limit > 0 && shots != [] && ReadPage(w, shots[0], cursor) == Ok(page)
    ensures Walk(w, shots, cursor) == [page] + if page.hasMore then Walk(w, shots[1..], page.next) else []
  {
  }

  lemma PagesCons(page: Page, rest: seq<Page>)
    ensures Items([page] + rest) == page.items + Items(rest)
    ensures Complete([page] + rest) <==> if rest == [] then !page.hasMore else Complete(rest)
  {
    assert ([page] + rest)[1..] == rest;
  }

  /** The pages show all of a listing, in the least number of pages. */
  ghost predicate Shows(limit: nat, pages: seq<Page>, all: seq<Row>)
    requires limit > 0
  {
    Complete(pages) && Items(pages) == all && |pages| == PagesNeeded(|all|, limit)
  }

  lemma ShowsStep(limit: nat, page: Page, rest: seq<Page>, all: seq<Row>)
    requires 0 < limit < |all| && page.items == all[..limit] && page.hasMore && Shows(limit, rest, all[limit..])
    ensures Shows(limit, [page] + rest, all)
  {
    PagesCons(page, rest);
    assert all == all[..limit] + all[limit..];
  }

  lemma {:induction false} StaticWalkFrom(
      w: Walker, at: Snapshot, shots: seq<Snapshot>, cursor: Option<string>, k: Option<Key>)
    requires Valid(w) && DistinctIds(at.table) && DecodeCursor(w.codec, cursor, w.resource) == Ok(k)
    requires forall i | 0 <= i < |shots| :: shots[i] == at
    requires |shots| >= PagesNeeded(|ListingAt(at, k)|, w.limit)
    ensures Shows(w.limit, Walk(w, shots, cursor), ListingAt(at, k))
    decreases |shots|
  {
    hide Walk, Listing, ReadPage, DecodeCursor, Lawful, DistinctIds;
    var all := ListingAt(at, k);
    var page := PageFacts(w, at, cursor, k);
    WalkStep(w, shots, cursor, page);
    if page.hasMore {
      ListingContinues(at.table, at.query, k, w.limit);
      StaticWalkFrom(w, at, shots[1..], page.next, Some(KeyOf(all[w.limit - 1])));
      ShowsStep(w.limit, page, Walk(w, shots[1..], page.next), all);
    } else {
      PagesCons(page, []);
    }
  }

  /** On a static table the pages concatenate to the sorted, filtered table. */
  lemma StaticWalk(w: Walker, at: Snapshot, shots: seq<Snapshot>)
    requires Valid(w) && DistinctIds(at.table) && forall i | 0 <= i < |shots| :: shots[i] == at
    requires |shots| >= PagesNeeded(|ListingAt(at, None)|, w.limit)
    ensures var pages := Walk(w, shots, None);
      && Complete(pages) && |pages| == PagesNeeded(|ListingAt(at, None)|, w.limit)
      && Items(pages) == ListingAt(at, None)
      && L.StrictlySorted(Before, Items(pages)) && forall r :: r in Items(pages) <==> r in at.table && at.query(r)
  {
    StaticWalkFrom(w, at, shots, None, None);
    ListingFacts(at.table, at.query, None);
  }

  // --- a table that changes between pages ---

  /** What one write transaction may leave behind: rows kept, removed, or stamped after every
      earlier stamp. */
  ghost predicate Evolves(before: Table, clock: int, after: Table) {
    forall r | r in after :: r in before || r.updatedAt > clock
  }

  /** Snapshots read by one walk; `clocks[i]` bounds every stamp given out up to snapshot `i`.  The
      filter may change at will. */
  ghost predicate History(shots: seq<Snapshot>, clocks: seq<int>) {
    && |shots| == |clocks|
    && (forall i | 0 <= i < |shots| :: StampedBy(shots[i].table, clocks[i]))
    && (forall i | 0 <= i < |shots| - 1 ::
          clocks[i] <= clocks[i + 1] && Evolves(shots[i].table, clocks[i], shots[i + 1].table))
  }

  ghost predicate StampedBy(table: Table, clock: int) {
    DistinctIds(table) && forall r | r in table :: r.updatedAt <= clock
  }

  /** The row is in every one of the first `n` snapshots, never touched, and qualifies in each. */
  ghost predicate Stays(r: Row, shots: seq<Snapshot>, n: nat)
    requires n <= |shots|
  {
    forall i | 0 <= i < n :: r in shots[i].table && shots[i].query(r)
  }

  /** Whatever qualifies in some snapshot qualifies for `ever`. */
  ghost predicate Covers(ever: Query, shots: seq<Snapshot>) {
    forall i, r | 0 <= i < |shots| && shots[i].query(r) :: ever(r)
  }

  lemma ListingSplits(table: Table, q: Query, k: Option<Key>, n: nat, r: Row)
    requires DistinctIds(table) && 0 < n <= |Listing(table, q, k)|
    requires r in table && Qualifies(q, k, r)
    ensures r in Listing(table, q, k)[..n] || AfterKey(Some(KeyOf(Listing(table, q, k)[n - 1])), r)
  {
    var all := Listing(table, q, k);
    ListingFacts(table, q, k);
    var i :| 0 <= i < |all| && all[i] == r;
    if i < n {
      assert all[..n][i] == r;
    } else {
      assert Before(all[n - 1], all[i]);
    }
  }

  /** What a walk from key `k` over changing snapshots has seen. */
  ghost predicate Seen(w: Walker, ever: Query, shots: seq<Snapshot>, k: Option<Key>, pages: seq<Page>)
    requires shots != [] && |pages| <= |shots|
  {
    && L.StrictlySorted(Before, Items(pages))
    && (forall r | r in Items(pages) :: r in shots[0].table && Qualifies(ever, k, r))
    && (Complete(pages) ==>
          forall r | Stays(r, shots, |pages|) && AfterKey(k, r) && |pages| > 0 :: r in Items(pages))
    && (!Complete(pages) ==>
          |pages| == |shots| && |Items(pages)| == w.limit * |shots| && Omits(ever, shots[0].table, k, Items(pages)))
  }

  /** Some row is still to come. */
  ghost predicate Omits(ever: Query, table: Table, k: Option<Key>, items: seq<Row>) {
    exists r | r in table :: Qualifies(ever, k, r) && r !in items
  }

  lemma {:induction false} WalkLength(w: Walker, shots: seq<Snapshot>, cursor: Option<string>)
    requires w.limit > 0
    ensures |Walk(w, shots, cursor)| <= |shots|
    decreases |shots|
  {
    if shots != [] {
      match ReadPage(w, shots[0], cursor)
      case Err(_) =>
      case Ok(page) => WalkLength(w, shots[1..], page.next);
    }
  }

  /** A page that ends the walk, or the snapshots. */
  lemma SeenLast(w: Walker, ever: Query, shots: seq<Snapshot>, k: Option<Key>, page: Page)
    requires Valid(w) && shots != [] && DistinctIds(shots[0].table) && Covers(ever, shots)
    requires var all := ListingAt(shots[0], k); page.items == Take(all, w.limit) && page.hasMore == (|all| > w.limit)
    requires page.hasMore ==> |shots| == 1
    ensures Seen(w, ever, shots, k, [page])
  {
    var all, items := ListingAt(shots[0], k), page.items;
    ListingFacts(shots[0].table, shots[0].query, k);
    PagesCons(page, []);
    assert Items([]) == [] && [page] + [] == [page] && items + [] == items;
    hide Listing, DistinctIds, Items, Complete;
    assert L.StrictlySorted(Before, items) && forall r | r in items :: r in all;
    if page.hasMore {
      assert |items| == w.limit == w.limit * |shots|;
      hide L.StrictlySorted;
      NextIsOmitted(all, w.limit);
      var r := all[w.limit];
      assert r in all && Qualifies(ever, k, r) && r !in items;
      assert Omits(ever, shots[0].table, k, items);
      hide Covers, Omits;
    }
  }

  lemma NextIsOmitted(all: seq<Row>, n: nat)
    requires L.StrictlySorted(Before, all) && n < |all|
    ensures all[n] !in all[..n]
  {
    forall i | 0 <= i < n ensures all[i] != all[n] {
      assert Before(all[i], all[n]);
    }
  }

  /** A full page before a walk that starts at its last row. */
  ghost predicate Precedes(
      w: Walker, ever: Query, shots: seq<Snapshot>, k: Option<Key>, page: Page, rest: seq<Page>)
  {
    && Valid(w) && |shots| > 1 && |rest| < |shots|
    && var all := ListingAt(shots[0], k);
    && |all| > w.limit && page.hasMore && page.items == all[..w.limit]
    && Seen(w, ever, shots[1..], Some(KeyOf(all[w.limit - 1])), rest)
  }

  lemma LastQualifies(w: Walker, shots: seq<Snapshot>, clocks: seq<int>, k: Option<Key>)
    requires Valid(w) && shots != [] && History(shots, clocks) && |ListingAt(shots[0], k)| > w.limit
    ensures DistinctIds(shots[0].table) && L.StrictlySorted(Before, ListingAt(shots[0], k))
    ensures forall r | r in ListingAt(shots[0], k) :: r in shots[0].table && Qualifies(shots[0].query, k, r)
    ensures var last := ListingAt(shots[0], k)[w.limit - 1]; last in shots[0].table && AfterKey(k, last)
  {
    assert StampedBy(shots[0].table, clocks[0]);
    ListingFacts(shots[0].table, shots[0].query, k);
    assert ListingAt(shots[0], k)[w.limit - 1] in ListingAt(shots[0], k);
    hide Listing, DistinctIds, L.StrictlySorted;
  }

  lemma StepShowsOld(
      w: Walker, ever: Query, shots: seq<Snapshot>, clocks: seq<int>, k: Option<Key>, page: Page, rest: seq<Page>)
    requires Precedes(w, ever, shots, k, page, rest) && History(shots, clocks) && Covers(ever, shots)
    ensures L.StrictlySorted(Before, page.items + Items(rest))
    ensures forall r | r in page.items + Items(rest) :: r in shots[0].table && Qualifies(ever, k, r)
  {
    LastQualifies(w, shots, clocks, k);
    var all := ListingAt(shots[0], k);
    LaterItemsAreOld(w, ever, shots, clocks, k, all[w.limit - 1], rest);
    hide Listing, DistinctIds, Items, Complete, History, Stays, Omits;
    SeenOrder(all, w.limit, Items(rest));
    assert forall r | r in page.items :: r in all;
  }

  lemma SeenStep(
      w: Walker, ever: Query, shots: seq<Snapshot>, clocks: seq<int>, k: Option<Key>, page: Page, rest: seq<Page>)
    requires Precedes(w, ever, shots, k, page, rest) && History(shots, clocks) && Covers(ever, shots)
    ensures Seen(w, ever, shots, k, [page] + rest)
  {
    LastQualifies(w, shots, clocks, k);
    StepShowsOld(w, ever, shots, clocks, k, page, rest);
    SeenEverything(w, ever, shots, k, page, rest);
    PagesCons(page, rest);
    hide Listing, DistinctIds, Items, Complete, History, Stays, Omits, L.StrictlySorted, Qualifies, Covers;
    if !Complete(rest) {
      LaterOmission(w, ever, shots, clocks, k, ListingAt(shots[0], k), Items(rest));
    }
  }

  lemma {:induction false} WalkSees(
      w: Walker, ever: Query, shots: seq<Snapshot>, clocks: seq<int>, cursor: Option<string>, k: Option<Key>)
    requires Valid(w) && shots != [] && History(shots, clocks) && Covers(ever, shots)
    requires DecodeCursor(w.codec, cursor, w.resource) == Ok(k)
    ensures |Walk(w, shots, cursor)| <= |shots|
    ensures Seen(w, ever, shots, k, Walk(w, shots, cursor))
    decreases |shots|
  {
    WalkLength(w, shots, cursor);
    assert StampedBy(shots[0].table, clocks[0]);
    var page := PageFacts(w, shots[0], cursor, k);
    WalkStep(w, shots, cursor, page);
    hide Walk, ReadPage, DecodeCursor, Listing, DistinctIds, Seen;
    if page.hasMore && |shots| > 1 {
      var last := ListingAt(shots[0], k)[w.limit - 1];
      HistoryTail(shots, clocks, ever);
      WalkSees(w, ever, shots[1..], clocks[1..], page.next, Some(KeyOf(last)));
      SeenStep(w, ever, shots, clocks, k, page, Walk(w, shots[1..], page.next));
    } else {
      assert Walk(w, shots, cursor) == [page];
      SeenLast(w, ever, shots, k, page);
    }
  }

  lemma HistoryTail(shots: seq<Snapshot>, clocks: seq<int>, ever: Query)
    requires |shots| > 1 && History(shots, clocks) && Covers(ever, shots)
    ensures History(shots[1..], clocks[1..]) && Covers(ever, shots[1..])
  {
    hide StampedBy, Evolves;
  }

  /** A row after the cursor was already in the first snapshot: a new stamp never comes after it. */
  lemma LaterRowIsOld(ever: Query, shots: seq<Snapshot>, clocks: seq<int>, k: Option<Key>, last: Row, r: Row)
    requires |shots| > 1 && History(shots, clocks) && last in shots[0].table && AfterKey(k, last)
    requires r in shots[1].table && Qualifies(ever, Some(KeyOf(last)), r)
    ensures r in shots[0].table && Qualifies(ever, k, r) && Before(last, r)
  {
    assert StampedBy(shots[0].table, clocks[0]);
    assert r.updatedAt <= last.updatedAt <= clocks[0];
    assert Evolves(shots[0].table, clocks[0], shots[1].table);
  }

  lemma LaterItemsAreOld(
      w: Walker, ever: Query, shots: seq<Snapshot>, clocks: seq<int>, k: Option<Key>, last: Row, rest: seq<Page>)
    requires |shots| > 1 && History(shots, clocks) && last in shots[0].table && AfterKey(k, last)
    requires |rest| < |shots| && Seen(w, ever, shots[1..], Some(KeyOf(last)), rest)
    ensures forall r | r in Items(rest) :: r in shots[0].table && Qualifies(ever, k, r) && Before(last, r)
  {
    forall r | r in Items(rest) ensures r in shots[0].table && Qualifies(ever, k, r) && Before(last, r) {
      LaterRowIsOld(ever, shots, clocks, k, last, r);
    }
  }

  lemma LaterOmission(
      w: Walker, ever: Query, shots: seq<Snapshot>, clocks: seq<int>, k: Option<Key>, all: seq<Row>, more: seq<Row>)
    requires |shots| > 1 && History(shots, clocks) && 0 < w.limit < |all| && L.StrictlySorted(Before, all)
    requires all[w.limit - 1] in shots[0].table && AfterKey(k, all[w.limit - 1])
    requires Omits(ever, shots[1].table, Some(KeyOf(all[w.limit - 1])), more)
    ensures Omits(ever, shots[0].table, k, all[..w.limit] + more)
  {
    var last := all[w.limit - 1];
    var r :| r in shots[1].table && Qualifies(ever, Some(KeyOf(last)), r) && r !in more;
    LaterRowIsOld(ever, shots, clocks, k, last, r);
    forall i | 0 <= i < w.limit ensures all[i] != r {
      assert i < w.limit - 1 ==> Before(all[i], last);
    }
  }

  lemma SeenOrder(all: seq<Row>, n: nat, more: seq<Row>)
    requires L.StrictlySorted(Before, all) && 0 < n <= |all|
    requires L.StrictlySorted(Before, more) && forall r | r in more :: Before(all[n - 1], r)
    ensures L.StrictlySorted(Before, all[..n] + more)
  {
    var items := all[..n] + more;
    forall i, j | 0 <= i < j < |items| ensures Before(items[i], items[j]) {
      if i < n <= j {
        assert more[j - n] in more;
        assert i == n - 1 || Before(all[i], all[n - 1]);
      }
    }
  }

  lemma SeenEverything(
      w: Walker, ever: Query, shots: seq<Snapshot>, k: Option<Key>, page: Page, rest: seq<Page>)
    requires Valid(w) && |shots| > 1 && DistinctIds(shots[0].table) && |rest| < |shots|
    requires |ListingAt(shots[0], k)| > w.limit && page.items == ListingAt(shots[0], k)[..w.limit]
    requires Seen(w, ever, shots[1..], Some(KeyOf(ListingAt(shots[0], k)[w.limit - 1])), rest)
    ensures Complete(rest) ==>
              forall r | Stays(r, shots, 1 + |rest|) && AfterKey(k, r) :: r in page.items + Items(rest)
    ensures !Complete(rest) ==> |page.items + Items(rest)| == w.limit * |shots|
  {
    if Complete(rest) {
      forall r | Stays(r, shots, 1 + |rest|) && AfterKey(k, r) ensures r in page.items + Items(rest) {
        ListingSplits(shots[0].table, shots[0].query, k, w.limit, r);
        if r !in page.items {
          forall i | 0 <= i < |rest| ensures r in shots[1..][i].table && shots[1..][i].query(r) {
            assert shots[1..][i] == shots[i + 1];
          }
          assert Stays(r, shots[1..], |rest|);
        }
      }
    } else {
      assert w.limit + w.limit * (|shots| - 1) == w.limit * |shots|;
    }
  }

  lemma SubsetSize<T>(a: set<T>, b: set<T>)
    requires a <= b
    ensures |a| <= |b|
  {
    assert b == a + (b - a);
  }

  /** A listing that omits a member of another is shorter. */
  lemma OmittingIsShorter(s: seq<Row>, t: seq<Row>, omitted: Row)
    requires L.StrictlySorted(Before, s) && L.StrictlySorted(Before, t)
    requires omitted in t && omitted !in s && forall r | r in s :: r in t
    ensures |s| < |t|
  {
    BeforeOrders();
    L.StrictSize(Before, s);
    L.StrictSize(Before, t);
    SubsetSize((set r | r in s) + {omitted}, set r | r in t);
  }

  lemma OrderedRowsDiffer(table: Table, items: seq<Row>)
    requires DistinctIds(table) && L.StrictlySorted(Before, items) && forall r | r in items :: r in table
    ensures forall i, j | 0 <= i < j < |items| :: items[i].id != items[j].id
  {
    forall i, j | 0 <= i < j < |items| ensures items[i].id != items[j].id {
      assert items[i] in items && items[j] in items && Before(items[i], items[j]);
      var a :| 0 <= a < |table| && table[a] == items[i];
      var b :| 0 <= b < |table| && table[b] == items[j];
    }
  }

  lemma SeenFromStart(w: Walker, ever: Query, shots: seq<Snapshot>, pages: seq<Page>)
    requires shots != [] && DistinctIds(shots[0].table) && |pages| <= |shots| && w.limit > 0
    requires Seen(w, ever, shots, None, pages)
    ensures L.StrictlySorted(Before, Items(pages)) && forall r | r in Items(pages) :: r in shots[0].table
    ensures Complete(pages) ==> forall r | Stays(r, shots, |pages|) :: r in Items(pages)
    ensures |shots| >= PagesNeeded(|Listing(shots[0].table, ever, None)|, w.limit) ==> Complete(pages)
  {
    hide Items, Listing, L.StrictlySorted, Stays, DistinctIds;
    assert forall r :: AfterKey(None, r);
    assert pages != [] || !Complete(pages);
    ListingFacts(shots[0].table, ever, None);
    if !Complete(pages) {
      WalkTooShort(w, ever, shots[0].table, Items(pages), |shots|);
    }
  }

  /** Pages that omit a row are fewer than the listing needs. */
  lemma WalkTooShort(w: Walker, ever: Query, table: Table, items: seq<Row>, n: nat)
    requires DistinctIds(table) && w.limit > 0 && n > 0 && |items| == w.limit * n
    requires L.StrictlySorted(Before, items) && forall r | r in items :: r in table && Qualifies(ever, None, r)
    requires Omits(ever, table, None, items)
    ensures n < PagesNeeded(|Listing(table, ever, None)|, w.limit)
  {
    var listing := Listing(table, ever, None);
    ListingFacts(table, ever, None);
    var r :| r in table && Qualifies(ever, None, r) && r !in items;
    OmittingIsShorter(items, listing, r);
    PagesNeededIsCeiling(|listing|, w.limit);
    hide PagesNeeded, Listing, L.StrictlySorted;
    var needed := PagesNeeded(|listing|, w.limit);
    if needed <= n {
      TimesMonotone(needed, n, w.limit);
    }
  }

  lemma TimesMonotone(a: nat, b: nat, limit: nat)
    requires a <= b
    ensures a * limit <= limit * b
  {
  }

  lemma PageQualifies(w: Walker, at: Snapshot, cursor: Option<string>, k: Option<Key>, page: Page)
    requires Valid(w) && DistinctIds(at.table) && DecodeCursor(w.codec, cursor, w.resource) == Ok(k)
    requires ReadPage(w, at, cursor) == Ok(page)
    ensures forall r | r in page.items :: r in at.table && at.query(r)
  {
    var same := PageFacts(w, at, cursor, k);
    ListingFacts(at.table, at.query, k);
    hide ReadPage, DecodeCursor, Listing, DistinctIds, L.StrictlySorted;
    assert forall r | r in page.items :: r in ListingAt(at, k);
  }

  /** Each page shows rows of its own snapshot that qualify there. */
  lemma {:induction false} PagesQualify(w: Walker, shots: seq<Snapshot>, cursor: Option<string>, i: nat)
    requires Valid(w) && i < |Walk(w, shots, cursor)| && forall j | 0 <= j < |shots| :: DistinctIds(shots[j].table)
    ensures i < |shots| && forall r | r in Walk(w, shots, cursor)[i].items :: r in shots[i].table && shots[i].query(r)
    decreases |shots|
  {
    var k := DecodeCursor(w.codec, cursor, w.resource).value;
    var page := ReadPage(w, shots[0], cursor).value;
    WalkStep(w, shots, cursor, page);
    hide Walk, ReadPage, DecodeCursor, DistinctIds, Valid;
    if i == 0 {
      PageQualifies(w, shots[0], cursor, k, page);
    } else {
      PagesQualify(w, shots[1..], page.next, i - 1);
    }
  }

  /** Over a table, and a filter, that change between pages: rows come in page order, no row comes
      twice even if it is touched after it was shown, a row left untouched that qualifies throughout
      comes exactly once in a finished walk, nothing inserted or touched during the walk appears,
      every row qualified when it was shown, and the walk finishes within the pages that the rows of
      the first snapshot need that ever qualify. */
  lemma WalkOverChangingTable(w: Walker, ever: Query, shots: seq<Snapshot>, clocks: seq<int>)
    requires Valid(w) && shots != [] && History(shots, clocks) && Covers(ever, shots)
    ensures var pages := Walk(w, shots, None); var items := Items(pages);
      && |pages| <= |shots|
      && L.StrictlySorted(Before, items)
      && (forall i, j | 0 <= i < j < |items| :: items[i].id != items[j].id)
      && (forall r | r in items :: r in shots[0].table)
      && (forall i | 0 <= i < |pages| :: forall r | r in pages[i].items :: r in shots[i].table && shots[i].query(r))
      && (Complete(pages) ==> forall r | Stays(r, shots, |pages|) :: r in items)
      && (|shots| >= PagesNeeded(|Listing(shots[0].table, ever, None)|, w.limit) ==> Complete(pages))
  {
    WalkSees(w, ever, shots, clocks, None, None);
    forall i | 0 <= i < |shots| ensures DistinctIds(shots[i].table) {
      assert StampedBy(shots[i].table, clocks[i]);
    }
    var pages := Walk(w, shots, None);
    hide Walk, Items, Listing, L.StrictlySorted, Complete, Stays, Seen, DistinctIds, History, Covers;
    SeenFromStart(w, ever, shots, pages);
    OrderedRowsDiffer(shots[0].table, Items(pages));
    forall i | 0 <= i < |pages|
      ensures forall r | r in pages[i].items :: r in shots[i].table && shots[i].query(r)
    {
      PagesQualify(w, shots, None, i);
    }
  }

  // --- the post-filter of `contradictions` ---

  datatype ContradictionRow = ContradictionRow(id: nat, entityType: string, entityId: nat, reviewState: string)

  datatype ContradictionQuery = ContradictionQuery(
    entityType: Option<string>, entityId: Option<nat>, reviewState: Option<string>)

  /** The SQL filter applied before the limit. */
  predicate SqlKeeps(q: ContradictionQuery, r: ContradictionRow) {
    && (q.entityType.Some? ==> r.entityType == q.entityType.value)
    && (q.entityId.Some? ==> r.entityId == q.entityId.value)
    && (q.reviewState.Some? ==> r.reviewState == q.reviewState.value)
  }

  /** The filter applied to the fetched rows. */
  predicate PostKeeps(q: ContradictionQuery, r: ContradictionRow) {
    && (q.entityType.None?
        || (r.entityType == q.entityType.value && (q.entityId.None? || r.entityId == q.entityId.value)))
    && (q.reviewState.None? || r.reviewState == q.reviewState.value)
  }

  /** The post-filter never drops a fetched row, so items and cursor rows stay aligned. */
  lemma {:induction false} PostFilterKeepsEveryRow(q: ContradictionQuery, rows: seq<ContradictionRow>)
    requires forall r | r in rows :: SqlKeeps(q, r)
    ensures Filter((r: ContradictionRow) => PostKeeps(q, r), rows) == rows
  {
    if rows != [] {
      assert rows[0] in rows;
      PostFilterKeepsEveryRow(q, rows[1..]);
    }
  }
}
