/** enrichment/vulnerability.py and db/vulnerability_repository.py: normalization of the
    exploitation fields, canonical selection per field, and its persistence. */
module Vulnerability {
  import opened Contracts
  import opened Wrappers
  import opened Sorting

  datatype Field =
    | Description | PublishedAt | ModifiedAt | CvssScore | CvssVersion | CvssVector | CweIds
    | EpssScore | EpssPercentile | EpssDate
    | KnownExploited | ExploitationState | KevDateAdded | KevDueDate | KevVendorProject | KevProduct | KevRequiredAction

  const FIELDS: seq<Field> := [
    Description, PublishedAt, ModifiedAt, CvssScore, CvssVersion, CvssVector, CweIds, EpssScore, EpssPercentile,
    EpssDate, KnownExploited, ExploitationState, KevDateAdded, KevDueDate, KevVendorProject, KevProduct,
    KevRequiredAction]

  datatype Value = Text(text: string) | Flag(flag: bool) | Items(items: seq<string>)

  /** One provider snapshot of one vulnerability. */
  datatype Observation = Observation(
    id: nat, vulnerability: nat, provider: string, status: Status, retrievedAt: int, values: map<Field, Value>)

  // --- normalization ---

  /** A provider response: the boolean flag and the non-empty state text if the payload has them,
      and its other fields already converted. */
  datatype Response = Response(
    provider: string, status: Status, retrievedAt: int, known: Option<bool>, state: Option<string>,
    others: map<Field, Value>)

  predicate ValidState(s: string) {
    s == "unknown" || s == "not_observed" || s == "known_exploited" || s == "actively_exploited"
  }

  function StateText(r: Response): string {
    if r.state.Some? && ValidState(r.state.value) then r.state.value
    else if r.known == Some(true) then "known_exploited"
    else if r.provider == "cisa_kev" && r.known == Some(false) then "not_observed"
    else "unknown"
  }

  /** `normalized_fields`: weakness identifiers and the exploitation state are always present. */
  function NormalizedFields(r: Response): map<Field, Value> {
    var withCwes := if CweIds in r.others then r.others else r.others[CweIds := Items([])];
    var withState := withCwes[ExploitationState := Text(StateText(r))];
    if r.known.Some? then withState[KnownExploited := Flag(r.known.value)] else withState - {KnownExploited}
  }

  /** What a response says about a field: its flag; its state, or one derived from the flag; its
      weakness identifiers, none by default; and every other field as it came. */
  ghost predicate Reports(r: Response, f: Field, x: Value) {
    match f
    case KnownExploited => r.known.Some? && x == Flag(r.known.value)
    case ExploitationState => x.Text? &&
      if r.state in [Some("unknown"), Some("not_observed"), Some("known_exploited"), Some("actively_exploited")]
      then Some(x.text) == r.state
      else && (x.text == "known_exploited" <==> r.known == Some(true))
           && (x.text == "not_observed" <==> r.provider == "cisa_kev" && r.known == Some(false))
           && (x.text in ["known_exploited", "not_observed", "unknown"])
    case CweIds => if f in r.others then x == r.others[f] else x == Items([])
    case _ => f in r.others && x == r.others[f]
  }

  ghost predicate Says(r: Response, f: Field) {
    match f
    case KnownExploited => r.known.Some?
    case ExploitationState => true
    case CweIds => true
    case _ => f in r.others
  }

  lemma NormalizedReports(r: Response, f: Field)
    ensures f in NormalizedFields(r) <==> Says(r, f)
    ensures forall x :: Reports(r, f, x) <==> f in NormalizedFields(r) && NormalizedFields(r)[f] == x
  {
    if f == ExploitationState {
      assert NormalizedFields(r)[f] == Text(StateText(r));
      assert "known_exploited"[0] == 'k' && "not_observed"[0] == 'n' && "unknown"[0] == 'u';
    }
  }

  // --- selection ---

  predicate Usable(o: Observation) {
    o.status == Success || o.status == Partial
  }

  predicate Offers(o: Observation, f: Field) {
    Usable(o) && Holds(o, f)
  }

  predicate IsKevField(f: Field) {
    || f == KnownExploited || f == ExploitationState || f == KevDateAdded || f == KevDueDate
    || f == KevVendorProject || f == KevProduct || f == KevRequiredAction
  }

  predicate IsEpssField(f: Field) {
    f == EpssScore || f == EpssPercentile || f == EpssDate
  }

  function Rank(provider: string, f: Field): nat {
    if IsKevField(f) then if provider == "cisa_kev" then 0 else 1
    else if IsEpssField(f) then if provider == "epss" then 0 else 1
    else if provider == "nvd" then 0 else 1
  }

  /** The sort key (rank, stale, -retrieved), compared lexicographically. */
  predicate Better(f: Field, a: Observation, b: Observation) {
    var ra, rb := Rank(a.provider, f), Rank(b.provider, f);
    var sa, sb := if a.status == Stale then 1 else 0, if b.status == Stale then 1 else 0;
    ra < rb || (ra == rb && sa < sb) || (ra == rb && sa == sb && a.retrievedAt > b.retrievedAt)
  }

  function BetterFor(f: Field): (Observation, Observation) -> bool {
    (a, b) => Better(f, a, b)
  }

  predicate Holds(o: Observation, f: Field) {
    f in o.values && (f == CweIds ==> o.values[f] != Items([]))
  }

  function HoldsFor(f: Field): Observation -> bool {
    o => Holds(o, f)
  }

  function OffersFor(f: Field): Observation -> bool {
    o => Offers(o, f)
  }

  function Offering(observations: seq<Observation>, f: Field): seq<Observation> {
    Filter(OffersFor(f), observations)
  }

  /** The observation a field is taken from. */
  function Winner(observations: seq<Observation>, f: Field): Option<Observation> {
    var sorted := SortBy(BetterFor(f), Offering(observations, f));
    if sorted == [] then None else Some(sorted[0])
  }

  datatype Selection = Selection(value: Value, winner: Observation)

  function SelectedAmong(observations: seq<Observation>, fields: seq<Field>): map<Field, Selection> {
    map f: Field | f in fields && Winner(observations, f).Some? && f in Winner(observations, f).value.values ::
      Selection(Winner(observations, f).value.values[f], Winner(observations, f).value)
  }

  function Selected(observations: seq<Observation>): map<Field, Selection> {
    SelectedAmong(observations, FIELDS)
  }

  method SelectCanonicalFields(observations: seq<Observation>) returns (selected: map<Field, Selection>)
    ensures selected == Selected(observations)
  {
    selected := SelectFields(observations, FIELDS);
  }

  method SelectFields(observations: seq<Observation>, fields: seq<Field>) returns (selected: map<Field, Selection>)
    ensures selected == SelectedAmong(observations, fields)
  {
    hide Winner, Filter, SortBy, Holds;
    selected := map[];
    var usable := Filter(Usable, observations);
    for i := 0 to |fields|
      invariant selected == SelectedAmong(observations, fields[..i])
    {
      hide SelectedAmong;
      var field := fields[i];
      var candidates := Filter(HoldsFor(field), usable);
      WinnerAmong(observations, field);
      SelectedSnoc(observations, fields[..i], field);
      assert fields[..i + 1] == fields[..i] + [field];
      if candidates == [] { continue; }
      var winner := SortBy(BetterFor(field), candidates)[0];
      selected := selected[field := Selection(winner.values[field], winner)];
    }
    assert fields[..|fields|] == fields;
  }

  lemma SelectedSnoc(observations: seq<Observation>, fields: seq<Field>, f: Field)
    ensures var w := Winner(observations, f); var before := SelectedAmong(observations, fields);
      && (w.Some? ==> f in w.value.values)
      && SelectedAmong(observations, fields + [f])
         == if w.None? then before else before[f := Selection(w.value.values[f], w.value)]
  {
    WinnerFacts(observations, f);
    hide Winner;
  }

  /** Filtering by status first and by field second, then sorting, finds the winner. */
  lemma WinnerAmong(observations: seq<Observation>, f: Field)
    ensures var candidates := Filter(HoldsFor(f), Filter(Usable, observations));
      && (candidates == [] <==> Winner(observations, f).None?)
      && (candidates != [] ==> SortBy(BetterFor(f), candidates) != []
                               && Winner(observations, f) == Some(SortBy(BetterFor(f), candidates)[0]))
  {
    var candidates := Filter(HoldsFor(f), Filter(Usable, observations));
    UsableFirst(observations, f);
    if candidates == [] {
      SortOfNone(BetterFor(f));
    } else {
      SortNotEmpty(BetterFor(f), candidates);
    }
  }

  lemma SortOfNone(less: (Observation, Observation) -> bool)
    ensures SortBy(less, []) == []
  {
  }

  lemma SortNotEmpty(less: (Observation, Observation) -> bool, s: seq<Observation>)
    requires s != []
    ensures SortBy(less, s) != []
  {
  }

  lemma {:induction false} UsableFirst(observations: seq<Observation>, f: Field)
    ensures Filter(HoldsFor(f), Filter(Usable, observations)) == Offering(observations, f)
  {
    if observations != [] {
      var o, rest := observations[0], observations[1..];
      UsableFirst(rest, f);
      assert observations == [o] + rest;
      FilterCons(Usable, o, rest);
      FilterCons(OffersFor(f), o, rest);
      FilterCons(HoldsFor(f), o, Filter(Usable, rest));
    }
  }

  /** The best offer by one pass over the observations: the first that no other beats. */
  function Best(observations: seq<Observation>, f: Field): Option<Observation> {
    if observations == [] then None
    else
      var o, rest := observations[0], Best(observations[1..], f);
      if !Offers(o, f) then rest
      else if rest.None? || !Better(f, rest.value, o) then Some(o) else rest
  }

  lemma WinnerStep(o: Observation, rest: seq<Observation>, f: Field)
    ensures Winner([o] + rest, f) ==
      if !Offers(o, f) then Winner(rest, f)
      else if Winner(rest, f).None? || !Better(f, Winner(rest, f).value, o) then Some(o) else Winner(rest, f)
  {
    var less, offering := BetterFor(f), Offering(rest, f);
    FilterCons(OffersFor(f), o, rest);
    if Offers(o, f) {
      assert ([o] + offering)[1..] == offering;
      assert SortBy(less, [o] + offering) == Insert(less, o, SortBy(less, offering));
    }
  }

  /** Sorting and taking the first is that single pass. */
  lemma {:induction false} WinnerIsBest(observations: seq<Observation>, f: Field)
    ensures Winner(observations, f) == Best(observations, f)
  {
    if observations != [] {
      WinnerIsBest(observations[1..], f);
      WinnerStep(observations[0], observations[1..], f);
      assert observations == [observations[0]] + observations[1..];
    }
  }

  lemma BetterChains(f: Field, a: Observation, b: Observation, c: Observation)
    ensures !Better(f, a, b) && !Better(f, b, c) ==> !Better(f, a, c)
    ensures Better(f, a, b) ==> !Better(f, b, a)
    ensures !Better(f, a, a)
  {
  }

  lemma {:induction false} BestFacts(observations: seq<Observation>, f: Field)
    ensures var b := Best(observations, f);
      && (b.None? <==> forall o | o in observations :: !Offers(o, f))
      && (b.Some? ==> b.value in observations && Offers(b.value, f)
                      && forall o | o in observations && Offers(o, f) :: !Better(f, o, b.value))
  {
    if observations != [] {
      hide Offers, Better;
      var o, rest := observations[0], observations[1..];
      BestFacts(rest, f);
      assert observations == [o] + rest;
      var best, tail := Best(observations, f), Best(rest, f);
      if best.Some? {
        forall x | x in observations && Offers(x, f) ensures !Better(f, x, best.value) {
          BetterChains(f, x, best.value, o);
          if tail.Some? {
            BetterChains(f, x, tail.value, o);
            BetterChains(f, tail.value, o, o);
          }
        }
      }
    }
  }

  lemma WinnerFacts(observations: seq<Observation>, f: Field)
    ensures var w := Winner(observations, f);
      && (w.None? <==> forall o | o in observations :: !Offers(o, f))
      && (w.Some? ==> w.value in observations && Offers(w.value, f)
                      && forall o | o in observations && Offers(o, f) ::
                           || Rank(w.value.provider, f) < Rank(o.provider, f)
                           || (Rank(w.value.provider, f) == Rank(o.provider, f)
                                && w.value.retrievedAt >= o.retrievedAt))
  {
    WinnerIsBest(observations, f);
    BestFacts(observations, f);
  }

  /** A usable value for the field: weakness identifiers count only when there are any. */
  ghost predicate CanSupply(o: Observation, f: Field) {
    (o.status == Success || o.status == Partial) && f in o.values && (f == CweIds ==> o.values[f] != Items([]))
  }

  /** The latest offer of the provider, if it has one, else the latest offer of any. */
  ghost predicate ProviderDecides(observations: seq<Observation>, f: Field, provider: string, w: Observation) {
    forall o | o in observations && CanSupply(o, f) ::
      && (o.provider == provider ==> w.provider == provider)
      && ((w.provider == provider <==> o.provider == provider) ==> w.retrievedAt >= o.retrievedAt)
  }

  /** The catalogue that each field is taken from first. */
  ghost function Authority(f: Field): string {
    match f
    case Description => "nvd"
    case PublishedAt => "nvd"
    case ModifiedAt => "nvd"
    case CvssScore => "nvd"
    case CvssVersion => "nvd"
    case CvssVector => "nvd"
    case CweIds => "nvd"
    case EpssScore => "epss"
    case EpssPercentile => "epss"
    case EpssDate => "epss"
    case _ => "cisa_kev"
  }

  lemma RankIsAuthority(provider: string, f: Field)
    ensures Rank(provider, f) == if provider == Authority(f) then 0 else 1
  {
  }

  /** A field comes from its catalogue whenever that has a usable value, else from whoever has the
      latest one. */
  lemma FieldAuthorities(observations: seq<Observation>, f: Field)
    requires Winner(observations, f).Some?
    ensures ProviderDecides(observations, f, Authority(f), Winner(observations, f).value)
  {
    WinnerFacts(observations, f);
    hide Winner, Rank, Authority;
    var w := Winner(observations, f).value;
    RankIsAuthority(w.provider, f);
    forall o | o in observations && CanSupply(o, f)
      ensures o.provider == Authority(f) ==> w.provider == Authority(f)
      ensures (w.provider == Authority(f) <==> o.provider == Authority(f)) ==> w.retrievedAt >= o.retrievedAt
    {
      RankIsAuthority(o.provider, f);
    }
  }

  // --- the winner does not depend on order or on losers ---

  /** Position `i` holds the winner: it beats every earlier offer and no later one beats it. */
  ghost predicate WinsAt(observations: seq<Observation>, f: Field, i: nat) {
    && i < |observations| && Offers(observations[i], f)
    && (forall j | 0 <= j < i && Offers(observations[j], f) :: Better(f, observations[i], observations[j]))
    && (forall j | i < j < |observations| && Offers(observations[j], f) :: !Better(f, observations[j], observations[i]))
  }

  lemma {:induction false} BestWins(observations: seq<Observation>, f: Field) returns (i: nat)
    requires Best(observations, f).Some?
    ensures WinsAt(observations, f, i) && Best(observations, f) == Some(observations[i])
  {
    hide Offers, Better;
    var o, rest := observations[0], observations[1..];
    BestFacts(rest, f);
    if Offers(o, f) && (Best(rest, f).None? || !Better(f, Best(rest, f).value, o)) {
      i := 0;
      forall j | 0 < j < |observations| && Offers(observations[j], f) ensures !Better(f, observations[j], o) {
        assert rest[j - 1] in rest && Best(rest, f).Some?;
        BetterChains(f, observations[j], Best(rest, f).value, o);
      }
    } else {
      i := BestWins(rest, f);
      i := i + 1;
      forall j | 0 <= j < i && Offers(observations[j], f) ensures Better(f, observations[i], observations[j]) {
        assert j > 0 ==> observations[j] == rest[j - 1];
      }
      forall j | i < j < |observations| && Offers(observations[j], f)
        ensures !Better(f, observations[j], observations[i])
      {
        assert observations[j] == rest[j - 1];
      }
    }
  }

  lemma WinnerAt(observations: seq<Observation>, f: Field, i: nat)
    requires WinsAt(observations, f, i)
    ensures Winner(observations, f) == Some(observations[i])
  {
    WinnerIsBest(observations, f);
    BestFacts(observations, f);
    assert observations[i] in observations;
    var j := BestWins(observations, f);
    assert i == j;
  }

  lemma SameMembers(a: seq<Observation>, b: seq<Observation>)
    requires multiset(a) == multiset(b)
    ensures forall o :: o in a <==> o in b
  {
    forall o ensures o in a <==> o in b {
      assert o in multiset(a) <==> o in multiset(b);
    }
  }

  /** What the selection can tell two offers apart by. */
  function Standing(o: Observation, f: Field): (nat, int) {
    (Rank(o.provider, f), o.retrievedAt)
  }

  /** With distinct (rank, time) keys the winner is the same for every arrival order. */
  lemma WinnerPermutationInvariant(a: seq<Observation>, b: seq<Observation>, f: Field)
    requires multiset(a) == multiset(b)
    requires forall i, j | 0 <= i < j < |a| && Offers(a[i], f) && Offers(a[j], f) ::
        Standing(a[i], f) != Standing(a[j], f)
    ensures Winner(a, f) == Winner(b, f)
  {
    SameMembers(a, b);
    var wa, wb := Winner(a, f), Winner(b, f);
    WinnerFacts(a, f);
    WinnerFacts(b, f);
    if wa.Some? && wb.Some? {
      assert Standing(wa.value, f) == Standing(wb.value, f);
      var i :| 0 <= i < |a| && a[i] == wa.value;
      var j :| 0 <= j < |a| && a[j] == wb.value;
      assert i == j;
    }
  }

  lemma WinsShifts(before: seq<Observation>, o: Observation, after: seq<Observation>, f: Field, i: nat)
    requires WinsAt(before + after, f, i) && (!Offers(o, f) || Better(f, (before + after)[i], o))
    ensures WinsAt(before + [o] + after, f, if i < |before| then i else i + 1)
    ensures (before + after)[i] == (before + [o] + after)[if i < |before| then i else i + 1]
  {
    hide Offers, Better;
    var small, all := before + after, before + [o] + after;
    var at := if i < |before| then i else i + 1;
    assert all[at] == small[i] && all[|before|] == o;
    forall j | 0 <= j < at && Offers(all[j], f) ensures Better(f, all[at], all[j]) {
      if j != |before| { assert all[j] == small[if j < |before| then j else j - 1]; }
    }
    forall j | at < j < |all| && Offers(all[j], f) ensures !Better(f, all[j], all[at]) {
      if j == |before| {
        BetterChains(f, small[i], o, o);
      } else {
        assert all[j] == small[if j < |before| then j else j - 1];
      }
    }
  }

  /** An observation that offers nothing for the field, or loses to the winner, changes nothing,
      wherever it arrives. */
  lemma LoserChangesNothing(before: seq<Observation>, o: Observation, after: seq<Observation>, f: Field)
    requires var w := Winner(before + after, f); !Offers(o, f) || (w.Some? && Better(f, w.value, o))
    ensures Winner(before + [o] + after, f) == Winner(before + after, f)
  {
    WinnerIsBest(before + after, f);
    if Best(before + after, f).Some? {
      var i := BestWins(before + after, f);
      WinsShifts(before, o, after, f, i);
      WinnerAt(before + [o] + after, f, if i < |before| then i else i + 1);
    } else {
      BestFacts(before + after, f);
      WinnerFacts(before + [o] + after, f);
      assert forall x | x in before + [o] + after :: x == o || x in before + after;
    }
  }

  // --- the two exploitation fields ---

  /** A snapshot of a response that names no valid exploitation state of its own. */
  ghost predicate FromFlag(o: Observation) {
    exists r: Response | !(r.state.Some? && ValidState(r.state.value)) ::
      r.provider == o.provider && o.values == NormalizedFields(r)
  }

  predicate SaysExploited(o: Observation) {
    KnownExploited in o.values && o.values[KnownExploited] == Flag(true)
  }

  predicate StatesExploited(o: Observation) {
    ExploitationState in o.values && o.values[ExploitationState] == Text("known_exploited")
  }

  /** Every stored snapshot carries a state. */
  predicate Stated(observations: seq<Observation>) {
    forall i | 0 <= i < |observations| && Usable(observations[i]) :: ExploitationState in observations[i].values
  }

  lemma FromFlagFacts(o: Observation)
    requires FromFlag(o)
    ensures ExploitationState in o.values && (StatesExploited(o) <==> SaysExploited(o))
  {
    var r: Response :|
      !(r.state.Some? && ValidState(r.state.value)) && r.provider == o.provider && o.values == NormalizedFields(r);
  }

  /** The canonical pair: the state reads known_exploited exactly when the flag is true. */
  ghost predicate FieldsAgree(observations: seq<Observation>) {
    var state, known := Winner(observations, ExploitationState), Winner(observations, KnownExploited);
    (state.Some? && StatesExploited(state.value)) <==> (known.Some? && SaysExploited(known.value))
  }

  /** The two fields rank providers alike. */
  lemma RankAlike(a: Observation, b: Observation)
    ensures Better(KnownExploited, a, b) <==> Better(ExploitationState, a, b)
    ensures Usable(a) && Usable(b) && a.provider == "cisa_kev" && b.provider != "cisa_kev" ==>
              Better(KnownExploited, a, b) && !Better(KnownExploited, b, a)
  {
  }

  /** The state's winner also wins the flag if it offers one, unless a snapshot without a state
      could beat it. */
  lemma SameWinner(observations: seq<Observation>)
    requires Best(observations, ExploitationState).Some?
    requires var w := Best(observations, ExploitationState).value;
      && KnownExploited in w.values
      && forall i | 0 <= i < |observations| && Offers(observations[i], KnownExploited) ::
           Offers(observations[i], ExploitationState)
             || (w.provider == "cisa_kev" && observations[i].provider != "cisa_kev")
    ensures Best(observations, KnownExploited) == Best(observations, ExploitationState)
  {
    var i := BestWins(observations, ExploitationState);
    hide Best, Winner, Better;
    forall j | 0 <= j < |observations| && Offers(observations[j], KnownExploited)
      ensures j < i ==> Better(KnownExploited, observations[i], observations[j])
      ensures j > i ==> !Better(KnownExploited, observations[j], observations[i])
    {
      RankAlike(observations[i], observations[j]);
      RankAlike(observations[j], observations[i]);
    }
    assert WinsAt(observations, KnownExploited, i);
    hide WinsAt, Offers;
    WinnerAt(observations, KnownExploited, i);
    WinnerIsBest(observations, KnownExploited);
  }

  /** The snapshot that decides the state carries a flag that says the opposite. */
  ghost predicate StateContradictsFlag(observations: seq<Observation>) {
    exists j: nat | j < |observations| ::
      && WinsAt(observations, ExploitationState, j) && KnownExploited in observations[j].values
      && (StatesExploited(observations[j]) <==> !SaysExploited(observations[j]))
  }

  /** It carries none and does not state exploitation, while a true flag decides the other field. */
  ghost predicate FlagOutlives(observations: seq<Observation>) {
    exists i: nat, j: nat | i < |observations| && j < |observations| ::
      && WinsAt(observations, KnownExploited, i) && SaysExploited(observations[i])
      && WinsAt(observations, ExploitationState, j) && KnownExploited !in observations[j].values
      && !StatesExploited(observations[j])
  }

  /** It carries none and states exploitation, while no true flag decides the other field. */
  ghost predicate StateUnflagged(observations: seq<Observation>) {
    && (forall i: nat | WinsAt(observations, KnownExploited, i) :: !SaysExploited(observations[i]))
    && exists j: nat | j < |observations| ::
         && WinsAt(observations, ExploitationState, j) && KnownExploited !in observations[j].values
         && StatesExploited(observations[j])
  }

  /** A winner stands at some position. */
  lemma WinnerStands(observations: seq<Observation>, f: Field) returns (i: nat)
    ensures match Winner(observations, f)
      case None => forall k: nat :: !WinsAt(observations, f, k)
      case Some(w) => WinsAt(observations, f, i) && observations[i] == w
  {
    WinnerIsBest(observations, f);
    hide Winner;
    if Best(observations, f).Some? {
      i := BestWins(observations, f);
    } else {
      i := 0;
      BestFacts(observations, f);
      hide Best;
      forall k: nat ensures !WinsAt(observations, f, k) {
        if k < |observations| { assert observations[k] in observations; }
      }
    }
  }

  /** For any stored snapshots, explicit states included, the fields disagree in these three ways
      only. */
  lemma ExploitationAgreesExactly(observations: seq<Observation>)
    requires Stated(observations)
    ensures FieldsAgree(observations)
       <==> !StateContradictsFlag(observations) && !FlagOutlives(observations) && !StateUnflagged(observations)
  {
    var j := WinnerStands(observations, ExploitationState);
    var i := WinnerStands(observations, KnownExploited);
    WinnersAgreeExactly(observations);
    AlwaysStated(observations);
    var state, known := Winner(observations, ExploitationState), Winner(observations, KnownExploited);
    forall k: nat | WinsAt(observations, ExploitationState, k) ensures state == Some(observations[k]) {
      WinnerAt(observations, ExploitationState, k);
    }
    forall k: nat | WinsAt(observations, KnownExploited, k) ensures known == Some(observations[k]) {
      WinnerAt(observations, KnownExploited, k);
    }
    hide Winner, WinsAt, FieldsAgree, Stated, StatesExploited, SaysExploited;
  }

  /** A flag wins only beside a state. */
  lemma AlwaysStated(observations: seq<Observation>)
    requires Stated(observations)
    ensures Winner(observations, ExploitationState).None? ==> Winner(observations, KnownExploited).None?
  {
    WinnerFacts(observations, ExploitationState);
    WinnerFacts(observations, KnownExploited);
    hide Winner;
    var known := Winner(observations, KnownExploited);
    if known.Some? {
      var i :| 0 <= i < |observations| && observations[i] == known.value;
      assert Offers(observations[i], ExploitationState);
    }
  }

  /** If the state's winner carries a flag, it decides both fields. */
  lemma WinnersAgreeExactly(observations: seq<Observation>)
    requires Stated(observations)
    ensures var state, known := Winner(observations, ExploitationState), Winner(observations, KnownExploited);
      FieldsAgree(observations) <==>
        state.None?
        || (if KnownExploited in state.value.values then StatesExploited(state.value) <==> SaysExploited(state.value)
            else StatesExploited(state.value) <==> known.Some? && SaysExploited(known.value))
  {
    WinnerIsBest(observations, ExploitationState);
    WinnerIsBest(observations, KnownExploited);
    BestFacts(observations, ExploitationState);
    BestFacts(observations, KnownExploited);
    var state, known := Best(observations, ExploitationState), Best(observations, KnownExploited);
    hide Best, Winner;
    if state.Some? && KnownExploited in state.value.values {
      SameWinner(observations);
    }
  }

  /** Where states come from flags alone the fields disagree exactly when the snapshot that decides
      the state carries no flag while a true flag decides the other field. */
  lemma FlagsAgreeExactly(observations: seq<Observation>)
    requires forall o | o in observations && Usable(o) :: FromFlag(o)
    ensures FieldsAgree(observations)
       <==> !exists i: nat, j: nat | i < |observations| && j < |observations| ::
              && WinsAt(observations, KnownExploited, i) && SaysExploited(observations[i])
              && WinsAt(observations, ExploitationState, j) && KnownExploited !in observations[j].values
  {
    hide FromFlag, FieldsAgree;
    forall i | 0 <= i < |observations| && Usable(observations[i])
      ensures ExploitationState in observations[i].values
      ensures StatesExploited(observations[i]) <==> SaysExploited(observations[i])
    {
      assert observations[i] in observations;
      FromFlagFacts(observations[i]);
    }
    assert Stated(observations);
    forall i: nat, f | WinsAt(observations, f, i) ensures Usable(observations[i]) {}
    hide WinsAt, StatesExploited, Usable;
    ExploitationAgreesExactly(observations);
  }

  /** When a usable snapshot of the KEV catalogue exists and every such snapshot has its state from
      a flag, the latest of them decides both fields, whatever other providers say. */
  lemma KevDecides(observations: seq<Observation>)
    requires forall o | o in observations && Usable(o) && o.provider == "cisa_kev" ::
               FromFlag(o) && KnownExploited in o.values
    requires exists o | o in observations :: Usable(o) && o.provider == "cisa_kev"
    ensures FieldsAgree(observations)
    ensures Winner(observations, KnownExploited) == Winner(observations, ExploitationState)
    ensures Winner(observations, KnownExploited).Some?
        && Winner(observations, KnownExploited).value.provider == "cisa_kev"
  {
    var kev :| kev in observations && Usable(kev) && kev.provider == "cisa_kev";
    FromFlagFacts(kev);
    WinnerFacts(observations, ExploitationState);
    WinnerIsBest(observations, ExploitationState);
    WinnerIsBest(observations, KnownExploited);
    hide Winner, Best;
    var w := Winner(observations, ExploitationState).value;
    assert Offers(kev, ExploitationState);
    assert w.provider == "cisa_kev" && Usable(w);
    FromFlagFacts(w);
    forall i | 0 <= i < |observations| && Offers(observations[i], KnownExploited)
      && observations[i].provider == "cisa_kev"
      ensures Offers(observations[i], ExploitationState)
    {
      assert observations[i] in observations;
      FromFlagFacts(observations[i]);
    }
    SameWinner(observations);
  }

  /** One KEV snapshot with a negative flag and an explicit state is enough to disagree. */
  lemma ExplicitStateContradicts() returns (observations: seq<Observation>)
    ensures |observations| == 1 && observations[0].provider == "cisa_kev" && Usable(observations[0])
    ensures Stated(observations) && !FieldsAgree(observations)
  {
    var r := Response("cisa_kev", Success, 1, Some(false), Some("known_exploited"), map[]);
    var o := Observation(1, 1, "cisa_kev", Success, 1, NormalizedFields(r));
    observations := [o];
    assert StatesExploited(o) && !SaysExploited(o) && KnownExploited in o.values;
    hide NormalizedFields, Winner, Best, StatesExploited, SaysExploited;
    assert WinsAt([o], ExploitationState, 0) && WinsAt([o], KnownExploited, 0);
    WinnerAt([o], ExploitationState, 0);
    WinnerAt([o], KnownExploited, 0);
  }

  lemma OlderFlagNewerState(a: Observation, b: Observation)
    requires Usable(a) && Usable(b) && a.retrievedAt < b.retrievedAt && a.provider != "cisa_kev"
        && b.provider != "cisa_kev"
    requires SaysExploited(a) && KnownExploited !in b.values
    requires ExploitationState in b.values && b.values[ExploitationState] != Text("known_exploited")
    ensures !FieldsAgree([a, b])
  {
    hide Winner;
    assert WinsAt([a, b], KnownExploited, 0) && WinsAt([a, b], ExploitationState, 1);
    WinnerAt([a, b], KnownExploited, 0);
    WinnerAt([a, b], ExploitationState, 1);
  }

  /** Without a KEV observation they can disagree: an older positive flag of NVD beside a newer EPSS
      snapshot, which never carries one. */
  lemma ExploitationCanDisagree() returns (observations: seq<Observation>)
    ensures forall o | o in observations :: FromFlag(o)
    ensures !FieldsAgree(observations)
  {
    hide FieldsAgree;
    var older := Response("nvd", Success, 1, Some(true), None, map[]);
    var newer := Response("epss", Success, 2, None, None, map[]);
    var a := Observation(1, 1, "nvd", Success, 1, NormalizedFields(older));
    var b := Observation(2, 1, "epss", Success, 2, NormalizedFields(newer));
    observations := [a, b];
    assert FromFlag(a) && FromFlag(b);
    OlderFlagNewerState(a, b);
  }

  // --- persistence ---

  datatype VulnerabilityRow = VulnerabilityRow(cve: string, fields: map<Field, Value>)

  /** A response with the identifier of its stored provider result. */
  datatype Delivery = Delivery(result: nat, response: Response)

  datatype PersistError = NoResponses

  function FindObservation(observations: seq<Observation>, id: nat): (i: Option<nat>)
    ensures i.Some? ==> i.value < |observations| && observations[i.value].id == id
    ensures i.None? ==> forall k | 0 <= k < |observations| :: observations[k].id != id
  {
    if observations == [] then None
    else if observations[|observations| - 1].id == id then Some(|observations| - 1)
    else FindObservation(observations[..|observations| - 1], id)
  }

  /** Insert, or on a known result overwrite the fields the response carries. */
  function Upserted(observations: seq<Observation>, v: nat, d: Delivery): seq<Observation> {
    var values := NormalizedFields(d.response);
    match FindObservation(observations, d.result)
    case None =>
      observations
      + [Observation(d.result, v, d.response.provider, d.response.status, d.response.retrievedAt, values)]
    case Some(i) =>
      observations[i := Observation(d.result, v, d.response.provider, d.response.status, d.response.retrievedAt,
                                    observations[i].values + values)]
  }

  function UpsertedAll(observations: seq<Observation>, v: nat, ds: seq<Delivery>): seq<Observation> {
    if ds == [] then observations else Upserted(UpsertedAll(observations, v, ds[..|ds| - 1]), v, ds[|ds| - 1])
  }

  /** Storing responses keeps a state on every snapshot. */
  lemma {:induction false} UpsertsKeepStates(observations: seq<Observation>, v: nat, ds: seq<Delivery>)
    requires forall i | 0 <= i < |observations| :: ExploitationState in observations[i].values
    ensures forall i | 0 <= i < |UpsertedAll(observations, v, ds)| ::
              ExploitationState in UpsertedAll(observations, v, ds)[i].values
    ensures Stated(UpsertedAll(observations, v, ds))
  {
    if ds != [] {
      UpsertsKeepStates(observations, v, ds[..|ds| - 1]);
    }
  }

  predicate Earlier(a: Observation, b: Observation) {
    a.retrievedAt < b.retrievedAt
  }

  /** `WHERE vulnerability_id = v ORDER BY retrieved_at`. */
  function ObservationsOf(observations: seq<Observation>, v: nat): seq<Observation> {
    SortBy(Earlier, Filter((o: Observation) => o.vulnerability == v, observations))
  }

  function FindByCve(vulnerabilities: map<nat, VulnerabilityRow>, cve: string): set<nat> {
    set v | v in vulnerabilities && vulnerabilities[v].cve == cve
  }

  const EMPTY_FIELDS: map<Field, Value> := map[CweIds := Items([]), ExploitationState := Text("unknown")]

  /** Each selected field holds its winner's value, and its selection row names that winner. */
  ghost predicate Canonical(
    vulnerabilities: map<nat, VulnerabilityRow>, selections: map<(nat, Field), nat>, v: nat,
    selected: map<Field, Selection>)
  {
    v in vulnerabilities && forall f | f in selected ::
      && f in vulnerabilities[v].fields && vulnerabilities[v].fields[f] == selected[f].value
      && (v, f) in selections && selections[(v, f)] == selected[f].winner.id
  }

  /** The row a vulnerability starts from: its own, or a new one. */
  function Base(rows: map<nat, VulnerabilityRow>, v: nat, cve: string): VulnerabilityRow {
    if v in rows then rows[v] else VulnerabilityRow(cve, EMPTY_FIELDS)
  }

  /** A field that was not selected: as it was, or as a new row has it, without weakness identifiers
      and with an unknown state. */
  ghost predicate Untouched(rows: map<nat, VulnerabilityRow>, v: nat, row: VulnerabilityRow, f: Field) {
    if v in rows then Same(rows[v].fields, row.fields, f)
    else match f
      case CweIds => f in row.fields && row.fields[f] == Items([])
      case ExploitationState => f in row.fields && row.fields[f] == Text("unknown")
      case _ => f !in row.fields
  }

  /** Nothing else moves: other vulnerabilities, fields without an offer, other selection rows. */
  ghost predicate OnlySelectedChange(
    rows: map<nat, VulnerabilityRow>, rows': map<nat, VulnerabilityRow>, cve: string,
    choices: map<(nat, Field), nat>, choices': map<(nat, Field), nat>, v: nat, selected: map<Field, Selection>)
  {
    && v in rows' && rows'[v].cve == (if v in rows then rows[v].cve else cve)
    && (forall w | w != v :: Same(rows, rows', w))
    && (forall f | f !in selected :: Untouched(rows, v, rows'[v], f))
    && (forall w, f | w != v || f !in selected :: Same(choices, choices', (w, f)))
  }

  /** An entity's vulnerability: its own row, else one that carries the CVE, else a new row. */
  ghost predicate Resolved(rows: map<nat, VulnerabilityRow>, entity: nat, cve: string, v: nat) {
    || (v == entity && (entity in rows || forall w | w in rows :: rows[w].cve != cve))
    || (entity !in rows && v in rows && rows[v].cve == cve)
  }

  ghost predicate Same<K(!new), V(!new)>(a: map<K, V>, b: map<K, V>, k: K) {
    (k in a <==> k in b) && (k in a ==> a[k] == b[k])
  }

  ghost predicate UniqueIds(observations: seq<Observation>) {
    forall i, j | 0 <= i < j < |observations| :: observations[i].id != observations[j].id
  }

  ghost predicate Stored(observations: seq<Observation>, id: nat) {
    exists i | 0 <= i < |observations| :: observations[i].id == id
  }

  /** Every selection row points at an observation. */
  ghost predicate PointsToStored(observations: seq<Observation>, selections: map<(nat, Field), nat>) {
    forall k | k in selections :: Stored(observations, selections[k])
  }

  ghost predicate Linked(observations: seq<Observation>, selections: map<(nat, Field), nat>) {
    UniqueIds(observations) && PointsToStored(observations, selections)
  }

  /** An upsert keeps the identifiers in their places, and appends at most a new one. */
  lemma UpsertedIds(observations: seq<Observation>, v: nat, d: Delivery)
    ensures var after := Upserted(observations, v, d);
      && |observations| <= |after| <= |observations| + 1
      && (forall i | 0 <= i < |observations| :: after[i].id == observations[i].id)
      && (|after| > |observations| ==>
            && after[|observations|].id == d.result
            && forall i | 0 <= i < |observations| :: observations[i].id != d.result)
  {
    hide NormalizedFields;
  }

  lemma UpsertKeepsUnique(observations: seq<Observation>, v: nat, d: Delivery)
    requires UniqueIds(observations)
    ensures UniqueIds(Upserted(observations, v, d))
  {
    UpsertedIds(observations, v, d);
    hide Upserted;
  }

  lemma UpsertKeepsStored(observations: seq<Observation>, v: nat, d: Delivery, id: nat)
    requires Stored(observations, id)
    ensures Stored(Upserted(observations, v, d), id)
  {
    UpsertedIds(observations, v, d);
    hide Upserted;
    var i :| 0 <= i < |observations| && observations[i].id == id;
    assert Upserted(observations, v, d)[i].id == id;
  }

  /** The last delivery of a result is at `j`. */
  ghost predicate LastDelivery(ds: seq<Delivery>, id: nat, j: nat) {
    j < |ds| && ds[j].result == id && forall k | j < k < |ds| :: ds[k].result != id
  }

  /** The last delivery of a result that says anything about a field is at `j`. */
  ghost predicate LastReport(ds: seq<Delivery>, id: nat, f: Field, j: nat) {
    && j < |ds| && ds[j].result == id && Says(ds[j].response, f)
    && forall k | j < k < |ds| && ds[k].result == id :: !Says(ds[k].response, f)
  }

  ghost predicate NoReport(ds: seq<Delivery>, id: nat, f: Field) {
    forall k | 0 <= k < |ds| && ds[k].result == id :: !Says(ds[k].response, f)
  }

  ghost predicate Delivers(ds: seq<Delivery>, id: nat) {
    exists k | 0 <= k < |ds| :: ds[k].result == id
  }

  /** A field is as the last delivery that reports it says, and as it was where none does. */
  ghost predicate FieldFollows(before: seq<Observation>, ds: seq<Delivery>, o: Observation, f: Field) {
    && (forall j: nat | LastReport(ds, o.id, f, j) :: f in o.values && Reports(ds[j].response, f, o.values[f]))
    && (NoReport(ds, o.id, f) ==>
          && (!Stored(before, o.id) ==> f !in o.values)
          && forall i | 0 <= i < |before| && before[i].id == o.id :: Same(before[i].values, o.values, f))
  }

  /** A result's observation has provider, status and time of its last delivery, each field of the last
      delivery that reports it, and stays as it was when nothing is delivered for it. */
  ghost predicate FollowsDeliveries(before: seq<Observation>, v: nat, ds: seq<Delivery>, o: Observation) {
    && (forall j: nat | LastDelivery(ds, o.id, j) ::
          && o.vulnerability == v && o.provider == ds[j].response.provider
          && o.status == ds[j].response.status && o.retrievedAt == ds[j].response.retrievedAt)
    && (!Delivers(ds, o.id) ==> o in before)
    && forall f :: FieldFollows(before, ds, o, f)
  }

  /** One delivery replaces its observation and no other. */
  ghost predicate Replaced(before: seq<Observation>, v: nat, d: Delivery, o: Observation) {
    && (o.id != d.result ==> o in before)
    && (o.id == d.result ==>
          && o.vulnerability == v && o.provider == d.response.provider && o.status == d.response.status
          && o.retrievedAt == d.response.retrievedAt
          && (forall f | Says(d.response, f) :: f in o.values && Reports(d.response, f, o.values[f]))
          && (if Stored(before, d.result)
              then exists was | was in before :: was.id == d.result && Keeps(was, o, d.response)
              else forall f | !Says(d.response, f) :: f !in o.values))
  }

  ghost predicate Keeps(was: Observation, o: Observation, r: Response) {
    forall f | !Says(r, f) :: Same(was.values, o.values, f)
  }

  lemma UpsertReplaces(observations: seq<Observation>, v: nat, d: Delivery)
    requires UniqueIds(observations)
    ensures var after := Upserted(observations, v, d);
      && (forall o | o in after :: Replaced(observations, v, d, o))
      && forall id :: Stored(after, id) <==> Stored(observations, id) || id == d.result
  {
    var values, after := NormalizedFields(d.response), Upserted(observations, v, d);
    forall f ensures f in values <==> Says(d.response, f)
      ensures f in values ==> Reports(d.response, f, values[f])
    {
      NormalizedReports(d.response, f);
    }
    hide NormalizedFields, Says, Reports;
    UpsertedIds(observations, v, d);
    var found := FindObservation(observations, d.result);
    var at := if found.Some? then found.value else |observations|;
    assert after[at].id == d.result;
    forall id ensures Stored(after, id) <==> Stored(observations, id) || id == d.result {
      if Stored(observations, id) {
        var i :| 0 <= i < |observations| && observations[i].id == id;
        assert after[i].id == id;
      }
    }
    forall i | 0 <= i < |after| ensures Replaced(observations, v, d, after[i]) {
      if i != at {
        assert after[i] == observations[i];
      } else if found.Some? {
        assert Keeps(observations[at], after[at], d.response);
      }
    }
  }

  /** One more delivery, as seen by a field of an observation: its own result's field follows it. */
  lemma FieldStep(
      before: seq<Observation>, front: seq<Delivery>, d: Delivery, was: Observation, o: Observation, f: Field)
    requires was.id == o.id && FieldFollows(before, front, was, f)
    requires o.id != d.result ==> o == was
    requires o.id == d.result ==>
               if Says(d.response, f) then f in o.values && Reports(d.response, f, o.values[f])
               else Same(was.values, o.values, f)
    ensures FieldFollows(before, front + [d], o, f)
  {
    hide Says, Reports;
    var ds := front + [d];
    forall j: nat | LastReport(ds, o.id, f, j) ensures f in o.values && Reports(ds[j].response, f, o.values[f]) {
      assert ds[|front|] == d;
      if j < |front| {
        assert forall k | j < k < |front| :: ds[k] == front[k];
        assert LastReport(front, o.id, f, j);
      }
    }
    if NoReport(ds, o.id, f) {
      assert ds[|front|] == d;
      assert forall k | 0 <= k < |front| :: ds[k] == front[k];
      assert NoReport(front, o.id, f);
    }
  }

  /** The first delivery of a result that was not stored. */
  lemma FieldStarts(before: seq<Observation>, front: seq<Delivery>, d: Delivery, o: Observation, f: Field)
    requires !Stored(before, d.result) && !Delivers(front, d.result) && o.id == d.result
    requires if Says(d.response, f) then f in o.values && Reports(d.response, f, o.values[f]) else f !in o.values
    ensures FieldFollows(before, front + [d], o, f)
  {
    hide Says, Reports;
    var ds := front + [d];
    assert ds[|front|] == d && forall k | 0 <= k < |front| :: ds[k] == front[k] && front[k].result != o.id;
  }

  /** Position of the last delivery: the new one, or as before. */
  lemma LastDeliverySnoc(front: seq<Delivery>, d: Delivery, id: nat)
    ensures forall j: nat ::
              LastDelivery(front + [d], id, j) <==> if id == d.result then j == |front| else LastDelivery(front, id, j)
    ensures forall j: nat | LastDelivery(front, id, j) :: j < |front| && (front + [d])[j] == front[j]
    ensures Delivers(front + [d], id) <==> Delivers(front, id) || id == d.result
  {
    var ds := front + [d];
    assert ds[|front|] == d && forall k | 0 <= k < |front| :: ds[k] == front[k];
  }

  lemma DeliveryStep(
      before: seq<Observation>, v: nat, front: seq<Delivery>, d: Delivery, mid: seq<Observation>, o: Observation)
    requires Replaced(mid, v, d, o)
    requires forall was | was in mid :: FollowsDeliveries(before, v, front, was)
    requires forall id :: Stored(mid, id) <==> Stored(before, id) || Delivers(front, id)
    ensures FollowsDeliveries(before, v, front + [d], o)
  {
    LastDeliverySnoc(front, d, o.id);
    hide LastDelivery, Delivers, FieldFollows, Stored, Reports, Says;
    if o.id != d.result {
      forall f ensures FieldFollows(before, front + [d], o, f) {
        FieldStep(before, front, d, o, o, f);
      }
    } else if Stored(mid, d.result) {
      var was :| was in mid && was.id == d.result && Keeps(was, o, d.response);
      forall f ensures FieldFollows(before, front + [d], o, f) {
        FieldStep(before, front, d, was, o, f);
      }
    } else {
      forall f ensures FieldFollows(before, front + [d], o, f) {
        FieldStarts(before, front, d, o, f);
      }
    }
  }

  lemma NothingDelivered(before: seq<Observation>, v: nat, o: Observation)
    requires UniqueIds(before) && o in before
    ensures FollowsDeliveries(before, v, [], o)
  {
    var i :| 0 <= i < |before| && before[i] == o;
    assert Stored(before, o.id);
    assert forall k | 0 <= k < i :: before[k].id != before[i].id;
    assert forall k | i < k < |before| :: before[i].id != before[k].id;
  }

  /** After any deliveries for a vulnerability there is one observation for each result, stored before
      or delivered, and it follows the deliveries of its result. */
  lemma {:induction false} StoredAsDelivered(before: seq<Observation>, v: nat, ds: seq<Delivery>)
    requires UniqueIds(before)
    ensures var after := UpsertedAll(before, v, ds);
      && UniqueIds(after) && (forall id :: Stored(after, id) <==> Stored(before, id) || Delivers(ds, id))
      && forall o | o in after :: FollowsDeliveries(before, v, ds, o)
  {
    hide UniqueIds, FollowsDeliveries, Upserted, Stored, Replaced;
    if ds == [] {
      forall o | o in before ensures FollowsDeliveries(before, v, ds, o) {
        NothingDelivered(before, v, o);
      }
    } else {
      var front, d := ds[..|ds| - 1], ds[|ds| - 1];
      var mid := UpsertedAll(before, v, front);
      assert UpsertedAll(before, v, ds) == Upserted(mid, v, d) && ds == front + [d];
      hide UpsertedAll;
      StoredAsDelivered(before, v, front);
      UpsertReplaces(mid, v, d);
      UpsertKeepsUnique(mid, v, d);
      forall id ensures Delivers(ds, id) <==> Delivers(front, id) || id == d.result {
        LastDeliverySnoc(front, d, id);
      }
      hide Delivers;
      forall o | o in Upserted(mid, v, d) ensures FollowsDeliveries(before, v, ds, o) {
        DeliveryStep(before, v, front, d, mid, o);
      }
    }
  }

  lemma {:induction false} UpsertsKeepLinks(
      observations: seq<Observation>, selections: map<(nat, Field), nat>, v: nat, ds: seq<Delivery>)
    requires Linked(observations, selections)
    ensures Linked(UpsertedAll(observations, v, ds), selections)
  {
    if ds != [] {
      var before, d := UpsertedAll(observations, v, ds[..|ds| - 1]), ds[|ds| - 1];
      UpsertsKeepLinks(observations, selections, v, ds[..|ds| - 1]);
      UpsertKeepsUnique(before, v, d);
      hide UniqueIds, Stored, Upserted;
      forall k | k in selections ensures Stored(Upserted(before, v, d), selections[k]) {
        UpsertKeepsStored(before, v, d, selections[k]);
      }
    }
  }

  lemma ObservationsOfMembers(observations: seq<Observation>, v: nat)
    ensures forall o :: o in ObservationsOf(observations, v) <==> o in observations && o.vulnerability == v
  {
    var kept := Filter((o: Observation) => o.vulnerability == v, observations);
    SortFacts(Earlier, kept);
    FilterMembers((o: Observation) => o.vulnerability == v, observations);
    SameMembers(SortBy(Earlier, kept), kept);
  }

  lemma EveryField(f: Field)
    ensures f in FIELDS
  {
    var all := FIELDS;
    assert [all[0], all[1], all[2], all[3], all[4], all[5], all[6], all[7], all[8]]
        == [Description, PublishedAt, ModifiedAt, CvssScore, CvssVersion, CvssVector, CweIds, EpssScore,
            EpssPercentile];
    assert [all[9], all[10], all[11], all[12], all[13], all[14], all[15], all[16]]
        == [EpssDate, KnownExploited, ExploitationState, KevDateAdded, KevDueDate, KevVendorProject, KevProduct,
            KevRequiredAction];
  }

  /** A field is selected exactly when some stored observation of the vulnerability can supply it, and
      then its value is that of one which can, the best of them. */
  lemma SelectedExactly(observations: seq<Observation>, v: nat, f: Field)
    ensures var selected := Selected(ObservationsOf(observations, v));
      && (f in selected <==> exists o | o in observations :: o.vulnerability == v && CanSupply(o, f))
      && (f in selected ==>
            var w := selected[f].winner;
            && w in observations && w.vulnerability == v && CanSupply(w, f) && selected[f].value == w.values[f]
            && Winner(ObservationsOf(observations, v), f) == Some(w))
  {
    ObservationsOfMembers(observations, v);
    WinnerFacts(ObservationsOf(observations, v), f);
    EveryField(f);
    hide Winner, ObservationsOf;
  }

  lemma WinnersAreStored(observations: seq<Observation>, v: nat)
    ensures forall f | f in Selected(ObservationsOf(observations, v)) ::
      && Selected(ObservationsOf(observations, v))[f].winner in observations
      && Stored(observations, Selected(ObservationsOf(observations, v))[f].winner.id)
  {
    ObservationsOfMembers(observations, v);
    forall f | f in Selected(ObservationsOf(observations, v)) ensures
      && Selected(ObservationsOf(observations, v))[f].winner in observations
      && Stored(observations, Selected(ObservationsOf(observations, v))[f].winner.id) {
      WinnerFacts(ObservationsOf(observations, v), f);
      var w := Selected(ObservationsOf(observations, v))[f].winner;
      var i :| 0 <= i < |observations| && observations[i] == w;
    }
  }

  lemma ChoicesKeepLinks(observations: seq<Observation>, selections: map<(nat, Field), nat>, v: nat)
    requires Linked(observations, selections)
    ensures Linked(observations, selections + ChoicesOf(v, Selected(ObservationsOf(observations, v))))
  {
    WinnersAreStored(observations, v);
  }

  class VulnerabilityRepository {
    var vulnerabilities: map<nat, VulnerabilityRow>
    var observations: seq<Observation>
    var selections: map<(nat, Field), nat>

    constructor ()
      ensures vulnerabilities == map[] && observations == [] && selections == map[]
    {
      vulnerabilities, observations, selections := map[], [], map[];
    }

    /** The row for an entity: its own, else one with its CVE, else a new one. */
    method Resolve(entity: nat, cve: string) returns (v: nat)
      modifies this`vulnerabilities
      ensures Resolved(old(vulnerabilities), entity, cve, v)
      ensures vulnerabilities == old(vulnerabilities)[v := Base(old(vulnerabilities), v, cve)]
    {
      if entity in vulnerabilities {
        return entity;
      }
      var same := FindByCve(vulnerabilities, cve);
      if same != {} {
        v :| v in same;
        return;
      }
      assert forall w | w in vulnerabilities :: w !in same;
      vulnerabilities := vulnerabilities[entity := VulnerabilityRow(cve, EMPTY_FIELDS)];
      v := entity;
    }

    /** Every canonical field and its selection row name the winner among the vulnerability's
        observations; fields without a usable offer, and all other rows, stay as they were. */
    method PersistEnrichment(entity: nat, cve: string, deliveries: seq<Delivery>) returns (r: Result<nat, PersistError>)
      modifies this
      ensures r.Err? <==> deliveries == []
      ensures r.Err? ==> vulnerabilities == old(vulnerabilities)
      ensures r.Err? ==> observations == old(observations) && selections == old(selections)
      ensures r.Ok? ==> observations == UpsertedAll(old(observations), r.value, deliveries)
      ensures r.Ok? ==> Canonical(vulnerabilities, selections, r.value, Selected(ObservationsOf(observations, r.value)))
      ensures r.Ok? ==> Resolved(old(vulnerabilities), entity, cve, r.value)
      ensures r.Ok? ==> OnlySelectedChange(
          old(vulnerabilities), vulnerabilities, cve, old(selections), selections, r.value,
          Selected(ObservationsOf(observations, r.value)))
      ensures Linked(old(observations), old(selections)) ==> Linked(observations, selections)
    {
      hide Linked, Canonical, OnlySelectedChange, Resolved, Base, Recorded, ChoicesOf, Selected, ObservationsOf,
        UpsertedAll;
      if deliveries == [] {
        return Err(NoResponses);
      }
      var v := Resolve(entity, cve);
      StoreObservations(v, deliveries);
      if Linked(old(observations), selections) {
        UpsertsKeepLinks(old(observations), selections, v, deliveries);
        ChoicesKeepLinks(observations, selections, v);
      }
      var selected := SelectCanonicalFields(ObservationsOf(observations, v));
      RecordSelection(v, selected);
      assert vulnerabilities == old(vulnerabilities)[v := Recorded(Base(old(vulnerabilities), v, cve), selected)];
      RecordFacts(old(vulnerabilities), old(selections), v, cve, selected);
      r := Ok(v);
    }

    method StoreObservations(v: nat, deliveries: seq<Delivery>)
      modifies this`observations
      ensures observations == UpsertedAll(old(observations), v, deliveries)
    {
      for i := 0 to |deliveries|
        invariant observations == UpsertedAll(old(observations), v, deliveries[..i])
      {
        assert deliveries[..i + 1][..i] == deliveries[..i];
        observations := Upserted(observations, v, deliveries[i]);
      }
      assert deliveries[..|deliveries|] == deliveries;
    }

    method RecordSelection(v: nat, selected: map<Field, Selection>)
      requires v in vulnerabilities
      modifies this`vulnerabilities, this`selections
      ensures vulnerabilities == old(vulnerabilities)[v := Recorded(old(vulnerabilities[v]), selected)]
      ensures selections == old(selections) + ChoicesOf(v, selected)
    {
      vulnerabilities := vulnerabilities[v := Recorded(vulnerabilities[v], selected)];
      selections := selections + ChoicesOf(v, selected);
    }
  }

  function Recorded(row: VulnerabilityRow, selected: map<Field, Selection>): VulnerabilityRow {
    row.(fields := row.fields + ValuesOf(selected))
  }

  function ValuesOf(selected: map<Field, Selection>): map<Field, Value> {
    map f | f in selected :: selected[f].value
  }

  function ChoicesOf(v: nat, selected: map<Field, Selection>): map<(nat, Field), nat> {
    map f | f in selected :: (v, f) := selected[f].winner.id
  }

  lemma ChoiceFacts(choices: map<(nat, Field), nat>, v: nat, selected: map<Field, Selection>)
    ensures var after := choices + ChoicesOf(v, selected);
      && (forall f | f in selected :: (v, f) in after && after[(v, f)] == selected[f].winner.id)
      && (forall w, f | w != v || f !in selected :: Same(choices, after, (w, f)))
  {
    var added := ChoicesOf(v, selected);
    assert forall f | f in selected :: (v, f) in added;
    assert forall w, f :: (w, f) in added ==> w == v && f in selected;
  }

  lemma RecordedFacts(row: VulnerabilityRow, selected: map<Field, Selection>)
    ensures var after := Recorded(row, selected);
      && after.cve == row.cve
      && (forall f | f in selected :: f in after.fields && after.fields[f] == selected[f].value)
      && (forall f | f !in selected :: Same(row.fields, after.fields, f))
  {
  }

  lemma RecordFacts(
      rows: map<nat, VulnerabilityRow>, choices: map<(nat, Field), nat>, v: nat, cve: string,
      selected: map<Field, Selection>)
    ensures var rows' := rows[v := Recorded(Base(rows, v, cve), selected)];
      var choices' := choices + ChoicesOf(v, selected);
      && Canonical(rows', choices', v, selected)
      && OnlySelectedChange(rows, rows', cve, choices, choices', v, selected)
  {
    hide Recorded, ChoicesOf;
    ChoiceFacts(choices, v, selected);
    RecordedFacts(Base(rows, v, cve), selected);
    assert forall f :: v !in rows ==> Untouched(rows, v, Base(rows, v, cve), f);
  }
}
