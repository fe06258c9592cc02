/** `calculate_priority_score` of enrichment/scoring.py and the validator of `PriorityScore`, over
    the reals with rounding to four decimals, ties to even. */
module Scoring {
  import opened Wrappers

  // --- rounding ---

  /** The nearest integer, ties to even. */
  function Nearest(y: real): int {
    var f := y.Floor;
    var rest := y - f as real;
    if rest < 0.5 then f else if rest > 0.5 then f + 1 else if f % 2 == 0 then f else f + 1
  }

  /** `round(x, 4)`. */
  function Round4(x: real): real {
    Nearest(x * 10000.0) as real / 10000.0
  }

  /** A multiple of 0.0001. */
  predicate OnGrid(x: real) {
    x * 10000.0 == (x * 10000.0).Floor as real
  }

  lemma NearestMonotone(x: real, y: real)
    requires x <= y
    ensures Nearest(x) <= Nearest(y)
  {
    assert x.Floor <= y.Floor;
  }

  lemma Round4Facts(x: real)
    ensures -0.00005 <= Round4(x) - x <= 0.00005
    ensures OnGrid(Round4(x))
    ensures OnGrid(x) ==> Round4(x) == x
  {
    var n := Nearest(x * 10000.0);
    assert Round4(x) * 10000.0 == n as real;
    assert (n as real).Floor == n;
  }

  lemma Round4Monotone(x: real, y: real)
    requires x <= y
    ensures Round4(x) <= Round4(y)
  {
    NearestMonotone(x * 10000.0, y * 10000.0);
  }

  // --- inputs and components ---

  /** Times in seconds. */
  datatype ScoreInputs = ScoreInputs(
    knownExploited: Option<bool>,
    cvss: Option<real>,
    epss: Option<real>,
    publishedAt: Option<real>,
    modifiedAt: Option<real>,
    significance: real,
    reliability: real,
    corroboration: int)

  function Min(a: real, b: real): real {
    if a <= b then a else b
  }

  function Max(a: real, b: real): real {
    if a >= b then a else b
  }

  function Bounded(value: real, maximum: real): real {
    Max(0.0, Min(maximum, value))
  }

  function OrZero(x: Option<real>): real {
    match x case None => 0.0 case Some(v) => v
  }

  /** Modification time, else publication time. */
  function Stamp(i: ScoreInputs): Option<real> {
    if i.modifiedAt.Some? then i.modifiedAt else i.publishedAt
  }

  function RecencyFactor(i: ScoreInputs, now: real): real {
    match Stamp(i)
    case None => 0.0
    case Some(t) => Max(0.0, 1.0 - Max(0.0, (now - t) / 86400.0) / 365.0)
  }

  /** The seven unrounded contributions, in order. */
  function Exploitation(i: ScoreInputs): real {
    if i.knownExploited == Some(true) then 25.0 else 0.0
  }

  function Cvss(i: ScoreInputs): real {
    Bounded(OrZero(i.cvss) / 10.0 * 20.0, 20.0)
  }

  function Epss(i: ScoreInputs): real {
    Bounded(OrZero(i.epss), 1.0) * 20.0
  }

  function Recency(i: ScoreInputs, now: real): real {
    RecencyFactor(i, now) * 10.0
  }

  function Significance(i: ScoreInputs): real {
    Bounded(i.significance, 1.0) * 10.0
  }

  function Reliability(i: ScoreInputs): real {
    Bounded(i.reliability, 1.0) * 7.5
  }

  function Corroboration(i: ScoreInputs): real {
    Bounded(i.corroboration as real / 3.0, 1.0) * 7.5
  }

  const MAXIMA: seq<real> := [25.0, 20.0, 20.0, 10.0, 10.0, 7.5, 7.5]

  function RawValues(i: ScoreInputs, now: real): seq<real> {
    [Exploitation(i), Cvss(i), Epss(i), Recency(i, now), Significance(i), Reliability(i), Corroboration(i)]
  }

  datatype Component = Component(value: real, maximum: real)

  datatype PriorityScore = PriorityScore(score: real, confidence: real, components: seq<Component>)

  function Components(i: ScoreInputs, now: real): seq<Component> {
    seq(7, k requires 0 <= k < 7 => Component(Round4(RawValues(i, now)[k]), MAXIMA[k]))
  }

  function Sum(values: seq<real>): real {
    if values == [] then 0.0 else Sum(values[..|values| - 1]) + values[|values| - 1]
  }

  function ValuesOf(components: seq<Component>): seq<real> {
    seq(|components|, k requires 0 <= k < |components| => components[k].value)
  }

  function Confidence(i: ScoreInputs): real {
    Min(1.0, Max(0.0,
      Bounded(i.reliability, 1.0) * 0.4 + Bounded(i.corroboration as real / 3.0, 1.0) * 0.3
      + (if i.knownExploited.Some? then 1.0 else 0.25) * 0.3))
  }

  function CalculatePriorityScore(i: ScoreInputs, now: real): PriorityScore {
    var components := Components(i, now);
    PriorityScore(Round4(Sum(ValuesOf(components))), Confidence(i), components)
  }

  /** What the contract of a priority score demands before it can exist. */
  predicate Accepted(p: PriorityScore) {
    && 0.0 <= p.score <= 100.0 && 0.0 <= p.confidence <= 1.0 && p.components != []
    && (forall c | c in p.components :: c.value >= 0.0 && c.maximum > 0.0 && c.value <= c.maximum)
    && Round4(p.score) == Round4(Sum(ValuesOf(p.components)))
  }

  // --- what the score guarantees ---

  lemma BoundedFacts(x: real, y: real, m: real)
    requires m >= 0.0
    ensures 0.0 <= Bounded(x, m) <= m && (x <= y ==> Bounded(x, m) <= Bounded(y, m))
  {
  }

  lemma RecencyFactorFacts(i: ScoreInputs, now: real)
    ensures 0.0 <= RecencyFactor(i, now) <= 1.0
  {
  }

  lemma RawWithinMaxima(i: ScoreInputs, now: real, k: nat)
    requires k < 7
    ensures 0.0 <= RawValues(i, now)[k] <= MAXIMA[k]
  {
    RecencyFactorFacts(i, now);
  }

  lemma MaximaOnGrid(k: nat)
    requires k < 7
    ensures Round4(MAXIMA[k]) == MAXIMA[k] && Round4(0.0) == 0.0
  {
    var m := MAXIMA[k];
    assert m * 10000.0 == 250000.0 || m * 10000.0 == 200000.0 || m * 10000.0 == 100000.0 || m * 10000.0 == 75000.0;
    Round4Facts(m);
    Round4Facts(0.0);
  }

  /** Rounding keeps every component within its maximum. */
  lemma ComponentWithinMaximum(i: ScoreInputs, now: real, k: nat)
    requires k < 7
    ensures 0.0 <= Components(i, now)[k].value <= Components(i, now)[k].maximum == MAXIMA[k]
  {
    RawWithinMaxima(i, now, k);
    MaximaOnGrid(k);
    Round4Monotone(0.0, RawValues(i, now)[k]);
    Round4Monotone(RawValues(i, now)[k], MAXIMA[k]);
  }

  lemma GridSum(a: real, b: real)
    requires OnGrid(a) && OnGrid(b)
    ensures OnGrid(a + b)
  {
    var m, n := (a * 10000.0).Floor, (b * 10000.0).Floor;
    assert (a + b) * 10000.0 == (m + n) as real;
    assert ((m + n) as real).Floor == m + n;
  }

  lemma {:induction false} SumOnGrid(values: seq<real>)
    requires forall k | 0 <= k < |values| :: OnGrid(values[k])
    ensures OnGrid(Sum(values))
  {
    if values == [] {
      assert 0.0 * 10000.0 == 0.0;
    } else {
      SumOnGrid(values[..|values| - 1]);
      GridSum(Sum(values[..|values| - 1]), values[|values| - 1]);
    }
  }

  lemma {:induction false} SumMonotone(a: seq<real>, b: seq<real>)
    requires |a| == |b| && forall k | 0 <= k < |a| :: a[k] <= b[k]
    ensures Sum(a) <= Sum(b)
  {
    if a != [] {
      SumMonotone(a[..|a| - 1], b[..|b| - 1]);
    }
  }

  lemma SumStep(v: seq<real>, n: nat)
    requires 0 < n <= |v|
    ensures Sum(v[..n]) == Sum(v[..n - 1]) + v[n - 1]
  {
    assert v[..n][..n - 1] == v[..n - 1];
  }

  lemma SumOfSeven(v: seq<real>)
    requires |v| == 7
    ensures Sum(v) == v[0] + v[1] + v[2] + v[3] + v[4] + v[5] + v[6]
  {
    SumStep(v, 1);
    SumStep(v, 2);
    SumStep(v, 3);
    SumStep(v, 4);
    SumStep(v, 5);
    SumStep(v, 6);
    SumStep(v, 7);
    assert v[..0] == [] && v[..7] == v;
  }

  /** The stored score is exactly the sum of its rounded components: the last rounding is idle. */
  lemma ScoreIsSum(i: ScoreInputs, now: real)
    ensures CalculatePriorityScore(i, now).score == Sum(ValuesOf(Components(i, now)))
  {
    var values := ValuesOf(Components(i, now));
    forall k | 0 <= k < 7 ensures OnGrid(values[k]) {
      Round4Facts(RawValues(i, now)[k]);
    }
    SumOnGrid(values);
    Round4Facts(Sum(values));
  }

  /** For every input the score can be built: it lies in [0, 100], every component within its
      maximum, and the total reproduces. */
  lemma ScoreAlwaysAccepted(i: ScoreInputs, now: real)
    ensures Accepted(CalculatePriorityScore(i, now))
  {
    var p := CalculatePriorityScore(i, now);
    var values := ValuesOf(p.components);
    forall k | 0 <= k < 7 ensures 0.0 <= values[k] <= MAXIMA[k] {
      ComponentWithinMaximum(i, now, k);
    }
    ScoreIsSum(i, now);
    SumOfSeven(values);
    forall c | c in p.components ensures c.value >= 0.0 && c.maximum > 0.0 && c.value <= c.maximum {
      var k :| 0 <= k < 7 && p.components[k] == c;
      ComponentWithinMaximum(i, now, k);
    }
  }

  /** Corroboration counts in steps of 2.5. */
  lemma CorroborationOnGrid(i: ScoreInputs)
    ensures Round4(Corroboration(i)) == Corroboration(i)
  {
    var c := i.corroboration;
    var steps := if c < 0 then 0 else if c > 3 then 3 else c;
    assert Corroboration(i) == 2.5 * steps as real;
    assert Corroboration(i) * 10000.0 == (25000 * steps) as real && ((25000 * steps) as real).Floor == 25000 * steps;
    Round4Facts(Corroboration(i));
  }

  /** Rounding moves the total by at most 0.00025: five components can be off by half a unit of the
      fourth decimal, exploitation and corroboration never are. */
  lemma RoundingGap(i: ScoreInputs, now: real)
    ensures -0.00025 <= CalculatePriorityScore(i, now).score - Sum(RawValues(i, now)) <= 0.00025
  {
    var values, raw := ValuesOf(Components(i, now)), RawValues(i, now);
    ScoreIsSum(i, now);
    SumOfSeven(values);
    SumOfSeven(raw);
    forall k | 0 <= k < 7 ensures -0.00005 <= values[k] - raw[k] <= 0.00005 {
      Round4Facts(raw[k]);
    }
    MaximaOnGrid(0);
    CorroborationOnGrid(i);
    assert values[0] == raw[0] && values[6] == raw[6];
  }

  /** `b` is at least as alarming as `a` in every input. */
  ghost predicate AtLeast(a: ScoreInputs, b: ScoreInputs, nowA: real, nowB: real) {
    && (a.knownExploited == Some(true) ==> b.knownExploited == Some(true))
    && OrZero(a.cvss) <= OrZero(b.cvss) && OrZero(a.epss) <= OrZero(b.epss)
    && (Stamp(a).Some? ==> Stamp(b).Some? && nowA - Stamp(a).value >= nowB - Stamp(b).value)
    && a.significance <= b.significance && a.reliability <= b.reliability && a.corroboration <= b.corroboration
  }

  lemma RawMonotone(a: ScoreInputs, b: ScoreInputs, nowA: real, nowB: real, k: nat)
    requires AtLeast(a, b, nowA, nowB) && k < 7
    ensures RawValues(a, nowA)[k] <= RawValues(b, nowB)[k]
  {
    RecencyFactorFacts(b, nowB);
    BoundedFacts(OrZero(a.cvss) / 10.0 * 20.0, OrZero(b.cvss) / 10.0 * 20.0, 20.0);
    BoundedFacts(OrZero(a.epss), OrZero(b.epss), 1.0);
    BoundedFacts(a.significance, b.significance, 1.0);
    BoundedFacts(a.reliability, b.reliability, 1.0);
    BoundedFacts(a.corroboration as real / 3.0, b.corroboration as real / 3.0, 1.0);
  }

  /** The score is monotone in every input at once, rounding included: a known exploitation, a
      higher CVSS or EPSS, a younger stamp, more significance, reliability or corroboration never
      lowers it. */
  lemma ScoreMonotone(a: ScoreInputs, b: ScoreInputs, nowA: real, nowB: real)
    requires AtLeast(a, b, nowA, nowB)
    ensures CalculatePriorityScore(a, nowA).score <= CalculatePriorityScore(b, nowB).score
  {
    var va, vb := ValuesOf(Components(a, nowA)), ValuesOf(Components(b, nowB));
    forall k | 0 <= k < 7 ensures va[k] <= vb[k] {
      RawMonotone(a, b, nowA, nowB, k);
      Round4Monotone(RawValues(a, nowA)[k], RawValues(b, nowB)[k]);
    }
    SumMonotone(va, vb);
    Round4Monotone(Sum(va), Sum(vb));
  }

  // --- what each input contributes ---

  /** `scale` per unit inside [0, top], and constant outside. */
  ghost predicate Linear(x: real, top: real, scale: real, value: real) {
    && (x <= 0.0 ==> value == 0.0) && (x >= top ==> value == scale * top) && (0.0 <= x <= top ==> value == scale * x)
  }

  const YEAR: real := 365.0 * 86400.0

  /** Ten points lost evenly over 365 days. */
  ghost predicate Fades(age: real, value: real) {
    && (age <= 0.0 ==> value == 10.0) && (age >= YEAR ==> value == 0.0)
    && (0.0 <= age <= YEAR ==> value == 10.0 - 10.0 * age / YEAR)
  }

  /** Before rounding: a known exploitation is 25; CVSS counts double, EPSS 20 fold, significance ten
      fold, reliability 7.5 fold and each of up to three corroborating sources 2.5, all within their
      ranges; recency fades with the age of the modification, else of the publication.  What is
      missing counts nothing. */
  lemma ContributionLaws(i: ScoreInputs, now: real)
    ensures var v := RawValues(i, now);
      && |v| == 7 && v[0] == (if i.knownExploited == Some(true) then 25.0 else 0.0)
      && (i.cvss.None? ==> v[1] == 0.0) && (i.cvss.Some? ==> Linear(i.cvss.value, 10.0, 2.0, v[1]))
      && (i.epss.None? ==> v[2] == 0.0) && (i.epss.Some? ==> Linear(i.epss.value, 1.0, 20.0, v[2]))
      && (i.modifiedAt.None? && i.publishedAt.None? ==> v[3] == 0.0)
      && (i.modifiedAt.None? && i.publishedAt.Some? ==> Fades(now - i.publishedAt.value, v[3]))
      && (i.modifiedAt.Some? ==> Fades(now - i.modifiedAt.value, v[3]))
      && Linear(i.significance, 1.0, 10.0, v[4]) && Linear(i.reliability, 1.0, 7.5, v[5])
      && Linear(i.corroboration as real, 3.0, 2.5, v[6])
  {
    if Stamp(i).Some? {
      FadeLaw(now - Stamp(i).value);
    }
    hide YEAR;
  }

  lemma FadeLaw(seconds: real)
    ensures Fades(seconds, Max(0.0, 1.0 - Max(0.0, seconds / 86400.0) / 365.0) * 10.0)
  {
    assert seconds / 86400.0 / 365.0 == seconds / YEAR;
  }

  /** The stored components are these, each rounded to the nearest fourth decimal, under their maxima. */
  lemma ComponentsAreContributions(i: ScoreInputs, now: real, k: nat)
    requires k < 7
    ensures |Components(i, now)| == 7 && OnGrid(Components(i, now)[k].value)
    ensures -0.00005 <= Components(i, now)[k].value - RawValues(i, now)[k] <= 0.00005
    ensures Components(i, now)[k].maximum
         == if k == 0 then 25.0 else if k <= 2 then 20.0 else if k <= 4 then 10.0 else 7.5
  {
    Round4Facts(RawValues(i, now)[k]);
  }

  lemma OnlyExploitationDiffers(i: ScoreInputs, j: ScoreInputs, now: real, k: nat)
    requires j == i.(knownExploited := j.knownExploited) && 1 <= k < 7
    ensures ValuesOf(Components(i, now))[k] == ValuesOf(Components(j, now))[k]
  {
    assert Stamp(i) == Stamp(j);
    assert RawValues(i, now)[k] == RawValues(j, now)[k];
    hide RawValues, Round4;
  }

  lemma ExploitationComponent(i: ScoreInputs, now: real)
    ensures ValuesOf(Components(i, now))[0] == if i.knownExploited == Some(true) then 25.0 else 0.0
  {
    MaximaOnGrid(0);
    assert RawValues(i, now)[0] == (if i.knownExploited == Some(true) then MAXIMA[0] else 0.0);
    hide RawValues, Round4;
  }

  /** Learning of an exploitation adds exactly 25, whatever else is known. */
  lemma ExploitationAddsExactly(i: ScoreInputs, now: real)
    requires i.knownExploited != Some(true)
    ensures CalculatePriorityScore(i.(knownExploited := Some(true)), now).score
         == CalculatePriorityScore(i, now).score + 25.0
  {
    var j := i.(knownExploited := Some(true));
    var a, b := ValuesOf(Components(i, now)), ValuesOf(Components(j, now));
    ScoreIsSum(i, now);
    ScoreIsSum(j, now);
    hide RawValues, Round4, CalculatePriorityScore;
    SumOfSeven(a);
    SumOfSeven(b);
    ExploitationComponent(i, now);
    ExploitationComponent(j, now);
    forall k | 1 <= k < 7 ensures a[k] == b[k] {
      OnlyExploitationDiffers(i, j, now, k);
    }
  }

  /** Below an even step of the grid everything within half a unit of it is rounded up to it. */
  lemma RoundsUpExactly(x: real, m: real, n: int)
    requires m * 10000.0 == n as real && n % 2 == 0 && x <= m
    ensures Round4(x) == m <==> x >= m - 0.00005
  {
    var y := x * 10000.0;
    assert y <= n as real;
    assert Round4(x) == m <==> Nearest(y) == n;
    if y >= n as real - 0.5 {
      assert y < n as real ==> y.Floor == n - 1;
    }
  }

  lemma RoundsDownExactly(x: real)
    requires x >= 0.0
    ensures Round4(x) == 0.0 <==> x <= 0.00005
  {
    var y := x * 10000.0;
    assert Round4(x) == 0.0 <==> Nearest(y) == 0;
  }

  lemma ComponentAtEnds(i: ScoreInputs, now: real, k: nat)
    requires k < 7
    ensures Components(i, now)[k].value == MAXIMA[k] <==> RawValues(i, now)[k] >= MAXIMA[k] - 0.00005
    ensures Components(i, now)[k].value == 0.0 <==> RawValues(i, now)[k] <= 0.00005
  {
    RawWithinMaxima(i, now, k);
    RoundsDownExactly(RawValues(i, now)[k]);
    var n := if k == 0 then 250000 else if k <= 2 then 200000 else if k <= 4 then 100000 else 75000;
    RoundsUpExactly(RawValues(i, now)[k], MAXIMA[k], n);
  }

  /** The score is 100 exactly when every contribution is within half a unit of the fourth decimal of
      its maximum, and 0 exactly when every one is within half a unit of nothing. */
  lemma ScoreEndsExactly(i: ScoreInputs, now: real)
    ensures CalculatePriorityScore(i, now).score == 100.0
       <==> forall k | 0 <= k < 7 :: RawValues(i, now)[k] >= MAXIMA[k] - 0.00005
    ensures CalculatePriorityScore(i, now).score == 0.0 <==> forall k | 0 <= k < 7 :: RawValues(i, now)[k] <= 0.00005
  {
    var values, raw := ValuesOf(Components(i, now)), RawValues(i, now);
    ScoreIsSum(i, now);
    SumOfSeven(values);
    forall k | 0 <= k < 7
      ensures 0.0 <= values[k] <= MAXIMA[k]
      ensures values[k] == MAXIMA[k] <==> raw[k] >= MAXIMA[k] - 0.00005
      ensures values[k] == 0.0 <==> raw[k] <= 0.00005
    {
      ComponentWithinMaximum(i, now, k);
      ComponentAtEnds(i, now, k);
    }
    hide RawValues, Components, ValuesOf;
    AllAtEnds(values);
  }

  lemma AllAtEnds(v: seq<real>)
    requires |v| == 7 && forall k | 0 <= k < 7 :: 0.0 <= v[k] <= MAXIMA[k]
    ensures v[0] + v[1] + v[2] + v[3] + v[4] + v[5] + v[6] == 100.0 <==> forall k | 0 <= k < 7 :: v[k] == MAXIMA[k]
    ensures v[0] + v[1] + v[2] + v[3] + v[4] + v[5] + v[6] == 0.0 <==> forall k | 0 <= k < 7 :: v[k] == 0.0
  {
    assert v[0] <= 25.0 && v[1] <= 20.0 && v[2] <= 20.0 && v[3] <= 10.0 && v[4] <= 10.0 && v[5] <= 7.5 && v[6] <= 7.5;
  }

  /** So everything at its top scores 100, and nothing known scores 0. */
  lemma TopScores(i: ScoreInputs, now: real)
    ensures i.knownExploited == Some(true) && OrZero(i.cvss) >= 10.0 && OrZero(i.epss) >= 1.0
            && (i.modifiedAt.Some? && i.modifiedAt.value >= now)
            && i.significance >= 1.0 && i.reliability >= 1.0 && i.corroboration >= 3
            ==> CalculatePriorityScore(i, now).score == 100.0
    ensures i.knownExploited != Some(true) && OrZero(i.cvss) <= 0.0 && OrZero(i.epss) <= 0.0
            && i.modifiedAt.None? && i.publishedAt.None?
            && i.significance <= 0.0 && i.reliability <= 0.0 && i.corroboration <= 0
            ==> CalculatePriorityScore(i, now).score == 0.0
  {
    ContributionLaws(i, now);
    ScoreEndsExactly(i, now);
    hide RawValues, CalculatePriorityScore;
  }

  /** Confidence is the sum of three shares: reliability up to 0.4, a tenth for each of up to three
      corroborating sources, and 0.3 when the exploitation is known either way, else 0.075. */
  lemma ConfidenceLaw(i: ScoreInputs, now: real, r: real, c: real)
    requires Linear(i.reliability, 1.0, 0.4, r) && Linear(i.corroboration as real, 3.0, 0.1, c)
    ensures CalculatePriorityScore(i, now).confidence == r + c + if i.knownExploited.Some? then 0.3 else 0.075
  {
  }
}
