/** `_trim_candidate`, `_candidate_span`, `_collect_candidates` and `extract_document` of
    extraction/pipeline.py.  Regex matching and value normalization are parameters. */
module Extraction {
  import L = Listing
  import opened Wrappers
  import Sorting
  import opened Rewriting
  import opened Refang
  import opened Selection

  /** One regex match in the rewritten text. */
  datatype RegexMatch = RegexMatch(kind: IndicatorType, rule: string, start: nat, end: nat)

  /** One match of the CVE pattern; `name` is the identifier spelled from its groups. */
  datatype CveMatch = CveMatch(start: nat, end: nat, name: string)

  datatype Normalized = Normalized(value: string, suppressedReason: Option<string>)

  /** The parts of the extractor that the model leaves open. */
  datatype Rules = Rules(
    isPunctuation: char -> bool,
    find: string -> seq<RegexMatch>,
    normalize: (IndicatorType, string) -> Option<Normalized>,
    observationId: (IndicatorType, string) -> nat,
    findCves: string -> seq<CveMatch>,
    cveId: string -> nat,
    maxInputChars: nat,
    contextChars: nat)

  predicate AllInside(matches: seq<RegexMatch>, text: string) {
    forall k | 0 <= k < |matches| :: matches[k].start <= matches[k].end <= |text|
  }

  /** The regex matches in a text, in pattern order; a match lies inside the searched text. */
  function Found(rules: Rules, text: string): (matches: seq<RegexMatch>)
    ensures AllInside(matches, text) && (AllInside(rules.find(text), text) ==> matches == rules.find(text))
  {
    var inside := (m: RegexMatch) => m.start <= m.end <= |text|;
    var found := Sorting.Filter(inside, rules.find(text));
    Sorting.FilterMembers(inside, rules.find(text));
    Sorting.FilterKeepsAll(inside, rules.find(text));
    assert forall k | 0 <= k < |found| :: found[k] in found;
    found
  }

  // --- trimming ---

  predicate Droppable(isPunctuation: char -> bool, c: char) {
    c in ".,;!?'\"" || (isPunctuation(c) && c !in ":/#")
  }

  function Count(s: string, c: char): nat {
    if s == [] then 0 else (if s[0] == c then 1 else 0) + Count(s[1..], c)
  }

  function DropPunctuation(isPunctuation: char -> bool, text: string, start: nat, end: nat): (e: nat)
    requires start <= end <= |text|
    ensures start <= e <= end
    ensures forall k | e <= k < end :: Droppable(isPunctuation, text[k])
    ensures e > start ==> !Droppable(isPunctuation, text[e - 1])
  {
    if end > start && Droppable(isPunctuation, text[end - 1])
      then DropPunctuation(isPunctuation, text, start, end - 1) else end
  }

  function DropUnbalanced(text: string, start: nat, end: nat, open: char, close: char): (e: nat)
    requires start <= end <= |text|
    ensures start <= e <= end
  {
    if end > start && text[end - 1] == close && Count(text[start..end], close) > Count(text[start..end], open)
    then DropUnbalanced(text, start, end - 1, open, close)
    else end
  }

  function Trimmed(isPunctuation: char -> bool, text: string, start: nat, end: nat): (e: nat)
    requires start <= end <= |text|
    ensures start <= e <= end
  {
    DropUnbalanced(text, start,
      DropUnbalanced(text, start, DropPunctuation(isPunctuation, text, start, end), '(', ')'), '[', ']')
  }

  method TrimCandidate(isPunctuation: char -> bool, text: string, start: nat, end: nat) returns (trimmed: nat)
    requires start <= end <= |text|
    ensures trimmed == Trimmed(isPunctuation, text, start, end)
  {
    hide Droppable, Count;
    trimmed := end;
    while trimmed > start && Droppable(isPunctuation, text[trimmed - 1])
      invariant start <= trimmed <= end
      invariant DropPunctuation(isPunctuation, text, start, trimmed) == DropPunctuation(isPunctuation, text, start, end)
    {
      trimmed := trimmed - 1;
    }
    ghost var first := trimmed;
    while trimmed > start && text[trimmed - 1] == ')'
      && Count(text[start..trimmed], ')') > Count(text[start..trimmed], '(')
      invariant start <= trimmed <= end
      invariant DropUnbalanced(text, start, trimmed, '(', ')') == DropUnbalanced(text, start, first, '(', ')')
    {
      trimmed := trimmed - 1;
    }
    ghost var second := trimmed;
    while trimmed > start && text[trimmed - 1] == ']'
      && Count(text[start..trimmed], ']') > Count(text[start..trimmed], '[')
      invariant start <= trimmed <= end
      invariant DropUnbalanced(text, start, trimmed, '[', ']') == DropUnbalanced(text, start, second, '[', ']')
    {
      trimmed := trimmed - 1;
    }
  }

  /** A character that trimming stops at: no sentence mark or quote, and punctuation only as part of
      addresses. */
  ghost predicate Stays(isPunctuation: char -> bool, c: char) {
    && c != '.' && c != ',' && c != ';' && c != '!' && c != '?' && c != '\'' && c != '\"'
    && (!isPunctuation(c) || c == ':' || c == '/' || c == '#')
  }

  /** The bracket loops are dead: closing brackets are Unicode punctuation, so the first loop has
      already taken them.  Trimming is then the longest prefix ending in a kept character. */
  lemma BracketLoopsNeverRun(isPunctuation: char -> bool, text: string, start: nat, end: nat, e: nat)
    requires isPunctuation(')') && isPunctuation(']') && start <= end <= |text|
    ensures e == Trimmed(isPunctuation, text, start, end)
         <==>
         (&& start <= e <= end
          && (forall k | e <= k < end :: !Stays(isPunctuation, text[k]))
          && (e > start ==> Stays(isPunctuation, text[e - 1])))
  {
    var d := DropPunctuation(isPunctuation, text, start, end);
    assert Trimmed(isPunctuation, text, start, end) == d;
    assert forall c :: Droppable(isPunctuation, c) <==> !Stays(isPunctuation, c);
    hide Droppable, Stays;
  }

  /** `e` ends the longest prefix of the match whose last character is kept.  In Unicode both closing
      brackets are punctuation. */
  ghost predicate Cut(rules: Rules, text: string, start: nat, end: nat, e: nat)
    requires start <= end <= |text|
  {
    && e == Trimmed(rules.isPunctuation, text, start, end) && start <= e <= end
    && (rules.isPunctuation(')') && rules.isPunctuation(']') ==>
          && (forall k | e <= k < end :: !Stays(rules.isPunctuation, text[k]))
          && (e > start ==> Stays(rules.isPunctuation, text[e - 1])))
  }

  lemma TrimCuts(rules: Rules, text: string, start: nat, end: nat)
    requires start <= end <= |text|
    ensures Cut(rules, text, start, end, Trimmed(rules.isPunctuation, text, start, end))
  {
    if rules.isPunctuation(')') && rules.isPunctuation(']') {
      BracketLoopsNeverRun(rules.isPunctuation, text, start, end, Trimmed(rules.isPunctuation, text, start, end));
    }
  }

  // --- candidates ---

  predicate IsHash(kind: IndicatorType) {
    kind == Sha256 || kind == Sha1 || kind == Md5
  }

  /** The text handed to the normalizer: hashes use the untrimmed match. */
  function RawValue(text: string, m: RegexMatch, trimmed: nat): string
    requires m.start <= trimmed <= m.end <= |text|
  {
    if IsHash(m.kind) then text[m.start..m.end] else text[m.start..trimmed]
  }

  function CandidateOf(rules: Rules, mapped: MappedText, m: RegexMatch): Option<Candidate>
    requires |mapped.starts| == |mapped.ends| == |mapped.text| && m.start <= m.end <= |mapped.text|
  {
    var trimmed := Trimmed(rules.isPunctuation, mapped.text, m.start, m.end);
    if trimmed <= m.start then None
    else match rules.normalize(m.kind, RawValue(mapped.text, m, trimmed))
      case None => None
      case Some(n) =>
        var (a, b) := OriginalSpan(mapped, m.start, trimmed);
        Some(Candidate(m.kind, a, b, n.value, m.rule, m.start, trimmed, n.suppressedReason))
  }

  function Collected(rules: Rules, mapped: MappedText, matches: seq<RegexMatch>): seq<Candidate>
    requires |mapped.starts| == |mapped.ends| == |mapped.text|
    requires AllInside(matches, mapped.text)
  {
    if matches == [] then []
    else
      var last := matches[|matches| - 1];
      Collected(rules, mapped, matches[..|matches| - 1])
      + match CandidateOf(rules, mapped, last) case None => [] case Some(c) => [c]
  }

  lemma CollectedSnoc(rules: Rules, mapped: MappedText, matches: seq<RegexMatch>, i: nat)
    requires |mapped.starts| == |mapped.ends| == |mapped.text| && AllInside(matches, mapped.text) && i < |matches|
    ensures AllInside(matches[..i], mapped.text) && AllInside(matches[..i + 1], mapped.text)
    ensures Collected(rules, mapped, matches[..i + 1])
         == Collected(rules, mapped, matches[..i])
            + match CandidateOf(rules, mapped, matches[i]) case None => [] case Some(c) => [c]
  {
    assert matches[..i + 1][..i] == matches[..i];
  }

  method CollectCandidates(rules: Rules, mapped: MappedText) returns (candidates: seq<Candidate>)
    requires |mapped.starts| == |mapped.ends| == |mapped.text|
    ensures candidates == Collected(rules, mapped, Found(rules, mapped.text))
  {
    var matches := Found(rules, mapped.text);
    candidates := [];
    for i := 0 to |matches|
      invariant AllInside(matches[..i], mapped.text) && candidates == Collected(rules, mapped, matches[..i])
    {
      hide Collected, CandidateOf;
      CollectedSnoc(rules, mapped, matches, i);
      var found := ReadCandidate(rules, mapped, matches[i]);
      match found {
        case None =>
          assert candidates + [] == candidates;
        case Some(c) =>
          candidates := candidates + [c];
      }
    }
    assert matches[..|matches|] == matches;
  }

  /** One turn of the loop: trim, normalize, map back. */
  method ReadCandidate(rules: Rules, mapped: MappedText, m: RegexMatch) returns (found: Option<Candidate>)
    requires |mapped.starts| == |mapped.ends| == |mapped.text| && m.start <= m.end <= |mapped.text|
    ensures found == CandidateOf(rules, mapped, m)
  {
    var trimmed := TrimCandidate(rules.isPunctuation, mapped.text, m.start, m.end);
    if trimmed <= m.start {
      return None;
    }
    var (a, b) := OriginalSpan(mapped, m.start, trimmed);
    match rules.normalize(m.kind, RawValue(mapped.text, m, trimmed)) {
      case None => found := None;
      case Some(n) => found := Some(Candidate(m.kind, a, b, n.value, m.rule, m.start, trimmed, n.suppressedReason));
    }
  }

  lemma {:induction false} CollectedFrom(rules: Rules, mapped: MappedText, matches: seq<RegexMatch>, c: Candidate)
      returns (m: RegexMatch)
    requires |mapped.starts| == |mapped.ends| == |mapped.text|
    requires AllInside(matches, mapped.text)
    requires c in Collected(rules, mapped, matches)
    ensures m in matches && CandidateOf(rules, mapped, m) == Some(c)
  {
    if CandidateOf(rules, mapped, matches[|matches| - 1]) == Some(c) {
      m := matches[|matches| - 1];
    } else {
      m := CollectedFrom(rules, mapped, matches[..|matches| - 1], c);
    }
  }

  // --- the document ---

  datatype Observation = Observation(
    id: nat,
    kind: IndicatorType,
    display: string,
    value: string,
    start: nat,
    end: nat,
    context: string,
    rule: string,
    suppressedReason: Option<string>)

  /** One CVE mentioned in the document. */
  datatype Cve = Cve(id: nat, name: string, display: string, start: nat, end: nat, context: string)

  datatype Extracted = Extracted(observations: seq<Observation>, suppressed: seq<Observation>, cves: seq<Cve>)

  datatype ExtractionError = InputTooLong

  function Context(text: string, start: nat, end: nat, width: nat): string
    requires start <= end <= |text|
  {
    if width == 0 then ""
    else text[(if start < width then 0 else start - width)..(if end + width > |text| then |text| else end + width)]
  }

  function Observe(rules: Rules, text: string, c: Candidate): Observation
    requires c.start <= c.end <= |text|
  {
    Observation(rules.observationId(c.kind, c.value), c.kind, text[c.start..c.end], c.value, c.start, c.end,
                Context(text, c.start, c.end, rules.contextChars), c.rule, c.suppressedReason)
  }

  function Observed(rules: Rules, text: string, candidates: seq<Candidate>): seq<Observation>
    requires forall c | c in candidates :: c.start <= c.end <= |text|
  {
    seq(|candidates|, k requires 0 <= k < |candidates| =>
      assert candidates[k] in candidates; Observe(rules, text, candidates[k]))
  }

  ghost predicate MappedFrom(mapped: MappedText, text: string) {
    Tiles(mapped, 0, |text|)
  }

  function CandidatesIn(rules: Rules, mapped: MappedText): seq<Candidate>
    requires |mapped.starts| == |mapped.ends| == |mapped.text|
  {
    Selected(Collected(rules, mapped, Found(rules, mapped.text)))
  }

  /** The source offsets of the rewritten span [start, end). */
  ghost predicate ComesFrom(mapped: MappedText, text: string, start: nat, end: nat, a: nat, b: nat)
    requires MappedFrom(mapped, text)
  {
    start < end <= |mapped.text| && a == mapped.starts[start] && b == mapped.ends[end - 1] && a < b <= |text|
  }

  /** A candidate is backed by a span of the rewritten text that trims one regex match, maps to
      its source offsets, and normalizes to its value; hashes are normalized untrimmed. */
  ghost predicate Backed(rules: Rules, mapped: MappedText, text: string, c: Candidate, m: RegexMatch)
    requires MappedFrom(mapped, text)
  {
    && m in Found(rules, mapped.text)
    && m.start == c.transformedStart < c.transformedEnd <= m.end <= |mapped.text|
    && c.kind == m.kind && c.rule == m.rule
    && Cut(rules, mapped.text, m.start, m.end, c.transformedEnd)
    && ComesFrom(mapped, text, c.transformedStart, c.transformedEnd, c.start, c.end)
    && var hash := c.kind == Sha256 || c.kind == Sha1 || c.kind == Md5;
       rules.normalize(c.kind, mapped.text[m.start..if hash then m.end else c.transformedEnd])
         == Some(Normalized(c.value, c.suppressedReason))
  }

  lemma CandidatesBacked(rules: Rules, mapped: MappedText, text: string, c: Candidate) returns (m: RegexMatch)
    requires MappedFrom(mapped, text) && c in CandidatesIn(rules, mapped)
    ensures Backed(rules, mapped, text, c, m)
  {
    var matches := Found(rules, mapped.text);
    SelectedAreCandidates(Collected(rules, mapped, matches), c);
    m := CollectedFrom(rules, mapped, matches, c);
    CandidateBacked(rules, mapped, text, c, m);
  }

  lemma CandidateBacked(rules: Rules, mapped: MappedText, text: string, c: Candidate, m: RegexMatch)
    requires MappedFrom(mapped, text) && m in Found(rules, mapped.text)
    requires m.start <= m.end <= |mapped.text| && CandidateOf(rules, mapped, m) == Some(c)
    ensures Backed(rules, mapped, text, c, m)
  {
    hide Tiles, Found, Trimmed;
    TrimCuts(rules, mapped.text, m.start, m.end);
    SpanInside(mapped, text, c.transformedStart, c.transformedEnd);
  }

  lemma CandidatesInside(rules: Rules, mapped: MappedText, text: string)
    requires MappedFrom(mapped, text)
    ensures forall c | c in CandidatesIn(rules, mapped) :: c.start <= c.end <= |text|
  {
    forall c | c in CandidatesIn(rules, mapped) ensures c.start <= c.end <= |text| {
      var m := CandidatesBacked(rules, mapped, text, c);
    }
  }

  // --- CVE identifiers ---

  predicate AllCvesInside(matches: seq<CveMatch>, text: string) {
    forall k | 0 <= k < |matches| :: matches[k].start <= matches[k].end <= |text|
  }

  /** The matches of the CVE pattern, in order. */
  function FoundCves(rules: Rules, text: string): (matches: seq<CveMatch>)
    ensures AllCvesInside(matches, text)
    ensures AllCvesInside(rules.findCves(text), text) ==> matches == rules.findCves(text)
  {
    var inside := (m: CveMatch) => m.start <= m.end <= |text|;
    var found := Sorting.Filter(inside, rules.findCves(text));
    Sorting.FilterMembers(inside, rules.findCves(text));
    Sorting.FilterKeepsAll(inside, rules.findCves(text));
    assert forall k | 0 <= k < |found| :: found[k] in found;
    found
  }

  lemma SpanInside(mapped: MappedText, text: string, start: nat, end: nat)
    requires MappedFrom(mapped, text) && start < end <= |mapped.text|
    ensures var (a, b) := OriginalSpan(mapped, start, end); a < b <= |text|
  {
    BlocksOrdered(mapped, 0, |text|, start, end - 1);
    assert mapped.starts[start] < mapped.ends[start] && mapped.starts[end - 1] < mapped.ends[end - 1] <= |text|;
    hide Tiles;
  }

  /** What one match contributes; a match that is trimmed away contributes nothing. */
  function CveOf(rules: Rules, mapped: MappedText, text: string, m: CveMatch): Option<Cve>
    requires MappedFrom(mapped, text) && m.start <= m.end <= |mapped.text|
  {
    var trimmed := Trimmed(rules.isPunctuation, mapped.text, m.start, m.end);
    if trimmed <= m.start then None
    else
      SpanInside(mapped, text, m.start, trimmed);
      var (a, b) := OriginalSpan(mapped, m.start, trimmed);
      Some(Cve(rules.cveId(m.name), m.name, text[a..b], a, b, Context(text, a, b, rules.contextChars)))
  }

  /** The text around [a, b), as far as `width` characters on either side. */
  ghost predicate Window(text: string, a: nat, b: nat, width: nat, context: string)
    requires a <= b <= |text|
  {
    if width == 0 then context == ""
    else exists lo: nat, hi: nat | lo <= a && b <= hi <= |text| ::
      && context == text[lo..hi]
      && a - lo <= width && (lo > 0 ==> a - lo == width)
      && hi - b <= width && (hi < |text| ==> hi - b == width)
  }

  lemma ContextIsWindow(text: string, a: nat, b: nat, width: nat)
    requires a <= b <= |text|
    ensures Window(text, a, b, width, Context(text, a, b, width))
  {
    var lo: nat, hi: nat := if a < width then 0 else a - width, if b + width > |text| then |text| else b + width;
    assert width > 0 ==> Context(text, a, b, width) == text[lo..hi];
  }

  /** Some character of the match is kept. */
  ghost predicate Usable(rules: Rules, mapped: MappedText, m: CveMatch)
    requires m.start <= m.end <= |mapped.text|
  {
    exists e: nat :: Cut(rules, mapped.text, m.start, m.end, e) && e > m.start
  }

  /** A CVE quotes the source of its own match, trimmed, with its surroundings. */
  ghost predicate CveBacked(rules: Rules, mapped: MappedText, text: string, c: Cve, m: CveMatch)
    requires MappedFrom(mapped, text)
  {
    && m.start <= m.end <= |mapped.text| && c.name == m.name && c.id == rules.cveId(m.name)
    && (exists e: nat ::
          Cut(rules, mapped.text, m.start, m.end, e) && ComesFrom(mapped, text, m.start, e, c.start, c.end))
    && c.start < c.end <= |text| && c.display == text[c.start..c.end]
    && Window(text, c.start, c.end, rules.contextChars, c.context)
  }

  lemma CveOfBacked(rules: Rules, mapped: MappedText, text: string, m: CveMatch)
    requires MappedFrom(mapped, text) && m.start <= m.end <= |mapped.text|
    ensures match CveOf(rules, mapped, text, m)
      case None => !Usable(rules, mapped, m)
      case Some(c) => Usable(rules, mapped, m) && CveBacked(rules, mapped, text, c, m)
  {
    var e := Trimmed(rules.isPunctuation, mapped.text, m.start, m.end);
    TrimCuts(rules, mapped.text, m.start, m.end);
    if e > m.start {
      SpanInside(mapped, text, m.start, e);
      hide Trimmed, Tiles;
      var (a, b) := OriginalSpan(mapped, m.start, e);
      ContextIsWindow(text, a, b, rules.contextChars);
      hide Context, Window;
      assert Cut(rules, mapped.text, m.start, m.end, e) && ComesFrom(mapped, text, m.start, e, a, b);
    }
  }

  /** Every usable mention, in order. */
  function Mentions(rules: Rules, mapped: MappedText, text: string, matches: seq<CveMatch>): seq<Cve>
    requires MappedFrom(mapped, text) && AllCvesInside(matches, mapped.text)
  {
    if matches == [] then []
    else
      Mentions(rules, mapped, text, matches[..|matches| - 1])
      + match CveOf(rules, mapped, text, matches[|matches| - 1]) case None => [] case Some(c) => [c]
  }

  predicate Named(cves: seq<Cve>, name: string) {
    exists k | 0 <= k < |cves| :: cves[k].name == name
  }

  /** The first mention of each name, in order. */
  function FirstOfEach(mentions: seq<Cve>): seq<Cve> {
    if mentions == [] then []
    else
      var before, c := FirstOfEach(mentions[..|mentions| - 1]), mentions[|mentions| - 1];
      if Named(before, c.name) then before else before + [c]
  }

  predicate CveBefore(a: Cve, b: Cve) {
    a.start < b.start || (a.start == b.start && L.StringLess(a.name, b.name))
  }

  function Cves(rules: Rules, mapped: MappedText, text: string): seq<Cve>
    requires MappedFrom(mapped, text)
  {
    Sorting.SortBy(CveBefore, FirstOfEach(Mentions(rules, mapped, text, FoundCves(rules, mapped.text))))
  }

  method ExtractCves(rules: Rules, mapped: MappedText, text: string) returns (cves: seq<Cve>)
    requires MappedFrom(mapped, text)
    ensures cves == Cves(rules, mapped, text)
  {
    var matches := FoundCves(rules, mapped.text);
    var candidates: seq<Cve> := [];
    var seen: set<string> := {};
    ghost var mentions: seq<Cve> := [];
    for i := 0 to |matches|
      invariant AllCvesInside(matches[..i], mapped.text) && mentions == Mentions(rules, mapped, text, matches[..i])
      invariant candidates == FirstOfEach(mentions)
      invariant seen == NamesOf(candidates)
    {
      hide CveOf, Mentions, FirstOfEach, Named, NamesOf, MappedFrom;
      MentionsSnoc(rules, mapped, text, matches, i);
      var found := ReadCve(rules, mapped, text, matches[i]);
      if found.Some? {
        FirstOfEachSnoc(mentions, found.value);
        NamesOfSnoc(candidates, found.value);
        mentions := mentions + [found.value];
        if found.value.name !in seen {
          seen := seen + {found.value.name};
          candidates := candidates + [found.value];
        }
      }
    }
    assert matches[..|matches|] == matches;
    cves := Sorting.SortBy(CveBefore, candidates);
  }

  method ReadCve(rules: Rules, mapped: MappedText, text: string, m: CveMatch) returns (found: Option<Cve>)
    requires MappedFrom(mapped, text) && m.start <= m.end <= |mapped.text|
    ensures found == CveOf(rules, mapped, text, m)
  {
    var trimmed := TrimCandidate(rules.isPunctuation, mapped.text, m.start, m.end);
    if trimmed <= m.start {
      return None;
    }
    SpanInside(mapped, text, m.start, trimmed);
    var (a, b) := OriginalSpan(mapped, m.start, trimmed);
    found := Some(Cve(rules.cveId(m.name), m.name, text[a..b], a, b, Context(text, a, b, rules.contextChars)));
  }

  function NamesOf(cves: seq<Cve>): set<string> {
    set c | c in cves :: c.name
  }

  lemma NamesOfSnoc(cves: seq<Cve>, c: Cve)
    ensures NamesOf(cves + [c]) == NamesOf(cves) + {c.name}
    ensures c.name in NamesOf(cves) <==> Named(cves, c.name)
  {
    assert forall x :: x in cves + [c] <==> x in cves || x == c;
    if c.name in NamesOf(cves) {
      var x :| x in cves && x.name == c.name;
      var k :| 0 <= k < |cves| && cves[k] == x;
    }
    if k :| 0 <= k < |cves| && cves[k].name == c.name {
      assert cves[k] in cves;
    }
  }

  lemma MentionsSnoc(rules: Rules, mapped: MappedText, text: string, matches: seq<CveMatch>, i: nat)
    requires MappedFrom(mapped, text) && AllCvesInside(matches, mapped.text) && i < |matches|
    ensures AllCvesInside(matches[..i], mapped.text) && AllCvesInside(matches[..i + 1], mapped.text)
    ensures Mentions(rules, mapped, text, matches[..i + 1])
         == match CveOf(rules, mapped, text, matches[i])
            case None => Mentions(rules, mapped, text, matches[..i])
            case Some(c) => Mentions(rules, mapped, text, matches[..i]) + [c]
  {
    assert matches[..i + 1][..i] == matches[..i];
    assert Mentions(rules, mapped, text, matches[..i]) + [] == Mentions(rules, mapped, text, matches[..i]);
  }

  lemma FirstOfEachSnoc(mentions: seq<Cve>, c: Cve)
    ensures FirstOfEach(mentions + [c])
         == if Named(FirstOfEach(mentions), c.name) then FirstOfEach(mentions) else FirstOfEach(mentions) + [c]
  {
    assert (mentions + [c])[..|mentions|] == mentions;
  }

  /** Entry `c` comes from match `p`, and no earlier match of that name is usable. */
  ghost predicate FirstUse(
      rules: Rules, mapped: MappedText, text: string, matches: seq<CveMatch>, c: Cve, p: nat)
    requires MappedFrom(mapped, text) && AllCvesInside(matches, mapped.text)
  {
    && p < |matches| && CveBacked(rules, mapped, text, c, matches[p])
    && forall j | 0 <= j < p && matches[j].name == c.name :: !Usable(rules, mapped, matches[j])
  }

  /** Distinct names, each at the first usable match, none missing. */
  ghost predicate FirstsOf(rules: Rules, mapped: MappedText, text: string, matches: seq<CveMatch>, cves: seq<Cve>)
    requires MappedFrom(mapped, text) && AllCvesInside(matches, mapped.text)
  {
    DistinctNames(cves) && AllFirstUses(rules, mapped, text, matches, cves) && NoneMissing(rules, mapped, matches, cves)
  }

  lemma FirstUseStays(
      rules: Rules, mapped: MappedText, text: string, matches: seq<CveMatch>, more: seq<CveMatch>, c: Cve, p: nat)
    requires MappedFrom(mapped, text) && AllCvesInside(more, mapped.text) && matches <= more
    requires AllCvesInside(matches, mapped.text) && FirstUse(rules, mapped, text, matches, c, p)
    ensures FirstUse(rules, mapped, text, more, c, p)
  {
    hide Usable, CveBacked;
    assert forall j | 0 <= j <= p :: more[j] == matches[j];
  }

  lemma NamedStays(cves: seq<Cve>, c: Cve)
    ensures Named(cves + [c], c.name) && forall name | Named(cves, name) :: Named(cves + [c], name)
  {
    var all := cves + [c];
    assert all[|cves|] == c;
    forall name | Named(cves, name) ensures Named(all, name) {
      var k :| 0 <= k < |cves| && cves[k].name == name;
      assert all[k].name == name;
    }
  }

  ghost predicate DistinctNames(cves: seq<Cve>) {
    forall i, j | 0 <= i < j < |cves| :: cves[i].name != cves[j].name
  }

  lemma DistinctSnoc(cves: seq<Cve>, c: Cve)
    requires DistinctNames(cves) && !Named(cves, c.name)
    ensures DistinctNames(cves + [c])
  {
    assert forall k | 0 <= k < |cves| :: cves[k].name != c.name;
  }

  ghost predicate Used(rules: Rules, mapped: MappedText, text: string, matches: seq<CveMatch>, c: Cve)
    requires MappedFrom(mapped, text) && AllCvesInside(matches, mapped.text)
  {
    exists p: nat :: FirstUse(rules, mapped, text, matches, c, p)
  }

  ghost predicate AllFirstUses(
      rules: Rules, mapped: MappedText, text: string, matches: seq<CveMatch>, cves: seq<Cve>)
    requires MappedFrom(mapped, text) && AllCvesInside(matches, mapped.text)
  {
    forall k | 0 <= k < |cves| :: Used(rules, mapped, text, matches, cves[k])
  }

  ghost predicate NoneMissing(rules: Rules, mapped: MappedText, matches: seq<CveMatch>, cves: seq<Cve>)
    requires AllCvesInside(matches, mapped.text)
  {
    forall p | 0 <= p < |matches| && Usable(rules, mapped, matches[p]) :: Named(cves, matches[p].name)
  }

  lemma FirstUsesStay(rules: Rules, mapped: MappedText, text: string, matches: seq<CveMatch>, before: seq<Cve>)
    requires MappedFrom(mapped, text) && AllCvesInside(matches, mapped.text) && matches != []
    requires AllCvesInside(matches[..|matches| - 1], mapped.text)
    requires AllFirstUses(rules, mapped, text, matches[..|matches| - 1], before)
    ensures AllFirstUses(rules, mapped, text, matches, before)
  {
    hide MappedFrom, FirstUse;
    forall k | 0 <= k < |before| ensures Used(rules, mapped, text, matches, before[k]) {
      var p: nat :| FirstUse(rules, mapped, text, matches[..|matches| - 1], before[k], p);
      FirstUseStays(rules, mapped, text, matches[..|matches| - 1], matches, before[k], p);
    }
  }

  lemma NoneMissingNext(
      rules: Rules, mapped: MappedText, matches: seq<CveMatch>, before: seq<Cve>, after: seq<Cve>)
    requires AllCvesInside(matches, mapped.text) && matches != []
    requires AllCvesInside(matches[..|matches| - 1], mapped.text)
    requires NoneMissing(rules, mapped, matches[..|matches| - 1], before)
    requires forall name | Named(before, name) :: Named(after, name)
    requires Usable(rules, mapped, matches[|matches| - 1]) ==> Named(after, matches[|matches| - 1].name)
    ensures NoneMissing(rules, mapped, matches, after)
  {
    hide Usable, Named;
    forall p | 0 <= p < |matches| && Usable(rules, mapped, matches[p]) ensures Named(after, matches[p].name) {
      if p < |matches| - 1 { assert matches[..|matches| - 1][p] == matches[p]; }
    }
  }

  lemma NewIsFirstUse(
      rules: Rules, mapped: MappedText, text: string, matches: seq<CveMatch>, before: seq<Cve>, c: Cve)
    requires MappedFrom(mapped, text) && AllCvesInside(matches, mapped.text) && matches != []
    requires AllCvesInside(matches[..|matches| - 1], mapped.text)
    requires NoneMissing(rules, mapped, matches[..|matches| - 1], before) && !Named(before, c.name)
    requires CveBacked(rules, mapped, text, c, matches[|matches| - 1])
    ensures FirstUse(rules, mapped, text, matches, c, |matches| - 1)
  {
    var front := matches[..|matches| - 1];
    hide MappedFrom, Usable, CveBacked, Named;
    forall j | 0 <= j < |front| && matches[j].name == c.name ensures !Usable(rules, mapped, matches[j]) {
      assert front[j] == matches[j];
    }
  }

  lemma UsesSnoc(rules: Rules, mapped: MappedText, text: string, matches: seq<CveMatch>, before: seq<Cve>, c: Cve)
    requires MappedFrom(mapped, text) && AllCvesInside(matches, mapped.text)
    requires AllFirstUses(rules, mapped, text, matches, before) && Used(rules, mapped, text, matches, c)
    ensures AllFirstUses(rules, mapped, text, matches, before + [c])
  {
    hide Used, MappedFrom;
  }

  lemma FirstsTogether(rules: Rules, mapped: MappedText, text: string, matches: seq<CveMatch>, cves: seq<Cve>)
    requires MappedFrom(mapped, text) && AllCvesInside(matches, mapped.text) && DistinctNames(cves)
    requires AllFirstUses(rules, mapped, text, matches, cves) && NoneMissing(rules, mapped, matches, cves)
    ensures FirstsOf(rules, mapped, text, matches, cves)
  {
  }

  lemma FirstsGrow(rules: Rules, mapped: MappedText, text: string, matches: seq<CveMatch>, before: seq<Cve>, c: Cve)
    requires MappedFrom(mapped, text) && AllCvesInside(matches, mapped.text) && matches != []
    requires AllCvesInside(matches[..|matches| - 1], mapped.text)
    requires FirstsOf(rules, mapped, text, matches[..|matches| - 1], before) && !Named(before, c.name)
    requires CveBacked(rules, mapped, text, c, matches[|matches| - 1])
    ensures FirstsOf(rules, mapped, text, matches, before + [c])
  {
    assert c.name == matches[|matches| - 1].name;
    NamedStays(before, c);
    NewIsFirstUse(rules, mapped, text, matches, before, c);
    FirstUsesStay(rules, mapped, text, matches, before);
    DistinctSnoc(before, c);
    assert Used(rules, mapped, text, matches, c);
    UsesSnoc(rules, mapped, text, matches, before, c);
    hide *;
    NoneMissingNext(rules, mapped, matches, before, before + [c]);
    FirstsTogether(rules, mapped, text, matches, before + [c]);
  }

  /** One more match: it adds an entry exactly when it is usable and its name is new. */
  lemma FirstsStep(rules: Rules, mapped: MappedText, text: string, matches: seq<CveMatch>, before: seq<Cve>)
    requires MappedFrom(mapped, text) && AllCvesInside(matches, mapped.text) && matches != []
    requires AllCvesInside(matches[..|matches| - 1], mapped.text)
    requires FirstsOf(rules, mapped, text, matches[..|matches| - 1], before)
    ensures match CveOf(rules, mapped, text, matches[|matches| - 1])
      case None => FirstsOf(rules, mapped, text, matches, before)
      case Some(c) => FirstsOf(rules, mapped, text, matches, if Named(before, c.name) then before else before + [c])
  {
    var m := matches[|matches| - 1];
    CveOfBacked(rules, mapped, text, m);
    var found := CveOf(rules, mapped, text, m);
    assert found.Some? ==> found.value.name == m.name;
    hide CveOf, MappedFrom, Usable, CveBacked, AllFirstUses, NoneMissing, Named;
    if found.Some? && !Named(before, found.value.name) {
      FirstsGrow(rules, mapped, text, matches, before, found.value);
    } else {
      FirstUsesStay(rules, mapped, text, matches, before);
      NoneMissingNext(rules, mapped, matches, before, before);
    }
  }

  lemma {:induction false} FirstOfEachFacts(rules: Rules, mapped: MappedText, text: string, matches: seq<CveMatch>)
    requires MappedFrom(mapped, text) && AllCvesInside(matches, mapped.text)
    ensures FirstsOf(rules, mapped, text, matches, FirstOfEach(Mentions(rules, mapped, text, matches)))
  {
    if matches == [] { return; }
    var n := |matches| - 1;
    FirstOfEachFacts(rules, mapped, text, matches[..n]);
    var mentions := Mentions(rules, mapped, text, matches[..n]);
    FirstsStep(rules, mapped, text, matches, FirstOfEach(mentions));
    MentionsSnoc(rules, mapped, text, matches, n);
    assert matches[..n + 1] == matches;
    var found := CveOf(rules, mapped, text, matches[n]);
    if found.Some? {
      FirstOfEachSnoc(mentions, found.value);
    }
    hide CveOf, Mentions, FirstOfEach, FirstsOf, MappedFrom;
  }

  lemma CvesSorted(firsts: seq<Cve>)
    requires DistinctNames(firsts)
    ensures var cves := Sorting.SortBy(CveBefore, firsts);
      && L.StrictlySorted(CveBefore, cves) && (forall c :: c in cves <==> c in firsts)
      && DistinctNames(cves)
  {
    var cves := Sorting.SortBy(CveBefore, firsts);
    L.StringLessOrders();
    hide L.StringLess;
    Sorting.SortFacts(CveBefore, firsts);
    Sorting.SeparatedPermutes(CveBefore, firsts, cves);
    Sorting.SeparatedPermutes((x: Cve, y: Cve) => x.name != y.name, firsts, cves);
    forall c ensures c in cves <==> c in firsts {
      assert c in multiset(cves) <==> c in multiset(firsts);
    }
  }

  /** The CVEs listed are exactly the names of usable matches, each once, with the source of its first
      usable match, trimmed, and its surroundings, strictly sorted by place and name. */
  lemma CvesExact(rules: Rules, mapped: MappedText, text: string)
    requires MappedFrom(mapped, text)
    ensures var matches, cves := FoundCves(rules, mapped.text), Cves(rules, mapped, text);
      && (forall i, j | 0 <= i < j < |cves| ::
            cves[i].start < cves[j].start
            || (cves[i].start == cves[j].start && L.StringLess(cves[i].name, cves[j].name)))
      && DistinctNames(cves)
      && (forall c | c in cves :: Used(rules, mapped, text, matches, c))
      && (forall m | m in matches && Usable(rules, mapped, m) :: exists c | c in cves :: c.name == m.name)
  {
    var matches := FoundCves(rules, mapped.text);
    var firsts := FirstOfEach(Mentions(rules, mapped, text, matches));
    FirstOfEachFacts(rules, mapped, text, matches);
    CvesSorted(firsts);
    assert Cves(rules, mapped, text) == Sorting.SortBy(CveBefore, firsts);
    hide *;
    SameFirsts(rules, mapped, text, matches, firsts, Cves(rules, mapped, text));
  }

  lemma SameFirsts(
      rules: Rules, mapped: MappedText, text: string, matches: seq<CveMatch>, firsts: seq<Cve>, cves: seq<Cve>)
    requires MappedFrom(mapped, text) && AllCvesInside(matches, mapped.text)
    requires FirstsOf(rules, mapped, text, matches, firsts) && forall c :: c in cves <==> c in firsts
    ensures forall c | c in cves :: Used(rules, mapped, text, matches, c)
    ensures forall m | m in matches && Usable(rules, mapped, m) :: exists c | c in cves :: c.name == m.name
  {
    hide MappedFrom, Used, Usable;
    forall c | c in cves ensures Used(rules, mapped, text, matches, c) {
      var k :| 0 <= k < |firsts| && firsts[k] == c;
    }
    forall m | m in matches && Usable(rules, mapped, m) ensures exists c | c in cves :: c.name == m.name {
      var p :| 0 <= p < |matches| && matches[p] == m;
      assert Named(firsts, matches[p].name);
      var at :| 0 <= at < |firsts| && firsts[at].name == m.name;
      assert firsts[at] in cves;
    }
  }

  predicate Kept(o: Observation) {
    o.suppressedReason.None?
  }

  predicate Suppressed(o: Observation) {
    o.suppressedReason.Some?
  }

  ghost function DocumentOf(rules: Rules, mapped: MappedText, text: string): Extracted
    requires MappedFrom(mapped, text)
  {
    CandidatesInside(rules, mapped, text);
    var observed := Observed(rules, text, CandidatesIn(rules, mapped));
    Extracted(Sorting.Filter(Kept, observed), Sorting.Filter(Suppressed, observed), Cves(rules, mapped, text))
  }

  /** What `extract_document` returns for an input of admissible length. */
  ghost function Document(rules: Rules, text: string): Extracted
  {
    RefangTiles(text);
    DocumentOf(rules, Refanged(text), text)
  }

  method ExtractDocument(rules: Rules, text: string) returns (result: Result<Extracted, ExtractionError>)
    ensures result == if |text| > rules.maxInputChars then Err(InputTooLong) else Ok(Document(rules, text))
  {
    if |text| > rules.maxInputChars {
      return Err(InputTooLong);
    }
    RefangTiles(text);
    var mapped := RefangText(text);
    var extracted := Assemble(rules, mapped, text);
    result := Ok(extracted);
  }

  method Assemble(rules: Rules, mapped: MappedText, text: string) returns (extracted: Extracted)
    requires MappedFrom(mapped, text)
    ensures extracted == DocumentOf(rules, mapped, text)
  {
    CandidatesInside(rules, mapped, text);
    var collected := CollectCandidates(rules, mapped);
    var candidates := SelectCandidates(collected);
    var observations, suppressed := Partition(rules, text, candidates);
    var cves := ExtractCves(rules, mapped, text);
    extracted := Extracted(observations, suppressed, cves);
  }

  method Partition(rules: Rules, text: string, candidates: seq<Candidate>)
      returns (observations: seq<Observation>, suppressed: seq<Observation>)
    requires forall c | c in candidates :: c.start <= c.end <= |text|
    ensures observations == Sorting.Filter(Kept, Observed(rules, text, candidates))
    ensures suppressed == Sorting.Filter(Suppressed, Observed(rules, text, candidates))
  {
    observations, suppressed := [], [];
    ghost var observed := Observed(rules, text, candidates);
    for i := 0 to |candidates|
      invariant observations == Sorting.Filter(Kept, observed[..i])
      invariant suppressed == Sorting.Filter(Suppressed, observed[..i])
    {
      var candidate := candidates[i];
      assert candidate in candidates;
      var observation := Observe(rules, text, candidate);
      assert observed[..i + 1] == observed[..i] + [observation];
      Sorting.FilterSnoc(Kept, observed[..i], observation);
      Sorting.FilterSnoc(Suppressed, observed[..i], observation);
      if candidate.suppressedReason.Some? {
        suppressed := suppressed + [observation];
      } else {
        observations := observations + [observation];
      }
    }
    assert observed[..|candidates|] == observed;
  }

  /** An observation quotes the source at the candidate's offsets, with its surroundings. */
  ghost predicate Quotes(rules: Rules, text: string, o: Observation, c: Candidate) {
    && (o.start, o.end) == (c.start, c.end) && (o.kind, o.value, o.rule) == (c.kind, c.value, c.rule)
    && o.id == rules.observationId(c.kind, c.value) && o.suppressedReason == c.suppressedReason
    && o.start < o.end <= |text| && o.display == text[o.start..o.end]
    && Window(text, o.start, o.end, rules.contextChars, o.context)
  }

  lemma ObserveQuotes(rules: Rules, text: string, c: Candidate)
    requires c.start < c.end <= |text|
    ensures Quotes(rules, text, Observe(rules, text, c), c)
  {
    ContextIsWindow(text, c.start, c.end, rules.contextChars);
    hide Window, Context;
  }

  lemma DocumentQuotes(rules: Rules, mapped: MappedText, text: string, o: Observation)
    returns (c: Candidate, m: RegexMatch)
    requires MappedFrom(mapped, text)
    requires o in DocumentOf(rules, mapped, text).observations || o in DocumentOf(rules, mapped, text).suppressed
    ensures Backed(rules, mapped, text, c, m) && Quotes(rules, text, o, c)
    ensures o in DocumentOf(rules, mapped, text).suppressed <==> c.suppressedReason.Some?
  {
    CandidatesInside(rules, mapped, text);
    var candidates := CandidatesIn(rules, mapped);
    var observed := Observed(rules, text, candidates);
    Sorting.FilterMembers(Kept, observed);
    Sorting.FilterMembers(Suppressed, observed);
    var k :| 0 <= k < |observed| && observed[k] == o;
    c := candidates[k];
    m := CandidatesBacked(rules, mapped, text, c);
    ObserveQuotes(rules, text, c);
  }

  /** Evidence is preserved: every observation, kept or suppressed, quotes a non-empty slice of
      the source at its offsets, inside its context, and its value is the normalization of the
      rewritten text that this very slice produced. */
  lemma ObservationsAreEvidence(rules: Rules, text: string, o: Observation) returns (c: Candidate, m: RegexMatch)
    requires o in Document(rules, text).observations || o in Document(rules, text).suppressed
    ensures MappedFrom(Refanged(text), text) && Backed(rules, Refanged(text), text, c, m)
    ensures Quotes(rules, text, o, c)
    ensures o in Document(rules, text).suppressed <==> c.suppressedReason.Some?
  {
    RefangTiles(text);
    c, m := DocumentQuotes(rules, Refanged(text), text, o);
  }

  // --- nothing is lost ---

  /** The match is not trimmed away and what is left of it normalizes. */
  ghost predicate Readable(rules: Rules, text: string, m: RegexMatch) {
    && m in Found(rules, text) && m.start <= m.end <= |text|
    && var hash := m.kind == Sha256 || m.kind == Sha1 || m.kind == Md5;
       exists e: nat :: Cut(rules, text, m.start, m.end, e) && m.start < e <= m.end
                        && rules.normalize(m.kind, text[m.start..if hash then m.end else e]).Some?
  }

  lemma {:induction false} CollectedHas(rules: Rules, mapped: MappedText, matches: seq<RegexMatch>, m: RegexMatch)
    requires |mapped.starts| == |mapped.ends| == |mapped.text| && AllInside(matches, mapped.text) && m in matches
    requires m.start <= m.end <= |mapped.text| && CandidateOf(rules, mapped, m).Some?
    ensures CandidateOf(rules, mapped, m).value in Collected(rules, mapped, matches)
  {
    var last := matches[|matches| - 1];
    if m != last {
      CollectedHas(rules, mapped, matches[..|matches| - 1], m);
    }
  }

  lemma ReadableIsCollected(rules: Rules, mapped: MappedText, text: string, m: RegexMatch) returns (c: Candidate)
    requires MappedFrom(mapped, text) && Readable(rules, mapped.text, m)
    ensures Backed(rules, mapped, text, c, m) && c in Collected(rules, mapped, Found(rules, mapped.text))
  {
    hide Trimmed, Found;
    c := CandidateOf(rules, mapped, m).value;
    CandidateBacked(rules, mapped, text, c, m);
    hide CandidateOf;
    CollectedHas(rules, mapped, Found(rules, mapped.text), m);
  }

  /** Every selected candidate is quoted by an observation. */
  lemma SelectedIsQuoted(rules: Rules, mapped: MappedText, text: string, k: nat) returns (o: Observation)
    requires MappedFrom(mapped, text) && k < |CandidatesIn(rules, mapped)|
    ensures Quotes(rules, text, o, CandidatesIn(rules, mapped)[k])
    ensures o in (if o.suppressedReason.None? then DocumentOf(rules, mapped, text).observations
                  else DocumentOf(rules, mapped, text).suppressed)
  {
    CandidatesInside(rules, mapped, text);
    var candidates := CandidatesIn(rules, mapped);
    var observed := Observed(rules, text, candidates);
    Sorting.FilterMembers(Kept, observed);
    Sorting.FilterMembers(Suppressed, observed);
    o := observed[k];
    var m := CandidatesBacked(rules, mapped, text, candidates[k]);
    ObserveQuotes(rules, text, candidates[k]);
    hide CandidatesIn, Quotes, Observe, Backed, MappedFrom;
  }

  /** Every readable match is accounted for: its candidate is quoted by an observation of the document,
      or the choice dropped it for one of its reasons. */
  lemma NothingLost(rules: Rules, text: string, m: RegexMatch)
    returns (c: Candidate, ordered: seq<Candidate>, kept: seq<nat>, i: nat)
    requires Readable(rules, Refanged(text).text, m)
    ensures MappedFrom(Refanged(text), text) && Backed(rules, Refanged(text), text, c, m)
    ensures multiset(ordered) == multiset(Collected(rules, Refanged(text), Found(rules, Refanged(text).text)))
    ensures Admissible(ordered, kept) && i < |ordered| && ordered[i] == c
    ensures i !in kept ==> Dropped(ordered, kept, i)
    ensures i in kept ==> exists o ::
              && o in Document(rules, text).observations + Document(rules, text).suppressed
              && Quotes(rules, text, o, c)
  {
    RefangTiles(text);
    var mapped := Refanged(text);
    hide Refanged;
    c := ReadableIsCollected(rules, mapped, text, m);
    var collected := Collected(rules, mapped, Found(rules, mapped.text));
    hide Backed, Tiles, Collected;
    ordered, kept := SelectionSound(collected);
    assert c in multiset(ordered);
    i :| 0 <= i < |ordered| && ordered[i] == c;
    if i in kept {
      var k: nat :| k < |kept| && kept[k] == i;
      var o := SelectedIsQuoted(rules, mapped, text, k);
      hide Quotes, DocumentOf;
      assert Document(rules, text) == DocumentOf(rules, mapped, text);
    }
  }

  /** The identifier is a hash of type and value without collisions. */
  ghost predicate Stable(rules: Rules) {
    forall k, v, k', v' :: rules.observationId(k, v) == rules.observationId(k', v') ==> (k, v) == (k', v')
  }

  lemma IdsDiffer(rules: Rules, a: Candidate, b: Candidate)
    requires Stable(rules) && Apart(a, b)
    ensures rules.observationId(a.kind, a.value) != rules.observationId(b.kind, b.value)
  {
  }

  lemma CandidatesApart(rules: Rules, mapped: MappedText, i: nat, j: nat)
    requires |mapped.starts| == |mapped.ends| == |mapped.text| && i < j < |CandidatesIn(rules, mapped)|
    ensures Apart(CandidatesIn(rules, mapped)[i], CandidatesIn(rules, mapped)[j])
  {
    hide Collected, Found, Selected, Apart;
    SelectedApart(Collected(rules, mapped, Found(rules, mapped.text)), i, j);
  }

  lemma ObservedId(rules: Rules, text: string, candidates: seq<Candidate>, k: nat)
    requires (forall c | c in candidates :: c.start <= c.end <= |text|) && k < |candidates|
    ensures Observed(rules, text, candidates)[k].id == rules.observationId(candidates[k].kind, candidates[k].value)
  {
    hide Context;
  }

  /** Stable identifiers never collide inside one document. */
  lemma ObservationIdsDistinct(rules: Rules, mapped: MappedText, text: string, i: nat, j: nat)
    requires MappedFrom(mapped, text)
    requires Stable(rules) && i < j < |CandidatesIn(rules, mapped)|
    ensures forall c | c in CandidatesIn(rules, mapped) :: c.start <= c.end <= |text|
    ensures var observed := Observed(rules, text, CandidatesIn(rules, mapped)); observed[i].id != observed[j].id
  {
    CandidatesInside(rules, mapped, text);
    CandidatesApart(rules, mapped, i, j);
    var candidates := CandidatesIn(rules, mapped);
    IdsDiffer(rules, candidates[i], candidates[j]);
    hide MappedFrom, CandidatesIn, Observed, Stable, Apart;
    ObservedId(rules, text, candidates, i);
    ObservedId(rules, text, candidates, j);
  }
}
