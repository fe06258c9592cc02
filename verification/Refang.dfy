/** `_refang` of extraction/pipeline.py: rewrites safe-display tokens and records, for every
    character produced, the source block it came from. */
module Refang {

  import opened Rewriting

  const PATTERN_COUNT := 7

  // --- the pattern table ---

  predicate LiteralAt(s: string, i: nat, literal: string) {
    i + |literal| <= |s| && s[i..i + |literal|] == literal
  }

  predicate Bracketed(s: string, i: nat, inner: string) {
    LiteralAt(s, i, "[" + inner + "]") || LiteralAt(s, i, "(" + inner + ")") || LiteralAt(s, i, "{" + inner + "}")
  }

  /** Case-insensitive `hxxp`. */
  predicate HxxpAt(s: string, i: nat) {
    && i + 4 <= |s|
    && s[i] in "hH" && s[i + 1] in "xX" && s[i + 2] in "xX" && s[i + 3] in "pP"
  }

  /** Case-insensitive `s`; Unicode case folding also admits the long s. */
  predicate IsLetterS(c: char) {
    c == 's' || c == 'S' || c == '\U{017F}'
  }

  predicate SchemeFollows(s: string, i: nat) {
    LiteralAt(s, i, "://") || Bracketed(s, i, ":") || Bracketed(s, i, "://")
  }

  /** Length matched by pattern `p` at position `i`, 0 when it does not match. */
  function MatchLength(p: nat, s: string, i: nat): (n: nat)
    ensures n > 0 ==> i + n <= |s|
  {
    if p == 0 then if HxxpAt(s, i) && i + 4 < |s| && IsLetterS(s[i + 4]) && SchemeFollows(s, i + 5) then 5 else 0
    else if p == 1 then if HxxpAt(s, i) && SchemeFollows(s, i + 4) then 4 else 0
    else if p == 2 then if Bracketed(s, i, "://") then 5 else 0
    else if p == 3 then if Bracketed(s, i, ":") then 3 else 0
    else if p == 4 then if Bracketed(s, i, ".") || LiteralAt(s, i, "<.>") then 3 else 0
    else if p == 5 then if Bracketed(s, i, "@") then 3 else 0
    else if p == 6 then if Bracketed(s, i, "-") then 3 else 0
    else 0
  }

  function Replacement(p: nat): string {
    if p == 0 then "https" else if p == 1 then "http" else if p == 2 then "://" else if p == 3 then ":"
    else if p == 4 then "." else if p == 5 then "@" else "-"
  }

  /** The first pattern, from `p` on, that matches. */
  function FirstMatch(s: string, i: nat, p: nat): (t: Token)
    requires p <= PATTERN_COUNT
    ensures t.Token? ==> exists q :: p <= q < PATTERN_COUNT && MatchLength(q, s, i) == t.length > 0
                                  && t.replacement == Replacement(q)
    ensures t.NoToken? ==> forall q :: p <= q < PATTERN_COUNT ==> MatchLength(q, s, i) == 0
    decreases PATTERN_COUNT - p
  {
    if p == PATTERN_COUNT then NoToken
    else if MatchLength(p, s, i) > 0 then Token(MatchLength(p, s, i), Replacement(p))
    else FirstMatch(s, i, p + 1)
  }

  function TokenAt(s: string, i: nat): Token {
    FirstMatch(s, i, 0)
  }

  /** The table is unambiguous: its order does not matter. */
  lemma PatternsDisjoint(p: nat, q: nat, s: string, i: nat)
    requires MatchLength(p, s, i) > 0 && MatchLength(q, s, i) > 0
    ensures p == q
  {
    MatchHead(p, s, i);
    MatchHead(q, s, i);
  }

  /** What the first characters of a match tell about its pattern. */
  lemma MatchHead(p: nat, s: string, i: nat)
    requires MatchLength(p, s, i) > 0
    ensures p < PATTERN_COUNT && i + 2 < |s|
    ensures p <= 1 <==> s[i] in "hH"
    ensures p <= 1 ==> i + 4 < |s| && (p == 0 <==> IsLetterS(s[i + 4]))
    ensures p > 1 ==> s[i + 1] == (if p <= 3 then ':' else if p == 4 then '.' else if p == 5 then '@' else '-')
    ensures p == 2 ==> s[i + 2] == '/'
    ensures p == 3 ==> s[i + 2] != '/'
  {
    if p == 1 {
      SchemeHead(s, i + 4);
    } else if p == 2 {
      assert s[i] == s[i..i + 5][0] && s[i + 1] == s[i..i + 5][1] && s[i + 2] == s[i..i + 5][2];
    } else if p > 2 {
      assert s[i] == s[i..i + 3][0] && s[i + 1] == s[i..i + 3][1] && s[i + 2] == s[i..i + 3][2];
    }
  }

  lemma SchemeHead(s: string, i: nat)
    requires SchemeFollows(s, i)
    ensures s[i] in ":[({"
  {
    if LiteralAt(s, i, "://") {
      assert s[i] == s[i..i + 3][0];
    } else if Bracketed(s, i, ":") {
      assert s[i] == s[i..i + 3][0];
    } else {
      assert s[i] == s[i..i + 5][0];
    }
  }

  lemma TokenFits(s: string, i: nat)
    ensures Fits(TokenAt(s, i), s, i)
  {
    var t := TokenAt(s, i);
    if t.Token? {
      var q: nat :| q < PATTERN_COUNT && MatchLength(q, s, i) == t.length > 0 && t.replacement == Replacement(q);
      assert |s[i..i + t.length]| == t.length;
      if q <= 1 {
        assert s[i..i + t.length][1] == s[i + 1];
        assert s[i..i + t.length][1] != t.replacement[1];
      }
    }
  }

  lemma RefangTable()
    ensures Table(TokenAt)
  {
    forall s, i ensures Fits(TokenAt(s, i), s, i) {
      TokenFits(s, i);
    }
  }

  // --- the loop, and what it computes ---

  /** What `_refang` returns, independently of its loop. */
  ghost function Refanged(value: string): MappedText {
    RefangTable();
    Rewritten(TokenAt, value)
  }

  method RefangText(value: string) returns (mapped: MappedText)
    ensures mapped == Refanged(value)
  {
    hide Table, Fits, Progress, FirstMatch;
    RefangTable();
    var pieces: string := [];
    var starts: seq<nat>, ends: seq<nat> := [], [];
    var cursor: nat := 0;
    ProgressStarts(TokenAt, value);
    while cursor < |value|
      invariant cursor <= |value| && Progress(TokenAt, value, cursor, MappedText(pieces, starts, ends))
    {
      ProgressStep(TokenAt, value, cursor, MappedText(pieces, starts, ends));
      TokenFits(value, cursor);
      var found := MatchAt(value, cursor);
      match found {
        case NoToken =>
          pieces, starts, ends := pieces + [value[cursor]], starts + [cursor], ends + [cursor + 1];
          cursor := cursor + 1;
        case Token(n, r) =>
          pieces, starts, ends := pieces + r, starts + Repeat(cursor, |r|), ends + Repeat(cursor + n, |r|);
          cursor := cursor + n;
      }
    }
    mapped := MappedText(pieces, starts, ends);
    ProgressEnds(TokenAt, value, mapped);
  }

  /** The inner loop: try the patterns in order and stop at the first that matches. */
  method MatchAt(value: string, cursor: nat) returns (found: Token)
    ensures found == TokenAt(value, cursor)
  {
    found := NoToken;
    var p: nat := 0;
    while p < PATTERN_COUNT && found.NoToken?
      invariant p <= PATTERN_COUNT
      invariant found.NoToken? ==> FirstMatch(value, cursor, p) == TokenAt(value, cursor)
      invariant found.Token? ==> found == TokenAt(value, cursor)
      decreases PATTERN_COUNT - p, found.NoToken?
    {
      var n := MatchLength(p, value, cursor);
      if n > 0 {
        found := Token(n, Replacement(p));
      } else {
        p := p + 1;
      }
    }
  }

  // --- the maps tile the source ---

  lemma RefangTiles(value: string)
    ensures Tiles(Refanged(value), 0, |value|)
  {
    RefangTable();
    BlocksTile(TokenAt, value, 0);
  }

  function OriginalSpan(m: MappedText, start: int, end: int): (span: (nat, nat))
    requires |m.starts| == |m.ends| == |m.text|
    requires 0 <= start < end <= |m.text|
  {
    (m.starts[start], m.ends[end - 1])
  }

  /** Every span of the rewritten text maps to a non-empty slice of the source. */
  lemma SpanIsSourceSlice(value: string, start: int, end: int)
    requires 0 <= start < end <= |Refanged(value).text|
    ensures |Refanged(value).starts| == |Refanged(value).ends| == |Refanged(value).text|
    ensures var (a, b) := OriginalSpan(Refanged(value), start, end); a < b <= |value|
  {
    RefangTiles(value);
    var m := Refanged(value);
    hide Refanged;
    BlocksOrdered(m, 0, |value|, start, end - 1);
    assert m.starts[start] < m.ends[start] && m.starts[end - 1] < m.ends[end - 1] <= |value|;
  }

  /** Span order is preserved, and nested spans map to nested slices. */
  lemma SpanOrderPreserved(value: string, start: int, end: int, start': int, end': int)
    requires 0 <= start < end <= |Refanged(value).text| && 0 <= start' < end' <= |Refanged(value).text|
    requires start <= start' && end <= end'
    ensures |Refanged(value).starts| == |Refanged(value).ends| == |Refanged(value).text|
    ensures OriginalSpan(Refanged(value), start, end).0 <= OriginalSpan(Refanged(value), start', end').0
    ensures OriginalSpan(Refanged(value), start, end).1 <= OriginalSpan(Refanged(value), start', end').1
  {
    RefangTiles(value);
    BlocksOrdered(Refanged(value), 0, |value|, start, start');
    BlocksOrdered(Refanged(value), 0, |value|, end - 1, end' - 1);
  }

  /** Disjoint spans map to disjoint evidence exactly when no block straddles the gap between them. */
  lemma DisjointSpansDisjointEvidence(value: string, start: int, end: int, start': int, end': int)
    requires 0 <= start < end <= start' < end' <= |Refanged(value).text|
    ensures |Refanged(value).starts| == |Refanged(value).ends| == |Refanged(value).text|
    ensures OriginalSpan(Refanged(value), start, end).1 <= OriginalSpan(Refanged(value), start', end').0
       <==> !SameBlock(Refanged(value), end - 1, start')
  {
    RefangTiles(value);
    BlocksOrdered(Refanged(value), 0, |value|, end - 1, start');
  }

  /** Nothing is invented: every character of the rewritten text is explained by its source block. */
  lemma RefangExplained(value: string, k: nat)
    requires k < |Refanged(value).text|
    ensures |Refanged(value).starts| == |Refanged(value).ends| == |Refanged(value).text|
    ensures Explained(TokenAt, value, Refanged(value), k)
  {
    RefangTable();
    BlocksExplained(TokenAt, value, 0, k);
  }

  /** `refang_text` leaves a text alone exactly when no token starts anywhere in it. */
  lemma RefangFixpoint(value: string)
    ensures Refanged(value).text == value <==> forall i | 0 <= i < |value| :: TokenAt(value, i) == NoToken
  {
    RefangTable();
    RewriteFixpoint(TokenAt, value);
  }

  lemma TokenIs(s: string, i: nat, p: nat)
    requires p < PATTERN_COUNT && MatchLength(p, s, i) > 0
    ensures TokenAt(s, i) == Token(MatchLength(p, s, i), Replacement(p))
  {
    var t := TokenAt(s, i);
    if t.Token? {
      var q: nat :| q < PATTERN_COUNT && MatchLength(q, s, i) == t.length > 0 && t.replacement == Replacement(q);
      PatternsDisjoint(p, q, s, i);
    }
  }

  lemma NoMatchWithout(p: nat, s: string, i: nat)
    requires i < |s| && s[i] !in "hH"
    requires i + 2 < |s| ==> s[i + 1] !in ".:@-"
    ensures MatchLength(p, s, i) == 0
  {
    if MatchLength(p, s, i) > 0 {
      MatchHead(p, s, i);
    }
  }

  lemma NoTokenWithout(s: string, i: nat)
    requires i < |s| && s[i] !in "hH"
    requires i + 2 < |s| ==> s[i + 1] !in ".:@-"
    ensures TokenAt(s, i) == NoToken
  {
    forall p: nat ensures MatchLength(p, s, i) == 0 {
      NoMatchWithout(p, s, i);
    }
  }

  lemma BracketedDot(s: string, i: nat)
    requires i + 3 <= |s| && s[i] == '[' && s[i + 1] == '.' && s[i + 2] == ']'
    requires forall j | 0 <= j < |s| && !(i <= j < i + 3) :: TokenAt(s, j) == NoToken
    ensures Refanged(s).text == s[..i] + "." + s[i + 3..]
  {
    RefangTable();
    assert LiteralAt(s, i, "[.]");
    TokenIs(s, i, 4);
    SingleToken(TokenAt, s, i, 3, ".");
  }

  lemma TwoPasses(s: string, u: string)
    requires |s| == 5 && s[0] == s[1] == '[' && s[2] == '.' && s[3] == s[4] == ']'
    requires |u| == 3 && u[0] == '[' && u[1] == '.' && u[2] == ']'
    ensures Refanged(s).text == u && Refanged(u).text == "."
  {
    hide Refanged, TokenAt, Table;
    NoTokenWithout(s, 0);
    NoTokenWithout(s, 4);
    BracketedDot(s, 1);
    assert s[..1] + "." + s[4..] == u;
    BracketedDot(u, 0);
    assert u[..0] + "." + u[3..] == ".";
  }

  /** Refanging is not idempotent: a doubly bracketed dot needs two passes. */
  lemma RefangNotIdempotent()
    ensures exists s :: Refanged(Refanged(s).text).text != Refanged(s).text
  {
    var s, u := "[[.]]", "[.]";
    TwoPasses(s, u);
  }

  // --- which texts a second pass changes ---

  predicate Pair(open: char, close: char) {
    (open == '[' && close == ']') || (open == '(' && close == ')') || (open == '{' && close == '}')
  }

  /** A token other than a scheme that stands directly inside a further pair of brackets, or a colon
      token inside one together with the two slashes behind it: what is left is a token again. */
  predicate Reopens(s: string, i: nat)
    requires i < |s|
  {
    match TokenAt(s, i + 1)
    case NoToken => false
    case Token(n, r) =>
      var e := i + 1 + n;
      && r != "https" && r != "http"
      && ((e < |s| && (Pair(s[i], s[e]) || (r == "." && s[i] == '<' && s[e] == '>')))
          || (r == ":" && e + 2 < |s| && s[e] == s[e + 1] == '/' && Pair(s[i], s[e + 2])))
  }

  ghost predicate HasToken(t: string) {
    exists k: nat | k < |t| :: Headed(t[k..])
  }

  /** A bracketed token at the head of a text, character by character. */
  predicate Enclosed(t: string) {
    || (|t| > 2 && t[1] in ":.@-" && Pair(t[0], t[2]))
    || (|t| > 2 && t[0] == '<' && t[1] == '.' && t[2] == '>')
    || (|t| > 4 && t[1] == ':' && t[2] == t[3] == '/' && Pair(t[0], t[4]))
  }

  /** What such a token is replaced by. */
  function Inner(t: string): string
    requires |t| > 2
  {
    if t[2] == '/' then "://" else [t[1]]
  }

  lemma BracketedOne(s: string, i: nat, x: char)
    ensures Bracketed(s, i, [x]) <==> i + 2 < |s| && s[i + 1] == x && Pair(s[i], s[i + 2])
  {
    if i + 2 < |s| {
      assert s[i..i + 3] == [s[i], s[i + 1], s[i + 2]];
    }
    assert "[" + [x] + "]" == ['[', x, ']'] && "(" + [x] + ")" == ['(', x, ')'] && "{" + [x] + "}" == ['{', x, '}'];
  }

  lemma BracketedScheme(s: string, i: nat)
    ensures Bracketed(s, i, "://")
       <==> i + 4 < |s| && s[i + 1] == ':' && s[i + 2] == s[i + 3] == '/' && Pair(s[i], s[i + 4])
  {
    if i + 4 < |s| {
      assert s[i..i + 5] == [s[i], s[i + 1], s[i + 2], s[i + 3], s[i + 4]];
    }
    assert "[" + "://" + "]" == "[://]" && "(" + "://" + ")" == "(://)" && "{" + "://" + "}" == "{://}";
  }

  lemma AngleDot(s: string, i: nat)
    ensures LiteralAt(s, i, "<.>") <==> i + 2 < |s| && s[i] == '<' && s[i + 1] == '.' && s[i + 2] == '>'
  {
    if i + 2 < |s| {
      assert s[i..i + 3] == [s[i], s[i + 1], s[i + 2]];
    }
  }

  lemma BracketTokens(s: string, i: nat)
    requires i < |s| && s[i] !in "hH"
    ensures TokenAt(s, i).Token? <==> Enclosed(s[i..])
    ensures TokenAt(s, i).Token? ==>
      && TokenAt(s, i).replacement == Inner(s[i..]) && TokenAt(s, i).length == 2 + |Inner(s[i..])|
  {
    BracketedOne(s, i, ':');
    BracketedOne(s, i, '.');
    BracketedOne(s, i, '@');
    BracketedOne(s, i, '-');
    BracketedScheme(s, i);
    AngleDot(s, i);
    var t := s[i..];
    if Enclosed(t) {
      var p := if t[2] == '/' then 2 else if t[1] == ':' then 3
               else if t[1] == '.' then 4 else if t[1] == '@' then 5 else 6;
      TokenIs(s, i, p);
    } else {
      forall p: nat ensures MatchLength(p, s, i) == 0 {}
    }
  }

  /** A scheme separator, plain or bracketed, at the head of a text. */
  predicate Ahead(t: string) {
    (|t| > 2 && t[0] == ':' && t[1] == t[2] == '/') || (Enclosed(t) && t[1] == ':')
  }

  predicate HxxpHead(t: string) {
    |t| > 3 && t[0] in "hH" && t[1] in "xX" && t[2] in "xX" && t[3] in "pP"
  }

  /** A token at the head of a text. */
  predicate Headed(t: string) {
    && t != []
    && if t[0] in "hH" then HxxpHead(t) && (Ahead(t[4..]) || (|t| > 4 && IsLetterS(t[4]) && Ahead(t[5..])))
       else Enclosed(t)
  }

  lemma SchemeAhead(s: string, i: nat)
    requires i <= |s|
    ensures SchemeFollows(s, i) <==> Ahead(s[i..])
  {
    BracketedOne(s, i, ':');
    BracketedScheme(s, i);
    if i + 2 < |s| {
      assert s[i..i + 3] == [s[i], s[i + 1], s[i + 2]];
    }
  }

  lemma SchemeTokens(s: string, i: nat)
    requires i < |s| && s[i] in "hH"
    ensures TokenAt(s, i).Token? <==> Headed(s[i..])
    ensures TokenAt(s, i).Token? ==>
      var n := TokenAt(s, i).length;
      && (n == 4 || (n == 5 && i + 4 < |s| && IsLetterS(s[i + 4])))
      && TokenAt(s, i).replacement == (if n == 5 then "https" else "http") && HxxpHead(s[i..])
  {
    var t := s[i..];
    if i + 4 <= |s| {
      SchemeAhead(s, i + 4);
      assert t[4..] == s[i + 4..];
    }
    if i + 5 <= |s| {
      SchemeAhead(s, i + 5);
      assert t[5..] == s[i + 5..];
    }
    hide SchemeFollows, Ahead;
    if MatchLength(0, s, i) > 0 {
      TokenIs(s, i, 0);
    } else if MatchLength(1, s, i) > 0 {
      TokenIs(s, i, 1);
    } else {
      NoBracketFrom(s, i);
    }
  }

  lemma NoBracketFrom(s: string, i: nat)
    requires i < |s| && s[i] in "hH" && MatchLength(0, s, i) == 0 && MatchLength(1, s, i) == 0
    ensures TokenAt(s, i).NoToken?
  {
    forall p: nat ensures MatchLength(p, s, i) == 0 {
      if MatchLength(p, s, i) > 0 {
        MatchHead(p, s, i);
      }
    }
  }

  lemma TokenHeaded(s: string, i: nat)
    requires i < |s|
    ensures TokenAt(s, i).Token? <==> Headed(s[i..])
  {
    if s[i] in "hH" {
      SchemeTokens(s, i);
    } else {
      BracketTokens(s, i);
    }
  }

  /** A token starts with one of these characters, and has none of them inside. */
  predicate Opens(c: char) {
    c in "hH[({<"
  }

  lemma TokenOpens(s: string, i: nat)
    requires i < |s| && TokenAt(s, i).Token?
    ensures Opens(s[i]) && 1 < TokenAt(s, i).length <= |s| - i
    ensures forall k | i < k < |s| && k < i + TokenAt(s, i).length :: !Opens(s[k])
  {
    hide TokenAt, FirstMatch, Headed, HxxpAt, Enclosed;
    if s[i] in "hH" {
      SchemeTokens(s, i);
      var t := s[i..];
      assert t[1] == s[i + 1] && t[2] == s[i + 2] && t[3] == s[i + 3];
    } else {
      BracketTokens(s, i);
      EnclosedOpens(s[i..]);
      forall k | i < k < |s| && k < i + TokenAt(s, i).length ensures !Opens(s[k]) {
        assert s[k] == s[i..][k - i];
      }
    }
  }

  lemma EnclosedOpens(t: string)
    requires Enclosed(t)
    ensures Opens(t[0]) && 2 + |Inner(t)| <= |t|
    ensures forall k | 0 < k < 2 + |Inner(t)| :: !Opens(t[k])
  {
  }

  lemma NothingReopensInside(s: string, i: nat, j: nat)
    requires i <= j < |s| && TokenAt(s, i).Token? && j < i + TokenAt(s, i).length
    ensures !Reopens(s, j)
  {
    hide TokenAt, FirstMatch;
    TokenOpens(s, i);
    NoTokenAfterHead(s, i);
    if j > i {
      assert !Opens(s[j]);
    }
  }

  lemma NoTokenAfterHead(s: string, i: nat)
    requires i < |s| && TokenAt(s, i).Token?
    ensures TokenAt(s, i + 1).NoToken?
  {
    hide TokenAt, FirstMatch;
    TokenOpens(s, i);
    if TokenAt(s, i + 1).Token? {
      TokenOpens(s, i + 1);
    }
  }

  // --- what is left of the source from a position on ---

  ghost function Tail(s: string, i: nat): string
    requires i <= |s|
  {
    RefangTable();
    Text(Blocks(TokenAt, s, i))
  }

  lemma TailStep(s: string, i: nat)
    requires i < |s|
    ensures match TokenAt(s, i)
      case NoToken => Tail(s, i) == [s[i]] + Tail(s, i + 1)
      case Token(n, r) => i + n <= |s| && Tail(s, i) == r + Tail(s, i + n)
  {
    RefangTable();
    hide TokenAt, FirstMatch, Table, Blocks, Text;
    var b := BlocksStep(TokenAt, s, i);
  }

  /** The replacements. */
  predicate Produced(r: string) {
    r == "https" || r == "http" || r == "://" || r == ":" || r == "." || r == "@" || r == "-"
  }

  lemma TokenProduces(s: string, i: nat)
    requires i < |s| && TokenAt(s, i).Token?
    ensures Produced(TokenAt(s, i).replacement)
  {
    hide TokenAt, FirstMatch, Headed;
    if s[i] in "hH" {
      SchemeTokens(s, i);
    } else {
      BracketTokens(s, i);
    }
  }

  lemma TailEnds(s: string)
    ensures Tail(s, |s|) == []
  {
    RefangTable();
  }

  /** A character that no replacement starts with stands for itself. */
  lemma Copied(s: string, i: nat)
    requires i <= |s| && Tail(s, i) != [] && Tail(s, i)[0] !in "h:.@-"
    ensures i < |s| && TokenAt(s, i).NoToken? && s[i] == Tail(s, i)[0] && Tail(s, i)[1..] == Tail(s, i + 1)
  {
    hide TokenAt, FirstMatch;
    TailEnds(s);
    hide Tail;
    TailStep(s, i);
    if TokenAt(s, i).Token? {
      TokenProduces(s, i);
    }
  }

  /** A character that no token starts with is copied. */
  lemma Echoed(s: string, i: nat)
    requires i < |s| && !Opens(s[i])
    ensures Tail(s, i) == [s[i]] + Tail(s, i + 1)
  {
    hide Tail, TokenAt, FirstMatch;
    TailStep(s, i);
    if TokenAt(s, i).Token? {
      TokenOpens(s, i);
    }
  }

  // --- tokens in a text and in its suffixes ---

  lemma HasTokenCons(c: char, t: string)
    ensures HasToken([c] + t) <==> Headed([c] + t) || HasToken(t)
  {
    var u := [c] + t;
    assert u[0..] == u;
    forall k: nat | k < |t| ensures u[k + 1..] == t[k..] {}
    hide Headed;
    if HasToken(t) {
      var k: nat :| k < |t| && Headed(t[k..]);
      assert Headed(u[k + 1..]);
    }
    if k: nat :| k < |u| && Headed(u[k..]) {
      if k > 0 {
        assert u[k..] == t[k - 1..];
      }
    }
  }

  /** No token starts inside what a replacement produces. */
  predicate Sealed(r: string) {
    forall k: nat | k < |r| :: SealedAt(r, k)
  }

  predicate SealedAt(r: string, k: nat)
    requires k < |r|
  {
    r[k] !in "H[({<" && (r[k] == 'h' ==> k + 1 < |r| && r[k + 1] == 't')
  }

  lemma {:induction false} HasTokenBehind(r: string, t: string)
    requires Sealed(r)
    ensures HasToken(r + t) <==> HasToken(t)
  {
    if r == "" {
      assert r + t == t;
    } else {
      var rest := r[1..];
      assert SealedAt(r, 0);
      forall k: nat | k < |rest| ensures SealedAt(rest, k) {
        assert SealedAt(r, k + 1);
      }
      HasTokenBehind(rest, t);
      assert [r[0]] + (rest + t) == r + t;
      HasTokenCons(r[0], rest + t);
      assert (r + t)[0] == r[0] && (|r| > 1 ==> (r + t)[1] == r[1]);
      hide HasToken;
    }
  }

  // --- a token that the rewriting leaves ---

  /** What an opening bracket before a token leads to. */
  lemma ReopensShows(s: string, i: nat)
    requires i < |s| && TokenAt(s, i).NoToken? && Reopens(s, i)
    ensures Headed(Tail(s, i))
  {
    hide TokenAt, FirstMatch, Tail;
    var n, r := TokenAt(s, i + 1).length, TokenAt(s, i + 1).replacement;
    var e := i + 1 + n;
    TailStep(s, i);
    TailStep(s, i + 1);
    TokenProduces(s, i + 1);
    Echoed(s, e);
    if r == ":" && e + 2 < |s| && s[e] == '/' {
      Echoed(s, e + 1);
      Echoed(s, e + 2);
    }
  }

  /** Behind a copied opening bracket a token can only come from one in the source. */
  lemma BracketLeft(s: string, i: nat)
    requires i < |s| && s[i] !in "hH" && TokenAt(s, i).NoToken? && Enclosed(Tail(s, i))
    ensures Reopens(s, i)
  {
    hide TokenAt, FirstMatch, Tail;
    TailEnds(s);
    TailStep(s, i);
    BracketTokens(s, i);
    TailStep(s, i + 1);
    if TokenAt(s, i + 1).Token? {
      TokenProduces(s, i + 1);
      var e := i + 1 + TokenAt(s, i + 1).length;
      Copied(s, e);
      if s[e] == '/' {
        Copied(s, e + 1);
        Copied(s, e + 2);
      }
    } else {
      Copied(s, i + 2);
      if s[i + 2] == '/' {
        Copied(s, i + 3);
        Copied(s, i + 4);
      }
    }
  }

  lemma SchemeLeft(s: string, i: nat) returns (m: nat)
    requires i < |s| && s[i] in "hH" && TokenAt(s, i).NoToken? && Headed(Tail(s, i))
    ensures i < m <= |s| && HasToken(Tail(s, m))
  {
    hide TokenAt, FirstMatch, Tail, Ahead;
    TailStep(s, i);
    Copied(s, i + 1);
    Copied(s, i + 2);
    Copied(s, i + 3);
    var u := Tail(s, i);
    assert u[4..] == Tail(s, i + 4) && HxxpHead(s[i..]);
    SchemeTokens(s, i);
    if Ahead(Tail(s, i + 4)) {
      m := i + 4;
    } else {
      Copied(s, i + 4);
      assert u[5..] == Tail(s, i + 5);
      m := i + 5;
    }
    assert s[i..][m - i..] == s[m..];
    SchemeCopied(s, m);
  }

  /** A scheme separator ahead of what is left is one in the source, or a token is left. */
  lemma SchemeCopied(s: string, m: nat)
    requires m <= |s| && Ahead(Tail(s, m))
    ensures Ahead(s[m..]) || HasToken(Tail(s, m))
  {
    hide TokenAt, FirstMatch, Tail;
    var t := Tail(s, m);
    assert t[0..] == t;
    if Enclosed(t) && t[0] !in "hH" {
      assert Headed(t[0..]);
    } else {
      TailEnds(s);
      TailStep(s, m);
      if TokenAt(s, m).Token? {
        TokenProduces(s, m);
        if s[m] in "hH" {
          SchemeTokens(s, m);
        } else {
          BracketTokens(s, m);
        }
      } else {
        Copied(s, m + 1);
        Copied(s, m + 2);
      }
    }
  }

  ghost predicate SomeReopens(s: string, i: nat) {
    exists j: nat | i <= j < |s| :: Reopens(s, j)
  }

  lemma {:induction false} TailTokens(s: string, i: nat)
    requires i <= |s|
    ensures HasToken(Tail(s, i)) <==> SomeReopens(s, i)
    decreases |s| - i
  {
    if i == |s| {
      TailEnds(s);
    } else if TokenAt(s, i).Token? {
      TailTokenBehind(s, i);
    } else {
      TailTokenAhead(s, i);
    }
  }

  lemma TailTokenBehind(s: string, i: nat)
    requires i < |s| && TokenAt(s, i).Token?
    ensures HasToken(Tail(s, i)) <==> SomeReopens(s, i)
    decreases |s| - i, 0
  {
    hide TokenAt, FirstMatch, Tail, HasToken, Reopens;
    TailStep(s, i);
    TokenOpens(s, i);
    TokenProduces(s, i);
    var n, r := TokenAt(s, i).length, TokenAt(s, i).replacement;
    HasTokenBehind(r, Tail(s, i + n));
    TailTokens(s, i + n);
    if j: nat :| i <= j < |s| && Reopens(s, j) {
      if j < i + n {
        NothingReopensInside(s, i, j);
      }
    }
  }

  lemma TailTokenAhead(s: string, i: nat)
    requires i < |s| && TokenAt(s, i).NoToken?
    ensures HasToken(Tail(s, i)) <==> SomeReopens(s, i)
    decreases |s| - i, 0
  {
    hide TokenAt, FirstMatch, Tail, HasToken, Reopens, Headed, Enclosed;
    TailStep(s, i);
    HasTokenCons(s[i], Tail(s, i + 1));
    TailTokens(s, i + 1);
    if Reopens(s, i) {
      ReopensShows(s, i);
    }
    if Headed(Tail(s, i)) {
      if s[i] in "hH" {
        var m := SchemeLeft(s, i);
        TailTokens(s, m);
      } else {
        HeadedBracket(Tail(s, i));
        BracketLeft(s, i);
      }
    }
  }

  lemma HeadedBracket(t: string)
    requires Headed(t) && t[0] !in "hH"
    ensures Enclosed(t)
  {
  }

  /** A second pass changes the text exactly when somewhere in the source a token other than a scheme
      stands directly inside a further pair of brackets, the slashes behind a colon included. */
  lemma RefangAgainExactly(value: string)
    ensures var once := Refanged(value).text;
      Refanged(once).text != once <==> exists i: nat | i < |value| :: Reopens(value, i)
  {
    var once := Refanged(value).text;
    RefangFixpoint(once);
    TailTokens(value, 0);
    assert once == Tail(value, 0);
    hide Refanged, Tail, TokenAt, FirstMatch, Headed, Reopens;
    forall k: nat | k < |once| ensures TokenAt(once, k).Token? <==> Headed(once[k..]) {
      TokenHeaded(once, k);
    }
  }
}
