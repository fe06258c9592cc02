/** The cursor loop of `_refang` over an arbitrary token table: rewrites a text block by block
    and records, for every character produced, the source block it came from.  What holds for
    every table is proved here; Refang supplies the table of the repository. */
module Rewriting {

  /** The rewritten text with one source block [starts[k], ends[k]) per character. */
  datatype MappedText = MappedText(text: string, starts: seq<nat>, ends: seq<nat>)

  datatype Token = NoToken | Token(length: nat, replacement: string)

  datatype Block = Block(start: nat, end: nat, text: string)

  type Matcher = (string, nat) -> Token

  /** A match is non-empty, stays inside the text, never grows it, and never replaces a text by itself. */
  predicate Fits(t: Token, s: string, i: nat) {
    t.Token? ==>
      && 0 < |t.replacement| <= t.length && i + t.length <= |s|
      && t.replacement != s[i..i + t.length]
  }

  ghost predicate Table(token: Matcher) {
    forall s, i :: Fits(token(s, i), s, i)
  }

  // --- the rewrite as a list of blocks ---

  ghost function Blocks(token: Matcher, s: string, i: nat): (bs: seq<Block>)
    requires Table(token) && i <= |s|
    decreases |s| - i
  {
    if i == |s| then []
    else
      assert Fits(token(s, i), s, i);
      match token(s, i)
      case NoToken => [Block(i, i + 1, [s[i]])] + Blocks(token, s, i + 1)
      case Token(n, r) => [Block(i, i + n, r)] + Blocks(token, s, i + n)
  }

  function Text(bs: seq<Block>): string {
    if bs == [] then [] else bs[0].text + Text(bs[1..])
  }

  function Repeat(v: nat, n: nat): seq<nat> {
    seq(n, _ => v)
  }

  function Starts(bs: seq<Block>): seq<nat> {
    if bs == [] then [] else Repeat(bs[0].start, |bs[0].text|) + Starts(bs[1..])
  }

  function Ends(bs: seq<Block>): seq<nat> {
    if bs == [] then [] else Repeat(bs[0].end, |bs[0].text|) + Ends(bs[1..])
  }

  function Flatten(bs: seq<Block>): MappedText {
    MappedText(Text(bs), Starts(bs), Ends(bs))
  }

  /** What the rewrite means, independently of the loop that computes it. */
  ghost function Rewritten(token: Matcher, value: string): MappedText
    requires Table(token)
  {
    Flatten(Blocks(token, value, 0))
  }

  lemma FlattenCons(b: Block, bs: seq<Block>)
    ensures Text([b] + bs) == b.text + Text(bs)
    ensures Starts([b] + bs) == Repeat(b.start, |b.text|) + Starts(bs)
    ensures Ends([b] + bs) == Repeat(b.end, |b.text|) + Ends(bs)
  {
    assert ([b] + bs)[1..] == bs;
  }

  /** One turn of the cursor loop. */
  lemma BlocksStep(token: Matcher, s: string, i: nat) returns (b: Block)
    requires Table(token) && i < |s|
    ensures match token(s, i)
      case NoToken => b == Block(i, i + 1, [s[i]])
      case Token(n, r) => b == Block(i, i + n, r)
    ensures Fits(token(s, i), s, i)
    ensures b.start == i < b.end <= |s| && 0 < |b.text| <= b.end - i
    ensures var m, tail := Flatten(Blocks(token, s, i)), Flatten(Blocks(token, s, b.end));
      && m.text == b.text + tail.text
      && m.starts == Repeat(i, |b.text|) + tail.starts
      && m.ends == Repeat(b.end, |b.text|) + tail.ends
  {
    assert Fits(token(s, i), s, i);
    b := match token(s, i)
      case NoToken => Block(i, i + 1, [s[i]])
      case Token(n, r) => Block(i, i + n, r);
    assert Blocks(token, s, i) == [b] + Blocks(token, s, b.end);
    hide Table, Blocks, Text, Starts, Ends;
    FlattenCons(b, Blocks(token, s, b.end));
  }

  /** The loop has produced `m` from the first `i` characters; the blocks from `i` on are missing. */
  ghost predicate Progress(token: Matcher, s: string, i: nat, m: MappedText)
    requires Table(token) && i <= |s|
  {
    var tail, whole := Flatten(Blocks(token, s, i)), Rewritten(token, s);
    m.text + tail.text == whole.text && m.starts + tail.starts == whole.starts && m.ends + tail.ends == whole.ends
  }

  lemma ProgressStarts(token: Matcher, s: string)
    requires Table(token)
    ensures Progress(token, s, 0, MappedText([], [], []))
  {
  }

  lemma ProgressStep(token: Matcher, s: string, i: nat, m: MappedText)
    requires Table(token) && i < |s| && Progress(token, s, i, m)
    ensures match token(s, i)
      case NoToken => Progress(token, s, i + 1, MappedText(m.text + [s[i]], m.starts + [i], m.ends + [i + 1]))
      case Token(n, r) =>
        && i + n <= |s|
        && Progress(token, s, i + n, MappedText(m.text + r, m.starts + Repeat(i, |r|), m.ends + Repeat(i + n, |r|)))
  {
    hide Table, Fits, Blocks, Text, Starts, Ends;
    var b := BlocksStep(token, s, i);
    assert Repeat(i, 1) == [i] && Repeat(i + 1, 1) == [i + 1];
  }

  lemma ProgressEnds(token: Matcher, s: string, m: MappedText)
    requires Table(token) && Progress(token, s, |s|, m)
    ensures m == Rewritten(token, s)
  {
    assert Blocks(token, s, |s|) == [];
    assert m.text + [] == m.text && m.starts + [] == m.starts && m.ends + [] == m.ends;
  }

  // --- the maps tile the source ---

  ghost predicate SameBlock(m: MappedText, j: nat, k: nat)
    requires j < |m.starts| && k < |m.starts| && |m.ends| == |m.starts|
  {
    m.starts[j] == m.starts[k] && m.ends[j] == m.ends[k]
  }

  ghost predicate Tiles(m: MappedText, from: nat, to: nat) {
    && |m.starts| == |m.ends| == |m.text|
    && (forall k | 0 <= k < |m.text| :: from <= m.starts[k] < m.ends[k] <= to)
    && (forall k | 0 < k < |m.text| :: SameBlock(m, k - 1, k) || m.starts[k] == m.ends[k - 1])
    && (from < to ==> |m.text| > 0 && m.starts[0] == from && m.ends[|m.text| - 1] == to)
    && (from == to ==> m.text == [])
  }

  lemma {:induction false} BlocksTile(token: Matcher, s: string, i: nat)
    requires Table(token) && i <= |s|
    ensures Tiles(Flatten(Blocks(token, s, i)), i, |s|)
    decreases |s| - i
  {
    if i < |s| {
      var b := BlocksStep(token, s, i);
      BlocksTile(token, s, b.end);
      TilesCons(b, Flatten(Blocks(token, s, b.end)), Flatten(Blocks(token, s, i)), |s|);
    }
  }

  lemma TilesCons(b: Block, tail: MappedText, m: MappedText, to: nat)
    requires b.start < b.end <= to && 0 < |b.text| && Tiles(tail, b.end, to)
    requires m.text == b.text + tail.text
    requires m.starts == Repeat(b.start, |b.text|) + tail.starts && m.ends == Repeat(b.end, |b.text|) + tail.ends
    ensures Tiles(m, b.start, to)
  {
    var w := |b.text|;
    forall k | 0 < k < |m.text| ensures SameBlock(m, k - 1, k) || m.starts[k] == m.ends[k - 1] {
      if k > w {
        assert SameBlock(tail, k - w - 1, k - w) || tail.starts[k - w] == tail.ends[k - w - 1];
      }
    }
  }

  /** Two positions of the rewritten text share a block, or their blocks are disjoint and in order. */
  lemma {:induction false} BlocksOrdered(m: MappedText, from: nat, to: nat, j: nat, k: nat)
    requires Tiles(m, from, to) && j <= k < |m.text|
    ensures SameBlock(m, j, k) || m.ends[j] <= m.starts[k]
    decreases k - j
  {
    if j < k {
      BlocksOrdered(m, from, to, j, k - 1);
      assert SameBlock(m, k - 1, k) || m.starts[k] == m.ends[k - 1];
    }
  }

  // --- what each produced character stands for ---

  /** Character `k` is the source character of a one-character block that starts no token, or
      one character of the replacement of the token that its block holds, whole in the text. */
  ghost predicate Explained(token: Matcher, s: string, m: MappedText, k: nat)
    requires |m.starts| == |m.ends| == |m.text| && k < |m.text|
  {
    match token(s, m.starts[k])
    case NoToken => m.ends[k] == m.starts[k] + 1 && m.starts[k] < |s| && m.text[k] == s[m.starts[k]]
    case Token(n, r) => m.ends[k] == m.starts[k] + n && exists j: nat :: WholeToken(m, j, k, r)
  }

  ghost predicate WholeToken(m: MappedText, j: nat, k: nat, r: string)
    requires |m.starts| == |m.ends| == |m.text| && k < |m.text|
  {
    && j <= k < j + |r| <= |m.text|
    && m.text[j..j + |r|] == r
    && forall h | j <= h < j + |r| :: SameBlock(m, h, k)
  }

  lemma {:induction false} BlocksExplained(token: Matcher, s: string, i: nat, k: nat)
    requires Table(token) && i <= |s| && k < |Text(Blocks(token, s, i))|
    ensures |Starts(Blocks(token, s, i))| == |Ends(Blocks(token, s, i))| == |Text(Blocks(token, s, i))|
    ensures Explained(token, s, Flatten(Blocks(token, s, i)), k)
    decreases |s| - i
  {
    BlocksTile(token, s, i);
    if i < |s| {
      hide Table, Fits, Blocks, Text, Starts, Ends, Explained;
      var b := BlocksStep(token, s, i);
      var m, tail := Flatten(Blocks(token, s, i)), Flatten(Blocks(token, s, b.end));
      BlocksTile(token, s, b.end);
      if k < |b.text| {
        ExplainedHead(token, s, b, m, k);
      } else {
        BlocksExplained(token, s, b.end, k - |b.text|);
        ExplainedShifts(token, s, b, tail, m, k);
      }
    }
  }

  lemma ExplainedHead(token: Matcher, s: string, b: Block, m: MappedText, k: nat)
    requires |m.starts| == |m.ends| == |m.text| && k < |b.text| <= |m.text| && b.start < |s|
    requires match token(s, b.start)
      case NoToken => b == Block(b.start, b.start + 1, [s[b.start]])
      case Token(n, r) => b == Block(b.start, b.start + n, r)
    requires b.text == m.text[..|b.text|]
    requires forall j | 0 <= j < |b.text| :: m.starts[j] == b.start && m.ends[j] == b.end
    ensures Explained(token, s, m, k)
  {
    if token(s, b.start).Token? {
      assert m.text[0..|b.text|] == b.text;
      assert WholeToken(m, 0, k, b.text);
    }
  }

  lemma ExplainedShifts(token: Matcher, s: string, b: Block, tail: MappedText, m: MappedText, k: nat)
    requires |tail.starts| == |tail.ends| == |tail.text| && |m.starts| == |m.ends| == |m.text|
    requires m.text == b.text + tail.text
    requires m.starts == Repeat(b.start, |b.text|) + tail.starts && m.ends == Repeat(b.end, |b.text|) + tail.ends
    requires |b.text| <= k < |m.text| && Explained(token, s, tail, k - |b.text|)
    ensures Explained(token, s, m, k)
  {
    var w := |b.text|;
    match token(s, m.starts[k])
    case NoToken =>
    case Token(_, r) =>
      var j: nat :| WholeToken(tail, j, k - w, r);
      assert m.text[j + w..j + w + |r|] == tail.text[j..j + |r|];
      forall h | j + w <= h < j + w + |r| ensures SameBlock(m, h, k) {
        assert SameBlock(tail, h - w, k - w);
      }
      assert WholeToken(m, j + w, k, r);
  }

  // --- when a rewrite leaves a text alone ---

  lemma {:induction false} TextShrinks(token: Matcher, s: string, i: nat)
    requires Table(token) && i <= |s|
    ensures |Text(Blocks(token, s, i))| <= |s| - i
    decreases |s| - i
  {
    if i < |s| {
      var b := BlocksStep(token, s, i);
      TextShrinks(token, s, b.end);
    }
  }

  /** A replacement that is not the text it replaces, and no longer, changes the text. */
  lemma ReplacementShows(s: string, i: nat, end: nat, r: string, tail: string)
    requires i <= end <= |s| && |r| <= end - i && r != s[i..end] && |tail| <= |s| - end
    ensures r + tail != s[i..]
  {
    assert (r + tail)[..|r|] == r && s[i..][..end - i] == s[i..end];
  }

  lemma {:induction false} UnchangedFrom(token: Matcher, s: string, i: nat)
    requires Table(token) && i <= |s|
    ensures Text(Blocks(token, s, i)) == s[i..] <==> forall j | i <= j < |s| :: token(s, j) == NoToken
    decreases |s| - i
  {
    hide Table, Starts, Ends;
    if i < |s| {
      hide Blocks;
      var b := BlocksStep(token, s, i);
      TextShrinks(token, s, b.end);
      var text, tail := Text(Blocks(token, s, i)), Text(Blocks(token, s, b.end));
      hide Text;
      if token(s, i).Token? {
        ReplacementShows(s, i, b.end, b.text, tail);
      } else {
        UnchangedFrom(token, s, b.end);
        assert s[i..] == [s[i]] + s[i + 1..];
        assert text[1..] == tail;
      }
    }
  }

  /** A text is a fixed point of the rewrite exactly when no token starts anywhere in it. */
  lemma RewriteFixpoint(token: Matcher, value: string)
    requires Table(token)
    ensures Rewritten(token, value).text == value <==> forall i | 0 <= i < |value| :: token(value, i) == NoToken
  {
    UnchangedFrom(token, value, 0);
    assert value[0..] == value;
  }

  lemma SingleToken(token: Matcher, s: string, i: nat, n: nat, r: string)
    requires Table(token) && i < |s| && token(s, i) == Token(n, r)
    requires forall j | 0 <= j < |s| && !(i <= j < i + n) :: token(s, j) == NoToken
    ensures i + n <= |s| && Rewritten(token, s).text == s[..i] + r + s[i + n..]
  {
    var b := BlocksStep(token, s, i);
    UnchangedFrom(token, s, i + n);
    UnchangedUpTo(token, s, i, 0);
  }

  lemma {:induction false} UnchangedUpTo(token: Matcher, s: string, i: nat, k: nat)
    requires Table(token) && k <= i <= |s|
    requires forall j | k <= j < i :: token(s, j) == NoToken
    ensures Text(Blocks(token, s, k)) == s[k..i] + Text(Blocks(token, s, i))
    decreases i - k
  {
    hide Table, Fits, Blocks, Text, Starts, Ends;
    if k < i {
      var b := BlocksStep(token, s, k);
      UnchangedUpTo(token, s, i, k + 1);
      assert s[k..i] == [s[k]] + s[k + 1..i];
    }
  }
}
