/** The SPL and KQL printer of detections/generators.py: field check, value escaping and
    `render_query`, judged by a parser that reads the printed text back. */
module Query {
  import opened Wrappers

  // --- the printer ---

  datatype Modifier = Equals | Contains | StartsWith | EndsWith

  datatype Match = Match(field: string, value: string, modifier: Modifier)

  datatype Backend = Spl | Kql

  datatype QuerySpec = QuerySpec(
    backend: Backend,
    index: Option<string>,
    fields: seq<string>,
    conditions: seq<Match>,
    evidenceIds: seq<nat>)

  datatype Printed = Text(text: string) | MissingEvidence | UnsafeField(field: string)

  predicate NameStart(c: char) {
    'A' <= c <= 'Z' || 'a' <= c <= 'z' || c == '_'
  }

  predicate NameChar(c: char) {
    NameStart(c) || '0' <= c <= '9' || c == '.' || c == '-'
  }

  /** A full match of the field pattern. */
  predicate SafeField(field: string) {
    field != [] && NameStart(field[0]) && forall c | c in field :: NameChar(c)
  }

  /** `text.replace(c, by)`. */
  function Replace(text: string, c: char, put: string): string {
    if text == [] then [] else (if text[0] == c then put else [text[0]]) + Replace(text[1..], c, put)
  }

  /** Three replacements, one after the other. */
  function SafeValue(value: string): string {
    Replace(Replace(Replace(value, '\\', "\\\\"), '"', "\\\""), '\n', " ")
  }

  function Condition(m: Match): string {
    m.field + "=\"" + SafeValue(m.value) + "\""
  }

  function Join(parts: seq<string>, separator: string): string {
    if parts == [] then [] else if |parts| == 1 then parts[0] else parts[0] + separator + Join(parts[1..], separator)
  }

  function Conditions(matches: seq<Match>): seq<string> {
    seq(|matches|, k requires 0 <= k < |matches| => Condition(matches[k]))
  }

  /** An absent index and an empty one are both left out. */
  function Prefix(backend: Backend, index: Option<string>): string {
    var named := index.Some? && index.value != [];
    match backend
    case Spl => if named then "index=" + index.value + " " else []
    case Kql => (if named then index.value else "TelemetryTable") + " | where "
  }

  function Separator(backend: Backend): string {
    match backend case Spl => " AND " case Kql => " and "
  }

  function Middle(backend: Backend): string {
    match backend case Spl => " | table " case Kql => " | project "
  }

  function RenderQuery(spec: QuerySpec): Printed {
    if spec.evidenceIds == [] then MissingEvidence
    else Text(Prefix(spec.backend, spec.index) + Join(Conditions(spec.conditions), Separator(spec.backend))
              + Middle(spec.backend) + Join(spec.fields, ", "))
  }

  function FieldsOf(matches: seq<Match>): seq<string> {
    seq(|matches|, k requires 0 <= k < |matches| => matches[k].field)
  }

  function FirstUnsafe(fields: seq<string>): Option<string> {
    if fields == [] then None else if !SafeField(fields[0]) then Some(fields[0]) else FirstUnsafe(fields[1..])
  }

  /** `_query_from_spec` followed by `render_query`, as a rule is converted. */
  function Convert(matches: seq<Match>, backend: Backend, evidenceIds: seq<nat>): Printed {
    match FirstUnsafe(FieldsOf(matches))
    case Some(field) => UnsafeField(field)
    case None => RenderQuery(QuerySpec(backend, None, FieldsOf(matches), matches, evidenceIds))
  }

  // --- the printed form ---

  /** An ASCII letter, or an underscore. */
  ghost predicate Letter(c: char) {
    65 <= c as int <= 90 || 97 <= c as int <= 122 || c == '_'
  }

  ghost predicate Inner(c: char) {
    Letter(c) || 48 <= c as int <= 57 || c == '.' || c == '-'
  }

  /** A field starts with a letter or an underscore and goes on with those, digits, dots and hyphens. */
  lemma SafeFieldExactly(field: string)
    ensures SafeField(field)
       <==> field != [] && Letter(field[0]) && forall i | 0 <= i < |field| :: Inner(field[i])
  {
    assert forall c :: (NameStart(c) <==> Letter(c)) && (NameChar(c) <==> Inner(c));
    hide NameStart, NameChar, Letter, Inner;
    assert forall i | 0 <= i < |field| :: field[i] in field;
  }

  lemma JoinTwo(a: string, b: string, separator: string)
    ensures Join([a, b], separator) == a + separator + b
  {
    assert [a, b][1..] == [b];
  }

  /** Two conditions as each backend prints them, under a named index, an empty one and none. */
  lemma PrintedForm(m: Match, n: Match, index: string, id: nat)
    requires index != []
    ensures var fields, matches := [m.field, n.field], [m, n];
      var a, b := m.field + "=\"" + SafeValue(m.value) + "\"", n.field + "=\"" + SafeValue(n.value) + "\"";
      var spl, kql, columns := a + " AND " + b, a + " and " + b, m.field + ", " + n.field;
      && RenderQuery(QuerySpec(Spl, Some(index), fields, matches, [id]))
         == Text("index=" + index + " " + spl + " | table " + columns)
      && RenderQuery(QuerySpec(Kql, Some(index), fields, matches, [id]))
         == Text(index + " | where " + kql + " | project " + columns)
      && (forall none | none == None || none == Some([]) ::
            && RenderQuery(QuerySpec(Spl, none, fields, matches, [id])) == Text([] + spl + " | table " + columns)
            && RenderQuery(QuerySpec(Kql, none, fields, matches, [id]))
               == Text("TelemetryTable" + " | where " + kql + " | project " + columns))
  {
    assert Conditions([m, n]) == [Condition(m), Condition(n)];
    JoinTwo(Condition(m), Condition(n), " AND ");
    JoinTwo(Condition(m), Condition(n), " and ");
    JoinTwo(m.field, n.field, ", ");
    hide Join, SafeValue, Conditions;
  }

  // --- the reader ---

  function EscapeChar(c: char): string {
    if c == '\\' then "\\\\" else if c == '"' then "\\\"" else if c == '\n' then " " else [c]
  }

  function Escape(value: string): string {
    if value == [] then [] else EscapeChar(value[0]) + Escape(value[1..])
  }

  /** The value with newlines as spaces: all that a printed literal keeps. */
  function Plain(value: string): string {
    seq(|value|, k requires 0 <= k < |value| => if value[k] == '\n' then ' ' else value[k])
  }

  /** Reads up to the first unescaped quote: the value read and what follows the quote. */
  function ReadLiteral(text: string): Option<(string, string)> {
    if text == [] then None
    else if text[0] == '"' then Some(("", text[1..]))
    else if text[0] != '\\' then
      match ReadLiteral(text[1..]) case None => None case Some(r) => Some(([text[0]] + r.0, r.1))
    else if |text| == 1 then None
    else match ReadLiteral(text[2..]) case None => None case Some(r) => Some(([text[1]] + r.0, r.1))
  }

  /** The longest run of name characters and what follows it. */
  function ReadName(text: string): (string, string) {
    if text == [] || !NameChar(text[0]) then ("", text)
    else var r := ReadName(text[1..]); ([text[0]] + r.0, r.1)
  }

  /** The text after `prefix`. */
  function After(prefix: string, text: string): Option<string> {
    if prefix <= text then Some(text[|prefix|..]) else None
  }

  datatype Shown = Shown(field: string, value: string)

  /** One comparison and what follows it. */
  function ReadCondition(text: string): Option<(Shown, string)> {
    var name := ReadName(text);
    match After("=\"", name.1)
    case None => None
    case Some(rest) =>
      match ReadLiteral(rest) case None => None case Some(r) => Some((Shown(name.0, r.0), r.1))
  }

  lemma {:induction false} ReadNameShrinks(text: string)
    ensures |ReadName(text).0| + |ReadName(text).1| == |text|
  {
    if text != [] && NameChar(text[0]) {
      ReadNameShrinks(text[1..]);
    }
  }

  lemma {:induction false} ReadLiteralShrinks(text: string)
    ensures ReadLiteral(text).Some? ==> |ReadLiteral(text).value.1| < |text|
  {
    if text != [] && text[0] != '"' {
      ReadLiteralShrinks(text[1..]);
      if |text| > 1 {
        ReadLiteralShrinks(text[2..]);
      }
    }
  }

  lemma ReadConditionShrinks(text: string)
    ensures ReadCondition(text).Some? ==> |ReadCondition(text).value.1| < |text|
  {
    ReadNameShrinks(text);
    var rest := After("=\"", ReadName(text).1);
    if rest.Some? {
      ReadLiteralShrinks(rest.value);
    }
  }

  /** Comparisons as long as a separator follows, then what is left. */
  function ReadConditions(text: string, separator: string): Option<(seq<Shown>, string)>
    decreases |text|
  {
    match ReadCondition(text)
    case None => None
    case Some(first) =>
      ReadConditionShrinks(text);
      match After(separator, first.1)
      case None => Some(([first.0], first.1))
      case Some(rest) =>
        match ReadConditions(rest, separator) case None => None case Some(r) => Some(([first.0] + r.0, r.1))
  }

  /** Names separated by a comma and a space, to the end of the text. */
  function ReadFields(text: string): Option<seq<string>>
    decreases |text|
  {
    var name := ReadName(text);
    ReadNameShrinks(text);
    if name.1 == [] then Some([name.0])
    else
      match After(", ", name.1)
      case None => None
      case Some(rest) => match ReadFields(rest) case None => None case Some(r) => Some([name.0] + r)
  }

  /** Comparisons, then the columns to the end of the text. */
  function ReadBody(backend: Backend, body: string): Option<(seq<Shown>, seq<string>)> {
    match ReadConditions(body, Separator(backend))
    case None => None
    case Some(r) =>
      match After(Middle(backend), r.1)
      case None => None
      case Some(tail) => match ReadFields(tail) case None => None case Some(fields) => Some((r.0, fields))
  }

  /** Reads a printed query whose backend and index are known. */
  function ReadQuery(backend: Backend, index: Option<string>, text: string): Option<(seq<Shown>, seq<string>)> {
    match After(Prefix(backend, index), text)
    case None => None
    case Some(body) => ReadBody(backend, body)
  }

  /** What a list of comparisons shows: modifiers are never printed. */
  function ShownOf(matches: seq<Match>): seq<Shown> {
    seq(|matches|, k requires 0 <= k < |matches| => Shown(matches[k].field, Plain(matches[k].value)))
  }

  // --- escaping ---

  lemma ReplaceCons(x: char, s: string, c: char, put: string)
    ensures Replace([x] + s, c, put) == (if x == c then put else [x]) + Replace(s, c, put)
  {
    assert ([x] + s)[1..] == s;
  }

  lemma {:induction false} ReplaceConcat(a: string, b: string, c: char, put: string)
    ensures Replace(a + b, c, put) == Replace(a, c, put) + Replace(b, c, put)
  {
    if a == [] {
      assert a + b == b;
    } else {
      hide Replace;
      var x, rest := a[0], a[1..];
      assert a == [x] + rest && a + b == [x] + (rest + b);
      ReplaceConcat(rest, b, c, put);
      ReplaceCons(x, rest, c, put);
      ReplaceCons(x, rest + b, c, put);
      var head, r, q := if x == c then put else [x], Replace(rest, c, put), Replace(b, c, put);
      assert head + (r + q) == (head + r) + q;
    }
  }

  lemma ReplaceOne(x: char, c: char, put: string)
    ensures Replace([x], c, put) == if x == c then put else [x]
  {
    assert [x][1..] == [];
  }

  lemma ReplaceShort(text: string, c: char, put: string)
    requires |text| == 2
    ensures Replace(text, c, put)
         == (if text[0] == c then put else [text[0]]) + (if text[1] == c then put else [text[1]])
  {
    assert text[1..] == [text[1]];
    ReplaceOne(text[1], c, put);
  }

  lemma SafeChar(c: char)
    ensures SafeValue([c]) == EscapeChar(c)
  {
    ReplaceOne(c, '\\', "\\\\");
    if c == '\\' {
      ReplaceShort("\\\\", '"', "\\\"");
      ReplaceShort("\\\\", '\n', " ");
    } else {
      ReplaceOne(c, '"', "\\\"");
      if c == '"' {
        ReplaceShort("\\\"", '\n', " ");
      } else {
        ReplaceOne(c, '\n', " ");
      }
    }
  }

  lemma SafeConcat(a: string, b: string)
    ensures SafeValue(a + b) == SafeValue(a) + SafeValue(b)
  {
    var a1, b1 := Replace(a, '\\', "\\\\"), Replace(b, '\\', "\\\\");
    var a2, b2 := Replace(a1, '"', "\\\""), Replace(b1, '"', "\\\"");
    ReplaceConcat(a, b, '\\', "\\\\");
    ReplaceConcat(a1, b1, '"', "\\\"");
    ReplaceConcat(a2, b2, '\n', " ");
  }

  /** The three passes over the whole value equal one pass that escapes each character once. */
  lemma {:induction false} OneEscapePerCharacter(value: string)
    ensures SafeValue(value) == Escape(value)
  {
    if value != [] {
      assert value == [value[0]] + value[1..];
      SafeConcat([value[0]], value[1..]);
      SafeChar(value[0]);
      OneEscapePerCharacter(value[1..]);
    }
  }

  /** Reading an escaped character gives the character back, a newline as a space. */
  lemma ReadEscapedChar(c: char, tail: string)
    requires ReadLiteral(tail).Some?
    ensures var r := ReadLiteral(tail).value;
      ReadLiteral(EscapeChar(c) + tail) == Some(([if c == '\n' then ' ' else c] + r.0, r.1))
  {
    var text := EscapeChar(c) + tail;
    assert text[|EscapeChar(c)|..] == tail;
  }

  lemma ReadQuote(rest: string)
    ensures ReadLiteral("\"" + rest) == Some(([], rest))
  {
    assert ("\"" + rest)[1..] == rest;
  }

  lemma PlainCons(value: string)
    ensures value == [] ==> Plain(value) == []
    ensures value != [] ==> Plain(value) == [if value[0] == '\n' then ' ' else value[0]] + Plain(value[1..])
  {
  }

  lemma {:induction false} ReadEscaped(value: string, rest: string)
    ensures ReadLiteral(Escape(value) + ("\"" + rest)) == Some((Plain(value), rest))
  {
    hide ReadLiteral, EscapeChar, Plain;
    PlainCons(value);
    if value == [] {
      assert Escape(value) + ("\"" + rest) == "\"" + rest;
      ReadQuote(rest);
    } else {
      var c, more, tail := EscapeChar(value[0]), Escape(value[1..]), "\"" + rest;
      ReadEscaped(value[1..], rest);
      ReadEscapedChar(value[0], more + tail);
      assert (c + more) + tail == c + (more + tail);
    }
  }

  /** A printed literal ends at its own closing quote, whatever the value and whatever follows, and
      gives the value back with newlines as spaces. */
  lemma LiteralEndsAtItsQuote(value: string, rest: string)
    ensures ReadLiteral(SafeValue(value) + "\"" + rest) == Some((Plain(value), rest))
  {
    OneEscapePerCharacter(value);
    ReadEscaped(value, rest);
    assert SafeValue(value) + "\"" + rest == SafeValue(value) + ("\"" + rest);
  }

  lemma {:induction false} EscapeOfPlain(value: string)
    ensures Escape(Plain(value)) == Escape(value)
  {
    if value != [] {
      assert Plain(value)[1..] == Plain(value[1..]);
      EscapeOfPlain(value[1..]);
    }
  }

  // --- reading back what was printed ---

  lemma {:induction false} ReadNameOf(name: string, rest: string)
    requires forall c | c in name :: NameChar(c)
    requires rest == [] || !NameChar(rest[0])
    ensures ReadName(name + rest) == (name, rest)
  {
    if name == [] {
      assert name + rest == rest;
    } else {
      assert (name + rest)[1..] == name[1..] + rest && (name + rest)[0] == name[0] && name[0] in name;
      assert [name[0]] + name[1..] == name;
      ReadNameOf(name[1..], rest);
    }
  }

  lemma ReadConditionOf(m: Match, rest: string)
    requires SafeField(m.field)
    ensures ReadCondition(Condition(m) + rest) == Some((Shown(m.field, Plain(m.value)), rest))
  {
    var literal := SafeValue(m.value) + "\"" + rest;
    assert Condition(m) + rest == m.field + ("=\"" + literal);
    ReadNameOf(m.field, "=\"" + literal);
    assert ("=\"" + literal)[2..] == literal;
    LiteralEndsAtItsQuote(m.value, rest);
  }

  ghost predicate Safe(matches: seq<Match>) {
    forall m | m in matches :: SafeField(m.field)
  }

  lemma {:induction false} ReadConditionsOf(matches: seq<Match>, separator: string, rest: string)
    requires matches != [] && Safe(matches) && !(separator <= rest)
    ensures ReadConditions(Join(Conditions(matches), separator) + rest, separator) == Some((ShownOf(matches), rest))
    decreases |matches|
  {
    hide ReadCondition, Condition, Plain;
    var text := Join(Conditions(matches), separator) + rest;
    if |matches| == 1 {
      ReadConditionOf(matches[0], rest);
      assert ShownOf(matches) == [Shown(matches[0].field, Plain(matches[0].value))];
    } else {
      var tail := Join(Conditions(matches[1..]), separator) + rest;
      assert Conditions(matches)[1..] == Conditions(matches[1..]);
      assert text == Condition(matches[0]) + (separator + tail);
      ReadConditionOf(matches[0], separator + tail);
      assert (separator + tail)[|separator|..] == tail;
      ReadConditionsOf(matches[1..], separator, rest);
      assert ShownOf(matches) == [Shown(matches[0].field, Plain(matches[0].value))] + ShownOf(matches[1..]);
    }
  }

  lemma {:induction false} ReadFieldsOf(fields: seq<string>)
    requires fields != [] && forall f | f in fields :: SafeField(f)
    ensures ReadFields(Join(fields, ", ")) == Some(fields)
    decreases |fields|
  {
    assert fields[0] in fields && SafeField(fields[0]);
    if |fields| == 1 {
      ReadNameOf(fields[0], []);
      assert Join(fields, ", ") == fields[0] + [] && fields == [fields[0]];
    } else {
      var tail := Join(fields[1..], ", ");
      assert Join(fields, ", ") == fields[0] + (", " + tail);
      ReadNameOf(fields[0], ", " + tail);
      assert After(", ", ", " + tail) == Some(tail) by {
        assert (", " + tail)[2..] == tail;
      }
      ReadFieldsOf(fields[1..]);
      assert [fields[0]] + fields[1..] == fields;
    }
  }

  /** A query contract demands one field and one condition; the generator demands safe names. */
  ghost predicate WellFormed(spec: QuerySpec) {
    && spec.fields != [] && spec.conditions != [] && Safe(spec.conditions)
    && forall f | f in spec.fields :: SafeField(f)
  }

  /** What is printed behind the index. */
  function BodyOf(backend: Backend, matches: seq<Match>, fields: seq<string>): string {
    Join(Conditions(matches), Separator(backend)) + (Middle(backend) + Join(fields, ", "))
  }

  lemma TextSplits(spec: QuerySpec)
    requires spec.evidenceIds != []
    ensures RenderQuery(spec)
         == Text(Prefix(spec.backend, spec.index) + BodyOf(spec.backend, spec.conditions, spec.fields))
  {
    hide Join, Conditions, Prefix;
    var prefix, join := Prefix(spec.backend, spec.index), Join(Conditions(spec.conditions), Separator(spec.backend));
    var middle, columns := Middle(spec.backend), Join(spec.fields, ", ");
    assert prefix + join + middle + columns == prefix + (join + (middle + columns));
  }

  lemma ReadBodyOf(backend: Backend, matches: seq<Match>, fields: seq<string>)
    requires matches != [] && Safe(matches) && fields != [] && forall f | f in fields :: SafeField(f)
    ensures ReadBody(backend, BodyOf(backend, matches, fields)) == Some((ShownOf(matches), fields))
  {
    hide ReadConditions, ReadFields, Join, Conditions, ShownOf;
    var middle, columns := Middle(backend), Join(fields, ", ");
    assert (middle + columns)[1] == '|' && Separator(backend)[1] != '|';
    ReadConditionsOf(matches, Separator(backend), middle + columns);
    assert (middle + columns)[|middle|..] == columns;
    ReadFieldsOf(fields);
  }

  /** Both backends, every index: reading the printed query gives back every field and value in
      order, newlines as spaces, and the listed columns. */
  lemma ReadBack(spec: QuerySpec)
    requires WellFormed(spec) && spec.evidenceIds != []
    ensures RenderQuery(spec).Text?
    ensures ReadQuery(spec.backend, spec.index, RenderQuery(spec).text)
            == Some((ShownOf(spec.conditions), spec.fields))
  {
    TextSplits(spec);
    ReadBodyOf(spec.backend, spec.conditions, spec.fields);
    hide ReadBody, ShownOf, RenderQuery, BodyOf;
    var prefix := Prefix(spec.backend, spec.index);
    assert RenderQuery(spec).text[|prefix|..] == BodyOf(spec.backend, spec.conditions, spec.fields);
  }

  lemma {:induction false} ConditionsFollowShown(a: seq<Match>, b: seq<Match>)
    requires ShownOf(a) == ShownOf(b)
    ensures Conditions(a) == Conditions(b)
  {
    assert |a| == |ShownOf(a)| == |ShownOf(b)| == |b|;
    forall k | 0 <= k < |a| ensures Condition(a[k]) == Condition(b[k]) {
      assert ShownOf(a)[k] == ShownOf(b)[k];
      OneEscapePerCharacter(a[k].value);
      OneEscapePerCharacter(b[k].value);
      EscapeOfPlain(a[k].value);
      EscapeOfPlain(b[k].value);
    }
  }

  /** Two queries of one backend and index print the same text exactly when they list the same
      columns and compare the same fields with values equal up to newline for space. Nothing else is
      lost except the modifier. */
  lemma SameTextExactly(a: QuerySpec, b: QuerySpec)
    requires WellFormed(a) && WellFormed(b) && a.backend == b.backend && a.index == b.index
    requires a.evidenceIds != [] && b.evidenceIds != []
    ensures RenderQuery(a) == RenderQuery(b) <==> ShownOf(a.conditions) == ShownOf(b.conditions) && a.fields == b.fields
  {
    ReadBack(a);
    ReadBack(b);
    if ShownOf(a.conditions) == ShownOf(b.conditions) {
      ConditionsFollowShown(a.conditions, b.conditions);
    }
  }

  lemma {:induction false} FirstUnsafeFacts(fields: seq<string>)
    ensures FirstUnsafe(fields).None? <==> forall f | f in fields :: SafeField(f)
    ensures FirstUnsafe(fields).Some? ==> FirstUnsafe(fields).value in fields && !SafeField(FirstUnsafe(fields).value)
  {
    if fields != [] {
      FirstUnsafeFacts(fields[1..]);
      assert forall f | f in fields :: f == fields[0] || f in fields[1..];
    }
  }

  /** A converted rule is printed exactly when every field is safe and evidence is given, and then
      it reads back. */
  lemma ConvertedRuleReadsBack(matches: seq<Match>, backend: Backend, evidenceIds: seq<nat>)
    requires matches != []
    ensures Convert(matches, backend, evidenceIds).Text? <==> Safe(matches) && evidenceIds != []
    ensures var printed := Convert(matches, backend, evidenceIds);
            printed.Text? ==> ReadQuery(backend, None, printed.text) == Some((ShownOf(matches), FieldsOf(matches)))
    ensures var printed := Convert(matches, backend, evidenceIds);
            printed.UnsafeField? ==> printed.field in FieldsOf(matches) && !SafeField(printed.field)
  {
    var fields := FieldsOf(matches);
    FirstUnsafeFacts(fields);
    assert forall m | m in matches :: m.field in fields by {
      forall m | m in matches ensures m.field in fields {
        var k :| 0 <= k < |matches| && matches[k] == m;
        assert fields[k] == m.field;
      }
    }
    if Convert(matches, backend, evidenceIds).Text? {
      ReadBack(QuerySpec(backend, None, fields, matches, evidenceIds));
    }
  }

  // --- where a printed body can be read from ---

  /** What follows the closing quote of a comparison. */
  function Continued(backend: Backend, matches: seq<Match>, fields: seq<string>): string {
    if matches == [] then Middle(backend) + Join(fields, ", ")
    else Separator(backend) + (Condition(matches[0]) + Continued(backend, matches[1..], fields))
  }

  lemma BodyStep(backend: Backend, matches: seq<Match>, fields: seq<string>)
    requires |matches| > 1
    ensures BodyOf(backend, matches, fields)
         == Condition(matches[0]) + (Separator(backend) + BodyOf(backend, matches[1..], fields))
  {
    var parts := Conditions(matches);
    assert parts[0] == Condition(matches[0]) && parts[1..] == Conditions(matches[1..]);
    JoinMore(parts, Separator(backend), Middle(backend) + Join(fields, ", "));
    hide Condition, Conditions, Join;
  }

  lemma {:induction false} BodyContinues(backend: Backend, matches: seq<Match>, fields: seq<string>)
    requires matches != []
    ensures BodyOf(backend, matches, fields) == Condition(matches[0]) + Continued(backend, matches[1..], fields)
    decreases |matches|
  {
    if |matches| == 1 {
      assert Conditions(matches) == [Condition(matches[0])];
    } else {
      BodyContinues(backend, matches[1..], fields);
      BodyStep(backend, matches, fields);
      hide Condition, BodyOf;
    }
  }

  lemma JoinMore(parts: seq<string>, separator: string, tail: string)
    requires |parts| > 1
    ensures Join(parts, separator) + tail == parts[0] + (separator + (Join(parts[1..], separator) + tail))
  {
    var more := Join(parts[1..], separator);
    assert parts[0] + separator + more + tail == parts[0] + (separator + (more + tail));
  }

  predicate Unquoted(text: string) {
    forall c | c in text :: c != '"' && c != '\\'
  }

  lemma {:induction false} ReadUnquoted(text: string, rest: string)
    requires Unquoted(text)
    ensures ReadLiteral(text + "\"" + rest) == Some((text, rest))
  {
    if text == [] {
      assert text + "\"" + rest == "\"" + rest;
      ReadQuote(rest);
    } else {
      assert text[0] in text && (forall c | c in text[1..] :: c in text) && [text[0]] + text[1..] == text;
      ReadUnquoted(text[1..], rest);
      assert (text + "\"" + rest)[1..] == text[1..] + "\"" + rest;
    }
  }

  lemma {:induction false} LiteralNeedsQuote(text: string)
    requires '"' !in text
    ensures ReadLiteral(text) == None
  {
    if text != [] {
      assert text[0] in text && forall c | c in text[1..] :: c in text;
      LiteralNeedsQuote(text[1..]);
      if |text| > 1 {
        assert forall c | c in text[2..] :: c in text;
        LiteralNeedsQuote(text[2..]);
      }
    }
  }

  lemma {:induction false} NameSuffix(text: string)
    ensures forall c | c in ReadName(text).1 :: c in text
    ensures forall c | c in ReadName(text).0 :: NameChar(c)
    ensures text == ReadName(text).0 + ReadName(text).1
  {
    if text != [] && NameChar(text[0]) {
      NameSuffix(text[1..]);
    }
  }

  lemma ConditionNeedsQuote(text: string)
    requires '"' !in text
    ensures ReadCondition(text) == None
  {
    NameSuffix(text);
    var rest := After("=\"", ReadName(text).1);
    if rest.Some? {
      LiteralNeedsQuote(rest.value);
    }
  }

  lemma {:induction false} FieldsHaveNoQuote(text: string)
    requires '"' in text
    ensures ReadFields(text) == None
    decreases |text|
  {
    var name := ReadName(text);
    NameSuffix(text);
    ReadNameShrinks(text);
    assert '"' in name.1;
    if ", " <= name.1 {
      var rest := name.1[2..];
      assert name.1 == ", " + rest;
      FieldsHaveNoQuote(rest);
    }
  }

  // --- a body read from inside a literal ---

  lemma CutFirst(first: string, more: string, d: string) returns (behind: string)
    requires |first| < |d| && d <= first + more
    ensures d == first + behind && behind <= more && (first + more)[|d|..] == more[|behind|..]
    ensures behind[|behind| - 1] == d[|d| - 1]
  {
    behind := d[|first|..];
    assert d[..|first|] == (first + more)[..|first|];
  }

  /** An escaped value can be cut behind a space. */
  lemma {:induction false} CutBehindSpace(value: string, d: string) returns (w: string)
    requires d <= Escape(value) && d != [] && d[|d| - 1] == ' '
    ensures Escape(value) == d + Escape(w)
  {
    var c, more := EscapeChar(value[0]), Escape(value[1..]);
    assert d[|d| - 1] == (c + more)[|d| - 1];
    if |d| <= |c| {
      w := value[1..];
      assert d == [' '] == c;
    } else {
      var rest := CutFirst(c, more, d);
      w := CutBehindSpace(value[1..], rest);
      assert c + (rest + Escape(w)) == (c + rest) + Escape(w);
    }
  }

  /** Inside a literal a name and its opening quote can only be read across the literal's end. */
  lemma {:induction false} NameInside(value: string, rest: string)
    ensures var r := After("=\"", ReadName(Escape(value) + "\"" + rest).1); r == None || r == Some(rest)
  {
    var text := Escape(value) + "\"" + rest;
    if value == [] {
      assert text[0] == '"';
    } else if NameChar(value[0]) {
      NameInside(value[1..], rest);
      assert text[1..] == Escape(value[1..]) + "\"" + rest;
    } else if value[0] == '=' {
      if |value| > 1 {
        assert text[1] == Escape(value[1..])[0] == EscapeChar(value[1])[0];
      } else {
        assert text[2..] == rest;
      }
    }
  }

  /** What follows a closing quote, up to the next opening one. */
  function Between(backend: Backend, m: Match): string {
    Separator(backend) + m.field + "="
  }

  /** The rest of a printed body from a position inside a literal. */
  function Inside(backend: Backend, value: string, matches: seq<Match>, fields: seq<string>): string {
    Escape(value) + "\"" + Continued(backend, matches, fields)
  }

  lemma ContinuedSplits(backend: Backend, matches: seq<Match>, fields: seq<string>)
    requires matches != []
    ensures Continued(backend, matches, fields)
         == Between(backend, matches[0]) + "\"" + Inside(backend, matches[0].value, matches[1..], fields)
  {
    var m := matches[0];
    OneEscapePerCharacter(m.value);
    Regroup(Separator(backend), m.field, Escape(m.value), Continued(backend, matches[1..], fields));
    hide Escape, SafeValue, Separator;
  }

  lemma Regroup(separator: string, field: string, value: string, more: string)
    ensures separator + (field + "=\"" + value + "\"" + more)
         == (separator + field + "=") + "\"" + (value + "\"" + more)
  {
    var head := separator + field;
    assert head + "=" + "\"" == head + "=\"";
    assert separator + (field + "=\"") == head + "=\"";
    assert separator + (field + "=\"" + value + "\"" + more) == separator + (field + "=\"") + (value + "\"" + more);
  }

  lemma BetweenUnquoted(backend: Backend, m: Match)
    requires SafeField(m.field)
    ensures Unquoted(Between(backend, m))
  {
    assert forall c | c in m.field :: NameChar(c);
  }

  /** A literal that starts at a closing quote ends at the next opening one, if there is one. */
  lemma LiteralAcross(backend: Backend, matches: seq<Match>, fields: seq<string>)
    requires Safe(matches) && forall f | f in fields :: SafeField(f)
    ensures ReadLiteral(Continued(backend, matches, fields))
         == if matches == [] then None
            else Some((Between(backend, matches[0]), Inside(backend, matches[0].value, matches[1..], fields)))
  {
    if matches == [] {
      ColumnsUnquoted(fields);
      LiteralNeedsQuote(Continued(backend, matches, fields));
    } else {
      assert matches[0] in matches;
      ContinuedSplits(backend, matches, fields);
      BetweenUnquoted(backend, matches[0]);
      ReadUnquoted(Between(backend, matches[0]), Inside(backend, matches[0].value, matches[1..], fields));
    }
  }

  lemma {:induction false} ColumnsUnquoted(fields: seq<string>)
    requires forall f | f in fields :: SafeField(f)
    ensures '"' !in Join(fields, ", ")
  {
    if fields != [] {
      assert fields[0] in fields && '"' !in fields[0];
      ColumnsUnquoted(fields[1..]);
    }
  }

  lemma ReadConditionInside(backend: Backend, value: string, matches: seq<Match>, fields: seq<string>)
    requires Safe(matches) && forall f | f in fields :: SafeField(f)
    ensures var r := ReadCondition(Inside(backend, value, matches, fields));
      r.Some? ==> matches != [] && r.value.1 == Inside(backend, matches[0].value, matches[1..], fields)
  {
    hide ReadLiteral, Continued, Escape;
    NameInside(value, Continued(backend, matches, fields));
    LiteralAcross(backend, matches, fields);
  }

  lemma PrefixCut(p: string, e: string, rest: string)
    requires p <= e + "\"" + rest
    ensures if |p| <= |e| then p <= e else p[|e|] == '"'
  {
    var text := e + "\"" + rest;
    assert text[|e|] == '"' && text[..|e|] == e;
  }

  /** How a body is read that begins with a comparison. */
  lemma ReadBodyStep(backend: Backend, text: string)
    ensures match ReadCondition(text)
      case None => ReadBody(backend, text) == None
      case Some(first) =>
        match After(Separator(backend), first.1)
        case Some(rest) => ReadBody(backend, rest) == None ==> ReadBody(backend, text) == None
        case None =>
          var tail := After(Middle(backend), first.1);
          tail.None? || ReadFields(tail.value).None? ==> ReadBody(backend, text) == None
  {
    hide ReadCondition, ReadFields;
    ReadConditionShrinks(text);
  }

  /** What follows a space inside a literal is again inside it. */
  lemma CutInside(backend: Backend, value: string, matches: seq<Match>, fields: seq<string>, d: string)
    returns (w: string)
    requires d != [] && d[|d| - 1] == ' ' && d <= Inside(backend, value, matches, fields)
    requires '"' !in d || |d| <= |Escape(value)| + 1
    ensures Inside(backend, value, matches, fields)[|d|..] == Inside(backend, w, matches, fields)
  {
    hide Escape, Continued;
    PrefixCut(d, Escape(value), Continued(backend, matches, fields));
    w := CutBehindSpace(value, d);
  }

  lemma MiddleInside(backend: Backend, value: string, matches: seq<Match>, fields: seq<string>)
    requires Middle(backend) <= Inside(backend, value, matches, fields)
    ensures ReadFields(Inside(backend, value, matches, fields)[|Middle(backend)|..]) == None
  {
    hide Escape, Continued, ReadFields;
    var text, n := Inside(backend, value, matches, fields), |Middle(backend)|;
    PrefixCut(Middle(backend), Escape(value), Continued(backend, matches, fields));
    assert text[|Escape(value)|] == '"' && text[n..][|Escape(value)| - n] == '"';
    FieldsHaveNoQuote(text[n..]);
  }

  lemma SeparatorEnds(backend: Backend)
    ensures var d := Separator(backend); d != [] && d[|d| - 1] == ' ' && '"' !in d
  {
  }

  /** No reading of a body starts inside a literal: from there openings and closings are swapped, and
      the last opening quote is never closed. */
  lemma {:induction false} NothingReadInside(backend: Backend, value: string, matches: seq<Match>, fields: seq<string>)
    requires Safe(matches) && forall f | f in fields :: SafeField(f)
    ensures ReadBody(backend, Inside(backend, value, matches, fields)) == None
    decreases |matches|
  {
    var text := Inside(backend, value, matches, fields);
    ReadBodyStep(backend, text);
    ReadConditionInside(backend, value, matches, fields);
    SeparatorEnds(backend);
    hide ReadBody, ReadCondition, ReadFields, Inside, Middle, Separator;
    if ReadCondition(text).Some? {
      var next, more := matches[0].value, matches[1..];
      if Separator(backend) <= Inside(backend, next, more, fields) {
        var w := CutInside(backend, next, more, fields, Separator(backend));
        NothingReadInside(backend, w, more, fields);
      } else if Middle(backend) <= Inside(backend, next, more, fields) {
        MiddleInside(backend, next, more, fields);
      }
    }
  }

  lemma BodySplits(backend: Backend, matches: seq<Match>, fields: seq<string>)
    requires matches != []
    ensures BodyOf(backend, matches, fields)
         == (matches[0].field + "=\"") + Inside(backend, matches[0].value, matches[1..], fields)
  {
    var m, more := matches[0], Continued(backend, matches[1..], fields);
    BodyContinues(backend, matches, fields);
    OneEscapePerCharacter(m.value);
    hide BodyOf, Continued, Escape, SafeValue;
    Regrouped(m.field + "=\"", Escape(m.value), "\"", more);
  }

  lemma Regrouped(head: string, body: string, quote: string, more: string)
    ensures head + body + quote + more == head + (body + quote + more)
  {
  }

  lemma FirstUnread(backend: Backend, matches: seq<Match>, fields: seq<string>, d: string)
    requires matches != [] && Safe(matches) && forall f | f in fields :: SafeField(f)
    requires d != [] && d[|d| - 1] == ' ' && d <= BodyOf(backend, matches, fields) && |d| <= |Condition(matches[0])|
    ensures ReadBody(backend, BodyOf(backend, matches, fields)[|d|..]) == None
  {
    var m := matches[0];
    var head, more := m.field + "=\"", matches[1..];
    OneEscapePerCharacter(m.value);
    BodySplits(backend, matches, fields);
    assert m in matches;
    HeadSpaceless(m.field);
    hide ReadBody, Continued, SafeValue, Escape, BodyOf, Inside;
    SpaceBehind(head, Inside(backend, m.value, more, fields), d);
    var w := CutInside(backend, m.value, more, fields, d[|head|..]);
    NothingReadInside(backend, w, more, fields);
  }

  lemma HeadSpaceless(field: string)
    requires SafeField(field)
    ensures var head := field + "=\""; forall k | 0 <= k < |head| :: head[k] != ' '
  {
    forall k | 0 <= k < |field| ensures field[k] != ' ' {
      assert NameChar(field[k]);
    }
  }

  lemma SpaceBehind(head: string, more: string, d: string)
    requires forall k | 0 <= k < |head| :: head[k] != ' '
    requires d != [] && d[|d| - 1] == ' ' && d <= head + more
    ensures |d| > |head| && d[|head|..] <= more && (head + more)[|d|..] == more[|d| - |head|..]
  {
    assert d[|d| - 1] == (head + more)[|d| - 1];
  }

  lemma UnquotedUnread(backend: Backend, text: string)
    requires '"' !in text
    ensures ReadBody(backend, text) == None
  {
    ConditionNeedsQuote(text);
    ReadBodyStep(backend, text);
  }

  lemma WordUnread(backend: Backend, rest: string)
    ensures ReadBody(backend, Separator(backend)[1..] + rest) == None
  {
    var word := Separator(backend)[1..4];
    var text := Separator(backend)[1..] + rest;
    assert text == word + (" " + rest);
    ReadNameOf(word, " " + rest);
    ReadBodyStep(backend, text);
  }

  lemma JoinFirst(matches: seq<Match>, separator: string, k: nat)
    requires 0 < k <= |matches|
    ensures Join(Conditions(matches[..k]), separator)
         == Condition(matches[0])
            + if k == 1 then "" else separator + Join(Conditions(matches[1..][..k - 1]), separator)
  {
    var parts := Conditions(matches[..k]);
    assert parts[0] == Condition(matches[0]) && parts[1..] == Conditions(matches[1..][..k - 1]);
    hide Condition, Conditions;
  }

  /** Where the rest of a printed body can itself be read as a body, when it follows a space: only
      behind a separator. */
  lemma {:induction false} RestReads(backend: Backend, matches: seq<Match>, fields: seq<string>, d: string)
    returns (k: nat)
    requires matches != [] && Safe(matches) && forall f | f in fields :: SafeField(f)
    requires d != [] && d[|d| - 1] == ' ' && d <= BodyOf(backend, matches, fields)
    requires ReadBody(backend, BodyOf(backend, matches, fields)[|d|..]).Some?
    ensures 0 < k < |matches| && d == Join(Conditions(matches[..k]), Separator(backend)) + Separator(backend)
    decreases |matches|
  {
    hide ReadBody, Condition, Join, Conditions;
    var first, more := Condition(matches[0]), Continued(backend, matches[1..], fields);
    BodyContinues(backend, matches, fields);
    hide BodyOf;
    if |d| <= |first| {
      FirstUnread(backend, matches, fields, d);
    } else {
      var behind := CutFirst(first, more, d);
      k := BehindReads(backend, matches, fields, behind);
    }
  }

  lemma {:induction false} BehindReads(backend: Backend, matches: seq<Match>, fields: seq<string>, behind: string)
    returns (k: nat)
    requires matches != [] && Safe(matches) && forall f | f in fields :: SafeField(f)
    requires behind != [] && behind[|behind| - 1] == ' ' && behind <= Continued(backend, matches[1..], fields)
    requires ReadBody(backend, Continued(backend, matches[1..], fields)[|behind|..]).Some?
    ensures 0 < k < |matches|
    ensures Condition(matches[0]) + behind == Join(Conditions(matches[..k]), Separator(backend)) + Separator(backend)
    decreases |matches|, 0
  {
    hide ReadBody, Condition, Join, Conditions;
    if |matches| == 1 {
      ColumnsUnquoted(fields);
      UnquotedUnread(backend, Continued(backend, matches[1..], fields)[|behind|..]);
    } else {
      var next := BodyOf(backend, matches[1..], fields);
      BodyContinues(backend, matches[1..], fields);
      hide BodyOf;
      var d := SeparatorRead(backend, next, behind, Continued(backend, matches[1..], fields));
      hide Continued, Separator;
      k := 1;
      if d != [] {
        k := RestReads(backend, matches[1..], fields, d);
        k := k + 1;
      }
      JoinFirst(matches, Separator(backend), k);
      Appended(Condition(matches[0]), Separator(backend), d, k,
               if k == 1 then "" else Join(Conditions(matches[1..][..k - 1]), Separator(backend)));
    }
  }

  /** A space behind which a body can be read is not the first one of a separator. */
  lemma SeparatorRead(backend: Backend, next: string, behind: string, more: string) returns (d: string)
    requires more == Separator(backend) + next
    requires behind != [] && behind[|behind| - 1] == ' ' && behind <= more && ReadBody(backend, more[|behind|..]).Some?
    ensures behind == Separator(backend) + d && d <= next && more[|behind|..] == next[|d|..]
    ensures d != [] ==> d[|d| - 1] == ' '
  {
    hide ReadBody;
    var separator := Separator(backend);
    if |behind| < |separator| {
      assert behind[|behind| - 1] == more[|behind| - 1] == separator[|behind| - 1];
      assert more[1..] == separator[1..] + next;
      WordUnread(backend, next);
    } else {
      d := behind[|separator|..];
      assert behind == behind[..|separator|] + d && behind[..|separator|] == more[..|separator|];
    }
  }

  lemma Appended(first: string, separator: string, d: string, k: nat, join: string)
    requires if k == 1 then d == "" else d == join + separator
    ensures first + (separator + d) == (first + if k == 1 then "" else separator + join) + separator
  {
  }

  // --- which queries of different indexes print alike ---

  /** What the text shows of an index: an absent SPL index is not shown, an absent table has a
      default name. */
  function ShownIndex(backend: Backend, index: Option<string>): Option<string> {
    if index.Some? && index.value != [] then index
    else match backend case Spl => None case Kql => Some("TelemetryTable")
  }

  lemma PrefixTellsIndex(backend: Backend, i: Option<string>, j: Option<string>)
    ensures Prefix(backend, i) == Prefix(backend, j) <==> ShownIndex(backend, i) == ShownIndex(backend, j)
  {
    var p, q, x, y := Prefix(backend, i), Prefix(backend, j), ShownIndex(backend, i), ShownIndex(backend, j);
    if backend == Kql {
      assert p[..|x.value|] == x.value && q[..|y.value|] == y.value;
    } else {
      assert x.Some? ==> p[6..|p| - 1] == x.value;
      assert y.Some? ==> q[6..|q| - 1] == y.value;
    }
  }

  lemma PrefixEnds(backend: Backend, index: Option<string>)
    ensures var p := Prefix(backend, index);
      && (p != [] ==> p[|p| - 1] == ' ')
      && (backend == Kql ==> |p| > 8 && p[|p| - 2] == 'e')
  {
  }

  lemma {:induction false} BodyCut(backend: Backend, matches: seq<Match>, fields: seq<string>, k: nat)
    requires 0 < k < |matches|
    ensures BodyOf(backend, matches, fields)
         == Join(Conditions(matches[..k]), Separator(backend))
            + Separator(backend) + BodyOf(backend, matches[k..], fields)
    decreases k
  {
    var separator, first, rest := Separator(backend), Condition(matches[0]), BodyOf(backend, matches[k..], fields);
    BodyStep(backend, matches, fields);
    JoinFirst(matches, separator, k);
    hide BodyOf, Join, Conditions, Condition, Separator;
    if k > 1 {
      BodyCut(backend, matches[1..], fields, k - 1);
      assert matches[1..][k - 1..] == matches[k..];
    }
    Reassociate(first, separator, if k == 1 then "" else Join(Conditions(matches[1..][..k - 1]), separator), rest);
  }

  lemma Reassociate(first: string, separator: string, join: string, rest: string)
    ensures first + (separator + rest) == first + "" + separator + rest
    ensures first + (separator + (join + separator + rest)) == first + (separator + join) + separator + rest
  {
    assert first + "" == first;
    assert first + (separator + (join + separator + rest)) == first + (separator + join) + (separator + rest);
  }

  lemma CutPrefix(p: string, body: string, p': string, body': string) returns (d: string)
    requires p + body == p' + body' && |p| < |p'|
    ensures d != [] && p' == p + d && d <= body && body[|d|..] == body' && d[|d| - 1] == p'[|p'| - 1]
  {
    var text := p + body;
    d := p'[|p|..];
    assert p' == text[..|p'|] && p == text[..|p|] && body == text[|p|..] && body' == text[|p'|..];
  }

  /** A longer prefix on the same text is the shorter one with comparisons and their separators
      behind it. */
  lemma LongerPrefix(a: QuerySpec, b: QuerySpec) returns (k: nat)
    requires WellFormed(a) && WellFormed(b) && a.backend == b.backend && a.evidenceIds != [] && b.evidenceIds != []
    requires RenderQuery(a) == RenderQuery(b) && |Prefix(a.backend, a.index)| < |Prefix(b.backend, b.index)|
    ensures 0 < k < |a.conditions| && a.fields == b.fields && ShownOf(b.conditions) == ShownOf(a.conditions[k..])
    ensures var separator := Separator(a.backend);
      Prefix(b.backend, b.index)
      == Prefix(a.backend, a.index) + (Join(Conditions(a.conditions[..k]), separator) + separator)
  {
    TextSplits(a);
    TextSplits(b);
    var backend := a.backend;
    var body, body' := BodyOf(backend, a.conditions, a.fields), BodyOf(backend, b.conditions, b.fields);
    hide RenderQuery, BodyOf, ReadBody, ShownOf, Join, Conditions;
    var d := CutPrefix(Prefix(backend, a.index), body, Prefix(backend, b.index), body');
    PrefixEnds(backend, b.index);
    ReadBodyOf(backend, b.conditions, b.fields);
    k := RestReads(backend, a.conditions, a.fields, d);
    BodyCut(backend, a.conditions, a.fields, k);
    assert body[|d|..] == BodyOf(backend, a.conditions[k..], a.fields);
    ReadBodyOf(backend, a.conditions[k..], a.fields);
  }

  /** Equal in everything that the text shows. */
  ghost predicate ShowsAlike(a: QuerySpec, b: QuerySpec) {
    && ShownIndex(a.backend, a.index) == ShownIndex(b.backend, b.index)
    && ShownOf(a.conditions) == ShownOf(b.conditions) && a.fields == b.fields
  }

  lemma ShownAlikePrintsAlike(a: QuerySpec, b: QuerySpec)
    requires a.backend == b.backend && a.evidenceIds != [] && b.evidenceIds != [] && ShowsAlike(a, b)
    ensures RenderQuery(a) == RenderQuery(b)
  {
    PrefixTellsIndex(a.backend, a.index, b.index);
    ConditionsFollowShown(a.conditions, b.conditions);
  }

  lemma SamePrefixShowsAlike(a: QuerySpec, b: QuerySpec)
    requires WellFormed(a) && WellFormed(b) && a.backend == b.backend && a.evidenceIds != [] && b.evidenceIds != []
    requires RenderQuery(a) == RenderQuery(b) && |Prefix(a.backend, a.index)| == |Prefix(b.backend, b.index)|
    ensures ShowsAlike(a, b)
  {
    TextSplits(a);
    TextSplits(b);
    var p, q := Prefix(a.backend, a.index), Prefix(b.backend, b.index);
    var body, body' := BodyOf(a.backend, a.conditions, a.fields), BodyOf(b.backend, b.conditions, b.fields);
    ReadBodyOf(a.backend, a.conditions, a.fields);
    ReadBodyOf(b.backend, b.conditions, b.fields);
    PrefixTellsIndex(a.backend, a.index, b.index);
    hide RenderQuery, BodyOf, ReadBody, ShownOf, Prefix, WellFormed;
    assert p == (p + body)[..|p|] && q == (q + body')[..|q|];
    assert body == (p + body)[|p|..] && body' == (q + body')[|q|..];
  }

  /** A KQL text determines all that it shows, the table included, whatever the table is called. */
  lemma KqlTextExactly(a: QuerySpec, b: QuerySpec)
    requires WellFormed(a) && WellFormed(b) && a.backend == b.backend == Kql
    requires a.evidenceIds != [] && b.evidenceIds != []
    ensures RenderQuery(a) == RenderQuery(b) <==> ShowsAlike(a, b)
  {
    if ShowsAlike(a, b) {
      ShownAlikePrintsAlike(a, b);
    } else if RenderQuery(a) == RenderQuery(b) {
      if |Prefix(Kql, a.index)| == |Prefix(Kql, b.index)| {
        SamePrefixShowsAlike(a, b);
      } else if |Prefix(Kql, a.index)| < |Prefix(Kql, b.index)| {
        KqlPrefixFixed(a, b);
      } else {
        KqlPrefixFixed(b, a);
      }
    }
  }

  lemma KqlPrefixFixed(a: QuerySpec, b: QuerySpec)
    requires WellFormed(a) && WellFormed(b) && a.backend == b.backend == Kql
    requires a.evidenceIds != [] && b.evidenceIds != [] && RenderQuery(a) == RenderQuery(b)
    ensures |Prefix(Kql, b.index)| <= |Prefix(Kql, a.index)|
  {
    if |Prefix(Kql, a.index)| < |Prefix(Kql, b.index)| {
      var k := LongerPrefix(a, b);
      EndsWithAnd(Prefix(Kql, a.index), Join(Conditions(a.conditions[..k]), " and "), Prefix(Kql, b.index));
      hide Prefix, RenderQuery, WellFormed, Join, Conditions;
      PrefixEnds(Kql, b.index);
    }
  }

  lemma EndsWithAnd(p: string, moved: string, q: string)
    requires q == p + (moved + " and ")
    ensures q[|q| - 2] == 'd'
  {
  }

  /** The index of `b` is that of `a` with the first `k` printed comparisons and an `AND` behind it;
      without an index the first of these is `index=` itself. */
  ghost predicate Swallows(a: QuerySpec, b: QuerySpec, k: nat)
    requires k <= |a.conditions|
  {
    var moved := Join(Conditions(a.conditions[..k]), " AND ") + " AND";
    var i, j := ShownIndex(Spl, a.index), ShownIndex(Spl, b.index);
    && 0 < k < |a.conditions| && a.fields == b.fields && ShownOf(b.conditions) == ShownOf(a.conditions[k..])
    && j.Some? && (if i.Some? then j.value == i.value + " " + moved else "index=" + j.value == moved)
  }

  lemma SwallowedPrefix(a: QuerySpec, b: QuerySpec, k: nat)
    requires 0 < k < |a.conditions| && a.fields == b.fields && ShownOf(b.conditions) == ShownOf(a.conditions[k..])
    ensures Swallows(a, b, k)
       <==> Prefix(Spl, b.index) == Prefix(Spl, a.index) + (Join(Conditions(a.conditions[..k]), " AND ") + " AND ")
  {
    var join := Join(Conditions(a.conditions[..k]), " AND ");
    var p, q, i, j := Prefix(Spl, a.index), Prefix(Spl, b.index), ShownIndex(Spl, a.index), ShownIndex(Spl, b.index);
    hide Join, Conditions, ShownOf;
    var moved := join + " AND";
    assert join + " AND " == moved + " ";
    if j.Some? {
      assert q == "index=" + j.value + " " && q[..|q| - 1] == "index=" + j.value;
      assert (p + (moved + " "))[..|p + moved|] == p + moved;
      if i.Some? {
        assert p + moved == "index=" + (i.value + " " + moved);
        assert ("index=" + j.value)[6..] == j.value && (p + moved)[6..] == i.value + " " + moved;
      } else {
        assert p + moved == moved;
      }
    }
  }

  lemma SwallowedPrintsAlike(a: QuerySpec, b: QuerySpec, k: nat)
    requires a.backend == b.backend == Spl && a.evidenceIds != [] && b.evidenceIds != []
    requires k <= |a.conditions| && Swallows(a, b, k)
    ensures RenderQuery(a) == RenderQuery(b)
  {
    SwallowedPrefix(a, b, k);
    TextSplits(a);
    TextSplits(b);
    BodyCut(Spl, a.conditions, a.fields, k);
    ConditionsFollowShown(b.conditions, a.conditions[k..]);
    assert BodyOf(Spl, b.conditions, b.fields) == BodyOf(Spl, a.conditions[k..], a.fields);
    var p, moved := Prefix(Spl, a.index), Join(Conditions(a.conditions[..k]), " AND ") + " AND ";
    var body := BodyOf(Spl, b.conditions, b.fields);
    hide RenderQuery, BodyOf, Prefix, Join, Conditions, ShownOf;
    assert p + (moved + body) == p + moved + body;
  }

  /** Two SPL queries print the same text exactly when they agree in all that it shows, or the index
      of one is the other's with its first comparisons behind it. */
  lemma SplTextExactly(a: QuerySpec, b: QuerySpec)
    requires WellFormed(a) && WellFormed(b) && a.backend == b.backend == Spl
    requires a.evidenceIds != [] && b.evidenceIds != []
    ensures RenderQuery(a) == RenderQuery(b)
       <==> ShowsAlike(a, b)
            || (exists k: nat | k <= |a.conditions| :: Swallows(a, b, k))
            || (exists k: nat | k <= |b.conditions| :: Swallows(b, a, k))
  {
    hide WellFormed, RenderQuery, ShowsAlike, Swallows;
    if RenderQuery(a) == RenderQuery(b) {
      if |Prefix(Spl, a.index)| == |Prefix(Spl, b.index)| {
        SamePrefixShowsAlike(a, b);
      } else if |Prefix(Spl, a.index)| < |Prefix(Spl, b.index)| {
        var k := LongerPrefix(a, b);
        SwallowedPrefix(a, b, k);
      } else {
        var k := LongerPrefix(b, a);
        SwallowedPrefix(b, a, k);
      }
    }
    if ShowsAlike(a, b) {
      ShownAlikePrintsAlike(a, b);
    }
    if k: nat :| k <= |a.conditions| && Swallows(a, b, k) {
      SwallowedPrintsAlike(a, b, k);
    }
    if k: nat :| k <= |b.conditions| && Swallows(b, a, k) {
      SwallowedPrintsAlike(b, a, k);
    }
  }

  /** An absent index can only swallow a comparison on a field called `index`. */
  lemma UnindexedSwallows(a: QuerySpec, b: QuerySpec, k: nat)
    requires WellFormed(a) && k <= |a.conditions| && Swallows(a, b, k) && ShownIndex(Spl, a.index).None?
    ensures a.conditions[0].field == "index"
  {
    var m := a.conditions[0];
    assert m in a.conditions;
    JoinFirst(a.conditions, " AND ", k);
    var more := if k == 1 then "" else " AND " + Join(Conditions(a.conditions[1..][..k - 1]), " AND ");
    var x := ConditionBegins(m);
    hide Join, Conditions, Condition;
    assert m.field + ("=" + x) + more + " AND" == m.field + ("=" + (x + more + " AND"));
    NameBeforeEquals(m.field, x + more + " AND", "index", ShownIndex(Spl, b.index).value);
  }

  lemma ConditionBegins(m: Match) returns (x: string)
    ensures Condition(m) == m.field + ("=" + x)
  {
    x := "\"" + SafeValue(m.value) + "\"";
    assert "=\"" == "=" + "\"";
    hide SafeValue;
  }

  lemma NameBeforeEquals(field: string, rest: string, name: string, more: string)
    requires field + ("=" + rest) == name + ("=" + more) && '=' !in field && '=' !in name
    ensures field == name
  {
    var text := field + ("=" + rest);
    assert text[..|field|] == field && text[|field|] == '=' && text[..|name|] == name && text[|name|] == '=';
  }

  // --- safe indexes ---

  /** Absent, or made of name characters. */
  predicate SafeIndex(index: Option<string>) {
    index.Some? ==> forall c | c in index.value :: NameChar(c)
  }

  lemma SafeSwallowsNothing(a: QuerySpec, b: QuerySpec, k: nat)
    requires SafeIndex(b.index) && k <= |a.conditions|
    ensures !Swallows(a, b, k)
  {
    if Swallows(a, b, k) {
      var i, j := ShownIndex(Spl, a.index), ShownIndex(Spl, b.index).value;
      var join := Join(Conditions(a.conditions[..k]), " AND ");
      hide Join, Conditions;
      if i.Some? {
        SpaceInside("", j, i.value + " ", join);
      } else {
        SpaceInside("index=", j, "", join);
      }
    }
  }

  lemma SpaceInside(head: string, j: string, before: string, join: string)
    requires head == "" || head == "index="
    requires head + j == before + (join + " AND")
    ensures ' ' in j
  {
    var text := head + j;
    assert text[|text| - 4] == ' ';
    assert j[|text| - 4 - |head|] == ' ';
  }

  /** With indexes made of name characters the text determines everything it shows, the index
      included, for both backends. */
  lemma SafeIndexesReadBack(a: QuerySpec, b: QuerySpec)
    requires WellFormed(a) && WellFormed(b) && a.backend == b.backend && SafeIndex(a.index) && SafeIndex(b.index)
    requires a.evidenceIds != [] && b.evidenceIds != []
    ensures RenderQuery(a) == RenderQuery(b) <==> ShowsAlike(a, b)
  {
    if a.backend == Kql {
      KqlTextExactly(a, b);
    } else {
      SplTextExactly(a, b);
      forall k: nat | k <= |a.conditions| ensures !Swallows(a, b, k) {
        SafeSwallowsNothing(a, b, k);
      }
      forall k: nat | k <= |b.conditions| ensures !Swallows(b, a, k) {
        SafeSwallowsNothing(b, a, k);
      }
    }
  }

  /** The index is printed as it stands, so across different indexes the text does not determine
      the conditions: any first condition can move into the index. */
  lemma IndexIsPrintedRaw(index: string, first: Match, rest: seq<Match>, fields: seq<string>, evidenceIds: seq<nat>)
    requires index != [] && rest != [] && evidenceIds != []
    ensures var a := QuerySpec(Spl, Some(index), fields, [first] + rest, evidenceIds);
            var b := QuerySpec(Spl, Some(index + " " + Condition(first) + " AND"), fields, rest, evidenceIds);
            RenderQuery(a) == RenderQuery(b) && ShownOf(a.conditions) != ShownOf(b.conditions)
  {
    var all := [first] + rest;
    assert Conditions(all)[1..] == Conditions(rest) && |Conditions(all)| == 1 + |rest|;
    assert |ShownOf(all)| == 1 + |rest| && |ShownOf(rest)| == |rest|;
    var body := Join(Conditions(rest), " AND ");
    assert Join(Conditions(all), " AND ") == Condition(first) + " AND " + body;
    var c, tail := Condition(first), " | table " + Join(fields, ", ");
    hide Condition, Conditions, Join, ShownOf;
    assert "index=" + index + " " + (c + " AND " + body) == "index=" + (index + " " + c + " AND") + " " + body by {
      assert " AND " == " AND" + " ";
    }
  }
}
