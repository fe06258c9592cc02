/** The opaque page cursor of analyst/corpus_repository.py: base64url (section 5 of RFC 4648)
    without padding around a rendered (resource, updated_at, id) payload. */
module Cursor {
  import opened Wrappers

  type Byte = b: int | 0 <= b < 256
  type Sextet = v: int | 0 <= v < 64

  // --- base64url ---

  function EncodeSextet(v: Sextet): char {
    if v < 26 then ('A' as int + v) as char
    else if v < 52 then ('a' as int + (v - 26)) as char
    else if v < 62 then ('0' as int + (v - 52)) as char
    else if v == 62 then '-' else '_'
  }

  /** The decoder accepts both the URL-safe and the standard spelling of 62 and 63. */
  function DecodeSextet(c: char): Option<Sextet> {
    if 'A' <= c <= 'Z' then Some(c as int - 'A' as int)
    else if 'a' <= c <= 'z' then Some(c as int - 'a' as int + 26)
    else if '0' <= c <= '9' then Some(c as int - '0' as int + 52)
    else if c == '-' || c == '+' then Some(62)
    else if c == '_' || c == '/' then Some(63)
    else None
  }

  lemma SextetRoundTrip(v: Sextet)
    ensures DecodeSextet(EncodeSextet(v)) == Some(v) && EncodeSextet(v) != '='
    ensures EncodeSextet(v) < 128 as char
  {
  }

  /** `urlsafe_b64encode`: four characters for three bytes, padded at the end. */
  function Encode(bytes: seq<Byte>): string {
    if |bytes| == 0 then ""
    else if |bytes| == 1 then
      [EncodeSextet(bytes[0] / 4), EncodeSextet(bytes[0] % 4 * 16)] + "=="
    else if |bytes| == 2 then
      [EncodeSextet(bytes[0] / 4), EncodeSextet(bytes[0] % 4 * 16 + bytes[1] / 16), EncodeSextet(bytes[1] % 16 * 4)]
        + "="
    else
      [EncodeSextet(bytes[0] / 4), EncodeSextet(bytes[0] % 4 * 16 + bytes[1] / 16),
       EncodeSextet(bytes[1] % 16 * 4 + bytes[2] / 64), EncodeSextet(bytes[2] % 64)]
      + Encode(bytes[3..])
  }

  function StripPadding(s: string): string {
    if s != "" && s[|s| - 1] == '=' then StripPadding(s[..|s| - 1]) else s
  }

  function Padding(n: nat): string {
    seq(n, _ => '=')
  }

  function Pad(s: string): string {
    s + Padding((4 - |s| % 4) % 4)
  }

  /** The lenient decoder: skips characters outside the alphabet, stops at a completed padding,
      fails when the characters left over do not complete a quad. */
  function Decode(s: string, quad: nat, left: nat, pads: nat): Option<seq<Byte>>
    requires quad < 4 && left < 64 && (quad == 2 ==> left < 16) && (quad == 3 ==> left < 4)
  {
    if s == "" then if quad == 0 then Some([]) else None
    else if s[0] == '=' then
      if quad >= 2 && quad + pads + 1 >= 4 then Some([])
      else Decode(s[1..], quad, left, if quad >= 2 then pads + 1 else pads)
    else match DecodeSextet(s[0])
      case None => Decode(s[1..], quad, left, pads)
      case Some(v) =>
        if quad == 0 then Decode(s[1..], 1, v, 0)
        else if quad == 1 then Emit(left * 4 + v / 16, Decode(s[1..], 2, v % 16, 0))
        else if quad == 2 then Emit(left * 16 + v / 4, Decode(s[1..], 3, v % 4, 0))
        else Emit(left * 64 + v, Decode(s[1..], 0, 0, 0))
  }

  function Emit(b: Byte, rest: Option<seq<Byte>>): Option<seq<Byte>> {
    match rest case None => None case Some(bs) => Some([b] + bs)
  }

  /** `urlsafe_b64decode` of a text: only ASCII is accepted. */
  function DecodeText(s: string): Option<seq<Byte>> {
    if forall c | c in s :: c < 128 as char then Decode(s, 0, 0, 0) else None
  }

  lemma {:induction false} StripKeepsPrefix(s: string, t: string)
    requires t != "" && t[0] != '='
    ensures StripPadding(s + t) == s + StripPadding(t) && StripPadding(t) != "" && StripPadding(t)[0] != '='
    decreases |t|
  {
    if t[|t| - 1] == '=' {
      assert (s + t)[..|s + t| - 1] == s + t[..|t| - 1];
      StripKeepsPrefix(s, t[..|t| - 1]);
    }
  }

  lemma StripOne(s: string)
    ensures StripPadding(s + "=") == StripPadding(s)
  {
    assert (s + "=")[..|s|] == s;
  }

  /** The data characters of the first group, none of them padding. */
  lemma EncodeForm(bytes: seq<Byte>) returns (t: string)
    requires bytes != []
    ensures forall c | c in t :: c != '='
    ensures |bytes| == 1 ==> |t| == 2 && Encode(bytes) == t + "=" + "="
    ensures |bytes| == 2 ==> |t| == 3 && Encode(bytes) == t + "="
    ensures |bytes| >= 3 ==> |t| == 4 && Encode(bytes) == t + Encode(bytes[3..])
  {
    t := Encode(bytes)[..if |bytes| >= 3 then 4 else |bytes| + 1];
  }

  lemma PadPrepends(quad: string, x: string)
    requires |quad| == 4
    ensures Pad(quad + x) == quad + Pad(x)
  {
    assert |quad + x| % 4 == |x| % 4;
    assert (quad + x) + Padding((4 - |x| % 4) % 4) == quad + (x + Padding((4 - |x| % 4) % 4));
  }

  lemma PadShort(t: string)
    requires 2 <= |t| <= 4
    ensures Pad(t) == if |t| == 2 then t + "=" + "=" else if |t| == 3 then t + "=" else t
  {
    assert Padding(2) == "=" + "=" && Padding(1) == "=" && Padding(0) == "";
  }

  lemma StripNothing(t: string)
    requires t != "" && t[|t| - 1] != '='
    ensures StripPadding(t) == t
  {
  }

  lemma ShortPaddingRestored(t: string, s: string)
    requires 2 <= |t| <= 4 && t[|t| - 1] != '='
    requires s == if |t| == 2 then t + "=" + "=" else if |t| == 3 then t + "=" else t
    ensures StripPadding(s) == t && Pad(StripPadding(s)) == s
  {
    StripNothing(t);
    StripOne(t);
    StripOne(t + "=");
    PadShort(t);
  }

  /** Stripping the padding and restoring it by `-len % 4` gives the padded text back. */
  lemma {:induction false} PaddingRestored(bytes: seq<Byte>)
    ensures Pad(StripPadding(Encode(bytes))) == Encode(bytes)
    ensures |StripPadding(Encode(bytes))| == (4 * |bytes| + 2) / 3
  {
    if bytes != [] {
      var t := EncodeForm(bytes);
      assert t[|t| - 1] in t;
      if |bytes| > 3 {
        PaddingRestored(bytes[3..]);
        LongPaddingRestored(t, bytes[3..]);
      } else {
        assert |bytes| == 3 ==> t + Encode(bytes[3..]) == t;
        ShortPaddingRestored(t, Encode(bytes));
      }
    }
  }

  lemma LongPaddingRestored(quad: string, bytes: seq<Byte>)
    requires |quad| == 4 && bytes != [] && Pad(StripPadding(Encode(bytes))) == Encode(bytes)
    ensures StripPadding(quad + Encode(bytes)) == quad + StripPadding(Encode(bytes))
    ensures Pad(StripPadding(quad + Encode(bytes))) == quad + Encode(bytes)
  {
    var u := EncodeForm(bytes);
    var rest := Encode(bytes);
    assert u[0] in u && rest[0] == u[0];
    StripKeepsPrefix(quad, rest);
    PadPrepends(quad, StripPadding(rest));
  }

  /** One data character moves the decoder one sextet on. */
  lemma DecodeData(v: Sextet, rest: string, quad: nat, left: nat, pads: nat)
    requires quad < 4 && left < 64 && (quad == 2 ==> left < 16) && (quad == 3 ==> left < 4)
    ensures Decode([EncodeSextet(v)] + rest, quad, left, pads) ==
      if quad == 0 then Decode(rest, 1, v, 0)
      else if quad == 1 then Emit(left * 4 + v / 16, Decode(rest, 2, v % 16, 0))
      else if quad == 2 then Emit(left * 16 + v / 4, Decode(rest, 3, v % 4, 0))
      else Emit(left * 64 + v, Decode(rest, 0, 0, 0))
  {
    SextetRoundTrip(v);
    assert ([EncodeSextet(v)] + rest)[1..] == rest;
  }

  lemma DecodePadding(left: nat)
    requires left < 16
    ensures Decode("==", 2, left, 0) == Some([])
    ensures left < 4 ==> Decode("=", 3, left, 0) == Some([])
  {
    assert "=="[1..] == "=";
  }

  lemma QuadDecodes(a: Byte, b: Byte, c: Byte, rest: string)
    ensures Decode([EncodeSextet(a / 4), EncodeSextet(a % 4 * 16 + b / 16),
                    EncodeSextet(b % 16 * 4 + c / 64), EncodeSextet(c % 64)] + rest, 0, 0, 0)
         == Emit(a, Emit(b, Emit(c, Decode(rest, 0, 0, 0))))
  {
    hide Decode, EncodeSextet, Emit;
    var s0, s1, s2, s3: Sextet := a / 4, a % 4 * 16 + b / 16, b % 16 * 4 + c / 64, c % 64;
    var t0, t1, t2, t3 := EncodeSextet(s0), EncodeSextet(s1), EncodeSextet(s2), EncodeSextet(s3);
    DecodeData(s3, rest, 3, s2 % 4, 0);
    DecodeData(s2, [t3] + rest, 2, s1 % 16, 0);
    DecodeData(s1, [t2] + ([t3] + rest), 1, s0, 0);
    DecodeData(s0, [t1] + ([t2] + ([t3] + rest)), 0, 0, 0);
    assert [t0, t1, t2, t3] + rest == [t0] + ([t1] + ([t2] + ([t3] + rest)));
    assert s0 * 4 + s1 / 16 == a && s1 % 16 * 16 + s2 / 4 == b && s2 % 4 * 64 + s3 == c;
  }

  lemma PairDecodes(a: Byte, b: Byte)
    ensures Decode([EncodeSextet(a / 4)]
        + ([EncodeSextet(a % 4 * 16 + b / 16)] + ([EncodeSextet(b % 16 * 4)] + "=")), 0, 0, 0)
         == Some([a] + ([b] + []))
  {
    var s0, s1, s2: Sextet := a / 4, a % 4 * 16 + b / 16, b % 16 * 4;
    DecodePadding(s2 % 4);
    DecodeData(s2, "=", 2, s1 % 16, 0);
    DecodeData(s1, [EncodeSextet(s2)] + "=", 1, s0, 0);
    DecodeData(s0, [EncodeSextet(s1)] + ([EncodeSextet(s2)] + "="), 0, 0, 0);
    assert s0 * 4 + s1 / 16 == a && s1 % 16 * 16 + s2 / 4 == b;
  }

  lemma SingleDecodes(a: Byte)
    ensures Decode([EncodeSextet(a / 4)] + ([EncodeSextet(a % 4 * 16)] + "=="), 0, 0, 0) == Some([a] + [])
  {
    var s0, s1: Sextet := a / 4, a % 4 * 16;
    DecodePadding(s1 % 16);
    DecodeData(s1, "==", 1, s0, 0);
    DecodeData(s0, [EncodeSextet(s1)] + "==", 0, 0, 0);
    assert s0 * 4 + s1 / 16 == a;
  }

  lemma {:induction false} EncodeIsAscii(bytes: seq<Byte>)
    ensures forall c | c in Encode(bytes) :: c < 128 as char
  {
    if |bytes| >= 3 {
      EncodeIsAscii(bytes[3..]);
    }
  }

  lemma DecodeNothing()
    ensures Decode(Encode([]), 0, 0, 0) == Some([])
  {
  }

  /** Decoding inverts encoding for every byte string. */
  lemma {:induction false} EncodeRoundTrip(bytes: seq<Byte>)
    ensures Decode(Encode(bytes), 0, 0, 0) == Some(bytes)
  {
    hide Decode, EncodeSextet;
    if |bytes| >= 3 {
      EncodeRoundTrip(bytes[3..]);
      QuadDecodes(bytes[0], bytes[1], bytes[2], Encode(bytes[3..]));
      assert bytes == [bytes[0]] + ([bytes[1]] + ([bytes[2]] + bytes[3..]));
    } else if |bytes| == 2 {
      PairDecodes(bytes[0], bytes[1]);
      assert Encode(bytes) == [Encode(bytes)[0]] + ([Encode(bytes)[1]] + ([Encode(bytes)[2]] + "="));
      assert bytes == [bytes[0]] + ([bytes[1]] + []);
    } else if |bytes| == 1 {
      SingleDecodes(bytes[0]);
      assert Encode(bytes) == [Encode(bytes)[0]] + ([Encode(bytes)[1]] + "==");
      assert bytes == [bytes[0]] + [];
    } else {
      DecodeNothing();
    }
  }

  // --- the alphabet and the bit order ---

  /** Table 2 of section 5 of RFC 4648: capitals, small letters, digits, minus and underscore. */
  lemma AlphabetExact(v: Sextet)
    ensures EncodeSextet(0) == 'A' && EncodeSextet(26) == 'a' && EncodeSextet(52) == '0'
    ensures EncodeSextet(62) == '-' && EncodeSextet(63) == '_'
    ensures v != 25 && v != 51 && v < 61 ==> EncodeSextet(v + 1) as int == EncodeSextet(v) as int + 1
  {
  }

  /** Four characters that spell a number in base 64, the highest digit first. */
  ghost predicate Spells(a: char, b: char, c: char, d: char, number: int) {
    exists v: Sextet, w: Sextet, x: Sextet, y: Sextet ::
      && a == EncodeSextet(v) && b == EncodeSextet(w) && c == EncodeSextet(x) && d == EncodeSextet(y)
      && number == v as int * 262144 + w as int * 4096 + x as int * 64 + y as int
  }

  /** Missing bytes count as zero. */
  function ByteAt(bytes: seq<Byte>, i: nat): int {
    if i < |bytes| then bytes[i] else 0
  }

  /** The text starts with the first three bytes, a number in base 256, written in base 64; a short
      group is filled with zero bits and padded. */
  ghost predicate StartsWithGroup(s: string, bytes: seq<Byte>) {
    var number := ByteAt(bytes, 0) * 65536 + ByteAt(bytes, 1) * 256 + ByteAt(bytes, 2);
    && |s| >= 4
    && (|bytes| >= 3 ==> Spells(s[0], s[1], s[2], s[3], number))
    && (|bytes| == 2 ==> Spells(s[0], s[1], s[2], 'A', number) && s[3..] == "=")
    && (|bytes| == 1 ==> Spells(s[0], s[1], 'A', 'A', number) && s[2..] == "==")
  }

  lemma GroupSpells(a: Byte, b: Byte, c: Byte)
    ensures Spells(EncodeSextet(a / 4), EncodeSextet(a % 4 * 16 + b / 16), EncodeSextet(b % 16 * 4 + c / 64),
                   EncodeSextet(c % 64), a as int * 65536 + b as int * 256 + c as int)
  {
    var v: Sextet, w: Sextet, x: Sextet, y: Sextet := a / 4, a % 4 * 16 + b / 16, b % 16 * 4 + c / 64, c % 64;
    hide EncodeSextet;
    assert v as int * 262144 + w as int * 4096 + x as int * 64 + y as int
        == a as int * 65536 + b as int * 256 + c as int;
  }

  lemma FirstGroup(bytes: seq<Byte>)
    requires bytes != []
    ensures StartsWithGroup(Encode(bytes), bytes)
  {
    hide EncodeSextet, Spells;
    var a := bytes[0];
    AlphabetExact(0);
    if |bytes| == 1 {
      GroupSpells(a, 0, 0);
      var v: Sextet, w: Sextet := a / 4, a % 4 * 16;
      ShortGroup(Encode(bytes), [EncodeSextet(v), EncodeSextet(w)], "==");
    } else if |bytes| == 2 {
      GroupSpells(a, bytes[1], 0);
      var v: Sextet, w: Sextet, x: Sextet := a / 4, a % 4 * 16 + bytes[1] / 16, bytes[1] % 16 * 4;
      ShortGroup(Encode(bytes), [EncodeSextet(v), EncodeSextet(w), EncodeSextet(x)], "=");
    } else {
      GroupSpells(a, bytes[1], bytes[2]);
    }
  }

  lemma ShortGroup(s: string, digits: string, padding: string)
    requires s == digits + padding
    ensures s[|digits|..] == padding && forall i | 0 <= i < |digits| :: s[i] == digits[i]
  {
  }

  /** Group by group the text spells the bytes. */
  lemma {:induction false} EncodeSpellsBytes(bytes: seq<Byte>, g: nat)
    requires 3 * g < |bytes|
    ensures |Encode(bytes)| == 4 * ((|bytes| + 2) / 3) >= 4 * g + 4
    ensures StartsWithGroup(Encode(bytes)[4 * g..], bytes[3 * g..])
    decreases |bytes|
  {
    hide EncodeSextet, StartsWithGroup;
    FirstGroup(bytes);
    if |bytes| > 3 {
      EncodeSpellsBytes(bytes[3..], if g > 0 then g - 1 else 0);
      assert Encode(bytes)[4..] == Encode(bytes[3..]);
    }
    if g > 0 {
      assert Encode(bytes)[4 * g..] == Encode(bytes[3..])[4 * (g - 1)..];
      assert bytes[3 * g..] == bytes[3..][3 * (g - 1)..];
    } else {
      assert Encode(bytes)[0..] == Encode(bytes) && bytes[0..] == bytes;
    }
  }

  /** `_decode_cursor` undoes `_encode_cursor` on the level of bytes. */
  lemma TextRoundTrip(bytes: seq<Byte>)
    ensures DecodeText(Pad(StripPadding(Encode(bytes)))) == Some(bytes)
  {
    PaddingRestored(bytes);
    EncodeIsAscii(bytes);
    EncodeRoundTrip(bytes);
  }

  // --- the cursor ---

  /** The keyset position a cursor stands for. */
  datatype Key = Key(updatedAt: int, id: nat)

  datatype Payload = Payload(resource: string, key: Key, hasTimezone: bool)

  datatype CursorError = InvalidCursor | NaiveTimestamp

  /** JSON, UTF-8 and ISO timestamps are left open: a printer and a partial parser that inverts it. */
  datatype Codec = Codec(render: (string, Key) -> seq<Byte>, parse: seq<Byte> -> Option<Payload>)

  ghost predicate Lawful(codec: Codec) {
    forall r, k :: codec.parse(codec.render(r, k)) == Some(Payload(r, k, true))
  }

  function EncodeCursor(codec: Codec, resource: string, key: Key): string {
    StripPadding(Encode(codec.render(resource, key)))
  }

  function DecodeCursor(codec: Codec, cursor: Option<string>, resource: string): Result<Option<Key>, CursorError> {
    match cursor
    case None => Ok(None)
    case Some(text) =>
      match DecodeText(Pad(text))
      case None => Err(InvalidCursor)
      case Some(bytes) =>
        match codec.parse(bytes)
        case None => Err(InvalidCursor)
        case Some(payload) =>
          if payload.resource != resource then Err(InvalidCursor)
          else if !payload.hasTimezone then Err(NaiveTimestamp)
          else Ok(Some(payload.key))
  }

  /** A cursor names the row it was made from, is rejected for every other resource, and no two
      positions share a cursor. */
  lemma CursorRoundTrip(codec: Codec, resource: string, key: Key, other: string, key': Key)
    requires Lawful(codec)
    ensures DecodeCursor(codec, Some(EncodeCursor(codec, resource, key)), resource) == Ok(Some(key))
    ensures other != resource ==>
        DecodeCursor(codec, Some(EncodeCursor(codec, resource, key)), other) == Err(InvalidCursor)
    ensures EncodeCursor(codec, resource, key) == EncodeCursor(codec, other, key') ==> (resource, key) == (other, key')
  {
    TextRoundTrip(codec.render(resource, key));
    TextRoundTrip(codec.render(other, key'));
    assert codec.parse(codec.render(resource, key)) == Some(Payload(resource, key, true));
    assert codec.parse(codec.render(other, key')) == Some(Payload(other, key', true));
  }
}
