/** The JSON form of `DocumentMetadata` written by `System.Text.Json` with
    camel-case property names and the default encoder, and a reader for it.

    Writing: the object `{"authors":[...],"categories":[...]}` with no white
    space. Inside strings, printable ASCII other than `"`, `\`, and the
    HTML-sensitive `& ' + < > `` ` is written as is; backslash, backspace,
    form feed, line feed, carriage return and tab get their two-character
    escapes; every other character is written `\uXXXX` with upper-case hex
    digits, a character beyond U+FFFF as its UTF-16 surrogate pair.

    Reading: optional JSON white space around the tokens, either the literal
    `null` or an object whose members map string keys to arrays of strings.
    Keys are matched case-sensitively (the default); a later member with the
    same key replaces an earlier one; unknown keys are skipped; missing keys
    leave the empty default. */
module Json {
  import opened Wrappers
  import opened Domain

  // ---------------------------------------------------------------------
  // Hexadecimal digits

  function Pow16(w: nat): (p: nat)
    ensures p >= 1
  {
    if w == 0 then 1 else 16 * Pow16(w - 1)
  }

  predicate IsHexDigit(c: char) {
    ('0' <= c <= '9') || ('a' <= c <= 'f') || ('A' <= c <= 'F')
  }

  function HexDigitChar(d: nat): (c: char)
    requires d < 16
    ensures IsHexDigit(c)
  {
    if d < 10 then (48 + d) as char else (55 + d) as char
  }

  function HexDigitValue(c: char): (d: nat)
    requires IsHexDigit(c)
    ensures d < 16
  {
    if '0' <= c <= '9' then c as int - 48
    else if 'a' <= c <= 'f' then c as int - 87
    else c as int - 55
  }

  /** `n.ToString("X" + w)`: `w` upper-case hex digits. */
  function HexDigits(n: nat, w: nat): (s: string)
    requires n < Pow16(w)
    ensures |s| == w
    ensures forall k :: 0 <= k < |s| ==> IsHexDigit(s[k])
  {
    if w == 0 then "" else HexDigits(n / 16, w - 1) + [HexDigitChar(n % 16)]
  }

  function HexValue(s: string): nat
    requires forall k :: 0 <= k < |s| ==> IsHexDigit(s[k])
  {
    if |s| == 0 then 0 else HexValue(s[..|s| - 1]) * 16 + HexDigitValue(s[|s| - 1])
  }

  lemma {:induction false} HexRoundTrip(n: nat, w: nat)
    requires n < Pow16(w)
    ensures HexValue(HexDigits(n, w)) == n
  {
    if w > 0 {
      var s := HexDigits(n, w);
      assert s[..|s| - 1] == HexDigits(n / 16, w - 1);
      HexRoundTrip(n / 16, w - 1);
    }
  }

  // ---------------------------------------------------------------------
  // Writing

  const Backspace: char := 8 as char
  const FormFeed: char := 12 as char

  /** Characters the default encoder writes unescaped. */
  predicate IsPlain(c: char) {
    ' ' <= c <= '~' && c !in {'"', '\\', '&', '\'', '+', '<', '>', '`'}
  }

  predicate IsHighSurrogate(n: int) {
    0xD800 <= n < 0xDC00
  }

  predicate IsLowSurrogate(n: int) {
    0xDC00 <= n < 0xE000
  }

  /** How the encoder writes one character. */
  function EscapeChar(c: char): (e: string)
    ensures |e| >= 1
    ensures e[0] == (if IsPlain(c) then c else '\\')
  {
    if IsPlain(c) then [c] else "\\" + EscapeBody(c)
  }

  /** What follows the backslash of an escaped character. */
  function EscapeBody(c: char): (e: string)
    requires !IsPlain(c)
    ensures |e| >= 1
  {
    if c == '\\' then "\\"
    else if c == '\n' then "n"
    else if c == '\r' then "r"
    else if c == '\t' then "t"
    else if c == Backspace then "b"
    else if c == FormFeed then "f"
    else if c as int < 0x10000 then "u" + HexDigits(c as int, 4)
    else
      var v := c as int - 0x10000;
      "u" + (HexDigits(0xD800 + v / 0x400, 4) + ("\\u" + HexDigits(0xDC00 + v % 0x400, 4)))
  }

  function EscapeChars(x: string): string {
    if |x| == 0 then "" else EscapeChar(x[0]) + EscapeChars(x[1..])
  }

  function EncodeString(x: string): string {
    "\"" + (EscapeChars(x) + "\"")
  }

  /** The array elements, comma-separated. */
  function EncodeItems(xs: seq<string>): string {
    if |xs| == 0 then ""
    else if |xs| == 1 then EncodeString(xs[0])
    else EncodeString(xs[0]) + ("," + EncodeItems(xs[1..]))
  }

  function EncodeArray(xs: seq<string>): string {
    "[" + (EncodeItems(xs) + "]")
  }

  /** `JsonSerializer.Serialize(m, camelCase)` for a metadata value (and for
      any object whose only properties are `Authors` and `Categories`). */
  function EncodeMetadata(m: DocumentMetadata): (text: string)
    ensures |text| > 0 && text[0] == '{'
  {
    "{" + (EncodeMember("authors", m.authors) + ("," + (EncodeMember("categories", m.categories) + "}")))
  }

  /** One `"key":[...]` member of an object. */
  function EncodeMember(key: string, values: seq<string>): (text: string)
    ensures |text| > 0 && text[0] == '"'
  {
    EncodeString(key) + (":" + EncodeArray(values))
  }

  // ---------------------------------------------------------------------
  // Reading

  predicate IsJsonWhite(c: char) {
    c == ' ' || c == '\t' || c == '\n' || c == '\r'
  }

  function SkipWhite(s: string): (r: string)
    ensures |r| <= |s|
    ensures |s| > 0 && !IsJsonWhite(s[0]) ==> r == s
    decreases |s|
  {
    if |s| > 0 && IsJsonWhite(s[0]) then SkipWhite(s[1..]) else s
  }

  /** Four hex digits at the front of `s`, and what follows them. */
  function ReadHex4(s: string): (r: Option<(nat, string)>)
    ensures r.Some? ==> r.value.0 < 0x10000 && |r.value.1| + 4 == |s|
  {
    if |s| >= 4 && forall k :: 0 <= k < 4 ==> IsHexDigit(s[k]) then
      var v := HexValue(s[..4]);
      HexBound(s[..4]);
      Some((v, s[4..]))
    else None
  }

  lemma {:induction false} HexBound(s: string)
    requires forall k :: 0 <= k < |s| ==> IsHexDigit(s[k])
    ensures HexValue(s) < Pow16(|s|)
  {
    if |s| > 0 {
      HexBound(s[..|s| - 1]);
    }
  }

  /** The character a `\u` escape denotes (after the `u`), joining a high
      and a low surrogate escape into one character. */
  function ReadUnicodeEscape(s: string): (r: Option<(char, string)>)
    ensures r.Some? ==> |r.value.1| < |s|
  {
    match ReadHex4(s)
    case None => None
    case Some((hi, t)) =>
      if IsHighSurrogate(hi) then
        if |t| >= 2 && t[0] == '\\' && t[1] == 'u' then
          match ReadHex4(t[2..])
          case None => None
          case Some((lo, u)) =>
            if IsLowSurrogate(lo) then
              Some(((0x10000 + (hi - 0xD800) * 0x400 + (lo - 0xDC00)) as char, u))
            else None
        else None
      else if IsLowSurrogate(hi) then None
      else Some((hi as char, t))
  }

  /** The character an escape denotes (`s` starts after the backslash). */
  function ReadEscape(s: string): (r: Option<(char, string)>)
    ensures r.Some? ==> |r.value.1| < |s|
  {
    if |s| == 0 then None
    else if s[0] == 'u' then ReadUnicodeEscape(s[1..])
    else if s[0] == '"' then Some(('"', s[1..]))
    else if s[0] == '\\' then Some(('\\', s[1..]))
    else if s[0] == '/' then Some(('/', s[1..]))
    else if s[0] == 'b' then Some((Backspace, s[1..]))
    else if s[0] == 'f' then Some((FormFeed, s[1..]))
    else if s[0] == 'n' then Some(('\n', s[1..]))
    else if s[0] == 'r' then Some(('\r', s[1..]))
    else if s[0] == 't' then Some(('\t', s[1..]))
    else None
  }

  /** A read element in front of the elements read after it. */
  function Prepend<T>(c: T, r: Option<(seq<T>, string)>): Option<(seq<T>, string)> {
    match r
    case None => None
    case Some((x, t)) => Some(([c] + x, t))
  }

  /** The characters of a string literal up to its closing quote, and the
      text after that quote. */
  function ReadChars(s: string): (r: Option<(string, string)>)
    ensures r.Some? ==> |r.value.1| < |s|
    decreases |s|
  {
    if |s| == 0 then None
    else if s[0] == '"' then Some(("", s[1..]))
    else
      match ReadChar(s)
      case None => None
      case Some((c, t)) => Prepend(c, ReadChars(t))
  }

  /** One character of a string literal, written as is or escaped; control
      characters must be escaped. */
  function ReadChar(s: string): (r: Option<(char, string)>)
    requires |s| > 0
    ensures r.Some? ==> |r.value.1| < |s|
  {
    if s[0] == '\\' then ReadEscape(s[1..])
    else if s[0] < ' ' then None
    else Some((s[0], s[1..]))
  }

  function ReadString(s: string): (r: Option<(string, string)>)
    ensures r.Some? ==> |r.value.1| < |s|
  {
    if |s| > 0 && s[0] == '"' then ReadChars(s[1..]) else None
  }

  /** Array elements from the first one up to and including the `]`. */
  function ReadItems(s: string): (r: Option<(seq<string>, string)>)
    ensures r.Some? ==> |r.value.1| < |s|
    decreases |s|
  {
    match ReadString(s)
    case None => None
    case Some((x, t)) =>
      var u := SkipWhite(t);
      if |u| > 0 && u[0] == ']' then Some(([x], u[1..]))
      else if |u| > 0 && u[0] == ',' then Prepend(x, ReadItems(SkipWhite(u[1..])))
      else None
  }

  function ReadArray(s: string): (r: Option<(seq<string>, string)>)
    ensures r.Some? ==> |r.value.1| < |s|
  {
    if |s| == 0 || s[0] != '[' then None
    else
      var t := SkipWhite(s[1..]);
      if |t| > 0 && t[0] == ']' then Some(([], t[1..])) else ReadItems(t)
  }

  /** The effect of one member on the value being built. */
  function SetMember(m: DocumentMetadata, key: string, values: seq<string>): DocumentMetadata {
    if key == "authors" then m.(authors := values)
    else if key == "categories" then m.(categories := values)
    else m
  }

  /** Object members from the first key up to and including the `}`. */
  function ReadMembers(s: string, acc: DocumentMetadata): (r: Option<(DocumentMetadata, string)>)
    ensures r.Some? ==> |r.value.1| < |s|
    decreases |s|
  {
    match ReadString(s)
    case None => None
    case Some((key, t)) =>
      var u := SkipWhite(t);
      if |u| == 0 || u[0] != ':' then None
      else
        match ReadArray(SkipWhite(u[1..]))
        case None => None
        case Some((values, v)) =>
          var next := SetMember(acc, key, values);
          var w := SkipWhite(v);
          if |w| > 0 && w[0] == '}' then Some((next, w[1..]))
          else if |w| > 0 && w[0] == ',' then ReadMembers(SkipWhite(w[1..]), next)
          else None
  }

  function ReadObject(s: string): (r: Option<(DocumentMetadata, string)>)
    ensures r.Some? ==> |r.value.1| < |s|
  {
    if |s| == 0 || s[0] != '{' then None
    else
      var t := SkipWhite(s[1..]);
      if |t| > 0 && t[0] == '}' then Some((EmptyMetadata, t[1..]))
      else ReadMembers(t, EmptyMetadata)
  }

  predicate AllJsonWhite(s: string) {
    forall k :: 0 <= k < |s| ==> IsJsonWhite(s[k])
  }

  predicate StartsWithNull(t: string) {
    |t| >= 4 && t[0] == 'n' && t[1] == 'u' && t[2] == 'l' && t[3] == 'l'
  }

  /** `JsonSerializer.Deserialize<DocumentMetadata>(text, camelCase)`:
      `None` for the literal `null`, a failure for malformed text. */
  function DecodeMetadata(text: string): Result<Option<DocumentMetadata>, Error> {
    var t := SkipWhite(text);
    if StartsWithNull(t) then
      if AllJsonWhite(t[4..]) then Success(None) else Failure(Json("malformed JSON"))
    else
      match ReadObject(t)
      case None => Failure(Json("malformed JSON"))
      case Some((m, rest)) =>
        if AllJsonWhite(rest) then Success(Some(m)) else Failure(Json("malformed JSON"))
  }

  // ---------------------------------------------------------------------
  // Round trip

  lemma AppendAssoc<T>(a: seq<T>, b: seq<T>, c: seq<T>)
    ensures a + b + c == a + (b + c)
  {
  }

  lemma DropPrefix<T>(a: seq<T>, b: seq<T>)
    ensures (a + b)[|a|..] == b
  {
  }

  lemma ReadHex4Of(n: nat, t: string)
    requires n < 0x10000
    ensures ReadHex4(HexDigits(n, 4) + t) == Some((n, t))
  {
    var s := HexDigits(n, 4) + t;
    assert s[..4] == HexDigits(n, 4);
    DropPrefix(HexDigits(n, 4), t);
    HexRoundTrip(n, 4);
  }

  /** The reader turns the body of an escape written by `EscapeChar` back
      into the character. */
  lemma EscapeReadBack(c: char, t: string)
    requires !IsPlain(c)
    ensures ReadEscape(EscapeBody(c) + t) == Some((c, t))
  {
    if c == '\\' || c == '\n' || c == '\r' || c == '\t' || c == Backspace || c == FormFeed {
      ShortEscapeReadBack(c, t);
    } else if c as int < 0x10000 {
      BmpEscapeReadBack(c, t);
    } else {
      PairEscapeReadBack(c, t);
    }
  }

  lemma ShortEscapeReadBack(c: char, t: string)
    requires c == '\\' || c == '\n' || c == '\r' || c == '\t' || c == Backspace || c == FormFeed
    ensures ReadEscape(EscapeBody(c) + t) == Some((c, t))
  {
    assert |EscapeBody(c)| == 1;
    DropPrefix(EscapeBody(c), t);
  }

  lemma BmpEscapeReadBack(c: char, t: string)
    requires !IsPlain(c) && c as int < 0x10000
    requires !(c == '\\' || c == '\n' || c == '\r' || c == '\t' || c == Backspace || c == FormFeed)
    ensures ReadEscape(EscapeBody(c) + t) == Some((c, t))
  {
    var h := HexDigits(c as int, 4);
    AppendAssoc("u", h, t);
    DropPrefix("u", h + t);
    ReadHex4Of(c as int, t);
  }

  lemma PairEscapeReadBack(c: char, t: string)
    requires c as int >= 0x10000
    ensures ReadEscape(EscapeBody(c) + t) == Some((c, t))
  {
    var v := c as int - 0x10000;
    var hi := 0xD800 + v / 0x400;
    var lo := 0xDC00 + v % 0x400;
    var h1 := HexDigits(hi, 4);
    var h2 := HexDigits(lo, 4);
    assert EscapeBody(c) == "u" + (h1 + ("\\u" + h2));
    AppendAssoc("u", h1 + ("\\u" + h2), t);
    AppendAssoc(h1, "\\u" + h2, t);
    AppendAssoc("\\u", h2, t);
    DropPrefix("u", h1 + ("\\u" + (h2 + t)));
    SurrogatePairReadBack(hi, lo, t);
  }

  /** A high and a low surrogate escape read back as the one character
      they encode together. */
  lemma SurrogatePairReadBack(hi: nat, lo: nat, t: string)
    requires IsHighSurrogate(hi) && IsLowSurrogate(lo)
    ensures ReadUnicodeEscape(HexDigits(hi, 4) + ("\\u" + (HexDigits(lo, 4) + t)))
         == Some(((0x10000 + (hi - 0xD800) * 0x400 + (lo - 0xDC00)) as char, t))
  {
    var tail := "\\u" + (HexDigits(lo, 4) + t);
    ReadHex4Of(hi, tail);
    DropPrefix("\\u", HexDigits(lo, 4) + t);
    ReadHex4Of(lo, t);
  }

  /** Each written character reads back as itself. */
  lemma CharReadBack(c: char, t: string)
    ensures ReadChar(EscapeChar(c) + t) == Some((c, t))
  {
    if IsPlain(c) {
      DropPrefix([c], t);
    } else {
      EscapeReadBack(c, t);
      AppendAssoc("\\", EscapeBody(c), t);
      DropPrefix("\\", EscapeBody(c) + t);
    }
  }

  lemma ReadCharsStep(c: char, t: string)
    ensures ReadChars(EscapeChar(c) + t) == Prepend(c, ReadChars(t))
  {
    CharReadBack(c, t);
  }

  lemma {:induction false} ReadCharsRoundTrip(x: string, rest: string)
    ensures ReadChars(EscapeChars(x) + ("\"" + rest)) == Some((x, rest))
    decreases |x|
  {
    if |x| == 0 {
      assert EscapeChars(x) + ("\"" + rest) == "\"" + rest;
      DropPrefix("\"", rest);
    } else {
      var t := EscapeChars(x[1..]) + ("\"" + rest);
      AppendAssoc(EscapeChar(x[0]), EscapeChars(x[1..]), "\"" + rest);
      ReadCharsStep(x[0], t);
      ReadCharsRoundTrip(x[1..], rest);
      assert [x[0]] + x[1..] == x;
    }
  }

  /** Reading a written string literal gives the string back. */
  lemma StringRoundTrip(x: string, rest: string)
    ensures ReadString(EncodeString(x) + rest) == Some((x, rest))
  {
    AppendAssoc("\"", EscapeChars(x) + "\"", rest);
    AppendAssoc(EscapeChars(x), "\"", rest);
    DropPrefix("\"", EscapeChars(x) + ("\"" + rest));
    ReadCharsRoundTrip(x, rest);
  }

  lemma {:induction false} ItemsRoundTrip(xs: seq<string>, rest: string)
    requires |xs| >= 1
    ensures ReadItems(EncodeItems(xs) + ("]" + rest)) == Some((xs, rest))
    decreases |xs|
  {
    if |xs| == 1 {
      LastItem(xs[0], rest);
      assert [xs[0]] == xs;
    } else {
      var more := EncodeItems(xs[1..]) + ("]" + rest);
      AppendAssoc(EncodeString(xs[0]), "," + EncodeItems(xs[1..]), "]" + rest);
      AppendAssoc(",", EncodeItems(xs[1..]), "]" + rest);
      ItemThenMore(xs[0], more);
      ItemsRoundTrip(xs[1..], rest);
      assert [xs[0]] + xs[1..] == xs;
    }
  }

  lemma LastItem(x: string, rest: string)
    ensures ReadItems(EncodeString(x) + ("]" + rest)) == Some(([x], rest))
  {
    StringRoundTrip(x, "]" + rest);
    DropPrefix("]", rest);
  }

  lemma ItemThenMore(x: string, more: string)
    requires |more| > 0 && !IsJsonWhite(more[0])
    ensures ReadItems(EncodeString(x) + ("," + more)) == Prepend(x, ReadItems(more))
  {
    StringRoundTrip(x, "," + more);
    ReadItemsStep(EncodeString(x) + ("," + more), x, more);
  }

  /** One element followed by a comma, in terms of the reader alone. */
  lemma ReadItemsStep(s: string, x: string, more: string)
    requires ReadString(s) == Some((x, "," + more))
    requires |more| > 0 && !IsJsonWhite(more[0])
    ensures ReadItems(s) == Prepend(x, ReadItems(more))
  {
    DropPrefix(",", more);
  }

  /** Reading a written array gives the list back, in order. */
  lemma ArrayRoundTrip(xs: seq<string>, rest: string)
    ensures ReadArray(EncodeArray(xs) + rest) == Some((xs, rest))
  {
    AppendAssoc("[", EncodeItems(xs) + "]", rest);
    AppendAssoc(EncodeItems(xs), "]", rest);
    DropPrefix("[", EncodeItems(xs) + ("]" + rest));
    if |xs| == 0 {
      assert EncodeItems(xs) + ("]" + rest) == "]" + rest;
      DropPrefix("]", rest);
    } else {
      ItemsRoundTrip(xs, rest);
    }
  }

  /** A member followed by a comma: its value is recorded and reading
      continues with the next member. */
  lemma MemberThenMore(key: string, values: seq<string>, acc: DocumentMetadata, more: string)
    requires |more| > 0 && !IsJsonWhite(more[0])
    ensures ReadMembers(EncodeMember(key, values) + ("," + more), acc)
         == ReadMembers(more, SetMember(acc, key, values))
  {
    MemberValue(key, values, "," + more);
    ReadMembersStep(EncodeMember(key, values) + ("," + more), key, EncodeArray(values) + ("," + more),
      values, "," + more, acc);
    DropPrefix(",", more);
  }

  /** The last member: its value is recorded and the object ends. */
  lemma LastMember(key: string, values: seq<string>, acc: DocumentMetadata, rest: string)
    ensures ReadMembers(EncodeMember(key, values) + ("}" + rest), acc)
         == Some((SetMember(acc, key, values), rest))
  {
    MemberValue(key, values, "}" + rest);
    ReadMembersStep(EncodeMember(key, values) + ("}" + rest), key, EncodeArray(values) + ("}" + rest),
      values, "}" + rest, acc);
    DropPrefix("}", rest);
  }

  /** One member without white space, in terms of the reader alone. */
  lemma ReadMembersStep(s: string, key: string, a: string, values: seq<string>, v: string,
                        acc: DocumentMetadata)
    requires ReadString(s) == Some((key, ":" + a))
    requires |a| > 0 && !IsJsonWhite(a[0])
    requires ReadArray(a) == Some((values, v))
    requires |v| > 0 && (v[0] == '}' || v[0] == ',')
    ensures ReadMembers(s, acc)
         == if v[0] == '}' then Some((SetMember(acc, key, values), v[1..]))
            else ReadMembers(SkipWhite(v[1..]), SetMember(acc, key, values))
  {
    DropPrefix(":", a);
  }

  /** The key and array of one member read back, up to what follows. */
  lemma MemberValue(key: string, values: seq<string>, tail: string)
    ensures ReadString(EncodeMember(key, values) + tail) == Some((key, ":" + (EncodeArray(values) + tail)))
    ensures ReadArray(EncodeArray(values) + tail) == Some((values, tail))
  {
    AppendAssoc(EncodeString(key), ":" + EncodeArray(values), tail);
    AppendAssoc(":", EncodeArray(values), tail);
    StringRoundTrip(key, ":" + (EncodeArray(values) + tail));
    ArrayRoundTrip(values, tail);
  }

  /** An object of two members reads back as the effect of both, in order. */
  lemma TwoMembers(k1: string, v1: seq<string>, k2: string, v2: seq<string>)
    ensures ReadObject("{" + (EncodeMember(k1, v1) + ("," + (EncodeMember(k2, v2) + "}"))))
         == Some((SetMember(SetMember(EmptyMetadata, k1, v1), k2, v2), ""))
  {
    var second := EncodeMember(k2, v2) + "}";
    var first := EncodeMember(k1, v1) + ("," + second);
    DropPrefix("{", first);
    MemberThenMore(k1, v1, EmptyMetadata, second);
    assert "}" + "" == "}";
    LastMember(k2, v2, SetMember(EmptyMetadata, k1, v1), "");
  }

  lemma EncodedObject(m: DocumentMetadata)
    ensures ReadObject(EncodeMetadata(m)) == Some((m, ""))
  {
    TwoMembers("authors", m.authors, "categories", m.categories);
  }

  lemma EncodedStart(m: DocumentMetadata)
    ensures SkipWhite(EncodeMetadata(m)) == EncodeMetadata(m)
    ensures !StartsWithNull(EncodeMetadata(m))
  {
    ObjectStart(EncodeMetadata(m));
  }

  lemma ObjectStart(text: string)
    requires |text| > 0 && text[0] == '{'
    ensures SkipWhite(text) == text && !StartsWithNull(text)
  {
  }

  /** Decoding inverts encoding: the serialised metadata reads back as the
      same two lists in the same order. */
  lemma MetadataRoundTrip(m: DocumentMetadata)
    ensures DecodeMetadata(EncodeMetadata(m)) == Success(Some(m))
  {
    EncodedStart(m);
    EncodedObject(m);
  }
}
