/**
 * The JSON text of a connection descriptor: `JSON.stringify` of a session
 * description, and `JSON.parse` for the objects a connection code can hold.
 * Strings are escaped as ECMAScript's QuoteJSONString does, which is one of the
 * spellings the string grammar of section 7 of RFC 8259 admits; the reader accepts
 * every escape of that grammar.
 */
module Json {

  import opened Wrappers
  import opened Types
  import Base64

  /** A lower-case hexadecimal digit, as QuoteJSONString writes in `\u00XX`. */
  function HexDigit(n: int): (c: char)
    requires 0 <= n < 16
    ensures IsHexDigit(c) && HexValue(c) == n
  {
    if n < 10 then ('0' as int + n) as char else ('a' as int + (n - 10)) as char
  }

  predicate IsHexDigit(c: char)
  {
    ('0' <= c <= '9') || ('a' <= c <= 'f') || ('A' <= c <= 'F')
  }

  function HexValue(c: char): (n: int)
    requires IsHexDigit(c)
    ensures 0 <= n < 16
  {
    if '0' <= c <= '9' then c as int - '0' as int
    else if 'a' <= c <= 'f' then c as int - 'a' as int + 10
    else c as int - 'A' as int + 10
  }

  /**
   * One character as JSON.stringify writes it inside a string: the two-character
   * escapes for quote, backslash, backspace, form feed, newline, carriage return and
   * tab; `\u00XX` for the other control characters; every other character as itself.
   */
  function EscapeChar(c: char): (e: string)
  {
    if c == '"' then ['\\', '"']
    else if c == '\\' then ['\\', '\\']
    else if c as int == 0x08 then ['\\', 'b']
    else if c as int == 0x0C then ['\\', 'f']
    else if c == '\n' then ['\\', 'n']
    else if c == '\r' then ['\\', 'r']
    else if c == '\t' then ['\\', 't']
    else if c as int < 0x20 then ['\\', 'u', '0', '0', HexDigit(c as int / 16), HexDigit(c as int % 16)]
    else [c]
  }

  function Escape(s: string): (e: string)
  {
    if s == [] then [] else EscapeChar(s[0]) + Escape(s[1..])
  }

  /** QuoteJSONString: the escaped characters between double quotes. */
  function Quote(s: string): string
  {
    "\"" + Escape(s) + "\""
  }

  /**
   * `JSON.stringify(description)`: the session description's toJSON gives its two
   * attributes in declaration order, `type` then `sdp`, with no whitespace.
   */
  function Stringify(d: Description): string
  {
    "{" + Member("type", SdpTypeName(d.kind)) + "," + Member("sdp", d.sdp) + "}"
  }

  /** One `"name":"value"` member of an object as JSON.stringify writes it. */
  function Member(name: string, value: string): string
  {
    Quote(name) + ":" + Quote(value)
  }

  /** The insignificant whitespace of JSON: space, tab, line feed, carriage return. */
  predicate IsJsonWhitespace(c: char)
  {
    c == ' ' || c == '\t' || c == '\n' || c == '\r'
  }

  function SkipWhitespace(s: string): (t: string)
    ensures |t| <= |s|
    ensures t == [] || !IsJsonWhitespace(t[0])
  {
    if s != [] && IsJsonWhitespace(s[0]) then SkipWhitespace(s[1..]) else s
  }

  /**
   * The character that starts `s` inside a JSON string, and how many characters
   * spell it; `None` for a raw control character or a malformed escape. A `\u`
   * escape naming a UTF-16 surrogate is refused (see README).
   */
  function ParseUnit(s: string): (r: Option<(char, nat)>)
    requires |s| > 0 && s[0] != '"'
    ensures r.Some? ==> 1 <= r.value.1 <= |s|
  {
    if s[0] == '\\' then
      if |s| < 2 then None
      else if s[1] == '"' then Some(('"', 2))
      else if s[1] == '\\' then Some(('\\', 2))
      else if s[1] == '/' then Some(('/', 2))
      else if s[1] == 'b' then Some((0x08 as char, 2))
      else if s[1] == 'f' then Some((0x0C as char, 2))
      else if s[1] == 'n' then Some(('\n', 2))
      else if s[1] == 'r' then Some(('\r', 2))
      else if s[1] == 't' then Some(('\t', 2))
      else if s[1] == 'u' && |s| >= 6 && IsHexDigit(s[2]) && IsHexDigit(s[3]) && IsHexDigit(s[4]) && IsHexDigit(s[5]) then
        var v := HexValue(s[2]) * 4096 + HexValue(s[3]) * 256 + HexValue(s[4]) * 16 + HexValue(s[5]);
        if 0xD800 <= v < 0xE000 then None else Some((v as char, 6))
      else None
    else if s[0] as int < 0x20 then None
    else Some((s[0], 1))
  }

  /** The characters of a string up to its closing quote, and the text after that quote. */
  function ParseStringBody(s: string): (r: Option<(string, string)>)
    ensures r.Some? ==> |r.value.1| < |s|
    decreases |s|
  {
    if |s| == 0 then None
    else if s[0] == '"' then Some(([], s[1..]))
    else
      match ParseUnit(s)
      case None => None
      case Some((c, n)) =>
        match ParseStringBody(s[n..])
        case None => None
        case Some((v, rest)) => Some(([c] + v, rest))
  }

  function ParseString(s: string): (r: Option<(string, string)>)
    ensures r.Some? ==> |r.value.1| < |s|
  {
    if |s| > 0 && s[0] == '"' then ParseStringBody(s[1..]) else None
  }

  /**
   * The members of an object after its `{`, up to and including its `}`; a later
   * member with the same name replaces an earlier one, as `JSON.parse` does.
   */
  function ParseMembers(s: string, acc: map<string, string>): (r: Option<(map<string, string>, string)>)
    decreases |s|
  {
    match ParseString(SkipWhitespace(s))
    case None => None
    case Some((key, afterKey)) =>
      var colon := SkipWhitespace(afterKey);
      if |colon| == 0 || colon[0] != ':' then None
      else
        match ParseString(SkipWhitespace(colon[1..]))
        case None => None
        case Some((value, afterValue)) =>
          var next := SkipWhitespace(afterValue);
          if |next| > 0 && next[0] == ',' then ParseMembers(next[1..], acc[key := value])
          else if |next| > 0 && next[0] == '}' then Some((acc[key := value], next[1..]))
          else None
  }

  /** `JSON.parse` of a text that must be one object whose member values are strings. */
  function ParseObject(text: string): (r: Option<map<string, string>>)
  {
    var t := SkipWhitespace(text);
    if |t| == 0 || t[0] != '{' then None
    else
      var body := SkipWhitespace(t[1..]);
      if |body| > 0 && body[0] == '}' then
        if SkipWhitespace(body[1..]) == [] then Some(map[]) else None
      else
        match ParseMembers(body, map[])
        case None => None
        case Some((members, rest)) => if SkipWhitespace(rest) == [] then Some(members) else None
  }

  /** The reader takes back exactly the characters the writer spent on one character. */
  lemma ParseUnitOfEscapeChar(c: char, tail: string)
    ensures |EscapeChar(c)| > 0 && EscapeChar(c)[0] != '"'
    ensures ParseUnit(EscapeChar(c) + tail) == Some((c, |EscapeChar(c)|))
  {
    var e := EscapeChar(c);
    var s := e + tail;
    if c == '"' || c == '\\' || c as int == 0x08 || c as int == 0x0C || c == '\n' || c == '\r' || c == '\t' {
      assert s[0] == '\\' && s[1] == e[1];
    } else if c as int < 0x20 {
      ControlEscape(c, tail);
    } else {
      assert s[0] == c;
    }
  }

  lemma ControlEscape(c: char, tail: string)
    requires c as int < 0x20
    requires c as int != 0x08 && c as int != 0x0C && c != '\n' && c != '\r' && c != '\t'
    ensures EscapeChar(c) == ['\\', 'u', '0', '0', HexDigit(c as int / 16), HexDigit(c as int % 16)]
    ensures ParseUnit(EscapeChar(c) + tail) == Some((c, 6))
  {
    var s := EscapeChar(c) + tail;
    assert s[2] == '0' && s[3] == '0';
    assert s[4] == HexDigit(c as int / 16) && s[5] == HexDigit(c as int % 16);
    var v := HexValue(s[2]) * 4096 + HexValue(s[3]) * 256 + HexValue(s[4]) * 16 + HexValue(s[5]);
    assert v == c as int;
  }

  /** Reading back an escaped string stops at its closing quote and returns the original text. */
  lemma {:induction false} ParseEscaped(v: string, rest: string)
    ensures ParseStringBody(Escape(v) + "\"" + rest) == Some((v, rest))
    decreases |v|
  {
    if v == [] {
      assert Escape(v) + "\"" + rest == "\"" + rest;
    } else {
      var e := EscapeChar(v[0]);
      var tail := Escape(v[1..]) + "\"" + rest;
      assert Escape(v) + "\"" + rest == e + tail;
      ParseUnitOfEscapeChar(v[0], tail);
      assert (e + tail)[|e|..] == tail;
      ParseEscaped(v[1..], rest);
      assert [v[0]] + v[1..] == v;
    }
  }

  lemma ParseQuoted(v: string, rest: string)
    ensures ParseString(Quote(v) + rest) == Some((v, rest))
  {
    var s := Quote(v) + rest;
    assert s[0] == '"';
    assert s[1..] == Escape(v) + "\"" + rest;
    ParseEscaped(v, rest);
  }

  /** After one serialized member, the reader goes on with whatever follows it. */
  lemma ParseMemberStep(key: string, value: string, rest: string, acc: map<string, string>)
    requires |rest| > 0 && !IsJsonWhitespace(rest[0])
    ensures ParseMembers(Member(key, value) + rest, acc)
         == if rest[0] == ',' then ParseMembers(rest[1..], acc[key := value])
            else if rest[0] == '}' then Some((acc[key := value], rest[1..]))
            else None
  {
    var afterKey := ":" + (Quote(value) + rest);
    var v := Quote(value) + rest;
    assert Member(key, value) + rest == Quote(key) + afterKey;
    assert ParseString(SkipWhitespace(Quote(key) + afterKey)) == Some((key, afterKey)) by {
      assert (Quote(key) + afterKey)[0] == '"';
      ParseQuoted(key, afterKey);
    }
    assert SkipWhitespace(afterKey) == afterKey && afterKey[1..] == v;
    assert ParseString(SkipWhitespace(v)) == Some((value, rest)) by {
      assert v[0] == '"';
      ParseQuoted(value, rest);
    }
    assert SkipWhitespace(rest) == rest;
  }

  /** An object whose members the reader takes in full reads back as their map. */
  lemma ParseObjectOfMembers(body: string, m: map<string, string>)
    requires |body| > 0 && body[0] == '"'
    requires ParseMembers(body, map[]) == Some((m, ""))
    ensures ParseObject("{" + body) == Some(m)
  {
    var text := "{" + body;
    assert SkipWhitespace(text) == text by {
      assert text[0] == '{';
    }
    assert SkipWhitespace(text[1..]) == body by {
      assert text[1..] == body;
    }
    assert SkipWhitespace("") == "";
  }

  lemma ParseMemberThenComma(key: string, value: string, rest: string, acc: map<string, string>)
    ensures ParseMembers(Member(key, value) + ("," + rest), acc) == ParseMembers(rest, acc[key := value])
  {
    assert ("," + rest)[0] == ',' && ("," + rest)[1..] == rest;
    ParseMemberStep(key, value, "," + rest, acc);
  }

  lemma ParseMemberThenClose(key: string, value: string, acc: map<string, string>)
    ensures ParseMembers(Member(key, value) + "}", acc) == Some((acc[key := value], ""))
  {
    assert "}"[0] == '}' && "}"[1..] == "";
    ParseMemberStep(key, value, "}", acc);
  }

  /** An object of two serialized members reads back as the map of those members. */
  lemma ParseTwoMemberObject(k1: string, v1: string, k2: string, v2: string)
    ensures ParseObject("{" + Member(k1, v1) + "," + Member(k2, v2) + "}") == Some(map[k1 := v1][k2 := v2])
  {
    var last := Member(k2, v2) + "}";
    var body := Member(k1, v1) + ("," + last);
    assert "{" + Member(k1, v1) + "," + Member(k2, v2) + "}" == "{" + body;
    assert body[0] == '"' by {
      assert body[0] == Member(k1, v1)[0] == Quote(k1)[0];
    }
    assert ParseMembers(body, map[]) == Some((map[k1 := v1][k2 := v2], "")) by {
      ParseMemberThenComma(k1, v1, last, map[]);
      ParseMemberThenClose(k2, v2, map[k1 := v1]);
    }
    ParseObjectOfMembers(body, map[k1 := v1][k2 := v2]);
  }

  /** `JSON.parse(JSON.stringify(d))` gives back the `type` and `sdp` members of `d`. */
  lemma ParseStringify(d: Description)
    ensures ParseObject(Stringify(d)) == Some(map["type" := SdpTypeName(d.kind), "sdp" := d.sdp])
  {
    ParseTwoMemberObject("type", SdpTypeName(d.kind), "sdp", d.sdp);
  }

  lemma EscapeCharLatin1(c: char)
    ensures Base64.IsLatin1(EscapeChar(c)) <==> c as int < 256
  {
    var e := EscapeChar(c);
    if c as int < 0x20 && c as int != 0x08 && c as int != 0x0C && c != '\n' && c != '\r' && c != '\t' {
      assert e[4] as int < 128 && e[5] as int < 128;
      assert forall i | 0 <= i < |e| :: e[i] as int < 128;
    } else if c as int >= 0x20 && c != '"' && c != '\\' {
      assert e == [c] && e[0] == c;
      assert Base64.IsLatin1(e) ==> e[0] as int < 256;
    }
  }

  /** Escaping neither adds nor removes characters above U+00FF. */
  lemma {:induction false} EscapeLatin1(s: string)
    ensures Base64.IsLatin1(Escape(s)) <==> Base64.IsLatin1(s)
  {
    if s != [] {
      EscapeCharLatin1(s[0]);
      EscapeLatin1(s[1..]);
      Base64.Latin1Concat(EscapeChar(s[0]), Escape(s[1..]));
      Base64.Latin1Concat([s[0]], s[1..]);
      assert s == [s[0]] + s[1..];
    }
  }

  lemma MemberLatin1(name: string, value: string)
    ensures Base64.IsLatin1(Member(name, value)) <==> Base64.IsLatin1(name) && Base64.IsLatin1(value)
  {
    EscapeLatin1(name);
    EscapeLatin1(value);
    Base64.Latin1Concat("\"", Escape(name));
    Base64.Latin1Concat("\"" + Escape(name), "\"");
    Base64.Latin1Concat("\"", Escape(value));
    Base64.Latin1Concat("\"" + Escape(value), "\"");
    Base64.Latin1Concat(Quote(name), ":");
    Base64.Latin1Concat(Quote(name) + ":", Quote(value));
  }

  lemma TwoMemberLatin1(k1: string, v1: string, k2: string, v2: string)
    ensures Base64.IsLatin1("{" + Member(k1, v1) + "," + Member(k2, v2) + "}")
        <==> Base64.IsLatin1(k1) && Base64.IsLatin1(v1) && Base64.IsLatin1(k2) && Base64.IsLatin1(v2)
  {
    var m1 := Member(k1, v1);
    var m2 := Member(k2, v2);
    MemberLatin1(k1, v1);
    MemberLatin1(k2, v2);
    Base64.Latin1Concat("{", m1);
    Base64.Latin1Concat("{" + m1, ",");
    Base64.Latin1Concat("{" + m1 + ",", m2);
    Base64.Latin1Concat("{" + m1 + "," + m2, "}");
  }

  /** The JSON text of a descriptor is a binary string exactly when its SDP is. */
  lemma StringifyLatin1(d: Description)
    ensures Base64.IsLatin1(Stringify(d)) <==> Base64.IsLatin1(d.sdp)
  {
    assert Base64.IsLatin1(SdpTypeName(d.kind));
    assert Base64.IsLatin1("type") && Base64.IsLatin1("sdp");
    TwoMemberLatin1("type", SdpTypeName(d.kind), "sdp", d.sdp);
  }
}
