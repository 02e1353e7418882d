/**
 * The browser's `btoa` and `atob`: base64 with the alphabet and `=` padding of
 * section 4 of RFC 4648 for encoding, and the "forgiving-base64 decode" of the
 * WHATWG Infra standard for decoding (ASCII whitespace is ignored, padding is
 * optional, left-over bits are discarded). Both work on "binary strings": strings
 * whose every character is a Latin-1 code unit standing for one byte.
 */
module Base64 {

  import opened Wrappers

  type Byte = x: int | 0 <= x < 256

  /** A 6-bit value: the index of a base64 alphabet character. */
  type Sextet = x: int | 0 <= x < 64

  /** The 64 characters of the alphabet of RFC 4648, section 4, Table 1. */
  predicate IsAlphabetChar(c: char)
  {
    ('A' <= c <= 'Z') || ('a' <= c <= 'z') || ('0' <= c <= '9') || c == '+' || c == '/'
  }

  predicate AllAlphabet(s: string)
  {
    forall i :: 0 <= i < |s| ==> IsAlphabetChar(s[i])
  }

  function EncodeSextet(v: Sextet): (c: char)
    ensures IsAlphabetChar(c)
  {
    if v < 26 then ('A' as int + v) as char
    else if v < 52 then ('a' as int + (v - 26)) as char
    else if v < 62 then ('0' as int + (v - 52)) as char
    else if v == 62 then '+'
    else '/'
  }

  /** The index of an alphabet character (0 for any other character, which `Decode` rejects first). */
  function DecodeSextet(c: char): (v: Sextet)
  {
    if 'A' <= c <= 'Z' then c as int - 'A' as int
    else if 'a' <= c <= 'z' then c as int - 'a' as int + 26
    else if '0' <= c <= '9' then c as int - '0' as int + 52
    else if c == '+' then 62
    else if c == '/' then 63
    else 0
  }

  /** Four alphabet characters for three bytes (24 bits, most significant first). */
  function Quantum(b0: Byte, b1: Byte, b2: Byte): (s: string)
  {
    [ EncodeSextet(b0 / 4),
      EncodeSextet((b0 % 4) * 16 + b1 / 16),
      EncodeSextet((b1 % 16) * 4 + b2 / 64),
      EncodeSextet(b2 % 64) ]
  }

  /**
   * The unpadded encoding: whole quanta, then 2 characters for one trailing byte
   * or 3 for two (the missing bits are zero, as section 4 of RFC 4648 says).
   */
  function EncodeGroups(b: seq<Byte>): (s: string)
    ensures |s| == 4 * (|b| / 3) + (if |b| % 3 == 0 then 0 else |b| % 3 + 1)
    ensures AllAlphabet(s)
    decreases |b|
  {
    if |b| == 0 then []
    else if |b| == 1 then Quantum(b[0], 0, 0)[..2]
    else if |b| == 2 then Quantum(b[0], b[1], 0)[..3]
    else Quantum(b[0], b[1], b[2]) + EncodeGroups(b[3..])
  }

  /** The `=` characters that fill the final quantum. */
  function Padding(n: nat): string
  {
    if n % 3 == 1 then "==" else if n % 3 == 2 then "=" else ""
  }

  /** Base64 encoding with padding (RFC 4648, section 4). */
  function Encode(b: seq<Byte>): (s: string)
    ensures |s| == 4 * ((|b| + 2) / 3)
    ensures forall i :: 0 <= i < |s| ==> IsAlphabetChar(s[i]) || s[i] == '='
  {
    PaddedLength(|b|);
    EncodeGroups(b) + Padding(|b|)
  }

  /** The unpadded length plus the padding is a whole number of quanta. */
  lemma PaddedLength(n: nat)
    ensures 4 * (n / 3) + (if n % 3 == 0 then 0 else n % 3 + 1) + |Padding(n)| == 4 * ((n + 2) / 3)
  {
    var q := n / 3;
    var r := n % 3;
    DivMod3(q, r);
    if r == 0 {
      DivMod3(q, 2);
    } else {
      DivMod3(q + 1, r - 1);
    }
  }

  lemma DivMod3(hi: int, lo: int)
    requires 0 <= lo < 3
    ensures (hi * 3 + lo) / 3 == hi && (hi * 3 + lo) % 3 == lo
  {
  }

  /** Three bytes from four sextets; in a short final group the extra bits are dropped. */
  function Unquantum(c0: Sextet, c1: Sextet, c2: Sextet, c3: Sextet): (b: seq<Byte>)
  {
    [c0 * 4 + c1 / 16, (c1 % 16) * 16 + c2 / 4, (c2 % 4) * 64 + c3]
  }

  /** The bytes of an unpadded run of alphabet characters (a dangling single character gives none). */
  function DecodeGroups(s: string): (b: seq<Byte>)
    decreases |s|
  {
    if |s| <= 1 then []
    else if |s| == 2 then Unquantum(DecodeSextet(s[0]), DecodeSextet(s[1]), 0, 0)[..1]
    else if |s| == 3 then Unquantum(DecodeSextet(s[0]), DecodeSextet(s[1]), DecodeSextet(s[2]), 0)[..2]
    else DecodeQuantum(s[..4]) + DecodeGroups(s[4..])
  }

  /** The three bytes of a whole quantum of four characters. */
  function DecodeQuantum(q: string): (b: seq<Byte>)
    requires |q| == 4
  {
    Unquantum(DecodeSextet(q[0]), DecodeSextet(q[1]), DecodeSextet(q[2]), DecodeSextet(q[3]))
  }

  /** The ASCII whitespace of the Infra standard: TAB, LF, FF, CR and SPACE. */
  predicate IsAsciiWhitespace(c: char)
  {
    c == '\t' || c == '\n' || c as int == 0x0C || c == '\r' || c == ' '
  }

  function RemoveWhitespace(s: string): (t: string)
    ensures |t| <= |s|
    ensures forall i :: 0 <= i < |t| ==> !IsAsciiWhitespace(t[i])
  {
    if s == [] then []
    else if IsAsciiWhitespace(s[0]) then RemoveWhitespace(s[1..])
    else [s[0]] + RemoveWhitespace(s[1..])
  }

  /** When the length is a multiple of four, one or two final `=` are dropped. */
  function StripPadding(t: string): (u: string)
  {
    if |t| % 4 == 0 && |t| >= 2 && t[|t| - 2] == '=' && t[|t| - 1] == '=' then t[..|t| - 2]
    else if |t| % 4 == 0 && |t| >= 1 && t[|t| - 1] == '=' then t[..|t| - 1]
    else t
  }

  /** The forgiving-base64 decode of the Infra standard; `None` is its failure. */
  function Decode(s: string): (r: Option<seq<Byte>>)
  {
    var u := StripPadding(RemoveWhitespace(s));
    if |u| % 4 == 1 || !AllAlphabet(u) then None else Some(DecodeGroups(u))
  }

  lemma SextetRoundTrip(v: Sextet)
    ensures DecodeSextet(EncodeSextet(v)) == v
  {
  }

  /** Splitting a number into a quotient and a remainder by 16 is unique. */
  lemma DivMod16(hi: int, lo: int)
    requires 0 <= lo < 16
    ensures (hi * 16 + lo) / 16 == hi && (hi * 16 + lo) % 16 == lo
  {
  }

  /** Splitting a number into a quotient and a remainder by 4 is unique. */
  lemma DivMod4(hi: int, lo: int)
    requires 0 <= lo < 4
    ensures (hi * 4 + lo) / 4 == hi && (hi * 4 + lo) % 4 == lo
  {
  }

  lemma QuantumRoundTrip(b0: Byte, b1: Byte, b2: Byte)
    ensures DecodeQuantum(Quantum(b0, b1, b2)) == [b0, b1, b2]
  {
    var c0, c1, c2, c3 := b0 / 4, (b0 % 4) * 16 + b1 / 16, (b1 % 16) * 4 + b2 / 64, b2 % 64;
    SextetRoundTrip(c0);
    SextetRoundTrip(c1);
    SextetRoundTrip(c2);
    SextetRoundTrip(c3);
    DivMod16(b0 % 4, b1 / 16);
    DivMod4(b1 % 16, b2 / 64);
    assert c0 * 4 + c1 / 16 == b0;
    assert (c1 % 16) * 16 + c2 / 4 == b1;
    assert (c2 % 4) * 64 + c3 == b2;
  }

  /** Decoding a string that starts with a whole quantum decodes that quantum first. */
  lemma DecodeGroupsCons(q: string, rest: string)
    requires |q| == 4
    ensures DecodeGroups(q + rest) == DecodeQuantum(q) + DecodeGroups(rest)
  {
    var s := q + rest;
    assert s[..4] == q && s[4..] == rest;
  }

  lemma {:induction false} DecodeEncodeGroups(b: seq<Byte>)
    ensures DecodeGroups(EncodeGroups(b)) == b
    decreases |b|
  {
    if |b| < 3 {
      DecodeEncodeShort(b);
    } else {
      DecodeEncodeGroups(b[3..]);
      DecodeEncodeStep(b);
    }
  }

  lemma DecodeEncodeShort(b: seq<Byte>)
    requires |b| < 3
    ensures DecodeGroups(EncodeGroups(b)) == b
  {
    if |b| == 1 {
      DecodeEncodeOne(b);
    } else if |b| == 2 {
      DecodeEncodeTwo(b);
    }
  }

  lemma DecodeEncodeOne(b: seq<Byte>)
    requires |b| == 1
    ensures DecodeGroups(EncodeGroups(b)) == b
  {
    var q := Quantum(b[0], 0, 0);
    assert EncodeGroups(b) == q[..2];
    DecodeFirstTwo(q);
    QuantumRoundTrip(b[0], 0, 0);
    assert b == [b[0]];
  }

  lemma DecodeEncodeTwo(b: seq<Byte>)
    requires |b| == 2
    ensures DecodeGroups(EncodeGroups(b)) == b
  {
    var q := Quantum(b[0], b[1], 0);
    assert EncodeGroups(b) == q[..3];
    DecodeFirstThree(q);
    QuantumRoundTrip(b[0], b[1], 0);
    assert b == [b[0], b[1]];
  }

  /** Two characters of a quantum decode to the first of its three bytes. */
  lemma DecodeFirstTwo(q: string)
    requires |q| == 4
    ensures DecodeGroups(q[..2]) == DecodeQuantum(q)[..1]
  {
    var p := q[..2];
    assert p[0] == q[0] && p[1] == q[1];
  }

  /** Three characters of a quantum decode to the first two of its three bytes. */
  lemma DecodeFirstThree(q: string)
    requires |q| == 4
    ensures DecodeGroups(q[..3]) == DecodeQuantum(q)[..2]
  {
    var p := q[..3];
    assert p[0] == q[0] && p[1] == q[1] && p[2] == q[2];
  }

  lemma DecodeEncodeStep(b: seq<Byte>)
    requires |b| >= 3 && DecodeGroups(EncodeGroups(b[3..])) == b[3..]
    ensures DecodeGroups(EncodeGroups(b)) == b
  {
    var q := Quantum(b[0], b[1], b[2]);
    var rest := EncodeGroups(b[3..]);
    assert EncodeGroups(b) == q + rest;
    DecodeGroupsCons(q, rest);
    QuantumRoundTrip(b[0], b[1], b[2]);
    FirstThree(b);
  }

  lemma FirstThree(b: seq<Byte>)
    requires |b| >= 3
    ensures b == [b[0], b[1], b[2]] + b[3..]
  {
  }

  /** Removing ASCII whitespace leaves a string without whitespace unchanged. */
  lemma {:induction false} RemoveWhitespaceNone(s: string)
    requires forall i :: 0 <= i < |s| ==> !IsAsciiWhitespace(s[i])
    ensures RemoveWhitespace(s) == s
  {
    if s != [] {
      RemoveWhitespaceNone(s[1..]);
    }
  }

  /** Dropping the padding of an encoding leaves exactly the unpadded groups. */
  /** The unpadded encoding leaves 0, 2 or 3 characters after its last whole quantum. */
  lemma GroupsRemainder(b: seq<Byte>)
    ensures |EncodeGroups(b)| % 4 == if |b| % 3 == 0 then 0 else |b| % 3 + 1
  {
    var q := |b| / 3;
    var r := if |b| % 3 == 0 then 0 else |b| % 3 + 1;
    assert |EncodeGroups(b)| == q * 4 + r;
    DivMod4(q, r);
  }

  lemma StripPaddingOfEncode(b: seq<Byte>)
    ensures StripPadding(Encode(b)) == EncodeGroups(b)
  {
    var g := EncodeGroups(b);
    GroupsRemainder(b);
    assert Encode(b) == g + Padding(|b|);
    if |b| % 3 == 1 {
      StripTwo(g);
    } else if |b| % 3 == 2 {
      StripOne(g);
    } else {
      StripNone(g);
    }
  }

  lemma StripTwo(g: string)
    requires |g| % 4 == 2
    ensures StripPadding(g + "==") == g
  {
    var e := g + "==";
    assert e[..|e| - 2] == g;
  }

  lemma StripOne(g: string)
    requires |g| % 4 == 3 && AllAlphabet(g)
    ensures StripPadding(g + "=") == g
  {
    var e := g + "=";
    assert e[|e| - 2] == g[|g| - 1];
    assert e[..|e| - 1] == g;
  }

  lemma StripNone(g: string)
    requires |g| % 4 == 0 && AllAlphabet(g)
    ensures StripPadding(g + "") == g
  {
    assert g + "" == g;
    if |g| >= 1 {
      assert IsAlphabetChar(g[|g| - 1]);
    }
  }

  /** `atob` inverts the padded encoding: decode(encode(b)) == b for every byte sequence. */
  lemma DecodeEncode(b: seq<Byte>)
    ensures Decode(Encode(b)) == Some(b)
  {
    var g := EncodeGroups(b);
    EncodeHasNoWhitespace(b);
    StripPaddingOfEncode(b);
    GroupsRemainder(b);
    DecodeEncodeGroups(b);
    assert AllAlphabet(g);
  }

  lemma EncodeHasNoWhitespace(b: seq<Byte>)
    ensures RemoveWhitespace(Encode(b)) == Encode(b)
  {
    var e := Encode(b);
    forall i | 0 <= i < |e| ensures !IsAsciiWhitespace(e[i]) {
      assert IsAlphabetChar(e[i]) || e[i] == '=';
    }
    RemoveWhitespaceNone(e);
  }

  /** A character that is not whitespace survives the removal of whitespace. */
  lemma {:induction false} RemoveWhitespaceKeeps(s: string, i: nat)
    requires i < |s| && !IsAsciiWhitespace(s[i])
    ensures s[i] in RemoveWhitespace(s)
  {
    if i > 0 {
      RemoveWhitespaceKeeps(s[1..], i - 1);
      assert s[1..][i - 1] == s[i];
    }
  }

  /**
   * Removing whitespace works character by character: the removal of a
   * concatenation is the concatenation of the removals, so the surviving
   * characters keep their order and their number.
   */
  lemma {:induction false} RemoveWhitespaceConcat(a: string, b: string)
    ensures RemoveWhitespace(a + b) == RemoveWhitespace(a) + RemoveWhitespace(b)
  {
    if a != [] {
      assert (a + b)[0] == a[0];
      assert (a + b)[1..] == a[1..] + b;
      RemoveWhitespaceConcat(a[1..], b);
    } else {
      assert a + b == b;
    }
  }

  /** `atob` rejects any string holding a character that is not base64, whitespace or `=`. */
  lemma DecodeRejectsForeignChar(s: string, i: nat)
    requires i < |s|
    requires !IsAlphabetChar(s[i]) && !IsAsciiWhitespace(s[i]) && s[i] != '='
    ensures Decode(s) == None
  {
    var t := RemoveWhitespace(s);
    var u := StripPadding(t);
    RemoveWhitespaceKeeps(s, i);
    var j :| 0 <= j < |t| && t[j] == s[i];
    assert j < |u| && u[j] == s[i];
  }

  /** `atob` rejects a run of base64 characters whose length leaves remainder 1 modulo 4. */
  lemma DecodeRejectsDanglingChar(s: string)
    requires AllAlphabet(s) && |s| % 4 == 1
    ensures Decode(s) == None
  {
    assert forall i :: 0 <= i < |s| ==> !IsAsciiWhitespace(s[i]);
    RemoveWhitespaceNone(s);
  }

  /** A binary string: every character is a single Latin-1 code unit. */
  predicate IsLatin1(s: string)
  {
    forall i :: 0 <= i < |s| ==> s[i] as int < 256
  }

  lemma Latin1Concat(a: string, b: string)
    ensures IsLatin1(a + b) <==> IsLatin1(a) && IsLatin1(b)
  {
    if IsLatin1(a) && IsLatin1(b) {
      forall i | 0 <= i < |a + b| ensures (a + b)[i] as int < 256 {
        if i >= |a| { assert (a + b)[i] == b[i - |a|]; }
      }
    }
    if IsLatin1(a + b) {
      forall i | 0 <= i < |a| ensures a[i] as int < 256 {
        assert (a + b)[i] == a[i];
      }
      forall i | 0 <= i < |b| ensures b[i] as int < 256 {
        assert (a + b)[|a| + i] == b[i];
      }
    }
  }

  /** The binary string of a byte sequence (`String.fromCharCode` per byte). */
  function Latin1(b: seq<Byte>): (s: string)
    ensures |s| == |b|
    ensures forall i :: 0 <= i < |b| ==> s[i] as int == b[i]
  {
    if b == [] then [] else [b[0] as char] + Latin1(b[1..])
  }

  /** The bytes of a binary string (`charCodeAt` per character). */
  function Codes(s: string): (b: seq<Byte>)
    requires IsLatin1(s)
    ensures |b| == |s|
    ensures forall i :: 0 <= i < |s| ==> b[i] == s[i] as int
  {
    if s == [] then [] else [s[0] as int] + Codes(s[1..])
  }

  /** `btoa`: throws (here `None`) on a character above U+00FF, else encodes the bytes. */
  function Btoa(s: string): (r: Option<string>)
  {
    if IsLatin1(s) then Some(Encode(Codes(s))) else None
  }

  /** `atob`: forgiving-base64 decode, bytes read back as a binary string. */
  function Atob(s: string): (r: Option<string>)
    ensures r.Some? ==> IsLatin1(r.value)
  {
    match Decode(s)
    case None => None
    case Some(b) => Some(Latin1(b))
  }

  lemma CodesLatin1(b: seq<Byte>)
    ensures IsLatin1(Latin1(b)) && Codes(Latin1(b)) == b
  {
  }

  lemma Latin1Codes(s: string)
    requires IsLatin1(s)
    ensures Latin1(Codes(s)) == s
  {
  }

  /** The output of `btoa` is base64 characters and padding, in whole quanta of four. */
  lemma BtoaShape(s: string)
    requires IsLatin1(s)
    ensures |Btoa(s).value| % 4 == 0
    ensures forall i :: 0 <= i < |Btoa(s).value| ==> IsAlphabetChar(Btoa(s).value[i]) || Btoa(s).value[i] == '='
  {
    var k := (|Codes(s)| + 2) / 3;
    DivMod4(k, 0);
  }

  /** `btoa` succeeds exactly on binary strings, and `atob` gives their text back. */
  lemma AtobBtoa(s: string)
    ensures Btoa(s).Some? <==> IsLatin1(s)
    ensures IsLatin1(s) ==> Atob(Btoa(s).value) == Some(s)
  {
    if IsLatin1(s) {
      DecodeEncode(Codes(s));
      Latin1Codes(s);
    }
  }
}
