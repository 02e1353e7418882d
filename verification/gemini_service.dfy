/**
 * The two byte helpers of the Gemini service: `encode` spells a byte array as a
 * binary string one character per byte and hands it to `btoa`; `decode` runs
 * `atob` and copies the character codes into a fresh byte array.
 */
module GeminiService {

  import opened Wrappers
  import Base64

  type Byte = Base64.Byte

  /** `encode(bytes)`: the base64 text of the array's bytes. */
  method Encode(bytes: array<Byte>) returns (text: string)
    ensures Base64.Btoa(Base64.Latin1(bytes[..])) == Some(text)
    ensures text == Base64.Encode(bytes[..])
  {
    var binary := "";
    var i := 0;
    while i < bytes.Length
      invariant 0 <= i <= bytes.Length
      invariant |binary| == i
      invariant forall k :: 0 <= k < i ==> binary[k] as int == bytes[k]
    {
      binary := binary + [bytes[i] as char];
      i := i + 1;
    }
    assert Base64.IsLatin1(binary);
    assert Base64.Codes(binary) == bytes[..];
    assert binary == Base64.Latin1(bytes[..]);
    text := Base64.Btoa(binary).value;
  }

  /**
   * `decode(text)`: `None` where `atob` throws; otherwise an array as long as the
   * binary string `atob` returns, holding its character codes.
   */
  method Decode(text: string) returns (bytes: Option<array<Byte>>)
    ensures bytes.None? <==> Base64.Atob(text).None?
    ensures bytes.Some? ==> fresh(bytes.value)
    ensures bytes.Some? ==> bytes.value.Length == |Base64.Atob(text).value|
    ensures bytes.Some? ==> forall i :: 0 <= i < bytes.value.Length ==> bytes.value[i] == Base64.Atob(text).value[i] as int
    ensures bytes.Some? ==> Base64.Decode(text) == Some(bytes.value[..])
  {
    var binary := Base64.Atob(text);
    if binary.None? {
      return None;
    }
    var s := binary.value;
    var a := new Byte[|s|];
    var i := 0;
    while i < |s|
      invariant 0 <= i <= |s|
      invariant forall k :: 0 <= k < i ==> a[k] == s[k] as int
    {
      a[i] := s[i] as int;
      i := i + 1;
    }
    assert a[..] == Base64.Decode(text).value;
    bytes := Some(a);
  }

  /** `decode(encode(bytes))` gives back an array with the same bytes, for every byte array. */
  method EncodeThenDecode(bytes: array<Byte>) returns (copy: Option<array<Byte>>)
    ensures copy.Some? && copy.value[..] == bytes[..]
  {
    var text := Encode(bytes);
    Base64.DecodeEncode(bytes[..]);
    copy := Decode(text);
  }

  /** The empty array encodes to the empty text, and the empty text decodes to no bytes. */
  lemma EmptyCases()
    ensures Base64.Encode([]) == ""
    ensures Base64.Atob("") == Some("")
  {
    assert Base64.RemoveWhitespace("") == "";
    assert Base64.StripPadding("") == "";
    assert Base64.DecodeGroups("") == [];
  }

  /** `decode` throws on text that `atob` rejects as malformed base64. */
  lemma DecodeRejectsMalformed(text: string)
    requires Base64.AllAlphabet(text) && |text| % 4 == 1
    ensures Base64.Atob(text) == None
  {
    Base64.DecodeRejectsDanglingChar(text);
  }
}
