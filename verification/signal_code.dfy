/**
 * The connection code the two peers exchange by hand: the base64 (`btoa`) of the
 * JSON text of a session description, and its reading back through `atob`,
 * `JSON.parse` and the `RTCSessionDescription` constructor.
 */
module SignalCode {

  import opened Wrappers
  import opened Types
  import Base64
  import Json

  /**
   * `new RTCSessionDescription(init)`: the `type` member is required and must name
   * an RTCSdpType exactly; a missing `sdp` member means the empty string; other
   * members are ignored. `None` is the TypeError the constructor throws.
   */
  function FromInit(init: map<string, string>): (r: Option<Description>)
    ensures r.Some? <==> "type" in init && SdpTypeFromName(init["type"]).Some?
    ensures r.Some? ==> SdpTypeName(r.value.kind) == init["type"]
    ensures r.Some? ==> r.value.sdp == if "sdp" in init then init["sdp"] else ""
  {
    if "type" !in init then None
    else
      match SdpTypeFromName(init["type"])
      case None => None
      case Some(kind) => Some(Description(kind, if "sdp" in init then init["sdp"] else ""))
  }

  /** The code published for a description: `btoa(JSON.stringify(description))`; `None` when `btoa` throws. */
  function Encode(d: Description): (code: Option<string>)
  {
    Base64.Btoa(Json.Stringify(d))
  }

  /** Reading a pasted code: `atob`, then `JSON.parse`, then the constructor; `None` when any of them throws. */
  function Decode(code: string): (r: Option<Description>)
  {
    match Base64.Atob(code)
    case None => None
    case Some(text) =>
      match Json.ParseObject(text)
      case None => None
      case Some(init) => FromInit(init)
  }

  /** `btoa` throws on the JSON text exactly when the SDP holds a character above U+00FF. */
  lemma EncodeDefined(d: Description)
    ensures Encode(d).Some? <==> Base64.IsLatin1(d.sdp)
  {
    Json.StringifyLatin1(d);
    Base64.AtobBtoa(Json.Stringify(d));
  }

  /** A published code is made of base64 characters and padding only, in whole quanta of four. */
  lemma EncodeAlphabet(d: Description)
    requires Encode(d).Some?
    ensures |Encode(d).value| % 4 == 0
    ensures forall i :: 0 <= i < |Encode(d).value| ==> Base64.IsAlphabetChar(Encode(d).value[i]) || Encode(d).value[i] == '='
  {
    Base64.BtoaShape(Json.Stringify(d));
  }

  /** Every published code reads back as the very description it was made from. */
  lemma DecodeEncode(d: Description)
    requires Base64.IsLatin1(d.sdp)
    ensures Encode(d).Some?
    ensures Decode(Encode(d).value) == Some(d)
  {
    EncodeDefined(d);
    Base64.AtobBtoa(Json.Stringify(d));
    Json.ParseStringify(d);
    var init := map["type" := SdpTypeName(d.kind), "sdp" := d.sdp];
    assert "type" in init && init["type"] == SdpTypeName(d.kind);
    assert "sdp" in init && init["sdp"] == d.sdp;
  }

  /** Whenever `btoa` can make a code for a description, the code reads back as that description. */
  lemma EncodedDecodes(d: Description)
    requires Encode(d).Some?
    ensures Decode(Encode(d).value) == Some(d)
  {
    EncodeDefined(d);
    DecodeEncode(d);
  }

  /** A code with a character that is neither base64, padding nor whitespace is refused by `atob`. */
  lemma DecodeRejectsForeignChar(code: string, i: nat)
    requires i < |code|
    requires !Base64.IsAlphabetChar(code[i]) && !Base64.IsAsciiWhitespace(code[i]) && code[i] != '='
    ensures Decode(code) == None
  {
    Base64.DecodeRejectsForeignChar(code, i);
  }

  /** A JSON object without a `type` member is refused by the constructor. */
  lemma FromInitNeedsType(init: map<string, string>)
    requires "type" !in init
    ensures FromInit(init) == None
  {
  }
}
