/** The shared enumerations and records of the application (types.ts). */
module Types {

  import opened Wrappers

  /** The phase of the call setup shown by the video call screen. */
  datatype ConnectionState =
    | IDLE
    | CREATING_OFFER
    | WAITING_FOR_ANSWER
    | PROCESSING_OFFER
    | CONNECTED
    | FAILED

  /** The `type` of a session description (the RTCSdpType enumeration). */
  datatype SdpType = Offer | Answer | Pranswer | Rollback

  /** A session description: the `{type, sdp}` record that is exchanged as a connection code. */
  datatype Description = Description(kind: SdpType, sdp: string)

  /** The kind of a media track. */
  datatype TrackKind = Audio | Video

  /** The JSON spelling of each RTCSdpType value. */
  function SdpTypeName(t: SdpType): string
  {
    match t
    case Offer => "offer"
    case Answer => "answer"
    case Pranswer => "pranswer"
    case Rollback => "rollback"
  }

  /** Web IDL enumeration conversion: only the exact spelling of a value is accepted. */
  function SdpTypeFromName(s: string): (r: Option<SdpType>)
    ensures r.Some? ==> SdpTypeName(r.value) == s
    ensures forall t: SdpType :: SdpTypeName(t) == s ==> r == Some(t)
  {
    if s == "offer" then Some(Offer)
    else if s == "answer" then Some(Answer)
    else if s == "pranswer" then Some(Pranswer)
    else if s == "rollback" then Some(Rollback)
    else None
  }
}
