/**
 * The peer connection the call drives, seen from outside: its senders, the
 * offer/answer signalling state of section 3.2 of RFC 8829 (JSEP) with the pending
 * and current descriptions that the WebRTC 1.0 API keeps beside it, and the
 * connection and ICE states it reports. SDP contents, ICE gathering and media
 * transport are not part of this model.
 */
module Transport {

  import opened Wrappers
  import opened Types
  import opened Media

  datatype SignalingState = Stable | HaveLocalOffer | HaveRemoteOffer | HaveLocalPranswer | HaveRemotePranswer

  /** RTCPeerConnectionState. */
  datatype PeerConnectionState = New | Connecting | Connected | Disconnected | Failed | Closed

  /** RTCIceConnectionState. */
  datatype IceConnectionState = IceNew | IceChecking | IceConnected | IceCompleted | IceDisconnected | IceFailed | IceClosed

  /** An RTCRtpSender, reduced to the track it sends (if any). */
  datatype Sender = Sender(track: Option<Track>)

  /** The signalling state with the descriptions set so far. */
  datatype Negotiation = Negotiation(
    signaling: SignalingState,
    pendingLocal: Option<Description>,
    currentLocal: Option<Description>,
    pendingRemote: Option<Description>,
    currentRemote: Option<Description>)

  const Initial := Negotiation(Stable, None, None, None, None)

  predicate IsKind(d: Option<Description>, kind: SdpType)
  {
    d.Some? && d.value.kind == kind
  }

  /** Each signalling state names exactly which pending descriptions exist, and of which type. */
  predicate Consistent(n: Negotiation)
  {
    match n.signaling
    case Stable => n.pendingLocal.None? && n.pendingRemote.None?
    case HaveLocalOffer => IsKind(n.pendingLocal, Offer) && n.pendingRemote.None?
    case HaveRemoteOffer => n.pendingLocal.None? && IsKind(n.pendingRemote, Offer)
    case HaveLocalPranswer => IsKind(n.pendingLocal, Pranswer) && IsKind(n.pendingRemote, Offer)
    case HaveRemotePranswer => IsKind(n.pendingLocal, Offer) && IsKind(n.pendingRemote, Pranswer)
  }

  /** `localDescription`: the pending local description if there is one, else the current one. */
  function EffectiveLocal(n: Negotiation): Option<Description>
  {
    if n.pendingLocal.Some? then n.pendingLocal else n.currentLocal
  }

  /** `remoteDescription`: the pending remote description if there is one, else the current one. */
  function EffectiveRemote(n: Negotiation): Option<Description>
  {
    if n.pendingRemote.Some? then n.pendingRemote else n.currentRemote
  }

  /** The states in which `createAnswer` has an offer to answer. */
  predicate Answerable(s: SignalingState)
  {
    s == HaveRemoteOffer || s == HaveLocalPranswer
  }

  /**
   * The JSEP transition for a description of type `kind` applied locally or
   * remotely; `None` where the API rejects it with an InvalidStateError.
   */
  function NextSignaling(s: SignalingState, local: bool, kind: SdpType): (r: Option<SignalingState>)
  {
    match kind
    case Offer =>
      if local then (if s == Stable || s == HaveLocalOffer then Some(HaveLocalOffer) else None)
      else (if s == Stable || s == HaveRemoteOffer then Some(HaveRemoteOffer) else None)
    case Answer =>
      if local then (if s == HaveRemoteOffer || s == HaveLocalPranswer then Some(Stable) else None)
      else (if s == HaveLocalOffer || s == HaveRemotePranswer then Some(Stable) else None)
    case Pranswer =>
      if local then (if s == HaveRemoteOffer || s == HaveLocalPranswer then Some(HaveLocalPranswer) else None)
      else (if s == HaveLocalOffer || s == HaveRemotePranswer then Some(HaveRemotePranswer) else None)
    case Rollback =>
      if s == HaveLocalOffer || s == HaveRemoteOffer then Some(Stable) else None
  }

  /**
   * Setting a description: an offer or provisional answer becomes pending; a final
   * answer makes both sides' descriptions current and clears the pending ones; a
   * rollback discards the pending descriptions.
   */
  function Apply(n: Negotiation, local: bool, d: Description): (r: Option<Negotiation>)
    ensures r.Some? <==> NextSignaling(n.signaling, local, d.kind).Some?
    ensures r.Some? ==> r.value.signaling == NextSignaling(n.signaling, local, d.kind).value
    ensures Consistent(n) && r.Some? ==> Consistent(r.value)
  {
    match NextSignaling(n.signaling, local, d.kind)
    case None => None
    case Some(s) =>
      if d.kind == Rollback then Some(n.(signaling := Stable, pendingLocal := None, pendingRemote := None))
      else if d.kind == Answer then
        if local then Some(Negotiation(Stable, None, Some(d), None, n.pendingRemote))
        else Some(Negotiation(Stable, None, n.pendingLocal, None, Some(d)))
      else if local then Some(n.(signaling := s, pendingLocal := Some(d)))
      else Some(n.(signaling := s, pendingRemote := Some(d)))
  }

  /** An accepted description other than a rollback is the one the connection then reports for its side. */
  lemma ApplyReports(n: Negotiation, local: bool, d: Description)
    requires Consistent(n) && d.kind != Rollback && Apply(n, local, d).Some?
    ensures local ==> EffectiveLocal(Apply(n, local, d).value) == Some(d)
    ensures !local ==> EffectiveRemote(Apply(n, local, d).value) == Some(d)
    ensures local ==> EffectiveRemote(Apply(n, local, d).value) == EffectiveRemote(n)
    ensures !local ==> EffectiveLocal(Apply(n, local, d).value) == EffectiveLocal(n)
  {
  }

  /** The offerer's side of one exchange: its offer, then the answer, leave it stable with both current. */
  lemma OffererExchange(offer: string, answer: string)
    ensures Apply(Initial, true, Description(Offer, offer)).Some?
    ensures Apply(Apply(Initial, true, Description(Offer, offer)).value, false, Description(Answer, answer))
         == Some(Negotiation(Stable, None, Some(Description(Offer, offer)), None, Some(Description(Answer, answer))))
  {
  }

  /** The answerer's side of one exchange. */
  lemma AnswererExchange(offer: string, answer: string)
    ensures Apply(Initial, false, Description(Offer, offer)).Some?
    ensures Apply(Apply(Initial, false, Description(Offer, offer)).value, true, Description(Answer, answer))
         == Some(Negotiation(Stable, None, Some(Description(Answer, answer)), None, Some(Description(Offer, offer))))
  {
  }

  /** From a stable state, an offer followed by a rollback of it restores the previous state. */
  lemma RollbackUndoesOffer(n: Negotiation, local: bool, offer: string, rollback: string)
    requires Consistent(n) && n.signaling == Stable
    ensures Apply(n, local, Description(Offer, offer)).Some?
    ensures Apply(Apply(n, local, Description(Offer, offer)).value, local, Description(Rollback, rollback)) == Some(n)
  {
  }

  /** An answer is accepted only after an offer from the other side. */
  lemma AnswerNeedsOffer(n: Negotiation, local: bool, d: Description)
    requires Consistent(n) && d.kind == Answer && Apply(n, local, d).Some?
    ensures local ==> IsKind(n.pendingRemote, Offer)
    ensures !local ==> IsKind(n.pendingLocal, Offer)
  {
  }

  /**
   * What `setRemoteDescription` does to the negotiation: the JSEP transition where
   * it exists; an offer that arrives while a local offer is pending is applied after
   * an implicit local rollback of that offer, as the WebRTC 1.0 algorithm for
   * setting a remote offer prescribes; anything else is refused.
   */
  function ApplyRemote(n: Negotiation, d: Description): (r: Option<Negotiation>)
    ensures Apply(n, false, d).Some? ==> r == Apply(n, false, d)
    ensures Apply(n, false, d).None? ==> (r.Some? <==> d.kind == Offer && n.signaling == HaveLocalOffer)
    ensures Apply(n, false, d).None? && r.Some? ==>
      r.value == Negotiation(HaveRemoteOffer, None, n.currentLocal, Some(d), n.currentRemote)
    ensures Consistent(n) && r.Some? ==> Consistent(r.value)
  {
    if Apply(n, false, d).Some? then Apply(n, false, d)
    else if d.kind == Offer then
      match Apply(n, true, Description(Rollback, ""))
      case None => None
      case Some(m) => Apply(m, false, d)
    else None
  }

  /** An accepted remote description other than a rollback is the one `remoteDescription` then reports. */
  lemma ApplyRemoteReports(n: Negotiation, d: Description)
    requires Consistent(n) && d.kind != Rollback && ApplyRemote(n, d).Some?
    ensures EffectiveRemote(ApplyRemote(n, d).value) == Some(d)
  {
    if Apply(n, false, d).Some? {
      ApplyReports(n, false, d);
    }
  }

  /**
   * Both peers started as host: the offer pasted from the other side replaces the
   * pending local offer, and the connection is left answering it.
   */
  lemma CrossedOffers(mine: string, theirs: string)
    ensures Apply(Initial, true, Description(Offer, mine)).Some?
    ensures ApplyRemote(Apply(Initial, true, Description(Offer, mine)).value, Description(Offer, theirs))
         == Some(Negotiation(HaveRemoteOffer, None, None, Some(Description(Offer, theirs)), None))
    ensures Answerable(ApplyRemote(Apply(Initial, true, Description(Offer, mine)).value, Description(Offer, theirs)).value.signaling)
  {
  }

  /** A sender after the toggle loop's body: its track's `enabled` set to `flag` if it has a track of `kind`. */
  function WithEnabled(s: Sender, kind: TrackKind, flag: bool): (r: Sender)
  {
    if s.track.Some? && s.track.value.kind == kind then Sender(Some(s.track.value.(enabled := flag))) else s
  }

  /** Every sender after the whole toggle loop. */
  function AllWithEnabled(senders: seq<Sender>, kind: TrackKind, flag: bool): (r: seq<Sender>)
    ensures |r| == |senders|
    ensures forall i :: 0 <= i < |senders| ==> r[i] == WithEnabled(senders[i], kind, flag)
  {
    if senders == [] then [] else [WithEnabled(senders[0], kind, flag)] + AllWithEnabled(senders[1..], kind, flag)
  }

  /** The toggle touches exactly the senders with a track of its kind; they all end with `enabled == flag`. */
  lemma AllWithEnabledEffect(senders: seq<Sender>, kind: TrackKind, flag: bool, i: nat)
    requires i < |senders|
    ensures var r := AllWithEnabled(senders, kind, flag)[i];
      if senders[i].track.Some? && senders[i].track.value.kind == kind
      then r.track.Some? && r.track.value == senders[i].track.value.(enabled := flag)
      else r == senders[i]
  {
  }

  /** Of two toggles of the same kind, the later one decides. */
  lemma AllWithEnabledLastWins(senders: seq<Sender>, kind: TrackKind, a: bool, b: bool)
    ensures AllWithEnabled(AllWithEnabled(senders, kind, a), kind, b) == AllWithEnabled(senders, kind, b)
  {
    var lhs := AllWithEnabled(AllWithEnabled(senders, kind, a), kind, b);
    var rhs := AllWithEnabled(senders, kind, b);
    assert forall i :: 0 <= i < |senders| ==> lhs[i] == rhs[i];
  }

  /** Two toggles in a row restore senders whose tracks of that kind agreed with the flag. */
  lemma ToggleTwiceRestores(senders: seq<Sender>, kind: TrackKind, flag: bool)
    requires KindEnabled(senders, kind, flag)
    ensures AllWithEnabled(AllWithEnabled(senders, kind, !flag), kind, flag) == senders
  {
    AllWithEnabledLastWins(senders, kind, !flag, flag);
    AllWithEnabledNoChange(senders, kind, flag);
  }

  predicate KindEnabled(senders: seq<Sender>, kind: TrackKind, flag: bool)
  {
    forall i :: 0 <= i < |senders| && senders[i].track.Some? && senders[i].track.value.kind == kind ==>
      senders[i].track.value.enabled == flag
  }

  /** Setting the flag the senders of that kind already carry changes nothing. */
  lemma AllWithEnabledNoChange(senders: seq<Sender>, kind: TrackKind, flag: bool)
    requires KindEnabled(senders, kind, flag)
    ensures AllWithEnabled(senders, kind, flag) == senders
  {
    var r := AllWithEnabled(senders, kind, flag);
    forall i | 0 <= i < |senders| ensures r[i] == senders[i] {
      if senders[i].track.Some? && senders[i].track.value.kind == kind {
        assert senders[i].track.value.(enabled := flag) == senders[i].track.value;
      }
    }
  }

  /** The senders `addTrack` creates for a list of local tracks, in order. */
  function SendersFor(tracks: seq<Track>): (r: seq<Sender>)
    ensures |r| == |tracks|
    ensures forall i :: 0 <= i < |tracks| ==> r[i] == Sender(Some(tracks[i]))
  {
    if tracks == [] then [] else [Sender(Some(tracks[0]))] + SendersFor(tracks[1..])
  }

  /** An RTCPeerConnection as the call uses it. */
  class PeerConnection {

    var senders: seq<Sender>
    var signaling: SignalingState
    var pendingLocal: Option<Description>
    var currentLocal: Option<Description>
    var pendingRemote: Option<Description>
    var currentRemote: Option<Description>
    var connectionState: PeerConnectionState
    var iceConnectionState: IceConnectionState

    function State(): Negotiation
      reads this
    {
      Negotiation(signaling, pendingLocal, currentLocal, pendingRemote, currentRemote)
    }

    predicate Valid()
      reads this
    {
      Consistent(State())
    }

    function LocalDescription(): Option<Description>
      reads this
    {
      EffectiveLocal(State())
    }

    function RemoteDescription(): Option<Description>
      reads this
    {
      EffectiveRemote(State())
    }

    constructor()
      ensures Valid() && State() == Initial && senders == []
      ensures connectionState == New && iceConnectionState == IceNew
    {
      senders := [];
      signaling := Stable;
      pendingLocal := None;
      currentLocal := None;
      pendingRemote := None;
      currentRemote := None;
      connectionState := New;
      iceConnectionState := IceNew;
    }

    /** `addTrack`: one more sender, sending the given track. */
    method AddTrack(t: Track)
      modifies this`senders
      ensures senders == old(senders) + [Sender(Some(t))]
    {
      senders := senders + [Sender(Some(t))];
    }

    /**
     * `createOffer`. The SDP the browser generates, or its failure (`None`), is
     * chosen by the environment and passed in as `generated`. The browser also
     * refuses to make an offer outside the stable and have-local-offer states; that
     * refusal is not separated out here, because `SetLocalDescription` refuses a
     * local offer in exactly those states, so the caller ends in the same place.
     */
    method CreateOffer(generated: Option<string>) returns (offer: Option<Description>)
      ensures offer.Some? <==> generated.Some?
      ensures offer.Some? ==> offer.value.kind == Offer && offer.value.sdp == generated.value
    {
      if generated.Some? {
        offer := Some(Description(Offer, generated.value));
      } else {
        offer := None;
      }
    }

    /**
     * `createAnswer`: refused unless a remote offer is being answered; otherwise the
     * environment's SDP or failure, as for `CreateOffer`.
     */
    method CreateAnswer(generated: Option<string>) returns (answer: Option<Description>)
      ensures answer.Some? <==> generated.Some? && Answerable(signaling)
      ensures answer.Some? ==> answer.value.kind == Answer && answer.value.sdp == generated.value
    {
      if generated.Some? && Answerable(signaling) {
        answer := Some(Description(Answer, generated.value));
      } else {
        answer := None;
      }
    }

    /** `setLocalDescription`: resolves (`ok`) exactly when the JSEP transition exists. */
    method SetLocalDescription(d: Description) returns (ok: bool)
      requires Valid()
      modifies this`signaling, this`pendingLocal, this`currentLocal, this`pendingRemote, this`currentRemote
      ensures Valid()
      ensures ok <==> Apply(old(State()), true, d).Some?
      ensures State() == if ok then Apply(old(State()), true, d).value else old(State())
    {
      var next := Apply(State(), true, d);
      if next.None? {
        return false;
      }
      SetState(next.value);
      ok := true;
    }

    /**
     * `setRemoteDescription`: resolves exactly when the browser accepts the SDP
     * (`accepted`, chosen by the environment) and `ApplyRemote` has a transition,
     * counting the implicit rollback of a pending local offer.
     */
    method SetRemoteDescription(d: Description, accepted: bool) returns (ok: bool)
      requires Valid()
      modifies this`signaling, this`pendingLocal, this`currentLocal, this`pendingRemote, this`currentRemote
      ensures Valid()
      ensures ok <==> accepted && ApplyRemote(old(State()), d).Some?
      ensures State() == if ok then ApplyRemote(old(State()), d).value else old(State())
    {
      var next := ApplyRemote(State(), d);
      if !accepted || next.None? {
        return false;
      }
      SetState(next.value);
      ok := true;
    }

    method SetState(n: Negotiation)
      modifies this`signaling, this`pendingLocal, this`currentLocal, this`pendingRemote, this`currentRemote
      ensures State() == n
    {
      signaling := n.signaling;
      pendingLocal := n.pendingLocal;
      currentLocal := n.currentLocal;
      pendingRemote := n.pendingRemote;
      currentRemote := n.currentRemote;
    }

    /** The transport reports a new connection state. */
    method ConnectionStateChanged(s: PeerConnectionState)
      modifies this`connectionState
      ensures connectionState == s
    {
      connectionState := s;
    }

    /** The transport reports a new ICE connection state. */
    method IceConnectionStateChanged(s: IceConnectionState)
      modifies this`iceConnectionState
      ensures iceConnectionState == s
    {
      iceConnectionState := s;
    }
  }
}
