/**
 * The video call screen's call-setup controller: its state, the transport it
 * creates once, the handlers it installs on that transport, the connection-code
 * exchange, the media toggles and the periodic statistics sample.
 */
module VideoCall {

  import opened Wrappers
  import opened Types
  import opened Media
  import opened Transport
  import SignalCode

  /** One entry of a `getStats()` report, with the members the sample reads. */
  datatype StatsReport = StatsReport(
    reportType: string,
    kind: Option<string>,
    mediaType: Option<string>,
    bytesReceived: int,
    packetsLost: int)

  /** The report describes received video. */
  predicate IsInboundVideo(r: StatsReport)
  {
    r.reportType == "inbound-rtp" && (r.kind == Some("video") || r.mediaType == Some("video"))
  }

  /** The position of the last inbound video report, if any. */
  function LastInboundVideo(reports: seq<StatsReport>): (r: Option<nat>)
    ensures r.Some? ==> r.value < |reports| && IsInboundVideo(reports[r.value])
    ensures r.Some? ==> forall k :: r.value < k < |reports| ==> !IsInboundVideo(reports[k])
    ensures r.None? ==> forall k :: 0 <= k < |reports| ==> !IsInboundVideo(reports[k])
  {
    if reports == [] then None
    else if IsInboundVideo(reports[|reports| - 1]) then Some(|reports| - 1)
    else LastInboundVideo(reports[..|reports| - 1])
  }

  /** Bytes received and packets lost of the last inbound video report; zero without one. */
  function InboundVideoCounters(reports: seq<StatsReport>): (int, int)
  {
    match LastInboundVideo(reports)
    case None => (0, 0)
    case Some(j) => (reports[j].bytesReceived, reports[j].packetsLost)
  }

  datatype ReadyState = Live | Ended

  /** A track's `readyState`, or `'none'` when the stream has no track of the kind. */
  datatype TrackStatus = NoTrack | Ready(state: ReadyState)

  /** What one tick of the statistics timer reports. */
  datatype StatsSample = StatsSample(
    ice: IceConnectionState,
    bytesReceived: int,
    packetsLost: int,
    video: TrackStatus,
    audio: TrackStatus)

  /** The status of the first track of a per-kind list; `ended` holds the identities of ended tracks. */
  function StatusOfFirst(tracks: seq<Track>, ended: set<nat>): TrackStatus
  {
    if tracks == [] then NoTrack else if tracks[0].id in ended then Ready(Ended) else Ready(Live)
  }

  /** The warning about a blocked network shows for the three ICE states that mean the path is gone. */
  function IsVpnIssue(s: IceConnectionState): (r: bool)
    ensures r <==> !(s == IceNew || s == IceChecking || s == IceConnected || s == IceCompleted)
  {
    s == IceDisconnected || s == IceFailed || s == IceClosed
  }

  class Call {

    var phase: ConnectionState
    var iceStatus: IceConnectionState
    var generatedCode: string
    var micOn: bool
    var cameraOn: bool
    var mediaReady: bool
    var gatheringIce: bool
    var localStream: Option<seq<Track>>
    var peerConnection: PeerConnection?
    /** The accumulator for incoming tracks, created once with the screen. */
    const remoteStream: MediaStream

    /**
     * The transport is well formed and exists from the first call setup on; the
     * accumulator holds each track once; media are ready exactly when the local
     * tracks have been obtained.
     */
    predicate Valid()
      reads this, peerConnection, remoteStream
    {
      (peerConnection != null ==> peerConnection.Valid())
      && remoteStream.Valid()
      && (phase != IDLE ==> peerConnection != null)
      && (gatheringIce ==> peerConnection != null)
      && (mediaReady <==> localStream.Some?)
    }

    /** The negotiation state of the transport; a transport not yet created counts as a fresh one. */
    function TransportState(): Negotiation
      reads this, peerConnection
    {
      if peerConnection == null then Initial else peerConnection.State()
    }

    constructor()
      ensures Valid() && fresh(remoteStream) && remoteStream.tracks == []
      ensures phase == IDLE && iceStatus == IceNew && generatedCode == ""
      ensures micOn && cameraOn && !mediaReady && !gatheringIce
      ensures localStream == None && peerConnection == null
    {
      phase := IDLE;
      iceStatus := IceNew;
      generatedCode := "";
      micOn := true;
      cameraOn := true;
      mediaReady := false;
      gatheringIce := false;
      localStream := None;
      peerConnection := null;
      remoteStream := new MediaStream();
    }

    /** The camera and microphone were obtained: their tracks become the local stream. */
    method MediaAcquired(tracks: seq<Track>)
      requires Valid()
      modifies this`localStream, this`mediaReady
      ensures Valid() && localStream == Some(tracks) && mediaReady
    {
      localStream := Some(tracks);
      mediaReady := true;
    }

    /** Returns the transport, creating it (with one sender per local track) only if there is none. */
    method CreatePeerConnection() returns (pc: PeerConnection)
      requires Valid()
      modifies this`peerConnection
      ensures Valid() && peerConnection == pc
      ensures old(peerConnection) != null ==> pc == old(peerConnection)
      ensures old(peerConnection) == null ==>
        fresh(pc) && pc.State() == Initial && pc.connectionState == New && pc.iceConnectionState == IceNew
        && pc.senders == SendersFor(if localStream.Some? then localStream.value else [])
    {
      if peerConnection != null {
        return peerConnection;
      }
      pc := new PeerConnection();
      var tracks := if localStream.Some? then localStream.value else [];
      var i := 0;
      while i < |tracks|
        invariant 0 <= i <= |tracks|
        invariant pc.State() == Initial && pc.connectionState == New && pc.iceConnectionState == IceNew
        invariant |pc.senders| == i
        invariant forall k :: 0 <= k < i ==> pc.senders[k] == Sender(Some(tracks[k]))
      {
        pc.AddTrack(tracks[i]);
        i := i + 1;
      }
      peerConnection := pc;
    }

    /**
     * "Start call": nothing without media; otherwise the transport (reused or
     * created), phase CREATING_OFFER, gathering on, then an offer set as the local
     * description. If either step fails, gathering is switched off again.
     */
    method StartAsHost(offerSdp: Option<string>)
      requires Valid()
      modifies this`phase, this`gatheringIce, this`peerConnection, peerConnection
      ensures Valid()
      ensures !old(mediaReady) ==>
        phase == old(phase) && gatheringIce == old(gatheringIce) && peerConnection == old(peerConnection)
        && TransportState() == old(TransportState())
      ensures old(mediaReady) ==>
        peerConnection != null && (old(peerConnection) != null ==> peerConnection == old(peerConnection))
        && phase == CREATING_OFFER
        && var offered := if offerSdp.Some? then Apply(old(TransportState()), true, Description(Offer, offerSdp.value)) else None;
           gatheringIce == offered.Some?
           && TransportState() == if offered.Some? then offered.value else old(TransportState())
      ensures old(peerConnection) != null ==> peerConnection.senders == old(peerConnection.senders)
      ensures old(peerConnection) != null ==>
        peerConnection.connectionState == old(peerConnection.connectionState)
        && peerConnection.iceConnectionState == old(peerConnection.iceConnectionState)
      ensures old(peerConnection) == null && peerConnection != null ==>
        fresh(peerConnection) && peerConnection.connectionState == New && peerConnection.iceConnectionState == IceNew
        && peerConnection.senders == SendersFor(if localStream.Some? then localStream.value else [])
    {
      if !mediaReady {
        return;
      }
      var pc := CreatePeerConnection();
      phase := CREATING_OFFER;
      gatheringIce := true;
      var offer := pc.CreateOffer(offerSdp);
      if offer.None? {
        gatheringIce := false;
        return;
      }
      var ok := pc.SetLocalDescription(offer.value);
      if !ok {
        gatheringIce := false;
      }
    }

    /** "Join call": nothing without media; otherwise the transport (reused or created) and phase PROCESSING_OFFER. */
    method JoinAsGuest()
      requires Valid()
      modifies this`phase, this`peerConnection
      ensures Valid()
      ensures !old(mediaReady) ==> phase == old(phase) && peerConnection == old(peerConnection)
      ensures old(mediaReady) ==>
        phase == PROCESSING_OFFER && peerConnection != null
        && (old(peerConnection) != null ==> peerConnection == old(peerConnection))
      ensures TransportState() == old(TransportState())
      ensures old(peerConnection) == null && peerConnection != null ==>
        fresh(peerConnection) && peerConnection.connectionState == New && peerConnection.iceConnectionState == IceNew
        && peerConnection.senders == SendersFor(if localStream.Some? then localStream.value else [])
    {
      if !mediaReady {
        return;
      }
      var _ := CreatePeerConnection();
      phase := PROCESSING_OFFER;
    }

    /**
     * "Connect" with the pasted code `input`. The transport's acceptance of the SDP
     * (`accepted`) and the answer it generates (`answerSdp`) are chosen by the
     * environment. `alerted` says whether the "invalid code" alert was shown.
     */
    method ProcessRemoteCode(input: string, accepted: bool, answerSdp: Option<string>) returns (alerted: bool)
      requires Valid()
      modifies this`phase, this`gatheringIce, this`peerConnection, peerConnection
      ensures Valid()
      ensures input == "" ==>
        !alerted && phase == old(phase) && gatheringIce == old(gatheringIce)
        && peerConnection == old(peerConnection) && TransportState() == old(TransportState())
      ensures input != "" ==>
        peerConnection != null && (old(peerConnection) != null ==> peerConnection == old(peerConnection))
      ensures input != "" && SignalCode.Decode(input).None? ==>
        alerted && phase == old(phase) && gatheringIce == old(gatheringIce)
        && TransportState() == old(TransportState())
      ensures input != "" && SignalCode.Decode(input).Some? ==>
        var applied := ApplyRemote(old(TransportState()), SignalCode.Decode(input).value);
        if !accepted || applied.None? then
          alerted && phase == old(phase) && gatheringIce == old(gatheringIce)
          && TransportState() == old(TransportState())
        else if IsKind(EffectiveRemote(applied.value), Offer) then
          var answered := answerSdp.Some? && Answerable(applied.value.signaling);
          phase == WAITING_FOR_ANSWER && gatheringIce && alerted == !answered
          && TransportState() == if answered then Apply(applied.value, true, Description(Answer, answerSdp.value)).value else applied.value
        else
          !alerted && gatheringIce == old(gatheringIce) && TransportState() == applied.value
          && phase == if IsKind(EffectiveRemote(applied.value), Answer) then CONNECTED else old(phase)
      ensures old(peerConnection) != null ==> peerConnection.senders == old(peerConnection.senders)
      ensures old(peerConnection) != null ==>
        peerConnection.connectionState == old(peerConnection.connectionState)
        && peerConnection.iceConnectionState == old(peerConnection.iceConnectionState)
      ensures old(peerConnection) == null && peerConnection != null ==>
        fresh(peerConnection) && peerConnection.connectionState == New && peerConnection.iceConnectionState == IceNew
        && peerConnection.senders == SendersFor(if localStream.Some? then localStream.value else [])
    {
      alerted := false;
      if input != "" {
        var pc := CreatePeerConnection();
        var remoteDesc := SignalCode.Decode(input);
        if remoteDesc.None? {
          alerted := true;
        } else {
          alerted := ApplyRemoteCode(remoteDesc.value, accepted, answerSdp);
        }
      }
    }

    /** The part of "Connect" after the code was read: set it as the remote description and react to its type. */
    method ApplyRemoteCode(d: Description, accepted: bool, answerSdp: Option<string>) returns (alerted: bool)
      requires Valid() && peerConnection != null
      modifies this`phase, this`gatheringIce, peerConnection
      ensures Valid() && peerConnection.senders == old(peerConnection.senders)
      ensures peerConnection.connectionState == old(peerConnection.connectionState)
      ensures peerConnection.iceConnectionState == old(peerConnection.iceConnectionState)
      ensures
        var applied := ApplyRemote(old(TransportState()), d);
        if !accepted || applied.None? then
          alerted && phase == old(phase) && gatheringIce == old(gatheringIce)
          && TransportState() == old(TransportState())
        else if IsKind(EffectiveRemote(applied.value), Offer) then
          var answered := answerSdp.Some? && Answerable(applied.value.signaling);
          phase == WAITING_FOR_ANSWER && gatheringIce && alerted == !answered
          && TransportState() == if answered then Apply(applied.value, true, Description(Answer, answerSdp.value)).value else applied.value
        else
          !alerted && gatheringIce == old(gatheringIce) && TransportState() == applied.value
          && phase == if IsKind(EffectiveRemote(applied.value), Answer) then CONNECTED else old(phase)
    {
      var pc := peerConnection;
      var ok := pc.SetRemoteDescription(d, accepted);
      alerted := !ok;
      if ok {
        var remote := pc.RemoteDescription();
        if IsKind(remote, Offer) {
          phase := WAITING_FOR_ANSWER;
          gatheringIce := true;
          var answer := pc.CreateAnswer(answerSdp);
          if answer.None? {
            alerted := true;
          } else {
            var answerSet := pc.SetLocalDescription(answer.value);
            alerted := !answerSet;
          }
        } else if IsKind(remote, Answer) {
          phase := CONNECTED;
        }
      }
    }

    /**
     * The transport's candidate event. Only the end-of-candidates event (`None`)
     * with a local description present publishes a code, and then also ends the
     * gathering; a code that `btoa` cannot make leaves everything as it was.
     */
    method OnIceCandidate(candidate: Option<string>)
      requires Valid() && peerConnection != null
      modifies this`generatedCode, this`gatheringIce
      ensures Valid()
      ensures candidate.Some? || peerConnection.LocalDescription().None?
              || SignalCode.Encode(peerConnection.LocalDescription().value).None? ==>
        generatedCode == old(generatedCode) && gatheringIce == old(gatheringIce)
      ensures candidate.None? && peerConnection.LocalDescription().Some?
              && SignalCode.Encode(peerConnection.LocalDescription().value).Some? ==>
        !gatheringIce && generatedCode == SignalCode.Encode(peerConnection.LocalDescription().value).value
    {
      if candidate.None? {
        var description := peerConnection.LocalDescription();
        if description.Some? {
          PublishCode(description.value);
        }
      }
    }

    /**
     * Publishes the code of `d` and ends the gathering; nothing changes when `btoa`
     * throws. The published code reads back as `d` (`SignalCode.EncodedDecodes`).
     */
    method PublishCode(d: Description)
      requires Valid()
      modifies this`generatedCode, this`gatheringIce
      ensures Valid()
      ensures SignalCode.Encode(d).None? ==> generatedCode == old(generatedCode) && gatheringIce == old(gatheringIce)
      ensures SignalCode.Encode(d).Some? ==>
        !gatheringIce && generatedCode == SignalCode.Encode(d).value
    {
      var code := SignalCode.Encode(d);
      if code.Some? {
        generatedCode := code.value;
        gatheringIce := false;
      }
    }

    /** The transport's connection state changed: `connected` and `failed` set the phase, any other state keeps it. */
    method OnConnectionStateChange(s: PeerConnectionState)
      requires Valid() && peerConnection != null
      modifies this`phase, peerConnection`connectionState
      ensures Valid() && peerConnection.connectionState == s
      ensures phase == if s == Connected then CONNECTED else if s == Failed then FAILED else old(phase)
    {
      peerConnection.ConnectionStateChanged(s);
      if peerConnection.connectionState == Connected {
        phase := CONNECTED;
      } else if peerConnection.connectionState == Failed {
        phase := FAILED;
      }
    }

    /** The transport's ICE connection state changed: the screen shows it. */
    method OnIceConnectionStateChange(s: IceConnectionState)
      requires Valid() && peerConnection != null
      modifies this`iceStatus, peerConnection`iceConnectionState
      ensures Valid() && iceStatus == s && peerConnection.iceConnectionState == s
    {
      peerConnection.IceConnectionStateChanged(s);
      iceStatus := peerConnection.iceConnectionState;
    }

    /** An incoming track joins the accumulator; nothing is ever removed from it. */
    method OnTrack(t: Track)
      requires Valid() && peerConnection != null
      modifies remoteStream
      ensures Valid()
      ensures remoteStream.tracks == if HasTrack(old(remoteStream.tracks), t.id) then old(remoteStream.tracks) else old(remoteStream.tracks) + [t]
      ensures HasTrack(remoteStream.tracks, t.id)
    {
      remoteStream.AddTrack(t);
      if !HasTrack(old(remoteStream.tracks), t.id) {
        assert remoteStream.tracks[|remoteStream.tracks| - 1] == t;
      }
    }

    /** Sets `enabled` on the track of every sender whose track has the given kind. */
    method EnableSenders(kind: TrackKind, flag: bool)
      requires peerConnection != null && peerConnection.Valid()
      modifies peerConnection`senders
      ensures peerConnection.senders == AllWithEnabled(old(peerConnection.senders), kind, flag)
    {
      var pc := peerConnection;
      var i := 0;
      while i < |pc.senders|
        invariant 0 <= i <= |pc.senders| == |old(pc.senders)|
        invariant forall k :: 0 <= k < i ==> pc.senders[k] == WithEnabled(old(pc.senders)[k], kind, flag)
        invariant forall k :: i <= k < |pc.senders| ==> pc.senders[k] == old(pc.senders)[k]
      {
        var sender := pc.senders[i];
        if sender.track.Some? && sender.track.value.kind == kind {
          pc.senders := pc.senders[i := Sender(Some(sender.track.value.(enabled := flag)))];
        }
        i := i + 1;
      }
    }

    /** The microphone button: flips `micOn` and sets every audio sender's track to the new value. */
    method ToggleMic()
      requires Valid()
      modifies this`micOn, peerConnection
      ensures Valid() && micOn == !old(micOn)
      ensures peerConnection == old(peerConnection)
      ensures peerConnection != null ==>
        peerConnection.senders == AllWithEnabled(old(peerConnection.senders), Audio, micOn)
        && peerConnection.State() == old(peerConnection.State())
        && peerConnection.connectionState == old(peerConnection.connectionState)
        && peerConnection.iceConnectionState == old(peerConnection.iceConnectionState)
    {
      micOn := !micOn;
      if peerConnection != null {
        EnableSenders(Audio, micOn);
      }
    }

    /** The camera button: flips `cameraOn` and sets every video sender's track to the new value. */
    method ToggleCam()
      requires Valid()
      modifies this`cameraOn, peerConnection
      ensures Valid() && cameraOn == !old(cameraOn)
      ensures peerConnection == old(peerConnection)
      ensures peerConnection != null ==>
        peerConnection.senders == AllWithEnabled(old(peerConnection.senders), Video, cameraOn)
        && peerConnection.State() == old(peerConnection.State())
        && peerConnection.connectionState == old(peerConnection.connectionState)
        && peerConnection.iceConnectionState == old(peerConnection.iceConnectionState)
    {
      cameraOn := !cameraOn;
      if peerConnection != null {
        EnableSenders(Video, cameraOn);
      }
    }

    /**
     * One tick of the statistics timer over the transport's report: nothing without
     * a transport; otherwise the ICE state, the counters of the last inbound video
     * report, and the state of the first remote video and audio track.
     */
    method SampleStats(reports: seq<StatsReport>, ended: set<nat>) returns (sample: Option<StatsSample>)
      ensures peerConnection == null ==> sample.None?
      ensures peerConnection != null ==>
        sample == Some(StatsSample(
          peerConnection.iceConnectionState,
          InboundVideoCounters(reports).0,
          InboundVideoCounters(reports).1,
          StatusOfFirst(OfKind(remoteStream.tracks, Video), ended),
          StatusOfFirst(OfKind(remoteStream.tracks, Audio), ended)))
    {
      if peerConnection == null {
        return None;
      }
      var bytesReceived := 0;
      var packetsLost := 0;
      var i := 0;
      while i < |reports|
        invariant 0 <= i <= |reports|
        invariant (bytesReceived, packetsLost) == InboundVideoCounters(reports[..i])
      {
        CountersStep(reports, i);
        if IsInboundVideo(reports[i]) {
          bytesReceived := reports[i].bytesReceived;
          packetsLost := reports[i].packetsLost;
        }
        i := i + 1;
      }
      assert reports[..|reports|] == reports;
      var vStatus := StatusOfFirst(remoteStream.VideoTracks(), ended);
      var aStatus := StatusOfFirst(remoteStream.AudioTracks(), ended);
      sample := Some(StatsSample(peerConnection.iceConnectionState, bytesReceived, packetsLost, vStatus, aStatus));
    }
  }

  /** One more report either replaces the counters (an inbound video report) or leaves them. */
  lemma CountersStep(reports: seq<StatsReport>, i: nat)
    requires i < |reports|
    ensures InboundVideoCounters(reports[..i + 1])
         == if IsInboundVideo(reports[i]) then (reports[i].bytesReceived, reports[i].packetsLost)
            else InboundVideoCounters(reports[..i])
  {
    var p := reports[..i + 1];
    assert p[|p| - 1] == reports[i];
    assert p[..|p| - 1] == reports[..i];
    if !IsInboundVideo(reports[i]) {
      match LastInboundVideo(reports[..i])
      case None =>
      case Some(j) => assert p[j] == reports[..i][j];
    }
  }
}
