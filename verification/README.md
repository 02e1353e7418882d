# Video call set-up, modelled in Dafny

This project models the peer-to-peer video call screen of the app
(`components/VideoCall.tsx`). It also models the two byte helpers of the Gemini
service (`services/geminiService.ts`) that share the call's base64 machinery.

The call works without a signalling server. One peer ("host") creates an
`RTCPeerConnection` and an offer. Once ICE gathering ends, it publishes the
connection code `btoa(JSON.stringify(localDescription))`. The other peer
("guest") pastes that code. The guest's screen reads it back through `atob`,
`JSON.parse` and `new RTCSessionDescription(...)`, then sets it as the remote
description and answers. The guest publishes its own code, and the host pastes
it to finish the exchange.

The model is built in layers:

- `wrappers.dfy`: `Option`.
- `types.dfy`: the `ConnectionState` enum and the session-description type of
  `types.ts`.
- `base64.dfy`: `btoa` and `atob`.
  - `btoa` encodes as in section 4 of RFC 4648.
  - `atob` is the forgiving-base64 decode of the WHATWG Infra standard.
  - Both work on binary strings, where every character stands for one byte.
- `json.dfy`: the part of `JSON.stringify` and `JSON.parse` the code exchange
  uses.
  - Serialisation of `{type, sdp}` follows the string quoting of ECMA-262
    (QuoteJSONString).
  - Parsing covers flat objects whose member values are strings.
- `signal_code.dfy`: the connection code as a function of the description, and
  its reading back.
- `gemini_service.dfy`: `encode` and `decode`, as methods with their loops.
- `media.dfy`: the remote `MediaStream` accumulator, as a class.
- `transport.dfy`: the parts of `RTCPeerConnection` the call relies on.
  - It is a class holding the senders, the signalling state, the pending and
    current descriptions, and the two connection states.
  - Setting a description follows the JSEP state machine (section 3.2 of
    RFC 8829).
- `video_call.dfy`: the screen's controller, as a class `Call` with one field
  per piece of React state and per ref the logic reads. Each handler is a
  method.

Each `await` is modelled as completing before the next handler runs. Where the
outcome depends on the browser or the network, the outcome is a parameter of
the method:
- whether an offer or answer can be generated;
- whether the SDP is accepted;
- which candidate event arrives;
- which statistics reports `getStats` returns;
- which tracks have ended.

The code does not do the following, and the model follows the code:

- The remote stream accumulates every incoming track. A track already in the
  stream is ignored. Nothing is ever replaced or removed, and no per-kind
  "last wins" rule applies.
- The controller does not check a pasted description's type against its own
  phase. Only the browser's `setRemoteDescription` checks it: an answer pasted
  on an idle screen reaches the transport, and the transport's state check
  rejects it. An offer pasted by a host whose own offer is still pending is
  accepted after the browser implicitly rolls back the host's offer, and the
  host then answers it.
- A second pasted code is not refused by the controller.
- `CONNECTED` and `FAILED` are not terminal. Later connection-state events and
  pasted answers still set the phase.
- The microphone and camera buttons reach the tracks only through the
  transport's senders. Before a transport exists they flip the button state
  and change no track at all. A toggle made before the transport exists
  therefore leaves the button and the sent track disagreeing, and later
  toggles keep them disagreeing.
- The statistics timer is started each time the phase becomes `CONNECTED` and
  is never stopped. It can tick in any phase afterwards.

## Model

| member | source | states |
|---|---|---|
| Types.SdpTypeFromName | types.ts:17-20 | A type name maps to the RTCSdpType it spells and to nothing else; every name it accepts spells back exactly |
| Base64.Encode | components/VideoCall.tsx:170 | The padded encoding has length 4·⌈n/3⌉ and consists of alphabet characters and `=` only |
| Base64.EncodeGroups | components/VideoCall.tsx:170 | The unpadded encoding has 4 characters per whole group of three bytes, then 0, 2 or 3, all from the alphabet |
| Base64.RemoveWhitespace | components/VideoCall.tsx:207 | The text left after removing ASCII whitespace is no longer and holds no whitespace |
| Base64.DecodeEncode | services/geminiService.ts:4-22 | Decoding the encoding of any byte sequence gives back exactly that sequence |
| Base64.DecodeEncodeGroups | services/geminiService.ts:4-22 | The unpadded round trip, by induction over groups of three bytes |
| Base64.QuantumRoundTrip | services/geminiService.ts:4-22 | Four characters made from three bytes decode to the same three bytes |
| Base64.DecodeGroupsCons | components/VideoCall.tsx:207 | A leading whole quantum is decoded on its own, ahead of the rest |
| Base64.StripPaddingOfEncode | components/VideoCall.tsx:207 | Removing the padding from an encoding leaves its unpadded groups |
| Base64.StripPadding | components/VideoCall.tsx:207 | No contract of its own: the padding step of forgiving-base64 (one or two final `=` dropped when the length is a multiple of four); `Base64.StripPaddingOfEncode` states what it does to an encoding |
| Base64.DecodeGroups | components/VideoCall.tsx:207 | No contract of its own: the bytes of an unpadded run of sextets; its meaning is given by `Base64.DecodeEncodeGroups` and `Base64.DecodeGroupsCons` |
| Base64.Decode | components/VideoCall.tsx:207 | No contract of its own: the forgiving-base64 decode; `Base64.DecodeEncode` proves it inverts `Encode`, and `Base64.DecodeRejectsForeignChar`/`DecodeRejectsDanglingChar` state its failures |
| Base64.RemoveWhitespaceKeeps | components/VideoCall.tsx:207 | Every non-whitespace character of the text occurs in the text left after removing whitespace |
| Base64.RemoveWhitespaceConcat | components/VideoCall.tsx:207 | Removing whitespace from a concatenation concatenates the removals, so the surviving characters keep their order and number |
| Base64.DecodeRejectsForeignChar | components/VideoCall.tsx:207 | A character that is not alphabet, padding or whitespace makes `atob` fail |
| Base64.DecodeRejectsDanglingChar | components/VideoCall.tsx:207 | An alphabet-only text whose length is 1 mod 4 makes `atob` fail |
| Base64.Latin1 | services/geminiService.ts:7-9 | The binary string of a byte sequence has one character per byte, with the byte as its code |
| Base64.Codes | services/geminiService.ts:18-20 | The char codes of a binary string: one byte per character, in order |
| Base64.Atob | components/VideoCall.tsx:207 | Whatever `atob` returns is a binary string: every character is at most U+00FF |
| Base64.CodesLatin1 | services/geminiService.ts:4-22 | The char codes of the binary string of any bytes are those bytes |
| Base64.Latin1Codes | services/geminiService.ts:4-22 | The binary string of a binary string's char codes is that string |
| Base64.Btoa | components/VideoCall.tsx:170 | No contract of its own: `btoa`, failing on a character above U+00FF; `Base64.AtobBtoa` states where it is defined and that `atob` inverts it, `Base64.BtoaShape` its output's shape |
| Base64.BtoaShape | components/VideoCall.tsx:170 | `btoa` of a binary string is whole quanta of alphabet characters and padding |
| Base64.AtobBtoa | components/VideoCall.tsx:170 | `btoa` succeeds exactly on binary strings, and `atob` then gives the same string back |
| Json.HexDigit | components/VideoCall.tsx:170 | The lowercase hex digit written for a nibble reads back as that nibble |
| Json.HexValue | components/VideoCall.tsx:208 | A hex digit's value is below 16 |
| Json.SkipWhitespace | components/VideoCall.tsx:208 | Skipping JSON whitespace never lengthens the text and stops at a non-whitespace character |
| Json.ParseUnit | components/VideoCall.tsx:208 | One character or escape of a JSON string consumes between 1 and all of the remaining characters |
| Json.ParseStringBody | components/VideoCall.tsx:208 | Reading a string body consumes at least its closing quote |
| Json.ParseString | components/VideoCall.tsx:208 | Reading a string consumes at least its two quotes |
| Json.EscapeChar | components/VideoCall.tsx:170 | No contract of its own: one character as QuoteJSONString writes it; `Json.ParseEscaped` proves the string reader undoes it |
| Json.Escape | components/VideoCall.tsx:170 | No contract of its own: QuoteJSONString's escaping of a whole string; `Json.ParseEscaped` and `Json.EscapeLatin1` state its meaning |
| Json.Quote | components/VideoCall.tsx:170 | No contract of its own: the escaped string between quotes; `Json.ParseQuoted` proves it reads back |
| Json.Stringify | components/VideoCall.tsx:170 | No contract of its own: the JSON text `{"type":…,"sdp":…}` of a description; `Json.ParseStringify` and `Json.StringifyLatin1` state its meaning |
| Json.ParseMembers | components/VideoCall.tsx:208 | No contract of its own: the members of an object up to its `}`, later duplicates winning; `Json.ParseMemberStep` states one step of it |
| Json.ParseObject | components/VideoCall.tsx:208 | No contract of its own: `JSON.parse` of a flat object of strings; `Json.ParseTwoMemberObject` and `Json.ParseStringify` state what it reads back |
| Json.ParseEscaped | components/VideoCall.tsx:170 | Reading back the escaped form of any string, followed by a closing quote, gives the string and the rest of the text |
| Json.ParseQuoted | components/VideoCall.tsx:170 | Reading back a quoted string gives the original string and the rest of the text |
| Json.ParseMemberStep | components/VideoCall.tsx:208 | After one serialized member, the reader records it (later duplicates win) and goes on at the comma, stops at the brace, or fails |
| Json.ParseTwoMemberObject | components/VideoCall.tsx:208 | An object of two serialized string members parses to the map of both, the second winning on a shared name |
| Json.ParseStringify | components/VideoCall.tsx:170 | `JSON.parse(JSON.stringify(d))` is the map with `type` the type's name and `sdp` the SDP text |
| Json.EscapeLatin1 | components/VideoCall.tsx:170 | Escaping keeps a string inside Latin-1 exactly when the string was inside it |
| Json.StringifyLatin1 | components/VideoCall.tsx:170 | The JSON text of a description is a binary string exactly when its SDP is |
| SignalCode.FromInit | components/VideoCall.tsx:210 | The constructor accepts exactly when `type` is present and names an RTCSdpType; the SDP is `sdp` or the empty string |
| SignalCode.Encode | components/VideoCall.tsx:170 | No contract of its own: the published code `btoa(JSON.stringify(d))`; `SignalCode.EncodeDefined`, `EncodeAlphabet` and `DecodeEncode` state its meaning |
| SignalCode.Decode | components/VideoCall.tsx:207-210 | No contract of its own: `atob`, `JSON.parse`, then the constructor; `SignalCode.DecodeEncode` proves it inverts `Encode`, and `DecodeRejectsForeignChar` and `FromInitNeedsType` state failures |
| SignalCode.EncodeDefined | components/VideoCall.tsx:170 | A code can be made exactly when the SDP has no character above U+00FF |
| SignalCode.EncodeAlphabet | components/VideoCall.tsx:170 | A code is whole quanta of base64 characters and padding |
| SignalCode.DecodeEncode | components/VideoCall.tsx:207-210 | Every Latin-1 description's code exists and reads back as that very description |
| SignalCode.EncodedDecodes | components/VideoCall.tsx:170 | Whenever a code is published for a description, pasting it on the other side gives that description |
| SignalCode.DecodeRejectsForeignChar | components/VideoCall.tsx:207 | A pasted code with a non-base64 character is refused |
| SignalCode.FromInitNeedsType | components/VideoCall.tsx:210 | A JSON object without `type` is refused by the constructor |
| GeminiService.Encode | services/geminiService.ts:4-11 | The loop builds the binary string of the array, and the result is its padded base64 |
| GeminiService.Decode | services/geminiService.ts:14-22 | Fails exactly when `atob` throws; otherwise a new array as long as the binary string, holding its char codes, equal to the decoded bytes |
| GeminiService.EncodeThenDecode | services/geminiService.ts:4-22 | `decode(encode(bytes))` yields an array with the same contents, for every array |
| GeminiService.EmptyCases | services/geminiService.ts:4-22 | The empty array encodes to the empty text, and the empty text decodes to no bytes |
| GeminiService.DecodeRejectsMalformed | services/geminiService.ts:15 | `decode` throws on alphabet text whose length is 1 mod 4 |
| Media.OfKind | components/VideoCall.tsx:100-101 | A per-kind track list is no longer than the stream |
| Media.OfKindMembers | components/VideoCall.tsx:100-101 | `getVideoTracks`/`getAudioTracks` hold exactly the stream's tracks of that kind |
| Media.OfKindAppend | components/VideoCall.tsx:137 | Appending a track only extends the list of its own kind, at the end |
| Media.FirstOfKindStays | components/VideoCall.tsx:100-103 | Once a kind has a track, later arrivals never change which track the stats sample reads first |
| Media.OfKindHead | components/VideoCall.tsx:102-103 | The first track of a kind is the earliest arrival of that kind |
| Media.MediaStream.VideoTracks | components/VideoCall.tsx:100 | No contract of its own: `getVideoTracks()` as `OfKind(tracks, Video)`; `Media.OfKindMembers` and `Media.OfKindHead` state its meaning |
| Media.MediaStream.AudioTracks | components/VideoCall.tsx:101 | No contract of its own: `getAudioTracks()` as `OfKind(tracks, Audio)`; `Media.OfKindMembers` and `Media.OfKindHead` state its meaning |
| Media.MediaStream.constructor | components/VideoCall.tsx:45 | The accumulator starts empty |
| Media.MediaStream.AddTrack | components/VideoCall.tsx:137 | A track already present is ignored; any other is appended; identities stay distinct |
| Transport.NextSignaling | components/VideoCall.tsx:189 | No contract of its own: the JSEP signalling-state table; `Transport.Apply`'s contract ties every accepted description to it |
| Transport.Consistent | components/VideoCall.tsx:189 | No contract of its own: which pending descriptions each signalling state holds; `Transport.Apply` and `Transport.ApplyRemote` preserve it |
| Transport.EffectiveLocal | components/VideoCall.tsx:167 | No contract of its own: `localDescription`, the pending one or else the current one; `Transport.ApplyReports` states what it reports after a description is set |
| Transport.EffectiveRemote | components/VideoCall.tsx:212 | No contract of its own: `remoteDescription`, the pending one or else the current one; `Transport.ApplyReports` and `Transport.ApplyRemoteReports` state what it reports |
| Transport.Apply | components/VideoCall.tsx:189 | A description is applied exactly when JSEP allows its type in the current state. The new state is that transition, and consistent pending/current descriptions stay consistent |
| Transport.ApplyReports | components/VideoCall.tsx:212 | After an accepted non-rollback description, `remoteDescription` (or `localDescription`) is that description, and the other side is unchanged |
| Transport.OffererExchange | components/VideoCall.tsx:181-195 | The host's offer and then the guest's answer leave the host stable, with both descriptions current |
| Transport.AnswererExchange | components/VideoCall.tsx:212-217 | The guest's remote offer and its own answer leave it stable, with both descriptions current |
| Transport.RollbackUndoesOffer | components/VideoCall.tsx:210 | An offer followed by its rollback restores the stable state exactly |
| Transport.AnswerNeedsOffer | components/VideoCall.tsx:219-221 | An answer is accepted only while an offer from the other side is pending |
| Transport.ApplyRemote | components/VideoCall.tsx:210 | A remote description is applied as JSEP allows; an offer arriving while a local offer is pending is applied after an implicit rollback, dropping the local offer; everything else is refused; consistency is kept |
| Transport.ApplyRemoteReports | components/VideoCall.tsx:212 | After an accepted remote description other than a rollback, `remoteDescription` is that description |
| Transport.CrossedOffers | components/VideoCall.tsx:210-216 | A host with a pending offer that is given the other side's offer ends answering it, in have-remote-offer with only the remote offer pending |
| Transport.AllWithEnabled | components/VideoCall.tsx:252-254 | Every sender after the toggle: the senders of the kind get the flag, the rest are unchanged |
| Transport.AllWithEnabledEffect | components/VideoCall.tsx:262-264 | The toggle touches exactly the senders with a track of its kind |
| Transport.AllWithEnabledLastWins | components/VideoCall.tsx:248-256 | Of two toggles of the same kind, the later one decides |
| Transport.ToggleTwiceRestores | components/VideoCall.tsx:248-256 | Pressing a button twice restores the senders whose tracks of that kind carried the button's state |
| Transport.AllWithEnabledNoChange | components/VideoCall.tsx:258-266 | Setting the flag the senders already carry changes nothing |
| Transport.SendersFor | components/VideoCall.tsx:126-130 | One sender carrying each local track, and no other sender |
| Transport.PeerConnection.constructor | components/VideoCall.tsx:119 | A new transport is stable, with no descriptions, no senders and state `new` |
| Transport.PeerConnection.AddTrack | components/VideoCall.tsx:128 | `addTrack` appends a sender for the track |
| Transport.PeerConnection.CreateOffer | components/VideoCall.tsx:188 | An offer exists exactly when the environment generates one, and it carries that SDP |
| Transport.PeerConnection.CreateAnswer | components/VideoCall.tsx:216 | An answer exists exactly when one is generated and a remote offer is pending |
| Transport.PeerConnection.SetLocalDescription | components/VideoCall.tsx:189 | Succeeds exactly when JSEP allows it; the new state is the transition, or the old state on failure |
| Transport.PeerConnection.SetRemoteDescription | components/VideoCall.tsx:210 | Succeeds exactly when the SDP is accepted and `ApplyRemote` has a transition; the new state is that transition, or the old state on failure |
| Transport.PeerConnection.ConnectionStateChanged | components/VideoCall.tsx:154-155 | The transport reports the new connection state |
| Transport.PeerConnection.IceConnectionStateChanged | components/VideoCall.tsx:160-161 | The transport reports the new ICE connection state |
| VideoCall.LastInboundVideo | components/VideoCall.tsx:92-97 | The position of the last inbound video report: such a report, with none after it; none when there is none |
| VideoCall.IsVpnIssue | components/VideoCall.tsx:268 | The network warning shows exactly in the three ICE states other than new, checking, connected and completed |
| VideoCall.InboundVideoCounters | components/VideoCall.tsx:89-97 | No contract of its own: the counters of the last inbound video report, zero without one; `VideoCall.LastInboundVideo` characterises that report and `VideoCall.CountersStep` proves the loop's step |
| VideoCall.StatusOfFirst | components/VideoCall.tsx:102-103 | No contract of its own: the `readyState` of a list's first track, or `'none'`; used by `VideoCall.Call.SampleStats` |
| VideoCall.CountersStep | components/VideoCall.tsx:92-97 | One more report replaces the counters if it is inbound video, and otherwise keeps them |
| VideoCall.Call.constructor | components/VideoCall.tsx:23-47 | The screen starts idle, with both media on, no code, no transport and an empty accumulator |
| VideoCall.Call.MediaAcquired | components/VideoCall.tsx:54-56 | The obtained tracks become the local stream, and media become ready |
| VideoCall.Call.CreatePeerConnection | components/VideoCall.tsx:115-130 | An existing transport is returned unchanged; otherwise a new one with one sender per local track |
| VideoCall.Call.StartAsHost | components/VideoCall.tsx:181-195 | Nothing happens without media. Otherwise phase CREATING_OFFER on a reused transport (senders and connection and ICE states untouched) or a new one (state `new`, one sender per local track). The offer becomes the local description when generated and allowed; gathering stays on exactly then |
| VideoCall.Call.JoinAsGuest | components/VideoCall.tsx:197-201 | Nothing happens without media. Otherwise phase PROCESSING_OFFER on a reused transport or a new one (state `new`, one sender per local track), with the negotiation untouched |
| VideoCall.Call.ProcessRemoteCode | components/VideoCall.tsx:203-226 | Empty input does nothing. An unreadable or refused code alerts and leaves phase and negotiation as they were. A remote offer (also one crossing the host's own pending offer) gives WAITING_FOR_ANSWER with gathering on and the answer set when possible. A remote answer gives CONNECTED. A transport created here is new with one sender per local track; an existing one keeps its senders and connection and ICE states |
| VideoCall.Call.ApplyRemoteCode | components/VideoCall.tsx:210-225 | After a code was read: the case split on the remote description's type, with the alert exactly when a step throws; senders and connection and ICE states are untouched |
| VideoCall.Call.OnIceCandidate | components/VideoCall.tsx:164-175 | Only end-of-candidates with a local description publishes that description's code and ends gathering; any other event changes nothing |
| VideoCall.Call.PublishCode | components/VideoCall.tsx:167-172 | The published code is `btoa` of the description's JSON, and gathering ends; nothing changes if `btoa` throws |
| VideoCall.Call.OnConnectionStateChange | components/VideoCall.tsx:154-158 | `connected` sets CONNECTED, `failed` sets FAILED, any other state keeps the phase |
| VideoCall.Call.OnIceConnectionStateChange | components/VideoCall.tsx:160-162 | The shown ICE status is the transport's new state |
| VideoCall.Call.OnTrack | components/VideoCall.tsx:133-137 | An incoming track ends up in the accumulator, appended unless already there; nothing is removed |
| VideoCall.Call.EnableSenders | components/VideoCall.tsx:252-254 | The loop leaves the senders as `AllWithEnabled` describes |
| VideoCall.Call.ToggleMic | components/VideoCall.tsx:248-256 | `micOn` flips, and every audio sender's track gets the new value; negotiation and connection and ICE states are untouched |
| VideoCall.Call.ToggleCam | components/VideoCall.tsx:258-266 | `cameraOn` flips, and every video sender's track gets the new value; negotiation and connection and ICE states are untouched |
| VideoCall.Call.SampleStats | components/VideoCall.tsx:84-103 | No sample without a transport. Otherwise the ICE state, the last inbound video report's counters (zero without one), and the state of the first remote video and audio track |

## Left out

- Rendering (the JSX), clipboard copying, the copied-badge timers and the manual play button (`components/VideoCall.tsx:228-245`, 270 on): these are user-interface effects with no bearing on the call state.
- Autoplay of the remote video and the `manualPlayNeeded` flag (`components/VideoCall.tsx:139-151`): DOM playback is not modelled.
- `getUserMedia` (`components/VideoCall.tsx:50-65`) is the `MediaAcquired` input; its failure leaves media not ready. Stopping the tracks, closing the transport and clearing the timer on unmount (67-78) are left out, because the model has no teardown.
- The STUN server configuration and the two `addTransceiver` calls (`components/VideoCall.tsx:9-20`, 119-123) are left out. In the browser, `addTrack` (line 128) reuses the track-less sender of the transceiver of the same kind, so after the loop the senders that carry a track are still one per local track, which is what `SendersFor` states; their order (the browser lists the audio transceiver's sender first) does not matter to the toggles. A transceiver of a kind with no local track keeps a sender without a track, which the toggles skip; the model has no such sender.
- Senders hold copies of the local tracks. In the browser a sender's track is the local track object itself, so a toggle also changes the local stream's track and its preview; that aliasing is not modelled, and `localStream` keeps the `enabled` values the tracks had when they were obtained.
- ICE gathering and candidate exchange are left to the environment: the candidate event is a parameter of `OnIceCandidate`. The description's SDP stays the same when candidates are gathered.
- Media.OfKind: the order of `getVideoTracks()` and `getAudioTracks()` is taken to be arrival order. The Media Capture and Streams specification leaves that order to the browser, so which track the stats sample reads "first" (`Media.FirstOfKindStays`, `Media.OfKindHead`, `VideoCall.Call.SampleStats`) rests on that assumption.
- The SDP text is opaque. Its validation by the browser is the `accepted` parameter of `SetRemoteDescription`, and generated offers and answers are parameters too.
- Interleaving of the handlers' awaits is not modelled. Each handler runs to completion.
- SampleStats: the 2-second timer, the division by 1024 with `toFixed(0)` and the text formatting are left out (floating point and display). A tick is a method call that can happen in any phase, as the never-cleared timer allows. `readyState` comes from the `ended` parameter.
- Json.ParseObject: `JSON.parse` is modelled only for flat objects whose members are all strings. Texts with numbers, nested values or arrays are refused, where the browser would accept them and the constructor would then read `type` and `sdp` from them. A `\u` escape naming a UTF-16 surrogate is refused, because strings here are sequences of code points.
- VideoCall.Call.PublishCode: its contract states the code as `SignalCode.Encode` of the description. That the code reads back as the description is the separate lemma `SignalCode.EncodedDecodes`, not a clause of the class invariant.
- The remaining functions of `services/geminiService.ts` (the Gemini API calls and live audio sessions), `components/TestCall.tsx`, `components/Translator.tsx` and `App.tsx` are not part of this model.
