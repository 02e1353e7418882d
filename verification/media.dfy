/**
 * Media tracks and the remote media stream the call accumulates its incoming
 * tracks into (a `MediaStream` whose track set only grows).
 */
module Media {

  import opened Types

  /** A MediaStreamTrack: its identity, its kind and its `enabled` flag. */
  datatype Track = Track(id: nat, kind: TrackKind, enabled: bool)

  predicate HasTrack(s: seq<Track>, id: nat)
  {
    exists k :: 0 <= k < |s| && s[k].id == id
  }

  /** No two tracks of the stream share an identity. */
  predicate DistinctIds(s: seq<Track>)
  {
    forall j, k :: 0 <= j < k < |s| ==> s[j].id != s[k].id
  }

  /** The tracks of one kind in stream order, as `getAudioTracks()` / `getVideoTracks()` list them. */
  function OfKind(s: seq<Track>, kind: TrackKind): (r: seq<Track>)
    ensures |r| <= |s|
  {
    if s == [] then [] else (if s[0].kind == kind then [s[0]] else []) + OfKind(s[1..], kind)
  }

  /** A per-kind list holds exactly the stream's tracks of that kind. */
  lemma {:induction false} OfKindMembers(s: seq<Track>, kind: TrackKind)
    ensures forall t :: t in OfKind(s, kind) <==> t in s && t.kind == kind
  {
    if s != [] {
      OfKindMembers(s[1..], kind);
      assert s == [s[0]] + s[1..];
    }
  }

  /** Adding a track at the end only adds to the end of each per-kind list. */
  lemma {:induction false} OfKindAppend(s: seq<Track>, t: Track, kind: TrackKind)
    ensures OfKind(s + [t], kind) == OfKind(s, kind) + (if t.kind == kind then [t] else [])
  {
    if s == [] {
      assert s + [t] == [t];
    } else {
      var head := if s[0].kind == kind then [s[0]] else [];
      var last := if t.kind == kind then [t] else [];
      assert (s + [t])[0] == s[0];
      assert (s + [t])[1..] == s[1..] + [t];
      OfKindAppend(s[1..], t, kind);
      calc {
        OfKind(s + [t], kind);
        head + OfKind(s[1..] + [t], kind);
        head + (OfKind(s[1..], kind) + last);
        (head + OfKind(s[1..], kind)) + last;
        OfKind(s, kind) + last;
      }
    }
  }

  /** Once a stream has a track of some kind, appending never changes which track is first of that kind. */
  lemma FirstOfKindStays(s: seq<Track>, t: Track, kind: TrackKind)
    requires OfKind(s, kind) != []
    ensures OfKind(s + [t], kind) != [] && OfKind(s + [t], kind)[0] == OfKind(s, kind)[0]
  {
    OfKindAppend(s, t, kind);
  }

  /** The head of a per-kind list is the earliest track of that kind in the stream. */
  lemma {:induction false} OfKindHead(s: seq<Track>, kind: TrackKind)
    requires OfKind(s, kind) != []
    ensures exists k :: 0 <= k < |s| && s[k] == OfKind(s, kind)[0]
                        && s[k].kind == kind && forall j :: 0 <= j < k ==> s[j].kind != kind
  {
    if s[0].kind != kind {
      OfKindHead(s[1..], kind);
      var k :| 0 <= k < |s[1..]| && s[1..][k] == OfKind(s[1..], kind)[0]
                && s[1..][k].kind == kind && forall j :: 0 <= j < k ==> s[1..][j].kind != kind;
      assert s[k + 1] == OfKind(s, kind)[0];
      assert forall j :: 0 <= j < k + 1 ==> s[j].kind != kind by {
        forall j | 0 <= j < k + 1 ensures s[j].kind != kind {
          if j > 0 { assert s[j] == s[1..][j - 1]; }
        }
      }
    } else {
      assert s[0] == OfKind(s, kind)[0];
    }
  }

  /** A `MediaStream` whose track set is changed in place by `addTrack`. */
  class MediaStream {

    var tracks: seq<Track>

    predicate Valid()
      reads this
    {
      DistinctIds(tracks)
    }

    constructor()
      ensures tracks == [] && Valid()
    {
      tracks := [];
    }

    /** `addTrack`: a track already in the set is ignored, any other is appended. */
    method AddTrack(t: Track)
      requires Valid()
      modifies this
      ensures Valid()
      ensures tracks == if HasTrack(old(tracks), t.id) then old(tracks) else old(tracks) + [t]
    {
      if !HasTrack(tracks, t.id) {
        tracks := tracks + [t];
      }
    }

    function VideoTracks(): seq<Track>
      reads this
    {
      OfKind(tracks, Video)
    }

    function AudioTracks(): seq<Track>
      reads this
    {
      OfKind(tracks, Audio)
    }
  }
}
