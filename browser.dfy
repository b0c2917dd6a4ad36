/**
 * The browser objects the client code drives, reduced to the state the
 * client reads or changes: media tracks, streams, a peer connection, and
 * the socket.io client socket with the events emitted on it. Their
 * contents (media, SDP, ICE candidates) are opaque strings.
 */
module Browser {
  import opened Common

  datatype TrackKind = Audio | Video

  class Track {
    const kind: TrackKind
    var enabled: bool
    var stopped: bool

    constructor(kind: TrackKind)
      ensures this.kind == kind && enabled && !stopped
    {
      this.kind := kind;
      enabled := true;
      stopped := false;
    }

    /** `track.stop()`. */
    method Stop()
      modifies this
      ensures stopped && enabled == old(enabled)
    {
      stopped := true;
    }
  }

  /** A media stream: a fixed list of tracks. */
  class MediaStream {
    const tracks: seq<Track>

    constructor(tracks: seq<Track>)
      ensures this.tracks == tracks
    {
      this.tracks := tracks;
    }
  }

  /** The tracks of a stream that may be absent. */
  function TracksOf(s: MediaStream?): set<Track> {
    if s == null then {} else set t | t in s.tracks
  }

  /** What the client sends over its socket. */
  datatype ClientEvent =
    | EnterRoomEvent(roomId: string)
    | ExitRoomEvent(roomId: string)
    | MessageCreateEvent(roomId: string, text: string)
    | IceCandidateEvent(candidate: string, targetUserId: int)
    | OfferEvent(offer: string, calleeId: int, callerId: int)
    | AnswerEvent(answer: string, callerId: int, calleeId: int)

  /** A socket.io client socket. */
  class ClientSocket {
    var connected: bool
    /** Whether the listeners registered on it are still attached. */
    var listening: bool
    var sent: seq<ClientEvent>

    constructor()
      ensures connected && listening && sent == []
    {
      connected := true;
      listening := true;
      sent := [];
    }

    /** `socket.emit(...)`. */
    method Emit(e: ClientEvent)
      modifies this
      ensures sent == old(sent) + [e]
      ensures connected == old(connected) && listening == old(listening)
    {
      sent := sent + [e];
    }

    /** `socket.removeAllListeners(); socket.disconnect()`. */
    method Close()
      modifies this
      ensures !connected && !listening && sent == old(sent)
    {
      listening := false;
      connected := false;
    }
  }

  /**
   * Where a peer connection's ICE candidates go: the socket its handler
   * captured when it was installed, and the user they are addressed to.
   */
  datatype IceRoute = IceRoute(socket: ClientSocket?, targetUserId: int)

  class PeerConnection {
    var closed: bool
    /** The local tracks added with `addTrack`, in order. */
    var senders: seq<Track>
    var iceRoute: Option<IceRoute>
    var localDescription: Option<string>
    var remoteDescription: Option<string>
    var candidates: seq<string>

    constructor()
      ensures !closed && senders == [] && iceRoute == None
      ensures localDescription == None && remoteDescription == None && candidates == []
    {
      closed := false;
      senders := [];
      iceRoute := None;
      localDescription := None;
      remoteDescription := None;
      candidates := [];
    }

    method Close()
      modifies this
      ensures closed && senders == old(senders) && iceRoute == old(iceRoute)
      ensures localDescription == old(localDescription) && remoteDescription == old(remoteDescription)
      ensures candidates == old(candidates)
    {
      closed := true;
    }

    /**
     * The `onicecandidate` callback: a gathered candidate goes to the
     * route's target over the captured socket; the end-of-candidates
     * signal (None) and a missing socket send nothing.
     */
    method OnIceCandidate(candidate: Option<string>)
      requires iceRoute.Some?
      modifies iceRoute.value.socket
      ensures var s := iceRoute.value.socket;
        s != null ==>
          s.sent == old(s.sent) + (if candidate.Some? then [IceCandidateEvent(candidate.value, iceRoute.value.targetUserId)] else [])
      ensures var s := iceRoute.value.socket;
        s != null ==> s.connected == old(s.connected) && s.listening == old(s.listening)
      ensures iceRoute.value.socket == null ==> unchanged(this)
    {
      var s := iceRoute.value.socket;
      if candidate.Some? && s != null {
        s.Emit(IceCandidateEvent(candidate.value, iceRoute.value.targetUserId));
      }
    }
  }

  /** The tracks `AddLocalTracks` adds: those of `tracks` not yet sent, first occurrence kept. */
  function Unsent(senders: seq<Track>, tracks: seq<Track>): (r: seq<Track>)
    ensures forall i :: 0 <= i < |r| ==> r[i] in tracks && r[i] !in senders
    ensures forall i :: 0 <= i < |tracks| ==> tracks[i] in senders || tracks[i] in r
    ensures forall i, j :: 0 <= i < j < |r| ==> r[i] != r[j]
  {
    if tracks == [] then []
    else
      var n := |tracks| - 1;
      var front := Unsent(senders, tracks[..n]);
      assert forall i :: 0 <= i < n ==> tracks[..n][i] == tracks[i];
      if tracks[n] in senders || tracks[n] in front then front else front + [tracks[n]]
  }

  /**
   * `stream.getTracks().forEach(t => { if no sender has t, pc.addTrack(t) })`:
   * every track of the stream ends up among the senders exactly once.
   */
  method AddLocalTracks(pc: PeerConnection, stream: MediaStream)
    modifies pc
    ensures pc.senders == old(pc.senders) + Unsent(old(pc.senders), stream.tracks)
    ensures forall t :: t in stream.tracks ==> t in pc.senders
    ensures pc.closed == old(pc.closed) && pc.iceRoute == old(pc.iceRoute)
    ensures pc.localDescription == old(pc.localDescription)
    ensures pc.remoteDescription == old(pc.remoteDescription) && pc.candidates == old(pc.candidates)
  {
    var i := 0;
    while i < |stream.tracks|
      invariant 0 <= i <= |stream.tracks|
      invariant pc.senders == old(pc.senders) + Unsent(old(pc.senders), stream.tracks[..i])
      invariant pc.closed == old(pc.closed) && pc.iceRoute == old(pc.iceRoute)
      invariant pc.localDescription == old(pc.localDescription)
      invariant pc.remoteDescription == old(pc.remoteDescription) && pc.candidates == old(pc.candidates)
    {
      var t := stream.tracks[i];
      assert stream.tracks[..i + 1][..i] == stream.tracks[..i];
      if t !in pc.senders {
        pc.senders := pc.senders + [t];
      }
      i := i + 1;
    }
    assert stream.tracks[..i] == stream.tracks;
  }
}
