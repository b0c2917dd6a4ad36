/**
 * The client's call store: the phase of the call, who is on the other
 * side, the media objects, and the mic and camera flags.
 */
module WebRtcStore {
  import opened Common
  import opened Browser

  /** The only three values the phase of a call takes. */
  datatype CallState = Idle | Ringing | InCall

  /** The `{ id, username }` of a party to the call. */
  datatype Party = Party(id: int, username: string)

  /** The store's data fields at one moment. */
  datatype Snapshot = Snapshot(
    localStream: MediaStream?,
    remoteStream: MediaStream?,
    peerConnection: PeerConnection?,
    callState: CallState,
    isCaller: bool,
    remoteUserId: Option<int>,
    incomingCaller: Option<Party>,
    outcomingCallee: Option<Party>,
    isMicMuted: bool,
    isCameraOff: bool)

  /** The store as it starts, and as `cleanupCall` leaves it. */
  const Initial := Snapshot(null, null, null, Idle, false, None, None, None, false, false)

  /** What `declineCall` leaves: the call fields reset, media and flags kept. */
  function Declined(s: Snapshot): (r: Snapshot)
    ensures r.callState == Idle && !r.isCaller && r.remoteUserId == None
    ensures r.incomingCaller == None && r.outcomingCallee == None
    ensures r.localStream == s.localStream && r.remoteStream == s.remoteStream
    ensures r.peerConnection == s.peerConnection
    ensures r.isMicMuted == s.isMicMuted && r.isCameraOff == s.isCameraOff
  {
    s.(callState := Idle, isCaller := false, remoteUserId := None,
       incomingCaller := None, outcomingCallee := None)
  }

  /** Declining twice is declining once. */
  lemma DeclineIdempotent(s: Snapshot)
    ensures Declined(Declined(s)) == Declined(s)
  {
  }

  /** The tracks whose state a toggle or a cleanup may change. */
  function MediaTracks(s: Snapshot): set<Track> {
    TracksOf(s.localStream) + TracksOf(s.remoteStream)
  }

  class Store {
    var localStream: MediaStream?
    var remoteStream: MediaStream?
    var peerConnection: PeerConnection?
    var callState: CallState
    var isCaller: bool
    var remoteUserId: Option<int>
    var incomingCaller: Option<Party>
    var outcomingCallee: Option<Party>
    var isMicMuted: bool
    var isCameraOff: bool

    function Snap(): Snapshot
      reads this
    {
      Snapshot(localStream, remoteStream, peerConnection, callState, isCaller,
               remoteUserId, incomingCaller, outcomingCallee, isMicMuted, isCameraOff)
    }

    constructor()
      ensures Snap() == Initial
    {
      localStream := null;
      remoteStream := null;
      peerConnection := null;
      callState := Idle;
      isCaller := false;
      remoteUserId := None;
      incomingCaller := None;
      outcomingCallee := None;
      isMicMuted := false;
      isCameraOff := false;
    }

    method SetLocalStream(stream: MediaStream?)
      modifies this
      ensures Snap() == old(Snap()).(localStream := stream)
    {
      localStream := stream;
    }

    method SetRemoteStream(stream: MediaStream?)
      modifies this
      ensures Snap() == old(Snap()).(remoteStream := stream)
    {
      remoteStream := stream;
    }

    method SetPeerConnection(pc: PeerConnection?)
      modifies this
      ensures Snap() == old(Snap()).(peerConnection := pc)
    {
      peerConnection := pc;
    }

    method SetCallState(state: CallState)
      modifies this
      ensures Snap() == old(Snap()).(callState := state)
    {
      callState := state;
    }

    method SetIsCaller(caller: bool)
      modifies this
      ensures Snap() == old(Snap()).(isCaller := caller)
    {
      isCaller := caller;
    }

    method SetRemoteUserId(id: Option<int>)
      modifies this
      ensures Snap() == old(Snap()).(remoteUserId := id)
    {
      remoteUserId := id;
    }

    method SetIncomingCaller(caller: Option<Party>)
      modifies this
      ensures Snap() == old(Snap()).(incomingCaller := caller)
    {
      incomingCaller := caller;
    }

    method SetOutcomingCallee(callee: Option<Party>)
      modifies this
      ensures Snap() == old(Snap()).(outcomingCallee := callee)
    {
      outcomingCallee := callee;
    }

    /**
     * Sets `enabled := to` on every track of the local stream of the given
     * kind; other tracks are untouched.
     */
    method SetTracksEnabled(kind: TrackKind, to: bool)
      modifies TracksOf(localStream)
      ensures forall t :: t in TracksOf(localStream) ==>
        t.enabled == (if t.kind == kind then to else old(t.enabled)) && t.stopped == old(t.stopped)
    {
      if localStream == null {
        return;
      }
      var tracks := localStream.tracks;
      var i := 0;
      while i < |tracks|
        invariant 0 <= i <= |tracks|
        invariant forall t :: t in tracks ==>
          t.enabled == (if t.kind == kind && t in tracks[..i] then to else old(t.enabled))
          && t.stopped == old(t.stopped)
      {
        if tracks[i].kind == kind {
          tracks[i].enabled := to;
        }
        assert tracks[..i + 1] == tracks[..i] + [tracks[i]];
        i := i + 1;
      }
      assert tracks[..i] == tracks;
    }

    /**
     * `toggleMic`: every audio track takes the old muted flag as its
     * `enabled`, then the flag flips; afterwards audio is enabled exactly
     * when the mic is not muted.
     */
    method ToggleMic()
      modifies this, TracksOf(localStream)
      ensures Snap() == old(Snap()).(isMicMuted := !old(isMicMuted))
      ensures forall t :: t in TracksOf(localStream) ==>
        t.enabled == (if t.kind == Audio then !isMicMuted else old(t.enabled)) && t.stopped == old(t.stopped)
    {
      SetTracksEnabled(Audio, isMicMuted);
      isMicMuted := !isMicMuted;
    }

    /** `toggleCamera`: the same for video tracks and the camera flag. */
    method ToggleCamera()
      modifies this, TracksOf(localStream)
      ensures Snap() == old(Snap()).(isCameraOff := !old(isCameraOff))
      ensures forall t :: t in TracksOf(localStream) ==>
        t.enabled == (if t.kind == Video then !isCameraOff else old(t.enabled)) && t.stopped == old(t.stopped)
    {
      SetTracksEnabled(Video, isCameraOff);
      isCameraOff := !isCameraOff;
    }

    /** `declineCall`. */
    method DeclineCall()
      modifies this
      ensures Snap() == Declined(old(Snap()))
    {
      callState := Idle;
      isCaller := false;
      remoteUserId := None;
      incomingCaller := None;
      outcomingCallee := None;
    }

    /** Stops every track of a stream that may be absent. */
    static method StopTracks(s: MediaStream?)
      modifies TracksOf(s)
      ensures forall t :: t in TracksOf(s) ==> t.stopped && t.enabled == old(t.enabled)
    {
      if s == null {
        return;
      }
      var i := 0;
      while i < |s.tracks|
        invariant 0 <= i <= |s.tracks|
        invariant forall t :: t in s.tracks ==>
          (t in s.tracks[..i] ==> t.stopped) && t.enabled == old(t.enabled)
      {
        s.tracks[i].Stop();
        assert s.tracks[..i + 1] == s.tracks[..i] + [s.tracks[i]];
        i := i + 1;
      }
      assert s.tracks[..i] == s.tracks;
    }

    /**
     * `cleanupCall`: closes the peer connection, stops the tracks of both
     * streams and puts every field back to its initial value.
     */
    method CleanupCall()
      modifies this, peerConnection, MediaTracks(Snap())
      ensures Snap() == Initial
      ensures old(peerConnection) != null ==> old(peerConnection).closed
      ensures forall t :: t in old(MediaTracks(Snap())) ==> t.stopped
    {
      if peerConnection != null {
        peerConnection.Close();
      }
      StopTracks(localStream);
      StopTracks(remoteStream);
      localStream := null;
      remoteStream := null;
      peerConnection := null;
      callState := Idle;
      isCaller := false;
      remoteUserId := None;
      incomingCaller := None;
      outcomingCallee := None;
      isMicMuted := false;
      isCameraOff := false;
    }
  }

  /**
   * Toggling the mic twice always gives back the flag and leaves every audio
   * track matching it. Since each toggle sets the tracks to the new flag
   * rather than flipping them, the tracks come back as they were exactly
   * when they already matched the flag.
   */
  method ToggleMicTwice(store: Store)
    modifies store, TracksOf(store.localStream)
    ensures store.Snap() == old(store.Snap())
    ensures forall t :: t in TracksOf(store.localStream) && t.kind == Audio ==> t.enabled == !store.isMicMuted
    ensures old(forall t :: t in TracksOf(store.localStream) && t.kind == Audio ==> t.enabled == !store.isMicMuted)
      ==> forall t :: t in TracksOf(store.localStream) ==> t.enabled == old(t.enabled)
  {
    store.ToggleMic();
    store.ToggleMic();
  }

  /**
   * Cleanup is idempotent: on a store that is already initial, as one
   * cleanup leaves it, a second cleanup touches no connection and no track
   * (it may modify only the store) and leaves the state as it was.
   */
  method CleanupIdempotent(store: Store)
    requires store.Snap() == Initial
    modifies store
    ensures store.Snap() == old(store.Snap())
  {
    store.CleanupCall();
  }
}
