/**
 * The client's handlers for the call-signalling events: how each one moves
 * the call store and what it sends, and to whom. `socket` is the socket
 * store's socket at the time the handler runs; the browser's answers to
 * `createOffer` and `createAnswer` are parameters.
 */
module VideoSocketHandlers {
  import opened Common
  import opened Browser
  import opened WebRtcStore

  /** `handleCallRequest`: an incoming call rings on the callee's side. */
  method HandleCallRequest(rtc: Store, callerId: int, callerName: string, calleeId: int, calleeName: string)
    modifies rtc
    ensures rtc.Snap() == old(rtc.Snap()).(
      incomingCaller := Some(Party(callerId, callerName)),
      outcomingCallee := Some(Party(calleeId, calleeName)),
      callState := Ringing,
      isCaller := false,
      remoteUserId := Some(callerId))
  {
    rtc.SetIncomingCaller(Some(Party(callerId, callerName)));
    rtc.SetOutcomingCallee(Some(Party(calleeId, calleeName)));
    rtc.SetCallState(Ringing);
    rtc.SetIsCaller(false);
    rtc.SetRemoteUserId(Some(callerId));
  }

  /**
   * `handleCallResponse`, on the caller's side. A refusal cleans the call
   * up; an acceptance without a local stream does nothing; otherwise a new
   * peer connection carries the local tracks, routes its ICE candidates to
   * the callee, and the offer goes out.
   */
  method HandleCallResponse(rtc: Store, socket: ClientSocket?, accepted: bool,
                            callerId: int, calleeId: int, offer: string)
    returns (pc: PeerConnection?)
    modifies rtc, rtc.peerConnection, MediaTracks(rtc.Snap()), socket
    ensures socket != null ==> socket.connected == old(socket.connected)
    ensures !accepted ==>
      rtc.Snap() == Initial && pc == null
      && (socket != null ==> socket.sent == old(socket.sent))
    ensures !accepted && old(rtc.peerConnection) != null ==> old(rtc.peerConnection).closed
    ensures !accepted ==> forall t :: t in old(MediaTracks(rtc.Snap())) ==> t.stopped
    ensures accepted && old(rtc.localStream) == null ==>
      rtc.Snap() == old(rtc.Snap()) && pc == null
      && (socket != null ==> socket.sent == old(socket.sent))
    ensures accepted && old(rtc.localStream) != null ==>
      pc != null && fresh(pc)
      && rtc.Snap() == old(rtc.Snap()).(peerConnection := pc, callState := InCall)
      && pc.iceRoute == Some(IceRoute(socket, calleeId))
      && pc.localDescription == Some(offer) && !pc.closed
      && (forall t :: t in rtc.localStream.tracks ==> t in pc.senders)
      && (socket != null ==> socket.sent == old(socket.sent) + [OfferEvent(offer, calleeId, callerId)])
  {
    if !accepted {
      rtc.CleanupCall();
      return null;
    }
    var localStream := rtc.localStream;
    if localStream == null {
      return null;
    }
    pc := new PeerConnection();
    AddLocalTracks(pc, localStream);
    pc.iceRoute := Some(IceRoute(socket, calleeId));
    rtc.SetPeerConnection(pc);
    rtc.SetCallState(InCall);
    pc.localDescription := Some(offer);
    if socket != null {
      socket.Emit(OfferEvent(offer, calleeId, callerId));
    }
  }

  /**
   * `handleOffer`, on the callee's side: the stored peer connection is
   * reused or a new one made, its ICE candidates go to the caller, the
   * answer goes back, and the call is on.
   */
  method HandleOffer(rtc: Store, socket: ClientSocket?, offer: string,
                     callerId: int, calleeId: int, answer: string)
    returns (pc: PeerConnection)
    modifies rtc, rtc.peerConnection, socket
    ensures socket != null ==> socket.connected == old(socket.connected)
    ensures old(rtc.peerConnection) != null ==> pc == old(rtc.peerConnection)
    ensures old(rtc.peerConnection) == null ==> fresh(pc)
    ensures rtc.Snap() == old(rtc.Snap()).(peerConnection := pc, callState := InCall)
    ensures pc.iceRoute == Some(IceRoute(socket, callerId))
    ensures pc.remoteDescription == Some(offer) && pc.localDescription == Some(answer)
    ensures rtc.localStream != null ==> forall t :: t in rtc.localStream.tracks ==> t in pc.senders
    ensures rtc.localStream == null ==> pc.senders == old(if rtc.peerConnection != null then rtc.peerConnection.senders else [])
    ensures socket != null ==> socket.sent == old(socket.sent) + [AnswerEvent(answer, callerId, calleeId)]
  {
    if rtc.peerConnection != null {
      pc := rtc.peerConnection;
    } else {
      pc := new PeerConnection();
    }
    AnswerOffer(pc, rtc.localStream, socket, offer, callerId, calleeId, answer);
    rtc.SetPeerConnection(pc);
    rtc.SetCallState(InCall);
  }

  /** The peer-connection and socket half of `handleOffer`. */
  method AnswerOffer(pc: PeerConnection, localStream: MediaStream?, socket: ClientSocket?,
                     offer: string, callerId: int, calleeId: int, answer: string)
    modifies pc, socket
    ensures socket != null ==> socket.connected == old(socket.connected)
    ensures pc.iceRoute == Some(IceRoute(socket, callerId))
    ensures pc.remoteDescription == Some(offer) && pc.localDescription == Some(answer)
    ensures localStream != null ==> forall t :: t in localStream.tracks ==> t in pc.senders
    ensures localStream == null ==> pc.senders == old(pc.senders)
    ensures socket != null ==> socket.sent == old(socket.sent) + [AnswerEvent(answer, callerId, calleeId)]
  {
    if localStream != null {
      AddLocalTracks(pc, localStream);
    }
    pc.iceRoute := Some(IceRoute(socket, callerId));
    pc.remoteDescription := Some(offer);
    pc.localDescription := Some(answer);
    if socket != null {
      socket.Emit(AnswerEvent(answer, callerId, calleeId));
    }
  }

  /** `pc.ontrack`: the remote stream is stored. */
  method OnRemoteTrack(rtc: Store, stream: MediaStream)
    modifies rtc
    ensures rtc.Snap() == old(rtc.Snap()).(remoteStream := stream)
  {
    rtc.SetRemoteStream(stream);
  }

  /** `handleAnswer`: without a peer connection, nothing happens. */
  method HandleAnswer(rtc: Store, answer: string)
    modifies rtc.peerConnection
    ensures rtc.Snap() == old(rtc.Snap())
    ensures rtc.peerConnection != null ==>
      rtc.peerConnection.remoteDescription == Some(answer)
      && rtc.peerConnection.candidates == old(rtc.peerConnection.candidates)
      && rtc.peerConnection.iceRoute == old(rtc.peerConnection.iceRoute)
  {
    var pc := rtc.peerConnection;
    if pc == null {
      return;
    }
    pc.remoteDescription := Some(answer);
  }

  /**
   * `handleIceCandidate`: without a peer connection, nothing happens; a
   * candidate the connection rejects is caught and changes nothing.
   */
  method HandleIceCandidate(rtc: Store, candidate: string, acceptedByConnection: bool)
    modifies rtc.peerConnection
    ensures rtc.Snap() == old(rtc.Snap())
    ensures rtc.peerConnection != null ==>
      rtc.peerConnection.candidates ==
        old(rtc.peerConnection.candidates) + (if acceptedByConnection then [candidate] else [])
      && rtc.peerConnection.remoteDescription == old(rtc.peerConnection.remoteDescription)
  {
    var pc := rtc.peerConnection;
    if pc == null {
      return;
    }
    if acceptedByConnection {
      pc.candidates := pc.candidates + [candidate];
    }
  }

  /** `onCallEnded`: the other side hung up. */
  method OnCallEnded(rtc: Store)
    modifies rtc, rtc.peerConnection, MediaTracks(rtc.Snap())
    ensures rtc.Snap() == Initial
    ensures old(rtc.peerConnection) != null ==> old(rtc.peerConnection).closed
  {
    rtc.CleanupCall();
  }

  /** On the caller's side, a candidate gathered after an accepted call goes to the callee. */
  method CallerCandidatesGoToCallee(rtc: Store, socket: ClientSocket, callerId: int, calleeId: int,
                                    offer: string, candidate: string)
    requires rtc.localStream != null
    modifies rtc, rtc.peerConnection, MediaTracks(rtc.Snap()), socket
    ensures socket.sent == old(socket.sent) + [OfferEvent(offer, calleeId, callerId),
                                               IceCandidateEvent(candidate, calleeId)]
  {
    var pc := HandleCallResponse(rtc, socket, true, callerId, calleeId, offer);
    pc.OnIceCandidate(Some(candidate));
  }

  /** On the callee's side, a candidate gathered after an offer goes to the caller. */
  method CalleeCandidatesGoToCaller(rtc: Store, socket: ClientSocket, callerId: int, calleeId: int,
                                    offer: string, answer: string, candidate: string)
    modifies rtc, rtc.peerConnection, socket
    ensures socket.sent == old(socket.sent) + [AnswerEvent(answer, callerId, calleeId),
                                               IceCandidateEvent(candidate, callerId)]
  {
    var pc := HandleOffer(rtc, socket, offer, callerId, calleeId, answer);
    pc.OnIceCandidate(Some(candidate));
  }
}
