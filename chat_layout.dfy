/**
 * The chat page's layout cells and the two effects that drive them from
 * the call store: which mobile pane shows, whether the video overlay
 * shows, and whether the members panel is open.
 */
module ChatLayout {
  import opened WebRtcStore

  datatype MobileView = ChatView | RoomsView | MembersView | VideoView

  datatype VideoOverlay = OverlayHidden | OverlayChat | OverlayMembers

  /** `inCall`: the call is connected. */
  predicate InCall(state: CallState) {
    state == CallState.InCall
  }

  /** The call needs the video pane: it is on, or this user is ringing someone. */
  predicate ShowsVideo(state: CallState, isCaller: bool) {
    InCall(state) || (state == Ringing && isCaller)
  }

  class Layout {
    var mobileView: MobileView
    var videoOverlay: VideoOverlay
    var showMembers: bool

    constructor()
      ensures mobileView == ChatView && videoOverlay == OverlayHidden && !showMembers
    {
      mobileView := ChatView;
      videoOverlay := OverlayHidden;
      showMembers := false;
    }

    /**
     * The first effect: a call that needs the video pane switches to it and
     * leaves the overlay alone; any other state hides the overlay and goes
     * back to the chat pane.
     */
    method DriveFromCallState(state: CallState, isCaller: bool)
      modifies this
      ensures ShowsVideo(state, isCaller) ==>
        mobileView == VideoView && videoOverlay == old(videoOverlay)
      ensures !ShowsVideo(state, isCaller) ==>
        mobileView == ChatView && videoOverlay == OverlayHidden
      ensures showMembers == old(showMembers)
    {
      if state == CallState.InCall || (state == Ringing && isCaller) {
        mobileView := VideoView;
        return;
      }
      videoOverlay := OverlayHidden;
      mobileView := ChatView;
    }

    /** The second effect: when no call is going on, the members panel closes. */
    method ResetMembersWhenIdle(state: CallState)
      modifies this
      ensures state == Idle ==> !showMembers
      ensures state != Idle ==> showMembers == old(showMembers)
      ensures mobileView == old(mobileView) && videoOverlay == old(videoOverlay)
    {
      if state == Idle {
        showMembers := false;
      }
    }

    /** The first render: React runs both effects, in order, whatever the call state. */
    method OnMount(state: CallState, isCaller: bool)
      modifies this
      ensures ShowsVideo(state, isCaller) ==>
        mobileView == VideoView && videoOverlay == old(videoOverlay) && showMembers == old(showMembers)
      ensures state == Ringing && !isCaller ==>
        mobileView == ChatView && videoOverlay == OverlayHidden && showMembers == old(showMembers)
      ensures state == Idle ==>
        mobileView == ChatView && videoOverlay == OverlayHidden && !showMembers
    {
      DriveFromCallState(state, isCaller);
      ResetMembersWhenIdle(state);
    }

    /**
     * A later render after the call store changed from (`prevState`,
     * `prevIsCaller`): an effect runs only when one of its dependencies
     * changed, the first on `[callState, isCaller]`, the second on
     * `[callState]`.
     */
    method OnCallStoreChange(prevState: CallState, prevIsCaller: bool, state: CallState, isCaller: bool)
      modifies this
      ensures state == prevState && isCaller == prevIsCaller ==>
        mobileView == old(mobileView) && videoOverlay == old(videoOverlay) && showMembers == old(showMembers)
      ensures state == prevState ==> showMembers == old(showMembers)
      ensures (state != prevState || isCaller != prevIsCaller) && ShowsVideo(state, isCaller) ==>
        mobileView == VideoView && videoOverlay == old(videoOverlay) && showMembers == old(showMembers)
      ensures (state != prevState || isCaller != prevIsCaller) && !ShowsVideo(state, isCaller) ==>
        mobileView == ChatView && videoOverlay == OverlayHidden
      // After a hang-up the page is back to its initial layout.
      ensures state != prevState && state == Idle ==>
        mobileView == ChatView && videoOverlay == OverlayHidden && !showMembers
    {
      if state != prevState || isCaller != prevIsCaller {
        DriveFromCallState(state, isCaller);
      }
      if state != prevState {
        ResetMembersWhenIdle(state);
      }
    }
  }
}
