# Chat rooms with presence, invitations and video calls — a Dafny model

The system is a real-time chat application. A Node/Express server keeps
rooms, memberships and invitations in a relational database. It relays
chat messages, typing notices and room presence over socket.io, and it
keeps an online-user registry in Redis. A React client holds its state
in small zustand stores. It parses the "invite members" text box, groups
message reactions by emoji, and runs a one-to-one WebRTC call state
machine.

This project models the sequential core of both sides.

**Server**
- `presence.dfy` (module `Presence`) models the Redis presence helpers.
  - Redis is a keyspace from key to a non-empty set, plus a TTL per key.
  - A `multi()/exec()` batch is one atomic `Exec`.
  - The `Store` class keeps two invariants: the online set matches the per-user socket sets, and the room↔user presence sets mirror each other. The second invariant relies on keys never expiring (see "## Left out").
- `chat_socket.dfy` (module `ChatSocket`) models the socket handlers.
  - A `Server` class holds the connected sockets, their users and the channel membership.
  - It also keeps an outbox of deliveries, each a set of recipients plus an event, and the list of save requests.
- `db.dfy` (module `Db`) models the database tables as sequences of rows inside a `Database` class.
  - `Db.Database.constructor` is a database fixture: it builds tables with the given users and rooms and models no source function.
- `room_service.dfy` (module `RoomService`) models room membership.
- `invitations.dfy` (module `RoomInvitations`) models the invitation lifecycle.

**Client**
- `webrtc_store.dfy` (module `WebRtcStore`) models the call store.
- `video_handlers.dfy` (module `VideoSocketHandlers`) models the signalling handlers.
- `browser.dfy` (module `Browser`) holds opaque media tracks, streams, peer connections and the client socket.
- `chat_layout.dfy` (module `ChatLayout`) models the layout effects.
- The keyed stores:
  - `socket_store.dfy` (`SocketStore`);
  - `presence_store.dfy` (`PresenceStore`);
  - `message_store.dfy` (`MessageStore`);
  - `typing_store.dfy` (`TypingStore`);
  - `invitation_store.dfy` (`InvitationStore`);
  - `room_store.dfy` (`RoomStore`).
- `invite_input.dfy` (module `InviteInput`) models invite-text parsing and autocomplete.
- `reactions.dfy` (module `Reactions`) models the emoji grouping.

**Shared**
- `common.dfy` (module `Common`) holds `Option`/`Result`, record helpers and first-occurrence de-duplication.
- `wire.dfy` (module `Wire`) holds the payload records.

**JavaScript semantics the model writes out**
- A record keyed by a non-negative integer below 2^32 − 1 is walked by `for..in` in ascending key order. `addReactionToMessage` searches rooms in that order.
- `Object.entries` on string keys lists them in insertion order.
- `split(/[\s,]+/)` is a scan that cuts at runs of whitespace or commas. A leading or trailing run yields an empty piece.
- `replace("@", "")` removes only the first `@`.
- `userId && …` treats 0 and a missing id alike.

## Model

| member | source | states |
|---|---|---|
| Presence.KeyNameShape | backend/src/utils/presence.ts:3-4 | each key family has its fixed Redis prefix, followed by the user or room id |
| Presence.KeyNameInjective | backend/src/utils/presence.ts:3-4 | two different keys never share a Redis key string, so the four families cannot clash |
| Presence.Step | backend/src/utils/presence.ts:11-31 | a single SADD/SREM/DEL/EXPIRE changes only its own key; Redis never keeps an empty set; an emptied set loses its TTL; EXPIRE on a missing key does nothing |
| Presence.RunWellFormed | backend/src/utils/presence.ts:52-56 | a batch of commands never leaves an empty set or a TTL on a missing key |
| Presence.SRemAbsent | backend/src/utils/presence.ts:61-62 | removing a member that is not there writes nothing |
| Presence.RoomRemovals | backend/src/utils/presence.ts:81-83 | one SREM of the user per listed room, in the rooms' order |
| Presence.RunRoomRemovals | backend/src/utils/presence.ts:80-85 | the pipeline built by the loop removes the user from exactly the listed rooms' sets; no other key changes |
| Presence.CameOnline | backend/src/utils/presence.ts:11-16 | when the new socket is the user's only one, SCARD reads 1 and, after the user joins the online set, every invariant still holds; only the user's socket set and the online set change |
| Presence.StayedOnline | backend/src/utils/presence.ts:11-19 | when the user already had another socket, SCARD is not 1 and the invariants hold without touching the online set |
| Presence.WentOffline | backend/src/utils/presence.ts:26-32 | when the removed socket was the last one, SCARD reads 0; after DEL and SREM the key is gone, the user has left the online set, the invariants hold and no other key or TTL changes |
| Presence.StillOnline | backend/src/utils/presence.ts:26-35 | when another socket remains, SCARD is not 0 and the invariants hold with the online set untouched |
| Presence.LeftAllRooms | backend/src/utils/presence.ts:80-85 | the batch of SREMs for exactly the user's rooms followed by DEL leaves the user in no room, removes the user's room set, keeps the invariants, and touches no other key |
| Presence.Store.Exec | backend/src/utils/presence.ts:52-56 | a `multi()` batch is applied as one atomic step, equal to running its commands in order |
| Presence.Store.SMembers | backend/src/utils/presence.ts:40 | SMEMBERS lists each member of the key exactly once |
| Presence.Store.SCard | backend/src/utils/presence.ts:12 | SCARD is the size of the key's set, 0 for a missing key |
| Presence.Store.AddUserToOnlineUsers | backend/src/utils/presence.ts:8-20 | adds the socket to the user's set; returns true iff that set now has one element (also iff it held no other socket); in that case the user joins the online set, otherwise the online set is unchanged; no other key changes; the invariants are kept |
| Presence.Store.RemoveUserFromOnlineUsers | backend/src/utils/presence.ts:23-36 | removes the socket; returns true iff the user's set became empty; in that case the key is gone and the user leaves the online set, otherwise the online set is unchanged; no other key changes |
| Presence.Store.GetOnlineUsers | backend/src/utils/presence.ts:39-41 | returns exactly the members of the online set, each once, and changes nothing |
| Presence.Store.AddUserToRoomPresence | backend/src/utils/presence.ts:49-57 | in one step, adds the user to the room's set and the room to the user's set; the TTL becomes 60 s on the room key only; the two directions stay mirrored |
| Presence.Store.RemoveUserFromRoomPresence | backend/src/utils/presence.ts:59-64 | removes both directions of the (user, room) entry; other keys are untouched; nothing is written when the entry is absent |
| Presence.Store.GetRoomPresence | backend/src/utils/presence.ts:66-68 | returns exactly the users present in the room, each once, and changes nothing |
| Presence.Store.RefreshRoomPresence | backend/src/utils/presence.ts:70-73 | no set changes; the room key and the user key get a 60 s TTL where they exist; every other TTL is kept |
| Presence.Store.RemoveUserFromAllRooms | backend/src/utils/presence.ts:75-88 | with no rooms, returns [] and writes nothing; otherwise returns exactly the user's rooms, each once, removes the user from every room's set and deletes the user's set; only room sets and the user's set change |
| ChatSocket.ChannelName | backend/src/sockets/chatSocket.ts:19 | the channel name is "room:" followed by the room id |
| ChatSocket.ChannelNameInjective | backend/src/sockets/chatSocket.ts:19 | different room ids give different channels |
| ChatSocket.Join | backend/src/sockets/chatSocket.ts:21 | the socket joins that one channel; all other channels keep their members |
| ChatSocket.Leave | backend/src/sockets/chatSocket.ts:34 | the socket leaves that one channel; other channels keep their members; leaving a channel one is not in changes nothing |
| ChatSocket.LeaveAll | backend/src/sockets/chatSocket.ts:111-113 | a disconnected socket is in no channel, and no other membership changes |
| ChatSocket.LeaveUndoesJoin | backend/src/sockets/chatSocket.ts:21-34 | joining a channel and then leaving it restores the membership |
| ChatSocket.JoinIdempotent | backend/src/sockets/chatSocket.ts:21 | joining twice is joining once |
| ChatSocket.Server.UserOf | backend/src/sockets/chatSocket.ts:24 | the socket's user, or null when the connection carried none |
| ChatSocket.Server.constructor | backend/src/sockets/chatSocket.ts:10-11 | no socket is connected, no channel has members, and nothing has been sent or saved |
| ChatSocket.Server.Connect | backend/src/sockets/chatSocket.ts:11-12 | a new connection is recorded with its user; channels and the outbox are unchanged |
| ChatSocket.Server.EmitToOthers | backend/src/sockets/chatSocket.ts:23-25 | one delivery, to the channel's members minus the sender |
| ChatSocket.Server.EmitToChannel | backend/src/sockets/chatSocket.ts:88 | one delivery, to every member of the channel, sender included |
| ChatSocket.Server.EmitToSender | backend/src/sockets/chatSocket.ts:91-94 | one delivery, to the sender only |
| ChatSocket.Server.EnterRoom | backend/src/sockets/chatSocket.ts:17-27 | an empty room id changes nothing and sends nothing; otherwise the socket joins "room:"+id, and presence:entered with the socket's user (or null) goes to the members who were already there |
| ChatSocket.Server.ExitRoom | backend/src/sockets/chatSocket.ts:30-39 | an empty room id changes nothing; otherwise the socket leaves the channel and presence:left goes to the remaining members |
| ChatSocket.Server.JoinRoom | backend/src/sockets/chatSocket.ts:45-55 | with no empty-id guard, the socket joins the channel and membership:joined goes to the other members |
| ChatSocket.Server.LeaveRoom | backend/src/sockets/chatSocket.ts:57-66 | with no empty-id guard, the socket leaves the channel and membership:left goes to the remaining members |
| ChatSocket.Server.MessageCreate | backend/src/sockets/chatSocket.ts:70-97 | with no user, or an empty room id or text, nothing is saved or sent; otherwise one save is requested; on success message:new goes to the whole channel, sender included, followed by a success ack to the sender; on failure only a failure ack goes out |
| ChatSocket.Server.Typing | backend/src/sockets/chatSocket.ts:101-109 | a missing room id is dropped; otherwise typing:someone, carrying the payload's user as userEmail, goes to every channel member except the sender |
| ChatSocket.Server.Disconnect | backend/src/sockets/chatSocket.ts:111-113 | the socket leaves every channel; nothing is emitted and nothing is saved |
| Db.FindUser | backend/src/services/rooms/roomService.ts:75-79 | resolving a row's `user` relation: a user is found exactly when one with that id exists, and the one found is in the table with that id |
| Db.FindRoom | backend/src/services/invitations/roomInvitationsService.ts:55-57 | resolving an invitation's `room` relation: a room is found exactly when one with that id exists, and the one found is in the table with that id |
| RoomService.ErrorMessage | backend/src/services/rooms/roomService.ts:19-52 | the two typed errors carry the source's exact messages |
| RoomService.GetAllRooms | backend/src/services/rooms/roomService.ts:4-8 | one DTO per room, in order, with that room's id and name |
| RoomService.RowsOf | backend/src/services/rooms/roomService.ts:73-80 | exactly the membership rows of the given room |
| RoomService.GetAllRoomUsers | backend/src/services/rooms/roomService.ts:72-84 | one user per membership row of the room, in row order; each is the user that row names |
| RoomService.GetTheUserRoomsWithMembership | backend/src/services/rooms/roomService.ts:86-102 | every room exactly once, in order, and isMember holds iff the user has a membership row for it |
| RoomService.RemovePair | backend/src/services/rooms/roomService.ts:54-57 | deletes exactly the rows for that (user, room) pair |
| RoomService.RemovePairUnique | backend/src/services/rooms/roomService.ts:54-57 | deleting a pair keeps the pairs unique |
| RoomService.RemoveAbsentPair | backend/src/services/rooms/roomService.ts:54-57 | deleting a pair that is absent changes nothing |
| RoomService.LeaveUndoesJoin | backend/src/services/rooms/roomService.ts:10-69 | a join followed by a leave of the same pair restores the membership relation |
| RoomService.JoinAddsRoomUser | backend/src/services/rooms/roomService.ts:72-84 | after a join, the room's user list gains exactly the joined user at the end; other rooms' lists are unchanged |
| RoomService.JoinTheRoom | backend/src/services/rooms/roomService.ts:10-36 | an existing pair fails with AlreadyJoined and writes nothing; a missing user or room fails and writes nothing; otherwise exactly that pair is added, and the result names that user and room; other tables are unchanged |
| RoomService.LeaveTheRoom | backend/src/services/rooms/roomService.ts:38-70 | an absent pair fails with NotAMember; otherwise exactly that pair is deleted, all other memberships stay, and the result is the removed row's user and room |
| RoomInvitations.ValidInviteeIds | backend/src/services/invitations/roomInvitationsService.ts:17-23 | keeps exactly the requested ids that are existing users, without repeats; an empty request gives [] |
| RoomInvitations.AlreadyInvitedIds | backend/src/services/invitations/roomInvitationsService.ts:25-35 | exactly the candidates who already have an invitation of any status for this room |
| RoomInvitations.Without | backend/src/services/invitations/roomInvitationsService.ts:37-39 | drops exactly the already-invited ids and keeps the others distinct |
| RoomInvitations.NewRows | backend/src/services/invitations/roomInvitationsService.ts:43-61 | one PENDING row per remaining invitee, carrying the inviter, the room and fresh, distinct ids (the model assigns them consecutively in invitee order) |
| RoomInvitations.ToDTO | backend/src/services/invitations/roomInvitationsService.ts:63-79 | the DTO carries the row's id, status, invitee and dates, and its inviter and room records |
| RoomInvitations.Describe | backend/src/services/invitations/roomInvitationsService.ts:104-120 | the DTO is built from the row, with its inviter and room looked up |
| RoomInvitations.PendingFor | backend/src/services/invitations/roomInvitationsService.ts:86-88 | exactly the PENDING invitations whose invitee is the user |
| RoomInvitations.FindMyInvitations | backend/src/services/invitations/roomInvitationsService.ts:83-121 | one DTO per pending invitation of the user, in order; each is PENDING and addressed to the user |
| RoomInvitations.IndexOf | backend/src/services/invitations/roomInvitationsService.ts:128-129 | the position of the invitation with that id, or -1 iff there is none |
| RoomInvitations.Respond | backend/src/services/invitations/roomInvitationsService.ts:140-147 | only the answered invitation changes, and only its status and acceptedAt |
| RoomInvitations.CanRespond | backend/src/services/invitations/roomInvitationsService.ts:136 | the negation of the early-return guard: the invitation exists, is addressed to the caller, and is still PENDING (a definition, no ensures) |
| RoomInvitations.AnsweredIsFinal | backend/src/services/invitations/roomInvitationsService.ts:136-138 | once answered, an invitation can be neither accepted nor declined again, by anyone |
| RoomInvitations.RespondKeepsShape | backend/src/services/invitations/roomInvitationsService.ts:140-147 | answering keeps ids unique, keeps one invitation per (room, invitee), and keeps every row's references |
| RoomInvitations.CreateInvitation | backend/src/services/invitations/roomInvitationsService.ts:10-80 | with no remaining invitee (empty request, unknown ids, or all already invited) it returns [] and creates nothing; otherwise it creates exactly one PENDING row per remaining invitee, with the given inviter and room, and returns their DTOs one-to-one; a missing inviter or room fails and creates nothing; memberships are untouched |
| RoomInvitations.InsertInvitations | backend/src/services/invitations/roomInvitationsService.ts:43-79 | the rows are appended in invitee order, and the returned DTOs correspond one-to-one with them |
| RoomInvitations.CreatedRowsValid | backend/src/services/invitations/roomInvitationsService.ts:43-61 | appending the new rows keeps the tables consistent and at most one invitation per (room, invitee) |
| RoomInvitations.NewRowsIdsUnique | backend/src/services/invitations/roomInvitationsService.ts:43-61 | rows numbered up from above every existing id keep invitation ids unique |
| RoomInvitations.NewRowsOnePerInvitee | backend/src/services/invitations/roomInvitationsService.ts:43-61 | rows for distinct invitees with no invitation to the room yet keep at most one invitation per (room, invitee) |
| RoomInvitations.AcceptInvitation | backend/src/services/invitations/roomInvitationsService.ts:124-164 | null and no change unless the invitation exists, belongs to the caller and is PENDING; otherwise only that invitation becomes ACCEPTED with acceptedAt stamped, and it can no longer be answered |
| RoomInvitations.DeclineInvitation | backend/src/services/invitations/roomInvitationsService.ts:167-208 | same guard; only that invitation becomes DECLINED with acceptedAt null, and it can no longer be answered |
| WebRtcStore.Declined | frontend/src/store/webrtcStore.ts:83-90 | resets the call state, caller flag, remote user, incoming caller and callee; keeps the streams, the peer connection and the mic/camera flags |
| WebRtcStore.DeclineIdempotent | frontend/src/store/webrtcStore.ts:83-90 | declining twice is declining once |
| WebRtcStore.Store.constructor | frontend/src/store/webrtcStore.ts:41-54 | idle, not caller, no parties, no streams, no peer connection, mic and camera flags false |
| WebRtcStore.Store.SetLocalStream | frontend/src/store/webrtcStore.ts:56 | changes only localStream |
| WebRtcStore.Store.SetRemoteStream | frontend/src/store/webrtcStore.ts:57 | changes only remoteStream |
| WebRtcStore.Store.SetPeerConnection | frontend/src/store/webrtcStore.ts:58 | changes only peerConnection |
| WebRtcStore.Store.SetCallState | frontend/src/store/webrtcStore.ts:60 | changes only callState, which can only hold idle, ringing or inCall |
| WebRtcStore.Store.SetIsCaller | frontend/src/store/webrtcStore.ts:61 | changes only isCaller |
| WebRtcStore.Store.SetRemoteUserId | frontend/src/store/webrtcStore.ts:62 | changes only remoteUserId |
| WebRtcStore.Store.SetIncomingCaller | frontend/src/store/webrtcStore.ts:64 | changes only incomingCaller |
| WebRtcStore.Store.SetOutcomingCallee | frontend/src/store/webrtcStore.ts:65 | changes only outcomingCallee |
| WebRtcStore.Store.SetTracksEnabled | frontend/src/store/webrtcStore.ts:69-71 | every local track of the kind gets the given enabled flag; other tracks and stop states are unchanged |
| WebRtcStore.Store.ToggleMic | frontend/src/store/webrtcStore.ts:67-73 | flips isMicMuted only; afterwards every audio track is enabled iff not muted, and video tracks are unchanged |
| WebRtcStore.Store.ToggleCamera | frontend/src/store/webrtcStore.ts:75-81 | flips isCameraOff only; afterwards every video track is enabled iff the camera is on, and audio tracks are unchanged |
| WebRtcStore.Store.DeclineCall | frontend/src/store/webrtcStore.ts:83-90 | the new state is the declined state of the old one |
| WebRtcStore.Store.StopTracks | frontend/src/store/webrtcStore.ts:96-97 | every track of the stream is stopped; a missing stream stops nothing |
| WebRtcStore.Store.CleanupCall | frontend/src/store/webrtcStore.ts:92-111 | closes the peer connection, stops every local and remote track, and restores every field to its initial value |
| WebRtcStore.ToggleMicTwice | frontend/src/store/webrtcStore.ts:67-73 | toggling the mic twice restores the flag unconditionally, with or without a local stream, and leaves every audio track matching it; when every audio track's enabled flag already matched !isMicMuted, every track is restored too |
| WebRtcStore.CleanupIdempotent | frontend/src/store/webrtcStore.ts:92-111 | a cleanup of a store already in the initial state, as one cleanup leaves it, closes no connection, stops no track and changes no field: twice is once |
| Browser.Track.Stop | frontend/src/store/webrtcStore.ts:96-97 | stopping a track marks it stopped and leaves it otherwise as is |
| Browser.PeerConnection.Close | frontend/src/store/webrtcStore.ts:94 | closing marks the connection closed and changes nothing else |
| Browser.ClientSocket.Emit | frontend/src/features/webrtc/videoSocketHandlers.ts:92-96 | an emitted event goes at the end of the socket's sent list |
| Browser.ClientSocket.Close | frontend/src/store/socketStore.ts:122-123 | a closed socket is disconnected and stops listening |
| Browser.PeerConnection.OnIceCandidate | frontend/src/features/webrtc/videoSocketHandlers.ts:75-82 | over a non-null captured socket, each local candidate is emitted to the target fixed when the connection was set up and the end-of-candidates null emits nothing; with a null socket nothing is sent and nothing changes |
| Browser.Unsent | frontend/src/features/webrtc/videoSocketHandlers.ts:69-72 | the stream's tracks that have no sender yet, each once |
| Browser.AddLocalTracks | frontend/src/features/webrtc/videoSocketHandlers.ts:69-72 | afterwards every track of the stream has a sender, and existing senders are kept in order |
| VideoSocketHandlers.HandleCallRequest | frontend/src/features/webrtc/videoSocketHandlers.ts:7-26 | ringing, not caller, remote user = caller, and the incoming caller and outgoing callee recorded from the request; nothing else changes |
| VideoSocketHandlers.HandleCallResponse | frontend/src/features/webrtc/videoSocketHandlers.ts:33-98 | a decline runs cleanup: the old connection is closed, every local and remote track is stopped, the state is back to initial, and nothing is sent; an accept with no local stream changes nothing and sends nothing; otherwise a new connection carrying every local track is stored, the state becomes inCall, ICE is routed to the callee, and one offer with the response's callerId and calleeId is emitted |
| VideoSocketHandlers.OnRemoteTrack | frontend/src/features/webrtc/videoSocketHandlers.ts:59-66 | the first remote stream becomes remoteStream and nothing else changes |
| VideoSocketHandlers.HandleOffer | frontend/src/features/webrtc/videoSocketHandlers.ts:102-158 | reuses the stored connection if there is one, else creates one; sets the remote offer and local answer; ICE goes to the caller; one answer with the same callerId/calleeId is emitted; the state ends inCall |
| VideoSocketHandlers.AnswerOffer | frontend/src/features/webrtc/videoSocketHandlers.ts:122-154 | the answering steps: ICE routed to the caller, the local tracks added, the descriptions set, and one answer emitted |
| VideoSocketHandlers.HandleAnswer | frontend/src/features/webrtc/videoSocketHandlers.ts:162-170 | with no connection nothing happens; otherwise only the connection's remote description is set; the store is unchanged |
| VideoSocketHandlers.HandleIceCandidate | frontend/src/features/webrtc/videoSocketHandlers.ts:172-181 | with no connection nothing happens; a candidate the connection refuses is swallowed and changes nothing; the store is unchanged |
| VideoSocketHandlers.OnCallEnded | frontend/src/features/webrtc/videoSocketHandlers.ts:185-190 | the store returns to its initial state and the connection is closed |
| VideoSocketHandlers.CallerCandidatesGoToCallee | frontend/src/features/webrtc/videoSocketHandlers.ts:75-97 | on the caller side, after the offer, a local candidate is addressed to the callee |
| VideoSocketHandlers.CalleeCandidatesGoToCaller | frontend/src/features/webrtc/videoSocketHandlers.ts:130-157 | on the callee side, after the answer, a local candidate is addressed to the caller |
| ChatLayout.Layout.constructor | frontend/src/hooks/useChatLayout.ts:13-15 | the layout starts on the chat pane, with the overlay hidden and the members panel closed |
| ChatLayout.InCall | frontend/src/hooks/useChatLayout.ts:11 | `inCall` holds exactly when the call state is "inCall" (a definition, no ensures) |
| ChatLayout.ShowsVideo | frontend/src/hooks/useChatLayout.ts:19 | the layout effect's condition: the call is on, or the call is ringing and this user is the caller (a definition, no ensures) |
| ChatLayout.Layout.DriveFromCallState | frontend/src/hooks/useChatLayout.ts:18-26 | when in a call, or ringing as the caller, the mobile view becomes video and the overlay is left alone; otherwise the overlay is hidden and the view is chat |
| ChatLayout.Layout.ResetMembersWhenIdle | frontend/src/hooks/useChatLayout.ts:29-33 | when idle the members panel closes; otherwise it is left as is |
| ChatLayout.Layout.OnMount | frontend/src/hooks/useChatLayout.ts:11-33 | the first render runs both effects: in a call (inCall iff callState is inCall) or ringing as caller, show video; ringing as callee, chat with the overlay hidden; idle, back to the initial layout |
| ChatLayout.Layout.OnCallStoreChange | frontend/src/hooks/useChatLayout.ts:18-33 | a later render runs the first effect only if callState or isCaller changed, and the second only if callState changed: no change leaves the layout as is, an isCaller-only change never touches the members panel, and a change to idle restores the initial layout |
| SocketStore.NatString | frontend/src/store/socketStore.ts:89 | a non-negative id is written as a non-empty run of decimal digits |
| SocketStore.DecimalString | frontend/src/store/socketStore.ts:89 | the record key that `[userId]` produces for an integer id |
| SocketStore.NatStringInjective | frontend/src/store/socketStore.ts:89 | different ids give different record keys |
| SocketStore.DecimalStringInjective | frontend/src/store/socketStore.ts:85-97 | different ids give different record keys, negative ids included |
| SocketStore.FlagUser | frontend/src/store/socketStore.ts:85-97 | with a missing or 0 id the record is unchanged; otherwise exactly that user's flag is set |
| SocketStore.Truthy | frontend/src/store/socketStore.ts:141 | the `if (localUserId)` guard: the id is present and not 0 (a definition, no ensures) |
| SocketStore.Cached | frontend/src/store/socketStore.ts:146 | the cache test: the room has a list and it is non-empty (a definition, no ensures) |
| SocketStore.FlagOtherUserKept | frontend/src/store/socketStore.ts:85-97 | flagging one user never changes another user's entry |
| SocketStore.MarkOnline | frontend/src/store/socketStore.ts:99-106 | presence:list marks every listed user online, leaves others alone, and never marks anyone offline |
| SocketStore.Store.constructor | frontend/src/store/socketStore.ts:24-29 | no socket, no current room, and empty records |
| SocketStore.Store.Connect | frontend/src/store/socketStore.ts:31-38 | nothing happens without a logged-in user or when a socket exists; otherwise a fresh connected socket is stored; no other field changes |
| SocketStore.Store.OnConnect | frontend/src/store/socketStore.ts:40-47 | the logged-in user is marked online |
| SocketStore.Store.OnDisconnect | frontend/src/store/socketStore.ts:49-57 | the user is marked offline and the socket is dropped |
| SocketStore.Store.OnMessageNew | frontend/src/store/socketStore.ts:61-69 | the message goes at the end of its room's list, which is created when missing; other rooms are unchanged |
| SocketStore.Store.OnTypingSomeone | frontend/src/store/socketStore.ts:72-78 | stores the typist for that room and schedules its clear; other fields are unchanged |
| SocketStore.Store.FireTypingClear | frontend/src/store/socketStore.ts:79-81 | the oldest scheduled clear sets its room's entry to null |
| SocketStore.Store.OnPresenceEntered | frontend/src/store/socketStore.ts:85-90 | an event without a user id is ignored; otherwise that user is marked online |
| SocketStore.Store.OnPresenceLeft | frontend/src/store/socketStore.ts:92-97 | an event without a user id is ignored; otherwise that user is marked offline |
| SocketStore.Store.OnPresenceList | frontend/src/store/socketStore.ts:99-106 | the record after the loop is the listed users marked online |
| SocketStore.Store.Disconnect | frontend/src/store/socketStore.ts:119-126 | a no-op without a socket; otherwise the socket is closed, and the socket and current room are cleared |
| SocketStore.Store.EnterRoom | frontend/src/store/socketStore.ts:129-170 | connects if there is no socket; emits enterRoom only on a socket that existed before the call, so a socket this call creates sends nothing; marks the user online and sets the current room; a non-empty cached list is kept as is; otherwise a successful fetch replaces the room's list and a failed one leaves it |
| SocketStore.Store.ExitRoom | frontend/src/store/socketStore.ts:172-182 | emits exitRoom when connected, marks the local user offline and clears the current room |
| SocketStore.Store.SetOnlineStatus | frontend/src/store/socketStore.ts:184-190 | overwrites exactly one user's entry |
| SocketStore.Store.SendMessage | frontend/src/store/socketStore.ts:192-203 | with a socket and a user, emits message:create with the room and text; without a user, emits nothing |
| SocketStore.Store.AppendMessage | frontend/src/store/socketStore.ts:205-210 | the message goes at the end of the room's list; other rooms are unchanged |
| SocketStore.Store.GetMessagesForRoom | frontend/src/store/socketStore.ts:212-215 | the room's list, or [] for an unknown room |
| SocketStore.Store.ClearRoomMessages | frontend/src/store/socketStore.ts:217-223 | deletes only that room's key |
| PresenceStore.SetOnlineStatus | frontend/src/store/presenceStore.ts:11-14 | the given user's flag becomes the given value, and every other entry is unchanged |
| PresenceStore.ApplyAllLastWins | frontend/src/store/presenceStore.ts:11-14 | after repeated calls, each user holds the value of its latest call |
| PresenceStore.ApplyAllOthersKept | frontend/src/store/presenceStore.ts:13 | calls about other users leave a user's entry as it was |
| MessageStore.Appended | frontend/src/store/messageStore.ts:54-64 | msg goes at the end of its room's list, starting from [] when absent; other rooms are unchanged |
| MessageStore.ReactionsOf | frontend/src/store/messageStore.ts:79 | `msg.reactions ?? []`: the stored list, or empty when it is missing (a definition, no ensures) |
| MessageStore.HasReaction | frontend/src/store/messageStore.ts:82-84 | the duplicate test: some reaction in the list has the same user id and the same emoji (a definition, no ensures) |
| MessageStore.FindIndex | frontend/src/store/messageStore.ts:74 | the first position of the message id, or -1 iff absent |
| MessageStore.WithReaction | frontend/src/store/messageStore.ts:89-100 | the reaction goes at the end of the message's reactions; every other field is kept |
| MessageStore.AddReaction | frontend/src/store/messageStore.ts:66-108 | the same rooms with lists of the same lengths; an unknown id changes nothing; otherwise only the first room (by id) holding the message may change, and a message with another id never does |
| MessageStore.MinKey | frontend/src/store/messageStore.ts:71-73 | the first room that `for..in` visits |
| MessageStore.AddReactionKeepsReactionsUnique | frontend/src/store/messageStore.ts:83-93 | if no message has duplicate (user, emoji) reactions before, none has afterwards |
| MessageStore.RepeatedReactionIsNoOp | frontend/src/store/messageStore.ts:83-87 | adding the same reaction twice equals adding it once |
| MessageStore.AddedReactionIsFound | frontend/src/store/messageStore.ts:71-100 | after a reaction is added, the same room and the same copy of the message are found first again, and that copy has the reaction |
| MessageStore.FindIndexSameIds | frontend/src/store/messageStore.ts:74-100 | updating a message's reactions does not move it |
| MessageStore.Store.GetMessagesForRoom | frontend/src/store/messageStore.ts:19-21 | the stored list, or [] when the room has none |
| MessageStore.Store.ClearRoomMessages | frontend/src/store/messageStore.ts:23-29 | removes only that room's entry |
| MessageStore.Store.FetchRoomMessages | frontend/src/store/messageStore.ts:31-52 | success replaces the room's list wholesale; failure leaves the state unchanged |
| MessageStore.Store.AppendMessage | frontend/src/store/messageStore.ts:54-64 | the new state is the old one with msg appended to its room |
| MessageStore.Store.AddReactionToMessage | frontend/src/store/messageStore.ts:66-108 | the loop over rooms in key order, stopping at the first hit, produces exactly the reaction update described by AddReaction |
| MessageStore.SmallestKey | frontend/src/store/messageStore.ts:71 | the next key the loop visits is the smallest one remaining |
| MessageStore.Store.constructor | frontend/src/store/messageStore.ts:17 | messagesByRoom starts empty |
| TypingStore.Store.constructor | frontend/src/store/typingStore.ts:9 | typingUserByRoom starts empty |
| TypingStore.Store.SetTyping | frontend/src/store/typingStore.ts:11-22 | stores the email for that room, leaves other rooms alone, and schedules one clear of that room |
| TypingStore.Store.FireClear | frontend/src/store/typingStore.ts:17-21 | the oldest pending clear sets its room's entry to null rather than deleting it; other rooms are unchanged |
| TypingStore.StaleClearWipesLaterTyping | frontend/src/store/typingStore.ts:18-20 | the first timer writes null even over an email set by a later setTyping |
| TypingStore.ClearTouchesOnlyItsRoom | frontend/src/store/typingStore.ts:19 | a clear leaves another room's typist in place |
| InvitationStore.ById | frontend/src/store/invitationStore.ts:15-21 | the record setInvitations builds: its key set is exactly the set of listed ids |
| InvitationStore.ByIdLastWins | frontend/src/store/invitationStore.ts:15-21 | a later duplicate id overwrites an earlier one |
| InvitationStore.Store.constructor | frontend/src/store/invitationStore.ts:13 | the record starts empty |
| InvitationStore.Store.SetInvitations | frontend/src/store/invitationStore.ts:15-21 | the forEach loop builds the record keyed by invitation id and replaces the old one |
| InvitationStore.Store.AddInvitation | frontend/src/store/invitationStore.ts:23-27 | inserts or overwrites one key and leaves the others unchanged |
| InvitationStore.Store.RemoveInvitation | frontend/src/store/invitationStore.ts:29-35 | deletes only that key; no-op for an absent id |
| InvitationStore.Store.ClearInvitations | frontend/src/store/invitationStore.ts:37 | the record is empty |
| RoomStore.SetRooms | frontend/src/store/roomStore.ts:14-17 | the record setRooms builds: its key set is exactly the set of room ids |
| RoomStore.SetRoomsLastWins | frontend/src/store/roomStore.ts:14-17 | the last room with a given id wins |
| RoomStore.AddRoom | frontend/src/store/roomStore.ts:19-25 | upserts one room and leaves the others untouched |
| RoomStore.DeleteRoom | frontend/src/store/roomStore.ts:27-34 | removes one key, leaves the others untouched, and is a no-op for an absent key |
| RoomStore.DeleteUndoesAdd | frontend/src/store/roomStore.ts:19-34 | adding a fresh room and then deleting it restores the record |
| Common.FirstIndex | frontend/src/components/invitations/RoomMembersInvite.tsx:52 | the first position holding a value |
| Common.Dedup | frontend/src/components/invitations/RoomMembersInvite.tsx:52 | `[...new Set(xs)]`: each value once, the same values, in order of first occurrence |
| Common.Put | frontend/src/store/roomStore.ts:21-24 | `{ ...m, [k]: v }`: k maps to v and every other key is kept |
| Common.Delete | frontend/src/store/roomStore.ts:29 | rest-destructuring without k: only k goes, and an absent k changes nothing |
| Common.GetOr | frontend/src/store/messageStore.ts:20 | `m[k] ?? d` |
| Common.EntriesBy | frontend/src/store/roomStore.ts:16 | `list.map(x => [key(x), x])`: one (key, element) entry per element, in list order |
| Common.FromEntriesKeys | frontend/src/store/roomStore.ts:16 | `Object.fromEntries` has exactly the listed keys |
| Common.FromEntriesLastWins | frontend/src/store/roomStore.ts:16 | the last entry for a key wins |
| InviteInput.Split | frontend/src/components/invitations/RoomMembersInvite.tsx:42 | at least one piece; no piece contains whitespace or a comma; a trailing separator leaves an empty last piece |
| InviteInput.IsSpace | frontend/src/components/invitations/RoomMembersInvite.tsx:42 | the white-space class `\s` that the split pattern and `trim()` use (a definition, no ensures) |
| InviteInput.SplitOfSeparators | frontend/src/components/invitations/RoomMembersInvite.tsx:42 | input made only of separators splits into empty pieces only |
| InviteInput.SplitHasWord | frontend/src/components/invitations/RoomMembersInvite.tsx:42 | any non-separator character yields a non-empty piece |
| InviteInput.Trim | frontend/src/components/invitations/RoomMembersInvite.tsx:43 | `trim()` never lengthens the text, and the result neither starts nor ends with whitespace |
| InviteInput.Clean | frontend/src/components/invitations/RoomMembersInvite.tsx:43 | a cleaned piece is never longer than the piece, and a non-empty one neither starts nor ends with white space |
| InviteInput.TrimStartDrops | frontend/src/components/invitations/RoomMembersInvite.tsx:43 | trimStart drops exactly the leading whitespace |
| InviteInput.TrimEndDrops | frontend/src/components/invitations/RoomMembersInvite.tsx:43 | trimEnd drops exactly the trailing whitespace |
| InviteInput.TrimSpec | frontend/src/components/invitations/RoomMembersInvite.tsx:39 | the trimmed text is empty iff the text is all whitespace; text without whitespace is unchanged |
| InviteInput.RemoveFirstAt | frontend/src/components/invitations/RoomMembersInvite.tsx:43 | `replace("@", "")` shortens the text by one character exactly when it contains an '@' |
| InviteInput.RemoveFirstAtNone | frontend/src/components/invitations/RoomMembersInvite.tsx:43 | without an '@' the token is unchanged |
| InviteInput.RemoveFirstAtFirst | frontend/src/components/invitations/RoomMembersInvite.tsx:43 | only the first '@' is removed; later ones stay |
| InviteInput.Lower | frontend/src/components/invitations/RoomMembersInvite.tsx:49 | lower-cases character by character, keeping the length |
| InviteInput.Map | frontend/src/components/invitations/RoomMembersInvite.tsx:43 | applies the function to each token, keeping order and length |
| InviteInput.MapAppend | frontend/src/components/invitations/RoomMembersInvite.tsx:43 | mapping distributes over concatenation |
| InviteInput.NonEmpty | frontend/src/components/invitations/RoomMembersInvite.tsx:44 | `filter((n) => n.length > 0)`: exactly the non-empty tokens |
| InviteInput.NonEmptyAppend | frontend/src/components/invitations/RoomMembersInvite.tsx:44 | the filter distributes over concatenation |
| InviteInput.DropEmptiesFirst | frontend/src/components/invitations/RoomMembersInvite.tsx:42-44 | dropping empty pieces before cleaning changes nothing, since an empty piece cleans to empty |
| InviteInput.NamesOfWords | frontend/src/components/invitations/RoomMembersInvite.tsx:41-44 | the names are the cleaned non-empty words of the input |
| InviteInput.Names | frontend/src/components/invitations/RoomMembersInvite.tsx:41-44 | every name that survives the filter is non-empty and neither starts nor ends with white space |
| InviteInput.FindIndexByName | frontend/src/components/invitations/RoomMembersInvite.tsx:47-49 | the first user whose username matches the name case-insensitively, or -1 iff none matches |
| InviteInput.MatchedIds | frontend/src/components/invitations/RoomMembersInvite.tsx:47-50 | exactly the ids of the users some name matches; unmatched names are dropped |
| InviteInput.MatchId | frontend/src/components/invitations/RoomMembersInvite.tsx:48 | `find` gives a user exactly when some user's lower-cased username equals the lower-cased name, and then the id is that of such a user |
| InviteInput.Exclude | frontend/src/components/invitations/RoomMembersInvite.tsx:53 | drops exactly the current user's id; with no current user, or when it is absent, the list is unchanged |
| InviteInput.ExcludeRemovesOne | frontend/src/components/invitations/RoomMembersInvite.tsx:53 | in a distinct list, excluding removes the single occurrence and keeps the rest in order |
| InviteInput.ExcludeKeepsOrder | frontend/src/components/invitations/RoomMembersInvite.tsx:53 | excluding keeps the remaining ids in their relative order |
| InviteInput.InviteeIds | frontend/src/components/invitations/RoomMembersInvite.tsx:39-53 | distinct ids, never the current user's; blank input gives []; an id is in the result iff some typed name matches that user and it is not the current user |
| InviteInput.BlankHasNoNames | frontend/src/components/invitations/RoomMembersInvite.tsx:41-44 | input made only of whitespace and commas yields no names |
| InviteInput.InviteeIdsInOrder | frontend/src/components/invitations/RoomMembersInvite.tsx:47-53 | the ids keep the order of their first match in the typed names |
| InviteInput.SubmitRequest | frontend/src/components/invitations/RoomMembersInvite.tsx:39-56 | a request is made iff there is at least one id, and it carries exactly those ids; blank input makes none |
| InviteInput.HasValidInput | frontend/src/components/invitations/RoomMembersInvite.tsx:20 | hasValidInput holds iff the input has a character that is neither whitespace nor a comma, which is when some split token is non-empty after trim |
| InviteInput.NoValidInputNoRequest | frontend/src/components/invitations/RoomMembersInvite.tsx:20 | without valid input no request is made |
| InviteInput.PrefixMatches | frontend/src/components/invitations/RoomMembersInvite.tsx:114-116 | exactly the users whose lowercased username starts with the prefix |
| InviteInput.LastPartial | frontend/src/components/invitations/RoomMembersInvite.tsx:113 | the word being typed: empty right after a trailing separator, never longer than the last piece, and a last piece without '@' just lower-cased |
| InviteInput.LastPiece | frontend/src/components/invitations/RoomMembersInvite.tsx:113 | the piece `pop()` returns has no separator in it, and it is empty when the text ends with a separator |
| InviteInput.Suggestions | frontend/src/components/invitations/RoomMembersInvite.tsx:113-116 | an empty last token gives no suggestions; otherwise exactly the users whose lowercased username starts with the last token, trimmed, with its first '@' removed and lowercased |
| InviteInput.AppendLetter | frontend/src/components/invitations/RoomMembersInvite.tsx:42 | a non-separator character extends the last piece |
| InviteInput.SplitAppendWord | frontend/src/components/invitations/RoomMembersInvite.tsx:42 | a word without separators extends the last piece |
| InviteInput.AppendSeparator | frontend/src/components/invitations/RoomMembersInvite.tsx:42 | a trailing separator adds no word and leaves an empty last piece |
| InviteInput.JoinStep | frontend/src/components/invitations/RoomMembersInvite.tsx:129 | appending a token and ", " adds exactly that token to the words |
| InviteInput.SeparatorOnly | frontend/src/components/invitations/RoomMembersInvite.tsx:129 | ", " alone has no words and an empty last piece |
| InviteInput.JoinedWords | frontend/src/components/invitations/RoomMembersInvite.tsx:129 | `join(", ") + ", "` of separator-free tokens has exactly the non-empty tokens as words |
| InviteInput.Join | frontend/src/components/invitations/RoomMembersInvite.tsx:129 | `parts.join(", ")`, defined by recursion on the parts (no ensures; `InviteInput.JoinedWords` states what the joined text holds) |
| InviteInput.ChooseSuggestion | frontend/src/components/invitations/RoomMembersInvite.tsx:126-130 | the new box text ends with "@" + username followed by ", " |
| InviteInput.ChooseSuggestionNames | frontend/src/components/invitations/RoomMembersInvite.tsx:126-130 | choosing a suggestion replaces the last token with "@"+username: the names become the earlier names plus that username; the new last token is empty, so no suggestions remain |
| Reactions.FindGroup | frontend/src/components/MessageReactions.tsx:12 | the group for the emoji, or -1 iff there is none yet |
| Reactions.Render | frontend/src/components/messages/MessageReactions.tsx:8-22 | nothing iff the list is missing or empty; otherwise a non-empty list of groups |
| Reactions.Emojis | frontend/src/components/MessageReactions.tsx:11 | the reactions' emojis in order |
| Reactions.WithEmoji | frontend/src/components/MessageReactions.tsx:15 | exactly the reactions with that emoji |
| Reactions.WithEmojiNone | frontend/src/components/MessageReactions.tsx:12-14 | an emoji nobody used has no reactions |
| Reactions.Usernames | frontend/src/components/MessageReactions.tsx:16 | the reactions' usernames in order |
| Reactions.DedupSnoc | frontend/src/components/MessageReactions.tsx:12-14 | a new emoji goes at the end of the first-occurrence list; a known one leaves it unchanged |
| Reactions.Snoc | frontend/src/components/MessageReactions.tsx:11-18 | the emoji list of the reactions with one more appended is the old emoji list followed by that reaction's emoji |
| Reactions.StepNew | frontend/src/components/MessageReactions.tsx:12-16 | a reaction with a new emoji appends a group describing exactly that reaction |
| Reactions.StepOld | frontend/src/components/messages/MessageReactions.tsx:15-16 | a reaction with a known emoji updates that emoji's group, and only that group |
| Reactions.AddTo | frontend/src/components/messages/MessageReactions.tsx:11-17 | one reduce step: the reaction's emoji has a group afterwards, at most one group is added, and the total count grows by exactly one |
| Reactions.Grouped | frontend/src/components/messages/MessageReactions.tsx:11-18 | the reduce: never more groups than reactions, and the counts sum to the number of reactions |
| Reactions.GroupedSpec | frontend/src/components/MessageReactions.tsx:11-22 | one group per distinct emoji, in order of first occurrence; each group's count is the number of reactions with its emoji, and its users are their usernames in input order |
| Reactions.TotalCountUpdate | frontend/src/components/messages/MessageReactions.tsx:15 | replacing one group changes the total by the difference in counts |
| Reactions.DescribedGroups | frontend/src/components/messages/MessageReactions.tsx:11-22 | groups that describe the distinct emojis have distinct emojis, cover every reaction's emoji, and have count equal to their user-list length and to the emoji's reaction count |
| Reactions.GroupsPerEmoji | frontend/src/components/messages/MessageReactions.tsx:11-22 | exactly one group per distinct emoji, every reaction's emoji has a group, and each count equals both the group's user-list length and the number of reactions with that emoji |

## Left out

- Redis key expiry is not modelled over time. The model records the TTL last set on each key but has no clock, so keys never expire.
- Presence.Mirrored: holds only because keys never expire. In Redis the user's key (TTL set by refreshRoomPresence) can expire while a room key, whose TTL addUserToRoomPresence renews whenever anyone enters, still lists the user.
- Presence.Store.RemoveUserFromAllRooms: its "no room lists the user afterwards" ensures depends on Presence.Mirrored. With expiry, the user's set can vanish before a room's set. The source then promises only the removals from the rooms listed in the user's set, and an empty user set leaves such rooms untouched.
- RoomInvitations.NewRows: the source creates the rows concurrently (Promise.all), so neither consecutive ids nor ids in invitee order is promised. The model fixes one assignment, consecutive in invitee order; what it relies on elsewhere is only that the ids are fresh and distinct.
- The server's presence helpers run `sadd` and then `scard` without a transaction (backend/src/utils/presence.ts:11-12, 26-27). The model runs each helper as one sequential step and does not model interleaving across sockets.
- The presence helpers are not called from the socket handlers. The model adds no such link, and no server handler for heartbeat or call signalling.
- A row that names a missing user or room makes the database client throw, and the services let that error propagate. The model returns an error whose text (`Db.ForeignKeyError`) is a placeholder, not the client's message.
- Database calls are modelled as in-memory tables. The model leaves out transactions, ordering by creation date, date formatting and a query that fails part-way (`Promise.all`).
- `now` (timestamps) is a parameter.
- Persistence in `message:create` is a parameter: the save's outcome is given, not computed.
- HTTP requests are parameters.
  - `fetchRoomMessages` receives the list the server answered with, or None for a failed or refused request.
  - The unwrapping of `data.data ?? data` is not modelled.
- The invite form's POST, its error display and the modal callbacks are not modelled.
- The `!inviteRoomId` guard of the invite form is not modelled.
- Browser media is opaque. Tracks, streams and peer connections are objects with the few fields the handlers touch. SDP and ICE contents are strings.
  - `getUserMedia` is not modelled.
  - Remote-track events after the first are not modelled.
  - `setRemoteDescription` failures are not modelled.
- Timers are explicit later steps, fired in the order they were set. This holds because every timer in the stores has the same delay.
- Room ids in the client stores are natural numbers, so that `for..in` order is numeric order. JavaScript visits a key in ascending numeric order only when it is an array index, that is, an integer below 2^32 − 1. Larger ids come later, in insertion order, which `MessageStore.MinKey` and the loop in `AddReactionToMessage` do not model.
- The socket store writes ids as decimal strings for record keys. `Number()` parsing of other strings is not modelled.
- The auth store and the users store are not part of this model: the logged-in user and the user list are parameters.
- The socket.io per-socket private room is not modelled.
- `enterRoom` awaits a fetch between steps. Other events cannot interleave with it in this model.
- Strings are sequences of Unicode scalar values, where JavaScript uses UTF-16 code units. A character outside the Basic Multilingual Plane is one character here and two code units there, and lone surrogates are not representable. No modelled behaviour depends on code-unit positions.
- Case-insensitive matching folds ASCII letters only. JavaScript's full Unicode `toLowerCase` is not modelled.
- Reactions: the grouping record is modelled with string keys in insertion order.
  - Emoji strings that look like array indices (which `Object.entries` would list first) are not modelled.
  - Keys inherited from `Object.prototype` are not modelled.
- The tooltip join and all JSX rendering are not modelled.
- InviteInput.ChooseSuggestionNames: proved only for a non-empty username without whitespace or commas, which is how the model reads usernames; other usernames are not covered.
- InviteInput.Suggestions: states which users are suggested, not that the filter keeps the users' order.
