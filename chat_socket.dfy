/**
 * The server's socket.io connection handler: channel membership of each
 * socket, the events it fans out, and the message saves it asks for.
 *
 * A channel is named `"room:" + roomId`. An emission is recorded in the
 * outbox as the set of sockets it reaches and the event it carries:
 * `socket.to(ch).emit` reaches the channel minus the sender,
 * `io.to(ch).emit` the whole channel, `socket.emit` the sender alone.
 * Persisting a message is a call this model cannot see: each request is
 * logged in `saves` and its outcome is a parameter of the handler.
 */
module ChatSocket {
  import opened Common

  type SocketId = string

  /** The authenticated user attached to a socket. */
  datatype UserPayload = UserPayload(id: string, email: string)

  /** The message record the save returns and the server broadcasts. */
  datatype SavedMessage = SavedMessage(
    id: nat, userId: int, email: string, text: string, createdAt: string, roomId: int)

  /** The `{ roomId, text }` body of `message:create`. */
  datatype CreatePayload = CreatePayload(roomId: string, text: string)

  /** The `{ roomId, user }` body of `typing`. */
  datatype TypingPayload = TypingPayload(roomId: string, user: string)

  datatype Event =
    | PresenceEntered(user: Option<UserPayload>, roomId: string)
    | PresenceLeft(user: Option<UserPayload>, roomId: string)
    | MembershipJoined(roomId: string)
    | MembershipLeft(roomId: string)
    | MessageNew(message: SavedMessage)
    | AckSuccess(message: SavedMessage)
    | AckFailure(error: string)
    | TypingSomeone(roomId: string, userEmail: string)

  datatype Delivery = Delivery(recipients: set<SocketId>, event: Event)

  /** What the handler asks the message service to store. */
  datatype SaveRequest = SaveRequest(text: string, userId: string, roomId: string)

  const ServerError := "server_error"

  /** The channel a room's sockets share. */
  function ChannelName(roomId: string): (ch: string)
    ensures |ch| == |roomId| + 5 && ch[..5] == "room:" && ch[5..] == roomId
  {
    "room:" + roomId
  }

  lemma ChannelNameInjective(a: string, b: string)
    requires ChannelName(a) == ChannelName(b)
    ensures a == b
  {
    assert a == ChannelName(a)[5..];
  }

  type Channels = map<string, set<SocketId>>

  /** socket.io drops a channel when its last socket leaves. */
  ghost predicate NoEmptyChannel(chs: Channels) {
    forall ch :: ch in chs ==> chs[ch] != {}
  }

  function Members(chs: Channels, ch: string): set<SocketId> {
    if ch in chs then chs[ch] else {}
  }

  /** `socket.join(ch)`. */
  function Join(chs: Channels, ch: string, s: SocketId): (r: Channels)
    ensures Members(r, ch) == Members(chs, ch) + {s}
    ensures forall c :: c != ch ==> Members(r, c) == Members(chs, c)
    ensures NoEmptyChannel(chs) ==> NoEmptyChannel(r)
  {
    chs[ch := Members(chs, ch) + {s}]
  }

  /** `socket.leave(ch)`: leaving a channel one is not in changes nothing. */
  function Leave(chs: Channels, ch: string, s: SocketId): (r: Channels)
    ensures Members(r, ch) == Members(chs, ch) - {s}
    ensures forall c :: c != ch ==> Members(r, c) == Members(chs, c)
    ensures NoEmptyChannel(chs) ==> NoEmptyChannel(r)
    ensures NoEmptyChannel(chs) && s !in Members(chs, ch) ==> r == chs
  {
    var rest := Members(chs, ch) - {s};
    if rest == {} then chs - {ch}
    else
      assert s !in Members(chs, ch) ==> rest == chs[ch];
      chs[ch := rest]
  }

  /** What a disconnect does to channel membership: the socket leaves them all. */
  function LeaveAll(chs: Channels, s: SocketId): (r: Channels)
    ensures forall c :: Members(r, c) == Members(chs, c) - {s}
    ensures NoEmptyChannel(r)
  {
    map ch | ch in chs && chs[ch] - {s} != {} :: chs[ch] - {s}
  }

  /** Joining a channel and then leaving it again restores the membership. */
  lemma LeaveUndoesJoin(chs: Channels, ch: string, s: SocketId)
    requires NoEmptyChannel(chs)
    requires s !in Members(chs, ch)
    ensures Leave(Join(chs, ch, s), ch, s) == chs
  {
    var r := Leave(Join(chs, ch, s), ch, s);
    assert forall c :: Members(r, c) == Members(chs, c);
    forall c | c in r ensures c in chs && r[c] == chs[c] {
      assert Members(r, c) != {};
    }
    forall c | c in chs ensures c in r {
      assert Members(chs, c) != {};
    }
  }

  /** Joining twice is joining once. */
  lemma JoinIdempotent(chs: Channels, ch: string, s: SocketId)
    ensures Join(Join(chs, ch, s), ch, s) == Join(chs, ch, s)
  {
  }

  class Server {
    var connected: set<SocketId>
    /** The user the authentication middleware attached; absent when none. */
    var users: map<SocketId, UserPayload>
    var channels: Channels
    var outbox: seq<Delivery>
    var saves: seq<SaveRequest>

    ghost predicate Valid()
      reads this
    {
      users.Keys <= connected
      && NoEmptyChannel(channels)
      && forall ch :: Members(channels, ch) <= connected
    }

    /** `customSocket.user ?? null`. */
    function UserOf(s: SocketId): (u: Option<UserPayload>)
      reads this
      ensures u.Some? <==> s in users
      ensures s in users ==> u.value == users[s]
    {
      if s in users then Some(users[s]) else None
    }

    constructor()
      ensures Valid()
      ensures connected == {} && users == map[] && channels == map[]
      ensures outbox == [] && saves == []
    {
      connected := {};
      users := map[];
      channels := map[];
      outbox := [];
      saves := [];
    }

    /** A new connection, with the user its handshake authenticated, if any. */
    method Connect(s: SocketId, user: Option<UserPayload>)
      requires Valid() && s !in connected
      modifies this
      ensures Valid()
      ensures connected == old(connected) + {s}
      ensures users == if user.Some? then old(users)[s := user.value] else old(users)
      ensures channels == old(channels) && outbox == old(outbox) && saves == old(saves)
    {
      connected := connected + {s};
      if user.Some? {
        users := users[s := user.value];
      }
    }

    /** `socket.to(ch).emit(e)`: everyone in the channel except the sender. */
    method EmitToOthers(s: SocketId, ch: string, e: Event)
      modifies this
      ensures outbox == old(outbox) + [Delivery(Members(channels, ch) - {s}, e)]
      ensures connected == old(connected) && users == old(users)
      ensures channels == old(channels) && saves == old(saves)
    {
      outbox := outbox + [Delivery(Members(channels, ch) - {s}, e)];
    }

    /** `io.to(ch).emit(e)`: everyone in the channel, sender included. */
    method EmitToChannel(ch: string, e: Event)
      modifies this
      ensures outbox == old(outbox) + [Delivery(Members(channels, ch), e)]
      ensures connected == old(connected) && users == old(users)
      ensures channels == old(channels) && saves == old(saves)
    {
      outbox := outbox + [Delivery(Members(channels, ch), e)];
    }

    /** `socket.emit(e)`: the sender alone. */
    method EmitToSender(s: SocketId, e: Event)
      modifies this
      ensures outbox == old(outbox) + [Delivery({s}, e)]
      ensures connected == old(connected) && users == old(users)
      ensures channels == old(channels) && saves == old(saves)
    {
      outbox := outbox + [Delivery({s}, e)];
    }

    /**
     * `enterRoom`: an empty id is dropped; otherwise the socket joins the
     * room's channel and the others already in it hear `presence:entered`.
     */
    method EnterRoom(s: SocketId, roomId: string)
      requires Valid() && s in connected
      modifies this
      ensures Valid()
      ensures roomId == "" ==> channels == old(channels) && outbox == old(outbox)
      ensures roomId != "" ==>
        channels == Join(old(channels), ChannelName(roomId), s)
        && outbox == old(outbox) + [Delivery(Members(old(channels), ChannelName(roomId)) - {s},
                                             PresenceEntered(UserOf(s), roomId))]
      ensures connected == old(connected) && users == old(users) && saves == old(saves)
    {
      if roomId == "" {
        return;
      }
      var ch := ChannelName(roomId);
      ghost var others := Members(channels, ch) - {s};
      channels := Join(channels, ch, s);
      assert Members(channels, ch) - {s} == others;
      EmitToOthers(s, ch, PresenceEntered(UserOf(s), roomId));
    }

    /**
     * `exitRoom`: an empty id is dropped; otherwise the socket leaves the
     * channel and the sockets still in it hear `presence:left`.
     */
    method ExitRoom(s: SocketId, roomId: string)
      requires Valid() && s in connected
      modifies this
      ensures Valid()
      ensures roomId == "" ==> channels == old(channels) && outbox == old(outbox)
      ensures roomId != "" ==>
        channels == Leave(old(channels), ChannelName(roomId), s)
        && outbox == old(outbox) + [Delivery(Members(old(channels), ChannelName(roomId)) - {s},
                                             PresenceLeft(UserOf(s), roomId))]
      ensures connected == old(connected) && users == old(users) && saves == old(saves)
    {
      if roomId == "" {
        return;
      }
      var ch := ChannelName(roomId);
      ghost var others := Members(channels, ch) - {s};
      channels := Leave(channels, ch, s);
      assert Members(channels, ch) - {s} == others;
      EmitToOthers(s, ch, PresenceLeft(UserOf(s), roomId));
    }

    /** `joinRoom`: the same channel as `enterRoom`, with no guard on the id. */
    method JoinRoom(s: SocketId, roomId: string)
      requires Valid() && s in connected
      modifies this
      ensures Valid()
      ensures channels == Join(old(channels), ChannelName(roomId), s)
      ensures outbox == old(outbox) + [Delivery(Members(old(channels), ChannelName(roomId)) - {s},
                                                MembershipJoined(roomId))]
      ensures connected == old(connected) && users == old(users) && saves == old(saves)
    {
      var ch := ChannelName(roomId);
      ghost var others := Members(channels, ch) - {s};
      channels := Join(channels, ch, s);
      assert Members(channels, ch) - {s} == others;
      EmitToOthers(s, ch, MembershipJoined(roomId));
    }

    /** `leaveRoom`: leaves the channel, with no guard on the id. */
    method LeaveRoom(s: SocketId, roomId: string)
      requires Valid() && s in connected
      modifies this
      ensures Valid()
      ensures channels == Leave(old(channels), ChannelName(roomId), s)
      ensures outbox == old(outbox) + [Delivery(Members(old(channels), ChannelName(roomId)) - {s},
                                                MembershipLeft(roomId))]
      ensures connected == old(connected) && users == old(users) && saves == old(saves)
    {
      var ch := ChannelName(roomId);
      ghost var others := Members(channels, ch) - {s};
      channels := Leave(channels, ch, s);
      assert Members(channels, ch) - {s} == others;
      EmitToOthers(s, ch, MembershipLeft(roomId));
    }

    /**
     * `message:create`. `data` is None when the client sent no body (the
     * destructuring throws and the catch answers with a failure ack);
     * `outcome` is what the save resolves or rejects with.
     */
    method MessageCreate(s: SocketId, data: Option<CreatePayload>, outcome: Result<SavedMessage, string>)
      requires Valid() && s in connected
      modifies this
      ensures Valid()
      ensures channels == old(channels) && connected == old(connected) && users == old(users)
      // No user, or an empty room id or text: nothing is saved or sent.
      ensures s !in users || (data.Some? && (data.value.roomId == "" || data.value.text == "")) ==>
        outbox == old(outbox) && saves == old(saves)
      ensures s in users && data.None? ==>
        saves == old(saves) && outbox == old(outbox) + [Delivery({s}, AckFailure(ServerError))]
      ensures s in users && data.Some? && data.value.roomId != "" && data.value.text != "" ==>
        saves == old(saves) + [SaveRequest(data.value.text, users[s].id, data.value.roomId)]
        && outbox == old(outbox) +
          (if outcome.Ok? then
             [Delivery(Members(channels, ChannelName(data.value.roomId)), MessageNew(outcome.value)),
              Delivery({s}, AckSuccess(outcome.value))]
           else
             [Delivery({s}, AckFailure(ServerError))])
    {
      if s !in users {
        return;
      }
      if data.None? {
        EmitToSender(s, AckFailure(ServerError));
        return;
      }
      var roomId, text := data.value.roomId, data.value.text;
      if roomId == "" || text == "" {
        return;
      }
      saves := saves + [SaveRequest(text, users[s].id, roomId)];
      if outcome.Err? {
        EmitToSender(s, AckFailure(ServerError));
        return;
      }
      EmitToChannel(ChannelName(roomId), MessageNew(outcome.value));
      EmitToSender(s, AckSuccess(outcome.value));
    }

    /** `typing`: dropped without a room id; otherwise relayed to the others. */
    method Typing(s: SocketId, payload: Option<TypingPayload>)
      requires Valid() && s in connected
      modifies this
      ensures Valid()
      ensures channels == old(channels) && connected == old(connected)
      ensures users == old(users) && saves == old(saves)
      ensures payload.None? || payload.value.roomId == "" ==> outbox == old(outbox)
      ensures payload.Some? && payload.value.roomId != "" ==>
        outbox == old(outbox) + [Delivery(Members(channels, ChannelName(payload.value.roomId)) - {s},
                                          TypingSomeone(payload.value.roomId, payload.value.user))]
    {
      if payload.None? || payload.value.roomId == "" {
        return;
      }
      var ch := ChannelName(payload.value.roomId);
      EmitToOthers(s, ch, TypingSomeone(payload.value.roomId, payload.value.user));
    }

    /**
     * `disconnect`: socket.io takes the socket out of every channel; the
     * handler itself only logs, so nothing is sent and no presence is cleaned.
     */
    method Disconnect(s: SocketId)
      requires Valid() && s in connected
      modifies this
      ensures Valid()
      ensures connected == old(connected) - {s} && users == old(users) - {s}
      ensures channels == LeaveAll(old(channels), s)
      ensures outbox == old(outbox) && saves == old(saves)
    {
      connected := connected - {s};
      users := users - {s};
      channels := LeaveAll(channels, s);
    }
  }
}
