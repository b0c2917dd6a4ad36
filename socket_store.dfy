/**
 * The client's socket store: the one socket.io connection, the room the
 * user is looking at, and the per-room messages, typing indicators and
 * online flags that the socket's listeners keep up to date.
 *
 * The logged-in user is a parameter: `user` is the id of the user in the
 * auth store, None when nobody is logged in. The listeners registered in
 * `connect` are the `On...` methods; socket.io calls them later, one at a
 * time. The one-second typing timer is an explicit later step.
 */
module SocketStore {
  import opened Common
  import opened Wire
  import opened Browser
  import MessageStore

  /** The decimal digit for `d`. */
  function Digit(d: nat): (c: char)
    requires d < 10
    ensures '0' <= c <= '9'
  {
    (48 + d) as char
  }

  /** `String(n)` for a non-negative integer: its decimal digits, no leading zero. */
  function NatString(n: nat): (s: string)
    ensures |s| >= 1 && forall i :: 0 <= i < |s| ==> '0' <= s[i] <= '9'
    ensures n >= 10 ==> |s| >= 2
  {
    if n < 10 then [Digit(n)] else NatString(n / 10) + [Digit(n % 10)]
  }

  /** `String(n)` / `n.toString()` for an integer. */
  function DecimalString(n: int): (s: string)
    ensures n < 0 ==> |s| >= 2 && s[0] == '-'
    ensures n >= 0 ==> s == NatString(n)
  {
    if n < 0 then "-" + NatString(-n) else NatString(n)
  }

  /** Different numbers have different decimal strings. */
  lemma {:induction false} NatStringInjective(a: nat, b: nat)
    requires NatString(a) == NatString(b)
    ensures a == b
  {
    if a >= 10 && b >= 10 {
      var sa, sb := NatString(a / 10), NatString(b / 10);
      assert NatString(a) == sa + [Digit(a % 10)];
      assert NatString(b) == sb + [Digit(b % 10)];
      assert sa == NatString(a)[..|NatString(a)| - 1];
      assert sb == NatString(b)[..|NatString(b)| - 1];
      NatStringInjective(a / 10, b / 10);
    }
  }

  /** So two users' ids never name the same key of `onlineUsers`. */
  lemma DecimalStringInjective(a: int, b: int)
    requires DecimalString(a) == DecimalString(b)
    ensures a == b
  {
    if a < 0 && b < 0 {
      assert NatString(-a) == DecimalString(a)[1..];
      NatStringInjective(-a, -b);
    } else if a >= 0 && b >= 0 {
      NatStringInjective(a, b);
    }
  }

  /** `if (localUserId)`: a present id, and not 0. */
  predicate Truthy(id: Option<int>) {
    id.Some? && id.value != 0
  }

  /** `onlineUsers` after a user's flag is set, when the user id is truthy. */
  function FlagUser(online: map<string, bool>, id: Option<int>, isOnline: bool): (r: map<string, bool>)
    ensures Truthy(id) ==> r == Put(online, DecimalString(id.value), isOnline)
    ensures !Truthy(id) ==> r == online
  {
    if Truthy(id) then online[DecimalString(id.value) := isOnline] else online
  }

  /** Flagging one user leaves every other user's flag as it was. */
  lemma FlagOtherUserKept(online: map<string, bool>, a: int, b: int, isOnline: bool)
    requires a != b
    ensures var r := FlagUser(online, Some(b), isOnline);
      (DecimalString(a) in r <==> DecimalString(a) in online)
      && (DecimalString(a) in online ==> r[DecimalString(a)] == online[DecimalString(a)])
  {
    if DecimalString(a) == DecimalString(b) {
      DecimalStringInjective(a, b);
    }
  }

  /**
   * `users.forEach(id => setOnlineStatus(id, true))`, one write after
   * another: every listed user is marked online, everyone else stays as
   * they were, and nobody is marked offline.
   */
  function MarkOnline(online: map<string, bool>, users: seq<string>): (r: map<string, bool>)
    ensures r.Keys == online.Keys + (set u | u in users)
    ensures forall u :: u in users ==> r[u]
    ensures forall k :: k in online && k !in users ==> r[k] == online[k]
    ensures forall k :: k in r && !r[k] ==> k in online && !online[k]
  {
    if users == [] then online
    else
      var n := |users| - 1;
      assert forall u :: u in users ==> u in users[..n] || u == users[n];
      assert forall u :: u in users[..n] ==> u in users;
      MarkOnline(online, users[..n])[users[n] := true]
  }

  /** A room's cached list is used as is when it is present and non-empty. */
  predicate Cached(rooms: MessageStore.Rooms, roomId: nat) {
    roomId in rooms && |rooms[roomId]| > 0
  }

  class Store {
    var socket: ClientSocket?
    var currentRoomId: Option<nat>
    var messagesByRoom: MessageStore.Rooms
    var typingUserByRoom: map<int, Option<string>>
    var onlineUsers: map<string, bool>
    /** The rooms whose one-second typing clear is scheduled, oldest first. */
    var pendingTypingClears: seq<int>

    constructor()
      ensures socket == null && currentRoomId == None
      ensures messagesByRoom == map[] && typingUserByRoom == map[] && onlineUsers == map[]
      ensures pendingTypingClears == []
    {
      socket := null;
      currentRoomId := None;
      messagesByRoom := map[];
      typingUserByRoom := map[];
      onlineUsers := map[];
      pendingTypingClears := [];
    }

    /**
     * `connect`: nothing happens when nobody is logged in or a socket
     * already exists; otherwise a new socket, with its listeners, is stored.
     */
    method Connect(user: Option<int>)
      modifies this
      ensures user.None? || old(socket) != null ==> socket == old(socket)
      ensures user.Some? && old(socket) == null ==>
        socket != null && fresh(socket) && socket.connected && socket.listening && socket.sent == []
      ensures currentRoomId == old(currentRoomId) && messagesByRoom == old(messagesByRoom)
      ensures typingUserByRoom == old(typingUserByRoom) && onlineUsers == old(onlineUsers)
      ensures pendingTypingClears == old(pendingTypingClears)
    {
      if user.None? {
        return;
      }
      if socket != null {
        return;
      }
      var s := new ClientSocket();
      socket := s;
    }

    /** The `connect` listener: the local user shows as online. */
    method OnConnect(user: Option<int>)
      modifies this
      ensures onlineUsers == FlagUser(old(onlineUsers), user, true)
      ensures socket == old(socket) && currentRoomId == old(currentRoomId)
      ensures messagesByRoom == old(messagesByRoom) && typingUserByRoom == old(typingUserByRoom)
      ensures pendingTypingClears == old(pendingTypingClears)
    {
      if Truthy(user) {
        SetOnlineStatus(DecimalString(user.value), true);
      }
    }

    /**
     * The `disconnect` listener: the local user shows as offline and the
     * socket is dropped; the current room is kept.
     */
    method OnDisconnect(user: Option<int>)
      modifies this
      ensures onlineUsers == FlagUser(old(onlineUsers), user, false)
      ensures socket == null && currentRoomId == old(currentRoomId)
      ensures messagesByRoom == old(messagesByRoom) && typingUserByRoom == old(typingUserByRoom)
      ensures pendingTypingClears == old(pendingTypingClears)
    {
      if Truthy(user) {
        SetOnlineStatus(DecimalString(user.value), false);
      }
      socket := null;
    }

    /** The `message:new` listener: the message goes at the end of its room. */
    method OnMessageNew(msg: Message)
      modifies this
      ensures messagesByRoom == MessageStore.Appended(old(messagesByRoom), msg.roomId, msg)
      ensures socket == old(socket) && currentRoomId == old(currentRoomId)
      ensures typingUserByRoom == old(typingUserByRoom) && onlineUsers == old(onlineUsers)
      ensures pendingTypingClears == old(pendingTypingClears)
    {
      var prev := GetOr(messagesByRoom, msg.roomId, []);
      messagesByRoom := Put(messagesByRoom, msg.roomId, prev + [msg]);
    }

    /**
     * The `typing:someone` listener: the room shows who is typing, and a
     * clear of that room is scheduled.
     */
    method OnTypingSomeone(roomId: int, userEmail: string)
      modifies this
      ensures typingUserByRoom == Put(old(typingUserByRoom), roomId, Some(userEmail))
      ensures pendingTypingClears == old(pendingTypingClears) + [roomId]
      ensures socket == old(socket) && currentRoomId == old(currentRoomId)
      ensures messagesByRoom == old(messagesByRoom) && onlineUsers == old(onlineUsers)
    {
      typingUserByRoom := Put(typingUserByRoom, roomId, Some(userEmail));
      pendingTypingClears := pendingTypingClears + [roomId];
    }

    /**
     * The oldest scheduled typing clear fires: its room's entry becomes
     * null, whoever is typing there now.
     */
    method FireTypingClear()
      requires pendingTypingClears != []
      modifies this
      ensures typingUserByRoom == Put(old(typingUserByRoom), old(pendingTypingClears[0]), None)
      ensures pendingTypingClears == old(pendingTypingClears[1..])
      ensures socket == old(socket) && currentRoomId == old(currentRoomId)
      ensures messagesByRoom == old(messagesByRoom) && onlineUsers == old(onlineUsers)
    {
      var roomId := pendingTypingClears[0];
      pendingTypingClears := pendingTypingClears[1..];
      typingUserByRoom := Put(typingUserByRoom, roomId, None);
    }

    /**
     * The `presence:entered` listener: `userId` is `payload.user?.id`; an
     * event without a (truthy) user id is ignored.
     */
    method OnPresenceEntered(userId: Option<int>)
      modifies this
      ensures onlineUsers == FlagUser(old(onlineUsers), userId, true)
      ensures socket == old(socket) && currentRoomId == old(currentRoomId)
      ensures messagesByRoom == old(messagesByRoom) && typingUserByRoom == old(typingUserByRoom)
      ensures pendingTypingClears == old(pendingTypingClears)
    {
      if !Truthy(userId) {
        return;
      }
      SetOnlineStatus(DecimalString(userId.value), true);
    }

    /** The `presence:left` listener, the same with `false`. */
    method OnPresenceLeft(userId: Option<int>)
      modifies this
      ensures onlineUsers == FlagUser(old(onlineUsers), userId, false)
      ensures socket == old(socket) && currentRoomId == old(currentRoomId)
      ensures messagesByRoom == old(messagesByRoom) && typingUserByRoom == old(typingUserByRoom)
      ensures pendingTypingClears == old(pendingTypingClears)
    {
      if !Truthy(userId) {
        return;
      }
      SetOnlineStatus(DecimalString(userId.value), false);
    }

    /** The `presence:list` listener: each listed user is marked online. */
    method OnPresenceList(users: seq<string>)
      modifies this
      ensures onlineUsers == MarkOnline(old(onlineUsers), users)
      ensures socket == old(socket) && currentRoomId == old(currentRoomId)
      ensures messagesByRoom == old(messagesByRoom) && typingUserByRoom == old(typingUserByRoom)
      ensures pendingTypingClears == old(pendingTypingClears)
    {
      var i := 0;
      while i < |users|
        invariant 0 <= i <= |users|
        invariant onlineUsers == MarkOnline(old(onlineUsers), users[..i])
        invariant socket == old(socket) && currentRoomId == old(currentRoomId)
        invariant messagesByRoom == old(messagesByRoom) && typingUserByRoom == old(typingUserByRoom)
        invariant pendingTypingClears == old(pendingTypingClears)
      {
        assert users[..i + 1][..i] == users[..i];
        SetOnlineStatus(users[i], true);
        i := i + 1;
      }
      assert users[..i] == users;
    }

    /**
     * `disconnect`: without a socket nothing happens; otherwise the socket
     * loses its listeners and is closed, and the socket and current room
     * are cleared.
     */
    method Disconnect()
      modifies this, socket
      ensures old(socket) == null ==> socket == null && currentRoomId == old(currentRoomId)
      ensures old(socket) != null ==>
        socket == null && currentRoomId == None
        && !old(socket).connected && !old(socket).listening && old(socket).sent == old(socket.sent)
      ensures messagesByRoom == old(messagesByRoom) && typingUserByRoom == old(typingUserByRoom)
      ensures onlineUsers == old(onlineUsers) && pendingTypingClears == old(pendingTypingClears)
    {
      var s := socket;
      if s == null {
        return;
      }
      s.Close();
      socket := null;
      currentRoomId := None;
    }

    /**
     * `enterRoom`. The socket is read once, at the start: without one, a
     * connection is opened but the room is not announced on it. `fetched`
     * is the list the server answers with, None when the response is not
     * ok or the request throws; both of those only set the current room.
     */
    method EnterRoom(roomId: nat, user: Option<int>, fetched: Option<seq<Message>>)
      modifies this, socket
      ensures old(socket) != null ==>
        socket == old(socket) && socket.sent == old(socket.sent) + [EnterRoomEvent(DecimalString(roomId))]
        && socket.connected == old(socket.connected) && socket.listening == old(socket.listening)
      ensures old(socket) == null && user.None? ==> socket == null
      ensures old(socket) == null && user.Some? ==> socket != null && fresh(socket) && socket.sent == []
      ensures onlineUsers == FlagUser(old(onlineUsers), user, true)
      ensures currentRoomId == Some(roomId)
      ensures Cached(old(messagesByRoom), roomId) || fetched.None? ==> messagesByRoom == old(messagesByRoom)
      ensures !Cached(old(messagesByRoom), roomId) && fetched.Some? ==>
        messagesByRoom == Put(old(messagesByRoom), roomId, fetched.value)
      ensures typingUserByRoom == old(typingUserByRoom)
      ensures pendingTypingClears == old(pendingTypingClears)
    {
      var s := socket;
      var cached := messagesByRoom;
      if s == null {
        Connect(user);
      }
      if s != null {
        s.Emit(EnterRoomEvent(DecimalString(roomId)));
      }
      if Truthy(user) {
        SetOnlineStatus(DecimalString(user.value), true);
      }
      if Cached(cached, roomId) {
        currentRoomId := Some(roomId);
        return;
      }
      if fetched.Some? {
        messagesByRoom := Put(messagesByRoom, roomId, fetched.value);
      }
      currentRoomId := Some(roomId);
    }

    /** `exitRoom`: the room is left on the socket, if any, and the user shows offline. */
    method ExitRoom(roomId: nat, user: Option<int>)
      modifies this, socket
      ensures socket == old(socket)
      ensures socket != null ==>
        socket.sent == old(socket.sent) + [ExitRoomEvent(DecimalString(roomId))]
        && socket.connected == old(socket.connected) && socket.listening == old(socket.listening)
      ensures onlineUsers == FlagUser(old(onlineUsers), user, false)
      ensures currentRoomId == None
      ensures messagesByRoom == old(messagesByRoom) && typingUserByRoom == old(typingUserByRoom)
      ensures pendingTypingClears == old(pendingTypingClears)
    {
      var s := socket;
      if s != null {
        s.Emit(ExitRoomEvent(DecimalString(roomId)));
      }
      if Truthy(user) {
        SetOnlineStatus(DecimalString(user.value), false);
      }
      currentRoomId := None;
    }

    /** `setOnlineStatus`: exactly one user's flag is written. */
    method SetOnlineStatus(userId: string, isOnline: bool)
      modifies this
      ensures onlineUsers == Put(old(onlineUsers), userId, isOnline)
      ensures socket == old(socket) && currentRoomId == old(currentRoomId)
      ensures messagesByRoom == old(messagesByRoom) && typingUserByRoom == old(typingUserByRoom)
      ensures pendingTypingClears == old(pendingTypingClears)
    {
      onlineUsers := Put(onlineUsers, userId, isOnline);
    }

    /**
     * `sendMessage`: with a socket and a logged-in user, the creation
     * request goes out; the store itself does not change.
     */
    method SendMessage(roomId: nat, text: string, user: Option<int>)
      modifies socket
      ensures socket != null && user.Some? ==>
        socket.sent == old(socket.sent) + [MessageCreateEvent(DecimalString(roomId), text)]
      ensures socket != null && user.None? ==> socket.sent == old(socket.sent)
      ensures socket != null ==>
        socket.connected == old(socket.connected) && socket.listening == old(socket.listening)
    {
      var s := socket;
      if s == null || user.None? {
        return;
      }
      s.Emit(MessageCreateEvent(DecimalString(roomId), text));
    }

    /** `appendMessage`. */
    method AppendMessage(roomId: nat, msg: Message)
      modifies this
      ensures messagesByRoom == MessageStore.Appended(old(messagesByRoom), roomId, msg)
      ensures socket == old(socket) && currentRoomId == old(currentRoomId)
      ensures typingUserByRoom == old(typingUserByRoom) && onlineUsers == old(onlineUsers)
      ensures pendingTypingClears == old(pendingTypingClears)
    {
      var prev := GetMessagesForRoom(roomId);
      messagesByRoom := Put(messagesByRoom, roomId, prev + [msg]);
    }

    /** `getMessagesForRoom`: the room's list, or [] when it has none. */
    function GetMessagesForRoom(roomId: nat): (msgs: seq<Message>)
      reads this
      ensures roomId in messagesByRoom ==> msgs == messagesByRoom[roomId]
      ensures roomId !in messagesByRoom ==> msgs == []
    {
      GetOr(messagesByRoom, roomId, [])
    }

    /** `clearRoomMessages`: only that room's entry goes. */
    method ClearRoomMessages(roomId: nat)
      modifies this
      ensures messagesByRoom == Delete(old(messagesByRoom), roomId)
      ensures socket == old(socket) && currentRoomId == old(currentRoomId)
      ensures typingUserByRoom == old(typingUserByRoom) && onlineUsers == old(onlineUsers)
      ensures pendingTypingClears == old(pendingTypingClears)
    {
      messagesByRoom := Delete(messagesByRoom, roomId);
    }
  }
}
