/**
 * The client's message store: the messages of each room, keyed by room id,
 * and the reactions on them.
 *
 * Room ids are database keys, hence non-negative integers; a JavaScript
 * `for (const k in record)` visits such keys in ascending numeric order,
 * which is the order `addReactionToMessage` searches the rooms in.
 */
module MessageStore {
  import opened Common
  import opened Wire

  type Rooms = map<nat, seq<Message>>

  /** `msg.reactions ?? []`. */
  function ReactionsOf(m: Message): seq<MessageReaction> {
    if m.reactions.Some? then m.reactions.value else []
  }

  /**
   * `{ ...rooms, [roomId]: [...(rooms[roomId] ?? []), msg] }`: the message
   * goes at the end of its room's list, which is created when missing.
   */
  function Appended(rooms: Rooms, roomId: nat, msg: Message): (r: Rooms)
    ensures r.Keys == rooms.Keys + {roomId}
    ensures roomId in rooms ==> r[roomId] == rooms[roomId] + [msg]
    ensures roomId !in rooms ==> r[roomId] == [msg]
    ensures forall k :: k in rooms && k != roomId ==> r[k] == rooms[k]
  {
    Put(rooms, roomId, GetOr(rooms, roomId, []) + [msg])
  }

  /** `messages.findIndex(m => m.id === id)`: the first position, or -1. */
  function FindIndex(msgs: seq<Message>, id: int): (k: int)
    ensures -1 <= k < |msgs|
    ensures k >= 0 ==> msgs[k].id == id && forall j :: 0 <= j < k ==> msgs[j].id != id
    ensures k == -1 ==> forall j :: 0 <= j < |msgs| ==> msgs[j].id != id
  {
    if msgs == [] then -1
    else if msgs[0].id == id then 0
    else
      var k := FindIndex(msgs[1..], id);
      if k == -1 then -1 else k + 1
  }

  /** The same user already put the same emoji on the message. */
  predicate HasReaction(rs: seq<MessageReaction>, reaction: MessageReaction) {
    exists r :: r in rs && r.userId == reaction.userId && r.emoji == reaction.emoji
  }

  /** The rooms whose list holds a message with this id. */
  function RoomsWith(rooms: Rooms, id: int): set<nat> {
    set r | r in rooms && FindIndex(rooms[r], id) >= 0
  }

  /** The smallest of a non-empty set of room ids. */
  ghost function MinKey(s: set<nat>): (k: nat)
    requires s != {}
    ensures k in s && forall j :: j in s ==> k <= j
  {
    var x :| x in s;
    if s - {x} == {} then
      assert s == {x};
      x
    else
      var m := MinKey(s - {x});
      assert forall j :: j in s ==> j == x || j in s - {x};
      if m < x then m else x
  }

  /** The message with its reaction added at the end. */
  function WithReaction(m: Message, reaction: MessageReaction): (r: Message)
    ensures r.reactions == Some(ReactionsOf(m) + [reaction])
    ensures r.(reactions := m.reactions) == m
  {
    m.(reactions := Some(ReactionsOf(m) + [reaction]))
  }

  /**
   * What `addReactionToMessage` does to the rooms: in the first room (by id)
   * holding the message, its first copy there gets the reaction at the end,
   * unless that user already put that emoji on it. The rooms and their
   * lists keep their shape, at most one room changes, and a message with
   * another id is untouched.
   */
  ghost function AddReaction(rooms: Rooms, messageId: int, reaction: MessageReaction): (r: Rooms)
    ensures r.Keys == rooms.Keys
    ensures RoomsWith(rooms, messageId) == {} ==> r == rooms
    ensures RoomsWith(rooms, messageId) != {} ==>
      forall k :: k in rooms && k != MinKey(RoomsWith(rooms, messageId)) ==> r[k] == rooms[k]
    ensures forall k :: k in rooms ==> |r[k]| == |rooms[k]|
    ensures forall k, j :: k in rooms && 0 <= j < |rooms[k]| && rooms[k][j].id != messageId ==>
      r[k][j] == rooms[k][j]
  {
    if RoomsWith(rooms, messageId) == {} then rooms
    else
      var room := MinKey(RoomsWith(rooms, messageId));
      var i := FindIndex(rooms[room], messageId);
      var msg := rooms[room][i];
      if HasReaction(ReactionsOf(msg), reaction) then rooms
      else rooms[room := rooms[room][i := WithReaction(msg, reaction)]]
  }

  /** No message carries the same (user, emoji) reaction twice. */
  ghost predicate NoDuplicateReactions(rooms: Rooms) {
    forall r, i :: r in rooms && 0 <= i < |rooms[r]| ==> UniqueReactions(ReactionsOf(rooms[r][i]))
  }

  ghost predicate UniqueReactions(rs: seq<MessageReaction>) {
    forall i, j :: 0 <= i < j < |rs| ==> !(rs[i].userId == rs[j].userId && rs[i].emoji == rs[j].emoji)
  }

  /** Adding a reaction never creates a duplicate (user, emoji) pair. */
  lemma AddReactionKeepsReactionsUnique(rooms: Rooms, messageId: int, reaction: MessageReaction)
    requires NoDuplicateReactions(rooms)
    ensures NoDuplicateReactions(AddReaction(rooms, messageId, reaction))
  {
    if RoomsWith(rooms, messageId) != {} {
      var room := MinKey(RoomsWith(rooms, messageId));
      var i := FindIndex(rooms[room], messageId);
      var msg := rooms[room][i];
      if !HasReaction(ReactionsOf(msg), reaction) {
        var rs := ReactionsOf(msg) + [reaction];
        forall a, b | 0 <= a < b < |rs|
          ensures !(rs[a].userId == rs[b].userId && rs[a].emoji == rs[b].emoji)
        {
          if b == |rs| - 1 {
            assert rs[a] in ReactionsOf(msg);
          }
        }
      }
    }
  }

  /** A reaction the message already has from that user changes nothing. */
  lemma RepeatedReactionIsNoOp(rooms: Rooms, messageId: int, reaction: MessageReaction)
    ensures AddReaction(AddReaction(rooms, messageId, reaction), messageId, reaction)
         == AddReaction(rooms, messageId, reaction)
  {
    if RoomsWith(rooms, messageId) != {} {
      var room := MinKey(RoomsWith(rooms, messageId));
      var i := FindIndex(rooms[room], messageId);
      if !HasReaction(ReactionsOf(rooms[room][i]), reaction) {
        AddedReactionIsFound(rooms, messageId, reaction);
      }
    }
  }

  /**
   * After a reaction is added, the same room and the same copy of the
   * message are found again, and that copy now has the reaction.
   */
  lemma AddedReactionIsFound(rooms: Rooms, messageId: int, reaction: MessageReaction)
    requires RoomsWith(rooms, messageId) != {}
    requires var room := MinKey(RoomsWith(rooms, messageId));
      !HasReaction(ReactionsOf(rooms[room][FindIndex(rooms[room], messageId)]), reaction)
    ensures var once := AddReaction(rooms, messageId, reaction);
      var room := MinKey(RoomsWith(rooms, messageId));
      var i := FindIndex(rooms[room], messageId);
      RoomsWith(once, messageId) == RoomsWith(rooms, messageId)
      && FindIndex(once[room], messageId) == i
      && HasReaction(ReactionsOf(once[room][i]), reaction)
  {
    var once := AddReaction(rooms, messageId, reaction);
    var room := MinKey(RoomsWith(rooms, messageId));
    var i := FindIndex(rooms[room], messageId);
    var msg := rooms[room][i];
    assert once == rooms[room := rooms[room][i := WithReaction(msg, reaction)]];
    forall r | r in once
      ensures FindIndex(once[r], messageId) >= 0 <==> FindIndex(rooms[r], messageId) >= 0
    {
      if r == room {
        FindIndexSameIds(rooms[r], once[r], messageId);
      }
    }
    assert RoomsWith(once, messageId) == RoomsWith(rooms, messageId);
    FindIndexSameIds(rooms[room], once[room], messageId);
    assert reaction in ReactionsOf(once[room][i]);
  }

  /** Lists with the same ids in the same places agree on `FindIndex`. */
  lemma {:induction false} FindIndexSameIds(a: seq<Message>, b: seq<Message>, id: int)
    requires |a| == |b| && forall j :: 0 <= j < |a| ==> a[j].id == b[j].id
    ensures FindIndex(a, id) == FindIndex(b, id)
  {
    if a != [] && a[0].id != id {
      FindIndexSameIds(a[1..], b[1..], id);
    }
  }

  class Store {
    var messagesByRoom: Rooms

    constructor()
      ensures messagesByRoom == map[]
    {
      messagesByRoom := map[];
    }

    /** `getMessagesForRoom`: the room's list, or [] when it has none. */
    function GetMessagesForRoom(roomId: nat): (msgs: seq<Message>)
      reads this
      ensures roomId in messagesByRoom ==> msgs == messagesByRoom[roomId]
      ensures roomId !in messagesByRoom ==> msgs == []
    {
      GetOr(messagesByRoom, roomId, [])
    }

    /** `clearRoomMessages`: only that room's entry goes. */
    method ClearRoomMessages(roomId: nat)
      modifies this
      ensures messagesByRoom == Delete(old(messagesByRoom), roomId)
    {
      messagesByRoom := Delete(messagesByRoom, roomId);
    }

    /**
     * `fetchRoomMessages`: `fetched` is the list the server answered with,
     * or None when the request failed or was refused.
     */
    method FetchRoomMessages(roomId: nat, fetched: Option<seq<Message>>)
      modifies this
      ensures fetched.Some? ==> messagesByRoom == Put(old(messagesByRoom), roomId, fetched.value)
      ensures fetched.None? ==> messagesByRoom == old(messagesByRoom)
    {
      if fetched.None? {
        return;
      }
      messagesByRoom := Put(messagesByRoom, roomId, fetched.value);
    }

    /** `appendMessage`: msg goes at the end of its room's list. */
    method AppendMessage(roomId: nat, msg: Message)
      modifies this
      ensures messagesByRoom == Appended(old(messagesByRoom), roomId, msg)
    {
      var prev := GetMessagesForRoom(roomId);
      messagesByRoom := Put(messagesByRoom, roomId, prev + [msg]);
    }

    /** `addReactionToMessage`. */
    method AddReactionToMessage(messageId: int, reaction: MessageReaction)
      modifies this
      ensures messagesByRoom == AddReaction(old(messagesByRoom), messageId, reaction)
    {
      var updated := messagesByRoom;
      var remaining := updated.Keys;
      while remaining != {}
        invariant updated == messagesByRoom
        invariant remaining <= updated.Keys
        invariant forall r :: r in updated && r !in remaining ==> FindIndex(updated[r], messageId) < 0
        invariant forall r, q :: r in updated && r !in remaining && q in remaining ==> r < q
        decreases remaining
      {
        var roomId := SmallestKey(remaining);
        var messages := updated[roomId];
        var index := FindIndex(messages, messageId);
        if index == -1 {
          remaining := remaining - {roomId};
          continue;
        }
        assert roomId in RoomsWith(updated, messageId);
        assert roomId == MinKey(RoomsWith(updated, messageId));
        var msg := messages[index];
        var currentReactions := ReactionsOf(msg);
        if HasReaction(currentReactions, reaction) {
          return;
        }
        updated := updated[roomId := messages[index := WithReaction(msg, reaction)]];
        break;
      }
      messagesByRoom := updated;
    }
  }

  /** The smallest key of a non-empty set, found by one pass over it. */
  method SmallestKey(keys: set<nat>) returns (k: nat)
    requires keys != {}
    ensures k in keys && forall j :: j in keys ==> k <= j
  {
    k :| k in keys;
    var rest := keys - {k};
    while rest != {}
      invariant rest <= keys && k in keys
      invariant forall j :: j in keys && j !in rest ==> k <= j
      decreases rest
    {
      var x :| x in rest;
      if x < k {
        k := x;
      }
      rest := rest - {x};
    }
  }
}
