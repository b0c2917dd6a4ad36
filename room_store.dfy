/**
 * The client's room store: the rooms the sidebar lists, keyed by id. Each
 * action returns a fresh record.
 */
module RoomStore {
  import opened Common
  import opened Wire

  type Rooms = map<int, RoomWithMembershipDTO>

  /** The record the store starts with. */
  const Initial: Rooms := map[]

  /** `setRooms`: the whole record is replaced by the list keyed by id; its keys are exactly the ids. */
  function SetRooms(rooms: seq<RoomWithMembershipDTO>): (r: Rooms)
    ensures r.Keys == set i | 0 <= i < |rooms| :: rooms[i].id
  {
    var es := EntriesBy(rooms, (room: RoomWithMembershipDTO) => room.id);
    FromEntriesKeys(es);
    assert (set i | 0 <= i < |es| :: es[i].0) == set i | 0 <= i < |rooms| :: rooms[i].id;
    FromEntries(es)
  }

  /** Of two rooms with one id, the later one is kept. */
  lemma SetRoomsLastWins(rooms: seq<RoomWithMembershipDTO>, i: nat)
    requires i < |rooms|
    requires forall j :: i < j < |rooms| ==> rooms[j].id != rooms[i].id
    ensures rooms[i].id in SetRooms(rooms) && SetRooms(rooms)[rooms[i].id] == rooms[i]
  {
    FromEntriesLastWins(EntriesBy(rooms, (room: RoomWithMembershipDTO) => room.id), i);
  }

  /** `addRoom`: the room is stored under its id; every other room stays. */
  function AddRoom(rooms: Rooms, room: RoomWithMembershipDTO): (r: Rooms)
    ensures room.id in r && r[room.id] == room
    ensures r.Keys == rooms.Keys + {room.id}
    ensures forall k :: k in rooms && k != room.id ==> r[k] == rooms[k]
  {
    Put(rooms, room.id, room)
  }

  /** `deleteRoom`: that key goes, every other room stays; an absent id changes nothing. */
  function DeleteRoom(rooms: Rooms, roomId: int): (r: Rooms)
    ensures r.Keys == rooms.Keys - {roomId}
    ensures forall k :: k in r ==> r[k] == rooms[k]
    ensures roomId !in rooms ==> r == rooms
  {
    Delete(rooms, roomId)
  }

  /** Adding a room under a fresh id and deleting it again restores the record. */
  lemma DeleteUndoesAdd(rooms: Rooms, room: RoomWithMembershipDTO)
    requires room.id !in rooms
    ensures DeleteRoom(AddRoom(rooms, room), room.id) == rooms
  {
  }
}
