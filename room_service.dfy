/**
 * Room membership on the server: listing rooms, joining and leaving a room
 * (a row of the user-room relation), and the two read-only views built on
 * that relation.
 */
module RoomService {
  import opened Common
  import opened Db

  datatype RoomDTO = RoomDTO(id: int, name: string)

  datatype RoomUser = RoomUser(id: int, username: string, email: string)

  /** The joined or deleted membership row, with its user and room. */
  datatype UserRoomDTO = UserRoomDTO(user: RoomUser, room: RoomDTO, joinedAt: string)

  datatype RoomWithMembership = RoomWithMembership(id: int, name: string, isMember: bool)

  datatype RoomError =
    | AlreadyJoined
    | NotAMember
      /** The database refuses a row that names a missing user or room; its error propagates. */
    | MissingUserOrRoom

  function ErrorMessage(e: RoomError): (msg: string)
    ensures e.AlreadyJoined? ==> msg == "User already joined this room"
    ensures e.NotAMember? ==> msg == "User is not a member of this room"
  {
    match e
    case AlreadyJoined => "User already joined this room"
    case NotAMember => "User is not a member of this room"
    case MissingUserOrRoom => ForeignKeyError
  }

  function ToRoomUser(u: User): RoomUser {
    RoomUser(u.id, u.username, u.email)
  }

  /** `getAllRooms`: every room's id and name, in table order. */
  function GetAllRooms(rooms: seq<Room>): (r: seq<RoomDTO>)
    ensures |r| == |rooms|
    ensures forall i :: 0 <= i < |r| ==> r[i].id == rooms[i].id && r[i].name == rooms[i].name
  {
    seq(|rooms|, i requires 0 <= i < |rooms| => RoomDTO(rooms[i].id, rooms[i].name))
  }

  /** The membership rows of one room, in table order. */
  function RowsOf(ms: seq<Membership>, roomId: int): (r: seq<Membership>)
    ensures forall m :: m in r <==> m in ms && m.roomId == roomId
    ensures |r| <= |ms|
  {
    if ms == [] then []
    else
      var n := |ms| - 1;
      var front := RowsOf(ms[..n], roomId);
      assert forall m :: m in ms <==> m in ms[..n] || m == ms[n];
      if ms[n].roomId == roomId then front + [ms[n]] else front
  }

  /** `getAllRoomUsers`: the user of each of the room's membership rows. */
  function GetAllRoomUsers(users: seq<User>, ms: seq<Membership>, roomId: int): (r: seq<RoomUser>)
    requires forall m :: m in ms ==> HasUser(users, m.userId)
    ensures |r| == |RowsOf(ms, roomId)|
    ensures forall i :: 0 <= i < |r| ==>
      r[i].id == RowsOf(ms, roomId)[i].userId && User(r[i].id, r[i].username, r[i].email) in users
  {
    var rows := RowsOf(ms, roomId);
    assert forall i :: 0 <= i < |rows| ==> rows[i] in ms;
    seq(|rows|, i requires 0 <= i < |rows| => ToRoomUser(FindUser(users, rows[i].userId).value))
  }

  /** The ids of the rooms the user has a membership row for. */
  function JoinedRoomIds(ms: seq<Membership>, userId: int): set<int> {
    set m | m in ms && m.userId == userId :: m.roomId
  }

  /** `getTheUserRoomsWithMembership`: every room, flagged with the user's membership. */
  function GetTheUserRoomsWithMembership(rooms: seq<Room>, ms: seq<Membership>, userId: int)
    : (r: seq<RoomWithMembership>)
    ensures |r| == |rooms|
    ensures forall i :: 0 <= i < |r| ==>
      r[i].id == rooms[i].id && r[i].name == rooms[i].name
      && (r[i].isMember <==> IsMember(ms, userId, rooms[i].id))
  {
    var joined := JoinedRoomIds(ms, userId);
    assert forall id :: id in joined <==> IsMember(ms, userId, id);
    seq(|rooms|, i requires 0 <= i < |rooms| =>
      RoomWithMembership(rooms[i].id, rooms[i].name, rooms[i].id in joined))
  }

  /** The relation without the (userId, roomId) row. */
  function RemovePair(ms: seq<Membership>, userId: int, roomId: int): (r: seq<Membership>)
    ensures forall m :: m in r <==> m in ms && !(m.userId == userId && m.roomId == roomId)
  {
    if ms == [] then []
    else
      var n := |ms| - 1;
      var front := RemovePair(ms[..n], userId, roomId);
      assert forall m :: m in ms <==> m in ms[..n] || m == ms[n];
      if ms[n].userId == userId && ms[n].roomId == roomId then front else front + [ms[n]]
  }

  /** Removing a row keeps the (userId, roomId) key unique. */
  lemma {:induction false} RemovePairUnique(ms: seq<Membership>, userId: int, roomId: int)
    requires UniquePairs(ms)
    ensures UniquePairs(RemovePair(ms, userId, roomId))
  {
    if ms != [] {
      var n := |ms| - 1;
      assert UniquePairs(ms[..n]);
      RemovePairUnique(ms[..n], userId, roomId);
      var front := RemovePair(ms[..n], userId, roomId);
      if !(ms[n].userId == userId && ms[n].roomId == roomId) {
        forall i | 0 <= i < |front| ensures !SamePair(front[i], ms[n]) {
          assert front[i] in ms[..n];
          var k :| 0 <= k < n && ms[k] == front[i];
        }
      }
    }
  }

  /** Removing a pair that has no row changes nothing. */
  lemma {:induction false} RemoveAbsentPair(ms: seq<Membership>, userId: int, roomId: int)
    requires !IsMember(ms, userId, roomId)
    ensures RemovePair(ms, userId, roomId) == ms
  {
    if ms != [] {
      var n := |ms| - 1;
      assert ms[n] in ms;
      assert !IsMember(ms[..n], userId, roomId) by {
        forall m | m in ms[..n] ensures !(m.userId == userId && m.roomId == roomId) {
          assert m in ms;
        }
      }
      RemoveAbsentPair(ms[..n], userId, roomId);
      assert ms == ms[..n] + [ms[n]];
    }
  }

  /** A successful join followed by a successful leave of the same pair restores the relation. */
  lemma LeaveUndoesJoin(ms: seq<Membership>, row: Membership)
    requires !IsMember(ms, row.userId, row.roomId)
    ensures RemovePair(ms + [row], row.userId, row.roomId) == ms
  {
    assert (ms + [row])[..|ms|] == ms;
    RemoveAbsentPair(ms, row.userId, row.roomId);
  }

  /** A join adds its user at the end of the room's user list and changes no other room's. */
  lemma JoinAddsRoomUser(users: seq<User>, ms: seq<Membership>, row: Membership, roomId: int)
    requires forall m :: m in ms + [row] ==> HasUser(users, m.userId)
    ensures roomId == row.roomId ==>
      GetAllRoomUsers(users, ms + [row], roomId)
        == GetAllRoomUsers(users, ms, roomId) + [ToRoomUser(FindUser(users, row.userId).value)]
    ensures roomId != row.roomId ==>
      GetAllRoomUsers(users, ms + [row], roomId) == GetAllRoomUsers(users, ms, roomId)
  {
    assert (ms + [row])[..|ms|] == ms;
  }

  /**
   * `joinTheRoom`: an existing row is an error and nothing is written;
   * otherwise exactly that row is added, stamped `now`.
   */
  method JoinTheRoom(db: Database, userId: int, roomId: int, now: string)
    returns (r: Result<UserRoomDTO, RoomError>)
    requires db.Valid()
    modifies db
    ensures db.Valid()
    ensures db.users == old(db.users) && db.rooms == old(db.rooms)
    ensures db.invitations == old(db.invitations) && db.nextInvitationId == old(db.nextInvitationId)
    ensures old(IsMember(db.memberships, userId, roomId)) ==>
      r == Err(AlreadyJoined) && db.memberships == old(db.memberships)
    ensures !old(IsMember(db.memberships, userId, roomId))
            && !(HasUser(db.users, userId) && HasRoom(db.rooms, roomId)) ==>
      r == Err(MissingUserOrRoom) && db.memberships == old(db.memberships)
    ensures !old(IsMember(db.memberships, userId, roomId))
            && HasUser(db.users, userId) && HasRoom(db.rooms, roomId) ==>
      db.memberships == old(db.memberships) + [Membership(userId, roomId, now)]
      && r.Ok? && r.value.user.id == userId && r.value.room.id == roomId && r.value.joinedAt == now
      && User(userId, r.value.user.username, r.value.user.email) in db.users
      && Room(roomId, r.value.room.name) in db.rooms
  {
    if IsMember(db.memberships, userId, roomId) {
      return Err(AlreadyJoined);
    }
    var user := FindUser(db.users, userId);
    var room := FindRoom(db.rooms, roomId);
    if user.None? || room.None? {
      return Err(MissingUserOrRoom);
    }
    var row := Membership(userId, roomId, now);
    assert forall i :: 0 <= i < |db.memberships| ==> db.memberships[i] in db.memberships;
    db.memberships := db.memberships + [row];
    r := Ok(UserRoomDTO(ToRoomUser(user.value), RoomDTO(room.value.id, room.value.name), now));
  }

  /**
   * `leaveTheRoom`: a missing row is an error; otherwise exactly that row
   * is deleted and returned.
   */
  method LeaveTheRoom(db: Database, userId: int, roomId: int)
    returns (r: Result<UserRoomDTO, RoomError>)
    requires db.Valid()
    modifies db
    ensures db.Valid()
    ensures db.users == old(db.users) && db.rooms == old(db.rooms)
    ensures db.invitations == old(db.invitations) && db.nextInvitationId == old(db.nextInvitationId)
    ensures !old(IsMember(db.memberships, userId, roomId)) ==>
      r == Err(NotAMember) && db.memberships == old(db.memberships)
    ensures old(IsMember(db.memberships, userId, roomId)) ==>
      db.memberships == RemovePair(old(db.memberships), userId, roomId)
      && r.Ok? && r.value.user.id == userId && r.value.room.id == roomId
      && Membership(userId, roomId, r.value.joinedAt) in old(db.memberships)
    ensures !IsMember(db.memberships, userId, roomId)
  {
    if !IsMember(db.memberships, userId, roomId) {
      return Err(NotAMember);
    }
    var existing :| existing in db.memberships && existing.userId == userId && existing.roomId == roomId;
    var user := FindUser(db.users, userId);
    var room := FindRoom(db.rooms, roomId);
    RemovePairUnique(db.memberships, userId, roomId);
    db.memberships := RemovePair(db.memberships, userId, roomId);
    r := Ok(UserRoomDTO(ToRoomUser(user.value), RoomDTO(room.value.id, room.value.name), existing.joinedAt));
  }
}
