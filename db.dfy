/**
 * The database tables the room and invitation services read and write,
 * held in memory. Each table is a sequence of rows in the order the
 * database returns them; the keys the schema declares unique are kept
 * unique by `Valid`, and every reference names an existing row.
 */
module Db {
  import opened Common
  import opened Wire

  /**
   * A placeholder for the error the database client raises when a row names
   * a user or room that does not exist. The services do not catch it, so the
   * client's own error propagates; its text is not modelled.
   */
  const ForeignKeyError := "<database foreign-key error>"

  datatype User = User(id: int, username: string, email: string)

  datatype Room = Room(id: int, name: string)

  /** A row of the user-room relation; (userId, roomId) is its key. */
  datatype Membership = Membership(userId: int, roomId: int, joinedAt: string)

  datatype Invitation = Invitation(
    id: int,
    status: InvitationStatus,
    createdAt: string,
    acceptedAt: Option<string>,
    inviteeId: int,
    inviterId: int,
    roomId: int)

  predicate HasUser(users: seq<User>, id: int) {
    exists u :: u in users && u.id == id
  }

  predicate HasRoom(rooms: seq<Room>, id: int) {
    exists r :: r in rooms && r.id == id
  }

  /** The row of the user with this id, if there is one. */
  function FindUser(users: seq<User>, id: int): (r: Option<User>)
    ensures r.Some? <==> HasUser(users, id)
    ensures r.Some? ==> r.value in users && r.value.id == id
  {
    if users == [] then None
    else if users[0].id == id then Some(users[0])
    else
      var rest := FindUser(users[1..], id);
      assert forall u :: u in users[1..] ==> u in users;
      assert forall u :: u in users && u.id == id ==> u in users[1..];
      rest
  }

  /** The row of the room with this id, if there is one. */
  function FindRoom(rooms: seq<Room>, id: int): (r: Option<Room>)
    ensures r.Some? <==> HasRoom(rooms, id)
    ensures r.Some? ==> r.value in rooms && r.value.id == id
  {
    if rooms == [] then None
    else if rooms[0].id == id then Some(rooms[0])
    else
      var rest := FindRoom(rooms[1..], id);
      assert forall r :: r in rooms[1..] ==> r in rooms;
      assert forall r :: r in rooms && r.id == id ==> r in rooms[1..];
      rest
  }

  predicate SamePair(a: Membership, b: Membership) {
    a.userId == b.userId && a.roomId == b.roomId
  }

  predicate IsMember(ms: seq<Membership>, userId: int, roomId: int) {
    exists m :: m in ms && m.userId == userId && m.roomId == roomId
  }

  ghost predicate UniqueUserIds(users: seq<User>) {
    forall i, j :: 0 <= i < j < |users| ==> users[i].id != users[j].id
  }

  ghost predicate UniqueRoomIds(rooms: seq<Room>) {
    forall i, j :: 0 <= i < j < |rooms| ==> rooms[i].id != rooms[j].id
  }

  ghost predicate UniquePairs(ms: seq<Membership>) {
    forall i, j :: 0 <= i < j < |ms| ==> !SamePair(ms[i], ms[j])
  }

  ghost predicate UniqueInvitationIds(invs: seq<Invitation>) {
    forall i, j :: 0 <= i < j < |invs| ==> invs[i].id != invs[j].id
  }

  class Database {
    var users: seq<User>
    var rooms: seq<Room>
    var memberships: seq<Membership>
    var invitations: seq<Invitation>
    /** The next value of the invitation table's auto-increment key. */
    var nextInvitationId: int

    ghost predicate Valid()
      reads this
    {
      UniqueUserIds(users)
      && UniqueRoomIds(rooms)
      && UniquePairs(memberships)
      && (forall m :: m in memberships ==> HasUser(users, m.userId) && HasRoom(rooms, m.roomId))
      && UniqueInvitationIds(invitations)
      && (forall v :: v in invitations ==>
            v.id < nextInvitationId
            && HasUser(users, v.inviteeId) && HasUser(users, v.inviterId)
            && HasRoom(rooms, v.roomId))
    }

    constructor(users: seq<User>, rooms: seq<Room>)
      requires UniqueUserIds(users) && UniqueRoomIds(rooms)
      ensures Valid()
      ensures this.users == users && this.rooms == rooms
      ensures memberships == [] && invitations == [] && nextInvitationId == 1
    {
      this.users := users;
      this.rooms := rooms;
      memberships := [];
      invitations := [];
      nextInvitationId := 1;
    }
  }
}
