/**
 * Room invitations on the server: creating them for a list of user ids,
 * listing a user's pending ones, and the two answers an invitee can give.
 * An invitation is created PENDING and moves once, to ACCEPTED or to
 * DECLINED.
 */
module RoomInvitations {
  import opened Common
  import opened Wire
  import opened Db

  /**
   * The ids of the users the request names, as the user table lists them:
   * unknown ids are dropped and a repeated id appears once.
   */
  function ValidInviteeIds(users: seq<User>, inviteeIds: seq<int>): (r: seq<int>)
    ensures forall id :: id in r <==> id in inviteeIds && HasUser(users, id)
    ensures UniqueUserIds(users) ==> Distinct(r)
    ensures inviteeIds == [] ==> r == []
  {
    if users == [] then []
    else
      var n := |users| - 1;
      var front := ValidInviteeIds(users[..n], inviteeIds);
      assert forall u :: u in users <==> u in users[..n] || u == users[n];
      assert UniqueUserIds(users) ==> forall u :: u in users[..n] ==> u.id != users[n].id by {
        if UniqueUserIds(users) {
          forall u | u in users[..n] ensures u.id != users[n].id {
            var k :| 0 <= k < n && users[..n][k] == u;
          }
        }
      }
      if users[n].id in inviteeIds then front + [users[n].id] else front
  }

  /** Which of `ids` already hold an invitation to the room, whatever its status. */
  function AlreadyInvitedIds(invs: seq<Invitation>, roomId: int, ids: seq<int>): (r: set<int>)
    ensures forall id :: id in r <==>
      id in ids && exists v :: v in invs && v.roomId == roomId && v.inviteeId == id
  {
    set v | v in invs && v.roomId == roomId && v.inviteeId in ids :: v.inviteeId
  }

  /** `ids` without those in `drop`, order kept. */
  function Without(ids: seq<int>, drop: set<int>): (r: seq<int>)
    ensures forall id :: id in r <==> id in ids && id !in drop
    ensures Distinct(ids) ==> Distinct(r)
  {
    if ids == [] then []
    else
      var n := |ids| - 1;
      var front := Without(ids[..n], drop);
      assert forall id :: id in ids <==> id in ids[..n] || id == ids[n];
      assert Distinct(ids) ==> forall k :: 0 <= k < n ==> ids[..n][k] != ids[n];
      if ids[n] in drop then front else front + [ids[n]]
  }

  /** The rows created for `ids`, numbered from `start` on. */
  function NewRows(ids: seq<int>, start: int, inviterId: int, roomId: int, now: string)
    : (rows: seq<Invitation>)
    ensures |rows| == |ids|
    ensures forall j :: 0 <= j < |rows| ==>
      rows[j].id == start + j && rows[j].inviteeId == ids[j]
      && rows[j].inviterId == inviterId && rows[j].roomId == roomId
      && rows[j].status == Pending && rows[j].createdAt == now && rows[j].acceptedAt == None
  {
    seq(|ids|, j requires 0 <= j < |ids| => Invitation(start + j, Pending, now, None, ids[j], inviterId, roomId))
  }

  /** No user is invited to the same room twice. */
  ghost predicate OneInvitationPerInvitee(invs: seq<Invitation>) {
    forall i, j :: 0 <= i < j < |invs| ==>
      !(invs[i].roomId == invs[j].roomId && invs[i].inviteeId == invs[j].inviteeId)
  }

  /** The answer shape of an invitation row, with its inviter and room. */
  function ToDTO(v: Invitation, inviter: User, room: Room): (d: InvitationDTO)
    ensures d.id == v.id && d.status == v.status && d.inviteeId == v.inviteeId
    ensures d.createdAt == v.createdAt && d.acceptedAt == v.acceptedAt
    ensures d.inviter.id == inviter.id && d.room.id == room.id
  {
    InvitationDTO(v.id, v.status, v.createdAt, v.acceptedAt, v.inviteeId,
                  InviterRef(inviter.id, inviter.username), RoomRef(room.id, room.name))
  }

  /** The row answering an invitation id, with the inviter and room it names. */
  function Describe(users: seq<User>, rooms: seq<Room>, v: Invitation): (d: InvitationDTO)
    requires HasUser(users, v.inviterId) && HasRoom(rooms, v.roomId)
    ensures d.id == v.id && d.status == v.status && d.inviteeId == v.inviteeId
    ensures d.acceptedAt == v.acceptedAt
    ensures d.inviter.id == v.inviterId && d.room.id == v.roomId
  {
    ToDTO(v, FindUser(users, v.inviterId).value, FindRoom(rooms, v.roomId).value)
  }

  /** The invitations still waiting for this user's answer, in table order. */
  function PendingFor(invs: seq<Invitation>, userId: int): (r: seq<Invitation>)
    ensures forall v :: v in r <==> v in invs && v.status == Pending && v.inviteeId == userId
  {
    if invs == [] then []
    else
      var n := |invs| - 1;
      var front := PendingFor(invs[..n], userId);
      assert forall v :: v in invs <==> v in invs[..n] || v == invs[n];
      if invs[n].status == Pending && invs[n].inviteeId == userId then front + [invs[n]] else front
  }

  /** `findMyInvitations`: the user's PENDING invitations, described. */
  function FindMyInvitations(users: seq<User>, rooms: seq<Room>, invs: seq<Invitation>, userId: int)
    : (r: seq<InvitationDTO>)
    requires forall v :: v in invs ==> HasUser(users, v.inviterId) && HasRoom(rooms, v.roomId)
    ensures |r| == |PendingFor(invs, userId)|
    ensures forall i :: 0 <= i < |r| ==>
      r[i].id == PendingFor(invs, userId)[i].id && r[i].status == Pending && r[i].inviteeId == userId
  {
    var mine := PendingFor(invs, userId);
    assert forall i :: 0 <= i < |mine| ==> mine[i] in invs;
    seq(|mine|, i requires 0 <= i < |mine| => Describe(users, rooms, mine[i]))
  }

  /** The position of the invitation with this id, or -1. */
  function IndexOf(invs: seq<Invitation>, id: int): (k: int)
    ensures -1 <= k < |invs|
    ensures k >= 0 ==> invs[k].id == id
    ensures k == -1 <==> forall v :: v in invs ==> v.id != id
  {
    if invs == [] then -1
    else if invs[0].id == id then 0
    else
      var k := IndexOf(invs[1..], id);
      assert forall v :: v in invs <==> v == invs[0] || v in invs[1..];
      if k == -1 then -1 else k + 1
  }

  /** The guard both answers share: the invitation exists, is the caller's, and is PENDING. */
  predicate CanRespond(invs: seq<Invitation>, invitationId: int, userId: int) {
    var k := IndexOf(invs, invitationId);
    k >= 0 && invs[k].inviteeId == userId && invs[k].status == Pending
  }

  /** The table after answering the k-th invitation. */
  function Respond(invs: seq<Invitation>, k: nat, status: InvitationStatus, at: Option<string>)
    : (r: seq<Invitation>)
    requires k < |invs|
    ensures |r| == |invs| && r[k].status == status && r[k].acceptedAt == at
    ensures r[k] == invs[k].(status := status, acceptedAt := at)
    ensures forall j :: 0 <= j < |invs| && j != k ==> r[j] == invs[j]
  {
    invs[k := invs[k].(status := status, acceptedAt := at)]
  }

  /** An answered invitation can be answered by nobody again. */
  lemma {:induction false} AnsweredIsFinal(invs: seq<Invitation>, k: nat, status: InvitationStatus,
                                          at: Option<string>, userId: int)
    requires k < |invs| && UniqueInvitationIds(invs) && status != Pending
    ensures !CanRespond(Respond(invs, k, status, at), invs[k].id, userId)
  {
    var r := Respond(invs, k, status, at);
    forall i | 0 <= i < |r| && i != k ensures r[i].id != invs[k].id {
      if i < k {
        assert invs[i].id != invs[k].id;
      } else {
        assert invs[k].id != invs[i].id;
      }
    }
  }

  /** Two rows with the same key and the same references. */
  predicate SameReferences(v: Invitation, w: Invitation) {
    v.id == w.id && v.inviteeId == w.inviteeId && v.inviterId == w.inviterId && v.roomId == w.roomId
  }

  /** An answer keeps the table's keys, references and per-room uniqueness. */
  lemma RespondKeepsShape(db: Database, k: nat, status: InvitationStatus, at: Option<string>)
    requires k < |db.invitations|
    ensures var r := Respond(db.invitations, k, status, at);
      (UniqueInvitationIds(db.invitations) ==> UniqueInvitationIds(r))
      && (OneInvitationPerInvitee(db.invitations) ==> OneInvitationPerInvitee(r))
      && (forall v :: v in r ==> exists w :: w in db.invitations && SameReferences(v, w))
  {
    var r := Respond(db.invitations, k, status, at);
    forall v | v in r
      ensures exists w :: w in db.invitations && SameReferences(v, w)
    {
      var j :| 0 <= j < |r| && r[j] == v;
      assert db.invitations[j] in db.invitations;
    }
  }

  /**
   * `createInvitation`. Nothing is written when the list is empty, when
   * none of its ids is a user, or when every such user already holds an
   * invitation to the room; otherwise one PENDING invitation is created per
   * remaining user, and the answer describes the created rows in order.
   */
  method CreateInvitation(db: Database, inviterId: int, roomId: int, inviteeIds: seq<int>, now: string)
    returns (r: Result<seq<InvitationDTO>, string>)
    requires db.Valid()
    modifies db
    ensures db.Valid()
    ensures db.users == old(db.users) && db.rooms == old(db.rooms)
    ensures db.memberships == old(db.memberships)
    ensures old(OneInvitationPerInvitee(db.invitations)) ==> OneInvitationPerInvitee(db.invitations)
    ensures
      var valid := ValidInviteeIds(old(db.users), inviteeIds);
      var final := Without(valid, AlreadyInvitedIds(old(db.invitations), roomId, valid));
      if final == [] then
        r == Ok([]) && db.invitations == old(db.invitations)
        && db.nextInvitationId == old(db.nextInvitationId)
      else if !(HasUser(db.users, inviterId) && HasRoom(db.rooms, roomId)) then
        r == Err(ForeignKeyError) && db.invitations == old(db.invitations)
        && db.nextInvitationId == old(db.nextInvitationId)
      else
        var rows := NewRows(final, old(db.nextInvitationId), inviterId, roomId, now);
        db.invitations == old(db.invitations) + rows
        && db.nextInvitationId == old(db.nextInvitationId) + |final|
        && r.Ok? && |r.value| == |rows|
        && forall j :: 0 <= j < |rows| ==> r.value[j] == Describe(db.users, db.rooms, rows[j])
  {
    if |inviteeIds| == 0 {
      return Ok([]);
    }
    var valid := ValidInviteeIds(db.users, inviteeIds);
    if |valid| == 0 {
      return Ok([]);
    }
    var already := AlreadyInvitedIds(db.invitations, roomId, valid);
    var final := Without(valid, already);
    if |final| == 0 {
      return Ok([]);
    }
    var inviter := FindUser(db.users, inviterId);
    var room := FindRoom(db.rooms, roomId);
    if inviter.None? || room.None? {
      return Err(ForeignKeyError);
    }
    r := InsertInvitations(db, final, inviterId, roomId, inviter.value, room.value, now);
  }

  /** The creation step of `createInvitation`: one PENDING row per id, in order. */
  method InsertInvitations(db: Database, final: seq<int>, inviterId: int, roomId: int,
                           inviter: User, room: Room, now: string)
    returns (r: Result<seq<InvitationDTO>, string>)
    requires db.Valid()
    requires inviter in db.users && inviter.id == inviterId && room in db.rooms && room.id == roomId
    requires Distinct(final)
    requires forall id :: id in final ==> HasUser(db.users, id)
    requires forall id :: id in final ==>
      !exists v :: v in db.invitations && v.roomId == roomId && v.inviteeId == id
    modifies db
    ensures db.Valid()
    ensures db.users == old(db.users) && db.rooms == old(db.rooms)
    ensures db.memberships == old(db.memberships)
    ensures old(OneInvitationPerInvitee(db.invitations)) ==> OneInvitationPerInvitee(db.invitations)
    ensures
      var rows := NewRows(final, old(db.nextInvitationId), inviterId, roomId, now);
      db.invitations == old(db.invitations) + rows
      && db.nextInvitationId == old(db.nextInvitationId) + |final|
      && r.Ok? && |r.value| == |rows|
      && forall j :: 0 <= j < |rows| ==> r.value[j] == ToDTO(rows[j], inviter, room)
  {
    ghost var before := db.invitations;
    assert UniqueInvitationIds(before);
    assert forall v :: v in before ==>
      v.id < db.nextInvitationId && HasUser(db.users, v.inviteeId)
      && HasUser(db.users, v.inviterId) && HasRoom(db.rooms, v.roomId);
    assert HasUser(db.users, inviterId) && HasRoom(db.rooms, roomId);
    var start := db.nextInvitationId;
    var created: seq<InvitationDTO> := [];
    var i := 0;
    while i < |final|
      invariant 0 <= i <= |final|
      invariant db.users == old(db.users) && db.rooms == old(db.rooms)
      invariant db.memberships == old(db.memberships)
      invariant db.invitations == before + NewRows(final[..i], start, inviterId, roomId, now)
      invariant db.nextInvitationId == start + i
      invariant |created| == i
      invariant forall j :: 0 <= j < i ==>
        created[j] == ToDTO(NewRows(final, start, inviterId, roomId, now)[j], inviter, room)
    {
      var row := Invitation(db.nextInvitationId, Pending, now, None, final[i], inviterId, roomId);
      assert NewRows(final[..i + 1], start, inviterId, roomId, now)
        == NewRows(final[..i], start, inviterId, roomId, now) + [row];
      db.invitations := db.invitations + [row];
      db.nextInvitationId := db.nextInvitationId + 1;
      created := created + [ToDTO(row, inviter, room)];
      i := i + 1;
    }
    assert final[..i] == final;
    CreatedRowsValid(db, before, final, start, inviterId, roomId, now);
    r := Ok(created);
  }

  /** The rows `CreateInvitation` appends keep every table invariant. */
  lemma CreatedRowsValid(db: Database, before: seq<Invitation>, final: seq<int>, start: int,
                         inviterId: int, roomId: int, now: string)
    requires UniqueUserIds(db.users) && UniqueRoomIds(db.rooms) && UniquePairs(db.memberships)
    requires forall m :: m in db.memberships ==> HasUser(db.users, m.userId) && HasRoom(db.rooms, m.roomId)
    requires UniqueInvitationIds(before)
    requires forall v :: v in before ==>
      v.id < start && HasUser(db.users, v.inviteeId) && HasUser(db.users, v.inviterId) && HasRoom(db.rooms, v.roomId)
    requires HasUser(db.users, inviterId) && HasRoom(db.rooms, roomId)
    requires Distinct(final)
    requires forall id :: id in final ==> HasUser(db.users, id)
    requires forall id :: id in final ==> !exists v :: v in before && v.roomId == roomId && v.inviteeId == id
    requires db.invitations == before + NewRows(final, start, inviterId, roomId, now)
    requires db.nextInvitationId == start + |final|
    ensures db.Valid()
    ensures OneInvitationPerInvitee(before) ==> OneInvitationPerInvitee(db.invitations)
  {
    var rows := NewRows(final, start, inviterId, roomId, now);
    NewRowsIdsUnique(before, final, start, inviterId, roomId, now);
    NewRowsRefer(db.users, db.rooms, before, final, start, inviterId, roomId, now);
    if OneInvitationPerInvitee(before) {
      NewRowsOnePerInvitee(before, final, start, inviterId, roomId, now);
    }
  }

  /** Ids counted up from above every existing id are new and distinct. */
  lemma NewRowsIdsUnique(before: seq<Invitation>, final: seq<int>, start: int,
                         inviterId: int, roomId: int, now: string)
    requires UniqueInvitationIds(before)
    requires forall v :: v in before ==> v.id < start
    ensures UniqueInvitationIds(before + NewRows(final, start, inviterId, roomId, now))
  {
    var all := before + NewRows(final, start, inviterId, roomId, now);
    forall i, j | 0 <= i < j < |all| ensures all[i].id != all[j].id {
      if i < |before| {
        assert all[i] in before;
      }
    }
  }

  /** Every appended row, like every earlier one, names existing users and an existing room. */
  lemma NewRowsRefer(users: seq<User>, rooms: seq<Room>, before: seq<Invitation>, final: seq<int>,
                     start: int, inviterId: int, roomId: int, now: string)
    requires forall v :: v in before ==>
      v.id < start && HasUser(users, v.inviteeId) && HasUser(users, v.inviterId) && HasRoom(rooms, v.roomId)
    requires HasUser(users, inviterId) && HasRoom(rooms, roomId)
    requires forall id :: id in final ==> HasUser(users, id)
    ensures forall v :: v in before + NewRows(final, start, inviterId, roomId, now) ==>
      v.id < start + |final| && HasUser(users, v.inviteeId) && HasUser(users, v.inviterId) && HasRoom(rooms, v.roomId)
  {
    var rows := NewRows(final, start, inviterId, roomId, now);
    forall v | v in before + rows
      ensures v.id < start + |final| && HasUser(users, v.inviteeId)
        && HasUser(users, v.inviterId) && HasRoom(rooms, v.roomId)
    {
      if v !in before {
        var j :| 0 <= j < |rows| && rows[j] == v;
        assert final[j] in final;
      }
    }
  }

  /** Rows for distinct invitees not yet invited to the room keep one invitation per invitee. */
  lemma NewRowsOnePerInvitee(before: seq<Invitation>, final: seq<int>, start: int,
                             inviterId: int, roomId: int, now: string)
    requires OneInvitationPerInvitee(before)
    requires Distinct(final)
    requires forall id :: id in final ==> !exists v :: v in before && v.roomId == roomId && v.inviteeId == id
    ensures OneInvitationPerInvitee(before + NewRows(final, start, inviterId, roomId, now))
  {
    var rows := NewRows(final, start, inviterId, roomId, now);
    var all := before + rows;
    forall i, j | 0 <= i < j < |all|
      ensures !(all[i].roomId == all[j].roomId && all[i].inviteeId == all[j].inviteeId)
    {
      if j >= |before| {
        assert all[j] == rows[j - |before|] && final[j - |before|] in final;
        if i < |before| {
          assert all[i] in before;
        } else {
          assert all[i] == rows[i - |before|];
        }
      }
    }
  }

  /**
   * `acceptInvitation`: unless the invitation exists, names the caller as
   * invitee and is PENDING, the answer is null and nothing changes;
   * otherwise it becomes ACCEPTED, stamped `now`, and no other row changes.
   */
  method AcceptInvitation(db: Database, invitationId: int, userId: int, now: string)
    returns (r: Option<InvitationDTO>)
    requires db.Valid()
    modifies db
    ensures db.Valid()
    ensures db.users == old(db.users) && db.rooms == old(db.rooms)
    ensures db.memberships == old(db.memberships) && db.nextInvitationId == old(db.nextInvitationId)
    ensures old(OneInvitationPerInvitee(db.invitations)) ==> OneInvitationPerInvitee(db.invitations)
    ensures !old(CanRespond(db.invitations, invitationId, userId)) ==>
      r.None? && db.invitations == old(db.invitations)
    ensures old(CanRespond(db.invitations, invitationId, userId)) ==>
      var k := IndexOf(old(db.invitations), invitationId);
      db.invitations == Respond(old(db.invitations), k, Accepted, Some(now))
      && r.Some? && r.value.id == invitationId && r.value.inviteeId == userId
      && r.value.status == Accepted && r.value.acceptedAt == Some(now)
    ensures r.Some? ==> forall u :: !CanRespond(db.invitations, invitationId, u)
  {
    var k := IndexOf(db.invitations, invitationId);
    if k < 0 || db.invitations[k].inviteeId != userId || db.invitations[k].status != Pending {
      return None;
    }
    assert db.invitations[k] in db.invitations;
    RespondKeepsShape(db, k, Accepted, Some(now));
    forall u ensures !CanRespond(Respond(db.invitations, k, Accepted, Some(now)), invitationId, u) {
      AnsweredIsFinal(db.invitations, k, Accepted, Some(now), u);
    }
    db.invitations := Respond(db.invitations, k, Accepted, Some(now));
    r := Some(Describe(db.users, db.rooms, db.invitations[k]));
  }

  /**
   * `declineInvitation`: the same guard as accepting; a PENDING invitation
   * of the caller becomes DECLINED and loses any acceptance stamp.
   */
  method DeclineInvitation(db: Database, invitationId: int, userId: int)
    returns (r: Option<InvitationDTO>)
    requires db.Valid()
    modifies db
    ensures db.Valid()
    ensures db.users == old(db.users) && db.rooms == old(db.rooms)
    ensures db.memberships == old(db.memberships) && db.nextInvitationId == old(db.nextInvitationId)
    ensures old(OneInvitationPerInvitee(db.invitations)) ==> OneInvitationPerInvitee(db.invitations)
    ensures !old(CanRespond(db.invitations, invitationId, userId)) ==>
      r.None? && db.invitations == old(db.invitations)
    ensures old(CanRespond(db.invitations, invitationId, userId)) ==>
      var k := IndexOf(old(db.invitations), invitationId);
      db.invitations == Respond(old(db.invitations), k, Declined, None)
      && r.Some? && r.value.id == invitationId && r.value.inviteeId == userId
      && r.value.status == Declined && r.value.acceptedAt == None
    ensures r.Some? ==> forall u :: !CanRespond(db.invitations, invitationId, u)
  {
    var k := IndexOf(db.invitations, invitationId);
    if k < 0 || db.invitations[k].inviteeId != userId || db.invitations[k].status != Pending {
      return None;
    }
    assert db.invitations[k] in db.invitations;
    RespondKeepsShape(db, k, Declined, None);
    forall u ensures !CanRespond(Respond(db.invitations, k, Declined, None), invitationId, u) {
      AnsweredIsFinal(db.invitations, k, Declined, None, u);
    }
    db.invitations := Respond(db.invitations, k, Declined, None);
    r := Some(Describe(db.users, db.rooms, db.invitations[k]));
  }
}
