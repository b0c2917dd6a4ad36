/**
 * The server's Redis-backed presence helpers (backend/src/utils/presence.ts).
 *
 * Redis is modelled as a keyspace from key to a finite non-empty set of
 * strings plus the TTL (in seconds) last set on a key. Every command the
 * helpers issue is a `Command`, and `Step` gives its effect; a `multi()`
 * block is one `Exec` call, so it is applied as one atomic step.
 */
module Presence {
  import opened Common

  /** The keys the helpers use; `KeyName` gives the Redis key string. */
  datatype Key =
    | OnlineUsers                    // the set of online user ids
    | UserSocketSet(userId: string)  // the socket ids of one user
    | RoomPresence(roomId: string)   // the users present in one room
    | UserPresence(userId: string)   // the rooms one user is present in

  function KeyName(k: Key): string
  {
    match k
    case OnlineUsers => "online:users"
    case UserSocketSet(u) => "online:user:socketSet:" + u
    case RoomPresence(r) => "presence:room:" + r
    case UserPresence(u) => "presence:user:" + u
  }

  /** The characters that tell the four key families apart. */
  lemma KeyNameShape(k: Key)
    ensures |KeyName(k)| >= 12
    ensures KeyName(k)[0] == if k.OnlineUsers? || k.UserSocketSet? then 'o' else 'p'
    ensures k.OnlineUsers? ==> |KeyName(k)| == 12
    ensures k.UserSocketSet? ==> |KeyName(k)| >= 22 && KeyName(k)[22..] == k.userId
    ensures k.RoomPresence? ==> KeyName(k)[9] == 'r' && KeyName(k)[14..] == k.roomId
    ensures k.UserPresence? ==> KeyName(k)[9] == 'u' && KeyName(k)[14..] == k.userId
  {
  }

  /** Distinct keys never share a Redis key string. */
  lemma KeyNameInjective(a: Key, b: Key)
    requires KeyName(a) == KeyName(b)
    ensures a == b
  {
    KeyNameShape(a);
    KeyNameShape(b);
  }

  const PresenceTtlSeconds: nat := 60

  datatype Command =
    | SAdd(key: Key, member: string)
    | SRem(key: Key, member: string)
    | Del(key: Key)
    | Expire(key: Key, seconds: nat)

  datatype Keyspace = Keyspace(sets: map<Key, set<string>>, ttl: map<Key, nat>)

  /** SMEMBERS: a missing key reads as the empty set. */
  function Members(ks: Keyspace, k: Key): set<string>
  {
    if k in ks.sets then ks.sets[k] else {}
  }

  /** Redis keeps no empty sets, and a TTL lives only on an existing key. */
  ghost predicate WellFormed(ks: Keyspace)
  {
    && (forall k :: k in ks.sets ==> ks.sets[k] != {})
    && ks.ttl.Keys <= ks.sets.Keys
  }

  /** The effect of one Redis command. */
  function Step(ks: Keyspace, c: Command): (r: Keyspace)
    ensures WellFormed(ks) ==> WellFormed(r)
    ensures forall k :: k != c.key ==> Members(r, k) == Members(ks, k)
    ensures forall k :: k != c.key && k in ks.ttl ==> k in r.ttl && r.ttl[k] == ks.ttl[k]
    ensures forall k :: k != c.key && k in r.ttl ==> k in ks.ttl
    ensures c.SAdd? ==> Members(r, c.key) == Members(ks, c.key) + {c.member} && r.ttl == ks.ttl
    ensures c.SRem? ==> Members(r, c.key) == Members(ks, c.key) - {c.member}
    ensures c.SRem? && c.key in ks.ttl && Members(r, c.key) != {} ==> c.key in r.ttl && r.ttl[c.key] == ks.ttl[c.key]
    ensures c.Del? ==> c.key !in r.sets && c.key !in r.ttl
    ensures c.Expire? ==> r.sets == ks.sets
    ensures c.Expire? && c.key in ks.sets ==> c.key in r.ttl && r.ttl[c.key] == c.seconds
    ensures c.Expire? && c.key !in ks.sets ==> r.ttl == ks.ttl
  {
    match c
    case SAdd(k, m) => Keyspace(ks.sets[k := Members(ks, k) + {m}], ks.ttl)
    case SRem(k, m) =>
      var rest := Members(ks, k) - {m};
      if rest == {} then Keyspace(ks.sets - {k}, ks.ttl - {k})
      else Keyspace(ks.sets[k := rest], ks.ttl)
    case Del(k) => Keyspace(ks.sets - {k}, ks.ttl - {k})
    case Expire(k, secs) => if k in ks.sets then Keyspace(ks.sets, ks.ttl[k := secs]) else ks
  }

  /** A batch of commands applied in order. */
  function Run(ks: Keyspace, cmds: seq<Command>): Keyspace
  {
    if cmds == [] then ks else Step(Run(ks, cmds[..|cmds| - 1]), cmds[|cmds| - 1])
  }

  lemma {:induction false} RunWellFormed(ks: Keyspace, cmds: seq<Command>)
    requires WellFormed(ks)
    ensures WellFormed(Run(ks, cmds))
  {
    if cmds != [] {
      RunWellFormed(ks, cmds[..|cmds| - 1]);
    }
  }

  lemma RunOne(ks: Keyspace, a: Command)
    ensures Run(ks, [a]) == Step(ks, a)
  {
    assert [a][..0] == [];
  }

  lemma RunTwo(ks: Keyspace, a: Command, b: Command)
    ensures Run(ks, [a, b]) == Step(Step(ks, a), b)
  {
    assert [a, b][..1] == [a];
    RunOne(ks, a);
  }

  lemma RunThree(ks: Keyspace, a: Command, b: Command, c: Command)
    ensures Run(ks, [a, b, c]) == Step(Step(Step(ks, a), b), c)
  {
    assert [a, b, c][..2] == [a, b];
    RunTwo(ks, a, b);
  }

  /** SREM of a member that is not there writes nothing. */
  lemma SRemAbsent(ks: Keyspace, k: Key, m: string)
    requires WellFormed(ks) && m !in Members(ks, k)
    ensures Step(ks, SRem(k, m)) == ks
  {
    if k in ks.sets {
      assert ks.sets[k] - {m} == ks.sets[k];
      assert ks.sets[k := ks.sets[k]] == ks.sets;
    } else {
      assert ks.sets - {k} == ks.sets;
      assert ks.ttl - {k} == ks.ttl;
    }
  }

  /** The commands that remove `u` from the presence set of each room in `rooms`. */
  function RoomRemovals(rooms: seq<string>, u: string): (cmds: seq<Command>)
    ensures |cmds| == |rooms|
    ensures forall i :: 0 <= i < |rooms| ==> cmds[i] == SRem(RoomPresence(rooms[i]), u)
  {
    seq(|rooms|, i requires 0 <= i < |rooms| => SRem(RoomPresence(rooms[i]), u))
  }

  /**
   * Running the removals takes `u` out of exactly the listed rooms' sets and
   * leaves every other key as it was.
   */
  lemma {:induction false} RunRoomRemovals(ks: Keyspace, rooms: seq<string>, u: string)
    ensures forall r :: Members(Run(ks, RoomRemovals(rooms, u)), RoomPresence(r))
                        == if r in rooms then Members(ks, RoomPresence(r)) - {u}
                           else Members(ks, RoomPresence(r))
    ensures forall k: Key :: !k.RoomPresence? ==> Members(Run(ks, RoomRemovals(rooms, u)), k) == Members(ks, k)
  {
    if rooms != [] {
      var n := |rooms| - 1;
      var prev := Run(ks, RoomRemovals(rooms[..n], u));
      RunRoomRemovals(ks, rooms[..n], u);
      RoomRemovalsSnoc(ks, rooms, u);
      InSnoc(rooms);
      var last := Run(ks, RoomRemovals(rooms, u));
      forall r ensures Members(last, RoomPresence(r))
                       == if r in rooms then Members(ks, RoomPresence(r)) - {u}
                          else Members(ks, RoomPresence(r))
      {
        assert Members(last, RoomPresence(r)) == if r == rooms[n] then Members(prev, RoomPresence(r)) - {u}
                                                 else Members(prev, RoomPresence(r));
      }
    }
  }

  /** The removals for one more room are the earlier ones followed by its SREM. */
  lemma RoomRemovalsSnoc(ks: Keyspace, rooms: seq<string>, u: string)
    requires rooms != []
    ensures var n := |rooms| - 1;
      Run(ks, RoomRemovals(rooms, u))
      == Step(Run(ks, RoomRemovals(rooms[..n], u)), SRem(RoomPresence(rooms[n]), u))
  {
    var n := |rooms| - 1;
    assert RoomRemovals(rooms, u)[..n] == RoomRemovals(rooms[..n], u);
  }

  /** A member of a non-empty list is its last element or a member of the rest. */
  lemma InSnoc(xs: seq<string>)
    requires xs != []
    ensures forall x :: x in xs <==> x in xs[..|xs| - 1] || x == xs[|xs| - 1]
  {
    var n := |xs| - 1;
    assert xs == xs[..n] + [xs[n]];
  }

  /** A user is in the online set exactly when it has a socket set. */
  ghost predicate SocketsOnline(ks: Keyspace)
  {
    forall u :: u in Members(ks, OnlineUsers) <==> Members(ks, UserSocketSet(u)) != {}
  }

  /**
   * The room-to-user and user-to-room presence sets mirror each other. This
   * holds because keys never expire here; in Redis the user's key can expire
   * before a room key whose TTL another user keeps renewing.
   */
  ghost predicate Mirrored(ks: Keyspace)
  {
    forall u, r :: u in Members(ks, RoomPresence(r)) <==> r in Members(ks, UserPresence(u))
  }

  /** Changing only one user's socket set and online flag keeps `SocketsOnline` if that user agrees. */
  lemma SocketsOnlineAfter(a: Keyspace, b: Keyspace, userId: string)
    requires SocketsOnline(a)
    requires forall v :: v != userId ==> Members(b, UserSocketSet(v)) == Members(a, UserSocketSet(v))
    requires Members(b, OnlineUsers) - {userId} == Members(a, OnlineUsers) - {userId}
    requires userId in Members(b, OnlineUsers) <==> Members(b, UserSocketSet(userId)) != {}
    ensures SocketsOnline(b)
  {
    forall v ensures v in Members(b, OnlineUsers) <==> Members(b, UserSocketSet(v)) != {} {
      if v != userId {
        assert v in Members(b, OnlineUsers) - {userId} <==> v in Members(a, OnlineUsers) - {userId};
      }
    }
  }

  /** `Mirrored` reads only the presence sets. */
  lemma MirroredKept(a: Keyspace, b: Keyspace)
    requires Mirrored(a)
    requires forall k: Key :: k.RoomPresence? || k.UserPresence? ==> Members(b, k) == Members(a, k)
    ensures Mirrored(b)
  {
    forall u, r ensures u in Members(b, RoomPresence(r)) <==> r in Members(b, UserPresence(u)) {
      assert Members(b, RoomPresence(r)) == Members(a, RoomPresence(r));
      assert Members(b, UserPresence(u)) == Members(a, UserPresence(u));
    }
  }

  /** `SocketsOnline` reads only the online set and the socket sets. */
  lemma SocketsOnlineKept(a: Keyspace, b: Keyspace)
    requires SocketsOnline(a)
    requires forall k: Key :: k.OnlineUsers? || k.UserSocketSet? ==> Members(b, k) == Members(a, k)
    ensures SocketsOnline(b)
  {
    forall u ensures u in Members(b, OnlineUsers) <==> Members(b, UserSocketSet(u)) != {} {
      assert Members(b, OnlineUsers) == Members(a, OnlineUsers);
      assert Members(b, UserSocketSet(u)) == Members(a, UserSocketSet(u));
    }
  }

  /** Changing only one (user, room) entry, in both directions alike, keeps `Mirrored`. */
  lemma MirroredAfter(a: Keyspace, b: Keyspace, userId: string, roomId: string)
    requires Mirrored(a)
    requires forall r :: r != roomId ==> Members(b, RoomPresence(r)) == Members(a, RoomPresence(r))
    requires forall u :: u != userId ==> Members(b, UserPresence(u)) == Members(a, UserPresence(u))
    requires Members(b, RoomPresence(roomId)) - {userId} == Members(a, RoomPresence(roomId)) - {userId}
    requires Members(b, UserPresence(userId)) - {roomId} == Members(a, UserPresence(userId)) - {roomId}
    requires userId in Members(b, RoomPresence(roomId)) <==> roomId in Members(b, UserPresence(userId))
    ensures Mirrored(b)
  {
    forall u, r ensures u in Members(b, RoomPresence(r)) <==> r in Members(b, UserPresence(u)) {
      if r != roomId {
        assert u in Members(b, RoomPresence(r)) <==> u in Members(a, RoomPresence(r));
      } else if u != userId {
        assert u in Members(b, RoomPresence(r)) - {userId} <==> u in Members(a, RoomPresence(r)) - {userId};
      }
      if u != userId {
        assert r in Members(b, UserPresence(u)) <==> r in Members(a, UserPresence(u));
      } else if r != roomId {
        assert r in Members(b, UserPresence(u)) - {roomId} <==> r in Members(a, UserPresence(u)) - {roomId};
      }
    }
  }

  /** Taking a user out of every room and dropping its room set keeps `Mirrored`. */
  lemma MirroredAfterLeavingAll(a: Keyspace, b: Keyspace, userId: string)
    requires Mirrored(a)
    requires forall r :: Members(b, RoomPresence(r)) == Members(a, RoomPresence(r)) - {userId}
    requires forall u :: u != userId ==> Members(b, UserPresence(u)) == Members(a, UserPresence(u))
    requires Members(b, UserPresence(userId)) == {}
    ensures Mirrored(b)
  {
    forall u, r ensures u in Members(b, RoomPresence(r)) <==> r in Members(b, UserPresence(u)) {
      if u != userId {
        assert u in Members(b, RoomPresence(r)) <==> u in Members(a, RoomPresence(r));
      }
    }
  }

  /** Every invariant the helpers keep: well-formed, sockets match online users, presence mirrored. */
  ghost predicate PresenceValid(ks: Keyspace)
  {
    WellFormed(ks) && SocketsOnline(ks) && Mirrored(ks)
  }

  /** addUserToOnlineUsers when the socket is the user's only one: the user joins the online set. */
  lemma CameOnline(s0: Keyspace, userId: string, socketId: string)
    requires PresenceValid(s0) && Members(s0, UserSocketSet(userId)) <= {socketId}
    ensures var s1 := Step(s0, SAdd(UserSocketSet(userId), socketId));
      var s2 := Step(s1, SAdd(OnlineUsers, userId));
      && |Members(s1, UserSocketSet(userId))| == 1
      && PresenceValid(s2)
      && Members(s2, UserSocketSet(userId)) == {socketId}
      && Members(s2, OnlineUsers) == Members(s0, OnlineUsers) + {userId}
      && (forall k :: k != UserSocketSet(userId) && k != OnlineUsers ==> Members(s2, k) == Members(s0, k))
      && s2.ttl == s0.ttl
  {
    var s1 := Step(s0, SAdd(UserSocketSet(userId), socketId));
    var s2 := Step(s1, SAdd(OnlineUsers, userId));
    assert Members(s1, UserSocketSet(userId)) == {socketId};
    assert Members(s2, UserSocketSet(userId)) == Members(s1, UserSocketSet(userId));
    SocketsOnlineAfter(s0, s2, userId);
    MirroredKept(s0, s2);
  }

  /** A set holding two different members does not have exactly one. */
  lemma TwoMembers(all: set<string>, a: string, b: string)
    requires a in all && b in all && a != b
    ensures |all| != 1
  {
    var rest := all - {a};
    assert all == rest + {a} && a !in rest;
    assert b in rest;
  }

  /** addUserToOnlineUsers when the user has another socket: the online set is untouched. */
  lemma StayedOnline(s0: Keyspace, userId: string, socketId: string)
    requires PresenceValid(s0) && !(Members(s0, UserSocketSet(userId)) <= {socketId})
    ensures var s1 := Step(s0, SAdd(UserSocketSet(userId), socketId));
      && PresenceValid(s1)
      && |Members(s1, UserSocketSet(userId))| != 1
  {
    var s1 := Step(s0, SAdd(UserSocketSet(userId), socketId));
    var other :| other in Members(s0, UserSocketSet(userId)) && other != socketId;
    TwoMembers(Members(s1, UserSocketSet(userId)), socketId, other);
    assert userId in Members(s0, OnlineUsers);
    SocketsOnlineAfter(s0, s1, userId);
    MirroredKept(s0, s1);
  }

  /** removeUserFromOnlineUsers when that was the last socket: the key goes and the user leaves the online set. */
  lemma WentOffline(s0: Keyspace, userId: string, socketId: string)
    requires PresenceValid(s0) && Members(s0, UserSocketSet(userId)) <= {socketId}
    ensures var s1 := Step(s0, SRem(UserSocketSet(userId), socketId));
      var s3 := Step(Step(s1, Del(UserSocketSet(userId))), SRem(OnlineUsers, userId));
      && Members(s1, UserSocketSet(userId)) == {}
      && PresenceValid(s3)
      && UserSocketSet(userId) !in s3.sets
      && Members(s3, OnlineUsers) == Members(s0, OnlineUsers) - {userId}
      && (forall k :: k != UserSocketSet(userId) && k != OnlineUsers ==> Members(s3, k) == Members(s0, k))
      && (forall k :: k != UserSocketSet(userId) && k != OnlineUsers && k in s0.ttl ==> k in s3.ttl && s3.ttl[k] == s0.ttl[k])
  {
    var s1 := Step(s0, SRem(UserSocketSet(userId), socketId));
    var s2 := Step(s1, Del(UserSocketSet(userId)));
    var s3 := Step(s2, SRem(OnlineUsers, userId));
    assert Members(s3, UserSocketSet(userId)) == {};
    SocketsOnlineAfter(s0, s3, userId);
    MirroredKept(s0, s3);
  }

  /** removeUserFromOnlineUsers when another socket remains: the online set is untouched. */
  lemma StillOnline(s0: Keyspace, userId: string, socketId: string)
    requires PresenceValid(s0) && !(Members(s0, UserSocketSet(userId)) <= {socketId})
    ensures var s1 := Step(s0, SRem(UserSocketSet(userId), socketId));
      PresenceValid(s1) && Members(s1, UserSocketSet(userId)) != {}
  {
    var s1 := Step(s0, SRem(UserSocketSet(userId), socketId));
    var other :| other in Members(s0, UserSocketSet(userId)) && other != socketId;
    assert other in Members(s1, UserSocketSet(userId));
    SocketsOnlineAfter(s0, s1, userId);
    MirroredKept(s0, s1);
  }

  /**
   * removeUserFromAllRooms' batch: the removals for exactly the user's rooms,
   * then DEL of the user's set, leave the user in no room and keep every
   * invariant.
   */
  lemma LeftAllRooms(before: Keyspace, rooms: seq<string>, userId: string)
    requires PresenceValid(before)
    requires forall r :: r in rooms <==> r in Members(before, UserPresence(userId))
    ensures var after := Step(Run(before, RoomRemovals(rooms, userId)), Del(UserPresence(userId)));
      && PresenceValid(after)
      && UserPresence(userId) !in after.sets
      && (forall r :: Members(after, RoomPresence(r)) == Members(before, RoomPresence(r)) - {userId})
      && (forall k: Key :: !k.RoomPresence? && k != UserPresence(userId) ==> Members(after, k) == Members(before, k))
  {
    var removed := Run(before, RoomRemovals(rooms, userId));
    var after := Step(removed, Del(UserPresence(userId)));
    RunRoomRemovals(before, rooms, userId);
    RunWellFormed(before, RoomRemovals(rooms, userId));
    forall r ensures Members(after, RoomPresence(r)) == Members(before, RoomPresence(r)) - {userId} {
      if r !in rooms {
        assert userId !in Members(before, RoomPresence(r));
      }
    }
    SocketsOnlineKept(before, after);
    MirroredAfterLeavingAll(before, after, userId);
  }

  /**
   * The part of Redis that presence.ts uses. Besides well-formedness, the
   * helpers keep two cross-key invariants: a user is in the online set
   * exactly when it has a socket set, and the room-to-user and user-to-room
   * presence sets mirror each other.
   */
  class Store {
    var sets: map<Key, set<string>>
    var ttl: map<Key, nat>

    function Space(): Keyspace
      reads this
    {
      Keyspace(sets, ttl)
    }

    function Of(k: Key): set<string>
      reads this
    {
      Members(Space(), k)
    }

    ghost predicate Valid()
      reads this
    {
      PresenceValid(Space())
    }

    constructor ()
      ensures Valid() && sets == map[] && ttl == map[]
    {
      sets, ttl := map[], map[];
    }

    /** `multi()...exec()`: the batch is applied as one atomic step. */
    method Exec(cmds: seq<Command>)
      requires WellFormed(Space())
      modifies this
      ensures WellFormed(Space())
      ensures Space() == Run(old(Space()), cmds)
    {
      ghost var start := Space();
      for i := 0 to |cmds|
        invariant Space() == Run(start, cmds[..i])
      {
        assert cmds[..i + 1][..i] == cmds[..i];
        var next := Step(Space(), cmds[i]);
        sets, ttl := next.sets, next.ttl;
      }
      assert cmds[..|cmds|] == cmds;
      RunWellFormed(start, cmds);
    }

    /** SMEMBERS: the members of a key's set, each once, in some order. */
    method SMembers(k: Key) returns (xs: seq<string>)
      ensures Distinct(xs)
      ensures forall x :: x in xs <==> x in Of(k)
    {
      var rest := Of(k);
      xs := [];
      while rest != {}
        invariant Distinct(xs)
        invariant forall x :: x in Of(k) <==> x in xs || x in rest
        invariant forall x :: x in xs ==> x !in rest
        decreases rest
      {
        var x :| x in rest;
        xs, rest := xs + [x], rest - {x};
      }
    }

    /** SCARD. */
    method SCard(k: Key) returns (n: nat)
      ensures n == |Of(k)|
    {
      n := |Of(k)|;
    }

    /**
     * addUserToOnlineUsers: records the socket and reports whether the user's
     * socket set now has exactly one element (the user just came online), in
     * which case the user joins the online set.
     */
    method AddUserToOnlineUsers(userId: string, socketId: string) returns (cameOnline: bool)
      requires Valid()
      modifies this
      ensures Valid()
      ensures Of(UserSocketSet(userId)) == old(Of(UserSocketSet(userId))) + {socketId}
      ensures cameOnline <==> old(Of(UserSocketSet(userId))) <= {socketId}
      ensures cameOnline <==> |Of(UserSocketSet(userId))| == 1
      ensures Of(OnlineUsers) == if cameOnline then old(Of(OnlineUsers)) + {userId} else old(Of(OnlineUsers))
      ensures forall k :: k != UserSocketSet(userId) && k != OnlineUsers ==> Of(k) == old(Of(k))
      ensures ttl == old(ttl)
    {
      ghost var s0 := Space();
      Exec([SAdd(UserSocketSet(userId), socketId)]);
      RunOne(s0, SAdd(UserSocketSet(userId), socketId));
      if Members(s0, UserSocketSet(userId)) <= {socketId} {
        CameOnline(s0, userId, socketId);
      } else {
        StayedOnline(s0, userId, socketId);
      }
      var count := SCard(UserSocketSet(userId));
      if count == 1 {
        ghost var s1 := Space();
        Exec([SAdd(OnlineUsers, userId)]);
        RunOne(s1, SAdd(OnlineUsers, userId));
        return true;
      }
      return false;
    }

    /**
     * removeUserFromOnlineUsers: forgets the socket and reports whether the
     * user's socket set became empty (the user just went offline), in which
     * case the key is deleted and the user leaves the online set.
     */
    method RemoveUserFromOnlineUsers(userId: string, socketId: string) returns (wentOffline: bool)
      requires Valid()
      modifies this
      ensures Valid()
      ensures Of(UserSocketSet(userId)) == old(Of(UserSocketSet(userId))) - {socketId}
      ensures wentOffline <==> old(Of(UserSocketSet(userId))) <= {socketId}
      ensures wentOffline ==> UserSocketSet(userId) !in sets
      ensures Of(OnlineUsers) == if wentOffline then old(Of(OnlineUsers)) - {userId} else old(Of(OnlineUsers))
      ensures forall k :: k != UserSocketSet(userId) && k != OnlineUsers ==> Of(k) == old(Of(k))
      ensures forall k :: k != UserSocketSet(userId) && k != OnlineUsers && k in old(ttl) ==> k in ttl && ttl[k] == old(ttl)[k]
    {
      ghost var s0 := Space();
      Exec([SRem(UserSocketSet(userId), socketId)]);
      RunOne(s0, SRem(UserSocketSet(userId), socketId));
      if Members(s0, UserSocketSet(userId)) <= {socketId} {
        WentOffline(s0, userId, socketId);
      } else {
        StillOnline(s0, userId, socketId);
      }
      var count := SCard(UserSocketSet(userId));
      if count == 0 {
        ghost var s1 := Space();
        Exec([Del(UserSocketSet(userId))]);
        RunOne(s1, Del(UserSocketSet(userId)));
        ghost var s2 := Space();
        Exec([SRem(OnlineUsers, userId)]);
        RunOne(s2, SRem(OnlineUsers, userId));
        return true;
      }
      return false;
    }

    /** getOnlineUsers: the members of the online set; nothing changes. */
    method GetOnlineUsers() returns (users: seq<string>)
      ensures Distinct(users)
      ensures forall u :: u in users <==> u in Of(OnlineUsers)
    {
      users := SMembers(OnlineUsers);
    }

    /**
     * addUserToRoomPresence: in one atomic step, adds the user to the room's
     * set, the room to the user's set, and sets a 60 s TTL on the room key
     * only.
     */
    method AddUserToRoomPresence(userId: string, roomId: string)
      requires Valid()
      modifies this
      ensures Valid()
      ensures Of(RoomPresence(roomId)) == old(Of(RoomPresence(roomId))) + {userId}
      ensures Of(UserPresence(userId)) == old(Of(UserPresence(userId))) + {roomId}
      ensures forall k :: k != RoomPresence(roomId) && k != UserPresence(userId) ==> Of(k) == old(Of(k))
      ensures ttl == old(ttl)[RoomPresence(roomId) := PresenceTtlSeconds]
    {
      ghost var s0 := Space();
      Exec([SAdd(RoomPresence(roomId), userId),
            SAdd(UserPresence(userId), roomId),
            Expire(RoomPresence(roomId), PresenceTtlSeconds)]);
      RunThree(s0, SAdd(RoomPresence(roomId), userId), SAdd(UserPresence(userId), roomId),
               Expire(RoomPresence(roomId), PresenceTtlSeconds));
      SocketsOnlineKept(s0, Space());
      MirroredAfter(s0, Space(), userId, roomId);
    }

    /**
     * removeUserFromRoomPresence: in one atomic step, removes both directions
     * of the (user, room) entry; harmless when the entry is absent.
     */
    method RemoveUserFromRoomPresence(userId: string, roomId: string)
      requires Valid()
      modifies this
      ensures Valid()
      ensures Of(RoomPresence(roomId)) == old(Of(RoomPresence(roomId))) - {userId}
      ensures Of(UserPresence(userId)) == old(Of(UserPresence(userId))) - {roomId}
      ensures forall k :: k != RoomPresence(roomId) && k != UserPresence(userId) ==> Of(k) == old(Of(k))
      ensures userId !in old(Of(RoomPresence(roomId))) ==> sets == old(sets) && ttl == old(ttl)
    {
      ghost var s0 := Space();
      Exec([SRem(RoomPresence(roomId), userId), SRem(UserPresence(userId), roomId)]);
      RunTwo(s0, SRem(RoomPresence(roomId), userId), SRem(UserPresence(userId), roomId));
      if userId !in old(Of(RoomPresence(roomId))) {
        SRemAbsent(s0, RoomPresence(roomId), userId);
        SRemAbsent(s0, UserPresence(userId), roomId);
      }
      SocketsOnlineKept(s0, Space());
      MirroredAfter(s0, Space(), userId, roomId);
    }

    /** getRoomPresence: the users present in the room; nothing changes. */
    method GetRoomPresence(roomId: string) returns (users: seq<string>)
      ensures Distinct(users)
      ensures forall u :: u in users <==> u in Of(RoomPresence(roomId))
    {
      users := SMembers(RoomPresence(roomId));
    }

    /**
     * refreshRoomPresence: no set changes; only the TTLs of the room key and
     * the user key are set to 60 s, each only if that key exists.
     */
    method RefreshRoomPresence(userId: string, roomId: string)
      requires Valid()
      modifies this
      ensures Valid()
      ensures sets == old(sets)
      ensures ttl.Keys == old(ttl.Keys) + ({RoomPresence(roomId), UserPresence(userId)} * sets.Keys)
      ensures RoomPresence(roomId) in sets ==> ttl[RoomPresence(roomId)] == PresenceTtlSeconds
      ensures UserPresence(userId) in sets ==> ttl[UserPresence(userId)] == PresenceTtlSeconds
      ensures forall k :: k in old(ttl) && k != RoomPresence(roomId) && k != UserPresence(userId) ==> ttl[k] == old(ttl)[k]
    {
      ghost var s0 := Space();
      Exec([Expire(RoomPresence(roomId), PresenceTtlSeconds)]);
      RunOne(s0, Expire(RoomPresence(roomId), PresenceTtlSeconds));
      ghost var s1 := Space();
      Exec([Expire(UserPresence(userId), PresenceTtlSeconds)]);
      RunOne(s1, Expire(UserPresence(userId), PresenceTtlSeconds));
    }

    /**
     * removeUserFromAllRooms: with an empty room set it returns [] and writes
     * nothing; otherwise it returns the user's rooms and, in one atomic step,
     * removes the user from each of those rooms and deletes the user's set.
     * Because the model's keys never expire, the two directions stay
     * mirrored, so the user is then present in no room at all; with Redis
     * expiry only the rooms listed in the user's set are promised.
     */
    method RemoveUserFromAllRooms(userId: string) returns (rooms: seq<string>)
      requires Valid()
      modifies this
      ensures Valid()
      ensures Distinct(rooms)
      ensures forall r :: r in rooms <==> r in old(Of(UserPresence(userId)))
      ensures rooms == [] ==> sets == old(sets) && ttl == old(ttl)
      ensures UserPresence(userId) !in sets
      ensures forall r :: Of(RoomPresence(r)) == old(Of(RoomPresence(r))) - {userId}
      ensures forall r :: userId !in Of(RoomPresence(r))
      ensures forall k: Key :: !k.RoomPresence? && k != UserPresence(userId) ==> Of(k) == old(Of(k))
    {
      rooms := SMembers(UserPresence(userId));
      if |rooms| == 0 {
        assert Of(UserPresence(userId)) == {};
        return [];
      }
      var pipeline: seq<Command> := [];
      for i := 0 to |rooms|
        invariant pipeline == RoomRemovals(rooms[..i], userId)
      {
        pipeline := pipeline + [SRem(RoomPresence(rooms[i]), userId)];
      }
      assert rooms[..|rooms|] == rooms;
      ghost var before := Space();
      LeftAllRooms(before, rooms, userId);
      assert (pipeline + [Del(UserPresence(userId))])[..|pipeline|] == pipeline;
      Exec(pipeline + [Del(UserPresence(userId))]);
    }
  }
}
