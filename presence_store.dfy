/**
 * The client's presence store: one online flag per user id. Its only
 * action writes a fresh copy of the record with one user's flag set.
 */
module PresenceStore {
  import opened Common

  type OnlineUsers = map<int, bool>

  /** The record the store starts with. */
  const Initial: OnlineUsers := map[]

  /** `setOnlineStatus`: the user's flag is the given value; every other entry stays. */
  function SetOnlineStatus(online: OnlineUsers, userId: int, isOnline: bool): (r: OnlineUsers)
    ensures userId in r && r[userId] == isOnline
    ensures r.Keys == online.Keys + {userId}
    ensures forall u :: u in online && u != userId ==> r[u] == online[u]
  {
    Put(online, userId, isOnline)
  }

  /** A run of `setOnlineStatus` calls, in order. */
  function ApplyAll(online: OnlineUsers, updates: seq<(int, bool)>): OnlineUsers
  {
    if updates == [] then online
    else
      var n := |updates| - 1;
      SetOnlineStatus(ApplyAll(online, updates[..n]), updates[n].0, updates[n].1)
  }

  /**
   * After a run of updates, a user's flag is the value of the LAST update
   * for that user.
   */
  lemma {:induction false} ApplyAllLastWins(online: OnlineUsers, updates: seq<(int, bool)>, i: nat)
    requires i < |updates|
    requires forall j :: i < j < |updates| ==> updates[j].0 != updates[i].0
    ensures updates[i].0 in ApplyAll(online, updates)
    ensures ApplyAll(online, updates)[updates[i].0] == updates[i].1
  {
    var n := |updates| - 1;
    if i < n {
      ApplyAllLastWins(online, updates[..n], i);
    }
  }

  /** A user no update names keeps the flag (or absence) it had. */
  lemma {:induction false} ApplyAllOthersKept(online: OnlineUsers, updates: seq<(int, bool)>, u: int)
    requires forall j :: 0 <= j < |updates| ==> updates[j].0 != u
    ensures u in ApplyAll(online, updates) <==> u in online
    ensures u in online ==> ApplyAll(online, updates)[u] == online[u]
  {
    if updates != [] {
      ApplyAllOthersKept(online, updates[..|updates| - 1], u);
    }
  }
}
