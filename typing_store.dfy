/**
 * The client's typing store: who is typing in each room. Each
 * `setTyping` schedules a clear of that room one second later; the timers
 * all have the same delay, so they fire in the order they were set, and
 * firing is an explicit later step.
 */
module TypingStore {
  import opened Common

  class Store {
    /** `typingUserByRoom`; None is the stored `null`. */
    var typingUserByRoom: map<int, Option<string>>
    /** The rooms whose clear is scheduled, oldest first. */
    var pendingClears: seq<int>

    constructor()
      ensures typingUserByRoom == map[] && pendingClears == []
    {
      typingUserByRoom := map[];
      pendingClears := [];
    }

    /** `setTyping`: the room shows `email`, other rooms stay, and a clear is scheduled. */
    method SetTyping(roomId: int, email: Option<string>)
      modifies this
      ensures typingUserByRoom == Put(old(typingUserByRoom), roomId, email)
      ensures pendingClears == old(pendingClears) + [roomId]
    {
      typingUserByRoom := Put(typingUserByRoom, roomId, email);
      pendingClears := pendingClears + [roomId];
    }

    /**
     * The oldest timer fires: its room's entry is set to null (the key
     * stays), whatever is stored there now; no other room changes.
     */
    method FireClear()
      requires pendingClears != []
      modifies this
      ensures typingUserByRoom == Put(old(typingUserByRoom), old(pendingClears[0]), None)
      ensures pendingClears == old(pendingClears[1..])
    {
      var roomId := pendingClears[0];
      pendingClears := pendingClears[1..];
      typingUserByRoom := Put(typingUserByRoom, roomId, None);
    }
  }

  /**
   * Two people typing in a row in the same room: the first timer wipes the
   * second person's name, though theirs was set after it was scheduled.
   */
  method StaleClearWipesLaterTyping(store: Store, roomId: int, first: string, second: string)
    requires store.pendingClears == []
    modifies store
    ensures roomId in store.typingUserByRoom && store.typingUserByRoom[roomId] == None
    ensures store.pendingClears == [roomId]
  {
    store.SetTyping(roomId, Some(first));
    store.SetTyping(roomId, Some(second));
    assert store.typingUserByRoom[roomId] == Some(second);
    store.FireClear();
  }

  /** A clear of one room leaves another room's typist in place. */
  method ClearTouchesOnlyItsRoom(store: Store, roomId: int, otherRoom: int, email: string, other: string)
    requires store.pendingClears == [] && roomId != otherRoom
    modifies store
    ensures roomId in store.typingUserByRoom && store.typingUserByRoom[roomId] == None
    ensures otherRoom in store.typingUserByRoom && store.typingUserByRoom[otherRoom] == Some(other)
  {
    store.SetTyping(roomId, Some(email));
    store.SetTyping(otherRoom, Some(other));
    store.FireClear();
  }
}
