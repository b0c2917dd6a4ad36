/**
 * The client's invitation store: the pending invitations shown to the
 * user, keyed by invitation id.
 */
module InvitationStore {
  import opened Common
  import opened Wire

  /**
   * The record keyed by id: a later invitation with an id overwrites an
   * earlier one, and the keys are exactly the ids in the list.
   */
  function ById(list: seq<InvitationDTO>): (r: map<int, InvitationDTO>)
    ensures r.Keys == set i | 0 <= i < |list| :: list[i].id
  {
    var es := EntriesBy(list, (inv: InvitationDTO) => inv.id);
    FromEntriesKeys(es);
    assert (set i | 0 <= i < |es| :: es[i].0) == set i | 0 <= i < |list| :: list[i].id;
    FromEntries(es)
  }

  /** The invitation kept for an id is the last one in the list with that id. */
  lemma ByIdLastWins(list: seq<InvitationDTO>, i: nat)
    requires i < |list|
    requires forall j :: i < j < |list| ==> list[j].id != list[i].id
    ensures list[i].id in ById(list) && ById(list)[list[i].id] == list[i]
  {
    FromEntriesLastWins(EntriesBy(list, (inv: InvitationDTO) => inv.id), i);
  }

  class Store {
    var invitations: map<int, InvitationDTO>

    constructor()
      ensures invitations == map[]
    {
      invitations := map[];
    }

    /** `setInvitations`: the record is rebuilt from the list, one write per invitation. */
    method SetInvitations(list: seq<InvitationDTO>)
      modifies this
      ensures invitations == ById(list)
    {
      var m: map<int, InvitationDTO> := map[];
      var i := 0;
      while i < |list|
        invariant 0 <= i <= |list|
        invariant m == ById(list[..i])
      {
        assert list[..i + 1][..i] == list[..i];
        m := m[list[i].id := list[i]];
        i := i + 1;
      }
      assert list[..i] == list;
      invitations := m;
    }

    /** `addInvitation`: one key is inserted or overwritten. */
    method AddInvitation(inv: InvitationDTO)
      modifies this
      ensures invitations == Put(old(invitations), inv.id, inv)
    {
      invitations := Put(invitations, inv.id, inv);
    }

    /** `removeInvitation`: only that key goes; an absent id changes nothing. */
    method RemoveInvitation(id: int)
      modifies this
      ensures invitations == Delete(old(invitations), id)
    {
      invitations := Delete(invitations, id);
    }

    /** `clearInvitations`. */
    method ClearInvitations()
      modifies this
      ensures invitations == map[]
    {
      invitations := map[];
    }
  }
}
