/**
 * The records that travel between the server and the browser, in the
 * shapes both sides agree on.
 */
module Wire {
  import opened Common

  datatype InvitationStatus = Pending | Accepted | Declined

  /** The `{ id, username }` of the user who sent an invitation. */
  datatype InviterRef = InviterRef(id: int, username: string)

  /** The `{ id, name }` of the room an invitation is for. */
  datatype RoomRef = RoomRef(id: int, name: string)

  datatype InvitationDTO = InvitationDTO(
    id: int,
    status: InvitationStatus,
    createdAt: string,
    acceptedAt: Option<string>,
    inviteeId: int,
    inviter: InviterRef,
    room: RoomRef)

  /** One user's emoji on a message. */
  datatype MessageReaction = MessageReaction(userId: int, username: string, emoji: string)

  /**
   * A chat message as the browser holds it. `reactions` is None when the
   * server sent the message without that field.
   */
  datatype Message = Message(
    id: int,
    userId: int,
    email: string,
    text: string,
    createdAt: string,
    roomId: nat,
    username: string,
    reactions: Option<seq<MessageReaction>>)

  /** A room as the browser lists it. */
  datatype RoomWithMembershipDTO = RoomWithMembershipDTO(
    id: int,
    name: string,
    isMember: bool,
    isPrivate: bool,
    creatorId: int,
    hasUserMessages: bool)
}
