/**
 * The record shapes of the chat backend's seven tables (users, conversations,
 * conversationMembers, messages, reactions, presence, messageRequests), the
 * string enumerations the schema validates, and the result and error types the
 * handlers share.
 *
 * Every document id is a `nat` drawn from one counter, so ids of different
 * tables never collide, as with the document store's own ids.
 */
module Schema {

  type UserId = nat
  type ConversationId = nat
  type MembershipId = nat
  type MessageId = nat
  type ReactionId = nat
  type PresenceId = nat
  type RequestId = nat
  type StorageId = string

  datatype Option<+T> = None | Some(value: T)

  /** users: one row per external (Clerk) identity; `clerkId` is the lookup key. */
  datatype User = User(
    name: string,
    email: string,
    imageUrl: string,
    clerkId: string,
    isOnline: bool,
    lastSeen: nat)

  /** conversations: `isGroup` is required, everything else optional; `created` is the row's creation time. */
  datatype Conversation = Conversation(
    name: Option<string>,
    isGroup: bool,
    lastMessageId: Option<MessageId>,
    imageUrl: Option<string>,
    inviteCode: Option<string>,
    creatorId: Option<UserId>,
    created: nat)

  datatype Role = Admin | Member

  /** conversationMembers: the join row carrying the read watermark and an optional role. */
  datatype Membership = Membership(
    conversationId: ConversationId,
    userId: UserId,
    lastReadTime: nat,
    role: Option<Role>)

  datatype MessageType = Text | System

  /** The cached Open Graph preview: only `url` is required. */
  datatype LinkPreview = LinkPreview(
    url: string,
    title: Option<string>,
    description: Option<string>,
    image: Option<string>,
    siteName: Option<string>)

  /** messages: `kind` is the schema's `type` field; `created` is the row's creation time. */
  datatype Message = Message(
    conversationId: ConversationId,
    senderId: UserId,
    content: string,
    kind: MessageType,
    deleted: bool,
    imageStorageId: Option<StorageId>,
    replyToMessageId: Option<MessageId>,
    linkPreview: Option<LinkPreview>,
    created: nat)

  /** reactions: the row is exactly the (message, user, emoji) triple. */
  datatype Reaction = Reaction(messageId: MessageId, userId: UserId, emoji: string)

  datatype Presence = Presence(
    userId: UserId,
    isTyping: bool,
    conversationId: Option<ConversationId>,
    lastActive: nat)

  datatype RequestStatus = Pending | Accepted | Declined

  datatype MessageRequest = MessageRequest(fromUserId: UserId, toUserId: UserId, status: RequestStatus)

  /** The reasons a handler throws. */
  datatype Error =
    | Unauthorized                  // no identity, or no user row for it
    | AuthenticationFailed          // storeUser without an identity
    | NotAMember
    | NotAGroup
    | InvalidInviteCode
    | InviteCodeNotUnique           // two conversations carry the looked-up code
    | MessageNotFoundOrDeleted
    | NotSenderOrNotFound
    | CannotRequestSelf
    | RequestNotAddressedToCaller
    | UserNotFound
    | CannotConverseWithSelf

  datatype Result<+T> = Ok(value: T) | Err(error: Error)

  // The schema stores enumerations as string literals; these are its validators.

  function MessageTypeLiteral(t: MessageType): string
  {
    match t
    case Text => "text"
    case System => "system"
  }

  /** Accepts exactly the literals "text" and "system". */
  function ParseMessageType(s: string): (r: Option<MessageType>)
    ensures r.Some? <==> s == "text" || s == "system"
    ensures r.Some? ==> MessageTypeLiteral(r.value) == s
  {
    if s == "text" then Some(Text)
    else if s == "system" then Some(System)
    else None
  }

  lemma MessageTypeRoundTrip(t: MessageType)
    ensures ParseMessageType(MessageTypeLiteral(t)) == Some(t)
  {
  }

  function RequestStatusLiteral(s: RequestStatus): string
  {
    match s
    case Pending => "pending"
    case Accepted => "accepted"
    case Declined => "declined"
  }

  /** Accepts exactly "pending", "accepted" and "declined". */
  function ParseRequestStatus(s: string): (r: Option<RequestStatus>)
    ensures r.Some? <==> s == "pending" || s == "accepted" || s == "declined"
    ensures r.Some? ==> RequestStatusLiteral(r.value) == s
  {
    if s == "pending" then Some(Pending)
    else if s == "accepted" then Some(Accepted)
    else if s == "declined" then Some(Declined)
    else None
  }

  lemma RequestStatusRoundTrip(s: RequestStatus)
    ensures ParseRequestStatus(RequestStatusLiteral(s)) == Some(s)
  {
  }

  function RoleLiteral(r: Role): string
  {
    match r
    case Admin => "admin"
    case Member => "member"
  }

  /** The optional role field: absent, or exactly "admin" or "member"; `None` rejects the row. */
  function ParseRole(s: Option<string>): (r: Option<Option<Role>>)
    ensures r.Some? <==> s.None? || s.value == "admin" || s.value == "member"
    ensures r.Some? && r.value.Some? ==> s == Some(RoleLiteral(r.value.value))
    ensures r.Some? && r.value.None? ==> s.None?
  {
    match s
    case None => Some(None)
    case Some(x) =>
      if x == "admin" then Some(Some(Admin))
      else if x == "member" then Some(Some(Member))
      else None
  }
}
