/** The records of the chat backend's document store, one datatype per table
    declared in convex/schema.ts, the document envelope that every table
    shares, and the failures a query or mutation can end in. */
module Schema {

  /** A document id. The store's ids are opaque strings; here they are
      naturals drawn from the store's counter, the same counter that stamps
      `_creationTime`, so a later insert always has a larger id. */
  type Id = nat
  type UserId = Id
  type ConversationId = Id
  type MessageId = Id
  type RequestId = Id
  type CallId = Id

  datatype Option<+T> = None | Some(value: T)

  /** What a handler throws. `ConvexError` and the plain `Error` carry the
      source's own messages; the other three are thrown by the platform or the
      language rather than by the handler's own code. */
  datatype Failure =
    | ConvexError(message: string)
    | PlainError(message: string)
    | NotUnique        // `.unique()` matched more than one document
    | NullAccess       // a field read through `null` or `undefined` (a TypeError)
    | MissingDocument  // `db.patch` of an id that has no document

  datatype Result<+T> = Ok(value: T) | Err(error: Failure) {
    predicate IsFailure() { Err? }
    function PropagateFailure<U>(): Result<U> requires Err? { Err(error) }
    function Extract(): T requires Ok? { value }
  }

  /** A stored document: its id, its `_creationTime` and its fields. */
  datatype Doc<+T> = Doc(id: Id, creationTime: nat, val: T)

  /** A table in creation order, which is the order an index scan returns
      the documents that share the index's key. */
  type Table<T> = seq<Doc<T>>

  datatype User = User(
    username: string,
    imgUrl: string,
    clerkId: string,
    email: string,
    isOnline: Option<bool>,
    lastSeen: Option<int>)

  /** A pending friend request. */
  datatype Request = Request(sender: UserId, receiver: UserId)

  datatype Friend = Friend(user1: UserId, user2: UserId, conversationId: ConversationId)

  datatype Conversation = Conversation(
    name: Option<string>,
    isGroup: bool,
    lastMessageId: Option<MessageId>)

  /** A row of `conversationMembers`: a user's membership and read marker. */
  datatype Member = Member(
    memberId: UserId,
    conversationId: ConversationId,
    lastSeenMessage: Option<MessageId>)

  /** A message; `kind` is the schema's `type` field. `isEdited` is optional
      here because the one mutation that inserts messages does not set it. */
  datatype Message = Message(
    senderId: UserId,
    conversationId: ConversationId,
    kind: string,
    content: seq<string>,
    isEdited: Option<bool>,
    replyTo: Option<MessageId>,
    isSystemMessage: Option<bool>)

  datatype GroupLeave = GroupLeave(
    userId: UserId,
    conversationId: ConversationId,
    username: string,
    leftAt: int)

  datatype TypingStatus = TypingStatus(
    userId: UserId,
    conversationId: ConversationId,
    isTyping: bool,
    lastTypingAt: int)

  datatype CallStatus = Ringing | Active | Ended | Rejected | Missed | Cancelled

  datatype CallKind = Video | Audio

  datatype Call = Call(
    conversationId: ConversationId,
    initiatorId: UserId,
    status: CallStatus,
    kind: CallKind,
    roomId: string,
    startedAt: int,
    answeredAt: Option<int>,
    endedAt: Option<int>,
    duration: Option<int>)

  datatype Role = Initiator | Participant

  datatype CallParticipant = CallParticipant(
    callId: CallId,
    userId: UserId,
    joinedAt: Option<int>,
    leftAt: Option<int>,
    role: Role)

  /** JavaScript truthiness of an optional timestamp: `undefined` and `0`
      are both false. */
  predicate Truthy(t: Option<int>) {
    t.Some? && t.value != 0
  }
}
