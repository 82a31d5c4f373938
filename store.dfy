/** The document store every handler runs against: one table per entity of
    the schema and the counter that allocates ids and creation times. The
    class `Store` is the state the mutations change in place; `Tables` is its
    value, on which the queries and the specifications of the mutations are
    stated. */
module Db {
  import opened Schema
  import opened Docs

  datatype Tables = Tables(
    users: Table<User>,
    requests: Table<Request>,
    friends: Table<Friend>,
    conversations: Table<Conversation>,
    conversationMembers: Table<Member>,
    messages: Table<Message>,
    groupLeaves: Table<GroupLeave>,
    typingStatus: Table<TypingStatus>,
    calls: Table<Call>,
    callParticipants: Table<CallParticipant>,
    clock: nat)
  {
    /** Every table respects the counter and creation order. */
    predicate Valid() {
      && Wf(users, clock)
      && Wf(requests, clock)
      && Wf(friends, clock)
      && Wf(conversations, clock)
      && Wf(conversationMembers, clock)
      && Wf(messages, clock)
      && Wf(groupLeaves, clock)
      && Wf(typingStatus, clock)
      && Wf(calls, clock)
      && Wf(callParticipants, clock)
    }
  }

  /** What a mutation does to a snapshot: its result and the tables after it.
      A failed mutation leaves the tables as they were (a transaction that
      throws is rolled back). */
  datatype Step<+T> = Step(result: Result<T>, after: Tables)

  /** The memberships of a conversation (index `by_conversationId`). */
  function MembersOf(members: Table<Member>, conversationId: ConversationId): Table<Member>
  {
    Filter(members, InConversation(conversationId))
  }

  function InConversation(conversationId: ConversationId): Doc<Member> -> bool
  {
    (m: Doc<Member>) => m.val.conversationId == conversationId
  }

  /** The memberships of a user (index `by_memberId`). */
  function MembershipsOf(members: Table<Member>, userId: UserId): Table<Member>
  {
    Filter(members, HeldBy(userId))
  }

  function HeldBy(userId: UserId): Doc<Member> -> bool
  {
    (m: Doc<Member>) => m.val.memberId == userId
  }

  /** A user's membership rows in one conversation (index
      `by_memberId_conversationId`). */
  function MembershipIn(members: Table<Member>, userId: UserId, conversationId: ConversationId): Table<Member>
  {
    Filter(members, MemberOf(userId, conversationId))
  }

  function MemberOf(userId: UserId, conversationId: ConversationId): Doc<Member> -> bool
  {
    (m: Doc<Member>) => m.val.memberId == userId && m.val.conversationId == conversationId
  }

  /** The `.unique()` lookup of a user's membership in a conversation that
      every membership-gated handler starts with; `notMember` is that
      handler's own message for a caller without one. */
  function TheMembership(members: Table<Member>, userId: UserId, conversationId: ConversationId,
                         notMember: string): (r: Result<Doc<Member>>)
    ensures r.Ok? <==> |MembershipIn(members, userId, conversationId)| == 1
    ensures r.Ok? ==> r.value in members && r.value.val.memberId == userId && r.value.val.conversationId == conversationId
    ensures |MembershipIn(members, userId, conversationId)| == 0 ==> r == Err(ConvexError(notMember))
    ensures |MembershipIn(members, userId, conversationId)| >= 2 ==> r == Err(NotUnique)
  {
    FilterMembers(members, MemberOf(userId, conversationId));
    var m :- Unique(MembershipIn(members, userId, conversationId));
    if m.None? then Err(ConvexError(notMember)) else Ok(m.value)
  }

  /** A caller without a membership row is turned away with the handler's
      message. */
  lemma NoMembership(members: Table<Member>, userId: UserId, conversationId: ConversationId, notMember: string)
    ensures (forall m | m in members :: !(m.val.memberId == userId && m.val.conversationId == conversationId)) <==>
              TheMembership(members, userId, conversationId, notMember) == Err(ConvexError(notMember))
  {
    FilterMembers(members, MemberOf(userId, conversationId));
    if |MembershipIn(members, userId, conversationId)| > 0 {
      assert MembershipIn(members, userId, conversationId)[0] in MembershipIn(members, userId, conversationId);
    }
  }

  /** Deleting the one membership found removes exactly the caller's rows
      for that conversation. */
  lemma DeleteTheMembership(members: Table<Member>, userId: UserId, conversationId: ConversationId, notMember: string)
    requires Increasing(members)
    requires TheMembership(members, userId, conversationId, notMember).Ok?
    ensures var m := TheMembership(members, userId, conversationId, notMember).value;
            forall d :: d in Delete(members, m.id) <==>
              d in members && !(d.val.memberId == userId && d.val.conversationId == conversationId)
  {
    var m := TheMembership(members, userId, conversationId, notMember).value;
    var found := MembershipIn(members, userId, conversationId);
    DeleteMembers(members, m.id);
    FilterMembers(members, MemberOf(userId, conversationId));
    forall d | d in members && d.val.memberId == userId && d.val.conversationId == conversationId ensures d.id == m.id {
      assert d in found;
    }
    forall d | d in members && d.id == m.id ensures d == m {
      IdDetermines(members, d, m);
    }
  }

  function NotHeldBy(userId: UserId): Doc<Member> -> bool
  {
    (m: Doc<Member>) => m.val.memberId != userId
  }

  /** The memberships of a conversation other than the caller's, in order. */
  function OthersIn(members: Table<Member>, conversationId: ConversationId, me: UserId): Table<Member>
  {
    Filter(MembersOf(members, conversationId), NotHeldBy(me))
  }

  /** The other memberships are exactly the conversation's memberships not
      held by the caller. */
  lemma OthersInExactly(members: Table<Member>, conversationId: ConversationId, me: UserId)
    ensures forall m | m in OthersIn(members, conversationId, me) ::
              m in members && m.val.conversationId == conversationId && m.val.memberId != me
    ensures forall m | m in members && m.val.conversationId == conversationId && m.val.memberId != me ::
              m in OthersIn(members, conversationId, me)
  {
    FilterMembers(members, InConversation(conversationId));
    FilterMembers(MembersOf(members, conversationId), NotHeldBy(me));
  }

  /** The messages of a conversation, oldest first (index `by_conversationId`). */
  function MessagesIn(messages: Table<Message>, conversationId: ConversationId): Table<Message>
  {
    Filter(messages, PostedIn(conversationId))
  }

  function PostedIn(conversationId: ConversationId): Doc<Message> -> bool
  {
    (m: Doc<Message>) => m.val.conversationId == conversationId
  }

  /** The friendships attached to a conversation (index `by_conversationId`). */
  function FriendshipsOf(friends: Table<Friend>, conversationId: ConversationId): Table<Friend>
  {
    Filter(friends, Attached(conversationId))
  }

  function Attached(conversationId: ConversationId): Doc<Friend> -> bool
  {
    (f: Doc<Friend>) => f.val.conversationId == conversationId
  }

  /** Advancing the counter keeps every table valid. */
  lemma ValidGrow(t: Tables, clock: nat)
    requires t.Valid() && t.clock <= clock
    ensures t.(clock := clock).Valid()
  {
    WfGrow(t.users, t.clock, clock);
    WfGrow(t.requests, t.clock, clock);
    WfGrow(t.friends, t.clock, clock);
    WfGrow(t.conversations, t.clock, clock);
    WfGrow(t.conversationMembers, t.clock, clock);
    WfGrow(t.messages, t.clock, clock);
    WfGrow(t.groupLeaves, t.clock, clock);
    WfGrow(t.typingStatus, t.clock, clock);
    WfGrow(t.calls, t.clock, clock);
    WfGrow(t.callParticipants, t.clock, clock);
  }

  /** A step keeps the snapshot valid when the counter does not go back and
      every table it changes is well formed against the new counter. */
  lemma ValidAfter(t: Tables, u: Tables)
    requires t.Valid() && t.clock <= u.clock
    requires u.users == t.users || Wf(u.users, u.clock)
    requires u.requests == t.requests || Wf(u.requests, u.clock)
    requires u.friends == t.friends || Wf(u.friends, u.clock)
    requires u.conversations == t.conversations || Wf(u.conversations, u.clock)
    requires u.conversationMembers == t.conversationMembers || Wf(u.conversationMembers, u.clock)
    requires u.messages == t.messages || Wf(u.messages, u.clock)
    requires u.groupLeaves == t.groupLeaves || Wf(u.groupLeaves, u.clock)
    requires u.typingStatus == t.typingStatus || Wf(u.typingStatus, u.clock)
    requires u.calls == t.calls || Wf(u.calls, u.clock)
    requires u.callParticipants == t.callParticipants || Wf(u.callParticipants, u.clock)
    ensures u.Valid()
  {
    ValidGrow(t, u.clock);
  }

  /** A conversation's deletion as `deleteGroup` and `deleteFriend` carry
      it out: the conversation, every message of it and every membership of
      it. */
  function DropConversation(t: Tables, conversationId: ConversationId): Tables
  {
    t.(conversations := Delete(t.conversations, conversationId),
       messages := WithoutIds(t.messages, IdsOf(MessagesIn(t.messages, conversationId))),
       conversationMembers := WithoutIds(t.conversationMembers, IdsOf(MembersOf(t.conversationMembers, conversationId))))
  }

  /** What is left is exactly what belonged to other conversations. */
  lemma DropConversationLeaves(t: Tables, conversationId: ConversationId)
    requires Increasing(t.messages) && Increasing(t.conversationMembers)
    ensures var u := DropConversation(t, conversationId);
            && (forall c | c in u.conversations :: c in t.conversations && c.id != conversationId)
            && (forall c | c in t.conversations && c.id != conversationId :: c in u.conversations)
            && (forall m :: m in u.messages <==> m in t.messages && m.val.conversationId != conversationId)
            && (forall m :: m in u.conversationMembers <==> m in t.conversationMembers && m.val.conversationId != conversationId)
  {
    DeleteMembers(t.conversations, conversationId);
    WithoutScanned(t.messages, PostedIn(conversationId));
    WithoutScanned(t.conversationMembers, InConversation(conversationId));
  }

  lemma DropConversationKeepsValid(t: Tables, conversationId: ConversationId)
    requires t.Valid()
    ensures DropConversation(t, conversationId).Valid()
  {
    WfWithoutIds(t.conversations, t.clock, {conversationId});
    WfWithoutIds(t.messages, t.clock, IdsOf(MessagesIn(t.messages, conversationId)));
    WfWithoutIds(t.conversationMembers, t.clock, IdsOf(MembersOf(t.conversationMembers, conversationId)));
    ValidAfter(t, DropConversation(t, conversationId));
  }

  class Store {
    var users: Table<User>
    var requests: Table<Request>
    var friends: Table<Friend>
    var conversations: Table<Conversation>
    var conversationMembers: Table<Member>
    var messages: Table<Message>
    var groupLeaves: Table<GroupLeave>
    var typingStatus: Table<TypingStatus>
    var calls: Table<Call>
    var callParticipants: Table<CallParticipant>
    var clock: nat

    function Snapshot(): Tables
      reads this
    {
      Tables(users, requests, friends, conversations, conversationMembers, messages,
             groupLeaves, typingStatus, calls, callParticipants, clock)
    }

    predicate Valid()
      reads this
    {
      Snapshot().Valid()
    }

    constructor ()
      ensures Valid()
      ensures Snapshot() == Tables([], [], [], [], [], [], [], [], [], [], 0)
    {
      users, requests, friends, conversations, conversationMembers := [], [], [], [], [];
      messages, groupLeaves, typingStatus, calls, callParticipants := [], [], [], [], [];
      clock := 0;
    }

    /** Deletes the given messages one at a time. */
    method DeleteMessages(docs: Table<Message>)
      modifies this`messages
      ensures messages == WithoutIds(old(messages), IdsOf(docs))
    {
      WithoutNoIds(messages);
      assert IdsOf(docs[..0]) == {};
      for i := 0 to |docs|
        invariant messages == WithoutIds(old(messages), IdsOf(docs[..i]))
      {
        assert docs[..i + 1] == docs[..i] + [docs[i]];
        IdsOfSnoc(docs[..i], docs[i]);
        WithoutIdsUnion(old(messages), IdsOf(docs[..i]), {docs[i].id});
        messages := Delete(messages, docs[i].id);
      }
      assert docs[..|docs|] == docs;
    }

    /** Deletes the given memberships one at a time. */
    method DeleteMemberships(docs: Table<Member>)
      modifies this`conversationMembers
      ensures conversationMembers == WithoutIds(old(conversationMembers), IdsOf(docs))
    {
      WithoutNoIds(conversationMembers);
      assert IdsOf(docs[..0]) == {};
      for i := 0 to |docs|
        invariant conversationMembers == WithoutIds(old(conversationMembers), IdsOf(docs[..i]))
      {
        assert docs[..i + 1] == docs[..i] + [docs[i]];
        IdsOfSnoc(docs[..i], docs[i]);
        WithoutIdsUnion(old(conversationMembers), IdsOf(docs[..i]), {docs[i].id});
        conversationMembers := Delete(conversationMembers, docs[i].id);
      }
      assert docs[..|docs|] == docs;
    }

    /** The deletions `deleteGroup` and `deleteFriend` share: the
        conversation, then its messages, then its memberships. */
    method DropConversationInPlace(conversationId: ConversationId)
      modifies this
      ensures Snapshot() == DropConversation(old(Snapshot()), conversationId)
    {
      var messages := MessagesIn(this.messages, conversationId);
      var memberShips := MembersOf(conversationMembers, conversationId);
      conversations := Delete(conversations, conversationId);
      DeleteMessages(messages);
      DeleteMemberships(memberShips);
    }

    /** Allocates the id (and creation time) of the next inserted document. */
    method NewId() returns (id: Id)
      modifies this`clock
      ensures id == old(clock) && clock == old(clock) + 1
    {
      id := clock;
      clock := clock + 1;
    }
  }
}
