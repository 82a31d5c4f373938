/** convex/conversations.ts: the caller's conversation list, each entry with
    its last message, the other side of a direct conversation and the number
    of messages the caller has not seen. */
module ConversationsApi {
  import opened Schema
  import opened Docs
  import opened Db
  import opened Utils

  /** The preview of a conversation's last message. */
  datatype LastMessage = LastMessage(content: Preview, sender: string, creationTime: nat)

  /** `getLastMessageDetails`: null when the marker is unset, the message
      is gone or its sender is gone; otherwise the message's preview, its
      sender's name and its creation time. */
  function LastMessageDetails(t: Tables, id: Option<MessageId>): (r: Option<LastMessage>)
    ensures r.Some? ==> id.Some? && Get(t.messages, id.value).Some?
  {
    if id.None? then None
    else
      var message := Get(t.messages, id.value);
      if message.None? then None
      else
        var sender := Get(t.users, message.value.val.senderId);
        if sender.None? then None
        else Some(LastMessage(MessagesContent(message.value.val.kind, message.value.val.content),
                              sender.value.val.username, message.value.creationTime))
  }

  /** The preview is null exactly in the three cases the helper checks, and
      otherwise summarises the pointed-to message as `getMessagesContent`
      does. */
  lemma LastMessageCases(t: Tables, id: MessageId)
    ensures LastMessageDetails(t, None) == None
    ensures (forall m | m in t.messages :: m.id != id) ==> LastMessageDetails(t, Some(id)) == None
    ensures forall m | m in t.messages && m.id == id ::
              Increasing(t.messages) && (forall u | u in t.users :: u.id != m.val.senderId) ==>
                LastMessageDetails(t, Some(id)) == None
    ensures forall m, u | m in t.messages && m.id == id && u in t.users && u.id == m.val.senderId ::
              Increasing(t.messages) && Increasing(t.users) ==>
                LastMessageDetails(t, Some(id)) == Some(LastMessage(MessagesContent(m.val.kind, m.val.content), u.val.username, m.creationTime))
  {
    GetNone(t.messages, id);
    forall m | m in t.messages && m.id == id && Increasing(t.messages)
      ensures Get(t.messages, id) == Some(m)
    {
      GetFinds(t.messages, m);
    }
    forall m | m in t.messages && m.id == id
      ensures Get(t.users, m.val.senderId).None? <==> forall u | u in t.users :: u.id != m.val.senderId
    {
      GetNone(t.users, m.val.senderId);
    }
    forall u | u in t.users && Increasing(t.users)
      ensures Get(t.users, u.id) == Some(u)
    {
      GetFinds(t.users, u);
    }
  }

  /** The other side of an entry: none for a group, the other user's
      document (null when the row is gone) for a direct conversation. */
  datatype Counterpart = NoCounterpart | Counterpart(user: Option<Doc<User>>)

  datatype Entry = Entry(conversation: Doc<Conversation>, otherMember: Counterpart, lastMessage: Option<LastMessage>, unSeenCount: nat)

  /** The creation time of the membership's last-seen message, or -1 when
      the marker is unset or the message is gone. */
  function LastSeenTime(messages: Table<Message>, m: Doc<Member>): int
  {
    if m.val.lastSeenMessage.None? then -1
    else
      var seen := Get(messages, m.val.lastSeenMessage.value);
      if seen.Some? then seen.value.creationTime else -1
  }

  function UnseenBy(after: int, me: UserId): Doc<Message> -> bool
  {
    (m: Doc<Message>) => m.creationTime > after && m.val.senderId != me
  }

  /** The conversation's messages newer than the read marker and not sent
      by the caller. */
  function Unseen(messages: Table<Message>, conversationId: ConversationId, after: int, me: UserId): Table<Message>
  {
    Filter(MessagesIn(messages, conversationId), UnseenBy(after, me))
  }

  /** The unseen messages are exactly the conversation's messages created
      after the read marker and sent by someone else; the caller's own
      messages never count. */
  lemma UnseenExactly(messages: Table<Message>, conversationId: ConversationId, after: int, me: UserId)
    ensures forall m | m in Unseen(messages, conversationId, after, me) ::
              m in messages && m.val.conversationId == conversationId && m.creationTime > after && m.val.senderId != me
    ensures forall m | m in messages && m.val.conversationId == conversationId && m.creationTime > after && m.val.senderId != me ::
              m in Unseen(messages, conversationId, after, me)
  {
    FilterMembers(messages, PostedIn(conversationId));
    FilterMembers(MessagesIn(messages, conversationId), UnseenBy(after, me));
  }

  /** One entry of the list, for the caller's membership `m` in `c`. */
  function EntryFor(t: Tables, me: UserId, m: Doc<Member>, c: Doc<Conversation>): Result<Entry>
  {
    var lastMessage := LastMessageDetails(t, c.val.lastMessageId);
    var unSeenCount := |Unseen(t.messages, c.id, LastSeenTime(t.messages, m), me)|;
    if c.val.isGroup then Ok(Entry(c, NoCounterpart, lastMessage, unSeenCount))
    else
      var others := OthersIn(t.conversationMembers, c.id, me);
      if |others| == 0 then Err(NullAccess)
      else Ok(Entry(c, Counterpart(Get(t.users, others[0].val.memberId)), lastMessage, unSeenCount))
  }

  /** The conversations of the memberships, in order; a missing one fails. */
  function ConversationsOf(conversations: Table<Conversation>, memberships: Table<Member>): (r: Result<Table<Conversation>>)
    ensures r.Ok? ==> |r.value| == |memberships|
    ensures r.Ok? ==> forall i | 0 <= i < |memberships| ::
              Get(conversations, memberships[i].val.conversationId) == Some(r.value[i])
    ensures r.Err? <==> exists i | 0 <= i < |memberships| :: Get(conversations, memberships[i].val.conversationId).None?
    ensures r.Err? ==> r.error == ConvexError("conversation couldn't be found")
  {
    if |memberships| == 0 then Ok([])
    else
      var c := Get(conversations, memberships[0].val.conversationId);
      if c.None? then Err(ConvexError("conversation couldn't be found"))
      else
        var rest :- ConversationsOf(conversations, memberships[1..]);
        Ok([c.value] + rest)
  }

  /** The entries, position by position. */
  function Entries(t: Tables, me: UserId, memberships: Table<Member>, conversations: Table<Conversation>): (r: Result<seq<Entry>>)
    requires |memberships| == |conversations|
    ensures r.Ok? ==> |r.value| == |memberships|
    ensures r.Ok? ==> forall i | 0 <= i < |memberships| ::
              EntryFor(t, me, memberships[i], conversations[i]) == Ok(r.value[i])
    ensures r.Err? <==> exists i | 0 <= i < |memberships| :: EntryFor(t, me, memberships[i], conversations[i]).Err?
  {
    if |memberships| == 0 then Ok([])
    else
      var e :- EntryFor(t, me, memberships[0], conversations[0]);
      var rest :- Entries(t, me, memberships[1..], conversations[1..]);
      Ok([e] + rest)
  }

  /** `get`: one entry per membership of the caller. */
  function ConversationList(t: Tables, identity: Option<string>): (r: Result<seq<Entry>>)
    ensures r.Ok? ==> AuthenticatedUser(t.users, identity).Ok?
    ensures r.Ok? ==> |r.value| == |MembershipsOf(t.conversationMembers, AuthenticatedUser(t.users, identity).value.id)|
  {
    var me :- AuthenticatedUser(t.users, identity);
    var memberships := MembershipsOf(t.conversationMembers, me.id);
    var conversations :- ConversationsOf(t.conversations, memberships);
    Entries(t, me.id, memberships, conversations)
  }

  /** The list has one entry per membership of the caller, in order, each
      for the membership's conversation and counting the messages of that
      conversation newer than the membership's read marker and not the
      caller's; it fails when a membership names a missing conversation. */
  lemma ConversationListEntries(t: Tables, identity: Option<string>)
    requires AuthenticatedUser(t.users, identity).Ok?
    ensures var me := AuthenticatedUser(t.users, identity).value.id;
            var memberships := MembershipsOf(t.conversationMembers, me);
            var r := ConversationList(t, identity);
            && ((exists i | 0 <= i < |memberships| :: Get(t.conversations, memberships[i].val.conversationId).None?) ==>
                  r == Err(ConvexError("conversation couldn't be found")))
            && (r.Ok? ==>
                  && |r.value| == |memberships|
                  && forall i | 0 <= i < |memberships| ::
                       && memberships[i] in t.conversationMembers && memberships[i].val.memberId == me
                       && r.value[i].conversation.id == memberships[i].val.conversationId
                       && r.value[i].conversation in t.conversations
                       && r.value[i].unSeenCount ==
                            |Unseen(t.messages, memberships[i].val.conversationId, LastSeenTime(t.messages, memberships[i]), me)|)
  {
    var me := AuthenticatedUser(t.users, identity).value.id;
    var memberships := MembershipsOf(t.conversationMembers, me);
    FilterMembers(t.conversationMembers, HeldBy(me));
    forall i | 0 <= i < |memberships| ensures memberships[i] in t.conversationMembers && memberships[i].val.memberId == me {
      assert memberships[i] in memberships;
    }
  }

  /** A direct entry names the first other membership's user; a group entry
      names nobody. */
  lemma EntryCounterpart(t: Tables, me: UserId, m: Doc<Member>, c: Doc<Conversation>)
    requires EntryFor(t, me, m, c).Ok?
    ensures c.val.isGroup ==> EntryFor(t, me, m, c).value.otherMember == NoCounterpart
    ensures !c.val.isGroup ==>
              var all := MembersOf(t.conversationMembers, c.id);
              exists k | 0 <= k < |all| ::
                && all[k].val.memberId != me
                && (forall j | 0 <= j < k :: all[j].val.memberId == me)
                && EntryFor(t, me, m, c).value.otherMember == Counterpart(Get(t.users, all[k].val.memberId))
  {
    if !c.val.isGroup {
      FilterHead(MembersOf(t.conversationMembers, c.id), NotHeldBy(me));
    }
  }
}
