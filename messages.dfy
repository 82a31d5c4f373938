/** convex/messages.ts: a conversation's messages, newest first, each with
    its sender's name and picture, for a member of the conversation. */
module MessagesApi {
  import opened Schema
  import opened Docs
  import opened Db
  import opened Utils

  datatype MessageView = MessageView(message: Doc<Message>, senderImage: string, senderName: string, isCurrentUser: bool)

  /** A sequence back to front: the index read in descending order. */
  function Reversed<T>(s: seq<T>): (r: seq<T>)
    ensures |r| == |s|
    ensures forall i | 0 <= i < |s| :: r[i] == s[|s| - 1 - i]
  {
    if |s| == 0 then [] else [s[|s| - 1]] + Reversed(s[..|s| - 1])
  }

  /** Each message joined with its sender; a sender without a document
      fails the query. */
  function WithSenders(users: Table<User>, me: UserId, messages: Table<Message>): (r: Result<seq<MessageView>>)
    ensures r.Ok? ==> |r.value| == |messages|
    ensures r.Ok? ==> forall i | 0 <= i < |messages| ::
              && Get(users, messages[i].val.senderId).Some?
              && var sender := Get(users, messages[i].val.senderId).value;
                 r.value[i] == MessageView(messages[i], sender.val.imgUrl, sender.val.username, sender.id == me)
    ensures r.Err? <==> exists i | 0 <= i < |messages| :: Get(users, messages[i].val.senderId).None?
    ensures r.Err? ==> r.error == ConvexError("Couldn't find sender of message")
  {
    if |messages| == 0 then Ok([])
    else
      var messageSender := Get(users, messages[0].val.senderId);
      if messageSender.None? then Err(ConvexError("Couldn't find sender of message"))
      else
        var rest :- WithSenders(users, me, messages[1..]);
        Ok([MessageView(messages[0], messageSender.value.val.imgUrl, messageSender.value.val.username,
                        messageSender.value.id == me)] + rest)
  }

  /** `get`. */
  function MessageList(t: Tables, identity: Option<string>, conversationId: ConversationId): (r: Result<seq<MessageView>>)
    ensures r.Ok? ==> AuthenticatedUser(t.users, identity).Ok?
    ensures r.Ok? ==> TheMembership(t.conversationMembers, AuthenticatedUser(t.users, identity).value.id, conversationId,
                                    "You aren't a member of this conversation").Ok?
    ensures r.Ok? ==> |r.value| == |MessagesIn(t.messages, conversationId)|
  {
    var me :- AuthenticatedUser(t.users, identity);
    var messages := Reversed(MessagesIn(t.messages, conversationId));
    var _ :- TheMembership(t.conversationMembers, me.id, conversationId, "You aren't a member of this conversation");
    WithSenders(t.users, me.id, messages)
  }

  /** Only members read a conversation. */
  lemma MessageListGuard(t: Tables, identity: Option<string>, conversationId: ConversationId)
    requires AuthenticatedUser(t.users, identity).Ok?
    ensures (forall m | m in t.conversationMembers ::
               !(m.val.memberId == AuthenticatedUser(t.users, identity).value.id && m.val.conversationId == conversationId)) ==>
              MessageList(t, identity, conversationId) == Err(ConvexError("You aren't a member of this conversation"))
  {
    NoMembership(t.conversationMembers, AuthenticatedUser(t.users, identity).value.id, conversationId,
                 "You aren't a member of this conversation");
  }

  /** The join keeps every message, in order, and fails exactly when one
      of them names a sender without a document. */
  lemma WithSendersJoins(users: Table<User>, me: UserId, messages: Table<Message>)
    ensures var r := WithSenders(users, me, messages);
            r.Ok? ==> forall i | 0 <= i < |messages| :: r.value[i].message == messages[i]
    ensures var r := WithSenders(users, me, messages);
            r.Ok? ==> (forall v | v in r.value :: v.message in messages) &&
                      (forall m | m in messages :: exists v | v in r.value :: v.message == m)
    ensures WithSenders(users, me, messages).Err? <==>
              exists m | m in messages :: forall u | u in users :: u.id != m.val.senderId
  {
    var r := WithSenders(users, me, messages);
    if r.Ok? {
      forall v | v in r.value ensures v.message in messages {
        var i :| 0 <= i < |r.value| && r.value[i] == v;
      }
      forall m | m in messages ensures exists v | v in r.value :: v.message == m {
        var i :| 0 <= i < |messages| && messages[i] == m;
        assert r.value[i] in r.value;
      }
    }
    if r.Err? {
      var i :| 0 <= i < |messages| && Get(users, messages[i].val.senderId).None?;
      GetNone(users, messages[i].val.senderId);
    }
    if exists m | m in messages :: forall u | u in users :: u.id != m.val.senderId {
      var m :| m in messages && forall u | u in users :: u.id != m.val.senderId;
      GetNone(users, m.val.senderId);
    }
  }

  lemma ReversedMembers<T>(s: seq<T>)
    ensures forall x :: x in Reversed(s) <==> x in s
  {
    var r := Reversed(s);
    forall x ensures x in r <==> x in s {
      if x in s {
        var k :| 0 <= k < |s| && s[k] == x;
        assert r[|s| - 1 - k] == x;
      }
      if x in r {
        var k :| 0 <= k < |r| && r[k] == x;
        assert s[|s| - 1 - k] == x;
      }
    }
  }

  /** The conversation's messages read backwards: exactly those messages,
      newest first. */
  lemma NewestFirst(messages: Table<Message>, conversationId: ConversationId)
    requires Increasing(messages)
    ensures var s := Reversed(MessagesIn(messages, conversationId));
            && (forall m :: m in s <==> m in messages && m.val.conversationId == conversationId)
            && (forall i, j | 0 <= i < j < |s| :: s[i].creationTime > s[j].creationTime)
  {
    FilterMembers(messages, PostedIn(conversationId));
    IncreasingFilter(messages, PostedIn(conversationId));
    ReversedMembers(MessagesIn(messages, conversationId));
  }

  /** The list holds one entry per message of the conversation and only
      those, newest first, and fails exactly when some message of the
      conversation names a sender without a document. */
  lemma MessageListContents(t: Tables, identity: Option<string>, conversationId: ConversationId)
    requires Increasing(t.messages)
    requires AuthenticatedUser(t.users, identity).Ok?
    requires TheMembership(t.conversationMembers, AuthenticatedUser(t.users, identity).value.id, conversationId,
                           "You aren't a member of this conversation").Ok?
    ensures var r := MessageList(t, identity, conversationId);
            && (r.Err? <==> exists m | m in t.messages && m.val.conversationId == conversationId ::
                              forall u | u in t.users :: u.id != m.val.senderId)
            && (r.Ok? ==>
                  && |r.value| == |MessagesIn(t.messages, conversationId)|
                  && (forall v | v in r.value :: v.message in t.messages && v.message.val.conversationId == conversationId)
                  && (forall m | m in t.messages && m.val.conversationId == conversationId :: exists v | v in r.value :: v.message == m)
                  && (forall i, j | 0 <= i < j < |r.value| :: r.value[i].message.creationTime > r.value[j].message.creationTime))
  {
    var me := AuthenticatedUser(t.users, identity).value.id;
    var messages := Reversed(MessagesIn(t.messages, conversationId));
    NewestFirst(t.messages, conversationId);
    WithSendersJoins(t.users, me, messages);
  }

  /** `isCurrentUser` marks exactly the caller's own messages. */
  lemma IsCurrentUserIffSender(t: Tables, identity: Option<string>, conversationId: ConversationId)
    requires MessageList(t, identity, conversationId).Ok?
    ensures forall v | v in MessageList(t, identity, conversationId).value ::
              v.isCurrentUser <==> v.message.val.senderId == AuthenticatedUser(t.users, identity).value.id
  {
    var me := AuthenticatedUser(t.users, identity).value.id;
    var r := MessageList(t, identity, conversationId).value;
    forall v | v in r ensures v.isCurrentUser <==> v.message.val.senderId == me {
      var i :| 0 <= i < |r| && r[i] == v;
    }
  }
}
