/** convex/message.ts: a member posts a message; the conversation's
    last-message marker moves to it. */
module MessageApi {
  import opened Schema
  import opened Docs
  import opened Db
  import opened Utils
  import opened ConversationsApi

  /** The guards of `create`: a session, its user, the user's membership,
      and a conversation document for the marker update to patch. Gives
      the sender and the conversation. */
  function CreateCheck(t: Tables, identity: Option<string>, conversationId: ConversationId): Result<(Doc<User>, Doc<Conversation>)>
  {
    if identity.None? then Err(ConvexError("Unauthorized"))
    else
      var currentUser :- UserByClerkId(t.users, identity.value);
      if currentUser.None? then Err(ConvexError("User not found in requests"))
      else
        var _ :- TheMembership(t.conversationMembers, currentUser.value.id, conversationId,
                               "You aren't a member of this conversation");
        var conversation := Get(t.conversations, conversationId);
        if conversation.None? then Err(MissingDocument)
        else Ok((currentUser.value, conversation.value))
  }

  /** The message `create` inserts. The schema's `isEdited` is not passed
      by the handler and stays unset. */
  function Posted(sender: UserId, conversationId: ConversationId, kind: string, content: seq<string>): Message
  {
    Message(sender, conversationId, kind, content, None, None, None)
  }

  /** `create`: inserts the message and points the conversation at it. */
  function CreateStep(t: Tables, identity: Option<string>, conversationId: ConversationId, kind: string, content: seq<string>): (s: Step<MessageId>)
    ensures s.result.Err? ==> s.after == t
    ensures s.after == t.(messages := s.after.messages, conversations := s.after.conversations, clock := s.after.clock)
    ensures t.clock <= s.after.clock
  {
    match CreateCheck(t, identity, conversationId)
    case Err(e) => Step(Err(e), t)
    case Ok((sender, conversation)) =>
      var id := t.clock;
      Step(Ok(id), t.(messages := t.messages + [Doc(id, id, Posted(sender.id, conversationId, kind, content))],
                      conversations := Patch(t.conversations, conversation.id, conversation.val.(lastMessageId := Some(id))),
                      clock := id + 1))
  }

  method Create(db: Store, identity: Option<string>, conversationId: ConversationId, kind: string, content: seq<string>)
    returns (r: Result<MessageId>)
    modifies db
    ensures Step(r, db.Snapshot()) == CreateStep(old(db.Snapshot()), identity, conversationId, kind, content)
  {
    if identity.None? {
      return Err(ConvexError("Unauthorized"));
    }
    var currentUser :- UserByClerkId(db.users, identity.value);
    if currentUser.None? {
      return Err(ConvexError("User not found in requests"));
    }
    var _ :- TheMembership(db.conversationMembers, currentUser.value.id, conversationId,
                           "You aren't a member of this conversation");
    // The marker update patches this document; without it the patch
    // throws and the transaction, insert included, is rolled back.
    var conversation := Get(db.conversations, conversationId);
    if conversation.None? {
      return Err(MissingDocument);
    }
    var message := db.NewId();
    db.messages := db.messages + [Doc(message, message, Posted(currentUser.value.id, conversationId, kind, content))];
    db.conversations := Patch(db.conversations, conversation.value.id, conversation.value.val.(lastMessageId := Some(message)));
    r := Ok(message);
  }

  /** Posting needs a session ("Unauthorized"), a user for it, a membership
      ("You aren't a member of this conversation") and the conversation; a
      refused post writes nothing. */
  lemma CreateGuards(t: Tables, identity: Option<string>, conversationId: ConversationId, kind: string, content: seq<string>)
    ensures identity.None? ==> CreateStep(t, identity, conversationId, kind, content).result == Err(ConvexError("Unauthorized"))
    ensures identity.Some? && (forall u | u in t.users :: u.val.clerkId != identity.value) ==>
              CreateStep(t, identity, conversationId, kind, content).result == Err(ConvexError("User not found in requests"))
    ensures identity.Some? && UserByClerkId(t.users, identity.value).Ok? && UserByClerkId(t.users, identity.value).value.Some? &&
            (forall m | m in t.conversationMembers ::
               !(m.val.memberId == UserByClerkId(t.users, identity.value).value.value.id && m.val.conversationId == conversationId)) ==>
              CreateStep(t, identity, conversationId, kind, content).result == Err(ConvexError("You aren't a member of this conversation"))
    ensures CreateStep(t, identity, conversationId, kind, content).result.Err? ==> CreateStep(t, identity, conversationId, kind, content).after == t
  {
    if identity.Some? && UserByClerkId(t.users, identity.value).Ok? && UserByClerkId(t.users, identity.value).value.Some? {
      NoMembership(t.conversationMembers, UserByClerkId(t.users, identity.value).value.value.id, conversationId,
                   "You aren't a member of this conversation");
    }
  }

  /** A successful post appends exactly one message, from the caller, with
      the given conversation, type and content, and returns its id; the
      conversation's last-message marker is that id and its other fields
      are unchanged, and every other conversation reads back unchanged. */
  lemma CreateAppends(t: Tables, identity: Option<string>, conversationId: ConversationId, kind: string, content: seq<string>)
    requires CreateStep(t, identity, conversationId, kind, content).result.Ok?
    ensures var s := CreateStep(t, identity, conversationId, kind, content);
            var me := UserByClerkId(t.users, identity.value).value.value;
            && me in t.users && me.val.clerkId == identity.value
            && s.result.value == t.clock
            && s.after.messages == t.messages + [Doc(t.clock, t.clock, Message(me.id, conversationId, kind, content, None, None, None))]
            && s.after.users == t.users && s.after.conversationMembers == t.conversationMembers
            && Get(s.after.conversations, conversationId) ==
                 Some(Get(t.conversations, conversationId).value.(val := Get(t.conversations, conversationId).value.val.(lastMessageId := Some(t.clock))))
            && (forall id | id != conversationId :: Get(s.after.conversations, id) == Get(t.conversations, id))
  {
    var conversation := Get(t.conversations, conversationId).value;
    var v := conversation.val.(lastMessageId := Some(t.clock));
    GetPatch(t.conversations, conversationId, v, conversationId);
    forall id | id != conversationId ensures Get(Patch(t.conversations, conversationId, v), id) == Get(t.conversations, id) {
      GetPatch(t.conversations, conversationId, v, id);
    }
  }

  /** After posting, the conversation list's preview is the new message:
      its summary, the caller's name and its creation time. */
  lemma CreateIsLastMessage(t: Tables, identity: Option<string>, conversationId: ConversationId, kind: string, content: seq<string>)
    requires t.Valid()
    requires CreateStep(t, identity, conversationId, kind, content).result.Ok?
    ensures var u := CreateStep(t, identity, conversationId, kind, content).after;
            var me := UserByClerkId(t.users, identity.value).value.value;
            && Get(u.conversations, conversationId).Some?
            && LastMessageDetails(u, Get(u.conversations, conversationId).value.val.lastMessageId) ==
                 Some(LastMessage(MessagesContent(kind, content), me.val.username, t.clock))
  {
    var u := CreateStep(t, identity, conversationId, kind, content).after;
    var me := UserByClerkId(t.users, identity.value).value.value;
    CreateAppends(t, identity, conversationId, kind, content);
    WfIncreasing(t.messages, t.clock);
    WfIncreasing(t.users, t.clock);
    GetAppendFresh(t.messages, Doc(t.clock, t.clock, Posted(me.id, conversationId, kind, content)));
    GetFinds(t.users, me);
  }

  /** The caller's own post never adds to the caller's unseen count, in
      any conversation. */
  lemma OwnMessageNotUnseen(t: Tables, identity: Option<string>, conversationId: ConversationId, kind: string, content: seq<string>,
                              c: ConversationId, after: int)
    requires CreateStep(t, identity, conversationId, kind, content).result.Ok?
    ensures var u := CreateStep(t, identity, conversationId, kind, content).after;
            var me := UserByClerkId(t.users, identity.value).value.value.id;
            Unseen(u.messages, c, after, me) == Unseen(t.messages, c, after, me)
  {
    var me := UserByClerkId(t.users, identity.value).value.value.id;
    var d := Doc(t.clock, t.clock, Posted(me, conversationId, kind, content));
    CreateAppends(t, identity, conversationId, kind, content);
    FilterAppend(t.messages, [d], PostedIn(c));
    var added := Filter([d], PostedIn(c));
    FilterAppend(MessagesIn(t.messages, c), added, UnseenBy(after, me));
    assert Filter(added, UnseenBy(after, me)) == [] by {
      if |added| > 0 {
        assert added == [d];
        assert Filter(added, UnseenBy(after, me)) == Filter(added[1..], UnseenBy(after, me));
      }
    }
  }

  /** The post adds one to the unseen count of every other user of its
      conversation whose read marker is older than the post. */
  lemma CreateUnseenByOthers(t: Tables, identity: Option<string>, conversationId: ConversationId, kind: string, content: seq<string>,
                           after: int, other: UserId)
    requires CreateStep(t, identity, conversationId, kind, content).result.Ok?
    requires other != UserByClerkId(t.users, identity.value).value.value.id && after < t.clock
    ensures var u := CreateStep(t, identity, conversationId, kind, content).after;
            Unseen(u.messages, conversationId, after, other) ==
              Unseen(t.messages, conversationId, after, other) + [u.messages[|t.messages|]]
  {
    var me := UserByClerkId(t.users, identity.value).value.value.id;
    var d := Doc(t.clock, t.clock, Posted(me, conversationId, kind, content));
    CreateAppends(t, identity, conversationId, kind, content);
    FilterAppend(t.messages, [d], PostedIn(conversationId));
    assert Filter([d], PostedIn(conversationId)) == [d] by {
      assert Filter([d], PostedIn(conversationId)) == [d] + Filter([d][1..], PostedIn(conversationId));
    }
    FilterAppend(MessagesIn(t.messages, conversationId), [d], UnseenBy(after, other));
    assert Filter([d], UnseenBy(after, other)) == [d] by {
      assert Filter([d], UnseenBy(after, other)) == [d] + Filter([d][1..], UnseenBy(after, other));
    }
  }

  lemma CreateKeepsValid(t: Tables, identity: Option<string>, conversationId: ConversationId, kind: string, content: seq<string>)
    requires t.Valid()
    ensures CreateStep(t, identity, conversationId, kind, content).after.Valid()
  {
    var check := CreateCheck(t, identity, conversationId);
    if check.Ok? {
      var (sender, conversation) := check.value;
      var u := CreateStep(t, identity, conversationId, kind, content).after;
      var v := conversation.val.(lastMessageId := Some(t.clock));
      WfAppend(t.messages, t.clock, Posted(sender.id, conversationId, kind, content));
      WfPatch(t.conversations, t.clock, conversation.id, v);
      WfGrow(Patch(t.conversations, conversation.id, v), t.clock, t.clock + 1);
      ValidAfter(t, u);
    }
  }
}
