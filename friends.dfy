/** convex/friends.ts: ending a friendship removes the friendship row and
    the direct conversation it opened, with its messages and memberships. */
module FriendsApi {
  import opened Schema
  import opened Docs
  import opened Db
  import opened Utils
  import opened RequestApi

  /** The guards of `deleteFriend`, in the handler's order: a session, its
      user (looked up by subject, not through `getAuthenticatedUser`), the
      conversation, exactly two memberships and exactly one friendship row
      attached to the conversation. Gives the friendship row. */
  function DeleteFriendCheck(t: Tables, identity: Option<string>, conversationId: ConversationId): Result<Doc<Friend>>
  {
    if identity.None? then Err(ConvexError("unauthorized"))
    else
      var currentUser :- UserByClerkId(t.users, identity.value);
      if currentUser.None? then Err(ConvexError("user not found"))
      else if Get(t.conversations, conversationId).None? then Err(ConvexError("conversation not found"))
      else if |MembersOf(t.conversationMembers, conversationId)| != 2 then Err(ConvexError("Invalid conversation members"))
      else
        var friendship :- Unique(FriendshipsOf(t.friends, conversationId));
        if friendship.None? then Err(ConvexError("friendship not found"))
        else Ok(friendship.value)
  }

  /** `deleteFriend`: the conversation, its messages, its memberships and
      the friendship row go. */
  function DeleteFriendStep(t: Tables, identity: Option<string>, conversationId: ConversationId): (s: Step<()>)
    ensures s.result.Err? ==> s.after == t
    ensures s.after == t.(conversations := s.after.conversations, messages := s.after.messages, conversationMembers := s.after.conversationMembers, friends := s.after.friends)
  {
    match DeleteFriendCheck(t, identity, conversationId)
    case Err(e) => Step(Err(e), t)
    case Ok(friendship) => Step(Ok(()), DropConversation(t, conversationId).(friends := Delete(t.friends, friendship.id)))
  }

  method DeleteFriend(db: Store, identity: Option<string>, conversationId: ConversationId) returns (r: Result<()>)
    modifies db
    ensures Step(r, db.Snapshot()) == DeleteFriendStep(old(db.Snapshot()), identity, conversationId)
  {
    if identity.None? {
      return Err(ConvexError("unauthorized"));
    }
    var currentUser :- UserByClerkId(db.users, identity.value);
    if currentUser.None? {
      return Err(ConvexError("user not found"));
    }
    var conversation := Get(db.conversations, conversationId);
    if conversation.None? {
      return Err(ConvexError("conversation not found"));
    }
    var memberShips := MembersOf(db.conversationMembers, conversation.value.id);
    if |memberShips| != 2 {
      return Err(ConvexError("Invalid conversation members"));
    }
    var friendship :- Unique(FriendshipsOf(db.friends, conversation.value.id));
    if friendship.None? {
      return Err(ConvexError("friendship not found"));
    }
    // The friendship row and the conversation's rows live in different
    // tables, so the order of the deletions does not matter.
    db.friends := Delete(db.friends, friendship.value.id);
    db.DropConversationInPlace(conversation.value.id);
    r := Ok(());
  }

  /** Deleting the one friendship row attached to a conversation removes
      exactly the rows attached to it. */
  lemma DeleteTheFriendship(friends: Table<Friend>, conversationId: ConversationId)
    requires Increasing(friends) && |FriendshipsOf(friends, conversationId)| == 1
    ensures forall f :: f in Delete(friends, FriendshipsOf(friends, conversationId)[0].id) <==>
              f in friends && f.val.conversationId != conversationId
  {
    var found := FriendshipsOf(friends, conversationId);
    var friendship := found[0];
    FilterMembers(friends, Attached(conversationId));
    DeleteMembers(friends, friendship.id);
    assert friendship in found;
    forall f | f in friends && f.val.conversationId == conversationId ensures f.id == friendship.id {
      assert f in found;
    }
    forall f | f in friends && f.id == friendship.id ensures f == friendship {
      IdDetermines(friends, f, friendship);
    }
  }

  /** `deleteFriend` succeeds exactly for a known caller on an existing
      conversation with exactly two memberships and one friendship row; it
      then removes the conversation, its messages, its memberships and its
      friendship row, keeps everything else, and a refusal writes nothing. */
  lemma DeleteFriendSpec(t: Tables, identity: Option<string>, conversationId: ConversationId)
    requires Increasing(t.messages) && Increasing(t.conversationMembers) && Increasing(t.friends)
    ensures var s := DeleteFriendStep(t, identity, conversationId);
            && (s.result.Ok? <==>
                  && identity.Some? && UserByClerkId(t.users, identity.value).Ok?
                  && UserByClerkId(t.users, identity.value).value.Some?
                  && (exists c | c in t.conversations :: c.id == conversationId)
                  && |MembersOf(t.conversationMembers, conversationId)| == 2
                  && |FriendshipsOf(t.friends, conversationId)| == 1)
            && (s.result.Err? ==> s.after == t)
            && (s.result.Ok? ==>
                  && (forall c | c in s.after.conversations :: c in t.conversations && c.id != conversationId)
                  && (forall c | c in t.conversations && c.id != conversationId :: c in s.after.conversations)
                  && (forall m :: m in s.after.messages <==> m in t.messages && m.val.conversationId != conversationId)
                  && (forall m :: m in s.after.conversationMembers <==> m in t.conversationMembers && m.val.conversationId != conversationId)
                  && (forall f :: f in s.after.friends <==> f in t.friends && f.val.conversationId != conversationId)
                  && s.after.users == t.users && s.after.requests == t.requests
                  && s.after.groupLeaves == t.groupLeaves && s.after.typingStatus == t.typingStatus
                  && s.after.calls == t.calls && s.after.callParticipants == t.callParticipants)
  {
    GetNone(t.conversations, conversationId);
    if DeleteFriendStep(t, identity, conversationId).result.Ok? {
      DropConversationLeaves(t, conversationId);
      DeleteTheFriendship(t.friends, conversationId);
    }
  }

  /** The guards' messages: no session, no user, no conversation, a member
      count other than two, no friendship row. */
  lemma DeleteFriendGuards(t: Tables, identity: Option<string>, conversationId: ConversationId)
    ensures identity.None? ==> DeleteFriendStep(t, identity, conversationId).result == Err(ConvexError("unauthorized"))
    ensures identity.Some? && (forall u | u in t.users :: u.val.clerkId != identity.value) ==>
              DeleteFriendStep(t, identity, conversationId).result == Err(ConvexError("user not found"))
    ensures identity.Some? && UserByClerkId(t.users, identity.value).Ok? && UserByClerkId(t.users, identity.value).value.Some? ==>
              && ((forall c | c in t.conversations :: c.id != conversationId) ==>
                    DeleteFriendStep(t, identity, conversationId).result == Err(ConvexError("conversation not found")))
              && (Get(t.conversations, conversationId).Some? && |MembersOf(t.conversationMembers, conversationId)| != 2 ==>
                    DeleteFriendStep(t, identity, conversationId).result == Err(ConvexError("Invalid conversation members")))
              && (Get(t.conversations, conversationId).Some? && |MembersOf(t.conversationMembers, conversationId)| == 2 &&
                  (forall f | f in t.friends :: f.val.conversationId != conversationId) ==>
                    DeleteFriendStep(t, identity, conversationId).result == Err(ConvexError("friendship not found")))
  {
    GetNone(t.conversations, conversationId);
    FilterMembers(t.friends, Attached(conversationId));
    if |FriendshipsOf(t.friends, conversationId)| > 0 {
      assert FriendshipsOf(t.friends, conversationId)[0] in FriendshipsOf(t.friends, conversationId);
    }
  }

  /** Unless another row still links them, the two former friends are
      friends no more, so either may send the other a request again. */
  lemma DeleteFriendUnlinks(t: Tables, identity: Option<string>, conversationId: ConversationId)
    requires Increasing(t.messages) && Increasing(t.conversationMembers) && Increasing(t.friends)
    requires DeleteFriendStep(t, identity, conversationId).result.Ok?
    ensures var f := DeleteFriendCheck(t, identity, conversationId).value;
            (forall g | g in t.friends && g.val.conversationId != conversationId ::
               !((g.val.user1 == f.val.user1 && g.val.user2 == f.val.user2) || (g.val.user1 == f.val.user2 && g.val.user2 == f.val.user1))) ==>
              !AlreadyFriends(DeleteFriendStep(t, identity, conversationId).after.friends, f.val.user1, f.val.user2)
  {
    var f := DeleteFriendCheck(t, identity, conversationId).value;
    var u := DeleteFriendStep(t, identity, conversationId).after;
    DeleteFriendSpec(t, identity, conversationId);
    AlreadyFriendsIsLinked(u.friends, f.val.user1, f.val.user2);
  }

  lemma DeleteFriendKeepsValid(t: Tables, identity: Option<string>, conversationId: ConversationId)
    requires t.Valid()
    ensures DeleteFriendStep(t, identity, conversationId).after.Valid()
  {
    var check := DeleteFriendCheck(t, identity, conversationId);
    if check.Ok? {
      DropConversationKeepsValid(t, conversationId);
      WfWithoutIds(t.friends, t.clock, {check.value.id});
      ValidAfter(t, DeleteFriendStep(t, identity, conversationId).after);
    }
  }
}
