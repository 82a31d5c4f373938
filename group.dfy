/** convex/group.ts: deleting a group conversation, and a member leaving
    one. */
module GroupApi {
  import opened Schema
  import opened Docs
  import opened Db
  import opened Utils

  /** The guards of `deleteGroup`, in the handler's order: a session, its
      user, the conversation, more than one membership, and exactly one
      friendship row attached to the conversation. The caller's own
      membership is not looked at. */
  function DeleteGroupCheck(t: Tables, identity: Option<string>, conversationId: ConversationId): Result<Doc<Conversation>>
  {
    if identity.None? then Err(ConvexError("unauthorized"))
    else
      var _ :- AuthenticatedUser(t.users, identity);
      var conversation := Get(t.conversations, conversationId);
      if conversation.None? then Err(ConvexError("conversation not found"))
      else if |MembersOf(t.conversationMembers, conversationId)| <= 1 then Err(ConvexError("Invalid conversation members"))
      else
        var friendship :- Unique(FriendshipsOf(t.friends, conversationId));
        if friendship.None? then Err(ConvexError("friendship not found"))
        else Ok(conversation.value)
  }

  /** `deleteGroup`: the conversation, its messages and its memberships go;
      the friendship row stays. */
  function DeleteGroupStep(t: Tables, identity: Option<string>, conversationId: ConversationId): (s: Step<()>)
    ensures s.result.Err? ==> s.after == t
    ensures s.after == t.(conversations := s.after.conversations, messages := s.after.messages, conversationMembers := s.after.conversationMembers)
  {
    match DeleteGroupCheck(t, identity, conversationId)
    case Err(e) => Step(Err(e), t)
    case Ok(_) => Step(Ok(()), DropConversation(t, conversationId))
  }

  method DeleteGroup(db: Store, identity: Option<string>, conversationId: ConversationId) returns (r: Result<()>)
    modifies db
    ensures Step(r, db.Snapshot()) == DeleteGroupStep(old(db.Snapshot()), identity, conversationId)
  {
    if identity.None? {
      return Err(ConvexError("unauthorized"));
    }
    var _ :- AuthenticatedUser(db.users, identity);
    var conversation := Get(db.conversations, conversationId);
    if conversation.None? {
      return Err(ConvexError("conversation not found"));
    }
    var memberShips := MembersOf(db.conversationMembers, conversation.value.id);
    if |memberShips| <= 1 {
      return Err(ConvexError("Invalid conversation members"));
    }
    var friendship :- Unique(FriendshipsOf(db.friends, conversation.value.id));
    if friendship.None? {
      return Err(ConvexError("friendship not found"));
    }
    db.DropConversationInPlace(conversation.value.id);
    r := Ok(());
  }

  /** `deleteGroup` succeeds exactly for a signed-in caller on an existing
      conversation with at least two memberships and one friendship row,
      whether or not the caller belongs to it; it then removes the
      conversation, its messages and its memberships, keeps everything
      else, the friendship row included, and a refusal writes nothing. */
  lemma DeleteGroupSpec(t: Tables, identity: Option<string>, conversationId: ConversationId)
    requires Increasing(t.messages) && Increasing(t.conversationMembers)
    ensures var s := DeleteGroupStep(t, identity, conversationId);
            && (s.result.Ok? <==>
                  && identity.Some? && AuthenticatedUser(t.users, identity).Ok?
                  && (exists c | c in t.conversations :: c.id == conversationId)
                  && |MembersOf(t.conversationMembers, conversationId)| >= 2
                  && |FriendshipsOf(t.friends, conversationId)| == 1)
            && (s.result.Err? ==> s.after == t)
            && (s.result.Ok? ==>
                  && (forall c | c in s.after.conversations :: c in t.conversations && c.id != conversationId)
                  && (forall c | c in t.conversations && c.id != conversationId :: c in s.after.conversations)
                  && (forall m :: m in s.after.messages <==> m in t.messages && m.val.conversationId != conversationId)
                  && (forall m :: m in s.after.conversationMembers <==> m in t.conversationMembers && m.val.conversationId != conversationId)
                  && s.after.friends == t.friends && s.after.users == t.users && s.after.requests == t.requests
                  && s.after.groupLeaves == t.groupLeaves && s.after.typingStatus == t.typingStatus
                  && s.after.calls == t.calls && s.after.callParticipants == t.callParticipants)
  {
    GetNone(t.conversations, conversationId);
    DropConversationLeaves(t, conversationId);
  }

  /** The guards' messages: no session, no conversation, too few
      memberships, no friendship row. */
  lemma DeleteGroupGuards(t: Tables, identity: Option<string>, conversationId: ConversationId)
    ensures identity.None? ==> DeleteGroupStep(t, identity, conversationId).result == Err(ConvexError("unauthorized"))
    ensures identity.Some? && AuthenticatedUser(t.users, identity).Ok? && (forall c | c in t.conversations :: c.id != conversationId) ==>
              DeleteGroupStep(t, identity, conversationId).result == Err(ConvexError("conversation not found"))
    ensures identity.Some? && AuthenticatedUser(t.users, identity).Ok? && Get(t.conversations, conversationId).Some? &&
            |MembersOf(t.conversationMembers, conversationId)| <= 1 ==>
              DeleteGroupStep(t, identity, conversationId).result == Err(ConvexError("Invalid conversation members"))
    ensures identity.Some? && AuthenticatedUser(t.users, identity).Ok? && Get(t.conversations, conversationId).Some? &&
            |MembersOf(t.conversationMembers, conversationId)| > 1 &&
            (forall f | f in t.friends :: f.val.conversationId != conversationId) ==>
              DeleteGroupStep(t, identity, conversationId).result == Err(ConvexError("friendship not found"))
  {
    GetNone(t.conversations, conversationId);
    FilterMembers(t.friends, Attached(conversationId));
    if |FriendshipsOf(t.friends, conversationId)| > 0 {
      assert FriendshipsOf(t.friends, conversationId)[0] in FriendshipsOf(t.friends, conversationId);
    }
  }

  lemma DeleteGroupKeepsValid(t: Tables, identity: Option<string>, conversationId: ConversationId)
    requires t.Valid()
    ensures DeleteGroupStep(t, identity, conversationId).after.Valid()
  {
    DropConversationKeepsValid(t, conversationId);
  }

  /** The guards of `leaveGroup`: a session, its user, the conversation and
      the caller's membership in it, which is what gets deleted. */
  function LeaveGroupCheck(t: Tables, identity: Option<string>, conversationId: ConversationId): Result<Doc<Member>>
  {
    if identity.None? then Err(ConvexError("unauthorized"))
    else
      var me :- AuthenticatedUser(t.users, identity);
      if Get(t.conversations, conversationId).None? then Err(ConvexError("conversation not found"))
      else TheMembership(t.conversationMembers, me.id, conversationId,
                         "You are not part of this group therefor you can't leave it ")
  }

  /** `leaveGroup`: deletes the caller's membership row and nothing else. */
  function LeaveGroupStep(t: Tables, identity: Option<string>, conversationId: ConversationId): (s: Step<()>)
    ensures s.result.Err? ==> s.after == t
    ensures s.after == t.(conversationMembers := s.after.conversationMembers)
  {
    match LeaveGroupCheck(t, identity, conversationId)
    case Err(e) => Step(Err(e), t)
    case Ok(memberShip) => Step(Ok(()), t.(conversationMembers := Delete(t.conversationMembers, memberShip.id)))
  }

  method LeaveGroup(db: Store, identity: Option<string>, conversationId: ConversationId) returns (r: Result<()>)
    modifies db
    ensures Step(r, db.Snapshot()) == LeaveGroupStep(old(db.Snapshot()), identity, conversationId)
  {
    if identity.None? {
      return Err(ConvexError("unauthorized"));
    }
    var currentUser :- AuthenticatedUser(db.users, identity);
    var conversation := Get(db.conversations, conversationId);
    if conversation.None? {
      return Err(ConvexError("conversation not found"));
    }
    var memberShip :- TheMembership(db.conversationMembers, currentUser.id, conversationId,
                                    "You are not part of this group therefor you can't leave it ");
    db.conversationMembers := Delete(db.conversationMembers, memberShip.id);
    r := Ok(());
  }

  /** `leaveGroup` succeeds exactly for a signed-in caller with one
      membership in an existing conversation; it then removes that row and
      only it, changes no other table (no departure record is written) and
      leaves the conversation itself in place; a refusal writes nothing. */
  lemma LeaveGroupSpec(t: Tables, identity: Option<string>, conversationId: ConversationId)
    requires Increasing(t.conversationMembers)
    ensures var s := LeaveGroupStep(t, identity, conversationId);
            && (s.result.Ok? <==>
                  && identity.Some? && AuthenticatedUser(t.users, identity).Ok?
                  && (exists c | c in t.conversations :: c.id == conversationId)
                  && |MembershipIn(t.conversationMembers, AuthenticatedUser(t.users, identity).value.id, conversationId)| == 1)
            && (s.result.Err? ==> s.after == t)
            && (s.result.Ok? ==>
                  && s.after.(conversationMembers := t.conversationMembers) == t
                  && forall m :: m in s.after.conversationMembers <==>
                       m in t.conversationMembers &&
                       !(m.val.memberId == AuthenticatedUser(t.users, identity).value.id && m.val.conversationId == conversationId))
  {
    GetNone(t.conversations, conversationId);
    var s := LeaveGroupStep(t, identity, conversationId);
    if s.result.Ok? {
      var me := AuthenticatedUser(t.users, identity).value.id;
      DeleteTheMembership(t.conversationMembers, me, conversationId,
                          "You are not part of this group therefor you can't leave it ");
    }
  }

  /** Once out, the caller cannot leave again: the second attempt is turned
      away as from a non-member. */
  lemma LeaveGroupTwice(t: Tables, identity: Option<string>, conversationId: ConversationId)
    requires Increasing(t.conversationMembers)
    requires LeaveGroupStep(t, identity, conversationId).result.Ok?
    ensures LeaveGroupStep(LeaveGroupStep(t, identity, conversationId).after, identity, conversationId).result ==
              Err(ConvexError("You are not part of this group therefor you can't leave it "))
  {
    var u := LeaveGroupStep(t, identity, conversationId).after;
    var me := AuthenticatedUser(t.users, identity).value.id;
    LeaveGroupSpec(t, identity, conversationId);
    NoMembership(u.conversationMembers, me, conversationId, "You are not part of this group therefor you can't leave it ");
  }

  lemma LeaveGroupKeepsValid(t: Tables, identity: Option<string>, conversationId: ConversationId)
    requires t.Valid()
    ensures LeaveGroupStep(t, identity, conversationId).after.Valid()
  {
    var check := LeaveGroupCheck(t, identity, conversationId);
    if check.Ok? {
      WfWithoutIds(t.conversationMembers, t.clock, {check.value.id});
      ValidAfter(t, LeaveGroupStep(t, identity, conversationId).after);
    }
  }
}
