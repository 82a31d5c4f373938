/** convex/conversation.ts: one conversation seen by one of its members,
    the member's read marker, the group roster with recent departures, and
    the typing indicators. */
module ConversationApi {
  import opened Schema
  import opened Docs
  import opened Db
  import opened Utils

  /** The other side of a direct conversation: the user document (absent
      when the user row is gone) and that member's read marker. */
  datatype OtherMember = OtherMember(user: Option<Doc<User>>, lastSeenMessageId: Option<MessageId>)

  /** One other member of a group. */
  datatype GroupMember = GroupMember(username: string, lastSeenMessageId: Option<MessageId>, id: UserId)

  /** What `get` returns: the conversation with either `otherMember` (direct)
      or `otherMembers` (group) set and the other one null. */
  datatype ConversationView = ConversationView(
    conversation: Doc<Conversation>,
    otherMember: Option<OtherMember>,
    otherMembers: Option<seq<GroupMember>>)

  /** The group's other members joined with their user documents; a missing
      user fails the query. */
  function GroupMembers(users: Table<User>, others: Table<Member>): (r: Result<seq<GroupMember>>)
    ensures r.Ok? ==> |r.value| == |others|
    ensures r.Ok? ==> forall i | 0 <= i < |others| ::
              && Get(users, others[i].val.memberId).Some?
              && r.value[i] == GroupMember(Get(users, others[i].val.memberId).value.val.username,
                                           others[i].val.lastSeenMessage, others[i].val.memberId)
    ensures r.Err? <==> exists i | 0 <= i < |others| :: Get(users, others[i].val.memberId).None?
    ensures r.Err? ==> r.error == ConvexError("member couldn't be found ")
  {
    if |others| == 0 then Ok([])
    else
      var member := Get(users, others[0].val.memberId);
      if member.None? then Err(ConvexError("member couldn't be found "))
      else
        var rest :- GroupMembers(users, others[1..]);
        Ok([GroupMember(member.value.val.username, others[0].val.lastSeenMessage, member.value.id)] + rest)
  }

  /** `get`. In a direct conversation the first other membership is read
      without checking that there is one: a conversation whose only member
      is the caller fails reading a field of `undefined`. */
  function GetConversation(t: Tables, identity: Option<string>, conversationId: ConversationId): (r: Result<ConversationView>)
    ensures r.Ok? ==> r.value.conversation in t.conversations && r.value.conversation.id == conversationId
    ensures r.Ok? ==> (r.value.otherMember.Some? <==> !r.value.conversation.val.isGroup)
    ensures r.Ok? ==> (r.value.otherMembers.Some? <==> r.value.conversation.val.isGroup)
  {
    var me :- AuthenticatedUser(t.users, identity);
    var conversation := Get(t.conversations, conversationId);
    if conversation.None? then Err(ConvexError("Conversation not found"))
    else
      var _ :- TheMembership(t.conversationMembers, me.id, conversationId, "You are not a member of this conversation");
      var others := OthersIn(t.conversationMembers, conversationId, me.id);
      if !conversation.value.val.isGroup then
        if |others| == 0 then Err(NullAccess)
        else
          var other := others[0];
          Ok(ConversationView(conversation.value, Some(OtherMember(Get(t.users, other.val.memberId), other.val.lastSeenMessage)), None))
      else
        var otherMembers :- GroupMembers(t.users, others);
        Ok(ConversationView(conversation.value, None, Some(otherMembers)))
  }

  /** `get` fails for a missing conversation and for a caller who is not a
      member, and otherwise returns the conversation asked for. */
  lemma GetConversationGuards(t: Tables, identity: Option<string>, conversationId: ConversationId)
    requires AuthenticatedUser(t.users, identity).Ok?
    ensures var me := AuthenticatedUser(t.users, identity).value.id;
            var r := GetConversation(t, identity, conversationId);
            && ((forall c | c in t.conversations :: c.id != conversationId) ==>
                  r == Err(ConvexError("Conversation not found")))
            && ((exists c | c in t.conversations :: c.id == conversationId) &&
                (forall m | m in t.conversationMembers :: !(m.val.memberId == me && m.val.conversationId == conversationId)) ==>
                  r == Err(ConvexError("You are not a member of this conversation")))
            && (r.Ok? ==> r.value.conversation in t.conversations && r.value.conversation.id == conversationId)
  {
    var me := AuthenticatedUser(t.users, identity).value.id;
    GetNone(t.conversations, conversationId);
    NoMembership(t.conversationMembers, me, conversationId, "You are not a member of this conversation");
  }

  /** A direct conversation shows the first membership, in creation order,
      that is not the caller's, and no group list. */
  lemma DirectShowsFirstOther(t: Tables, identity: Option<string>, conversationId: ConversationId)
    requires GetConversation(t, identity, conversationId).Ok?
    requires !GetConversation(t, identity, conversationId).value.conversation.val.isGroup
    ensures var me := AuthenticatedUser(t.users, identity).value.id;
            var all := MembersOf(t.conversationMembers, conversationId);
            var view := GetConversation(t, identity, conversationId).value;
            && view.otherMembers.None?
            && exists k | 0 <= k < |all| ::
                 && all[k].val.memberId != me
                 && (forall j | 0 <= j < k :: all[j].val.memberId == me)
                 && view.otherMember == Some(OtherMember(Get(t.users, all[k].val.memberId), all[k].val.lastSeenMessage))
  {
    var me := AuthenticatedUser(t.users, identity).value.id;
    FilterHead(MembersOf(t.conversationMembers, conversationId), NotHeldBy(me));
  }

  /** A group shows every other membership, in order, with its user, and no
      single other member. */
  lemma GroupShowsOthers(t: Tables, identity: Option<string>, conversationId: ConversationId)
    requires GetConversation(t, identity, conversationId).Ok?
    requires GetConversation(t, identity, conversationId).value.conversation.val.isGroup
    ensures var me := AuthenticatedUser(t.users, identity).value.id;
            var others := OthersIn(t.conversationMembers, conversationId, me);
            var view := GetConversation(t, identity, conversationId).value;
            && view.otherMember.None? && view.otherMembers.Some?
            && |view.otherMembers.value| == |others|
            && forall i | 0 <= i < |others| ::
                 && view.otherMembers.value[i].id == others[i].val.memberId != me
                 && view.otherMembers.value[i].lastSeenMessageId == others[i].val.lastSeenMessage
  {
    var me := AuthenticatedUser(t.users, identity).value.id;
    var others := OthersIn(t.conversationMembers, conversationId, me);
    var view := GetConversation(t, identity, conversationId).value;
    assert view == ConversationView(Get(t.conversations, conversationId).value, None, Some(GroupMembers(t.users, others).value));
    FilterMembers(MembersOf(t.conversationMembers, conversationId), NotHeldBy(me));
    forall i | 0 <= i < |others| ensures others[i].val.memberId != me {
      assert others[i] in others;
    }
  }

  /** The read marker `markRead` stores: the message's id when it exists,
      nothing otherwise. */
  function SeenMarker(messages: Table<Message>, messageId: MessageId): (r: Option<MessageId>)
    ensures r.Some? <==> Get(messages, messageId).Some?
    ensures r.Some? ==> r.value == messageId
  {
    var lastMessage := Get(messages, messageId);
    if lastMessage.Some? then Some(lastMessage.value.id) else None
  }

  /** The guards of `markRead`: the caller's membership. */
  function MarkReadCheck(t: Tables, identity: Option<string>, conversationId: ConversationId): Result<Doc<Member>>
  {
    if identity.None? then Err(ConvexError("unauthorized"))
    else
      var me :- AuthenticatedUser(t.users, identity);
      TheMembership(t.conversationMembers, me.id, conversationId,
                    "You are not part of this group therefor you can't leave it ")
  }

  /** `markRead`: moves the caller's read marker to the message, or clears
      it when there is no such message. */
  function MarkReadStep(t: Tables, identity: Option<string>, conversationId: ConversationId, messageId: MessageId): (s: Step<()>)
    ensures s.result.Err? ==> s.after == t
    ensures s.after == t.(conversationMembers := s.after.conversationMembers)
  {
    match MarkReadCheck(t, identity, conversationId)
    case Err(e) => Step(Err(e), t)
    case Ok(m) =>
      Step(Ok(()), t.(conversationMembers := Patch(t.conversationMembers, m.id,
                                                    m.val.(lastSeenMessage := SeenMarker(t.messages, messageId)))))
  }

  method MarkRead(db: Store, identity: Option<string>, conversationId: ConversationId, messageId: MessageId)
    returns (r: Result<()>)
    modifies db
    ensures Step(r, db.Snapshot()) == MarkReadStep(old(db.Snapshot()), identity, conversationId, messageId)
  {
    if identity.None? {
      return Err(ConvexError("unauthorized"));
    }
    var currentUser :- AuthenticatedUser(db.users, identity);
    var memberShip :- TheMembership(db.conversationMembers, currentUser.id, conversationId,
                                    "You are not part of this group therefor you can't leave it ");
    var lastMessage := Get(db.messages, messageId);
    db.conversationMembers := Patch(db.conversationMembers, memberShip.id,
                                    memberShip.val.(lastSeenMessage := if lastMessage.Some? then Some(lastMessage.value.id) else None));
    r := Ok(());
  }

  /** `markRead` succeeds exactly for a signed-in member; it then sets that
      member's marker to the message when the message exists and clears it
      otherwise, and changes no other row. */
  lemma MarkReadSpec(t: Tables, identity: Option<string>, conversationId: ConversationId, messageId: MessageId)
    requires Increasing(t.conversationMembers)
    ensures var s := MarkReadStep(t, identity, conversationId, messageId);
            && (s.result.Ok? <==>
                  && identity.Some? && AuthenticatedUser(t.users, identity).Ok?
                  && |MembershipIn(t.conversationMembers, AuthenticatedUser(t.users, identity).value.id, conversationId)| == 1)
            && (s.result.Err? ==> s.after == t)
    ensures var s := MarkReadStep(t, identity, conversationId, messageId);
            s.result.Ok? ==>
              var m := MarkReadCheck(t, identity, conversationId).value;
              && s.after == t.(conversationMembers := s.after.conversationMembers)
              && |s.after.conversationMembers| == |t.conversationMembers|
              && forall i | 0 <= i < |t.conversationMembers| ::
                   s.after.conversationMembers[i] ==
                     if t.conversationMembers[i] == m
                     then m.(val := m.val.(lastSeenMessage := if Get(t.messages, messageId).Some? then Some(messageId) else None))
                     else t.conversationMembers[i]
  {
    var check := MarkReadCheck(t, identity, conversationId);
    if check.Ok? {
      var m := check.value;
      forall i | 0 <= i < |t.conversationMembers| && t.conversationMembers[i].id == m.id
        ensures t.conversationMembers[i] == m
      {
        IdDetermines(t.conversationMembers, t.conversationMembers[i], m);
      }
    }
  }

  /** Marking the same message read twice leaves the same state as marking
      it once. */
  lemma MarkReadIdempotent(t: Tables, identity: Option<string>, conversationId: ConversationId, messageId: MessageId)
    requires Increasing(t.conversationMembers)
    ensures var once := MarkReadStep(t, identity, conversationId, messageId);
            MarkReadStep(once.after, identity, conversationId, messageId) == once
  {
    var once := MarkReadStep(t, identity, conversationId, messageId);
    var check := MarkReadCheck(t, identity, conversationId);
    if check.Ok? {
      var m := check.value;
      var me := AuthenticatedUser(t.users, identity).value.id;
      var v := m.val.(lastSeenMessage := SeenMarker(t.messages, messageId));
      var members' := Patch(t.conversationMembers, m.id, v);
      assert once.after == t.(conversationMembers := members');
      forall d | d in t.conversationMembers && d.id == m.id
        ensures MemberOf(me, conversationId)(d.(val := v)) == MemberOf(me, conversationId)(d)
      {
        IdDetermines(t.conversationMembers, d, m);
      }
      FilterPatch(t.conversationMembers, m.id, v, MemberOf(me, conversationId));
      var found := MembershipIn(t.conversationMembers, me, conversationId);
      assert |found| == 1 && found[0] == m by {
        FilterMembers(t.conversationMembers, MemberOf(me, conversationId));
        assert found[0] in found;
      }
      assert MembershipIn(members', me, conversationId) == [m.(val := v)];
      assert Patch(members', m.id, v) == members';
    }
  }

  /** A member's details in `getGroupInfo`; the user fields are absent when
      the user row is gone. */
  datatype MemberDetail = MemberDetail(username: Option<string>, imgUrl: Option<string>, lastSeenMessageId: Option<MessageId>)

  datatype GroupInfo = GroupInfo(members: seq<MemberDetail>, recentLeaves: Table<GroupLeave>, isGroup: bool)

  /** How far back `getGroupInfo` looks for departures: 24 hours in ms. */
  const LeaveWindow: int := 24 * 60 * 60 * 1000

  function Detail(users: Table<User>, m: Doc<Member>): MemberDetail
  {
    var user := Get(users, m.val.memberId);
    MemberDetail(if user.Some? then Some(user.value.val.username) else None,
                 if user.Some? then Some(user.value.val.imgUrl) else None,
                 m.val.lastSeenMessage)
  }

  function LeftRecently(conversationId: ConversationId, now: int): Doc<GroupLeave> -> bool
  {
    (l: Doc<GroupLeave>) => l.val.conversationId == conversationId && l.val.leftAt > now - LeaveWindow
  }

  /** `getGroupInfo`: every membership of the conversation, the caller's
      included, and for a group the departures of the last 24 hours. The
      caller need not be a member. */
  function GroupInfoOf(t: Tables, identity: Option<string>, conversationId: ConversationId, now: int): (r: Result<GroupInfo>)
    ensures r.Ok? <==> AuthenticatedUser(t.users, identity).Ok? && Get(t.conversations, conversationId).Some?
    ensures r.Ok? ==> |r.value.members| == |MembersOf(t.conversationMembers, conversationId)|
    ensures r.Ok? ==> var ms := MembersOf(t.conversationMembers, conversationId);
              forall i | 0 <= i < |ms| ::
                var user := Get(t.users, ms[i].val.memberId);
                && r.value.members[i].lastSeenMessageId == ms[i].val.lastSeenMessage
                && (user.Some? ==> r.value.members[i].username == Some(user.value.val.username)
                                   && r.value.members[i].imgUrl == Some(user.value.val.imgUrl))
                && (user.None? ==> r.value.members[i].username == None && r.value.members[i].imgUrl == None)
    ensures r.Ok? ==> r.value.isGroup == Get(t.conversations, conversationId).value.val.isGroup
    ensures r.Ok? && !r.value.isGroup ==> r.value.recentLeaves == []
  {
    var _ :- AuthenticatedUser(t.users, identity);
    var conversation := Get(t.conversations, conversationId);
    if conversation.None? then Err(ConvexError("Conversation not found"))
    else
      var members := MembersOf(t.conversationMembers, conversationId);
      var details := seq(|members|, i requires 0 <= i < |members| => Detail(t.users, members[i]));
      var recentLeaves := if conversation.value.val.isGroup then Filter(t.groupLeaves, LeftRecently(conversationId, now)) else [];
      Ok(GroupInfo(details, recentLeaves, conversation.value.val.isGroup))
  }

  /** `getGroupInfo` succeeds for any signed-in caller and existing
      conversation; its departures are exactly those of this conversation
      less than 24 hours old when it is a group, and none otherwise. */
  lemma GroupInfoLeaves(t: Tables, identity: Option<string>, conversationId: ConversationId, now: int)
    ensures GroupInfoOf(t, identity, conversationId, now).Ok? <==>
              AuthenticatedUser(t.users, identity).Ok? && exists c | c in t.conversations :: c.id == conversationId
    ensures var r := GroupInfoOf(t, identity, conversationId, now);
            r.Ok? && r.value.isGroup ==>
              && (forall l | l in r.value.recentLeaves ::
                    l in t.groupLeaves && l.val.conversationId == conversationId && l.val.leftAt > now - 86400000)
              && (forall l | l in t.groupLeaves && l.val.conversationId == conversationId && l.val.leftAt > now - 86400000 ::
                    l in r.value.recentLeaves)
    ensures var r := GroupInfoOf(t, identity, conversationId, now);
            r.Ok? && !r.value.isGroup ==> r.value.recentLeaves == []
  {
    GetNone(t.conversations, conversationId);
    FilterMembers(t.groupLeaves, LeftRecently(conversationId, now));
  }

  /** Unlike `get`, the roster includes the caller: a signed-in member finds
      their own name and read marker in it. */
  lemma GroupInfoIncludesCaller(t: Tables, identity: Option<string>, conversationId: ConversationId, now: int, m: Doc<Member>)
    requires Increasing(t.users)
    requires GroupInfoOf(t, identity, conversationId, now).Ok?
    requires m in t.conversationMembers && m.val.conversationId == conversationId
    requires m.val.memberId == AuthenticatedUser(t.users, identity).value.id
    ensures exists d | d in GroupInfoOf(t, identity, conversationId, now).value.members ::
              d.username == Some(AuthenticatedUser(t.users, identity).value.val.username)
              && d.lastSeenMessageId == m.val.lastSeenMessage
  {
    var me := AuthenticatedUser(t.users, identity).value;
    var members := MembersOf(t.conversationMembers, conversationId);
    FilterMembers(t.conversationMembers, InConversation(conversationId));
    var i :| 0 <= i < |members| && members[i] == m;
    GetFinds(t.users, me);
    assert GroupInfoOf(t, identity, conversationId, now).value.members[i] == Detail(t.users, m);
  }

  /** The typing rows of one user in one conversation (index `by_userId`
      narrowed by conversation). */
  function TypingOf(userId: UserId, conversationId: ConversationId): Doc<TypingStatus> -> bool
  {
    (s: Doc<TypingStatus>) => s.val.userId == userId && s.val.conversationId == conversationId
  }

  /** `setTypingStatus`: refreshes the caller's typing row for the
      conversation, or creates it. */
  function SetTypingStep(t: Tables, identity: Option<string>, conversationId: ConversationId, isTyping: bool, now: int): (s: Step<()>)
    ensures s.result.Err? ==> s.after == t
    ensures s.after == t.(typingStatus := s.after.typingStatus, clock := s.after.clock)
    ensures t.clock <= s.after.clock
  {
    match AuthenticatedUser(t.users, identity)
    case Err(e) => Step(Err(e), t)
    case Ok(me) =>
      match First(Filter(t.typingStatus, TypingOf(me.id, conversationId)))
      case Some(existing) =>
        Step(Ok(()), t.(typingStatus := Patch(t.typingStatus, existing.id,
                                              existing.val.(isTyping := isTyping, lastTypingAt := now))))
      case None =>
        Step(Ok(()), t.(typingStatus := t.typingStatus + [Doc(t.clock, t.clock, TypingStatus(me.id, conversationId, isTyping, now))],
                        clock := t.clock + 1))
  }

  method SetTypingStatus(db: Store, identity: Option<string>, conversationId: ConversationId, isTyping: bool, now: int)
    returns (r: Result<()>)
    modifies db
    ensures Step(r, db.Snapshot()) == SetTypingStep(old(db.Snapshot()), identity, conversationId, isTyping, now)
  {
    var currentUser :- AuthenticatedUser(db.users, identity);
    var existingStatus := First(Filter(db.typingStatus, TypingOf(currentUser.id, conversationId)));
    if existingStatus.Some? {
      db.typingStatus := Patch(db.typingStatus, existingStatus.value.id,
                               existingStatus.value.val.(isTyping := isTyping, lastTypingAt := now));
    } else {
      var id := db.NewId();
      db.typingStatus := db.typingStatus + [Doc(id, id, TypingStatus(currentUser.id, conversationId, isTyping, now))];
    }
    r := Ok(());
  }

  /** The upsert keeps one row per user and conversation: afterwards the
      caller has as many rows for the conversation as before, or one if
      there were none, the first of them says what was just set, and every
      other user's or conversation's rows are as they were. */
  lemma SetTypingUpserts(t: Tables, identity: Option<string>, conversationId: ConversationId, isTyping: bool, now: int,
                         userId: UserId, otherConversation: ConversationId)
    requires Increasing(t.typingStatus)
    requires SetTypingStep(t, identity, conversationId, isTyping, now).result.Ok?
    ensures var me := AuthenticatedUser(t.users, identity).value.id;
            var before := Filter(t.typingStatus, TypingOf(me, conversationId));
            var after := Filter(SetTypingStep(t, identity, conversationId, isTyping, now).after.typingStatus, TypingOf(me, conversationId));
            && |after| == (if |before| == 0 then 1 else |before|)
            && after[0].val == TypingStatus(me, conversationId, isTyping, now)
    ensures var me := AuthenticatedUser(t.users, identity).value.id;
            (userId, otherConversation) != (me, conversationId) ==>
              Filter(SetTypingStep(t, identity, conversationId, isTyping, now).after.typingStatus, TypingOf(userId, otherConversation)) ==
                Filter(t.typingStatus, TypingOf(userId, otherConversation))
  {
    var me := AuthenticatedUser(t.users, identity).value.id;
    var before := Filter(t.typingStatus, TypingOf(me, conversationId));
    var u := SetTypingStep(t, identity, conversationId, isTyping, now).after;
    FilterMembers(t.typingStatus, TypingOf(me, conversationId));
    if |before| == 0 {
      var d := Doc(t.clock, t.clock, TypingStatus(me, conversationId, isTyping, now));
      assert u.typingStatus == t.typingStatus + [d];
      FilterAppend(t.typingStatus, [d], TypingOf(me, conversationId));
      FilterAppend(t.typingStatus, [d], TypingOf(userId, otherConversation));
    } else {
      var existing := before[0];
      assert existing in before;
      var v := existing.val.(isTyping := isTyping, lastTypingAt := now);
      forall d | d in t.typingStatus && d.id == existing.id
        ensures d == existing
      {
        IdDetermines(t.typingStatus, d, existing);
      }
      FilterPatch(t.typingStatus, existing.id, v, TypingOf(me, conversationId));
      FilterPatch(t.typingStatus, existing.id, v, TypingOf(userId, otherConversation));
      if (userId, otherConversation) != (me, conversationId) {
        FilterMembers(t.typingStatus, TypingOf(userId, otherConversation));
        PatchAbsent(Filter(t.typingStatus, TypingOf(userId, otherConversation)), existing.id, v);
      }
    }
  }

  /** When a scan finds a single row, every row that matches is that one. */
  lemma OnlyRow(typing: Table<TypingStatus>, p: Doc<TypingStatus> -> bool)
    requires |Filter(typing, p)| == 1
    ensures Filter(typing, p)[0] in typing && p(Filter(typing, p)[0])
    ensures forall s | s in typing && p(s) :: s == Filter(typing, p)[0]
  {
    FilterMembers(typing, p);
    assert Filter(typing, p)[0] in Filter(typing, p);
  }

  /** How long a typing row counts as live: 5 seconds in ms. */
  const TypingWindow: int := 5000

  function TypingNow(conversationId: ConversationId, now: int): Doc<TypingStatus> -> bool
  {
    (s: Doc<TypingStatus>) => s.val.conversationId == conversationId && s.val.isTyping && s.val.lastTypingAt > now - TypingWindow
  }

  function NotTypist(userId: UserId): Doc<TypingStatus> -> bool
  {
    (s: Doc<TypingStatus>) => s.val.userId != userId
  }

  /** The live typing rows of the conversation not written by `me`. */
  function TypingOthers(typing: Table<TypingStatus>, conversationId: ConversationId, me: UserId, now: int): Table<TypingStatus>
  {
    Filter(Filter(typing, TypingNow(conversationId, now)), NotTypist(me))
  }

  /** Who the indicator shows; the user fields are absent when the user row
      is gone. */
  datatype Typist = Typist(username: Option<string>, imgUrl: Option<string>)

  function TypistOf(users: Table<User>, s: Doc<TypingStatus>): Typist
  {
    var user := Get(users, s.val.userId);
    Typist(if user.Some? then Some(user.value.val.username) else None,
           if user.Some? then Some(user.value.val.imgUrl) else None)
  }

  /** A typing row shows the name and picture of the user who wrote it, or
      nothing when that user's row is gone. */
  lemma TypistCases(users: Table<User>, s: Doc<TypingStatus>)
    ensures (forall u | u in users :: u.id != s.val.userId) ==> TypistOf(users, s) == Typist(None, None)
    ensures forall u | u in users && u.id == s.val.userId ::
              Increasing(users) ==> TypistOf(users, s) == Typist(Some(u.val.username), Some(u.val.imgUrl))
  {
    GetNone(users, s.val.userId);
    forall u | u in users && u.id == s.val.userId && Increasing(users)
      ensures Get(users, s.val.userId) == Some(u)
    {
      GetFinds(users, u);
    }
  }

  /** `getTypingStatus`: for each live typing row of another user, who
      wrote it. */
  function TypingUsers(t: Tables, identity: Option<string>, conversationId: ConversationId, now: int): (r: Result<seq<Typist>>)
    ensures r.Ok? <==> AuthenticatedUser(t.users, identity).Ok?
    ensures r.Ok? ==> var others := TypingOthers(t.typingStatus, conversationId, AuthenticatedUser(t.users, identity).value.id, now);
              && |r.value| == |others|
              && forall i | 0 <= i < |others| :: r.value[i] == TypistOf(t.users, others[i])
  {
    var me :- AuthenticatedUser(t.users, identity);
    var others := TypingOthers(t.typingStatus, conversationId, me.id, now);
    Ok(seq(|others|, i requires 0 <= i < |others| => TypistOf(t.users, others[i])))
  }

  /** The indicator's rows are exactly the conversation's rows that say
      typing, were written in the last 5 seconds and are not the caller's. */
  lemma TypingOthersExactly(typing: Table<TypingStatus>, conversationId: ConversationId, me: UserId, now: int)
    ensures forall s | s in TypingOthers(typing, conversationId, me, now) ::
              && s in typing && s.val.conversationId == conversationId && s.val.isTyping
              && s.val.lastTypingAt > now - 5000 && s.val.userId != me
    ensures forall s | s in typing && s.val.conversationId == conversationId && s.val.isTyping
                       && s.val.lastTypingAt > now - 5000 && s.val.userId != me ::
              s in TypingOthers(typing, conversationId, me, now)
  {
    FilterMembers(typing, TypingNow(conversationId, now));
    FilterMembers(Filter(typing, TypingNow(conversationId, now)), NotTypist(me));
  }

  /** Right after a user says they are typing, every other member's
      indicator at that instant shows them; right after they say they
      stopped, it no longer does, provided they had at most one row. */
  lemma SetTypingShows(t: Tables, identity: Option<string>, conversationId: ConversationId, isTyping: bool, now: int, viewer: UserId)
    requires Increasing(t.typingStatus)
    requires SetTypingStep(t, identity, conversationId, isTyping, now).result.Ok?
    requires viewer != AuthenticatedUser(t.users, identity).value.id
    requires |Filter(t.typingStatus, TypingOf(AuthenticatedUser(t.users, identity).value.id, conversationId))| <= 1
    ensures var me := AuthenticatedUser(t.users, identity).value.id;
            var u := SetTypingStep(t, identity, conversationId, isTyping, now).after;
            isTyping <==> exists s | s in TypingOthers(u.typingStatus, conversationId, viewer, now) :: s.val.userId == me
  {
    var me := AuthenticatedUser(t.users, identity).value.id;
    var u := SetTypingStep(t, identity, conversationId, isTyping, now).after;
    SetTypingUpserts(t, identity, conversationId, isTyping, now, me, conversationId);
    var mine := Filter(u.typingStatus, TypingOf(me, conversationId));
    assert |mine| == 1 && mine[0].val == TypingStatus(me, conversationId, isTyping, now);
    OnlyRow(u.typingStatus, TypingOf(me, conversationId));
    TypingOthersExactly(u.typingStatus, conversationId, viewer, now);
    if isTyping {
      assert mine[0] in TypingOthers(u.typingStatus, conversationId, viewer, now);
    }
  }
}
