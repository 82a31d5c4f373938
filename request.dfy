/** convex/request.ts: sending, denying, accepting and withdrawing friend
    requests. Accepting a request turns it into a friendship with its own
    two-member conversation. */
module RequestApi {
  import opened Schema
  import opened Docs
  import opened Db
  import opened Utils

  /** The users registered under an email address (index `by_email`). */
  function UsersWithEmail(users: Table<User>, email: string): Table<User>
  {
    Filter(users, HasEmail(email))
  }

  function HasEmail(email: string): Doc<User> -> bool
  {
    (u: Doc<User>) => u.val.email == email
  }

  /** The requests from `sender` to `receiver` (index `by_receiver_sender`). */
  function RequestsBetween(requests: Table<Request>, sender: UserId, receiver: UserId): Table<Request>
  {
    Filter(requests, Between(sender, receiver))
  }

  function Between(sender: UserId, receiver: UserId): Doc<Request> -> bool
  {
    (r: Doc<Request>) => r.val.receiver == receiver && r.val.sender == sender
  }

  /** The friendships a user holds as `user1` (index `by_user1`). */
  function FriendsAsUser1(friends: Table<Friend>, userId: UserId): Table<Friend>
  {
    Filter(friends, AsUser1(userId))
  }

  function AsUser1(userId: UserId): Doc<Friend> -> bool
  {
    (f: Doc<Friend>) => f.val.user1 == userId
  }

  /** The friendships a user holds as `user2` (index `by_user2`). */
  function FriendsAsUser2(friends: Table<Friend>, userId: UserId): Table<Friend>
  {
    Filter(friends, AsUser2(userId))
  }

  function AsUser2(userId: UserId): Doc<Friend> -> bool
  {
    (f: Doc<Friend>) => f.val.user2 == userId
  }

  /** The friendship test of `create`: scans both indexes of the user and
      looks for the other one on the far side. */
  predicate AlreadyFriends(friends: Table<Friend>, me: UserId, other: UserId)
  {
    || (exists f | f in FriendsAsUser1(friends, me) :: f.val.user2 == other)
    || (exists f | f in FriendsAsUser2(friends, me) :: f.val.user1 == other)
  }

  /** A friendship row links the two users, in either column order. */
  predicate Linked(friends: Table<Friend>, a: UserId, b: UserId)
  {
    exists f | f in friends :: (f.val.user1 == a && f.val.user2 == b) || (f.val.user1 == b && f.val.user2 == a)
  }

  /** The friendship test does not depend on which column holds whom. */
  lemma AlreadyFriendsIsLinked(friends: Table<Friend>, me: UserId, other: UserId)
    ensures AlreadyFriends(friends, me, other) <==> Linked(friends, me, other)
    ensures AlreadyFriends(friends, me, other) <==> AlreadyFriends(friends, other, me)
  {
    FilterMembers(friends, AsUser1(me));
    FilterMembers(friends, AsUser2(me));
    FilterMembers(friends, AsUser1(other));
    FilterMembers(friends, AsUser2(other));
    if Linked(friends, me, other) {
      var f :| f in friends && ((f.val.user1 == me && f.val.user2 == other) || (f.val.user1 == other && f.val.user2 == me));
      if f.val.user1 == me && f.val.user2 == other {
        assert f in FriendsAsUser1(friends, me) && f in FriendsAsUser2(friends, other);
      } else {
        assert f in FriendsAsUser2(friends, me) && f in FriendsAsUser1(friends, other);
      }
    }
  }

  /** The checks of `create`, in the order they run: the caller, the
      self-request, the receiver by email, a request already sent either
      way, an existing friendship. Gives the sender and the receiver. */
  function CreateCheck(t: Tables, identity: Option<string>, email: string): Result<(UserId, UserId)>
  {
    var me :- AuthenticatedUser(t.users, identity);
    if me.val.email == email then Err(ConvexError("Can't send a request to yourself"))
    else
      var receiver :- Unique(UsersWithEmail(t.users, email));
      if receiver.None? then Err(ConvexError("user not found"))
      else
        var sent :- Unique(RequestsBetween(t.requests, me.id, receiver.value.id));
        if sent.Some? then Err(ConvexError("Friend Request Already Sent"))
        else
          var received :- Unique(RequestsBetween(t.requests, receiver.value.id, me.id));
          if received.Some? then Err(ConvexError("This User already sent you a request"))
          else if AlreadyFriends(t.friends, me.id, receiver.value.id) then
            Err(ConvexError("You are already friend with this user"))
          else Ok((me.id, receiver.value.id))
  }

  /** `create`: a new request from the caller to the user with that email. */
  function CreateStep(t: Tables, identity: Option<string>, email: string): (s: Step<RequestId>)
    ensures s.result.Err? ==> s.after == t
    ensures s.after == t.(requests := s.after.requests, clock := s.after.clock)
    ensures t.clock <= s.after.clock
  {
    match CreateCheck(t, identity, email)
    case Err(e) => Step(Err(e), t)
    case Ok((sender, receiver)) =>
      Step(Ok(t.clock), t.(requests := t.requests + [Doc(t.clock, t.clock, Request(sender, receiver))],
                           clock := t.clock + 1))
  }

  /** A request is created exactly when the caller is known, the email is
      not the caller's, it names exactly one user, no request exists between
      the two in either direction and they are not friends; the new request
      goes from the caller to that user. */
  lemma CreateSpec(t: Tables, identity: Option<string>, email: string)
    ensures var s := CreateStep(t, identity, email);
            var me := AuthenticatedUser(t.users, identity);
            s.result.Ok? <==>
              && me.Ok? && me.value.val.email != email
              && |UsersWithEmail(t.users, email)| == 1
              && var receiver := UsersWithEmail(t.users, email)[0];
              && receiver.val.email == email && receiver in t.users
              && (forall r | r in t.requests :: !(r.val.sender == me.value.id && r.val.receiver == receiver.id))
              && (forall r | r in t.requests :: !(r.val.sender == receiver.id && r.val.receiver == me.value.id))
              && !Linked(t.friends, me.value.id, receiver.id)
    ensures var s := CreateStep(t, identity, email);
            s.result.Ok? ==>
              && s.result.value == t.clock
              && s.after == t.(requests := t.requests + [Doc(t.clock, t.clock, Request(AuthenticatedUser(t.users, identity).value.id,
                                                                                         UsersWithEmail(t.users, email)[0].id))],
                               clock := t.clock + 1)
    ensures var s := CreateStep(t, identity, email);
            s.result.Err? ==> s.after == t
  {
    var me := AuthenticatedUser(t.users, identity);
    if me.Ok? && me.value.val.email != email && |UsersWithEmail(t.users, email)| == 1 {
      var receiver := UsersWithEmail(t.users, email)[0];
      FilterMembers(t.users, HasEmail(email));
      assert receiver in UsersWithEmail(t.users, email);
      AlreadyFriendsIsLinked(t.friends, me.value.id, receiver.id);
      FilterMembers(t.requests, Between(me.value.id, receiver.id));
      FilterMembers(t.requests, Between(receiver.id, me.value.id));
      var sent := RequestsBetween(t.requests, me.value.id, receiver.id);
      var received := RequestsBetween(t.requests, receiver.id, me.value.id);
      if |sent| > 0 {
        assert sent[0] in sent;
      }
      if |received| > 0 {
        assert received[0] in received;
      }
    }
  }

  /** The self-request check compares emails, and the receiver is found by
      email, so nobody can send a request to themselves. */
  lemma CreateNeverSelf(t: Tables, identity: Option<string>, email: string)
    requires Increasing(t.users) && CreateCheck(t, identity, email).Ok?
    ensures CreateCheck(t, identity, email).value.0 != CreateCheck(t, identity, email).value.1
  {
    var me := AuthenticatedUser(t.users, identity).value;
    var receiver := UsersWithEmail(t.users, email)[0];
    assert receiver in UsersWithEmail(t.users, email);
    FilterMembers(t.users, HasEmail(email));
    if me.id == receiver.id {
      IdDetermines(t.users, me, receiver);
    }
  }

  method Create(db: Store, identity: Option<string>, email: string) returns (r: Result<RequestId>)
    modifies db
    ensures Step(r, db.Snapshot()) == CreateStep(old(db.Snapshot()), identity, email)
  {
    var currentUser :- AuthenticatedUser(db.users, identity);
    if currentUser.val.email == email {
      return Err(ConvexError("Can't send a request to yourself"));
    }
    var receiver :- Unique(UsersWithEmail(db.users, email));
    if receiver.None? {
      return Err(ConvexError("user not found"));
    }
    var requestAlreadySent :- Unique(RequestsBetween(db.requests, currentUser.id, receiver.value.id));
    if requestAlreadySent.Some? {
      return Err(ConvexError("Friend Request Already Sent"));
    }
    var requestAlreadyReceived :- Unique(RequestsBetween(db.requests, receiver.value.id, currentUser.id));
    if requestAlreadyReceived.Some? {
      return Err(ConvexError("This User already sent you a request"));
    }
    if AlreadyFriends(db.friends, currentUser.id, receiver.value.id) {
      return Err(ConvexError("You are already friend with this user"));
    }
    var request := db.NewId();
    db.requests := db.requests + [Doc(request, request, Request(currentUser.id, receiver.value.id))];
    r := Ok(request);
  }

  /** The pending-request invariant `create` keeps: nobody has a request to
      themselves, and between two users there is at most one request, in one
      direction only. */
  predicate Pending(requests: Table<Request>)
  {
    && (forall r | r in requests :: r.val.sender != r.val.receiver)
    && (forall r1, r2 | r1 in requests && r2 in requests && r1 != r2 :: r1.val != r2.val)
    && (forall r1, r2 | r1 in requests && r2 in requests ::
          !(r1.val.sender == r2.val.receiver && r1.val.receiver == r2.val.sender))
  }

  lemma CreateKeepsPending(t: Tables, identity: Option<string>, email: string)
    requires Pending(t.requests) && Increasing(t.users)
    ensures Pending(CreateStep(t, identity, email).after.requests)
  {
    var check := CreateCheck(t, identity, email);
    if check.Ok? {
      var (me, receiver) := check.value;
      CreateNeverSelf(t, identity, email);
      assert RequestsBetween(t.requests, me, receiver) == [];
      assert RequestsBetween(t.requests, receiver, me) == [];
      FilterMembers(t.requests, Between(me, receiver));
      FilterMembers(t.requests, Between(receiver, me));
      PendingSnoc(t.requests, Doc(t.clock, t.clock, Request(me, receiver)));
    }
  }

  /** A request between two other users, with no request between them in
      either direction, can be added without breaking the invariant. */
  lemma PendingSnoc(requests: Table<Request>, d: Doc<Request>)
    requires Pending(requests) && d.val.sender != d.val.receiver
    requires forall r | r in requests :: !(r.val.sender == d.val.sender && r.val.receiver == d.val.receiver)
    requires forall r | r in requests :: !(r.val.sender == d.val.receiver && r.val.receiver == d.val.sender)
    ensures Pending(requests + [d])
  {
  }

  /** Removing a request keeps the invariant. */
  lemma DeleteKeepsPending(requests: Table<Request>, id: RequestId)
    requires Pending(requests)
    ensures Pending(Delete(requests, id))
  {
    DeleteMembers(requests, id);
  }

  /** Sending the same request twice: the second is refused. */
  lemma CreateTwiceRefused(t: Tables, identity: Option<string>, email: string)
    requires CreateStep(t, identity, email).result.Ok?
    ensures CreateStep(CreateStep(t, identity, email).after, identity, email).result ==
              Err(ConvexError("Friend Request Already Sent"))
  {
    var s := CreateStep(t, identity, email);
    var (me, receiver) := CreateCheck(t, identity, email).value;
    var doc := Doc(t.clock, t.clock, Request(me, receiver));
    assert s.after.users == t.users;
    FilterAppend(t.requests, [doc], Between(me, receiver));
    assert RequestsBetween(s.after.requests, me, receiver) == RequestsBetween(t.requests, me, receiver) + [doc];
    assert RequestsBetween(t.requests, me, receiver) == [];
  }

  /** `deny`: the receiver of a request deletes it. */
  function DenyStep(t: Tables, identity: Option<string>, id: RequestId): (s: Step<()>)
    ensures s.result.Err? ==> s.after == t
    ensures s.after == t.(requests := s.after.requests)
  {
    match AuthenticatedUser(t.users, identity)
    case Err(e) => Step(Err(e), t)
    case Ok(me) =>
      var request := Get(t.requests, id);
      if request.None? || request.value.val.receiver != me.id then
        Step(Err(ConvexError("There was an error denying this request")), t)
      else Step(Ok(()), t.(requests := Delete(t.requests, id)))
  }

  /** Denying succeeds exactly for the request's receiver, and removes that
      request and nothing else. */
  lemma DenySpec(t: Tables, identity: Option<string>, id: RequestId)
    requires Increasing(t.requests)
    ensures var s := DenyStep(t, identity, id);
            var me := AuthenticatedUser(t.users, identity);
            && (s.result.Ok? <==> me.Ok? && exists r | r in t.requests :: r.id == id && r.val.receiver == me.value.id)
            && (s.result.Err? ==> s.after == t)
            && (s.result.Ok? ==>
                  && s.after == t.(requests := s.after.requests)
                  && (forall r | r in s.after.requests :: r in t.requests && r.id != id)
                  && (forall r | r in t.requests && r.id != id :: r in s.after.requests))
  {
    GetNone(t.requests, id);
    DeleteMembers(t.requests, id);
    var me := AuthenticatedUser(t.users, identity);
    if me.Ok? && exists r | r in t.requests :: r.id == id && r.val.receiver == me.value.id {
      var r :| r in t.requests && r.id == id && r.val.receiver == me.value.id;
      GetFinds(t.requests, r);
    }
  }

  method Deny(db: Store, identity: Option<string>, id: RequestId) returns (r: Result<()>)
    modifies db
    ensures Step(r, db.Snapshot()) == DenyStep(old(db.Snapshot()), identity, id)
  {
    var currentUser :- AuthenticatedUser(db.users, identity);
    var request := Get(db.requests, id);
    if request.None? || request.value.val.receiver != currentUser.id {
      return Err(ConvexError("There was an error denying this request"));
    }
    db.requests := Delete(db.requests, request.value.id);
    r := Ok(());
  }

  /** `accept`: the receiver of a request gets a direct conversation with
      its sender, a friendship row, two memberships, and the request goes. */
  function AcceptStep(t: Tables, identity: Option<string>, id: RequestId): (s: Step<()>)
    ensures s.result.Err? ==> s.after == t
    ensures s.after == t.(conversations := s.after.conversations, friends := s.after.friends, conversationMembers := s.after.conversationMembers, requests := s.after.requests, clock := s.after.clock)
    ensures t.clock <= s.after.clock
  {
    match AuthenticatedUser(t.users, identity)
    case Err(e) => Step(Err(e), t)
    case Ok(me) =>
      var request := Get(t.requests, id);
      if request.None? || request.value.val.receiver != me.id then
        Step(Err(ConvexError("There was an error Accepting this request")), t)
      else Step(Ok(()), Befriend(t, me.id, request.value))
  }

  /** The writes of a successful `accept`, in the order the handler makes
      them: conversation, friendship, the receiver's membership, the
      sender's membership, and the deletion of the request. */
  function Befriend(t: Tables, me: UserId, request: Doc<Request>): Tables
  {
    var c := t.clock;
    t.(conversations := t.conversations + [Doc(c, c, Conversation(None, false, None))],
       friends := t.friends + [Doc(c + 1, c + 1, Friend(me, request.val.sender, c))],
       conversationMembers := t.conversationMembers + [Doc(c + 2, c + 2, Member(me, c, None)),
                                                       Doc(c + 3, c + 3, Member(request.val.sender, c, None))],
       requests := Delete(t.requests, request.id),
       clock := c + 4)
  }

  /** Accepting succeeds exactly for the request's receiver. */
  lemma AcceptSpec(t: Tables, identity: Option<string>, id: RequestId)
    requires Increasing(t.requests)
    ensures var s := AcceptStep(t, identity, id);
            var me := AuthenticatedUser(t.users, identity);
            && (s.result.Ok? <==> me.Ok? && exists r | r in t.requests :: r.id == id && r.val.receiver == me.value.id)
            && (s.result.Err? ==> s.after == t)
            && (s.result.Ok? ==> s.after == Befriend(t, me.value.id, Get(t.requests, id).value))
  {
    GetNone(t.requests, id);
    var me := AuthenticatedUser(t.users, identity);
    if me.Ok? && exists r | r in t.requests :: r.id == id && r.val.receiver == me.value.id {
      var r :| r in t.requests && r.id == id && r.val.receiver == me.value.id;
      GetFinds(t.requests, r);
    }
  }

  /** After accepting, the two users are friends and the request is gone. */
  lemma AcceptLinks(t: Tables, me: UserId, request: Doc<Request>)
    ensures var u := Befriend(t, me, request);
            && Linked(u.friends, me, request.val.sender)
            && Linked(u.friends, request.val.sender, me)
            && (forall r | r in u.requests :: r in t.requests && r.id != request.id)
            && (forall r | r in t.requests && r.id != request.id :: r in u.requests)
  {
    var u := Befriend(t, me, request);
    DeleteMembers(t.requests, request.id);
    assert u.friends[|t.friends|] in u.friends;
  }

  /** The new conversation is a direct one without a name or a last message. */
  lemma AcceptOpensConversation(t: Tables, me: UserId, request: Doc<Request>)
    requires Wf(t.conversations, t.clock)
    ensures var c := t.clock;
            Get(Befriend(t, me, request).conversations, c) == Some(Doc(c, c, Conversation(None, false, None)))
  {
    WfIncreasing(t.conversations, t.clock);
    GetAppendFresh(t.conversations, Doc(t.clock, t.clock, Conversation(None, false, None)));
  }

  /** The new conversation has exactly the two users as members (given that
      existing memberships only name conversations allocated before). */
  lemma AcceptMembers(t: Tables, me: UserId, request: Doc<Request>)
    requires forall m | m in t.conversationMembers :: m.val.conversationId < t.clock
    ensures var c := t.clock;
            MembersOf(Befriend(t, me, request).conversationMembers, c) ==
              [Doc(c + 2, c + 2, Member(me, c, None)), Doc(c + 3, c + 3, Member(request.val.sender, c, None))]
  {
    var c := t.clock;
    var added := [Doc(c + 2, c + 2, Member(me, c, None)), Doc(c + 3, c + 3, Member(request.val.sender, c, None))];
    assert Befriend(t, me, request).conversationMembers == t.conversationMembers + added;
    FilterOne(t.conversationMembers, InConversation(c));
    FilterAppend(t.conversationMembers, added, InConversation(c));
    assert Filter(added[1..], InConversation(c)) == [added[1]];
  }

  method Accept(db: Store, identity: Option<string>, id: RequestId) returns (r: Result<()>)
    modifies db
    ensures Step(r, db.Snapshot()) == AcceptStep(old(db.Snapshot()), identity, id)
  {
    var currentUser :- AuthenticatedUser(db.users, identity);
    var request := Get(db.requests, id);
    if request.None? || request.value.val.receiver != currentUser.id {
      return Err(ConvexError("There was an error Accepting this request"));
    }
    BefriendInPlace(db, currentUser.id, request.value);
    r := Ok(());
  }

  /** The writes of `accept`, one insert at a time. */
  method BefriendInPlace(db: Store, me: UserId, request: Doc<Request>)
    modifies db
    ensures db.Snapshot() == Befriend(old(db.Snapshot()), me, request)
  {
    ghost var t := db.Snapshot();
    var conversationId := db.NewId();
    db.conversations := db.conversations + [Doc(conversationId, conversationId, Conversation(None, false, None))];
    var friendId := db.NewId();
    db.friends := db.friends + [Doc(friendId, friendId, Friend(me, request.val.sender, conversationId))];
    var myMembership := db.NewId();
    var mine := Doc(myMembership, myMembership, Member(me, conversationId, None));
    db.conversationMembers := db.conversationMembers + [mine];
    var senderMembership := db.NewId();
    var theirs := Doc(senderMembership, senderMembership, Member(request.val.sender, conversationId, None));
    db.conversationMembers := db.conversationMembers + [theirs];
    db.requests := Delete(db.requests, request.id);
    assert db.conversationMembers == t.conversationMembers + [mine, theirs];
  }

  /** `deleteSentRequest`: any signed-in user deletes the request with that
      id; a missing request fails reading the id of nothing. */
  function DeleteSentRequestStep(t: Tables, identity: Option<string>, id: RequestId): (s: Step<()>)
    ensures s.result.Err? ==> s.after == t
    ensures s.after == t.(requests := s.after.requests)
  {
    match AuthenticatedUser(t.users, identity)
    case Err(e) => Step(Err(e), t)
    case Ok(_) =>
      var request := Get(t.requests, id);
      if request.None? then Step(Err(NullAccess), t)
      else Step(Ok(()), t.(requests := Delete(t.requests, id)))
  }

  /** Withdrawing needs only a signed-in caller and an existing request: the
      caller need not be its sender. */
  lemma DeleteSentRequestSpec(t: Tables, identity: Option<string>, id: RequestId)
    ensures var s := DeleteSentRequestStep(t, identity, id);
            && (s.result.Ok? <==> AuthenticatedUser(t.users, identity).Ok? && exists r | r in t.requests :: r.id == id)
            && (AuthenticatedUser(t.users, identity).Ok? && (forall r | r in t.requests :: r.id != id) ==> s.result == Err(NullAccess))
            && (s.result.Err? ==> s.after == t)
            && (s.result.Ok? ==>
                  && s.after == t.(requests := s.after.requests)
                  && (forall r | r in s.after.requests :: r in t.requests && r.id != id)
                  && (forall r | r in t.requests && r.id != id :: r in s.after.requests))
  {
    GetNone(t.requests, id);
    DeleteMembers(t.requests, id);
  }

  method DeleteSentRequest(db: Store, identity: Option<string>, id: RequestId) returns (r: Result<()>)
    modifies db
    ensures Step(r, db.Snapshot()) == DeleteSentRequestStep(old(db.Snapshot()), identity, id)
  {
    var _ :- AuthenticatedUser(db.users, identity);
    var request := Get(db.requests, id);
    if request.None? {
      return Err(NullAccess);
    }
    db.requests := Delete(db.requests, request.value.id);
    r := Ok(());
  }

  /** Deleting requests keeps the pending-request invariant. */
  lemma RemovalsKeepPending(t: Tables, identity: Option<string>, id: RequestId)
    requires Pending(t.requests)
    ensures Pending(DenyStep(t, identity, id).after.requests)
    ensures Pending(AcceptStep(t, identity, id).after.requests)
    ensures Pending(DeleteSentRequestStep(t, identity, id).after.requests)
  {
    RemovalsDeleteOne(t, identity, id);
    DeleteKeepsPending(t.requests, id);
  }

  /** Deny, accept and withdraw touch the requests table only by deleting
      the request with that id. */
  lemma RemovalsDeleteOne(t: Tables, identity: Option<string>, id: RequestId)
    ensures DenyStep(t, identity, id).after.requests in {t.requests, Delete(t.requests, id)}
    ensures AcceptStep(t, identity, id).after.requests in {t.requests, Delete(t.requests, id)}
    ensures DeleteSentRequestStep(t, identity, id).after.requests in {t.requests, Delete(t.requests, id)}
  {
  }

  lemma CreateKeepsValid(t: Tables, identity: Option<string>, email: string)
    requires t.Valid()
    ensures CreateStep(t, identity, email).after.Valid()
  {
    var check := CreateCheck(t, identity, email);
    if check.Ok? {
      var request := Request(check.value.0, check.value.1);
      WfAppend(t.requests, t.clock, request);
      assert CreateStep(t, identity, email).after
          == t.(requests := t.requests + [Doc(t.clock, t.clock, request)], clock := t.clock + 1);
      ValidAfter(t, t.(requests := t.requests + [Doc(t.clock, t.clock, request)], clock := t.clock + 1));
    }
  }

  /** Deny and withdraw delete one request and keep the snapshot valid. */
  lemma RemovalsKeepValid(t: Tables, identity: Option<string>, id: RequestId)
    requires t.Valid()
    ensures DenyStep(t, identity, id).after.Valid()
    ensures DeleteSentRequestStep(t, identity, id).after.Valid()
  {
    WfWithoutIds(t.requests, t.clock, {id});
    ValidAfter(t, t.(requests := Delete(t.requests, id)));
  }

  lemma AcceptKeepsValid(t: Tables, me: UserId, request: Doc<Request>)
    requires t.Valid()
    ensures Befriend(t, me, request).Valid()
  {
    var c := t.clock;
    var conversation := Doc(c, c, Conversation(None, false, None));
    var friend := Doc(c + 1, c + 1, Friend(me, request.val.sender, c));
    var mine := Doc(c + 2, c + 2, Member(me, c, None));
    var theirs := Doc(c + 3, c + 3, Member(request.val.sender, c, None));
    WfAppend(t.conversations, c, conversation.val);
    WfGrow(t.conversations + [conversation], c + 1, c + 4);
    WfGrow(t.friends, c, c + 1);
    WfAppend(t.friends, c + 1, friend.val);
    WfGrow(t.friends + [friend], c + 2, c + 4);
    WfGrow(t.conversationMembers, c, c + 2);
    WfAppend(t.conversationMembers, c + 2, mine.val);
    WfAppend(t.conversationMembers + [mine], c + 3, theirs.val);
    assert t.conversationMembers + [mine, theirs] == t.conversationMembers + [mine] + [theirs];
    WfWithoutIds(t.requests, c, {request.id});
    WfGrow(Delete(t.requests, request.id), c, c + 4);
    ValidAfter(t, Befriend(t, me, request));
  }
}
