/** convex/online.ts: presence. A user marks themself online or offline,
    which also stamps the last-seen time; others list who is online and
    read one user's status. */
module OnlineApi {
  import opened Schema
  import opened Docs
  import opened Db
  import opened Utils

  /** `updateOnlineStatus`: patches the caller's presence fields and
      answers `success: true`. The last-seen time is `now` whichever way the
      flag goes. */
  function UpdateOnlineStep(t: Tables, identity: Option<string>, isOnline: bool, now: int): (s: Step<bool>)
    ensures s.result.Err? ==> s.after == t
    ensures s.after == t.(users := s.after.users)
  {
    match AuthenticatedUser(t.users, identity)
    case Err(e) => Step(Err(e), t)
    case Ok(me) => Step(Ok(true), t.(users := Patch(t.users, me.id, me.val.(isOnline := Some(isOnline), lastSeen := Some(now)))))
  }

  method UpdateOnlineStatus(db: Store, identity: Option<string>, isOnline: bool, now: int) returns (r: Result<bool>)
    modifies db
    ensures Step(r, db.Snapshot()) == UpdateOnlineStep(old(db.Snapshot()), identity, isOnline, now)
  {
    var currentUser :- AuthenticatedUser(db.users, identity);
    db.users := Patch(db.users, currentUser.id, currentUser.val.(isOnline := Some(isOnline), lastSeen := Some(now)));
    r := Ok(true);
  }

  /** What `getUserStatus` answers: the two presence fields as stored,
      either of which may be unset. */
  datatype Status = Status(isOnline: Option<bool>, lastSeen: Option<int>)

  /** `getUserStatus`: needs no session. */
  function UserStatus(t: Tables, userId: UserId): (r: Result<Status>)
    ensures r.Err? ==> r.error == ConvexError("User not found")
    ensures r.Ok? ==> exists u | u in t.users :: u.id == userId && r.value == Status(u.val.isOnline, u.val.lastSeen)
  {
    var user := Get(t.users, userId);
    if user.None? then Err(ConvexError("User not found"))
    else Ok(Status(user.value.val.isOnline, user.value.val.lastSeen))
  }

  function OnlineOther(me: UserId): Doc<User> -> bool
  {
    (u: Doc<User>) => u.val.isOnline == Some(true) && u.id != me
  }

  /** `getOnlineUsers`: every other user whose flag is set to true. */
  function OnlineUsers(t: Tables, identity: Option<string>): (r: Result<Table<User>>)
    ensures r.Ok? <==> AuthenticatedUser(t.users, identity).Ok?
    ensures r.Ok? ==> forall u | u in r.value ::
              u in t.users && u.val.isOnline == Some(true) && u.id != AuthenticatedUser(t.users, identity).value.id
  {
    var me :- AuthenticatedUser(t.users, identity);
    FilterMembers(t.users, OnlineOther(me.id));
    Ok(Filter(t.users, OnlineOther(me.id)))
  }

  /** A status read finds the user with that id or fails with "User not
      found", and reports that user's stored fields. */
  lemma UserStatusSpec(t: Tables, userId: UserId)
    requires Increasing(t.users)
    ensures UserStatus(t, userId).Err? <==> forall u | u in t.users :: u.id != userId
    ensures UserStatus(t, userId).Err? ==> UserStatus(t, userId).error == ConvexError("User not found")
    ensures forall u | u in t.users && u.id == userId :: UserStatus(t, userId) == Ok(Status(u.val.isOnline, u.val.lastSeen))
  {
    GetNone(t.users, userId);
    forall u | u in t.users && u.id == userId ensures Get(t.users, userId) == Some(u) {
      GetFinds(t.users, u);
    }
  }

  /** The list holds exactly the other users whose flag is true: a user
      whose flag was never set is not listed. */
  lemma OnlineUsersExactly(t: Tables, identity: Option<string>)
    requires OnlineUsers(t, identity).Ok?
    ensures var me := AuthenticatedUser(t.users, identity).value.id;
            forall u :: u in OnlineUsers(t, identity).value <==> u in t.users && u.val.isOnline == Some(true) && u.id != me
  {
    FilterMembers(t.users, OnlineOther(AuthenticatedUser(t.users, identity).value.id));
  }

  /** An update succeeds exactly for a signed-in caller; it then changes
      only the caller's row, whose status now reads back as the flag and
      `now`, every other user's row reads back as before, and a refusal
      writes nothing. */
  lemma UpdateOnlineSpec(t: Tables, identity: Option<string>, isOnline: bool, now: int)
    requires Increasing(t.users)
    ensures var s := UpdateOnlineStep(t, identity, isOnline, now);
            && (s.result.Ok? <==> AuthenticatedUser(t.users, identity).Ok?)
            && (s.result.Err? ==> s.after == t)
            && (s.result.Ok? ==>
                  var me := AuthenticatedUser(t.users, identity).value;
                  && s.after.(users := t.users) == t
                  && UserStatus(s.after, me.id) == Ok(Status(Some(isOnline), Some(now)))
                  && (forall id | id != me.id :: UserStatus(s.after, id) == UserStatus(t, id))
                  && (forall id | id != me.id :: Get(s.after.users, id) == Get(t.users, id))
                  && Get(s.after.users, me.id) == Some(me.(val := me.val.(isOnline := Some(isOnline), lastSeen := Some(now)))))
  {
    var s := UpdateOnlineStep(t, identity, isOnline, now);
    if s.result.Ok? {
      var me := AuthenticatedUser(t.users, identity).value;
      var v := me.val.(isOnline := Some(isOnline), lastSeen := Some(now));
      GetFinds(t.users, me);
      GetPatch(t.users, me.id, v, me.id);
      forall id | id != me.id ensures Get(s.after.users, id) == Get(t.users, id) {
        GetPatch(t.users, me.id, v, id);
      }
    }
  }

  /** After a successful update, any other signed-in user sees the caller
      in the online list exactly when the flag was true. */
  lemma UpdateShowsInList(t: Tables, identity: Option<string>, isOnline: bool, now: int, viewer: Option<string>)
    requires Increasing(t.users)
    requires UpdateOnlineStep(t, identity, isOnline, now).result.Ok?
    requires OnlineUsers(UpdateOnlineStep(t, identity, isOnline, now).after, viewer).Ok?
    requires AuthenticatedUser(UpdateOnlineStep(t, identity, isOnline, now).after.users, viewer).value.id !=
             AuthenticatedUser(t.users, identity).value.id
    ensures var me := AuthenticatedUser(t.users, identity).value.id;
            (exists u | u in OnlineUsers(UpdateOnlineStep(t, identity, isOnline, now).after, viewer).value :: u.id == me) <==> isOnline
  {
    var u := UpdateOnlineStep(t, identity, isOnline, now).after;
    var me := AuthenticatedUser(t.users, identity).value;
    UpdateOnlineSpec(t, identity, isOnline, now);
    OnlineUsersExactly(u, viewer);
    var mine := Get(u.users, me.id).value;
    assert mine in u.users && mine.id == me.id;
    assert Increasing(u.users);
    forall d | d in u.users && d.id == me.id ensures d == mine {
      IdDetermines(u.users, d, mine);
    }
  }

  lemma UpdateOnlineKeepsValid(t: Tables, identity: Option<string>, isOnline: bool, now: int)
    requires t.Valid()
    ensures UpdateOnlineStep(t, identity, isOnline, now).after.Valid()
  {
    var me := AuthenticatedUser(t.users, identity);
    if me.Ok? {
      WfPatch(t.users, t.clock, me.value.id, me.value.val.(isOnline := Some(isOnline), lastSeen := Some(now)));
      ValidAfter(t, UpdateOnlineStep(t, identity, isOnline, now).after);
    }
  }
}
