/** convex/migrations/updateOnlineStatus.ts: a one-off pass that gives
    every user created before presence existed an explicit offline status
    and a last-seen time. */
module Migrations {
  import opened Schema
  import opened Docs
  import opened Db

  /** A user the migration touches: either presence field is unset. */
  predicate NeedsBackfill(u: User)
  {
    u.isOnline.None? || u.lastSeen.None?
  }

  /** One user after the migration: a user with a missing field is set
      offline, seen at `now` (even one whose flag was already set); a
      complete user is left as it is. */
  function Backfilled(d: Doc<User>, now: int): (r: Doc<User>)
    ensures r.val.isOnline.Some? && r.val.lastSeen.Some?
    ensures NeedsBackfill(d.val) ==> r.val.isOnline == Some(false) && r.val.lastSeen == Some(now)
    ensures r.id == d.id && r.creationTime == d.creationTime
    ensures r.val.(isOnline := d.val.isOnline, lastSeen := d.val.lastSeen) == d.val
    ensures !NeedsBackfill(d.val) <==> r == d
  {
    if NeedsBackfill(d.val) then d.(val := d.val.(isOnline := Some(false), lastSeen := Some(now))) else d
  }

  /** The users table after the migration. */
  function BackfillAll(users: Table<User>, now: int): (r: Table<User>)
    ensures |r| == |users|
    ensures forall i | 0 <= i < |users| :: r[i] == Backfilled(users[i], now)
  {
    seq(|users|, i requires 0 <= i < |users| => Backfilled(users[i], now))
  }

  /** `updateExistingUsers`: walks the users read at the start and patches
      each incomplete one by id. One `now` serves the whole run. */
  method UpdateExistingUsers(db: Store, now: int)
    requires Increasing(db.users)
    modifies db`users
    ensures db.users == BackfillAll(old(db.users), now)
  {
    var users := db.users;
    for i := 0 to |users|
      invariant |db.users| == |users|
      invariant forall j | 0 <= j < |users| :: db.users[j] == if j < i then Backfilled(users[j], now) else users[j]
    {
      var user := users[i];
      if user.val.isOnline.None? || user.val.lastSeen.None? {
        assert Increasing(db.users) by {
          forall j, k | 0 <= j < k < |users| ensures db.users[j].id < db.users[k].id && db.users[j].creationTime < db.users[k].creationTime {
          }
        }
        PatchAt(db.users, i, user.val.(isOnline := Some(false), lastSeen := Some(now)));
        db.users := Patch(db.users, user.id, user.val.(isOnline := Some(false), lastSeen := Some(now)));
      }
    }
  }

  /** After the migration no user has an unset presence field. */
  lemma BackfillComplete(users: Table<User>, now: int)
    ensures forall d | d in BackfillAll(users, now) :: !NeedsBackfill(d.val)
  {
    var r := BackfillAll(users, now);
    forall d | d in r ensures !NeedsBackfill(d.val) {
      var i :| 0 <= i < |r| && r[i] == d;
    }
  }

  /** Running the migration again, at any time, changes nothing. */
  lemma BackfillIdempotent(users: Table<User>, now: int, later: int)
    ensures BackfillAll(BackfillAll(users, now), later) == BackfillAll(users, now)
  {
    var once := BackfillAll(users, now);
    forall i | 0 <= i < |once| ensures Backfilled(once[i], later) == once[i] {
      assert !NeedsBackfill(once[i].val);
    }
  }

  lemma BackfillKeepsValid(t: Tables, now: int)
    requires t.Valid()
    ensures t.(users := BackfillAll(t.users, now)).Valid()
  {
    var r := BackfillAll(t.users, now);
    WfOrdered(t.users, t.clock);
    WfOrdered(r, t.clock);
    assert Ordered(r, t.clock) by {
      assert forall i | 0 <= i < |r| :: r[i].id == t.users[i].id && r[i].creationTime == t.users[i].creationTime;
    }
    ValidAfter(t, t.(users := r));
  }
}
