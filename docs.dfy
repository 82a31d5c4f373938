/** The document-store primitives every handler is built from: index scans
    (`Filter`), `db.get` (`Get`), `.first()` and `.unique()`, `db.patch`
    (`Patch`) and `db.delete` (`WithoutIds`), together with the table
    invariant the store keeps (`Wf`: ids and creation times are below the
    counter and strictly increase along the table). */
module Docs {
  import opened Schema

  /** The elements of `s` that satisfy `p`, in the order of `s`. */
  function Filter<T>(s: seq<T>, p: T -> bool): (r: seq<T>)
    ensures |r| <= |s|
  {
    if |s| == 0 then []
    else if p(s[0]) then [s[0]] + Filter(s[1..], p)
    else Filter(s[1..], p)
  }

  /** A scan keeps exactly the elements that satisfy its predicate. */
  lemma {:induction false} FilterMembers<T>(s: seq<T>, p: T -> bool)
    ensures forall x | x in Filter(s, p) :: x in s && p(x)
    ensures forall x | x in s && p(x) :: x in Filter(s, p)
  {
    if |s| > 0 {
      FilterMembers(s[1..], p);
      forall x | x in s && p(x) ensures x in Filter(s, p) {
        if x != s[0] {
          assert x in s[1..];
        }
      }
    }
  }

  lemma {:induction false} FilterAppend<T>(a: seq<T>, b: seq<T>, p: T -> bool)
    ensures Filter(a + b, p) == Filter(a, p) + Filter(b, p)
  {
    if |a| == 0 {
      assert a + b == b;
    } else {
      assert (a + b)[1..] == a[1..] + b;
      FilterAppend(a[1..], b, p);
    }
  }

  /** Some position of `s` satisfies `p`. */
  predicate OneMatch<T>(s: seq<T>, p: T -> bool) {
    exists i | 0 <= i < |s| :: p(s[i])
  }

  /** Two positions of `s` satisfy `p`. */
  predicate TwoMatch<T>(s: seq<T>, p: T -> bool) {
    exists i, j | 0 <= i < j < |s| :: p(s[i]) && p(s[j])
  }

  /** A scan finds something exactly when some element matches. */
  lemma {:induction false} FilterOne<T>(s: seq<T>, p: T -> bool)
    ensures |Filter(s, p)| >= 1 <==> OneMatch(s, p)
  {
    if |s| > 0 {
      FilterOne(s[1..], p);
      if !p(s[0]) && OneMatch(s, p) {
        var i :| 0 <= i < |s| && p(s[i]);
        assert p(s[1..][i - 1]);
      }
      if OneMatch(s[1..], p) {
        var i :| 0 <= i < |s[1..]| && p(s[1..][i]);
        assert p(s[i + 1]);
      }
    }
  }

  /** `.unique()` throws exactly when at least two documents match. */
  lemma {:induction false} FilterTwo<T>(s: seq<T>, p: T -> bool)
    ensures |Filter(s, p)| >= 2 <==> TwoMatch(s, p)
  {
    if |s| > 0 {
      var rest := s[1..];
      if p(s[0]) {
        FilterOne(rest, p);
        if OneMatch(rest, p) {
          var j :| 0 <= j < |rest| && p(rest[j]);
          assert p(s[0]) && p(s[j + 1]);
        }
        if TwoMatch(s, p) {
          var i, j :| 0 <= i < j < |s| && p(s[i]) && p(s[j]);
          assert p(rest[j - 1]);
        }
      } else {
        FilterTwo(rest, p);
        if TwoMatch(s, p) {
          var i, j :| 0 <= i < j < |s| && p(s[i]) && p(s[j]);
          assert p(rest[i - 1]) && p(rest[j - 1]);
        }
        if TwoMatch(rest, p) {
          var i, j :| 0 <= i < j < |rest| && p(rest[i]) && p(rest[j]);
          assert p(s[i + 1]) && p(s[j + 1]);
        }
      }
    }
  }

  /** `.first()`: the first document of a scan, if any. */
  function First<T>(s: seq<T>): (r: Option<T>)
    ensures r.None? <==> |s| == 0
    ensures r.Some? ==> r.value in s
  {
    if |s| == 0 then None else Some(s[0])
  }

  /** `.unique()`: no document, the only one, or a failure when several match. */
  function Unique<T>(s: seq<T>): (r: Result<Option<T>>)
    ensures r == Ok(None) <==> |s| == 0
    ensures r.Ok? && r.value.Some? <==> |s| == 1
    ensures r.Ok? && r.value.Some? ==> forall x | x in s :: x == r.value.value
    ensures r.Err? <==> |s| >= 2
    ensures r.Err? ==> r.error == NotUnique
  {
    if |s| == 0 then Ok(None) else if |s| == 1 then Ok(Some(s[0])) else Err(NotUnique)
  }

  /** `db.get(id)`: the document with that id, if there is one. */
  function Get<T>(t: Table<T>, id: Id): (r: Option<Doc<T>>)
    ensures r.Some? ==> r.value in t && r.value.id == id
  {
    if |t| == 0 then None
    else if t[0].id == id then Some(t[0])
    else Get(t[1..], id)
  }

  /** `db.get` finds nothing exactly when no document has that id. */
  lemma {:induction false} GetNone<T>(t: Table<T>, id: Id)
    ensures Get(t, id).None? <==> forall d | d in t :: d.id != id
  {
    if |t| > 0 {
      GetNone(t[1..], id);
      assert forall d | d in t :: d == t[0] || d in t[1..];
    }
  }

  /** In an increasing table, `db.get` finds every document by its id. */
  lemma GetFinds<T>(t: Table<T>, d: Doc<T>)
    requires Increasing(t) && d in t
    ensures Get(t, d.id) == Some(d)
  {
    GetNone(t, d.id);
    IdDetermines(t, d, Get(t, d.id).value);
  }

  /** Reading back a document appended under a fresh id. */
  lemma {:induction false} GetAppendFresh<T>(t: Table<T>, d: Doc<T>)
    requires forall e | e in t :: e.id != d.id
    ensures Get(t + [d], d.id) == Some(d)
  {
    if |t| > 0 {
      assert (t + [d])[1..] == t[1..] + [d];
      GetAppendFresh(t[1..], d);
    }
  }

  function IdsOf<T(==)>(s: seq<Doc<T>>): (ids: set<Id>)
  {
    set d | d in s :: d.id
  }

  lemma IdsOfSnoc<T>(s: seq<Doc<T>>, d: Doc<T>)
    ensures IdsOf(s + [d]) == IdsOf(s) + {d.id}
  {
    assert forall e :: e in s + [d] <==> e in s || e == d;
  }

  /** `db.delete` of every id in `ids`. */
  function WithoutIds<T>(t: Table<T>, ids: set<Id>): (r: Table<T>)
    ensures |r| <= |t|
  {
    if |t| == 0 then []
    else if t[0].id in ids then WithoutIds(t[1..], ids)
    else [t[0]] + WithoutIds(t[1..], ids)
  }

  /** Deleting keeps exactly the documents whose ids were not deleted. */
  lemma {:induction false} WithoutIdsMembers<T>(t: Table<T>, ids: set<Id>)
    ensures forall d | d in WithoutIds(t, ids) :: d in t && d.id !in ids
    ensures forall d | d in t && d.id !in ids :: d in WithoutIds(t, ids)
  {
    if |t| > 0 {
      WithoutIdsMembers(t[1..], ids);
      assert forall d :: d in t <==> d == t[0] || d in t[1..];
    }
  }

  /** Removing no ids changes nothing. */
  lemma {:induction false} WithoutNoIds<T>(t: Table<T>)
    ensures WithoutIds(t, {}) == t
  {
    if |t| > 0 {
      WithoutNoIds(t[1..]);
      assert [t[0]] + t[1..] == t;
    }
  }

  /** `db.delete(id)`. */
  function Delete<T>(t: Table<T>, id: Id): (r: Table<T>)
  {
    WithoutIds(t, {id})
  }

  lemma DeleteMembers<T>(t: Table<T>, id: Id)
    ensures forall d | d in Delete(t, id) :: d in t && d.id != id
    ensures forall d | d in t && d.id != id :: d in Delete(t, id)
  {
    WithoutIdsMembers(t, {id});
  }

  lemma {:induction false} WithoutIdsUnion<T>(t: Table<T>, a: set<Id>, b: set<Id>)
    ensures WithoutIds(WithoutIds(t, a), b) == WithoutIds(t, a + b)
  {
    if |t| > 0 {
      WithoutIdsUnion(t[1..], a, b);
      if t[0].id !in a {
        assert WithoutIds(t, a) == [t[0]] + WithoutIds(t[1..], a);
        assert ([t[0]] + WithoutIds(t[1..], a))[1..] == WithoutIds(t[1..], a);
      }
    }
  }

  /** `db.patch(id, v)`: the document with that id gets the fields `v`. */
  function Patch<T>(t: Table<T>, id: Id, v: T): (r: Table<T>)
    ensures |r| == |t|
    ensures forall i | 0 <= i < |t| :: r[i].id == t[i].id && r[i].creationTime == t[i].creationTime
    ensures forall i | 0 <= i < |t| :: r[i].val == if t[i].id == id then v else t[i].val
  {
    seq(|t|, i requires 0 <= i < |t| => if t[i].id == id then t[i].(val := v) else t[i])
  }

  /** Ids and creation times strictly increase along the table. */
  predicate Increasing<T>(t: Table<T>) {
    forall i, j | 0 <= i < j < |t| :: t[i].id < t[j].id && t[i].creationTime < t[j].creationTime
  }

  /** The table invariant: every document was allocated before `clock`, was
      created at the instant its id was allocated, and the table lists the
      documents in allocation order. Stated from the last document back, so
      that a proof unfolds it one document at a time. */
  predicate Wf<T>(t: Table<T>, clock: nat) {
    if |t| == 0 then true
    else
      var last := t[|t| - 1];
      last.id < clock && last.creationTime == last.id && Wf(t[..|t| - 1], last.id)
  }

  /** `Wf` as one statement about every position. */
  predicate Ordered<T>(t: Table<T>, clock: nat) {
    && (forall i | 0 <= i < |t| :: t[i].id < clock && t[i].creationTime == t[i].id)
    && Increasing(t)
  }

  lemma {:induction false} WfOrdered<T>(t: Table<T>, clock: nat)
    ensures Wf(t, clock) <==> Ordered(t, clock)
  {
    if |t| > 0 {
      var k := |t| - 1;
      WfOrdered(t[..k], t[k].id);
      if Ordered(t, clock) {
        assert Ordered(t[..k], t[k].id);
      }
    }
  }

  lemma WfGrow<T>(t: Table<T>, clock: nat, clock': nat)
    requires Wf(t, clock) && clock <= clock'
    ensures Wf(t, clock')
  {
  }

  lemma WfAppend<T>(t: Table<T>, clock: nat, v: T)
    requires Wf(t, clock)
    ensures Wf(t + [Doc(clock, clock, v)], clock + 1)
  {
    assert (t + [Doc(clock, clock, v)])[..|t|] == t;
    WfGrow(t, clock, clock);
  }

  lemma WfPatch<T>(t: Table<T>, clock: nat, id: Id, v: T)
    requires Wf(t, clock)
    ensures Wf(Patch(t, id, v), clock)
  {
    WfOrdered(t, clock);
    WfOrdered(Patch(t, id, v), clock);
  }

  lemma {:induction false} IncreasingWithoutIds<T>(t: Table<T>, ids: set<Id>)
    requires Increasing(t)
    ensures Increasing(WithoutIds(t, ids))
  {
    if |t| > 0 {
      IncreasingWithoutIds(t[1..], ids);
      WithoutIdsMembers(t[1..], ids);
      var rest := WithoutIds(t[1..], ids);
      forall d | d in rest ensures t[0].id < d.id && t[0].creationTime < d.creationTime {
        assert d in t[1..];
        var k :| 0 <= k < |t[1..]| && t[1..][k] == d;
        assert t[k + 1] == d;
      }
    }
  }

  lemma WfWithoutIds<T>(t: Table<T>, clock: nat, ids: set<Id>)
    requires Wf(t, clock)
    ensures Wf(WithoutIds(t, ids), clock)
  {
    var r := WithoutIds(t, ids);
    WfOrdered(t, clock);
    IncreasingWithoutIds(t, ids);
    WithoutIdsMembers(t, ids);
    forall i | 0 <= i < |r| ensures r[i].id < clock && r[i].creationTime == r[i].id {
      assert r[i] in t;
    }
    WfOrdered(r, clock);
  }

  /** A well-formed table is increasing. */
  lemma WfIncreasing<T>(t: Table<T>, clock: nat)
    requires Wf(t, clock)
    ensures Increasing(t)
    ensures forall d | d in t :: d.id < clock
  {
    WfOrdered(t, clock);
  }

  lemma {:induction false} IncreasingFilter<T>(t: Table<T>, p: Doc<T> -> bool)
    requires Increasing(t)
    ensures Increasing(Filter(t, p))
  {
    if |t| > 0 {
      IncreasingFilter(t[1..], p);
      FilterMembers(t[1..], p);
      var rest := Filter(t[1..], p);
      forall d | d in rest ensures t[0].id < d.id && t[0].creationTime < d.creationTime {
        var k :| 0 <= k < |t[1..]| && t[1..][k] == d;
        assert t[k + 1] == d;
      }
    }
  }

  /** In an increasing table a document is determined by its id. */
  lemma IdDetermines<T>(t: Table<T>, d: Doc<T>, e: Doc<T>)
    requires Increasing(t) && d in t && e in t && d.id == e.id
    ensures d == e
  {
    var i :| 0 <= i < |t| && t[i] == d;
    var j :| 0 <= j < |t| && t[j] == e;
    assert i == j;
  }

  /** Deleting, one id at a time, every document a scan found deletes
      exactly the documents the scan selects. */
  lemma WithoutScanned<T>(t: Table<T>, p: Doc<T> -> bool)
    requires Increasing(t)
    ensures forall d :: d in WithoutIds(t, IdsOf(Filter(t, p))) <==> d in t && !p(d)
  {
    FilterMembers(t, p);
    WithoutIdsMembers(t, IdsOf(Filter(t, p)));
    forall d | d in t && !p(d) ensures d.id !in IdsOf(Filter(t, p)) {
      if d.id in IdsOf(Filter(t, p)) {
        var e :| e in Filter(t, p) && e.id == d.id;
        IdDetermines(t, d, e);
      }
    }
  }

  /** In an increasing table, patching by the id at position `i` changes
      that position only. */
  lemma PatchAt<T>(t: Table<T>, i: nat, v: T)
    requires Increasing(t) && i < |t|
    ensures Patch(t, t[i].id, v) == t[i := t[i].(val := v)]
  {
  }

  /** Reading a document back after a patch sees the patched fields. */
  lemma {:induction false} GetPatch<T>(t: Table<T>, id: Id, v: T, key: Id)
    ensures Get(Patch(t, id, v), key) ==
              if key == id && Get(t, key).Some? then Some(Get(t, key).value.(val := v))
              else Get(t, key)
  {
    if |t| > 0 {
      assert Patch(t, id, v)[1..] == Patch(t[1..], id, v);
      GetPatch(t[1..], id, v, key);
    }
  }

  /** Patching a document the scan selects before and after the patch
      commutes with the scan. */
  lemma {:induction false} FilterPatch<T>(t: Table<T>, id: Id, v: T, p: Doc<T> -> bool)
    requires forall d | d in t && d.id == id :: p(d.(val := v)) == p(d)
    ensures Filter(Patch(t, id, v), p) == Patch(Filter(t, p), id, v)
  {
    if |t| > 0 {
      assert Patch(t, id, v)[1..] == Patch(t[1..], id, v);
      FilterPatch(t[1..], id, v, p);
      if p(t[0]) {
        assert Patch([t[0]] + Filter(t[1..], p), id, v) == Patch([t[0]], id, v) + Patch(Filter(t[1..], p), id, v);
      }
    }
  }

  /** A patch of an id the table does not hold changes nothing. */
  lemma PatchAbsent<T>(t: Table<T>, id: Id, v: T)
    requires forall d | d in t :: d.id != id
    ensures Patch(t, id, v) == t
  {
    assert forall i | 0 <= i < |t| :: t[i] in t;
  }

  /** The first document a scan finds is the first of the table that
      matches. */
  lemma {:induction false} FilterHead<T>(s: seq<T>, p: T -> bool)
    requires |Filter(s, p)| > 0
    ensures exists k | 0 <= k < |s| :: s[k] == Filter(s, p)[0] && p(s[k]) && forall j | 0 <= j < k :: !p(s[j])
  {
    if !p(s[0]) {
      FilterHead(s[1..], p);
      var k :| 0 <= k < |s[1..]| && s[1..][k] == Filter(s[1..], p)[0] && p(s[1..][k]) && forall j | 0 <= j < k :: !p(s[1..][j]);
      assert s[k + 1] == Filter(s, p)[0];
      forall j | 0 <= j < k + 1 ensures !p(s[j]) {
        if j > 0 {
          assert s[j] == s[1..][j - 1];
        }
      }
    }
  }
}
