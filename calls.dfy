/** convex/calls.ts: the call session state machine. A call starts
    `Ringing`; answering makes it `Active`; rejecting or cancelling ends a
    ringing call; ending stamps the duration. `Missed` is a status of the
    schema that no handler sets. */
module CallsApi {
  import opened Schema
  import opened Docs
  import opened Db
  import opened Strings

  /** `call_<conversationId>_<now>`: the media room a new call gets. */
  function RoomId(conversationId: ConversationId, now: int): string
  {
    "call_" + NatToString(conversationId) + "_" + IntToString(now)
  }

  /** The conversation's calls whose status is `active` (index
      `by_conversation_status`). */
  function ActiveCallsIn(calls: Table<Call>, conversationId: ConversationId): Table<Call>
  {
    Filter(calls, ActiveIn(conversationId))
  }

  function ActiveIn(conversationId: ConversationId): Doc<Call> -> bool
  {
    (c: Doc<Call>) => c.val.conversationId == conversationId && c.val.status == Active
  }

  /** A user's participant rows for one call (index `by_call_user`). */
  function ParticipationIn(participants: Table<CallParticipant>, callId: CallId, userId: UserId): Table<CallParticipant>
  {
    Filter(participants, InCall(callId, userId))
  }

  function InCall(callId: CallId, userId: UserId): Doc<CallParticipant> -> bool
  {
    (p: Doc<CallParticipant>) => p.val.callId == callId && p.val.userId == userId
  }

  /** A user's participant rows, in creation order (index `by_user`). */
  function Participations(participants: Table<CallParticipant>, userId: UserId): Table<CallParticipant>
  {
    Filter(participants, ParticipantIs(userId))
  }

  function ParticipantIs(userId: UserId): Doc<CallParticipant> -> bool
  {
    (p: Doc<CallParticipant>) => p.val.userId == userId
  }

  /** The row `initiateCall` inserts for one member of the conversation. */
  function ParticipantFor(m: Doc<Member>, callId: CallId, initiatorId: UserId): CallParticipant
  {
    CallParticipant(callId, m.val.memberId, None, None,
                    if m.val.memberId == initiatorId then Initiator else Participant)
  }

  /** The rows the loop of `initiateCall` inserts, one per member, with the
      ids `start`, `start + 1`, ... */
  function ParticipantDocs(members: Table<Member>, callId: CallId, initiatorId: UserId, start: nat): Table<CallParticipant>
  {
    if |members| == 0 then []
    else
      var k := |members| - 1;
      ParticipantDocs(members[..k], callId, initiatorId, start)
        + [Doc(start + k, start + k, ParticipantFor(members[k], callId, initiatorId))]
  }

  /** The roster: one row per member, in member order, each for this call,
      not yet joined or left, and tagged initiator exactly when the member is
      the initiator. */
  lemma {:induction false} Roster(members: Table<Member>, callId: CallId, initiatorId: UserId, start: nat)
    ensures |ParticipantDocs(members, callId, initiatorId, start)| == |members|
    ensures forall k | 0 <= k < |members| ::
              var p := ParticipantDocs(members, callId, initiatorId, start)[k];
              && p.id == start + k && p.creationTime == start + k
              && p.val.callId == callId
              && p.val.userId == members[k].val.memberId
              && p.val.joinedAt.None? && p.val.leftAt.None?
              && (p.val.role == Initiator <==> members[k].val.memberId == initiatorId)
  {
    if |members| > 0 {
      var k := |members| - 1;
      Roster(members[..k], callId, initiatorId, start);
    }
  }

  lemma {:induction false} WfParticipantDocs(base: Table<CallParticipant>, members: Table<Member>,
                                             callId: CallId, initiatorId: UserId, start: nat)
    requires Wf(base, start)
    ensures Wf(base + ParticipantDocs(members, callId, initiatorId, start), start + |members|)
  {
    if |members| == 0 {
      assert base + ParticipantDocs(members, callId, initiatorId, start) == base;
    } else {
      var k := |members| - 1;
      var prefix := base + ParticipantDocs(members[..k], callId, initiatorId, start);
      WfParticipantDocs(base, members[..k], callId, initiatorId, start);
      WfAppend(prefix, start + k, ParticipantFor(members[k], callId, initiatorId));
      assert base + ParticipantDocs(members, callId, initiatorId, start)
          == prefix + [Doc(start + k, start + k, ParticipantFor(members[k], callId, initiatorId))];
    }
  }

  /** `initiateCall`: refuses when the conversation already has an `active`
      call; otherwise inserts a ringing call and one participant row per
      member. Returns the call id and the room id. */
  function InitiateCallStep(t: Tables, conversationId: ConversationId, initiatorId: UserId,
                            kind: CallKind, now: int): (s: Step<(CallId, string)>)
    ensures s.result.Err? ==> s.after == t
    ensures s.after == t.(calls := s.after.calls, callParticipants := s.after.callParticipants, clock := s.after.clock)
    ensures t.clock <= s.after.clock
  {
    if First(ActiveCallsIn(t.calls, conversationId)).Some? then
      Step(Err(PlainError("There's already an active call in this conversation")), t)
    else
      Step(Ok((t.clock, RoomId(conversationId, now))), StartCall(t, conversationId, initiatorId, kind, now))
  }

  /** The writes of `initiateCall`: the ringing call, then one participant
      row per member of the conversation. */
  function StartCall(t: Tables, conversationId: ConversationId, initiatorId: UserId, kind: CallKind, now: int): Tables
  {
    var callId := t.clock;
    var call := Call(conversationId, initiatorId, Ringing, kind, RoomId(conversationId, now), now, None, None, None);
    var members := MembersOf(t.conversationMembers, conversationId);
    t.(calls := t.calls + [Doc(callId, callId, call)],
       callParticipants := t.callParticipants + ParticipantDocs(members, callId, initiatorId, callId + 1),
       clock := callId + 1 + |members|)
  }

  /** Only an `active` call blocks a new one; a ringing call does not. */
  lemma InitiateCallGuard(t: Tables, conversationId: ConversationId, initiatorId: UserId, kind: CallKind, now: int)
    ensures InitiateCallStep(t, conversationId, initiatorId, kind, now).result.Err? <==>
              exists c | c in t.calls :: c.val.conversationId == conversationId && c.val.status == Active
    ensures InitiateCallStep(t, conversationId, initiatorId, kind, now).result.Err? ==>
              InitiateCallStep(t, conversationId, initiatorId, kind, now).after == t
  {
    var active := ActiveCallsIn(t.calls, conversationId);
    FilterMembers(t.calls, ActiveIn(conversationId));
    if exists c | c in t.calls :: c.val.conversationId == conversationId && c.val.status == Active {
      var c :| c in t.calls && c.val.conversationId == conversationId && c.val.status == Active;
      assert c in active;
    }
  }

  /** A started call rings, starts now, gets its room id, and every member
      of the conversation gets exactly one participant row for it. */
  lemma InitiateCallCreates(t: Tables, conversationId: ConversationId, initiatorId: UserId, kind: CallKind, now: int)
    requires InitiateCallStep(t, conversationId, initiatorId, kind, now).result.Ok?
    ensures var s := InitiateCallStep(t, conversationId, initiatorId, kind, now);
            var (callId, roomId) := s.result.value;
            var members := MembersOf(t.conversationMembers, conversationId);
            var added := s.after.callParticipants[|t.callParticipants|..];
            && callId == t.clock
            && roomId == "call_" + NatToString(conversationId) + "_" + IntToString(now)
            && s.after.calls == t.calls + [Doc(callId, callId, Call(conversationId, initiatorId, Ringing, kind, roomId, now, None, None, None))]
            && s.after.callParticipants[..|t.callParticipants|] == t.callParticipants
            && |added| == |members|
            && (forall k | 0 <= k < |members| ::
                  && added[k].val.callId == callId
                  && added[k].val.userId == members[k].val.memberId
                  && (added[k].val.role == Initiator <==> members[k].val.memberId == initiatorId))
  {
    var s := InitiateCallStep(t, conversationId, initiatorId, kind, now);
    var members := MembersOf(t.conversationMembers, conversationId);
    var rows := ParticipantDocs(members, t.clock, initiatorId, t.clock + 1);
    Roster(members, t.clock, initiatorId, t.clock + 1);
    assert s == Step(Ok((t.clock, RoomId(conversationId, now))), StartCall(t, conversationId, initiatorId, kind, now));
    assert s.after.callParticipants == t.callParticipants + rows;
    assert s.after.callParticipants[|t.callParticipants|..] == rows;
  }

  lemma InitiateCallKeepsValid(t: Tables, conversationId: ConversationId, initiatorId: UserId, kind: CallKind, now: int)
    requires t.Valid()
    ensures InitiateCallStep(t, conversationId, initiatorId, kind, now).after.Valid()
  {
    StartCallKeepsValid(t, conversationId, initiatorId, kind, now);
  }

  lemma StartCallKeepsValid(t: Tables, conversationId: ConversationId, initiatorId: UserId, kind: CallKind, now: int)
    requires t.Valid()
    ensures StartCall(t, conversationId, initiatorId, kind, now).Valid()
  {
    var call := Call(conversationId, initiatorId, Ringing, kind, RoomId(conversationId, now), now, None, None, None);
    InsertCallKeepsValid(t, call, MembersOf(t.conversationMembers, conversationId), initiatorId);
  }

  /** Inserting any call and then its participant rows keeps the snapshot
      valid. */
  lemma InsertCallKeepsValid(t: Tables, call: Call, members: Table<Member>, initiatorId: UserId)
    requires t.Valid()
    ensures t.(calls := t.calls + [Doc(t.clock, t.clock, call)],
               callParticipants := t.callParticipants + ParticipantDocs(members, t.clock, initiatorId, t.clock + 1),
               clock := t.clock + 1 + |members|).Valid()
  {
    var callId := t.clock;
    var u := t.(calls := t.calls + [Doc(callId, callId, call)],
                callParticipants := t.callParticipants + ParticipantDocs(members, callId, initiatorId, callId + 1),
                clock := callId + 1 + |members|);
    WfAppend(t.calls, callId, call);
    WfGrow(u.calls, callId + 1, u.clock);
    WfGrow(t.callParticipants, callId, callId + 1);
    WfParticipantDocs(t.callParticipants, members, callId, initiatorId, callId + 1);
    assert Wf(u.calls, u.clock) && Wf(u.callParticipants, u.clock);
    ValidAfter(t, u);
  }

  method InitiateCall(db: Store, conversationId: ConversationId, initiatorId: UserId, kind: CallKind, now: int)
    returns (r: Result<(CallId, string)>)
    modifies db
    ensures Step(r, db.Snapshot()) == InitiateCallStep(old(db.Snapshot()), conversationId, initiatorId, kind, now)
  {
    var existingCall := First(ActiveCallsIn(db.calls, conversationId));
    if existingCall.Some? {
      return Err(PlainError("There's already an active call in this conversation"));
    }
    var roomId := RoomId(conversationId, now);
    var callId := StartCallInPlace(db, conversationId, initiatorId, kind, now, roomId);
    r := Ok((callId, roomId));
  }

  /** The writes of `initiateCall`, one insert at a time. */
  method StartCallInPlace(db: Store, conversationId: ConversationId, initiatorId: UserId, kind: CallKind, now: int, roomId: string)
    returns (callId: CallId)
    requires roomId == RoomId(conversationId, now)
    modifies db
    ensures callId == old(db.clock)
    ensures db.Snapshot() == StartCall(old(db.Snapshot()), conversationId, initiatorId, kind, now)
  {
    callId := db.NewId();
    db.calls := db.calls + [Doc(callId, callId, Call(conversationId, initiatorId, Ringing, kind, roomId, now, None, None, None))];
    var members := MembersOf(db.conversationMembers, conversationId);
    InsertParticipants(db, members, callId, initiatorId);
  }

  /** The loop of `initiateCall`: one participant row per member, inserted
      in member order. */
  method InsertParticipants(db: Store, members: Table<Member>, callId: CallId, initiatorId: UserId)
    modifies db
    ensures db.Snapshot() == old(db.Snapshot()).(
              callParticipants := old(db.callParticipants) + ParticipantDocs(members, callId, initiatorId, old(db.clock)),
              clock := old(db.clock) + |members|)
  {
    ghost var t := db.Snapshot();
    for i := 0 to |members|
      invariant db.Snapshot() == t.(callParticipants := t.callParticipants + ParticipantDocs(members[..i], callId, initiatorId, t.clock),
                                    clock := t.clock + i)
    {
      ghost var rows := ParticipantDocs(members[..i], callId, initiatorId, t.clock);
      var participantId := db.NewId();
      var row := Doc(participantId, participantId, ParticipantFor(members[i], callId, initiatorId));
      db.callParticipants := db.callParticipants + [row];
      assert members[..i + 1][..i] == members[..i];
      assert ParticipantDocs(members[..i + 1], callId, initiatorId, t.clock) == rows + [row];
      assert db.callParticipants == t.callParticipants + (rows + [row]);
    }
    assert members[..|members|] == members;
  }

  /** The legal edges of the call state machine. */
  predicate Transition(from: CallStatus, to: CallStatus)
  {
    || (from == Ringing && to in {Active, Rejected, Cancelled, Missed})
    || (from == Active && to == Ended)
  }

  /** The call with that id, patched to `v`. */
  function PatchCall(t: Tables, callId: CallId, v: Call): Tables
  {
    t.(calls := Patch(t.calls, callId, v))
  }

  /** `answerCall`: a ringing call becomes active, answered now; the
      answering user's participant row, if any, joins now. Returns the
      room id. */
  function AnswerCallStep(t: Tables, callId: CallId, userId: UserId, now: int): (s: Step<string>)
    ensures s.result.Err? ==> s.after == t
    ensures s.after == t.(calls := s.after.calls, callParticipants := s.after.callParticipants)
  {
    var call := Get(t.calls, callId);
    if call.None? || call.value.val.status != Ringing then
      Step(Err(PlainError("Call not found or not ringing")), t)
    else
      var t1 := PatchCall(t, callId, call.value.val.(status := Active, answeredAt := Some(now)));
      var participant := First(ParticipationIn(t.callParticipants, callId, userId));
      var t2 := if participant.Some?
                then t1.(callParticipants := Patch(t1.callParticipants, participant.value.id, participant.value.val.(joinedAt := Some(now))))
                else t1;
      Step(Ok(call.value.val.roomId), t2)
  }

  lemma AnswerCallSpec(t: Tables, callId: CallId, userId: UserId, now: int)
    ensures var s := AnswerCallStep(t, callId, userId, now);
            var call := Get(t.calls, callId);
            && (s.result.Ok? <==> call.Some? && call.value.val.status == Ringing)
            && (s.result.Err? ==> s.after == t)
            && (s.result.Ok? ==>
                  && s.result.value == call.value.val.roomId
                  && Get(s.after.calls, callId) == Some(call.value.(val := call.value.val.(status := Active, answeredAt := Some(now))))
                  && Transition(call.value.val.status, Active)
                  && (forall id | id != callId :: Get(s.after.calls, id) == Get(t.calls, id))
                  && s.after == t.(calls := s.after.calls, callParticipants := s.after.callParticipants))
  {
    var call := Get(t.calls, callId);
    if call.Some? && call.value.val.status == Ringing {
      var v := call.value.val.(status := Active, answeredAt := Some(now));
      GetPatch(t.calls, callId, v, callId);
      forall id | id != callId ensures Get(Patch(t.calls, callId, v), id) == Get(t.calls, id) {
        GetPatch(t.calls, callId, v, id);
      }
    }
  }

  /** The answering user's participant row records when they joined; every
      other row reads back unchanged, and without a row for the user the
      table is untouched. */
  lemma AnswerCallJoins(t: Tables, callId: CallId, userId: UserId, now: int)
    requires Increasing(t.callParticipants)
    ensures var s := AnswerCallStep(t, callId, userId, now);
            var rows := ParticipationIn(t.callParticipants, callId, userId);
            && (s.result.Ok? && |rows| > 0 ==>
                  && Get(s.after.callParticipants, rows[0].id) == Some(rows[0].(val := rows[0].val.(joinedAt := Some(now))))
                  && (forall id | id != rows[0].id :: Get(s.after.callParticipants, id) == Get(t.callParticipants, id)))
            && (|rows| == 0 ==> s.after.callParticipants == t.callParticipants)
  {
    var call := Get(t.calls, callId);
    var rows := ParticipationIn(t.callParticipants, callId, userId);
    if call.Some? && call.value.val.status == Ringing && |rows| > 0 {
      var p := rows[0];
      var v := p.val.(joinedAt := Some(now));
      FilterMembers(t.callParticipants, InCall(callId, userId));
      GetFinds(t.callParticipants, p);
      GetPatch(t.callParticipants, p.id, v, p.id);
      forall id | id != p.id ensures Get(Patch(t.callParticipants, p.id, v), id) == Get(t.callParticipants, id) {
        GetPatch(t.callParticipants, p.id, v, id);
      }
    }
  }

  lemma AnswerCallKeepsValid(t: Tables, callId: CallId, userId: UserId, now: int)
    requires t.Valid()
    ensures AnswerCallStep(t, callId, userId, now).after.Valid()
  {
    var call := Get(t.calls, callId);
    if call.Some? && call.value.val.status == Ringing {
      WfPatch(t.calls, t.clock, callId, call.value.val.(status := Active, answeredAt := Some(now)));
      var participant := First(ParticipationIn(t.callParticipants, callId, userId));
      if participant.Some? {
        WfPatch(t.callParticipants, t.clock, participant.value.id, participant.value.val.(joinedAt := Some(now)));
      }
      ValidAfter(t, AnswerCallStep(t, callId, userId, now).after);
    }
  }

  method AnswerCall(db: Store, callId: CallId, userId: UserId, now: int) returns (r: Result<string>)
    modifies db
    ensures Step(r, db.Snapshot()) == AnswerCallStep(old(db.Snapshot()), callId, userId, now)
  {
    var call := Get(db.calls, callId);
    if call.None? || call.value.val.status != Ringing {
      return Err(PlainError("Call not found or not ringing"));
    }
    db.calls := Patch(db.calls, callId, call.value.val.(status := Active, answeredAt := Some(now)));
    var participant := First(ParticipationIn(db.callParticipants, callId, userId));
    if participant.Some? {
      db.callParticipants := Patch(db.callParticipants, participant.value.id, participant.value.val.(joinedAt := Some(now)));
    }
    r := Ok(call.value.val.roomId);
  }

  /** `rejectCall`: a ringing call becomes rejected, ended now. */
  function RejectCallStep(t: Tables, callId: CallId, now: int): (s: Step<()>)
    ensures s.result.Err? ==> s.after == t
    ensures s.after == t.(calls := s.after.calls)
  {
    var call := Get(t.calls, callId);
    if call.None? || call.value.val.status != Ringing then
      Step(Err(PlainError("Call not found or not ringing")), t)
    else
      Step(Ok(()), PatchCall(t, callId, call.value.val.(status := Rejected, endedAt := Some(now))))
  }

  lemma RejectCallSpec(t: Tables, callId: CallId, now: int)
    ensures var s := RejectCallStep(t, callId, now);
            var call := Get(t.calls, callId);
            && (s.result.Ok? <==> call.Some? && call.value.val.status == Ringing)
            && (s.result.Err? ==> s.after == t)
            && (s.result.Ok? ==>
                  && Get(s.after.calls, callId) == Some(call.value.(val := call.value.val.(status := Rejected, endedAt := Some(now))))
                  && Transition(call.value.val.status, Rejected)
                  && (forall id | id != callId :: Get(s.after.calls, id) == Get(t.calls, id))
                  && s.after == t.(calls := s.after.calls))
  {
    var call := Get(t.calls, callId);
    if call.Some? && call.value.val.status == Ringing {
      var v := call.value.val.(status := Rejected, endedAt := Some(now));
      GetPatch(t.calls, callId, v, callId);
      forall id | id != callId ensures Get(Patch(t.calls, callId, v), id) == Get(t.calls, id) {
        GetPatch(t.calls, callId, v, id);
      }
    }
  }

  method RejectCall(db: Store, callId: CallId, userId: UserId, now: int) returns (r: Result<()>)
    modifies db
    ensures Step(r, db.Snapshot()) == RejectCallStep(old(db.Snapshot()), callId, now)
  {
    var call := Get(db.calls, callId);
    if call.None? || call.value.val.status != Ringing {
      return Err(PlainError("Call not found or not ringing"));
    }
    db.calls := Patch(db.calls, callId, call.value.val.(status := Rejected, endedAt := Some(now)));
    r := Ok(());
  }

  /** `cancelCall`: only the initiator may cancel, and only while ringing. */
  function CancelCallStep(t: Tables, callId: CallId, userId: UserId, now: int): (s: Step<()>)
    ensures s.result.Err? ==> s.after == t
    ensures s.after == t.(calls := s.after.calls)
  {
    var call := Get(t.calls, callId);
    if call.None? || call.value.val.status != Ringing then
      Step(Err(PlainError("Call not found or not ringing")), t)
    else if call.value.val.initiatorId != userId then
      Step(Err(PlainError("Only the initiator can cancel the call")), t)
    else
      Step(Ok(()), PatchCall(t, callId, call.value.val.(status := Cancelled, endedAt := Some(now))))
  }

  lemma CancelCallSpec(t: Tables, callId: CallId, userId: UserId, now: int)
    ensures var s := CancelCallStep(t, callId, userId, now);
            var call := Get(t.calls, callId);
            && (s.result.Ok? <==> call.Some? && call.value.val.status == Ringing && call.value.val.initiatorId == userId)
            && (call.Some? && call.value.val.status == Ringing && call.value.val.initiatorId != userId ==>
                  s.result == Err(PlainError("Only the initiator can cancel the call")))
            && (s.result.Err? ==> s.after == t)
            && (s.result.Ok? ==>
                  && Get(s.after.calls, callId) == Some(call.value.(val := call.value.val.(status := Cancelled, endedAt := Some(now))))
                  && Transition(call.value.val.status, Cancelled)
                  && (forall id | id != callId :: Get(s.after.calls, id) == Get(t.calls, id))
                  && s.after == t.(calls := s.after.calls))
  {
    var call := Get(t.calls, callId);
    if call.Some? && call.value.val.status == Ringing && call.value.val.initiatorId == userId {
      var v := call.value.val.(status := Cancelled, endedAt := Some(now));
      GetPatch(t.calls, callId, v, callId);
      forall id | id != callId ensures Get(Patch(t.calls, callId, v), id) == Get(t.calls, id) {
        GetPatch(t.calls, callId, v, id);
      }
    }
  }

  /** Rejecting and cancelling patch one call and keep the snapshot valid. */
  lemma RejectCancelKeepValid(t: Tables, callId: CallId, userId: UserId, now: int)
    requires t.Valid()
    ensures RejectCallStep(t, callId, now).after.Valid()
    ensures CancelCallStep(t, callId, userId, now).after.Valid()
  {
    var call := Get(t.calls, callId);
    if call.Some? {
      WfPatch(t.calls, t.clock, callId, call.value.val.(status := Rejected, endedAt := Some(now)));
      WfPatch(t.calls, t.clock, callId, call.value.val.(status := Cancelled, endedAt := Some(now)));
      ValidAfter(t, PatchCall(t, callId, call.value.val.(status := Rejected, endedAt := Some(now))));
      ValidAfter(t, PatchCall(t, callId, call.value.val.(status := Cancelled, endedAt := Some(now))));
    }
  }

  method CancelCall(db: Store, callId: CallId, userId: UserId, now: int) returns (r: Result<()>)
    modifies db
    ensures Step(r, db.Snapshot()) == CancelCallStep(old(db.Snapshot()), callId, userId, now)
  {
    var call := Get(db.calls, callId);
    if call.None? || call.value.val.status != Ringing {
      return Err(PlainError("Call not found or not ringing"));
    }
    if call.value.val.initiatorId != userId {
      return Err(PlainError("Only the initiator can cancel the call"));
    }
    db.calls := Patch(db.calls, callId, call.value.val.(status := Cancelled, endedAt := Some(now)));
    r := Ok(());
  }

  /** Whole seconds between the answer and `now`, 0 for an unanswered call
      (an `answeredAt` of 0 reads as unanswered, as the truthiness test does). */
  function Duration(answeredAt: Option<int>, now: int): int
  {
    if Truthy(answeredAt) then (now - answeredAt.value) / 1000 else 0
  }

  /** `endCall`: any existing call, whatever its status, becomes ended now
      with its duration; the user's participant row gets `leftAt` unless it
      already has one. */
  function EndCallStep(t: Tables, callId: CallId, userId: UserId, now: int): (s: Step<()>)
    ensures s.result.Err? ==> s.after == t
    ensures s.after == t.(calls := s.after.calls, callParticipants := s.after.callParticipants)
  {
    var call := Get(t.calls, callId);
    if call.None? then
      Step(Err(PlainError("Call not found")), t)
    else
      var duration := Duration(call.value.val.answeredAt, now);
      var t1 := PatchCall(t, callId, call.value.val.(status := Ended, endedAt := Some(now), duration := Some(duration)));
      var participant := First(ParticipationIn(t.callParticipants, callId, userId));
      var t2 := if participant.Some? && !Truthy(participant.value.val.leftAt)
                then t1.(callParticipants := Patch(t1.callParticipants, participant.value.id, participant.value.val.(leftAt := Some(now))))
                else t1;
      Step(Ok(()), t2)
  }

  lemma EndCallSpec(t: Tables, callId: CallId, userId: UserId, now: int)
    ensures var s := EndCallStep(t, callId, userId, now);
            var call := Get(t.calls, callId);
            && (s.result.Ok? <==> call.Some?)
            && (s.result.Err? ==> s.after == t)
            && (s.result.Ok? ==>
                  && Get(s.after.calls, callId) ==
                       Some(call.value.(val := call.value.val.(status := Ended, endedAt := Some(now),
                                                               duration := Some(if Truthy(call.value.val.answeredAt)
                                                                                then (now - call.value.val.answeredAt.value) / 1000 else 0))))
                  && (forall id | id != callId :: Get(s.after.calls, id) == Get(t.calls, id))
                  && s.after == t.(calls := s.after.calls, callParticipants := s.after.callParticipants))
  {
    var call := Get(t.calls, callId);
    if call.Some? {
      var v := call.value.val.(status := Ended, endedAt := Some(now), duration := Some(Duration(call.value.val.answeredAt, now)));
      GetPatch(t.calls, callId, v, callId);
      forall id | id != callId ensures Get(Patch(t.calls, callId, v), id) == Get(t.calls, id) {
        GetPatch(t.calls, callId, v, id);
      }
    }
  }

  /** The ending user's participant row records when they left, unless it
      already did; every other row reads back unchanged, and without a row
      still to close the table is untouched. */
  lemma EndCallLeaves(t: Tables, callId: CallId, userId: UserId, now: int)
    requires Increasing(t.callParticipants)
    ensures var s := EndCallStep(t, callId, userId, now);
            var rows := ParticipationIn(t.callParticipants, callId, userId);
            && (s.result.Ok? && |rows| > 0 ==>
                  && Get(s.after.callParticipants, rows[0].id) ==
                       Some(if Truthy(rows[0].val.leftAt) then rows[0] else rows[0].(val := rows[0].val.(leftAt := Some(now))))
                  && (forall id | id != rows[0].id :: Get(s.after.callParticipants, id) == Get(t.callParticipants, id)))
            && (|rows| == 0 || Truthy(rows[0].val.leftAt) ==> s.after.callParticipants == t.callParticipants)
  {
    var call := Get(t.calls, callId);
    var rows := ParticipationIn(t.callParticipants, callId, userId);
    if call.Some? && |rows| > 0 && !Truthy(rows[0].val.leftAt) {
      var p := rows[0];
      var v := p.val.(leftAt := Some(now));
      FilterMembers(t.callParticipants, InCall(callId, userId));
      GetFinds(t.callParticipants, p);
      GetPatch(t.callParticipants, p.id, v, p.id);
      forall id | id != p.id ensures Get(Patch(t.callParticipants, p.id, v), id) == Get(t.callParticipants, id) {
        GetPatch(t.callParticipants, p.id, v, id);
      }
    } else if call.Some? && |rows| > 0 {
      FilterMembers(t.callParticipants, InCall(callId, userId));
      GetFinds(t.callParticipants, rows[0]);
    }
  }

  /** A status no call leaves by the state machine. */
  predicate Terminal(s: CallStatus)
  {
    s == Ended || s == Rejected || s == Missed || s == Cancelled
  }

  /** Ending is not restricted to live calls: a call in a terminal status is
      ended again, although the state machine has no edge from any terminal
      status to ended. */
  lemma EndCallFromAnyStatus(t: Tables, callId: CallId, userId: UserId, now: int)
    requires Get(t.calls, callId).Some? && Terminal(Get(t.calls, callId).value.val.status)
    ensures EndCallStep(t, callId, userId, now).result.Ok?
    ensures var c := Get(EndCallStep(t, callId, userId, now).after.calls, callId);
            c.Some? && c.value.val.status == Ended
    ensures forall st | Terminal(st) :: !Transition(st, Ended)
  {
    EndCallSpec(t, callId, userId, now);
  }

  lemma EndCallKeepsValid(t: Tables, callId: CallId, userId: UserId, now: int)
    requires t.Valid()
    ensures EndCallStep(t, callId, userId, now).after.Valid()
  {
    var call := Get(t.calls, callId);
    if call.Some? {
      var duration := Duration(call.value.val.answeredAt, now);
      var calls := Patch(t.calls, callId, call.value.val.(status := Ended, endedAt := Some(now), duration := Some(duration)));
      WfPatch(t.calls, t.clock, callId, call.value.val.(status := Ended, endedAt := Some(now), duration := Some(duration)));
      var participant := First(ParticipationIn(t.callParticipants, callId, userId));
      if participant.Some? && !Truthy(participant.value.val.leftAt) {
        var participants := Patch(t.callParticipants, participant.value.id, participant.value.val.(leftAt := Some(now)));
        WfPatch(t.callParticipants, t.clock, participant.value.id, participant.value.val.(leftAt := Some(now)));
        assert EndCallStep(t, callId, userId, now).after == t.(calls := calls, callParticipants := participants);
        ValidAfter(t, t.(calls := calls, callParticipants := participants));
      } else {
        assert EndCallStep(t, callId, userId, now).after == t.(calls := calls);
        ValidAfter(t, t.(calls := calls));
      }
    }
  }

  method EndCall(db: Store, callId: CallId, userId: UserId, now: int) returns (r: Result<()>)
    modifies db
    ensures Step(r, db.Snapshot()) == EndCallStep(old(db.Snapshot()), callId, userId, now)
  {
    var call := Get(db.calls, callId);
    if call.None? {
      return Err(PlainError("Call not found"));
    }
    var duration := if Truthy(call.value.val.answeredAt) then (now - call.value.val.answeredAt.value) / 1000 else 0;
    db.calls := Patch(db.calls, callId, call.value.val.(status := Ended, endedAt := Some(now), duration := Some(duration)));
    var participant := First(ParticipationIn(db.callParticipants, callId, userId));
    if participant.Some? && !Truthy(participant.value.val.leftAt) {
      db.callParticipants := Patch(db.callParticipants, participant.value.id, participant.value.val.(leftAt := Some(now)));
    }
    r := Ok(());
  }

  /** A call a user takes part in, as the notification feed shows it. */
  datatype ActiveCall = ActiveCall(
    call: Doc<Call>,
    participation: Doc<CallParticipant>,
    initiator: Option<Doc<User>>,
    conversation: Option<Doc<Conversation>>)

  predicate Live(s: CallStatus) { s == Ringing || s == Active }

  /** The entries `getUserActiveCalls` builds from the participations `ps`,
      in their order, each joined with its call's initiator and conversation
      (unset when that row is gone). */
  function LiveCalls(t: Tables, ps: Table<CallParticipant>): (r: seq<ActiveCall>)
    ensures |r| <= |ps|
    ensures forall a | a in r :: Live(a.call.val.status) && a.call.id == a.participation.val.callId
    ensures forall a | a in r ::
              a.initiator == Get(t.users, a.call.val.initiatorId) && a.conversation == Get(t.conversations, a.call.val.conversationId)
  {
    if |ps| == 0 then []
    else
      var k := |ps| - 1;
      var rest := LiveCalls(t, ps[..k]);
      var call := Get(t.calls, ps[k].val.callId);
      if call.Some? && Live(call.value.val.status) then
        rest + [ActiveCall(call.value, ps[k], Get(t.users, call.value.val.initiatorId),
                           Get(t.conversations, call.value.val.conversationId))]
      else rest
  }

  /** Each entry pairs one of the participations with its call, which is
      ringing or active. */
  lemma {:induction false} LiveCallsSound(t: Tables, ps: Table<CallParticipant>)
    ensures forall a | a in LiveCalls(t, ps) ::
              a.participation in ps && Get(t.calls, a.participation.val.callId) == Some(a.call) && Live(a.call.val.status)
  {
    if |ps| > 0 {
      var k := |ps| - 1;
      LiveCallsSound(t, ps[..k]);
      forall a | a in LiveCalls(t, ps[..k]) ensures a.participation in ps {
        var m :| 0 <= m < k && ps[..k][m] == a.participation;
        assert ps[m] == a.participation;
      }
    }
  }

  /** Every participation whose call is ringing or active has an entry. */
  lemma {:induction false} LiveCallsComplete(t: Tables, ps: Table<CallParticipant>)
    ensures forall p | p in ps && Get(t.calls, p.val.callId).Some? && Live(Get(t.calls, p.val.callId).value.val.status) ::
              exists a | a in LiveCalls(t, ps) :: a.participation == p
  {
    if |ps| > 0 {
      var k := |ps| - 1;
      LiveCallsComplete(t, ps[..k]);
      forall p | p in ps && Get(t.calls, p.val.callId).Some? && Live(Get(t.calls, p.val.callId).value.val.status)
        ensures exists a | a in LiveCalls(t, ps) :: a.participation == p
      {
        if p != ps[k] {
          assert p in ps[..k];
          var a :| a in LiveCalls(t, ps[..k]) && a.participation == p;
          assert a in LiveCalls(t, ps);
        } else {
          assert LiveCalls(t, ps)[|LiveCalls(t, ps)| - 1].participation == p;
        }
      }
    }
  }

  /** The entries keep the participations' creation order. */
  lemma {:induction false} LiveCallsOrdered(t: Tables, ps: Table<CallParticipant>)
    requires Increasing(ps)
    ensures forall i, j | 0 <= i < j < |LiveCalls(t, ps)| ::
              LiveCalls(t, ps)[i].participation.id < LiveCalls(t, ps)[j].participation.id
  {
    if |ps| > 0 {
      var k := |ps| - 1;
      assert Increasing(ps[..k]);
      LiveCallsOrdered(t, ps[..k]);
      LiveCallsSound(t, ps[..k]);
      forall a | a in LiveCalls(t, ps[..k]) ensures a.participation.id < ps[k].id {
        var m :| 0 <= m < k && ps[..k][m] == a.participation;
      }
    }
  }

  /** `getUserActiveCalls`: for each of the user's participations, in order,
      the call if it is ringing or active, with its initiator and
      conversation. */
  method GetUserActiveCalls(db: Store, userId: UserId) returns (activeCalls: seq<ActiveCall>)
    ensures activeCalls == LiveCalls(db.Snapshot(), Participations(db.callParticipants, userId))
  {
    var participations := Participations(db.callParticipants, userId);
    activeCalls := [];
    for i := 0 to |participations|
      invariant activeCalls == LiveCalls(db.Snapshot(), participations[..i])
    {
      var participation := participations[i];
      var call := Get(db.calls, participation.val.callId);
      assert participations[..i + 1][..i] == participations[..i];
      if call.Some? && (call.value.val.status == Ringing || call.value.val.status == Active) {
        var initiator := Get(db.users, call.value.val.initiatorId);
        var conversation := Get(db.conversations, call.value.val.conversationId);
        activeCalls := activeCalls + [ActiveCall(call.value, participation, initiator, conversation)];
      }
    }
    assert participations[..|participations|] == participations;
  }

  /** Every entry of the feed belongs to the user and is live. */
  lemma ActiveCallsOfUser(t: Tables, userId: UserId)
    ensures forall a | a in LiveCalls(t, Participations(t.callParticipants, userId)) ::
              a.participation.val.userId == userId && a.participation in t.callParticipants
              && a.call in t.calls && a.call.id == a.participation.val.callId
              && (a.call.val.status == Ringing || a.call.val.status == Active)
  {
    LiveCallsSound(t, Participations(t.callParticipants, userId));
    FilterMembers(t.callParticipants, ParticipantIs(userId));
  }
}
