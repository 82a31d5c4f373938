/** convex/requests.ts: the friend requests a user has received or sent,
    each joined with the user on the other side, and the number received. */
module RequestsApi {
  import opened Schema
  import opened Docs
  import opened Db
  import opened Utils
  import opened RequestApi

  /** The requests a user has received (index `by_receiver`). */
  function ReceivedBy(requests: Table<Request>, userId: UserId): Table<Request>
  {
    Filter(requests, ToUser(userId))
  }

  function ToUser(userId: UserId): Doc<Request> -> bool
  {
    (r: Doc<Request>) => r.val.receiver == userId
  }

  /** The requests a user has sent (index `by_sender`). */
  function SentBy(requests: Table<Request>, userId: UserId): Table<Request>
  {
    Filter(requests, FromUser(userId))
  }

  function FromUser(userId: UserId): Doc<Request> -> bool
  {
    (r: Doc<Request>) => r.val.sender == userId
  }

  datatype Incoming = Incoming(sender: Doc<User>, request: Doc<Request>)

  datatype Outgoing = Outgoing(receiver: Doc<User>, request: Doc<Request>)

  /** Each request joined with its sender's document, in order; a request
      whose sender has no document fails the whole query. */
  function WithSenders(users: Table<User>, requests: Table<Request>): (r: Result<seq<Incoming>>)
    ensures r.Ok? ==> |r.value| == |requests|
    ensures r.Ok? ==> forall i | 0 <= i < |requests| ::
              r.value[i].request == requests[i] && Get(users, requests[i].val.sender) == Some(r.value[i].sender)
    ensures r.Err? <==> exists i | 0 <= i < |requests| :: Get(users, requests[i].val.sender).None?
    ensures r.Err? ==> r.error == ConvexError("Request Sender not found")
  {
    if |requests| == 0 then Ok([])
    else
      var sender := Get(users, requests[0].val.sender);
      if sender.None? then Err(ConvexError("Request Sender not found"))
      else
        var rest :- WithSenders(users, requests[1..]);
        Ok([Incoming(sender.value, requests[0])] + rest)
  }

  /** Each request joined with its receiver's document, in order. */
  function WithReceivers(users: Table<User>, requests: Table<Request>): (r: Result<seq<Outgoing>>)
    ensures r.Ok? ==> |r.value| == |requests|
    ensures r.Ok? ==> forall i | 0 <= i < |requests| ::
              r.value[i].request == requests[i] && Get(users, requests[i].val.receiver) == Some(r.value[i].receiver)
    ensures r.Err? <==> exists i | 0 <= i < |requests| :: Get(users, requests[i].val.receiver).None?
    ensures r.Err? ==> r.error == ConvexError("Request  not found")
  {
    if |requests| == 0 then Ok([])
    else
      var receiver := Get(users, requests[0].val.receiver);
      if receiver.None? then Err(ConvexError("Request  not found"))
      else
        var rest :- WithReceivers(users, requests[1..]);
        Ok([Outgoing(receiver.value, requests[0])] + rest)
  }

  /** `get`: the requests the caller has received, with their senders. */
  function Received(t: Tables, identity: Option<string>): (r: Result<seq<Incoming>>)
    ensures r.Ok? ==> AuthenticatedUser(t.users, identity).Ok?
    ensures r.Ok? ==> |r.value| == |ReceivedBy(t.requests, AuthenticatedUser(t.users, identity).value.id)|
  {
    var me :- AuthenticatedUser(t.users, identity);
    WithSenders(t.users, ReceivedBy(t.requests, me.id))
  }

  /** `getSentRequests`: the requests the caller has sent, with their
      receivers. */
  function Sent(t: Tables, identity: Option<string>): (r: Result<seq<Outgoing>>)
    ensures r.Ok? ==> AuthenticatedUser(t.users, identity).Ok?
    ensures r.Ok? ==> |r.value| == |SentBy(t.requests, AuthenticatedUser(t.users, identity).value.id)|
  {
    var me :- AuthenticatedUser(t.users, identity);
    WithReceivers(t.users, SentBy(t.requests, me.id))
  }

  /** `count`: how many requests the caller has received, also when one of
      them names a sender whose row is gone. The badge and the list agree:
      when the list can be built, the count is its length. */
  function Count(t: Tables, identity: Option<string>): (r: Result<nat>)
    ensures r.Ok? <==> AuthenticatedUser(t.users, identity).Ok?
    ensures r.Ok? ==> r.value == |ReceivedBy(t.requests, AuthenticatedUser(t.users, identity).value.id)|
    ensures Received(t, identity).Ok? ==> r == Ok(|Received(t, identity).value|)
  {
    var me :- AuthenticatedUser(t.users, identity);
    Ok(|ReceivedBy(t.requests, me.id)|)
  }

  /** The join keeps every request, pairs it with the user it names, and
      fails exactly when one of them names nobody. */
  lemma WithSendersJoins(users: Table<User>, requests: Table<Request>)
    ensures var r := WithSenders(users, requests);
            r.Ok? ==> forall e | e in r.value ::
              e.request in requests && e.sender in users && e.sender.id == e.request.val.sender
    ensures var r := WithSenders(users, requests);
            r.Ok? ==> forall q | q in requests :: exists e | e in r.value :: e.request == q
    ensures WithSenders(users, requests).Err? <==>
              exists q | q in requests :: forall u | u in users :: u.id != q.val.sender
  {
    var r := WithSenders(users, requests);
    if r.Ok? {
      forall e | e in r.value
        ensures e.request in requests && e.sender in users && e.sender.id == e.request.val.sender
      {
        var i :| 0 <= i < |r.value| && r.value[i] == e;
      }
      forall q | q in requests
        ensures exists e | e in r.value :: e.request == q
      {
        var i :| 0 <= i < |requests| && requests[i] == q;
        assert r.value[i] in r.value;
      }
    } else {
      var i :| 0 <= i < |requests| && Get(users, requests[i].val.sender).None?;
      GetNone(users, requests[i].val.sender);
    }
    if exists q | q in requests :: forall u | u in users :: u.id != q.val.sender {
      var q :| q in requests && forall u | u in users :: u.id != q.val.sender;
      GetNone(users, q.val.sender);
    }
  }

  lemma WithReceiversJoins(users: Table<User>, requests: Table<Request>)
    ensures var r := WithReceivers(users, requests);
            r.Ok? ==> forall e | e in r.value ::
              e.request in requests && e.receiver in users && e.receiver.id == e.request.val.receiver
    ensures var r := WithReceivers(users, requests);
            r.Ok? ==> forall q | q in requests :: exists e | e in r.value :: e.request == q
    ensures WithReceivers(users, requests).Err? <==>
              exists q | q in requests :: forall u | u in users :: u.id != q.val.receiver
  {
    var r := WithReceivers(users, requests);
    if r.Ok? {
      forall e | e in r.value
        ensures e.request in requests && e.receiver in users && e.receiver.id == e.request.val.receiver
      {
        var i :| 0 <= i < |r.value| && r.value[i] == e;
      }
      forall q | q in requests
        ensures exists e | e in r.value :: e.request == q
      {
        var i :| 0 <= i < |requests| && requests[i] == q;
        assert r.value[i] in r.value;
      }
    } else {
      var i :| 0 <= i < |requests| && Get(users, requests[i].val.receiver).None?;
      GetNone(users, requests[i].val.receiver);
    }
    if exists q | q in requests :: forall u | u in users :: u.id != q.val.receiver {
      var q :| q in requests && forall u | u in users :: u.id != q.val.receiver;
      GetNone(users, q.val.receiver);
    }
  }

  /** `get` lists exactly the requests addressed to the caller, each with
      the user who sent it, and fails exactly when one of those senders has
      no document. */
  lemma ReceivedExactly(t: Tables, identity: Option<string>)
    requires AuthenticatedUser(t.users, identity).Ok?
    ensures var me := AuthenticatedUser(t.users, identity).value.id;
            var r := Received(t, identity);
            && (r.Ok? ==> forall e | e in r.value ::
                  e.request in t.requests && e.request.val.receiver == me
                  && e.sender in t.users && e.sender.id == e.request.val.sender)
            && (r.Ok? ==> forall q | q in t.requests && q.val.receiver == me ::
                  exists e | e in r.value :: e.request == q)
            && (r.Err? <==> exists q | q in t.requests && q.val.receiver == me ::
                  forall u | u in t.users :: u.id != q.val.sender)
  {
    var me := AuthenticatedUser(t.users, identity).value.id;
    FilterMembers(t.requests, ToUser(me));
    WithSendersJoins(t.users, ReceivedBy(t.requests, me));
  }

  /** `getSentRequests` lists exactly the requests the caller has sent, each
      with the user it was sent to. */
  lemma SentExactly(t: Tables, identity: Option<string>)
    requires AuthenticatedUser(t.users, identity).Ok?
    ensures var me := AuthenticatedUser(t.users, identity).value.id;
            var r := Sent(t, identity);
            && (r.Ok? ==> forall e | e in r.value ::
                  e.request in t.requests && e.request.val.sender == me
                  && e.receiver in t.users && e.receiver.id == e.request.val.receiver)
            && (r.Ok? ==> forall q | q in t.requests && q.val.sender == me ::
                  exists e | e in r.value :: e.request == q)
            && (r.Err? <==> exists q | q in t.requests && q.val.sender == me ::
                  forall u | u in t.users :: u.id != q.val.receiver)
  {
    var me := AuthenticatedUser(t.users, identity).value.id;
    FilterMembers(t.requests, FromUser(me));
    WithReceiversJoins(t.users, SentBy(t.requests, me));
  }

  /** Sending a request raises the receiver's count by one and leaves the
      sender's own count alone: sent requests are not counted. */
  lemma CreateRaisesCount(t: Tables, identity: Option<string>, email: string)
    requires Increasing(t.users) && CreateStep(t, identity, email).result.Ok?
    ensures var (sender, receiver) := CreateCheck(t, identity, email).value;
            var u := CreateStep(t, identity, email).after;
            && ReceivedBy(u.requests, receiver) ==
                 ReceivedBy(t.requests, receiver) + [Doc(t.clock, t.clock, Request(sender, receiver))]
            && ReceivedBy(u.requests, sender) == ReceivedBy(t.requests, sender)
  {
    var (sender, receiver) := CreateCheck(t, identity, email).value;
    var d := Doc(t.clock, t.clock, Request(sender, receiver));
    CreateNeverSelf(t, identity, email);
    assert CreateStep(t, identity, email).after.requests == t.requests + [d];
    FilterAppend(t.requests, [d], ToUser(receiver));
    FilterAppend(t.requests, [d], ToUser(sender));
  }
}
