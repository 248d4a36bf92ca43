/**
 * The message-request handshake: a user asks another for permission to
 * message them; the recipient accepts, which opens a direct conversation, or
 * declines. A request's status moves from pending to accepted or declined.
 */
module MessageRequests {
  import opened Schema
  import opened Tables
  import opened Store
  import opened Conversations

  predicate IsRequest(q: MessageRequest, from: UserId, to: UserId)
  {
    q.fromUserId == from && q.toUserId == to
  }

  /** The by_pair lookup: the one request from `from` to `to`, whatever its status. */
  function RequestBetween(db: Db, from: UserId, to: UserId): (r: Option<RequestId>)
    requires db.Valid()
    reads db
    ensures r.Some? ==> r.value in db.requests && IsRequest(db.requests[r.value], from, to)
    ensures forall k :: k in db.requests && IsRequest(db.requests[k], from, to) ==> r == Some(k)
    ensures r.None? <==> forall k :: k in db.requests ==> !IsRequest(db.requests[k], from, to)
  {
    Find(db.requests, (q: MessageRequest) => IsRequest(q, from, to), db.nextId)
  }

  /** The row sendRequest inserts. */
  function PendingRequest(from: UserId, to: UserId): (q: MessageRequest)
    ensures IsRequest(q, from, to) && q.status == Pending
  {
    MessageRequest(from, to, Pending)
  }

  /**
   * sendRequest: a request to oneself is refused; an existing request from the caller to `to` is
   * returned whatever its status; an accepted request the other way round returns nothing; otherwise
   * one pending request is inserted. Only the insert changes the store.
   */
  method SendRequest(db: Db, identity: Option<string>, to: UserId) returns (r: Result<Option<RequestId>>)
    requires db.Valid()
    modifies db`requests, db`nextId
    ensures db.Valid()
    ensures var caller := old(GetCurrentUser(db, identity));
            && (caller.None? ==> r == Err(Unauthorized) && unchanged(db))
            && (caller == Some(to) ==> r == Err(CannotRequestSelf) && unchanged(db))
            && (caller.Some? && caller.value != to ==>
                  var forward := old(RequestBetween(db, caller.value, to));
                  var reverse := old(RequestBetween(db, to, caller.value));
                  && (forward.Some? ==> r == Ok(forward) && unchanged(db))
                  && (forward.None? && reverse.Some? && old(db.requests)[reverse.value].status == Accepted ==>
                        r == Ok(None) && unchanged(db))
                  && (forward.None? && (reverse.None? || old(db.requests)[reverse.value].status != Accepted) ==>
                        var k := old(db.nextId);
                        && r == Ok(Some(k)) && k !in old(db.requests) && db.nextId == k + 1
                        && db.requests == old(db.requests)[k := PendingRequest(caller.value, to)])
                  && (r.Ok? && r.value.Some? ==> RequestBetween(db, caller.value, to) == r.value))
  {
    var caller := GetCurrentUser(db, identity);
    if caller.None? {
      return Err(Unauthorized);
    }
    var me := caller.value;
    if me == to {
      return Err(CannotRequestSelf);
    }
    var forward := RequestBetween(db, me, to);
    if forward.Some? {
      return Ok(forward);
    }
    var reverse := RequestBetween(db, to, me);
    if reverse.Some? && db.requests[reverse.value].status == Accepted {
      return Ok(None);
    }
    var k := InsertRequest(db, me, to);
    r := Ok(Some(k));
  }

  /** Inserts a pending request for a pair of distinct users that has none yet. */
  method InsertRequest(db: Db, from: UserId, to: UserId) returns (k: RequestId)
    requires db.Valid() && from != to && RequestBetween(db, from, to).None?
    modifies db`requests, db`nextId
    ensures db.Valid()
    ensures k == old(db.nextId) && k !in old(db.requests) && db.nextId == k + 1
    ensures db.requests == old(db.requests)[k := PendingRequest(from, to)]
    ensures RequestBetween(db, from, to) == Some(k)
  {
    ghost var before := db.requests;
    k := db.NewId();
    db.requests := db.requests[k := PendingRequest(from, to)];
    assert forall j :: j in before ==> !IsRequest(before[j], from, to);
    assert OneRequestPerPair(db.requests) by {
      forall a, b | a in db.requests && b in db.requests && db.requests[a].fromUserId == db.requests[b].fromUserId
                    && db.requests[a].toUserId == db.requests[b].toUserId
        ensures a == b
      {
        if a != k && b != k {
          assert before[a].fromUserId == before[b].fromUserId && before[a].toUserId == before[b].toUserId;
        }
      }
    }
    assert IsRequest(db.requests[k], from, to);
  }

  /** A request the caller may answer: it exists and is addressed to the caller. */
  predicate AddressedTo(requests: map<RequestId, MessageRequest>, k: RequestId, u: UserId)
  {
    k in requests && requests[k].toUserId == u
  }

  /** Sets the status of request `k`; the by_pair key is unaffected. */
  method SetStatus(db: Db, k: RequestId, status: RequestStatus)
    requires db.Valid() && k in db.requests
    modifies db`requests
    ensures db.Valid()
    ensures db.requests == old(db.requests)[k := old(db.requests)[k].(status := status)]
  {
    ghost var before := db.requests;
    db.requests := db.requests[k := db.requests[k].(status := status)];
    assert OneRequestPerPair(db.requests) by {
      forall a, b | a in db.requests && b in db.requests && db.requests[a].fromUserId == db.requests[b].fromUserId
                    && db.requests[a].toUserId == db.requests[b].toUserId
        ensures a == b
      {
        assert before[a].fromUserId == before[b].fromUserId && before[a].toUserId == before[b].toUserId;
      }
    }
  }

  /**
   * acceptRequest: the recipient marks the request accepted and a new direct conversation is
   * created, with the sender's watermark at 0 and the recipient's at `now`. The prior status is not
   * looked at, so accepting again opens another conversation. Afterwards the two users share a
   * direct conversation, so createOrGetConversation between them finds one.
   */
  method AcceptRequest(db: Db, identity: Option<string>, k: RequestId, now: nat) returns (r: Result<ConversationId>)
    requires db.Valid() && db.clock <= now
    modifies db`requests, db`conversations, db`members, db`nextId, db`clock
    ensures db.Valid()
    ensures var caller := old(GetCurrentUser(db, identity));
            && (caller.None? ==> r == Err(Unauthorized) && unchanged(db))
            && (caller.Some? && !AddressedTo(old(db.requests), k, caller.value) ==>
                  r == Err(RequestNotAddressedToCaller) && unchanged(db))
            && (caller.Some? && AddressedTo(old(db.requests), k, caller.value) ==>
                  var from := old(db.requests)[k].fromUserId;
                  var c := old(db.nextId);
                  && r == Ok(c) && c !in old(db.conversations) && db.nextId == c + 3 && db.clock == now
                  && db.requests == old(db.requests)[k := old(db.requests)[k].(status := Accepted)]
                  && AddsDirect(old(db.conversations), old(db.members), db.conversations, db.members,
                                c, from, 0, caller.value, now, now)
                  && IsDirectWith(db.conversations, db.members, c, caller.value, from)
                  && FindDirect(db, caller.value, from).Some?)
  {
    var caller := GetCurrentUser(db, identity);
    if caller.None? {
      return Err(Unauthorized);
    }
    var me := caller.value;
    if !(k in db.requests && db.requests[k].toUserId == me) {
      return Err(RequestNotAddressedToCaller);
    }
    var c := Accept(db, k, me, now);
    r := Ok(c);
  }

  /** The writes of acceptRequest once the caller is known to be the request's recipient. */
  method Accept(db: Db, k: RequestId, me: UserId, now: nat) returns (c: ConversationId)
    requires db.Valid() && db.clock <= now && AddressedTo(db.requests, k, me)
    modifies db`requests, db`conversations, db`members, db`nextId, db`clock
    ensures db.Valid()
    ensures var from := old(db.requests)[k].fromUserId;
            && c == old(db.nextId) && c !in old(db.conversations) && db.nextId == c + 3 && db.clock == now
            && db.requests == old(db.requests)[k := old(db.requests)[k].(status := Accepted)]
            && AddsDirect(old(db.conversations), old(db.members), db.conversations, db.members, c, from, 0, me, now, now)
            && IsDirectWith(db.conversations, db.members, c, me, from)
            && FindDirect(db, me, from).Some?
  {
    var from := db.requests[k].fromUserId;
    SetStatus(db, k, Accepted);
    c := InsertDirectConversation(db, from, 0, me, now, now);
    assert IsMembershipOf(db.members[c + 1], c, from) && IsMembershipOf(db.members[c + 2], c, me);
    assert IsDirectWith(db.conversations, db.members, c, me, from);
  }

  /** declineRequest: the recipient marks the request declined; nothing else changes. */
  method DeclineRequest(db: Db, identity: Option<string>, k: RequestId) returns (r: Result<()>)
    requires db.Valid()
    modifies db`requests
    ensures db.Valid()
    ensures var caller := old(GetCurrentUser(db, identity));
            && (caller.None? ==> r == Err(Unauthorized) && unchanged(db))
            && (caller.Some? && !AddressedTo(old(db.requests), k, caller.value) ==>
                  r == Err(RequestNotAddressedToCaller) && unchanged(db))
            && (caller.Some? && AddressedTo(old(db.requests), k, caller.value) ==>
                  && r == Ok(())
                  && db.requests == old(db.requests)[k := old(db.requests)[k].(status := Declined)])
  {
    var caller := GetCurrentUser(db, identity);
    if caller.None? {
      return Err(Unauthorized);
    }
    if !(k in db.requests && db.requests[k].toUserId == caller.value) {
      return Err(RequestNotAddressedToCaller);
    }
    SetStatus(db, k, Declined);
    r := Ok(());
  }

  // ---------------------------------------------------------------- queries

  predicate IsPendingFor(q: MessageRequest, u: UserId)
  {
    q.toUserId == u && q.status == Pending
  }

  /** A pending request as getPendingIncoming returns it: the row with its sender's user row, if any. */
  datatype IncomingRequest = IncomingRequest(id: RequestId, request: MessageRequest, sender: Option<User>)

  function Incoming(users: map<UserId, User>, requests: map<RequestId, MessageRequest>, k: RequestId): IncomingRequest
    requires k in requests
  {
    var q := requests[k];
    IncomingRequest(k, q, if q.fromUserId in users then Some(users[q.fromUserId]) else None)
  }

  function IncomingAll(users: map<UserId, User>, requests: map<RequestId, MessageRequest>, ks: seq<RequestId>)
    : (r: seq<IncomingRequest>)
    requires forall i :: 0 <= i < |ks| ==> ks[i] in requests
    ensures |r| == |ks|
    ensures forall i :: 0 <= i < |ks| ==> r[i] == Incoming(users, requests, ks[i])
  {
    seq(|ks|, i requires 0 <= i < |ks| => Incoming(users, requests, ks[i]))
  }

  /** Decorating the pending requests of `u` lists each of them once, in id order, with its sender. */
  lemma {:induction false} IncomingOfPending(users: map<UserId, User>, requests: map<RequestId, MessageRequest>,
                                             u: UserId, ks: seq<RequestId>)
    requires forall i :: 0 <= i < |ks| ==> ks[i] in requests && IsPendingFor(requests[ks[i]], u)
    requires forall k :: k in requests && IsPendingFor(requests[k], u) ==> k in ks
    requires forall i, j :: 0 <= i < j < |ks| ==> ks[i] < ks[j]
    ensures var r := IncomingAll(users, requests, ks);
            && (forall k :: k in requests && IsPendingFor(requests[k], u) <==> exists i :: 0 <= i < |r| && r[i].id == k)
            && (forall i, j :: 0 <= i < j < |r| ==> r[i].id < r[j].id)
            && (forall i :: 0 <= i < |r| ==>
                  && r[i].id in requests && r[i].request == requests[r[i].id]
                  && IsPendingFor(r[i].request, u)
                  && (r[i].sender.Some? <==> r[i].request.fromUserId in users)
                  && (r[i].sender.Some? ==> r[i].sender.value == users[r[i].request.fromUserId]))
  {
    var r := IncomingAll(users, requests, ks);
    assert forall i :: 0 <= i < |r| ==> r[i].id == ks[i];
    forall k | k in requests && IsPendingFor(requests[k], u) ensures exists i :: 0 <= i < |r| && r[i].id == k {
      var i :| 0 <= i < |ks| && ks[i] == k;
      assert r[i].id == k;
    }
  }

  /** The by_toUserId index filtered on status: the pending requests addressed to `u`, in insertion order. */
  function PendingFor(db: Db, u: UserId): (r: seq<RequestId>)
    requires db.Valid()
    reads db
    ensures forall i :: 0 <= i < |r| ==> r[i] in db.requests && IsPendingFor(db.requests[r[i]], u)
    ensures forall k :: k in db.requests && IsPendingFor(db.requests[k], u) <==> k in r
    ensures forall i, j :: 0 <= i < j < |r| ==> r[i] < r[j]
  {
    Select(db.requests, (q: MessageRequest) => IsPendingFor(q, u), db.nextId)
  }

  /**
   * getPendingIncoming: for an authenticated caller, every pending request addressed to them, each
   * once, oldest first, with the sender's user row; the empty list otherwise.
   */
  function GetPendingIncoming(db: Db, identity: Option<string>): (r: seq<IncomingRequest>)
    requires db.Valid()
    reads db
    ensures GetCurrentUser(db, identity).None? ==> r == []
    ensures var caller := GetCurrentUser(db, identity);
            caller.Some? ==>
              && (forall k :: k in db.requests && IsPendingFor(db.requests[k], caller.value)
                    <==> exists i :: 0 <= i < |r| && r[i].id == k)
              && (forall i, j :: 0 <= i < j < |r| ==> r[i].id < r[j].id)
              && (forall i :: 0 <= i < |r| ==>
                    && r[i].id in db.requests && r[i].request == db.requests[r[i].id]
                    && IsPendingFor(r[i].request, caller.value)
                    && (r[i].sender.Some? <==> r[i].request.fromUserId in db.users)
                    && (r[i].sender.Some? ==> r[i].sender.value == db.users[r[i].request.fromUserId]))
  {
    var caller := GetCurrentUser(db, identity);
    if caller.None? then []
    else
      var ks := PendingFor(db, caller.value);
      IncomingOfPending(db.users, db.requests, caller.value, ks);
      IncomingAll(db.users, db.requests, ks)
  }

  /** getPendingCount: the number of pending requests addressed to the caller; 0 when unauthenticated. */
  function GetPendingCount(db: Db, identity: Option<string>): (n: nat)
    requires db.Valid()
    reads db
    ensures GetCurrentUser(db, identity).None? ==> n == 0
    ensures var caller := GetCurrentUser(db, identity);
            caller.Some? ==> n == |Matching(db.requests, (q: MessageRequest) => IsPendingFor(q, caller.value))|
  {
    var caller := GetCurrentUser(db, identity);
    if caller.None? then 0
    else
      SelectCount(db.requests, (q: MessageRequest) => IsPendingFor(q, caller.value), db.nextId);
      |PendingFor(db, caller.value)|
  }

  /** The count and the list agree: getPendingCount is the length of getPendingIncoming. */
  lemma PendingCountIsListLength(db: Db, identity: Option<string>)
    requires db.Valid()
    ensures GetPendingCount(db, identity) == |GetPendingIncoming(db, identity)|
  {
  }

  /**
   * Writing row `q` under key `k` changes the requests pending for `u` in `k` alone: `k` is pending
   * afterwards exactly when `q` is pending for `u`. So a new pending request adds one to its
   * recipient's count, and accepting or declining a pending request removes one.
   */
  lemma PendingAfterWrite(requests: map<RequestId, MessageRequest>, k: RequestId, q: MessageRequest, u: UserId)
    ensures Matching(requests[k := q], (x: MessageRequest) => IsPendingFor(x, u))
            == (Matching(requests, (x: MessageRequest) => IsPendingFor(x, u)) - {k})
               + (if IsPendingFor(q, u) then {k} else {})
  {
    var after := requests[k := q];
    var pending := Matching(requests, (x: MessageRequest) => IsPendingFor(x, u));
    forall j | j in pending && j != k ensures j in Matching(after, (x: MessageRequest) => IsPendingFor(x, u)) {
      assert after[j] == requests[j];
    }
  }

  datatype Direction = Sent | Received

  /** What getRequestStatus reports about a request between the caller and another user. */
  datatype StatusView = StatusView(direction: Direction, status: RequestStatus, requestId: RequestId)

  /**
   * getRequestStatus: the request the caller sent to `other` if there is one, else the one `other`
   * sent to the caller, else nothing; nothing when unauthenticated.
   */
  function GetRequestStatus(db: Db, identity: Option<string>, other: UserId): (r: Option<StatusView>)
    requires db.Valid()
    reads db
    ensures GetCurrentUser(db, identity).None? ==> r.None?
    ensures var caller := GetCurrentUser(db, identity);
            caller.Some? ==>
              && (r.Some? && r.value.direction == Sent <==>
                    exists k :: k in db.requests && IsRequest(db.requests[k], caller.value, other))
              && (r.Some? && r.value.direction == Received <==>
                    && (forall k :: k in db.requests ==> !IsRequest(db.requests[k], caller.value, other))
                    && exists k :: k in db.requests && IsRequest(db.requests[k], other, caller.value))
              && (r.Some? && r.value.direction == Sent ==>
                    r.value.requestId in db.requests && IsRequest(db.requests[r.value.requestId], caller.value, other)
                    && r.value.status == db.requests[r.value.requestId].status)
              && (r.Some? && r.value.direction == Received ==>
                    r.value.requestId in db.requests && IsRequest(db.requests[r.value.requestId], other, caller.value)
                    && r.value.status == db.requests[r.value.requestId].status)
  {
    var caller := GetCurrentUser(db, identity);
    if caller.None? then None
    else
      var sent := RequestBetween(db, caller.value, other);
      if sent.Some? then Some(StatusView(Sent, db.requests[sent.value].status, sent.value))
      else
        var received := RequestBetween(db, other, caller.value);
        if received.Some? then Some(StatusView(Received, db.requests[received.value].status, received.value))
        else None
  }
}
