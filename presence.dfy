/**
 * Presence: each signed-in user's heartbeat records whether they are online,
 * whether they are typing and which conversation they have open. Readers see
 * only heartbeats less than ten seconds old.
 */
module PresenceTracking {
  import opened Schema
  import opened Tables
  import opened Store
  import opened Conversations
  import opened Users

  /** How long, in milliseconds, a heartbeat stays visible. */
  const StaleAfter: nat := 10000

  predicate IsPresenceOf(p: Presence, u: UserId)
  {
    p.userId == u
  }

  /** The by_userId lookup: the one presence row of `u`. */
  function PresenceOf(db: Db, u: UserId): (r: Option<PresenceId>)
    requires db.Valid()
    reads db
    ensures r.Some? ==> r.value in db.presence && db.presence[r.value].userId == u
    ensures forall k :: k in db.presence && db.presence[k].userId == u ==> r == Some(k)
    ensures r.None? <==> forall k :: k in db.presence ==> db.presence[k].userId != u
  {
    Find(db.presence, (p: Presence) => IsPresenceOf(p, u), db.nextId)
  }

  /** Writes `u`'s presence row: patched in place when there is one, inserted otherwise. */
  method UpsertPresence(db: Db, u: UserId, isTyping: bool, conversationId: Option<ConversationId>, now: nat)
    requires db.Valid()
    modifies db`presence, db`nextId
    ensures db.Valid()
    ensures old(PresenceOf(db, u)).Some? ==>
              var k := old(PresenceOf(db, u)).value;
              && db.nextId == old(db.nextId)
              && db.presence == old(db.presence)[k := old(db.presence)[k].(isTyping := isTyping,
                                                                         conversationId := conversationId,
                                                                         lastActive := now)]
    ensures old(PresenceOf(db, u)).None? ==>
              && db.nextId == old(db.nextId) + 1 && old(db.nextId) !in old(db.presence)
              && db.presence == old(db.presence)[old(db.nextId) := Presence(u, isTyping, conversationId, now)]
    ensures PresenceOf(db, u).Some? && db.presence[PresenceOf(db, u).value] == Presence(u, isTyping, conversationId, now)
  {
    ghost var before := db.presence;
    var existing := PresenceOf(db, u);
    var k: PresenceId;
    if existing.Some? {
      k := existing.value;
      db.presence := db.presence[k := db.presence[k].(isTyping := isTyping, conversationId := conversationId, lastActive := now)];
      assert forall j :: j in db.presence ==> db.presence[j].userId == before[j].userId;
    } else {
      k := db.NewId();
      db.presence := db.presence[k := Presence(u, isTyping, conversationId, now)];
      assert forall j :: j in before ==> before[j].userId != u;
      assert OnePresencePerUser(db.presence) by {
        forall a, b | a in db.presence && b in db.presence && db.presence[a].userId == db.presence[b].userId
          ensures a == b
        {
          if a != k && b != k {
            assert before[a].userId == before[b].userId;
          }
        }
      }
    }
    assert db.presence[k].userId == u;
  }

  /**
   * updatePresence: an unauthenticated call changes nothing. Otherwise the caller's user row gets
   * `isOnline` and `lastSeen := now`, and the caller's one presence row records `isTyping`, the
   * conversation passed (absent included) and `lastActive := now`, patched or inserted. No user
   * ever has two presence rows.
   */
  method UpdatePresence(db: Db, identity: Option<string>, isOnline: bool, isTyping: bool,
                        conversationId: Option<ConversationId>, now: nat)
    requires db.Valid()
    modifies db`users, db`presence, db`nextId
    ensures db.Valid()
    ensures var caller := old(GetCurrentUser(db, identity));
            && (caller.None? ==> unchanged(db))
            && (caller.Some? ==>
                  var me := caller.value;
                  && db.users == old(db.users)[me := old(db.users)[me].(isOnline := isOnline, lastSeen := now)]
                  && PresenceOf(db, me).Some?
                  && db.presence[PresenceOf(db, me).value] == Presence(me, isTyping, conversationId, now)
                  && (forall k :: k in db.presence && db.presence[k].userId != me ==>
                        k in old(db.presence) && db.presence[k] == old(db.presence)[k])
                  && (forall k :: k in old(db.presence) ==> k in db.presence))
  {
    var caller := GetCurrentUser(db, identity);
    if caller.None? {
      return;
    }
    var me := caller.value;
    SetOnline(db, me, isOnline, now);
    UpsertPresence(db, me, isTyping, conversationId, now);
  }

  /** A heartbeat still visible at `now`: `lastActive > now - 10000`, with the subtraction in integers. */
  predicate IsFresh(p: Presence, now: nat)
  {
    p.lastActive as int > now as int - StaleAfter as int
  }

  /** The rows getPresence keeps: in conversation `c`, not the reader's own, and fresh. */
  predicate Shown(p: Presence, c: ConversationId, reader: UserId, now: nat)
  {
    p.conversationId == Some(c) && p.userId != reader && IsFresh(p, now)
  }

  /** A presence row as getPresence returns it: the row with its user's row, if any. */
  datatype PresenceView = PresenceView(id: PresenceId, row: Presence, user: Option<User>)

  function ViewPresence(users: map<UserId, User>, presence: map<PresenceId, Presence>, k: PresenceId): PresenceView
    requires k in presence
  {
    var p := presence[k];
    PresenceView(k, p, if p.userId in users then Some(users[p.userId]) else None)
  }

  function ViewsOf(users: map<UserId, User>, presence: map<PresenceId, Presence>, ks: seq<PresenceId>)
    : (r: seq<PresenceView>)
    requires forall i :: 0 <= i < |ks| ==> ks[i] in presence
    ensures |r| == |ks|
    ensures forall i :: 0 <= i < |ks| ==> r[i] == ViewPresence(users, presence, ks[i])
  {
    seq(|ks|, i requires 0 <= i < |ks| => ViewPresence(users, presence, ks[i]))
  }

  /** Viewing the shown rows lists each of them once, in id order, with its user. */
  lemma {:induction false} ViewsOfShown(users: map<UserId, User>, presence: map<PresenceId, Presence>,
                                        c: ConversationId, reader: UserId, now: nat, ks: seq<PresenceId>)
    requires forall i :: 0 <= i < |ks| ==> ks[i] in presence && Shown(presence[ks[i]], c, reader, now)
    requires forall k :: k in presence && Shown(presence[k], c, reader, now) ==> k in ks
    requires forall i, j :: 0 <= i < j < |ks| ==> ks[i] < ks[j]
    ensures var r := ViewsOf(users, presence, ks);
            && (forall k :: k in presence && Shown(presence[k], c, reader, now) <==> exists i :: 0 <= i < |r| && r[i].id == k)
            && (forall i, j :: 0 <= i < j < |r| ==> r[i].id < r[j].id)
            && (forall i :: 0 <= i < |r| ==>
                  && r[i].id in presence && r[i].row == presence[r[i].id]
                  && Shown(r[i].row, c, reader, now)
                  && (r[i].user.Some? <==> r[i].row.userId in users)
                  && (r[i].user.Some? ==> r[i].user.value == users[r[i].row.userId]))
  {
    var r := ViewsOf(users, presence, ks);
    assert forall i :: 0 <= i < |r| ==> r[i].id == ks[i];
    forall k | k in presence && Shown(presence[k], c, reader, now) ensures exists i :: 0 <= i < |r| && r[i].id == k {
      var i :| 0 <= i < |ks| && ks[i] == k;
      assert r[i].id == k;
    }
  }

  /**
   * getPresence: for an authenticated reader, the presence rows of conversation `c` other than the
   * reader's own whose heartbeat is less than ten seconds old at `now`, each once, in insertion
   * order, with the user row; the empty list otherwise.
   */
  function GetPresence(db: Db, identity: Option<string>, c: ConversationId, now: nat): (r: seq<PresenceView>)
    requires db.Valid()
    reads db
    ensures GetCurrentUser(db, identity).None? ==> r == []
    ensures var caller := GetCurrentUser(db, identity);
            caller.Some? ==>
              && (forall k :: k in db.presence && Shown(db.presence[k], c, caller.value, now)
                    <==> exists i :: 0 <= i < |r| && r[i].id == k)
              && (forall i, j :: 0 <= i < j < |r| ==> r[i].id < r[j].id)
              && (forall i :: 0 <= i < |r| ==>
                    && r[i].id in db.presence && r[i].row == db.presence[r[i].id]
                    && r[i].row.conversationId == Some(c) && r[i].row.userId != caller.value
                    && r[i].row.lastActive + StaleAfter > now
                    && (r[i].user.Some? <==> r[i].row.userId in db.users)
                    && (r[i].user.Some? ==> r[i].user.value == db.users[r[i].row.userId]))
  {
    var caller := GetCurrentUser(db, identity);
    if caller.None? then []
    else
      var ks := Select(db.presence, (p: Presence) => Shown(p, c, caller.value, now), db.nextId);
      ViewsOfShown(db.users, db.presence, c, caller.value, now, ks);
      ViewsOf(db.users, db.presence, ks)
  }

  /**
   * A heartbeat for conversation `c` at time `t` is shown to every other member reading at
   * `now` from `t` up to, but not including, `t + 10000`, and to no one from then on.
   */
  lemma HeartbeatWindow(u: UserId, isTyping: bool, c: ConversationId, t: nat, reader: UserId, now: nat)
    requires reader != u && t <= now
    ensures Shown(Presence(u, isTyping, Some(c), t), c, reader, now) <==> now < t + StaleAfter
  {
  }
}
