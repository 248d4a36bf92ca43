/**
 * Emoji reactions: toggling the caller's (message, user, emoji) reaction on
 * or off, and listing the reactions of a batch of messages.
 */
module Reactions {
  import opened Schema
  import opened Tables
  import opened Store
  import opened Conversations

  /** The (message, user, emoji) triples present in the reactions table. */
  ghost function Triples(reactions: map<ReactionId, Reaction>): set<Reaction>
  {
    set k | k in reactions :: reactions[k]
  }

  /** `x` switched: removed when present, added when absent. */
  ghost function Flip(s: set<Reaction>, x: Reaction): set<Reaction>
  {
    if x in s then s - {x} else s + {x}
  }

  /**
   * The reactions table after switching triple `x`: the row holding `x` is deleted when there is
   * one, otherwise `x` is inserted under the unused key `newKey`.
   */
  ghost function Toggled(reactions: map<ReactionId, Reaction>, x: Reaction, newKey: ReactionId): (r: map<ReactionId, Reaction>)
    requires OneReactionPerTriple(reactions) && newKey !in reactions
    ensures Triples(r) == Flip(Triples(reactions), x)
    ensures OneReactionPerTriple(r)
    ensures x in Triples(reactions) ==> newKey !in r && r.Keys < reactions.Keys
    ensures x !in Triples(reactions) ==> r.Keys == reactions.Keys + {newKey} && r[newKey] == x
    ensures forall k :: k in r && k != newKey ==> k in reactions && r[k] == reactions[k]
    ensures forall k :: k in reactions && reactions[k] != x ==> k in r
  {
    if x in Triples(reactions) then
      var k :| k in reactions && reactions[k] == x;
      DeleteTriple(reactions, k);
      reactions - {k}
    else
      InsertTriple(reactions, newKey, x);
      reactions[newKey := x]
  }

  /** The by_messageId lookup filtered on user and emoji: the one row that is exactly `x`. */
  function ReactionKey(db: Db, x: Reaction): (r: Option<ReactionId>)
    requires db.Valid()
    reads db
    ensures r.Some? ==> r.value in db.reactions && db.reactions[r.value] == x
    ensures forall k :: k in db.reactions && db.reactions[k] == x ==> r == Some(k)
    ensures r.None? <==> x !in Triples(db.reactions)
  {
    Find(db.reactions, (y: Reaction) => y == x, db.nextId)
  }

  /** Deleting the row under `k` removes exactly its triple and keeps every triple unique. */
  lemma DeleteTriple(before: map<ReactionId, Reaction>, k: ReactionId)
    requires OneReactionPerTriple(before) && k in before
    ensures Triples(before - {k}) == Triples(before) - {before[k]}
    ensures OneReactionPerTriple(before - {k})
  {
    var after := before - {k};
    forall y | y in Triples(after) ensures y in Triples(before) - {before[k]} {
      var j :| j in after && after[j] == y;
      assert j != k && before[j] == y;
    }
    forall y | y in Triples(before) - {before[k]} ensures y in Triples(after) {
      var j :| j in before && before[j] == y;
      assert j != k && after[j] == y;
    }
  }

  /** Inserting an absent triple under an unused key adds exactly that triple and keeps every triple unique. */
  lemma InsertTriple(before: map<ReactionId, Reaction>, k: ReactionId, x: Reaction)
    requires OneReactionPerTriple(before) && k !in before && x !in Triples(before)
    ensures Triples(before[k := x]) == Triples(before) + {x}
    ensures OneReactionPerTriple(before[k := x])
  {
    var after := before[k := x];
    assert after[k] == x;
    forall y | y in Triples(before) ensures y in Triples(after) {
      var j :| j in before && before[j] == y;
      assert after[j] == y;
    }
    forall j | j in before ensures before[j] != x {
      assert before[j] in Triples(before);
    }
  }

  /**
   * toggleReaction: an authenticated member of the message's conversation switches the
   * (message, caller, emoji) reaction; a missing or deleted message and a non-member caller are
   * refused with nothing written.
   */
  method ToggleReaction(db: Db, identity: Option<string>, id: MessageId, emoji: string) returns (r: Result<()>)
    requires db.Valid()
    modifies db`reactions, db`nextId
    ensures db.Valid()
    ensures var caller := old(GetCurrentUser(db, identity));
            && (caller.None? ==> r == Err(Unauthorized) && unchanged(db))
            && (caller.Some? && (id !in old(db.messages) || old(db.messages)[id].deleted) ==>
                  r == Err(MessageNotFoundOrDeleted) && unchanged(db))
            && (caller.Some? && id in old(db.messages) && !old(db.messages)[id].deleted
                && !old(CheckMembership(db, db.messages[id].conversationId, caller.value)) ==>
                  r == Err(NotAMember) && unchanged(db))
            && (caller.Some? && id in old(db.messages) && !old(db.messages)[id].deleted
                && old(CheckMembership(db, db.messages[id].conversationId, caller.value)) ==>
                  var x := Reaction(id, caller.value, emoji);
                  && r == Ok(())
                  && db.reactions == Toggled(old(db.reactions), x, old(db.nextId))
                  && db.nextId == old(db.nextId) + (if x in old(Triples(db.reactions)) then 0 else 1))
  {
    var caller := GetCurrentUser(db, identity);
    if caller.None? {
      return Err(Unauthorized);
    }
    if id !in db.messages || db.messages[id].deleted {
      return Err(MessageNotFoundOrDeleted);
    }
    if !CheckMembership(db, db.messages[id].conversationId, caller.value) {
      return Err(NotAMember);
    }
    Toggle(db, Reaction(id, caller.value, emoji));
    r := Ok(());
  }

  /** Switches triple `x`: deletes its row when there is one, inserts it under a new id otherwise. */
  method Toggle(db: Db, x: Reaction)
    requires db.Valid()
    modifies db`reactions, db`nextId
    ensures db.Valid()
    ensures db.reactions == Toggled(old(db.reactions), x, old(db.nextId))
    ensures db.nextId == old(db.nextId) + (if x in old(Triples(db.reactions)) then 0 else 1)
  {
    var existing := ReactionKey(db, x);
    if existing.Some? {
      DeleteTriple(db.reactions, existing.value);
      db.reactions := db.reactions - {existing.value};
    } else {
      var k := db.NewId();
      InsertTriple(db.reactions, k, x);
      db.reactions := db.reactions[k := x];
    }
  }

  /**
   * Toggling twice restores the set of triples; when the first toggle added the reaction, the
   * second deletes that very row and the table is exactly as before.
   */
  lemma ToggleTwiceRestores(reactions: map<ReactionId, Reaction>, x: Reaction, fresh1: ReactionId, fresh2: ReactionId)
    requires OneReactionPerTriple(reactions) && fresh1 !in reactions && fresh1 != fresh2 && fresh2 !in reactions
    ensures Triples(Toggled(Toggled(reactions, x, fresh1), x, fresh2)) == Triples(reactions)
    ensures x !in Triples(reactions) ==> Toggled(Toggled(reactions, x, fresh1), x, fresh2) == reactions
  {
    var middle := Toggled(reactions, x, fresh1);
    if x !in Triples(reactions) {
      assert middle == reactions[fresh1 := x];
      assert middle[fresh1] == x;
      assert Toggled(middle, x, fresh2) == middle - {fresh1};
      assert middle - {fresh1} == reactions;
    }
  }

  /** A reaction row as getReactions returns it: its id and its fields. */
  datatype ReactionDoc = ReactionDoc(id: ReactionId, row: Reaction)

  function Docs(reactions: map<ReactionId, Reaction>, ks: seq<ReactionId>): (r: seq<ReactionDoc>)
    requires forall i :: 0 <= i < |ks| ==> ks[i] in reactions
    ensures |r| == |ks|
    ensures forall i :: 0 <= i < |ks| ==> r[i] == ReactionDoc(ks[i], reactions[ks[i]])
  {
    seq(|ks|, i requires 0 <= i < |ks| => ReactionDoc(ks[i], reactions[ks[i]]))
  }

  /** The by_messageId index: every reaction to message `m`, each once, in insertion order. */
  function ReactionsOn(db: Db, m: MessageId): (r: seq<ReactionDoc>)
    requires db.Valid()
    reads db
    ensures forall i :: 0 <= i < |r| ==> r[i].id in db.reactions && db.reactions[r[i].id] == r[i].row && r[i].row.messageId == m
    ensures forall k :: k in db.reactions && db.reactions[k].messageId == m ==> exists i :: 0 <= i < |r| && r[i].id == k
    ensures forall i, j :: 0 <= i < j < |r| ==> r[i].id < r[j].id
  {
    var ks := Select(db.reactions, (x: Reaction) => OnMessageId(x, m), db.nextId);
    DocsOfMessage(db.reactions, m, ks);
    Docs(db.reactions, ks)
  }

  /** The documents of the ids of message `m`'s reactions name each of those reactions. */
  lemma DocsOfMessage(reactions: map<ReactionId, Reaction>, m: MessageId, ks: seq<ReactionId>)
    requires forall i :: 0 <= i < |ks| ==> ks[i] in reactions
    requires forall k :: k in reactions && OnMessageId(reactions[k], m) ==> k in ks
    ensures var r := Docs(reactions, ks);
            forall k :: k in reactions && reactions[k].messageId == m ==> exists i :: 0 <= i < |r| && r[i].id == k
  {
    var r := Docs(reactions, ks);
    forall k | k in reactions && reactions[k].messageId == m ensures exists i :: 0 <= i < |r| && r[i].id == k {
      assert OnMessageId(reactions[k], m);
      var i :| 0 <= i < |ks| && ks[i] == k;
      assert r[i].id == k;
    }
  }

  predicate OnMessageId(x: Reaction, m: MessageId)
  {
    x.messageId == m
  }

  /**
   * getReactions: for an authenticated identity, a map from each requested message id to all of
   * its reactions; an unauthenticated request gets the empty map. Only the identity is checked.
   */
  method GetReactions(db: Db, identity: Option<string>, messageIds: seq<MessageId>)
    returns (r: map<MessageId, seq<ReactionDoc>>)
    requires db.Valid()
    ensures identity.None? ==> r == map[]
    ensures identity.Some? ==> forall m :: m in r <==> m in messageIds
    ensures forall m :: m in r ==> r[m] == ReactionsOn(db, m)
  {
    r := map[];
    if identity.None? {
      return;
    }
    for i := 0 to |messageIds|
      invariant forall m :: m in r <==> m in messageIds[..i]
      invariant forall m :: m in r ==> r[m] == ReactionsOn(db, m)
    {
      r := r[messageIds[i] := ReactionsOn(db, messageIds[i])];
      assert messageIds[..i + 1] == messageIds[..i] + [messageIds[i]];
    }
    assert messageIds[..|messageIds|] == messageIds;
  }
}
