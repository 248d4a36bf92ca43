/**
 * The message store: sending a text message, listing a conversation's
 * messages with their senders, and soft-deleting a message together with its
 * reactions.
 */
module Messages {
  import opened Schema
  import opened Tables
  import opened Store
  import opened Conversations
  import opened ConversationList

  /** The row send inserts: a live text message by `sender`, with no image, reply or preview. */
  function TextMessage(c: ConversationId, sender: UserId, content: string, now: nat): (m: Message)
    ensures m.conversationId == c && m.senderId == sender && m.content == content && m.created == now
    ensures m.kind == Text && !m.deleted
    ensures m.imageStorageId.None? && m.replyToMessageId.None? && m.linkPreview.None?
  {
    Message(c, sender, content, Text, false, None, None, None, now)
  }

  /**
   * send: an authenticated member appends a text message, the conversation's lastMessageId points
   * at it, and the sender's own watermark moves to `now`, so the sender has nothing unread there.
   */
  method Send(db: Db, identity: Option<string>, c: ConversationId, content: string, now: nat)
    returns (r: Result<MessageId>)
    requires db.Valid() && db.clock <= now
    modifies db`messages, db`conversations, db`members, db`nextId, db`clock
    ensures db.Valid()
    ensures var caller := old(GetCurrentUser(db, identity));
            && (caller.None? ==> r == Err(Unauthorized) && unchanged(db))
            && (caller.Some? && !old(CheckMembership(db, c, caller.value)) ==> r == Err(NotAMember) && unchanged(db))
            && (caller.Some? && old(CheckMembership(db, c, caller.value)) ==>
                  var id := old(db.nextId);
                  var k := old(MembershipOf(db, c, caller.value)).value;
                  && r == Ok(id) && id !in old(db.messages)
                  && db.nextId == id + 1 && db.clock == now
                  && db.messages == old(db.messages)[id := TextMessage(c, caller.value, content, now)]
                  && db.conversations == old(db.conversations)[c := old(db.conversations)[c].(lastMessageId := Some(id))]
                  && db.members == old(db.members)[k := old(db.members)[k].(lastReadTime := now)]
                  && HasMember(db.members, c, caller.value)
                  && UnreadCount(db, c, caller.value, LastRead(db, c, caller.value)) == 0)
  {
    var caller := GetCurrentUser(db, identity);
    if caller.None? {
      return Err(Unauthorized);
    }
    var me := caller.value;
    if !CheckMembership(db, c, me) {
      return Err(NotAMember);
    }
    var k := MembershipOf(db, c, me).value;
    var id := AppendMessage(db, c, TextMessage(c, me, content, now));
    SetWatermark(db, k, now);
    assert IsMembershipOf(db.members[k], c, me);
    WatermarkAtClockClearsUnread(db, c, me, LastRead(db, c, me));
    r := Ok(id);
  }

  /** A message sent by someone else after a member's watermark adds exactly that message to the member's unread set. */
  lemma SentMessageIsUnreadForOthers(messages: map<MessageId, Message>, id: MessageId, c: ConversationId,
                                     sender: UserId, content: string, now: nat, reader: UserId, since: nat)
    requires id !in messages && sender != reader && since < now
    ensures UnreadSet(messages[id := TextMessage(c, sender, content, now)], c, reader, since)
            == UnreadSet(messages, c, reader, since) + {id}
  {
    var after := messages[id := TextMessage(c, sender, content, now)];
    assert IsUnread(after[id], c, reader, since);
    forall k | k in UnreadSet(messages, c, reader, since) ensures k in UnreadSet(after, c, reader, since) {
      assert after[k] == messages[k];
    }
  }

  // ---------------------------------------------------------------- list

  /** A message as list returns it: the row with its sender's name and image and whether the caller sent it. */
  datatype MessageView = MessageView(id: MessageId, msg: Message, senderName: string, senderImage: string, isMe: bool)

  /** `sender?.name || "Unknown User"`: a missing sender or an empty name reads as "Unknown User". */
  function SenderName(users: map<UserId, User>, u: UserId): (s: string)
    ensures u in users && users[u].name != "" ==> s == users[u].name
    ensures u !in users || users[u].name == "" ==> s == "Unknown User"
  {
    if u in users && users[u].name != "" then users[u].name else "Unknown User"
  }

  /** `sender?.imageUrl || ""`: the sender's image, or the empty string when the sender is missing. */
  function SenderImage(users: map<UserId, User>, u: UserId): (s: string)
    ensures u in users ==> s == users[u].imageUrl
    ensures u !in users ==> s == ""
  {
    if u in users then users[u].imageUrl else ""
  }

  function ViewMessage(users: map<UserId, User>, messages: map<MessageId, Message>, id: MessageId, me: UserId): MessageView
    requires id in messages
  {
    var m := messages[id];
    MessageView(id, m, SenderName(users, m.senderId), SenderImage(users, m.senderId), m.senderId == me)
  }

  function ViewMessages(users: map<UserId, User>, messages: map<MessageId, Message>, ids: seq<MessageId>, me: UserId)
    : (r: seq<MessageView>)
    requires forall i :: 0 <= i < |ids| ==> ids[i] in messages
    ensures |r| == |ids|
    ensures forall i :: 0 <= i < |ids| ==> r[i] == ViewMessage(users, messages, ids[i], me)
  {
    seq(|ids|, i requires 0 <= i < |ids| => ViewMessage(users, messages, ids[i], me))
  }

  predicate InConversationOf(m: Message, c: ConversationId)
  {
    m.conversationId == c
  }

  /** Viewing the ids an index lists for `c` views each message of `c` once, in id order. */
  lemma {:induction false} ViewsOfConversation(users: map<UserId, User>, messages: map<MessageId, Message>, c: ConversationId,
                                               ids: seq<MessageId>, me: UserId)
    requires forall i :: 0 <= i < |ids| ==> ids[i] in messages && messages[ids[i]].conversationId == c
    requires forall k :: k in messages && messages[k].conversationId == c ==> k in ids
    requires forall i, j :: 0 <= i < j < |ids| ==> ids[i] < ids[j]
    ensures var r := ViewMessages(users, messages, ids, me);
            && (forall k :: k in messages && messages[k].conversationId == c <==> exists i :: 0 <= i < |r| && r[i].id == k)
            && (forall i, j :: 0 <= i < j < |r| ==> r[i].id < r[j].id)
            && (forall i :: 0 <= i < |r| ==>
                  && r[i].id in messages && r[i].msg == messages[r[i].id]
                  && (r[i].isMe <==> r[i].msg.senderId == me)
                  && r[i].senderName == SenderName(users, r[i].msg.senderId)
                  && r[i].senderImage == SenderImage(users, r[i].msg.senderId))
  {
    var r := ViewMessages(users, messages, ids, me);
    assert forall i :: 0 <= i < |r| ==> r[i].id == ids[i];
    forall k | k in messages && messages[k].conversationId == c ensures exists i :: 0 <= i < |r| && r[i].id == k {
      var i :| 0 <= i < |ids| && ids[i] == k;
      assert r[i].id == k;
    }
  }

  /**
   * list: for a member, every message of the conversation (deleted ones included), oldest first, each
   * once, with `isMe` exactly when the caller sent it; otherwise the empty list.
   */
  function List(db: Db, identity: Option<string>, c: ConversationId): (r: seq<MessageView>)
    requires db.Valid()
    reads db
    ensures var caller := GetCurrentUser(db, identity);
            caller.None? || !HasMember(db.members, c, caller.value) ==> r == []
    ensures var caller := GetCurrentUser(db, identity);
            caller.Some? && HasMember(db.members, c, caller.value) ==>
              && (forall k :: k in db.messages && db.messages[k].conversationId == c <==> exists i :: 0 <= i < |r| && r[i].id == k)
              && (forall i, j :: 0 <= i < j < |r| ==> r[i].id < r[j].id)
              && (forall i :: 0 <= i < |r| ==>
                    && r[i].id in db.messages && r[i].msg == db.messages[r[i].id]
                    && (r[i].isMe <==> r[i].msg.senderId == caller.value)
                    && r[i].senderName == SenderName(db.users, r[i].msg.senderId)
                    && r[i].senderImage == SenderImage(db.users, r[i].msg.senderId))
  {
    var caller := GetCurrentUser(db, identity);
    if caller.None? || !CheckMembership(db, c, caller.value) then []
    else
      var ids := Select(db.messages, (m: Message) => InConversationOf(m, c), db.nextId);
      ViewsOfConversation(db.users, db.messages, c, ids, caller.value);
      ViewMessages(db.users, db.messages, ids, caller.value)
  }

  // ---------------------------------------------------------------- remove

  /** The reactions left after deleting every reaction of message `id`. */
  function ReactionsWithout(reactions: map<ReactionId, Reaction>, id: MessageId): (r: map<ReactionId, Reaction>)
    ensures forall k :: k in r <==> k in reactions && reactions[k].messageId != id
    ensures forall k :: k in r ==> r[k] == reactions[k]
  {
    map k | k in reactions && reactions[k].messageId != id :: reactions[k]
  }

  predicate OnMessage(x: Reaction, id: MessageId)
  {
    x.messageId == id
  }

  /** The cleanup loop of remove: deletes, one by one, every reaction whose messageId is `id`. */
  method DeleteReactionsOf(db: Db, id: MessageId)
    requires db.Valid()
    modifies db`reactions
    ensures db.Valid()
    ensures db.reactions == ReactionsWithout(old(db.reactions), id)
  {
    var ks := Select(db.reactions, (x: Reaction) => OnMessage(x, id), db.nextId);
    DeleteEach(db, ks, id);
    RemainingReactions(old(db.reactions), db.reactions, id);
  }

  /** Deletes the reactions `ks`, which are exactly those of message `id`, one at a time. */
  method DeleteEach(db: Db, ks: seq<ReactionId>, id: MessageId)
    requires forall j :: 0 <= j < |ks| ==> ks[j] in db.reactions && db.reactions[ks[j]].messageId == id
    requires forall k :: k in db.reactions && db.reactions[k].messageId == id ==> k in ks
    requires forall a, b :: 0 <= a < b < |ks| ==> ks[a] < ks[b]
    modifies db`reactions
    ensures forall k :: k in db.reactions ==> k in old(db.reactions) && db.reactions[k] == old(db.reactions)[k]
    ensures forall k :: k in old(db.reactions) && old(db.reactions)[k].messageId != id ==> k in db.reactions
    ensures forall k :: k in db.reactions ==> old(db.reactions)[k].messageId != id
  {
    ghost var before := db.reactions;
    for i := 0 to |ks|
      invariant forall k :: k in db.reactions ==> k in before && db.reactions[k] == before[k]
      invariant forall k :: k in before && before[k].messageId != id ==> k in db.reactions
      invariant forall j :: i <= j < |ks| ==> ks[j] in db.reactions && before[ks[j]].messageId == id
      invariant forall k :: k in db.reactions && before[k].messageId == id ==> k in ks[i..]
    {
      db.reactions := db.reactions - {ks[i]};
      forall k | k in db.reactions && before[k].messageId == id ensures k in ks[i + 1..] {
        var j :| i <= j < |ks| && ks[j] == k;
        assert j != i;
      }
    }
  }

  lemma RemainingReactions(before: map<ReactionId, Reaction>, after: map<ReactionId, Reaction>, id: MessageId)
    requires OneReactionPerTriple(before)
    requires forall k :: k in after ==> k in before && after[k] == before[k]
    requires forall k :: k in before && before[k].messageId != id ==> k in after
    requires forall k :: k in after ==> before[k].messageId != id
    ensures after == ReactionsWithout(before, id)
    ensures OneReactionPerTriple(after)
  {
    forall a, b | a in after && b in after && after[a] == after[b] ensures a == b {
      assert before[a] == before[b];
    }
  }

  /**
   * remove: only the sender of an existing message may remove it; the row is kept, marked deleted
   * with its content replaced, and every reaction to it is deleted while all others are kept.
   */
  method Remove(db: Db, identity: Option<string>, id: MessageId) returns (r: Result<()>)
    requires db.Valid()
    modifies db`messages, db`reactions
    ensures db.Valid()
    ensures var caller := old(GetCurrentUser(db, identity));
            && (caller.None? ==> r == Err(Unauthorized) && unchanged(db))
            && (caller.Some? && (id !in old(db.messages) || old(db.messages)[id].senderId != caller.value) ==>
                  r == Err(NotSenderOrNotFound) && unchanged(db))
            && (caller.Some? && id in old(db.messages) && old(db.messages)[id].senderId == caller.value ==>
                  && r == Ok(())
                  && db.messages == old(db.messages)[id := old(db.messages)[id].(deleted := true, content := "This message was deleted")]
                  && db.reactions == ReactionsWithout(old(db.reactions), id))
  {
    var caller := GetCurrentUser(db, identity);
    if caller.None? {
      return Err(Unauthorized);
    }
    if id !in db.messages || db.messages[id].senderId != caller.value {
      return Err(NotSenderOrNotFound);
    }
    db.messages := db.messages[id := db.messages[id].(deleted := true, content := "This message was deleted")];
    DeleteReactionsOf(db, id);
    r := Ok(());
  }

  /** A removed message is no longer counted as unread for anyone. */
  lemma RemovedMessageIsNotUnread(messages: map<MessageId, Message>, id: MessageId, c: ConversationId, reader: UserId, since: nat)
    requires id in messages
    ensures UnreadSet(messages[id := messages[id].(deleted := true, content := "This message was deleted")], c, reader, since)
            == UnreadSet(messages, c, reader, since) - {id}
  {
    var after := messages[id := messages[id].(deleted := true, content := "This message was deleted")];
    forall k | k in UnreadSet(messages, c, reader, since) - {id} ensures k in UnreadSet(after, c, reader, since) {
      assert after[k] == messages[k];
    }
  }
}
