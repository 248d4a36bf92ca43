/**
 * getConversations: one summary per conversation the caller belongs to (the
 * other members' user rows, the last message, the unread count), ordered newest
 * first by last activity. The ordering is a stable sort, so summaries with the
 * same activity time keep the order of the caller's memberships.
 */
module ConversationList {
  import opened Schema
  import opened Tables
  import opened Store
  import opened Conversations

  /** A message counted as unread for `me` in `c` past watermark `since`: a live text message by someone else, created later. */
  predicate IsUnread(m: Message, c: ConversationId, me: UserId, since: nat)
  {
    m.conversationId == c && m.created > since && !m.deleted && m.kind == Text && m.senderId != me
  }

  ghost function UnreadSet(messages: map<MessageId, Message>, c: ConversationId, me: UserId, since: nat): set<MessageId>
  {
    set k | k in messages && IsUnread(messages[k], c, me, since)
  }

  /** The unreadCount of a summary: the number of unread messages, counted over the whole table. */
  function UnreadCount(db: Db, c: ConversationId, me: UserId, since: nat): (n: nat)
    requires db.Valid()
    reads db
    ensures n == |UnreadSet(db.messages, c, me, since)|
  {
    var p := (m: Message) => IsUnread(m, c, me, since);
    SelectCount(db.messages, p, db.nextId);
    assert Matching(db.messages, p) == UnreadSet(db.messages, c, me, since);
    |Select(db.messages, p, db.nextId)|
  }

  /** A watermark at or past the store's clock leaves nothing unread. */
  lemma WatermarkAtClockClearsUnread(db: Db, c: ConversationId, me: UserId, since: nat)
    requires db.Valid() && db.clock <= since
    ensures UnreadCount(db, c, me, since) == 0
  {
    assert UnreadSet(db.messages, c, me, since) == {};
  }

  datatype ConversationSummary = ConversationSummary(
    id: ConversationId,
    conv: Conversation,
    otherUsers: seq<Option<User>>,    // None where a member's user row is missing
    lastMessage: Option<Message>,
    unreadCount: nat)

  /** `otherUser`: the first of the other members, absent when there is none. */
  function OtherUser(s: ConversationSummary): (r: Option<Option<User>>)
    ensures r.Some? <==> |s.otherUsers| > 0
    ensures r.Some? ==> r.value == s.otherUsers[0]
  {
    if |s.otherUsers| > 0 then Some(s.otherUsers[0]) else None
  }

  predicate IsOtherMember(m: Membership, c: ConversationId, me: UserId)
  {
    m.conversationId == c && m.userId != me
  }

  /** The memberships of `c` other than `me`'s, in index order. */
  function OtherMembers(db: Db, c: ConversationId, me: UserId): (r: seq<MembershipId>)
    requires db.Valid()
    reads db
    ensures forall i :: 0 <= i < |r| ==> r[i] in db.members && IsOtherMember(db.members[r[i]], c, me)
    ensures forall k :: k in db.members && IsOtherMember(db.members[k], c, me) ==> k in r
    ensures forall i, j :: 0 <= i < j < |r| ==> r[i] < r[j]
  {
    Select(db.members, (m: Membership) => IsOtherMember(m, c, me), db.nextId)
  }

  /** `ctx.db.get(m.userId)` for each row: the user, or None when the row is missing. */
  function UsersOf(users: map<UserId, User>, ks: seq<MembershipId>, members: map<MembershipId, Membership>)
    : (r: seq<Option<User>>)
    requires forall i :: 0 <= i < |ks| ==> ks[i] in members
    ensures |r| == |ks|
    ensures forall i :: 0 <= i < |ks| ==> (r[i].Some? <==> members[ks[i]].userId in users)
    ensures forall i :: 0 <= i < |ks| && r[i].Some? ==> r[i].value == users[members[ks[i]].userId]
  {
    seq(|ks|, i requires 0 <= i < |ks| =>
      if members[ks[i]].userId in users then Some(users[members[ks[i]].userId]) else None)
  }

  /** The last message, when the conversation names one and it still exists. */
  function LastMessage(db: Db, conv: Conversation): (r: Option<Message>)
    reads db
    ensures r.Some? <==> conv.lastMessageId.Some? && conv.lastMessageId.value in db.messages
    ensures r.Some? ==> r.value == db.messages[conv.lastMessageId.value]
  {
    if conv.lastMessageId.Some? && conv.lastMessageId.value in db.messages
    then Some(db.messages[conv.lastMessageId.value]) else None
  }

  /** `me`'s read watermark in `c`. */
  function LastRead(db: Db, c: ConversationId, me: UserId): (t: nat)
    requires db.Valid() && HasMember(db.members, c, me)
    reads db
    ensures forall k :: k in db.members && IsMembershipOf(db.members[k], c, me) ==> t == db.members[k].lastReadTime
  {
    db.members[MembershipOf(db, c, me).value].lastReadTime
  }

  /** The summary of conversation `c` for its member `me`. */
  function Summary(db: Db, me: UserId, c: ConversationId): (r: ConversationSummary)
    requires db.Valid() && HasMember(db.members, c, me)
    reads db
    ensures r.id == c && c in db.conversations && r.conv == db.conversations[c]
    ensures r.lastMessage == LastMessage(db, r.conv)
    ensures r.otherUsers == UsersOf(db.users, OtherMembers(db, c, me), db.members)
    ensures r.unreadCount == |UnreadSet(db.messages, c, me, LastRead(db, c, me))|
  {
    var conv := db.conversations[c];
    ConversationSummary(c, conv, UsersOf(db.users, OtherMembers(db, c, me), db.members), LastMessage(db, conv),
                        UnreadCount(db, c, me, LastRead(db, c, me)))
  }

  /**
   * `otherUser` of a summary is the user of the earliest membership of `c` held by someone other
   * than `me` (None when that user's row is missing), and is absent exactly when `me` is alone.
   */
  lemma OtherUserIsEarliestOtherMember(db: Db, me: UserId, c: ConversationId)
    requires db.Valid() && HasMember(db.members, c, me)
    ensures var s := Summary(db, me, c);
            && (OtherUser(s).Some? <==> exists k :: k in db.members && IsOtherMember(db.members[k], c, me))
            && (OtherUser(s).Some? ==>
                  exists k :: && k in db.members && IsOtherMember(db.members[k], c, me)
                              && (forall j :: j in db.members && IsOtherMember(db.members[j], c, me) ==> k <= j)
                              && OtherUser(s).value == (if db.members[k].userId in db.users
                                                        then Some(db.users[db.members[k].userId]) else None))
  {
    var s := Summary(db, me, c);
    var ks := OtherMembers(db, c, me);
    if |ks| > 0 {
      var k := ks[0];
      forall j | j in db.members && IsOtherMember(db.members[j], c, me) ensures k <= j {
        var i :| 0 <= i < |ks| && ks[i] == j;
      }
      assert OtherUser(s).value == s.otherUsers[0];
    } else {
      assert forall k :: k in db.members && IsOtherMember(db.members[k], c, me) ==> k in ks;
    }
  }

  /** The conversations of the rows `ks`, in order. */
  function ConversationsOf(members: map<MembershipId, Membership>, ks: seq<MembershipId>): (r: seq<ConversationId>)
    requires forall i :: 0 <= i < |ks| ==> ks[i] in members
    ensures |r| == |ks| && forall i :: 0 <= i < |ks| ==> r[i] == members[ks[i]].conversationId
  {
    seq(|ks|, i requires 0 <= i < |ks| => members[ks[i]].conversationId)
  }

  predicate IsOwnMembership(m: Membership, me: UserId)
  {
    m.userId == me
  }

  /** The conversations `me` belongs to, each once, in the order of `me`'s memberships. */
  function MyConversations(db: Db, me: UserId): (cs: seq<ConversationId>)
    requires db.Valid()
    reads db
    ensures forall i :: 0 <= i < |cs| ==> HasMember(db.members, cs[i], me)
    ensures forall c :: HasMember(db.members, c, me) ==> c in cs
    ensures forall i, j :: 0 <= i < j < |cs| ==> cs[i] != cs[j]
  {
    var mine := Select(db.members, (m: Membership) => IsOwnMembership(m, me), db.nextId);
    OwnConversations(db.members, me, mine);
    ConversationsOf(db.members, mine)
  }

  /** The conversations of `me`'s memberships, listed once each, are exactly the ones `me` belongs to, each once. */
  lemma OwnConversations(members: map<MembershipId, Membership>, me: UserId, mine: seq<MembershipId>)
    requires OneMembershipPerPair(members)
    requires forall i :: 0 <= i < |mine| ==> mine[i] in members && IsOwnMembership(members[mine[i]], me)
    requires forall k :: k in members && IsOwnMembership(members[k], me) ==> k in mine
    requires forall i, j :: 0 <= i < j < |mine| ==> mine[i] < mine[j]
    ensures var cs := ConversationsOf(members, mine);
            && (forall i :: 0 <= i < |cs| ==> HasMember(members, cs[i], me))
            && (forall c :: HasMember(members, c, me) ==> c in cs)
            && (forall i, j :: 0 <= i < j < |cs| ==> cs[i] != cs[j])
  {
    var cs := ConversationsOf(members, mine);
    assert forall i :: 0 <= i < |cs| ==> IsMembershipOf(members[mine[i]], cs[i], me);
    forall c | HasMember(members, c, me) ensures c in cs {
      var k :| k in members && IsMembershipOf(members[k], c, me);
      assert IsOwnMembership(members[k], me);
      var i :| 0 <= i < |mine| && mine[i] == k;
      assert cs[i] == c;
    }
    forall i, j | 0 <= i < j < |cs| ensures cs[i] != cs[j] {
      assert mine[i] != mine[j];
      assert !SamePair(members[mine[i]], members[mine[j]]);
    }
  }

  /** One summary per conversation in `cs`, in order. */
  function SummariesOf(db: Db, me: UserId, cs: seq<ConversationId>): (r: seq<ConversationSummary>)
    requires db.Valid()
    requires forall i :: 0 <= i < |cs| ==> HasMember(db.members, cs[i], me)
    reads db
    ensures |r| == |cs|
    ensures forall i :: 0 <= i < |cs| ==> r[i] == Summary(db, me, cs[i]) && r[i].id == cs[i]
  {
    seq(|cs|, i requires 0 <= i < |cs| && db.Valid() && HasMember(db.members, cs[i], me) reads db => Summary(db, me, cs[i]))
  }

  /** The summaries before sorting: one per conversation `me` belongs to, in membership order. */
  function Summaries(db: Db, me: UserId): (r: seq<ConversationSummary>)
    requires db.Valid()
    reads db
    ensures forall i :: 0 <= i < |r| ==> HasMember(db.members, r[i].id, me) && r[i] == Summary(db, me, r[i].id)
    ensures forall c :: HasMember(db.members, c, me) ==> exists i :: 0 <= i < |r| && r[i].id == c
    ensures forall i, j :: 0 <= i < j < |r| ==> r[i].id != r[j].id
  {
    var cs := MyConversations(db, me);
    SummariesOfCover(db, me, cs);
    SummariesOf(db, me, cs)
  }

  /** Summarising a list of the caller's conversations that names each of them once summarises each once. */
  lemma SummariesOfCover(db: Db, me: UserId, cs: seq<ConversationId>)
    requires db.Valid()
    requires forall i :: 0 <= i < |cs| ==> HasMember(db.members, cs[i], me)
    requires forall c :: HasMember(db.members, c, me) ==> c in cs
    requires forall i, j :: 0 <= i < j < |cs| ==> cs[i] != cs[j]
    ensures forall i :: 0 <= i < |cs| ==> SummariesOf(db, me, cs)[i].id == cs[i]
    ensures forall c :: HasMember(db.members, c, me) ==> exists i :: 0 <= i < |cs| && SummariesOf(db, me, cs)[i].id == c
  {
    var r := SummariesOf(db, me, cs);
    forall c | HasMember(db.members, c, me) ensures exists i :: 0 <= i < |r| && r[i].id == c {
      var i :| 0 <= i < |cs| && cs[i] == c;
      assert r[i].id == c;
    }
  }

  // ---------------------------------------------------------------- ordering

  /**
   * The sort key `lastMessage?._creationTime || conv._creationTime`: the last message's creation time,
   * unless there is none or it is 0 (falsy), then the conversation's.
   */
  function Recency(s: ConversationSummary): nat
  {
    if s.lastMessage.Some? && s.lastMessage.value.created != 0 then s.lastMessage.value.created else s.conv.created
  }

  predicate NewestFirst(s: seq<ConversationSummary>)
  {
    forall i, j :: 0 <= i < j < |s| ==> Recency(s[i]) >= Recency(s[j])
  }

  /** Inserts `x` into a newest-first list after every entry at least as recent. */
  function InsertByRecency(x: ConversationSummary, t: seq<ConversationSummary>): (r: seq<ConversationSummary>)
    ensures multiset(r) == multiset(t) + multiset{x}
  {
    if t == [] then [x]
    else if Recency(t[0]) >= Recency(x) then
      assert t == [t[0]] + t[1..];
      [t[0]] + InsertByRecency(x, t[1..])
    else
      [x] + t
  }

  /** Inserting into a newest-first list keeps it newest first. */
  lemma {:induction false} InsertKeepsOrder(x: ConversationSummary, t: seq<ConversationSummary>)
    requires NewestFirst(t)
    ensures NewestFirst(InsertByRecency(x, t))
  {
    if t != [] && Recency(t[0]) >= Recency(x) {
      var tail := t[1..];
      assert NewestFirst(tail) by {
        forall i, j | 0 <= i < j < |tail| ensures Recency(tail[i]) >= Recency(tail[j]) {
          assert tail[i] == t[i + 1] && tail[j] == t[j + 1];
        }
      }
      InsertKeepsOrder(x, tail);
      var rest := InsertByRecency(x, tail);
      var r := InsertByRecency(x, t);
      assert r == [t[0]] + rest;
      assert forall i :: 0 <= i < |tail| ==> tail[i] == t[i + 1];
      InsertBounded(x, tail, Recency(t[0]));
      forall i, j | 0 <= i < j < |r| ensures Recency(r[i]) >= Recency(r[j]) {
        if i == 0 {
          assert r[j] == rest[j - 1];
        } else {
          assert r[i] == rest[i - 1] && r[j] == rest[j - 1];
        }
      }
    }
  }

  /** Inserting below a bound every entry respects keeps every entry below it. */
  lemma {:induction false} InsertBounded(x: ConversationSummary, t: seq<ConversationSummary>, k: nat)
    requires Recency(x) <= k
    requires forall i :: 0 <= i < |t| ==> Recency(t[i]) <= k
    ensures forall i :: 0 <= i < |InsertByRecency(x, t)| ==> Recency(InsertByRecency(x, t)[i]) <= k
  {
    var r := InsertByRecency(x, t);
    if t != [] && Recency(t[0]) >= Recency(x) {
      var tail := t[1..];
      assert forall i :: 0 <= i < |tail| ==> tail[i] == t[i + 1];
      InsertBounded(x, tail, k);
      var rest := InsertByRecency(x, tail);
      assert r == [t[0]] + rest;
      forall i | 0 < i < |r| ensures Recency(r[i]) <= k {
        assert r[i] == rest[i - 1];
      }
    } else if t != [] {
      assert r == [x] + t;
      forall i | 0 < i < |r| ensures Recency(r[i]) <= k {
        assert r[i] == t[i - 1];
      }
    }
  }

  /** The `.sort` of getConversations: newest first, a permutation of its input. */
  function SortByRecency(s: seq<ConversationSummary>): (r: seq<ConversationSummary>)
    ensures NewestFirst(r)
    ensures multiset(r) == multiset(s)
  {
    if s == [] then []
    else
      assert s == s[..|s| - 1] + [s[|s| - 1]];
      InsertKeepsOrder(s[|s| - 1], SortByRecency(s[..|s| - 1]));
      InsertByRecency(s[|s| - 1], SortByRecency(s[..|s| - 1]))
  }

  /** The entries of `s` whose sort key is `key`, in order. */
  function WithRecency(s: seq<ConversationSummary>, key: nat): seq<ConversationSummary>
  {
    if s == [] then []
    else (if Recency(s[0]) == key then [s[0]] else []) + WithRecency(s[1..], key)
  }

  lemma {:induction false} WithRecencyConcat(a: seq<ConversationSummary>, b: seq<ConversationSummary>, key: nat)
    ensures WithRecency(a + b, key) == WithRecency(a, key) + WithRecency(b, key)
  {
    if a == [] {
      assert a + b == b;
    } else {
      var ab := a + b;
      var head := if Recency(a[0]) == key then [a[0]] else [];
      assert ab[0] == a[0] && ab[1..] == a[1..] + b;
      WithRecencyConcat(a[1..], b, key);
      assert WithRecency(ab, key) == head + WithRecency(ab[1..], key);
      assert WithRecency(a, key) == head + WithRecency(a[1..], key);
    }
  }

  lemma {:induction false} WithRecencyNone(s: seq<ConversationSummary>, key: nat)
    requires forall i :: 0 <= i < |s| ==> Recency(s[i]) < key
    ensures WithRecency(s, key) == []
  {
    if s != [] {
      WithRecencyNone(s[1..], key);
    }
  }

  /** Inserting `x` puts it after every entry with its own key. */
  lemma {:induction false} InsertKeepsTies(x: ConversationSummary, t: seq<ConversationSummary>, key: nat)
    requires NewestFirst(t)
    ensures WithRecency(InsertByRecency(x, t), key) == WithRecency(t, key) + WithRecency([x], key)
  {
    if t == [] {
    } else if Recency(t[0]) >= Recency(x) {
      var tail := t[1..];
      assert NewestFirst(tail) by {
        forall i, j | 0 <= i < j < |tail| ensures Recency(tail[i]) >= Recency(tail[j]) {
          assert tail[i] == t[i + 1] && tail[j] == t[j + 1];
        }
      }
      InsertKeepsTies(x, tail, key);
      InsertAfterHead(x, t, key);
    } else {
      InsertAtFront(x, t, key);
    }
  }

  lemma {:induction false} InsertAfterHead(x: ConversationSummary, t: seq<ConversationSummary>, key: nat)
    requires t != [] && Recency(t[0]) >= Recency(x)
    requires WithRecency(InsertByRecency(x, t[1..]), key) == WithRecency(t[1..], key) + WithRecency([x], key)
    ensures WithRecency(InsertByRecency(x, t), key) == WithRecency(t, key) + WithRecency([x], key)
  {
    var head, tail := [t[0]], t[1..];
    var rest := InsertByRecency(x, tail);
    assert WithRecency(InsertByRecency(x, t), key) == WithRecency(head, key) + WithRecency(rest, key) by {
      assert InsertByRecency(x, t) == head + rest;
      WithRecencyConcat(head, rest, key);
    }
    assert WithRecency(t, key) == WithRecency(head, key) + WithRecency(tail, key) by {
      assert t == head + tail;
      WithRecencyConcat(head, tail, key);
    }
    ConcatAssociates(WithRecency(head, key), WithRecency(tail, key), WithRecency([x], key));
  }

  lemma ConcatAssociates(a: seq<ConversationSummary>, b: seq<ConversationSummary>, c: seq<ConversationSummary>)
    ensures a + (b + c) == (a + b) + c
  {
  }

  lemma {:induction false} InsertAtFront(x: ConversationSummary, t: seq<ConversationSummary>, key: nat)
    requires NewestFirst(t) && t != [] && Recency(t[0]) < Recency(x)
    ensures WithRecency(InsertByRecency(x, t), key) == WithRecency(t, key) + WithRecency([x], key)
  {
    assert InsertByRecency(x, t) == [x] + t;
    WithRecencyConcat([x], t, key);
    if Recency(x) == key {
      WithRecencyNone(t, key);
    } else {
      assert WithRecency([x], key) == [];
    }
  }

  lemma SortByRecencyUnfold(s: seq<ConversationSummary>)
    requires s != []
    ensures SortByRecency(s) == InsertByRecency(s[|s| - 1], SortByRecency(s[..|s| - 1]))
  {
  }

  lemma WithRecencySplitLast(s: seq<ConversationSummary>, key: nat)
    requires s != []
    ensures WithRecency(s, key) == WithRecency(s[..|s| - 1] + [s[|s| - 1]], key)
  {
    assert s == s[..|s| - 1] + [s[|s| - 1]];
  }

  /** The sort is stable: summaries with equal keys come out in the order they went in. */
  lemma {:induction false} SortByRecencyStable(s: seq<ConversationSummary>, key: nat)
    ensures WithRecency(SortByRecency(s), key) == WithRecency(s, key)
  {
    if s != [] {
      var init, last := s[..|s| - 1], s[|s| - 1];
      SortByRecencyUnfold(s);
      SortByRecencyStable(init, key);
      InsertKeepsTies(last, SortByRecency(init), key);
      WithRecencyConcat(init, [last], key);
      WithRecencySplitLast(s, key);
    }
  }

  // ---------------------------------------------------------------- multiplicity

  lemma {:induction false} DistinctOccursOnce(s: seq<ConversationSummary>, x: ConversationSummary)
    requires forall i, j :: 0 <= i < j < |s| ==> s[i] != s[j]
    ensures multiset(s)[x] <= 1
  {
    if s != [] {
      assert forall i, j :: 0 <= i < j < |s[1..]| ==> s[1..][i] != s[1..][j] by {
        forall i, j | 0 <= i < j < |s[1..]| ensures s[1..][i] != s[1..][j] {
          assert s[1..][i] == s[i + 1] && s[1..][j] == s[j + 1];
        }
      }
      DistinctOccursOnce(s[1..], x);
      assert s == [s[0]] + s[1..];
      if s[0] == x {
        assert x !in s[1..];
      }
    }
  }

  /** An element occurring at most once is at no other position. */
  lemma OnceIsNowhereElse(s: seq<ConversationSummary>, i: nat, j: nat)
    requires i < j < |s| && multiset(s)[s[i]] <= 1
    ensures s[i] != s[j]
  {
    assert s == s[..j] + s[j..];
    assert s[i] in s[..j];
    assert s[j] in s[j..];
  }

  /** A permutation has the same elements and, when the ids of the original are distinct, distinct ids. */
  lemma PermutationKeepsIds(s: seq<ConversationSummary>, r: seq<ConversationSummary>)
    requires multiset(r) == multiset(s)
    requires forall i, j :: 0 <= i < j < |s| ==> s[i].id != s[j].id
    ensures forall x :: x in r <==> x in s
    ensures forall i, j :: 0 <= i < j < |r| ==> r[i].id != r[j].id
  {
    forall x ensures x in r <==> x in s {
      assert x in r <==> x in multiset(r);
      assert x in s <==> x in multiset(s);
    }
    assert forall a, b :: 0 <= a < b < |s| ==> s[a] != s[b];
    forall i, j | 0 <= i < j < |r| ensures r[i].id != r[j].id {
      DistinctOccursOnce(s, r[i]);
      OnceIsNowhereElse(r, i, j);
      assert r[i] in s && r[j] in s;
      var a :| 0 <= a < |s| && s[a] == r[i];
      var b :| 0 <= b < |s| && s[b] == r[j];
      assert a != b;
    }
  }

  // ---------------------------------------------------------------- the query

  /**
   * getConversations: for a signed-in caller, the summaries of the conversations they belong to,
   * each once, newest first; with no caller, the empty list.
   */
  function GetConversations(db: Db, identity: Option<string>): (r: seq<ConversationSummary>)
    requires db.Valid()
    reads db
    ensures GetCurrentUser(db, identity).None? ==> r == []
    ensures GetCurrentUser(db, identity).Some? ==>
              var me := GetCurrentUser(db, identity).value;
              && NewestFirst(r)
              && multiset(r) == multiset(Summaries(db, me))
              && (forall x :: x in r <==> x in Summaries(db, me))
              && (forall i, j :: 0 <= i < j < |r| ==> r[i].id != r[j].id)
  {
    var caller := GetCurrentUser(db, identity);
    if caller.None? then []
    else
      var s := Summaries(db, caller.value);
      PermutationKeepsIds(s, SortByRecency(s));
      SortByRecency(s)
  }

  /** Every conversation the caller belongs to is listed, and nothing else is. */
  lemma GetConversationsListsMemberships(db: Db, identity: Option<string>, c: ConversationId)
    requires db.Valid() && GetCurrentUser(db, identity).Some?
    ensures var r := GetConversations(db, identity);
            HasMember(db.members, c, GetCurrentUser(db, identity).value) <==> exists i :: 0 <= i < |r| && r[i].id == c
  {
    var me := GetCurrentUser(db, identity).value;
    SameIds(Summaries(db, me), GetConversations(db, identity), c);
  }

  lemma SameIds(s: seq<ConversationSummary>, r: seq<ConversationSummary>, c: ConversationId)
    requires forall x :: x in r <==> x in s
    ensures (exists i :: 0 <= i < |s| && s[i].id == c) <==> (exists i :: 0 <= i < |r| && r[i].id == c)
  {
    if exists i :: 0 <= i < |s| && s[i].id == c {
      var i :| 0 <= i < |s| && s[i].id == c;
      assert s[i] in r;
      var j :| 0 <= j < |r| && r[j] == s[i];
    }
    if exists i :: 0 <= i < |r| && r[i].id == c {
      var i :| 0 <= i < |r| && r[i].id == c;
      assert r[i] in s;
      var j :| 0 <= j < |s| && s[j] == r[i];
    }
  }

  /** Summaries whose activity times tie keep the order of the caller's memberships. */
  lemma GetConversationsKeepsTies(db: Db, identity: Option<string>, key: nat)
    requires db.Valid() && GetCurrentUser(db, identity).Some?
    ensures WithRecency(GetConversations(db, identity), key) == WithRecency(Summaries(db, GetCurrentUser(db, identity).value), key)
  {
    SortByRecencyStable(Summaries(db, GetCurrentUser(db, identity).value), key);
  }
}
