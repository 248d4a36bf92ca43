/**
 * The conversation manager: direct and group conversations, membership
 * changes with their system messages, invite codes, the conversation list with
 * unread counts, read watermarks and read status.
 *
 * Each handler takes the store, the caller's identity subject (None when the
 * request is unauthenticated) and, where the handler reads the clock, `now`.
 */
module Conversations {
  import opened Schema
  import opened Tables
  import opened Store
  import Text

  // ---------------------------------------------------------------- shared helpers

  /** getCurrentUser: the user row of the authenticated identity, if both exist. */
  function GetCurrentUser(db: Db, identity: Option<string>): (r: Option<UserId>)
    requires db.Valid()
    reads db
    ensures r.Some? ==> identity.Some? && r.value in db.users && db.users[r.value].clerkId == identity.value
    ensures r.None? ==> identity.None? || forall id :: id in db.users ==> db.users[id].clerkId != identity.value
  {
    if identity.None? then None else UserByClerkId(db, identity.value)
  }

  predicate HasMember(members: map<MembershipId, Membership>, c: ConversationId, u: UserId)
  {
    exists k :: k in members && IsMembershipOf(members[k], c, u)
  }

  /** Adding row `m` under a fresh key adds exactly `m`'s (conversation, user) pair to the members. */
  lemma HasMemberAfterInsert(members: map<MembershipId, Membership>, k: MembershipId, m: Membership,
                             c: ConversationId, u: UserId)
    requires k !in members
    ensures HasMember(members[k := m], c, u) <==> HasMember(members, c, u) || IsMembershipOf(m, c, u)
  {
    if HasMember(members, c, u) {
      var j :| j in members && IsMembershipOf(members[j], c, u);
      assert IsMembershipOf(members[k := m][j], c, u);
    }
    if IsMembershipOf(m, c, u) {
      assert IsMembershipOf(members[k := m][k], c, u);
    }
  }

  /** Inserts a membership for a (conversation, user) pair that has none yet. */
  method InsertMembership(db: Db, m: Membership) returns (k: MembershipId)
    requires db.Valid() && m.conversationId in db.conversations
    requires !HasMember(db.members, m.conversationId, m.userId)
    modifies db`members, db`nextId
    ensures db.Valid()
    ensures k == old(db.nextId) && db.nextId == k + 1 && k !in old(db.members)
    ensures db.members == old(db.members)[k := m]
  {
    ghost var ms := db.members;
    k := db.NewId();
    db.members := db.members[k := m];
    assert OneMembershipPerPair(db.members) by {
      forall a, b | a in db.members && b in db.members && SamePair(db.members[a], db.members[b]) ensures a == b {
        if a in ms && b in ms && a != k && b != k {
          assert SamePair(ms[a], ms[b]);
        } else if a == k && b != k {
          assert IsMembershipOf(ms[b], m.conversationId, m.userId);
        } else if b == k && a != k {
          assert IsMembershipOf(ms[a], m.conversationId, m.userId);
        }
      }
    }
  }

  /** checkMembership: whether `u` holds a membership row in `c`. */
  function CheckMembership(db: Db, c: ConversationId, u: UserId): (r: bool)
    requires db.Valid()
    reads db
    ensures r <==> HasMember(db.members, c, u)
    ensures r ==> c in db.conversations
  {
    MembershipOf(db, c, u).Some?
  }

  /** generateCode, with the random base-36 string `Math.random().toString(36)` supplied. */
  function GenerateCode(random: string): (code: string)
    ensures |code| <= 8
    ensures forall i :: 0 <= i < |code| ==> !Text.IsLowerAscii(code[i])
  {
    Text.Upper(Text.Substring(random, 2, 10))
  }

  /** A generated code is found by joinByInviteCode whatever case the joiner types it in. */
  lemma GeneratedCodeMatchesAnyCase(random: string)
    ensures var code := GenerateCode(random);
            Text.Upper(code) == code && Text.Upper(Text.Lower(code)) == code
  {
    var code := GenerateCode(random);
    Text.UpperFixes(code);
    Text.UpperLowerRestores(code);
  }

  function UserName(db: Db, u: UserId): string
    reads db
  {
    if u in db.users then db.users[u].name else ""
  }

  function SystemMessage(c: ConversationId, sender: UserId, content: string, now: nat): Message
  {
    Message(c, sender, content, System, false, None, None, None, now)
  }

  /** Appends message `m` to conversation `c` and points the conversation's lastMessageId at it. */
  method AppendMessage(db: Db, c: ConversationId, m: Message) returns (id: MessageId)
    requires db.Valid() && db.clock <= m.created && c in db.conversations
    modifies db`messages, db`conversations, db`nextId, db`clock
    ensures db.Valid()
    ensures id == old(db.nextId) && db.nextId == id + 1 && db.clock == m.created
    ensures id !in old(db.messages)
    ensures db.messages == old(db.messages)[id := m]
    ensures db.conversations == old(db.conversations)[c := old(db.conversations)[c].(lastMessageId := Some(id))]
  {
    id := db.NewId();
    db.clock := m.created;
    db.messages := db.messages[id := m];
    db.conversations := db.conversations[c := db.conversations[c].(lastMessageId := Some(id))];
  }

  /** insertSystemMessage: appends a system message and points the conversation's lastMessageId at it. */
  method InsertSystemMessage(db: Db, c: ConversationId, content: string, sender: UserId, now: nat)
    returns (id: MessageId)
    requires db.Valid() && db.clock <= now && c in db.conversations
    modifies db`messages, db`conversations, db`nextId, db`clock
    ensures db.Valid()
    ensures id == old(db.nextId) && db.nextId == id + 1 && db.clock == now
    ensures id !in old(db.messages)
    ensures db.messages == old(db.messages)[id := SystemMessage(c, sender, content, now)]
    ensures db.conversations == old(db.conversations)[c := old(db.conversations)[c].(lastMessageId := Some(id))]
  {
    id := AppendMessage(db, c, SystemMessage(c, sender, content, now));
  }

  /** Inserts membership `m` into its conversation, then appends the system message announcing it. */
  method JoinAndAnnounce(db: Db, m: Membership, content: string, sender: UserId, now: nat) returns (k: MembershipId)
    requires db.Valid() && db.clock <= now && m.conversationId in db.conversations
    requires !HasMember(db.members, m.conversationId, m.userId)
    modifies db`members, db`messages, db`conversations, db`nextId, db`clock
    ensures db.Valid()
    ensures k == old(db.nextId) && db.nextId == k + 2 && db.clock == now
    ensures HasMember(db.members, m.conversationId, m.userId)
    ensures db.members == old(db.members)[k := m]
    ensures db.messages == old(db.messages)[k + 1 := SystemMessage(m.conversationId, sender, content, now)]
    ensures db.conversations == old(db.conversations)[m.conversationId :=
              old(db.conversations)[m.conversationId].(lastMessageId := Some(k + 1))]
  {
    k := InsertMembership(db, m);
    assert db.members[k] == m;
    var mid := InsertSystemMessage(db, m.conversationId, content, sender, now);
  }

  // ---------------------------------------------------------------- direct conversations

  /** `c` is a direct conversation in which both `a` and `b` hold a membership. */
  predicate IsDirectWith(conversations: map<ConversationId, Conversation>, members: map<MembershipId, Membership>,
                         c: ConversationId, a: UserId, b: UserId)
  {
    c in conversations && !conversations[c].isGroup && HasMember(members, c, a) && HasMember(members, c, b)
  }

  /** The caller's earliest membership whose conversation is direct and shared with `participant`. */
  function FirstDirectMembership(db: Db, caller: UserId, participant: UserId): (r: Option<MembershipId>)
    requires db.Valid()
    reads db
    ensures r.Some? ==> r.value in db.members && db.members[r.value].userId == caller
                        && IsDirectWith(db.conversations, db.members, db.members[r.value].conversationId, caller, participant)
    ensures r.Some? ==> forall k :: k in db.members && k < r.value && db.members[k].userId == caller
                          ==> !IsDirectWith(db.conversations, db.members, db.members[k].conversationId, caller, participant)
    ensures r.None? <==> forall k :: k in db.members && db.members[k].userId == caller
                           ==> !IsDirectWith(db.conversations, db.members, db.members[k].conversationId, caller, participant)
  {
    var convs := db.conversations;
    var ms := db.members;
    Find(ms, (m: Membership) => m.userId == caller && IsDirectWith(convs, ms, m.conversationId, caller, participant), db.nextId)
  }

  /** The conversation the find-or-create scan returns, if any. */
  function FindDirect(db: Db, caller: UserId, participant: UserId): (r: Option<ConversationId>)
    requires db.Valid()
    reads db
    ensures r.Some? ==> IsDirectWith(db.conversations, db.members, r.value, caller, participant)
    ensures r.None? <==> forall c :: !IsDirectWith(db.conversations, db.members, c, caller, participant)
  {
    var k := FirstDirectMembership(db, caller, participant);
    if k.Some? then Some(db.members[k.value].conversationId) else None
  }

  /** When exactly one direct conversation is shared, the scan returns it. */
  lemma FindDirectUnique(db: Db, caller: UserId, participant: UserId, c: ConversationId)
    requires db.Valid()
    requires IsDirectWith(db.conversations, db.members, c, caller, participant)
    requires forall x :: IsDirectWith(db.conversations, db.members, x, caller, participant) ==> x == c
    ensures FindDirect(db, caller, participant) == Some(c)
  {
  }

  /**
   * As written, a caller who names themself as the participant makes the scan's inner lookup find
   * their own row, so the scan succeeds exactly when the caller belongs to any direct conversation.
   */
  lemma SelfScanFindsAnyDirect(db: Db, me: UserId)
    requires db.Valid()
    ensures FindDirect(db, me, me).Some? <==>
              exists c :: c in db.conversations && !db.conversations[c].isGroup && HasMember(db.members, c, me)
  {
    assert forall c :: IsDirectWith(db.conversations, db.members, c, me, me) <==>
             c in db.conversations && !db.conversations[c].isGroup && HasMember(db.members, c, me);
  }

  /**
   * As written, a caller whose only direct conversation is with `other` and who asks for a
   * conversation with themself gets that conversation with `other` back.
   */
  lemma SelfScanReturnsOthersConversation(db: Db, me: UserId, other: UserId, c: ConversationId)
    requires db.Valid() && me != other
    requires IsDirectWith(db.conversations, db.members, c, me, other)
    requires forall x :: x in db.conversations && !db.conversations[x].isGroup && HasMember(db.members, x, me) ==> x == c
    ensures FindDirect(db, me, me) == Some(c)
  {
    FindDirectUnique(db, me, me, c);
  }

  /** The two membership rows createOrGetConversation inserts, as the source writes them. */
  function DirectRowsAsWritten(c: ConversationId, caller: UserId, participant: UserId, now: nat): seq<Membership>
  {
    [Membership(c, caller, now, None), Membership(c, participant, 0, None)]
  }

  /**
   * As written, a caller who asks for a conversation with themself, and has no direct
   * conversation yet, gets two membership rows with the same (conversation, user) key.
   */
  lemma DirectRowsAsWrittenCollide(c: ConversationId, caller: UserId, participant: UserId, now: nat)
    ensures var rows := DirectRowsAsWritten(c, caller, participant, now);
            SamePair(rows[0], rows[1]) <==> caller == participant
  {
  }

  /** Two fresh membership rows of a fresh conversation keep one membership per (conversation, user) exactly when their users differ. */
  lemma FreshPairKeepsOneMembershipPerPair(db: Db, c: ConversationId, k1: MembershipId, k2: MembershipId,
                                           a: UserId, ra: nat, b: UserId, rb: nat)
    requires db.Valid()
    requires c !in db.conversations && k1 !in db.members && k2 !in db.members && k1 != k2
    ensures OneMembershipPerPair(db.members[k1 := Membership(c, a, ra, None)][k2 := Membership(c, b, rb, None)]) <==> a != b
  {
    var m := db.members[k1 := Membership(c, a, ra, None)][k2 := Membership(c, b, rb, None)];
    assert forall k :: k in db.members ==> db.members[k].conversationId != c;
    if a != b {
      forall x, y | x in m && y in m && SamePair(m[x], m[y]) ensures x == y {
        if x in db.members && y in db.members && x != k1 && x != k2 && y != k1 && y != k2 {
          assert SamePair(db.members[x], db.members[y]);
        }
      }
    } else {
      assert SamePair(m[k1], m[k2]);
    }
  }

  /** As written, inserting the two rows breaks the one-membership-per-pair key exactly for a self-conversation. */
  lemma DirectRowsAsWrittenBreakKey(db: Db, c: ConversationId, k1: MembershipId, k2: MembershipId,
                                    caller: UserId, participant: UserId, now: nat)
    requires db.Valid()
    requires c !in db.conversations && k1 !in db.members && k2 !in db.members && k1 != k2
    ensures var rows := DirectRowsAsWritten(c, caller, participant, now);
            !OneMembershipPerPair(db.members[k1 := rows[0]][k2 := rows[1]]) <==> caller == participant
  {
    FreshPairKeepsOneMembershipPerPair(db, c, k1, k2, caller, now, participant, 0);
  }

  /**
   * The tables after inserting direct conversation `c` stamped `now`, with `first`'s membership
   * (watermark `firstRead`) under key c + 1 and `second`'s (watermark `secondRead`) under c + 2.
   */
  ghost predicate AddsDirect(convsBefore: map<ConversationId, Conversation>, membersBefore: map<MembershipId, Membership>,
                             convs: map<ConversationId, Conversation>, members: map<MembershipId, Membership>,
                             c: ConversationId, first: UserId, firstRead: nat, second: UserId, secondRead: nat, now: nat)
  {
    && convs == convsBefore[c := Conversation(None, false, None, None, None, None, now)]
    && members == membersBefore[c + 1 := Membership(c, first, firstRead, None)][c + 2 := Membership(c, second, secondRead, None)]
  }

  /**
   * Inserts a direct conversation stamped `now` with two memberships, `first`'s
   * (watermark `firstRead`) before `second`'s (watermark `secondRead`).
   */
  method InsertDirectConversation(db: Db, first: UserId, firstRead: nat, second: UserId, secondRead: nat, now: nat)
    returns (c: ConversationId)
    requires db.Valid() && db.clock <= now && first != second
    modifies db`conversations, db`members, db`nextId, db`clock
    ensures db.Valid()
    ensures c == old(db.nextId) && db.nextId == c + 3 && db.clock == now
    ensures c !in old(db.conversations)
    ensures AddsDirect(old(db.conversations), old(db.members), db.conversations, db.members,
                       c, first, firstRead, second, secondRead, now)
  {
    c := db.nextId;
    FreshPairKeepsOneMembershipPerPair(db, c, c + 1, c + 2, first, firstRead, second, secondRead);
    DirectRowsResolve(db.conversations, db.members, db.nextId, c, first, firstRead, second, secondRead, now);
    db.nextId, db.clock := c + 3, now;
    db.conversations := db.conversations[c := Conversation(None, false, None, None, None, None, now)];
    db.members := db.members[c + 1 := Membership(c, first, firstRead, None)][c + 2 := Membership(c, second, secondRead, None)];
  }

  /** The new conversation and its two rows stay below the advanced id counter and resolve. */
  lemma DirectRowsResolve(convs: map<ConversationId, Conversation>, members: map<MembershipId, Membership>, hi: nat,
                          c: ConversationId, first: UserId, firstRead: nat, second: UserId, secondRead: nat, now: nat)
    requires KeysBelow(convs, hi) && KeysBelow(members, hi) && MembershipsResolve(members, convs) && c == hi
    ensures var convs' := convs[c := Conversation(None, false, None, None, None, None, now)];
            var members' := members[c + 1 := Membership(c, first, firstRead, None)][c + 2 := Membership(c, second, secondRead, None)];
            KeysBelow(convs', hi + 3) && KeysBelow(members', hi + 3) && MembershipsResolve(members', convs')
  {
  }


  /** The loop of createOrGetConversation: the caller's memberships in index order, checked one by one. */
  method ScanDirect(db: Db, me: UserId, participant: UserId) returns (found: Option<ConversationId>)
    requires db.Valid()
    ensures found == FindDirect(db, me, participant)
  {
    var mine := Select(db.members, (m: Membership) => m.userId == me, db.nextId);
    var i;
    found, i := ScanMemberships(db.conversations, db.members, db.nextId, me, participant, mine);
    if found.Some? {
      FirstDirectIsFirstFound(db, me, participant, mine, i);
    } else {
      NoneDirectAmong(db, me, participant, mine);
    }
  }

  /**
   * The loop of the scan: visits the rows `mine` in order and stops at the first whose
   * conversation is direct and has a membership of `participant`.
   */
  method ScanMemberships(convs: map<ConversationId, Conversation>, members: map<MembershipId, Membership>, hi: nat,
                         me: UserId, participant: UserId, mine: seq<MembershipId>)
    returns (found: Option<ConversationId>, i: nat)
    requires KeysBelow(members, hi)
    requires forall j :: 0 <= j < |mine| ==> mine[j] in members && members[mine[j]].userId == me
    ensures found.None? ==> forall j :: 0 <= j < |mine| ==>
              !IsDirectWith(convs, members, members[mine[j]].conversationId, me, participant)
    ensures found.Some? ==> i < |mine| && found.value == members[mine[i]].conversationId
                            && IsDirectWith(convs, members, found.value, me, participant)
                            && forall j :: 0 <= j < i ==>
                                 !IsDirectWith(convs, members, members[mine[j]].conversationId, me, participant)
  {
    i := 0;
    while i < |mine|
      invariant 0 <= i <= |mine|
      invariant forall j :: 0 <= j < i ==> !IsDirectWith(convs, members, members[mine[j]].conversationId, me, participant)
    {
      var c := members[mine[i]].conversationId;
      assert IsMembershipOf(members[mine[i]], c, me);
      if c in convs && !convs[c].isGroup {
        var other := Find(members, (m: Membership) => IsMembershipOf(m, c, participant), hi);
        if other.Some? {
          assert IsMembershipOf(members[other.value], c, participant);
          return Some(c), i;
        }
      }
      i := i + 1;
    }
    found := None;
  }

  /** A scan that passed every one of the caller's memberships found no shared direct conversation. */
  lemma NoneDirectAmong(db: Db, caller: UserId, participant: UserId, mine: seq<MembershipId>)
    requires db.Valid()
    requires forall k :: k in db.members && db.members[k].userId == caller ==> k in mine
    requires forall j :: 0 <= j < |mine| ==> mine[j] in db.members
    requires forall j :: 0 <= j < |mine| ==>
               !IsDirectWith(db.conversations, db.members, db.members[mine[j]].conversationId, caller, participant)
    ensures FindDirect(db, caller, participant).None?
  {
    forall k | k in db.members && db.members[k].userId == caller
      ensures !IsDirectWith(db.conversations, db.members, db.members[k].conversationId, caller, participant)
    {
      var j :| 0 <= j < |mine| && mine[j] == k;
    }
  }

  /** The scan over the caller's memberships stops at the same row FirstDirectMembership finds. */
  lemma FirstDirectIsFirstFound(db: Db, caller: UserId, participant: UserId, mine: seq<MembershipId>, i: nat)
    requires db.Valid()
    requires forall k :: k in db.members && db.members[k].userId == caller <==> k in mine
    requires forall a, b :: 0 <= a < b < |mine| ==> mine[a] < mine[b]
    requires i < |mine|
    requires forall j :: 0 <= j < i ==>
               !IsDirectWith(db.conversations, db.members, db.members[mine[j]].conversationId, caller, participant)
    requires IsDirectWith(db.conversations, db.members, db.members[mine[i]].conversationId, caller, participant)
    ensures FindDirect(db, caller, participant) == Some(db.members[mine[i]].conversationId)
  {
    var f := FirstDirectMembership(db, caller, participant);
    assert f.Some?;
    var k := f.value;
    assert mine[i] in db.members && db.members[mine[i]].userId == caller;
    assert k <= mine[i];
    assert k in mine;
    var j :| 0 <= j < |mine| && mine[j] == k;
    assert j >= i;
    assert mine[i] <= mine[j];
  }

  /** After the insert, the new conversation is the only direct one the two users share. */
  lemma DirectAfterCreate(db: Db, convsBefore: map<ConversationId, Conversation>, before: map<MembershipId, Membership>,
                          c: ConversationId, k1: MembershipId, k2: MembershipId, caller: UserId, participant: UserId,
                          callerRead: nat, participantRead: nat)
    requires db.Valid()
    requires forall x :: !IsDirectWith(convsBefore, before, x, caller, participant)
    requires c !in convsBefore && c in db.conversations && !db.conversations[c].isGroup && k1 != k2
    requires db.conversations == convsBefore[c := db.conversations[c]]
    requires db.members == before[k1 := Membership(c, caller, callerRead, None)][k2 := Membership(c, participant, participantRead, None)]
    ensures FindDirect(db, caller, participant) == Some(c)
  {
    assert IsMembershipOf(db.members[k1], c, caller) && IsMembershipOf(db.members[k2], c, participant);
    NoOtherDirect(convsBefore, before, db.conversations, db.members, c, k1, k2, caller, participant);
    FindDirectUnique(db, caller, participant, c);
  }

  /** Rows added to conversation `c` alone make no other conversation direct between the two users. */
  lemma NoOtherDirect(convsBefore: map<ConversationId, Conversation>, before: map<MembershipId, Membership>,
                      convs: map<ConversationId, Conversation>, members: map<MembershipId, Membership>,
                      c: ConversationId, k1: MembershipId, k2: MembershipId, caller: UserId, participant: UserId)
    requires forall x :: !IsDirectWith(convsBefore, before, x, caller, participant)
    requires c in convs && convs == convsBefore[c := convs[c]]
    requires k1 in members && k2 in members && members[k1].conversationId == c && members[k2].conversationId == c
    requires members == before[k1 := members[k1]][k2 := members[k2]]
    ensures forall x :: IsDirectWith(convs, members, x, caller, participant) ==> x == c
  {
    forall x | x != c ensures !IsDirectWith(convs, members, x, caller, participant) {
      assert !IsDirectWith(convsBefore, before, x, caller, participant);
      if x in convs && !convs[x].isGroup && HasMember(members, x, caller) {
        var a :| a in members && IsMembershipOf(members[a], x, caller);
        assert a in before && IsMembershipOf(before[a], x, caller);
        forall b | b in members ensures !IsMembershipOf(members[b], x, participant) {
          if b != k1 && b != k2 {
            assert members[b] == before[b];
          }
        }
      }
    }
  }

  /**
   * createOrGetConversation: returns the direct conversation the caller already shares with
   * `participantId`, changing nothing, or creates one with the caller's watermark at `now` and the
   * participant's at 0. Either way a repeated call finds the returned conversation. A request for a
   * conversation with oneself is refused (see Findings).
   */
  method CreateOrGetConversation(db: Db, identity: Option<string>, participantId: UserId, now: nat)
    returns (r: Result<ConversationId>)
    requires db.Valid() && db.clock <= now
    modifies db`conversations, db`members, db`nextId, db`clock
    ensures db.Valid()
    ensures var caller := old(GetCurrentUser(db, identity));
            && (caller.None? ==> r == Err(Unauthorized) && unchanged(db))
            && (caller == Some(participantId) ==> r == Err(CannotConverseWithSelf) && unchanged(db))
            && (caller.Some? && caller.value != participantId ==>
                  && r.Ok?
                  && FindDirect(db, caller.value, participantId) == Some(r.value)
                  && (old(FindDirect(db, caller.value, participantId)).Some? ==>
                        r.value == old(FindDirect(db, caller.value, participantId)).value && unchanged(db))
                  && (old(FindDirect(db, caller.value, participantId)).None? ==>
                        && r.value == old(db.nextId) && db.nextId == r.value + 3 && db.clock == now
                        && AddsDirect(old(db.conversations), old(db.members), db.conversations, db.members,
                                      r.value, caller.value, now, participantId, 0, now)))
  {
    var caller := GetCurrentUser(db, identity);
    if caller.None? {
      return Err(Unauthorized);
    }
    var me := caller.value;
    if me == participantId {
      return Err(CannotConverseWithSelf);
    }
    var found := ScanDirect(db, me, participantId);
    if found.Some? {
      return Ok(found.value);
    }
    var c := CreateDirect(db, me, participantId, now);
    r := Ok(c);
  }

  /** The create branch of createOrGetConversation: the new conversation is the one the scan finds next time. */
  method CreateDirect(db: Db, me: UserId, participant: UserId, now: nat) returns (c: ConversationId)
    requires db.Valid() && db.clock <= now && me != participant
    requires FindDirect(db, me, participant).None?
    modifies db`conversations, db`members, db`nextId, db`clock
    ensures db.Valid()
    ensures c == old(db.nextId) && db.nextId == c + 3 && db.clock == now
    ensures AddsDirect(old(db.conversations), old(db.members), db.conversations, db.members, c, me, now, participant, 0, now)
    ensures FindDirect(db, me, participant) == Some(c)
  {
    ghost var convsBefore, before := db.conversations, db.members;
    c := InsertDirectConversation(db, me, now, participant, 0, now);
    DirectAfterCreate(db, convsBefore, before, c, c + 1, c + 2, me, participant, now, 0);
  }

  // ---------------------------------------------------------------- groups

  /** The row a group member gets: the creator is admin with watermark `now`, everyone else member with 0. */
  function GroupRow(c: ConversationId, creator: UserId, u: UserId, now: nat): Membership
  {
    if u == creator then Membership(c, u, now, Some(Admin)) else Membership(c, u, 0, Some(Member))
  }

  /** The membership rows createGroup inserts, as written: the creator's, then one per listed id, unchecked. */
  function GroupRowsAsWritten(c: ConversationId, creator: UserId, participants: seq<UserId>, now: nat): (rows: seq<Membership>)
    ensures |rows| == |participants| + 1
    ensures rows[0] == Membership(c, creator, now, Some(Admin))
    ensures forall i :: 0 <= i < |participants| ==> rows[i + 1] == Membership(c, participants[i], 0, Some(Member))
  {
    [Membership(c, creator, now, Some(Admin))]
      + seq(|participants|, i requires 0 <= i < |participants| => Membership(c, participants[i], 0, Some(Member)))
  }

  predicate Repeats(s: seq<UserId>)
  {
    exists i, j :: 0 <= i < j < |s| && s[i] == s[j]
  }

  /**
   * As written, createGroup inserts two rows for one (conversation, user) key exactly when the
   * participant list names the creator or names someone twice.
   */
  lemma GroupRowsAsWrittenCollide(c: ConversationId, creator: UserId, participants: seq<UserId>, now: nat)
    ensures var rows := GroupRowsAsWritten(c, creator, participants, now);
            (exists i, j :: 0 <= i < j < |rows| && SamePair(rows[i], rows[j]))
            <==> creator in participants || Repeats(participants)
  {
    var rows := GroupRowsAsWritten(c, creator, participants, now);
    if exists i, j :: 0 <= i < j < |rows| && SamePair(rows[i], rows[j]) {
      var i, j :| 0 <= i < j < |rows| && SamePair(rows[i], rows[j]);
      if i == 0 {
        assert participants[j - 1] == creator;
      } else {
        assert participants[i - 1] == participants[j - 1];
      }
    }
    if creator in participants {
      var j :| 0 <= j < |participants| && participants[j] == creator;
      assert SamePair(rows[0], rows[j + 1]);
    }
    if Repeats(participants) {
      var i, j :| 0 <= i < j < |participants| && participants[i] == participants[j];
      assert SamePair(rows[i + 1], rows[j + 1]);
    }
  }

  /** The rows of group `c` are one per user among the creator and `participants`, shaped by GroupRow. */
  ghost predicate GroupRows(members: map<MembershipId, Membership>, c: ConversationId, creator: UserId,
                            participants: seq<UserId>, now: nat)
  {
    && (forall k :: k in members && members[k].conversationId == c ==>
          && members[k] == GroupRow(c, creator, members[k].userId, now)
          && (members[k].userId == creator || members[k].userId in participants))
    && HasMember(members, c, creator)
    && (forall u :: u in participants ==> HasMember(members, c, u))
  }

  /** `after` keeps every row of `before` and adds rows of conversation `c` only. */
  ghost predicate GrowsOnlyIn(before: map<MembershipId, Membership>, after: map<MembershipId, Membership>, c: ConversationId)
  {
    && (forall k :: k in before ==> k in after && after[k] == before[k])
    && (forall k :: k in after && k !in before ==> after[k].conversationId == c)
  }

  /** A fresh group holding only its creator's admin row satisfies GroupRows with no participant yet. */
  lemma GroupRowsStart(members: map<MembershipId, Membership>, c: ConversationId, creator: UserId, now: nat)
    requires c + 1 !in members
    requires forall k :: k in members ==> members[k].conversationId != c
    ensures GroupRows(members[c + 1 := Membership(c, creator, now, Some(Admin))], c, creator, [], now)
    ensures GrowsOnlyIn(members, members[c + 1 := Membership(c, creator, now, Some(Admin))], c)
  {
    var after := members[c + 1 := Membership(c, creator, now, Some(Admin))];
    assert IsMembershipOf(after[c + 1], c, creator);
  }

  lemma GrowsOnlyInTrans(a: map<MembershipId, Membership>, b: map<MembershipId, Membership>,
                         d: map<MembershipId, Membership>, c: ConversationId)
    requires GrowsOnlyIn(a, b, c) && GrowsOnlyIn(b, d, c)
    ensures GrowsOnlyIn(a, d, c)
  {
  }

  /** Creates the group row and the creator's admin membership. */
  method InsertGroup(db: Db, me: UserId, name: string, imageUrl: Option<string>, now: nat) returns (c: ConversationId)
    requires db.Valid() && db.clock <= now
    modifies db`conversations, db`members, db`nextId, db`clock
    ensures db.Valid() && db.clock == now
    ensures c == old(db.nextId) && db.nextId == c + 2
    ensures db.conversations == old(db.conversations)[c := Conversation(Some(name), true, None, imageUrl, None, Some(me), now)]
    ensures db.members == old(db.members)[c + 1 := Membership(c, me, now, Some(Admin))]
  {
    c := db.nextId;
    ghost var convs, ms := db.conversations, db.members;
    db.nextId := c + 2;
    db.clock := now;
    db.conversations := db.conversations[c := Conversation(Some(name), true, None, imageUrl, None, Some(me), now)];
    db.members := db.members[c + 1 := Membership(c, me, now, Some(Admin))];
    assert forall k :: k in ms ==> ms[k].conversationId in convs;
    assert OneMembershipPerPair(db.members) by {
      forall a, b | a in db.members && b in db.members && SamePair(db.members[a], db.members[b]) ensures a == b {
        if a in ms && b in ms && a != c + 1 && b != c + 1 {
          assert SamePair(ms[a], ms[b]);
        }
      }
    }
  }

  /** A listed id that is not yet a member gets GroupRow's row under a fresh key. */
  lemma GroupRowsAdd(members: map<MembershipId, Membership>, k: MembershipId, c: ConversationId, creator: UserId,
                     ps: seq<UserId>, u: UserId, now: nat)
    requires GroupRows(members, c, creator, ps, now) && k !in members && !HasMember(members, c, u)
    ensures GroupRows(members[k := GroupRow(c, creator, u, now)], c, creator, ps + [u], now)
  {
    var m := GroupRow(c, creator, u, now);
    var after := members[k := m];
    HasMemberAfterInsert(members, k, m, c, creator);
    assert IsMembershipOf(m, c, u);
    forall v | v in ps + [u] ensures HasMember(after, c, v) {
      HasMemberAfterInsert(members, k, m, c, v);
    }
  }

  /** A listed id that already holds a row changes nothing. */
  lemma GroupRowsSkip(members: map<MembershipId, Membership>, c: ConversationId, creator: UserId,
                      ps: seq<UserId>, u: UserId, now: nat)
    requires GroupRows(members, c, creator, ps, now) && HasMember(members, c, u)
    ensures GroupRows(members, c, creator, ps + [u], now)
  {
  }

  /** The participant loop of createGroup; an id that already holds a row in `c` is skipped (see Findings). */
  method AddParticipants(db: Db, c: ConversationId, creator: UserId, participants: seq<UserId>, now: nat)
    requires db.Valid() && c in db.conversations
    requires GroupRows(db.members, c, creator, [], now)
    modifies db`members, db`nextId
    ensures db.Valid()
    ensures GroupRows(db.members, c, creator, participants, now)
    ensures GrowsOnlyIn(old(db.members), db.members, c)
    ensures db.nextId >= old(db.nextId)
  {
    for i := 0 to |participants|
      invariant db.Valid() && c in db.conversations
      invariant GroupRows(db.members, c, creator, participants[..i], now)
      invariant GrowsOnlyIn(old(db.members), db.members, c)
      invariant db.nextId >= old(db.nextId)
    {
      ghost var ms := db.members;
      assert participants[..i + 1] == participants[..i] + [participants[i]];
      AddParticipant(db, c, creator, participants[..i], participants[i], now);
      GrowsOnlyInTrans(old(db.members), ms, db.members, c);
    }
    assert participants[..|participants|] == participants;
  }

  /** One step of the participant loop: adds `u`'s row unless `u` already holds one in `c`. */
  method AddParticipant(db: Db, c: ConversationId, creator: UserId, ps: seq<UserId>, u: UserId, now: nat)
    requires db.Valid() && c in db.conversations
    requires GroupRows(db.members, c, creator, ps, now)
    modifies db`members, db`nextId
    ensures db.Valid() && c in db.conversations
    ensures GroupRows(db.members, c, creator, ps + [u], now)
    ensures GrowsOnlyIn(old(db.members), db.members, c)
    ensures db.nextId >= old(db.nextId)
  {
    if CheckMembership(db, c, u) {
      GroupRowsSkip(db.members, c, creator, ps, u, now);
    } else {
      ghost var ms := db.members;
      var k := InsertMembership(db, GroupRow(c, creator, u, now));
      GroupRowsAdd(ms, k, c, creator, ps, u, now);
    }
  }

  /** The group row and all its memberships, before the announcement. */
  method SeedGroup(db: Db, me: UserId, name: string, participantIds: seq<UserId>, imageUrl: Option<string>, now: nat)
    returns (c: ConversationId)
    requires db.Valid() && db.clock <= now
    modifies db`conversations, db`members, db`nextId, db`clock
    ensures db.Valid() && db.clock == now && db.nextId > c
    ensures c == old(db.nextId) && c !in old(db.conversations)
    ensures db.conversations == old(db.conversations)[c := Conversation(Some(name), true, None, imageUrl, None, Some(me), now)]
    ensures GroupRows(db.members, c, me, participantIds, now)
    ensures GrowsOnlyIn(old(db.members), db.members, c)
  {
    ghost var ms0 := db.members;
    c := InsertGroup(db, me, name, imageUrl, now);
    GroupRowsStart(ms0, c, me, now);
    ghost var ms1 := db.members;
    AddParticipants(db, c, me, participantIds, now);
    GrowsOnlyInTrans(ms0, ms1, db.members, c);
  }

  /** The inserts of createGroup for an authenticated caller `me`, announcing `text`. */
  method BuildGroup(db: Db, me: UserId, name: string, participantIds: seq<UserId>, imageUrl: Option<string>,
                    text: string, now: nat) returns (c: ConversationId, mid: MessageId)
    requires db.Valid() && db.clock <= now
    modifies db`conversations, db`members, db`messages, db`nextId, db`clock
    ensures db.Valid()
    ensures c == old(db.nextId) && c !in old(db.conversations) && mid !in old(db.messages)
    ensures db.conversations == old(db.conversations)[c := Conversation(Some(name), true, Some(mid), imageUrl, None, Some(me), now)]
    ensures db.messages == old(db.messages)[mid := SystemMessage(c, me, text, now)]
    ensures GroupRows(db.members, c, me, participantIds, now)
    ensures GrowsOnlyIn(old(db.members), db.members, c)
  {
    c := SeedGroup(db, me, name, participantIds, imageUrl, now);
    ghost var ms := db.members;
    mid := InsertSystemMessage(db, c, text, me, now);
    assert db.members == ms;
  }

  /**
   * createGroup: a group named `name` whose creator is the caller (admin, watermark `now`) and
   * whose other members are the listed users (member, watermark 0), with one "created the group"
   * system message that the conversation's lastMessageId points at.
   */
  method CreateGroup(db: Db, identity: Option<string>, name: string, participantIds: seq<UserId>,
                     imageUrl: Option<string>, now: nat) returns (r: Result<ConversationId>)
    requires db.Valid() && db.clock <= now
    modifies db`conversations, db`members, db`messages, db`nextId, db`clock
    ensures db.Valid()
    ensures var caller := old(GetCurrentUser(db, identity));
            && (caller.None? ==> r == Err(Unauthorized) && unchanged(db))
            && (caller.Some? ==>
                  && r.Ok? && r.value == old(db.nextId) && r.value !in old(db.conversations)
                  && var c := r.value;
                  && c in db.conversations
                  && db.conversations[c].lastMessageId.Some?
                  && var mid := db.conversations[c].lastMessageId.value;
                  && mid !in old(db.messages)
                  && db.conversations == old(db.conversations)[c := Conversation(Some(name), true, Some(mid), imageUrl, None, caller, now)]
                  && db.messages == old(db.messages)[mid := SystemMessage(c, caller.value, old(UserName(db, caller.value)) + " created the group", now)]
                  && GroupRows(db.members, c, caller.value, participantIds, now)
                  && GrowsOnlyIn(old(db.members), db.members, c))
  {
    var caller := GetCurrentUser(db, identity);
    if caller.None? {
      return Err(Unauthorized);
    }
    var me := caller.value;
    var c, mid := BuildGroup(db, me, name, participantIds, imageUrl, UserName(db, me) + " created the group", now);
    r := Ok(c);
  }

  /** The fields updateGroup patches: a supplied name or image replaces the stored one; nothing else changes. */
  function PatchGroup(conv: Conversation, name: Option<string>, imageUrl: Option<string>): (r: Conversation)
    ensures r.isGroup == conv.isGroup && r.lastMessageId == conv.lastMessageId && r.inviteCode == conv.inviteCode
    ensures r.creatorId == conv.creatorId && r.created == conv.created
    ensures name.Some? ==> r.name == name
    ensures name.None? ==> r.name == conv.name
    ensures imageUrl.Some? ==> r.imageUrl == imageUrl
    ensures imageUrl.None? ==> r.imageUrl == conv.imageUrl
  {
    conv.(name := if name.Some? then name else conv.name,
          imageUrl := if imageUrl.Some? then imageUrl else conv.imageUrl)
  }

  /** A rename is announced only for a non-empty new name (an empty string is falsy). */
  predicate AnnouncesRename(name: Option<string>)
  {
    name.Some? && name.value != ""
  }

  function RenamedText(actor: string, name: string): string
  {
    actor + " renamed the group to \"" + name + "\""
  }

  /** updateGroup: a member patches the supplied fields; a non-empty new name is announced. */
  method UpdateGroup(db: Db, identity: Option<string>, c: ConversationId, name: Option<string>,
                     imageUrl: Option<string>, now: nat) returns (r: Result<()>)
    requires db.Valid() && db.clock <= now
    modifies db`conversations, db`messages, db`nextId, db`clock
    ensures db.Valid()
    ensures var caller := old(GetCurrentUser(db, identity));
            && (caller.None? ==> r == Err(Unauthorized) && unchanged(db))
            && (caller.Some? && !old(CheckMembership(db, c, caller.value)) ==> r == Err(NotAMember) && unchanged(db))
            && (caller.Some? && old(CheckMembership(db, c, caller.value)) ==>
                  && r.Ok? && c in old(db.conversations)
                  && var patched := PatchGroup(old(db.conversations)[c], name, imageUrl);
                  && (AnnouncesRename(name) ==>
                        var mid := old(db.nextId);
                        && db.nextId == mid + 1 && db.clock == now
                        && db.messages == old(db.messages)[mid := SystemMessage(c, caller.value, RenamedText(old(UserName(db, caller.value)), name.value), now)]
                        && db.conversations == old(db.conversations)[c := patched.(lastMessageId := Some(mid))])
                  && (!AnnouncesRename(name) ==>
                        && unchanged(db`messages, db`nextId, db`clock)
                        && db.conversations == old(db.conversations)[c := patched]))
  {
    var caller := GetCurrentUser(db, identity);
    if caller.None? {
      return Err(Unauthorized);
    }
    var me := caller.value;
    if !CheckMembership(db, c, me) {
      return Err(NotAMember);
    }
    ghost var convs := db.conversations;
    var text := if AnnouncesRename(name) then RenamedText(UserName(db, me), name.value) else "";
    PatchGroupRow(db, c, name, imageUrl);
    if AnnouncesRename(name) {
      var mid := InsertSystemMessage(db, c, text, me, now);
      OverwriteKey(convs, c, PatchGroup(convs[c], name, imageUrl),
                   PatchGroup(convs[c], name, imageUrl).(lastMessageId := Some(mid)));
    }
    r := Ok(());
  }

  /** Writes the patched group row back; nothing else changes. */
  method PatchGroupRow(db: Db, c: ConversationId, name: Option<string>, imageUrl: Option<string>)
    requires db.Valid() && c in db.conversations
    modifies db`conversations
    ensures db.Valid() && c in db.conversations
    ensures db.conversations == old(db.conversations)[c := PatchGroup(old(db.conversations)[c], name, imageUrl)]
  {
    db.conversations := db.conversations[c := PatchGroup(db.conversations[c], name, imageUrl)];
  }

  /** `targetUser?.name ?? "Someone"`: a missing user reads as "Someone"; an empty name stays empty. */
  function NameOrSomeone(db: Db, u: UserId): (s: string)
    reads db
    ensures u !in db.users ==> s == "Someone"
    ensures u in db.users ==> s == db.users[u].name
  {
    if u in db.users then db.users[u].name else "Someone"
  }

  /**
   * addMember: a member adds `userId` (member, watermark 0) and announces it; adding someone who is
   * already a member changes nothing.
   */
  method AddMember(db: Db, identity: Option<string>, c: ConversationId, userId: UserId, now: nat)
    returns (r: Result<()>)
    requires db.Valid() && db.clock <= now
    modifies db`conversations, db`members, db`messages, db`nextId, db`clock
    ensures db.Valid()
    ensures var caller := old(GetCurrentUser(db, identity));
            && (caller.None? ==> r == Err(Unauthorized) && unchanged(db))
            && (caller.Some? && !old(CheckMembership(db, c, caller.value)) ==> r == Err(NotAMember) && unchanged(db))
            && (caller.Some? && old(CheckMembership(db, c, caller.value)) && old(CheckMembership(db, c, userId)) ==>
                  r.Ok? && unchanged(db))
            && (caller.Some? && old(CheckMembership(db, c, caller.value)) && !old(CheckMembership(db, c, userId)) ==>
                  var k := old(db.nextId);
                  && r.Ok? && db.nextId == k + 2 && db.clock == now
                  && db.members == old(db.members)[k := Membership(c, userId, 0, Some(Member))]
                  && db.messages == old(db.messages)[k + 1 := SystemMessage(c, caller.value,
                       old(NameOrSomeone(db, userId)) + " was added by " + old(UserName(db, caller.value)), now)]
                  && db.conversations == old(db.conversations)[c := old(db.conversations)[c].(lastMessageId := Some(k + 1))])
  {
    var caller := GetCurrentUser(db, identity);
    if caller.None? {
      return Err(Unauthorized);
    }
    var me := caller.value;
    if !CheckMembership(db, c, me) {
      return Err(NotAMember);
    }
    if CheckMembership(db, c, userId) {
      return Ok(());
    }
    var text := NameOrSomeone(db, userId) + " was added by " + UserName(db, me);
    var k := JoinAndAnnounce(db, Membership(c, userId, 0, Some(Member)), text, me, now);
    r := Ok(());
  }

  predicate HasAnyMember(members: map<MembershipId, Membership>, c: ConversationId)
  {
    exists k :: k in members && members[k].conversationId == c
  }

  /** The member rows with `u`'s row in `c` taken out. */
  function WithoutMember(members: map<MembershipId, Membership>, c: ConversationId, u: UserId)
    : (r: map<MembershipId, Membership>)
    ensures forall k :: k in r <==> k in members && !IsMembershipOf(members[k], c, u)
    ensures forall k :: k in r ==> r[k] == members[k]
  {
    map k | k in members && !IsMembershipOf(members[k], c, u) :: members[k]
  }

  /**
   * The tail of leaveGroup: deletes `u`'s membership in `c` if there is one, then deletes `c`
   * when no membership of it remains.
   */
  method DropMember(db: Db, c: ConversationId, u: UserId)
    requires db.Valid() && c in db.conversations
    modifies db`members, db`conversations
    ensures db.Valid()
    ensures db.members == WithoutMember(old(db.members), c, u)
    ensures HasAnyMember(db.members, c) ==> db.conversations == old(db.conversations)
    ensures !HasAnyMember(db.members, c) ==> db.conversations == old(db.conversations) - {c}
  {
    RemoveMembership(db, c, u);
    var remaining := MembershipsIn(db, c);
    if |remaining| == 0 {
      DropEmptyConversation(db.members, db.conversations, db.nextId, c);
      db.conversations := db.conversations - {c};
    } else {
      assert db.members[remaining[0]].conversationId == c;
    }
  }

  /** Deletes `u`'s membership row in `c`, if there is one. */
  method RemoveMembership(db: Db, c: ConversationId, u: UserId)
    requires db.Valid()
    modifies db`members
    ensures db.Valid()
    ensures db.members == WithoutMember(old(db.members), c, u)
  {
    var membership := MembershipOf(db, c, u);
    if membership.Some? {
      WithoutMemberRow(db.members, db.conversations, db.nextId, c, u, membership.value);
      db.members := db.members - {membership.value};
    } else {
      NoMemberRow(db.members, c, u);
    }
  }

  /** Deleting the one row of `u` in `c` leaves exactly WithoutMember and keeps the member invariants. */
  lemma WithoutMemberRow(members: map<MembershipId, Membership>, convs: map<ConversationId, Conversation>, hi: nat,
                         c: ConversationId, u: UserId, j: MembershipId)
    requires KeysBelow(members, hi) && OneMembershipPerPair(members) && MembershipsResolve(members, convs)
    requires j in members && IsMembershipOf(members[j], c, u)
    ensures members - {j} == WithoutMember(members, c, u)
    ensures KeysBelow(members - {j}, hi) && OneMembershipPerPair(members - {j}) && MembershipsResolve(members - {j}, convs)
  {
    forall k | k in members && k != j ensures !IsMembershipOf(members[k], c, u) {
      if IsMembershipOf(members[k], c, u) {
        assert SamePair(members[k], members[j]);
      }
    }
  }

  /** With no row of `u` in `c`, WithoutMember takes nothing out. */
  lemma NoMemberRow(members: map<MembershipId, Membership>, c: ConversationId, u: UserId)
    requires forall k :: k in members ==> !IsMembershipOf(members[k], c, u)
    ensures members == WithoutMember(members, c, u)
  {
  }

  /** A conversation no membership points at can be deleted without leaving a dangling membership. */
  lemma DropEmptyConversation(members: map<MembershipId, Membership>, convs: map<ConversationId, Conversation>,
                              hi: nat, c: ConversationId)
    requires MembershipsResolve(members, convs) && KeysBelow(convs, hi)
    requires forall k :: k in members ==> members[k].conversationId != c
    ensures MembershipsResolve(members, convs - {c}) && KeysBelow(convs - {c}, hi)
  {
  }

  /**
   * leaveGroup: in a group, announces "left the group" (written before the caller's membership is
   * removed, so it is attributed to the caller), removes the caller's membership if there is one, and
   * deletes the conversation exactly when no membership remains. Messages are never deleted.
   */
  method LeaveGroup(db: Db, identity: Option<string>, c: ConversationId, now: nat) returns (r: Result<()>)
    requires db.Valid() && db.clock <= now
    modifies db`conversations, db`members, db`messages, db`nextId, db`clock
    ensures db.Valid()
    ensures var caller := old(GetCurrentUser(db, identity));
            && (caller.None? ==> r == Err(Unauthorized) && unchanged(db))
            && (caller.Some? && (c !in old(db.conversations) || !old(db.conversations)[c].isGroup) ==>
                  r == Err(NotAGroup) && unchanged(db))
            && (caller.Some? && c in old(db.conversations) && old(db.conversations)[c].isGroup ==>
                  var mid := old(db.nextId);
                  && r.Ok? && db.nextId == mid + 1 && db.clock == now
                  && db.messages == old(db.messages)[mid := SystemMessage(c, caller.value, old(UserName(db, caller.value)) + " left the group", now)]
                  && db.members == WithoutMember(old(db.members), c, caller.value)
                  && (c in db.conversations <==> HasAnyMember(db.members, c))
                  && (HasAnyMember(db.members, c) ==>
                        db.conversations == old(db.conversations)[c := old(db.conversations)[c].(lastMessageId := Some(mid))])
                  && (!HasAnyMember(db.members, c) ==> db.conversations == old(db.conversations) - {c}))
  {
    var caller := GetCurrentUser(db, identity);
    if caller.None? {
      return Err(Unauthorized);
    }
    var me := caller.value;
    if c !in db.conversations || !db.conversations[c].isGroup {
      return Err(NotAGroup);
    }
    var mid := InsertSystemMessage(db, c, UserName(db, me) + " left the group", me, now);
    DropMember(db, c, me);
    r := Ok(());
  }

  // ---------------------------------------------------------------- invite codes

  /** A stored invite code counts only when it is set and non-empty (the source tests its truthiness). */
  predicate HasInviteCode(conv: Conversation)
  {
    conv.inviteCode.Some? && conv.inviteCode.value != ""
  }

  /**
   * generateInviteCode: a member gets the group's existing code back unchanged, or a fresh code
   * (GenerateCode of the supplied random string) that is stored on the conversation.
   */
  method GenerateInviteCode(db: Db, identity: Option<string>, c: ConversationId, random: string)
    returns (r: Result<string>)
    requires db.Valid()
    modifies db`conversations
    ensures db.Valid()
    ensures var caller := old(GetCurrentUser(db, identity));
            && (caller.None? ==> r == Err(Unauthorized) && unchanged(db))
            && (caller.Some? && !old(CheckMembership(db, c, caller.value)) ==> r == Err(NotAMember) && unchanged(db))
            && (caller.Some? && old(CheckMembership(db, c, caller.value)) ==>
                  && c in old(db.conversations)
                  && (HasInviteCode(old(db.conversations)[c]) ==>
                        r == Ok(old(db.conversations)[c].inviteCode.value) && unchanged(db))
                  && (!HasInviteCode(old(db.conversations)[c]) ==>
                        && r == Ok(GenerateCode(random))
                        && db.conversations == old(db.conversations)[c := old(db.conversations)[c].(inviteCode := Some(GenerateCode(random)))]))
  {
    var caller := GetCurrentUser(db, identity);
    if caller.None? {
      return Err(Unauthorized);
    }
    if !CheckMembership(db, c, caller.value) {
      return Err(NotAMember);
    }
    var conv := db.conversations[c];
    if HasInviteCode(conv) {
      return Ok(conv.inviteCode.value);
    }
    var code := GenerateCode(random);
    db.conversations := db.conversations[c := conv.(inviteCode := Some(code))];
    r := Ok(code);
  }

  predicate CarriesCode(conv: Conversation, code: string)
  {
    conv.inviteCode == Some(code)
  }

  /** The by_inviteCode index: every conversation whose stored code is exactly `code`. */
  function WithInviteCode(db: Db, code: string): (r: seq<ConversationId>)
    requires db.Valid()
    reads db
    ensures forall c :: c in r <==> c in db.conversations && db.conversations[c].inviteCode == Some(code)
  {
    Select(db.conversations, (conv: Conversation) => CarriesCode(conv, code), db.nextId)
  }

  /**
   * joinByInviteCode: the code is upper-cased and looked up; an unknown code is an error, and so is
   * a code two conversations share (the lookup is unique). A caller who is already a member gets the
   * id back with no change; otherwise the caller joins (member, watermark `now`) and it is announced.
   */
  method JoinByInviteCode(db: Db, identity: Option<string>, code: string, now: nat) returns (r: Result<ConversationId>)
    requires db.Valid() && db.clock <= now
    modifies db`conversations, db`members, db`messages, db`nextId, db`clock
    ensures db.Valid()
    ensures var caller := old(GetCurrentUser(db, identity));
            var found := old(WithInviteCode(db, Text.Upper(code)));
            && (caller.None? ==> r == Err(Unauthorized) && unchanged(db))
            && (caller.Some? && |found| == 0 ==> r == Err(InvalidInviteCode) && unchanged(db))
            && (caller.Some? && |found| > 1 ==> r == Err(InviteCodeNotUnique) && unchanged(db))
            && (caller.Some? && |found| == 1 ==>
                  && r == Ok(found[0])
                  && found[0] in old(db.conversations) && old(db.conversations)[found[0]].inviteCode == Some(Text.Upper(code))
                  && HasMember(db.members, found[0], caller.value)
                  && (old(CheckMembership(db, found[0], caller.value)) ==> unchanged(db))
                  && (!old(CheckMembership(db, found[0], caller.value)) ==>
                        var k := old(db.nextId);
                        && db.nextId == k + 2 && db.clock == now
                        && db.members == old(db.members)[k := Membership(found[0], caller.value, now, Some(Member))]
                        && db.messages == old(db.messages)[k + 1 := SystemMessage(found[0], caller.value,
                             old(UserName(db, caller.value)) + " joined via invite link", now)]
                        && db.conversations == old(db.conversations)[found[0] := old(db.conversations)[found[0]].(lastMessageId := Some(k + 1))]))
  {
    var caller := GetCurrentUser(db, identity);
    if caller.None? {
      return Err(Unauthorized);
    }
    var me := caller.value;
    var found := WithInviteCode(db, Text.Upper(code));
    if |found| == 0 {
      return Err(InvalidInviteCode);
    }
    if |found| > 1 {
      return Err(InviteCodeNotUnique);
    }
    var c := found[0];
    assert c in found;
    if CheckMembership(db, c, me) {
      return Ok(c);
    }
    var text := UserName(db, me) + " joined via invite link";
    var k := JoinAndAnnounce(db, Membership(c, me, now, Some(Member)), text, me, now);
    r := Ok(c);
  }

  // ---------------------------------------------------------------- group details

  /** A member as getGroupDetails lists them: the user row, the role (absent reads as member), and whether it is the caller. */
  datatype MemberView = MemberView(userId: UserId, user: User, role: Role, isMe: bool)

  datatype GroupDetails = GroupDetails(id: ConversationId, conv: Conversation, members: seq<MemberView>, isAdmin: bool)

  /** `m.role ?? "member"` */
  function RoleOrMember(role: Option<Role>): (r: Role)
    ensures role.Some? ==> r == role.value
    ensures role.None? ==> r == Member
  {
    if role.Some? then role.value else Member
  }

  /** The view of membership row `m`, or None when its user row is missing (such entries are filtered out). */
  function ViewOf(users: map<UserId, User>, m: Membership, me: UserId): (v: Option<MemberView>)
    ensures v.Some? <==> m.userId in users
    ensures v.Some? ==> && v.value.userId == m.userId && v.value.user == users[m.userId]
                        && v.value.role == RoleOrMember(m.role) && (v.value.isMe <==> m.userId == me)
  {
    if m.userId in users then Some(MemberView(m.userId, users[m.userId], RoleOrMember(m.role), m.userId == me))
    else None
  }

  /** Every position moved one place on. */
  function Shift(t: seq<nat>): (r: seq<nat>)
    ensures |r| == |t| && forall a :: 0 <= a < |t| ==> r[a] == t[a] + 1
  {
    seq(|t|, a requires 0 <= a < |t| => t[a] + 1)
  }

  /** The positions in `ms` of the rows whose user row exists, ascending. */
  function KeptRows(users: map<UserId, User>, ms: seq<Membership>): (r: seq<nat>)
    ensures forall a :: 0 <= a < |r| ==> r[a] < |ms| && ms[r[a]].userId in users
    ensures forall a, b :: 0 <= a < b < |r| ==> r[a] < r[b]
  {
    if ms == [] then []
    else
      var t := KeptRows(users, ms[1..]);
      var shifted := Shift(t);
      assert forall a :: 0 <= a < |shifted| ==> 1 <= shifted[a] < |ms| && ms[shifted[a]].userId in users by {
        forall a | 0 <= a < |shifted| ensures 1 <= shifted[a] < |ms| && ms[shifted[a]].userId in users {
          assert ms[1..][t[a]] == ms[shifted[a]];
        }
      }
      if ms[0].userId in users then [0] + shifted else shifted
  }

  /**
   * The views of the membership rows `ms`, in order, skipping those whose user row is missing
   * (MemberViewsInOrder states the order).
   */
  function MemberViews(users: map<UserId, User>, ms: seq<Membership>, me: UserId): (r: seq<MemberView>)
    ensures |r| <= |ms|
    ensures forall v :: v in r <==> exists i :: 0 <= i < |ms| && ViewOf(users, ms[i], me) == Some(v)
  {
    if ms == [] then []
    else
      var rest := MemberViews(users, ms[1..], me);
      assert forall v :: v in rest ==> exists i :: 1 <= i < |ms| && ViewOf(users, ms[i], me) == Some(v) by {
        forall v | v in rest ensures exists i :: 1 <= i < |ms| && ViewOf(users, ms[i], me) == Some(v) {
          var j :| 0 <= j < |ms[1..]| && ViewOf(users, ms[1..][j], me) == Some(v);
          assert ViewOf(users, ms[j + 1], me) == Some(v);
        }
      }
      var head := ViewOf(users, ms[0], me);
      var r := if head.Some? then [head.value] + rest else rest;
      assert forall v :: (exists i :: 0 <= i < |ms| && ViewOf(users, ms[i], me) == Some(v)) ==> v in r by {
        forall v, i | 0 <= i < |ms| && ViewOf(users, ms[i], me) == Some(v) ensures v in r {
          if i > 0 {
            assert ViewOf(users, ms[1..][i - 1], me) == Some(v);
          }
        }
      }
      r
  }

  /** The a-th view is the view of the a-th row that has a user row, so the views keep the rows' order. */
  lemma {:induction false} MemberViewsInOrder(users: map<UserId, User>, ms: seq<Membership>, me: UserId)
    ensures |MemberViews(users, ms, me)| == |KeptRows(users, ms)|
    ensures forall a :: 0 <= a < |KeptRows(users, ms)| ==>
              Some(MemberViews(users, ms, me)[a]) == ViewOf(users, ms[KeptRows(users, ms)[a]], me)
  {
    if ms != [] {
      var tail := ms[1..];
      MemberViewsInOrder(users, tail, me);
      var rest, t := MemberViews(users, tail, me), KeptRows(users, tail);
      var r, k := MemberViews(users, ms, me), KeptRows(users, ms);
      if ms[0].userId in users {
        assert r == [ViewOf(users, ms[0], me).value] + rest;
        assert k == [0] + Shift(t);
        forall a | 1 <= a < |k| ensures Some(r[a]) == ViewOf(users, ms[k[a]], me) {
          assert r[a] == rest[a - 1] && k[a] == t[a - 1] + 1;
          assert tail[t[a - 1]] == ms[k[a]];
        }
      } else {
        assert r == rest;
        assert k == Shift(t);
        forall a | 0 <= a < |k| ensures Some(r[a]) == ViewOf(users, ms[k[a]], me) {
          assert k[a] == t[a] + 1;
          assert tail[t[a]] == ms[k[a]];
        }
      }
    }
  }

  /** Rows of distinct users give views of distinct users. */
  lemma {:induction false} MemberViewsDistinct(users: map<UserId, User>, ms: seq<Membership>, me: UserId)
    requires forall a, b :: 0 <= a < b < |ms| ==> ms[a].userId != ms[b].userId
    ensures forall a, b :: 0 <= a < b < |MemberViews(users, ms, me)| ==>
              MemberViews(users, ms, me)[a].userId != MemberViews(users, ms, me)[b].userId
  {
    if ms != [] {
      var tail := ms[1..];
      assert forall a, b :: 0 <= a < b < |tail| ==> tail[a].userId != tail[b].userId by {
        forall a, b | 0 <= a < b < |tail| ensures tail[a].userId != tail[b].userId {
          assert tail[a] == ms[a + 1] && tail[b] == ms[b + 1];
        }
      }
      MemberViewsDistinct(users, tail, me);
      var rest := MemberViews(users, tail, me);
      assert forall a, b :: 0 <= a < b < |rest| ==> rest[a].userId != rest[b].userId;
      var head := ViewOf(users, ms[0], me);
      if head.Some? {
        var r := MemberViews(users, ms, me);
        assert r == [head.value] + rest;
        forall b | 0 <= b < |rest| ensures rest[b].userId != ms[0].userId {
          assert rest[b] in rest;
          var j :| 0 <= j < |tail| && ViewOf(users, tail[j], me) == Some(rest[b]);
          assert tail[j] == ms[j + 1];
        }
        forall a, b | 0 <= a < b < |r| ensures r[a].userId != r[b].userId {
          if a == 0 {
            assert r[0] == head.value && r[b] == rest[b - 1];
          } else {
            assert r[a] == rest[a - 1] && r[b] == rest[b - 1];
          }
        }
      } else {
        assert MemberViews(users, ms, me) == rest;
      }
    }
  }

  /** The rows behind the ids `ks`, in order. */
  function Rows(members: map<MembershipId, Membership>, ks: seq<MembershipId>): (r: seq<Membership>)
    requires forall i :: 0 <= i < |ks| ==> ks[i] in members
    ensures |r| == |ks| && forall i :: 0 <= i < |ks| ==> r[i] == members[ks[i]]
  {
    seq(|ks|, i requires 0 <= i < |ks| => members[ks[i]])
  }

  /** Viewing the rows listed by an index of conversation `c` views every row of `c`, one view per user. */
  lemma ViewsOfIndex(users: map<UserId, User>, members: map<MembershipId, Membership>, c: ConversationId,
                     ks: seq<MembershipId>, me: UserId)
    requires forall i :: 0 <= i < |ks| ==> ks[i] in members && members[ks[i]].conversationId == c
    requires forall k :: k in members && members[k].conversationId == c ==> k in ks
    requires forall a, b :: 0 <= a < b < |ks| ==> members[ks[a]].userId != members[ks[b]].userId
    ensures forall v :: v in MemberViews(users, Rows(members, ks), me) <==>
              exists k :: k in members && members[k].conversationId == c && ViewOf(users, members[k], me) == Some(v)
    ensures forall a, b :: 0 <= a < b < |MemberViews(users, Rows(members, ks), me)| ==>
              MemberViews(users, Rows(members, ks), me)[a].userId != MemberViews(users, Rows(members, ks), me)[b].userId
  {
    var rows := Rows(members, ks);
    assert forall a, b :: 0 <= a < b < |rows| ==> rows[a].userId != rows[b].userId by {
      forall a, b | 0 <= a < b < |rows| ensures rows[a].userId != rows[b].userId {
        assert rows[a] == members[ks[a]] && rows[b] == members[ks[b]];
      }
    }
    MemberViewsDistinct(users, rows, me);
    var views := MemberViews(users, rows, me);
    forall v | exists k :: k in members && members[k].conversationId == c && ViewOf(users, members[k], me) == Some(v)
      ensures v in views
    {
      var k :| k in members && members[k].conversationId == c && ViewOf(users, members[k], me) == Some(v);
      assert k in ks;
      var i :| 0 <= i < |ks| && ks[i] == k;
      assert rows[i] == members[k];
    }
    forall v | v in views
      ensures exists k :: k in members && members[k].conversationId == c && ViewOf(users, members[k], me) == Some(v)
    {
      var i :| 0 <= i < |rows| && ViewOf(users, rows[i], me) == Some(v);
      assert members[ks[i]].conversationId == c && ViewOf(users, members[ks[i]], me) == Some(v);
    }
  }

  /**
   * The members list of getGroupDetails: a view per membership of `c` whose user row exists, one
   * per user, in the order the memberships were created (the by_conversationId index order).
   */
  function GroupMemberViews(db: Db, c: ConversationId, me: UserId): (r: seq<MemberView>)
    requires db.Valid()
    reads db
    ensures forall v :: v in r <==> exists k :: k in db.members && db.members[k].conversationId == c && ViewOf(db.users, db.members[k], me) == Some(v)
    ensures forall a, b :: 0 <= a < b < |r| ==> r[a].userId != r[b].userId
    ensures forall a :: 0 <= a < |r| ==> MembershipOf(db, c, r[a].userId).Some?
    ensures forall a, b :: 0 <= a < b < |r| ==> MembershipOf(db, c, r[a].userId).value < MembershipOf(db, c, r[b].userId).value
  {
    var ks := MembershipsIn(db, c);
    MembershipsInDistinctUsers(db, c);
    ViewsOfIndex(db.users, db.members, c, ks, me);
    var r := MemberViews(db.users, Rows(db.members, ks), me);
    IndexViewsInOrder(db, c, me, r);
    r
  }

  /** Each view of the index's rows names its user's membership, and those memberships ascend. */
  lemma IndexViewsInOrder(db: Db, c: ConversationId, me: UserId, r: seq<MemberView>)
    requires db.Valid() && r == MemberViews(db.users, Rows(db.members, MembershipsIn(db, c)), me)
    ensures forall a :: 0 <= a < |r| ==> MembershipOf(db, c, r[a].userId).Some?
    ensures forall a, b :: 0 <= a < b < |r| ==> MembershipOf(db, c, r[a].userId).value < MembershipOf(db, c, r[b].userId).value
  {
    var ks := MembershipsIn(db, c);
    var rows := Rows(db.members, ks);
    MemberViewsInOrder(db.users, rows, me);
    var kept := KeptRows(db.users, rows);
    forall a | 0 <= a < |r| ensures MembershipOf(db, c, r[a].userId) == Some(ks[kept[a]]) {
      assert rows[kept[a]] == db.members[ks[kept[a]]];
      assert IsMembershipOf(db.members[ks[kept[a]]], c, r[a].userId);
    }
  }

  /**
   * getGroupDetails: for a member of an existing group, the conversation, its members with user rows
   * (one per user), and whether the caller created it; None otherwise.
   */
  function GetGroupDetails(db: Db, identity: Option<string>, c: ConversationId): (r: Option<GroupDetails>)
    requires db.Valid()
    reads db
    ensures var caller := GetCurrentUser(db, identity);
            r.Some? <==> caller.Some? && c in db.conversations && db.conversations[c].isGroup && HasMember(db.members, c, caller.value)
    ensures r.Some? ==> var caller := GetCurrentUser(db, identity).value;
                        && r.value.id == c && r.value.conv == db.conversations[c]
                        && (r.value.isAdmin <==> db.conversations[c].creatorId == Some(caller))
                        && r.value.members == GroupMemberViews(db, c, caller)
  {
    var caller := GetCurrentUser(db, identity);
    if caller.None? then None
    else if c !in db.conversations || !db.conversations[c].isGroup then None
    else if !CheckMembership(db, c, caller.value) then None
    else Some(GroupDetails(c, db.conversations[c], GroupMemberViews(db, c, caller.value), db.conversations[c].creatorId == Some(caller.value)))
  }

  /** The caller appears in the details of a group they belong to, exactly once and marked as themself. */
  lemma GroupDetailsListCaller(db: Db, identity: Option<string>, c: ConversationId)
    requires db.Valid()
    requires GetGroupDetails(db, identity, c).Some?
    ensures var me := GetCurrentUser(db, identity).value;
            var vs := GetGroupDetails(db, identity, c).value.members;
            && (exists i :: 0 <= i < |vs| && vs[i].userId == me && vs[i].isMe)
            && (forall i :: 0 <= i < |vs| && vs[i].isMe ==> vs[i].userId == me)
  {
    var me := GetCurrentUser(db, identity).value;
    var vs := GetGroupDetails(db, identity, c).value.members;
    var k := MembershipOf(db, c, me).value;
    var v := ViewOf(db.users, db.members[k], me).value;
    assert v in vs;
    var i :| 0 <= i < |vs| && vs[i] == v;
    forall j | 0 <= j < |vs| && vs[j].isMe ensures vs[j].userId == me {
      assert vs[j] in vs;
    }
  }

  // ---------------------------------------------------------------- read watermarks

  /** Moves the watermark of membership `k` to `t`; nothing else changes. */
  method SetWatermark(db: Db, k: MembershipId, t: nat)
    requires db.Valid() && k in db.members
    modifies db`members
    ensures db.Valid()
    ensures db.members == old(db.members)[k := old(db.members)[k].(lastReadTime := t)]
  {
    ghost var ms := db.members;
    db.members := db.members[k := db.members[k].(lastReadTime := t)];
    assert OneMembershipPerPair(db.members) by {
      forall a, b | a in db.members && b in db.members && SamePair(db.members[a], db.members[b]) ensures a == b {
        assert SamePair(ms[a], ms[b]);
      }
    }
  }

  /**
   * markAsRead: moves the caller's watermark in `c` to `now`; without an identity, a user row
   * or a membership it does nothing.
   */
  method MarkAsRead(db: Db, identity: Option<string>, c: ConversationId, now: nat)
    requires db.Valid()
    modifies db`members
    ensures db.Valid()
    ensures var caller := old(GetCurrentUser(db, identity));
            && (caller.None? || !old(HasMember(db.members, c, caller.value)) ==> unchanged(db))
            && (caller.Some? && old(HasMember(db.members, c, caller.value)) ==>
                  var k := old(MembershipOf(db, c, caller.value)).value;
                  db.members == old(db.members)[k := old(db.members)[k].(lastReadTime := now)])
  {
    var caller := GetCurrentUser(db, identity);
    if caller.None? {
      return;
    }
    var membership := MembershipOf(db, c, caller.value);
    if membership.Some? {
      SetWatermark(db, membership.value, now);
    }
  }

  /** The loop of getReadStatus over the memberships `ks`: each user other than `me` mapped to their watermark. */
  method CollectWatermarks(db: Db, ks: seq<MembershipId>, me: UserId) returns (r: map<UserId, nat>)
    requires forall i :: 0 <= i < |ks| ==> ks[i] in db.members
    requires forall a, b :: 0 <= a < b < |ks| ==> db.members[ks[a]].userId != db.members[ks[b]].userId
    ensures forall u :: u in r <==> u != me && exists j :: 0 <= j < |ks| && db.members[ks[j]].userId == u
    ensures forall j :: 0 <= j < |ks| && db.members[ks[j]].userId != me ==>
              r[db.members[ks[j]].userId] == db.members[ks[j]].lastReadTime
  {
    r := map[];
    for i := 0 to |ks|
      invariant forall u :: u in r <==> u != me && exists j :: 0 <= j < i && db.members[ks[j]].userId == u
      invariant forall j :: 0 <= j < i && db.members[ks[j]].userId != me ==>
                  r[db.members[ks[j]].userId] == db.members[ks[j]].lastReadTime
    {
      var m := db.members[ks[i]];
      if m.userId != me {
        r := r[m.userId := m.lastReadTime];
      }
    }
  }

  /**
   * getReadStatus: for a member, every other member's watermark keyed by user; otherwise the empty
   * record.
   */
  method GetReadStatus(db: Db, identity: Option<string>, c: ConversationId) returns (r: map<UserId, nat>)
    requires db.Valid()
    ensures var caller := GetCurrentUser(db, identity);
            && (caller.None? || !HasMember(db.members, c, caller.value) ==> r == map[])
            && (caller.Some? && HasMember(db.members, c, caller.value) ==>
                  && (forall u :: u in r <==> u != caller.value && HasMember(db.members, c, u))
                  && (forall k :: k in db.members && IsMembershipOf(db.members[k], c, db.members[k].userId)
                                   && db.members[k].userId != caller.value ==>
                        r[db.members[k].userId] == db.members[k].lastReadTime))
  {
    var caller := GetCurrentUser(db, identity);
    if caller.None? {
      return map[];
    }
    var me := caller.value;
    if !CheckMembership(db, c, me) {
      return map[];
    }
    var ks := MembershipsIn(db, c);
    MembershipsInDistinctUsers(db, c);
    r := CollectWatermarks(db, ks, me);
    forall u | u != me && HasMember(db.members, c, u) ensures u in r {
      var k :| k in db.members && IsMembershipOf(db.members[k], c, u);
      assert k in ks;
      var j :| 0 <= j < |ks| && ks[j] == k;
    }
    forall u | u in r ensures HasMember(db.members, c, u) {
      var j :| 0 <= j < |ks| && db.members[ks[j]].userId == u;
      assert IsMembershipOf(db.members[ks[j]], c, u);
    }
    forall k | k in db.members && IsMembershipOf(db.members[k], c, db.members[k].userId) && db.members[k].userId != me
      ensures r[db.members[k].userId] == db.members[k].lastReadTime
    {
      assert k in ks;
      var j :| 0 <= j < |ks| && ks[j] == k;
    }
  }
}
