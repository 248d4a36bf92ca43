/**
 * The document store: one map per table, the id counter shared by every
 * table, and `clock`, the latest time at which a row was stamped with a
 * creation time. `Valid()` gathers the keys the handlers' `.unique()` lookups
 * rely on and the references that are never left dangling.
 */
module Store {
  import opened Schema
  import opened Tables

  /** by_clerkId: at most one user per external identity. */
  ghost predicate OneUserPerClerkId(users: map<UserId, User>)
  {
    forall a, b :: a in users && b in users && users[a].clerkId == users[b].clerkId ==> a == b
  }

  predicate SamePair(x: Membership, y: Membership)
  {
    x.conversationId == y.conversationId && x.userId == y.userId
  }

  /** At most one membership per (conversation, user). */
  ghost predicate OneMembershipPerPair(members: map<MembershipId, Membership>)
  {
    forall a, b :: a in members && b in members && SamePair(members[a], members[b]) ==> a == b
  }

  /** At most one reaction per (message, user, emoji). */
  ghost predicate OneReactionPerTriple(reactions: map<ReactionId, Reaction>)
  {
    forall a, b :: a in reactions && b in reactions && reactions[a] == reactions[b] ==> a == b
  }

  /** At most one presence row per user. */
  ghost predicate OnePresencePerUser(presence: map<PresenceId, Presence>)
  {
    forall a, b :: a in presence && b in presence && presence[a].userId == presence[b].userId ==> a == b
  }

  /** by_pair: at most one request per ordered (from, to) pair, and none from a user to themself. */
  ghost predicate OneRequestPerPair(requests: map<RequestId, MessageRequest>)
  {
    && (forall a, b ::
          a in requests && b in requests && requests[a].fromUserId == requests[b].fromUserId
          && requests[a].toUserId == requests[b].toUserId
          ==> a == b)
    && (forall k :: k in requests ==> requests[k].fromUserId != requests[k].toUserId)
  }

  /** Every membership belongs to a conversation that exists. */
  ghost predicate MembershipsResolve(members: map<MembershipId, Membership>, conversations: map<ConversationId, Conversation>)
  {
    forall k :: k in members ==> members[k].conversationId in conversations
  }

  class Db {
    var users: map<UserId, User>
    var conversations: map<ConversationId, Conversation>
    var members: map<MembershipId, Membership>
    var messages: map<MessageId, Message>
    var reactions: map<ReactionId, Reaction>
    var presence: map<PresenceId, Presence>
    var requests: map<RequestId, MessageRequest>
    var nextId: nat
    var clock: nat

    ghost predicate Valid()
      reads this
    {
      && KeysBelow(users, nextId) && KeysBelow(conversations, nextId) && KeysBelow(members, nextId)
      && KeysBelow(messages, nextId) && KeysBelow(reactions, nextId) && KeysBelow(presence, nextId)
      && KeysBelow(requests, nextId)
      && (forall k :: k in conversations ==> conversations[k].created <= clock)
      && (forall k :: k in messages ==> messages[k].created <= clock)
      && OneUserPerClerkId(users)
      && OneMembershipPerPair(members)
      && MembershipsResolve(members, conversations)
      && OneReactionPerTriple(reactions)
      && OnePresencePerUser(presence)
      && OneRequestPerPair(requests)
    }

    /** An empty deployment. */
    constructor ()
      ensures Valid()
      ensures users == map[] && conversations == map[] && members == map[] && messages == map[]
      ensures reactions == map[] && presence == map[] && requests == map[]
      ensures nextId == 0 && clock == 0
    {
      users, conversations, members, messages := map[], map[], map[], map[];
      reactions, presence, requests := map[], map[], map[];
      nextId, clock := 0, 0;
    }

    /** Allocates the id of a row about to be inserted; it is in no table yet. */
    method NewId() returns (id: nat)
      requires Valid()
      modifies this`nextId
      ensures Valid()
      ensures id == old(nextId) && nextId == id + 1
      ensures id !in users && id !in conversations && id !in members && id !in messages
      ensures id !in reactions && id !in presence && id !in requests
    {
      id := nextId;
      nextId := nextId + 1;
    }
  }

  /** The by_clerkId lookup: the one user whose clerkId is the given one. */
  function UserByClerkId(db: Db, clerkId: string): (r: Option<UserId>)
    requires db.Valid()
    reads db
    ensures r.Some? ==> r.value in db.users && db.users[r.value].clerkId == clerkId
    ensures forall id :: id in db.users && db.users[id].clerkId == clerkId ==> r == Some(id)
    ensures r.None? <==> forall id :: id in db.users ==> db.users[id].clerkId != clerkId
  {
    Find(db.users, (u: User) => u.clerkId == clerkId, db.nextId)
  }

  predicate IsMembershipOf(m: Membership, c: ConversationId, u: UserId)
  {
    m.conversationId == c && m.userId == u
  }

  /** The by_userId lookup filtered on the conversation: the one membership of `u` in `c`. */
  function MembershipOf(db: Db, c: ConversationId, u: UserId): (r: Option<MembershipId>)
    requires db.Valid()
    reads db
    ensures r.Some? ==> r.value in db.members && IsMembershipOf(db.members[r.value], c, u)
    ensures forall k :: k in db.members && IsMembershipOf(db.members[k], c, u) ==> r == Some(k)
    ensures r.None? <==> forall k :: k in db.members ==> !IsMembershipOf(db.members[k], c, u)
  {
    Find(db.members, (m: Membership) => IsMembershipOf(m, c, u), db.nextId)
  }

  predicate InConversation(m: Membership, c: ConversationId)
  {
    m.conversationId == c
  }

  /** The by_conversationId index over memberships, in insertion order. */
  function MembershipsIn(db: Db, c: ConversationId): (r: seq<MembershipId>)
    requires db.Valid()
    reads db
    ensures forall i :: 0 <= i < |r| ==> r[i] in db.members && db.members[r[i]].conversationId == c
    ensures forall k :: k in db.members && db.members[k].conversationId == c <==> k in r
    ensures forall i, j :: 0 <= i < j < |r| ==> r[i] < r[j]
  {
    Select(db.members, (m: Membership) => InConversation(m, c), db.nextId)
  }

  /** Distinct memberships of one conversation belong to distinct users. */
  lemma MembershipsInDistinctUsers(db: Db, c: ConversationId)
    requires db.Valid()
    ensures var r := MembershipsIn(db, c);
            forall i, j :: 0 <= i < j < |r| ==> db.members[r[i]].userId != db.members[r[j]].userId
  {
    var r := MembershipsIn(db, c);
    forall i, j | 0 <= i < j < |r| ensures db.members[r[i]].userId != db.members[r[j]].userId {
      assert r[i] != r[j];
      if db.members[r[i]].userId == db.members[r[j]].userId {
        assert SamePair(db.members[r[i]], db.members[r[j]]);
      }
    }
  }
}
