/**
 * User accounts: the upsert run at every sign-in, the offline flag, profile
 * edits, and the user directory with its name search.
 */
module Users {
  import opened Schema
  import opened Tables
  import opened Store
  import opened Conversations
  import Text

  /** Sets user `u`'s online flag and last-seen time; every clerkId stays as it was. */
  method SetOnline(db: Db, u: UserId, isOnline: bool, now: nat)
    requires db.Valid() && u in db.users
    modifies db`users
    ensures db.Valid()
    ensures db.users == old(db.users)[u := old(db.users)[u].(isOnline := isOnline, lastSeen := now)]
  {
    ghost var before := db.users;
    db.users := db.users[u := db.users[u].(isOnline := isOnline, lastSeen := now)];
    assert forall k :: k in db.users ==> db.users[k].clerkId == before[k].clerkId;
  }

  /**
   * storeUser: without an identity the call fails. A user already stored under `clerkId` gets the
   * new name and image, is marked online as of `now`, keeps their email, and their id is returned;
   * otherwise one user is inserted, online. Either way the returned id is the one user under
   * `clerkId` and carries the name and image passed, so calling again returns the same id.
   * The row touched is chosen by the `clerkId` argument, not by the identity.
   */
  method StoreUser(db: Db, identity: Option<string>, name: string, email: string, imageUrl: string,
                   clerkId: string, now: nat) returns (r: Result<UserId>)
    requires db.Valid()
    modifies db`users, db`nextId
    ensures db.Valid()
    ensures identity.None? ==> r == Err(AuthenticationFailed) && unchanged(db)
    ensures identity.Some? && old(UserByClerkId(db, clerkId)).Some? ==>
              var u := old(UserByClerkId(db, clerkId)).value;
              && r == Ok(u) && db.nextId == old(db.nextId)
              && db.users == old(db.users)[u := old(db.users)[u].(name := name, imageUrl := imageUrl,
                                                                  isOnline := true, lastSeen := now)]
    ensures identity.Some? && old(UserByClerkId(db, clerkId)).None? ==>
              var u := old(db.nextId);
              && r == Ok(u) && u !in old(db.users) && db.nextId == u + 1
              && db.users == old(db.users)[u := User(name, email, imageUrl, clerkId, true, now)]
    ensures r.Ok? ==> UserByClerkId(db, clerkId) == Some(r.value)
                      && db.users[r.value].name == name && db.users[r.value].imageUrl == imageUrl
                      && db.users[r.value].isOnline && db.users[r.value].lastSeen == now
  {
    if identity.None? {
      return Err(AuthenticationFailed);
    }
    var existing := UserByClerkId(db, clerkId);
    if existing.Some? {
      RecordSignIn(db, existing.value, name, imageUrl, now);
      return Ok(existing.value);
    }
    var u := InsertUser(db, User(name, email, imageUrl, clerkId, true, now));
    r := Ok(u);
  }

  /** The sign-in patch of an existing user: new name and image, online as of `now`. */
  method RecordSignIn(db: Db, u: UserId, name: string, imageUrl: string, now: nat)
    requires db.Valid() && u in db.users
    modifies db`users
    ensures db.Valid()
    ensures db.users == old(db.users)[u := old(db.users)[u].(name := name, imageUrl := imageUrl,
                                                             isOnline := true, lastSeen := now)]
    ensures UserByClerkId(db, db.users[u].clerkId) == Some(u)
  {
    ghost var before := db.users;
    db.users := db.users[u := db.users[u].(name := name, imageUrl := imageUrl, isOnline := true, lastSeen := now)];
    assert forall k :: k in db.users ==> db.users[k].clerkId == before[k].clerkId;
  }

  /** Inserts a user whose clerkId no stored user has. */
  method InsertUser(db: Db, user: User) returns (u: UserId)
    requires db.Valid() && UserByClerkId(db, user.clerkId).None?
    modifies db`users, db`nextId
    ensures db.Valid()
    ensures u == old(db.nextId) && u !in old(db.users) && db.nextId == u + 1
    ensures db.users == old(db.users)[u := user]
    ensures UserByClerkId(db, user.clerkId) == Some(u)
  {
    ghost var before := db.users;
    u := db.NewId();
    db.users := db.users[u := user];
    assert forall k :: k in before ==> before[k].clerkId != user.clerkId;
    assert OneUserPerClerkId(db.users) by {
      forall a, b | a in db.users && b in db.users && db.users[a].clerkId == db.users[b].clerkId ensures a == b {
        if a != u && b != u {
          assert before[a].clerkId == before[b].clerkId;
        }
      }
    }
  }

  /** setOffline: the user stored under `clerkId`, if any, goes offline as of `now`; no identity is required. */
  method SetOffline(db: Db, clerkId: string, now: nat)
    requires db.Valid()
    modifies db`users
    ensures db.Valid()
    ensures old(UserByClerkId(db, clerkId)).None? ==> unchanged(db)
    ensures old(UserByClerkId(db, clerkId)).Some? ==>
              var u := old(UserByClerkId(db, clerkId)).value;
              db.users == old(db.users)[u := old(db.users)[u].(isOnline := false, lastSeen := now)]
  {
    var user := UserByClerkId(db, clerkId);
    if user.Some? {
      SetOnline(db, user.value, false, now);
    }
  }

  /**
   * updateProfile: the caller's display name becomes `name` with the white space at both ends cut
   * off; nothing else changes. Fails without an identity, or when no user is stored for it.
   */
  method UpdateProfile(db: Db, identity: Option<string>, name: string) returns (r: Result<()>)
    requires db.Valid()
    modifies db`users
    ensures db.Valid()
    ensures identity.None? ==> r == Err(Unauthorized) && unchanged(db)
    ensures identity.Some? && old(GetCurrentUser(db, identity)).None? ==> r == Err(UserNotFound) && unchanged(db)
    ensures old(GetCurrentUser(db, identity)).Some? ==>
              var u := old(GetCurrentUser(db, identity)).value;
              && r == Ok(())
              && db.users == old(db.users)[u := old(db.users)[u].(name := Text.Trim(name))]
  {
    if identity.None? {
      return Err(Unauthorized);
    }
    var user := GetCurrentUser(db, identity);
    if user.None? {
      return Err(UserNotFound);
    }
    var u := user.value;
    ghost var before := db.users;
    db.users := db.users[u := db.users[u].(name := Text.Trim(name))];
    assert forall k :: k in db.users ==> db.users[k].clerkId == before[k].clerkId;
    r := Ok(());
  }

  // ---------------------------------------------------------------- queries

  /** A user row as the queries return it: its id and its fields. */
  datatype UserDoc = UserDoc(id: UserId, user: User)

  function UserDocs(users: map<UserId, User>, ks: seq<UserId>): (r: seq<UserDoc>)
    requires forall i :: 0 <= i < |ks| ==> ks[i] in users
    ensures |r| == |ks|
    ensures forall i :: 0 <= i < |ks| ==> r[i] == UserDoc(ks[i], users[ks[i]])
  {
    seq(|ks|, i requires 0 <= i < |ks| => UserDoc(ks[i], users[ks[i]]))
  }

  /** The term searchUsers matches against: lower-cased, then trimmed. */
  function SearchTerm(term: string): string
  {
    Text.Trim(Text.Lower(term))
  }

  /** A name matches a search term when the term is empty or occurs in the lower-cased name. */
  predicate NameMatches(name: string, term: string)
  {
    term == "" || Text.Contains(Text.Lower(name), term)
  }

  /** The rows a listing keeps: someone other than the user signed in as `subject`, whose name matches `term`. */
  predicate Listed(u: User, subject: string, term: string)
  {
    u.clerkId != subject && NameMatches(u.name, term)
  }

  /** The rows `Listed` keeps, decorated, in id order (a full table scan returns rows in creation order). */
  function ListUsers(users: map<UserId, User>, hi: nat, subject: string, term: string): (r: seq<UserDoc>)
    requires KeysBelow(users, hi)
  {
    var ks := Select(users, (u: User) => Listed(u, subject, term), hi);
    UserDocs(users, ks)
  }

  /**
   * `r` lists every user other than `me` whose name matches `term`, each once, in id order, with
   * their row, and nothing else.
   */
  ghost predicate ListsMatching(r: seq<UserDoc>, users: map<UserId, User>, me: UserId, term: string)
  {
    && (forall k :: k in users && k != me && NameMatches(users[k].name, term)
          <==> exists i :: 0 <= i < |r| && r[i].id == k)
    && (forall i, j :: 0 <= i < j < |r| ==> r[i].id < r[j].id)
    && (forall i :: 0 <= i < |r| ==> r[i].id in users && r[i].user == users[r[i].id] && r[i].id != me)
  }

  /** Every user other than `me` whose name matches `term` is listed once, in id order, with their row. */
  lemma ListUsersSpec(users: map<UserId, User>, hi: nat, subject: string, me: UserId, term: string)
    requires KeysBelow(users, hi) && OneUserPerClerkId(users) && me in users && users[me].clerkId == subject
    ensures ListsMatching(ListUsers(users, hi, subject, term), users, me, term)
  {
    var ks := Select(users, (u: User) => Listed(u, subject, term), hi);
    var r := ListUsers(users, hi, subject, term);
    assert forall i :: 0 <= i < |r| ==> r[i].id == ks[i];
    assert forall k :: k in users ==> (users[k].clerkId == subject <==> k == me);
    forall k | k in users && k != me && NameMatches(users[k].name, term)
      ensures exists i :: 0 <= i < |r| && r[i].id == k
    {
      assert Listed(users[k], subject, term);
      var i :| 0 <= i < |ks| && ks[i] == k;
      assert r[i].id == k;
    }
  }

  /** With the empty term every user other than `me` is listed. */
  lemma EveryoneElseListed(users: map<UserId, User>, hi: nat, subject: string, me: UserId)
    requires KeysBelow(users, hi) && OneUserPerClerkId(users) && me in users && users[me].clerkId == subject
    ensures var r := ListUsers(users, hi, subject, "");
            && (forall k :: k in users && k != me <==> exists i :: 0 <= i < |r| && r[i].id == k)
            && (forall i, j :: 0 <= i < j < |r| ==> r[i].id < r[j].id)
            && (forall i :: 0 <= i < |r| ==> r[i].id in users && r[i].user == users[r[i].id])
  {
    ListUsersSpec(users, hi, subject, me, "");
    assert forall k :: k in users ==> NameMatches(users[k].name, "");
  }

  /** getUsers: for a stored caller, every other user, oldest first; the empty list otherwise. */
  function GetUsers(db: Db, identity: Option<string>): (r: seq<UserDoc>)
    requires db.Valid()
    reads db
    ensures GetCurrentUser(db, identity).None? ==> r == []
    ensures var me := GetCurrentUser(db, identity);
            me.Some? ==>
              && (forall k :: k in db.users && k != me.value <==> exists i :: 0 <= i < |r| && r[i].id == k)
              && (forall i, j :: 0 <= i < j < |r| ==> r[i].id < r[j].id)
              && (forall i :: 0 <= i < |r| ==> r[i].id in db.users && r[i].user == db.users[r[i].id])
  {
    var me := GetCurrentUser(db, identity);
    if me.None? then []
    else
      EveryoneElseListed(db.users, db.nextId, identity.value, me.value);
      ListUsers(db.users, db.nextId, identity.value, "")
  }

  /**
   * searchUsers: for a stored caller, every other user whose lower-cased name contains the
   * lower-cased, trimmed term (every other user when that term is empty), oldest first; the empty
   * list otherwise.
   */
  function SearchUsers(db: Db, identity: Option<string>, term: string): (r: seq<UserDoc>)
    requires db.Valid()
    reads db
    ensures GetCurrentUser(db, identity).None? ==> r == []
    ensures var me := GetCurrentUser(db, identity);
            me.Some? ==> ListsMatching(r, db.users, me.value, SearchTerm(term))
  {
    var me := GetCurrentUser(db, identity);
    if me.None? then []
    else
      ListUsersSpec(db.users, db.nextId, identity.value, me.value, SearchTerm(term));
      ListUsers(db.users, db.nextId, identity.value, SearchTerm(term))
  }

  /** A search whose term is empty once lower-cased and trimmed lists exactly what getUsers lists. */
  lemma {:induction false} BlankSearchListsEveryone(db: Db, identity: Option<string>, term: string)
    requires db.Valid() && SearchTerm(term) == ""
    ensures SearchUsers(db, identity, term) == GetUsers(db, identity)
  {
    if GetCurrentUser(db, identity).Some? {
      var s := identity.value;
      SelectFromSame(db.users, (u: User) => Listed(u, s, SearchTerm(term)), (u: User) => Listed(u, s, ""), 0, db.nextId);
    }
  }

  /** Every user a search finds is one getUsers lists, and the search term occurs in their lower-cased name. */
  lemma SearchNarrowsUsers(db: Db, identity: Option<string>, term: string, i: nat)
    requires db.Valid() && i < |SearchUsers(db, identity, term)|
    ensures var found := SearchUsers(db, identity, term)[i];
            && (exists j :: 0 <= j < |GetUsers(db, identity)| && GetUsers(db, identity)[j] == found)
            && (SearchTerm(term) == "" || Text.Contains(Text.Lower(found.user.name), SearchTerm(term)))
  {
    var found := SearchUsers(db, identity, term)[i];
    var all := GetUsers(db, identity);
    assert found.id in db.users && found.id != GetCurrentUser(db, identity).value;
    var j :| 0 <= j < |all| && all[j].id == found.id;
    assert all[j] == found;
  }

  /** What getCurrentUserStatus reports: whether the request is authenticated and whether a user is stored for it. */
  datatype AuthStatus = AuthStatus(authenticated: bool, hasRecord: bool)

  function GetCurrentUserStatus(db: Db, identity: Option<string>): (r: AuthStatus)
    requires db.Valid()
    reads db
    ensures r.authenticated <==> identity.Some?
    ensures r.hasRecord <==> identity.Some? && exists u :: u in db.users && db.users[u].clerkId == identity.value
  {
    AuthStatus(identity.Some?, GetCurrentUser(db, identity).Some?)
  }

  /** getMe: the user stored for the identity, with its id; nothing when unauthenticated or not stored. */
  function GetMe(db: Db, identity: Option<string>): (r: Option<UserDoc>)
    requires db.Valid()
    reads db
    ensures r.Some? <==> identity.Some? && exists u :: u in db.users && db.users[u].clerkId == identity.value
    ensures r.Some? ==> r.value.id in db.users && r.value.user == db.users[r.value.id]
                        && r.value.user.clerkId == identity.value
  {
    var me := GetCurrentUser(db, identity);
    if me.None? then None else Some(UserDoc(me.value, db.users[me.value]))
  }
}
