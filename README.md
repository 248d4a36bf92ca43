# Live chat backend, modelled in Dafny

The chat application keeps its state in a document store with seven tables:
- users;
- conversations (direct and group);
- conversationMembers, the join rows that carry each member's read watermark and optional role;
- messages;
- reactions;
- presence heartbeats;
- messageRequests.

Every query and mutation runs as one transaction on those tables on behalf of an authenticated identity.

This project models that backend:
- **The store.** The tables are `map`s in one `Store.Db` object, with a single id counter and a clock. Its invariant `Valid()` holds the uniqueness keys the code relies on: one user per clerkId, one membership per (conversation, user) pair, one reaction per (message, user, emoji) triple, one presence row per user, and one request per ordered pair of distinct users. It also requires every membership to point at an existing conversation.
- **Mutations.** Each mutation is a method that changes the store in place. It states the result and the whole new state for the unauthenticated case, for each error case and for the success case, and it preserves `Valid()`.
- **Queries.** Each query is a function, with lemmas about what it lists and in what order.

Every handler's identity parameter is the authenticated subject, or `None` for an anonymous call. Time (`Date.now()` and a row's creation time) is the parameter `now`. The random string behind invite codes is the parameter `random`.

## Model

| member | source | states |
|---|---|---|
| Schema.ParseMessageType | convex/schema.ts:35 | accepts exactly the literals "text" and "system", and the parsed value prints back as its literal |
| Schema.MessageTypeRoundTrip | convex/schema.ts:35 | parsing the literal of a message type gives that type back |
| Schema.ParseRequestStatus | convex/schema.ts:68 | accepts exactly "pending", "accepted" and "declined", and the parsed value prints back as its literal |
| Schema.RequestStatusRoundTrip | convex/schema.ts:68 | parsing the literal of a status gives that status back |
| Schema.ParseRole | convex/schema.ts:27 | the optional role is absent, "admin" or "member"; any other string is rejected |
| Store.Db.constructor | convex/schema.ts:4-72 | an empty store satisfies every table key and reference invariant |
| Store.Db.NewId | convex/schema.ts:4-72 | a new document id is unused in every table |
| Store.UserByClerkId | convex/conversations.ts:345-348 | the by_clerkId lookup returns the one user with that clerkId, or None exactly when there is none |
| Store.MembershipOf | convex/conversations.ts:351-358 | the membership lookup returns the one row of the user in the conversation, or None exactly when there is none |
| Store.MembershipsIn | convex/conversations.ts:247-250 | the by_conversationId index lists every membership of the conversation and nothing else, in ascending id order |
| Store.MembershipsInDistinctUsers | convex/schema.ts:23-29 | the memberships of one conversation belong to pairwise distinct users |
| Tables.FindFrom | convex/conversations.ts:345-348 | returns the first id in the range whose row matches, or None exactly when no row in the range matches |
| Tables.Find | convex/conversations.ts:345-348 | a `.first()`/`.unique()` lookup returns the earliest matching row, or None exactly when nothing matches |
| Tables.SelectFrom | convex/conversations.ts:247-250 | lists every matching id in the range, each once, ascending |
| Tables.Select | convex/conversations.ts:247-250 | a `.collect()` lists exactly the matching ids, ascending |
| Tables.SelectFromSame | convex/conversations.ts:247-250 | two filters that agree on every row select the same ids |
| Tables.DistinctCard | convex/messageRequests.ts:136-142 | a list without repeats is as long as its set of elements |
| Tables.SelectCount | convex/messageRequests.ts:136-142 | the length of a collected list is the number of matching rows |
| Text.UpperChar | convex/conversations.ts:6 | maps an ASCII lower-case letter to its own upper-case letter (32 code points lower) and keeps every other character |
| Text.LowerChar | convex/users.ts:100 | maps an ASCII upper-case letter to its own lower-case letter (32 code points higher), which upper-cases back to it, and keeps every other character |
| Text.Upper | convex/conversations.ts:6 | `toUpperCase` keeps the length and upper-cases each character in place, so no lower-case letter is left and only lower-case letters change |
| Text.Lower | convex/users.ts:100 | `toLowerCase` keeps the length and lower-cases each character in place, so no upper-case letter is left and only upper-case letters change |
| Text.UpperIdempotent | convex/conversations.ts:214 | upper-casing twice is upper-casing once |
| Text.UpperFixes | convex/conversations.ts:214 | a string without lower-case letters is its own upper-case form |
| Text.UpperLowerRestores | convex/conversations.ts:214 | lower-casing and then upper-casing a string without lower-case letters restores it |
| Text.TrimStart | convex/users.ts:100 | removes exactly the leading white space |
| Text.TrimEnd | convex/users.ts:100 | removes exactly the trailing white space |
| Text.Trim | convex/users.ts:136 | the result is a slice of the input with no white space at either end, and only white space was cut off |
| Text.Substring | convex/conversations.ts:6 | `substring(start, end)` clamps both bounds to the string and returns the slice between them |
| Conversations.GetCurrentUser | convex/conversations.ts:342-349 | the caller is the user stored under the identity's subject; None exactly when there is no identity or no such user |
| Conversations.HasMemberAfterInsert | convex/conversations.ts:134-139 | inserting a row under an unused key adds exactly its (conversation, user) pair to the memberships |
| Conversations.InsertMembership | convex/conversations.ts:134-139 | inserting the membership of a pair that had none keeps one row per pair |
| Conversations.CheckMembership | convex/conversations.ts:351-358 | true exactly when the user holds a membership row in the conversation |
| Conversations.GenerateCode | convex/conversations.ts:5-7 | the invite code has at most 8 characters and no lower-case letter |
| Conversations.GeneratedCodeMatchesAnyCase | convex/conversations.ts:5-7 | a generated code survives joinByInviteCode's upper-casing, whatever case the joiner types it in |
| Conversations.AppendMessage | convex/conversations.ts:10-20 | inserts the message under a new id and points the conversation's lastMessageId at it; nothing else changes |
| Conversations.InsertSystemMessage | convex/conversations.ts:10-20 | appends a system message by the given sender and points lastMessageId at it |
| Conversations.JoinAndAnnounce | convex/conversations.ts:221-228 | inserts the membership, then the announcing system message, and updates lastMessageId |
| Conversations.FirstDirectMembership | convex/conversations.ts:29-44 | finds the caller's earliest membership whose conversation is direct and shared with the participant; None exactly when there is no such membership |
| Conversations.FindDirect | convex/conversations.ts:29-44 | the scan returns a direct conversation both users belong to, or None exactly when there is none |
| Conversations.FindDirectUnique | convex/conversations.ts:29-44 | when the two users share exactly one direct conversation, the scan returns it |
| Conversations.SelfScanFindsAnyDirect | convex/conversations.ts:34-43 | as written, the scan for a conversation with oneself succeeds exactly when the caller belongs to any direct conversation |
| Conversations.SelfScanReturnsOthersConversation | convex/conversations.ts:34-43 | as written, a caller whose only direct conversation is with another user and who names themself gets that conversation back |
| Conversations.DirectRowsAsWrittenCollide | convex/conversations.ts:46-49 | the two rows inserted as written share a (conversation, user) key exactly when the caller names themself |
| Conversations.FreshPairKeepsOneMembershipPerPair | convex/conversations.ts:46-49 | two rows of a fresh conversation keep one membership per pair exactly when their users differ |
| Conversations.DirectRowsAsWrittenBreakKey | convex/conversations.ts:46-49 | as written, the insert breaks the one-membership-per-pair key exactly for a conversation with oneself |
| Conversations.InsertDirectConversation | convex/conversations.ts:46-49 | inserts a direct conversation and both members' rows with their watermarks; the invariant is kept |
| Conversations.DirectRowsResolve | convex/conversations.ts:46-49 | the new conversation and its rows stay below the id counter, and every membership resolves |
| Conversations.ScanDirect | convex/conversations.ts:29-44 | the loop over the caller's memberships returns exactly what FindDirect specifies |
| Conversations.ScanMemberships | convex/conversations.ts:34-44 | the loop stops at the first row whose conversation is direct and has the participant as a member, or reports that none did |
| Conversations.NoneDirectAmong | convex/conversations.ts:34-44 | a scan that passes every membership of the caller proves that no direct conversation is shared |
| Conversations.FirstDirectIsFirstFound | convex/conversations.ts:34-44 | the loop stops at the same row that FirstDirectMembership finds |
| Conversations.DirectAfterCreate | convex/conversations.ts:46-49 | after the insert, the new conversation is the only direct one the two users share, so the next scan finds it |
| Conversations.NoOtherDirect | convex/conversations.ts:46-49 | rows added to one conversation make no other conversation direct between the two users |
| Conversations.CreateOrGetConversation | convex/conversations.ts:23-51 | fails when unauthenticated; otherwise returns the shared direct conversation unchanged, or creates one (caller's watermark `now`, participant's 0) that the next call finds; refuses a conversation with oneself |
| Conversations.CreateDirect | convex/conversations.ts:46-49 | the created conversation is the one FindDirect returns afterwards |
| Conversations.GroupRowsAsWritten | convex/conversations.ts:72-83 | the creator's admin row followed by one member row per listed id, unchecked |
| Conversations.GroupRowsAsWrittenCollide | convex/conversations.ts:72-83 | the rows as written repeat a (conversation, user) key exactly when the list names the creator or repeats an id |
| Conversations.GroupRowsStart | convex/conversations.ts:72-74 | a group holding only its creator's admin row has the shape of GroupRows with no participant yet |
| Conversations.GrowsOnlyInTrans | convex/conversations.ts:72-83 | adding rows only to the group, twice over, adds rows only to the group |
| Conversations.InsertGroup | convex/conversations.ts:64-74 | inserts the group row and the creator's admin membership with watermark `now` |
| Conversations.GroupRowsAdd | convex/conversations.ts:77-83 | a new member row for a listed id keeps the group's rows one per user |
| Conversations.GroupRowsSkip | convex/conversations.ts:77-83 | skipping an id that already holds a row keeps the group's rows unchanged |
| Conversations.AddParticipants | convex/conversations.ts:77-83 | afterwards every listed id is a member exactly once, and only the group gained rows |
| Conversations.AddParticipant | convex/conversations.ts:77-83 | adds the listed user's member row unless that user already holds one |
| Conversations.SeedGroup | convex/conversations.ts:64-83 | the group row exists, and its memberships are exactly the creator and the listed users, one row each |
| Conversations.BuildGroup | convex/conversations.ts:64-86 | the group, its memberships and its announcement, which lastMessageId points at |
| Conversations.CreateGroup | convex/conversations.ts:54-90 | fails when unauthenticated; otherwise a new group with the caller as creator and admin, the listed users as members, and a "created the group" message |
| Conversations.UpdateGroup | convex/conversations.ts:93-116 | only a member may update; a supplied name or image replaces the stored one and every other field is kept, and only a non-empty new name is announced |
| Conversations.PatchGroupRow | convex/conversations.ts:106-110 | writes the patched conversation back and changes nothing else |
| Conversations.AddMember | convex/conversations.ts:119-148 | only a member may add; adding an existing member changes nothing; otherwise one member row with watermark 0, and an announcement naming the new member ("Someone" when their row is missing) |
| Conversations.WithoutMember | convex/conversations.ts:163-169 | removes exactly the user's row in the conversation and keeps every other row |
| Conversations.DropMember | convex/conversations.ts:163-178 | removes the caller's row; the conversation is deleted exactly when no membership of it is left |
| Conversations.RemoveMembership | convex/conversations.ts:163-169 | the memberships afterwards are WithoutMember of those before |
| Conversations.WithoutMemberRow | convex/conversations.ts:163-169 | deleting the user's one row gives WithoutMember and keeps the membership invariants |
| Conversations.NoMemberRow | convex/conversations.ts:163-169 | when the user has no row there, WithoutMember removes nothing |
| Conversations.DropEmptyConversation | convex/conversations.ts:171-178 | deleting a conversation that no membership points at leaves no dangling membership |
| Conversations.LeaveGroup | convex/conversations.ts:151-180 | announces the departure as the caller, removes their row, and deletes the conversation exactly when it has no member left; messages stay |
| Conversations.GenerateInviteCode | convex/conversations.ts:183-202 | only a member gets a code: the existing non-empty code unchanged, or a newly generated code that is stored |
| Conversations.WithInviteCode | convex/conversations.ts:212-216 | the by_inviteCode index lists exactly the conversations carrying the code |
| Conversations.JoinByInviteCode | convex/conversations.ts:205-232 | the upper-cased code must name exactly one conversation; an existing member gets it back unchanged; anyone else joins as member with watermark `now`, and it is announced |
| Conversations.MemberViews | convex/conversations.ts:252-261 | the views are exactly those of the rows whose user exists |
| Conversations.MemberViewsInOrder | convex/conversations.ts:252-261 | the views keep the rows' order: the a-th view is that of the a-th row whose user exists, at ascending row positions |
| Conversations.MemberViewsDistinct | convex/conversations.ts:252-261 | rows of distinct users give views of distinct users |
| Conversations.ViewsOfIndex | convex/conversations.ts:247-261 | viewing the indexed rows views every row of the conversation, one view per user |
| Conversations.GroupMemberViews | convex/conversations.ts:247-261 | every member whose user row exists is listed once, in the order their memberships were created |
| Conversations.IndexViewsInOrder | convex/conversations.ts:247-261 | each view of the index's rows names a membership of its user, and those memberships ascend along the list |
| Conversations.GetGroupDetails | convex/conversations.ts:235-265 | details exist exactly for a member of an existing group: the conversation, its member views (each member with a user row once, in membership creation order), and isAdmin exactly when the caller created it |
| Conversations.GroupDetailsListCaller | convex/conversations.ts:252-261 | the caller is in the member list, and only the caller is marked isMe |
| Conversations.SetWatermark | convex/conversations.ts:335-337 | moves one watermark and changes nothing else |
| Conversations.MarkAsRead | convex/conversations.ts:323-339 | the caller's watermark in the conversation becomes `now`; with no caller or no membership, nothing changes |
| Conversations.CollectWatermarks | convex/conversations.ts:375-381 | the loop maps each listed user other than the caller to that user's watermark |
| Conversations.GetReadStatus | convex/conversations.ts:361-383 | for a member, exactly the other members, each mapped to their watermark; otherwise empty |
| ConversationList.UnreadCount | convex/conversations.ts:295-304 | counts the live text messages by others in the conversation that were created after the watermark |
| ConversationList.WatermarkAtClockClearsUnread | convex/conversations.ts:295-304 | a watermark at or past the clock leaves nothing unread |
| ConversationList.OtherMembers | convex/conversations.ts:284-286 | exactly the memberships of the conversation held by someone other than the caller, each once, in ascending id order |
| ConversationList.OtherUserIsEarliestOtherMember | convex/conversations.ts:284-309 | a summary's otherUser is the user of the earliest membership held by someone other than the caller (absent when that user's row is missing), and there is none exactly when the caller is the only member |
| ConversationList.LastRead | convex/conversations.ts:295-304 | the caller's watermark in the conversation |
| ConversationList.MyConversations | convex/conversations.ts:274-282 | the conversations the caller belongs to, each once |
| ConversationList.OwnConversations | convex/conversations.ts:274-282 | the caller's membership rows name exactly the caller's conversations, each once |
| ConversationList.Summaries | convex/conversations.ts:279-313 | one summary per conversation the caller belongs to |
| ConversationList.SummariesOfCover | convex/conversations.ts:279-313 | summarising a list that names each of the caller's conversations once summarises each of them once |
| ConversationList.InsertByRecency | convex/conversations.ts:316-318 | inserts a summary into a list, keeping its elements and adding this one |
| ConversationList.InsertKeepsOrder | convex/conversations.ts:316-318 | insertion keeps a newest-first list newest first |
| ConversationList.InsertBounded | convex/conversations.ts:316-318 | insertion keeps every key below a common bound |
| ConversationList.SortByRecency | convex/conversations.ts:316-318 | the result is newest first and a permutation of the input |
| ConversationList.WithRecencyConcat | convex/conversations.ts:316-318 | filtering by key distributes over concatenation |
| ConversationList.WithRecencyNone | convex/conversations.ts:316-318 | a list with no entry of that key filters to the empty list |
| ConversationList.InsertKeepsTies | convex/conversations.ts:316-318 | an inserted entry comes after every entry with the same key |
| ConversationList.InsertAfterHead | convex/conversations.ts:316-318 | inserting behind a head that is at least as recent keeps that head first |
| ConversationList.InsertAtFront | convex/conversations.ts:316-318 | inserting an entry newer than the head puts it first |
| ConversationList.SortByRecencyStable | convex/conversations.ts:316-318 | entries with equal keys keep their input order |
| ConversationList.DistinctOccursOnce | convex/conversations.ts:316-318 | in a list of distinct ids, each element occurs once |
| ConversationList.OnceIsNowhereElse | convex/conversations.ts:316-318 | an element that occurs once is at no other position |
| ConversationList.PermutationKeepsIds | convex/conversations.ts:316-318 | a permutation keeps the elements and keeps the ids distinct |
| ConversationList.GetConversations | convex/conversations.ts:268-320 | with no caller, the empty list; otherwise one summary per conversation of the caller, newest first |
| ConversationList.GetConversationsListsMemberships | convex/conversations.ts:268-320 | a conversation is listed exactly when the caller belongs to it |
| ConversationList.SameIds | convex/conversations.ts:316-318 | a permutation lists the same conversation ids |
| ConversationList.GetConversationsKeepsTies | convex/conversations.ts:316-318 | summaries with tied activity times stay in the order of the caller's memberships |
| Messages.Send | convex/messages.ts:5-44 | only a member may send; a live text message by the caller, with no image, reply or preview, is appended, lastMessageId points at it, and the sender's own watermark becomes `now` |
| Messages.SentMessageIsUnreadForOthers | convex/messages.ts:17-23 | a message sent by someone else after a reader's watermark adds exactly that message to the reader's unread set |
| Messages.ViewsOfConversation | convex/messages.ts:55-70 | every message of the conversation, deleted ones included, is viewed once, in id order |
| Messages.List | convex/messages.ts:46-72 | a member gets every message of the conversation once, oldest first, with isMe exactly for the caller's own messages, the sender's name ("Unknown User" when the sender is missing or unnamed) and image ("" when missing); anyone else gets the empty list |
| Messages.ReactionsWithout | convex/messages.ts:91-98 | removes exactly the reactions to the message |
| Messages.DeleteReactionsOf | convex/messages.ts:91-98 | the cleanup loop leaves exactly ReactionsWithout of the table before |
| Messages.DeleteEach | convex/messages.ts:91-98 | deleting the listed reactions one at a time leaves no reaction to the message and keeps every other one |
| Messages.RemainingReactions | convex/messages.ts:91-98 | the reactions left are exactly those to other messages |
| Messages.Remove | convex/messages.ts:74-100 | only the sender of an existing message may remove it; it is kept, marked deleted with its content replaced, and all its reactions are deleted |
| Messages.RemovedMessageIsNotUnread | convex/messages.ts:85-88 | a removed message is not counted as unread for anyone |
| Reactions.Toggled | convex/reactions.ts:22-39 | the set of triples flips membership of the toggled one, and triples stay unique |
| Reactions.ReactionKey | convex/reactions.ts:22-29 | finds the row holding the triple, or None exactly when no row holds it |
| Reactions.DeleteTriple | convex/reactions.ts:31-32 | deleting a row removes exactly its triple |
| Reactions.InsertTriple | convex/reactions.ts:33-38 | inserting an absent triple adds exactly that triple |
| Reactions.ToggleReaction | convex/reactions.ts:5-41 | a member reacting to a live message switches the (message, caller, emoji) reaction; unauthenticated callers, missing or deleted messages and non-members are refused with nothing written |
| Reactions.Toggle | convex/reactions.ts:22-39 | deletes the triple's row when there is one, and inserts it otherwise |
| Reactions.ToggleTwiceRestores | convex/reactions.ts:22-39 | toggling twice restores the set of reactions, and restores the table exactly when the first toggle added the reaction |
| Reactions.ReactionsOn | convex/reactions.ts:53-57 | every reaction to the message, each once, in id order |
| Reactions.DocsOfMessage | convex/reactions.ts:53-57 | the documents name every reaction to the message |
| Reactions.GetReactions | convex/reactions.ts:43-62 | for an authenticated identity, exactly the requested ids, each mapped to its reactions; otherwise the empty map |
| MessageRequests.RequestBetween | convex/messageRequests.ts:14-17 | the by_pair lookup returns the one request from one user to the other, or None exactly when there is none |
| MessageRequests.SendRequest | convex/messageRequests.ts:6-35 | refuses a request to oneself; an existing request in that direction is returned, and an accepted request the other way returns nothing, both with nothing written; otherwise one pending request is inserted, which the by_pair lookup then finds |
| MessageRequests.InsertRequest | convex/messageRequests.ts:29-33 | inserting the request of a new pair keeps one request per pair |
| MessageRequests.SetStatus | convex/messageRequests.ts:47 | changes one request's status and nothing else |
| MessageRequests.AcceptRequest | convex/messageRequests.ts:38-64 | only the recipient may accept; the request is marked accepted and a direct conversation is created that the two users then share |
| MessageRequests.Accept | convex/messageRequests.ts:47-62 | the status write followed by the direct conversation with both memberships |
| MessageRequests.DeclineRequest | convex/messageRequests.ts:67-78 | only the recipient may decline; the status becomes declined and nothing else changes |
| MessageRequests.IncomingOfPending | convex/messageRequests.ts:81-100 | every pending request to the user is listed once, in id order, with the sender's row when it exists |
| MessageRequests.PendingFor | convex/messageRequests.ts:87-91 | the pending requests addressed to the user, ascending |
| MessageRequests.GetPendingIncoming | convex/messageRequests.ts:81-100 | the caller's pending incoming requests, each once, oldest first, with their senders; empty when unauthenticated |
| MessageRequests.GetPendingCount | convex/messageRequests.ts:130-144 | the number of pending requests addressed to the caller; 0 when unauthenticated |
| MessageRequests.PendingCountIsListLength | convex/messageRequests.ts:81-144 | the count equals the length of the pending list |
| MessageRequests.PendingAfterWrite | convex/messageRequests.ts:29-76 | writing one request changes the pending set only at that key |
| MessageRequests.GetRequestStatus | convex/messageRequests.ts:103-127 | the request the caller sent if there is one, otherwise the one received; None when neither exists or when unauthenticated |
| PresenceTracking.PresenceOf | convex/presence.ts:20-23 | the by_userId lookup returns the user's one presence row, or None exactly when there is none |
| PresenceTracking.UpsertPresence | convex/presence.ts:20-38 | patches the user's presence row, or inserts one; afterwards the user has exactly one row, and it holds the new values |
| PresenceTracking.UpdatePresence | convex/presence.ts:5-40 | unauthenticated calls change nothing; otherwise the caller's online flag and last-seen time are set and their single presence row holds the new heartbeat; other users' rows are untouched |
| PresenceTracking.ViewsOfShown | convex/presence.ts:48-65 | every shown row is listed once, in id order, with its user |
| PresenceTracking.GetPresence | convex/presence.ts:42-67 | the rows of the conversation, other than the reader's own, with a heartbeat under ten seconds old, each once; empty when unauthenticated |
| PresenceTracking.HeartbeatWindow | convex/presence.ts:65 | a heartbeat is visible to other readers for exactly 10000 ms |
| Users.SetOnline | convex/presence.ts:15-18 | sets one user's online flag and last-seen time, and keeps every clerkId |
| Users.StoreUser | convex/users.ts:5-48 | fails without an identity; updates the user stored under the clerkId, or inserts one; either way returns the one user under that clerkId |
| Users.RecordSignIn | convex/users.ts:27-35 | an existing user gets the new name and image and is online as of `now`; the email is kept |
| Users.InsertUser | convex/users.ts:38-46 | inserting a user with an unused clerkId keeps one user per clerkId |
| Users.SetOffline | convex/users.ts:51-62 | the user stored under the clerkId, if any, goes offline; nothing else changes |
| Users.UpdateProfile | convex/users.ts:126-138 | the caller's name becomes the trimmed input; fails without an identity or a stored user |
| Users.ListUsersSpec | convex/users.ts:65-109 | every matching user other than the caller is listed once, in id order, with their row |
| Users.EveryoneElseListed | convex/users.ts:65-83 | with the empty term, every user other than the caller is listed |
| Users.GetUsers | convex/users.ts:65-83 | a stored caller gets every other user, oldest first; anyone else gets the empty list |
| Users.SearchUsers | convex/users.ts:86-109 | a stored caller gets every other user whose lower-cased name contains the lower-cased, trimmed term |
| Users.BlankSearchListsEveryone | convex/users.ts:86-109 | a term that is empty after lower-casing and trimming lists exactly what getUsers lists |
| Users.SearchNarrowsUsers | convex/users.ts:86-109 | every user a search finds is one getUsers lists, and the term occurs in that user's lower-cased name |
| Users.GetCurrentUserStatus | convex/users.ts:112-123 | reports whether the call is authenticated and whether a user is stored for it |
| Users.GetMe | convex/users.ts:141-151 | the stored user of the identity with its id; None when unauthenticated or not stored |

## Left out

- Concurrency: every handler is one sequential transaction. The parallel reads done with `Promise.all` are done one after another.
- Uniqueness violations: an index lookup that would find two rows under a unique key (`.unique()` throwing) cannot happen here, because `Store.Db.Valid()` keeps the keys unique. The one exception is the invite code: nothing keeps invite codes unique, so `Conversations.JoinByInviteCode` returns `InviteCodeNotUnique` when two conversations carry the looked-up code.
- Attachments: image storage ids, replies and link previews are carried in the message row, but nothing beyond the schema is modelled. Uploading, fetching previews and resolving storage URLs are I/O and are not part of this model.
- The authentication provider: it is not part of this model. An identity is just the subject string or `None`.
- Time and randomness: `Date.now()`, a row's `_creationTime` and `Math.random()` are parameters.
- Document ids: ids are natural numbers from one counter. An index scan returns rows in id order, which stands in for insertion order.
- Unreachable cases in `ConversationList.Summary`: a missing conversation row (the `!conv` filter in getConversations) cannot occur, because every membership resolves. It is therefore not modelled as a separate case.
- Text.Upper: covers only ASCII letters. Locale and Unicode case mapping are not modelled.
- Text.Lower: covers only ASCII letters. Locale and Unicode case mapping are not modelled.
- Text.Trim: a string is a sequence of Unicode characters rather than of UTF-16 code units, so a lone surrogate half, which `trim` keeps, has no counterpart in the model.
- Users.StoreUser: the user row is chosen by the `clerkId` argument, as the code does. It is not checked against the authenticated subject.
- Users.SetOffline: requires no identity, as the code does.
- MessageRequests.AcceptRequest: does not look at the prior status, as the code does. Accepting twice creates a second direct conversation between the same two users.
- UI: the Next.js pages, components and the offline API route are clients of these handlers and are not part of this model.

## Findings

| source | as written | input that shows it | evidently intended | confidence | as-written member | corrected member |
|---|---|---|---|---|---|---|
| convex/conversations.ts:23-51 | with no direct conversation found, two membership rows are inserted: one for the caller and one for `participantId` | `participantId` equal to the caller's own id: two rows for the same (conversation, user) pair, and later `.unique()` lookups of that pair fail | a conversation with oneself is refused, or at least one row per pair is kept | not executed | Conversations.DirectRowsAsWrittenBreakKey | Conversations.CreateOrGetConversation |
| convex/conversations.ts:34-43 | the scan for an existing direct conversation looks for a membership of `participantId` in each of the caller's direct conversations | `participantId` equal to the caller's own id, when the caller already has a direct conversation with another user: the lookup finds the caller's own row and that other conversation is returned, nothing written | a conversation with oneself is refused | not executed | Conversations.SelfScanReturnsOthersConversation | Conversations.CreateOrGetConversation |
| convex/conversations.ts:72-83 | one member row is inserted per listed participant id, with no check against the creator or against repeats | `participantIds` containing the creator's id, or one id twice: two rows for the same (conversation, user) pair | every user holds at most one membership row per group | not executed | Conversations.GroupRowsAsWrittenCollide | Conversations.AddParticipants |
