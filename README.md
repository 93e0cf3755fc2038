# Social backend core in Dafny

This project models the server side of a small social network: users follow one another, write
posts that others like and comment on, and chat in private conversations. Chat messages are stored
through a Mongoose schema and delivered live over Socket.IO. An admin area lists, deletes, bans and
verifies users.

The model covers:

- the message model: `Message.create` validation and defaults, the `conversationId` virtual, and the
  `getConversation`, `markAsRead` and `getUnreadCount` statics;
- the chat, post, user and admin controllers;
- the admin guard;
- the Socket.IO server: the handshake, the registry of connected users, and the event handlers.

The MongoDB collections become one `Db.Database` object. It holds `users`, `posts` and `messages` as
sequences in insertion order, plus a logical clock `clock` that stamps `createdAt`, `readAt`,
`deletedAt` and `lastSeen`. Insertion order is therefore creation order. The store's invariant
`Valid()` says:

- users, messages and posts are in non-decreasing `createdAt` order, and no message or post is
  later than the clock;
- user ids are unique, and so are post ids;
- the follow graph is consistent: B is in A's `following` exactly when A is in B's `followers`.

Each operation that changes the store is a method on it that keeps `Valid()`. The source's
`.sort({ createdAt: -1 })` is the store order reversed, and `.skip(s).limit(l)` is `Common.Window` for a
positive `l`. MongoDB reads `.limit(0)` as no limit, which `Common.MongoLimit` states; every
controller's limit is `parseInt(x) || d` with a positive default, so only `Message.getConversation`,
whose limit is an argument, can be given a zero.
Each controller returns a `Reply`: `Ok(status, body)` or `Error(status)`, using the status codes of
the code. Lookups by id take the first match. Identifiers MongoDB would generate (a new message,
post or comment id) are parameters. A new post's id is required to differ from every stored post's
id, as a generated ObjectId does.

Module layout:

| module | file | models |
|---|---|---|
| `Common` | common.dfy | replies and status codes, `parseInt(x) \|\| d`, `Math.ceil`, skip/limit, `split`, `trim`, code-point string order, case-insensitive search |
| `Records` | records.dfy | user, post and comment records; lookups by id; the store invariants on users and posts |
| `Messages` | messages.dfy | backend/models/Message.js |
| `Db` | database.dfy | the store; `Message.markAsRead` as an in-place loop over the message collection |
| `Chat` | chat.dfy | backend/controllers/chatController.js |
| `Posts` | posts.dfy | backend/controllers/postController.js |
| `Users` | users.dfy | backend/controllers/userController.js |
| `Admin` | admin.dfy | backend/controllers/adminController.js and the admin guard |
| `Sockets` | sockets.dfy | backend/socket/socketServer.js |

Where the code and its documented intent differ, the model follows the code, with one exception
(the last item below):

- `chatController.js` sends the schema's validation failures in `sendMessage` (an over-long content,
  an unknown `messageType`) to its `catch`, so they answer 500 rather than 400.
- In `getConversations`, a conversation's `unreadCount` never counts that conversation's newest
  message. A conversation whose only unread message is its newest reports 0
  (`Chat.UnreadCountSkipsNewest`, `Chat.SingleUnreadReportsZero`).
- `createConversation` answers a new conversation with the id `me-participant` in that order, not
  the sorted key of the `conversationId` virtual. `Chat.CreatedIdIsKeyIffRequesterFirst` states when
  the two agree.
- On `disconnect`, the server deletes the user's registry entry unconditionally, even when it now
  names a newer socket of the same user (`Sockets.StaleDisconnectUnregisters`).
- `chatController.js` (lines 69 and 121) compares a string token to the requester's id with `===`.
  The model reads this as comparing the two ids' string forms, which is the evident intent. As
  written, a string never equals an ObjectId, so the first token of a `conversationId` always wins.
  That case is not modelled.

## Model

| member | source | states |
|---|---|---|
| Common.OrDefault | backend/controllers/chatController.js:112-113 | `parseInt(x) \|\| d`: an absent or zero value gives the default, any other value is kept; the result is at least 1 |
| Common.CeilDiv | backend/controllers/postController.js:62 | `Math.ceil(total / limit)`: the least page count whose pages hold `total` items |
| Common.MongoLimit | backend/models/Message.js:73 | how many items `.limit(limit)` lets through: `limit` itself, or all of them for 0 |
| Common.Window | backend/models/Message.js:72-73 | `.skip(s).limit(l)` for a positive `l` (a zero goes through `MongoLimit` first): at most `l` items, exactly `min(l, n - s)` of them, item `k` being input item `s + k` |
| Common.NewestPage | backend/controllers/postController.js:53-62 | newest-first paging: the page holds exactly `min(limit, n - (page-1)*limit)` items (none past the end), item `k` being the `((page-1)*limit + k)`-th newest element; the total is the input length and `totalPages` is its ceiling over `limit` |
| Common.NewestWindow | backend/models/Message.js:63-76 | `.sort({ createdAt: -1 }).skip(skip).limit(limit)` over a store kept oldest first is a newest-first window (`IsNewestWindow`): exactly `min(limit, n - skip)` elements, none past the end, element `k` being the `(skip + k)`-th newest |
| Common.NewestWindowIsRun | backend/controllers/chatController.js:149-157 | a newest-first skip/limit window turned back to oldest first is a run (`IsOldestFirstRun`): exactly `min(limit, n - skip)` consecutive elements ending `skip` elements before the newest |
| Common.Reverse | backend/controllers/chatController.js:157 | `messages.reverse()`: same length, item `k` is input item `n-1-k` |
| Common.ReverseMembers | backend/controllers/chatController.js:157 | reversal keeps exactly the same elements |
| Common.ReverseInvolution | backend/controllers/chatController.js:157 | reversing twice gives the input back |
| Common.IndexOf | backend/controllers/postController.js:162 | `indexOf`: -1 iff absent; otherwise the first index holding the value |
| Common.RemoveAt | backend/controllers/postController.js:166 | `splice(i, 1)`: one element shorter, elements before `i` kept, those after shifted down by one |
| Common.RemoveAll | backend/controllers/userController.js:144-146 | `filter(id => id !== x)`: `x` no longer occurs, every other value keeps its number of occurrences |
| Common.RemoveAllSnoc | backend/controllers/userController.js:144-146 | the filter keeps the order: filtering a list with one more element at the end gives the filtered list followed by that element, unless it is the removed value |
| Common.RemoveAllAppendAbsent | backend/controllers/userController.js:108-146 | filtering out a value just pushed onto a list that lacked it restores the list |
| Common.Distinct | backend/controllers/chatController.js:196-197 | the keys of the conversation `Map`: no duplicates, exactly the input's values |
| Common.DistinctAppend | backend/controllers/chatController.js:196-197 | a scanned value becomes a new key exactly when it was not seen before |
| Common.LexLe | backend/models/Message.js:54 | defines the string order of `sort()` on ids: lexicographic by character, a proper prefix first (code points, which agree with UTF-16 units on ids); its laws are the three lemmas below |
| Common.LexLeReflexive | backend/models/Message.js:54 | every string sorts no later than itself |
| Common.LexLeTotal | backend/models/Message.js:54 | the default `sort()` order is total |
| Common.LexLeAntisymmetric | backend/models/Message.js:54 | the default `sort()` order is antisymmetric |
| Common.LexLeTransitive | backend/models/Message.js:54 | the default `sort()` order is transitive |
| Common.Split | backend/controllers/chatController.js:64 | defines `split('-')` (also line 116): the pieces between separators, empty pieces at the ends, at least one piece; its laws are the three lemmas below |
| Common.SplitNoSep | backend/controllers/chatController.js:64-67 | an id without `-` splits into one token, so it is read as a message id |
| Common.SplitAtFirstSep | backend/controllers/chatController.js:64 | splitting `a-b` with no `-` in `a` yields `a` followed by the tokens of `b` |
| Common.SplitPair | backend/controllers/chatController.js:64-69 | `a-b` with no `-` in either side splits into exactly `[a, b]` |
| Common.Trim | backend/controllers/userController.js:207 | `trim()`: the result neither starts nor ends with white space |
| Common.TrimCutsSpace | backend/controllers/userController.js:207 | `trim()` cuts white space only (`SpaceAround`): the result is the contiguous block of the input that starts after its leading white space, and everything after the block is white space |
| Common.TrimStart | backend/controllers/userController.js:207 | the input without its leading white space: a suffix of it, everything cut off is white space, and it does not start with white space |
| Common.TrimEnd | backend/controllers/userController.js:207 | the input without its trailing white space: a prefix of it, everything cut off is white space, and it does not end with white space |
| Common.TrimEmptyIffBlank | backend/controllers/userController.js:207 | `q.trim().length === 0` exactly when every character of `q` is white space |
| Common.MatchesCI | backend/controllers/chatController.js:296 | defines `{ $regex: q, $options: 'i' }` for a literal pattern: the lower-cased pattern occurs in the lower-cased text (also userController.js lines 214-215 and adminController.js lines 16-17) |
| Common.Count | backend/controllers/adminController.js:138-150 | `countDocuments(filter)`: 0 iff no element passes the filter; at most the length |
| Common.CountIsSize | backend/controllers/adminController.js:138-150 | the count is the number of positions whose element passes the filter |
| Common.CountPositions | backend/controllers/adminController.js:138-150 | a count equals the size of any set of exactly the positions the filter admits |
| Common.CountReplace | backend/controllers/adminController.js:138-142 | replacing one element moves a count by that element's change under the filter |
| Records.FindUser | backend/controllers/userController.js:48 | `User.findById`: -1 iff no user has the id, else the first index holding it |
| Records.FindPost | backend/controllers/postController.js:76 | `Post.findById`: -1 iff no post has the id, else the first index holding it |
| Records.FindComment | backend/controllers/postController.js:226-228 | `comments.find` by id: -1 iff absent, else the first index holding it |
| Messages.ParseMessageType | backend/models/Message.js:19-23 | the `messageType` enum: accepted iff one of text, image, file, audio, and the parsed type prints back as the input |
| Messages.Acceptable | backend/models/Message.js:4-23 | defines the schema's validators: sender, receiver and content present, content at most 1000 characters, a known `messageType`; `CreateMessage` creates iff it holds |
| Messages.CreateMessage | backend/models/Message.js:3-46 | `Message.create`: succeeds iff sender, receiver and content are present, the content has at most 1000 characters and the type is known; the new message has the defaults (type text, file URL '', unread, not deleted, no readAt or deletedAt) and both timestamps set to now |
| Messages.ConversationKey | backend/models/Message.js:53-56 | the `conversationId` virtual is `a-b` when `a` sorts first and `b-a` otherwise, one character longer than both ids |
| Messages.ConversationKeySymmetric | backend/models/Message.js:53-56 | swapping sender and receiver gives the same `conversationId` |
| Messages.ConversationKeyOrdered | backend/models/Message.js:54-55 | the key is the smaller id, `-`, the larger id, in that order, and the two ids are exactly the pair |
| Messages.ConversationKeySplit | backend/models/Message.js:54-55 | for ids without `-`, splitting the key on `-` gives exactly `[min, max]` |
| Messages.FindMessage | backend/controllers/chatController.js:72 | `Message.findById`: -1 iff no message has the id, else the first index holding it |
| Messages.ConversationMessages | backend/models/Message.js:64-70 | the query holds exactly the non-deleted messages between the two users, in either direction |
| Messages.GetConversation | backend/models/Message.js:63-76 | `getConversation`: a newest-first window (`IsNewestWindow`) of the pair's `n` non-deleted messages, so exactly `min(limit, n - skip)` messages for a positive `limit` and all `n - skip` of them for `limit` 0 (none past the end), item `k` being the `(skip + k)`-th newest of them |
| Messages.GetConversationDefault | backend/models/Message.js:63-76 | with the defaults `limit = 50, skip = 0`: the 50 newest of the pair's non-deleted messages (all of them when fewer), newest first |
| Messages.ConversationMessagesChronological | backend/models/Message.js:64-71 | filtering a chronological store leaves the pair's messages chronological |
| Messages.GetConversationNewestFirst | backend/models/Message.js:71-73 | over a chronological store, the window is newest first |
| Messages.NewestWindowNewestFirst | backend/models/Message.js:71-73 | any newest-first window of a chronological list is ordered by `createdAt` descending |
| Messages.NewestPageNewestFirst | backend/controllers/chatController.js:301-303 | any page of a newest-first listing over a chronological list is ordered by `createdAt` descending |
| Messages.ConversationMessagesSymmetric | backend/models/Message.js:65-68 | `getConversation(a, b)` and `getConversation(b, a)` select the same messages |
| Messages.MarkOne | backend/models/Message.js:79-91 | one document under `markAsRead`: an unread message from `s` to `r` becomes read with readAt now; any other is unchanged |
| Messages.MarkedRead | backend/models/Message.js:79-91 | `markAsRead` over the collection: same length, every message updated position by position as above, deleted ones included |
| Messages.CountUnreadFrom | backend/models/Message.js:81-85 | the `markAsRead` filter's match count: 0 iff no stored message from `s` to `r` is unread, deleted ones included; at most the number of messages |
| Messages.CountUnreadFromIsSize | backend/models/Message.js:81-85 | the match count is the number of positions holding an unread message from `s` to `r`, deleted ones included |
| Messages.CountUnreadFromIsCount | backend/models/Message.js:81-85 | the match count is `countDocuments` with the `markAsRead` filter |
| Messages.UnreadCount | backend/models/Message.js:94-100 | `getUnreadCount`: 0 iff no stored message addressed to the user is unread and not deleted; at most the number of messages |
| Messages.UnreadCountIsSize | backend/models/Message.js:94-100 | the count is the number of positions holding a message addressed to the user that is unread and not deleted |
| Messages.UnreadCountIsCount | backend/models/Message.js:94-100 | the count is `countDocuments` with the `getUnreadCount` filter |
| Messages.CountVisibleUnreadFrom | backend/models/Message.js:81-98 | unread, non-deleted messages from `s` to `r`: at most the `markAsRead` match count |
| Messages.CountVisibleUnreadFromIsSize | backend/models/Message.js:81-98 | the count is the number of positions holding an unread, non-deleted message from `s` to `r` |
| Messages.CountVisibleUnreadFromIsCount | backend/models/Message.js:81-98 | the count is `countDocuments` with both filters combined |
| Messages.MarkAsReadIdempotent | backend/models/Message.js:79-91 | after `markAsRead(s, r)` nothing matches its filter, and a second call changes nothing |
| Messages.UnreadCountAfterMarkAsRead | backend/models/Message.js:79-100 | after `markAsRead(s, r)`, `r`'s unread count drops by exactly the non-deleted unread messages from `s` |
| Messages.UnreadCountOfOthersAfterMarkAsRead | backend/models/Message.js:79-100 | `markAsRead(s, r)` leaves every other user's unread count unchanged |
| Messages.VisibleUnreadWithinUnread | backend/models/Message.js:94-100 | the unread messages from one sender are part of the recipient's unread count |
| Messages.UnreadCountZeroWhenAllFrom | backend/models/Message.js:79-100 | when all of `r`'s unread messages come from `s`, `markAsRead(s, r)` brings `r`'s count to 0 |
| Messages.MarkedReadChronological | backend/models/Message.js:86-89 | marking read keeps every creation time, hence the store's chronological order |
| Db.Database.Valid | backend/models/Message.js:44-46 | defines the store invariant: `timestamps` stamp every record at insertion, so each collection is in creation order and nothing is newer than the clock; user and post ids are unique; the follow graph is consistent |
| Db.Database.Tick | backend/models/Message.js:44-46 | the clock the timestamps read advances by one, nothing stored changes and the invariant is kept |
| Db.Database.InsertMessage | backend/controllers/chatController.js:87-93 | storing a new message appends it and keeps the invariant, the rest unchanged |
| Messages.MarkAll | backend/models/Message.js:79-91 | the `updateMany` document by document: the result is `MarkedRead` of the input and the modified count is the number of matches (`CountUnreadFrom`) |
| Db.Database.MarkAsRead | backend/models/Message.js:79-91 | the in-place `updateMany`: the collection becomes `MarkedRead` of the old one, the modified count is the number of matches, the invariant is kept |
| Chat.ResolveCounterparty | backend/controllers/chatController.js:64-79 | an id with exactly two `-`-tokens resolves to one of them; any other id resolves iff a message has that id |
| Chat.ResolveConversationKey | backend/controllers/chatController.js:64-69 | each party of a `conversationId` key resolves it to the other party, with the token compared to the requester's id in string form |
| Chat.ResolveCreatedId | backend/controllers/chatController.js:39-69 | with the token compared to the requester's id in string form, the id `createConversation` returns resolves to the participant for its creator, and to the creator for the participant |
| Chat.ResolveOutsider | backend/controllers/chatController.js:64-69 | a requester named in neither token gets the first token: there is no membership check |
| Chat.ResolveLegacyId | backend/controllers/chatController.js:70-79 | an id without `-` fails iff no message has it, else it resolves to that message's other party |
| Chat.FindBetween | backend/controllers/chatController.js:22-27 | `findOne` on the pair: -1 iff no message, deleted or not, is between them, else the first such message |
| Chat.CreateConversation | backend/controllers/chatController.js:7-45 | 400 iff no participant id; 404 iff the participant is unknown; otherwise 200 or 201 only: 200 with the id of the first stored message between the pair, deleted or not, and 201 with `me-participant` only when there is no such message |
| Chat.CreatedIdIsKeyIffRequesterFirst | backend/controllers/chatController.js:39 | the created id equals the sorted conversation key exactly when the requester's id sorts first |
| Chat.SendMessage | backend/controllers/chatController.js:55-99 | 400 iff id or content is missing; otherwise 404 iff the counterparty does not resolve or does not exist; for a stored counterparty, 500 iff `Message.create` rejects the message; on 201 the stored message is the validated `Message.create` from the requester to that counterparty with type text and file URL '' by default, appended to the store; on any error the store is unchanged |
| Chat.HistoryPage | backend/controllers/chatController.js:139-160 | the page body: an oldest-first run (`IsOldestFirstRun`) of the pair's non-deleted messages, so exactly `min(l, n - (p-1)*l)` consecutive messages ending `(p-1)*l` messages before the newest (no limit for `l` 0), with `hasMore` iff the page holds exactly `l` messages |
| Chat.HistoryPageNoLimit | backend/controllers/chatController.js:150-157 | with a zero limit the history is the whole conversation, oldest first |
| Chat.WindowOldestFirst | backend/controllers/chatController.js:149-157 | reversing the newest-first window gives an oldest-first list |
| Chat.GetConversation | backend/controllers/chatController.js:109-160 | 404 iff the counterparty does not resolve or does not exist, with no change; otherwise the history page (defaults page 1, limit 50) is taken from the store before `markAsRead(other, me)`, which is then applied |
| Chat.MessagesOf | backend/controllers/chatController.js:173-179 | exactly the non-deleted messages the requester sent or received |
| Chat.Inbox | backend/controllers/chatController.js:173-182 | the same messages, ordered newest first |
| Chat.Counterparties | backend/controllers/chatController.js:188-190 | each scanned message's other party, position by position |
| Chat.Counterparty | backend/controllers/chatController.js:188-190 | defines the other party of a message: the receiver when the requester sent it, the sender otherwise |
| Chat.Group | backend/controllers/chatController.js:196-209 | one conversation's messages from the scan; empty iff that party never occurs |
| Chat.CountUnreadTo | backend/controllers/chatController.js:206-207 | the unread messages addressed to the requester, bounded by the list length |
| Chat.Counted | backend/controllers/chatController.js:204-208 | a later message updates only a summary's unread count, never its party or last message |
| Chat.SummaryOf | backend/controllers/chatController.js:196-209 | defines one conversation entry: the counterparty's group is non-empty, `lastMessage` is its newest message, and `unreadCount` counts the unread messages to the requester among the rest |
| Chat.FailsAt | backend/controllers/chatController.js:188-206 | defines where the scan throws: a missing populated sender, a missing receiver of a message the requester sent, or a missing receiver of an unread message of an already seen counterparty |
| Chat.Summarize | backend/controllers/chatController.js:185-212 | the `forEach` over the newest-first inbox yields one summary per counterparty, in order of first appearance (most recent first); each summary's last message is the group's newest and its unread count covers the rest of the group; every visible message's counterparty has a summary |
| Chat.FailsIffCounterpartyMissing | backend/controllers/chatController.js:180-208 | for a stored requester, the scan dereferences a missing populated user exactly when one of the requester's visible messages has a counterparty who is no longer stored |
| Chat.GetConversations | backend/controllers/chatController.js:170-218 | 500 iff the scan reaches a message whose populated sender or needed receiver is missing (for a stored requester: iff a counterparty is missing); otherwise 200 with the summaries `Summarize` describes |
| Chat.SummariesCover | backend/controllers/chatController.js:185-212 | summaries have pairwise distinct parties, and every visible message's party is among them |
| Chat.GroupAppend | backend/controllers/chatController.js:203-208 | a later message of a known party joins its group and adds one to the count iff unread and addressed to the requester |
| Chat.UnreadCountSkipsNewest | backend/controllers/chatController.js:196-209 | the reported count plus the newest message's own unread flag equals the group's full unread count |
| Chat.SingleUnreadReportsZero | backend/controllers/chatController.js:196-202 | a conversation holding one unread message addressed to the requester reports 0, though it holds 1 |
| Chat.GroupNewestFirst | backend/controllers/chatController.js:182-209 | a group drawn from a newest-first list is newest first |
| Chat.LastMessageIsNewest | backend/controllers/chatController.js:196-200 | `lastMessage` is a newest message of its conversation |
| Chat.MessagesOfChronological | backend/controllers/chatController.js:173-179 | the requester's messages keep the store's chronological order |
| Chat.InboxNewestFirst | backend/controllers/chatController.js:182 | the inbox is sorted by `createdAt` descending |
| Chat.MarkMessagesAsRead | backend/controllers/chatController.js:224-230 | always 200; the store becomes `markAsRead(sender, me)` of the old store |
| Chat.GetUnreadCount | backend/controllers/chatController.js:240-244 | always 200 with the number of stored messages addressed to the requester that are unread and not deleted; 0 iff there is none |
| Chat.SoftDeleted | backend/controllers/chatController.js:267-269 | the message gets `isDeleted`, `deletedAt` now and `updatedAt` now (the save's timestamp), with no other field changed; every other message is untouched |
| Chat.SoftDeletedHidden | backend/controllers/chatController.js:267-269 | a soft-deleted message leaves conversations, the inbox and the unread count, but can still be found by id |
| Chat.FindMessageSameIds | backend/controllers/chatController.js:256 | lookup by id is unaffected by edits that keep every id |
| Chat.DeleteMessage | backend/controllers/chatController.js:254-271 | 404 iff the message is absent; 401 iff the requester is not its sender; otherwise 200 and exactly that message is soft-deleted; errors change nothing |
| Chat.SearchMatches | backend/controllers/chatController.js:291-298 | exactly the non-deleted messages of the requester whose content matches the query case-insensitively |
| Chat.SearchMessages | backend/controllers/chatController.js:281-319 | 400 iff the query is empty; otherwise exactly page `page` (default 1) of `limit` (default 20) of the matching messages, newest first, the total of all matches and `totalPages` its ceiling over `limit` |
| Chat.SearchMatchesChronological | backend/controllers/chatController.js:291-298 | the matching messages keep the store's creation order |
| Chat.SearchMessagesNewestFirst | backend/controllers/chatController.js:301 | over a store kept in creation order, every page of hits is sorted by `createdAt` descending |
| Posts.CreatePost | backend/controllers/postController.js:7-22 | 201 with a post by the requester under a fresh id: image '' and tags [] when absent, public unless `isPublic` is given false, no likes or comments; appended to the store |
| Posts.GetPostById | backend/controllers/postController.js:74-85 | 404 iff no post has the id; otherwise 200 with a stored post of that id |
| Posts.CreatedPostFound | backend/controllers/postController.js:11-20 | a post created with a fresh id is found by that id |
| Posts.PublicBy | backend/controllers/postController.js:38-47 | exactly the public posts by the listed authors, keeping the store order |
| Posts.FeedAuthors | backend/controllers/postController.js:40-47 | a given `userId` is the only author; otherwise the requester's following plus the requester, or none when the requester is missing |
| Posts.GetPosts | backend/controllers/postController.js:32-64 | 500 iff the requester is needed and missing; otherwise exactly page `page` (default 1) of `limit` (default 10) of the public posts by the feed's authors, newest first, with the total and `ceil(total/limit)` pages |
| Posts.NewestWindowOfPosts | backend/controllers/postController.js:53-55 | any skip/limit window of the reversed store is newest first |
| Posts.NewestPageOfPosts | backend/controllers/postController.js:53-55 | every page is newest first |
| Posts.GetPostsNewestFirst | backend/controllers/postController.js:49-55 | the feed is sorted by `createdAt` descending |
| Posts.Updated | backend/controllers/postController.js:110-113 | defines the fields `updatePost` assigns; `UpdatedFields` states each rule |
| Posts.UpdatedFields | backend/controllers/postController.js:110-113 | content changes only for a non-empty value, tags and image whenever given, `isPublic` whenever defined; id, author, likes, comments and creation time never change |
| Posts.UpdatedIdempotent | backend/controllers/postController.js:110-113 | applying the same update twice equals applying it once |
| Posts.UpdatedNothing | backend/controllers/postController.js:110-113 | an update with nothing given leaves the post as it was |
| Posts.UpdatePost | backend/controllers/postController.js:95-119 | 404 iff the post is absent; 401 iff the requester is not its author; 200 iff the post exists and the requester wrote it, and then exactly that post is replaced by its update; errors change nothing |
| Posts.DeletePost | backend/controllers/postController.js:129-144 | 404 iff absent; 401 iff not the author; 200 iff the post exists and the requester wrote it, and then exactly that post is removed; errors change nothing |
| Posts.DeletedPostGone | backend/controllers/postController.js:142 | with unique post ids (part of the store invariant), after removal no post has the id, and every other post remains |
| Posts.RemoveAtKeepsOrder | backend/controllers/postController.js:142 | removing a post keeps the store in creation order |
| Posts.ToggleLike | backend/controllers/postController.js:162-170 | defines the like toggle: the first occurrence of the requester spliced out if present, else the requester pushed; its laws are the four lemmas below |
| Posts.ToggleLikeCounts | backend/controllers/postController.js:162-170 | a like toggle changes the requester's number of likes by exactly one and nobody else's |
| Posts.ToggleLikeOthers | backend/controllers/postController.js:162-170 | other users' membership in the likes is unchanged |
| Posts.ToggleLikeFlips | backend/controllers/postController.js:162-170 | on a duplicate-free list the requester's membership flips and the list stays duplicate-free |
| Posts.ToggleLikeTwice | backend/controllers/postController.js:162-170 | like then unlike from not-liked restores the likes exactly |
| Posts.ReplaceKeepsOrder | backend/controllers/postController.js:172 | saving a post with its id and creation time kept keeps the store in creation order and its ids unique |
| Posts.Toggle | backend/controllers/postController.js:162-170 | the `splice`/`push` step computes the like toggle |
| Posts.LikePost | backend/controllers/postController.js:154-174 | 404 iff the post is absent; otherwise 200 with the toggled likes, stored in that post only |
| Posts.AddComment | backend/controllers/postController.js:184-208 | 404 iff the post is absent; otherwise the comment `{user, content}` is put in front of the post's comments and returned |
| Posts.RemoveComment | backend/controllers/postController.js:218-247 | 404 iff the post or the comment is absent; 401 iff the requester wrote neither the comment nor the post; 200 iff both exist and the requester wrote one of them, and then that comment is spliced out and the rest returned in order |
| Posts.AddThenRemoveComment | backend/controllers/postController.js:199-244 | a new comment sits at index 0, and removing it restores the previous comments |
| Posts.RemovedCommentGone | backend/controllers/postController.js:240-244 | with unique comment ids, the removed id is gone and every other comment remains |
| Users.OthersMatching | backend/controllers/userController.js:12-21 | exactly the users other than the requester whose name or email matches the search, in store order |
| Users.GetUsers | backend/controllers/userController.js:6-36 | exactly page `page` (default 1) of `limit` (default 10) of the matching users other than the requester, newest first, the total of matches and `ceil(total/limit)` pages |
| Users.OthersCount | backend/controllers/userController.js:12-29 | with no search, the total counts every user except the requester |
| Users.NewestWindowOfUsers | backend/controllers/userController.js:25-27 | any skip/limit window of the reversed user list is newest first |
| Users.NewestPageOfUsers | backend/controllers/userController.js:25-27 | every page is newest first |
| Users.GetUsersNewestFirst | backend/controllers/userController.js:23-27 | with users in registration order (part of the store invariant), the listed users are sorted by `createdAt` descending |
| Users.GetUserById | backend/controllers/userController.js:46-55 | 404 iff no user has the id; otherwise 200 with that user |
| Users.ProfileUpdated | backend/controllers/userController.js:75-77 | defines the fields `updateProfile` assigns; `ProfileUpdatedFields` states each rule |
| Users.ProfileUpdatedFields | backend/controllers/userController.js:75-77 | name and avatar change only for non-empty values; bio changes whenever given, even to ''; nothing else changes |
| Users.ProfileUpdatedIdempotent | backend/controllers/userController.js:75-77 | the same profile edit twice equals it once |
| Users.ReplaceUserKeepsValid | backend/controllers/userController.js:75-79 | saving a user with the same id and follow lists keeps ids unique and the follow graph consistent |
| Users.Edit | backend/controllers/userController.js:75-77 | the three field assignments compute the profile edit |
| Users.UpdateProfile | backend/controllers/userController.js:65-81 | 404 iff the requester is missing; otherwise 200 with the edited user, stored in place |
| Users.WithFollow | backend/controllers/userController.js:108-114 | the target is appended to the requester's following and the requester to the target's followers; ids and all other users are unchanged |
| Users.WithUnfollow | backend/controllers/userController.js:143-153 | every occurrence of the target leaves the requester's following, and of the requester the target's followers; ids and all other users are unchanged |
| Users.FollowKeepsConsistent | backend/controllers/userController.js:108-114 | following keeps ids unique, the registration order and the follow graph consistent; afterwards each list names the other |
| Users.UnfollowKeepsConsistent | backend/controllers/userController.js:143-153 | unfollowing keeps ids unique, the registration order and the follow graph consistent; afterwards neither list names the other |
| Users.FollowThenUnfollow | backend/controllers/userController.js:108-153 | follow then unfollow, starting from not following, restores the user list exactly |
| Users.FollowUser | backend/controllers/userController.js:91-116 | 400 for oneself, before any lookup; 404 iff the target is missing; 500 iff the requester is missing; 400 when already following; otherwise 200 and the follow is stored; errors change nothing |
| Users.UnfollowUser | backend/controllers/userController.js:126-155 | 400 for oneself; 404 iff the target is missing; 500 iff the requester is missing; 400 when not following; otherwise 200 and the unfollow is stored; errors change nothing |
| Users.Populate | backend/controllers/userController.js:167-168 | `populate`: only stored users whose id is listed; with unique ids, every listed stored user |
| Users.GetFollowers | backend/controllers/userController.js:165-174 | 404 iff the user is missing; otherwise 200 with that user's followers populated |
| Users.GetFollowing | backend/controllers/userController.js:184-193 | 404 iff the user is missing; otherwise 200 with that user's following populated |
| Users.FollowersAndFollowingAgree | backend/controllers/userController.js:165-193 | over a consistent graph, `u` is among X's followers iff X is in `u`'s following, and the converse for following |
| Users.InsertByName | backend/controllers/userController.js:222 | inserting into a list gives the same users plus one |
| Users.InsertByNameSorted | backend/controllers/userController.js:222 | inserting into a name-sorted list keeps it sorted |
| Users.SortByName | backend/controllers/userController.js:222 | `.sort({ name: 1 })`: a permutation of its input |
| Users.SortByNameSorted | backend/controllers/userController.js:222 | the sorted list is in ascending name order |
| Users.SortByNameTieOrder | backend/controllers/userController.js:222 | two users with equal names come out later-stored first |
| Users.SearchFound | backend/controllers/userController.js:211-222 | the first 20 of the name-sorted matches, each a user other than the requester whose name or email matches |
| Users.Flagged | backend/controllers/userController.js:226-230 | each user paired with `isFollowing`, true iff the id is in the requester's following |
| Users.SearchUsers | backend/controllers/userController.js:203-232 | a missing or blank query gives `[]`; otherwise at most 20 hits, never the requester, each matching the trimmed query, with `isFollowing` iff followed; 500 iff there are hits and the requester is missing |
| Users.SearchUsersOrder | backend/controllers/userController.js:219-222 | the hits are in ascending name order and are the first 20 of the sorted matches |
| Users.SearchHitsFound | backend/controllers/userController.js:219-230 | a successful search returns the found users in order |
| Users.SearchUsersComplete | backend/controllers/userController.js:219-222 | with at most 20 matches, every match is returned |
| Admin.AdminGuard | backend/middlewares/adminAuthMiddleware.js:6-14 | passes iff a requester is present and is an admin; 401 without one, 403 for a non-admin |
| Admin.AllMatching | backend/controllers/adminController.js:13-19 | exactly the users whose name or email matches the search, in store order |
| Admin.GetAllUsers | backend/controllers/adminController.js:7-34 | exactly page `page` (default 1) of `limit` (default 20) of the matching users, newest first, the total of matches and `ceil(total/limit)` pages |
| Admin.AllMatchingEverybody | backend/controllers/adminController.js:13-19 | without a search every user matches |
| Admin.GetAllUsersTotal | backend/controllers/adminController.js:27 | without a search the total is the number of users |
| Admin.GetAllUsersNewestFirst | backend/controllers/adminController.js:21-25 | with users in registration order (part of the store invariant), the listed users are sorted by `createdAt` descending |
| Admin.PostsNotBy | backend/controllers/adminController.js:58 | `Post.deleteMany({ author })`: exactly the posts by others remain, in order, with ids still unique |
| Admin.UniquePostIdsSnoc | backend/controllers/adminController.js:58 | keeping some older posts with unique ids and then the newest keeps ids unique |
| Admin.Pulled | backend/controllers/adminController.js:61-68 | `$pull` of an id from one user: the id leaves both lists, other entries and fields stay |
| Admin.PulledAll | backend/controllers/adminController.js:61-68 | the two `updateMany`s: every user is pulled, position by position |
| Admin.DeleteLeavesNoTrace | backend/controllers/adminController.js:61-71 | after the cascade one user fewer remains, and no remaining user has the id or lists it |
| Admin.DeleteKeepsUniqueIds | backend/controllers/adminController.js:61-71 | the cascade keeps ids unique |
| Admin.DeleteKeepsOrder | backend/controllers/adminController.js:61-71 | the cascade keeps the users in registration order |
| Admin.DeleteKeepsConsistent | backend/controllers/adminController.js:61-71 | the cascade keeps the follow graph consistent |
| Admin.DeleteKeepsOthers | backend/controllers/adminController.js:61-71 | every other user remains, with only the deleted id pulled |
| Admin.Cascade | backend/controllers/adminController.js:57-71 | posts by the user are deleted, the user's id is pulled everywhere and the user removed; messages stay; the invariant is kept |
| Admin.DeleteUser | backend/controllers/adminController.js:44-73 | 404 iff the user is missing; 400 iff it is the requester; 200 iff it exists and is someone else, and then the cascade; errors change nothing |
| Admin.WithBanToggled | backend/controllers/adminController.js:96 | defines the store after `user.isBanned = !user.isBanned` |
| Admin.WithVerifyToggled | backend/controllers/adminController.js:120 | defines the store after `user.isVerified = !user.isVerified` |
| Admin.BanTwiceRestores | backend/controllers/adminController.js:96 | a ban toggle flips only that user's `isBanned`, and two toggles restore the store |
| Admin.VerifyTwiceRestores | backend/controllers/adminController.js:120 | a verify toggle flips only that user's `isVerified`, and two toggles restore the store |
| Admin.BanUser | backend/controllers/adminController.js:83-102 | 404 iff missing; 400 iff the requester targets themself; 200 iff it exists and is someone else, and then the flag is toggled and the new value returned; errors change nothing |
| Admin.VerifyUser | backend/controllers/adminController.js:112-126 | 404 iff missing, with no self-check; otherwise the flag is toggled and the new value returned |
| Admin.GetAdminStats | backend/controllers/adminController.js:136-160 | totals are the collection sizes; banned, verified and admin users are the numbers of users with that flag; recent users and recent posts are the numbers created at or after `since`; each figure is at most its total |
| Admin.BanMovesBannedCount | backend/controllers/adminController.js:96-140 | a ban moves the banned figure by exactly one, up or down |
| Admin.VerifyMovesVerifiedCount | backend/controllers/adminController.js:120-141 | a verify moves the verified figure by exactly one, up or down |
| Sockets.Handshake | backend/socket/socketServer.js:10-31 | the connection is accepted iff the token is present and non-empty, verifies, and names an existing user; the socket then belongs to that user |
| Sockets.EmitToUser | backend/socket/socketServer.js:174-179 | `emitToUser`: one emission to the registered socket iff the user is registered, else nothing |
| Sockets.Typing | backend/socket/socketServer.js:95-103 | one `typing_start` or `typing_stop` with the sender's id, to the receiver's room but not the emitting socket |
| Sockets.SendEvents | backend/socket/socketServer.js:76-91 | on failure only `message_error` to the sender; on success three emissions when the receiver is registered and two otherwise: `receive_message` to the receiver's socket (only then), then `message_sent` to the sender, then `typing_stop` to the receiver's room |
| Sockets.SendEndsTyping | backend/socket/socketServer.js:85-86 | a delivered message always ends the sender's typing indicator |
| Sockets.WithPresence | backend/socket/socketServer.js:43-46 | `findByIdAndUpdate` of presence: only `isOnline` and `lastSeen` of that user change; an unknown id changes nothing |
| Sockets.PresenceKeepsValid | backend/socket/socketServer.js:43-46 | presence updates keep ids unique and the follow graph consistent |
| Sockets.PresenceLastWriteWins | backend/socket/socketServer.js:129-132 | two presence updates of one user equal the later one alone |
| Sockets.ConnectRoutesToNewSocket | backend/socket/socketServer.js:37-40 | after a connection, events for that user go to the new socket, replacing any earlier one |
| Sockets.ConnectKeepsOthers | backend/socket/socketServer.js:37-40 | a connection does not change routing for other users |
| Sockets.StaleDisconnectUnregisters | backend/socket/socketServer.js:145-149 | when an older socket of a reconnected user disconnects, the user is unregistered and events to them are dropped |
| Sockets.SocketServer.constructor | backend/socket/socketServer.js:7 | the registry starts empty |
| Sockets.SocketServer.SetPresence | backend/socket/socketServer.js:43-46 | the store's users become their presence update at the current clock, the rest unchanged |
| Sockets.SocketServer.Connect | backend/socket/socketServer.js:33-53 | a refused handshake changes nothing; an accepted one registers the socket, marks the user online and broadcasts `user_online` |
| Sockets.SocketServer.SendMessage | backend/socket/socketServer.js:59-92 | the validated message is stored iff it passes `Message.create`, and the emissions are exactly `SendEvents` |
| Sockets.SocketServer.MarkRead | backend/socket/socketServer.js:106-122 | `markAsRead(sender, me)` is applied, and `messages_read` goes to the sender only when registered |
| Sockets.SocketServer.UpdateStatus | backend/socket/socketServer.js:125-142 | `isOnline` becomes true iff the status is `online`, and the same value is broadcast |
| Sockets.SocketServer.Disconnect | backend/socket/socketServer.js:145-163 | the registry entry is deleted unconditionally, the user marked offline and `user_offline` broadcast |

## Left out

- The MongoDB layer is replaced by in-memory sequences. This covers `find`, `populate`, `select`,
  `save`, `updateMany`, indexes and document versioning. Populated and projected fields are not
  modelled: emitted and returned documents are the stored records.
- `$regex` with option `i` is modelled as a case-insensitive literal substring match with ASCII case
  folding. Regular-expression syntax in a query is not interpreted.
- `Common.Trim` removes only the ASCII white space, NBSP and BOM. `String.prototype.trim` also
  removes the other Unicode space separators and the line terminators U+2028 and U+2029.
- JWT verification (`jsonwebtoken`) is an input to the handshake: the id the token carries, or none.
  Password handling and authController.js are not part of this model.
- `new Date()` is the store's logical clock. The seven-day window of `getAdminStats` is a parameter
  `since`.
- Socket.IO transport, rooms, the `join` of a personal room, broadcast fan-out and the interleaving
  of asynchronous handlers are left out. Each handler is one atomic step that returns the events it
  emits and their targets.
- Console logging and the socket `error` handler are left out, because they only log. So are the
  `catch` blocks of `mark_read` and `update_status`.
- `getConnectedUsers` is the `connected` field of `Sockets.SocketServer`, read directly.
- User.js and Post.js (their schemas, validators and defaults) are not part of this model. Users and
  posts are plain records.
- Routes, server.js, makeAdmin.js and the whole frontend are wiring, a script and UI, and are not
  modelled.
- `parseInt` on non-numeric or negative query values is not modelled: page and limit are natural
  numbers, with 0 or absence meaning the default.
- Ties in `createdAt` are broken by store order, newest insertion first. So are ties in `name` under
  the `sort({ name: 1 })` of `searchUsers` (`Users.SortByNameTieOrder`), which decides which tied
  users the `.limit(20)` keeps. MongoDB leaves the order of ties unspecified in both.
- Strings are sequences of Unicode scalar values, and `Common.LexLe` compares them value by value.
  MongoDB's `sort({ name: 1 })` without a collation compares by code point, the same order.
  JavaScript's `[a, b].sort()` compares UTF-16 code units instead. The two orders agree unless a
  string holds a character outside the Basic Multilingual Plane, which the model does not
  distinguish.
- `Messages.CreateMessage` counts the 1000-character limit in Unicode scalar values. Mongoose's
  `maxlength` counts UTF-16 code units, so a content with characters outside the Basic Multilingual
  Plane can pass the model's check and fail the schema's.
- Ids are plain strings, and a lookup of an id that is not stored answers 404. In the source, an id
  that is not a well-formed ObjectId makes `findById` throw a `CastError`, which the handlers'
  `catch` answers with 500. The model does not distinguish malformed ids from unknown ones.
- `deleteUser` leaves the deleted user's messages, likes and comments in place. So does the source,
  and the model does not clean them up either.
- The `===` comparison of a string token with an ObjectId at chatController.js lines 69 and 121 is
  read as a comparison of the ids' string forms. JavaScript object identity is not modelled.
