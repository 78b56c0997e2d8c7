# GigaChat server core in Dafny

This project models the service layer of the GigaChat messenger server and
the display helpers of its client models.

- **Chats.** Creation, update and cascade deletion of chats, admin-only
  membership changes, the chat list with its unread count, and opening a chat.
- **Messages.** Paging, sending with attachment linking, editing, the soft
  delete and the read cursor.
- **Files.** The upload record and the two access policies for attachments.
- **Users.** Lookup, search, profile and password changes, and account
  deletion.
- **Authentication.** Registration, login, password reset and email
  confirmation.
- **Client display rules.** User and chat display names, image detection,
  human-readable file sizes and the success flag of an auth response.

## Structure

- **The database.** The Entity Framework context is one `Store.Database`
  object with a map per table. The ChatUsers table is keyed by its composite
  key (chat id, user id), so a user has at most one row per chat.
- **Service operations.** An operation that writes to the database is a Dafny
  `method` that changes it in place (`modifies db`); its `ensures` gives the
  whole new state and the outcome. The read-only queries (`GetUserById`,
  `SearchUsers`, `GetFile` and the chat list `UserChats`) are functions of
  the tables they read.
- **Outcomes.**
  - An exception thrown by the source is an `Err` value.
  - A `null` result is `None`.
  - A `false` return is `false`.
- **Pure rules.** Filters, orderings, access predicates and row-set updates
  are functions, with lemmas proving what the operations promise. Examples:
  - account uniqueness is preserved;
  - the first page holds the newest messages;
  - a reset token is single-use and expires;
  - deleting a chat leaves nothing that refers to it.
- **Inputs from outside.** These become parameters:
  - the clock is `now`, in 100 ns ticks, with `DateTime.MinValue` = 0;
  - fresh Guids;
  - BCrypt's hash and verify;
  - `Path.GetFileName` and file existence on disk;
  - the order a table is read in (`scan`) wherever a query's result order
    matters (paging, latest message, search, `FirstOrDefault`);
  - a failing save (`saveFails`, `fault`).
- **Loops.** Each `foreach` over rows (adding members, removing members,
  removing attachments) is a `while` loop with invariants, proved against the
  function that states its effect.

### Behaviour of the code worth noting

- The read cursor is not monotonic. `MarkAsReadUpToAsync` sets it to the
  given time even when that is earlier than the current cursor.
  `MessageService.CursorCanRewind` exhibits this.
- `take` is not clamped to a maximum page size. A `take` or `skip` of zero or
  less behaves as LINQ-to-objects does.
- The chat list's unread count includes deleted messages. It counts only the
  single latest message the query loads, so it is 0 or 1.
- The admin branch of `DeleteMessageAsync` never lets an admin delete. It is
  entered only when the sender lookup returned null, and it then reads
  `message.ChatId` through that null (see Findings).

## Model

| member | source | states |
|---|---|---|
| Lookup.Found | GigaChat.Server/Services/ChatService.cs:172-174 | the `Where(ids.Contains(Id))` query returns exactly the listed ids that exist |
| Lookup.ElemsCard | GigaChat.Server/Services/ChatService.cs:176 | a list has as many distinct ids as entries exactly when it has no repeats |
| Lookup.FoundAllIff | GigaChat.Server/Services/ChatService.cs:172-179 | the found-count-equals-id-count test passes iff the ids are distinct and all exist |
| Lookup.FoundSetIff | GigaChat.Server/Services/ChatService.cs:408-423 | over the distinct ids left by `Except`, the count test passes iff every id exists |
| Lookup.Skip | GigaChat.Server/Services/MessageService.cs:37 | LINQ Skip: length and element positions, and a count of zero or less skips nothing |
| Lookup.Take | GigaChat.Server/Services/MessageService.cs:38 | LINQ Take: a prefix of the input of the stated length, with nothing taken for a count of zero or less |
| Lookup.Subsequence | GigaChat.Server/Services/ChatService.cs:32 | a `Where` keeps the scan order: the filtered ids appear in the scan in the same order |
| Ordering.Insert | GigaChat.Server/Services/MessageService.cs:36 | inserting into a sorted sequence keeps it sorted and adds exactly the new id |
| Ordering.SortBy | GigaChat.Server/Services/MessageService.cs:36-79 | OrderBy/OrderByDescending on SentAt: a sorted permutation of the input |
| Ordering.NewestFirst | GigaChat.Server/Services/ChatService.cs:32 | the head of a newest-first sequence is at least as new as every element |
| Ordering.InChat | GigaChat.Server/Services/ChatService.cs:32 | exactly the scanned messages of the chat: a subsequence of the scan, each as often as the scan holds it |
| Store.Members | GigaChat.Server/Data/ApplicationDbContext.cs:24-25 | a chat's members are exactly the users with a (chat, user) row |
| Store.Database.constructor | GigaChat.Server/Data/ApplicationDbContext.cs:13-17 | a new context has the five tables, all empty |
| Store.NameTaken | GigaChat.Server/Services/AuthService.cs:48 | some account already has the user name |
| Store.EmailTaken | GigaChat.Server/Services/AuthService.cs:38 | some account already has the email |
| Store.IsMember | GigaChat.Server/Services/MessageService.cs:25-26 | the user has a row in the chat |
| Store.IsAdmin | GigaChat.Server/Services/ChatService.cs:250-251 | the user has a row in the chat flagged admin |
| Store.KeysFor | GigaChat.Server/Data/ApplicationDbContext.cs:24-25 | the composite keys of a chat's rows for a set of users |
| Store.Enroll | GigaChat.Server/Services/ChatService.cs:202-213 | adding rows: new keys get fresh rows (admin flag, join time, no cursor), all other rows kept |
| Store.EnrollMembers | GigaChat.Server/Services/ChatService.cs:202-213 | after enrolling, the chat's members are the old members plus the enrolled users |
| Store.EnrollOneMore | GigaChat.Server/Services/ChatService.cs:202-213 | enrolling one more user adds exactly that user's row |
| Store.EnrollStep | GigaChat.Server/Services/ChatService.cs:202-213 | one `foreach` iteration moves one user from pending to enrolled |
| Store.Expel | GigaChat.Server/Services/ChatService.cs:301-308 | removing rows: exactly the named users' keys of the chat go, every other row is kept |
| Store.ExpelMembers | GigaChat.Server/Services/ChatService.cs:301-308 | after expelling, the chat's members are the old ones minus the expelled |
| Store.ExpelOneMore | GigaChat.Server/Services/ChatService.cs:301-308 | expelling one more user removes exactly that user's key |
| Store.ExpelStep | GigaChat.Server/Services/ChatService.cs:301-308 | one `foreach` iteration moves one user from pending to expelled |
| Store.WithoutChat | GigaChat.Server/Services/ChatService.cs:377 | every row of the chat removed, rows of other chats kept unchanged |
| Store.WithoutUser | GigaChat.Server/Services/UserService.cs:118-119 | every row of the user removed, rows of other users kept unchanged |
| Store.WithCursor | GigaChat.Server/Services/MessageService.cs:245 | only the row's cursor changes, to exactly the given time; its admin flag and join time are kept |
| ChatService.RequestedMembers | GigaChat.Server/Services/ChatService.cs:166-170 | the member list (empty when null) with the creator appended only if absent |
| ChatService.FirstOther | GigaChat.Server/Services/ChatService.cs:196 | some listed id other than `me`, or none exactly when every id is `me` |
| ChatService.OtherOfPair | GigaChat.Server/Services/ChatService.cs:194-199 | in a two-person list of distinct ids holding the creator, the other person is unique |
| ChatService.NewChat | GigaChat.Server/Services/ChatService.cs:182-199 | a direct two-person chat takes the other member's name and picture; otherwise the requested name and no image |
| ChatService.EnrollEach | GigaChat.Server/Services/ChatService.cs:202-213 | the `foreach` adding member rows has exactly the effect of Enroll |
| ChatService.ExpelEach | GigaChat.Server/Services/ChatService.cs:301-308 | the `foreach` removing member rows has exactly the effect of Expel |
| ChatService.Admit | GigaChat.Server/Services/ChatService.cs:159-179 | creator must exist, then the member list must be distinct existing users; each failure's error |
| ChatService.CreateChat | GigaChat.Server/Services/ChatService.cs:157-245 | on rejection nothing changes; on success the new chat is stored and every member enrolled, the creator alone as admin |
| ChatService.CreatedRoster | GigaChat.Server/Services/ChatService.cs:202-213 | a created chat's members are exactly the listed ids, and its one admin is the creator |
| ChatService.Joiners | GigaChat.Server/Services/ChatService.cs:277-285 | the listed ids that exist and are not members yet |
| ChatService.Leavers | GigaChat.Server/Services/ChatService.cs:301-303 | the members not in the list, the creator excepted |
| ChatService.RosterAlgebra | GigaChat.Server/Services/ChatService.cs:274-309 | the set identity that gives the member set after an update |
| ChatService.UpdatedRoster | GigaChat.Server/Services/ChatService.cs:274-309 | after an update the members are the kept members plus the existing listed users; the creator stays; other chats untouched |
| ChatService.UpdateChat | GigaChat.Server/Services/ChatService.cs:247-340 | admins only, chat must exist; name and description replaced; membership changed only for a group with a list |
| ChatService.ChatMessages | GigaChat.Server/Services/ChatService.cs:355-374 | exactly the messages of the chat |
| ChatService.AttachmentsOf | GigaChat.Server/Services/ChatService.cs:365-371 | exactly the attachments linked to one of the given messages |
| ChatService.RemoveEach | GigaChat.Server/Services/ChatService.cs:365-371 | the attachment-removal loop removes exactly the doomed attachments |
| ChatService.DeleteChat | GigaChat.Server/Services/ChatService.cs:342-384 | true iff an admin deletes an existing chat; then its attachments, messages, rows and the chat go, and nothing else changes |
| ChatService.DeleteChatLeavesNoTrace | GigaChat.Server/Services/ChatService.cs:365-380 | after the cascade no row, message or attachment refers to the chat; other chats keep their members |
| ChatService.Newcomers | GigaChat.Server/Services/ChatService.cs:407-408 | `userIds.Except(existing)`: the listed ids that are not members |
| ChatService.AddUsersToChat | GigaChat.Server/Services/ChatService.cs:386-439 | true iff an admin of a group chat lists only existing newcomers; they join as non-admins |
| ChatService.AddedAreMembers | GigaChat.Server/Services/ChatService.cs:426-435 | after adding, every listed id is a member, and nobody's admin flag changed |
| ChatService.RemoveUserFromChat | GigaChat.Server/Services/ChatService.cs:441-477 | true iff an admin of a group chat removes a non-creator member; exactly that row goes; the creator is never removed |
| ChatService.CanManage | GigaChat.Server/Services/ChatService.cs:388-404 | the caller is an admin of an existing group chat |
| ChatService.Promote | GigaChat.Server/Services/ChatService.cs:500-506 | only the target's row changes, to admin, keeping its join time and cursor |
| ChatService.PromoteIdempotent | GigaChat.Server/Services/ChatService.cs:506 | promoting twice is promoting once |
| ChatService.MakeUserAdmin | GigaChat.Server/Services/ChatService.cs:479-509 | true iff an admin of a group chat promotes a member; then exactly that row becomes admin |
| ChatService.LatestMessage | GigaChat.Server/Services/ChatService.cs:32 | the newest message of the chat, or none exactly when the chat has no message |
| ChatService.UnreadCount | GigaChat.Server/Services/ChatService.cs:77 | 0 or 1, and 1 iff some message of the chat is newer than the cursor (null cursor = MinValue) |
| ChatService.Summary | GigaChat.Server/Services/ChatService.cs:36-77 | one chat-list entry: the chat, its latest message, and an unread count that is 1 iff a message is newer than the row's cursor |
| ChatService.GetChatById | GigaChat.Server/Services/ChatService.cs:84-155 | null unless a member asks about an existing chat; then the cursor moves to now and nothing is unread |
| ChatService.OpenedChatHasNoUnread | GigaChat.Server/Services/ChatService.cs:109-110 | after opening a chat no older than now, the chat list shows nothing unread |
| ChatService.UserChats | GigaChat.Server/Services/ChatService.cs:22-81 | one entry per membership row of the user, in row order, none left out; each with its chat, its latest message, and an unread count (at most 1) that is 1 iff a message is newer than the cursor |
| ChatService.ChatIdsOf | GigaChat.Server/Services/ChatService.cs:24-25 | the chat ids of the user's rows in row order: each from a row of the user, and every such row's chat present |
| ChatService.DistinctTail | GigaChat.Server/Data/ApplicationDbContext.cs:24-25 | a read of a keyed table without repeats stays without repeats after its first row, which does not recur |
| ChatService.ChatIdsDistinct | GigaChat.Server/Data/ApplicationDbContext.cs:24-25 | with the composite key, the user's chat ids are distinct |
| ChatService.UserChatsOncePerChat | GigaChat.Server/Services/ChatService.cs:22-81 | the chat list names each chat at most once |
| MessageService.Visible | GigaChat.Server/Services/MessageService.cs:35 | exactly the chat's messages that are not deleted |
| MessageService.VisibleIsFilter | GigaChat.Server/Services/MessageService.cs:35 | the visible messages keep scan order and each scanned live message of the chat appears as often as in the scan |
| MessageService.NewestFirst | GigaChat.Server/Services/MessageService.cs:35-36 | the visible messages, sorted newest first |
| MessageService.Page | GigaChat.Server/Services/MessageService.cs:34-79 | a page of visible messages of the chat, oldest first, holding the skip/take window of the newest-first order |
| MessageService.FirstPageIsNewest | GigaChat.Server/Services/MessageService.cs:34-38 | no visible message left off the first page is newer than one on it |
| MessageService.GetChatMessages | GigaChat.Server/Services/MessageService.cs:22-81 | non-members are refused; members get the page, and the cursor moves to now exactly when the page is not empty |
| MessageService.Link | GigaChat.Server/Services/MessageService.cs:124 | exactly the listed attachments are linked to the message; the rest are untouched |
| MessageService.OwnLive | GigaChat.Server/Services/MessageService.cs:210-211 | the message exists, is the caller's, and is not deleted |
| MessageService.SendMessage | GigaChat.Server/Services/MessageService.cs:83-159 | checks in order (member, sender, attachments distinct and existing); on success the message is stored, attachments linked, sender's last-active set |
| MessageService.UpdateMessage | GigaChat.Server/Services/MessageService.cs:161-205 | only the sender edits a live message: content replaced and marked edited |
| MessageService.DeleteVerdictAsWritten | GigaChat.Server/Services/MessageService.cs:209-226 | the sender's live message is tombstoned; every other request dereferences null |
| MessageService.DeleteVerdictIntended | GigaChat.Server/Services/MessageService.cs:213-226 | a live message is tombstoned iff the caller is its sender or an admin of its chat; never a null dereference |
| MessageService.DeleteVerdictsAgreeOnSenders | GigaChat.Server/Services/MessageService.cs:209-226 | where the written code does not crash, it agrees with the intended rule |
| MessageService.AdminDeleteCrashes | GigaChat.Server/Services/MessageService.cs:213-217 | a chat admin deleting another member's message crashes as written but is allowed as intended |
| MessageService.SoftDeleted | GigaChat.Server/Services/MessageService.cs:224-225 | a soft-deleted message is flagged deleted with the tombstone text; everything else is kept |
| MessageService.DeleteMessage | GigaChat.Server/Services/MessageService.cs:207-231 | as written: true after tombstoning the sender's own live message; otherwise a null-reference error with nothing changed |
| MessageService.DeleteMessageCorrected | GigaChat.Server/Services/MessageService.cs:207-231 | corrected: true iff the intended rule allows it, then the message is tombstoned; otherwise nothing changes |
| MessageService.MarkAsReadUpTo | GigaChat.Server/Services/MessageService.cs:233-248 | true iff a member; then the cursor is exactly the given time |
| MessageService.CursorCanRewind | GigaChat.Server/Services/MessageService.cs:245 | the cursor can move backwards |
| FileService.StoredFileName | GigaChat.Server/Services/FileService.cs:53 | the stored name is the Guid text, an underscore, then the base name |
| FileService.BaseNameOf | GigaChat.Server/Services/FileService.cs:53 | the base name read back from a stored name |
| FileService.StoredNameRoundTrip | GigaChat.Server/Services/FileService.cs:53-66 | the original base name is recoverable from the stored name |
| FileService.UploadFile | GigaChat.Server/Services/FileService.cs:34-91 | unknown user, then null or empty file, are errors; otherwise exactly one unlinked attachment is recorded |
| FileService.LinkedMessage | GigaChat.Server/Services/FileService.cs:98-111 | the linked message when the link exists and resolves |
| FileService.MayRead | GigaChat.Server/Services/FileService.cs:111-131 | linked: the reader is a member of the message's chat; unlinked: uploaded no more than 15 minutes ago |
| FileService.MayDelete | GigaChat.Server/Services/FileService.cs:169-181 | linked: the caller sent the message or is an admin of its chat; unlinked: uploaded less than 15 minutes ago |
| FileService.GetFile | GigaChat.Server/Services/FileService.cs:93-148 | the stored file iff the attachment exists, the reader passes the access check and the file is on disk |
| FileService.ReadRule | GigaChat.Server/Services/FileService.cs:111-131 | linked: readable iff a member of the message's chat; unlinked: iff uploaded no more than 15 minutes ago |
| FileService.WindowBoundary | GigaChat.Server/Services/FileService.cs:125-181 | at exactly 15 minutes an unlinked file may be read but not deleted; deletable implies readable |
| FileService.AdminsReadWhatTheyDelete | GigaChat.Server/Services/FileService.cs:113-174 | a chat admin may both delete and read a linked attachment |
| FileService.SenderWhoLeftDeletesUnread | GigaChat.Server/Services/FileService.cs:113-174 | the sender of a linked message who left the chat may delete the attachment but not read it |
| FileService.DeleteFile | GigaChat.Server/Services/FileService.cs:150-208 | true iff the attachment exists, the caller may delete it and nothing faults; then exactly that record goes |
| UserService.GetUserById | GigaChat.Server/Services/UserService.cs:21-35 | the user, or null exactly when the id is unknown |
| UserService.IsNullOrWhiteSpace | GigaChat.Server/Services/UserService.cs:39 | the term is null or all white space |
| UserService.Contains | GigaChat.Server/Services/UserService.cs:43 | ordinal containment: the term occurs at some position |
| UserService.ContainsAt | GigaChat.Server/Services/UserService.cs:43 | `Contains` holds iff the term occurs at some position |
| UserService.Matching | GigaChat.Server/Services/UserService.cs:43 | exactly the scanned users whose name or email contains the term |
| UserService.SearchUsers | GigaChat.Server/Services/UserService.cs:37-56 | nothing for a blank term; at most 20 matches; all matches when at most 20 exist, exactly 20 otherwise |
| UserService.UpdateUserProfile | GigaChat.Server/Services/UserService.cs:58-86 | null for an unknown user; a taken new name is an error with nothing changed; otherwise name, picture and last-active are set |
| UserService.ProfileUpdateKeepsAccountsUnique | GigaChat.Server/Services/UserService.cs:65-73 | an accepted profile update keeps emails and user names unique |
| UserService.UpdateUserPassword | GigaChat.Server/Services/UserService.cs:88-109 | true iff the user exists and the current password verifies; then hash, salt and last-active are replaced |
| UserService.DeleteUser | GigaChat.Server/Services/UserService.cs:111-125 | true iff the user exists; then the account and all its memberships go |
| UserService.DeletedUserInNoChat | GigaChat.Server/Services/UserService.cs:118-122 | a deleted user is a member of no chat, and other memberships are kept |
| AuthService.FirstWhere | GigaChat.Server/Services/AuthService.cs:203-206 | a scanned user satisfying the query with none before it in scan order, or none exactly when no one does |
| AuthService.FirstByEmailIsTheAccount | GigaChat.Server/Services/AuthService.cs:112 | with unique emails the lookup by email finds exactly the account with that email |
| AuthService.ResetMatch | GigaChat.Server/Services/AuthService.cs:203-206 | the account has the email and the token, and the expiry is later than now |
| AuthService.NewAccount | GigaChat.Server/Services/AuthService.cs:62-72 | a new account is unconfirmed, with no reset token or picture, created and active now |
| AuthService.Register | GigaChat.Server/Services/AuthService.cs:33-105 | a taken email, then a taken name, are rejected; otherwise the account is added unless the save fails |
| AuthService.RegisterKeepsAccountsUnique | GigaChat.Server/Services/AuthService.cs:38-56 | registration keeps emails and user names unique |
| AuthService.Login | GigaChat.Server/Services/AuthService.cs:107-176 | unknown email, wrong password, unconfirmed email, failed save, each rejected in that order; on success only last-active changes |
| AuthService.RequestPasswordReset | GigaChat.Server/Services/AuthService.cs:178-199 | true iff an account has the email; it gets the token and an expiry 24 hours ahead |
| AuthService.AfterReset | GigaChat.Server/Services/AuthService.cs:218-221 | a reset sets the new hash and salt and clears token and expiry |
| AuthService.ResetPassword | GigaChat.Server/Services/AuthService.cs:201-225 | true iff an account matches email, token and unexpired expiry; then it is reset |
| AuthService.ResetTokenLifecycle | GigaChat.Server/Services/AuthService.cs:190-221 | a requested token matches until 24 hours later and never again after the reset |
| AuthService.ConfirmEmail | GigaChat.Server/Services/AuthService.cs:227-240 | true iff an account has the email; it becomes confirmed, whatever the token |
| ClientModels.UserDisplayName | GigaChat.Client/GigaChat.Client.Shared/Models/Models.cs:15 | the user name unless null or empty, else the email |
| ClientModels.FirstNotMe | GigaChat.Client/GigaChat.Client.Shared/Models/Models.cs:32 | the first member whose id differs from the current user's, or none exactly when there is none |
| ClientModels.ChatDisplayName | GigaChat.Client/GigaChat.Client.Shared/Models/Models.cs:32 | a group shows its name; a direct chat shows the other member's display name, falling back to the chat name |
| ClientModels.DirectChatShowsOther | GigaChat.Client/GigaChat.Client.Shared/Models/Models.cs:32 | a two-person direct chat is shown under the other person's user name, in either member order |
| ClientModels.IsImageExamples | GigaChat.Client/GigaChat.Client.Shared/Models/Models.cs:61 | the image test is a case-sensitive prefix test: "image/png" passes; "Image/png", "application/image/x" and "image" do not |
| ClientModels.IsImage | GigaChat.Client/GigaChat.Client.Shared/Models/Models.cs:61 | the content type starts with "image/" |
| ClientModels.NatToString | GigaChat.Client/GigaChat.Client.Shared/Models/Models.cs:63-65 | decimal digits without a leading zero |
| ClientModels.IntToString | GigaChat.Client/GigaChat.Client.Shared/Models/Models.cs:63-65 | a minus sign before the digits of a negative number |
| ClientModels.NatStringRoundTrip | GigaChat.Client/GigaChat.Client.Shared/Models/Models.cs:62-65 | the decimal text of a number reads back as the number |
| ClientModels.IntStringRoundTrip | GigaChat.Client/GigaChat.Client.Shared/Models/Models.cs:62-65 | the same for signed numbers |
| ClientModels.SizeUnit | GigaChat.Client/GigaChat.Client.Shared/Models/Models.cs:62-65 | below 1024 bytes the bytes, below 1 MiB whole KiB, else whole MiB |
| ClientModels.FormattedBytes | GigaChat.Client/GigaChat.Client.Shared/Models/Models.cs:63 | below 1024 the text is the size followed by " B" |
| ClientModels.FormattedKilobytes | GigaChat.Client/GigaChat.Client.Shared/Models/Models.cs:64 | between 1 KiB and 1 MiB the shown number is 1..1023 and brackets the size in KiB |
| ClientModels.FormattedMegabytes | GigaChat.Client/GigaChat.Client.Shared/Models/Models.cs:65 | from 1 MiB the shown number is at least 1 and brackets the size in MiB |
| ClientModels.FormattedSizeReadsBack | GigaChat.Client/GigaChat.Client.Shared/Models/Models.cs:62-65 | the text is number then unit, and the number reads back |
| ClientModels.FormattedSize | GigaChat.Client/GigaChat.Client.Shared/Models/Models.cs:62-65 | the size in B, whole KB or whole MB by threshold |
| ClientModels.AuthIsSuccessExamples | GigaChat.Client/GigaChat.Client.Shared/Models/Models.cs:117 | no token and an empty token fail; any non-empty token, even a blank one, succeeds |
| ClientModels.AuthIsSuccess | GigaChat.Client/GigaChat.Client.Shared/Models/Models.cs:117 | the token is present and non-empty |

## Left out

- Entity Framework mechanics are not modelled: change tracking, `Include` loading, DTO projection, and the SQL a query is translated to. Each query is read with LINQ-to-objects semantics over the in-memory maps.
- A SQL provider may reject a negative `skip` or `take`; the model follows LINQ-to-objects.
- String comparison and `Contains` are ordinal. A database collation that ignores case would make search and the uniqueness checks case-insensitive; that is not modelled.
- Foreign-key delete behaviour is not modelled. `DeleteUser` removes the account and its memberships, as the code does. With the Restrict rule on a message's sender, a real database would refuse to delete a user who has sent messages; the model does not capture that refusal.
- FileService reaches a linked message's chat through navigation properties; the model reads the chat id stored on the message and does not model a dangling chat reference.
- BCrypt hashing and salt generation, and JWT creation and signing, are parameters or left out. `Login` and `Register` return the user id in place of the token. An exception from JWT creation after Login's save (which would leave last-active updated) is not modelled.
- Register: JWT creation at AuthService.cs:79 runs after the account is saved at lines 75-76. An exception there is caught at lines 96-104, so the call reports failure while the account stays stored. The model does not raise that exception: its rejections leave the users unchanged.
- Disk I/O is out of scope: writing the upload, opening a stream, and deleting the file from disk. `GetFile` returns the stored file name, and file existence is the `onDisk` parameter.
- Logging, SignalR hubs, controllers, DTO classes and configuration are not modelled.
- Concurrency between requests is not modelled; every operation runs alone against the database.
- The clock, Guid generation and `Path.GetFileName` are parameters; the Guid.Empty sentinel is not distinguished from other ids.
- The order a query returns rows in (`scan`) is a parameter; the model does not say which order a database picks.
- The client's `IsOnline`, `FormattedTime` and `FormattedDate` depend on the local clock and culture, so they are not modelled.
- ClientModels.IsImage: `StartsWith` uses the current culture; the model compares ordinally, which agrees for the ASCII prefix "image/" under ordinary cultures.
- ClientModels.IsImage: a null content type (which would throw) is not modelled; the content type is a string.
- Services.cs repeats the five service classes line for line; it is modelled once, through the per-class files.

## Findings

| source | as written | input that shows it | evidently intended | confidence | as-written member | corrected member |
|---|---|---|---|---|---|---|
| GigaChat.Server/Services/MessageService.cs:213-226 | when the sender-and-live lookup returns null, the admin check reads `message.ChatId` through that null reference | message 1 of chat 7 sent by user 2; user 3 is an admin of chat 7 and asks to delete it | a chat admin may delete any live message of the chat; others get `false` | not executed | MessageService.DeleteVerdictAsWritten, MessageService.AdminDeleteCrashes | MessageService.DeleteVerdictIntended, MessageService.DeleteMessageCorrected |
