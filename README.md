# Nest chat: a Dafny model of the message store, the event stream and the client mirror

Nest is a group chat. Thin HTTP handlers sit over three Postgres tables
(`users`, `messages`, `edit_history`), and a browser client keeps a mirror of
the conversation that a server-sent-event stream feeds. This project models:

- the handlers in `api/` as methods on an in-memory `Store.Database`. Each
  method returns the HTTP status and the JSON reply, and changes the tables
  the way the handler's SQL does;
- the event stream (`api/sse.js`) as a `Sse.Connection` object. It has a
  cursor, an output log of frames and two timer flags. One tick writes every
  message above the cursor that someone else wrote, in id order, then moves
  the cursor;
- the browser's `NestChat` object (`public/script.js`) as `Client.NestChat`.
  It holds `messages` and `lastMessageId` and has pure helpers for form
  checks, the character counter, the status line and initials;
- the settings page (`public/settings.js`) as `Settings.SettingsManager`;
- the older Express server (`server.js`) as `Legacy`, with its own message
  table (`username`, `content`, `timestamp`).

Modules: `Base` (Option, request methods, token claims, bearer-header
reading), `Js` (the JavaScript built-ins the code relies on: `trim`,
`split`, ASCII `toUpperCase`, `parseInt`, `toString`), `Sorting` (`ORDER BY`),
`Store` (tables and lookups), one module per handler, `Client`, `Settings`,
`Legacy`, and `Protocol`, which states how the client and the server fit
together.

Outside the model:

- `now` is an integer time in milliseconds.
- `jwt.verify` is a function parameter `verify: string -> Option<Claims>`.
  `jwt.sign` is `sign: Claims -> string`.
- `bcrypt.compare` is `matches`. The result of `bcrypt.hash` is a parameter
  `hashed`.
- A failing query that the schema does not explain is a boolean parameter
  (`queryOk`, `updateFault`).

Table constraints follow the migrated schema:

- `author_id` is NOT NULL and references `users`;
- `parent_message_id` references `messages`;
- neither foreign key cascades.

`Store.Consistent` states these together with serial ids and unique usernames.

Tokens issued at login and registration carry only `userId`, but other
handlers read other claims:

- api/messages.js and api/account.js read `id`;
- api/clearChat.js reads `username`;
- only the stream and the heartbeat read `userId`.

`Base.Claims` keeps the three claims apart, and `Protocol.IssuedTokenClaims`
states the consequence. With a token the server itself issued:

- a POST cannot satisfy the NOT NULL author;
- no edit comes from the author;
- no current password is ever right;
- clearing the chat, even with its query corrected, deletes nothing.

## Model

| member | source | states |
|---|---|---|
| Base.IssuedClaims | api/auth.js:69 | the claims put into a token hold `userId` only, with no `id` and no `username` |
| Base.BearerToken | api/messages.js:17-20 | the second space-separated field of the header, when present and non-empty; no header gives no token |
| Base.BearerTokenOfHeader | api/account.js:11 | `<scheme> <token>` yields the token, and a header without a space yields none |
| Base.Authenticate | server.js:16-28 | no token, a token the verifier rejects, or the verified claims, each exactly when the header and the verifier say so |
| Js.Trim | public/script.js:164-165 | the result neither starts nor ends with whitespace, and it is empty iff the input is all whitespace |
| Js.TrimStrips | public/script.js:164-165 | the result of `trim` is the slice of the input between its leading and its trailing whitespace, with only whitespace before and after it; with `Js.Trim`'s contract this fixes the result |
| Js.UpperChar | public/settings.js:267 | an ASCII lower-case letter becomes its upper-case letter, 32 code points lower; every other character is kept |
| Js.Upper | public/settings.js:267 | one character per character, each mapped by `UpperChar` |
| Js.Split | api/clearChat.js:16 | joining the fields with the separator gives back the input, and no field contains the separator |
| Js.JoinSplit | api/clearChat.js:16 | joining the fields of a split with the separator gives back the input |
| Js.SplitAtFirst | api/clearChat.js:16 | splitting `a + sep + b` with `a` free of `sep` gives `a` followed by the fields of `b` |
| Js.NatToString | public/script.js:237 | `toString` of a natural is a non-empty run of decimal digits with no leading zero |
| Js.ParseInt | api/sse.js:34 | text whose first non-space character is neither a digit nor a sign is NaN, and a negative result needs a leading `-` |
| Js.Magnitude | api/sse.js:34 | the unsigned part of `parseInt` is non-negative when it is a number |
| Js.ParseIntOfNumeral | api/sse.js:34 | `parseInt` reads back what `toString` wrote, also when non-digit text follows |
| Js.DecimalValue | api/sse.js:34 | the decimal value of `toString(n)` is `n` |
| Sorting.SortBy | api/messages.js:39 | `ORDER BY` returns a permutation of the rows in non-decreasing key order |
| Sorting.Insert | api/messages.js:39 | inserting into a sorted sequence keeps it sorted and adds exactly that element |
| Sorting.TiesKeepOrder | api/messages.js:39 | two rows with equal keys come back in table order: the model's sort is stable |
| Sorting.SmallerKeyFirst | server.js:93 | in a sorted result a row with a smaller key comes first |
| Store.FindMessage | api/messages.js:71-77 | the position of the row with that id, and none exactly when no row has it |
| Store.FindUser | api/account.js:24-27 | the position of the user row with that id, and none exactly when no row has it |
| Store.FindUserByName | api/auth.js:60-64 | the position of a row with that username, and none exactly when no row has it |
| Store.FindUserByNameAppended | api/auth.js:67 | a row appended under a fresh username is the one a lookup by that name finds |
| Store.UsernameOf | api/messages.js:38 | the join yields a username exactly when the author row exists, and it is that row's username |
| Store.HistoryOf | api/messages.js:32-36 | the aggregate holds exactly the entries of that message: an item is in it iff such an entry is, and it has one item per entry of that message; order is not promised |
| Store.HistoryOfAppend | api/messages.js:85-88 | one archived entry adds one item to its own message's history and none to any other message's |
| Store.Touch | api/heartbeat.js:37 | the rows whose id matches get `last_active` set to now, every other row is unchanged, and a missing id matches no row |
| Store.AppendKeepsConsistent | migrations/20250926090200_fix_messages_schema.js:9-13 | a new message with the next serial id and both foreign keys satisfied keeps the tables consistent |
| Store.AddUserKeepsConsistent | api/auth.js:67 | a new user row with the next serial id and a fresh username keeps the tables consistent |
| Store.SameKeysKeepConsistent | api/account.js:36-38 | replacing user rows that keep their ids and usernames keeps the tables consistent |
| Store.TouchKeepsConsistent | api/heartbeat.js:37 | refreshing `last_active` keeps the tables consistent |
| Store.TouchNewest | api/auth.js:70 | refreshing the newest row changes only that row's `last_active` |
| Store.Database.constructor | migrations/20250926090200_fix_messages_schema.js:9-13 | empty tables are consistent |
| Messages.Joined | api/messages.js:31-38 | every row has a message, its author's username and its history; every message whose author exists has a row |
| Messages.Listing | api/messages.js:30-41 | GET rows are in `created_at` order and are a permutation of the joined rows |
| Messages.ListingIsComplete | api/messages.js:30-41 | on consistent tables, GET lists every message once, with its author and its history, and nothing else |
| Messages.ParentColumn | api/messages.js:55 | `parent_message_id \|\| null`: an absent or zero parent is stored as NULL, any other is kept |
| Messages.Create | api/messages.js:42-57 | missing or empty text gives 400 and no write; a row the constraints refuse gives 500 and uses up a serial id; otherwise 201 and exactly one new row with the caller as author, the text, the parent or NULL and an empty history |
| Messages.Archive | api/messages.js:85-88 | the `edit_history` INSERT of the text before the edit; `ArchiveAddsOneItem` states its effect |
| Messages.Update | api/messages.js:91-94 | the UPDATE of the text and `last_edited_at`, with as many rows as before; `UpdateKeepsRows` states the rest |
| Messages.ArchiveAddsOneItem | api/messages.js:85-88 | archiving adds exactly one item, holding the pre-edit text, to the edited message's history and none elsewhere |
| Messages.UpdateKeepsRows | api/messages.js:91-94 | the update changes only the edited row's text and `last_edited_at`; ids, author, `created_at`, parent and every other row stay, and the tables stay consistent |
| Messages.TwoEditsKeepBothTexts | api/messages.js:85-94 | two edits leave two more history items, the original text and the first edited text, and the message holds the second text |
| Messages.Edit | api/messages.js:58-120 | 400 for a missing id, then for missing text; 500 "Server error" for an id that is not an integer, whose lookup throws; 404 for an unknown integer id; 403 for a non-author; none of these writes anything; an author's edit archives the old text, then, unless the update fails, overwrites text and `last_edited_at` |
| Messages.Handle | api/messages.js:10-117 | POST and PATCH without a verified token give 401 with no change; GET gives 200 and the listing; other methods give 405; 400, 403 and 404 change nothing |
| Sse.SinceId | api/sse.js:34 | a missing, unparsable or zero `since_id` starts the cursor at 0, and any other number starts it there |
| Sse.SinceIdOfCursor | api/sse.js:34 | the cursor a client sends as `lastMessageId.toString()` is the cursor the server starts from |
| Sse.Open | api/sse.js:9-46 | OPTIONS 200, any other method but GET 405, a missing or rejected token 401, each exactly; otherwise the stream opens for the token's `userId` at `SinceId` |
| Sse.Delta | api/sse.js:50-56 | the tick's SELECT, no longer than the table; `DeltaMembers` and `DeltaIncreasing` state which rows and in what order |
| Sse.DeltaMembers | api/sse.js:50-56 | a tick selects exactly the messages above the cursor written by someone other than the connection's user |
| Sse.DeltaIncreasing | api/sse.js:55 | the selected messages are in strictly ascending id order |
| Sse.DeltaEmpty | api/sse.js:54 | when no row qualifies, the tick selects nothing |
| Sse.DeltaAppend | api/sse.js:54 | the selection over a concatenation of tables is the two selections one after the other |
| Sse.DeltaExhausted | api/sse.js:62-64 | after a tick, a tick on the same table from the new cursor selects nothing, so nothing is written twice |
| Sse.TwoTicksAreOne | api/sse.js:46-64 | two ticks, with rows created and edited in between, write the same ids as one tick over the later table: none skipped, none repeated |
| Sse.ExtendDelivered | api/sse.js:62-64 | appending one tick's rows to the delivered ones keeps the ids strictly increasing |
| Sse.RowsKeepIds | api/sse.js:51-53 | when every author row exists, the join keeps every selected id, in order |
| Sse.DataIdsOfFrames | api/sse.js:58-60 | the `data:` ids of the frames written for some events are those events' ids |
| Sse.TickKeepsInv | api/sse.js:48-64 | a tick keeps the stream invariant: the `data:` ids written are the delivered ids, strictly increasing, the last is the cursor, and each was above the starting cursor and written by someone else |
| Sse.TickFacts | api/sse.js:62-64 | the cursor never decreases and stays below the next serial id |
| Sse.Connection.constructor | api/sse.js:38-46 | the stream opens with one opening frame, the cursor at `since_id`, no delivery and both timers running |
| Sse.Connection.Tick | api/sse.js:48-68 | a tick appends exactly the selected rows as `data:` frames and moves the cursor to the last id, or leaves it when there is none; a failed query changes nothing, so the next tick retries from the same cursor |
| Sse.Connection.Deliver | api/sse.js:58-64 | one `data:` frame per row in order, then the cursor at the last row's id |
| Sse.Connection.Beat | api/sse.js:71-73 | the fifteen-second timer writes one keep-alive frame and changes nothing else |
| Sse.Connection.Teardown | api/sse.js:75-85 | close and error clear both timers and end the response |
| Sse.Connect | api/sse.js:4-46 | a refused handshake answers its status and opens nothing; an accepted one opens a fresh connection at the starting cursor |
| Client.MaxId | public/script.js:227 | `Math.max` of the ids is one of them and at least every one |
| Client.LastId | public/script.js:227 | after the fetch the cursor is the largest fetched id, or 0 for no rows |
| Client.Fetched | public/script.js:223-227 | one item per fetched row with its id, text and author; `isOwn` exactly when the author is the signed-in user |
| Client.Receive | public/script.js:243-247 | an event at or below the cursor changes nothing; any other is appended once as someone else's and becomes the cursor |
| Client.Sent | public/script.js:285-287 | as written, the returned row is appended as the user's own and its id becomes the cursor |
| Client.SentKeepingCursor | public/script.js:285-286 | the returned row is appended as the user's own and the cursor is left where it was |
| Client.LoginCheck | public/script.js:128-136 | login goes ahead exactly when both trimmed fields are non-empty |
| Client.RegisterCheck | public/script.js:163-181 | an empty field is refused first, then a username under 3, then a password under 6; registration goes ahead exactly when none applies |
| Client.CharCountColour | public/script.js:440-446 | `updateCharCount` as written; `CharCountNeverError` states what it chooses |
| Client.CharCountNeverError | public/script.js:440-446 | as written the counter is the warning colour iff above 450, muted otherwise, and never the error colour |
| Client.CharCountColourCorrected | public/script.js:440-446 | error colour above 480, warning colour from 451 to 480, muted up to 450 |
| Client.DiffMinutes | public/script.js:408 | the whole minutes elapsed, rounded down |
| Client.StatusText | public/script.js:410-413 | "Online" exactly when no whole minute has passed; otherwise the line starts with a digit |
| Client.StatusTextReadsBack | public/script.js:412 | the number in front is the minutes below an hour and the whole hours from an hour on, written in `toString`'s digits and followed directly by "m ago" or "h ago", with nothing else in the line |
| Client.Initials | public/script.js:328-329 | at most two characters |
| Client.InitialsOfTwoWords | public/settings.js:266-268 | a two-word name gives the first letter of each word, ASCII-upper-cased |
| Client.InitialsOfOneWord | public/settings.js:266-268 | a one-word name gives its first letter, ASCII-upper-cased |
| Client.NestChat.constructor | public/script.js:3-11 | no user, no token, no messages, cursor 0, no stream and no timers |
| Client.NestChat.SignedIn | public/script.js:150-151 | a successful login stores the user and the token and leaves the mirror alone |
| Client.NestChat.FetchMessages | public/script.js:219-228 | a failed fetch changes nothing; a successful one replaces the mirror with `Fetched` |
| Client.NestChat.ConnectSSE | public/script.js:230-239 | the new subscription carries the token and the current cursor as `since_id` |
| Client.NestChat.OnMessage | public/script.js:241-247 | the mirror becomes `Receive` of the event |
| Client.NestChat.SendMessage | public/script.js:266-287 | nothing is sent for blank text or without a user; otherwise the trimmed text is sent, and a successful answer is appended as the user's own and its id becomes the cursor (`Client.Sent`) |
| Client.NestChat.StartRealTimeUpdates | public/script.js:313-316 | the polling timers start and nothing else changes |
| Client.NestChat.Logout | public/script.js:458-474 | when confirmed, the stream closes, the timers stop, user and token are cleared, the mirror is empty and the cursor is 0; otherwise nothing changes |
| Authentication.LoginRow | api/auth.js:74-78 | a login row has the username and a matching hash; with unique names there is none exactly when no row with the name has a matching hash |
| Authentication.RegisteredCanLogIn | api/auth.js:66-83 | after registering, a login with the same password finds the new row, which has the next serial id |
| Authentication.Register | api/auth.js:54-72 | short fields give 400 "Invalid username or password length", then a taken name gives 400 "Username already taken", neither writing; otherwise 201, exactly one new row with the hash and `last_active` now, and a token for the new id |
| Authentication.LogIn | api/auth.js:73-83 | an unknown user and a wrong password both give the same 401 and no write; otherwise 200, only that row's `last_active` refreshed, and a token for its id |
| Authentication.Handle | api/auth.js:21-90 | OPTIONS 200, other non-POST 405, an unparsable body 400, an empty body or a missing field 400 "Missing fields", an unknown action 400 "Invalid action"; register and login as above |
| Account.PlainPrefix | api/account.js:43 | the longest prefix of `[^\s@]` characters |
| Account.EmailAcceptedIff | api/account.js:43 | the pattern accepts an address iff it has no whitespace, exactly one `@` with something before it, and a `.` after the `@` that is neither first nor last there |
| Account.SetPassword | api/account.js:36-38 | only the rows with the caller's id get the new hash; every other row is unchanged |
| Account.SetEmail | api/account.js:46-48 | only the rows with the caller's id get the new email; every other row is unchanged |
| Account.SetPasswordKeepsConsistent | api/account.js:36-38 | a password change keeps the tables consistent |
| Account.SetEmailKeepsConsistent | api/account.js:46-48 | an email change keeps the tables consistent |
| Account.NewPasswordTakesEffect | api/account.js:31-39 | after a password change the new password is the right one |
| Account.Removed | api/account.js:68-70 | the delete removes one row |
| Account.RemovedRows | api/account.js:68-70 | the rows left are the ones before and after the removed one, in order |
| Account.RemovedMembers | api/account.js:68-70 | with distinct ids, exactly the rows with the caller's id are removed |
| Account.RemovedKeepsConsistent | api/account.js:67-70 | removing a user who wrote no message keeps the tables consistent |
| Account.UpdateAccount | api/account.js:17-52 | 400 for no current password, then 401 for a wrong one; a new password wins over a new email: under 6 gives 400, otherwise only the hash changes and 200; then an email failing the pattern gives 400, otherwise only the email changes and 200; neither gives 400 "No valid update provided" |
| Account.DeleteAccount | api/account.js:53-71 | 400 and 401 as for PATCH; a caller who still has messages makes the delete fail with 500, since nothing cascades; otherwise the caller's row is removed and 200 |
| Account.Handle | api/account.js:8-78 | no token gives 401; a rejected token gives 500, not 401; another method gives 405; none of these changes anything |
| Settings.PasswordFormCheck | public/settings.js:118-126 | an empty field is refused first, then a new password under 6; the fields are not trimmed |
| Settings.EmailFormCheck | public/settings.js:155-158 | both fields must be filled in |
| Settings.DeleteFormCheck | public/settings.js:189-192 | an empty password is refused |
| Settings.ProfileFormCheck | public/settings.js:223-236 | after trimming, an empty username is refused first, then one under 3, then a bio over 160 |
| Settings.PasswordRequest | public/settings.js:137 | the body carries the current and the new password and no email |
| Settings.EmailRequest | public/settings.js:169 | as written, the body read by the account handler holds the current password but no `newEmail` |
| Settings.EmailRequestCorrected | public/settings.js:169 | the body carries the current password and the address as `newEmail` |
| Settings.DeleteRequest | public/settings.js:203 | the body carries only the current password |
| Settings.Updated | public/settings.js:255 | the spread keeps every other field and takes the new username, bio and picture; spreading no user keeps nothing |
| Settings.SettingsManager.constructor | public/settings.js:1-31 | no stored token, or an empty one, only redirects; a failed user load redirects with the forms bound; otherwise the loaded user is kept |
| Settings.SettingsManager.ChooseImage | public/settings.js:53-69 | with a user loaded, a picture over 2 MiB is refused and the input cleared, and any other is kept and previewed; with none loaded no handler is bound, so the file stays in the input unchecked and unpreviewed |
| Settings.SettingsManager.ChangePassword | public/settings.js:113-148 | a request is sent exactly when the form check passes, and it is `PasswordRequest` |
| Settings.SettingsManager.ChangeEmail | public/settings.js:150-181 | a request is sent exactly when both fields are filled in; the request is `EmailRequest`, which carries no `newEmail`; on success the page's user takes the new address |
| Settings.SettingsManager.DeleteAccount | public/settings.js:183-215 | a request is sent exactly when confirmed with a password; on success the token is removed from local storage, the page's own copy stays, and the page goes to login |
| Settings.SettingsManager.Saved | public/settings.js:255-257 | the page's user becomes the saved profile, the picture is redrawn from it and no preview is left, and the picture input is cleared; token, storage and navigation are untouched |
| Settings.SettingsManager.UpdateProfile | public/settings.js:217-258 | a request is sent exactly when the form check passes; on success the user becomes `Updated`, the picture is redrawn from it in place of any preview, and the picture input is cleared |
| ClearChat.HeaderToken | api/clearChat.js:16 | the token is the text after `Bearer ` up to the next space |
| ClearChat.Remaining | api/clearChat.js:31 | exactly the messages not written by the token's username remain, in order; a token without a username deletes nothing |
| ClearChat.RemainingOfOthers | api/clearChat.js:31 | messages by other authors are all kept, unchanged |
| ClearChat.RemainingIdempotent | api/clearChat.js:31 | clearing twice leaves the same messages as clearing once |
| ClearChat.RemainingKeepsOrder | api/clearChat.js:31 | the remaining messages keep ascending ids |
| ClearChat.RemainingKeepsConsistent | api/clearChat.js:31 | when no remaining message replies to a deleted one, the tables stay consistent |
| ClearChat.Handle | api/clearChat.js:4-37 | as written: non-DELETE 405, a missing header or no `Bearer ` prefix 401, a rejected token 401, and every verified request 500, since the DELETE names a column `messages` does not have; nothing ever changes |
| ClearChat.HandleCorrected | api/clearChat.js:4-37 | with the filter on the author's username: the same 405 and 401s; a reply left pointing at a deleted message 500 with no change; otherwise 200 and only the caller's messages removed |
| Heartbeat.PrefixToken | api/heartbeat.js:25 | the token is everything after the seven-character prefix, spaces included |
| Heartbeat.TokenReadingsAgree | api/heartbeat.js:25 | dropping the prefix and taking the second field agree on a token without spaces, and differ when more text follows a space |
| Heartbeat.Handle | api/heartbeat.js:4-38 | OPTIONS 200, other non-POST 405, a missing or non-Bearer header 401, a rejected token 401, none changing anything; otherwise 200 and `last_active` set for `userId` |
| Heartbeat.TouchOnlyCaller | api/heartbeat.js:37 | every other user row is unchanged, and the caller's row is the old one with `last_active` now |
| Presence.Selected | api/users.js:20 | exactly the users whose `last_active` is after now minus five minutes, projected to username and time |
| Presence.Online | api/users.js:20 | the answer is sorted by `last_active`, descending, and is a permutation of the selected rows |
| Presence.OnlineMembers | api/users.js:20 | a row is in the answer iff some user active in the last 300000 ms has that username and time |
| Presence.Handle | api/users.js:4-21 | OPTIONS 200, other non-GET 405, GET 200 with `Online` |
| Legacy.Find | server.js:39-46 | the position of the row with that id, and none exactly when no row has it |
| Legacy.Rows | server.js:60-70 | each row carries the message, its `username` as author and its history |
| Legacy.Listing | server.js:82-96 | GET rows are in `timestamp` order and are a permutation of all messages with their history |
| Legacy.ResetKeepsIds | server.js:56-59 | the update keeps every id and changes no other row |
| Legacy.EditedSortsAfterEarlier | server.js:57 | since an edit resets `timestamp`, the edited message is listed after every message with an earlier timestamp |
| Legacy.LegacyDatabase.constructor | server.js:7-9 | empty tables |
| Legacy.Patch | server.js:30-80 | 401 before anything else, then 400 for missing content, 500 for an id that is not an integer, 404 for an unknown integer id (a negative one included) and 403 for another user's message, none writing; otherwise the old content is archived, content replaced, `timestamp` reset, and the row returned with its history |
| Legacy.List | server.js:82-96 | GET answers 200 with the listing |
| Protocol.Items | public/script.js:246-247 | the items the client appends for stream events are those events as someone else's |
| Protocol.ReceiveAscending | public/script.js:241-247 | events in ascending order above the cursor are each appended once, in order, and the cursor ends at the last |
| Protocol.ReplayIgnored | public/script.js:243 | events at or below the cursor, as a stream restarted at an older cursor sends, change nothing |
| Protocol.ReceiveTwiceIsOnce | public/script.js:243 | receiving the same ascending run twice is receiving it once |
| Protocol.TickEvents | api/sse.js:50-64 | one tick's events are ascending, above the cursor, and the last carries the id the cursor moves to |
| Protocol.TickReachesMirror | api/sse.js:58-64 | when the client and the connection share a cursor, the client appends exactly the tick's events and its cursor moves where the connection's does |
| Protocol.ReconnectResumesAtCursor | public/script.js:237 | a client that reconnects subscribes at its cursor and the server starts there; after logout both are 0 |
| Protocol.RegisterCheckMeetsServer | public/script.js:168-181 | a registration the client lets through passes the server's field and length checks |
| Protocol.IssuedTokenClaims | api/auth.js:69 | a token as issued cannot create a message, edit one, pass the password check or clear any message |
| Protocol.RunAsWritten | public/script.js:241-287 | the client's cursor and messages after a run of stream events and sends, with `sendMessage` as written; `SendOvertakesStream` states what it loses |
| Protocol.Run | public/script.js:241-287 | the same with sends leaving the cursor alone; `RunKeepsEveryEvent` states what it keeps |
| Protocol.Delivered | public/script.js:241-247 | the stream events among the client's steps, in order |
| Protocol.SendOvertakesStream | public/script.js:287 | as written, for every cursor, own message and stream event with an id above the cursor and at most the own message's id, the event is dropped and the cursor ends at the own id, while the corrected client keeps the event and ends at its id |
| Protocol.RunKeepsEveryEvent | public/script.js:241-287 | with sends leaving the cursor alone, the client keeps every delivered event after the starting items of others, and its cursor is the last delivered id |
| Protocol.ChangeEmailAsWritten | public/settings.js:169 | as written, a valid email change with the right password is answered 400 "No valid update provided" and changes nothing |
| Protocol.ChangeEmailCorrected | public/settings.js:169 | sending `newEmail` stores a valid address on the caller's row with 200, and refuses an invalid one with 400 |

## Left out

- Database drivers, pooling and the SQL text: each query is written as a function over the in-memory tables that mirrors its WHERE and ORDER BY.
- Failures the schema does not explain: every handler's catch-all 500 for a broken connection is left out. The exceptions are parameters: the stream's failing query (`queryOk`) and a failing second statement of an edit (`updateFault`). Constraint violations are modelled: the NOT NULL author and both foreign keys.
- JSON Web Tokens and bcrypt: functions passed in, with no cryptography.
- Timers and transport: `setInterval`, EventSource auto-reconnect and concurrent requests. A tick, a heartbeat frame and each client callback are method calls in some order. Interleavings are covered only as sequences of steps (`Protocol.Run`). `Sse.TwoTicksAreOne` relies on new rows being appended in id order; concurrent POSTs can commit their serial ids out of order, and then a tick's `id > cursor` query skips a row committed late below the cursor, which the model does not show.
- Browser UI: DOM rendering, toasts, `escapeHtml`, `localStorage` (except the settings page's stored token), `confirm`, `toLocaleTimeString`, CORS headers. `confirm` is a boolean parameter.
- FileReader: the preview of an accepted picture is shown at once rather than after the file has been read.
- api/me.js is not part of this model. The `/api/me` answer is a parameter of the settings page's constructor.
- The profile update's server side: api/account.js does not read the `FormData` fields, so `SettingsManager.UpdateProfile` takes the answer as a parameter.
- The online-user polling (`fetchOnlineUsers`) and the client's `sendHeartbeat` are not modelled. Their server sides are `Presence.Handle` and `Heartbeat.Handle`.
- JSON body fields are strings or absent. A field of another JSON type, which the handlers would also read, is not modelled.
- A JSON body that is `null` is not modelled. The destructuring at api/auth.js:44 then throws outside any `try`, and the platform, not the handler, answers. `Authentication.Handle` takes only an empty body, unparsable text or an object.
- Path ids outside the 32-bit range of the `id` column make the lookup throw and get the 500 of api/messages.js:118-120 and server.js:76-79. `Base.PathId` and `Legacy.Patch` take such a numeral as not an integer, so the model answers 500 too, but the mapping from the path text to the parameter is not modelled.
- Js.ParseInt: the result is an exact integer. JavaScript's `parseInt` returns a double, which loses precision above 2^53, so a `since_id` numeral that long reads back differently there.
- Lengths count Dafny characters, not JavaScript UTF-16 code units. The two differ for characters outside the Basic Multilingual Plane.
- Ties in `ORDER BY created_at`, `timestamp` and `last_active` are broken by the model's stable sort, which keeps tied rows in table order. The database may return tied rows in any order; the contracts promise only sortedness and permutation.
- The history aggregate has no ORDER BY. `Store.HistoryOf` keeps table order, but its contract and the lemmas about it promise only membership and count. `Messages.TwoEditsKeepBothTexts` states the order in which the model appends.
- ClearChat.Handle: the clear-chat query filters on a column `author` that neither schema variant has, so as written every request with a verified token answers 500 and deletes nothing; this is listed under Findings. `ClearChat.HandleCorrected` reads `author` as the username of the message's author.
- The foreign key of `edit_history.message_id` is not in the migration. Its rows are not constrained; clearing the chat can leave entries for deleted messages.
- An edit is two statements with no transaction. The model does not claim atomicity, and `updateFault` exhibits the leftover history entry. Each statement calls `NOW()` itself, so the history entry's `edited_at` and the message's `last_edited_at` can differ; the model stamps both with one `now`.
- Js.Trim: the whitespace set is the ECMAScript WhiteSpace and LineTerminator set as listed in `Js.IsSpace`, not derived from Unicode tables.
- Messages.Joined: the POST reply's author is looked up after the insert, as the RETURNING subquery does. A missing author row there is excluded by the foreign key rather than modelled as NULL.
- Js.Upper: `toUpperCase` is modelled for ASCII letters only. JavaScript maps every Unicode lower-case letter, some to two characters: `"ß".toUpperCase()` is `"SS"` and `"é".toUpperCase()` is `"É"`, where the model keeps both.
- Js.UpperChar: the same ASCII-only mapping, one character to one.
- Client.InitialsOfTwoWords: the initials are upper-cased by the ASCII `Js.UpperChar`, so for a name starting with a non-ASCII lower-case letter they differ from the page's, for example `"ßen bo"` gives `"SS"` on the page.
- Client.InitialsOfOneWord: the same ASCII-only upper-casing as `Client.InitialsOfTwoWords`.
- Client.Initials: the contract bounds the length; the two lemmas beside it fix its value only for one-word and two-word names.
- Authentication.Handle: a thrown bcrypt, sign or query call answering 500 "Server error" is not modelled.

## Findings

| source | as written | input that shows it | evidently intended | confidence | as-written member | corrected member |
|---|---|---|---|---|---|---|
| public/script.js:287 | after a send, `lastMessageId` becomes the id of the user's own message | cursor 5; the user sends and gets message 7; someone else's message 6 then arrives on the stream and is dropped as at or below the cursor | only stream events move the cursor, since the stream never carries the user's own messages | high, not executed | Protocol.SendOvertakesStream | Protocol.RunKeepsEveryEvent |
| public/script.js:440-446 | the `> 450` test comes before `> 480`, so the error colour is never chosen | a message of 481 characters shows the warning colour | the error colour above 480, then the warning colour above 450 | high, not executed | Client.CharCountNeverError | Client.CharCountColourCorrected |
| public/settings.js:169 | the email form sends the address under `email`, which api/account.js:18 does not read | a valid address with the right password is answered 400 "No valid update provided" (api/account.js:52) | the address sent as `newEmail` and stored | high, not executed | Protocol.ChangeEmailAsWritten | Protocol.ChangeEmailCorrected |
| api/clearChat.js:31 | the DELETE filters on `author`, a column the migrated `messages` table does not have (migrations/20250926090200_fix_messages_schema.js:9-13) | any DELETE with a verified token: the database refuses the statement and the handler answers 500 "Internal server error" | the messages whose author has the token's username removed, with 200 | high, not executed | ClearChat.Handle | ClearChat.HandleCorrected |
