# otus-hiload chat and directory core, in Dafny

This project models the storage layer and the decision logic of the HTTP handlers of
otus-hiload, a small social network with person search and two-party chat, written in Go.
The SQL tables become sequences held by classes:

- `ChatStore` holds `chats`.
- `MessageLog` holds `messages` and the AUTO_INCREMENT counter.
- `Repo` holds `users`, the primary/replica connection list and the two replica hit counters.

The model then proves what each operation promises:

- Pair lookups are symmetric.
- The message log's keyset pages enumerate a chat exactly once.
- The replica router bumps exactly one counter.
- The bulk loader's 500-row batches tile the input.
- The prefix search is sound, ascending and bounded.
- The Tarantool reply decoder accepts exactly the well-formed replies.
- The handlers run their checks in order and never write on a rejected request.

The model is split into these modules:

- `Base` (`base.dfy`) holds the Go byte strings, `Result`/`Option`, int64/int32 bounds and the wrapping `atomic.AddInt32`.
- `ChatRepository` (`chat_store.dfy`) models `src/repository/chat.go`.
- `MessageRepository` (`message_log.dfy`) models `src/repository/message.go`.
- `Repository` (`repository.dfy`) covers `src/repository/repository.go` and the `users` operations of `src/repository/user.go`, which share the Go struct `repo`. The duplicated `GetMasterDB`/`GetRoDB` are modelled once.
- `Tarantool` (`tarantool.dfy`) models `src/repository/tarantool.go`.
- `DecimalText` (`strconv.dfy`) models `strconv.ParseInt(s, 10, 64)` and `strconv.FormatInt`/`%d` as the handlers use them.
- `ChatService` (`chat_service.dfy`) models `src/service/chat.go`.
- `PageService` (`page_service.dfy`) models `SearchHandler` and `EditHandler` of `src/service/page.go`, together with `utf8.RuneCountInString` and `html.EscapeString`.
- `UserService` (`user_service.dfy`) models `LoginHandler` and `RegHandler` of `src/service/user.go`.

The model replaces every external input with a parameter:

- Database failures become a `fault` flag, or a `failing` set of batch starts for the bulk loader.
- `NOW()` is `now`; `rand.Int63n` is `randomId`; `rand.Intn` is `idx`.
- bcrypt becomes a `matches` function and a `hashed` option.
- `Call17` becomes `server`, `GetByIDs` becomes `getByIds`, and the session store's verdict becomes `sessionOk`.
- Failed multipart parsing, a missing form file, the name chosen by `SaveFile` and a failed body read become `formOk`, `photo`, `saved` and `readFailed`.

A handler returns the response it ends with as a value (`Reply`, `SearchView`, `EditView`, `LoginView`, `RegView`). It also returns the effects the code performs: the user handed to the session store and the ordered file operations. The mutated store objects are listed in its `modifies` clause.

Facts about the code a reader might not expect:

- Nothing calls `UpdateDate`: neither message-append path touches the chat's `updated_at`. A new message therefore does not move its chat to the top of the chat list.
- The self-chat guard is in `AddFirstMessageHandler`, not in `Start`. `Start(a, a)` inserts a row.
- `rand.Int63n(math.MaxInt64)` can return 0, so a chat id lies in `[0, 2^63 - 1)` and is not always positive.
- `masterCnt + slaveCnt` equals the number of reads only until a counter wraps at 2^31 - 1.
- `LoadChatMessagesHandler` and `AddMessageHandler` do not check that the caller takes part in the chat.

## Model

| member | source | states |
|---|---|---|
| Base.IncInt32 | src/repository/repository.go:49-51 | `atomic.AddInt32(&x, 1)` adds one, and wraps from 2^31 - 1 to -2^31. |
| ChatRepository.Canonical | src/repository/chat.go:75-76 | The key is the ordered pair (min, max) of the two ids, and it is a permutation of them. |
| ChatRepository.GetSymmetric | src/repository/chat.go:74-78 | `Get(a, b)` and `Get(b, a)` return the same result. |
| ChatRepository.Involving | src/repository/chat.go:35 | It holds exactly the rows with `user1_id = u or user2_id = u`. |
| ChatRepository.InsertByDate | src/repository/chat.go:35 | Placing a row by `updated_at` adds exactly that row to the multiset. |
| ChatRepository.InsertByDateNewestFirst | src/repository/chat.go:35 | Placing a row keeps the list ordered by `updated_at desc`. |
| ChatRepository.ChatStore.Get | src/repository/chat.go:74-87 | It finds a row for the canonical pair if and only if one exists, and otherwise gives `NoRows`. A storage failure gives an error. |
| ChatRepository.ChatStore.GetByID | src/repository/chat.go:89-98 | It finds a row with that id if and only if one exists, and otherwise gives `NoRows`. A storage failure gives an error. |
| ChatRepository.ChatStore.Start | src/repository/chat.go:101-112 | On success it appends exactly one row `(randomId, min, max, now)` without checking for an existing chat, and returns `randomId`, which lies in [0, MaxInt64). On failure the table is unchanged. Every row has `User1ID <= User2ID`. |
| ChatRepository.ChatStore.UpdateDate | src/repository/chat.go:114-122 | Only `UpdatedAt` of rows with that id changes; every other row and field is kept. |
| ChatRepository.ByDate | src/repository/chat.go:35 | The ordered rows are a permutation of the input rows. |
| ChatRepository.ByDateNewestFirst | src/repository/chat.go:35 | The model's order is `order by updated_at desc`. |
| ChatRepository.ChatStore.GetAllByUser | src/repository/chat.go:34-55 | The result is `ByDate` of the user's chats: a permutation of them, newest first; a chat is in it if and only if the user takes part. |
| MessageRepository.ChatAfter | src/repository/message.go:30 | It holds exactly the rows with `chat_id = c and id > minId`. |
| MessageRepository.ChatAfterAppend | src/repository/message.go:30 | The filter distributes over concatenation of tables. |
| MessageRepository.ChatAfterAscending | src/repository/message.go:30 | On an id-ascending table, the filtered rows ascend as well. |
| MessageRepository.ScanIsPage | src/repository/message.go:38-45 | A scan that stops at the table's end, or at `limit` rows, yields exactly `order by id asc limit n`. |
| MessageRepository.ChatAfterResume | src/repository/message.go:30 | Resuming after the k-th qualifying id yields exactly the qualifying rows from k on. |
| MessageRepository.AllPagesComplete | src/repository/message.go:30 | Following the pages, each starting after the last id of the previous one, yields every qualifying row once, in order. |
| MessageRepository.PaginationEnumeratesChat | src/service/chat.go:206-214 | From `minId = 0` the pages enumerate exactly the chat's messages, ascending and without repeats. |
| MessageRepository.Page | src/repository/message.go:30 | A page has at most `limit` rows, each a stored message of the chat with `id > minId`. |
| MessageRepository.AllPages | src/service/chat.go:206-214 | Every message the successive pages return is a stored message of the chat past the starting cursor. |
| MessageRepository.PageSound | src/repository/message.go:30 | A page has at most `limit` rows, all of the chat with `id > minId`, and strictly ascending ids. |
| MessageRepository.PageSkipsNothing | src/repository/message.go:30 | No qualifying message with an id up to the page's last id is missing from the page. |
| MessageRepository.MessageLog.Create | src/repository/message.go:53-60 | It appends one message with the given fields and the next id, which exceeds every existing id. Earlier messages are untouched; on failure nothing changes. |
| MessageRepository.MessageLog.GetByChat | src/repository/message.go:29-51 | The result is exactly the keyset page: at most `limit` stored messages of the chat after `minId`, ascending. A negative limit or a failure gives an error. |
| Repository.ReplaceFirst | src/repository/repository.go:25 | `strings.Replace(s, old, new, 1)` leaves the string unchanged when there is no occurrence, and otherwise replaces exactly the first one, so the length changes by the length of `new` minus that of `old`, or not at all. |
| Repository.NormalizeDsn | src/repository/repository.go:25-32 | A normalised DSN always ends in `?parseTime=true`, and it has lost at most one `mysql://`. |
| Repository.NormalizeDsnWithoutScheme | src/repository/repository.go:25 | A DSN without `mysql://` only gains `?parseTime=true`. |
| Repository.NormalizeDsnRemovesFirst | src/repository/repository.go:25 | Only the first `mysql://` is removed; the text around it is kept and the suffix appended. |
| Repository.NormalizeDsnUri | src/repository/repository.go:32 | `mysql://rest` becomes `rest?parseTime=true`. |
| Repository.NormalizeDsnSchemeTwice | src/repository/repository.go:25 | A doubled scheme keeps its second copy. |
| Repository.Where | src/repository/user.go:133-134 | The filter holds exactly the rows that satisfy the predicate. |
| Repository.WhereAscending | src/repository/user.go:133-134 | Filtering an id-ascending table keeps it ascending. |
| Repository.TakeAscending | src/repository/user.go:133-135 | `limit n` keeps ascending order and returns only input rows. |
| Repository.Merge | src/repository/user.go:133-135 | Every row of the union comes from one of the two subqueries. |
| Repository.MergeAscending | src/repository/user.go:133-135 | The union of two ascending subquery results, ordered by id, is strictly ascending, so no id repeats. |
| Repository.PrefixRows | src/repository/user.go:133-135 | The union query returns at most `limit` rows. |
| Repository.PrefixRowsSound | src/repository/user.go:133-135 | The union query returns at most `limit` rows, ascending, each a stored row with `id > minId` whose name or last name starts with the prefix. |
| Repository.SearchUsers | src/repository/user.go:141-149 | There is one user per row, in order, carrying the row's id, name and last name. |
| Repository.ScanSearchRows | src/repository/user.go:141-149 | The `rows.Next()` loop scans exactly `SearchUsers` of the rows. |
| Repository.PrefixSearchSound | src/repository/user.go:132-155 | The scanned users satisfy the soundness, ordering and bound of the search. |
| Repository.Spans | src/repository/user.go:183-187 | No batch ends past the input or holds more than 500 users. |
| Repository.SpansCount | src/repository/user.go:183 | Batch k exists exactly when `k*500 < n`. |
| Repository.SpansInBounds | src/repository/user.go:183-189 | Every batch is a valid slice `[lo, hi)` of the input. |
| Repository.SpansPartition | src/repository/user.go:182-187 | There are ceil(n/500) batches. They are consecutive, run from 0 to n, and each holds 1 to 500 users; all but the last hold exactly 500. |
| Repository.BatchedPrefix | src/repository/user.go:183-189 | The first k batches concatenate to the first `min(500k, n)` users. |
| Repository.BatchesCoverInput | src/repository/user.go:182-189 | The batches concatenate to the whole input, in order. |
| Repository.Spans1301 | src/repository/user.go:182-187 | 1301 users give the batches [0,500), [500,1000) and [1000,1301). |
| Repository.BatchArgs | src/repository/user.go:200-206 | A batch has five arguments per user. |
| Repository.BatchArgsLayout | src/repository/user.go:200-207 | Argument `5i+k` is column k of user i, in the order Login, Name, LastName, PasswordHash, Description. |
| Repository.RowPlaceholdersCount | src/repository/user.go:201 | The row group `(?, ?, ?, ?, ?, NOW())` has five placeholders. |
| Repository.PlaceholderCount | src/repository/user.go:201-208 | `n` groups joined by `,` have `5n` placeholders. |
| Repository.PlaceholdersMatchArgs | src/repository/user.go:198-208 | The statement has exactly one placeholder per argument. |
| Repository.NewRows | src/repository/user.go:209 | A successful multi-row insert adds one row per user. |
| Repository.NewRowsAt | src/repository/user.go:208-209 | Row i carries user i's login, name, last name, hash and description under id `firstId + i`. |
| Repository.NewRowsAppend | src/repository/user.go:209 | Inserting `a` and then `b` adds the rows of inserting `a + b`. |
| Repository.Loaded | src/repository/user.go:190-193 | Only input users are stored. |
| Repository.LoadedStep | src/repository/user.go:189-193 | One loop step stores the batch's users after the earlier ones, or on failure stores nothing and goes on. |
| Repository.IssueNext | src/repository/user.go:183-187 | While `500k < n`, the loop's next slice `[500k, min(500k + 500, n))` is batch k of `Spans(n)`. |
| Repository.IssuedAll | src/repository/user.go:183 | When the loop stops, it has issued every batch of `Spans(n)`. |
| Repository.LoadedAll | src/repository/user.go:190-193 | With no failing batch, the stored users are the batches' slices in order. |
| Repository.LoadedAllUsers | src/repository/user.go:181-195 | With no failing batch, every input user is stored, in input order, under consecutive ids. |
| Repository.NewRowsValid | src/repository/user.go:209 | A bulk insert keeps the table's ids ascending and below the counter. |
| Repository.Repo.NewMysqlRepository | src/repository/repository.go:24-40 | Both DSNs are normalised, the read set is `[primary, slave]` and both counters start at 0. |
| Repository.Repo.GetMasterDB | src/repository/repository.go:42-44 | It returns the primary, which is read replica 0, and reads no counter. |
| Repository.Repo.GetRoDB | src/repository/repository.go:46-55 | It returns `readReplicas[idx]`. Index 0 bumps only `masterCnt` and any other index only `slaveCnt`, so without a wrap the sum grows by 1. |
| Repository.Repo.Get | src/repository/user.go:76-85 | It returns the profile of the first row with that id, with no password hash, or `NoRows` if there is none. A failure gives an error. |
| Repository.Repo.IsLoginExist | src/repository/user.go:97-112 | It is false exactly when the lookup succeeds with no row; any other error counts as "exists". |
| Repository.Repo.FindByLoginAndPassword | src/repository/user.go:114-130 | The first row with the login decides: the result is `Ok` of that row's profile, with no hash, exactly when bcrypt accepts the password against its hash, and `HashMismatch` otherwise. With no such login the result is `NoRows`; a failure gives an error. |
| Repository.Repo.Create | src/repository/user.go:157-179 | A hashing failure or a storage failure changes nothing. On success it appends one row with the next id and returns the user with `ID` set to that id. |
| Repository.Repo.Update | src/repository/user.go:87-95 | Only the description and photo of rows with the user's id change. |
| Repository.Repo.FindByNamePrefix | src/repository/user.go:132-155 | The read goes through `GetRoDB(idx)`. The result is the scanned union-query rows, and it is sound, ascending and at most `limit` long. A negative limit or a failure gives an error. |
| Repository.Repo.BulkCreateBatch | src/repository/user.go:197-211 | The statement is the insert head plus one group per user, and the arguments are five per user. Success appends the batch's rows; failure, including an empty batch, changes nothing. |
| Repository.Repo.BulkCreate | src/repository/user.go:181-195 | It issues exactly the batches `Spans(n)`, in order. The table gains the rows of every non-failing batch; a failure only skips its batch. |
| Tarantool.Int64Of | src/repository/tarantool.go:56 | `int64(x)` of a uint64 is the same value modulo 2^64 in int64 range, and it equals x exactly when x fits. |
| Tarantool.DecodeRow | src/repository/tarantool.go:48-58 | A row decodes if and only if it is `[uint, string, string]`, into ID/Name/LastName. A non-array or a wrong length is a conversion error; a wrong element type panics. |
| Tarantool.DecodeRows | src/repository/tarantool.go:86-99 | A successful decode yields one user per row. |
| Tarantool.DecodeRowsSuccess | src/repository/tarantool.go:47-60 | The decode succeeds if and only if every row decodes, and then yields one user per row, in order. |
| Tarantool.DecodeRowsFirstError | src/repository/tarantool.go:47-54 | A failed decode reports the error of the first bad row; all earlier rows decode. |
| Tarantool.DecodeRowsSnoc | src/repository/tarantool.go:86-98 | One more row extends the result, or fails it with that row's error. |
| Tarantool.DecodeRowsErrPrefix | src/repository/tarantool.go:89-93 | An error aborts the whole decode, with no partial result. |
| Tarantool.Decode | src/repository/tarantool.go:66-101 | A failed call, `Data` not of length 1, or a non-array container is an error. Otherwise the result is the row decode. |
| Tarantool.DecodeSql | src/repository/tarantool.go:28-62 | The same, except that the container must be a map whose `"rows"` entry is an array. |
| Tarantool.SqlWrapsPlain | src/repository/tarantool.go:36-45 | The SQL variant decodes its map's `"rows"` exactly as the plain variant decodes a bare container. |
| Tarantool.ScanRows | src/repository/tarantool.go:85-101 | The loop with early returns computes the row decode. |
| Tarantool.FindByNamePrefix | src/repository/tarantool.go:65-102 | It calls `find_users` with (prefix, minId, limit) and decodes the reply. |
| Tarantool.FindByNamePrefixSql | src/repository/tarantool.go:27-63 | It calls `find_users_sql` with (prefix, minId, limit) and decodes the reply. |
| Tarantool.DecodeWellFormed | src/repository/tarantool.go:86-99 | Well-formed rows decode to one user per row, carrying positions 0, 1 and 2. |
| Tarantool.ShortRowAbortsAll | src/repository/tarantool.go:91-93 | A two-element second row makes the whole reply a conversion error. |
| DecimalText.ScanUint | src/service/chat.go:179 | The scan stays within uint64. A syntax error gives value 0, and overflow gives the largest value with a range error. |
| DecimalText.ParseUint | src/service/chat.go:179 | An empty string is a syntax error. |
| DecimalText.ParseInt | src/service/page.go:169 | The result lies in int64 range. A syntax error gives 0, and a range error gives a bound. |
| DecimalText.Digits | src/service/chat.go:330 | The digits are decimal, with no leading zero. |
| DecimalText.FormatInt | src/service/chat.go:330 | A minus sign leads exactly when the value is negative. |
| DecimalText.ValueOfDigits | src/service/chat.go:330 | The printed digits denote the number. |
| DecimalText.ScanValue | src/service/chat.go:179 | Scanning a digit string that fits yields its value. |
| DecimalText.ParseFormat | src/service/chat.go:330 | Every printed int64 parses back to itself without error. |
| DecimalText.NonNumberIsZero | src/service/page.go:169 | A missing or non-numeric `minId` reads as 0. |
| DecimalText.HugeClamps | src/service/page.go:169 | A digit string above int64 clamps to MaxInt64 with a range error. |
| DecimalText.ScanOverflow | src/service/chat.go:179 | A digit prefix above 2^64 - 1 ends the scan with a range error. |
| DecimalText.ValuePrefix | src/service/chat.go:179 | A prefix of a digit string denotes no more than the whole. |
| ChatService.Counterpart | src/service/chat.go:87-91 | The counterpart is a participant. For a chat of two distinct users that involves me, it is the other one. |
| ChatService.Counterparts | src/service/chat.go:84-92 | There is one id per chat, in order: the chat's counterpart. |
| ChatService.ById | src/service/chat.go:99-101 | Every returned user's id is a key of the map. |
| ChatService.ByIdKeys | src/service/chat.go:99-101 | The map has a key exactly for each returned id. |
| ChatService.ByIdLastWins | src/service/chat.go:99-101 | The entry for an id is the last returned user with that id. |
| ChatService.GetChatsData | src/service/chat.go:83-121 | It asks the lookup for `Counterparts(chats)`. A lookup error is propagated. There is one row per chat, in order, with the counterpart's names from the lookup, unless a counterpart is missing, which panics. |
| ChatService.Enriched | src/service/chat.go:238-248 | It copies ID, CreatedAt→Date and Text, and takes the name from `user` for own messages and from `user2` otherwise. |
| ChatService.EnrichMessages | src/service/chat.go:235-252 | It keeps length and order, enriching message by message. |
| ChatService.ListedRows | src/service/chat.go:68-74 | Rows built chat by chat from a newest-first permutation of the user's chats are one per chat, newest first, each naming a chat of the user. |
| ChatService.ListChatsHandler | src/service/chat.go:55-81 | A missing user, a failed query or a failed user lookup redirects to "/". No chats give an empty list. A counterpart the lookup did not return panics, which `RecoverHandler` (src/middleware/recover.go:31) answers with 500 and its fixed message. Otherwise row i shows chat i of `ByDate` of the user's chats, with its counterpart's names from the lookup. |
| ChatService.LoadChatMessagesHandler | src/service/chat.go:167-233 | It answers JSON exactly when every step succeeds. The JSON is the enriched page of at most 100 messages after `minId`, with the counterpart chosen as at src/service/chat.go:193-198. |
| ChatService.AddMessageHandler | src/service/chat.go:254-284 | The body is stored exactly when the user, the chat id and the insert succeed, including after a failed body read. |
| ChatService.AddFirstMessageHandler | src/service/chat.go:286-335 | A self-chat gives 400 "same user" with no writes. Otherwise `Start` runs, then `Create` on the new chat id; the body is that id in decimal. A failure after `Start` leaves the chat without a message. |
| PageService.RuneWidth | src/service/page.go:163 | A step is 1 to 4 bytes within the string, and an ASCII byte is one rune. |
| PageService.RuneCount | src/service/page.go:163 | A string has at most one rune per byte and at least one per four bytes. |
| PageService.RuneCountBounds | src/service/page.go:163 | The rune count is between a quarter of the byte length and the byte length. |
| PageService.RuneCountAscii | src/service/page.go:163 | For ASCII text, runes equal bytes. |
| PageService.TwoCyrillicLetters | src/service/page.go:163-167 | A 4-byte Cyrillic prefix counts as 2 runes, so it is too short. |
| PageService.PageOf | src/service/page.go:178-188 | There is a next page exactly when `pageSize + 1` rows came back. The list is then cut to `pageSize` and the cursor is the last shown id; otherwise the rows are unchanged and the cursor is 0. |
| PageService.PageOfContinues | src/service/page.go:178-188 | On ascending results, every shown id is at most the cursor, and the held-back row lies beyond it. |
| PageService.SearchHandler | src/service/page.go:150-191 | An empty prefix gives the blank form, and fewer than 3 runes give an error; neither runs a query. Otherwise it asks one replica for 1001 rows after `ParseInt(minId)`, with the error ignored, bumping exactly that replica's counter; a failure shows the error, and otherwise it shows a sound page. |
| PageService.Escape | src/service/page.go:47 | Escaping grows the text by at most five bytes per byte. |
| PageService.EscapeSafe | src/service/page.go:47 | The escaped text is no shorter and holds no `<`, `>`, `"` or `'`. |
| PageService.EscapePlain | src/service/page.go:47 | Text without special characters is stored as typed. |
| PageService.EditCheck | src/service/page.go:35-54 | The checks pass exactly for a parsed form, a description of at least 20 bytes and a photo; a short description is the error after form parsing. |
| PageService.EditHandler | src/service/page.go:22-83 | A rejected form saves no file and updates nothing. A failed update deletes the new file and keeps the table. A successful one stores the escaped description and the new photo and deletes the old file. |
| UserService.LoginHandler | src/service/user.go:34-67 | An empty login or password gives an error with no lookup. A session is opened exactly for a found user with a matching hash, whose hash is cleared. |
| UserService.RegCheck | src/service/user.go:89-105 | Empty fields are reported first, then differing passwords, then a taken login (`LoginTaken(login)`); each error occurs exactly when its check is the first to fail. |
| UserService.RegHandler | src/service/user.go:69-129 | A rejected form echoes login, name and last name, never a password, and creates nothing. A valid form creates exactly one user carrying the submitted fields and hands it, with its new id, to the session store. |

## Left out

- HTTP plumbing is left out: routing, mux variables, template rendering and status-line writing. A handler's outcome is a value.
- GET requests are left out: the `GET` branches of `EditHandler`, `LoginHandler` and `RegHandler` only render a form.
- `MeHandler`, `UserHandler`, `RootHandler`, `LogoutHandler`, `LoadMessagesFormHandler` and `GetAll` only fetch and render, so they are not modelled.
- Some handlers keep running after an `http.Redirect` or `http.Error` and then dereference a nil user. The recover middleware catches the panic. The model keeps the first response written, and it keeps the one side effect such a path has: `EditHandler` saves the uploaded file before it panics.
- Sessions, authentication middleware and bcrypt are foreign libraries; they become parameters.
- File storage internals (UUID names, `DetectContentType`, `os.Remove`) are left out. Only the order of the save and delete calls is kept.
- `json.Marshal` failing on the message list is not modelled; it fails only for a `time.Time` outside the years 0 to 9999.
- The SQL engine is not modelled. `LIKE prefix%` is plain starts-with; `%` and `_` inside the prefix are not treated as wildcards.
- Replicas are taken to hold the primary's rows; replica lag is not modelled.
- `QueryRow` on several matching rows returns the first in table order.
- Repository.Repo.FindByNamePrefix: completeness is not stated. Each `limit 1000` subquery may return any 1000 matching rows, so the code does not promise that every match appears.
- Concurrency is not modelled: the counters are updated sequentially. Two concurrent first messages can create two chats for one pair; the model shows only the sequential fact that `Start` never checks.
- ChatRepository.ChatStore.Get: the lookup's float64 min/max, which loses precision above 2^53, is modelled as exact integer min/max.
- ChatRepository.ChatStore.Start: the insert computes min/max in float64 as well and stores the rounded values, so for ids above 2^53 the stored pair can differ from the ids given; the model stores them exactly.
- ChatRepository.Canonical: it is exact integer min/max; the code's float64 version agrees only for ids up to 2^53.
- ChatRepository.ChatStore.GetAllByUser: `order by updated_at desc` leaves the order of chats with equal `updated_at` to the database; the model keeps table order among them.
- MessageRepository.MessageLog: the `messages` table is taken to have one increasing AUTO_INCREMENT id counter. The source holds no schema, and the message store is opened on its own DSN (`SHARDED_DB_URI`), so this is an assumption of the model.
- Repository.Repo.Create: `user.ID` being written through the pointer is modelled by returning the updated user. A `LastInsertId` error after a successful insert is treated as a failed insert that stores nothing.
- Tarantool: map keys are taken to be strings. MessagePack integers other than `uint64` in the id position panic, as the unchecked assertion does.
- `log.Fatal` on a DSN that `sql.Open` refuses ends the process, and is not modelled.
- `NewUserService`'s page size is the constant 1000, and `NewChatService`'s message limit is the constant 100.
