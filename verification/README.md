# LanChat-Next in Dafny

LanChat-Next is a chat system for local networks: a C++ server, a Tauri client (Rust and TypeScript) and the legacy
client and server it grew out of. This project models the parts whose correctness is not visible in any one function,
and proves what they are for:

- **JSON text** (`JsonTree`, `JsonGrammar`, `JsonPrinted`, `JsonRoundTrip`, `JsonParsed`, `JsonReader`, `JsonWriter`,
  `ChildList`). The specification of printing and parsing is a set of recursive functions on trees and octet strings.
  The grammar of RFC 8259 with its own meaning of characters, escapes and numbers says what they ought to do: every text
  of it is read as what it means, what is printed is such a text, and reading undoes printing.
  `JsonReader` and `JsonWriter` are the pointer-walking parser and the buffer-filling printer, proved equal to it, so
  their array writes also prove the hand-computed buffer sizes. `ChildList` is the doubly linked child list, edited in
  place and shown to act as a sequence.
- **The framed channel** (`Frames`, `Channel`, `Session`, `RateLimit`). Three decoders of one frame format, the
  server's partial-write queue and the clients' read loops, with chunk and write sizes chosen by the environment.
- **The server** (`Router`, `ServerPresence`, `ServerDelivery`, `ServerEffects`, `EndToEnd`, `MessageRouter`, and the
  stores below it). The I/O context is run by one thread, so every request, connection and disconnect is one atomic
  step of a state machine. The invariants are proved over every run; `ServerEffects` says what each request does, in
  terms of the request alone; the class `ChatServer` has the handlers, each proved to be its step.
- **The stores** (`Sessions`, `Users`, `Messages`, `Channels`, `Friends`, `Tables` and their classes).
- **The client's copy** (`History`, `OfflineQueue`, `Replica`, `ClientEffects`): handlers applied to what the server
  sends, the history merge, and the offline queue with arrivals at every await.

Each mutable object is a class whose methods are proved against a function of its contents; the theorems are lemmas
about those functions. Sockets, clocks, password checks, the UTF-8 check, the row serializer, the row a `LIMIT 1` query
returns, the order a sort leaves equal timestamps in and which payloads fit a frame are parameters, so every theorem
holds for all of them.

## Findings

Some properties one would expect do not hold of this code. Each entry names the lemma with the exact condition under
which the property does hold and, behind a semicolon, the lemma with a failing case:

- The server's read loop caps its accumulator at the frame limit although an incomplete frame is four octets longer:
  bodies of limit-2 to limit octets can be lost, all shorter ones cannot (`Frames.ServerLimitIsTight`;
  `Frames.LongBodyLost`).
- A second login by a user leaves the older session carrying the user, and its end erases the newer mapping
  (`Sessions.BindKeepsInverse`; `Sessions.OlderSessionTakesIndex`). A login as another user on a bound session, or by an
  absent user on a session that has already left the pool (its last request may still be handled in the same read),
  leaves someone present without a session (`ServerPresence.LoginExactly`; `ServerPresence.FormerUserStays`,
  `ServerPresence.GoneSessionLogsIn`).
- Nothing clears the stored online flags when the server stops, so after a restart they are wrong for everyone who was
  logged in until they log in or go offline again (`ServerPresence.FlagsAreExact`; `ServerPresence.RestartLeavesFlag`).
- Surrogate pairs are combined with a bitwise or, so half of them denote the wrong character
  (`JsonParsed.PairsDecodeExactly`; `JsonParsed.PairDecodesWrongly`).
- Rows are stored as delivered before the payload is queued, and queueing a payload above the frame limit throws an
  exception that nothing catches. A login whose pending messages make a batch above the limit marks them all, queues
  them for nobody and stops the server; after a restart they are not pending any more. The same happens to a live
  message that grows past the limit when ids and flags are added. Every other private message between different users
  is queued on its recipient's session exactly as its row says (`ServerDelivery.LossIsExact`; `ServerDelivery.OneMessageLost`,
  `ServerDelivery.LostForGood`).
- A queued message can still be dropped, with its row saying delivered, by a write error on the session or by the server
  stopping; without a write error the client emits it once it has read that far
  (`EndToEnd.DeliveredReachesClient`; `Channel.QueuedCanBeDropped`).
- Reactions are kept as text separated by commas and searched as text, so some are dropped and still reported as added,
  and one with a comma becomes several (`Messages.ReactionListed`; `Messages.ReactionSwallowed`,
  `Messages.ReactionSplits`); clients show what the server did not store (`Replica.ReactionsAgreeExactly`).
- A change request is announced to the conversation it names, which the server does not compare with the message's own,
  so participants may not learn of it (`Replica.ChangeShownExactly`; `Replica.EditNamesAnother`).
- A write error inside a frame leaves the rest of the connection out of step; one between frames only drops what was
  queued (`Channel.ErrorKeepsBoundary`; `Channel.TornFrameGarbles`).
- Profile updates do not look for the nickname, so nicknames need not stay unique (`Users.ProfileKeepsNicknames`;
  `Users.NicknameTakenTwice`).
- A history request can mark a message as read without telling anyone, so other clients diverge
  (`Replica.SilentReadDiverges`; `Replica.SenderNotTold`).
- A queue with a repeated local id loses messages (`OfflineQueue.DequeueTakesHead`;
  `OfflineQueue.SharedIdLosesMessage`), and a flush started during another sends messages twice, which nothing prevents
  (`OfflineQueue.BeginConservesExactly`; `OfflineQueue.OverlapSendsTwice`).
- Rows inserted into a table that was never created are cached and then lost (`Tables.InsertSurvives`;
  `Tables.InsertIsLost`).
- The rate limiter admits up to 20(k+1), not 20k, messages in k seconds, and no more (`RateLimit.BoundedRate`;
  `RateLimit.RateBoundIsTight`).

## Model

| member | source | states |
|---|---|---|
| `JsonRoundTrip.ParseUndoesPrint` | legacy/original-server/cJSON.c:119-786 | for every tree of null, booleans, integers of magnitude below 2^63, strings, arrays and objects, parsing the printed text, formatted or not, gives the tree back with the parser's sign flags and leaves nothing over |
| `JsonRoundTrip.ReprintReproduces` | legacy/original-server/cJSON.c:119-786 | printing what was parsed back reproduces the text, at any depth and in either layout |
| `JsonRoundTrip.ValueRoundTrip` | legacy/original-server/cJSON.c:441-516 | the round trip of one value at any depth, with any delimited text behind it left untouched |
| `JsonRoundTrip.ItemsRoundTrip` | legacy/original-server/cJSON.c:519-627 | the elements of a printed array are read back in order up to the closing bracket |
| `JsonRoundTrip.FieldsRoundTrip` | legacy/original-server/cJSON.c:630-786 | the members of a printed object are read back in order, with their names, through all indentation |
| `JsonRoundTrip.EscapeRead` | legacy/original-server/cJSON.c:219-391 | unescaping an escaped string without NUL gives the string, for every octet value |
| `JsonRoundTrip.IntRead` | legacy/original-server/cJSON.c:119-214 | reading a printed integer of magnitude below 2^63 gives its value, whatever the sign flag it was printed under |
| `JsonRoundTrip.CanonicalPrintsAlike` | legacy/original-server/cJSON.c:184-214 | the sign flag of non-negative integers does not show in the text |
| `JsonParsed.AcceptedTextNormalizes` | legacy/original-server/cJSON.c:415-516 | any accepted text, however it is laid out or escaped, has a printed form that parses to the same tree |
| `JsonParsed.ValuePrintable` | legacy/original-server/cJSON.c:441-688 | what the parser yields from a text without NUL contains no NUL, so it can be printed |
| `JsonParsed.PairsDecodeExactly` | legacy/original-server/cJSON.c:273-282 | a surrogate pair decodes to the code point of RFC 8259, section 7, if and only if bit 6 of its high half is clear |
| `JsonParsed.PairDecodesWrongly` | legacy/original-server/cJSON.c:219-322 | the string literal of the pair for U+20000 is read as the string of U+10000 |
| `JsonTree.ParseValue` | legacy/original-server/cJSON.c:441-480 | every successful parse consumes at least one octet (the termination measure of the whole parser) |
| `JsonTree.ParseItems` | legacy/original-server/cJSON.c:536-556 | so does every list of elements |
| `JsonTree.ParseFields` | legacy/original-server/cJSON.c:647-687 | so does every list of members |
| `JsonTree.DecodeUnicode` | legacy/original-server/cJSON.c:266-308 | a unicode escape is consumed inside the text and yields at most four octets, fewer than it occupies |
| `JsonTree.CombineSurrogates` | legacy/original-server/cJSON.c:281 | the combined value stays in the four-octet range |
| `JsonReader.SkipAt` | legacy/original-server/cJSON.c:407-412 | the pointer loop ends where the specification of white space ends |
| `JsonReader.NumberAt` | legacy/original-server/cJSON.c:119-166 | the number loops compute sign, digits, scale and exponent of the specification and stop behind the number |
| `JsonReader.WriteUtf8` | legacy/original-server/cJSON.c:284-307 | filling the octets from the last to the first yields the UTF-8 form and touches nothing before it |
| `JsonReader.UnicodeAt` | legacy/original-server/cJSON.c:266-308 | a unicode escape, with its second half where there is one, is decoded into the buffer |
| `JsonReader.ScanAt` | legacy/original-server/cJSON.c:232-234 | the first scan counts one per character or escaped pair |
| `JsonReader.DecodedFits` | legacy/original-server/cJSON.c:232-316 | decoding a well-formed literal never writes more octets than the first scan counted |
| `JsonReader.EscapeFits` | legacy/original-server/cJSON.c:232-313 | the same for one escape of any kind, against the scan of the text it occupies |
| `JsonReader.StringAt` | legacy/original-server/cJSON.c:219-322 | two passes over a literal with a buffer sized by the first give the specified string, all writes in bounds |
| `JsonReader.ItemsAt` | legacy/original-server/cJSON.c:533-556 | the append loop over array elements yields the specified list |
| `JsonReader.FieldsAt` | legacy/original-server/cJSON.c:644-687 | the append loop over object members yields the specified list |
| `JsonReader.ArrayAt` | legacy/original-server/cJSON.c:519-557 | arrays, including the empty one and malformed ones |
| `JsonReader.ObjectAt` | legacy/original-server/cJSON.c:630-688 | objects, including the empty one and malformed ones |
| `JsonReader.ValueAt` | legacy/original-server/cJSON.c:441-480 | the recursive-descent dispatcher fails exactly where the specification fails and otherwise agrees on value and position |
| `JsonReader.ParseText` | legacy/original-server/cJSON.c:415-428 | the entry point refines the specification |
| `JsonWriter.StringSizeIsExact` | legacy/original-server/cJSON.c:334-344 | the size computed for a string is exactly its printed octets and the terminator |
| `JsonWriter.ArrayFits` | legacy/original-server/cJSON.c:560-627 | brackets, separators, elements and terminator of an array never exceed the size computed for it |
| `JsonWriter.ObjectFits` | legacy/original-server/cJSON.c:691-786 | nor do those of an object, with indentation at any depth |
| `JsonWriter.IntFits` | legacy/original-server/cJSON.c:184-214 | every 64-bit integer, printed signed or unsigned, fits the 22 octets |
| `JsonWriter.PrintIntItem` | legacy/original-server/cJSON.c:184-214 | the narrow and wide unsigned formats print the same text, the one specified |
| `JsonWriter.PrintStringPtr` | legacy/original-server/cJSON.c:325-391 | the two passes fill the allocated buffer to its last octet with the escaped string |
| `JsonWriter.ComposeArray` | legacy/original-server/cJSON.c:563-626 | the elements are written with separators into the computed buffer, all writes in bounds |
| `JsonWriter.PrintArray` | legacy/original-server/cJSON.c:560-627 | the printed array is the specified text |
| `JsonWriter.ComposeObject` | legacy/original-server/cJSON.c:714-785 | names, values, tabs and line ends are written into the computed buffer, all writes in bounds |
| `JsonWriter.PrintObject` | legacy/original-server/cJSON.c:691-786 | the printed object is the specified text |
| `JsonWriter.PrintTree` | legacy/original-server/cJSON.c:483-516 | the printer refines the specification in both layouts |
| `ChildList.Node.constructor` | legacy/original-server/cJSON.c:528-533 | a new node has an empty, well-linked child list |
| `ChildList.Node.GetArraySize` | legacy/original-server/cJSON.c:789-796 | the size is the length of the child sequence |
| `ChildList.Node.GetArrayItem` | legacy/original-server/cJSON.c:797-803 | the item is the one at that index of the sequence, the first for negative indices, null past the end |
| `ChildList.Node.AddItemToArray` | legacy/original-server/cJSON.c:832-847 | appends to the sequence; next and prev stay mutually inverse with a null prev at the head |
| `ChildList.Node.AddItemToArrayHead` | legacy/original-server/cJSON.c:849-865 | prepends to the sequence, links intact |
| `ChildList.Node.DetachItemFromArray` | legacy/original-server/cJSON.c:886-901 | removes exactly the indexed element and returns it unlinked, links intact |
| `ChildList.Node.ReplaceItemInArray` | legacy/original-server/cJSON.c:922-939 | replaces exactly the indexed element and unlinks the old one, links intact |
| `Frames.HeaderRoundTrip` | src/server/src/FrameCodec.cpp:13-34 | reading the four header octets gives back the length modulo 2^32; lengths below 2^24 start with a zero octet |
| `Frames.AttemptOnFrame` | src/server/src/FrameCodec.cpp:24-49 | each of the three decoders waits on an incomplete frame and yields exactly the body of a complete one |
| `Frames.NoBraceAtBoundary` | legacy/legacy-common/LegacyProtocolCodec.h:26-34 | the bare-JSON fallback never fires at a frame boundary |
| `Frames.DrainPrefix` | src/server/src/AsyncSession.cpp:55-58 | draining any prefix of a stream yields exactly the bodies whose frames are complete in it and keeps the rest |
| `Frames.Reassembly` | src/server/src/AsyncSession.cpp:42-69 | reads of any sizes that bring a prefix of a stream decode it |
| `Frames.AllBodiesArrive` | src/client/src-tauri/src/tcp_manager.rs:37-74 | once a whole stream of bodies of 1 to limit-3 octets has been read, in any chunks, the server, Rust and legacy decoders have yielded exactly the bodies, in order |
| `Frames.ReadIncomplete` | src/server/src/AsyncSession.cpp:52-65 | a read that leaves a frame incomplete only accumulates, and past the limit forgets everything |
| `Frames.LongBodyLost` | src/server/src/AsyncSession.cpp:61-65 | a chunking in reads the server can make loses every body of limit-2 to limit octets |
| `Frames.ServerLimitIsTight` | src/server/src/AsyncSession.cpp:42-69 | a body the encoder accepts survives every chunking if and only if it has at most limit-3 octets |
| `Session.Encode` | src/server/src/FrameCodec.cpp:7-22 | a body above the limit is refused; any other gets its frame |
| `Session.ReadBuffer.TryDecode` | src/server/src/FrameCodec.cpp:24-49 | the in-place decoder of the server refines the attempt, on every buffer |
| `Session.ReadBuffer.TryDecodeFrame` | src/client/src-tauri/src/message_codec.rs:10-25 | so does the Rust decoder, with its invalid-frame message and its text check |
| `Session.ReadBuffer.DecodeFrames` | legacy/legacy-common/LegacyProtocolCodec.h:26-61 | so does the legacy loop, with its fallbacks |
| `Session.AsyncSession.OnRead` | src/server/src/AsyncSession.cpp:42-69 | the accumulate-and-decode loop with its cap refines one read |
| `Session.ClientRead` | src/client/src-tauri/src/tcp_manager.rs:60-72 | so does the client's loop |
| `Session.AsyncSession.DoWrite` | src/server/src/AsyncSession.cpp:71-79 | starts a write if anything is queued, else goes idle |
| `Session.AsyncSession.Deliver` | src/server/src/AsyncSession.cpp:29-36 | queues the frame and starts a write only if none is running; an oversized payload changes nothing |
| `Session.AsyncSession.OnWritten` | src/server/src/AsyncSession.cpp:87-94 | a partial write moves the offset, a complete one drops the front frame, and the next write starts |
| `Session.AsyncSession.OnWriteError` | src/server/src/AsyncSession.cpp:81-86 | a write error empties the queue |
| `Channel.DeliverQueues` | src/server/src/AsyncSession.cpp:29-36 | delivering appends the frame to the octets still to be sent and keeps the writer invariant |
| `Channel.WrittenSends` | src/server/src/AsyncSession.cpp:87-94 | what a completion reports as written is exactly the front of the octets still to be sent |
| `Channel.RunSound` | src/server/src/AsyncSession.cpp:29-96 | over every run of deliveries, partial writes, errors and reads: until an error tears a frame, wire and queue hold the stream of all payloads no error dropped, and what was read of it is decoded |
| `Channel.ErrorKeepsBoundary` | src/server/src/AsyncSession.cpp:81-86 | after a write error the wire ends between two frames if and only if nothing of the front frame had been sent |
| `Channel.TornFrameGarbles` | src/server/src/AsyncSession.cpp:71-96 | one octet of a frame, a write error, then a whole frame: the client that has read everything has emitted an error message instead of the second payload |
| `Channel.QueuedCanBeDropped` | src/server/src/AsyncSession.cpp:81-86 | a payload delivered before a write error is dropped: the wire never carries it |
| `Channel.InOrderDelivery` | src/server/src/AsyncSession.cpp:29-96 | over every run at most one write is outstanding and the offset is inside the front frame; until a write error comes inside a frame the client has emitted, in order, a prefix of the payloads no error dropped (until the first error, of all delivered), and all of them once it has read every octet |
| `Session.AsyncSession.ConsumeRateLimitToken` | src/server/src/AsyncSession.cpp:118-126 | the in-place window update refines one arrival and accepts exactly as specified |
| `RateLimit.WindowsAccount` | src/server/src/AsyncSession.cpp:118-126 | every window accounts for at most twenty acceptances, and windows start at least a second apart |
| `RateLimit.BoundedRate` | src/server/src/AsyncSession.cpp:118-126 | for monotone arrivals and k >= 1, at most 20(k+1) messages are accepted in any half-open interval of k seconds |
| `RateLimit.RateBoundIsTight` | src/server/src/AsyncSession.cpp:118-126 | for every k there are monotone arrivals that reach the bound |
| `Friends.RunConsistent` | src/server/src/db/FriendRepository.cpp:29-189 | in every table reachable from an empty one, whichever row LIMIT 1 returns: no self rows, one row per direction, at most one of two opposite rows not rejected |
| `Friends.FriendshipIsSound` | src/server/src/db/FriendRepository.cpp:121-134 | in every reachable table friendship is symmetric and irreflexive, and a pair has at most one row that is not rejected |
| `Friends.RejectedStays` | src/server/src/db/FriendRepository.cpp:50-58 | a rejected direction refuses requests, whichever row is picked, and only a removal of the pair ends it |
| `Friends.RejectionIsFinal` | src/server/src/db/FriendRepository.cpp:29-119 | over every run, once a to b is rejected it stays so and every request from a to b fails until the pair is removed |
| `Friends.RowWasRequested` | src/server/src/db/FriendRepository.cpp:29-96 | every row goes back to a successful request in its direction with no removal since |
| `Friends.AcceptedWasAgreed` | src/server/src/db/FriendRepository.cpp:98-189 | every accepted row was requested and afterwards accepted in its direction, with no removal since the request |
| `FriendStore.FriendRepository.SendRequest` | src/server/src/db/FriendRepository.cpp:29-96 | the select, update and insert steps refine the request for the row the query returned |
| `FriendStore.FriendRepository.SetStatus` | src/server/src/db/FriendRepository.cpp:176-189 | accepting and rejecting change exactly the pending row of that direction |
| `FriendStore.FriendRepository.RemoveFriendship` | src/server/src/db/FriendRepository.cpp:106-119 | removes the rows of both directions and reports whether there were any |
| `FriendStore.FriendRepository.GetFriends` | src/server/src/db/FriendRepository.cpp:136-153 | in a consistent table the list has no duplicates; it holds exactly the registered users that areFriends relates to the user |
| `Tables.DecodeEncode` | src/server/src/db/Database.cpp:206-262 | loading what was saved gives the rows back, in order |
| `Tables.StepCoherent` | src/server/src/db/Database.cpp:162-262 | each operation on any table keeps a coherent table coherent and acts on it as on a plain list |
| `Tables.ReopenAnswersAlike` | src/server/src/db/Database.cpp:61-262 | after any operations on a table ensured before use, new or from earlier, every query answers as the plain list would, and as a fresh load after close and reopen does |
| `Tables.InsertSurvives` | src/server/src/db/Database.cpp:176-262 | a row inserted at any time survives reopening if and only if the table exists |
| `Tables.InsertIsLost` | src/server/src/db/Database.cpp:176-262 | on an empty database a row inserted without ensuring its table is answered until the database is closed, and not after |
| `TableStore.Database.EnsureTable` | src/server/src/db/Database.cpp:101-111 | creates the table only if it is missing |
| `TableStore.Database.Close` | src/server/src/db/Database.cpp:61-68 | forgets the cache and nothing else |
| `TableStore.Database.LoadTable` | src/server/src/db/Database.cpp:206-230 | fills the cache once, skipping texts that hold no row |
| `TableStore.Database.SaveTable` | src/server/src/db/Database.cpp:232-262 | rewrites the stored table whole, or not at all if it does not exist |
| `TableStore.Database.Query` | src/server/src/db/Database.cpp:162-174 | returns the matching rows in order |
| `TableStore.Database.Insert` | src/server/src/db/Database.cpp:176-181 | appends to cache and store |
| `TableStore.Database.Update` | src/server/src/db/Database.cpp:183-193 | edits the matching rows in cache and store |
| `TableStore.Database.Remove` | src/server/src/db/Database.cpp:195-204 | drops the matching rows from cache and store |
| `Sessions.ForwardKept` | src/server/src/SessionPool.cpp:8-47 | every pool operation keeps each index entry pointing to a pooled session that carries that user |
| `Sessions.LookupsAreFresh` | src/server/src/SessionPool.cpp:54-60 | lookups find every indexed user, are never stale, and no two users share a session |
| `Sessions.BindKeepsInverse` | src/server/src/SessionPool.cpp:24-35 | binding keeps index and session user ids inverse if and only if the user is not found at another session |
| `Sessions.OlderSessionTakesIndex` | src/server/src/SessionPool.cpp:16-35 | after a second login, removing the older session erases the newer mapping |
| `Sessions.SessionPool.AddSession` | src/server/src/SessionPool.cpp:8-14 | adds unless the pool is full |
| `Sessions.SessionPool.RemoveSession` | src/server/src/SessionPool.cpp:16-22 | drops the session and the index entry of the user it carries |
| `Sessions.SessionPool.BindUser` | src/server/src/SessionPool.cpp:24-35 | moves the index entry from the session's former user to the new one |
| `Sessions.SessionPool.UnbindUser` | src/server/src/SessionPool.cpp:37-47 | clears the session's user and the index entry |
| `Sessions.SessionPool.FindByUserId` | src/server/src/SessionPool.cpp:54-60 | the pooled session recorded for the user, if any |
| `Sessions.SessionPool.All` | src/server/src/SessionPool.cpp:62-71 | every pooled session once, in some order |
| `Users.NextId` | src/server/src/db/UserRepository.cpp:58-64 | a new id is at least 1000 and above every id in the table |
| `Users.OnlineAfter` | src/server/src/db/UserRepository.cpp:120-129 | setting a known user's status adds exactly that id to, or removes it from, the stored online ids |
| `UserStore.UserRepository.Create` | src/server/src/db/UserRepository.cpp:52-78 | refuses a taken nickname, otherwise appends a user with a fresh id, offline |
| `UserStore.UserRepository.SetOnlineStatus` | src/server/src/db/UserRepository.cpp:120-129 | changes exactly the rows of that user |
| `UserStore.UserRepository.Exists` | src/server/src/db/UserRepository.cpp:34-41 | finds a user if and only if a row has the id |
| `UserStore.UserRepository.UpdateProfile` | src/server/src/db/UserRepository.cpp:108-118 | changes nickname and avatar of that user only and reports whether there is one |
| `Users.ProfileKeeps` | src/server/src/db/UserRepository.cpp:108-118 | a profile update makes nobody known, unknown, online or offline |
| `Users.CreatedKeepsDistinct` | src/server/src/db/UserRepository.cpp:52-78 | registration keeps ids and nicknames unique |
| `Users.ProfileKeepsNicknames` | src/server/src/db/UserRepository.cpp:108-118 | a profile update keeps nicknames unique if and only if nobody else has the new one |
| `Users.NicknameTakenTwice` | src/server/src/db/UserRepository.cpp:108-118 | of two users with different nicknames the second can take that of the first |
| `PresenceStore.PresenceManager.SetOnline` | src/server/src/PresenceManager.cpp:5-9 | records the status, "online" by default, of positive ids only |
| `PresenceStore.PresenceManager.SetOffline` | src/server/src/PresenceManager.cpp:11-13 | erases the user |
| `ServerPresence.FlagsAreExact` | src/server/src/PresenceManager.cpp:15-22 | over every run from any start, presence is the set of rows stored as online if and only if no flag of an earlier run is left, and a user is reported offline if and only if stored as offline or left over |
| `ServerPresence.StatusIsStored` | src/server/src/PresenceManager.cpp:15-22 | over every run from an all-offline database, presence is the set of rows stored as online, and a user is reported offline if and only if not stored as online |
| `ServerPresence.RestartLeavesFlag` | src/server/src/TcpServer.cpp:29-54 | whoever logged in before the server stopped is stored as online and reported offline when it starts again |
| `ServerPresence.StepSound` | src/server/src/MessageRouter.cpp:198-557 | each atomic step of the server, also one cut short by a payload that does not fit, keeps the presence invariant |
| `ServerPresence.PresenceAlwaysSound` | src/server/src/TcpServer.cpp:81-131 | in every reachable state index entries are never stale, every indexed user is present, and the rows stored as online are exactly those present and those whose flag is left over from before the start and who have neither logged in nor gone offline since |
| `ServerPresence.BootedIsSound` | src/server/src/TcpServer.cpp:29-41 | a server that has just started, on any database, satisfies both invariants |
| `ServerPresence.ForwardAlways` | src/server/src/SessionPool.cpp:54-60 | in every reachable state of a server started on any database lookups are never stale |
| `ServerPresence.LoginExactly` | src/server/src/MessageRouter.cpp:227-275 | an accepted login keeps index, session user ids and presence in exact correspondence if and only if it is clean (repeats the session's own login, or joins an idle session and an absent user) |
| `ServerPresence.FormerUserStays` | src/server/src/SessionPool.cpp:24-35 | a session that logs in as another user leaves the former one present without a session |
| `ServerPresence.GoneSessionLogsIn` | src/server/src/MessageRouter.cpp:245-247 | a login handled after its session has left the pool leaves its user present without a session |
| `ServerPresence.LoginReplyIsTruthful` | src/server/src/MessageRouter.cpp:249-272 | the reply lists every user and every registered friend with the stored status, flags left over apart, and exactly the groups the user is a member of, each once |
| `ServerPresence.ExactAlways` | src/server/src/MessageRouter.cpp:227-288 | over every run whose accepted logins are clean the correspondence is exact |
| `Messages.NextId` | src/server/src/db/MessageRepository.cpp:284-290 | a new id is above every stored id |
| `Messages.OnlyAuthorChangesContent` | src/server/src/db/MessageRepository.cpp:183-212 | content changes only by an edit or deletion by the author of a message not yet deleted |
| `Messages.RepeatedReaction` | src/server/src/db/MessageRepository.cpp:214-232 | repeating a reaction changes nothing |
| `Messages.ReactionListed` | src/server/src/db/MessageRepository.cpp:214-232 | an accepted reaction only appends to the list; without a comma it is listed afterwards if and only if it was listed before or occurs inside no listed entry, and no other entry changes; it adds just itself if and only if it has no comma and its text does not occur in those recorded |
| `Messages.ContainedInEntry` | src/server/src/db/MessageRepository.cpp:223-227 | a text without comma occurs in the recorded text if and only if it occurs inside one entry |
| `Messages.ReactionSwallowed` | src/server/src/db/MessageRepository.cpp:219-228 | user 1 cannot react as user 11 did: the reaction is reported as added and is not listed |
| `Messages.ReactionSplits` | src/server/src/db/MessageRepository.cpp:219-228 | one reaction of user 1 with a comma in it also lists a reaction of user 2 |
| `Messages.BatchIsPending` | src/server/src/db/MessageRepository.cpp:107-123 | an offline batch holds pending messages of the user only, each once, and respects the limit |
| `Messages.BatchIsNewest` | src/server/src/db/MessageRepository.cpp:55-62 | a pending message outside the batch was cut off by the limit and is no newer than any in it |
| `Messages.TrimmedStayPending` | src/server/src/db/MessageRepository.cpp:107-123 | exactly the messages in the batch change from pending to delivered |
| `MessageStore.SortByTimestamp` | src/server/src/db/MessageRepository.cpp:56-58 | yields a time-ordered permutation |
| `MessageStore.MessageRepository.NextMessageId` | src/server/src/db/MessageRepository.cpp:284-290 | the maximum loop computes the specified id |
| `MessageStore.MessageRepository.SavePrivate` | src/server/src/db/MessageRepository.cpp:70-87 | appends the message under a fresh id with the given delivered flag |
| `MessageStore.MessageRepository.SaveGroup` | src/server/src/db/MessageRepository.cpp:89-105 | appends the message under a fresh id, delivered |
| `MessageStore.MessageRepository.Update` | src/server/src/db/MessageRepository.cpp:183-244 | the update loop changes exactly the rows the change applies to, the reader of a read mark included, and reports whether there were any |
| `MessageStore.MessageRepository.OfflineForUser` | src/server/src/db/MessageRepository.cpp:107-123 | returns the newest pending messages and marks exactly those as delivered |
| `ServerDelivery.MessagesOnlyEvolve` | src/server/src/db/MessageRepository.cpp:70-290 | over every run ids strictly increase in storage order; sender, target, group and time never change; flags are only set; reactions only grow by appending; a deleted message stays deleted, empty and frozen |
| `ServerDelivery.OnlyAuthorChanges` | src/server/src/MessageRouter.cpp:459-510 | in any step of the server, content changes only by a request of the message's author about that message |
| `ServerDelivery.DeletedForever` | src/server/src/db/MessageRepository.cpp:183-232 | over every run, once a message is deleted it stays so and empty, and every later request to edit, delete or react to it is refused and changes no row |
| `Router.FittingExact` | src/server/src/FrameCodec.cpp:9-11 | of a sequence of deliveries exactly those before the first payload above the frame limit are queued |
| `Router.SentTwice` | src/server/src/AsyncSession.cpp:29-36 | sending two sequences one after the other is sending both, unless the first stops the server |
| `ServerDelivery.StepGiven` | src/server/src/MessageRouter.cpp:198-557 | after each step exactly the private messages it loses are not queued for their recipients as their rows say |
| `ServerDelivery.SendPrivateGiven` | src/server/src/MessageRouter.cpp:304-311 | a private message is queued as its row says unless it is stored as delivered and its payload does not fit |
| `ServerDelivery.BatchRowGiven` | src/server/src/MessageRouter.cpp:800-809 | after an offline batch a row is queued as it says if and only if it was not in the batch or the batch fits |
| `ServerDelivery.LossStops` | src/server/src/TcpServer.cpp:41-49 | whatever is lost, the server stops |
| `ServerDelivery.LossIsExact` | src/server/src/MessageRouter.cpp:290-312 | over every run of a server started on any database, whatever the next step, a private message has been queued for its recipient exactly as its row says if and only if that step does not lose it |
| `ServerDelivery.LostForGood` | src/server/src/MessageRouter.cpp:290-312 | a message lost with an oversized batch or as an oversized live message says delivered and did not before, was queued for nobody, and is queued for nobody in any run of a server restarted on the database left behind |
| `ServerDelivery.OneMessageLost` | src/server/src/MessageRouter.cpp:800-809 | a single pending message whose batch does not fit is lost at its recipient's first login |
| `ServerDelivery.NeverGivenAgain` | src/server/src/db/MessageRepository.cpp:107-123 | a message stored as delivered when the server starts is not queued for its recipient in that run |
| `ServerDelivery.DeliveredExactlyOnce` | src/server/src/MessageRouter.cpp:290-312 | over every run of a server started on any database, as long as it is up, a private message between distinct users has been queued for its recipient exactly once, live or in one offline batch, if its row says delivered, and never otherwise |
| `EndToEnd.QueuedIsEmitted` | src/server/src/AsyncSession.cpp:29-96 | over every run of the server and of a session's connection, until the first write error the client has emitted a prefix of the payloads queued on the session, in order, and all of them once it has read every octet |
| `EndToEnd.DeliveredReachesClient` | src/client/src-tauri/src/tcp_manager.rs:37-74 | a private message delivered in this run is in exactly one queued delivery to its recipient, and the client at that session, once it has read everything without a write error, has emitted that delivery in its place |
| `EndToEnd.RunFits` | src/server/src/FrameCodec.cpp:9-11 | everything ever queued fits a frame, so the encoder accepts it |
| `ServerDelivery.OfflineGiven` | src/server/src/db/MessageRepository.cpp:107-123 | an offline batch that fits queues each of its messages once and leaves the trimmed ones pending; one that does not fit is marked and queued for nobody |
| `Channels.NextGroupId` | src/server/src/db/ChannelRepository.cpp:143-149 | a new group id is above 2000 and above every group id |
| `Channels.CreateSound` | src/server/src/db/ChannelRepository.cpp:36-50 | creating a group keeps group ids unique and memberships duplicate-free and naming existing groups |
| `Channels.JoinSound` | src/server/src/db/ChannelRepository.cpp:97-114 | so does joining |
| `Channels.LeaveSound` | src/server/src/db/ChannelRepository.cpp:116-126 | so does leaving, which ends exactly one membership |
| `Channels.MembersAndGroupsAreInverse` | src/server/src/db/ChannelRepository.cpp:69-95 | a user is listed in a group if and only if the group is listed for the user, and neither list repeats an entry |
| `ChannelStore.ChannelRepository.FreshGroupId` | src/server/src/db/ChannelRepository.cpp:143-149 | the maximum loop computes the specified id |
| `ChannelStore.ChannelRepository.NewGroup` | src/server/src/db/ChannelRepository.cpp:36-50 | adds the group and its host as a member |
| `ChannelStore.ChannelRepository.JoinGroup` | src/server/src/db/ChannelRepository.cpp:97-114 | fails for a missing group, adds nothing for a member, otherwise appends |
| `ChannelStore.ChannelRepository.LeaveGroup` | src/server/src/db/ChannelRepository.cpp:116-126 | drops the membership and reports whether there was one |
| `ChannelStore.ChannelRepository.ListMembers` | src/server/src/db/ChannelRepository.cpp:86-95 | the members in joining order |
| `ChannelStore.ChannelRepository.ListGroups` | src/server/src/db/ChannelRepository.cpp:69-84 | the groups of a user in joining order |
| `ServerDelivery.FanOutOnce` | src/server/src/MessageRouter.cpp:330-335 | a fan-out over a duplicate-free list reaches each recorded session once and no other |
| `ServerDelivery.GroupMessageReachesMembersOnce` | src/server/src/MessageRouter.cpp:314-336 | in every reachable state an accepted group message that fits is queued once on the session of each member who has one and nowhere else; one that does not fit is queued nowhere, and stops the server if and only if some member is online |
| `MessageRouter.ChatServer.Deliver` | src/server/src/AsyncSession.cpp:29-36 | queues the payload if it fits; if not, queues nothing and the server stops |
| `MessageRouter.ChatServer.DeliverToUsers` | src/server/src/MessageRouter.cpp:330-335 | the fan-out loop queues in order and ends at the first payload that does not fit |
| `MessageRouter.ChatServer.DeliverToConversation` | src/server/src/MessageRouter.cpp:171-196 | group members, or sender and other end, each at their session, as far as the payload fits |
| `MessageRouter.ChatServer.AcceptSession` | src/server/src/TcpServer.cpp:56-74 | refines the connect step |
| `MessageRouter.ChatServer.RemoveSession` | src/server/src/TcpServer.cpp:81-91 | refines the disconnect step with its broadcast; also what the heartbeat sweep does per session |
| `MessageRouter.ChatServer.BroadcastOffline` | src/server/src/TcpServer.cpp:132-141 | every pooled session is told once, in the order the pool lists them, that the user has gone |
| `MessageRouter.ChatServer.MarkOffline` | src/server/src/TcpServer.cpp:129-131 | takes the user out of presence and marks the row offline |
| `MessageRouter.ChatServer.HandleRegister` | src/server/src/MessageRouter.cpp:198-225 | refines the register step |
| `MessageRouter.ChatServer.ListEverybody` | src/server/src/MessageRouter.cpp:249-252 | every user with the status presence reports |
| `MessageRouter.ChatServer.ListThese` | src/server/src/MessageRouter.cpp:254-257 | the registered users among these ids with the status presence reports |
| `MessageRouter.ChatServer.AnswerLogin` | src/server/src/MessageRouter.cpp:259-272 | the reply with friends, users and groups, if it fits |
| `MessageRouter.ChatServer.HandleLogin` | src/server/src/MessageRouter.cpp:227-275 | refines the login step in the order of the source: bind, reply, mark and send the batch, tell friends, ending where a payload does not fit |
| `MessageRouter.ChatServer.BroadcastPresence` | src/server/src/MessageRouter.cpp:811-827 | the friends who are online are told |
| `MessageRouter.ChatServer.DeliverOffline` | src/server/src/MessageRouter.cpp:800-809 | marks the batch as delivered, then queues it if it fits |
| `MessageRouter.ChatServer.HandleLogout` | src/server/src/MessageRouter.cpp:277-288 | refines the logout step |
| `MessageRouter.ChatServer.HandleProfileUpdate` | src/server/src/MessageRouter.cpp:781-798 | refines the profile step |
| `MessageRouter.ChatServer.HandlePrivateMessage` | src/server/src/MessageRouter.cpp:290-312 | refines the private message step: store, live delivery, echo, ending where the payload does not fit |
| `MessageRouter.ChatServer.HandleGroupMessage` | src/server/src/MessageRouter.cpp:314-336 | refines the group message step |
| `MessageRouter.ChatServer.HandleCreateGroup` | src/server/src/MessageRouter.cpp:338-353 | refines the create step |
| `MessageRouter.ChatServer.HandleJoinGroup` | src/server/src/MessageRouter.cpp:371-396 | refines the join step |
| `MessageRouter.ChatServer.HandleLeaveGroup` | src/server/src/MessageRouter.cpp:398-405 | refines the leave step |
| `MessageRouter.ChatServer.HandleHistory` | src/server/src/MessageRouter.cpp:407-431 | refines the history step, including the silent read mark |
| `MessageRouter.ChatServer.HandleMessageEdit` | src/server/src/MessageRouter.cpp:459-484 | refines the edit step |
| `MessageRouter.ChatServer.HandleMessageDelete` | src/server/src/MessageRouter.cpp:486-510 | refines the delete step |
| `MessageRouter.ChatServer.HandleMessageReaction` | src/server/src/MessageRouter.cpp:512-537 | refines the reaction step |
| `MessageRouter.ChatServer.HandleReadReceipt` | src/server/src/MessageRouter.cpp:539-557 | refines the read-receipt step |
| `History.MergeById` | src/client/src/stores/messageStore.ts:489-493 | the map-filling loops and the sort compute the merge |
| `History.MergeYieldsLatest` | src/client/src/stores/messageStore.ts:484-508 | the merge is in time order, repeats no id, and holds exactly the last version of every message of the old list followed by the response |
| `History.MergeUnitesIds` | src/client/src/stores/messageStore.ts:484-508 | its ids are the union of old and new |
| `History.MergeIsIdempotent` | src/client/src/stores/messageStore.ts:484-508 | applying the same response again changes nothing |
| `Replica.BroadcastUpdates` | src/client/src/stores/messageStore.ts:519-577 | a broadcast addressed to the conversation changes the looks of the held message as it announces |
| `Replica.HarmlessKeeps` | src/client/src/stores/messageStore.ts:484-577 | any other payload leaves the held message in agreement with the row |
| `Replica.NamingReaches` | src/server/src/MessageRouter.cpp:171-196 | a request naming a message's own conversation reaches every participant online, while the server is up |
| `Replica.ToldExactly` | src/server/src/MessageRouter.cpp:171-196 | a user's session is among those a broadcast goes to if and only if the request names a group of the user, or is the user's own, or names the user |
| `Replica.ChangeShownExactly` | src/client/src/stores/messageStore.ts:519-577 | after an accepted edit, deletion, reaction or read receipt an online user who holds the message agrees with its row if and only if the announcement fits, goes to the user, names the conversation the message is in and says what was stored, or else the request repeats what the row said |
| `Replica.EditNamesAnother` | src/server/src/MessageRouter.cpp:459-484 | an edit of a message from 1 to 2 that names user 3 leaves user 2, online, with the old content |
| `Replica.WellAddressedKeeps` | src/server/src/MessageRouter.cpp:459-557 | a change request that names the message's conversation keeps every participant's client in agreement while the server is up |
| `Replica.FollowsStep` | src/server/src/MessageRouter.cpp:171-557 | after any step and its deliveries a client that agreed with a row still does if and only if the step keeps it so: an exact condition on the request alone |
| `Replica.ReplicaFollows` | src/client/src/stores/messageStore.ts:102-577 | however edits, deletions, reactions and read receipts interleave with everything else, a user who stays online and holds a message ends with the content, edited, deleted, read and reaction values of the server's row, if each step keeps them so |
| `Replica.ReactionsAgreeExactly` | src/client/src/stores/messageStore.ts:549-563 | a client that shows the stored reactions still does after one is announced if and only if it has no comma and was not swallowed |
| `Replica.SilentReadDiverges` | src/server/src/MessageRouter.cpp:407-431 | after a history request that marks a message as read, a client that holds it agrees with the row if and only if it was read already, or the client asked and the response fits and carries the message |
| `Replica.SenderNotTold` | src/server/src/MessageRouter.cpp:414-417 | after the recipient marks a message as read with a history request its sender goes on showing it as unread |
| `OfflineQueue.DequeueTakesHead` | src/client/src/lib/offlineQueue.ts:62-66 | dequeuing the head by its id removes it alone if and only if no later message shares the id |
| `OfflineQueue.SentTakesHead` | src/client/src/stores/messageStore.ts:384-388 | a successful send moves exactly the head from the queue to what was sent |
| `OfflineQueue.FailureKeepsHead` | src/client/src/stores/messageStore.ts:389-395 | a failed send keeps its message at the head, changes only its attempt count, and ends the flush |
| `OfflineQueue.FlushConserves` | src/client/src/stores/messageStore.ts:375-397 | with arrivals at any await, sent followed by stored is always the initial queue followed by the arrivals, in order |
| `OfflineQueue.SharedIdLosesMessage` | src/client/src/lib/offlineQueue.ts:62-66 | two queued messages with one id: sending the first drops both |
| `OfflineQueue.OverlapSendsTwice` | src/client/src/stores/messageStore.ts:375-397 | a flush begun while another is under way sends the head of the queue a second time |
| `OfflineQueue.BeginConservesExactly` | src/client/src/stores/messageStore.ts:375-379 | a flush may begin, without loss or repetition in any continuation, if and only if no other is under way |
| `OfflineStore.FlushIsRun` | src/client/src/stores/messageStore.ts:375-397 | the flush loop is a run of those steps |
| `OfflineStore.RemoveById` | src/client/src/lib/offlineQueue.ts:62-66 | the filter computes the specified queue |
| `OfflineStore.RecordAttempt` | src/client/src/stores/messageStore.ts:390-391 | counts the attempt on the messages with that id only |
| `OfflineStore.QueueStore.EnqueueMessage` | src/client/src/lib/offlineQueue.ts:56-60 | appends to the stored queue |
| `OfflineStore.QueueStore.FlushOfflineQueue` | src/client/src/stores/messageStore.ts:375-397 | the loop over the snapshot, with arrivals at each await, does what the steps do |
| `Messages.NextIdIsLeast` | src/server/src/db/MessageRepository.cpp:284-290 | a new id is 1 or one above a stored one |
| `Users.NextIdIsLeast` | src/server/src/db/UserRepository.cpp:58-64 | a new id is 1000 or one above one in the table |
| `Channels.NextGroupIdIsLeast` | src/server/src/db/ChannelRepository.cpp:143-149 | a new group id is 2001 or one above one of a group |
| `Messages.ReactionNamesUser` | src/server/src/db/MessageRepository.cpp:219-221 | the entry of a reaction is the decimal number of the user, a colon and the reaction |
| `JsonGrammar.ReadsEveryText` | legacy/original-server/cJSON.c:441-688 | every text of the JSON grammar, written as a syntax tree, is read as what the tree means, whatever may follow it; the grammar has its own digits, escapes and UTF-8 |
| `JsonGrammar.EntryReadsEveryText` | legacy/original-server/cJSON.c:413-438 | the same for a text with blanks before it |
| `JsonGrammar.NumberRead` | legacy/original-server/cJSON.c:119-166 | every number of the grammar is read as sign, digits, fraction and power say, as an integer if there is neither fraction nor power |
| `JsonGrammar.CharsRead` | legacy/original-server/cJSON.c:219-322 | a sequence of plain and escaped characters is read as the octets each of them stands for |
| `JsonGrammar.UnicodeEscapeMeans` | legacy/original-server/cJSON.c:262-312 | a quoted escape of four hexadecimal digits, in either case, for a code point that is neither 0 nor a surrogate is read as the octets that decode to the number the digits spell |
| `JsonGrammar.DroppedEscape` | legacy/original-server/cJSON.c:267-285 | an escape of 0, of a low half or of a high half without an escape behind it reads as nothing |
| `JsonGrammar.Utf8Decodes` | legacy/original-server/cJSON.c:289-307 | the octets assembled for a code point below 0x200000 decode to it |
| `JsonGrammar.Utf8Unique` | legacy/original-server/cJSON.c:289-307 | and whatever decodes to a code point is what is assembled for it |
| `JsonPrinted.PrintedIsText` | legacy/original-server/cJSON.c:184-786 | whatever is printed, in either layout, is a text of the grammar whose meaning is the canonical tree |
| `Frames.HeaderIsBigEndian` | src/server/src/FrameCodec.cpp:13-18 | four octets are the header of a length if and only if, as digits to base 256 with the highest first, they spell it modulo 2^32 |
| `RateLimit.RefusedOnlyWhenBusy` | src/server/src/AsyncSession.cpp:118-126 | an arrival is refused only if at least twenty others came in the second that ends with it |
| `Friends.RequestIsStored` | src/server/src/db/FriendRepository.cpp:29-96 | a request between different positive ids without a row succeeds and stores a pending row with its message |
| `Friends.AnswerIsStored` | src/server/src/db/FriendRepository.cpp:98-104 | an acceptance or rejection succeeds if and only if a pending row of that direction is there, and then says so |
| `Friends.AnswerChanges` | src/server/src/db/FriendRepository.cpp:176-189 | the rows after an answer are the others, and those pending ones of that direction with the new status and time |
| `Friends.RequestSucceedsExactly` | src/server/src/db/FriendRepository.cpp:29-96 | a request between different positive ids succeeds if and only if the query finds no row, or a pending one of its own direction, or a rejected one of the other direction while its own has none |
| `Friends.RemovalIsTotal` | src/server/src/db/FriendRepository.cpp:106-119 | a removal leaves no row of the pair, in either direction, and every other row |
| `Friends.FriendsExactly` | src/server/src/db/FriendRepository.cpp:121-134 | over every run two users are friends if and only if a request of one of them succeeded, an acceptance of it succeeded later, and the pair was not removed since the request |
| `Tables.WhereExact` | src/server/src/db/Database.cpp:162-174 | a selection is the rows that pass, in their order |
| `Tables.FilteredExact` | src/server/src/db/Database.cpp:195-204 | what a removal leaves is the rows that fail, in their order |
| `Tables.EditedExact` | src/server/src/db/Database.cpp:183-193 | an edit changes the rows that pass, each in its place, and no others |
| `Tables.DecodeExact` | src/server/src/db/Database.cpp:206-230 | loading yields, in order, the row of every text that is not empty and holds one |
| `Tables.AnswersAfter` | src/server/src/db/Database.cpp:176-204 | after an insert a coherent table answers with the row behind the others, after an update with the passing rows changed in place, after a removal with the failing ones |
| `ServerEffects.ConnectEffect` | src/server/src/SessionPool.cpp:8-14 | a connecting session is in the pool afterwards if and only if the pool held fewer sessions than its capacity, and no other session enters or leaves |
| `ServerEffects.CapacityAlways` | src/server/src/SessionPool.cpp:8-14 | over every run from a pool within its capacity, as after a start, it stays within it |
| `ServerEffects.DisconnectEffect` | src/server/src/SessionPool.cpp:16-22 | a session that goes leaves the pool and takes along the index entry of the user it carries; everybody else keeps theirs |
| `ServerEffects.LoginEffectOnPool` | src/server/src/SessionPool.cpp:24-35 | after an accepted login on a pooled session the user is found there, the session's former user nowhere, and everybody else where they were |
| `ServerEffects.RefusedLogin` | src/server/src/MessageRouter.cpp:227-275 | a refused login changes nothing but the log |
| `ServerEffects.ConnectThenLogin` | src/server/src/TcpServer.cpp:56-74 | after a connection below capacity, an accepted login there makes the user found at that session |
| `ServerEffects.LogoutEffect` | src/server/src/MessageRouter.cpp:277-288 | after a logout the user is found nowhere and is absent, the session found before carries nobody, and nobody else is touched |
| `ServerEffects.RegisterEffect` | src/server/src/MessageRouter.cpp:198-225 | a registration with a free nickname and a password appends one offline user with the request's fields under a new id; any other changes no user |
| `ServerEffects.ProfileEffect` | src/server/src/MessageRouter.cpp:781-798 | an accepted profile update gives the user the request's nickname and avatar and leaves everybody else alone |
| `ServerEffects.StoredFlags` | src/server/src/db/UserRepository.cpp:120-129 | an accepted login stores the user as online and seen now, a logout or disconnection as offline, and nobody else's row changes |
| `ServerEffects.LoginReplied` | src/server/src/MessageRouter.cpp:249-272 | an accepted login that leaves the server up is answered first of all, at its session, with the user's nickname and avatar, every stored user in order with the status presence has, and only friends and groups that are stored |
| `ServerEffects.JoinEffect` | src/server/src/db/ChannelRepository.cpp:97-114 | joining an existing group makes the user a member of it, and nobody else of anything |
| `ServerEffects.CreateEffect` | src/server/src/db/ChannelRepository.cpp:36-50 | creating adds a group with the request's name, the requester as host and member and an id above 2000 that no group has; nobody else joins anything, and without a name or a user nothing is added |
| `ServerEffects.LeaveEffect` | src/server/src/db/ChannelRepository.cpp:116-126 | leaving ends that membership and no other |
| `ServerEffects.SendPrivateEffect` | src/server/src/MessageRouter.cpp:290-312 | an accepted private message adds one row with the session's user and the request's recipient, text, type ("text" if empty) and time; that row, and nothing else, is queued at the recipient, if online, and at the sender |
| `ServerEffects.SendGroupEffect` | src/server/src/MessageRouter.cpp:314-336 | an accepted group message adds one such row, and everything queued carries it to members of the group |
| `ServerEffects.RefusedSend` | src/server/src/MessageRouter.cpp:290-336 | a refused message is not stored |
| `ServerEffects.RowEffect` | src/server/src/db/MessageRepository.cpp:183-244 | each step makes of each row, reactions and the delivered flag apart, exactly what the request says |
| `ServerEffects.RowsFollowRequests` | src/server/src/db/MessageRepository.cpp:183-244 | over every run a row is its first version, or what the last accepted edit, deletion and read mark have made of it |
| `ServerEffects.RowOrigin` | src/server/src/db/MessageRepository.cpp:70-105 | every row a run has added came from an accepted request of the run, with its sender, text and time, followed through the later requests |
| `ServerEffects.QueuedTexts` | src/server/src/MessageRouter.cpp:290-336 | whatever a step queues as a live message is the row it adds, and whatever it queues in an offline batch are stored rows that wait for the user who logs in |
| `ServerEffects.AcceptedExactly` | src/server/src/db/MessageRepository.cpp:183-244 | a change request is accepted if and only if some row may be changed by it: the author's own undeleted row for edits and deletions, an undeleted one for reactions, any for read marks |
| `ServerEffects.ChangeAnswered` | src/server/src/MessageRouter.cpp:459-557 | everything a change request queues repeats its fields, the requester's id and whether it was accepted; a refusal goes to the requester's session alone |
| `ServerEffects.LoginGivesWaiting` | src/server/src/db/MessageRepository.cpp:107-123 | an accepted login that leaves the server up queues a batch at its session with every message that waits for the user, or as many as the limit says and none older than one left out |
| `ServerEffects.HistoryExact` | src/server/src/db/MessageRepository.cpp:125-181 | a history holds exactly the messages of the conversation the request names, those of both directions |
| `ServerEffects.HistoryAnswered` | src/server/src/MessageRouter.cpp:407-431 | a history request is answered with those messages in time order, all of them or as many as the limit says and none older than one left out |
| `ServerEffects.FriendsAreTold` | src/server/src/MessageRouter.cpp:811-827 | after a login that leaves the server up every listed friend who is online is told, with the nickname stored, that the user came |
| `ServerEffects.FriendsAreToldOff` | src/server/src/MessageRouter.cpp:277-288 | after a logout they are told that the user went |
| `ServerEffects.EverybodyIsTold` | src/server/src/TcpServer.cpp:132-141 | when a session that carries a user goes, every other session is told, with the nickname stored |
| `ClientEffects.DirectNews` | src/client/src/stores/messageStore.ts:106-117 | an edit, deletion, reaction or receipt about a direct message changes that message, field by field, in the list kept of the other user, and no other list |
| `ClientEffects.GroupNews` | src/client/src/stores/messageStore.ts:519-577 | about a group message, in the list of that group, and no other list |
| `ClientEffects.OtherwiseUntouched` | src/client/src/stores/messageStore.ts:519-577 | refused requests and empty histories change no list |
| `ClientEffects.DirectHistory` | src/client/src/stores/messageStore.ts:484-508 | a history of the direct messages of two users goes to the list either keeps of the other one: it then holds the last version of every message once, in time order, and no other list changes |
| `ClientEffects.GroupHistory` | src/client/src/stores/messageStore.ts:484-508 | a history of a group goes to the list of that group, and no other list changes |
| `ClientEffects.AgreesInPlace` | src/client/src/stores/messageStore.ts:58-87 | for whoever takes part, to agree with a row is to show its text, flags and reactions in the list of the other user or of the group |
| `ClientEffects.DisplayFollows` | src/client/src/stores/messageStore.ts:102-577 | through every run of requests that name the message's own conversation, a participant who stays online shows the message, in the list of the other user or of the group, as the server finally stores it |

## Left out

- Sockets, Asio, Tokio, Tauri and Qt: they appear only as environment steps (chunks, partial writes, errors, clock readings).
- SQLite: a table is a sequence of serialized rows, or for friendships a set of rows with its unique key; statements on existing tables succeed.
- The vendored JSON library and `ProtocolJson.h`: requests are already-parsed records and row serialization is assumed to round-trip.
- Repositories over the row cache: `MessageRepository`, `UserRepository` and `ChannelRepository` hold their typed rows directly; that the cache answers as such a list is `Tables.ReopenAnswersAlike`.
- Floating point in `cJSON.c`: a number with a fraction or an exponent is kept exactly as mantissa and power of ten, and `print_double` is not modelled; integers are exact and printing covers 64 bits; the `int` counters for lengths and exponents are unbounded.
- JsonReader.StringAt: a literal with fewer than four hexadecimal digits behind `\u`, or ending in a backslash, fails here, where the C code reads on past the escape or the terminator.
- JsonReader.UnicodeAt: fewer than four hexadecimal digits fail here, where the C code goes on with whatever was in its variable.
- JsonTree.DecodeUnicode: the same malformed escapes fail here.
- JsonReader.NumberAt: a number with a fraction or an exponent is kept exactly, where the C code rounds it to a double.
- Allocation failure, NULL names and strings, and the error pointer of the JSON parser.
- The parser and printer build and walk lists as values; the pointer links are proved in `ChildList` alone, where the loose-item preconditions say that a node is in one list at a time.
- Access to JSON object members by name, references, and the wrappers of `CJsonObject.cpp`: easy members over the same lists.
- Session user ids: kept in one map of the pool rather than in session objects.
- Requests that touch neither messages, pool, presence, users nor channels: typing, files, searches, greetings and AI summaries.
- Payload sizes: which payloads fit a frame is one predicate on payloads; the serializer that decides it is not part of this model.
- Friend requests in the router: the friendships table is modelled and proved about on its own, and the friends a login or logout tells are a parameter of the step.
- MessageRouter.ChatServer.HandleLogin: the password check and the ids the friends table lists are parameters.
- Replies to registering, creating and joining are texts chosen by the environment.
- Replica.ReplicaFollows: starts with a client that holds the message and neither logs in again nor leaves the group; `mergeIncomingMessage` and `normalizeTimestamp` are not part of this model, so handlers that add messages leave held ones alone here, and nickname and sending status are not shown.
- Message ids of the client are numbers from the server or local texts, never equal to each other; the source uses one string type.
- OfflineQueue.FlushConserves: queued messages have local ids not in use in the queue, and one flush is active at a time, exactly as OfflineQueue.DequeueTakesHead and OfflineQueue.BeginConservesExactly require; the stored queue's JSON round trip is assumed, and the message status shown during a flush is left out.
- Password hashing, secure storage, logging, localization, reconnection timers and user interface code.
