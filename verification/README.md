# CompuGuessr server: a verified model

CompuGuessr is a freestanding C and assembly FastCGI server. One event loop, an io_uring and a pool of client
slots serve requests; sessions and users live in memory-mapped files; small wide-word routines do the copying,
counting and printing. This project models the parts of it that carry state or arithmetic and proves what they
keep. `dafny verify dfyconfig.toml` checks everything.

How the modules follow the server:

- **Request side.** `NameValue`, `FastCgi`, `Records`, `RequestContents` say what the incremental record parser of
  `src/core/cg_fastcgi.c` does to a saved header, a request and the unread bytes, as functions on byte sequences:
  one call (`FastCgi.Parse`), the params loop (`NameValue.RoundAt`, `FastCgi.Params`), a list of reads (`FastCgi.Feed`).
  There the leftover of a read moves to the front unchanged; `Slides` puts the block copy in the place of that move.
  `Client` holds the source's imperative form: `ClientRequest` and `ClientContext` are the C structures with their
  buffers and positions, their loops are proved against those functions, the block copy included.
- **Reply side.** `Reply` has the transmit buffer, its two writers, and an independent record decoder.
- **Event loop.** `Engine` is one slot (submit an operation, handle its completion), `EventLoop` the loop, the listener,
  the pool and the kernel as steps of one machine, the kernel free to complete any operation at any time with any
  result an operation of that length may have. `LoopSafety`, `LoopSockets`, `LoopBytes` and `LoopRuns` prove what every
  run keeps; `SlotReuse` what one connection leaves for the next; `LoopWitnesses` that both the wanted and the unwanted states are reached.
  `CompletionQueue` and `SubmissionQueue` are the two shared rings with 32-bit counters (`RingIndex`).
- **Stores.** `HashMap` is the open-addressing table with tombstones, `SessionDb` the session pool indexed by it,
  `Users` the user pool, `Accounts` both together. The hash of a key is an arbitrary function.
- **Arithmetic and blocks.** `Division`, `Calendar`, `Decimal`, `WideMemory`.
- **Text.** `Form` (form values), `Json` (escaping), `JsonValue` (an independent JSON reader), `Leaderboard` (the ten best),
  `Replies` (two whole reply bodies, from the literals that `ReplyWords` takes apart).

`Bytes`, `Counting` and `Orbits` (loops that move a position about) are shared vocabulary. Machine words are bounded integers with their wrap-around written
out; a text buffer is compared as the C string in it.

## Where the code is not what one expects

The model follows the code. Where a plain claim is false of it, the exact condition is proved:

- To the parser, a cut between two reads is invisible unless it falls inside the payload of a record of type 0, because
  type 0 also means "no header saved" (`FastCgi.CutIndependentIff`). To the connection it can be visible in every long
  record, because the block copy that slides the leftover to the front re-reads bytes it has overwritten when a short
  slide meets a long tail (`WideMemory.SlideExactIff`): a body whose first read ends behind `n` bytes is stored as it
  was sent exactly under that guard, and at every buffer address some `n` breaks it (`Slides.BodyIntactIff`,
  `Slides.SomeReadSpoils`).
- A slot that is reused keeps the saved header of its last connection (`SlotReuse.FreshStartIff`,
  `LoopWitnesses.CanOpenStale`) and that request's URI and method until new ones arrive
  (`RequestContents.IndependentIff`).
- A four-byte length that is cut short is read as 0 and not skipped, and the sum of offset and lengths wraps at 32 bits,
  so the params loop can spin: exactly when it stands twice at the same offset (`NameValue.LoopExitsIff`,
  `NameValue.NoWrapExitsIff`).
- A body of 4096 bytes or more is stored with pieces left out (`RequestContents.BodyCompleteIff`).
- The writers swap the bytes of the identifier, the reader does not: a reply carries the bytes in the opposite order
  (`Reply.ReplyEchoesIdIff`). The comments at the two writers call the swap a fix; for unequal identifier bytes it is not.
- The content length is cut to 16 bits (`Reply.ReplyDecodesIff`), and the room check of the closing records counts 16 of
  their 24 bytes (`Reply.EndOverrunsIff`). No handler of this server answers from a buffer of more than 8192 bytes, so
  neither limit is met.
- A kept connection discards what was read behind the answered request, which goes unnoticed exactly when that was
  whole records that change nothing (`SlotReuse.KeptConnectionIff`).
- A listener whose last completion finds no free slot is never armed again (`LoopSockets.GoesDeafIff`,
  `LoopWitnesses.CanGoDeaf`).
- A probe ends only while the key is live or some slot was never used (`HashMap.ProbeEndsIff`); the guard on the live
  count is not that condition (`SessionDb.GuardIsNotEnough`).
- A session identifier that is drawn twice breaks the index (`SessionDb.CreateAgreesIff`).
- A session outlives its user, and the next registration can take over the user's number: a session stands for the
  user it was opened for exactly as long as that user is not deleted (`Accounts.SameAccountIff`,
  `Accounts.SessionIsInherited`).
- Names are compared whole but stored cut to 31 bytes (`Users.RegisterDistinctIff`).

## Model

| member | source | states |
|---|---|---|
| `FastCgi.CutIndependentIff` | src/core/cg_fastcgi.c:264-276 | stopping a parse after any bytes and resuming it on any continuation equals one parse of both, for every continuation, if and only if the stop did not lose the header of a type-0 record |
| `FastCgi.ParseCut` | src/core/cg_fastcgi.c:261-299 | parsing `a + b` is parsing `a` and going on exactly where it stopped, for every cut |
| `FastCgi.FragmentationIndependent` | src/core/cg_fastcgi.c:261-299 | whatever reads a typed stream is delivered in, feeding them one by one (parse, slide, read) ends in the state, request and leftover of one parse of the whole stream |
| `FastCgi.RestIsSuffix` | src/app/cg_app.c:353-358 | what a call leaves unread is the end of what it was given |
| `Slides.FragmentationAt` | src/app/cg_app.c:345-369 | with the block copy sliding each leftover, feeding a typed stream in any reads still ends as one parse of the whole, as long as the copy's guard holds for every slide on the way |
| `Slides.BodyIntactIff` | src/app/cg_app.c:353-358 | a body whose first read ends behind `n` of its bytes is stored as it was sent, whatever its bytes, if and only if the guard holds for a slide of `n` bytes by the length of a header |
| `Slides.SomeReadSpoils` | src/app/cg_app.c:353-358 | at every buffer address, a body and a first read for which the stored body is not the one sent |
| `FastCgi.NoStall` | src/core/cg_fastcgi.c:264-276 | when the parser wants more, the leftover is strictly smaller than the receive buffer, and it is waiting for a header or for exactly the announced payload |
| `Records.StreamParsed` | src/core/cg_fastcgi.c:261-299 | an encoded record list that ends with an empty STDIN makes the parser ready on that record, with the request of all records and exactly the bytes behind it unread |
| `Records.RequestSurvivesAnyCut` | src/core/cg_fastcgi.c:261-299 | the same, however the encoded stream is cut into reads, with nothing of what follows lost |
| `NameValue.LengthRoundTrip` | src/core/cg_fastcgi.c:97-115 | a length in either form of section 3.4 of the FastCGI Specification reads back as itself |
| `NameValue.PairRoundTrip` | src/core/cg_fastcgi.c:165-173 | one round at an encoded pair yields its name and value and ends behind it |
| `NameValue.LoopExitsIff` | src/core/cg_fastcgi.c:163-173 | the params loop, with its 32-bit sums, leaves after finitely many rounds if and only if it leaves within as many as the record has bytes, and if and only if it never stands twice at the same offset |
| `NameValue.NoWrapExitsIff` | src/core/cg_fastcgi.c:100-107 | when no visited sum wraps, it leaves if and only if it never meets a truncated length marker |
| `NameValue.WrapCanLeave` | src/core/cg_fastcgi.c:167-173 | a record that the loop leaves in its second round, behind a wrapped sum |
| `NameValue.WrapCanSpin` | src/core/cg_fastcgi.c:167-173 | a record without a truncated marker on which a wrapped sum leads back to the start for ever |
| `NameValue.SumIs` | src/core/cg_fastcgi.c:167-167 | the 32-bit sum wraps at most once |
| `NameValue.WrappedIsLong` | src/core/cg_fastcgi.c:174-188 | behind a wrapped sum the name is far longer than the three that are compared |
| `RequestContents.PairsRoundTrip` | src/core/cg_fastcgi.c:163-173 | over an encoded list of whole pairs in a record the loop visits exactly those pairs, in order, and leaves |
| `RequestContents.LastWins` | src/core/cg_fastcgi.c:174-205 | folding the visited pairs into a request leaves the last URI, the last method and the last cookie's session, and changes nothing else |
| `RequestContents.FieldsAreCut` | src/core/cg_fastcgi.c:174-187 | after the records that carry any encoded pair list, the URI is the longest beginning of the last REQUEST_URI with at most 127 bytes and no `?` or NUL, and the method that of the last REQUEST_METHOD with at most 15 bytes and no NUL |
| `RequestContents.UriIsPath` | src/core/cg_fastcgi.c:174-183 | a path of less than 127 bytes is stored without the query behind it; a value without query is stored up to 127 bytes |
| `RequestContents.BodyCompleteIff` | src/core/cg_fastcgi.c:229-240 | the body buffer holds the concatenation of the STDIN pieces if and only if it is shorter than the buffer |
| `RequestContents.RequestContentsAre` | src/core/cg_fastcgi.c:133-240 | a BEGIN record and the records behind it leave the last URI, method and session, the raw identifier word, the keep flag and the accumulated body |
| `RequestContents.IndependentIff` | src/core/cg_fastcgi.c:133-142 | a request is independent of what the slot held before if and only if it names both its URI and its method |
| `Client.ClientRequest.HandleBegin` | src/core/cg_fastcgi.c:133-142 | the BEGIN handler on the request's buffers |
| `Client.ClientRequest.LengthAt` | src/core/cg_fastcgi.c:97-115 | the length reader on offsets equals the decoding of the unread bytes |
| `Client.ClientRequest.ReadPair` | src/core/cg_fastcgi.c:165-173 | one round of the loop on any record: break, pair, or wrapped sum |
| `Client.ClientRequest.HandleParams` | src/core/cg_fastcgi.c:160-207 | on every record that it leaves, the params loop computes the fold of the visited pairs |
| `Client.ClientRequest.StoreUri` | src/core/cg_fastcgi.c:175-183 | the copy, its terminator and the loop that looks for the `?` leave `FastCgi.UriOf` in the field |
| `Client.ClientRequest.StoreSession` | src/core/cg_fastcgi.c:189-204 | the stored session is the first `SESSION=` value up to `;`, cut at 31 bytes; without one the field stays |
| `Client.ClientRequest.HandleStdin` | src/core/cg_fastcgi.c:228-240 | the STDIN handler on the body buffer; ready exactly on empty content |
| `Client.ClientContext.ParseRecords` | src/core/cg_fastcgi.c:261-299 | the parser loop on buffer positions equals the function on byte sequences: verdict, saved header, request, unread bytes |
| `Client.ClientContext.SlideLeftover` | src/app/cg_app.c:353-358 | the unread bytes become what the block copy makes of them, at the front, and the rest of the slot stays |
| `Client.ClientContext.OpenSocket` | src/app/cg_app.c:238-240 | the slot of an accepted socket, with the saved header as it was |
| `Client.ClientContext.StateHandle` | src/app/cg_app.c:265-319 | the submitted operation and the slot's next state, for every state |
| `Client.ClientContext.CqeHandle` | src/app/cg_app.c:338-399 | the slot after a completion with any result, for every state: parse, slide by the block copy, reply, partial write, kept connection, close |
| `Client.Alloc` | src/core/cg_client.c:60-70 | the first slot not in use is claimed and no other changes; none only when all are in use |
| `Engine.CompleteAtExact` | src/app/cg_app.c:345-369 | a read completion with the block copy is the one with an exact move if and only if the copy moves this leftover unchanged, as it does under its guard |
| `Engine.CompleteKeepsRoom` | src/app/cg_app.c:338-399 | after any legal completion the next read has room in the buffer |
| `LoopRuns.OneOperationPerSlot` | src/app/cg_app.c:436-464 | in every state of every run a slot has exactly one operation pending if it is in a CQE phase and none otherwise, is free only then, the operation is the one its phase calls for, and the loop can go on |
| `LoopRuns.SocketsClosedOnce` | src/app/cg_app.c:219-248 | in every state of every run a socket was accepted as often as its close was requested plus once if it has an owner; it has at most one owner, and is open exactly while owned or closing |
| `LoopRuns.AllClosedAtRest` | src/app/cg_app.c:391-395 | once all slots are free and the queue is empty, every accept has been matched by exactly one close and nothing is in flight |
| `LoopRuns.RequestServed` | src/app/cg_app.c:345-369 | over any run, a connection that received a typed stream up to an empty STDIN is answering exactly that request, with what follows kept and a whole reply under its identifier |
| `LoopRuns.ReplyReceived` | src/app/cg_app.c:370-390 | over any run, when a write completion ends a reply, the bytes the kernel has taken, whatever the partial writes, decode to exactly the handler's answer, the end of output and the end of the request under the stored identifier |
| `LoopRuns.ServiceAsks` | src/app/cg_app.c:265-319 | in every state of every run, serving a slot asks the kernel to read into the room that is left, to write exactly the rest of the reply, or to close the socket, by its phase, and for nothing else |
| `LoopRuns.ReadLeadsTo` | src/app/cg_app.c:345-369 | in every state of every run, a failed read or the end of the file closes the connection; after any other read the slot answers if and only if one parse of everything received is ready, and reads on otherwise |
| `LoopRuns.WriteLeadsTo` | src/app/cg_app.c:370-390 | over any run, a failed write closes the connection; until the kernel has taken the whole reply the slot writes on; then it takes the next request if and only if the keep flag in the BEGIN record is set, and closes otherwise |
| `LoopRuns.CloseLeadsTo` | src/app/cg_app.c:391-395 | a completed close frees the slot |
| `LoopWitnesses.CanServe` | src/app/cg_app.c:436-464 | from every start with a slot, for every request that fits the buffer and every answer, a run that accepts, reads, writes the whole reply, and then waits or closes by the keep flag |
| `LoopRuns.OpenedCleanIff` | src/core/cg_fastcgi.c:62-76 | in every state of every run, a connection has its requests read as they are if and only if its slot held no saved header when it was opened |
| `LoopWitnesses.CanOpenStale` | src/core/cg_fastcgi.c:62-76 | from every start with a slot, a run that opens a connection with the header of the one before still saved |
| `LoopWitnesses.CanGoDeaf` | src/app/cg_app.c:233-243 | from every start, whatever the size of the pool, a run that ends without a listener |
| `LoopRuns.RunDeaf` | src/app/cg_app.c:233-243 | once no accept is in flight although the loop believes it listens, that is so in every later state |
| `LoopSafety.StepSafe` | src/app/cg_app.c:436-464 | every step keeps one operation per slot, fitting its phase |
| `LoopSockets.StepSockets` | src/app/cg_app.c:219-248 | every step keeps the balance of accepts, owners and closes of every socket |
| `LoopSockets.StepListener` | src/app/cg_app.c:186-244 | every step keeps the listener's bookkeeping: nothing of an accept follows its final completion |
| `LoopSockets.GoesDeafIff` | src/app/cg_app.c:233-243 | the loop loses its listener if and only if it handles the last completion of an accept while no slot is free |
| `LoopBytes.StepIntact` | src/app/cg_app.c:345-390 | every step keeps: a slot stands where one parse of all received bytes would stand, and the kernel has taken exactly the bytes before the write position |
| `LoopBytes.ReplySentWhole` | src/app/cg_app.c:370-390 | when a write completion ends a reply, after any partial writes the kernel has taken every byte of it, in order and once |
| `SlotReuse.FreshStartIff` | src/core/cg_fastcgi.c:62-76 | a new connection has every request stream read as it is if and only if the slot's last connection left no header saved |
| `SlotReuse.KeptConnectionIff` | src/app/cg_app.c:380-386 | on a kept connection, starting over with an empty buffer goes on like keeping what had been read behind the answered request, whatever comes next, if and only if that was whole records that change nothing |
| `SlotReuse.KeptConnectionServes` | src/app/cg_app.c:380-386 | on a kept connection a request sent after the reply is read as it is; one that had already been read whole is not served |
| `Reply.TxBuffer.Stdout` | src/core/cg_fastcgi.c:318-336 | a STDOUT record is appended, or nothing when it does not fit |
| `Reply.TxBuffer.End` | src/core/cg_fastcgi.c:353-376 | the two closing records are appended |
| `Reply.TxBuffer.RouteReply` | src/services/cg_router.c:881-900 | the buffer holds exactly the reply to one request |
| `Reply.EndOverrunsIff` | src/core/cg_fastcgi.c:356-358 | the room check of the closing records admits what does not fit if and only if 16 to 23 bytes are left; behind a handler's answer there is always room |
| `Reply.DecodeEncode` | src/core/cg_fastcgi.c:318-376 | an independent decoder gives back every encoded record list |
| `Reply.ReplyDecodesIff` | src/core/cg_fastcgi.c:318-376 | the reply decodes to STDOUT with the response, empty STDOUT and END_REQUEST with eight zero bytes, one identifier throughout, if and only if the response is below 65536 bytes |
| `Reply.ReplyEchoesIdIff` | src/core/cg_fastcgi.c:138-138 | the reply carries the request's identifier if and only if its two bytes are equal |
| `CompletionQueue.EachHandledOnce` | src/app/cg_app.c:442-463 | over every interleaving of kernel and main loop, from any counter value, the entries handled are the first ones published, in order and each once; the rest is still in the ring |
| `CompletionQueue.HeldIsIntact` | src/app/cg_app.c:446-461 | the entry behind a peeked pointer is still the one that was published, whatever the kernel added since |
| `CompletionQueue.PublishAppends` | src/core/cg_uring.c:180-186 | with room, an entry stored at the wrapped and masked tail is appended to the queue and disturbs none before it |
| `CompletionQueue.OldestOverwrittenIff` | src/core/cg_uring.c:180-186 | the kernel would write over the oldest entry if and only if the ring is full |
| `CompletionQueue.DiscardReleases` | src/core/cg_uring.c:248-253 | advancing the head removes just the oldest entry, across wrap-around |
| `CompletionQueue.SharedRing.CqPeek` | src/core/cg_uring.c:176-187 | nothing exactly when the counters are equal, else the slot of the oldest entry |
| `CompletionQueue.SharedRing.CqDiscard` | src/core/cg_uring.c:248-253 | only the head moves, in 32-bit arithmetic |
| `CompletionQueue.SharedRing.HandleOne` | src/app/cg_app.c:446-463 | one round of the draining loop handles the next published entry and leaves the pointer to the one after it |
| `SubmissionQueue.EachTakenOnce` | src/core/cg_uring.c:114-158 | over every interleaving the kernel takes the entries as they were filled in, in order and each once |
| `SubmissionQueue.HandedOutZeroed` | src/core/cg_uring.c:117-121 | an entry is handed out zeroed and stays so until it is filled in |
| `SubmissionQueue.SharedRing.Get` | src/core/cg_uring.c:114-122 | the entry at the masked counter is zeroed and handed out |
| `SubmissionQueue.SharedRing.Enqueue` | src/core/cg_uring.c:142-158 | the entry's index is stored at the masked tail and the tail moves |
| `RingIndex.AtIsRemainder` | src/core/cg_uring.c:117-117 | masking a wrapped counter is the remainder of the unwrapped one |
| `HashMap.MaskIsRemainder` | src/data/cg_hashmap.c:40-41 | the bit mask is the remainder modulo a power of two |
| `HashMap.LookupFindsLive` | src/data/cg_hashmap.c:33-49 | a lookup finds exactly the live keys, with their values |
| `HashMap.ProbeEndsIff` | src/data/cg_hashmap.c:42-47 | a probe ends if and only if the key is live or some slot has never been used |
| `HashMap.PutRefines` | src/data/cg_hashmap.c:92-115 | insertion or update sets the key in the finite map, also when it reuses a tombstone, and keeps the table's invariant |
| `HashMap.EraseRefines` | src/data/cg_hashmap.c:156-167 | deletion removes just the key from the finite map and keeps the invariant |
| `HashMap.NeverSpent` | src/data/cg_hashmap.c:108-114 | never-used slots drop by at most one per new key, never by an update or a deletion |
| `HashMap.TombstoneReused` | src/data/cg_hashmap.c:105-113 | a new key goes into the first slot on its way that is not live; it spends a never-used slot if and only if no tombstone comes first |
| `HashMap.LiveCounted` | src/data/cg_hashmap.c:111-114 | the live count follows insertions and deletions |
| `HashMap.LiveIsSize` | src/data/cg_hashmap.c:111-114 | the number of live slots is the size of the finite map |
| `HashMap.RunRefines` | src/data/cg_hashmap.c:33-167 | with fewer new keys than never-used slots, every operation of a run ends, the table behaves as the finite map throughout and `count` is its size |
| `HashMap.FreshRunRefines` | src/data/cg_hashmap.c:33-167 | on a fresh map: every run with fewer new-key inserts than its capacity, however many deletes |
| `HashMap.ProbeMap.Get` | src/data/cg_hashmap.c:33-49 | the probe loop with its masked successor returns the specified slot |
| `HashMap.ProbeMap.Insert` | src/data/cg_hashmap.c:92-115 | rows and count after an insertion or update in place |
| `HashMap.ProbeMap.Delete` | src/data/cg_hashmap.c:156-167 | rows and count after a deletion in place |
| `SessionDb.GetFindsActive` | src/data/cg_sessiondb.c:151-159 | a session is found if and only if it is the active entry with that identifier |
| `SessionDb.CreateFindsSlot` | src/data/cg_sessiondb.c:185-210 | a create succeeds if and only if the store is below its limit and the identifier is not zero; otherwise it reports 1 and changes nothing |
| `SessionDb.CreateAgreesIff` | src/data/cg_sessiondb.c:182-225 | a create keeps map and pool in bijection and all counts equal if and only if the identifier is not live already |
| `SessionDb.CreatedSession` | src/data/cg_sessiondb.c:212-221 | afterwards the new session is found with its user, both times and no flags, and every other one as before |
| `SessionDb.DeleteAgrees` | src/data/cg_sessiondb.c:241-250 | a delete keeps the agreement, removes just that session and touches no other entry |
| `SessionDb.FullStoreProbeEndsIff` | src/data/cg_sessiondb.c:185-187 | in a full store a lookup ends if and only if the identifier is live |
| `SessionDb.GuardIsNotEnough` | src/data/cg_sessiondb.c:185-187 | from a new file, for every hash, a run of as many fresh creates as there are rows, then deletes, that ends empty, in agreement and below the limit with no lookup ending; so one create more than in the next two rows is too many |
| `SessionDb.RunAgrees` | src/data/cg_sessiondb.c:151-250 | with fresh identifiers and fewer creates than never-used rows, every run of creates, deletes, lookups and restarts keeps the agreement, ends every probe and lets every create below the limit succeed; a restart takes the map's count from the header, which agrees |
| `SessionDb.NewStoreRunAgrees` | src/data/cg_sessiondb.c:66-82 | the same from a new file |
| `SessionDb.SessionStore.constructor` | src/data/cg_sessiondb.c:77-81 | binding the rows and restoring the count from the header |
| `SessionDb.SessionStore.EntryGet` | src/data/cg_sessiondb.c:151-159 | the pool index behind an identifier |
| `SessionDb.SessionStore.EntryCreate` | src/data/cg_sessiondb.c:182-225 | result code, returned entry and the whole new contents |
| `SessionDb.SessionStore.EntryDelete` | src/data/cg_sessiondb.c:241-250 | the whole new contents |
| `Division.MulShiftExact` | include/util/cg_util.h:83-114 | a multiplication and shift is the exact quotient under a bound on the rounding error |
| `Division.Div10` | include/util/cg_util.h:83-87 | exact for every 32-bit number |
| `Division.Div60` | include/util/cg_util.h:95-98 | exact for every 32-bit number |
| `Division.Div3600` | include/util/cg_util.h:100-103 | exact for every 32-bit number |
| `Division.Div86400` | include/util/cg_util.h:110-114 | exact for every 32-bit number, through the quotient by 3600 |
| `Division.Div10Wide` | src/arch/x86_64/cg_util.asm:341-345 | the high product word, shifted, is the exact quotient for every 64-bit number |
| `Calendar.CivilIsGregorian` | src/platform/cg_time.c:100-109 | for every day number the computed date is the one that counting days in the Gregorian calendar arrives at |
| `Calendar.CivilCounts` | src/platform/cg_time.c:100-109 | the computed date is valid and has that day number |
| `Calendar.CivilInverts` | src/platform/cg_time.c:100-109 | every valid date from 1970 on is computed back from its day number |
| `Calendar.DateTimeStrGet` | src/platform/cg_time.c:90-118 | for every 32-bit second count the digits at their places, read as decimal numbers, are the Gregorian year, month and day and the hour, minute and second; nothing behind the text changes |
| `Calendar.WriteDigits2` | include/util/cg_util.h:116-122 | the two bytes read as the number, and no other byte changes |
| `Calendar.WriteDigits4` | include/util/cg_util.h:124-141 | the four bytes read as the number, and no other byte changes |
| `Decimal.TextIsDecimal` | src/arch/x86_64/cg_util.asm:400-425 | the digits stand for the number, without leading zeros |
| `Decimal.Utoa` | src/arch/x86_64/cg_util.asm:400-425 | the exact decimal of every 64-bit number inside the 21-byte buffer, terminated, nothing else changed |
| `Decimal.Itoa` | src/arch/x86_64/cg_util.asm:332-367 | the same for every signed 64-bit number, the smallest included |
| `Decimal.SignedTextIs` | src/arch/x86_64/cg_util.asm:332-367 | the text is a minus sign for a negative number, then digits that stand for the magnitude |
| `Decimal.GetSessionId` | src/services/cg_router.c:172-181 | the 64-bit value of the leading digits of the session field |
| `Decimal.ReadStops` | src/services/cg_router.c:175-179 | what stands behind the digits is ignored |
| `Decimal.SessionIsCut` | src/core/cg_fastcgi.c:189-204 | the session field is the longest beginning of what stands behind the first `SESSION=` with at most 31 bytes and neither `;` nor NUL |
| `Decimal.NoSession` | src/core/cg_fastcgi.c:189-204 | a cookie without the token has none |
| `Decimal.SessionRoundTrip` | src/core/cg_fastcgi.c:188-204 | an identifier printed into a cookie behind its first `SESSION=` and ended by `;` or the end is read back as itself |
| `WideMemory.CopyAvx2` | src/arch/x86_64/cg_util.asm:79-125 | memory after the copy, for every alignment and length: byte prologue, aligned blocks, closing block |
| `WideMemory.CopyExactIff` | src/arch/x86_64/cg_util.asm:107-111 | the copy is the exact move on every memory if and only if it is short, has no tail, does not overlap, or slides by at least 32 minus the tail |
| `WideMemory.SlideExactIff` | src/app/cg_app.c:354-356 | a leftover is slid to the front unchanged, whatever its bytes, if and only if that guard holds |
| `WideMemory.FillAvx2` | src/arch/x86_64/cg_util.asm:134-175 | exactly the `n` bytes become the low byte of the value, for every alignment |
| `WideMemory.StrlenAvx2` | src/arch/x86_64/cg_util.asm:224-256 | the index of the first zero byte, for every start alignment |
| `WideMemory.MemcmpAvx2` | src/util/cg_util.c:41-68 | the block scan returns the bytewise comparison |
| `WideMemory.Compared` | src/util/cg_util.c:41-68 | zero if and only if both stretches are equal, and else the difference of the first two bytes that differ |
| `Form.DecodeEncode` | src/services/cg_router.c:135-147 | decoding undoes the serializer of section 5.2 of the WHATWG URL Standard on all bytes |
| `Form.DecodesAsStandard` | src/services/cg_router.c:135-147 | a value whose percent signs all have two hexadecimal digits behind them, of either case, or stand too near the end, is decoded as the standard decodes it |
| `Form.FormRoundTrip` | src/services/cg_router.c:119-156 | a plain key looked up in a serialized form gives the bytes of the first field with that name, and nothing if and only if there is none |
| `Form.DecodeValue` | src/services/cg_router.c:135-147 | never more bytes than were read |
| `Form.GetFormValue` | src/services/cg_router.c:119-156 | the nested loops compute that lookup into the output buffer, terminated |
| `Json.EscapeRoundTrip` | src/services/cg_router.c:59-79 | an escaped text between quotes reads back, by section 7 of RFC 8259, as the source without its control bytes other than 8, 9, 10, 12 and 13, and ends at its own quote |
| `JsonValue.TextReadsBack` | src/services/cg_router.c:59-79 | every JSON value, its strings escaped that way, reads back as the value without those control bytes |
| `Json.AppendJsonEscaped` | src/services/cg_router.c:59-79 | the escaping loop appends exactly the escaped text |
| `Json.AppendUint` | src/services/cg_router.c:94-101 | appends exactly the decimal |
| `Users.RunKeeps` | src/services/cg_router.c:802-818 | over every run of registrations, deletions, updates and completions: name at most 31, description at most 2047, at most 32 distinct hashes, identifiers are slot numbers, the count is the number of active users |
| `Users.UserAfter` | src/services/cg_router.c:802-818 | over any run that does not delete the user: points are the old ones plus all that this user's solved challenges are worth, modulo 2^32; recorded hashes are the old ones and this user's in order of first solving, up to 32; the description is the last one set, up to 2047 bytes; name and password stay, whatever other users do |
| `Users.FirstTimesAre` | src/services/cg_router.c:807-815 | the recorded hashes are exactly the old and the solved ones, none twice |
| `Users.Registered` | src/data/cg_userdb.c:155-178 | a registration fails if and only if the name is taken or no slot is free, and then changes nothing; else a free slot holds the new user with its password and nothing else, and a name that fits is found there |
| `Users.Removed` | src/data/cg_userdb.c:198-210 | a deletion succeeds if and only if the number is that of an active user; it frees that slot and touches no other user |
| `Users.FindIdIsSlot` | src/data/cg_userdb.c:118-127 | a user is found by identifier exactly in the slot with that number |
| `Users.RegisterDistinctIff` | src/data/cg_userdb.c:152-164 | active names stay distinct if and only if the stored form of a new name is not active already |
| `Users.UserDb.Find` | src/data/cg_userdb.c:91-100 | the scan returns the first active entry with the name |
| `Users.UserDb.FindById` | src/data/cg_userdb.c:118-127 | the scan returns the first active entry with the identifier |
| `Users.UserDb.Create` | src/data/cg_userdb.c:152-179 | result code and whole pool after a registration |
| `Users.UserDb.Delete` | src/data/cg_userdb.c:198-210 | result code and whole pool after a deletion |
| `Users.UserDb.RecordCompletion` | src/services/cg_router.c:802-818 | the search and the update in place are the step of which `Users.UserAfter` speaks; no other user changes |
| `Accounts.SameAccountIff` | src/services/cg_router.c:451-459 | over every run of registrations, logins, guests, deletions and updates, a session stands for the registration it stood for if and only if no request deleted that user |
| `Accounts.SessionIsInherited` | src/data/cg_userdb.c:158-160 | when a user leaves and the next registration takes the slot, the old session stands for the new registration |
| `Accounts.OpenedFor` | src/services/cg_router.c:658-668 | a login's session stands for the user it named |
| `Accounts.SignUpThenLogIn` | src/services/cg_router.c:603-668 | a sign-up with a name that fits opens a session for the new user, and a login with that name after it one for the same user if and only if the password is the same |
| `Accounts.LoginRejected` | src/services/cg_router.c:659-665 | a wrong password or an unknown name opens no session and changes nothing |
| `Accounts.GuestOpens` | src/services/cg_router.c:554-555 | a guest's session is found, with user number 0, and stands for no registration |
| `Accounts.SiteUsers` | src/services/cg_router.c:451-458 | over every run of requests the user pool takes exactly the operations that they ask for, in order, so that what holds of runs of the pool holds there |
| `Leaderboard.RankedIs` | src/services/cg_router.c:492-506 | inserting users one by one yields exactly the active users in descending order of points, ties in pool order |
| `Leaderboard.RankingUnique` | src/services/cg_router.c:492-506 | that order is the only one |
| `Leaderboard.CutRanked` | src/services/cg_router.c:496-502 | the list of ten needs only its own entries to take in the next user |
| `Leaderboard.BoardIs` | src/services/cg_router.c:492-506 | the listed users are in order and active, and whoever is missing stands below all ten |
| `Leaderboard.Select` | src/services/cg_router.c:492-506 | the nested loops with their shift leave the first ten of the ranking, then null |
| `Replies.ProfileReadsBack` | src/services/cg_router.c:249-274 | whatever the user wrote, the profile reply is the header and one JSON object with exactly seven named members in order, which hold that user's data |
| `Replies.BoardReadsBack` | src/services/cg_router.c:508-524 | the leaderboard reply is the header and one JSON object with the listed names and points, in order |
| `ReplyWords.LiteralsAre` | src/services/cg_router.c:249-273 | the literals put together from the member names are those of the source |
| `ReplyWords.SourceWordsOk` | src/services/cg_router.c:249-273 | the member names are such that both readings hold for them |
| `Replies.RepliesFit` | src/services/cg_router.c:247-277 | after any run of the user pool every profile fits 8192 bytes and the leaderboard fits 2048 |
| `Replies.ProfileReply` | src/services/cg_router.c:247-277 | the appends write exactly the profile text, inside the buffer |
| `Replies.LeaderboardReply` | src/services/cg_router.c:492-525 | the handler writes exactly the text of the first ten of the ranking, inside the buffer |

## Left out

- System calls, file and socket setup, memory mapping, the virtual dynamic object, environment, logging: a kernel completion is an arbitrary result within the requested length; time and random identifiers are parameters.
- `cg_hash_uint64`, `cg_hash_str` and route dispatch: hashes are arbitrary functions, and a handler's answer is a parameter of the event loop.
- The event loop's runs are proved on values (`EventLoop`, `Engine`); the objects in `Client` are proved to take the same steps, one slot at a time, so aliasing between slots is not part of the runs.
- `cg_client_pool_init`: what it leaves is the start state of every run (`LoopRuns.Booted`).
- The order in which the loop serves its slots: the runs allow every order, which includes the loop's.
- Memory fences and weak memory: the rings are interleaved atomic steps.
- A full submission queue and an overflowing completion queue: taking an entry needs a free one, and the kernel publishes only while there is room.
- A wait that fails, the periodic timestamp, and logging of the text it makes.
- Challenge lookup and checking of answers, password comparison, login, statistics and public profile: their replies follow the two that are modelled.
- Constant replies (errors, the guest profile): only their appending is modelled.
- Magic number and version of the stores' files: a file that is opened is well-formed.
- Form.GetFormValue: the output buffer has room for the value; the C code does not look.
- `cg_div24_u32`, `cg_memslide`, `cg_get_env`, `cg_strlen_sse` and the assembly version of the record routines: unused or duplicates.
- Client.ClientRequest.HandleBegin: asks for a BEGIN payload of at least three bytes; with a shorter one the C code takes the flags from behind the record.
- Client.ClientRequest.HandleParams: asks for a record that the loop leaves; on any other the C code does not return.
- Client.ClientContext.ParseRecords: asks for both of every record it meets.
- Client.ClientContext.CqeHandle: asks for the same of what has been read, and for an answer of at most 8192 bytes, as every handler gives.
- Reply.TxBuffer.End: asks that not 16 to 23 bytes are left, where the C code writes behind the buffer.
- Reply.TxBuffer.RouteReply: asks for a response that leaves 32 bytes, as every handler's does.
- Accounts.OpenedFor: asks that the session store is below its limit; the handlers do not look at the result of a create.
- WideMemory.CopyAvx2: ranges that overlap with the destination above the source; no caller has them.
- The event loop's runs take the slide as an exact move; `Engine.CompleteAtExact` and `Slides` say when it is.
- Calendar.DateTimeStrGet: the separators are in the buffer beforehand, as `cg_main_init` puts them there; the routine only fills the digits.
- Users.RunKeeps: points wrap at 32 bits, so their sum is not conserved.
