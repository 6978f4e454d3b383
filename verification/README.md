# gfhttpd: a verified model of its hard core

gfhttpd is an HTTP/2 and HTTP/3 server in C. This project models, in Dafny, the
parts of it whose correctness is not visible from any one function, and proves
what they guarantee over all inputs and all runs.

**Memory pools** (`main/mem/mem.c`). A pool is a bump allocator that grows by
linking chunks; the header it had before is saved at the start of the new chunk.
All pools share one bounded free list of chunks. `Arena.dfy` gives the state of
all pools as a value and each operation in closed form; `ArenaInvariant.dfy`,
`ArenaRuns.dfy` and `ArenaRollback.dfy` prove ownership, disjointness, the bounds
of the free list and the rollback by `mp_free` over every run; `ArenaSizes.dfy`
says what happens where sizes wrap; `ArenaHeap.dfy` has the headers as mutable
objects and proves that the pointer loops compute the closed forms.

**Response sender** (`main/http3/http3.c`). `Sender.dfy` has the timer callback
and its send loop as an object and as a function of what `read` returns and the
transport answers, with the offset of the descriptor beside the callback's own
position; `SenderRuns.dfy` proves what is delivered over every run of callbacks,
from a file and from a stream (a socket or a pipe, which cannot seek), when a
transfer ends, and exactly when it is left without a wake-up or never comes back.

**Connections** (`main/http3/event_cb.c`, `main/http3/timeout_cb.c`,
`main/http_stream/http_stream.c`). `Token.dfy` has the retry token, `Lifecycle.dfy`
the connection table, the timers and the receive loop as a step system with its
run theorems, `LifecycleOutcomes.dfy` what each datagram and each callback does to
them and why a connection ends, `Http3Server.dfy` the same with a mutable table and
connection objects.

**Paths** (`main/router/router.c`, `main/http2/event_cb.c`). `Paths.dfy` relates
`check_path` to remove_dot_segments of section 5.2.4 of RFC 3986; `Http2Path.dfy`
relates `percent_decode` to section 2.1 of RFC 3986 and follows a `:path` header
to the name of the file that is opened; `Http3Path.dfy` follows one over HTTP/3.

**Routes, headers, timers** (`main/config/routes.c`, `main/http_stream/headers.c`,
`set_timeout`). `Routes.dfy`, `Headers.dfy`, `Timers.dfy`.

The outside world (quiche, libevent, PCRE2, files, random numbers) appears as
parameters: the block `posix_memalign` returns, the bytes `read` returns, the
answers of the transport, the fate of a datagram, the verdict of the matcher. A
statement that holds for all values of these holds whatever they do.

## Where the code does not do what one would expect

Each of these is proved, with the exact condition under which the code does meet
the expectation; where the condition does not name one, a lemma gives an input at
which it does not:

- `mp_free` does not empty the pool: it goes back to the moment before the first
  chunk was linked (`ArenaRollback.Rollback`).
- Sizes wrap: a request of nearly `SIZE_MAX` bytes gets a range that is not in its
  block (`ArenaSizes.RangeInBlockExactlyWhen`, `ArenaSizes.WrappedRequest`), and
  `mp_calloc` may return fewer bytes than its caller wants
  (`ArenaHeap.Heap.Calloc`, `ArenaSizes.WrappedProduct`).
- `mp_delete` clears its caller's pointer after it has released the pool, and so
  writes to a released block if the pointer lies in the pool itself, as it does in
  `http3_connection_cleanup` (`ArenaRollback.ClearsReleasedExactlyWhen`).
- A transfer whose last send is accepted only in part is ended all the same
  (`SenderRuns.EveryRunDelivers`, `SenderRuns.CutShort`); one with nothing to send
  is never ended and never woken again (`SenderRuns.WakesUpExactlyWhen`,
  `SenderRuns.EmptyResponseSleeps`), and neither is one whose length is negative as
  an int (`SenderRuns.HugeResponseSleeps`); an error code of the transport is added to the
  position (`SenderRuns.InStepExactlyWhen`, `SenderRuns.FailureGoesBack`).
- The response of a module and the error page come from descriptors that cannot
  seek. There, bytes that are refused once are never sent again: what has been read
  is delivered exactly if every chunk was accepted whole
  (`SenderRuns.EveryStreamDelivers`, `SenderRuns.StreamLosesBytes`).
- After such a loss, and for a file after error codes have made the position
  negative or if it is shorter than announced, a callback whose chunks are all
  accepted never comes back: at the end of the input `read` returns nothing, and the
  loop offers empty chunks for ever (`SenderRuns.SticksExactlyWhen`,
  `SenderRuns.NeverAsleep`, `SenderRuns.StreamLosesBytes`).
- `percent_decode` copies bytes from behind its input if an escape ends in its
  last two bytes (`Http2Path.DecodesExactlyWhen`, `Http2Path.DecodeFails`).
- Over HTTP/3 the path check is only logged, so the file opened need not lie below
  the starting directory (`Paths.StaysBelowExactlyWhen`, `Http3Path.OnHeaders`,
  `Http3Path.UncheckedPathClimbs`).
- The backward scan for the stripped path reads in front of its subject if there is
  no slash ahead of it, which an unchecked path over HTTP/3 can bring about
  (`Routes.StaysInsideExactlyWhen`, `Routes.ScanLeavesSubject`); a path that starts with a slash
  cannot (`Routes.AbsoluteStaysInside`).
- The stripped path is computed from lengths: it begins at the capture only if the
  match is as long as the capture's end is far from the beginning, so not for a
  match further on (`Routes.ScanBeginsAtCaptureExactlyWhen`,
  `Routes.StrippedFromCapture`, `Routes.UnanchoredMatch`).
- A matching error hides the routes behind it
  (`Routes.PicksBySimpleRuleExactlyWhen`, `Routes.ErrorHidesMatch`).
- A negative timeout makes the carry in `set_timeout` fire or sets a timer that is
  due at once (`Timers.TimeoutTimer.SetTimeout`, which covers the input -1); with
  the carry the timer is 2^32 microseconds too long.

## Model

| member | source | states |
|---|---|---|
| ArenaRuns.EveryBlockInOnePlace | main/mem/mem.c:24-115 | over every run of pool operations on any number of pools, each block ever obtained is in exactly one place (base of a live pool, chunk of a live pool, free list, released), and none is released twice |
| ArenaRuns.LiveRangesDisjoint | main/mem/mem.c:53-111 | over every run, different live ranges of whatever pools share no byte, and each lies between the end of its block's header and the block's limit |
| ArenaRuns.LiveDisjoint | main/mem/mem.c:53-84 | the same from any state that satisfies the invariant |
| ArenaRuns.CapacityConserved | main/mem/mem.c:130-133 | in every block of a pool, bytes handed out plus bytes left are the block's capacity |
| ArenaRuns.FreeListBounded | main/mem/mem.c:11-20 | over every run the free list is no longer than `nfree`, which is at most 10; the gap between them never shrinks, and is zero as long as no clean delete has happened |
| ArenaRuns.StepGap | main/mem/mem.c:41-46 | only a clean delete widens the gap; it keeps the free list and sets `nfree` to the threshold |
| ArenaRuns.RunKeeps | main/mem/mem.c:24-115 | every run keeps the ownership and layout invariant |
| ArenaRuns.AllocLinks | main/mem/mem.c:58-83 | `mp_alloc` links no chunk if the request fits, and at most one more than the free list holds; the too-small chunks taken stay with the pool, empty and with their original limit; the last one is the first with room, or a new block of exactly the needed size; the range is the next one of that block and fits |
| ArenaRuns.AllocKeepsLive | main/mem/mem.c:53-84 | `mp_alloc` keeps every live range of every pool and hands out bytes none of them covers |
| ArenaInvariant.NewKeeps | main/mem/mem.c:24-39 | creating a pool keeps the invariant |
| ArenaInvariant.AllocKeeps | main/mem/mem.c:53-84 | allocation keeps the invariant |
| ArenaInvariant.FreeKeeps | main/mem/mem.c:95-115 | `mp_free` keeps the invariant |
| ArenaInvariant.DeleteKeeps | main/mem/mem.c:41-51 | deleting a pool, clean or not, keeps the invariant |
| ArenaRollback.Rollback | main/mem/mem.c:95-115 | after any run that does not free the pool, `mp_free` gives back the pool as it was just before its first chunk was linked |
| ArenaRollback.FreeOutcome | main/mem/mem.c:95-111 | `mp_free` leaves the base block alone and settles every chunk: the newest ones go to the free list up to the threshold, the rest are released, newest first |
| ArenaRollback.FreeKeepsBaseLive | main/mem/mem.c:95-115 | ranges of the base block and of all other pools stay live |
| ArenaRollback.DeleteOutcome | main/mem/mem.c:41-51 | `mp_delete` leaves the other pools alone and settles every block of the pool: the newest chunks go to the free list while it has room, none in a clean delete; the other chunks are released, newest first, and the base block last |
| ArenaRollback.ClearsReleasedExactlyWhen | main/mem/mem.c:41-51 | the pointer cleared after a clean delete, if stored in a live range, lies in a released block exactly if the range is of the deleted pool |
| ArenaHeap.Heap.New | main/mem/mem.c:24-39 | the header of a fresh block is set up so that the heap represents the pool state with one more pool |
| ArenaHeap.Heap.LinkChunk | main/mem/mem.c:60-80 | one turn of the loop of `mp_alloc` takes the head of the free list, or a fresh block, and saves the pool's header in it |
| ArenaHeap.Heap.Splice | main/mem/mem.c:77-80 | the chunk gets the pool's header and the pool starts in the chunk |
| ArenaHeap.Heap.Alloc | main/mem/mem.c:53-84 | the loop ends with the closed form of the allocation; the pointer returned is the start of the range; live ranges of all pools are kept and do not cover it |
| ArenaHeap.Heap.HasLeft | main/mem/mem.c:130-133 | the pointer difference is what is left in the last frame |
| ArenaHeap.Heap.Calloc | main/mem/mem.c:86-93 | the bytes returned are zero, no other byte changes, and no live range covers them; they cover what the caller wants exactly if the product does not wrap |
| ArenaHeap.Heap.Strndup | main/mem/mem.c:148-154 | the bytes returned are the n given ones and a zero; no other byte changes |
| ArenaHeap.Heap.UnlinkChunk | main/mem/mem.c:98-111 | one turn of the loop of `mp_free` gives up the newest chunk |
| ArenaHeap.Heap.Unsplice | main/mem/mem.c:100-110 | the chunk goes to the free list with its own limit if there is room, and the pool gets its saved header back |
| ArenaHeap.Heap.Free | main/mem/mem.c:95-115 | the loop ends with the closed form; the header has the base's saved pointers and no previous chunk |
| ArenaHeap.Heap.Delete | main/mem/mem.c:41-51 | the heap represents the state without the pool |
| ArenaSizes.RangeInBlockExactlyWhen | main/mem/mem.c:58-83 | with sizes as `size_t` computes them: for every request the loop ends; the range lies in its block exactly if header and request together do not wrap; if they do, the whole free list is taken and the new block cannot hold its header |
| ArenaSizes.NewBlockEndsLoop | main/mem/mem.c:28-35 | the same for the single block of `mp_new` or of one link |
| ArenaSizes.WrappedRequest | main/mem/mem.c:70-75 | the request of `SIZE_MAX` bytes: a block of 23 bytes that passes the loop test |
| ArenaSizes.ProductExact | main/mem/mem.c:90-91 | `mp_calloc` asks for the bytes wanted exactly if the product does not wrap, and for fewer otherwise |
| ArenaSizes.WrappedProduct | main/mem/mem.c:90-91 | a concrete product that wraps |
| Sender.FutureWrite.FutureWriteCb | main/http3/http3.c:163-241 | the callback's effect on all fields is that of the callback function |
| Sender.FutureWrite.SendBody | main/http3/http3.c:200-230 | the send loop does what the loop function says, and goes on for ever exactly where that function says so |
| Sender.FutureWrite.SendChunk | main/http3/http3.c:202-228 | one turn of the loop, which reads at the offset of the descriptor |
| Sender.FutureWrite.constructor | main/http3/http3.c:263-285 | the state a response starts in, with its timer pending |
| Sender.ToIntWraps | main/http3/http3.c:176-187 | the length becomes the number in the range of an int that differs from it by a multiple of 2^32 |
| SenderRuns.IdleCallback | main/http3/http3.c:170-193 | a callback on a closed connection changes nothing and leaves its timer off; one that still waits for the length changes nothing and sets it again |
| SenderRuns.ClosedForGood | main/http3/http3.c:170-174 | once a callback has found the connection closed, no later event makes a call or changes the transfer |
| SenderRuns.EveryRunDelivers | main/http3/http3.c:163-241 | over every run of callbacks, whatever the descriptor and the answers of the transport: headers come first and once, the end flag goes only with a last chunk that is the end of the content, and the transfer is over exactly when it has gone out; the bytes delivered are as many as the position plus the error codes; for a file they are the file up to the position exactly if there were none, and then, at the end, the whole file if and only if the last chunk was accepted in full |
| SenderRuns.EveryStreamDelivers | main/http3/http3.c:195-230 | over every run on a descriptor that cannot seek: the stream is offered up to its offset, each byte once; all of that is delivered, and the position is the offset, exactly if every chunk was accepted whole; the end flag goes out only if every chunk before it was |
| SenderRuns.StreamLosesBytes | main/http3/http3.c:195-230 | a stream of 30000 bytes of which 4515 are lost, and the third callback never comes back |
| SenderRuns.LoopOutcome | main/http3/http3.c:200-230 | for all answers and descriptors, the loop leaves a transfer stopped, under way with its timer set, ended, or in an endless loop at the end of the input |
| SenderRuns.TurnOutcome | main/http3/http3.c:202-229 | where one send leads for each kind of answer: complete or cut short at the end of the content, otherwise under way, and where position and offset are then |
| SenderRuns.WillingTransportCompletes | main/http3/http3.c:200-238 | if every answer accepts at least what one read can give, one callback delivers all that is left, from any point at which position and offset agree |
| SenderRuns.CompletesExactlyWhen | main/http3/http3.c:195-238 | one callback brings the position to the end if and only if position and offset agree after seeking and all answers take whole chunks; the transfer is then ended, and without errors the whole content delivered |
| SenderRuns.CutShort | main/http3/http3.c:205-238 | a transfer that is over with one byte undelivered |
| SenderRuns.WakesUpExactlyWhen | main/http3/http3.c:176-238 | from any state, a callback on an open connection leaves the transfer ended or its timer pending, or does not come back, if and only if it was ended, its length is unknown, or something is left to send |
| SenderRuns.SticksExactlyWhen | main/http3/http3.c:195-230 | from any state, a callback on an open connection never comes back if and only if it gets to the loop, what is left to read does not bring the position to the length, and all answers take whole chunks |
| SenderRuns.EmptyResponseSleeps | main/http3/http3.c:176-238 | an empty response that is neither ended nor woken again |
| SenderRuns.HugeResponseSleeps | main/http3/http3.c:176-200 | every response of 2^31 to 2^32 - 1 bytes of known length sends its headers and then sleeps |
| SenderRuns.NeverAsleep | main/http3/http3.c:176-238 | in every run that sends 1 to 2^31 - 1 bytes, each callback on an open connection leaves the transfer over or its timer pending, or never comes back; the last exactly if all answers take whole chunks and, for a file, the position is negative or, for a stream, some chunk was not accepted whole before |
| SenderRuns.InStepExactlyWhen | main/http3/http3.c:210-218 | position and bytes delivered agree after a callback if and only if no answer is an error code that follows only whole chunks and that the loop gets to |
| SenderRuns.FailureGoesBack | main/http3/http3.c:210-218 | a concrete failure that moves the position below zero |
| Token.MintedValidates | main/http3/event_cb.c:22-63 | a minted token gives back the original ID at its address, if the ID fits |
| Token.ValidatesExactlyMinted | main/http3/event_cb.c:33-63 | the tokens accepted for an address are exactly those minted for it with an ID that fits |
| Token.OtherAddress | main/http3/event_cb.c:22-63 | as bytes go, a token is accepted at the prefixes of its address followed by the ID |
| Token.OnlyAtItsAddress | main/http3/event_cb.c:33-63 | for socket addresses, whose family fixes their length, a token is accepted exactly at its own address, if the ID fits |
| Token.MintToken | main/http3/event_cb.c:22-31 | the buffer holds the six bytes of the word, then the address, then the ID, and nothing behind them changes |
| Token.ValidateToken | main/http3/event_cb.c:33-63 | the moving cursor decides as validation does and copies the ID; on refusal the output buffer is untouched |
| Lifecycle.EveryConnectionFiledOrCleanedOnce | main/http3/event_cb.c:228-445 | over every run, a created connection is found under its own ID or has been cleaned up, exactly once; after that it is neither in the table nor is its timer pending |
| Lifecycle.NeverComesBack | main/http3/http3.c:356-382 | a connection cleaned up stays so in every step |
| Lifecycle.ShutdownLeavesNothing | main/http3/http3.c:331-341 | after shutdown all connections ever created are cleaned up once and no timer is pending |
| Lifecycle.StepKeeps | main/http3/event_cb.c:171-446 | every step keeps the table, the timers and the cleanup log consistent |
| Lifecycle.SweepOutcome | main/http3/event_cb.c:427-445 | the sweep removes exactly the closed connections and sets the timers of those with a timeout |
| Lifecycle.FailureCleansUp | main/http3/event_cb.c:344-351 | a connection whose packet cannot be processed is cleaned up, no other is touched |
| Lifecycle.TimeoutOutcome | main/http3/timeout_cb.c:13-37 | when a timer fires, a closed connection is cleaned up and an open one keeps a timer exactly if there is a timeout |
| Lifecycle.AnswersAreStateless | main/http3/event_cb.c:230-305 | version negotiation and retry change no connection and answer only unknown IDs |
| Lifecycle.RetryAdmits | main/http3/event_cb.c:267-332 | section 8.1.2 of RFC 9000: repeating an Initial with the token of the retry creates a connection with the first ID as its original one, whatever happens in between |
| Lifecycle.AdmittedOnlyWithToken | main/http3/event_cb.c:307-328 | a connection is created only for a token minted for the sender's address and the original ID |
| LifecycleOutcomes.KnownOutcome | main/http3/event_cb.c:226-353 | a datagram whose 16 bytes of ID are those of a connection in the table reaches it: state unchanged for a processed packet, and the loop goes on unless HTTP/3 gave up; a packet that cannot be processed takes out exactly that connection, its timer and one place of the table |
| LifecycleOutcomes.AdmittedExactlyWhen | main/http3/event_cb.c:226-320 | a connection is created if and only if the datagram is for an unknown ID, of a supported version, accepted by quiche, and carries a token minted for its address with an ID of at most 20 bytes |
| LifecycleOutcomes.AdmittedOutcome | main/http3/event_cb.c:314-353 | the new connection is the last in the table, found under its ID, its timer pending, all else unchanged; or, if its first packet fails, cleaned up with table and timers as before |
| LifecycleOutcomes.RefusedOutcome | main/http3/event_cb.c:217-312 | any other datagram leaves the state as it is and ends the callback; which answer it gets, and the token in it |
| LifecycleOutcomes.DrainOutcome | main/http3/event_cb.c:179-353 | the receive loop goes through the datagrams one by one, exactly as long as each one lets it go on |
| LifecycleOutcomes.EventOutcome | main/http3/event_cb.c:171-446 | a loop that does not quit is followed by the sweep, after which exactly the connections reported closed are gone and cleaned up; one that quits is all that happens |
| LifecycleOutcomes.CleanedForCause | main/http3/event_cb.c:344-445 | over every run, a connection has been cleaned up only if a packet for its ID failed, it was reported closed in a callback or at its own timer, or the server stopped |
| LifecycleOutcomes.WithoutAt | main/http_stream/http_stream.c:32-35 | removal takes out one place of the table and keeps the order of the others |
| Http3Server.Server.GetConnection | main/http_stream/http_stream.c:25-30 | the scan finds the connection filed under the key, or there is none |
| Http3Server.Server.CreateConn | main/http3/event_cb.c:314-328 | a new connection is in the table, under its ID, with its timer set |
| Http3Server.Server.DeleteConnection | main/http_stream/http_stream.c:32-35 | exactly that connection leaves the table, the order of the others is kept |
| Http3Server.Server.Remove | main/http3/http3.c:356-361 | table, timer and cleanup log after removal and cleanup |
| Http3Server.Server.FlushEgress | main/http3/http3.c:327-328 | the timer is set if there is a timeout |
| Http3Server.Server.TimeoutCb | main/http3/timeout_cb.c:13-37 | the callback computes the timeout step |
| Http3Server.Server.Receive | main/http3/event_cb.c:186-353 | one turn of the receive loop: new state, reply, and whether to go on |
| Http3Server.Server.EventCb | main/http3/event_cb.c:171-446 | receive loop and sweep compute the event step; an early return skips the sweep |
| Http3Server.Server.Sweep | main/http3/event_cb.c:427-445 | the loop visits the whole table although it deletes from it |
| Http3Server.Server.Cleanup | main/http3/http3.c:336-341 | all connections are removed in table order |
| Paths.CheckedExactlyWhenNormal | main/router/router.c:16-35 | `check_path` accepts exactly the absolute paths without a backslash that are fixed points of remove_dot_segments |
| Paths.CheckedMeansNoDotSegment | main/router/router.c:29-35 | the substring tests say that no segment is a dot segment |
| Paths.LocalFileStaysBelow | main/router/router.c:155-159 | the name opened for a checked path is relative, without dot segment, and never leads above the starting directory |
| Paths.StaysBelowExactlyWhen | main/router/router.c:155-159 | a walk from a directory stays below another exactly if no beginning of it leads up more often than down |
| Paths.StrippedWalksAlike | main/router/router.c:155-159 | the walk of the stripped name stays below a directory exactly if that of the request path does |
| Paths.StripSlashes | main/router/router.c:156-157 | the loop strips all leading slashes |
| Http2Path.PercentDecode | main/http2/event_cb.c:349-378 | the result is the decoding of the input followed by 0, 1 or 2 bytes from behind it, terminated, within valuelen + 1 bytes; inputs of up to three bytes are copied |
| Http2Path.Scan | main/http2/event_cb.c:356-368 | the loop decodes; its two indices stay apart by twice the number of escapes, and it never stops inside an escape |
| Http2Path.DecodeEncode | main/http2/event_cb.c:326-371 | section 2.1 of RFC 3986: however the octets of a string are written, plain or escaped with digits of either case, decoding gives the string back |
| Http2Path.OthersStay | main/http2/event_cb.c:356-363 | a byte that does not begin a percent sign with two hexadecimal digits stands for itself |
| Http2Path.DecodesExactlyWhen | main/http2/event_cb.c:349-378 | the string returned is the RFC 3986 decoding if and only if no escape ends in the last two bytes, or, for more than three bytes, a zero byte is decoded or follows the input |
| Http2Path.DecodedUpToQuery | main/http2/event_cb.c:234-240 | for a zero-terminated header value of more than three bytes before the query, with the bytes of the last copy readable: always without a query; with one, exactly if no escape ends right before it or a zero byte is decoded |
| Http2Path.EscapingIsSeenThrough | main/http2/event_cb.c:234-240 | a path escaped in any way is what the server checks and opens, if `percent_decode` returns the decoding |
| Http2Path.DecodeFails | main/http2/event_cb.c:354-376 | two concrete inputs that are not decoded |
| Http2Path.OnPathHeader | main/http2/event_cb.c:234-240 | the query is cut off and the rest decoded |
| Http2Path.OnRequestRecv | main/http2/event_cb.c:290-316 | a file is opened only for a checked path, under its stripped name |
| Http2Path.ServePath | main/http2/event_cb.c:234-316 | however a path is escaped, a file is opened exactly if the path returned by `percent_decode` is absolute, without backslash and free of dot segments, and its name stays below the starting directory; when that path is the decoding of the header value |
| Http3Path.OnHeaders | main/http3/event_cb.c:381-405 | the path is copied, not decoded, and routed whatever the check said; the local file, if no route is picked, is the path without its leading slashes, and stays below the starting directory exactly if no beginning of the segments of the request path leads up more often than down, as is so for a checked path |
| Http3Path.UncheckedPathClimbs | main/http3/event_cb.c:383-398 | a path that fails the check and is opened outside the starting directory |
| Routes.RouteTable.InsertRoute | main/config/routes.c:132-152 | a route goes to the end; distinct keys stay distinct |
| Routes.RouteTable.GetRoute | main/config/routes.c:177-192 | found exactly if some key is the path; otherwise the match is untouched |
| Routes.RouteTable.MatchRoute | main/config/routes.c:37-130 | the loop stops at the first regex route with a verdict; a match gives that route and its stripped path, an error or no match leaves the match unset |
| Routes.Strip | main/config/routes.c:100-121 | the backward scan ends at the last slash at or before the offset; it reads outside the subject exactly if the offset is outside it or no slash is at or before the offset |
| Routes.ScanBeginsAtCaptureExactlyWhen | main/config/routes.c:113-115 | the scan begins at the last capture if and only if the match is as long as the capture ends from the beginning, as for a match from the beginning up to the capture's end |
| Routes.StrippedFromCapture | main/config/routes.c:113-121 | then the module gets the subject from the last slash on that is not behind the beginning of the capture |
| Routes.UnanchoredMatch | main/config/routes.c:113-121 | a match that does not start at the beginning, and a stripped path that starts too early |
| Routes.StrippedIsAbsolute | main/config/routes.c:104-121 | a stripped path found in the subject starts with a slash |
| Routes.StaysInsideExactlyWhen | main/config/routes.c:108-118 | for captures that are parts of the match, the scan meets its last slash inside the subject exactly if the subject has one up to the offset |
| Routes.AbsoluteStaysInside | main/config/routes.c:113-118 | with a leading slash, and captures that are parts of the match, the scan stays inside the subject |
| Routes.ScanLeavesSubject | main/config/routes.c:113-118 | an unchecked path without a slash and a capture of the whole match for which the scan leaves the subject |
| Routes.RouteTable.Choose | main/router/router.c:118-125 | the route picked and its stripped path, and when the route is that of the simple rule |
| Routes.PickedExactlyWhen | main/router/router.c:118-125 | without a key equal to the path a route is picked if and only if its pattern matches and every route before it has no pattern or does not match; with one, the first route of that key |
| Routes.PicksBySimpleRuleExactlyWhen | main/router/router.c:118-125 | exact key first, else the earliest matching regex, exactly unless a matching error comes before the first match |
| Routes.ErrorHidesMatch | main/config/routes.c:69-85 | two routes of which the rule picks the second and the router none |
| Headers.UpsertOutcome | main/http_stream/headers.c:27-43 | a name keeps its first place and gets the new value; other entries stay |
| Headers.HeaderTable.Insert | main/http_stream/headers.c:27-43 | the table after insertion |
| Headers.HeaderTable.InitResponse | main/http3/event_cb.c:391-394 | the table after a HEADERS event |
| Headers.HeaderTable.GetHttp3Headers | main/http3/http3.c:128-161 | the list has the table's entries in order, after status and length have been brought up to date in both |
| Headers.MatchesExactlyPrefixes | main/http3/http3.c:137-144 | the comparison accepts exactly the beginnings of the known name, but for the case of letters |
| Headers.ThreeEntries | main/http3/event_cb.c:391-394 | after any number of HEADERS events and responses the table has exactly the three entries in first-insertion order |
| Headers.ListSent | main/http3/http3.c:128-161 | section 4.3 of RFC 9114: `:status` comes first, with the current status; the content length denotes the length given |
| Headers.DecimalParses | main/http3/http3.c:146-147 | the numeral is made of digits, has no leading zero and denotes its number |
| Timers.TimeoutTimer.SetTimeout | main/http3/http3.c:243-261 | a positive timeout gives a normalised timer of whole milliseconds, never shorter and less than 1 ms longer; a negative one is cut toward zero, and 2^32 microseconds longer exactly if the carry fires |

## Left out

- ArenaHeap.Heap.New: sizes that wrap with the header are excluded; writing the header would overrun the block. `RangeInBlockExactlyWhen` and `NewBlockEndsLoop` say what such a request gets.
- ArenaHeap.Heap.LinkChunk: the same.
- ArenaHeap.Heap.Alloc: the same.
- ArenaHeap.Heap.Calloc: a product that wraps to zero is excluded, since `mp_alloc` asserts a positive size, and so are the last 24 sizes, which wrap with the header.
- ArenaHeap.Heap.Strndup: lengths whose block size wraps, for the same reasons.
- Failure of `posix_memalign`, which stops the process.
- Header bytes: the 24 header bytes of a block are the fields of the block object, so a program that overwrites them through a stray pointer is not modelled.
- `mp_print_info`, `align_size` and `mp_fake_free`: printing, arithmetic, and a function that does nothing.
- ArenaHeap.Heap.Delete: the caller's pointer is not part of the heap; `ClearsReleasedExactlyWhen` says when clearing it writes to a released block.
- Sender.FutureWrite.FutureWriteCb: a failing `read`, as on a socket whose writer is not done, is excluded, and so are positions below the range of an int.
- Sender.FutureWrite.SendBody: the same; an endless loop is left with a flag set where every further turn would be one more empty chunk.
- Sender.FutureWrite.SendChunk: the same as for the callback.
- SenderRuns.EveryRunDelivers: one response per stream object, and the length announced is that of the content; what happens otherwise is in `WakesUpExactlyWhen` and `SticksExactlyWhen`.
- SenderRuns.EveryStreamDelivers: the same; a module that writes more than once announces the length of its last write only.
- SenderRuns.NeverAsleep: the same.
- Http3Server.Server.CreateConn: IDs already in the table are excluded; there the code copies one structure, hash links included, over another.
- Http3Server.Server.Receive: the same.
- Http3Server.Server.EventCb: the same.
- Lifecycle.StepKeeps: the same, and with it for all statements about runs.
- Lifecycle.EveryConnectionFiledOrCleanedOnce: the same; the timers of the sender and of the modules, which cleanup does not cancel, are not part of the claim.
- Lifecycle.NeverComesBack: the same.
- Lifecycle.ShutdownLeavesNothing: the same.
- LifecycleOutcomes.AdmittedOutcome: the same IDs.
- LifecycleOutcomes.EventOutcome: the same.
- LifecycleOutcomes.CleanedForCause: the same.
- LifecycleOutcomes.RefusedOutcome: an answer that cannot be built or sent also ends the callback; it counts as lost on the way.
- LifecycleOutcomes.DrainOutcome: a failing `recvfrom` ends the callback like a datagram whose header cannot be parsed.
- Routes.RouteTable.GetRoute: keys are compared as whole strings; hash buckets, and which of two equal keys is found, are internals of uthash.
- Routes.RouteTable.MatchRoute: its return value, unset for an empty table, is ignored by the router; the matcher itself is a parameter.
- Routes.Strip: what a scan outside the subject reads, and where it stops.
- Http2Path.DecodedUpToQuery: for a path that ends in an escape the code reads one byte behind the terminator, which is taken to be readable.
- Http2Path.PercentDecode: the bytes of the last copy behind the input are taken to be readable; so they are for the callers of it.
- Http3Path.OnHeaders: a request without a path header.
- The 404 page of `error_fd`, socket pairs and the start of a module: plumbing around the choice of the route.
- Headers.HeaderTable.GetHttp3Headers: names are assumed to contain no zero byte, as their lengths come from string literals.
- The HTTP/2 stream list, which is commented out; the configuration reader, the Go bridge, logging, listeners and `main`.
- Sockets, TLS, libevent, quiche, nghttp2, PCRE2: foreign code, represented by parameters.
