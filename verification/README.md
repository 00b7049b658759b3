# afpfs-ng, verified model

afpfs-ng is a client for the Apple Filing Protocol (AFP). It keeps a cache of
directory IDs to resolve paths, converts file names between precomposed and
decomposed UTF-8, matches replies to requests on a DSI connection shared by many
threads, moves file data and directory listings in pieces, and parses parameter
blocks, AFP URLs and virtual AppleDouble names. This project models those parts in
Dafny and proves what they promise.

| file | models |
|---|---|
| `DidCache.dfy`, `DidResolver.dfy`, `DidRuns.dfy`, `DidVolume.dfy` | the directory-ID cache, `get_dirid`, runs with creations and removals, and the volume object |
| `Precompose.dfy`, `Utf8.dfy`, `Names.dfy` | uniform binary search and composition, UTF-8 and UCS-2, the name round trip |
| `DsiQueue.dfy`, `DsiWait.dfy`, `DsiReceive.dfy` | request ids and queue, waiting senders and the receiver, assembly of read replies |
| `ForkIo.dfy`, `Enumerate.dfy` | reads and writes in pieces, listing in batches |
| `ParamBlock.dfy`, `ReplyBlock.dfy` | AFP parameter blocks, and those a server sends |
| `AfpUrl.dfy`, `AppleDouble.dfy` | AFP URLs, AppleDouble paths |
| `Arith.dfy`, `Bytes.dfy`, `CStrings.dfy`, `Paths.dfy` | powers of two, big-endian numbers, C string searches, splitting paths |

Each imperative function of the source is a method, with the source's loops and
fields, proved equal to a function on values; the promises are lemmas about those
functions. `dafny verify dfyconfig.toml` checks the whole project.

## What the world is replaced by

- The clock is any function from the number of readings taken to seconds that does
  not decrease. The server is a tree of nodes with unique ids, a fork of bytes, or a
  function that answers each request. The socket is a byte stream, cut arbitrarily.
- Uninitialised memory is a parameter: the reply structure that `get_dirid` never
  clears holds whatever the caller of the model chooses.
- The 997-row composition table is a parameter. What is asked of it: patterns strictly
  increasing, results distinct and non-zero, no result is a second half, decomposition
  well-founded, and for the name round trip that a and U+0308 compose to U+00E4 and that
  a is not a second half.
- Threads are the steps of a transition system; setting up and queueing a header is one
  step, and so is looking up and answering a request.

## Where the code does not do what it is meant to

Each of these is proved with the exact condition under which the code is right.

- A lookup that misses throws away an unexpired entry when exactly one stands before
  the expired ones (`DidCache.MissKeepsFreshIff`). The cache stays correct.
- The forward walk of `get_dirid` ignores the server's error. Below a missing directory it
  answers with the did it reaches by skipping absent names (`DidResolver.GetDiridAnswers`).
  It caches a lie exactly when it comes to an absent name while its last reply was a
  directory, or its uninitialised reply buffer looks like one
  (`DidResolver.GetDiridTruthfulIff`, `DidRuns.MissingParentPoisonsCache`); a missing parent
  alone, behind a file for example, poisons nothing.
- For the same reason `ml_rmdir` below a missing directory can delete another directory of
  the same name (`DidRuns.RmdirBelowMissing`, `DidRuns.WrongDirectoryDeleted`), which leaves
  a lie exactly when that one is cached (`DidRuns.StepTruthfulIff`). A server error it does
  not know counts as success.
- One unexpired entry per path holds in every reachable state if the uninitialised buffer
  never looks like a directory with did 0 (`DidRuns.ReachableInv`,
  `DidResolver.GetDiridKeepsIff`); otherwise it fails (`DidRuns.TwoEntriesForOnePath`).
- `ll_write` reports a failed lock, and so nothing written, as success (`ForkIo.LlWrite`).
- Request ids repeat after 65536 headers; a later reply goes to another request
  (`DsiQueue.WindowIff`, `DsiQueue.LateReplyGoesAstray`).
- The start index of a listing is cut to 16 bits before AFP 3.0, so a larger
  directory never comes to its regular end: entries are listed again, or a request for
  index 0 fails (`Enumerate.PaginationIff`).
- The search for the ":" of a password does not return if that ":" is doubled, so users
  with ":" and no password cannot be parsed, and passwords with ":" are split wrongly
  although the escaping suggests otherwise (`AfpUrl.UrlRoundTripIff`). A bracketed server is
  cut at its first "]", and a "$" ends the volume and the path.
- Setting attributes sends one byte of two (`ParamBlock.PrintThenParse`).
- A name that holds a decomposed pair comes back composed, that is, as another name
  (`Names.NameRoundTripIff`); the comment of `convert_utf8pre_to_utf8dec` calls the
  decomposition a sample.

## Model

| member | source | states |
|---|---|---|
| `DidCache.FindExact` | afpfs-ng/lib/did.c:122-165 | On a newest-first list a lookup returns the did of the first match in the unexpired prefix, else 0; what is left is a subsequence of the list, and all of it when it hits |
| `DidCache.FindFromUnlinks` | afpfs-ng/lib/did.c:137-161 | Whatever the list and wherever the cursor, the unlinking loop leaves a subsequence (the positions are given) |
| `DidCache.FindFromExact` | afpfs-ng/lib/did.c:137-161 | The same exact answer from any cursor inside the unexpired prefix, and the exact list that a miss leaves |
| `DidCache.MissKeepsFreshIff` | afpfs-ng/lib/did.c:138-153 | A miss keeps every unexpired entry if and only if the unexpired prefix is not exactly one entry in front of expired ones; in that case the unexpired head is thrown away |
| `DidCache.RemoveAt` | afpfs-ng/lib/did.c:47-68 | Removal unlinks exactly the first entry of that name and nothing when there is none |
| `DidCache.RemoveLeavesNoneFresh` | afpfs-ng/lib/did.c:47-68 | With at most one unexpired entry per path, unlinking only the first match leaves no unexpired entry for the path |
| `DidCache.RemoveUnlinks` | afpfs-ng/lib/did.c:47-68 | Removal keeps every entry of another name, in order |
| `DidCache.WalkInjective` | afpfs-ng/lib/did.c:170-258 | In the reference walk from the root no two paths lead to the same directory |
| `DidCache.WalkWithout` | afpfs-ng/lib/midlevel.c:880-907 | Deleting an empty directory changes the reference walks that lead to it, and no other |
| `DidCache.WalkLess` | afpfs-ng/lib/midlevel.c:880-907 | Deleting never makes a path lead anywhere new |
| `DidResolver.FindHitOrMiss` | afpfs-ng/lib/did.c:122-165 | A lookup either returns the did of an unexpired entry of that path, or there is no such entry |
| `DidResolver.LookupKeeps` | afpfs-ng/lib/did.c:122-165 | Whatever the entries say, a lookup gives 0 exactly when no unexpired entry has the path, keeps order and uniqueness, and gives no path an unexpired entry |
| `DidResolver.LookupSound` | afpfs-ng/lib/did.c:122-165 | With truthful entries a hit is the did the uncached walk gives, and the entries left are truthful |
| `DidResolver.GoneNeverHits` | afpfs-ng/lib/did.c:122-165 | A path that is not a directory on the server is never found in a truthful cache |
| `DidResolver.BackUpKeeps` | afpfs-ng/lib/did.c:210-220 | The backward loop stops at a slash with no unexpired entry for any longer prefix, whatever the entries say |
| `DidResolver.BackUpSound` | afpfs-ng/lib/did.c:210-220 | With truthful entries the did it stops with is the one the walk gives |
| `DidResolver.ForwardAnswers` | afpfs-ng/lib/did.c:229-254 | For every path and every cache the did the forward loop ends with: absent names are skipped, a file ends the descent, and an absent first name is taken for whatever the uninitialised reply buffer holds |
| `DidResolver.AnswerIsWalk` | afpfs-ng/lib/did.c:229-254 | When the parent exists that did is the one the walk gives, and the loop does not poison the cache |
| `DidResolver.AddKeeps` | afpfs-ng/lib/did.c:71-98 | Caching a non-zero did for a path without an unexpired entry keeps order and one unexpired entry per path |
| `DidResolver.AddSound` | afpfs-ng/lib/did.c:71-98 | Caching the did a path walks to keeps the cache truthful |
| `DidResolver.AddsAbove` | afpfs-ng/lib/did.c:242-246 | A call caches only directories above the path asked for |
| `DidResolver.ForwardKeeps` | afpfs-ng/lib/did.c:229-254 | Whatever the server answers, the forward loop keeps order and one unexpired entry per path, and only the paths it caches gain an unexpired entry |
| `DidResolver.ForwardSound` | afpfs-ng/lib/did.c:229-254 | Unless it comes to an absent name while its last reply was a directory, the forward loop keeps the cache truthful, whether or not the parent exists |
| `DidResolver.ForwardLies` | afpfs-ng/lib/did.c:239-251 | If it does come to one, it leaves an entry for a directory that is not on the server |
| `DidResolver.ForwardFills` | afpfs-ng/lib/did.c:242-252 | When the parent exists, every directory on the way to it, the parent included, is cached with its true did and a clock reading taken during the loop |
| `DidResolver.ForwardCount` | afpfs-ng/lib/did.c:232-253 | One entry and one clock reading for each name on the way, in front of the cache as it was |
| `DidResolver.GetDiridKeepsIff` | afpfs-ng/lib/did.c:170-258 | A call that takes no longer than entries live keeps order, uniqueness and non-zero dids if and only if it does not take an absent first name for a directory with did 0 |
| `DidResolver.GetDiridSound` | afpfs-ng/lib/did.c:170-258 | With a truthful cache get_dirid returns the walk to the parent wherever that walk succeeds, -1 for a path without a slash, and leaves a truthful cache unless it poisons it |
| `DidResolver.GetDiridAnswers` | afpfs-ng/lib/did.c:170-258 | When the parent does not exist it reports no error, but the did reached from the longest prefix found, truthfully resolved, by skipping absent names |
| `DidResolver.GetDiridTruthfulIff` | afpfs-ng/lib/did.c:170-258 | A call that takes no longer than entries live leaves a truthful cache if and only if its forward loop does not come to an absent name while its last reply was a directory |
| `DidResolver.GetDiridFills` | afpfs-ng/lib/did.c:170-258 | After a call that searched and whose parent exists, every directory above the path that was not found has a truthful entry stamped during the call |
| `DidResolver.ResolvedThenFound` | afpfs-ng/lib/did.c:170-258 | After a call that takes no longer than entries live, the parent it resolved is found in the cache, with the walk's did |
| `DidResolver.FoundWhileFresh` | afpfs-ng/lib/did.c:122-165 | In a truthful cache an unexpired entry is found, with the walk's did |
| `DidResolver.TenSeconds` | afpfs-ng/lib/did.c:138-138 | An entry is found up to ten seconds after it was cached, and not later |
| `DidRuns.CreateSound` | afpfs-ng/lib/did.c:122-165 | A creation on the server keeps every unexpired cache entry truthful |
| `DidRuns.DeletedKeeps` | afpfs-ng/lib/midlevel.c:880-908 | After ml_rmdir reports success no unexpired entry for its path is left, and order and uniqueness are kept, wherever the deletion took place |
| `DidRuns.DeletedSound` | afpfs-ng/lib/midlevel.c:880-908 | The cache stays truthful unless the directory deleted is cached under another path |
| `DidRuns.DeletedLies` | afpfs-ng/lib/midlevel.c:880-908 | If it is, an unexpired entry lies afterwards |
| `DidRuns.StepKeeps` | afpfs-ng/lib/did.c:170-258 | Every step, missing parents included, keeps order and one unexpired entry per path, and only what it caches gains an unexpired entry |
| `DidRuns.StepTruthfulIff` | afpfs-ng/lib/did.c:170-258 | From a truthful cache, a step that takes no longer than entries live leaves a truthful one if and only if its resolution does not poison the cache and it does not delete a directory cached under another path |
| `DidRuns.StepSound` | afpfs-ng/lib/did.c:170-258 | A step whose parent exists is harmless and does what the uncached client does |
| `DidRuns.HarmlessRun` | afpfs-ng/lib/did.c:170-258 | In a run that also resolves below missing directories, as long as no step is harmful, the cache stays truthful and every step whose parent exists does what the uncached client does |
| `DidRuns.RunSound` | afpfs-ng/lib/did.c:170-258 | A run in which every parent asked for exists agrees with the uncached client, from any truthful cache |
| `DidRuns.CacheRefinesWalk` | afpfs-ng/lib/did.c:170-258 | From an empty cache, a run in which every parent asked for exists at that moment gives all answers (did and basename) and the server tree of the uncached client, and a cache in which no directory that is gone is found |
| `DidRuns.ReachableInv` | afpfs-ng/lib/did.c:47-98 | In every reachable state, missing parents included, the list is newest first with at most one unexpired entry per path, if the uninitialised buffer never looks like a directory with did 0 |
| `DidRuns.RemovedStaysGone` | afpfs-ng/lib/did.c:47-68 | In every reachable state, a path for which ml_rmdir reported success is not found in the cache, at once and after any further run that does not cache it again |
| `DidRuns.CachedAgainFromBelow` | afpfs-ng/lib/did.c:232-253 | Only resolving a path below a directory can cache it again |
| `DidRuns.TwoEntriesForOnePath` | afpfs-ng/lib/did.c:239-246 | Concrete run: a buffer that looks like a directory with did 0 gives two unexpired entries for one path |
| `DidRuns.RmdirBelowMissing` | afpfs-ng/lib/midlevel.c:878-908 | Below a missing directory ml_rmdir deletes the directory of the same last name in the directory get_dirid skipped to, exactly when that one is empty and the server agrees |
| `DidRuns.RmdirReports` | afpfs-ng/lib/midlevel.c:880-910 | When the parent exists: ENOTDIR exactly if there is no directory at the path, success if it was empty and the server did not object, the errno of each known code, success for every other code; the directory is gone exactly in the second case |
| `DidRuns.BasenameIs` | afpfs-ng/lib/did.c:184-187 | The basename is what follows the last slash |
| `DidRuns.WrongDirectoryDeleted` | afpfs-ng/lib/midlevel.c:878-908 | Concrete call: removing /a/x/f, where /a/x is a file, deletes /a/f and reports success |
| `DidRuns.MissingParentPoisonsCache` | afpfs-ng/lib/did.c:239-251 | Concrete run: resolving below a missing directory caches the wrong did, which is still answered after the directory is created |
| `DidVolume.Volume.FindDiridByFullname` | afpfs-ng/lib/did.c:122-165 | The in-place search loop computes the specified did and list, taking one clock reading |
| `DidVolume.Volume.AddDidCacheEntry` | afpfs-ng/lib/did.c:71-98 | The entry is pushed on the front with the current time |
| `DidVolume.Volume.RemoveDidEntry` | afpfs-ng/lib/did.c:47-68 | The in-place removal loop computes Remove |
| `DidVolume.Volume.GetDirid` | afpfs-ng/lib/did.c:170-258 | Both loops of get_dirid compute the resolver specification: cache, did, basename and return code |
| `DidVolume.Volume.Rmdir` | afpfs-ng/lib/midlevel.c:878-910 | ml_rmdir from its get_dirid call on, with its errno for every answer of the server, is the Rmdir step of a run |
| `Precompose.Halving` | afpfs-ng/lib/unicode.c:1052-1052 | Each search step is half of the remaining width, rounded up, and the width halves |
| `Precompose.StoredDelta` | afpfs-ng/lib/unicode.c:1050-1052 | The stored step array is the one for N = 997 rows |
| `Precompose.Narrows` | afpfs-ng/lib/unicode.c:1076-1084 | One comparison halves the width of the rows that can hold the pair |
| `Precompose.UCS2precompose` | afpfs-ng/lib/unicode.c:1065-1087 | For every table size N and every pair but two zeros, the uniform binary search returns a row's result exactly when its pattern is the needle, -1 exactly when no row has it, and never leaves rows 0..N |
| `Precompose.ComposeNormalForm` | afpfs-ng/lib/codepage.c:95-124 | No adjacent pair of the output composes; composing leaves a string alone if and only if it is normal; composing twice is composing once |
| `Precompose.ComposeSize` | afpfs-ng/lib/codepage.c:91-124 | The output is never longer than the input and holds no terminator |
| `Precompose.PairUnfolds` | afpfs-ng/lib/unicode.c:1065-1087 | Composing two characters does not change what they stand for under full decomposition |
| `Precompose.ComposePreservesMeaning` | afpfs-ng/lib/codepage.c:95-124 | Fully unfolding the composed string gives what unfolding the input gives |
| `Utf8.MbCharLen` | afpfs-ng/lib/unicode.c:1188-1211 | The mask loop counts the leading one bits: 1 for none, 0 for exactly one or for the terminator |
| `Utf8.MbStrLen` | afpfs-ng/lib/unicode.c:1221-1233 | The number of units UTF8toUCS2 writes |
| `Utf8.UTF8toUCS2` | afpfs-ng/lib/unicode.c:1250-1313 | The loop writes the decoded units and the terminator into exactly mbStrLen + 1 units |
| `Utf8.UCS2toUTF8` | afpfs-ng/lib/unicode.c:1321-1359 | The loop writes the encoding and its terminator inside 3 * len + 1 bytes |
| `Utf8.EncodeCharShape` | afpfs-ng/lib/unicode.c:1335-1356 | One encoded unit reads back as itself whatever bytes follow, and is a shortest form |
| `Utf8.DecodeCharInverse` | afpfs-ng/lib/unicode.c:1274-1293 | One shortest-form character of up to three bytes is the encoding of what it decodes to |
| `Utf8.DecodeNonZero` | afpfs-ng/lib/unicode.c:1250-1313 | Decoding a string without a terminator inside gives none |
| `Utf8.EncodeWellFormed` | afpfs-ng/lib/unicode.c:1321-1359 | What is written is well formed by the grammar of section 4 of RFC 3629 |
| `Utf8.DecodeEncode` | afpfs-ng/lib/unicode.c:1250-1359 | UTF8toUCS2 undoes UCS2toUTF8 on every string of non-zero units |
| `Utf8.EncodeDecodeIff` | afpfs-ng/lib/unicode.c:1250-1359 | UCS2toUTF8 undoes UTF8toUCS2 on a string if and only if it is shortest-form UTF-8 of one to three bytes a character |
| `Utf8.FourBytesAreTilde` | afpfs-ng/lib/unicode.c:1274-1293 | Each well-formed four-byte character becomes one "~", and what stands before and behind it is still decoded |
| `Utf8.IllegalIsStar` | afpfs-ng/lib/unicode.c:1281-1287 | Two or three bytes with a wrong tail or not in shortest form become one "*", and what stands before and behind them is still decoded |
| `Utf8.StrayTailEnds` | afpfs-ng/lib/unicode.c:1203-1208 | A tail byte where a character should start ends the text |
| `Names.EnoughRoom` | afpfs-ng/lib/codepage.c:154-172 | With room for the result the byte rewriting is not cut short |
| `Names.CutShort` | afpfs-ng/lib/codepage.c:158-158 | Without room, a prefix of it that fills the destination is written |
| `Names.Utf8PreToUtf8Dec` | afpfs-ng/lib/codepage.c:154-172 | The loop writes the rewritten bytes, returns their number and leaves the rest of the destination alone, given two spare bytes |
| `Names.ComposePath` | afpfs-ng/lib/codepage.c:95-124 | The loop over the fixed 384-unit buffer writes the composed string and its terminator |
| `Names.Utf8DecToUtf8Pre` | afpfs-ng/lib/codepage.c:88-142 | Decode, compose and encode, copied with its terminator |
| `Names.ToAfpEncode` | afpfs-ng/lib/codepage.c:154-172 | The rewriting of raw bytes is, on encoded text, the rewriting of the character a-umlaut into a and the combining diaeresis |
| `Names.ComposeSwap` | afpfs-ng/lib/codepage.c:95-124 | Composition undoes that rewriting on every string |
| `Names.ThereAndBack` | afpfs-ng/lib/codepage.c:33-77 | A well-formed name sent to the server and read back is the composed name |
| `Names.NameRoundTripIff` | afpfs-ng/lib/codepage.c:33-77 | A name comes back as the same bytes if and only if it is well-formed UTF-8 of at most three bytes a character and no two neighbouring characters compose |
| `DsiQueue.Find` | afpfs-ng/lib/dsi.c:637-654 | The first queued request with the id, or none |
| `DsiQueue.WindowIff` | afpfs-ng/lib/dsi.c:42-58 | Ids of whatever is queued are pairwise distinct across wrap-around if and only if fewer than 65536 headers were issued since the oldest |
| `DsiQueue.ReplyReachesItsRequest` | afpfs-ng/lib/dsi.c:637-698 | Inside that window a reply reaches the one request sent with its id if it is still queued, and nobody otherwise |
| `DsiQueue.LateReplyGoesAstray` | afpfs-ng/lib/dsi.c:637-698 | Outside the window a late reply is handed to a younger request |
| `DsiQueue.Unlink` | afpfs-ng/lib/dsi.c:153-163 | Unlinking one request keeps the others in send order, and it was linked once |
| `DsiQueue.Connection.constructor` | afpfs-ng/lib/dsi.c:42-58 | A new connection: no request, no header issued |
| `DsiQueue.Connection.SetupHeader` | afpfs-ng/lib/dsi.c:42-58 | The next id is the number of headers issued, modulo 65536 |
| `DsiQueue.Connection.Send` | afpfs-ng/lib/dsi.c:197-219 | The new request, with the id of the header just set up, is queued last; requests_pending stays the queue length |
| `DsiQueue.Connection.RemoveFromRequestQueue` | afpfs-ng/lib/dsi.c:142-175 | Exactly that request leaves and the counter follows; -1 and no change if it is not queued or the server is gone |
| `DsiQueue.Connection.FindRequest` | afpfs-ng/lib/dsi.c:637-654 | The search loop returns the first request with the id, or null; inside the window that is the request with that number, or null if it is not queued |
| `DsiWait.Without` | afpfs-ng/lib/dsi.c:142-175 | Exactly one occurrence leaves and send order is kept |
| `DsiWait.NextKeepsInv` | afpfs-ng/lib/dsi.c:259-331 | Every step of every sender and of the receiver keeps the protocol invariant; in particular a blocked sender has not been answered |
| `DsiWait.RunKeepsInv` | afpfs-ng/lib/dsi.c:259-331 | The same over whole interleavings |
| `DsiWait.HeardWasSent` | afpfs-ng/lib/dsi.c:687-698 | What the receiver hears during a run is the replies of that run, in order |
| `DsiWait.WaitingSendReturns` | afpfs-ng/lib/dsi.c:259-331 | In every interleaving a waiting send returns the code of a reply that carries its id and is processed after it was sent, or ETIMEDOUT if it set a deadline; requests_pending is always the queue length and the queue is in send order |
| `DsiWait.NoWaitReturns` | afpfs-ng/lib/dsi.c:313-331 | A send that does not wait never blocks; it returns 0 or the code of a reply that carries its id and was processed after it was sent |
| `DsiWait.DeadlineKept` | afpfs-ng/lib/dsi.c:298-312 | Once the deadline has passed while the sender was blocked, it returns ETIMEDOUT after three steps of its own, a late reply notwithstanding |
| `DsiWait.AnsweredRun` | afpfs-ng/lib/dsi.c:259-331 | An answered sender is never blocked again, only its own steps move it, and each brings it one step nearer to returning |
| `DsiWait.NoLostWakeup` | afpfs-ng/lib/dsi.c:867-887 | Once the receiver has processed the reply to a waiting request, whatever happens next, that sender can always take a step and returns within four steps of its own |
| `DsiWait.DeparturesCounted` | afpfs-ng/lib/dsi.c:142-175 | No request leaves the queue twice |
| `DsiWait.LeavesExactlyOnce` | afpfs-ng/lib/dsi.c:328-331 | A queued request has left the queue exactly once when its send returns |
| `DsiReceive.RecvOnce` | afpfs-ng/lib/dsi.c:656-761 | While more is needed nothing has been stored past the header or the caller's buffer |
| `DsiReceive.RecvStep` | afpfs-ng/lib/dsi.c:656-761 | One call either takes more bytes of this message and none of the next, delivers the whole payload, or fails because the reply does not fit |
| `DsiReceive.RecvAllSound` | afpfs-ng/lib/dsi.c:656-761 | The same from any point inside a message, over any number of calls |
| `DsiReceive.AssemblyIgnoresFragmentation` | afpfs-ng/lib/dsi.c:656-761 | For every way to cut the stream into non-empty reads (as many as the message has bytes are enough), a read reply is delivered if and only if its length fits the buffer; then the buffer holds exactly the payload, data_read is 0 and no byte of the next message is consumed; a longer one fills the buffer and fails |
| `DsiReceive.HeaderReadsBack` | afpfs-ng/lib/dsi_protocol.h:20-30 | Error code and length are the big-endian words at bytes 4 and 8 of a header |
| `DsiReceive.ReplyDelivered` | afpfs-ng/lib/dsi.c:656-761 | A reply as the server sends it, flags, command, id, error code, length, reserved word and payload, is delivered with its error code and exactly its payload if and only if it fits, however it is cut and whatever follows |
| `DsiReceive.Receiver.Read` | afpfs-ng/lib/dsi.c:724-733 | One socket read: the next bytes of the stream, appended to the buffer |
| `DsiReceive.Receiver.RecvHeader` | afpfs-ng/lib/dsi.c:664-686 | The header path computes RecvOnce in place |
| `DsiReceive.Receiver.RecvData` | afpfs-ng/lib/dsi.c:700-761 | The zero-copy data path computes RecvOnce in place |
| `DsiReceive.Receiver.Recv` | afpfs-ng/lib/dsi.c:656-761 | Both paths, keeping what is stored inside its buffers |
| `ForkIo.ReadIsExact` | afpfs-ng/fuse/fuse_int.c:258-268 | For every split of the answers a read that meets no error gives exactly the fork bytes from offset to min(offset + size, length) |
| `ForkIo.ReadSucceeds` | afpfs-ng/lib/lowlevel.c:366-386 | If no lock fails and every return code is 0 or that of the end of the fork, a read never fails and gives exactly the bytes wanted |
| `ForkIo.ReadFails` | afpfs-ng/lib/lowlevel.c:349-379 | The errno for a failed lock, a failed unlock and each of the four known codes |
| `ForkIo.LlRead` | afpfs-ng/lib/lowlevel.c:333-390 | Lock, one server call, unlock: errors of all three mapped and negated, end of fork reported, its bytes stored at the cursor and nowhere else |
| `ForkIo.ReadNext` | afpfs-ng/fuse/fuse_int.c:258-266 | One turn of the loop appends the next bytes of the fork |
| `ForkIo.FuseRead` | afpfs-ng/fuse/fuse_int.c:243-272 | The loop terminates, returns the number of bytes and stores exactly the fork bytes wanted, in order, leaving the rest of the buffer alone |
| `ForkIo.SpliceSplice` | afpfs-ng/lib/lowlevel.c:648-678 | Two writes back to back are one write |
| `ForkIo.WrittenReadsBack` | afpfs-ng/lib/lowlevel.c:648-678 | What was written reads back, every other byte is as it was, and a gap reads as zeros |
| `ForkIo.ChunkWritten` | afpfs-ng/lib/lowlevel.c:648-678 | Writing the next chunk extends the part of the data that is on the fork |
| `ForkIo.WriteNext` | afpfs-ng/lib/lowlevel.c:649-678 | One turn of the loop writes the next chunk of at most tx_quantum bytes behind the previous one |
| `ForkIo.WriteChunks` | afpfs-ng/lib/lowlevel.c:648-678 | The chunks are adjacent, disjoint, each of 1 to tx_quantum bytes, cover the range, totalwritten ends at size, and the fork is the old fork with the data spliced in at offset |
| `ForkIo.LlWrite` | afpfs-ng/lib/lowlevel.c:627-690 | The same with the lock; without it nothing is written, and neither a failed lock nor a failed unlock is reported |
| `Enumerate.AskInRange` | afpfs-ng/lib/proto_directory.c:311-432 | A start index that fits the wire gets the next entries, at most 20, or the end of the directory |
| `Enumerate.CollectsPrefix` | afpfs-ng/lib/lowlevel.c:442-486 | While the index has not wrapped, the list is a prefix of the directory that grows with every request |
| `Enumerate.NeverCompletes` | afpfs-ng/lib/lowlevel.c:442-486 | If the index wraps, the end of the directory is never reported |
| `Enumerate.PaginationIff` | afpfs-ng/lib/lowlevel.c:442-486 | For every choice of batch sizes the loop comes to its regular end if and only if the directory has fewer than 65535 entries before AFP 3.0, or 4294967295 since, and then the list is every entry once and in order |
| `Enumerate.LlReaddir` | afpfs-ng/lib/lowlevel.c:442-508 | The loop terminates; the first fault decides: none gives the whole directory, a denied access -13, any other error -5, and a directory that is gone return code 0 with what was listed so far |
| `ParamBlock.ParseBlock` | afpfs-ng/lib/proto_replyblock.c:25-138 | For every bitmap each field is read at the sum of the widths of the lower set bits, and fields not asked for are zero |
| `ParamBlock.ParseReplyBlock` | afpfs-ng/lib/proto_replyblock.c:16-139 | The same with the directory or file bitmap cut to 16 bits |
| `ParamBlock.FromUnixDate` | afpfs-ng/lib/afp_internal.h:9-11 | Converting a date to the wire and back is the identity on all 32-bit dates |
| `Bytes.MostSignificantFirst` | afpfs-ng/lib/proto_replyblock.c:33-42 | The most significant byte of a number comes first |
| `ReplyBlock.ParameterWidth` | afpfs-ng/lib/proto_replyblock.c:33-136 | The width of each of the sixteen parameters of a file and of a directory, as the protocol lays them out |
| `ReplyBlock.U64ReadsBack` | afpfs-ng/lib/proto_replyblock.c:107-111 | Eight bytes are one number, the most significant first |
| `ReplyBlock.DateComesBack` | afpfs-ng/lib/afp_internal.h:9-11 | Seconds from the start of 2000 come back as the Unix date, 32-bit wrap-around included |
| `ReplyBlock.BitsOfNumber` | afpfs-ng/lib/proto_replyblock.c:22-31 | The low bits of a bitmap number are the parameters it was made from, whatever stands above them |
| `ReplyBlock.SentIsUnderstood` | afpfs-ng/lib/proto_replyblock.c:16-139 | For every bitmap, a block written by the protocol's layout, with its names and anything behind it, parses to exactly the values it was made from: extended lengths win over short ones, Unix privileges over owner and group, a non-empty UTF-8 name, cut to 768 bytes, over the long name |
| `ReplyBlock.UnderstandReply` | afpfs-ng/lib/proto_replyblock.c:16-139 | The same for parse_reply_block given the bitmaps as numbers |
| `ParamBlock.PrintAttributes` | afpfs-ng/lib/proto_files.c:61-71 | One byte is stored, so the wire value is the attributes without their low byte |
| `ParamBlock.PiecesLength` | afpfs-ng/lib/proto_files.c:61-111 | What is printed below bit k is as long as what the parser skips below bit k |
| `ParamBlock.Located` | afpfs-ng/lib/proto_files.c:61-111 | Each printed field stands where the parser looks for it |
| `ParamBlock.AttributesLoseLowByte` | afpfs-ng/lib/proto_files.c:61-71 | The attributes read back are those printed without their low byte |
| `ParamBlock.PrintThenParse` | afpfs-ng/lib/proto_files.c:61-111 | Parsing what was printed gives back dates (modulo 2^32), Finder info and privileges, for every bitmap over the settable fields; the attributes come back if and only if their low byte is zero |
| `ParamBlock.Emit` | afpfs-ng/lib/proto_files.c:73-91 | A field is stored at the cursor, and only there, exactly when its bit is set |
| `ParamBlock.SetParms` | afpfs-ng/lib/proto_files.c:61-111 | The message holds the fields of the set bits in bit order from the cursor on, and nothing else changes |
| `AfpUrl.EscapeStrchrDouble` | afpfs-ng/lib/afp_url.c:118-136 | Doubled characters are skipped and the first single one is found, whatever was doubled |
| `AfpUrl.RunawayRepeats` | afpfs-ng/lib/afp_url.c:113-115 | When the last separator is doubled, every further call is the same call |
| `AfpUrl.EscapeString` | afpfs-ng/lib/afp_url.c:48-70 | The loop computes Unescape |
| `AfpUrl.UnescapeDouble` | afpfs-ng/lib/afp_url.c:48-70 | escape_string undoes doubling on every string |
| `AfpUrl.UnescapeSecond` | afpfs-ng/lib/afp_url.c:48-70 | Every second separator is dropped, whether it stands next to the first or not |
| `AfpUrl.AtoiDigits` | afpfs-ng/lib/afp_url.c:20-31 | Reading printed decimal digits gives the number |
| `AfpUrl.AtoiReads` | afpfs-ng/lib/afp_url.c:20-31 | Blanks, a sign and digits are read as the number, whatever follows that is not a digit |
| `AfpUrl.CredentialsEnd` | afpfs-ng/lib/afp_url.c:211-217 | The @ behind the credentials is the one found, whatever @ the password holds |
| `AfpUrl.HostRoundTrip` | afpfs-ng/lib/afp_url.c:220-246 | Server, bracketed or not, and the text of the port are split as printed |
| `AfpUrl.UserRoundTrip` | afpfs-ng/lib/afp_url.c:279-298 | User and UAM are split as printed, or refused for an unknown UAM |
| `AfpUrl.CredentialsRoundTrip` | afpfs-ng/lib/afp_url.c:263-298 | User, UAM and password are split as printed, still escaped, or refused for an unknown UAM |
| `AfpUrl.NotSeparable` | afpfs-ng/lib/afp_url.c:269-277 | Otherwise the split runs away or gives another password |
| `AfpUrl.SecondRoundTrip` | afpfs-ng/lib/afp_url.c:301-319 | Volume and path are split as printed |
| `AfpUrl.HostCut` | afpfs-ng/lib/afp_url.c:220-242 | A bracketed server with a "]" in it is split at that one |
| `AfpUrl.ParseOfPrint` | afpfs-ng/lib/afp_url.c:138-325 | What a printed URL parses to depends only on how its credentials and its host split |
| `AfpUrl.SchemeOf` | afpfs-ng/lib/afp_url.c:168-186 | Only the three characters before the first "://" matter, and they must be "afp" |
| `AfpUrl.OnlyAfp` | afpfs-ng/lib/afp_url.c:168-186 | A text is accepted only if it holds "afp://", and refused if it has no "://" |
| `AfpUrl.UrlParses` | afpfs-ng/lib/afp_url.c:138-325 | A URL by the grammar, with any text for the port, is refused if and only if that text does not start with a number from 1 to 32767 or the UAM is not known; otherwise every field comes back, with port 548 if none is given |
| `AfpUrl.DefaultPortWritten` | afpfs-ng/lib/afp_url.c:229-240 | ":548" gives the same as no port |
| `AfpUrl.InseparableDiffers` | afpfs-ng/lib/afp_url.c:138-325 | Where a separator is taken for another, some field does not come back |
| `AfpUrl.UrlRoundTripIff` | afpfs-ng/lib/afp_url.c:138-325 | Printing by the documented grammar and parsing gives back all seven fields if and only if the UAM is known, the port is 1 to 32767, the password has no ":", the user has none when there is no password, a user directly before the ":" of a password does not end in ":", a server that needs brackets has no "]", and volume and path have no "$" |
| `AfpUrl.AfpUrlStruct.constructor` | afpfs-ng/lib/afp_url.c:7-12 | An empty URL with port 548 |
| `AfpUrl.AfpUrlStruct.ParseServer` | afpfs-ng/lib/afp_url.c:229-246 | Port and server are set, or -1 for an unacceptable port |
| `AfpUrl.AfpUrlStruct.ParseLeft` | afpfs-ng/lib/afp_url.c:263-298 | User, UAM and password are set, or -1 for an unknown UAM |
| `AfpUrl.AfpUrlStruct.ParseSecond` | afpfs-ng/lib/afp_url.c:301-319 | Volume and path are set |
| `AfpUrl.AfpUrlStruct.ParseFirst` | afpfs-ng/lib/afp_url.c:209-298 | Server, port and credentials are set, or -1 for an unacceptable port or an unknown UAM |
| `AfpUrl.AfpUrlStruct.ParseAfterScheme` | afpfs-ng/lib/afp_url.c:189-324 | Everything after the scheme, in place |
| `AfpUrl.AfpUrlStruct.ParseUrl` | afpfs-ng/lib/afp_url.c:138-325 | Wherever the C code is defined and returns, the fields and the return code are those of the specification |
| `AppleDouble.ExtraTranslate` | afpfs-ng/lib/resource.c:20-89 | Every branch, with the buffer built and cut in place, computes the translation |
| `AppleDouble.TagPath` | afpfs-ng/lib/resource.c:66-85 | The suffix decides the kind and is cut off |
| `AppleDouble.ShownTranslates` | afpfs-ng/lib/resource.c:57-85 | A name in the virtual directory translates to the tagged path without ".AppleDouble/" |
| `AppleDouble.MetadataNamesMapBack` | afpfs-ng/lib/resource.c:518-561 | For every directory without ".AppleDouble" and every file f, the made-up names f.finderinfo and f.comment translate back to f with the right kind |
| `AppleDouble.ResourceNameIff` | afpfs-ng/lib/resource.c:57-85 | A plain name stands for the resource fork of that file if and only if it is not ".AppleDouble" and has neither suffix |
| `AppleDouble.IconIff` | afpfs-ng/lib/resource.c:31-32 | Exactly the path of the server icon is the server icon |
| `AppleDouble.TranslatedIff` | afpfs-ng/lib/resource.c:20-89 | A path is translated if and only if virtual directories are shown and it is the server icon or has a slash and ".AppleDouble" in it |
| `AppleDouble.VirtualDirectoryMapsBack` | afpfs-ng/lib/resource.c:42-55 | The virtual directory translates to the directory it is in, "/" for the root |

## Left out

- DidVolume.Volume.Rmdir: starts at the `get_dirid` call; name conversion, the look at read-only volumes and AppleDouble paths come before it.
- DidRuns.CacheRefinesWalk: resolutions do not overlap in time, renames are not part of runs (they do not touch the cache), and paths are not cut at AFP_MAX_PATH. Runs with missing parents are the subject of DidRuns.HarmlessRun and DidRuns.StepTruthfulIff.
- DidResolver.GetDiridTruthfulIff: a lie is only counted while it is unexpired, so the call is one that takes no longer than entries live; callers pass an absolute path or one without a slash.
- DidVolume.Volume.FindDiridByFullname: the list is a sequence, so freed nodes and the did_cache_stats counters are not modelled.
- Utf8.UTF8toUCS2: strings whose last character is cut off are excluded, because the code reads past their end; the byte swap at its end is guarded by a constant zero and is not modelled.
- Names.Utf8DecToUtf8Pre: asks for at most 383 characters, the size of the fixed buffer, and for room in the destination, neither of which the code checks; the encodings other than UTF-8 (a plain copy) are not modelled.
- Names.NameRoundTripIff: is about the names whose conversion stays inside the string; buffers are large enough.
- DsiWait.NoLostWakeup: no spurious wake-ups, no failed writes, no reconnects; a request freed by the receiver while its sender still uses it is not modelled.
- DsiWait.WaitingSendReturns: return codes of 32 bits and the freeing of requests are not modelled.
- DsiReceive.Receiver.Recv: replies to anything but reads, and bodies that run into the next message, are not modelled.
- ForkIo.FuseRead: the server is honest, that is, an answer without error brings a byte or reports the end of the fork. Return codes ll_read does not know count as success, as in the code.
- ForkIo.LlRead: the ten tries for the range lock are one outcome, got or not; the same holds for ForkIo.LlWrite.
- ForkIo.LlWrite: the server accepts every write; the code discards its answers.
- Enumerate.PaginationIff: the directory does not change meanwhile, the server chooses 1 to 20 entries for each batch and refuses index 0.
- Enumerate.LlReaddir: asks that the index does not wrap, because otherwise the loop need not end (see Enumerate.PaginationIff); name conversion and permissions after the loop are not modelled.
- ReplyBlock.SentIsUnderstood: names are bytes; what a terminator inside a name does is not modelled.
- ParamBlock.ParseReplyBlock: asks that the block is as long as its bitmap says, which the code does not check.
- ParamBlock.SetParms: starts at the parameters; header and path are not modelled, and the host is little-endian.
- AfpUrl.AfpUrlStruct.ParseUrl: field sizes are not modelled; inputs on which the code reads memory it never wrote, or does not return, are excluded.
- AfpUrl.UrlRoundTripIff: fields keep to their place in the grammar: no "/" before the volume, no "@" in user, UAM or server, no ";AUTH=" in the user, no ":" in the UAM, and a path starts with "/".
- AppleDouble.ExtraTranslate: a path that ends in ".AppleDouble" inside a longer last component is excluded, because the code reads past its end.
- Listing a virtual directory relinks a list while walking it; only the names it makes up are modelled.
- Login methods, version and UAM negotiation, server lists, fork lists, Pascal-string helpers: cryptographic calls that are not in the repository, or easy members only.
- The FUSE callbacks other than read, the daemon, the command line client and its shell scripts: input and output.
- Reconnecting resets request ids; the id claims are about one connection.
- malloc failure and mutex initialisation.
