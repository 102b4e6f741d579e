# Packet Tide: a verified model of the transfer protocol

Packet Tide moves one file over UDP in numbered chunks. An ordered, authenticated control channel
carries the resume handshake, reports of missing ranges and completion. The receiver keeps a receipt
bitmap beside the partial file so that a later session can resume, and may copy parts of an earlier
version of the file. Directories travel as a manifest followed by single files.

The project models that system in Dafny and proves what it is for: that completion means an installed,
byte-equal file whatever the network and the machine do, that receipts on disk never name bytes that
could be lost, that the handshake, the reports and the repairs agree on what is missing, and that the
text formats say exactly one thing.

## How it is organised

| files | what they hold |
|---|---|
| `Outcomes`, `Text`, `Bitmaps`, `Layouts`, `Disks` | options and results; text codecs; the receipt bitmap on 64-bit words; fixed-size chunks; files, effects and crashes |
| `ResumeMaps`, `Packets`, `Receivers`, `Datagrams`, `Transfers`, `Durability`, `Resumption`, `Completion`, `Bookkeeping`, `ReceiveUdp` | the receiver: map file, datagrams, the datagram step, what sequences of datagrams leave in flags and counters, whole runs with crashes, crash consistency, what an interrupted transfer resumes, a run to completion, bookkeeping over runs, and the same as classes that update their fields |
| `Reports`, `Repairs`, `RepairRounds`, `Feedback`, `Requests` | missing ranges and reports, the repair queue, why repair ends, the sender's feedback reader, and exactly what one line does to it |
| `Handshakes`, `Senders`, `Deliveries` | the resume dialogue, the sender's passes, sender and receiver over a lossy network |
| `ContentChunks`, `Chunking`, `Documents`, `ChunkManifests`, `FooterReserve`, `Reuse` | content-defined chunking, its manifest format, a file on which scanning and reading disagree, reuse of an earlier copy |
| `Directories`, `DirectoryManifests` | directory manifests and the orders staging and installation rely on |
| `Frontiers`, `Rates`, `Channels`, `Endings` | the mature frontier, the rate controller, the control channel, and what a sender that finishes may rely on |

Conventions. A 64-bit word is a natural number below 2^64. SHA-256 and HMAC are function values. A file
is the list of contents it has had since it last reached stable storage; a crash keeps what those
contents agree on and nothing else. `Digest.hashed` is the set of byte strings a run hashes, and
`CollisionFree` says that no two of those collide; nothing is assumed of other strings
(`Completion.OneStringCannotCollide` gives a digest that meets it). Datagrams and frames are unforged in the
sense that a tag that verifies was made by the peer for that content. Renames and removals are assumed to be
durable in program order: `src/resume.rs` 77-115 renames without syncing the directory, and the word "durably"
below rests on that assumption.

Where a property holds only under a condition, the condition is stated and proved to be exact:

* Inside `open`, from the truncation of the partial file to the rename of the new map, the map of an earlier
  session is still there. Truncated and sized, before it is synced, the receipts are crash-safe if and only if
  there is none for this object (`Durability.OpenWindowIsSafeIffNoReceipts`, with a concrete disk in
  `OpenWindowExample`); truncated only, they are so as well if the partial file never held a byte
  (`TruncatedIsSafeIff`); once synced, also if every recorded chunk is all zeros (`SyncedWindowIsSafeIff`).
  Crash consistency is proved of all runs whose sessions do not end inside that window over such receipts. The
  final hash comparison makes the whole-system theorem independent of it.
* Pruning the frontier history is invisible if and only if the clock had run for the retention, up to
  one nanosecond, when the history began (`Frontiers.PruningIsInvisibleIff`): the fallback for an
  unrepresentable subtraction prunes entries that are still needed. Where an `Instant` is signed, as on the Unix
  targets, the subtraction never fails and the condition always holds.
* The content-defined scanner reserves 70 bytes for a footer of 71 (`src/cdc.rs` 74 and 86). What it
  accepts reads back if and only if 71 bytes fit (`ChunkManifests.ScanRoundTripIff`), and
  `FooterReserve.EncodedThenRefused` gives a file of 13,076,201,472 bytes for which they do not.
* The rate controller sees only loss that the receiver's socket counts. Then the rate stays near the capacity
  (`Rates.CountedExcessBoundsRate`); of loss in the network it settles at five fourths to twice what gets through
  (`Rates.LostExcessSettles`, with numbers in `UnseenLossExample`).
* The control writer lets carriage returns through and the reader refuses them. Everything sent is
  delivered if and only if no payload holds one (`Channels.DeliveryIff`, `CarriageReturnExample`).

## Model

| member | source | states |
|---|---|---|
| Transfers.CompletionImpliesInstalled | src/main.rs:2128-2143 | in every run, with datagrams lost, repeated, reordered or foreign and crashes between any two effects, COMPLETE sent or taken means the destination is durably the source (the sender's half is composed in `Endings`) |
| Endings.FinishedSenderMeansInstalled | src/main.rs:1480-1487 | in every run, whatever happens to the stream short of forgery, if the sender's feedback reader finishes on the lines the receiver wrote in the session, the destination is the source |
| Endings.AcceptedSenderMeansInstalled | src/main.rs:887-907 | the same for a sender told in the handshake that the object is already there |
| Transfers.RunSaysWhatItAnnounces | src/main.rs:2128-2143 | in every run COMPLETE is among the lines written exactly when completion has been announced |
| Endings.ReceiverLinesAreSpoken | src/main.rs:2173-2184 | the lines of the dialogue and every report are lines a receiver may write in a run |
| Endings.FinishedReaderWasTold | src/main.rs:1471-1487 | channel and reader together: a reader that finishes on what it received was sent COMPLETE |
| Endings.AcceptedCompletionWasTold | src/main.rs:887-907 | the same for a sender told in the handshake that the object is already there |
| Transfers.StepIsSafe | src/main.rs:2347-2370 | every effect of open, checkpoint, the datagram loop, install and discard, and every crash, keeps the safety invariant |
| Transfers.AnnouncedBitmapIsDurable | src/main.rs:2145-2184 | whatever happened before, the bitmap about to be announced is what the map file holds after a crash |
| Completion.CompletionIsReachable | src/main.rs:2118-2437 | for every valid object and whatever an honest past left at the destination (the object itself, a partial file to resume, receipts without their file, nothing), there is a run in which the sender learns of completion with the source installed |
| Durability.CrashConsistency | src/resume.rs:20-116 | over all runs, with sessions for this object and others, unforged datagrams, and reuse that writes source bytes and marks correct chunks, whose sessions do not end between truncation and rename over receipts for the object: outside that window, and inside it without such receipts, a crash leaves a map that, if trusted, names only chunks whose correct bytes are in the partial file; and the object is never rejected |
| Durability.StepIsHeld | src/resume.rs:20-116 | each step of a session, for this object or another, keeps the durable receipts sound or stays inside the window of `open` |
| Durability.FinishIsKept | src/main.rs:2347-2363 | with sound receipts the final comparison succeeds: nothing correct is discarded |
| Durability.OverwriteKeepsCorrect | src/main.rs:2466-2478 | writing source bytes at any offset leaves every recorded chunk correct |
| Resumption.CleanStateIsSaved | src/main.rs:2293-2402 | in every state of the datagram loop that any run reaches with nothing waiting to be saved, the durable map records exactly the receiver's bitmap |
| Resumption.InterruptedTransferResumes | src/resume.rs:33-55 | an honest transfer that crashes in such a state, with at least one chunk received, is resumed with exactly the chunks received so far, whatever the crash leaves |
| Resumption.ResumableIff | src/resume.rs:33-37 | a session resumes from a bitmap if and only if the map file is its printed form, it fits, and the partial file has the object's size |
| Durability.OpenWindowIsSafeIffNoReceipts | src/resume.rs:56-73 | truncated and sized but not synced, the partial file is crash-safe exactly when the old map holds no receipt for this object |
| Durability.TruncatedIsSafeIff | src/resume.rs:56-61 | truncated and not yet sized, exactly when it holds none or the file never held a byte |
| Durability.SyncedWindowIsSafeIff | src/resume.rs:62-73 | once synced, exactly when the old map is not trusted or every chunk it records is zeros |
| Durability.OpenWindowExample | src/resume.rs:56-73 | a one-byte object, its full map and no partial file: a crash inside open leaves a receipt for wrong bytes |
| ResumeMaps.LoadMapExact | src/resume.rs:118-166 | a map file is accepted, with exactly this bitmap, if and only if it is the printed form of a bitmap that fits the object |
| ResumeMaps.MapIdentifiesObject | src/resume.rs:143-150 | a map written for one object is never trusted for another |
| ResumeMaps.MapFileBits | src/resume.rs:87-94 | after the header of 64 bytes, each chunk is one bit, in words of eight bytes with the most significant first |
| ResumeMaps.LoadMapFile | src/resume.rs:126-165 | the loop over the words computes that reading |
| ReceiveUdp.ResumeState.Checkpoint | src/resume.rs:77-98 | afterwards data are synced and the map is durable; with correct receipts every intermediate disk state is crash-safe |
| ReceiveUdp.Open | src/resume.rs:20-75 | resumes exactly the trusted bitmap or starts a fresh object; the receipts returned are the durable ones |
| ReceiveUdp.Install | src/resume.rs:100-110 | the destination becomes the partial file, the map goes, both states in between are crash-safe |
| ReceiveUdp.Discard | src/resume.rs:112-115 | the partial file goes before its map, and no state on the way is unsafe |
| ReceiveUdp.ResumeState.Insert | src/main.rs:2624-2628 | the array gains exactly one bit and the count one chunk |
| ReceiveUdp.UdpReceiver.HandleDatagram | src/main.rs:2234-2308 | the datagram body on fields and files is the datagram step on values, whose effect on every counter and flag `Datagrams` reads off the datagrams |
| Datagrams.SessionCounts | src/main.rs:2154-2308 | from the start of a session, over any sequence of datagrams: valid is the number of packets of this session, repair the number of those whose repair byte is 1, invalid all others, accepted the number of chunks gained, duplicate the rest; progress is waiting to be saved exactly when the bitmap has changed; reordering is noticed exactly when some original was the first to bring its chunk after a packet for a later one |
| Datagrams.ServeCounts | src/main.rs:2236-2306 | the same growth of the counters from any state, and the report fields untouched |
| Datagrams.ReorderingIff | src/main.rs:2283-2285 | the flag is set if and only if it was before or some original for a chunk not yet received arrived after a packet for a later chunk, or below one resumed |
| Datagrams.DirtyIff | src/main.rs:2293 | the flag is set if and only if it was before or the bitmap has changed; no receipt is ever lost |
| Datagrams.HashMovesIff | src/main.rs:2294-2303 | the incremental hash moves on exactly when a datagram brings a new chunk and the number received becomes a multiple of 64 or it repairs the first missing chunk, and then up to the first gap |
| ReceiveUdp.UdpReceiver.AdvanceHash | src/main.rs:2549-2580 | the hasher absorbs the file from the old frontier to the first gap |
| ReceiveUdp.UdpReceiver.Finish | src/main.rs:2347-2364 | completes if and only if the partial file is the source, then installs it, else discards everything |
| Receivers.DatagramKeepsHashedPrefix | src/main.rs:2270-2303 | the hasher holds the file up to the frontier, every chunk below it is recorded, and no later write touches those bytes |
| Receivers.FullReceiptHashesWholeFile | src/main.rs:2347-2366 | with every chunk recorded the incremental hash is the one-shot hash of the whole file |
| Receivers.DatagramKeepsConsistent | src/main.rs:2281-2307 | count, bitmap, highest chunk and accepted counter stay views of one set of chunks |
| Receivers.ServeKeepsViews | src/main.rs:2234-2308 | over any sequence of datagrams the same holds, and every datagram is counted once: valid or invalid, and valid ones accepted or duplicate |
| Bookkeeping.EveryStateAgrees | src/main.rs:2234-2308 | in every state of the datagram loop that any run reaches, fresh, resumed or after reuse: the count is the bitmap's population, the highest chunk is the bitmap's, no bit lies beyond the object, valid is accepted plus duplicate |
| Bookkeeping.EveryReportIsAccepted | src/main.rs:2404-2430 | hence every report such a state sends is parsed with its counters, and its holes enter the repair queue in order as far as there is room |
| Receivers.ForeignDatagramsAreInvisible | src/main.rs:2244-2276 | any sequence of datagrams leaves the same file, receipts, hasher and counters as the ones that verify alone, except for the invalid counter |
| Receivers.RepeatedDatagramIsHarmless | src/main.rs:2304-2306 | a second copy changes neither the file nor the receipts |
| Receivers.ReceiptsAreArrivals | src/main.rs:2281-2293 | after any sequence of datagrams a chunk is recorded if it was before or an acceptable datagram for it arrived |
| Packets.BuiltPacketsAreAccepted | src/main.rs:1622-1660 | every packet the sender builds for a chunk of the object is accepted as that chunk with the source's bytes |
| Packets.AcceptIff | src/main.rs:2236-2276 | a datagram is accepted as a chunk, kind and payload if and only if it is, byte for byte, version, number, kind, length, tag and payload of a chunk of the object, with exactly that chunk's length |
| Packets.BuildPacketIff | src/main.rs:1622-1660 | what the sender builds for a chunk is exactly that packet with the source's bytes |
| Packets.AcceptedPayloadIsSource | src/main.rs:2244-2276 | an accepted, unforged datagram carries the source's bytes of its chunk |
| Bitmaps.TailClearIffFits | src/resume.rs:157-164 | the mask test accepts exactly the bitmaps naming no chunk beyond the object |
| Bitmaps.ContainsIff | src/main.rs:2616-2622 | chunk k is bit k mod 64 of word k div 64, the bit that stands for 2^(k mod 64) |
| Bitmaps.PopulationIsCardinality | src/resume.rs:39 | the sum of set bits is the number of recorded chunks |
| Bitmaps.HighestReceived | src/main.rs:2540-2547 | the search from the last word finds the largest recorded chunk |
| Layouts.ChunkShape | src/main.rs:1909-1915 | under the negotiated numbers every chunk is non-empty, starts at its multiple and only the last may be short |
| Layouts.EqualChunksEqualObjects | src/main.rs:2270-2290 | two files with equal chunks are equal |
| Reports.MissingRanges | src/main.rs:2693-2709 | the loop returns, in order, the first `max` maximal runs of missing chunks below `end` |
| Reports.FirstRunsAreExact | src/main.rs:2693-2709 | the runs are maximal, apart, ascending, and all of them unless there are `max` |
| Reports.FormatFeedbackReport | src/main.rs:2641-2673 | the report text is the ten fields joined by spaces |
| Reports.ReportTextIs | src/main.rs:2641-2673 | the line is the ten fields in order with one space between them, the last a hyphen or the ranges between commas, each one number or two with a hyphen |
| Reports.ParseFeedbackReportIff | src/main.rs:1519-1559 | a line is read as a report with these counters and this text of ranges if and only if it has exactly the ten fields in order between white space, every number as printed, and the counters are possible for the object |
| Reports.ParseRangeIff | src/main.rs:1589-1601 | a range is read if and only if it is one number, or two with a hyphen between of which the second is not less |
| Reports.ReportRoundTrip | src/main.rs:1519-1601 | a report reads back as the telemetry, with its report counter zero, and the ranges |
| Reports.ReportsFit | src/main.rs:34-40 | with at most 2^29 chunks every report is at most 10,376 bytes |
| Reports.ReceiverReportsAreAccepted | src/main.rs:2404-2430 | in every state whose views agree, the report is accepted by the sender's parser |
| Repairs.ReportHandles | src/main.rs:1571-1587 | after an accepted report each reported chunk is queued or cooling down or the queue is full, and only chunks it names are added |
| Repairs.RepairQueueInvariant | src/main.rs:1453-1469 | over all operation sequences: no duplicates, deque and set agree, queued and cooling down are disjoint, both bounded, takes of a chunk a cooldown apart unless evicted between |
| Repairs.RepairsStayInObject | src/main.rs:1571-1587 | no sequence of reports makes the sender take a chunk the object does not have |
| Requests.PushAllIs | src/main.rs:1576-1584 | of the chunks a report names, those neither queued nor cooling down are appended in order, each once, as many as there is room for up to 65,536 |
| Requests.PushPartsIff | src/main.rs:1571-1587 | the ranges of a report are taken if and only if every part is empty or a range of the object, up to the last or to where the queue is full; what those parts name is queued |
| Repairs.RepairQueue.EnqueueRepairs | src/main.rs:1571-1587 | the nested loops over the report's ranges perform the report operation |
| Repairs.RepairQueue.TakeRepairs | src/main.rs:1603-1620 | takes a prefix of the deque and leaves the rest; every chunk taken is stamped with its time, and a full cache gives up one entry for it |
| Repairs.RepairQueue.RetainRecent | src/main.rs:1500-1505 | drops exactly the entries whose cooldown is over |
| Feedback.FeedbackReader.Handle | src/main.rs:1480-1516 | one line has the effect of one turn of the reader on flag, telemetry and queue, or is refused (`Requests.HandleLineIff` says exactly which) |
| Requests.HandleLineIff | src/main.rs:1480-1516 | COMPLETE sets the flag and nothing else, PONG changes nothing, a report whose ranges are taken replaces the telemetry with its report counter one higher, ends cooldowns that are over and is queued; every other line is refused |
| Feedback.CompleteNeedsItsLine | src/main.rs:1480-1487 | the flag is only ever set by a COMPLETE line with nothing but reports and answers before it |
| Feedback.HonestReportIsHandled | src/main.rs:1488-1506 | an honest report is never refused: its holes are enqueued in order and its counters taken over |
| Feedback.HonestFeedbackCompletes | src/main.rs:1471-1517 | any honest reports and answers followed by COMPLETE end the reader without error and leave the queue sound |
| RepairRounds.CycleShrinksMissing | src/main.rs:2404-2428 | one loss-free cycle (report, expiry, enqueueing, takes until the queue is empty, arrival) shrinks the missing set by exactly min(total size of the reported holes, 65,536) |
| RepairRounds.DrainTakesQueue | src/main.rs:1603-1620 | takes that empty the queue take exactly what was queued, in order, and remember nothing else |
| RepairRounds.CycleExists | src/main.rs:1366-1391 | from every such state there is a loss-free cycle |
| RepairRounds.CycleRemovesArrivals | src/main.rs:2404-2428 | whatever is lost, a cycle removes from the missing set exactly the chunks whose repairs arrived |
| RepairRounds.RepairEndsIff | src/main.rs:1366-1391 | over any number of cycles with any loss, everything has been received if and only if the repair of each missing chunk arrived in one of them |
| RepairRounds.LossyRepairTerminates | src/main.rs:1366-1391 | if every cycle gets at least one repair through, as many cycles suffice as chunks are missing |
| RepairRounds.IdleOffersRepair | src/main.rs:1571-1587 | with something missing and no lost repair still cooling down (so once the cooldowns have passed, `WaitedIsIdle`), a report always offers a repair |
| RepairRounds.RepairTerminates | src/main.rs:1366-1391 | without loss, after ceil(missing / 512) cycles every chunk has been received |
| RepairRounds.ReportIsPushAll | src/main.rs:1571-1601 | an honest report is enqueued in full and in order as far as there is room |
| Handshakes.Announce | src/main.rs:2173-2184 | the loop sends READY, REUSED, one H line per non-zero word in ascending order, GO |
| Handshakes.DialogueIs | src/main.rs:2173-2184 | READY with payload and interval, REUSED with both counters, lines that spell the bitmap with ascending indices, GO, letter by letter |
| Handshakes.ReadAcceptance | src/main.rs:878-973 | the sender's loop over the dialogue computes the reading the lemmas are about |
| Handshakes.AcceptedIff | src/main.rs:878-973 | exactly what the sender accepts and what it makes of it: perhaps a report without ranges, then COMPLETE, or READY with this payload and interval, a possible REUSED line, and up to GO lines that place each non-zero word of one fitting bitmap once, with at least as many chunks as were reused |
| Handshakes.ParseWordLineIff | src/main.rs:940-945 | an H line says index and word if and only if it is the letter, a decimal and a hexadecimal number between white space |
| Handshakes.HandshakeAgreement | src/main.rs:908-973 | an honest announcement is never rejected and rebuilds exactly the receiver's bitmap |
| Handshakes.RebuildExact | src/main.rs:934-950 | H lines are accepted in any order, and exactly when they place each non-zero word of one bitmap once |
| Handshakes.AcceptedAnnouncementFits | src/main.rs:951-966 | an accepted bitmap names no chunk beyond the object and at least as many chunks as were reused |
| Handshakes.CompletedReceiverIsUnderstood | src/main.rs:887-907 | a receiver that already has the object is understood from its report and COMPLETE |
| Senders.SendUdp | src/main.rs:1324-1391 | originals are exactly the absent chunks, ascending, once each, with their batches of repairs in between; after them only the repairs drained, in order; datagrams are chunks less resumed plus repairs; bytes offered are payloads plus 56 each |
| Senders.FirstPass | src/main.rs:1324-1362 | the absent chunks in ascending order; right after each whose number is 15 modulo 16 the whole batch of repairs taken then, in order, and no repair anywhere else |
| Senders.DrainRepairs | src/main.rs:1366-1391 | the loop after END sends each taken batch in order |
| Senders.OfferedIsPackets | src/main.rs:1339-1341 | the bytes offered are those of the packets sent and 28 for each |
| Senders.AbsentIsExact | src/main.rs:1324-1329 | the chunks sent are ascending, without repetition, and exactly those the bitmap lacks |
| Senders.FirstPassSendsWhatIsMissing | src/main.rs:908-973 | whatever an honest receiver announces, the originals are exactly the chunks it lacks |
| Deliveries.ReceivedIffDelivered | src/main.rs:2234-2308 | over a network that loses, repeats and reorders, exactly the chunks whose datagrams got through are received |
| Deliveries.LossFreePassCompletes | src/main.rs:1324-1362 | if a copy of every datagram arrives, in any order, the receiver has every chunk |
| Reuse.ApplyReusable | src/main.rs:2439-2524 | the receipts gained are exactly the chunks all of whose bytes were copied and verified; both counters are theirs; they are durable; every verified chunk is in place and no other byte has moved; it fails exactly when the scan failed or a chunk looked up can no longer be read, and then keeps all receipts as they were; every receipt stays correct and every intermediate state crash-safe |
| Reuse.Merge | src/main.rs:2483-2492 | the merged ranges are sorted, disjoint, do not touch, and cover what was copied |
| Reuse.Sweep | src/main.rs:2493-2519 | one pass with one index sets the bits of exactly the covered clear chunks and counts them and their bytes |
| Reuse.OneRangeDecides | src/main.rs:2507-2518 | testing one range decides coverage, because a gap between ranges would be an uncovered byte |
| Reuse.CopyMatching | src/main.rs:2464-2478 | every verified chunk is in place afterwards, nothing else has moved, the ranges listed are theirs, and it fails exactly when a chunk looked up can no longer be read |
| Reuse.IndexFindsFirst | src/main.rs:2457-2462 | the index holds exactly the candidate's chunks, each by its first occurrence |
| Reuse.FindIff | src/main.rs:2464-2476 | the bytes copied for a chunk are those where the candidate's first chunk of the same length and hash was seen, if they still have the hash; the search fails exactly when the candidate no longer reaches that far |
| Reuse.ReusedBytesAreGained | src/main.rs:2513-2517 | the bytes counted are as many as lie in the chunks gained |
| Reuse.GainedIsCorrect | src/main.rs:2466-2522 | old and new receipts name the source's bytes after the overlapping writes |
| Frontiers.SearchFindsLatest | src/main.rs:2601-2605 | the backward search finds the latest sample not after the cutoff |
| Frontiers.PruningIsInvisible | src/main.rs:2582-2606 | over any run of calls the pruned history answers as the full one: the latest frontier at least the grace old |
| Frontiers.PruningIsInvisibleIff | src/main.rs:2592-2593 | all runs agree exactly when the history began no earlier than one tick before the retention |
| Frontiers.EarlyPruneForgets | src/main.rs:2592-2600 | two calls after which a frontier has been forgotten |
| Frontiers.FrontierHistory.MatureFrontier | src/main.rs:2582-2606 | push, prune and search on the deque; the answer is the full history's |
| Frontiers.FrontierHistory.ReportEnd | src/main.rs:2406-2424 | a report covers the whole object exactly once END is as old as the grace, and before that what the frontier of that time reached; without reordering there is no grace |
| Frontiers.HistoryIsLean | src/main.rs:2589-2600 | after every call the history ends with the current frontier, changes from entry to entry, and holds at most one entry older than the retention |
| Chunking.Scan | src/cdc.rs:38-69 | whatever the read sizes were, the chunks are those of the bytes under the cut rule (`CutRuleIff`), and it fails exactly beyond a million chunks |
| Chunking.CutRuleIff | src/cdc.rs:48-54 | a piece ends by the rule if and only if it has 256 KiB, or at least 16 KiB and the sum over j < 16 of the mixed byte at distance j from its end times 2^j is a multiple of 65,536 |
| Chunking.PiecesIff | src/cdc.rs:43-63 | the pieces of a string are the one way to put it together from non-empty pieces that all but the last end by the rule, and of which no proper prefix does |
| Chunking.LowBitsAreLocal | src/cdc.rs:48-54 | the bits the cut rule looks at depend only on the last 16 bytes |
| Chunking.CutIsLocal | src/cdc.rs:49-54 | between the minimum and the maximum length the rule depends only on the last 16 bytes |
| Chunking.ResynchronisesIff | src/cdc.rs:43-63 | the pieces of p followed by s are those of p and then those of s if and only if p ends on a rule-made cut |
| Chunking.ChunksResynchroniseIff | src/cdc.rs:43-69 | the same for whole chunks: those of s follow with their offsets shifted by the length of p |
| Chunking.CommonRestSameChunks | src/cdc.rs:51-61 | after cuts before a common rest, two strings are chunked alike |
| Chunking.PiecesTile | src/cdc.rs:43-69 | the pieces make up the string, all but the last end by the rule, lengths are bounded |
| Chunking.ScannedChunksTile | src/cdc.rs:38-82 | for every byte string: a tiling from 0 to its size, lengths in [16 KiB, 256 KiB] except a shorter last one, each hash that of its bytes |
| Documents.ParseExact | src/directory.rs:82-136 | for exact line codecs, a text is accepted as a document if and only if it is the printed form of a valid one within the limit |
| Documents.ParseIff | src/directory.rs:82-136 | line by line: a text is accepted if and only if it fits and is a header line, one line for each item, and a last line with the digest of all before it |
| Documents.PrintBody | src/cdc.rs:173-184 | the printing loop yields header and item lines in order |
| Documents.ReadItems | src/directory.rs:99-106 | the reading loop accepts exactly the lists of acceptable lines |
| ChunkManifests.ManifestExact | src/cdc.rs:84-152 | parse accepts s as m if and only if m is valid, s is its encoding and fits |
| ChunkManifests.ManifestIff | src/cdc.rs:88-152 | line by line: at most 64 MiB, a header line, a line for each chunk, a last line CHASH with the digest of all before it, and the chunks tile the object, none over 256 KiB and only the last under 16 KiB |
| ChunkManifests.ReadManifest | src/cdc.rs:89-152 | the parser's loop with the running offset computes that reading |
| ChunkManifests.ReadChunks | src/cdc.rs:105-135 | chunk lines are accepted exactly when they cover the object in order; no offset sum leaves 64 bits |
| ChunkManifests.AcceptedManifestIsTiling | src/cdc.rs:117-135 | an accepted manifest is a tiling with only the last chunk short, far from overflow |
| ChunkManifests.ChunkLineExact | src/cdc.rs:111-131 | a chunk line is accepted exactly in its printed form |
| ChunkManifests.ChunkLineIff | src/cdc.rs:111-131 | letter by letter: C, offset, length and hash with single spaces |
| ChunkManifests.ScanManifest | src/cdc.rs:29-82 | a scan succeeds exactly within the chunk, size and byte limits and yields the manifest of the bytes |
| ChunkManifests.ScanFile | src/cdc.rs:29-82 | the same with the program's mixing of bytes |
| ChunkManifests.ScanAcceptsIff | src/cdc.rs:70-77 | a scan succeeds if and only if the file still has its length, there are at most a million pieces and the encoded manifest is at most one byte over 64 MiB |
| ChunkManifests.ScannedIsValid | src/cdc.rs:77-81 | what a scan yields is a valid manifest |
| ChunkManifests.ScanRoundTripIff | src/cdc.rs:74-87 | a scanned manifest reads back if and only if its body leaves 71 bytes |
| FooterReserve.EncodedThenRefused | src/main.rs:1929-1952 | for any hashes of 32 bytes, the program scans one file of two characters and encodes its manifest (`src/main.rs` 718), and the parser the receiver uses refuses the encoding |
| Directories.ValidateEntries | src/directory.rs:278-310 | the loop with `kinds` and `previous` accepts exactly the closed, strictly sorted, plausible entry lists (`ClosedIff`) |
| Directories.ClosedIff | src/directory.rs:278-317 | at most a million entries; each with a safe path, nanoseconds below a billion, mode below 512, directories without and files with a hash; any two in byte order; each path, up to each of its slashes, that of an earlier directory |
| Directories.LessIff | src/directory.rs:286-288 | byte order: where two paths first differ, the earlier has ended or has the smaller byte |
| Directories.SmallerByteFirst | src/directory.rs:286-288 | of two accepted paths that first differ at some byte, the one with the smaller byte is listed first |
| Directories.SafePathIff | src/directory.rs:319-332 | a path is safe if and only if it has at most 4,096 bytes, none zero, and every part between slashes and ends is neither empty nor one or two dots |
| Directories.AncestorsComeFirst | src/directory.rs:301-305 | every proper ancestor of an accepted entry is a directory entry at a smaller index |
| Directories.AncestorEntry | src/directory.rs:278-317 | an entry above another is a directory and comes first; a file is never an ancestor |
| Directories.PathsAreUnique | src/directory.rs:286-288 | strict byte order makes paths unique |
| Directories.PrepareStaging | src/directory.rs:457-473 | whatever an interrupted attempt left, every directory is created and always finds its parent |
| Directories.FinishDirectories | src/directory.rs:605-617 | the reverse loop visits each directory once, after every directory below it |
| DirectoryManifests.TreeExact | src/directory.rs:72-136 | parse accepts s as m if and only if m is valid, s is its encoding and fits; signed times and raw path bytes included |
| DirectoryManifests.TreeIff | src/directory.rs:82-136 | line by line: at most 64 MiB, a header line, a line for each entry, a last line HASH with the digest of all before it, and an acceptable list of entries |
| DirectoryManifests.ReadTree | src/directory.rs:82-136 | the parser with its loops computes that reading |
| DirectoryManifests.EntryLineExact | src/directory.rs:253-276 | an entry line is accepted exactly in its printed form |
| DirectoryManifests.DirectoryLineIff | src/directory.rs:253-276 | letter by letter: D, path, mode, seconds and nanoseconds |
| DirectoryManifests.FileLineIff | src/directory.rs:253-276 | letter by letter: F, path, size, hash, mode, seconds and nanoseconds |
| DirectoryManifests.AcceptedTreeIsClosed | src/directory.rs:119-128 | whatever is parsed can be staged and installed in the loops' order |
| Text.ParseCanonicalExact | src/main.rs:1561-1569 | the strict unsigned decoder accepts exactly the printed form of a 64-bit number |
| Text.ParseSignedExact | src/directory.rs:363-378 | the strict signed decoder accepts exactly the printed form of a 64-bit signed number |
| Text.DecodeHexExact | src/directory.rs:386-406 | the strict hexadecimal decoders accept exactly the lower-case printed form |
| Text.DecodeLooseOfHex | src/auth.rs:302-311 | the lenient decoder is a left inverse of the printer |
| Text.DecodeLooseIff | src/auth.rs:302-311 | the lenient decoder takes exactly so many pairs, each two digits of either case, or a plus sign and a digit |
| Text.ParseUnsignedIff | src/main.rs:1589-1599 | the lenient decimal decoder takes the printed 64-bit number with leading zeros and a plus sign, and nothing else |
| Text.ParseHexWordIff | src/main.rs:945 | the lenient hexadecimal decoder takes the digits of a 64-bit word in either case, after a plus sign or none, and nothing else |
| Text.TokensIff | src/main.rs:1520 | splitting at white space finds exactly the fields the text is woven from |
| Channels.MacInputIsInjective | src/auth.rs:331-360 | equal MAC inputs mean equal session, direction, number and payload |
| Channels.ReceivedIsPrefix | src/auth.rs:143-166 | if every MAC that holds in some line of the stream was made by a peer, then whatever bytes reach the stream, the payloads received are a prefix of those sent in that direction |
| Channels.ReadFrameIff | src/auth.rs:144-160 | a line is accepted as the expected frame with this payload if and only if it is A, that number, the payload and a text that spells the MAC of exactly this session, direction, number and payload |
| Channels.RecvIff | src/auth.rs:143-166 | one call returns a payload and leaves a rest if and only if the stream begins with such a line, shorter than 64 KiB and without other line breaks, and the rest follows |
| Channels.FrameIff | src/auth.rs:109-123 | the writer's frame is the one accepted line whose number is canonical and whose MAC is in lower case |
| Channels.ReadLineIff | src/auth.rs:409-425 | a line is read if and only if it is shorter than the limit, ends in a newline and has no other line break |
| Channels.DeliveryIff | src/auth.rs:109-123 | without interference everything sent is delivered if and only if no payload holds a carriage return |
| Channels.DeliveredUpToCarriageReturn | src/auth.rs:409-425 | exactly the payloads before the first with a carriage return arrive, spaces and empty payloads included |
| Channels.CarriageReturnExample | src/auth.rs:110 | a payload the writer accepts and the reader never returns |
| Channels.ControlWriter.Send | src/auth.rs:109-123 | refuses newlines and payloads over half a line, otherwise appends one frame and advances the number |
| Channels.ControlReader.Receive | src/auth.rs:143-166 | returns the next payload and consumes its line, or fails without advancing the number (`RecvIff` says when) |
| Channels.ControlReader.ReadLineLimited | src/auth.rs:409-425 | the byte loop returns a line without breaks below the limit, or fails at a carriage return, the limit or the end |
| Rates.StreamInvariant | src/main.rs:1131-1201 | over every stream of reports the rate stays in bounds, decisions are increases plus decreases plus holds, the log holds the first 4,096 and chains |
| Rates.FixedNeverChanges | src/main.rs:1132-1134 | a fixed controller is the same after any stream |
| Rates.StallsDecayExactly | src/main.rs:1155-1156 | k stalled decisions leave exactly the larger of the minimum and k cuts to seven tenths |
| Rates.DecayedIsPower | src/main.rs:1155-1156 | k cuts to seven tenths multiply the rate by 0.7^k |
| Rates.FollowedLoadReachesMaximum | src/main.rs:1159-1163 | consecutive followed-load decisions reach the maximum within ceil(maximum - rate) |
| Rates.CountedExcessBoundsRate | src/main.rs:1155-1169 | when the receiver's own socket drops what exceeds its capacity, and so reports it: from any rate, if the limits allow it, the rate is above seven tenths of the capacity and at most one increase beyond it once a megabit or seven tenths per decision could have brought it there, and from then on |
| Rates.LostExcessBoundsRate | src/main.rs:1136-1169 | when the network loses the excess unseen and between low and high arrive: the rate ends up above five fourths of low and at most twice high (or one increase beyond), and stays in that range |
| Rates.LostExcessSettles | src/main.rs:1155-1169 | with one steady throughput of at least 4/3 megabit the rate settles for good, above five fourths of it and at most twice as high (`LeftAloneIff`: those rates are exactly the ones a decision leaves alone, the limits apart) |
| Rates.RateController.Observe | src/main.rs:1131-1201 | one report updates the fields as the value-level decision says (`NextRateIs` gives it on the raw counters) |
| Rates.NextRateIs | src/main.rs:1131-1201 | of two due reports, with any number in between that are not, the second decides on what the counters gained since the first: seven tenths if nothing was accepted, drops grew or more than 3 % of the valid datagrams brought nothing new; a quarter or a megabit more if four fifths of the load arrived; 85 hundredths if less than half did; else no change; within the limits |
| Rates.DecisionIs | src/main.rs:1136-1169 | the same of one due report and the counters last decided on |
| Rates.DecisionIsLogged | src/main.rs:1170-1199 | a due decision is logged while there are fewer than 4,096, with its time, both rates, how they compare and why |

## Left out

- Sockets, threads, mutexes, timeouts, heartbeats and the acknowledgement of completion: steps are atomic and clocks are inputs.
- Errors from the operating system: an effect either happens or a crash comes.
- Loss or reordering of directory entries in a crash: `install` and `checkpoint` in `src/resume.rs` rename without a directory sync, and the model assumes the rename is durable all the same.
- SHA-256, HMAC and key derivation: function values; collisions and forgeries are excluded only among the strings and messages of the run.
- Command line, JSON summaries, key files, `/proc` parsing, the pacer, plain TCP transports and their lane partition.
- File metadata, permissions, times and symbolic-link checks around directories: only the manifest data and the order of the loops are modelled.
- Feedback.FeedbackReader.Handle: the call of the rate controller on each report is separate (`Rates`), since it touches nothing else the reader shares.
- UTF-8: a text is a sequence of characters that each stand for one byte, so lines that are not valid UTF-8 are not refused.
- Senders.SendUdp: takes what `take_repairs` returned at each checkpoint as an input, because another thread fills that queue; an error reported by that thread is not modelled.
- Chunking.Scan: the mixing of a byte (`gear`) is a parameter, and every result holds for any mixing; `Gear` is the program's.
- Rates.RateController.Observe: rates are real numbers, so rounding of `f64` is not modelled, and the log omits the two measured ratios.
- RepairRounds.Cycle: reports and takes are atomic, and the queue is drained before the next report.
- Reuse.ApplyReusable: the running totals are exact numbers rather than saturating ones; they are proved to stay below the object's size.
