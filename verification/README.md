# pengu-mesh: verified model

A Dafny model of the stateful core of pengu-mesh, with proofs of what it guarantees over whole runs.
`dafny verify dfyconfig.toml` checks all of it.

## What is modelled

| part | files | what is proved |
|---|---|---|
| fair task queue | TaskOrder, TaskQueueRuns, TaskQueue, Counting | the scrambled vector with its redundant counters refines a transition system over multisets; on its runs: conservation, limits, FIFO in a lane, bounded bypass and the exact condition for it |
| block-list globs | Glob, BlockList, FirstSeenOrder | the greedy matcher against the meaning of `*`: always sound, the exact law per text, and the exact set of patterns it is right for |
| portable replay bundles | ReplayBundle, Promotion, ReplayExport | promotion by renames at every failure and stop point, exporting against validating |
| byte streams | ByteStreams, Text, McpFraming, HttpRequest, HttpMessage | framing round trips of the MCP transport, messages with any header lines, independence of an HTTP request from how it is cut into reads, with the exact exception |
| artifact store | Artifacts, ChunkedWrite, Base64, Grid, Division | all-or-nothing streaming under arbitrary short reads and I/O failures; which pixels a grid of crops covers |
| scenario evidence | ScenarioRecorder, ScenarioSummary, Thresholds, OrderStatistics | the recorder's lifecycle over every sequence of calls and the race between its guards and writes; one-pass summary against grouping first; exactness of the latency verdict |
| small machines | RoundRobin, AutoRestart, Leases, Timestamps | balance through counter wraps, the restart budget over every history, one writer per instance |
| lexical matcher | SynonymIndex, Lexicon, MatchBoosts, LexicalScore, WordScores | the index is a symmetric relation, the score is a symmetric similarity, what synonyms, prefixes, roles and phrases are worth |

Code that updates state is a class or a method with the loops of the source, proved against a
specification function or a step relation; the guarantees are lemmas about that specification.

Where the code does not meet what one would expect of it, the code is modelled as it is, and a lemma
says exactly when the expectation is met:

- `*foo` does not match `foofoo`: a pattern is matched correctly on every text if and only if it has no
  `*` or ends in one (`Glob.GreedyIsCompleteExactlyFor`).
- `cancel` on a duplicated id removes whichever task the scrambled vector holds first
  (`TaskQueues.CancelIgnoresVectorOrder`).
- An agent last served at the ceiling of the service counter can be bypassed any number of times
  (`TaskQueueRuns.BypassIsUnbounded`), and only then (`TaskQueueRuns.BypassIsBoundedExactly`).
- If promotion stops between its two renames, the next export destroys the only good copy
  (`BundlePromotion.RetryAfterStopIsUnsafe`).
- Artifacts of one kind with one file name overwrite each other in a bundle
  (`ReplayExport.ExportThenValidate`).
- An MCP stream that breaks inside a header passes for a clean end (`McpFraming.CutFrame`).
- Whether HTTP headers two to 4096 bytes over the limit are accepted depends on the reads
  (`HttpRequests.CutsMatterExactly`).
- A grid leaves the last pixels of images 1000 or more pixels wide uncovered (`Grid.FullWidthExactly`).
- An infinite latency sample is charged as zero, so that only finite samples are judged rightly by
  every threshold (`Thresholds.VerdictIsExactExactly`).
- A step can be added to a run that is being finished (`ScenarioRecords.FinishCanSlipIn`), and a second
  finish of a step can erase the error code of the first (`ScenarioRecords.StaleFinishErasesCode`);
  `ScenarioRecords.LateWriteIsHarmlessExactly` says which late writes harm a finished run.
- Uptime is measured from the last recorded start, also for a relaunch that fails before it is recorded,
  so a crash loop need not be given up (`AutoRestart.CountsAsMeantExactly`,
  `AutoRestart.CrashLoopNeverGivesUp`); and the restart after 2^31 failed ones does not wait
  (`AutoRestart.DelaysGrowExactly`).
- A lease can be taken for expired within its last second, because stamps are compared as text
  (`Leases.ExpiredEarlyExactly`).
- A canonical word among its own synonyms becomes its own synonym
  (`SynonymIndex.IndexIsTheRelationExactly`); the table in the source has no such group.

## Assumptions

- `f64` values are exact reals, with infinities and NaN as separate values where the code meets them
  (`Common.Float`). 64-bit counters saturate or wrap as in the source; other integers are unbounded.
- Clocks, generated ids, the decisions of the file system and the sizes of reads are parameters or
  arbitrary choices; every statement holds for all of them. SHA-256 is an arbitrary function.
- A manifest written as JSON reads back as the same manifest. A path is a list of components.
- Strings are sequences of Unicode scalar values. Ordering them character by character is the order
  of their UTF-8 bytes.
- The date and time of a stamp up to the second have a fixed width, so their order as text is that of
  time.
- The tables of the SQLite store are maps by primary key, and each of its transactions is atomic.

## Model

| member | source | states |
|---|---|---|
| `TaskOrder.BeatsIsStrictTotalOrder` | crates/pengu-mesh-core/src/task_queue.rs:131-163 | for every service history the order of candidates is irreflexive, transitive and total on task values |
| `TaskOrder.NextIsUnique` | crates/pengu-mesh-core/src/task_queue.rs:93-98 | at most one waiting task goes before all others |
| `TaskOrder.StringLessMeans` | crates/pengu-mesh-core/src/task_queue.rs:145-150 | names are compared as in a dictionary: at the first difference, a proper prefix first |
| `TaskQueueRuns.ServiceIsAFunctionOfTheMultiset` | crates/pengu-mesh-core/src/task_queue.rs:87-103 | a nonempty queue has exactly one possible service and one successor state, determined by the multiset of waiting tasks and the service history alone |
| `TaskQueueRuns.StepKeepsInvariant` | crates/pengu-mesh-core/src/task_queue.rs:70-114 | every operation keeps the capacity, every agent's limit and the bound on the service log |
| `TaskQueueRuns.RunKeepsInvariant` | crates/pengu-mesh-core/src/task_queue.rs:70-114 | so does every run, in each of its states |
| `TaskQueueRuns.Conservation` | crates/pengu-mesh-core/src/task_queue.rs:70-114 | over any run the tasks at the start and the accepted ones are, as multisets, the served, the cancelled and the waiting ones |
| `TaskQueueRuns.BoundedBypass` | crates/pengu-mesh-core/src/task_queue.rs:131-169 | while an agent waits at priority p unserved, only priorities of at least p are served, and no agent already served is served again at p, in every run that starts with its record below the counter's ceiling |
| `TaskQueueRuns.BypassCount` | crates/pengu-mesh-core/src/task_queue.rs:131-169 | hence there are at most as many services at p as there are other agents with tasks at p |
| `TaskQueueRuns.BypassIsBoundedExactly` | crates/pengu-mesh-core/src/task_queue.rs:165-169 | for every configuration a service log guarantees that bound on all runs if and only if the agent was never served, or was last served below the ceiling of the saturating counter, or the queue has no room for a second task |
| `TaskQueueRuns.BypassIsUnbounded` | crates/pengu-mesh-core/src/task_queue.rs:165-169 | at the ceiling and with room for two tasks there is, for every n, a run in which the agent waits throughout and another agent is served n times at its priority |
| `TaskQueueRuns.FifoWithinAgentAndPriority` | crates/pengu-mesh-core/src/task_queue.rs:131-151 | tasks of one agent and priority are served in the order of their time stamps over any run whose stamps never run backwards |
| `TaskQueueRuns.ServedFirst` | crates/pengu-mesh-core/src/task_queue.rs:131-163 | a served task against every waiting one: no lower priority; at the same priority its agent was never served or not after the other; then no later time stamp, then no later agent name, then no later id |
| `TaskQueueRuns.NewcomersLeaveByArrival` | crates/pengu-mesh-core/src/task_queue.rs:131-163 | over a run whose stamps never run backwards, tasks of one priority whose agents were not yet served leave in the order of their time stamps |
| `TaskQueues.TaskQueue.Enqueue` | crates/pengu-mesh-core/src/task_queue.rs:70-81 | succeeds exactly if there is room and the agent is below its limit, a full queue is reported first, and the task is appended to the vector |
| `TaskQueues.TaskQueue.Dequeue` | crates/pengu-mesh-core/src/task_queue.rs:87-103 | serves the unique next task, before which none is due by priority, last service, arrival and names, or reports an empty queue, whatever the order of the vector, and keeps the stored counts exact |
| `TaskQueues.TaskQueue.Cancel` | crates/pengu-mesh-core/src/task_queue.rs:106-114 | finds a task exactly if one with the id waits, and removes that one task from vector and counts |
| `TaskQueues.TaskQueue.Len` | crates/pengu-mesh-core/src/task_queue.rs:117-119 | the length is the sum of the stored counts and never exceeds the capacity |
| `TaskQueues.TaskQueue.AgentTasks` | crates/pengu-mesh-core/src/task_queue.rs:127-129 | the stored count of an agent is the number of its waiting tasks and never exceeds the limit |
| `TaskQueues.TaskQueue.RecordService` | crates/pengu-mesh-core/src/task_queue.rs:165-169 | one tick of the saturating counter, recorded for the agent |
| `TaskQueues.TaskQueue.DecrementAgent` | crates/pengu-mesh-core/src/task_queue.rs:171-178 | restores the exact counts after a removal; the saturating subtraction never saturates |
| `TaskQueues.CountsSumToLength` | crates/pengu-mesh-core/src/task_queue.rs:70-114 | stored counts that are exact per agent add up to the number of waiting tasks |
| `TaskQueues.CancelIgnoresVectorOrder` | crates/pengu-mesh-core/src/task_queue.rs:106-114 | what remains after a cancel is independent of the vector's order if and only if all waiting tasks with that id are equal |
| `Glob.GlobMatch` | crates/pengu-mesh-cdp/src/adblock.rs:191-222 | the loop computes the leftmost placement of the segments |
| `Glob.MatchesIffFits` | crates/pengu-mesh-cdp/src/adblock.rs:190-197 | the meaning of `*`, given character by character, is that the segments can be laid out in order, the first at the start and the last at the end |
| `Glob.LeftmostIsComplete` | crates/pengu-mesh-cdp/src/adblock.rs:198-213 | the exchange argument: if the segments fit at all, all but the last fit leftmost with the last one at the end |
| `Glob.MatchesByPlacement` | crates/pengu-mesh-cdp/src/adblock.rs:198-219 | a pattern with a star matches exactly if its text ends with the last segment behind the leftmost placement of the others |
| `Glob.GreedyIsExactly` | crates/pengu-mesh-cdp/src/adblock.rs:191-222 | for every pattern and text the code says yes exactly if the pattern matches and, unless it has no star or ends in one, the first occurrence of its last segment is at the end |
| `Glob.GreedyIsSound` | crates/pengu-mesh-cdp/src/adblock.rs:191-222 | a positive answer is always a match |
| `Glob.MissedIsMissed` | crates/pengu-mesh-cdp/src/adblock.rs:215-219 | every pattern with a star that does not end in one has a matching text that the code rejects |
| `Glob.GreedyIsCompleteExactlyFor` | crates/pengu-mesh-cdp/src/adblock.rs:191-222 | the code agrees with the meaning on all texts if and only if the pattern has no star or ends in one |
| `BlockLists.CombineBlockPatterns` | crates/pengu-mesh-cdp/src/adblock.rs:108-127 | the nested loops remove duplicates over all lists in first-seen order |
| `FirstSeenOrder.FirstSeenIsOrderedDedup` | crates/pengu-mesh-cdp/src/adblock.rs:106-127 | the result has no duplicates, the same patterns, and the order in which they were first seen |
| `FirstSeenOrder.FirstSeenIsTheOnly` | crates/pengu-mesh-cdp/src/adblock.rs:106-127 | and it is the only list with these properties |
| `BlockLists.BlockList.IsBlocked` | crates/pengu-mesh-cdp/src/adblock.rs:161-163 | a URL is blocked exactly if the matcher accepts it for some pattern |
| `BlockLists.BlockListMeaning` | crates/pengu-mesh-cdp/src/adblock.rs:144-163 | removing duplicates changes no verdict, and a list whose patterns all have no star or end in one blocks exactly the URLs some given pattern means |
| `ReplayBundles.CopyFileWithSha256` | crates/pengu-mesh-core/src/lib.rs:5932-5956 | copying in reads of any size writes and hashes the whole content |
| `ReplayBundles.Validate` | crates/pengu-mesh-core/src/lib.rs:3528-3576 | the three figures count the records with the respective defect, a missing file hiding the others, and the verdict is that every record is sound: its file is there with the recorded digest, and what it derives from is in the bundle |
| `ReplayBundles.DestinationIsInjective` | crates/pengu-mesh-core/src/lib.rs:6004-6013 | two artifacts share a destination exactly if they share kind and file name |
| `ReplayBundles.FileNameMeans` | crates/pengu-mesh-core/src/lib.rs:3452-3458 | the file name of a path is its last component, and an empty path or one that ends in `..` has none |
| `BundlePromotion.PromotePortableBundle` | crates/pengu-mesh-core/src/lib.rs:5898-5930 | passes through exactly the states of the specified course under every choice of failing steps |
| `BundlePromotion.OldOrNewSurvives` | crates/pengu-mesh-core/src/lib.rs:5898-5930 | after every step of every course the old bundle is at the final or the backup path, or the new one is in place |
| `BundlePromotion.SuccessInstalls` | crates/pengu-mesh-core/src/lib.rs:5898-5930 | success installs the staged bundle, leaves no backup and no staging directory, and touches nothing else |
| `BundlePromotion.RollbackRestores` | crates/pengu-mesh-core/src/lib.rs:5913-5926 | a failed swap whose rollback succeeds leaves everything as it was, apart from the stale backup |
| `BundlePromotion.PromotionIsSafeExactly` | crates/pengu-mesh-core/src/lib.rs:5898-5930 | an intact bundle is at one of the two paths at every step under every fault if and only if the final path held one on entry |
| `BundlePromotion.RetryAfterStopIsUnsafe` | crates/pengu-mesh-core/src/lib.rs:5900-5912 | after a stop between the two renames a second promotion passes through a state with no bundle at either path |
| `ReplayExport.StageArtifacts` | crates/pengu-mesh-core/src/lib.rs:3446-3481 | stages what the sequential specification stages, or fails with its error or an I/O error, changing nothing but the staging directory |
| `ReplayExport.StageResult` | crates/pengu-mesh-core/src/lib.rs:3446-3481 | a staged bundle has one record per artifact in order, with the digest of its source, and at each destination the content of the last artifact copied there |
| `ReplayExport.StageSucceedsExactly` | crates/pengu-mesh-core/src/lib.rs:3446-3481 | staging succeeds exactly if every source exists, has a file name, and has the digest recorded for it, if any |
| `ReplayExport.StageErrorMeans` | crates/pengu-mesh-core/src/lib.rs:3446-3481 | the error names the artifact and the first of its faults, a missing source before a missing file name before a wrong digest |
| `ReplayExport.WritePortableReplay` | crates/pengu-mesh-core/src/lib.rs:3428-3506 | until promotion begins only the staging directory changes, so an earlier failure leaves the previous bundle; from then on the run is a promotion; success installs exactly the staged bundle |
| `ReplayExport.ExportThenValidate` | crates/pengu-mesh-core/src/lib.rs:3428-3576 | validating a fresh export finds no missing file, a checksum mismatch if and only if two artifacts collide with different digests, and one provenance error per artifact derived from outside the export |
| `ReplayExport.DistinctNamesValidate` | crates/pengu-mesh-core/src/lib.rs:3428-3576 | an export of artifacts pairwise distinct in kind or file name validates with no missing file and no wrong checksum |
| `Text.ParseDecimal` | crates/pengu-mesh-mcp/src/main.rs:141-146 | printing and parsing a length are inverse on every value of the machine type |
| `Text.NoNumber` | crates/pengu-mesh-mcp/src/main.rs:141-146 | text with a character that belongs in no number does not parse, however much blank space is trimmed |
| `Text.DecodesExactly` | crates/pengu-mesh-http/src/lib.rs:255 | bytes decode to a text exactly if they are its encoding in UTF-8 (section 3 of RFC 3629) |
| `McpFraming.ReadMcpMessage` | crates/pengu-mesh-mcp/src/main.rs:128-153 | reads one message off the stream as the specified reader does, errors and remaining input included; what that makes of any header lines is `MessageWithHeaders` |
| `McpFraming.WriteMcpMessage` | crates/pengu-mesh-mcp/src/main.rs:155-161 | appends exactly one frame |
| `McpFraming.RunStdioServer` | crates/pengu-mesh-mcp/src/main.rs:46-62 | writes what the specified server writes for the input and the handler, and ends as it does |
| `McpFraming.FrameRoundTrip` | crates/pengu-mesh-mcp/src/main.rs:128-161 | reading a frame yields its body and leaves what followed, whatever bytes either contains |
| `McpFraming.StreamRoundTrip` | crates/pengu-mesh-mcp/src/main.rs:128-161 | reading concatenated frames yields exactly the bodies in order, then the end |
| `McpFraming.MessageWithHeaders` | crates/pengu-mesh-mcp/src/main.rs:128-153 | after any header lines, a blank line and any bytes: the body has the last announced length, its name in any letter case, and the rest is left; too few bytes and no length at all are the two errors |
| `McpFraming.OtherLinesAreSkipped` | crates/pengu-mesh-mcp/src/main.rs:132-147 | any lines that do not begin with the name, before and behind the length line, change nothing |
| `McpFraming.BadLengthIsRefused` | crates/pengu-mesh-mcp/src/main.rs:141-146 | a length line whose value has a character that belongs in no number is refused, behind any header lines |
| `McpFraming.ServerAnswersFrames` | crates/pengu-mesh-mcp/src/main.rs:46-62 | a client that writes frames gets exactly the frames of the responses, in order, from any stateful handler, and the server ends cleanly unless a request is refused |
| `McpFraming.ClientReadsResponses` | crates/pengu-mesh-mcp/src/main.rs:46-62 | so a client with the same reader gets back the responses |
| `McpFraming.CutFrame` | crates/pengu-mesh-mcp/src/main.rs:128-153 | what the reader makes of a frame cut after n bytes, for every n: an error in the body, a clean end in the header, an unreadable length at the two bytes behind its name |
| `McpFraming.CutStream` | crates/pengu-mesh-mcp/src/main.rs:46-62 | a stream of frames that stops inside one is read up to that frame, and then it is the outcome of the cut frame, for all messages and every place to stop |
| `HttpRequests.ReadRequest` | crates/pengu-mesh-http/src/lib.rs:239-298 | receives what the specified reader receives for the stream and its cuts |
| `HttpRequests.FindHeaderEnd` | crates/pengu-mesh-http/src/lib.rs:319-321 | the first CR LF CR LF, or none if there is none |
| `HttpMessages.RequestIsRead` | crates/pengu-mesh-http/src/lib.rs:239-298 | for any request line, header lines and cuts within the limit: the verb and the target as written, and as many bytes as the last announced length says, its name in any letter case; other lines change nothing |
| `HttpMessages.ShortRequestLineIsRefused` | crates/pengu-mesh-http/src/lib.rs:257-267 | a request line of one word lacks the target and a blank one the method, whatever follows |
| `HttpMessages.BadLengthIsRefused` | crates/pengu-mesh-http/src/lib.rs:268-282 | a length with a character that belongs in no number is refused, behind any header lines |
| `HttpRequests.ScanLength` | crates/pengu-mesh-http/src/lib.rs:268-282 | the last Content-Length wins and an unreadable one is an error, read front to back |
| `HttpRequests.ReceiveIsParse` | crates/pengu-mesh-http/src/lib.rs:239-298 | however the stream is cut, the result is the one parsed from the whole stream, success or failure, if the headers end within the limit plus one byte or never |
| `HttpRequests.EndlessHeadersAreRefused` | crates/pengu-mesh-http/src/lib.rs:242-252 | without a blank line a stream of up to 1024 * 1024 bytes is cut short and a longer one too large, however it is cut |
| `HttpRequests.CutsMatterExactly` | crates/pengu-mesh-http/src/lib.rs:242-252 | the cuts can change the result if and only if the headers end two to 4096 bytes over the limit |
| `ChunkedWrites.ChunkedWriter.WriteChunk` | crates/pengu-mesh-artifacts/src/lib.rs:444-463 | accepts at most one chunk, keeps disk, buffer and hash in agreement, and refuses for size only what would exceed the maximum |
| `ChunkedWrites.ChunkedWriter.Finish` | crates/pengu-mesh-artifacts/src/lib.rs:466-474 | flushes everything hashed to the file and reports its length and digest |
| `ChunkedWrites.CopyChunks` | crates/pengu-mesh-artifacts/src/lib.rs:507-522 | the copy loop under any short reads: success means the whole input, no error comes from a short accept |
| `ChunkedWrites.WriteReaderChunked` | crates/pengu-mesh-artifacts/src/lib.rs:499-527 | all or nothing: success means the file is the whole input with its length and digest, failure after creation leaves no file if it can be deleted, only an input over the maximum is refused for its size |
| `ChunkedWrites.WritePayload` | crates/pengu-mesh-artifacts/src/lib.rs:268-305 | both ways of writing end with the same file, length and checksum, and neither refuses for size; a failure to create changes nothing, a streamed failure leaves no file, a failure to stat leaves the whole file |
| `ChunkedWrites.EstimateIsEnough` | crates/pengu-mesh-artifacts/src/lib.rs:633-635 | for all valid base64 text the estimate covers the decoded length by at most two bytes, so the maximum chosen from it is never exceeded |
| `ChunkedWrites.StreamBase64` | crates/pengu-mesh-artifacts/src/lib.rs:307-339 | valid text streams into a file with the decoded content, its length and digest; invalid text never succeeds, and any streaming failure leaves no file |
| `ChunkedWrites.WriteBase64` | crates/pengu-mesh-artifacts/src/lib.rs:75-97 | decoded while streaming or beforehand, valid text ends up decoded in the file and invalid text is an error, never a refusal for size |
| `Base64.DecodedLength` | crates/pengu-mesh-artifacts/src/lib.rs:93-96 | text that decodes has a multiple of four bytes and stands for three bytes a group less at most two |
| `Base64.DecodeEncode` | crates/pengu-mesh-artifacts/src/lib.rs:93-96 | decoding inverts the standard encoding of section 4 of RFC 4648 |
| `Base64.DigitsAreTheAlphabet` | crates/pengu-mesh-artifacts/src/lib.rs:93-96 | a byte has value v exactly if it is character v of the standard alphabet |
| `Base64.GroupIsOneNumber` | crates/pengu-mesh-artifacts/src/lib.rs:93-96 | the digits of a group and its bytes are one number, to the base 64 and to the base 256; the rest of the group is padding |
| `Grid.BatchGridRegions` | crates/pengu-mesh-artifacts/src/lib.rs:236-265 | accepts exactly the documented arguments, each refusal has one cause, and in the slot of each row and column stands that part of the thousand, out to whole units, widened by the overlap on every side as far as the image goes |
| `Grid.OverlapWidens` | crates/pengu-mesh-artifacts/src/lib.rs:236-265 | each region is the one without overlap, widened by exactly the overlap on every side and cut to [0, 999] |
| `Grid.RegionIsValid` | crates/pengu-mesh-shared/src/types.rs:92-99 | every region of an accepted grid passes validation |
| `Grid.GridCovers` | crates/pengu-mesh-artifacts/src/lib.rs:236-265 | the regions of an accepted grid cover exactly [0, 999) in both directions without a gap |
| `Grid.CropsCover` | crates/pengu-mesh-artifacts/src/lib.rs:561-567 | along one axis the crops together hold exactly the pixels before ceil(999 W / 1000) |
| `Grid.GridCropsCover` | crates/pengu-mesh-artifacts/src/lib.rs:539-556 | and so do they in both directions at once |
| `Grid.GridCropsAreProper` | crates/pengu-mesh-artifacts/src/lib.rs:539-556 | each crop is a nonempty rectangle inside the image |
| `Grid.FullWidthExactly` | crates/pengu-mesh-artifacts/src/lib.rs:561-567 | the crops reach the last pixel if and only if the dimension is below 1000 |
| `ScenarioRecords.StartScenarioRun` | crates/pengu-mesh-core/src/scenario_recorder.rs:27-70 | succeeds exactly with a fresh id and no blank field, and then stores an active run with the trimmed values of the call |
| `ScenarioRecords.CreateScenarioStep` | crates/pengu-mesh-core/src/scenario_recorder.rs:233-260 | succeeds exactly if the run is active, nothing needed is blank and the id is fresh; the stored step then holds the values of the call, trimmed, and the next ordinal; otherwise the error names what is wrong and nothing changes |
| `ScenarioRecords.CreateAssertionRecord` | crates/pengu-mesh-core/src/scenario_recorder.rs:262-312 | likewise for an assertion, whose step must be an open one of the run: the stored record holds each value of the call in its own field, trimmed, blank optional ones left out |
| `ScenarioRecords.CreateLatencyRecord` | crates/pengu-mesh-core/src/scenario_recorder.rs:314-349 | likewise for a sample, refused exactly also if negative or NaN: the stored record holds metric, value and capture method of the call |
| `ScenarioRecords.FinishStepRecord` | crates/pengu-mesh-core/src/scenario_recorder.rs:351-378 | succeeds exactly for an unfinished, running step; the step then has the time and status of the call and its code, or the previous one if none is given; all else stays |
| `ScenarioRecords.FinishRunRecord` | crates/pengu-mesh-core/src/scenario_recorder.rs:380-414 | succeeds exactly for an active run without an open step; the run then has the time and status of the call and its summary path, or the previous one if none is given; all else stays |
| `ScenarioRecords.NextOrdinal` | crates/pengu-mesh-state/src/lib.rs:1032-1042 | above every ordinal of the run, and by exactly one |
| `ScenarioRecords.ApplyKeepsInvariant` | crates/pengu-mesh-core/src/scenario_recorder.rs:233-414 | every call keeps records anchored in their run and step, ordinals distinct, and no unfinished step outside an active run |
| `ScenarioRecords.CallsKeepInvariant` | crates/pengu-mesh-core/src/scenario_recorder.rs:233-414 | so does every sequence of calls |
| `ScenarioRecords.InactiveEvidenceIsKept` | crates/pengu-mesh-core/src/scenario_recorder.rs:472-505 | no call changes the record, steps, assertions or samples of a run that is not active |
| `ScenarioRecords.FinishedRunStaysFrozen` | crates/pengu-mesh-core/src/scenario_recorder.rs:380-414 | once finished, a run has no active step and all its evidence stays the same under every sequence of calls |
| `ScenarioRecords.NewAssertionIsAnchored` | crates/pengu-mesh-core/src/scenario_recorder.rs:262-312 | an added assertion names a run and step that are active and belong together, and holds what the call gave, field by field |
| `ScenarioRecords.NewSampleIsAnchored` | crates/pengu-mesh-core/src/scenario_recorder.rs:314-349 | so does an added sample |
| `ScenarioRecords.EveryAssertionWasAnchored` | crates/pengu-mesh-core/src/scenario_recorder.rs:262-312 | after any sequence of calls, every assertion was recorded by one of them while its run and its own step were active, and holds what that call gave, field by field |
| `ScenarioRecords.EverySampleWasAnchored` | crates/pengu-mesh-core/src/scenario_recorder.rs:314-349 | the same for every sample |
| `ScenarioRecords.FinishCanSlipIn` | crates/pengu-mesh-core/src/scenario_recorder.rs:240-258 | a finish between the guard and the write of adding a step leaves an unfinished step in a finished run |
| `ScenarioRecords.LateStepIsSafeExactly` | crates/pengu-mesh-core/src/scenario_recorder.rs:240-258 | a late write of a step keeps the invariant if and only if its run is still active |
| `ScenarioRecords.LateWriteIsHarmlessExactly` | crates/pengu-mesh-core/src/scenario_recorder.rs:233-414 | any insertion or whole-row update, made after its guards have become stale, leaves the evidence of all finished runs alone if and only if it adds no row to a finished run and changes no row of one |
| `ScenarioRecords.LateFinishIsHarmlessExactly` | crates/pengu-mesh-core/src/scenario_recorder.rs:357-412 | for the two finishes that means: if the run is finished by then, the row prepared from the one the guard read is the stored row |
| `ScenarioRecords.StaleFinishErasesCode` | crates/pengu-mesh-core/src/scenario_recorder.rs:357-376 | of two callers finishing a step at once, the later without an error code erases the code of the earlier, even after the run was finished in between |
| `ScenarioSummaries.ScenarioSummary` | crates/pengu-mesh-core/src/lib.rs:138-189 | the one pass yields one entry per family in first-seen order, each summarizing exactly its family's runs, with the first listed run as the latest |
| `ScenarioSummaries.FailuresAreTheRest` | crates/pengu-mesh-core/src/lib.rs:166-171 | the failures are the assertions other than those whose status is "passed" |
| `ScenarioSummaries.StatusCountMeans` | crates/pengu-mesh-core/src/lib.rs:156-158 | the count of a status is the multiplicity of that status among the runs |
| `ScenarioSummaries.SummaryConserves` | crates/pengu-mesh-core/src/lib.rs:138-189 | runs, assertions, failures and samples over all families add up to those listed, and status counts to each family's runs |
| `ScenarioSummaries.FiguresAreOrderStatistics` | crates/pengu-mesh-core/src/lib.rs:106-118 | minimum and maximum bound all samples, more than half are at most the median, at most half are below it |
| `OrderStatistics.RankIsCount` | crates/pengu-mesh-core/src/threshold.rs:38-46 | entry k of the sorted samples is within a bound exactly if more than k samples are, in whatever order |
| `Thresholds.EvaluateThreshold` | crates/pengu-mesh-core/src/threshold.rs:48-99 | reports the violations of maximum and percentiles in order; no samples pass |
| `Thresholds.ReportMeans` | crates/pengu-mesh-core/src/threshold.rs:48-99 | each reported violation is a budget of the threshold under its label with a sample above it, the largest one for the maximum; no label occurs twice; the report counts all samples and passes exactly without violations |
| `Thresholds.PercentileMeets` | crates/pengu-mesh-core/src/threshold.rs:38-46 | a percentile of the rounded samples is within a budget exactly if at least ceil(p n) raw samples are |
| `Thresholds.PercentilesOfHundred` | crates/pengu-mesh-core/src/threshold.rs:38-86 | of a hundred samples p50, p95 and p99 are the 50th, the 95th and the 99th smallest |
| `Thresholds.VerdictIsExact` | crates/pengu-mesh-core/src/threshold.rs:48-99 | for all samples the verdict on the rounded ones is what the threshold asks of the samples as charged, and so of the raw ones if each is a number below 2^64 |
| `Thresholds.VerdictIsExactFor` | crates/pengu-mesh-core/src/lib.rs:314-320 | for one threshold the verdict is what it asks of the raw samples if and only if all are such numbers or the samples as charged do not meet it |
| `Thresholds.VerdictIsExactExactly` | crates/pengu-mesh-core/src/lib.rs:314-320 | a list of samples gets the right verdict from every threshold if and only if each sample is finite and below 2^64 ms |
| `Thresholds.InfinitePasses` | crates/pengu-mesh-core/src/lib.rs:314-320 | one infinite sample passes every threshold although it is within none |
| `Thresholds.SamplesByMetric` | crates/pengu-mesh-core/src/lib.rs:2936-2944 | the nested loops group the rounded samples of all runs by metric, in listed order |
| `Thresholds.GateVerdict` | crates/pengu-mesh-core/src/lib.rs:2936-2954 | the gate's verdict on a threshold is what it asks of the samples of its own metric over all runs as charged, of the raw ones if those are countable, whatever other metrics hold; it passes without samples |
| `RoundRobin.RoundRobinPolicy.Select` | crates/pengu-mesh-core/src/allocation.rs:121-134 | picks an available entry by the wrapping counter, or says why there is none and leaves the counter |
| `RoundRobin.AvailableInOrder` | crates/pengu-mesh-core/src/allocation.rs:126 | the entries selected from are exactly the available candidates, in listed order |
| `RoundRobin.SelectRepeatedly` | crates/pengu-mesh-core/src/allocation.rs:121-134 | m selections on an unchanging list all succeed and choose the entries the wrapping counter runs through |
| `RoundRobin.SelectionIsBalanced` | crates/pengu-mesh-core/src/allocation.rs:121-134 | from any counter value each of the n entries is among any m consecutive ones floor(m/n) or ceil(m/n) times, unless the counter wraps at a number n does not divide |
| `RoundRobin.RepeatedSelectionIsBalanced` | crates/pengu-mesh-core/src/allocation.rs:121-134 | so m selections name available candidates only and, with distinct ids and no such wrap, each of them floor(m/n) or ceil(m/n) times |
| `RoundRobin.BalancedThroughWrapsExactly` | crates/pengu-mesh-core/src/allocation.rs:130-131 | runs of any length through any number of wraps are balanced if and only if n divides 2^64 |
| `RoundRobin.SeamBreaksBalance` | crates/pengu-mesh-core/src/allocation.rs:130-131 | for every other n one entry is picked again too early at the wrap |
| `AutoRestart.RestartTracker.RecordStart` | crates/pengu-mesh-core/src/autorestart.rs:94-96 | remembers the start and nothing else |
| `AutoRestart.RestartTracker.RecordCrash` | crates/pengu-mesh-core/src/autorestart.rs:100-113 | counts the crash, from zero after a stable run |
| `AutoRestart.RestartTracker.Clear` | crates/pengu-mesh-core/src/autorestart.rs:140-144 | the reset: forgets the attempts and both times |
| `AutoRestart.RestartTracker.ShouldRestart` | crates/pengu-mesh-core/src/autorestart.rs:119-137 | gives up exactly beyond the budget; otherwise waits the largest whole number of milliseconds within the cap, 64 bits and the exponential backoff |
| `AutoRestart.LastStartIsRemembered` | crates/pengu-mesh-core/src/autorestart.rs:94-143 | the remembered start is the last one of the history with no reset after it |
| `AutoRestart.AttemptsCountTheStretch` | crates/pengu-mesh-core/src/autorestart.rs:100-113 | after any history the attempts are the crashes since the last reset or stable crash |
| `AutoRestart.StretchExists` | crates/pengu-mesh-core/src/autorestart.rs:100-143 | every history has such a current stretch |
| `AutoRestart.RestartBudget` | crates/pengu-mesh-core/src/autorestart.rs:119-137 | for any two crashes of a stretch in any history: the answer after the later is a restart exactly if it is among the first `max_restarts` of the stretch, then so is the earlier answer, its delay is capped and, with a factor of at least one and a budget within the range of the exponent, not less than the earlier delay |
| `AutoRestart.DelaysGrowExactly` | crates/pengu-mesh-core/src/autorestart.rs:130-135 | with a factor of two or more the delays of a budget never decrease if and only if the budget is at most 2^31, where the cast of the exponent turns negative |
| `AutoRestart.CountsAsMeantExactly` | crates/pengu-mesh-core/src/autorestart.rs:94-113 | the attempts are the crashes since the last reset or the last crash of an instance that itself ran for the stable period, in every state of a history, if and only if no crash lies between a stable crash and the start its uptime is measured from |
| `AutoRestart.CrashLoopNeverGivesUp` | crates/pengu-mesh-core/src/autorestart.rs:100-113 | one recorded start followed by any number of crashes later than the stable period after it always counts as one attempt |
| `AutoRestart.FirstDelay` | crates/pengu-mesh-core/src/autorestart.rs:129-136 | the first restart waits for the initial delay or the cap |
| `AutoRestart.WaitsMultiply` | crates/pengu-mesh-core/src/autorestart.rs:129-135 | before the cap, the first wait is the initial delay and each further one the factor times the one before, within the range of the exponent |
| `SynonymIndex.BuildSynonymIndex` | crates/pengu-mesh-core/src/semantic.rs:138-162 | the nested loops list under each word exactly what the groups put there |
| `SynonymIndex.IndexIsSymmetric` | crates/pengu-mesh-core/src/semantic.rs:138-162 | the index is symmetric for every table of groups |
| `SynonymIndex.IndexIsTheRelationExactly` | crates/pengu-mesh-core/src/semantic.rs:138-162 | it is the relation "two different members of one group" if and only if no group lists its canonical word among its own synonyms |
| `LexicalScore.PhraseTokens` | crates/pengu-mesh-core/src/semantic.rs:172-197 | marks exactly the tokens inside a phrase of two or three tokens that the index knows |
| `LexicalScore.RemoveStopwords` | crates/pengu-mesh-core/src/semantic.rs:186-217 | keeps exactly the tokens worth keeping against the other text, or all if none are |
| `LexicalScore.DroppedExactly` | crates/pengu-mesh-core/src/semantic.rs:200-210 | a token is dropped exactly if it is in no known phrase of two or three neighbours and is a plain stopword, or one that may carry meaning but is neither in the other text nor in the index |
| `LexicalScore.KeptInPlace` | crates/pengu-mesh-core/src/semantic.rs:199-211 | the result lists exactly the tokens at the kept positions, in their order |
| `LexicalScore.FilterKeepsASubsequence` | crates/pengu-mesh-core/src/semantic.rs:186-217 | the filter leaves a subsequence and empties nothing |
| `LexicalScore.WeightedJaccardSimilarity` | crates/pengu-mesh-core/src/semantic.rs:227-253 | the two passes over the frequency tables give intersection over union of the multisets of tokens |
| `LexicalScore.JaccardProperties` | crates/pengu-mesh-core/src/semantic.rs:227-253 | symmetric, between zero and one, and one exactly for nonempty rearrangements |
| `MatchBoosts.SynonymScore` | crates/pengu-mesh-core/src/semantic.rs:255-302 | counts the phrases, overlapping or not, and the single tokens outside them with a synonym all of whose words occur in the other text |
| `MatchBoosts.TokenPrefixScore` | crates/pengu-mesh-core/src/semantic.rs:304-339 | averages each token's best prefix ratio, in UTF-8 bytes |
| `MatchBoosts.BestRatioIsMaximum` | crates/pengu-mesh-core/src/semantic.rs:316-333 | the best ratio is attained, is the largest, and is below one |
| `MatchBoosts.RoleOverlapBoost` | crates/pengu-mesh-core/src/semantic.rs:341-367 | counts shared and implied roles once per distinct token, up to the cap |
| `MatchBoosts.BoostBounds` | crates/pengu-mesh-core/src/semantic.rs:255-367 | no boost is negative; prefixes give at most one, roles at most the cap |
| `LexicalScore.ComputeScore` | crates/pengu-mesh-core/src/semantic.rs:369-391 | the loops compute the specified score |
| `LexicalScore.ScoreProperties` | crates/pengu-mesh-core/src/semantic.rs:369-391 | the score is symmetric, lies in [0, 1], and is one on identical texts with at least one token, even one of stopwords only |
| `WordScores.UnlikeWordsScore` | crates/pengu-mesh-core/src/semantic.rs:369-391 | two words without a common beginning score 0.30 exactly if the index relates them in either direction, and 0.096 more if it leads from a word that is no role to one that is |
| `WordScores.PrefixScores` | crates/pengu-mesh-core/src/semantic.rs:304-391 | a word that begins another scores 0.20 times its part of it in bytes, 0.14 times if it is one byte long |
| `WordScores.RolesInCommonScore` | crates/pengu-mesh-core/src/semantic.rs:341-391 | texts with any number n of shared roles and one word apart score n / (n + 2) and 0.12 for each role up to 0.25, at most one |
| `WordScores.PhraseScore` | crates/pengu-mesh-core/src/semantic.rs:255-391 | a phrase of two words that the index translates into the other text scores 0.15, although both words may be stopwords |
| `WordScores.WordsOfPhrase` | crates/pengu-mesh-core/src/semantic.rs:172-184 | a phrase splits into the words that it joins |
| `LexicalScore.BestMatch` | crates/pengu-mesh-core/src/semantic.rs:419-430 | the first of the best candidates, if positive and not under the threshold; none exactly if no candidate qualifies |
| `Leases.LeaseStore.AcquireLease` | crates/pengu-mesh-state/src/lib.rs:1342-1435 | refuses exactly a writer request while another holder has an unexpired writer lease, although it looks at one writer row only; on success the lease is stored and every other unexpired row is as it was; a refusal changes nothing |
| `Leases.ObserversAreAdmitted` | crates/pengu-mesh-state/src/lib.rs:1371-1406 | an observer request with a fresh id is granted whoever holds what, and changes no unexpired row but its own |
| `Leases.LeaseStore.TransferWriterLease` | crates/pengu-mesh-state/src/lib.rs:1638-1701 | fails for want of a lease exactly if the previous holder has no unexpired writer lease; on success that lease is gone, the replacement is stored, and every other unexpired row is as it was; on failure nothing changes |
| `Leases.LeaseStore.DeleteLeases` | crates/pengu-mesh-state/src/lib.rs:1600-1636 | exactly the leases of that holder on that resource go, of the mode or of both, the others stay as they are, and the result counts at most one for each mode |
| `Leases.ApplyKeepsSingleWriter` | crates/pengu-mesh-state/src/lib.rs:1342-1701 | each transaction keeps at most one writer row per instance, expired rows included |
| `Leases.NeverTwoWriters` | crates/pengu-mesh-state/src/lib.rs:1342-1701 | so does every interleaving of callers, with whatever clocks |
| `Leases.TransferIsSafeExactly` | crates/pengu-mesh-state/src/lib.rs:1638-1701 | a transfer with an arbitrary replacement keeps the guarantee if and only if the replacement is no second writer |
| `Leases.WriterLeaseLasts` | crates/pengu-mesh-state/src/lib.rs:1342-1701 | until it expires, by the text order the store uses, a writer lease outlasts everything other holders do |
| `Timestamps.TextOrderIsTimeOrder` | crates/pengu-mesh-shared/src/outcome.rs:54-58 | for all RFC 3339 stamps in UTC the order as text is that of time, except that it is reversed between stamps of one second whose fractions begin one another |
| `Timestamps.TextOrderIsTimeOrderExactly` | crates/pengu-mesh-shared/src/outcome.rs:54-58 | so comparing as text is comparing in time if and only if the two stamps are not such a pair |
| `Leases.ExpiredEarlyExactly` | crates/pengu-mesh-state/src/lib.rs:1347-1348 | a lease is taken for expired before its time if and only if the clock and the expiry are such a pair |
| `Leases.ExpiredExactly` | crates/pengu-mesh-state/src/lib.rs:1347-1348 | from the expiry on, that time included, a lease counts as expired and before it not, with the answer reversed exactly for such pairs |
| `Leases.WriterLeaseLastsInTime` | crates/pengu-mesh-state/src/lib.rs:1342-1701 | in real time a writer lease outlasts everything other holders do up to its last second, and in that second at every time that is no such pair with the expiry |
| `Leases.OthersWaitForExpiry` | crates/pengu-mesh-state/src/lib.rs:1342-1701 | after any sequence of calls that spares a writer lease, another holder's request is granted if and only if that lease has expired by then |
| `Leases.ExactlyOneOfTwoAcquires` | crates/pengu-mesh-state/src/lib.rs:1342-1435 | of two requests for a free instance the first served wins and the second changes nothing |

## Left out

- McpFraming.RunStdioServer: the handler is any deterministic function of runtime state and request; the JSON it parses and prints, and the tools behind it, are not modelled, nor are I/O errors on the two pipes.
- HttpRequests.ReadRequest: the method is not upper-cased, the target is not split and percent-decoded, errors of the socket other than end of stream are left out; `write_response` is straight-line output.
- ReplayExport.WritePortableReplay: partly written copies in the staging directory are not distinguished from whole ones; manifest events, export time and non-UTF-8 file names are left out; artifact sources inside the replay root are taken not to change during the export.
- LexicalScore.ComputeScore: texts are given as token lists; lower-casing and splitting into tokens, which need the Unicode tables, are not modelled, and the word tables are parameters.
- AutoRestart.RestartTracker.ShouldRestart: the cast of an uptime to 64 bits, an attempts counter that passes 2^32, and rounding of the delay to a float.
- Scenario gate: freshness, the minimum sample count and the report text.
- ScenarioSummaries.ScenarioSummary: the clamped list limit, the SQL order of runs, the sign of zero and the payload of NaN in sorting.
- ScenarioRecords.CreateScenarioStep: `ScenarioRecorder` and `StepRecorder`, which wrap the same functions, and environment fingerprints.
- Leases: `upsert_lease`, which checks nothing and has no caller outside tests; the access policy built on the leases.
- Manifest-only replay export, which copies nothing.
- First-come and random allocation: a straight filter and a pseudo-random choice.
- CDP sockets, browser launch, macOS accessibility, PDF, PNG and tar encoding, the dashboard, the CLI, webhooks and the reverse proxy: I/O and library code.
- Recovery hints, capability and route tables, diagnostics: constant tables.
