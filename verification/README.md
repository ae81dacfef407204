# Verified model of the waitbus measurement engine

The benches under `benchmarks/` decide whether a latency, an integrity count or a budget can be
believed. This project models the parts of them whose correctness is not obvious from one function
body, in Dafny, and proves what they are for. `dafny verify dfyconfig.toml` checks everything.

| file | models |
|---|---|
| `Headers.dfy`, `Framing.dfy`, `Receiver.dfy`, `Events.dfy`, `Gates.dfy`, `Delivery.dfy` | the fidelity bench: cutting a text into hashed events, the length-prefixed byte stream and the peer's incremental decoder, the parsers of the printed lines, the integrity and ordering counters, and the whole arm end to end |
| `Pipeline.dfy`, `Deadlock.dfy`, `Arm.dfy` | the same arm as interleaved steps: producer, bounded socket, peer, bounded stdout pipe, collector thread with its private read buffer; what goes wrong without the concurrent collector, or with a child that never exits; and the fidelity bench's frames carried through it |
| `FsHandshake.dfy`, `FlipProtocol.dfy` | the two polling benches as interleaved threads over events, a queue, a file and a clock |
| `Pacing.dfy`, `Swarm.dfy` | the open-loop scheduler, the throughput window's loop, the producer swarm's capped sleep, and its threads over shared locked counters and a stop flag |
| `Wilson.dfy`, `Percentiles.dfy` | the rank interval of a percentile, the clamping recorder, interpolated percentiles, the bootstrap interval |
| `Budget.dfy`, `RateSearch.dfy`, `Drain.dfy` | the cost gate inside its two loops, the halving/doubling search, the concurrent drain |
| `Outliers.dfy`, `LeakSlope.dfy` | the pilot's outlier threshold and the window partition, the least-squares leak slope |
| `Picker.dfy`, `ProcParsers.dfy` | the weighted source picker, the two `/proc` parsers |
| `Sequences.dfy`, `Text.dfy`, `Sorting.dfy`, `Numbers.dfy`, `Reals.dfy` | what these share: joining, Python string operations, sorted lists, rounding, products of reals |

Protocols are state machines: a `State`, a `Step` datatype whose constructors are the program's
atomic actions, `Enabled` and `Apply`; a theorem about every run quantifies over every list of enabled
steps. Loops that update variables are methods proved against specification functions, and the
theorems are about those functions. Clocks, schedulers, random draws, digests and codecs are
parameters: functions or arbitrary step arguments, restricted only where a lemma says so.

Where a docstring and the code disagree, the model follows the code:

- The fs worker takes its stamp after the touch (`bench_polling_baseline_fs.py:155-157`), not before
  as line 13 says; hence latencies are free of negative values exactly when the stamp reads the very
  time of the touch (`FsHandshake.NegativeLatencyIff`).
- The GitHub bench explains its clamp by a race that gives negative latencies
  (`bench_polling_baseline_github.py:373-379`); the stamp precedes the flip, so on a monotone clock
  there is none (`FlipProtocol.LatencyNotNegative`).
- The segmenter gives one extra byte to each of the last segments
  (`bench_event_delivery_fidelity.py:548-551`), not the whole remainder to the last one.
- The rate search does not converge to 1.5%, as line 38 says (`bench_throughput.py:544-549`): once it
  has seen a drop and a pass it stays at a rate fixed by the start and the threshold, and is within a
  relative error exactly when the threshold is that close above it (`RateSearch.AccuracyIff`). From
  the default start of 1000, a threshold of 1900 is reported as 1000 for ever.
- The swarm sleeps at most half a second and does not look again
  (`_bench_ci_producer_swarm.py:193`).
- A child drained past its grace period yields empty output even if bytes were buffered, because the
  second timeout leaves the variable unset (`_bench_shared.py:475-479`).
- The collector promises to keep the child from blocking, but `select` sees only the pipe: lines
  already in its buffer stay there if the child writes nothing more and does not exit
  (`Deadlock.StrandingIsPossibleIff`).
- The recorder's documentation says that with a nonzero high clamp count a reported percentile is only
  a lower bound; it is still exact at every rank the counters leave alone
  (`Percentiles.ExactIff`).

## Model

| member | source | states |
|---|---|---|
| Headers.LengthOfHeader | benchmarks/bench_event_delivery_fidelity.py:1009-1010 | unpacking a packed length gives it back |
| Headers.HeaderOfLength | benchmarks/bench_event_delivery_fidelity.py:815 | packing an unpacked header gives it back |
| Headers.HeadersSortAsLengths | benchmarks/bench_event_delivery_fidelity.py:1009-1010 | one length is smaller than another if and only if its header is, at the first byte that differs: the most significant byte comes first |
| Framing.ParseAccountsForEveryByte | benchmarks/bench_event_delivery_fidelity.py:812-821 | re-encoding the frames decoded and appending what is left over is the input, and what is left over holds no complete frame |
| Framing.ParseResumes | benchmarks/bench_event_delivery_fidelity.py:808-821 | decoding a then resuming on the remainder with b is decoding a + b: reads may split anywhere |
| Framing.ParseEncoded | benchmarks/bench_event_delivery_fidelity.py:1005-1010 | decoding an encoded list followed by any incomplete tail gives exactly the list and the tail |
| Framing.TornFrame | benchmarks/bench_event_delivery_fidelity.py:814-819 | a proper prefix of an encoded frame is no frame and no error |
| Framing.ParseStopsAtOversized | benchmarks/bench_event_delivery_fidelity.py:816-817 | a payload over 16 MiB ends decoding there with the error |
| Framing.DecodesIffAcceptable | benchmarks/bench_event_delivery_fidelity.py:804-827 | a sent list is decoded in full if and only if every payload is within the cap |
| Receiver.TakeFrames | benchmarks/bench_event_delivery_fidelity.py:813-827 | the inner loop computes the decoding of its input: frames, remainder, error |
| Receiver.LaterReadsOnlyExtend | benchmarks/bench_event_delivery_fidelity.py:808-812 | what the first reads decode to is a prefix of what all reads decode to |
| Receiver.Peer.constructor | benchmarks/bench_event_delivery_fidelity.py:806-807 | nothing read, nothing printed |
| Receiver.Peer.Feed | benchmarks/bench_event_delivery_fidelity.py:809-827 | one read keeps encode(printed) + pending = bytes read, with no complete frame pending |
| Receiver.Peer.Serve | benchmarks/bench_event_delivery_fidelity.py:808-827 | for every way of cutting the stream into non-empty reads the printed frames are those of the stream; the loop ends on the count, end of file or an oversized frame, and tests the count between reads only |
| Events.PreimageInjective | benchmarks/bench_event_delivery_fidelity.py:336-350 | the hashed text iter, bar, seq, bar, bytes determines iter, seq and bytes |
| Events.PreimageLayout | benchmarks/bench_event_delivery_fidelity.py:343-350 | what the digest is fed, byte for byte: the decimal iteration id, a bar, the decimal sequence number, a bar, the bytes |
| Events.SegmentsTile | benchmarks/bench_event_delivery_fidelity.py:543-553 | consecutive segments meet and the last one ends at the total |
| Events.SegmentsAreEven | benchmarks/bench_event_delivery_fidelity.py:541-551 | no segment is empty, lengths differ by at most one byte and never fall |
| Events.SegmentText | benchmarks/bench_event_delivery_fidelity.py:526-556 | a non-empty text and a positive target give as many events as the smaller of the target and the byte count, which carry seqs 0..n-1 and their own hashes and concatenate to the text; empty text or a negative target gives none, a zero target with text is an error |
| Gates.ChunkLineReadsBack | benchmarks/bench_event_delivery_fidelity.py:826 | the line printed for a frame parses back to that frame, base64 padding included, when the codecs undo each other on that frame |
| Gates.BodyToken | benchmarks/bench_event_delivery_fidelity.py:1341-1345 | the loop over tokens finds the value of the last body token |
| Gates.DecodableIff | benchmarks/bench_event_delivery_fidelity.py:1339-1351 | a line delivers a frame if and only if it starts with the prefix and the last token with the body key, after the first token, decodes to that frame |
| Gates.DecodedLineByLine | benchmarks/bench_event_delivery_fidelity.py:1336-1351 | every line contributes its own frame, in its place, or nothing, whatever stands before and after it |
| Gates.ParseDeliveredRehashes | benchmarks/bench_event_delivery_fidelity.py:1316-1357 | the dictionary is the fresh hash of the delivered frames, later copies overwriting |
| Gates.ParseDeliveredOrder | benchmarks/bench_event_delivery_fidelity.py:1360-1395 | the list is the seqs of the decodable lines in line order |
| Gates.OrderingInversions | benchmarks/bench_event_delivery_fidelity.py:1398-1412 | the count is the number of positions that descend |
| Gates.DeliveryIntegrityFailures | benchmarks/bench_event_delivery_fidelity.py:1483-1512 | the count is the number of source seqs missing or differing, in whatever order they are visited |
| Gates.LastCopyIsLast | benchmarks/bench_event_delivery_fidelity.py:1352-1357 | the last copy of a seq is the delivered frame after which no other carries that seq |
| Gates.RehashesKeepLastCopies | benchmarks/bench_event_delivery_fidelity.py:1352-1357 | each seq's re-hash is that of its last decodable copy |
| Gates.ZeroDescentsIffAscending | benchmarks/bench_event_delivery_fidelity.py:1408-1412 | no descent if and only if no pair at all is out of order |
| Gates.ZeroFailuresIffIntact | benchmarks/bench_event_delivery_fidelity.py:1507-1512 | without a digest collision, no failure if and only if the last copy of every seq carries the source bytes under the source iteration |
| Gates.AscendingCoverIffCollapses | benchmarks/bench_event_delivery_fidelity.py:1408-1412 | ascending over 0..n-1 with nothing missing if and only if the order is 0..n-1 up to adjacent repeats |
| Gates.GatesAreSound | benchmarks/bench_event_delivery_fidelity.py:1398-1512 | for deliveries drawn from the source seqs both counters are zero if and only if the delivered order is 0..n-1 up to adjacent repeats and every last copy is intact |
| Delivery.PrefixVerdict | benchmarks/bench_event_delivery_fidelity.py:1316-1512 | a prefix of the replay, in order, fails exactly on the seqs it lacks and has no descent |
| Delivery.PeerDecodes | benchmarks/bench_event_delivery_fidelity.py:804-827 | the peer decodes exactly the payloads before the first one over the cap |
| Delivery.RunPeer | benchmarks/bench_event_delivery_fidelity.py:789-839 | however the stream is cut, the peer prints a prefix of its frames: all of them, or at least as many as it expects |
| Delivery.Carry | benchmarks/bench_event_delivery_fidelity.py:1096-1123 | from frames to the collector's parsed lines nothing is altered, reordered or invented |
| Delivery.Judge | benchmarks/bench_event_delivery_fidelity.py:1316-1512 | the two counters over the parsed lines |
| Delivery.DeliverText | benchmarks/bench_event_delivery_fidelity.py:1062-1123 | end to end, for every text, target, slicing and clock: as many events as the smaller of target and byte count concatenate to the text, the received frames are its first ones in order, there is no inversion, and no failure if and only if every frame is within the cap |
| Pipeline.NextLine | benchmarks/bench_event_delivery_fidelity.py:931-941 | the newline `readline` finds ends exactly the next line the child printed |
| Pipeline.InvPreserved | benchmarks/bench_event_delivery_fidelity.py:896-955 | every step of producer, socket, child, pipe, buffer and collector keeps the flow and line invariants |
| Pipeline.EofComesAfterDone | benchmarks/bench_event_delivery_fidelity.py:936-940 | a child that has gone has printed its DONE line, so end of file is never read first |
| Pipeline.CollectedIsPrefix | benchmarks/bench_event_delivery_fidelity.py:929-941 | in every reachable state the kept lines are a prefix of the lines written before DONE |
| Pipeline.NeverStuck | benchmarks/bench_event_delivery_fidelity.py:896-942 | with the concurrent collector no unfinished state of an exiting child is stuck, whatever the capacities |
| Pipeline.EveryStepDescends | benchmarks/bench_event_delivery_fidelity.py:926-941 | a lexicographic measure falls on every step |
| Pipeline.EverythingIsCollected | benchmarks/bench_event_delivery_fidelity.py:896-955 | every interleaving that does not give up ends with all lines collected |
| Arm.CollectedFramesArePrefix | benchmarks/bench_event_delivery_fidelity.py:1062-1123 | in every reachable state, for all capacities, the kept lines decode to the first of the frames sent |
| Arm.EveryFrameIsCollected | benchmarks/bench_event_delivery_fidelity.py:1062-1123 | every schedule that does not give up ends with the kept lines decoding to exactly the frames sent |
| Deadlock.ReadAfterSendDeadlocks | benchmarks/bench_event_delivery_fidelity.py:896-908 | reading only after sending has a reachable stuck state if and only if the frames overflow socket plus pipe |
| Deadlock.QuietMeansBuffered | benchmarks/bench_event_delivery_fidelity.py:931-935 | when a child that does not exit goes quiet, all it printed has left the pipe and every missing line sits complete in the collector's private buffer |
| Deadlock.StrandingIsPossibleIff | benchmarks/bench_event_delivery_fidelity.py:931-955 | such a child can leave lines uncollected for ever if and only if its last line and the newline before it fit into one refill of the buffer |
| FsHandshake.InvPreserved | benchmarks/bench_polling_baseline_fs.py:134-195 | every step of worker and poller keeps the counting, event, file, history and clock invariants |
| FsHandshake.ExactPairing | benchmarks/bench_polling_baseline_fs.py:143-192 | in every interleaving gets <= puts <= touches <= requests <= gets + 1, the snapshot of iteration i comes after exactly i touches, and sample i pairs a sight of touch i with the stamp of touch i |
| FsHandshake.LatencyLowerBound | benchmarks/bench_polling_baseline_fs.py:155-157 | on a monotone clock a latency is below zero by no more than the delay between touch and stamp |
| FsHandshake.NegativeLatencyIff | benchmarks/bench_polling_baseline_fs.py:155-157 | for every start and every n >= 1, the runs on a monotone clock whose stamps follow their touches within a gap are free of negative latencies if and only if the gap is zero |
| FsHandshake.NegativeLatencyHappens | benchmarks/bench_polling_baseline_fs.py:155-157 | for every gap a run whose one latency is minus that gap |
| FsHandshake.PollEndsIff | benchmarks/bench_polling_baseline_fs.py:179-187 | a turn of the poll loop in iteration i ends it if and only if touch i has happened and left an mtime other than the one before it |
| FsHandshake.NoRequestIsLost | benchmarks/bench_polling_baseline_fs.py:147-157 | while the poller awaits an answer the worker is never blocked and each of its steps brings it closer to the put: wait then clear loses no request |
| FsHandshake.AtMostOneMoreTouch | benchmarks/bench_polling_baseline_fs.py:138-157 | after the stop flag is set at most one more touch happens |
| FsHandshake.WorkerExits | benchmarks/bench_polling_baseline_fs.py:138-157 | after `stop()` the worker is never blocked, only it steps, and every step lowers its distance to the exit |
| FsHandshake.WorkerTerminates | benchmarks/bench_polling_baseline_fs.py:138-157 | every run from the return of `stop()` has at most four steps, and one that cannot go on has ended the worker |
| FlipProtocol.InvPreserved | benchmarks/bench_polling_baseline_github.py:208-379 | every step of main loop, server and flip threads keeps the invariants |
| FlipProtocol.OwnFlipObserved | benchmarks/bench_polling_baseline_github.py:337-379 | no unfired flip survives into the next reset; each completed answer was caused by its own iteration's flip and paired with the only stamp that thread left |
| FlipProtocol.LatencyNotNegative | benchmarks/bench_polling_baseline_github.py:302-304 | on a monotone clock no latency is negative |
| FlipProtocol.LatencyUpperBound | benchmarks/bench_polling_baseline_github.py:245-281 | with polls on schedule and answers within trip <= interval a latency is at most interval + trip + the gap between stamp and flip |
| Pacing.RoundingDrift | benchmarks/_harness.py:215-217 | rounding the interval moves the i-th intended time by at most i/2 ns |
| Pacing.OpenLoopScheduler.Create | benchmarks/_harness.py:207-217 | a scheduler exists if and only if rate and count are positive |
| Pacing.OpenLoopScheduler.Iterate | benchmarks/_harness.py:236-242 | iterating yields n times, the first at the clock reading and each next one interval later |
| Pacing.YieldedAreIntended | benchmarks/_harness.py:236-242 | times spaced like that are the intended ones |
| Pacing.IntendedIsOnGrid | benchmarks/_harness.py:242 | the i-th intended time is t0 + i I |
| Pacing.RunWindow | benchmarks/bench_throughput.py:428-438 | over a scheduler's times the loop dispatches at d_i = max(t0 + i I, d_(i-1) + w_(i-1)) and stops at the first reading past the deadline |
| Pacing.ClosedForm | benchmarks/bench_throughput.py:428-438 | d_i is the largest, over j <= i, of when tick j could go plus the work since |
| Pacing.BetweenIntendedAndClosedLoop | benchmarks/bench_throughput.py:428-438 | never earlier than intended, never later than a closed loop paced at max(I, w) |
| Pacing.OnTimeIff | benchmarks/bench_throughput.py:428-438 | all of the first n + 1 ticks go on time if and only if the start is on time and every work fits the interval |
| Pacing.BacklogDrains | benchmarks/_harness.py:174-184 | after a slow tick the schedule is unmoved: later ticks go on the original grid or as soon as the backlog lets them |
| Pacing.SwarmPace | benchmarks/_bench_ci_producer_swarm.py:186-195 | the swarm never runs ahead of the faster of its interval and the cap |
| Pacing.SwarmAgainstDispatch | benchmarks/_bench_ci_producer_swarm.py:189-193 | no sleep exceeds 0.5 s, an early emit ends a full one, no emit is later than the uncapped loop would make it, and with an interval within 0.5 s the two are the same |
| Pacing.SwarmNeverEarlyIff | benchmarks/_bench_ci_producer_swarm.py:186-195 | no tick of any run is early if and only if the interval is at most 0.5 s |
| Swarm.StepKeepsInv | benchmarks/_bench_ci_producer_swarm.py:170-225 | every step of every producer keeps the lock, tally and id invariants, an increment being a separate load and store |
| Swarm.NoIncrementIsLost | benchmarks/_bench_ci_producer_swarm.py:186-225 | in every interleaving each shared counter is the sum of the threads' own increments, emits + errors = ticks completed, and at the end every late tick was emitted, failed or fatal |
| Swarm.EveryStepIsCounted | benchmarks/_bench_ci_producer_swarm.py:177-225 | in every interleaving each counter, with the increments still waiting for the lock, is the number of its own events: publishes that came back, publishes that failed, ticks found late, threads that gave up; at the end nothing waits |
| Swarm.EveryIdOnce | benchmarks/_bench_ci_producer_swarm.py:197 | no two emits of a run carry the same iteration id |
| Swarm.IdInBlock | benchmarks/_bench_ci_producer_swarm.py:197 | every id of producer i lies in the i-th block of ids from the base on |
| Swarm.AtMostOneMoreEmit | benchmarks/_bench_ci_producer_swarm.py:187-188 | once the stop flag is set each producer emits at most once more |
| Swarm.NeverStuck | benchmarks/_bench_ci_producer_swarm.py:137-225 | until every thread is done the lock's holder, or else anyone, can go on |
| Swarm.RunsAreBounded | benchmarks/_bench_ci_producer_swarm.py:161-169 | every run ends within a bound fixed at its start |
| Wilson.BoundsAreRoots | benchmarks/_harness.py:280-284 | the bounds are the two roots of (1 + z^2/n) x^2 - (2p + z^2/n) x + p^2 |
| Wilson.ClipsNeverBind | benchmarks/_harness.py:284 | 0 < low < p < high < 1, so the clips change nothing |
| Wilson.Mirror | benchmarks/_harness.py:280-284 | low at p is one minus high at 1 - p |
| Wilson.NestsInward | benchmarks/_harness.py:280-284 | a larger sample gives a strictly narrower interval on both sides |
| Wilson.OneSampleInverts | benchmarks/_harness.py:392-397 | with one sample the trimmed bounds are 1 and 0 |
| Wilson.PointStaysInsideIff | benchmarks/_harness.py:392-397 | p stays between the trimmed bounds if and only if 1/n <= p <= 1 - 1/n |
| Wilson.TrimmedOrderIff | benchmarks/_harness.py:392-397 | for one p, when the trimmed bounds keep their order, decided without a square root |
| Wilson.TrimmedOrderForAllPercentilesIff | benchmarks/_harness.py:392-397 | for n >= 2 the trimmed order holds at every percentile if and only if z^2 (n - 1) >= n |
| Wilson.TrimmedOrderAtUsualQuantiles | benchmarks/_harness.py:392-397 | so it holds for all n >= 2 once z^2 >= 2 |
| Budget.CostBudgetTracker.constructor | benchmarks/_bench_shared.py:520-533 | nothing recorded |
| Budget.CostBudgetTracker.Record | benchmarks/_bench_shared.py:535-555 | a metered call adds to the observed spend; subscription, Gemini and unknown calls never do |
| Budget.CostBudgetTracker.BeginIteration | benchmarks/_bench_shared.py:557-567 | the open window is closed with its cost and a new one starts at zero |
| Budget.CostBudgetTracker.MaxIterCost | benchmarks/_bench_shared.py:569-584 | it is at least every window cost, the open window included, and is one of them or zero |
| Budget.CostBudgetTracker.ShouldAbort | benchmarks/_bench_shared.py:586-589 | it refuses from the second window on when the spend plus the largest window cost, or zero when none is positive, reaches the budget |
| Budget.LargestIsMaximum | benchmarks/_bench_shared.py:563-565 | the running maximum bounds every cost and is one of them or zero |
| Budget.RefusesIff | benchmarks/_bench_shared.py:584-589 | after costs c_1..c_k the next iteration is refused if and only if k >= 1 and their sum plus their largest reaches the budget |
| Budget.RefusalLatches | benchmarks/_bench_shared.py:586-589 | a refusal stays a refusal whatever more would be spent |
| Budget.OverspendBound | benchmarks/_bench_shared.py:586-589 | if k >= 2 iterations ran, spend < budget + c_k - m for the m that bounds c_1..c_(k-1) and is one of them or zero, hence below the budget plus one largest iteration |
| Budget.OverspendBoundIsSharp | benchmarks/_bench_shared.py:586-589 | for every budget and last cost some run comes as close to that bound as one likes |
| Budget.FirstIterationUngated | benchmarks/_bench_shared.py:586-588 | the first iteration always runs |
| Budget.MeteredSelects | benchmarks/_bench_shared.py:535-555 | the calls that count are the metered ones, each as often as it was made |
| Budget.SameMeteredSameDecisions | benchmarks/_bench_shared.py:535-555 | runs that differ only in unmetered calls stop at the same iteration |
| Budget.Turn | benchmarks/bench_polling_vs_subscribe_llm_agent.py:1447-1478 | one turn runs the iteration unless the gate refuses, and keeps the account of the run |
| Budget.RunMeasurementLoop | benchmarks/bench_polling_vs_subscribe_llm_agent.py:1440-1479 | over both arms exactly the iterations the gate allows run, an abort is reported if and only if some did not, and the tracker holds their spend |
| Budget.RunWindowLoop | benchmarks/bench_multistream_proof.py:2470-2502 | only loaded windows are gated and cost anything, and a refusal ends the whole run |
| RateSearch.SearchCell | benchmarks/bench_throughput.py:514-557 | the history is one window per iteration at the halved or doubled rate, and the results are its best |
| RateSearch.BestIsMaximum | benchmarks/bench_throughput.py:546-548 | against any oracle the best is the largest passing target, zero if and only if nothing passed |
| RateSearch.BestObservedIsMaximum | benchmarks/bench_throughput.py:548 | the best observed rate bounds that of every passing window and is one of them or zero |
| RateSearch.HistoryIsSearchRun | benchmarks/bench_throughput.py:514-549 | against a threshold oracle the method's history is a search run |
| RateSearch.BestBracketsThreshold | benchmarks/bench_throughput.py:544-549 | once a drop and a pass are seen, best <= C < 2 best, from any positive start, the floor included |
| RateSearch.LaterProbesIff | benchmarks/bench_throughput.py:544-549 | every later probe is best or 2 best, for every threshold, if and only if the start is at least 1 or is 1/2 |
| RateSearch.BestFreezes | benchmarks/bench_throughput.py:544-549 | from such a start the answer never improves once bracketed |
| RateSearch.BestIsAnswer | benchmarks/bench_throughput.py:544-549 | the bracketed best is the rate g with g <= C < 2g reached by doubling from the start, or by halving from it to the floor: fixed by the start and C |
| RateSearch.AccuracyIff | benchmarks/bench_throughput.py:544-549 | every bracketed search is within a relative error of C if and only if C is that close above g |
| RateSearch.NotWithinOneAndAHalfPercent | benchmarks/bench_throughput.py:544-549 | from a start of 1000 with C = 1900, runs of every length from two windows on report 1000 and miss 1.5% |
| Drain.StepKeepsInv | benchmarks/_bench_shared.py:470-479 | every step of every thread and of the clock keeps the invariant |
| Drain.OneEntryEach | benchmarks/_bench_shared.py:468-489 | in every interleaving the result has exactly one entry per child, determined by that child, its own thread's start and the limits alone |
| Drain.WrittenOnce | benchmarks/_bench_shared.py:479 | an entry is written by its own thread, once |
| Drain.NeverStuck | benchmarks/_bench_shared.py:468-489 | while an entry is missing a due thread can go on or the next one can be started; the clock has to move only when all are started and each waits for its child |
| Drain.RunsAreBounded | benchmarks/_bench_shared.py:481-489 | after the last start every run is finite with an explicit bound, so the joins return |
| Drain.WithinHorizon | benchmarks/_bench_shared.py:470-479 | every stamp lies within one deadline (or minimum wait) plus one grace period |
| Drain.StampClosedForm | benchmarks/_bench_shared.py:470-479 | a stamp is the child's own end, cut off at the wait's end plus the shorter of grace and obedience, but not before the thread's start |
| Drain.NoLaterThanSerialIff | benchmarks/_bench_shared.py:455-459 | exactly when a stamp is no later than that of a loop with one wait per child; it is so whenever the thread started no later than the loop would have reached the child |
| Drain.SerialArtefactIff | benchmarks/_bench_shared.py:455-459 | a child that ends in time is stamped at its end; the loop stamps it there if and only if every earlier child is stamped by then |
| Drain.OutputLostIff | benchmarks/_bench_shared.py:473-479 | in every finished run output is lost if and only if the child neither ended within grace of its thread's wait nor obeyed SIGTERM within grace |
| Percentiles.HdrRecorder.constructor | benchmarks/_harness.py:307-332 | nothing recorded, both counters zero |
| Percentiles.HdrRecorder.Record | benchmarks/_harness.py:334-356 | one value is appended: the observation if in range, the floor if below, the ceiling if above; all recorded values stay in range and those below and above are counted |
| Percentiles.HdrRecorder.ValueAtRank | benchmarks/_harness.py:374-381 | a reading is in range, at the ceiling if and only if the true order statistic is there or above, at the floor if and only if it is there or below, and exact if and only if the clamp counters leave its rank alone |
| Percentiles.ClampCommutes | benchmarks/_harness.py:349-356 | clamping commutes with every order statistic |
| Percentiles.SaturationIsOneSided | benchmarks/_harness.py:322-332 | a reading is at the ceiling if and only if the true order statistic is there or above, at the floor if and only if it is there or below, otherwise exact |
| Percentiles.ExactIff | benchmarks/_harness.py:322-356 | the k-th reading is exact if and only if clamp_low <= k < n - clamp_high |
| Percentiles.PercentileForgetsOrder | benchmarks/bench_polling_vs_subscribe_llm_agent.py:437-456 | the interpolated percentile depends on the values only |
| Percentiles.PercentileIsBetween | benchmarks/bench_polling_vs_subscribe_llm_agent.py:437-456 | it lies between the least and the greatest value |
| Percentiles.PercentileAtRank | benchmarks/bench_polling_vs_subscribe_llm_agent.py:446-456 | at the fraction k/(n - 1) it is the k-th order statistic itself |
| Percentiles.PercentileInterpolates | benchmarks/bench_polling_vs_subscribe_llm_agent.py:451-456 | at a fraction of rank k + w it is the k-th order statistic plus w of the way to the next, cut to an integer |
| Percentiles.PercentileClimbs | benchmarks/bench_event_delivery_fidelity.py:1462-1475 | it never falls as the fraction rises |
| Percentiles.BootstrapMedian | benchmarks/bench_polling_vs_subscribe_llm_agent.py:459-480 | for every random stream min <= lo <= hi <= max, and lo and hi are the resampled medians at the two nominal ranks, by the counts below and up to them |
| Percentiles.MedianIsMiddle | benchmarks/bench_polling_vs_subscribe_llm_agent.py:476 | the median is the mean, cut to an integer, of two entries a <= b with fewer than half of the entries beyond each, at least half up to each and none between; of one entry for an odd number |
| Outliers.MostSamplesPass | benchmarks/bench_multistream_proof.py:1149-1161 | at least n/2 + 1 of any n samples are at or below median + 8 MAD |
| Outliers.MidpointIsMedian | benchmarks/bench_multistream_proof.py:1157-1158 | the midpoint element is an entry with at most half below it and more than half at or below it |
| Outliers.MadIsMedianDistance | benchmarks/bench_multistream_proof.py:1159-1160 | the MAD is the median distance of the samples from their median |
| Outliers.OverThresholdIff | benchmarks/bench_multistream_proof.py:1161-1164 | a utime is over the threshold if and only if it is over the floor and more than 8 MAD over the median |
| Outliers.ThresholdShifts | benchmarks/bench_multistream_proof.py:1149-1161 | before flooring the threshold moves with the samples |
| Outliers.ThresholdForgetsOrder | benchmarks/bench_multistream_proof.py:1149-1161 | it does not depend on the order of the pilot's windows |
| Outliers.PartitionWindows | benchmarks/bench_multistream_proof.py:1791-1826 | both accepted lists are the kept windows, accepted + rejected = total, outliers counted on the idle arm only |
| Outliers.SurvivesIff | benchmarks/bench_multistream_proof.py:1796-1819 | a window is kept if and only if it was not rejected, no swarm row failed an invariant, and it is not an idle window over the threshold of a pilot that ran |
| Outliers.SurvivorsInOrder | benchmarks/bench_multistream_proof.py:1796-1819 | the kept windows stand at ascending positions, exactly those that pass every filter |
| Outliers.OnlyIdleIsFiltered | benchmarks/bench_multistream_proof.py:1802-1814 | neither the threshold nor a skipped pilot changes what survives of any other arm |
| Outliers.RejectionsByCause | benchmarks/bench_multistream_proof.py:1796-1814 | total = kept + outliers + what the shared filters alone reject |
| Outliers.PilotLosesFewerThanHalf | benchmarks/bench_multistream_proof.py:1149-1166 | windows carrying the pilot's own values, in any order and under any floor, lose fewer than half to the outlier filter |
| LeakSlope.DenominatorClosedForm | benchmarks/bench_multistream_proof.py:1715-1720 | the denominator is n(n^2 - 1)/12, positive if and only if n >= 2 |
| LeakSlope.LeakFitIsLeastSquares | benchmarks/bench_multistream_proof.py:1714-1728 | for every non-empty list, all zero or not, no line has a smaller squared error |
| LeakSlope.AffineIsRecovered | benchmarks/bench_multistream_proof.py:1714-1722 | samples on a line give back that line; constant samples give slope 0 |
| Numbers.RoundIsNearest | benchmarks/_bench_source_mix.py:71 | `round` gives a nearest integer, the even one of two |
| Numbers.TruncateTowardZero | benchmarks/bench_polling_vs_subscribe_llm_agent.py:456 | `int` drops the fraction and keeps the sign |
| Picker.CumulativeThresholds | benchmarks/_bench_source_mix.py:67-83 | the loop builds the table of rounded cumulative shares by name, its last entry pinned |
| Picker.BeforeIff | benchmarks/_bench_source_mix.py:67 | names are in code point order: a name comes before its extensions and before those with a larger character at the first difference |
| Picker.TableEntry | benchmarks/_bench_source_mix.py:67-82 | entry i names the i-th source by name and ends at the rounded sum of the shares so far, the last one no lower than 1,000,000 |
| Picker.TableForgetsOrder | benchmarks/_bench_source_mix.py:59-67 | every permutation of a registry with distinct names gives the same table |
| Picker.PickSourceForIter | benchmarks/_bench_source_mix.py:89-106 | the first entry whose threshold exceeds the residue; an error if and only if the registry is empty |
| Picker.EveryResiduePicks | benchmarks/_bench_source_mix.py:79-82 | whatever the shares, every residue selects an entry of a non-empty registry |
| Picker.ThresholdsClimb | benchmarks/_bench_source_mix.py:69-73 | thresholds never decrease |
| Picker.PinIsIdle | benchmarks/_bench_source_mix.py:75-82 | with the shares checked, the last threshold is the resolution without the pin |
| Picker.SharesAreHonoured | benchmarks/_bench_source_mix.py:67-101 | the number of residues per source is within one of share x 1,000,000 |
| Picker.ResiduesAddUp | benchmarks/_bench_source_mix.py:67-101 | the residues of all sources add up to 1,000,000 |
| ProcParsers.ParsePhysicalCpuCount | benchmarks/_bench_shared.py:981-1006 | the line machine computes the number of distinct (last physical id, last core id) pairs over the blocks between blank lines, None when there is none |
| ProcParsers.TrailingBlanksIgnored | benchmarks/_bench_shared.py:986-993 | blank lines at the end change nothing |
| ProcParsers.OrderAndRepeatsIgnored | benchmarks/_bench_shared.py:963-971 | neither block order nor repeated blocks change the count |
| ProcParsers.KernelFileReadsBack | benchmarks/_bench_shared.py:963-1006 | the text written for any processors reads back as their number of distinct (socket, core) pairs |
| ProcParsers.AnchorIff | benchmarks/_bench_shared.py:1218-1220 | the split falls at the end of the command name if and only if nothing after it looks like one |
| ProcParsers.StatReadsBack | benchmarks/_bench_shared.py:1215-1238 | utime and stime come back for every command name when no later field holds a closing parenthesis |

## Left out

- Floating point: rates, shares, percentile ranks, costs and the Wilson arithmetic are exact reals; `round`, `int` and the square root (any non-negative number with the right square) are applied where the code applies them.
- SHA-256, blake2b, JSON and base64: a digest is any function, a codec any pair of functions that undo each other on the frames in question; `Gates.ZeroFailuresIffIntact` assumes no collision on the content actually compared.
- The HdrHistogram's bucket rounding: the recorder keeps every clamped value exactly.
- Sleeping and scheduling: sleeps are exact in `Pacing`, and in `Drain` the clock waits for threads that are due; the other protocols let any clock reading through.
- FlipProtocol.LatencyUpperBound: assumes polls on schedule, answers within one interval and a monotone clock, because nothing in the code bounds a late poll.
- Delivery.DeliverText: the codecs undo each other on every frame the run can send and its JSON is under 4 GiB; beyond that `struct.pack` would raise.
- Percentiles.HdrRecorder.ValueAtRank: is given the rank, since the rule from a percentile to a rank belongs to hdrh.
- Events.SegmentText: takes the UTF-8 bytes of the text.
- ProcParsers.StatReadsBack: `int` accepts ASCII digits, signs and underscores only; fields with other digits are not modelled.
- asyncio's write buffer is folded into the socket's capacity, and the producer's failure when its peer dies is not modelled.
- Sockets, subprocesses, signals, HTTP, `/proc` access, logging, JSON reports and argument parsing: only their effects as steps or inputs.
- Warm-up discard in the polling loops: every iteration is recorded.
- The swarm's late threshold and the fixed size of its events: any tick may turn out late, any emit may fail, any tick may raise.
- The schedstat reader's partial sums and the VmRSS reader.
- scipy (Mann-Whitney, Wilcoxon, BCa bootstrap) and the power simulation.
- The pytest and inotify polling benches, the TTFAE benches, the bus consumer arm: the same handshake or loop again, or dependent on the daemon.
- The broadcast daemon, its store, `emit` and `subscribe`.
