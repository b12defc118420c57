# Verified model of the network-testing tools

A Dafny 4.11 model of the stateful parts of the network-testing tools, with proofs of what
they keep over whole runs. `dafny verify dfyconfig.toml` checks all of it.

- **Wire, Scatter, Sink, Flood, Streams, Layout, Receive, EndToEnd** — the pktgen payload stream.
  The UDP flood sender tiles a stamped 16-byte header over each packet and sends packets one
  at a time or in batches. The UDP sink walks each packet over io-vector segments, checks
  magic, repetition and order against a header it remembers, and at level 3 exits on the
  first error. A flat specification of the check is refined by the scattered walk; theorems
  about runs of packets are proved on the flat one and carried to the receive loops.
- **PacerClock, PacerShutdown** — the UDP pacer: absolute wake-up times, the latency and its
  statistics, and the shutdown protocol between main thread, timer thread and signal handler.
- **ReceiveRing** — the RDMA receive ring: descriptors and buffer slots between hardware,
  completion queue and software.
- **EpollServer** — the epoll accept/close loop under reuse of descriptor numbers.
- **CallTracker** — the per-CPU recursion counter of the SystemTap latency histogram.
- **PerfReport** — the aggregation and group reports over a perf report.
- **CpuMask** — the CPU masks of the XPS set-up script.

How the environment enters: the clock, the answers of system calls, the order of events and
the kernel's choices are parameters (sequences or arbitrary functions), constrained only by
what the kernel guarantees. C conversions matter in several places and are written out:
`int` against `size_t` in the packet walk, `uint32_t` wrap-around of sequence numbers, the
`(int)` casts and truncating division of `calcdiff`, its unsigned comparisons, and the
unsigned subtraction before `return`. The host is little-endian; `SwapBytes` is `htonl`.

Findings worth knowing:

- The walk of the checker is right on every vector that the receive set-ups make, for any number
  of segments and any width, even where its offset runs behind the segment it stands in: the
  segments abut, a copy that is too long for one segment goes on into the next, and the negative
  first part of a header converts to a large unsigned number, which takes the branch that reads
  the header where it lies. On segments that lie anywhere, its demand is stated as
  `Sink.SafeToCheck` and exact; sixteen bytes in every segment between the first and the last meet
  it. Detached segments meet it if and only if no header needs more than two of them; for equal
  ones of w < 16 bytes, if and only if they hold less than 16 * (w / (16 - w) + 1) bytes together.
- The out-of-order count is the number of adjacent descents in (seconds, microseconds, number)
  less those it misses, for all headers. Missed are exactly the descents from a header with magic 0
  and those within one microsecond from a number of 3,000,000,000 or more, whatever the number
  after it. So the count is exact if and only if no adjacent pair is such a descent, and a stream
  out of order passes if and only if all its descents are. In exchange, losses of up to
  1,294,967,296 packets across a wrap raise no false alarm; one step more can.
- A run at level 3 goes on if and only if every long packet is intact and each is the
  successor of the one before; resetting the counters does not weaken this.
- The batched sender records the bytes of full batches only, and its last, partial batch
  uses up a whole batch of sequence numbers. So a flood that follows it within one process passes
  level 3 if and only if the count was a multiple of the batch size.
- `calcdiff` subtracts two `int` casts. Where that wraps, the result is right if and only if an
  `int` can hold the difference of the seconds; without overflow, if and only if both seconds lie
  in the same span of 2^32 as well.
- `sink_with_recvMmsg` returns less than it received as soon as one EAGAIN occurred.
- Masks survive printing and parsing exactly for CPUs up to 62.

## Model

| member | source | states |
|---|---|---|
| Wire.DecodeEncode | src/common.h:17-22 | the four fields of the header are recovered from its sixteen bytes |
| Wire.EncodeDecode | src/udp_sink.c:210 | bytes and fields determine each other, so comparing memory compares headers |
| Wire.FieldBytes | src/common.h:17-22 | which four bytes of a header carry which field, the least significant first |
| Wire.MagicOnTheWire | src/udp_flood.c:165 | the magic number goes out as the bytes be 9b e9 55 |
| Wire.SwapTwice | src/udp_flood.c:165 | what `htonl` stores, `ntohl` reads back |
| Wire.MagicField | src/udp_sink.c:185 | the magic test accepts exactly one value of the stored field |
| Scatter.FlatAt | src/udp_sink.c:487-496 | every byte of the concatenated segments is the one in memory at its address |
| Scatter.AbuttingFlat | src/udp_sink.c:493-496 | abutting segments are one stretch of memory |
| Sink.FetchHeader | src/udp_sink.c:158-181 | the header found under the cursor, also across two segments or behind the current one, is exactly bytes 16k to 16k+16 of the concatenated segments and lies within the received bytes |
| Sink.Advance | src/udp_sink.c:216-224 | moving on, on any segments, keeps the count of unread bytes non-negative and sixteen smaller, and running out of segments means that every byte was read |
| Sink.SafetyIsExact | src/udp_sink.c:158-181 | the precondition of the check holds if and only if, wherever the walk stands before a header it examines, it copies each byte from where it lies |
| Sink.WalkReaches | src/udp_sink.c:156-224 | the walk gets to every full header of the received bytes, whatever the segments |
| Sink.DifferingZero | src/udp_sink.c:210-212 | the repeat count is zero exactly when all headers equal the first |
| Sink.DifferingIsCount | src/udp_sink.c:210-211 | each header after the first that differs from it counts once |
| Sink.CheckedIsNote | src/udp_sink.c:183-212 | a packet acts on the counters only through its first header, its magic and its number of differing headers; a short one not at all |
| Sink.Checker.InitStats | src/udp_sink.c:666-675 | the counters restart and the last header stays |
| Sink.Checker.FirstHeader | src/udp_sink.c:183-202 | out-of-order and bad-magic counts after a first header, against the lexicographic order with its wrap exception |
| Sink.Checker.CheckPacket | src/udp_sink.c:148-236 | the walk over abutting segments of any width, or any others it can read safely, leaves the counters of the flat check, adds one to the repeat count for each differing header, examines exactly the full headers in order, and exits exactly on an unclean state at level 3 |
| Sink.Checker.CheckPkt | src/udp_sink.c:237-244 | without checking nothing changes, otherwise the flat check is what happens |
| Streams.RunIsNotes | src/udp_sink.c:148-236 | a run of checks equals the run over the packets' digests |
| Streams.RunCounts | src/udp_sink.c:183-214 | the counters after a run at levels 1 and 2: adjacent alarms, forged magics and differing headers |
| Streams.ForgedIsCount | src/udp_sink.c:185-186 | each packet with a wrong magic counts once |
| Streams.DifferingAddsUp | src/udp_sink.c:210-211 | the repeat counts of packets add up |
| Streams.NoDescentsIsOrder | src/udp_sink.c:188-195 | no adjacent descent if and only if no later packet precedes an earlier one |
| Streams.AlarmsAndHidden | src/udp_sink.c:188-195 | for all headers, alarms and missed descents together are the adjacent descents |
| Streams.DescentsIsCount | src/udp_sink.c:188-195 | each adjacent descent counts once |
| Streams.HiddenIsCount | src/udp_sink.c:191-194 | so does each missed one |
| Streams.AdjacentDecidesOrder | src/udp_sink.c:188-202 | for any packets and any remembered header: the count grows by the number of places where a packet precedes the one before it less the number of missed ones, is exact if and only if none is missed, then decides the order of the whole stream, and passes a disordered stream if and only if all its descents are missed |
| Streams.SwapAboveFloorUnseen | src/udp_sink.c:191-194 | from a number at the floor or above, a step down within one microsecond, to any number, raises no alarm |
| Streams.BelowFloorNoneMissed | src/udp_sink.c:193-194 | below the floor no descent is missed |
| Streams.AlarmOnSent | src/udp_sink.c:190-194 | for all numbers of the sender, wrapped or not: two packets raise the alarm exactly when the later one was sent earlier, or within one microsecond its wrapped number is smaller and the other below the floor |
| Streams.CountOnDelivery | src/udp_sink.c:188-195 | the count stays after packets of the sender in any order if and only if no adjacent two raise that alarm |
| Streams.FilledPacketIsClean | src/udp_flood.c:151-172 | a filled packet passes the magic and repetition checks at every level and becomes the last header |
| Streams.ReorderingIsDetected | src/udp_sink.c:188-195 | for packets of the sender below the floor, also after a remembered one, the count stays if and only if they arrive in sending order |
| Streams.NoFalseAlarmWithin | src/udp_sink.c:191-194 | a later packet within the window of 2^32 - 3*10^9 numbers is no reordering |
| Streams.WindowIsExact | src/udp_sink.c:191-194 | no starting number gives a false alarm exactly for distances within the window, modulo 2^32 |
| Streams.LossAndWrapAreHarmless | src/udp_sink.c:188-195 | losses, repeats and any number of wraps leave all counters alone, also after a packet remembered from an earlier test |
| Streams.LevelThreeStep | src/udp_sink.c:198-200 | with clean counters a packet keeps them clean exactly when it is sound and succeeds the last one |
| Streams.LevelThreeDecides | src/udp_sink.c:227-235 | a level-3 run with resets anywhere goes on if and only if all long packets are intact and consecutive |
| Streams.LevelThreeNumbers | src/udp_sink.c:198-202 | in such a run the k-th number is the first plus k modulo 2^32 |
| Streams.LevelThreeOnDelivery | src/udp_flood.c:153-166 | on packets of the sender in order, level 3 goes on if and only if no number is missing |
| Flood.FullBatches | src/udp_flood.c:423-433 | batches that are accepted whole carry the same packets as single sends |
| Flood.WholeRun | src/udp_flood.c:423-443 | full batches and remainder together carry packets 0 to count - 1 |
| Flood.BatchesSentAt | src/udp_flood.c:427-432 | of each call, the accepted first packets of its batch are on the wire, in order, behind those of the calls before |
| Flood.CallsUntilFailure | src/udp_flood.c:423-443 | calls, the remainder's included, are made until one fails, and each of them has filled a batch |
| Flood.SumAddsUp | src/udp_flood.c:432 | the recorded total is the sum of the accepted counts in bytes |
| Flood.CeilDivBatches | src/udp_flood.c:382-383 | the number of calls is the count divided by the batch size, rounded up |
| Flood.NextSlot | src/udp_flood.c:403-426 | filling one slot of the batch buffer leaves the others as they are |
| Flood.Flooder.FillBuf | src/udp_flood.c:151-172 | every byte of the message, a truncated last copy included, repeats a header that holds the magic, the counter's value, the seconds and the whole microseconds of the clock; the rest of the buffer is kept and the counter moves by one modulo 2^32 |
| Flood.Flooder.FloodWithSendto | src/udp_flood.c:174-203 | what is on the wire, counted, recorded and returned after any mix of successes and a failure |
| Flood.Flooder.FillBatch | src/udp_flood.c:424-426 | every slot holds the next packet in order, and the counter moves by the whole batch |
| Flood.Flooder.FloodWithSendMmsg | src/udp_flood.c:372-456 | the same for batches; if all is accepted the wire equals that of single sends, the counter ends at batch times the rounded-up quotient, and only full batches count as bytes |
| Layout.IndexIsBijection | src/udp_sink.c:592-600 | message and segment numbers correspond one to one to entries of the vector |
| Layout.SetupReceive | src/udp_sink.c:583-606 | the nested loops store every message's segments at its own slice of the vector |
| Layout.SetupSend | src/udp_flood.c:403-420 | the same for the send side, where the messages share one buffer |
| Layout.SegmentsAbut | src/udp_sink.c:487-496 | segments of a message follow each other without a gap and stay inside its buffer |
| Layout.ReceiveEntriesDisjoint | src/udp_sink.c:592-595 | no two receive segments share a byte |
| Layout.SendEntriesDisjoint | src/udp_flood.c:404-412 | no two send segments share a byte |
| Layout.SegmentsHoldHeader | src/udp_sink.c:489 | segments hold a header exactly when the buffer has sixteen bytes for each |
| Layout.ReceiveSlice | src/udp_sink.c:583-600 | what the receive set-up stores for a message abuts, lies in its buffer and is the start of it, up to whole segments |
| Layout.SendSlice | src/udp_flood.c:403-419 | what the send set-up stores for a message abuts and is its payload, whole if and only if the segments divide it |
| Layout.AbuttingIsSafe | src/udp_sink.c:158-224 | on abutting segments of any lengths the walk copies every header of any received length from where it lies |
| Layout.WideInteriorIsSafe | src/udp_sink.c:158-224 | so it does on segments anywhere, if those between the first and the last have sixteen bytes |
| Layout.MisfitCopiesOutside | src/udp_sink.c:165-176 | on detached segments, a header that needs a third one is copied from outside of all segments |
| Layout.DetachedExact | src/udp_sink.c:158-224 | detached segments are safe to check if and only if no examined header needs more than two |
| Layout.DetachedEqualSegments | src/udp_sink.c:158-224 | of equal size, they are safe for all lengths if and only if they have sixteen bytes or are too few for one header more than they can bear |
| Receive.DifferenceFits | src/udp_sink.c:280 | the unsigned subtraction converted to `int` is the true difference |
| Receive.AnswersAddUp | src/udp_sink.c:264-278 | each answer counts for what it brings, and counts and bytes add up |
| Receive.MessagesInOrder | src/udp_sink.c:625-629 | the messages of calls follow each other in the order of the calls |
| Receive.MessagesOfOne | src/udp_sink.c:625-629 | those of one call are its own in its order, and an EAGAIN counts once |
| Receive.SinkWithRead | src/udp_sink.c:258-289 | returns the successes, which are all calls exactly when no EAGAIN came, totals their bytes, counts the EAGAINs, and exits exactly on another error |
| Receive.SinkWithRecvmsg | src/udp_sink.c:471-544 | the same with every message checked: exits exactly on an error or when the checked run exits |
| Receive.SinkWithRecvMmsg | src/udp_sink.c:559-664 | on leaving the loop the count lies within a batch of the wanted one, bytes are all lengths, and the result equals what was received exactly when no EAGAIN occurred |
| EndToEnd.CompleteFloodIsClean | src/udp_flood.c:186-198 | a complete flood, in any segments the checker can read safely, leaves every counter clean at every level and level 3 running |
| EndToEnd.SetupCarries | src/udp_sink.c:583-606 | messages that come in through the vector of the receive set-up can be read safely, whatever the number of segments |
| EndToEnd.FloodThroughSetupIsClean | src/udp_sink.c:583-653 | a complete flood received through that set-up, with any number of segments, leaves every counter clean at every level |
| EndToEnd.LossyFloodIsClean | src/udp_sink.c:188-214 | so does any in-order part with gaps within the window at levels 1 and 2, also when an earlier packet is remembered |
| EndToEnd.PartialFloodIsClean | src/udp_flood.c:423-443 | a batched flood of which calls take only a part, also after an earlier flood, leaves levels 1 and 2 clean for batches up to the window |
| EndToEnd.FloodAfterBatches | src/udp_flood.c:436-440 | at level 3 a flood after a complete batched one goes on if and only if the count was a multiple of the batch size |
| EndToEnd.ReceiveFlood | src/udp_sink.c:614-653 | the receive loop, when its calls bring a complete flood in consecutive pieces of any sizes, does not exit, receives all packets and bytes, and leaves every counter clean at every level |
| PacerClock.Timespec.Norm | src/udp_pacer.c:122-128 | the time is kept and its nanoseconds are below one second |
| PacerClock.CalcDiffExact | src/udp_pacer.c:145-151 | with a wrapping subtraction the result is right, for times of any size, if and only if an `int` can hold the difference of the seconds |
| PacerClock.CalcDiffDefined | src/udp_pacer.c:148 | C defines the subtraction and the result is right if and only if, on top of that, both seconds lie in the same span of 2^32 between two wraps of an `int` |
| PacerClock.CalcDiffRounds | src/udp_pacer.c:145-151 | the difference in microseconds is the true one rounded down, or up when the nanoseconds borrow |
| PacerClock.CDivTruncates | src/udp_pacer.c:149 | the division of the nanoseconds cuts off towards zero |
| PacerClock.CalcDiffAccuracy | src/udp_pacer.c:145-151 | after the due time it is non-negative, less than a microsecond off and equal to its unsigned form |
| PacerClock.DueDoesNotDrift | src/udp_pacer.c:230-233 | cycle k is due exactly k + 1 intervals after the start |
| PacerClock.LatencyAt | src/udp_pacer.c:260-267 | each recorded latency is that of its own cycle |
| PacerClock.SumAddsUp | src/udp_pacer.c:266 | a latency adds itself to the accumulated `avg`, and sums add up |
| PacerClock.TimerThread.Record | src/udp_pacer.c:260-269 | minimum, maximum, sum and latest value follow the latencies |
| PacerClock.TimerThread.Run | src/udp_pacer.c:225-286 | after k completed cycles the next wake-up is exactly start + (k+1) intervals, the statistics are those of the k latencies, `avg` lies between k times the minimum and k times the maximum, and the cycle limit holds |
| PacerShutdown.InvNext | src/udp_pacer.c:131-142 | every step of main, worker or handler keeps the invariant and never clears the flag |
| PacerShutdown.ShutdownIsSafe | src/udp_pacer.c:429-435 | in every interleaving nothing freed is touched, no joined thread is signalled, the started field is never 0 after creation, and at most one late cycle completes |
| PacerShutdown.SomeThreadMoves | src/udp_pacer.c:420-435 | with the flag set some thread can always move until main has finished |
| PacerShutdown.ShutdownTerminates | src/udp_pacer.c:237-296 | the flag is final and the threads take at most 21 steps after it is set |
| PacerShutdown.FinishedMeansJoined | src/udp_pacer.c:431-438 | main finishes only after joining a thread that was gone |
| ReceiveRing.ArriveKeeps | rdma/mp_rq.c:168-177 | a packet written by the hardware keeps ids conserved and all pending packets intact |
| ReceiveRing.RepostKeeps | rdma/mp_rq.c:238-241 | so does reposting the handled descriptor |
| ReceiveRing.NextKeeps | rdma/mp_rq.c:227-246 | every step keeps the invariant |
| ReceiveRing.RingConservation | rdma/mp_rq.c:168-177 | in every reachable state each id is in exactly one place, once |
| ReceiveRing.QueuesNeverOverflow | rdma/mp_rq.c:64-89 | queues and hands together hold what was posted first, so every post finds room and the completion queue fits |
| ReceiveRing.HeldSlotIsSoftwares | rdma/mp_rq.c:229-241 | no posted descriptor addresses the slot software is handling, and both lie inside the buffer |
| ReceiveRing.HandledAreArrived | rdma/mp_rq.c:229-241 | software sees the packets that arrived, unaltered and in order |
| ReceiveRing.Ring.FillRing | rdma/mp_rq.c:168-177 | the initial loop posts all descriptors and leaves nothing in software's hands, whatever arrives in each turn; the state afterwards is determined |
| ReceiveRing.Ring.Serve | rdma/mp_rq.c:227-246 | one packet is handled for each poll that finds a completion, in order of arrival; queues, memory and packets after the turns are determined |
| ReceiveRing.ProgramIsRun | rdma/mp_rq.c:168-246 | what filling and serving the ring ends in is the last state of a run of the step relation |
| ReceiveRing.RunProgram | rdma/mp_rq.c:168-246 | set-up, filling and serving go together, end in such a state and have handled a prefix of the arrived packets |
| EpollServer.AcceptedKeeps | src/tcp_sink_epoll.c:141-161 | accepting under any free number keeps the descriptor bookkeeping |
| EpollServer.ClosedKeeps | src/tcp_sink_epoll.c:167-177 | closing keeps it, and no connection is closed twice |
| EpollServer.AcceptedKeepsFresh | src/tcp_sink_epoll.c:140-161 | a new connection does not change what a later event of the batch stands for |
| EpollServer.ClosedKeepsFresh | src/tcp_sink_epoll.c:167-179 | neither does closing one that is ready |
| EpollServer.AtMostOneListen | src/tcp_sink_epoll.c:140-145 | a batch accepts at most one connection |
| EpollServer.ReadyAddsUp | src/tcp_sink_epoll.c:167-177 | ready connections follow the order of their events |
| EpollServer.Server.HandleBatch | src/tcp_sink_epoll.c:140-180 | a batch closes exactly the connections that were ready when it was reported, in order |
| EpollServer.Server.EpollConnections | src/tcp_sink_epoll.c:121-182 | between batches the registered set is the listen socket and the open connections, accepted minus closed is open, and every reported event was either an accepted or a closed connection |
| CallTracker.CallKeeps | ktracing/systemtap/histogram-kernel01.stp:28-33 | depth and stamp follow the call stack on a call |
| CallTracker.ReturnKeeps | ktracing/systemtap/histogram-kernel01.stp:35-47 | they follow it on a return, which records exactly when the outermost call ends |
| CallTracker.OutermostInterval | ktracing/systemtap/histogram-kernel01.stp:35-47 | the return that ends an outermost call records the time since that call, once, whatever was called in between |
| CallTracker.OnCpuAddsUp | ktracing/systemtap/histogram-kernel01.stp:28-47 | the events of a CPU are its own, in order |
| CallTracker.SamplesAddUp | ktracing/systemtap/histogram-kernel01.stp:43-45 | its samples are its own, in order |
| CallTracker.Tracker.OnReturn | ktracing/systemtap/histogram-kernel01.stp:35-47 | an unmatched return is reported and records nothing |
| CallTracker.Tracker.Trace | ktracing/systemtap/histogram-kernel01.stp:28-47 | under any interleaving of CPUs, each CPU's records are the durations of the outermost matched pairs of its own events |
| PerfReport.SumsNext | bin/perf_report_pps_stats.pl:95-112 | adding a line changes both sums over the functions by that line's share and cost |
| PerfReport.SharesAddUp | bin/perf_report_pps_stats.pl:95-111 | shares add up over lines, and a line gives its own symbol its share and no other |
| PerfReport.PriceIsShare | bin/perf_report_pps_stats.pl:97-108 | a share is in hundredths of the time |
| PerfReport.Stats.CollectReport | bin/perf_report_pps_stats.pl:72-122 | per-function shares and the two totals after any lines with repeated symbols; each function, and all of them, cost their share in hundredths of the nanoseconds, so that shares making up 100 cost exactly all of them |
| PerfReport.Stats.CollectedIsNonNegative | bin/perf_report_pps_stats.pl:87-90 | no collected share is negative, so a limit of 0 stops no printout |
| PerfReport.Stats.CollectKeys | bin/perf_report_pps_stats.pl:175-194 | a report covers the named and matching functions, and each of them is visited once |
| PerfReport.Stats.PrintFuncKeys | bin/perf_report_pps_stats.pl:139-152 | exactly the functions at or above the limit are shown, and one below it is still added |
| PerfReport.GroupsAddUp | bin/perf_report_pps_stats.pl:178-190 | the group sums count each share once for every report it is in |
| PerfReport.GroupTotalsAddUp | bin/perf_report_pps_stats.pl:139-155 | each report prints the sum over its functions, and reports add up |
| PerfReport.AppearancesIsCount | bin/perf_report_pps_stats.pl:176-192 | the visits of a function are counted once for each report it is in |
| PerfReport.ReportsPartitionShares | bin/perf_report_pps_stats.pl:210-225 | with the negative report each share counts once per visit, and once if never visited |
| PerfReport.Stats.ShowReports | bin/perf_report_pps_stats.pl:245-382 | the printed sums add up to that, and the visit counts are the numbers of reports |
| PerfReport.ReportOn | bin/perf_report_pps_stats.pl:72-382 | from the lines to the printed sums: each symbol's share of the lines counts once per report it is in, and once if in none |
| CpuMask.MaskToCpus | tc/xps_setup.sh:34-49 | the loop lists the CPUs of the mask, none for a negative one |
| CpuMask.ListIsMask | tc/xps_setup.sh:42-48 | the list is the set bits in ascending order and its powers of two add up to the mask |
| CpuMask.HexRoundTrip | tc/xps_setup.sh:62-72 | hexadecimal text reads back as the number it was printed from |
| CpuMask.MaskText | tc/xps_setup.sh:70-73 | the text for a CPU up to 62 is the digit 1, 2, 4 or 8 and a zero for every four CPUs below it |
| CpuMask.CpuRoundTrip | tc/xps_setup.sh:70-73 | a mask lists its CPU again exactly for CPUs up to 62 |
| CpuMask.SetupThenList | tc/xps_setup.sh:56-108 | after the 1:1 set-up queue q lists CPU q exactly for queues up to 62, after disabling none |

## Left out

- `flood_with_write` and `flood_with_sendmsg` fill and send like `flood_with_sendto`; `flood_with_send` never fills its buffer.
- `sink_with_recvfrom` and `sink_with_recv` are the loop of `sink_with_read` with another system call.
- Overflow of C `int` in sizes and counts (`batch * msg_sz`, `cnt`) is not modelled; sizes are unbounded except where a result is converted.
- The io-vector set-up with a deliberately bad pointer, sender addresses and control messages of the receive loops.
- Timer thread set-up that fails before the loop is a step of the shutdown protocol only; its packets and its scheduling are not modelled.
- `pthread_create` failing ends the process and is not a step of the shutdown protocol; signals before the thread exists are.
- `avg` of the pacer and the percentages of the perf report are exact numbers, not floating point.
- The regular expressions of the perf report are an arbitrary matching function, and its sort an arbitrary sort by falling share.
- The stored XPS masks are read back as written; the kernel's own formatting, with commas beyond 32 CPUs, is not modelled. A shift count of 64 or more is taken modulo 64.
- The limit of 64 entries in the SystemTap arrays.
- Socket, device and option set-up, printing, timing rates, and all configuration scripts.
- The scapy scripts, packet capture examples and system call benchmarks, which hold no state worth proving.
