# dev-chaos: a verified model

`dev-chaos` injects failures, latency, crash points and clock skew into code under
test. Its contract is determinism: which operation fails, which bytes arrive, which
delay applies and where the clock ends up must follow from the sequence of
operations alone. This project models the stateful parts of the crate in Dafny and
proves that contract, or proves exactly when it holds.

Machine integers are those of a 64-bit target. Counters wrap as `fetch_add` does.
`fetch_add(1) + 1` is taken to wrap too, as in a release build.

## Modules

| file | models |
|---|---|
| `Machine.dfy`, `Counting.dfy` | machine integers; cardinalities and lists without repetitions |
| `SplitMix.dfy` | the hash of seeded schedules, its inverse, and the generator it is the closed form of |
| `Schedule.dfy` | `FailureSchedule` as a class, and one check of it as the function `Check` |
| `ScheduleHistory.dfy` | runs of checks: the history law, exact limits, failure counts |
| `SeededSchedule.dfy` | full-period counts, monotonicity in the probability, the pinned sequence |
| `ScheduleContention.dfy`, `ScheduleProgress.dfy` | many threads on one schedule, as interleaved atomic steps: what they return, and that they return |
| `SyncIo.dfy`, `SyncIoLaws.dfy` | `ChaosWriter`, `ChaosReader`, and what runs of them do to the data |
| `AsyncIo.dfy`, `AsyncIoLaws.dfy` | the poll state machines and their refinement of the synchronous wrappers |
| `Crash.dfy` | `CrashWriter`, `write_all` over it, and both nestings with a chaos writer |
| `Latency.dfy` | durations as (seconds, nanoseconds) pairs and the delay profiles |
| `Saturation.dfy` | the algebra of repeated saturating additions |
| `Clock.dfy` | `Clock` with its compare-exchange loop under interference |
| `ClockContention.dfy`, `ClockDeterminism.dfy` | many threads on one clock; when the outcome is independent of them |

An inner reader or writer is a state of any type together with the function that one
call applies to it (`WriteFn`, `ReadFn`, `PollWriteFn`, `PollReadFn`), so every result
is for all inner implementations. Hypotheses on them are named: `Honest` (the sink
grows by what is reported, and by nothing on an error), `NeverFails`, `Live` (honest,
never failing, and taking at least one byte of a non-empty buffer). Each class method
is proved against a function on values; the laws are about that function.

A thread's calls are independent processes in the two contention modules: an
interleaving names, step by step, the call that takes its next atomic step. A call may
wait unstarted for as long as its thread is busy, so a result for all interleavings
covers every program of every number of threads. A result that some interleaving exists
(`OrderIsPossible`, and the "only if" half of `DeterministicIff`) is about calls that are
all concurrent, one to a thread: a single thread skewing both ways in its own order is
deterministic however far it swings. Each atomic is one cell with a total order of
changes.

## Where the code and its documentation differ

- The README and the documentation of `FailureSchedule` say that the same schedule and
  attempt always give the same outcome. With a limit the outcome depends on the history:
  `OutcomeOfAttemptAlone` gives the exact condition.
- `limit` promises at most that many failures. The raw counter wraps, so the promise
  holds exactly while at most 2^64 calls have fired (or the limit is zero):
  `LimitIsRespected`, and `LimitIsOutlived` for a run that breaks it.
- REPS section 5 asks a `PartialWrite` failure for exactly one byte before the injected
  error. Over an honest inner writer the byte always arrives iff that writer never refuses
  a single byte (`TornByteAlwaysArrivesIff`; `FullSinkGetsNoTornByte` has a sink that
  does), and over any inner writer the injected error is always the one returned iff that
  writer never fails on a single byte (`TornWriteAlwaysReportedIff`;
  `BrokenDeviceReportsItsOwn` has one that does).
- `advance` is said to saturate the offset at the top of its range. The delta is pinned
  before the addition, so from a negative offset an out-of-range delta stops short:
  `AdvanceSaturatesIff`, `AdvanceStopsShort`.
- A crash point is said to let through at most N bytes. Around a chaos writer in
  `PartialWrite` mode a torn byte is delivered but not counted (`CrashAroundChaos`), so
  over a live sink the promise holds iff the mode is another one, the limit is zero, or
  no attempt in 1..=N fires: `KeepsBudgetIff`. `TornByteEscapesBudget` has an input that
  breaks it.

## Model

| member | source | states |
|---|---|---|
| `SplitMix.ToWord` | src/lib.rs:362-363 | An attempt below 2^64 becomes the word with that value |
| `SplitMix.UnmixMix` | src/lib.rs:364-366 | The finalizer loses nothing: an explicit inverse recovers its input |
| `SplitMix.StateClosedForm` | src/lib.rs:362-363 | Adding the odd constant once per attempt, wrapping, equals one wrapping multiplication |
| `SplitMix.OutputIsGenerated` | src/lib.rs:361-366 | Hashing (seed, attempt) is the attempt-th output of the sequential generator |
| `SplitMix.SeedShift` | src/lib.rs:361-366 | Starting the generator j steps further on shifts every attempt by j |
| `SplitMix.OutputInjective` | src/lib.rs:361-366 | Distinct attempts hash to distinct words for every seed |
| `SeededSchedule.HashIsPermutation` | src/lib.rs:361-366 | For every seed the hash is a permutation of the 64-bit words |
| `SeededSchedule.FullPeriodCount` | src/lib.rs:361-368 | Over all 2^64 attempts exactly floor(2^64/1000)*p + min(p, 616) fire, for every seed |
| `SeededSchedule.FiringNested` | src/lib.rs:367-368 | A higher probability picks every attempt that a lower one picks |
| `SeededSchedule.RaisingProbability` | src/lib.rs:318-351 | Raising the probability never lowers the number of failures emitted, under any limit and any attempts |
| `SeededSchedule.PinnedSequence` | src/lib.rs:608-618 | A check of the constants: seed 42 at 0.25 picks, of the first forty attempts, exactly those the tests pin |
| `SeededSchedule.EmittedNotNested` | src/lib.rs:323-332 | Under a limit a higher probability may emit at different attempts |
| `Schedule.FailureSchedule.FailOn` | src/lib.rs:208-216 | A fresh unlimited schedule that fires on the listed attempts and no others |
| `Schedule.FailureSchedule.FailEvery` | src/lib.rs:228-237 | A fresh unlimited schedule of the multiples of n, or of every attempt when n is zero |
| `Schedule.OnAttemptsFires` | src/lib.rs:208-216 | A list schedule fires on an attempt iff it is listed, zero included |
| `Schedule.EveryNthFires` | src/lib.rs:228-237 | An every-n schedule fires on the multiples of n, or of one when n is zero |
| `Schedule.FailureSchedule.Seeded` | src/lib.rs:264-277 | A fresh seeded schedule, from a probability already rounded to thousandths |
| `Schedule.FailureSchedule.Limit` | src/lib.rs:305-308 | Sets the cap and nothing else |
| `Schedule.FailureSchedule.MaybeFail` | src/lib.rs:318-340 | One check: both counters, the outcome and the reported attempt, with wrap-around |
| `Schedule.FailureSchedule.FailureCount` | src/lib.rs:343-351 | Reads the raw failure counter clamped to the limit |
| `Schedule.FailureSchedule.InvocationCount` | src/lib.rs:374-376 | Reads the invocation counter |
| `ScheduleHistory.RunCounters` | src/lib.rs:319-335 | After any list of checks the counters have grown by the calls and the firing calls, modulo 2^64 |
| `ScheduleHistory.HistoryLaw` | src/lib.rs:318-340 | From any state, call i fails iff its attempt fires and the firing calls before it leave room under the limit |
| `ScheduleHistory.FreshState` | src/lib.rs:319-335 | Within 2^64 calls a fresh schedule holds the number of calls and of firing calls |
| `ScheduleHistory.FreshLaw` | src/lib.rs:318-340 | Within 2^64 calls: call i fails iff it fires and fewer than limit earlier calls fired |
| `ScheduleHistory.EmittedIsFirstFiring` | src/lib.rs:281-286 | The failures emitted are exactly the first limit attempts of the firing subsequence, in order, iff there is no limit, it is zero, or at most 2^64 calls fired |
| `ScheduleHistory.FailureCountIsEmitted` | src/lib.rs:342-351 | failure_count equals the number of failures emitted iff the limit is zero or fewer than 2^64 calls fired |
| `ScheduleHistory.UnlimitedEmitsAll` | src/lib.rs:333-339 | Without a limit the failures emitted are all the firing attempts, for any number of calls |
| `ScheduleHistory.EmittedCount` | src/lib.rs:323-332 | The exact number of failures emitted for any limit and any number of calls, counter wrap included |
| `ScheduleHistory.LimitIsRespected` | src/lib.rs:279-283 | The cap holds if and only if it is zero or at most 2^64 calls fired |
| `ScheduleHistory.LimitIsOutlived` | src/lib.rs:279-283 | 2^64 + 1 firing calls under a limit of one emit two failures |
| `ScheduleHistory.OutcomeOfAttemptAlone` | src/lib.rs:167-170 | The outcome is a function of the attempt alone iff there is no limit, the limit is zero, or the attempt never fires |
| `ScheduleHistory.EveryNCount` | src/lib.rs:356 | Every-n picks m/n of the first m attempts |
| `ScheduleHistory.OnAttemptsCount` | src/lib.rs:355 | A list picks each distinct listed attempt in 1..=m once |
| `ScheduleContention.StepLinearized` | src/lib.rs:318-340 | Each atomic step of any call keeps the shared state explained by a sequential run of the log |
| `ScheduleContention.EveryInterleavingLinearizes` | src/lib.rs:318-340 | Every interleaving of concurrent checks gives each call the outcome of one sequential order of them |
| `ScheduleContention.LimitUnderContention` | src/lib.rs:323-332 | At every moment the failures handed out are what failure_count reads and never exceed the limit; at the end they are min(limit, firing calls) and all calls are counted |
| `ScheduleContention.FailuresUnderContention` | src/lib.rs:318-340 | Counters free to wrap: once all calls have returned, in any interleaving, failures and counters are those of checking the attempts one by one |
| `ScheduleContention.RealTimeOrder` | src/lib.rs:318-340 | A check that had returned before another began comes before it in that order |
| `ScheduleProgress.CallFinishes` | src/lib.rs:318-340 | Three steps of its own finish any call, from any state |
| `ScheduleProgress.UninterruptedCall` | src/lib.rs:318-340 | Three steps in a row are one whole sequential check |
| `ScheduleProgress.StepDoesWork` | src/lib.rs:318-340 | Every step of an unfinished call leaves one step less to take in the whole system |
| `ScheduleProgress.AllReturnIff` | src/lib.rs:318-340 | In every interleaving all calls have returned iff two steps per call and one more per firing call were taken |
| `ScheduleProgress.EveryOrderIsPossible` | src/lib.rs:318-340 | Calls made one by one in any order have the outcomes and counters of checking their attempts in that order on one thread |
| `ScheduleProgress.AllMadeInOrder` | src/lib.rs:318-340 | An order of all the calls leaves none unfinished |
| `SyncIo.ChaosWriter.constructor` | src/io.rs:107-113 | A new writer has made no attempt |
| `SyncIo.ChaosWriter.Write` | src/io.rs:127-138 | One write: attempt number, schedule check, torn byte, error or delegation |
| `SyncIo.ChaosWriter.AttemptCount` | src/io.rs:116-118 | Reads the attempt counter |
| `SyncIo.ChaosReader.constructor` | src/io.rs:46-52 | A new reader has made no attempt |
| `SyncIo.ChaosReader.Read` | src/io.rs:66-72 | One read: attempt number, schedule check, error or delegation |
| `SyncIo.WriterChecksOncePerWrite` | src/io.rs:127-129 | The schedule is checked once per write with consecutive attempt numbers, whatever the inner writer does |
| `SyncIo.ReaderChecksOncePerRead` | src/io.rs:66-68 | The schedule is checked once per read with consecutive attempt numbers |
| `SyncIo.InnerSeesOnlyPassingWrites` | src/io.rs:127-138 | The inner writer sees the passing buffers, the first byte of torn ones and nothing else, as the schedule alone decides |
| `SyncIo.ResultOfWrite` | src/io.rs:127-138 | Each result is the inner writer's on a passing attempt, its error when a torn byte met one, and the injected failure otherwise |
| `SyncIoLaws.SinkConservation` | src/io.rs:127-138 | The sink is the accepted prefixes plus at most one torn byte per PartialWrite failure; its length is bytes reported plus torn bytes |
| `SyncIoLaws.TornByte` | src/io.rs:132-135 | The torn byte reaches an honest sink iff the inner writer takes the one byte offered; the injected failure is returned unless the inner writer fails on that byte |
| `SyncIoLaws.TornByteAlwaysArrivesIff` | REPS.md:76-78 | Over an honest writer every PartialWrite failure of a non-empty write delivers its byte iff the writer accepts every single byte in every state |
| `SyncIoLaws.TornWriteAlwaysReportedIff` | src/io.rs:132-135 | Every such failure is reported as injected iff the inner writer never fails on a single byte |
| `SyncIoLaws.BrokenDeviceReportsItsOwn` | src/io.rs:132-135 | An inner writer that fails on the torn byte has its own error returned |
| `SyncIoLaws.TornByteOnLiveSink` | REPS.md:76-78 | On a live sink a PartialWrite failure delivers exactly one byte and reports the injected failure |
| `SyncIoLaws.FullSinkGetsNoTornByte` | src/io.rs:132-135 | An honest full sink gets no byte from a PartialWrite failure |
| `SyncIoLaws.PassThrough` | REPS.md:74-75 | While no attempt fails the wrapper is indistinguishable from the inner writer |
| `SyncIoLaws.WriterCounters` | src/io.rs:115-118 | After m writes attempt_count and invocation_count are m and the failure counter holds the firing attempts among 1..=m |
| `SyncIoLaws.WriterErrors` | src/io.rs:127-138 | Over an inner writer that never fails, write i fails iff attempt i fires within the limit, with that injected failure; the errors number the failures emitted for attempts 1..=m |
| `SyncIoLaws.WriterErrorsByKind` | src/lib.rs:208-237 | They number min(limit, m/max(n,1)) for every-n, and for a list min(limit, distinct listed attempts in 1..=m) |
| `SyncIoLaws.ReaderLosesNothing` | src/io.rs:66-73 | A scheduled failure consumes no data: the bytes read are those the passing reads alone would get |
| `SyncIoLaws.ResultOfRead` | src/io.rs:66-73 | Each result is the inner reader's on a passing attempt and the injected failure otherwise |
| `SyncIoLaws.ReaderErrors` | src/io.rs:66-73 | Over an inner reader that never fails, read i fails iff attempt i fires within the limit, with that injected failure; the errors number the failures emitted for attempts 1..=m |
| `SyncIoLaws.ReaderErrorsByKind` | src/lib.rs:208-237 | The same counts by kind for reads |
| `AsyncIo.AsyncChaosWriter.constructor` | src/async_io.rs:139-146 | A new writer is idle and has made no attempt |
| `AsyncIo.AsyncChaosWriter.PollWrite` | src/async_io.rs:163-205 | One poll: the check on the first poll of an attempt, the state taken and put back, the torn byte |
| `AsyncIo.AsyncChaosReader.constructor` | src/async_io.rs:55-62 | A new reader has nothing in flight |
| `AsyncIo.AsyncChaosReader.PollRead` | src/async_io.rs:79-94 | One poll: the check on the first poll of an attempt, then the inner reader |
| `AsyncIo.PollWriteStep` | src/async_io.rs:163-205 | A pending poll is no step of the synchronous writer and a ready poll is one whole write |
| `AsyncIo.PollReadStep` | src/async_io.rs:79-94 | A pending poll is no step of the synchronous reader and a ready poll is one whole read |
| `AsyncIo.AsyncWriterRefinesSync` | src/async_io.rs:9-16 | Over any polls, with any buffers on the pending ones, the completed operations have the results, inner state and counters of the synchronous writer |
| `AsyncIo.AsyncReaderRefinesSync` | src/async_io.rs:9-16 | The same for the reader |
| `AsyncIoLaws.WriterCountsOperations` | src/async_io.rs:148-154 | Attempts and invocations count the completed operations plus the one in flight |
| `AsyncIoLaws.ReaderCountsOperations` | src/async_io.rs:64-70 | The same for the reader |
| `AsyncIoLaws.PollingDoesNotMatter` | src/async_io.rs:14-16 | Two runs that complete the same operations agree on results, inner writer and counters, however they were polled |
| `AsyncIoLaws.PendingComesFromInner` | src/async_io.rs:186-203 | The wrapper is pending only when the inner writer was |
| `AsyncIoLaws.AsyncSinkConservation` | src/async_io.rs:109-112 | Bytes in the sink are accounted for as for the synchronous writer |
| `AsyncIoLaws.AsyncReaderLosesNothing` | src/async_io.rs:79-94 | A scheduled failure consumes no data, however the reader is polled |
| `AsyncIoLaws.ScriptsStutter` | src/async_io.rs:186-203 | Every script of replies to a writer or a reader stutters over the script without its pending replies |
| `AsyncIoLaws.ErasingPendingGivesTheSyncRun` | src/async_io.rs:163-205 | For every script, schedule and polls, erasing the pending replies gives the synchronous run |
| `AsyncIoLaws.ErasingPendingGivesTheSyncReads` | src/async_io.rs:79-94 | The same for the reader and the data it has left |
| `AsyncIoLaws.AwaitedCompletes` | src/async_io.rs:9-13 | Awaited one after another, all writes complete iff the inner writer is ready once for each write that reaches it, and then in one poll each and one more per Pending reply |
| `AsyncIoLaws.AwaitedWritesAreTheSyncRun` | src/async_io.rs:9-16 | Awaiting any list of writes gives the results, sink and counters of writing them synchronously |
| `AsyncIoLaws.AwaitedReadsComplete` | src/async_io.rs:9-13 | The same for reads: they all complete iff the inner reader is ready once for each read that reaches it |
| `AsyncIoLaws.AwaitedReadsAreTheSyncReads` | src/async_io.rs:9-16 | Awaiting any list of reads gives the results, the data left and the counters of reading synchronously |
| `Crash.CrashWriter.Wrap` | src/crash.rs:41-52 | A wrapped writer has its whole budget left |
| `Crash.CrashWriter.Write` | src/crash.rs:75-94 | One write: refused past the crash point, empty allowed before it, otherwise cut to the budget |
| `Crash.CrashWriter.WriteAll` | src/crash.rs:14-19 | Writing a whole buffer delivers exactly what fits and succeeds iff all of it fits |
| `Crash.CrashWriteOnLiveSink` | src/crash.rs:75-94 | One write through a live sink takes some bytes, no more than fit, while budget lasts, and fails unchanged after |
| `Crash.EmptyWriteIsNoCrash` | src/crash.rs:82-86 | Before the crash point an empty write returns Ok(0) and changes nothing, whatever the inner writer |
| `Crash.WritesThroughBeforeCrash` | src/crash.rs:87-93 | Any other write there is the inner writer's answer for the bytes that fit, its own error included, which costs no budget |
| `Crash.CrashWriteAllTruncates` | src/crash.rs:75-94 | The same on values, however short the sink writes |
| `Crash.TruncationIgnoresChunking` | src/crash.rs:3-5 | Any chunking leaves exactly the first min(budget, total) bytes of the stream in the sink |
| `Crash.ChunkSucceeds` | src/crash.rs:75-94 | A call succeeds iff the stream up to its chunk fits, or the chunk is empty |
| `Crash.AllChunksSucceed` | src/crash.rs:75-94 | All calls succeed iff the whole stream fits the budget |
| `Crash.SpentBudgetIsFinal` | src/crash.rs:76-81 | Once the budget is spent every later write fails and changes nothing |
| `Crash.BudgetHolds` | src/crash.rs:87-93 | Over an honest writer bytes_written counts exactly what was delivered and never passes the crash point |
| `Crash.CrashIsHonest` | src/crash.rs:75-94 | A crash writer around an honest writer is honest |
| `Crash.ChaosAroundCrash` | src/crash.rs:87-93 | A chaos writer around a crash writer never delivers past the crash point, torn bytes included, and bytes_written is how much the sink has grown |
| `Crash.CrashAroundChaos` | src/io.rs:129-137 | The opposite nesting delivers what it counts and at most one torn byte per injected failure, exactly one on a live sink, and none unless the mode is PartialWrite |
| `Crash.KeepsBudgetIff` | src/crash.rs:16-19 | Around a fresh chaos writer over a live sink no writes get more than N bytes through iff the mode is not PartialWrite, the limit is zero, or no attempt in 1..=N fires |
| `Crash.NothingTorn` | src/crash.rs:75-94 | In the last two cases every attempt made gets a byte through, so none past N is made and every byte is counted |
| `Crash.TornByteOverruns` | src/io.rs:129-137 | Otherwise N+1 single bytes all get through |
| `Crash.TornByteEscapesBudget` | src/io.rs:129-137 | With PartialWrite inside, a budget of one byte lets two through |
| `Latency.StepDelay` | src/latency.rs:101-111 | The search loop returns the delay of the first entry that covers the attempt, or of the last, and zero when there is none |
| `Latency.ConstantDelay` | src/latency.rs:85 | A constant profile gives its delay at every attempt |
| `Latency.StepDelayIs` | src/latency.rs:101-111 | A step schedule gives the delay of the first entry that covers the attempt, or of the last |
| `Latency.Units` | src/latency.rs:44-53 | A second is 1_000_000_000 nanoseconds; the longest duration is the longest pair |
| `Latency.RampCarries` | src/latency.rs:86-100 | Two steps of 600 ms make 1.2 s, at attempt 3 |
| `Latency.StepIndexIsLeast` | src/latency.rs:25-30 | On a sorted schedule it is the least threshold covering the attempt, or the last entry |
| `Latency.NanosDetermine` | src/latency.rs:33-35 | Well-formed pairs are ordered and determined by their nanoseconds |
| `Latency.CheckedMulExact` | src/latency.rs:92-94 | The checked product is exact, and missing iff it exceeds the longest duration |
| `Latency.CheckedAddExact` | src/latency.rs:95 | The checked sum is exact, and missing iff it exceeds the longest duration |
| `Latency.FromNanosExact` | src/latency.rs:46-53 | Conversion from nanoseconds is exact, clamped to the longest duration |
| `Latency.WideExact` | src/latency.rs:38-44 | The wide path computes the exact ramp clamped once, its own saturation never showing otherwise |
| `Latency.FastExact` | src/latency.rs:91-97 | The fast path is exact, and missing only past u32 attempts or past the longest duration |
| `Latency.LinearRampExact` | src/latency.rs:86-100 | For every start, step and attempt the delay is min(start + max(attempt-1,0)*step, Duration::MAX) |
| `Latency.PathsAgree` | src/latency.rs:92-99 | Where the fast path answers, the wide path gives the same pair; within u32 it declines only what saturates |
| `Latency.LinearRampMonotone` | src/latency.rs:17-18 | A ramp's delays never shrink from one attempt to a later one |
| `Latency.GrowingStepsAreMonotone` | src/latency.rs:101-111 | Growing delays give monotone delays, whatever the thresholds |
| `Latency.StepsMonotoneIff` | src/latency.rs:101-111 | For any list the delays are monotone iff those of the entries that some attempt selects are |
| `Saturation.FoldCollapses` | src/clock.rs:142 | Any list of skews equals one shift followed by one clamp to computable bounds |
| `Saturation.SaturatesAtTheEnds` | src/clock.rs:142 | One skew is the exact sum where it fits 64 bits and the nearer end otherwise |
| `Saturation.MonotoneAndNonExpansive` | src/clock.rs:142 | A later start ends no earlier and no further ahead than it started |
| `Saturation.OneDirection` | src/clock.rs:142 | Skews in one direction equal one clamped addition of their sum |
| `Saturation.NoBoundMet` | src/clock.rs:142 | Skews that cannot reach a bound in any order add up exactly |
| `Saturation.ExtremeOrdersDiffer` | src/clock.rs:142 | Otherwise forward skews first and backward skews first end apart |
| `Saturation.OrderIndependentIff` | src/clock.rs:135-142 | The order of skews is irrelevant iff they all go one way or cannot reach a bound |
| `Clock.VirtualClock.constructor` | src/clock.rs:81-86 | A new clock is at its anchor |
| `Clock.VirtualClock.CompareExchangeWeak` | src/clock.rs:143-148 | The weak exchange: success only on the expected value, and possibly not even then |
| `Clock.VirtualClock.SkewBy` | src/clock.rs:137-153 | The retry loop applies the skew once, to the offset that is there when it commits, at the first exchange that finds what it read and does not fail spuriously |
| `Clock.VirtualClock.Advance` | src/clock.rs:121-126 | An advance skews by its nanoseconds pinned to the signed range |
| `Clock.VirtualClock.Reset` | src/clock.rs:156-158 | The offset returns to zero |
| `Clock.VirtualClock.Now` | src/clock.rs:97-106 | The offset in seconds and nanoseconds, zero when it is negative |
| `Clock.VirtualClock.NowSignedNs` | src/clock.rs:112-114 | Reads the signed offset |
| `Clock.AdvanceIsForward` | src/clock.rs:116-126 | An advance never moves the clock back |
| `Clock.AdvanceUnits` | src/clock.rs:121-126 | An advance is the delta in nanoseconds, seconds times 1_000_000_000, up to i64::MAX |
| `Clock.AdvanceSaturatesIff` | src/clock.rs:118-125 | An advance saturates like one exact addition iff the delta is in range or the offset is not negative |
| `Clock.AdvanceStopsShort` | src/clock.rs:118-125 | From five nanoseconds before the anchor the longest advance stops five short |
| `ClockContention.StepLinearized` | src/clock.rs:137-158 | Each atomic step of any call keeps the offset equal to the replay of the log |
| `ClockContention.EveryInterleavingLinearizes` | src/clock.rs:137-158 | With any threads, interleaving and spurious failures, the offset is the replay of a log holding each finished call once |
| `ClockContention.RealTimeOrder` | src/clock.rs:137-158 | A call that had returned before another began comes before it in the log |
| `ClockContention.RetriesAreCharged` | src/clock.rs:140-152 | Without spurious failures a skew retries at most once per offset change logged before it |
| `ClockContention.StepDoesWork` | src/clock.rs:140-152 | Without spurious failures every step of an unfinished call lowers the work left in the system |
| `ClockContention.StepsAreBounded` | src/clock.rs:140-152 | Without spurious failures n calls finish within n*(n+2) steps in every interleaving |
| `ClockDeterminism.FinalOffset` | src/clock.rs:137-153 | When all skews have returned the offset is the saturating fold of some reordering of them |
| `ClockDeterminism.OrderIsPossible` | src/clock.rs:137-153 | Every order of skews that are all concurrent is what some execution does |
| `ClockDeterminism.DeterministicIff` | src/clock.rs:10-14 | Skews that are all concurrent, one to a thread, end at the same offset in every execution iff they all go one way or cannot reach a bound |
| `ClockDeterminism.AdvancesAreNotLost` | src/clock.rs:257-274 | Concurrent forward skews end at their exact saturated sum |
| `ClockDeterminism.OffsetSinceReset` | src/clock.rs:155-158 | In every execution the offset is the saturating fold, from zero, of the skews that took effect since the last reset |

## Left out

- `assert_recovered`, `ChaosProducer`, `Display`, `as_str`, `to_io_kind`: tables and report building over another crate. An injected error keeps its mode and attempt; its `ErrorKind` and message are not part of this model.
- Real files, the tokio runtime, wakers, `Pin`, flushing and shutdown: foreign I/O that does not touch attempts.
- `apply_blocking` and `LatencyAndFailure`: a sleep followed by a check.
- Clamping and rounding of the floating-point probability: schedules start from thousandths in 0..=1000.
- `memory_pressure.rs`: allocation and residency are effects of the operating system.
- `Instant` anchoring: the clock is its offset.
- Orderings between different atomics: each atomic is one cell, and nothing is claimed about reading two counters at once outside quiescence.
- `ErrorKind::Interrupted` in `write_all`: over the sinks it is stated for no such error occurs.
- Clock.VirtualClock.SkewBy: the interference is a finite list, because against endless interference the source's loop need not end; StepsAreBounded bounds it for finite programs.
- Crash.BudgetHolds: assumes an honest inner writer, because one that reports more bytes than it was offered could push the counter past the budget.
- Schedule.FailureSchedule.Limit: updates the schedule in place, where the source consumes it and returns it.
