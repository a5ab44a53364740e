// Consequences of the refinement for whole runs of the asynchronous wrappers.
module AsyncIoLaws {
  import opened Machine
  import opened Schedule
  import opened ScheduleHistory
  import opened SyncIo
  import opened SyncIoLaws
  import opened AsyncIo

  function InFlight(state: WriteState): nat {
    if state.Idle? then 0 else 1
  }

  // A wrapper that has just been built around a schedule.
  function NewWriter<S>(inner: S, schedule: State): AsyncWriting<S> {
    AsyncWriting(inner, schedule, 0, Idle)
  }

  function NewReader<S>(inner: S, schedule: State): AsyncReading<S> {
    AsyncReading(inner, schedule, 0, false)
  }

  // After any polls, the attempt counter and the schedule's invocations count
  // the completed operations, plus the one in flight.
  lemma WriterCountsOperations<S(!new), T>(poll: PollWriteFn<S>, write: WriteFn<T>, erase: S -> T,
                                           inner: S, schedule: State, bufs: seq<seq<byte>>)
    requires WriteStutters(poll, write, erase)
    ensures var (after, ops, results) := PollAll(poll, NewWriter(inner, schedule), bufs);
            var begun := |ops| + InFlight(after.state);
            && after.attempt == begun % TWO64
            && after.schedule.invocations == (schedule.invocations + begun) % TWO64
  {
    hide WriteStutters, WriteAllOf, PollAll, Run, Fires;
    var c := Chaos(erase(inner), schedule, 0);
    AsyncWriterRefinesSync(poll, write, erase, NewWriter(inner, schedule), c, bufs);
    var (after, ops, results) := PollAll(poll, NewWriter(inner, schedule), bufs);
    WriterChecksOncePerWrite(write, c, ops);
    RunCounters(schedule, AttemptsAfter(0, |ops|));
    ModSuccessor(|ops|, 1);
    ModSuccessor(schedule.invocations + |ops|, 1);
  }

  lemma ReaderCountsOperations<S(!new), T>(poll: PollReadFn<S>, read: ReadFn<T>, erase: S -> T,
                                           inner: S, schedule: State, rooms: seq<nat>)
    requires ReadStutters(poll, read, erase)
    ensures var (after, ops, results) := PollReadAll(poll, NewReader(inner, schedule), rooms);
            var begun := |ops| + (if after.inFlight then 1 else 0);
            && after.attempt == begun % TWO64
            && after.schedule.invocations == (schedule.invocations + begun) % TWO64
  {
    hide ReadStutters, ReadAllOf, PollReadAll, Run, Fires;
    var c := Chaos(erase(inner), schedule, 0);
    AsyncReaderRefinesSync(poll, read, erase, NewReader(inner, schedule), c, rooms);
    var (after, ops, results) := PollReadAll(poll, NewReader(inner, schedule), rooms);
    ReaderChecksOncePerRead(read, c, ops);
    RunCounters(schedule, AttemptsAfter(0, |ops|));
    ModSuccessor(|ops|, 1);
    ModSuccessor(schedule.invocations + |ops|, 1);
  }

  // How often and when a runtime polls does not matter: two runs over inner
  // writers that erase to the same one, and that complete the same operations,
  // agree on every result, on the inner writer and on every counter.
  lemma PollingDoesNotMatter<S(!new), T>(poll: PollWriteFn<S>, write: WriteFn<T>, erase: S -> T,
                                         inner1: S, inner2: S, schedule: State,
                                         bufs1: seq<seq<byte>>, bufs2: seq<seq<byte>>)
    requires WriteStutters(poll, write, erase)
    requires erase(inner1) == erase(inner2)
    requires PollAll(poll, NewWriter(inner1, schedule), bufs1).1 == PollAll(poll, NewWriter(inner2, schedule), bufs2).1
    ensures var (after1, _, results1) := PollAll(poll, NewWriter(inner1, schedule), bufs1);
            var (after2, _, results2) := PollAll(poll, NewWriter(inner2, schedule), bufs2);
            && results1 == results2
            && erase(after1.inner) == erase(after2.inner)
            && (after1.state.Idle? && after2.state.Idle? ==>
                  after1.attempt == after2.attempt && after1.schedule == after2.schedule)
  {
    hide WriteStutters, WriteAllOf, PollAll, Check;
    var c := Chaos(erase(inner1), schedule, 0);
    AsyncWriterRefinesSync(poll, write, erase, NewWriter(inner1, schedule), c, bufs1);
    AsyncWriterRefinesSync(poll, write, erase, NewWriter(inner2, schedule), c, bufs2);
  }

  // The wrapper never stalls on its own: a Pending poll is the inner writer's.
  lemma PendingComesFromInner<S>(poll: PollWriteFn<S>, st: AsyncWriting<S>, buf: seq<byte>)
    requires PollForWrite(poll, st, buf).1.Pending?
    ensures var after := PollForWrite(poll, st, buf).0.inner;
            poll(st.inner, buf) == (after, Pending) || (buf != [] && poll(st.inner, buf[..1]) == (after, Pending))
  {
    hide Check;
  }

  // Bytes in the sink are accounted for as they are for the synchronous writer.
  lemma AsyncSinkConservation<S(!new), T(!new)>(poll: PollWriteFn<S>, write: WriteFn<T>, erase: S -> T, sink: T -> seq<byte>,
                                                inner: S, schedule: State, bufs: seq<seq<byte>>)
    returns (parts: seq<seq<byte>>)
    requires WriteStutters(poll, write, erase)
    requires Honest(write, sink)
    ensures var (after, ops, results) := PollAll(poll, NewWriter(inner, schedule), bufs);
            && |parts| == |ops|
            && (forall i :: 0 <= i < |ops| ==> Accounts(ops[i], results[i], parts[i]))
            && sink(erase(after.inner)) == sink(erase(inner)) + Flatten(parts)
            && |sink(erase(after.inner))| == |sink(erase(inner))| + BytesReported(results) + TornWrites(results, parts)
  {
    hide WriteStutters, Honest, WriteAllOf, PollAll, Accounts, Flatten;
    var c := Chaos(erase(inner), schedule, 0);
    AsyncWriterRefinesSync(poll, write, erase, NewWriter(inner, schedule), c, bufs);
    parts := SinkConservation(write, sink, c, PollAll(poll, NewWriter(inner, schedule), bufs).1);
  }

  // A scheduled failure consumes no data, however the reader is polled.
  lemma AsyncReaderLosesNothing<S(!new), T>(poll: PollReadFn<S>, read: ReadFn<T>, erase: S -> T,
                                            inner: S, schedule: State, rooms: seq<nat>)
    requires ReadStutters(poll, read, erase)
    ensures var (after, ops, results) := PollReadAll(poll, NewReader(inner, schedule), rooms);
            var outcomes := Run(schedule, AttemptsAfter(0, |ops|)).1;
            && |outcomes| == |ops|
            && var (direct, expected) := ReadAllOf(read, erase(inner), PassingRooms(outcomes, ops));
            erase(after.inner) == direct && BytesRead(results) == BytesRead(expected)
  {
    hide ReadStutters, ReadAllOf, PollReadAll, Run, Fires, BytesRead, PassingRooms;
    var c := Chaos(erase(inner), schedule, 0);
    AsyncReaderRefinesSync(poll, read, erase, NewReader(inner, schedule), c, rooms);
    var ops := PollReadAll(poll, NewReader(inner, schedule), rooms).1;
    RunLength(schedule, AttemptsAfter(0, |ops|));
    ReaderLosesNothing(read, c, ops);
  }

  // An adversarial inner reader or writer: a script of replies to its polls,
  // and the bytes it has left to give or has been given.
  datatype Script<R> = Script(replies: seq<Poll<R>>, bytes: seq<byte>)

  // The same without the Pending replies.
  datatype Replies<R> = Replies(replies: seq<R>, bytes: seq<byte>)

  function ReadyOnly<R>(replies: seq<Poll<R>>): (r: seq<R>)
    ensures |r| <= |replies|
  {
    if replies == [] then []
    else
      match replies[0]
      case Pending => ReadyOnly(replies[1..])
      case Ready(reply) => [reply] + ReadyOnly(replies[1..])
  }

  function PendingReplies<R>(replies: seq<Poll<R>>): nat {
    |replies| - |ReadyOnly(replies)|
  }

  function ErasePending<R>(s: Script<R>): Replies<R> {
    Replies(ReadyOnly(s.replies), s.bytes)
  }

  // A writer may leak bytes into the sink before it reports an error, and a
  // reader may lose some.
  datatype WriteReply = Accept(n: nat) | Refuse(code: nat, leaked: nat)

  datatype ReadReply = Give(n: nat) | Break(code: nat, lost: nat)

  function Prefix(bytes: seq<byte>, n: nat): seq<byte> {
    bytes[..Min(n, |bytes|)]
  }

  function Deliver(reply: WriteReply, buf: seq<byte>): (seq<byte>, IoResult) {
    match reply
    case Accept(n) => (Prefix(buf, n), Ok(Min(n, |buf|)))
    case Refuse(code, leaked) => (Prefix(buf, leaked), Err(Foreign(code)))
  }

  function Fetch(reply: ReadReply, bytes: seq<byte>, room: nat): (seq<byte>, ReadResult) {
    match reply
    case Give(n) => (bytes[Min(Min(n, room), |bytes|)..], Got(Prefix(bytes, Min(n, room))))
    case Break(code, lost) => (bytes[Min(lost, |bytes|)..], ReadErr(Foreign(code)))
  }

  // A script that has run out stays pending for ever.
  function PollScript(s: Script<WriteReply>, buf: seq<byte>): (Script<WriteReply>, Poll<IoResult>) {
    if s.replies == [] then (s, Pending)
    else
      match s.replies[0]
      case Pending => (s.(replies := s.replies[1..]), Pending)
      case Ready(reply) =>
        var (taken, result) := Deliver(reply, buf);
        (Script(s.replies[1..], s.bytes + taken), Ready(result))
  }

  function PollReadScript(s: Script<ReadReply>, room: nat): (Script<ReadReply>, Poll<ReadResult>) {
    if s.replies == [] then (s, Pending)
    else
      match s.replies[0]
      case Pending => (s.(replies := s.replies[1..]), Pending)
      case Ready(reply) =>
        var (left, result) := Fetch(reply, s.bytes, room);
        (Script(s.replies[1..], left), Ready(result))
  }

  // Past its end the call would block, which no completed poll corresponds to.
  function WriteReplies(s: Replies<WriteReply>, buf: seq<byte>): (Replies<WriteReply>, IoResult) {
    if s.replies == [] then (s, Err(Foreign(0)))
    else
      var (taken, result) := Deliver(s.replies[0], buf);
      (Replies(s.replies[1..], s.bytes + taken), result)
  }

  function ReadReplies(s: Replies<ReadReply>, room: nat): (Replies<ReadReply>, ReadResult) {
    if s.replies == [] then (s, ReadErr(Foreign(0)))
    else
      var (left, result) := Fetch(s.replies[0], s.bytes, room);
      (Replies(s.replies[1..], left), result)
  }

  lemma ScriptsStutter()
    ensures WriteStutters(PollScript, WriteReplies, ErasePending<WriteReply>)
    ensures ReadStutters(PollReadScript, ReadReplies, ErasePending<ReadReply>)
  {
  }

  // Erasing the Pending replies from any script gives exactly the synchronous
  // run: same results, same sink, same counters once no attempt is in flight.
  lemma ErasingPendingGivesTheSyncRun(replies: seq<Poll<WriteReply>>, schedule: State, bufs: seq<seq<byte>>)
    ensures var (after, ops, results) := PollAll(PollScript, NewWriter(Script(replies, []), schedule), bufs);
            var (direct, expected) := WriteAllOf(ChaosFn(WriteReplies), Chaos(Replies(ReadyOnly(replies), []), schedule, 0), ops);
            && results == expected
            && ErasePending(after.inner) == direct.inner
            && (after.state.Idle? ==> after.attempt == direct.attempt && after.schedule == direct.schedule)
  {
    hide WriteStutters, WriteAllOf, PollAll, Check;
    ScriptsStutter();
    var c := Chaos(Replies(ReadyOnly(replies), []), schedule, 0);
    AsyncWriterRefinesSync(PollScript, WriteReplies, ErasePending, NewWriter(Script(replies, []), schedule), c, bufs);
  }

  lemma ErasingPendingGivesTheSyncReads(replies: seq<Poll<ReadReply>>, source: seq<byte>, schedule: State, rooms: seq<nat>)
    ensures var (after, ops, results) := PollReadAll(PollReadScript, NewReader(Script(replies, source), schedule), rooms);
            var (direct, expected) := ReadAllOf(ChaosReadFn(ReadReplies), Chaos(Replies(ReadyOnly(replies), source), schedule, 0), ops);
            && results == expected
            && ErasePending(after.inner) == direct.inner
            && (!after.inFlight ==> after.attempt == direct.attempt && after.schedule == direct.schedule)
  {
    hide ReadStutters, ReadAllOf, PollReadAll, Check;
    ScriptsStutter();
    var c := Chaos(Replies(ReadyOnly(replies), source), schedule, 0);
    AsyncReaderRefinesSync(PollReadScript, ReadReplies, ErasePending, NewReader(Script(replies, source), schedule), c, rooms);
  }

  // The polls of a caller who awaits each operation before starting the next:
  // the same buffer again after every Pending. An operation that is pending
  // with no replies left would be for ever; here the caller gives up.
  function Awaited(st: AsyncWriting<Script<WriteReply>>, ops: seq<seq<byte>>): seq<seq<byte>>
    decreases |st.inner.replies| + |ops|
  {
    if ops == [] then []
    else
      PollConsumes(st, ops[0]);
      var (next, reply) := PollForWrite(PollScript, st, ops[0]);
      if reply.Ready? then [ops[0]] + Awaited(next, ops[1..])
      else if st.inner.replies == [] then []
      else [ops[0]] + Awaited(next, ops)
  }

  // A pending poll consumes a Pending reply, if there is one, and a ready poll
  // at most a Ready one.
  lemma PollConsumes(st: AsyncWriting<Script<WriteReply>>, buf: seq<byte>)
    ensures var (next, reply) := PollForWrite(PollScript, st, buf);
            var replies := st.inner.replies;
            match reply
            case Pending => if replies == [] then next.inner.replies == [] else replies[0].Pending? && next.inner.replies == replies[1..]
            case Ready(_) =>
              && next.state.Idle?
              && (next.inner.replies == replies || (replies != [] && replies[0].Ready? && next.inner.replies == replies[1..]))
  {
    hide Check;
  }

  // How many of these writes reach the inner writer: those that the schedule
  // lets through and those it tears a byte off. The first may be in flight.
  function Reaching(schedule: State, attempt: usize, ops: seq<seq<byte>>): nat
    decreases |ops|
  {
    if ops == [] then 0
    else
      var n := WrappingAdd(attempt, 1);
      var (next, outcome) := Check(schedule, n);
      |InnerBuf(outcome, ops[0])| + Reaching(next, n, ops[1..])
  }

  function StillReaching<S>(st: AsyncWriting<S>, ops: seq<seq<byte>>): nat {
    if ops == [] || st.state.Idle? then Reaching(st.schedule, st.attempt, ops)
    else (if st.state.PartialByte? && ops[0] == [] then 0 else 1) + Reaching(st.schedule, st.attempt, ops[1..])
  }

  // The Ready replies that a poll consumes are those its operation needs.
  lemma PollNeeds(st: AsyncWriting<Script<WriteReply>>, ops: seq<seq<byte>>)
    requires ops != []
    ensures var (next, reply) := PollForWrite(PollScript, st, ops[0]);
            var ready, left := |ReadyOnly(st.inner.replies)|, |ReadyOnly(next.inner.replies)|;
            match reply
            case Pending =>
              && left == ready
              && StillReaching(next, ops) == StillReaching(st, ops)
              && (st.inner.replies == [] ==> StillReaching(st, ops) > 0)
            case Ready(_) => StillReaching(st, ops) - StillReaching(next, ops[1..]) == ready - left
  {
    hide Check;
    if st.state.Idle? {
      var n := WrappingAdd(st.attempt, 1);
      var (schedule, outcome) := Check(st.schedule, n);
      assert Reaching(st.schedule, st.attempt, ops) == |InnerBuf(outcome, ops[0])| + Reaching(schedule, n, ops[1..]);
      hide Reaching, ReadyOnly;
      var begun := AsyncWriting(st.inner, schedule, n, if outcome.Proceed? then Passing else PartialByte(outcome.failure));
      if InnerBuf(outcome, ops[0]) != [] {
        ContinueNeeds(begun, ops);
      }
    } else {
      ContinueNeeds(st, ops);
    }
  }

  lemma ContinueNeeds(st: AsyncWriting<Script<WriteReply>>, ops: seq<seq<byte>>)
    requires ops != [] && !st.state.Idle?
    ensures var (next, reply) := Continue(PollScript, st, ops[0]);
            var ready, left := |ReadyOnly(st.inner.replies)|, |ReadyOnly(next.inner.replies)|;
            match reply
            case Pending =>
              && left == ready
              && StillReaching(next, ops) == StillReaching(st, ops)
              && StillReaching(st, ops) > 0
            case Ready(_) => StillReaching(st, ops) - StillReaching(next, ops[1..]) == ready - left
  {
    hide Reaching;
  }

  lemma NoPolls<S>(poll: PollWriteFn<S>, st: AsyncWriting<S>)
    ensures PollAll(poll, st, []) == (st, [], [])
  {
  }

  lemma LastPoll<S>(poll: PollWriteFn<S>, st: AsyncWriting<S>, bufs: seq<seq<byte>>, buf: seq<byte>)
    ensures var (before, ops, results) := PollAll(poll, st, bufs);
            var (after, reply) := PollForWrite(poll, before, buf);
            PollAll(poll, st, bufs + [buf]) ==
              (match reply
               case Pending => (after, ops, results)
               case Ready(result) => (after, ops + [buf], results + [result]))
  {
    hide PollForWrite;
    assert (bufs + [buf])[..|bufs|] == bufs;
  }

  lemma {:induction false} FirstPoll<S>(poll: PollWriteFn<S>, st: AsyncWriting<S>, buf: seq<byte>, rest: seq<seq<byte>>)
    ensures var (next, reply) := PollForWrite(poll, st, buf);
            var (after, ops, results) := PollAll(poll, next, rest);
            var begun := if reply.Pending? then ([], []) else ([buf], [reply.result]);
            PollAll(poll, st, [buf] + rest) == (after, begun.0 + ops, begun.1 + results)
  {
    hide PollForWrite, PollAll;
    var (next, reply) := PollForWrite(poll, st, buf);
    if rest == [] {
      NoPolls(poll, st);
      NoPolls(poll, next);
      LastPoll(poll, st, [], buf);
      assert [buf] + rest == [] + [buf];
      if reply.Ready? {
        assert [reply.result] + [] == [] + [reply.result];
      }
    } else {
      var n := |rest| - 1;
      FirstPoll(poll, st, buf, rest[..n]);
      LastPoll(poll, st, [buf] + rest[..n], rest[n]);
      LastPoll(poll, next, rest[..n], rest[n]);
      assert rest[..n] + [rest[n]] == rest;
      assert [buf] + rest[..n] + [rest[n]] == [buf] + rest;
      var (before, ops, results) := PollAll(poll, next, rest[..n]);
      var last := PollForWrite(poll, before, rest[n]).1;
      if last.Ready? {
        var begun := if reply.Pending? then ([], []) else ([buf], [reply.result]);
        assert begun.0 + (ops + [rest[n]]) == begun.0 + ops + [rest[n]];
        assert begun.1 + (results + [last.result]) == begun.1 + results + [last.result];
      }
    }
  }

  // Awaiting completes every operation iff the inner writer is ready once for
  // each that reaches it, and then takes one poll for each operation and one
  // more for every Pending reply met.
  lemma {:induction false} AwaitedCompletes(st: AsyncWriting<Script<WriteReply>>, ops: seq<seq<byte>>)
    requires ops == [] ==> st.state.Idle?
    ensures var polls := Awaited(st, ops);
            var (after, completed, _) := PollAll(PollScript, st, polls);
            && (completed == ops <==> StillReaching(st, ops) <= |ReadyOnly(st.inner.replies)|)
            && (completed == ops ==>
                  && after.state.Idle?
                  && |polls| == |ops| + PendingReplies(st.inner.replies) - PendingReplies(after.inner.replies))
    decreases |st.inner.replies| + |ops|
  {
    NoPolls(PollScript, st);
    if ops != [] {
      hide PollForWrite, PollAll, StillReaching;
      PollConsumes(st, ops[0]);
      PollNeeds(st, ops);
      var (next, reply) := PollForWrite(PollScript, st, ops[0]);
      if reply.Ready? {
        AwaitedCompletes(next, ops[1..]);
        FirstPoll(PollScript, st, ops[0], Awaited(next, ops[1..]));
        var completed := PollAll(PollScript, next, Awaited(next, ops[1..])).1;
        assert ([ops[0]] + completed)[1..] == completed;
        assert ops == [ops[0]] + ops[1..];
      } else if st.inner.replies != [] {
        AwaitedCompletes(next, ops);
        FirstPoll(PollScript, st, ops[0], Awaited(next, ops));
      }
    }
  }

  // So awaiting any list of operations gives the results, the sink and the
  // counters of writing them synchronously.
  lemma AwaitedWritesAreTheSyncRun(replies: seq<Poll<WriteReply>>, schedule: State, ops: seq<seq<byte>>)
    requires Reaching(schedule, 0, ops) <= |ReadyOnly(replies)|
    ensures var polls := Awaited(NewWriter(Script(replies, []), schedule), ops);
            var (after, _, results) := PollAll(PollScript, NewWriter(Script(replies, []), schedule), polls);
            var (direct, expected) := WriteAllOf(ChaosFn(WriteReplies), Chaos(Replies(ReadyOnly(replies), []), schedule, 0), ops);
            && results == expected
            && ErasePending(after.inner) == direct.inner
            && after.attempt == direct.attempt && after.schedule == direct.schedule
            && |polls| == |ops| + PendingReplies(replies) - PendingReplies(after.inner.replies)
  {
    hide WriteAllOf, PollAll, Awaited, Reaching;
    AwaitedCompletes(NewWriter(Script(replies, []), schedule), ops);
    ErasingPendingGivesTheSyncRun(replies, schedule, Awaited(NewWriter(Script(replies, []), schedule), ops));
  }

  // The same for reads.
  function AwaitedReads(st: AsyncReading<Script<ReadReply>>, ops: seq<nat>): seq<nat>
    decreases |st.inner.replies| + |ops|
  {
    if ops == [] then []
    else
      ReadPollConsumes(st, ops[0]);
      var (next, reply) := PollForRead(PollReadScript, st, ops[0]);
      if reply.Ready? then [ops[0]] + AwaitedReads(next, ops[1..])
      else if st.inner.replies == [] then []
      else [ops[0]] + AwaitedReads(next, ops)
  }

  lemma ReadPollConsumes(st: AsyncReading<Script<ReadReply>>, room: nat)
    ensures var (next, reply) := PollForRead(PollReadScript, st, room);
            var replies := st.inner.replies;
            match reply
            case Pending => if replies == [] then next.inner.replies == [] else replies[0].Pending? && next.inner.replies == replies[1..]
            case Ready(_) =>
              && !next.inFlight
              && (next.inner.replies == replies || (replies != [] && replies[0].Ready? && next.inner.replies == replies[1..]))
  {
    hide Check;
  }

  // How many of these reads reach the inner reader.
  function ReadsReaching(schedule: State, attempt: usize, ops: seq<nat>): nat
    decreases |ops|
  {
    if ops == [] then 0
    else
      var n := WrappingAdd(attempt, 1);
      var (next, outcome) := Check(schedule, n);
      (if outcome.Proceed? then 1 else 0) + ReadsReaching(next, n, ops[1..])
  }

  function ReadsStillReaching<S>(st: AsyncReading<S>, ops: seq<nat>): nat {
    if ops == [] || !st.inFlight then ReadsReaching(st.schedule, st.attempt, ops)
    else 1 + ReadsReaching(st.schedule, st.attempt, ops[1..])
  }

  lemma ReadPollNeeds(st: AsyncReading<Script<ReadReply>>, ops: seq<nat>)
    requires ops != []
    ensures var (next, reply) := PollForRead(PollReadScript, st, ops[0]);
            var ready, left := |ReadyOnly(st.inner.replies)|, |ReadyOnly(next.inner.replies)|;
            match reply
            case Pending =>
              && left == ready
              && ReadsStillReaching(next, ops) == ReadsStillReaching(st, ops)
              && (st.inner.replies == [] ==> ReadsStillReaching(st, ops) > 0)
            case Ready(_) => ReadsStillReaching(st, ops) - ReadsStillReaching(next, ops[1..]) == ready - left
  {
    hide Check;
  }

  lemma NoReadPolls<S>(poll: PollReadFn<S>, st: AsyncReading<S>)
    ensures PollReadAll(poll, st, []) == (st, [], [])
  {
  }

  lemma LastReadPoll<S>(poll: PollReadFn<S>, st: AsyncReading<S>, rooms: seq<nat>, room: nat)
    ensures var (before, ops, results) := PollReadAll(poll, st, rooms);
            var (after, reply) := PollForRead(poll, before, room);
            PollReadAll(poll, st, rooms + [room]) ==
              (match reply
               case Pending => (after, ops, results)
               case Ready(result) => (after, ops + [room], results + [result]))
  {
    hide PollForRead;
    assert (rooms + [room])[..|rooms|] == rooms;
  }

  lemma {:induction false} FirstReadPoll<S>(poll: PollReadFn<S>, st: AsyncReading<S>, room: nat, rest: seq<nat>)
    ensures var (next, reply) := PollForRead(poll, st, room);
            var (after, ops, results) := PollReadAll(poll, next, rest);
            var begun := if reply.Pending? then ([], []) else ([room], [reply.result]);
            PollReadAll(poll, st, [room] + rest) == (after, begun.0 + ops, begun.1 + results)
  {
    hide PollForRead, PollReadAll;
    var (next, reply) := PollForRead(poll, st, room);
    if rest == [] {
      NoReadPolls(poll, st);
      NoReadPolls(poll, next);
      LastReadPoll(poll, st, [], room);
      assert [room] + rest == [] + [room];
      if reply.Ready? {
        assert [reply.result] + [] == [] + [reply.result];
      }
    } else {
      var n := |rest| - 1;
      FirstReadPoll(poll, st, room, rest[..n]);
      LastReadPoll(poll, st, [room] + rest[..n], rest[n]);
      LastReadPoll(poll, next, rest[..n], rest[n]);
      assert rest[..n] + [rest[n]] == rest;
      assert [room] + rest[..n] + [rest[n]] == [room] + rest;
      var (before, ops, results) := PollReadAll(poll, next, rest[..n]);
      var last := PollForRead(poll, before, rest[n]).1;
      if last.Ready? {
        var begun := if reply.Pending? then ([], []) else ([room], [reply.result]);
        assert begun.0 + (ops + [rest[n]]) == begun.0 + ops + [rest[n]];
        assert begun.1 + (results + [last.result]) == begun.1 + results + [last.result];
      }
    }
  }

  lemma {:induction false} AwaitedReadsComplete(st: AsyncReading<Script<ReadReply>>, ops: seq<nat>)
    requires ops == [] ==> !st.inFlight
    ensures var polls := AwaitedReads(st, ops);
            var (after, completed, _) := PollReadAll(PollReadScript, st, polls);
            && (completed == ops <==> ReadsStillReaching(st, ops) <= |ReadyOnly(st.inner.replies)|)
            && (completed == ops ==>
                  && !after.inFlight
                  && |polls| == |ops| + PendingReplies(st.inner.replies) - PendingReplies(after.inner.replies))
    decreases |st.inner.replies| + |ops|
  {
    NoReadPolls(PollReadScript, st);
    if ops != [] {
      hide PollForRead, PollReadAll, ReadsStillReaching;
      ReadPollConsumes(st, ops[0]);
      ReadPollNeeds(st, ops);
      var (next, reply) := PollForRead(PollReadScript, st, ops[0]);
      if reply.Ready? {
        AwaitedReadsComplete(next, ops[1..]);
        FirstReadPoll(PollReadScript, st, ops[0], AwaitedReads(next, ops[1..]));
        var completed := PollReadAll(PollReadScript, next, AwaitedReads(next, ops[1..])).1;
        assert ([ops[0]] + completed)[1..] == completed;
        assert ops == [ops[0]] + ops[1..];
      } else if st.inner.replies != [] {
        AwaitedReadsComplete(next, ops);
        FirstReadPoll(PollReadScript, st, ops[0], AwaitedReads(next, ops));
      }
    }
  }

  lemma AwaitedReadsAreTheSyncReads(replies: seq<Poll<ReadReply>>, source: seq<byte>, schedule: State, ops: seq<nat>)
    requires ReadsReaching(schedule, 0, ops) <= |ReadyOnly(replies)|
    ensures var polls := AwaitedReads(NewReader(Script(replies, source), schedule), ops);
            var (after, _, results) := PollReadAll(PollReadScript, NewReader(Script(replies, source), schedule), polls);
            var (direct, expected) := ReadAllOf(ChaosReadFn(ReadReplies), Chaos(Replies(ReadyOnly(replies), source), schedule, 0), ops);
            && results == expected
            && ErasePending(after.inner) == direct.inner
            && after.attempt == direct.attempt && after.schedule == direct.schedule
            && |polls| == |ops| + PendingReplies(replies) - PendingReplies(after.inner.replies)
  {
    hide ReadAllOf, PollReadAll, AwaitedReads, ReadsReaching;
    AwaitedReadsComplete(NewReader(Script(replies, source), schedule), ops);
    ErasingPendingGivesTheSyncReads(replies, source, schedule, AwaitedReads(NewReader(Script(replies, source), schedule), ops));
  }
}
