// The asynchronous wrappers, poll by poll, and their refinement of the
// synchronous ones.
module AsyncIo {
  import opened Machine
  import opened Schedule
  import opened SyncIo

  datatype Poll<R> = Pending | Ready(result: R)

  // One poll of an inner writer or reader.
  type PollWriteFn<!S> = (S, seq<byte>) -> (S, Poll<IoResult>)
  type PollReadFn<!S> = (S, nat) -> (S, Poll<ReadResult>)

  // Where a writer is within the current attempt.
  datatype WriteState =
    | Idle
    | Passing
    | PartialByte(failure: InjectedFailure)

  datatype AsyncWriting<S> = AsyncWriting(inner: S, schedule: State, attempt: usize, state: WriteState)

  datatype AsyncReading<S> = AsyncReading(inner: S, schedule: State, attempt: usize, inFlight: bool)

  // The meaning of one `poll_write`; the refinement theorem says what it does.
  function PollForWrite<S>(poll: PollWriteFn<S>, st: AsyncWriting<S>, buf: seq<byte>): (AsyncWriting<S>, Poll<IoResult>) {
    if st.state.Idle? then
      var n := WrappingAdd(st.attempt, 1);
      var (schedule, outcome) := Check(st.schedule, n);
      var begun := st.(schedule := schedule, attempt := n);
      match outcome
      case Proceed => Continue(poll, begun.(state := Passing), buf)
      case Fail(f) =>
        if f.mode.PartialWrite? && buf != []
        then Continue(poll, begun.(state := PartialByte(f)), buf)
        else (begun, Ready(Err(Injected(f))))
    else
      Continue(poll, st, buf)
  }

  // The part of a poll that drives the inner writer.
  function Continue<S>(poll: PollWriteFn<S>, st: AsyncWriting<S>, buf: seq<byte>): (AsyncWriting<S>, Poll<IoResult>) {
    match st.state
    case PartialByte(f) =>
      if buf == [] then
        (st.(state := Idle), Ready(Err(Injected(f))))
      else
        var (inner, reply) := poll(st.inner, buf[..1]);
        (match reply
         case Pending => (st.(inner := inner), Pending)
         case Ready(Ok(_)) => (st.(inner := inner, state := Idle), Ready(Err(Injected(f))))
         case Ready(Err(e)) => (st.(inner := inner, state := Idle), Ready(Err(e))))
    case _ =>
      var (inner, reply) := poll(st.inner, buf);
      (st.(inner := inner, state := if reply.Pending? then Passing else Idle), reply)
  }

  function PollForRead<S>(poll: PollReadFn<S>, st: AsyncReading<S>, room: nat): (AsyncReading<S>, Poll<ReadResult>) {
    var n := WrappingAdd(st.attempt, 1);
    var (schedule, outcome) := if st.inFlight then (st.schedule, Proceed) else Check(st.schedule, n);
    var begun := if st.inFlight then st else st.(schedule := schedule, attempt := n);
    match outcome
    case Fail(f) => (begun, Ready(ReadErr(Injected(f))))
    case Proceed =>
      var (inner, reply) := poll(st.inner, room);
      (begun.(inner := inner, inFlight := reply.Pending?), reply)
  }

  class AsyncChaosWriter<S> {
    const poll: PollWriteFn<S>
    const schedule: FailureSchedule
    var inner: S
    var attempt: usize
    var state: WriteState

    function View(): AsyncWriting<S>
      reads this, schedule
    {
      AsyncWriting(inner, schedule.View(), attempt, state)
    }

    constructor (poll: PollWriteFn<S>, inner: S, schedule: FailureSchedule)
      ensures this.poll == poll && this.schedule == schedule
      ensures View() == AsyncWriting(inner, schedule.View(), 0, Idle)
    {
      this.poll := poll;
      this.schedule := schedule;
      this.inner := inner;
      this.attempt := 0;
      this.state := Idle;
    }

    method PollWrite(buf: seq<byte>) returns (reply: Poll<IoResult>)
      modifies this, schedule
      ensures (View(), reply) == PollForWrite(poll, old(View()), buf)
    {
      if state.Idle? {
        attempt := WrappingAdd(attempt, 1);
        var outcome := schedule.MaybeFail(attempt);
        match outcome {
          case Proceed =>
            state := Passing;
          case Fail(f) =>
            if f.mode.PartialWrite? && buf != [] {
              state := PartialByte(f);
            } else {
              return Ready(Err(Injected(f)));
            }
        }
      }
      // The state is taken out and put back only if the operation must go on.
      var taken := state;
      state := Idle;
      if taken.PartialByte? {
        var f := taken.failure;
        if buf == [] {
          return Ready(Err(Injected(f)));
        }
        var (after, torn) := poll(inner, buf[..1]);
        inner := after;
        match torn {
          case Pending =>
            state := PartialByte(f);
            return Pending;
          case Ready(Ok(_)) =>
            return Ready(Err(Injected(f)));
          case Ready(Err(e)) =>
            return Ready(Err(e));
        }
      } else {
        var (after, passed) := poll(inner, buf);
        inner := after;
        if passed.Pending? {
          state := Passing;
        }
        return passed;
      }
    }
  }

  class AsyncChaosReader<S> {
    const poll: PollReadFn<S>
    const schedule: FailureSchedule
    var inner: S
    var attempt: usize
    var inFlight: bool

    function View(): AsyncReading<S>
      reads this, schedule
    {
      AsyncReading(inner, schedule.View(), attempt, inFlight)
    }

    constructor (poll: PollReadFn<S>, inner: S, schedule: FailureSchedule)
      ensures this.poll == poll && this.schedule == schedule
      ensures View() == AsyncReading(inner, schedule.View(), 0, false)
    {
      this.poll := poll;
      this.schedule := schedule;
      this.inner := inner;
      this.attempt := 0;
      this.inFlight := false;
    }

    method PollRead(room: nat) returns (reply: Poll<ReadResult>)
      modifies this, schedule
      ensures (View(), reply) == PollForRead(poll, old(View()), room)
    {
      if !inFlight {
        attempt := WrappingAdd(attempt, 1);
        var outcome := schedule.MaybeFail(attempt);
        if outcome.Fail? {
          return Ready(ReadErr(Injected(outcome.failure)));
        }
      }
      var (after, got) := poll(inner, room);
      inner := after;
      inFlight := got.Pending?;
      return got;
    }
  }

  // An inner writer that polls stutters over a synchronous one: seen through
  // `erase`, a Pending poll changes nothing and a Ready poll is one write.
  ghost predicate WriteStutters<S(!new), T>(poll: PollWriteFn<S>, write: WriteFn<T>, erase: S -> T) {
    forall s: S, buf: seq<byte> ::
      var (after, reply) := poll(s, buf);
      match reply
      case Pending => erase(after) == erase(s)
      case Ready(result) => write(erase(s), buf) == (erase(after), result)
  }

  ghost predicate ReadStutters<S(!new), T>(poll: PollReadFn<S>, read: ReadFn<T>, erase: S -> T) {
    forall s: S, room: nat ::
      var (after, reply) := poll(s, room);
      match reply
      case Pending => erase(after) == erase(s)
      case Ready(result) => read(erase(s), room) == (erase(after), result)
  }

  // The asynchronous writer has completed what the synchronous one has done;
  // an attempt in flight has been checked but not yet written.
  predicate WriteSim<S, T(==)>(erase: S -> T, a: AsyncWriting<S>, c: Chaos<T>) {
    && erase(a.inner) == c.inner
    && var n := WrappingAdd(c.attempt, 1);
    match a.state
    case Idle => a.attempt == c.attempt && a.schedule == c.schedule
    case Passing => a.attempt == n && Check(c.schedule, n) == (a.schedule, Proceed)
    case PartialByte(f) => a.attempt == n && Check(c.schedule, n) == (a.schedule, Fail(f)) && f.mode.PartialWrite?
  }

  predicate ReadSim<S, T(==)>(erase: S -> T, a: AsyncReading<S>, c: Chaos<T>) {
    && erase(a.inner) == c.inner
    && var n := WrappingAdd(c.attempt, 1);
    if a.inFlight
    then a.attempt == n && Check(c.schedule, n) == (a.schedule, Proceed)
    else a.attempt == c.attempt && a.schedule == c.schedule
  }

  // One poll is either no step of the synchronous writer or one whole write.
  lemma PollWriteStep<S(!new), T>(poll: PollWriteFn<S>, write: WriteFn<T>, erase: S -> T,
                                  a: AsyncWriting<S>, c: Chaos<T>, buf: seq<byte>)
    requires WriteStutters(poll, write, erase)
    requires WriteSim(erase, a, c)
    ensures var (after, reply) := PollForWrite(poll, a, buf);
            match reply
            case Pending => WriteSim(erase, after, c) && !after.state.Idle?
            case Ready(result) =>
              && ChaosWrite(write, c, buf).1 == result
              && WriteSim(erase, after, ChaosWrite(write, c, buf).0)
              && after.state.Idle?
  {
    hide Check;
  }

  lemma PollReadStep<S(!new), T>(poll: PollReadFn<S>, read: ReadFn<T>, erase: S -> T,
                                 a: AsyncReading<S>, c: Chaos<T>, room: nat)
    requires ReadStutters(poll, read, erase)
    requires ReadSim(erase, a, c)
    ensures var (after, reply) := PollForRead(poll, a, room);
            match reply
            case Pending => ReadSim(erase, after, c) && after.inFlight
            case Ready(result) =>
              && ChaosRead(read, c, room).1 == result
              && ReadSim(erase, after, ChaosRead(read, c, room).0)
              && !after.inFlight
  {
    hide Check;
  }

  // A run of polls, each with the buffer its caller passes, and the operations
  // that completed: the buffer of the completing poll and the result.
  function PollAll<S>(poll: PollWriteFn<S>, st: AsyncWriting<S>, bufs: seq<seq<byte>>)
    : (r: (AsyncWriting<S>, seq<seq<byte>>, seq<IoResult>))
    ensures |r.1| == |r.2|
  {
    if bufs == [] then (st, [], [])
    else
      var n := |bufs| - 1;
      var (before, ops, results) := PollAll(poll, st, bufs[..n]);
      var (after, reply) := PollForWrite(poll, before, bufs[n]);
      match reply
      case Pending => (after, ops, results)
      case Ready(result) => (after, ops + [bufs[n]], results + [result])
  }

  function PollReadAll<S>(poll: PollReadFn<S>, st: AsyncReading<S>, rooms: seq<nat>)
    : (r: (AsyncReading<S>, seq<nat>, seq<ReadResult>))
    ensures |r.1| == |r.2|
  {
    if rooms == [] then (st, [], [])
    else
      var n := |rooms| - 1;
      var (before, ops, results) := PollReadAll(poll, st, rooms[..n]);
      var (after, reply) := PollForRead(poll, before, rooms[n]);
      match reply
      case Pending => (after, ops, results)
      case Ready(result) => (after, ops + [rooms[n]], results + [result])
  }

  // The refinement theorem. However the polls are spread out and whatever
  // buffers the pending ones carried, the operations that completed have the
  // results, the inner state and the counters of the synchronous writer.
  lemma {:induction false} AsyncWriterRefinesSync<S(!new), T>(poll: PollWriteFn<S>, write: WriteFn<T>, erase: S -> T,
                                                              a: AsyncWriting<S>, c: Chaos<T>, bufs: seq<seq<byte>>)
    requires WriteStutters(poll, write, erase)
    requires WriteSim(erase, a, c)
    ensures var (after, ops, results) := PollAll(poll, a, bufs);
            && WriteAllOf(ChaosFn(write), c, ops).1 == results
            && WriteSim(erase, after, WriteAllOf(ChaosFn(write), c, ops).0)
  {
    if bufs != [] {
      hide Check, WriteStutters, WriteSim, PollForWrite, ChaosWrite;
      var n := |bufs| - 1;
      AsyncWriterRefinesSync(poll, write, erase, a, c, bufs[..n]);
      var (before, ops, results) := PollAll(poll, a, bufs[..n]);
      PollWriteStep(poll, write, erase, before, WriteAllOf(ChaosFn(write), c, ops).0, bufs[n]);
      AppendWrite(ChaosFn(write), c, ops, bufs[n]);
    }
  }

  lemma {:induction false} AsyncReaderRefinesSync<S(!new), T>(poll: PollReadFn<S>, read: ReadFn<T>, erase: S -> T,
                                                              a: AsyncReading<S>, c: Chaos<T>, rooms: seq<nat>)
    requires ReadStutters(poll, read, erase)
    requires ReadSim(erase, a, c)
    ensures var (after, ops, results) := PollReadAll(poll, a, rooms);
            && ReadAllOf(ChaosReadFn(read), c, ops).1 == results
            && ReadSim(erase, after, ReadAllOf(ChaosReadFn(read), c, ops).0)
  {
    if rooms != [] {
      hide Check, ReadStutters, ReadSim, PollForRead, ChaosRead;
      var n := |rooms| - 1;
      AsyncReaderRefinesSync(poll, read, erase, a, c, rooms[..n]);
      var (before, ops, results) := PollReadAll(poll, a, rooms[..n]);
      PollReadStep(poll, read, erase, before, ReadAllOf(ChaosReadFn(read), c, ops).0, rooms[n]);
      AppendRead(ChaosReadFn(read), c, ops, rooms[n]);
    }
  }
}
