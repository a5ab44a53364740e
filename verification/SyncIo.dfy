// The synchronous wrappers. An inner reader or writer is any state together
// with the function that one call applies to it, so everything here holds for
// every inner implementation.
module SyncIo {
  import opened Machine
  import opened Schedule
  import opened ScheduleHistory

  datatype IoError =
    | Injected(failure: InjectedFailure)
    | CrashPointReached
    | Foreign(code: nat)

  datatype IoResult = Ok(count: nat) | Err(error: IoError)

  datatype ReadResult = Got(bytes: seq<byte>) | ReadErr(error: IoError)

  // One `write` call on a state, with the buffer it is given.
  type WriteFn<!S> = (S, seq<byte>) -> (S, IoResult)

  // One `read` call on a state, with the room its buffer has.
  type ReadFn<!S> = (S, nat) -> (S, ReadResult)

  // A wrapper's state, as a value.
  datatype Chaos<S> = Chaos(inner: S, schedule: State, attempt: usize)

  // The meaning of one `ChaosWriter::write`; the laws below say what it does.
  function ChaosWrite<S>(write: WriteFn<S>, st: Chaos<S>, buf: seq<byte>): (Chaos<S>, IoResult) {
    var n := WrappingAdd(st.attempt, 1);
    var (schedule, outcome) := Check(st.schedule, n);
    match outcome
    case Proceed =>
      var (inner, result) := write(st.inner, buf);
      (Chaos(inner, schedule, n), result)
    case Fail(f) =>
      if f.mode.PartialWrite? && buf != [] then
        var (inner, result) := write(st.inner, buf[..1]);
        (Chaos(inner, schedule, n), if result.Err? then result else Err(Injected(f)))
      else
        (Chaos(st.inner, schedule, n), Err(Injected(f)))
  }

  function ChaosRead<S>(read: ReadFn<S>, st: Chaos<S>, room: nat): (Chaos<S>, ReadResult) {
    var n := WrappingAdd(st.attempt, 1);
    var (schedule, outcome) := Check(st.schedule, n);
    match outcome
    case Proceed =>
      var (inner, result) := read(st.inner, room);
      (Chaos(inner, schedule, n), result)
    case Fail(f) =>
      (Chaos(st.inner, schedule, n), ReadErr(Injected(f)))
  }

  class ChaosWriter<S> {
    const write: WriteFn<S>
    const schedule: FailureSchedule
    var inner: S
    var attempt: usize

    function View(): Chaos<S>
      reads this, schedule
    {
      Chaos(inner, schedule.View(), attempt)
    }

    constructor (write: WriteFn<S>, inner: S, schedule: FailureSchedule)
      ensures this.write == write && this.schedule == schedule
      ensures View() == Chaos(inner, schedule.View(), 0)
    {
      this.write := write;
      this.schedule := schedule;
      this.inner := inner;
      this.attempt := 0;
    }

    method Write(buf: seq<byte>) returns (result: IoResult)
      modifies this, schedule
      ensures (View(), result) == ChaosWrite(write, old(View()), buf)
    {
      attempt := WrappingAdd(attempt, 1);
      var outcome := schedule.MaybeFail(attempt);
      if outcome.Fail? {
        var f := outcome.failure;
        if f.mode.PartialWrite? && buf != [] {
          var (after, torn) := write(inner, buf[..1]);
          inner := after;
          if torn.Err? {
            return torn;
          }
        }
        return Err(Injected(f));
      }
      var (after, passed) := write(inner, buf);
      inner := after;
      return passed;
    }

    method AttemptCount() returns (count: usize)
      ensures count == attempt
    {
      count := attempt;
    }
  }

  class ChaosReader<S> {
    const read: ReadFn<S>
    const schedule: FailureSchedule
    var inner: S
    var attempt: usize

    function View(): Chaos<S>
      reads this, schedule
    {
      Chaos(inner, schedule.View(), attempt)
    }

    constructor (read: ReadFn<S>, inner: S, schedule: FailureSchedule)
      ensures this.read == read && this.schedule == schedule
      ensures View() == Chaos(inner, schedule.View(), 0)
    {
      this.read := read;
      this.schedule := schedule;
      this.inner := inner;
      this.attempt := 0;
    }

    method Read(room: nat) returns (result: ReadResult)
      modifies this, schedule
      ensures (View(), result) == ChaosRead(read, old(View()), room)
    {
      attempt := WrappingAdd(attempt, 1);
      var outcome := schedule.MaybeFail(attempt);
      if outcome.Fail? {
        return ReadErr(Injected(outcome.failure));
      }
      var (after, got) := read(inner, room);
      inner := after;
      return got;
    }
  }

  // Runs of a writer, and of a wrapped one.
  function WriteAllOf<S>(write: WriteFn<S>, st: S, bufs: seq<seq<byte>>): (r: (S, seq<IoResult>))
    ensures |r.1| == |bufs|
  {
    if bufs == [] then (st, [])
    else
      var (before, results) := WriteAllOf(write, st, bufs[..|bufs| - 1]);
      var (after, result) := write(before, bufs[|bufs| - 1]);
      (after, results + [result])
  }

  lemma LastWrite<S>(write: WriteFn<S>, st: S, bufs: seq<seq<byte>>)
    requires bufs != []
    ensures var n := |bufs| - 1;
            var (before, results) := WriteAllOf(write, st, bufs[..n]);
            var (after, result) := write(before, bufs[n]);
            WriteAllOf(write, st, bufs) == (after, results + [result])
  {
  }

  lemma AppendWrite<S>(write: WriteFn<S>, st: S, bufs: seq<seq<byte>>, buf: seq<byte>)
    ensures var (before, results) := WriteAllOf(write, st, bufs);
            var (after, result) := write(before, buf);
            WriteAllOf(write, st, bufs + [buf]) == (after, results + [result])
  {
    LastWrite(write, st, bufs + [buf]);
    assert (bufs + [buf])[..|bufs|] == bufs;
  }

  function ChaosFn<S>(write: WriteFn<S>): WriteFn<Chaos<S>> {
    (st, buf) => ChaosWrite(write, st, buf)
  }

  function ReadAllOf<S>(read: ReadFn<S>, st: S, rooms: seq<nat>): (r: (S, seq<ReadResult>))
    ensures |r.1| == |rooms|
  {
    if rooms == [] then (st, [])
    else
      var (before, results) := ReadAllOf(read, st, rooms[..|rooms| - 1]);
      var (after, result) := read(before, rooms[|rooms| - 1]);
      (after, results + [result])
  }

  lemma LastRead<S>(read: ReadFn<S>, st: S, rooms: seq<nat>)
    requires rooms != []
    ensures var n := |rooms| - 1;
            var (before, results) := ReadAllOf(read, st, rooms[..n]);
            var (after, result) := read(before, rooms[n]);
            ReadAllOf(read, st, rooms) == (after, results + [result])
  {
  }

  lemma AppendRead<S>(read: ReadFn<S>, st: S, rooms: seq<nat>, room: nat)
    ensures var (before, results) := ReadAllOf(read, st, rooms);
            var (after, result) := read(before, room);
            ReadAllOf(read, st, rooms + [room]) == (after, results + [result])
  {
    LastRead(read, st, rooms + [room]);
    assert (rooms + [room])[..|rooms|] == rooms;
  }

  function ChaosReadFn<S>(read: ReadFn<S>): ReadFn<Chaos<S>> {
    (st, room: nat) => ChaosRead(read, st, room)
  }

  // The attempt numbers of n operations after `attempt` earlier ones.
  function AttemptsAfter(attempt: usize, n: nat): (r: seq<usize>)
    ensures |r| == n
  {
    seq(n, i requires 0 <= i < n => (attempt + i + 1) % TWO64)
  }

  lemma AttemptsAfterStep(attempt: usize, n: nat)
    requires n > 0
    ensures AttemptsAfter(attempt, n)[..n - 1] == AttemptsAfter(attempt, n - 1)
    ensures AttemptsAfter(attempt, n)[n - 1] == WrappingAdd((attempt + n - 1) % TWO64, 1)
  {
    ModSuccessor(attempt + n - 1, 1);
  }

  // A wrapper checks its schedule once per operation, with consecutive attempt
  // numbers, whatever the inner writer does.
  lemma {:induction false} WriterChecksOncePerWrite<S>(write: WriteFn<S>, st: Chaos<S>, bufs: seq<seq<byte>>)
    ensures var after := WriteAllOf(ChaosFn(write), st, bufs).0;
            && after.attempt == (st.attempt + |bufs|) % TWO64
            && after.schedule == Run(st.schedule, AttemptsAfter(st.attempt, |bufs|)).0
  {
    hide Check;
    if bufs != [] {
      var n := |bufs|;
      WriterChecksOncePerWrite(write, st, bufs[..n - 1]);
      AttemptsAfterStep(st.attempt, n);
    }
  }

  lemma {:induction false} ReaderChecksOncePerRead<S>(read: ReadFn<S>, st: Chaos<S>, rooms: seq<nat>)
    ensures var after := ReadAllOf(ChaosReadFn(read), st, rooms).0;
            && after.attempt == (st.attempt + |rooms|) % TWO64
            && after.schedule == Run(st.schedule, AttemptsAfter(st.attempt, |rooms|)).0
  {
    hide Check;
    if rooms != [] {
      var n := |rooms|;
      ReaderChecksOncePerRead(read, st, rooms[..n - 1]);
      AttemptsAfterStep(st.attempt, n);
    }
  }

  // What the inner writer is asked to write for one operation.
  function InnerBuf(outcome: Outcome, buf: seq<byte>): (r: seq<seq<byte>>)
    ensures |r| <= 1
  {
    match outcome
    case Proceed => [buf]
    case Fail(f) => if f.mode.PartialWrite? && buf != [] then [buf[..1]] else []
  }

  function InnerBufs(outcomes: seq<Outcome>, bufs: seq<seq<byte>>): seq<seq<byte>>
    requires |outcomes| == |bufs|
  {
    if bufs == [] then []
    else
      var n := |bufs| - 1;
      InnerBufs(outcomes[..n], bufs[..n]) + InnerBuf(outcomes[n], bufs[n])
  }

  lemma LastInnerBuf(outcomes: seq<Outcome>, bufs: seq<seq<byte>>)
    requires |outcomes| == |bufs| && bufs != []
    ensures var n := |bufs| - 1;
            InnerBufs(outcomes, bufs) == InnerBufs(outcomes[..n], bufs[..n]) + InnerBuf(outcomes[n], bufs[n])
  {
  }

  function Outcomes<S>(st: Chaos<S>, n: nat): (r: seq<Outcome>)
    ensures |r| == n
  {
    RunLength(st.schedule, AttemptsAfter(st.attempt, n));
    Run(st.schedule, AttemptsAfter(st.attempt, n)).1
  }

  lemma RunLength(s: State, attempts: seq<usize>)
    ensures |Run(s, attempts).1| == |attempts|
  {
    HistoryLaw(s, attempts);
  }

  lemma OutcomesStep<S>(st: Chaos<S>, n: nat)
    requires n > 0
    ensures Outcomes(st, n)[..n - 1] == Outcomes(st, n - 1)
    ensures Outcomes(st, n)[n - 1]
         == Check(Run(st.schedule, AttemptsAfter(st.attempt, n - 1)).0, WrappingAdd((st.attempt + n - 1) % TWO64, 1)).1
  {
    hide Check;
    AttemptsAfterStep(st.attempt, n);
  }

  lemma WriteOneMore<S>(write: WriteFn<S>, st: S, bufs: seq<seq<byte>>, more: seq<seq<byte>>)
    requires |more| <= 1
    ensures WriteAllOf(write, st, bufs + more).0 == WriteAtMostOne(write, WriteAllOf(write, st, bufs).0, more)
  {
    if more == [] {
      assert bufs + more == bufs;
    } else {
      AppendWrite(write, st, bufs, more[0]);
      assert more == [more[0]];
    }
  }

  function WriteAtMostOne<S>(write: WriteFn<S>, st: S, more: seq<seq<byte>>): S
    requires |more| <= 1
  {
    if more == [] then st else write(st, more[0]).0
  }

  lemma OneOperation<S>(write: WriteFn<S>, st: Chaos<S>, buf: seq<byte>)
    ensures var outcome := Check(st.schedule, WrappingAdd(st.attempt, 1)).1;
            ChaosWrite(write, st, buf).0.inner == WriteAtMostOne(write, st.inner, InnerBuf(outcome, buf))
  {
    hide Check;
  }

  // The inner writer sees the passing buffers unchanged, the first byte of each
  // torn one, and nothing else: a list that the schedule alone decides.
  lemma {:induction false} InnerSeesOnlyPassingWrites<S>(write: WriteFn<S>, st: Chaos<S>, bufs: seq<seq<byte>>)
    ensures WriteAllOf(ChaosFn(write), st, bufs).0.inner
         == WriteAllOf(write, st.inner, InnerBufs(Outcomes(st, |bufs|), bufs)).0
  {
    if bufs != [] {
      hide Check, Outcomes, ChaosWrite, InnerBuf, InnerBufs, WriteAtMostOne, WriteAllOf, Run, AttemptsAfter;
      var n := |bufs|;
      var before := WriteAllOf(ChaosFn(write), st, bufs[..n - 1]).0;
      var outcome := Outcomes(st, n)[n - 1];
      LastWrite(ChaosFn(write), st, bufs);
      NextOutcome(write, st, bufs);
      OneOperation(write, before, bufs[n - 1]);
      assert WriteAllOf(ChaosFn(write), st, bufs).0.inner == WriteAtMostOne(write, before.inner, InnerBuf(outcome, bufs[n - 1]));
      InnerSeesOnlyPassingWrites(write, st, bufs[..n - 1]);
      OutcomesStep(st, n);
      LastInnerBuf(Outcomes(st, n), bufs);
      WriteOneMore(write, st.inner, InnerBufs(Outcomes(st, n - 1), bufs[..n - 1]), InnerBuf(outcome, bufs[n - 1]));
    }
  }

  // The outcome of the last operation is that of the check it makes.
  lemma NextOutcome<S>(write: WriteFn<S>, st: Chaos<S>, bufs: seq<seq<byte>>)
    requires bufs != []
    ensures var n := |bufs|;
            var before := WriteAllOf(ChaosFn(write), st, bufs[..n - 1]).0;
            Check(before.schedule, WrappingAdd(before.attempt, 1)).1 == Outcomes(st, n)[n - 1]
  {
    hide Check, Outcomes, WriteAllOf, Run, AttemptsAfter;
    WriterChecksOncePerWrite(write, st, bufs[..|bufs| - 1]);
    OutcomesStep(st, |bufs|);
  }

  // The result of operation i: the inner writer's on a passing attempt, its
  // error when the torn byte met one, and the injected failure otherwise.
  lemma {:induction false} ResultOfWrite<S>(write: WriteFn<S>, st: Chaos<S>, bufs: seq<seq<byte>>, i: nat)
    requires i < |bufs|
    ensures var inner := WriteAllOf(ChaosFn(write), st, bufs[..i]).0.inner;
            var result := WriteAllOf(ChaosFn(write), st, bufs).1[i];
            match Outcomes(st, |bufs|)[i]
            case Proceed => result == write(inner, bufs[i]).1
            case Fail(f) =>
              if f.mode.PartialWrite? && bufs[i] != [] && write(inner, bufs[i][..1]).1.Err?
              then result == write(inner, bufs[i][..1]).1
              else result == Err(Injected(f))
  {
    hide Check, Outcomes, Run, WriteAllOf;
    var n := |bufs|;
    OutcomesStep(st, n);
    LastWrite(ChaosFn(write), st, bufs);
    if i < n - 1 {
      ResultOfWrite(write, st, bufs[..n - 1], i);
      assert bufs[..n - 1][..i] == bufs[..i];
    } else {
      WriterChecksOncePerWrite(write, st, bufs[..i]);
    }
  }
}
