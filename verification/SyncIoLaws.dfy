// What runs of the synchronous wrappers do to the data and to the failure counts.
module SyncIoLaws {
  import opened Machine
  import opened Schedule
  import opened ScheduleHistory
  import opened SyncIo

  // A writer that keeps its word about the bytes in its sink: they grow by what
  // it reports as written, and by nothing when it reports an error.
  predicate HonestCall<S>(write: WriteFn<S>, sink: S -> seq<byte>, st: S, buf: seq<byte>) {
    var (after, result) := write(st, buf);
    match result
    case Ok(n) => n <= |buf| && sink(after) == sink(st) + buf[..n]
    case Err(_) => sink(after) == sink(st)
  }

  ghost predicate Honest<S(!new)>(write: WriteFn<S>, sink: S -> seq<byte>) {
    forall st: S, buf: seq<byte> :: HonestCall(write, sink, st, buf)
  }

  ghost predicate NeverFails<S(!new)>(write: WriteFn<S>) {
    forall st: S, buf: seq<byte> :: write(st, buf).1.Ok?
  }

  // An honest writer that never fails and takes at least one byte when offered
  // some, though perhaps not all of them.
  ghost predicate Live<S(!new)>(write: WriteFn<S>, sink: S -> seq<byte>) {
    && Honest(write, sink)
    && NeverFails(write)
    && forall st: S, buf: seq<byte> :: buf != [] ==> write(st, buf).1 != Ok(0)
  }

  // The bytes that one operation may have left in the sink, given its result.
  predicate Accounts(buf: seq<byte>, result: IoResult, part: seq<byte>) {
    match result
    case Ok(n) => n <= |buf| && part == buf[..n]
    case Err(Injected(f)) => part == [] || (f.mode.PartialWrite? && buf != [] && part == buf[..1])
    case Err(_) => part == []
  }

  function Flatten(parts: seq<seq<byte>>): seq<byte> {
    if parts == [] then [] else Flatten(parts[..|parts| - 1]) + parts[|parts| - 1]
  }

  function BytesReported(results: seq<IoResult>): nat {
    if results == [] then 0
    else
      var n := |results| - 1;
      BytesReported(results[..n]) + (if results[n].Ok? then results[n].count else 0)
  }

  // Failed operations that tore a byte off their buffer.
  function TornWrites(results: seq<IoResult>, parts: seq<seq<byte>>): nat
    requires |results| == |parts|
  {
    if results == [] then 0
    else
      var n := |results| - 1;
      TornWrites(results[..n], parts[..n]) + (if results[n].Err? && parts[n] != [] then 1 else 0)
  }

  lemma OneWriteAccounts<S(!new)>(write: WriteFn<S>, sink: S -> seq<byte>, st: Chaos<S>, buf: seq<byte>)
    returns (part: seq<byte>)
    requires Honest(write, sink)
    ensures var (after, result) := ChaosWrite(write, st, buf);
            sink(after.inner) == sink(st.inner) + part && Accounts(buf, result, part)
  {
    hide Check;
    assert HonestCall(write, sink, st.inner, buf);
    match Check(st.schedule, WrappingAdd(st.attempt, 1)).1 {
      case Proceed =>
        var result := write(st.inner, buf).1;
        part := if result.Ok? then buf[..result.count] else [];
      case Fail(f) =>
        if f.mode.PartialWrite? && buf != [] {
          assert HonestCall(write, sink, st.inner, buf[..1]);
          var result := write(st.inner, buf[..1]).1;
          part := if result.Ok? then buf[..1][..result.count] else [];
        } else {
          part := [];
        }
    }
  }

  // Every byte in the sink is accounted for: the accepted prefix of each
  // operation that succeeded, at most the first byte of each PartialWrite
  // failure, and nothing else. So its length is what was reported plus the
  // torn bytes.
  lemma SinkConservation<S(!new)>(write: WriteFn<S>, sink: S -> seq<byte>, st: Chaos<S>, bufs: seq<seq<byte>>)
    returns (parts: seq<seq<byte>>)
    requires Honest(write, sink)
    ensures var (after, results) := WriteAllOf(ChaosFn(write), st, bufs);
            && |parts| == |bufs|
            && (forall i :: 0 <= i < |bufs| ==> Accounts(bufs[i], results[i], parts[i]))
            && sink(after.inner) == sink(st.inner) + Flatten(parts)
            && |sink(after.inner)| == |sink(st.inner)| + BytesReported(results) + TornWrites(results, parts)
  {
    parts := SinkParts(write, sink, st, bufs);
    PartsLength(bufs, WriteAllOf(ChaosFn(write), st, bufs).1, parts);
  }

  lemma {:induction false} SinkParts<S(!new)>(write: WriteFn<S>, sink: S -> seq<byte>, st: Chaos<S>, bufs: seq<seq<byte>>)
    returns (parts: seq<seq<byte>>)
    requires Honest(write, sink)
    ensures var (after, results) := WriteAllOf(ChaosFn(write), st, bufs);
            && |parts| == |bufs|
            && (forall i :: 0 <= i < |bufs| ==> Accounts(bufs[i], results[i], parts[i]))
            && sink(after.inner) == sink(st.inner) + Flatten(parts)
  {
    hide ChaosWrite, Honest, WriteAllOf, Accounts;
    if bufs == [] {
      parts := [];
      NoWrites(ChaosFn(write), st);
    } else {
      var n := |bufs| - 1;
      LastWrite(ChaosFn(write), st, bufs);
      var before := WriteAllOf(ChaosFn(write), st, bufs[..n]).0;
      var init := SinkParts(write, sink, st, bufs[..n]);
      var part := OneWriteAccounts(write, sink, before, bufs[n]);
      parts := init + [part];
      assert parts[..n] == init;
    }
  }

  lemma {:induction false} PartsLength(bufs: seq<seq<byte>>, results: seq<IoResult>, parts: seq<seq<byte>>)
    requires |bufs| == |results| == |parts|
    requires forall i :: 0 <= i < |bufs| ==> Accounts(bufs[i], results[i], parts[i])
    ensures |Flatten(parts)| == BytesReported(results) + TornWrites(results, parts)
  {
    if bufs != [] {
      var n := |bufs| - 1;
      PartsLength(bufs[..n], results[..n], parts[..n]);
      assert Accounts(bufs[n], results[n], parts[n]);
    }
  }

  lemma NoWrites<S>(write: WriteFn<S>, st: S)
    ensures WriteAllOf(write, st, []) == (st, [])
  {
  }

  // One PartialWrite failure leaves its byte in the sink exactly when the inner
  // writer takes it, and is reported unless the inner writer fails on it.
  lemma TornByte<S(!new)>(write: WriteFn<S>, sink: S -> seq<byte>, st: Chaos<S>, buf: seq<byte>)
    requires Honest(write, sink)
    requires buf != [] && st.schedule.mode.PartialWrite?
    requires Check(st.schedule, WrappingAdd(st.attempt, 1)).1.Fail?
    ensures var (after, result) := ChaosWrite(write, st, buf);
            var torn := write(st.inner, buf[..1]).1;
            && result == (if torn.Err? then torn else Err(Injected(InjectedFailure(PartialWrite, WrappingAdd(st.attempt, 1)))))
            && (sink(after.inner) == sink(st.inner) + buf[..1] <==> torn == Ok(1))
  {
    hide Fires;
    assert HonestCall(write, sink, st.inner, buf[..1]);
  }

  // A schedule about to fail a write of `buf` in PartialWrite mode.
  predicate Tears<S>(st: Chaos<S>, buf: seq<byte>) {
    && buf != [] && st.schedule.mode.PartialWrite?
    && Check(st.schedule, WrappingAdd(st.attempt, 1)).1.Fail?
  }

  ghost predicate TornByteAlwaysArrives<S(!new)>(write: WriteFn<S>, sink: S -> seq<byte>) {
    forall st: Chaos<S>, buf: seq<byte> :: Tears(st, buf) ==>
      sink(ChaosWrite(write, st, buf).0.inner) == sink(st.inner) + buf[..1]
  }

  ghost predicate TornWriteAlwaysReported<S(!new)>(write: WriteFn<S>) {
    forall st: Chaos<S>, buf: seq<byte> :: Tears(st, buf) ==>
      ChaosWrite(write, st, buf).1 == Err(Injected(InjectedFailure(PartialWrite, WrappingAdd(st.attempt, 1))))
  }

  // The specification asks every PartialWrite failure for exactly one byte in
  // the sink before the injected failure is returned. The first half holds of
  // the honest writers that never refuse a single byte.
  lemma TornByteAlwaysArrivesIff<S(!new)>(write: WriteFn<S>, sink: S -> seq<byte>)
    requires Honest(write, sink)
    ensures TornByteAlwaysArrives(write, sink) <==> forall s: S, b: byte :: write(s, [b]).1 == Ok(1)
  {
    hide Honest;
    if TornByteAlwaysArrives(write, sink) {
      forall s: S, b: byte
        ensures write(s, [b]).1 == Ok(1)
      {
        var st := FailingNext(s, 0);
        assert Tears(st, [b]);
        assert [b][..1] == [b];
        TornByte(write, sink, st, [b]);
      }
    }
    if forall s: S, b: byte :: write(s, [b]).1 == Ok(1) {
      forall st: Chaos<S>, buf: seq<byte> | Tears(st, buf)
        ensures sink(ChaosWrite(write, st, buf).0.inner) == sink(st.inner) + buf[..1]
      {
        TornByte(write, sink, st, buf);
        assert buf[..1] == [buf[0]];
      }
    }
  }

  // The second half holds, of any inner writer, iff it never fails on a single
  // byte: an error of its own takes the place of the injected failure.
  lemma TornWriteAlwaysReportedIff<S(!new)>(write: WriteFn<S>)
    ensures TornWriteAlwaysReported(write) <==> forall s: S, b: byte :: write(s, [b]).1.Ok?
  {
    if TornWriteAlwaysReported(write) {
      forall s: S, b: byte
        ensures write(s, [b]).1.Ok?
      {
        // Even an inner writer that injects failures cannot report this one.
        var reported := write(s, [b]).1;
        var st := FailingNext(s, if reported == Err(Injected(InjectedFailure(PartialWrite, 1))) then 1 else 0);
        assert Tears(st, [b]);
        assert [b][..1] == [b];
        assert ChaosWrite(write, st, [b]).1 == Err(Injected(InjectedFailure(PartialWrite, WrappingAdd(st.attempt, 1))));
      }
    }
    if forall s: S, b: byte :: write(s, [b]).1.Ok? {
      forall st: Chaos<S>, buf: seq<byte> | Tears(st, buf)
        ensures ChaosWrite(write, st, buf).1 == Err(Injected(InjectedFailure(PartialWrite, WrappingAdd(st.attempt, 1))))
      {
        hide Fires;
        assert buf[..1] == [buf[0]];
      }
    }
  }

  // An inner writer on a broken device: its error is the one returned.
  function BrokenDevice(st: seq<byte>, buf: seq<byte>): (seq<byte>, IoResult) {
    (st, Err(Foreign(5)))
  }

  lemma BrokenDeviceReportsItsOwn()
    ensures ChaosWrite(BrokenDevice, FailingNext([], 0), [7]).1 == Err(Foreign(5))
    ensures !TornWriteAlwaysReported(BrokenDevice)
  {
    TornWriteAlwaysReportedIff(BrokenDevice);
    assert BrokenDevice([], [7]).1.Err?;
  }

  // A wrapper whose next write fails in PartialWrite mode.
  function FailingNext<S>(inner: S, attempt: usize): Chaos<S> {
    Chaos(inner, Fresh(EveryN(1), PartialWrite, None), attempt)
  }

  // On a live sink the torn byte always arrives and the failure is reported.
  lemma TornByteOnLiveSink<S(!new)>(write: WriteFn<S>, sink: S -> seq<byte>, st: Chaos<S>, buf: seq<byte>)
    requires Live(write, sink)
    requires buf != [] && st.schedule.mode.PartialWrite?
    requires Check(st.schedule, WrappingAdd(st.attempt, 1)).1.Fail?
    ensures var (after, result) := ChaosWrite(write, st, buf);
            && sink(after.inner) == sink(st.inner) + buf[..1]
            && result == Err(Injected(InjectedFailure(PartialWrite, WrappingAdd(st.attempt, 1))))
  {
    hide Fires;
    assert HonestCall(write, sink, st.inner, buf[..1]);
    assert write(st.inner, buf[..1]).1.Ok?;
  }

  // A sink that is full answers every write with Ok(0).
  function FullSink(st: seq<byte>, buf: seq<byte>): (seq<byte>, IoResult) {
    (st, Ok(0))
  }

  function Contents(st: seq<byte>): seq<byte> {
    st
  }

  // It is honest, yet a PartialWrite failure leaves no byte in it.
  lemma FullSinkGetsNoTornByte()
    ensures Honest(FullSink, Contents)
    ensures var schedule := Fresh(EveryN(1), PartialWrite, None);
            ChaosWrite(FullSink, Chaos([], schedule, 0), [7]).0.inner == []
  {
    forall st: seq<byte>, buf: seq<byte>
      ensures HonestCall(FullSink, Contents, st, buf)
    {
      assert buf[..0] == [];
    }
  }

  // With a schedule that lets every attempt through, the wrapper is invisible.
  lemma {:induction false} PassThrough<S>(write: WriteFn<S>, st: Chaos<S>, bufs: seq<seq<byte>>)
    requires forall i :: 0 <= i < |bufs| ==> Outcomes(st, |bufs|)[i].Proceed?
    ensures var (after, results) := WriteAllOf(ChaosFn(write), st, bufs);
            (after.inner, results) == WriteAllOf(write, st.inner, bufs)
  {
    if bufs != [] {
      hide Check, Outcomes;
      var n := |bufs|;
      OutcomesStep(st, n);
      var earlier := Outcomes(st, n - 1);
      forall i | 0 <= i < |earlier|
        ensures earlier[i].Proceed?
      {
        assert earlier[i] == Outcomes(st, n)[i];
      }
      PassThrough(write, st, bufs[..n - 1]);
      WriterChecksOncePerWrite(write, st, bufs[..n - 1]);
    }
  }

  function Errors(results: seq<IoResult>): nat {
    if results == [] then 0
    else Errors(results[..|results| - 1]) + (if results[|results| - 1].Err? then 1 else 0)
  }

  function ReadErrors(results: seq<ReadResult>): nat {
    if results == [] then 0
    else ReadErrors(results[..|results| - 1]) + (if results[|results| - 1].ReadErr? then 1 else 0)
  }

  lemma {:induction false} ErrorsAreEmitted(results: seq<IoResult>, outcomes: seq<Outcome>)
    requires |results| == |outcomes|
    requires forall i :: 0 <= i < |results| ==> (results[i].Err? <==> outcomes[i].Fail?)
    ensures Errors(results) == |Emitted(outcomes)|
  {
    if results != [] {
      ErrorsAreEmitted(results[..|results| - 1], outcomes[..|results| - 1]);
    }
  }

  lemma {:induction false} ReadErrorsAreEmitted(results: seq<ReadResult>, outcomes: seq<Outcome>)
    requires |results| == |outcomes|
    requires forall i :: 0 <= i < |results| ==> (results[i].ReadErr? <==> outcomes[i].Fail?)
    ensures ReadErrors(results) == |Emitted(outcomes)|
  {
    if results != [] {
      ReadErrorsAreEmitted(results[..|results| - 1], outcomes[..|results| - 1]);
    }
  }

  lemma FreshWrapperAttempts(m: usize)
    ensures AttemptsAfter(0, m) == FirstAttempts(m)
  {
  }

  function Wrapped<S>(inner: S, kind: Kind, mode: FailureMode, limit: Option<usize>): Chaos<S> {
    Chaos(inner, Fresh(kind, mode, limit), 0)
  }

  // After m writes through a fresh wrapper, whatever the inner writer did, the
  // schedule has been checked m times and reads the failures it emitted.
  lemma WriterCounters<S>(write: WriteFn<S>, inner: S, kind: Kind, mode: FailureMode, limit: Option<usize>,
                          bufs: seq<seq<byte>>)
    requires |bufs| < TWO64
    ensures var after := WriteAllOf(ChaosFn(write), Wrapped(inner, kind, mode, limit), bufs).0;
            && after.attempt == |bufs| == after.schedule.invocations
            && after.schedule.failures == FiringCount(kind, FirstAttempts(|bufs|))
  {
    hide Fires, Run, WriteAllOf;
    WriterChecksOncePerWrite(write, Wrapped(inner, kind, mode, limit), bufs);
    FreshWrapperAttempts(|bufs|);
    FreshState(kind, mode, limit, FirstAttempts(|bufs|));
    ModIdentity(|bufs|);
  }

  // A fresh wrapper's schedule fails the operation that follows `earlier` others.
  predicate FailsAfter(kind: Kind, limit: Option<usize>, earlier: usize)
    requires earlier < U64_MAX
  {
    Fires(kind, earlier + 1) && Allows(limit, FiringCount(kind, FirstAttempts(earlier)))
  }

  lemma FreshOutcome<S>(inner: S, kind: Kind, mode: FailureMode, limit: Option<usize>, m: usize, i: usize)
    requires i < m
    ensures Outcomes(Wrapped(inner, kind, mode, limit), m)[i]
         == (if FailsAfter(kind, limit, i) then Fail(InjectedFailure(mode, i + 1)) else Proceed)
  {
    hide Run, Fires;
    FreshWrapperAttempts(m);
    FreshLaw(kind, mode, limit, FirstAttempts(m), i);
    assert FirstAttempts(m)[..i] == FirstAttempts(i);
  }

  // Over an inner writer that never fails, write i fails iff the schedule picks
  // attempt i and fewer than `limit` attempts before it, and fails with that
  // injected failure. So the errors are the failures that the schedule emits.
  lemma WriterErrors<S(!new)>(write: WriteFn<S>, inner: S, kind: Kind, mode: FailureMode, limit: Option<usize>,
                              bufs: seq<seq<byte>>)
    requires NeverFails(write)
    requires |bufs| < TWO64
    ensures var results := WriteAllOf(ChaosFn(write), Wrapped(inner, kind, mode, limit), bufs).1;
            && (forall i :: 0 <= i < |bufs| ==> (results[i].Err? <==> FailsAfter(kind, limit, i)))
            && (forall i :: 0 <= i < |bufs| && results[i].Err? ==>
                  results[i] == Err(Injected(InjectedFailure(mode, i + 1))))
            && Errors(results) == Clamped(limit, FiringCount(kind, FirstAttempts(|bufs|)))
  {
    hide Fires, Run, WriteAllOf, Check;
    var st := Wrapped(inner, kind, mode, limit);
    var results := WriteAllOf(ChaosFn(write), st, bufs).1;
    forall i | 0 <= i < |bufs|
      ensures results[i].Err? <==> Outcomes(st, |bufs|)[i].Fail?
      ensures results[i].Err? <==> FailsAfter(kind, limit, i)
      ensures results[i].Err? ==> results[i] == Err(Injected(InjectedFailure(mode, i + 1)))
    {
      ResultOfWrite(write, st, bufs, i);
      FreshOutcome(inner, kind, mode, limit, |bufs|, i);
    }
    ErrorsAreEmitted(results, Outcomes(st, |bufs|));
    FreshWrapperAttempts(|bufs|);
    FailureCountIsEmitted(kind, mode, limit, FirstAttempts(|bufs|));
  }

  // Errors injected into m writes by the two explicit kinds of schedule.
  lemma WriterErrorsByKind<S(!new)>(write: WriteFn<S>, inner: S, mode: FailureMode, limit: Option<usize>,
                                    n: usize, listed: seq<usize>, bufs: seq<seq<byte>>)
    requires NeverFails(write)
    requires |bufs| < TWO64
    ensures Errors(WriteAllOf(ChaosFn(write), Wrapped(inner, EveryNth(n), mode, limit), bufs).1)
         == Clamped(limit, |bufs| / Max(n, 1))
    ensures Errors(WriteAllOf(ChaosFn(write), Wrapped(inner, OnAttempts(listed), mode, limit), bufs).1)
         == Clamped(limit, |(set a | a in listed && 1 <= a <= |bufs|)|)
  {
    hide Fires, WriteAllOf;
    WriterErrors(write, inner, EveryNth(n), mode, limit, bufs);
    EveryNCount(Max(n, 1), |bufs|);
    WriterErrors(write, inner, OnAttempts(listed), mode, limit, bufs);
    OnAttemptsCount(OnAttempts(listed).attempts, |bufs|);
    assert Reached(OnAttempts(listed).attempts, |bufs|) == (set a | a in listed && 1 <= a <= |bufs|);
  }

  // The same counts for m reads.
  lemma ReaderErrorsByKind<S(!new)>(read: ReadFn<S>, inner: S, mode: FailureMode, limit: Option<usize>,
                                    n: usize, listed: seq<usize>, rooms: seq<nat>)
    requires forall st: S, room: nat :: read(st, room).1.Got?
    requires |rooms| < TWO64
    ensures ReadErrors(ReadAllOf(ChaosReadFn(read), Wrapped(inner, EveryNth(n), mode, limit), rooms).1)
         == Clamped(limit, |rooms| / Max(n, 1))
    ensures ReadErrors(ReadAllOf(ChaosReadFn(read), Wrapped(inner, OnAttempts(listed), mode, limit), rooms).1)
         == Clamped(limit, |(set a | a in listed && 1 <= a <= |rooms|)|)
  {
    hide Fires, ReadAllOf;
    ReaderErrors(read, inner, EveryNth(n), mode, limit, rooms);
    EveryNCount(Max(n, 1), |rooms|);
    ReaderErrors(read, inner, OnAttempts(listed), mode, limit, rooms);
    OnAttemptsCount(OnAttempts(listed).attempts, |rooms|);
    assert Reached(OnAttempts(listed).attempts, |rooms|) == (set a | a in listed && 1 <= a <= |rooms|);
  }

  // The reads that the schedule lets through.
  function PassingRooms(outcomes: seq<Outcome>, rooms: seq<nat>): seq<nat>
    requires |outcomes| == |rooms|
  {
    if rooms == [] then []
    else
      var n := |rooms| - 1;
      var passing := PassingRooms(outcomes[..n], rooms[..n]);
      if outcomes[n].Proceed? then passing + [rooms[n]] else passing
  }

  // The bytes a list of reads handed to the caller.
  function BytesRead(results: seq<ReadResult>): seq<byte> {
    if results == [] then []
    else
      var n := |results| - 1;
      BytesRead(results[..n]) + (if results[n].Got? then results[n].bytes else [])
  }

  lemma BytesReadStep(results: seq<ReadResult>, result: ReadResult)
    ensures BytesRead(results + [result]) == BytesRead(results) + (if result.Got? then result.bytes else [])
  {
    assert (results + [result])[..|results|] == results;
  }

  // A scheduled failure consumes no data: the reader hands over exactly the
  // bytes that the passing reads alone would have got from the inner reader.
  lemma {:induction false} ReaderLosesNothing<S>(read: ReadFn<S>, st: Chaos<S>, rooms: seq<nat>)
    ensures var (after, results) := ReadAllOf(ChaosReadFn(read), st, rooms);
            var (inner, direct) := ReadAllOf(read, st.inner, PassingRooms(Outcomes(st, |rooms|), rooms));
            after.inner == inner && BytesRead(results) == BytesRead(direct)
  {
    hide Check, Outcomes, ReadAllOf, Run, BytesRead;
    if rooms != [] {
      var n := |rooms| - 1;
      OutcomesStep(st, n + 1);
      ReaderLosesNothing(read, st, rooms[..n]);
      ReaderChecksOncePerRead(read, st, rooms[..n]);
      LastRead(ChaosReadFn(read), st, rooms);
      var (before, earlier) := ReadAllOf(ChaosReadFn(read), st, rooms[..n]);
      BytesReadStep(earlier, ChaosRead(read, before, rooms[n]).1);
      if Outcomes(st, n + 1)[n].Proceed? {
        var passing := PassingRooms(Outcomes(st, n), rooms[..n]);
        AppendRead(read, st.inner, passing, rooms[n]);
        var (inner, direct) := ReadAllOf(read, st.inner, passing);
        BytesReadStep(direct, read(inner, rooms[n]).1);
      }
    } else {
      NoReads(ChaosReadFn(read), st);
      NoReads(read, st.inner);
    }
  }

  lemma NoReads<S>(read: ReadFn<S>, st: S)
    ensures ReadAllOf(read, st, []) == (st, [])
  {
  }

  // Errors injected into m reads over an inner reader that never fails.
  lemma ReaderErrors<S(!new)>(read: ReadFn<S>, inner: S, kind: Kind, mode: FailureMode, limit: Option<usize>,
                              rooms: seq<nat>)
    requires forall st: S, room: nat :: read(st, room).1.Got?
    requires |rooms| < TWO64
    ensures var results := ReadAllOf(ChaosReadFn(read), Wrapped(inner, kind, mode, limit), rooms).1;
            && (forall i :: 0 <= i < |rooms| ==> (results[i].ReadErr? <==> FailsAfter(kind, limit, i)))
            && (forall i :: 0 <= i < |rooms| && results[i].ReadErr? ==>
                  results[i] == ReadErr(Injected(InjectedFailure(mode, i + 1))))
            && ReadErrors(results) == Clamped(limit, FiringCount(kind, FirstAttempts(|rooms|)))
  {
    hide Fires, Run, ReadAllOf, Check;
    var st := Wrapped(inner, kind, mode, limit);
    var results := ReadAllOf(ChaosReadFn(read), st, rooms).1;
    forall i | 0 <= i < |rooms|
      ensures results[i].ReadErr? <==> Outcomes(st, |rooms|)[i].Fail?
      ensures results[i].ReadErr? <==> FailsAfter(kind, limit, i)
      ensures results[i].ReadErr? ==> results[i] == ReadErr(Injected(InjectedFailure(mode, i + 1)))
    {
      ResultOfRead(read, st, rooms, i);
      FreshOutcome(inner, kind, mode, limit, |rooms|, i);
    }
    ReadErrorsAreEmitted(results, Outcomes(st, |rooms|));
    FreshWrapperAttempts(|rooms|);
    FailureCountIsEmitted(kind, mode, limit, FirstAttempts(|rooms|));
  }

  lemma {:induction false} ResultOfRead<S>(read: ReadFn<S>, st: Chaos<S>, rooms: seq<nat>, i: nat)
    requires i < |rooms|
    ensures var inner := ReadAllOf(ChaosReadFn(read), st, rooms[..i]).0.inner;
            var result := ReadAllOf(ChaosReadFn(read), st, rooms).1[i];
            match Outcomes(st, |rooms|)[i]
            case Proceed => result == read(inner, rooms[i]).1
            case Fail(f) => result == ReadErr(Injected(f))
  {
    hide Check, Outcomes, Run, ReadAllOf;
    var n := |rooms|;
    OutcomesStep(st, n);
    LastRead(ChaosReadFn(read), st, rooms);
    if i < n - 1 {
      ResultOfRead(read, st, rooms[..n - 1], i);
      assert rooms[..n - 1][..i] == rooms[..i];
    } else {
      ReaderChecksOncePerRead(read, st, rooms[..i]);
    }
  }
}
