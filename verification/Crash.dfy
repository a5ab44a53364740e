// The crash-point writer: a cumulative byte budget over any inner writer.
module Crash {
  import opened Machine
  import opened SyncIo
  import opened SyncIoLaws
  import opened Schedule
  import opened ScheduleHistory

  datatype Crashing<S> = Crashing(inner: S, after: usize, written: usize)

  // The budget that is left.
  function Room<S>(st: Crashing<S>): nat {
    Max(st.after - st.written, 0)
  }

  // The meaning of one `CrashWriter::write`; the laws below say what it does.
  function CrashWrite<S>(write: WriteFn<S>, st: Crashing<S>, buf: seq<byte>): (Crashing<S>, IoResult) {
    if st.written >= st.after then
      (st, Err(CrashPointReached))
    else if buf == [] then
      (st, Ok(0))
    else
      var (inner, result) := write(st.inner, buf[..Min(st.after - st.written, |buf|)]);
      (match result
       case Ok(n) => (Crashing(inner, st.after, (st.written + n) % TWO64), result)
       case Err(_) => (st.(inner := inner), result))
  }

  function CrashFn<S>(write: WriteFn<S>): WriteFn<Crashing<S>> {
    (st, buf) => CrashWrite(write, st, buf)
  }

  class CrashWriter<S(!new)> {
    const write: WriteFn<S>
    const after: usize
    var inner: S
    var written: usize

    function View(): Crashing<S>
      reads this
    {
      Crashing(inner, after, written)
    }

    // `CrashPoint::after_byte(after).wrap(inner)`.
    constructor Wrap(write: WriteFn<S>, after: usize, inner: S)
      ensures this.write == write
      ensures View() == Crashing(inner, after, 0)
    {
      this.write := write;
      this.after := after;
      this.inner := inner;
      this.written := 0;
    }

    method Write(buf: seq<byte>) returns (result: IoResult)
      modifies this
      ensures (View(), result) == CrashWrite(write, old(View()), buf)
    {
      if written >= after {
        return Err(CrashPointReached);
      }
      if buf == [] {
        return Ok(0);
      }
      var remaining := after - written;
      var toWrite := Min(remaining, |buf|);
      var (next, reply) := write(inner, buf[..toWrite]);
      inner := next;
      match reply {
        case Err(_) => return reply;
        case Ok(count) =>
          written := (written + count) % TWO64;
          return Ok(count);
      }
    }

    // The standard library's `write_all` over this writer: write what is left
    // until it is gone, a write takes nothing, or a write fails.
    method WriteAll(buf: seq<byte>, ghost sink: S -> seq<byte>) returns (ok: bool)
      requires Live(write, sink)
      modifies this
      ensures (View(), ok) == CrashWriteAll(write, old(View()), buf)
      ensures var room := Min(Room(old(View())), |buf|);
              && sink(inner) == old(sink(inner)) + buf[..room]
              && written == old(written) + room
              && (ok <==> room == |buf|)
    {
      CrashWriteAllTruncates(write, sink, View(), buf);
      var left := buf;
      while left != []
        invariant CrashWriteAll(write, View(), left) == CrashWriteAll(write, old(View()), buf)
        decreases |left|
      {
        var result := Write(left);
        match result {
          case Err(_) => return false;
          case Ok(n) =>
            if n == 0 || n > |left| {
              return false;
            }
            left := left[n..];
        }
      }
      return true;
    }
  }

  // Before the crash point an empty write is no crash, whatever the inner writer.
  lemma EmptyWriteIsNoCrash<S>(write: WriteFn<S>, st: Crashing<S>)
    requires Room(st) > 0
    ensures CrashWrite(write, st, []) == (st, Ok(0))
  {
  }

  // Any other write there is the inner writer's answer for the bytes that fit,
  // its error included, which costs no budget.
  lemma WritesThroughBeforeCrash<S>(write: WriteFn<S>, st: Crashing<S>, buf: seq<byte>, fits: seq<byte>)
    requires Room(st) > 0 && buf != []
    requires fits <= buf && |fits| == Min(Room(st), |buf|)
    ensures var (next, result) := CrashWrite(write, st, buf);
            && (next.inner, result) == write(st.inner, fits)
            && next.after == st.after
            && (result.Err? ==> next.written == st.written)
            && (result.Ok? ==> next.written == (st.written + result.count) % 18_446_744_073_709_551_616)
            && (result.Ok? && result.count <= |fits| ==> next.written == st.written + result.count)
  {
    assert buf[..|fits|] == fits;
  }

  // What `write_all` comes to. Reporting more than was offered would panic in
  // the slice; no live writer does.
  function CrashWriteAll<S>(write: WriteFn<S>, st: Crashing<S>, buf: seq<byte>): (Crashing<S>, bool)
    decreases |buf|
  {
    if buf == [] then (st, true)
    else
      var (next, result) := CrashWrite(write, st, buf);
      match result
      case Err(_) => (next, false)
      case Ok(n) => if n == 0 || n > |buf| then (next, false) else CrashWriteAll(write, next, buf[n..])
  }

  lemma LiveTakes<S(!new)>(write: WriteFn<S>, sink: S -> seq<byte>, st: S, buf: seq<byte>)
    requires Live(write, sink) && buf != []
    ensures var (after, result) := write(st, buf);
            && result.Ok? && 0 < result.count <= |buf|
            && sink(after) == sink(st) + buf[..result.count]
  {
    assert HonestCall(write, sink, st, buf);
    assert write(st, buf).1.Ok?;
    assert write(st, buf).1 != Ok(0);
  }

  // `write_all` gives up on a write that fails or takes nothing.
  lemma WriteAllGivesUp<S>(write: WriteFn<S>, st: Crashing<S>, buf: seq<byte>)
    requires buf != []
    ensures var (next, result) := CrashWrite(write, st, buf);
            result.Err? || result == Ok(0) ==> CrashWriteAll(write, st, buf) == (next, false)
  {
    hide CrashWrite;
  }

  // One write through a live sink: as many bytes as the sink cares to take, at
  // least one while budget and buffer last.
  lemma CrashWriteOnLiveSink<S(!new)>(write: WriteFn<S>, sink: S -> seq<byte>, st: Crashing<S>, buf: seq<byte>)
    requires Live(write, sink)
    requires buf != []
    ensures var (next, result) := CrashWrite(write, st, buf);
            if Room(st) == 0 then next == st && result.Err?
            else
              && result.Ok? && 0 < result.count <= Min(Room(st), |buf|)
              && sink(next.inner) == sink(st.inner) + buf[..result.count]
              && next == Crashing(next.inner, st.after, st.written + result.count)
              && Room(next) == Room(st) - result.count
  {
    if Room(st) > 0 {
      hide Live;
      LiveTakes(write, sink, st.inner, buf[..Min(Room(st), |buf|)]);
    }
  }

  // Filling the same room with one buffer after another, or with both at once.
  lemma TakeAppend(a: seq<byte>, b: seq<byte>, room: nat)
    ensures var first := Min(room, |a|);
            (a + b)[..Min(room, |a + b|)] == a[..first] + b[..Min(room - first, |b|)]
  {
  }

  lemma TakeAll(n: nat, room: nat)
    requires n <= room
    ensures Min(room, n) == n
  {
  }

  lemma TakeInTwo(before: seq<byte>, buf: seq<byte>, n: nat, room: nat)
    requires n <= room && n <= |buf|
    ensures (before + buf[..n]) + buf[n..][..Min(room - n, |buf| - n)] == before + buf[..Min(room, |buf|)]
  {
    TakeAppend(buf[..n], buf[n..], room);
    assert buf[..n] + buf[n..] == buf;
    TakeAll(n, room);
    var more := buf[n..][..Min(room - n, |buf| - n)];
    assert (before + buf[..n]) + more == before + (buf[..n] + more);
  }

  // One `write_all` delivers exactly what fits, however short the sink writes.
  lemma {:induction false} CrashWriteAllTruncates<S(!new)>(write: WriteFn<S>, sink: S -> seq<byte>, st: Crashing<S>, buf: seq<byte>)
    requires Live(write, sink)
    ensures var (next, ok) := CrashWriteAll(write, st, buf);
            var room := Min(Room(st), |buf|);
            && sink(next.inner) == sink(st.inner) + buf[..room]
            && next == Crashing(next.inner, st.after, st.written + room)
            && (ok <==> room == |buf|)
    decreases |buf|
  {
    if buf != [] {
      hide Live, CrashWrite, Room;
      CrashWriteOnLiveSink(write, sink, st, buf);
      var (next, result) := CrashWrite(write, st, buf);
      if Room(st) > 0 {
        var n := result.count;
        CrashWriteAllTruncates(write, sink, next, buf[n..]);
        TakeInTwo(sink(st.inner), buf, n, Room(st));
      }
    }
  }

  // A list of `write_all` calls, failed ones included.
  function CrashWriteChunks<S>(write: WriteFn<S>, st: Crashing<S>, chunks: seq<seq<byte>>): (r: (Crashing<S>, seq<bool>))
    ensures |r.1| == |chunks|
  {
    if chunks == [] then (st, [])
    else
      var n := |chunks| - 1;
      var (before, oks) := CrashWriteChunks(write, st, chunks[..n]);
      var (next, ok) := CrashWriteAll(write, before, chunks[n]);
      (next, oks + [ok])
  }

  // Truncation does not depend on the chunking: the sink ends with the first
  // min(budget, total) bytes of the whole stream.
  lemma {:induction false} TruncationIgnoresChunking<S(!new)>(write: WriteFn<S>, sink: S -> seq<byte>, st: Crashing<S>, chunks: seq<seq<byte>>)
    requires Live(write, sink)
    ensures var stream := Flatten(chunks);
            var room := Min(Room(st), |stream|);
            var next := CrashWriteChunks(write, st, chunks).0;
            && sink(next.inner) == sink(st.inner) + stream[..room]
            && next == Crashing(next.inner, st.after, st.written + room)
  {
    if chunks != [] {
      hide Live, CrashWriteAll;
      var n := |chunks| - 1;
      TruncationIgnoresChunking(write, sink, st, chunks[..n]);
      CrashWriteAllTruncates(write, sink, CrashWriteChunks(write, st, chunks[..n]).0, chunks[n]);
      TakeAppend(Flatten(chunks[..n]), chunks[n], Room(st));
    }
  }

  // The i-th call succeeds iff the stream up to and including its chunk fits,
  // or it had nothing to write.
  lemma {:induction false} ChunkSucceeds<S(!new)>(write: WriteFn<S>, sink: S -> seq<byte>, st: Crashing<S>, chunks: seq<seq<byte>>, i: nat)
    requires Live(write, sink)
    requires i < |chunks|
    ensures CrashWriteChunks(write, st, chunks).1[i] <==>
              chunks[i] == [] || |Flatten(chunks[..i + 1])| <= Room(st)
  {
    hide Live, CrashWriteAll;
    var n := |chunks| - 1;
    if i < n {
      ChunkSucceeds(write, sink, st, chunks[..n], i);
      assert chunks[..n][..i + 1] == chunks[..i + 1];
    } else {
      assert chunks[..i + 1] == chunks;
      TruncationIgnoresChunking(write, sink, st, chunks[..n]);
      CrashWriteAllTruncates(write, sink, CrashWriteChunks(write, st, chunks[..n]).0, chunks[n]);
    }
  }

  predicate AllTrue(oks: seq<bool>) {
    forall i :: 0 <= i < |oks| ==> oks[i]
  }

  // All calls succeed iff the whole stream fits the budget.
  lemma AllChunksSucceed<S(!new)>(write: WriteFn<S>, sink: S -> seq<byte>, st: Crashing<S>, chunks: seq<seq<byte>>)
    requires Live(write, sink)
    ensures AllTrue(CrashWriteChunks(write, st, chunks).1) <==> |Flatten(chunks)| <= Room(st)
  {
    hide Live, CrashWriteChunks;
    var oks := CrashWriteChunks(write, st, chunks).1;
    var room := Room(st);
    forall i | 0 <= i < |chunks|
      ensures oks[i] <==> chunks[i] == [] || |Flatten(chunks[..i + 1])| <= room
      ensures |Flatten(chunks[..i + 1])| <= |Flatten(chunks)|
    {
      ChunkSucceeds(write, sink, st, chunks, i);
      FlattenGrows(chunks, i + 1);
    }
    if |Flatten(chunks)| > room {
      var i := LastNonEmpty(chunks);
      assert !oks[i];
    }
  }

  lemma {:induction false} FlattenGrows(chunks: seq<seq<byte>>, n: nat)
    requires n <= |chunks|
    ensures |Flatten(chunks[..n])| <= |Flatten(chunks)|
  {
    if n < |chunks| {
      FlattenGrows(chunks[..|chunks| - 1], n);
      assert chunks[..|chunks| - 1][..n] == chunks[..n];
    } else {
      assert chunks[..n] == chunks;
    }
  }

  lemma {:induction false} LastNonEmpty(chunks: seq<seq<byte>>) returns (i: nat)
    requires |Flatten(chunks)| > 0
    ensures i < |chunks| && chunks[i] != [] && Flatten(chunks[..i + 1]) == Flatten(chunks)
  {
    var n := |chunks| - 1;
    if chunks[n] != [] {
      i := n;
      assert chunks[..n + 1] == chunks;
    } else {
      assert Flatten(chunks[..n]) + chunks[n] == Flatten(chunks[..n]);
      i := LastNonEmpty(chunks[..n]);
      assert chunks[..n][..i + 1] == chunks[..i + 1];
    }
  }

  // Once the budget is spent every later write fails and changes nothing.
  lemma {:induction false} SpentBudgetIsFinal<S>(write: WriteFn<S>, st: Crashing<S>, bufs: seq<seq<byte>>)
    requires st.written >= st.after
    ensures var (next, results) := WriteAllOf(CrashFn(write), st, bufs);
            && next == st
            && forall i :: 0 <= i < |bufs| ==> results[i] == Err(CrashPointReached)
  {
    if bufs != [] {
      SpentBudgetIsFinal(write, st, bufs[..|bufs| - 1]);
    }
  }

  lemma OneWriteCounted<S(!new)>(write: WriteFn<S>, sink: S -> seq<byte>, st: Crashing<S>, buf: seq<byte>)
    requires Honest(write, sink)
    ensures var next := CrashWrite(write, st, buf).0;
            && |sink(next.inner)| == |sink(st.inner)| + next.written - st.written
            && next.written <= Max(st.after, st.written)
            && next.after == st.after
  {
    if st.written < st.after && buf != [] {
      assert HonestCall(write, sink, st.inner, buf[..Min(st.after - st.written, |buf|)]);
    }
  }

  // A crash writer around an honest one is honest, counts exactly the bytes it
  // delivers, and never delivers past the crash point.
  lemma {:induction false} BudgetHolds<S(!new)>(write: WriteFn<S>, sink: S -> seq<byte>, st: Crashing<S>, bufs: seq<seq<byte>>)
    requires Honest(write, sink)
    ensures var next := WriteAllOf(CrashFn(write), st, bufs).0;
            && |sink(next.inner)| == |sink(st.inner)| + next.written - st.written
            && next.written <= Max(st.after, st.written)
            && next.after == st.after
  {
    if bufs != [] {
      hide Honest, CrashWrite;
      var n := |bufs| - 1;
      BudgetHolds(write, sink, st, bufs[..n]);
      OneWriteCounted(write, sink, WriteAllOf(CrashFn(write), st, bufs[..n]).0, bufs[n]);
    }
  }

  lemma CrashIsHonest<S(!new)>(write: WriteFn<S>, sink: S -> seq<byte>)
    requires Honest(write, sink)
    ensures Honest(CrashFn(write), (st: Crashing<S>) => sink(st.inner))
  {
    var outer := (st: Crashing<S>) => sink(st.inner);
    forall st: Crashing<S>, buf: seq<byte>
      ensures HonestCall(CrashFn(write), outer, st, buf)
    {
      if st.written < st.after && buf != [] {
        assert HonestCall(write, sink, st.inner, buf[..Min(st.after - st.written, |buf|)]);
      } else {
        assert buf[..0] == [];
      }
    }
  }

  // A chaos writer around a crash writer: the sink never gets more than the
  // budget, torn bytes included, and `bytes_written` is how much it has grown.
  lemma ChaosAroundCrash<S(!new)>(write: WriteFn<S>, sink: S -> seq<byte>, inner: S, budget: usize,
                                  schedule: State, attempt: usize, bufs: seq<seq<byte>>)
    requires Honest(write, sink)
    ensures var crash := WriteAllOf(ChaosFn(CrashFn(write)), Chaos(Crashing(inner, budget, 0), schedule, attempt), bufs).0.inner;
            |sink(crash.inner)| - |sink(inner)| == crash.written <= budget
  {
    hide Honest, WriteAllOf, Outcomes;
    var st := Chaos(Crashing(inner, budget, 0), schedule, attempt);
    InnerSeesOnlyPassingWrites(CrashFn(write), st, bufs);
    BudgetHolds(write, sink, st.inner, InnerBufs(Outcomes(st, |bufs|), bufs));
  }

  // The other way round a torn byte is delivered without being counted. In
  // PartialWrite mode there is one for each failure that was injected.
  function InjectedErrors(results: seq<IoResult>): nat {
    if results == [] then 0
    else
      var n := |results| - 1;
      InjectedErrors(results[..n]) + (if IsInjected(results[n]) then 1 else 0)
  }

  predicate IsInjected(result: IoResult) {
    result.Err? && result.error.Injected?
  }

  function TornBytes(mode: FailureMode, injected: nat): nat {
    if mode.PartialWrite? then injected else 0
  }

  lemma OneChaosWrite<S(!new)>(write: WriteFn<S>, sink: S -> seq<byte>, st: Chaos<S>, buf: seq<byte>)
    requires Honest(write, sink) && buf != []
    ensures var (next, result) := ChaosWrite(write, st, buf);
            var grown := |sink(next.inner)| - |sink(st.inner)|;
            var torn := TornBytes(st.schedule.mode, if IsInjected(result) then 1 else 0);
            && next.schedule.mode == st.schedule.mode
            && (result.Ok? ==> grown == result.count <= |buf|)
            && (result.Err? ==> 0 <= grown <= torn)
            && (result.Err? && Live(write, sink) ==> grown == torn)
  {
    hide Fires;
    assert HonestCall(write, sink, st.inner, buf);
    var result := write(st.inner, buf[..1]).1;
    assert HonestCall(write, sink, st.inner, buf[..1]);
    assert result.Ok? ==> |buf[..1][..result.count]| == result.count <= 1;
  }

  lemma OneWriteAroundChaos<S(!new)>(write: WriteFn<S>, sink: S -> seq<byte>, st: Crashing<Chaos<S>>, buf: seq<byte>)
    requires Honest(write, sink)
    ensures var (next, result) := CrashWrite(ChaosFn(write), st, buf);
            var counted := |sink(st.inner.inner)| + next.written - st.written;
            var torn := TornBytes(st.inner.schedule.mode, if IsInjected(result) then 1 else 0);
            && counted <= |sink(next.inner.inner)| <= counted + torn
            && (Live(write, sink) ==> |sink(next.inner.inner)| == counted + torn)
            && next.written <= Max(st.after, st.written)
            && next.after == st.after
            && next.inner.schedule.mode == st.inner.schedule.mode
  {
    hide ChaosWrite, Honest, Live;
    if st.written < st.after && buf != [] {
      OneChaosWrite(write, sink, st.inner, buf[..Min(st.after - st.written, |buf|)]);
    }
  }

  // So the sink holds what was counted and at most the torn bytes, all of them
  // if it is live. Writes refused past the crash point add nothing.
  lemma {:induction false} CrashAroundChaos<S(!new)>(write: WriteFn<S>, sink: S -> seq<byte>, st: Crashing<Chaos<S>>, bufs: seq<seq<byte>>)
    requires Honest(write, sink)
    ensures var (next, results) := WriteAllOf(CrashFn(ChaosFn(write)), st, bufs);
            var counted := |sink(st.inner.inner)| + next.written - st.written;
            var torn := TornBytes(st.inner.schedule.mode, InjectedErrors(results));
            && counted <= |sink(next.inner.inner)| <= counted + torn
            && (Live(write, sink) ==> |sink(next.inner.inner)| == counted + torn)
            && next.written <= Max(st.after, st.written)
            && next.after == st.after
            && next.inner.schedule.mode == st.inner.schedule.mode
  {
    if bufs != [] {
      hide Honest, Live, CrashWrite;
      var n := |bufs| - 1;
      CrashAroundChaos(write, sink, st, bufs[..n]);
      var (before, earlier) := WriteAllOf(CrashFn(ChaosFn(write)), st, bufs[..n]);
      OneWriteAroundChaos(write, sink, before, bufs[n]);
      var result := CrashWrite(ChaosFn(write), before, bufs[n]).1;
      assert (earlier + [result])[..n] == earlier;
    }
  }

  // A fresh crash writer around a fresh chaos writer.
  function CrashingChaos<S>(inner: S, kind: Kind, mode: FailureMode, limit: Option<usize>, budget: usize)
    : Crashing<Chaos<S>>
  {
    Crashing(Wrapped(inner, kind, mode, limit), budget, 0)
  }

  function Delivered<S>(write: WriteFn<S>, sink: S -> seq<byte>, st: Crashing<Chaos<S>>, bufs: seq<seq<byte>>): int {
    |sink(WriteAllOf(CrashFn(ChaosFn(write)), st, bufs).0.inner.inner)| - |sink(st.inner.inner)|
  }

  // No list of writes gets more than its budget past the crash point.
  ghost predicate KeepsBudget<S(!new)>(write: WriteFn<S>, sink: S -> seq<byte>, st: Crashing<Chaos<S>>) {
    forall bufs: seq<seq<byte>> :: Delivered(write, sink, st, bufs) <= st.after
  }

  // The promise that at most `budget` bytes get through holds around a chaos
  // writer iff no byte can be torn before the budget is spent.
  lemma KeepsBudgetIff<S(!new)>(write: WriteFn<S>, sink: S -> seq<byte>, inner: S,
                                kind: Kind, mode: FailureMode, limit: Option<usize>, budget: usize)
    requires Live(write, sink)
    ensures KeepsBudget(write, sink, CrashingChaos(inner, kind, mode, limit, budget)) <==>
              || !mode.PartialWrite?
              || limit == Some(0)
              || forall k :: 1 <= k <= budget ==> !Fires(kind, k)
  {
    hide Live, Fires, WriteAllOf;
    var st := CrashingChaos(inner, kind, mode, limit, budget);
    if !mode.PartialWrite? {
      forall bufs: seq<seq<byte>>
        ensures Delivered(write, sink, st, bufs) <= budget
      {
        LiveIsHonest(write, sink);
        CrashAroundChaos(write, sink, st, bufs);
      }
    } else if limit == Some(0) || forall k :: 1 <= k <= budget ==> !Fires(kind, k) {
      forall bufs: seq<seq<byte>>
        ensures Delivered(write, sink, st, bufs) <= budget
      {
        NothingTorn(write, sink, st, bufs);
      }
    } else {
      var k :| 1 <= k <= budget && Fires(kind, k);
      TornByteOverruns(write, sink, st, k);
    }
  }

  lemma LiveIsHonest<S(!new)>(write: WriteFn<S>, sink: S -> seq<byte>)
    requires Live(write, sink)
    ensures Honest(write, sink)
  {
  }

  // A schedule that lets attempts 1..=budget through.
  ghost predicate Harmless(s: State, budget: usize) {
    s.limit == Some(0) || forall k :: 1 <= k <= budget ==> !Fires(s.kind, k)
  }

  // While budget is left no attempt past it is made: every attempt so far got
  // at least one byte through.
  lemma {:induction false} NothingTorn<S(!new)>(write: WriteFn<S>, sink: S -> seq<byte>, st: Crashing<Chaos<S>>, bufs: seq<seq<byte>>)
    requires Live(write, sink)
    requires Harmless(st.inner.schedule, st.after)
    requires st.inner.attempt == 0 == st.written
    ensures var next := WriteAllOf(CrashFn(ChaosFn(write)), st, bufs).0;
            && |sink(next.inner.inner)| == |sink(st.inner.inner)| + next.written
            && next.inner.attempt <= next.written <= next.after == st.after
            && Harmless(next.inner.schedule, st.after)
  {
    if bufs != [] {
      hide Live, CrashWrite, Harmless;
      var n := |bufs| - 1;
      NothingTorn(write, sink, st, bufs[..n]);
      OneHarmlessWrite(write, sink, WriteAllOf(CrashFn(ChaosFn(write)), st, bufs[..n]).0, bufs[n]);
    }
  }

  lemma OneHarmlessWrite<S(!new)>(write: WriteFn<S>, sink: S -> seq<byte>, st: Crashing<Chaos<S>>, buf: seq<byte>)
    requires Live(write, sink)
    requires Harmless(st.inner.schedule, st.after)
    requires st.inner.attempt <= st.written <= st.after
    ensures var next := CrashWrite(ChaosFn(write), st, buf).0;
            && |sink(next.inner.inner)| - next.written == |sink(st.inner.inner)| - st.written
            && next.inner.attempt <= next.written <= next.after == st.after
            && Harmless(next.inner.schedule, st.after)
  {
    if st.written < st.after && buf != [] {
      hide Check, Harmless, Live;
      LiveTakes(write, sink, st.inner.inner, buf[..Min(st.after - st.written, |buf|)]);
      HarmlessProceeds(st.inner.schedule, st.after, st.inner.attempt + 1);
    }
  }

  lemma HarmlessProceeds(s: State, budget: usize, attempt: usize)
    requires Harmless(s, budget) && 1 <= attempt <= budget
    ensures Check(s, attempt).1.Proceed? && Harmless(Check(s, attempt).0, budget)
  {
    hide Fires;
  }

  const ONE_BYTE: seq<byte> := [0]

  function SingleBytes(n: nat): seq<seq<byte>> {
    if n == 0 then [] else SingleBytes(n - 1) + [ONE_BYTE]
  }

  // Otherwise single bytes, one more of them than the budget, all get through.
  lemma TornByteOverruns<S(!new)>(write: WriteFn<S>, sink: S -> seq<byte>, st: Crashing<Chaos<S>>, k: usize)
    requires Live(write, sink)
    requires st == CrashingChaos(st.inner.inner, st.inner.schedule.kind, PartialWrite, st.inner.schedule.limit, st.after)
    requires st.inner.schedule.limit != Some(0)
    requires 1 <= k <= st.after && Fires(st.inner.schedule.kind, k)
    ensures Delivered(write, sink, st, SingleBytes(st.after + 1)) == st.after + 1
  {
    hide Live, Fires, CrashWrite, WriteAllOf;
    var crash, budget := CrashFn(ChaosFn(write)), st.after;
    SingleBytesArrive(write, sink, st, budget);
    FiringCounted(st.inner.schedule.kind, k, budget);
    var before := WriteAllOf(crash, st, SingleBytes(budget)).0;
    OneSingleByte(write, sink, before);
    AppendWrite(crash, st, SingleBytes(budget), ONE_BYTE);
  }

  // After n single bytes the sink has them all, and an attempt among the first
  // n that fires has left one of them uncounted.
  predicate Arrived<S>(sink: S -> seq<byte>, st: Crashing<Chaos<S>>, next: Crashing<Chaos<S>>, n: usize) {
    var firing := FiringCount(st.inner.schedule.kind, FirstAttempts(n));
    && |sink(next.inner.inner)| == |sink(st.inner.inner)| + n
    && next.after == st.after
    && next.inner.attempt == n
    && next.inner.schedule == st.inner.schedule.(invocations := n, failures := firing)
    && next.written + Min(firing, 1) <= n
  }

  lemma {:induction false} SingleBytesArrive<S(!new)>(write: WriteFn<S>, sink: S -> seq<byte>, st: Crashing<Chaos<S>>, n: usize)
    requires Live(write, sink)
    requires st == CrashingChaos(st.inner.inner, st.inner.schedule.kind, PartialWrite, st.inner.schedule.limit, st.after)
    requires st.inner.schedule.limit != Some(0)
    requires n <= st.after
    ensures Arrived(sink, st, WriteAllOf(CrashFn(ChaosFn(write)), st, SingleBytes(n)).0, n)
  {
    hide Live, WriteAllOf, CrashWrite, Fires;
    if n == 0 {
      NoWrites(CrashFn(ChaosFn(write)), st);
    } else {
      hide Arrived;
      SingleBytesArrive(write, sink, st, n - 1);
      OneMoreArrives(write, sink, st, WriteAllOf(CrashFn(ChaosFn(write)), st, SingleBytes(n - 1)).0, n);
      AppendWrite(CrashFn(ChaosFn(write)), st, SingleBytes(n - 1), ONE_BYTE);
    }
  }

  lemma OneMoreArrives<S(!new)>(write: WriteFn<S>, sink: S -> seq<byte>, st: Crashing<Chaos<S>>, before: Crashing<Chaos<S>>,
                                n: usize)
    requires Live(write, sink)
    requires st.inner.schedule.mode.PartialWrite? && st.inner.schedule.limit != Some(0)
    requires 0 < n <= st.after && Arrived(sink, st, before, n - 1)
    ensures Arrived(sink, st, CrashWrite(ChaosFn(write), before, ONE_BYTE).0, n)
  {
    hide Live, Fires, CrashWrite, FirstAttempts;
    FirstAttemptsStep(n);
    OneSingleByte(write, sink, before);
  }

  // One byte offered before the crash point is delivered, counted or torn.
  lemma OneSingleByte<S(!new)>(write: WriteFn<S>, sink: S -> seq<byte>, st: Crashing<Chaos<S>>)
    requires Live(write, sink)
    requires st.inner.schedule.mode.PartialWrite?
    requires st.written < st.after
    ensures var next := CrashWrite(ChaosFn(write), st, ONE_BYTE).0;
            var attempt := WrappingAdd(st.inner.attempt, 1);
            var (schedule, outcome) := Check(st.inner.schedule, attempt);
            && |sink(next.inner.inner)| == |sink(st.inner.inner)| + 1
            && next.after == st.after
            && next.written == st.written + (if outcome.Proceed? then 1 else 0)
            && next.inner.attempt == attempt
            && next.inner.schedule == schedule
  {
    hide Fires;
    assert ONE_BYTE[..1] == ONE_BYTE;
    hide Live;
    LiveTakes(write, sink, st.inner.inner, ONE_BYTE);
  }

  lemma {:induction false} FiringCounted(kind: Kind, k: usize, n: usize)
    requires 1 <= k <= n && Fires(kind, k)
    ensures FiringCount(kind, FirstAttempts(n)) > 0
  {
    hide Fires;
    FirstAttemptsStep(n);
    if k < n {
      FiringCounted(kind, k, n - 1);
    }
  }

  // An in-memory sink that takes everything.
  function VecWrite(st: seq<byte>, buf: seq<byte>): (seq<byte>, IoResult) {
    (st + buf, Ok(|buf|))
  }

  lemma VecWriteIsLive()
    ensures Live(VecWrite, Contents)
  {
    forall st: seq<byte>, buf: seq<byte>
      ensures HonestCall(VecWrite, Contents, st, buf)
    {
      assert buf[..|buf|] == buf;
    }
  }

  // With PartialWrite inside, a budget of one byte lets two bytes through.
  lemma TornByteEscapesBudget()
    ensures Live(VecWrite, Contents)
    ensures var chaos := Chaos([], Fresh(Explicit({1}), PartialWrite, None), 0);
            var next := WriteAllOf(CrashFn(ChaosFn(VecWrite)), Crashing(chaos, 1, 0), [[7], [8]]).0;
            next.inner.inner == [7, 8] && next.written == 1
  {
    VecWriteIsLive();
    hide Live, WriteAllOf, CrashWrite;
    var crash := CrashFn(ChaosFn(VecWrite));
    var st := Crashing(Chaos([], Fresh(Explicit({1}), PartialWrite, None), 0), 1, 0);
    var torn := TornFirst(st);
    PassesSecond(torn);
    TwoWrites(crash, st, [7], [8]);
  }

  lemma TwoWrites<S>(write: WriteFn<S>, st: S, first: seq<byte>, second: seq<byte>)
    ensures WriteAllOf(write, st, [first, second]).0 == write(write(st, first).0, second).0
  {
    hide WriteAllOf;
    LastWrite(write, st, [first, second]);
    assert [first, second][..1] == [first];
    LastWrite(write, st, [first]);
    assert [first][..0] == [];
    NoWrites(write, st);
  }

  // Attempt 1 tears a byte that the crash writer does not count.
  lemma TornFirst(st: Crashing<Chaos<seq<byte>>>) returns (next: Crashing<Chaos<seq<byte>>>)
    requires st == Crashing(Chaos([], Fresh(Explicit({1}), PartialWrite, None), 0), 1, 0)
    ensures next == CrashWrite(ChaosFn(VecWrite), st, [7]).0
    ensures next == Crashing(Chaos([7], State(Explicit({1}), PartialWrite, None, 1, 1), 1), 1, 0)
  {
    next := CrashWrite(ChaosFn(VecWrite), st, [7]).0;
    var (schedule, outcome) := Check(st.inner.schedule, 1);
    assert outcome == Fail(InjectedFailure(PartialWrite, 1));
    assert VecWrite(st.inner.inner, [7][..1]).0 == [7];
    assert ChaosWrite(VecWrite, st.inner, [7]) == (Chaos([7], schedule, 1), Err(Injected(outcome.failure)));
    var offered := [7][..Min(st.after - st.written, |[7]|)];
    assert offered == [7];
    assert next == Crashing(ChaosFn(VecWrite)(st.inner, offered).0, 1, 0);
  }

  // Attempt 2 passes its byte on.
  lemma PassesSecond(st: Crashing<Chaos<seq<byte>>>)
    requires st == Crashing(Chaos([7], State(Explicit({1}), PartialWrite, None, 1, 1), 1), 1, 0)
    ensures var next := CrashWrite(ChaosFn(VecWrite), st, [8]).0;
            next.inner.inner == [7, 8] && next.written == 1
  {
    assert [8][..1] == [8];
    assert [7] + [8] == [7, 8];
  }
}
