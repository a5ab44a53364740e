// Any number of threads skewing, resetting and reading one clock. As with
// schedules, each call is a process of atomic steps; an interleaving may pick
// the calls in any order and make any compare-exchange fail spuriously.
module ClockContention {
  import opened Machine
  import opened Saturation
  import opened Counting

  datatype Op = Skew(delta: i64) | Reset | Read

  // A skew that has read the offset remembers what it read, how many calls had
  // taken effect by then, and how often its exchange has failed.
  datatype Pc =
    | NotStarted
    | Loaded(cur: i64, seen: nat, retries: nat)
    | Done(result: i64, retries: nat)

  datatype Call = Call(op: Op, pc: Pc)

  // The offset, the calls, and the order in which calls took effect.
  datatype Shared = Shared(offset: i64, calls: seq<Call>, log: seq<nat>)

  datatype Turn = Turn(call: nat, spurious: bool)

  function Start(offset: i64, ops: seq<Op>): Shared {
    Shared(offset, seq(|ops|, i requires 0 <= i < |ops| => Call(ops[i], NotStarted)), [])
  }

  // The next atomic step of a call.
  function Step(st: Shared, turn: Turn): Shared {
    if turn.call >= |st.calls| then st
    else
      var Call(op, pc) := st.calls[turn.call];
      match pc
      case NotStarted =>
        (match op
         case Skew(_) => st.(calls := st.calls[turn.call := Call(op, Loaded(st.offset, |st.log|, 0))])
         case Reset => Finish(st, turn.call, 0, Done(0, 0))
         case Read => Finish(st, turn.call, st.offset, Done(st.offset, 0)))
      case Loaded(cur, seen, retries) =>
        var next := Effect(op, cur);
        if st.offset == cur && !turn.spurious
        then Finish(st, turn.call, next, Done(next, retries))
        else st.(calls := st.calls[turn.call := Call(op, Loaded(st.offset, |st.log|, retries + 1))])
      case Done(_, _) => st
  }

  function Finish(st: Shared, i: nat, offset: i64, pc: Pc): Shared
    requires i < |st.calls|
  {
    Shared(offset, st.calls[i := Call(st.calls[i].op, pc)], st.log + [i])
  }

  function Execute(st: Shared, interleaving: seq<Turn>): Shared {
    if interleaving == [] then st
    else
      var n := |interleaving| - 1;
      Step(Execute(st, interleaving[..n]), interleaving[n])
  }

  // What one call does to the offset when it takes effect at once.
  function Effect(op: Op, offset: i64): i64 {
    match op
    case Skew(delta) => SaturatingAdd(offset, delta)
    case Reset => 0
    case Read => offset
  }

  // The offset after the logged calls, one after another.
  function Replay(offset: i64, ops: seq<Op>, log: seq<nat>): i64
    requires forall k :: 0 <= k < |log| ==> log[k] < |ops|
  {
    if log == [] then offset
    else Effect(ops[log[|log| - 1]], Replay(offset, ops, log[..|log| - 1]))
  }

  // How many of the logged calls changed the offset.
  function Changes(offset: i64, ops: seq<Op>, log: seq<nat>): nat
    requires forall k :: 0 <= k < |log| ==> log[k] < |ops|
  {
    if log == [] then 0
    else
      var earlier := log[..|log| - 1];
      Changes(offset, ops, earlier) + (if Replay(offset, ops, log) != Replay(offset, ops, earlier) then 1 else 0)
  }

  predicate Unfinished(st: Shared, i: nat) {
    i < |st.calls| && !st.calls[i].pc.Done?
  }

  // What one step of an unfinished call changes.
  lemma StepShape(st: Shared, turn: Turn)
    requires Unfinished(st, turn.call)
    requires st.calls[turn.call].pc.Loaded? ==> st.calls[turn.call].op.Skew?
    ensures |Step(st, turn).calls| == |st.calls|
    ensures var i := turn.call;
            var Call(op, pc) := st.calls[i];
            var next := Step(st, turn);
            && next.calls == st.calls[i := Call(op, next.calls[i].pc)]
            && match next.calls[i].pc
               case NotStarted => false
               case Loaded(cur, seen, retries) =>
                 && op.Skew?
                 && next.log == st.log && next.offset == st.offset
                 && cur == st.offset && seen == |st.log|
                 && (pc.NotStarted? ==> retries == 0)
                 && (pc.Loaded? ==> retries == pc.retries + 1 && (st.offset != pc.cur || turn.spurious))
               case Done(result, retries) =>
                 && next.log == st.log + [i]
                 && next.offset == result == Effect(op, st.offset)
                 && (if pc.Loaded? then retries == pc.retries else retries == 0)
  {
  }

  lemma StepOfFinished(st: Shared, turn: Turn)
    requires !Unfinished(st, turn.call)
    ensures Step(st, turn) == st
  {
  }

  // The calls made are the ones given, and the log lists the finished ones once each.
  ghost predicate WellLogged(ops: seq<Op>, st: Shared) {
    && |st.calls| == |ops|
    && (forall i :: 0 <= i < |ops| ==> st.calls[i].op == ops[i] && (st.calls[i].pc.Loaded? ==> ops[i].Skew?))
    && Distinct(st.log)
    && (forall k :: 0 <= k < |st.log| ==> st.log[k] < |ops| && st.calls[st.log[k]].pc.Done?)
    && (forall i :: 0 <= i < |ops| && st.calls[i].pc.Done? ==> i in st.log)
  }

  // A call that is waiting to commit holds the offset it read.
  predicate HoldsWhatItRead(offset: i64, ops: seq<Op>, log: seq<nat>, pc: Pc)
    requires forall k :: 0 <= k < |log| ==> log[k] < |ops|
  {
    pc.Loaded? ==> pc.seen <= |log| && pc.cur == Replay(offset, ops, log[..pc.seen])
  }

  // The offset is the replay of the log, and each logged call got the offset
  // that its place in the log gives it.
  ghost predicate Linearized(offset: i64, ops: seq<Op>, st: Shared) {
    && WellLogged(ops, st)
    && st.offset == Replay(offset, ops, st.log)
    && (forall i :: 0 <= i < |ops| ==> HoldsWhatItRead(offset, ops, st.log, st.calls[i].pc))
    && (forall k :: 0 <= k < |st.log| ==>
          st.calls[st.log[k]].pc.result == Replay(offset, ops, st.log[..k + 1]))
  }

  lemma StepWellLogged(ops: seq<Op>, st: Shared, turn: Turn)
    requires WellLogged(ops, st)
    ensures WellLogged(ops, Step(st, turn))
  {
    hide Step;
    if !Unfinished(st, turn.call) {
      StepOfFinished(st, turn);
    } else {
      StepShape(st, turn);
      assert turn.call !in st.log;
      var next := Step(st, turn);
      forall k | 0 <= k < |ops| && next.calls[k].pc.Done?
        ensures k in next.log
      {
        if k == turn.call {
          assert next.log[|next.log| - 1] == k;
        } else {
          assert k in st.log;
        }
      }
    }
  }

  lemma ReplayOneMore(offset: i64, ops: seq<Op>, log: seq<nat>, i: nat)
    requires forall k :: 0 <= k < |log| ==> log[k] < |ops|
    requires i < |ops|
    ensures Replay(offset, ops, log + [i]) == Effect(ops[i], Replay(offset, ops, log))
  {
    assert (log + [i])[..|log|] == log;
  }

  lemma LoadedKeepsItsPrefix(before: seq<nat>, after: seq<nat>, pc: Pc)
    requires before <= after
    ensures pc.Loaded? && pc.seen <= |before| ==> after[..pc.seen] == before[..pc.seen]
  {
  }

  lemma StepHolds(offset: i64, ops: seq<Op>, st: Shared, turn: Turn, k: nat)
    requires Linearized(offset, ops, st)
    requires Unfinished(st, turn.call) && k < |ops|
    ensures WellLogged(ops, Step(st, turn))
    ensures HoldsWhatItRead(offset, ops, Step(st, turn).log, Step(st, turn).calls[k].pc)
  {
    hide Replay, Step;
    StepWellLogged(ops, st, turn);
    StepShape(st, turn);
    var pc := Step(st, turn).calls[k].pc;
    assert st.log[..|st.log|] == st.log;
    assert HoldsWhatItRead(offset, ops, st.log, st.calls[k].pc);
    LoadedKeepsItsPrefix(st.log, Step(st, turn).log, pc);
  }

  lemma StepLinearized(offset: i64, ops: seq<Op>, st: Shared, turn: Turn)
    requires Linearized(offset, ops, st)
    ensures Linearized(offset, ops, Step(st, turn))
  {
    hide Replay, Step, HoldsWhatItRead;
    if !Unfinished(st, turn.call) {
      StepOfFinished(st, turn);
    } else {
      var next := Step(st, turn);
      StepWellLogged(ops, st, turn);
      StepShape(st, turn);
      ReplayOneMore(offset, ops, st.log, turn.call);
      forall k | 0 <= k < |ops|
        ensures HoldsWhatItRead(offset, ops, next.log, next.calls[k].pc)
      {
        StepHolds(offset, ops, st, turn, k);
      }
      assert next.log[..|next.log|] == next.log;
      forall k | 0 <= k < |st.log|
        ensures next.calls[next.log[k]].pc.result == Replay(offset, ops, next.log[..k + 1])
      {
        assert next.log[..k + 1] == st.log[..k + 1];
        assert st.log[k] != turn.call;
      }
    }
  }

  // Every interleaving is linearizable: no update is lost, none applied twice.
  lemma {:induction false} EveryInterleavingLinearizes(offset: i64, ops: seq<Op>, interleaving: seq<Turn>)
    ensures Linearized(offset, ops, Execute(Start(offset, ops), interleaving))
  {
    if interleaving != [] {
      hide Linearized;
      var n := |interleaving| - 1;
      EveryInterleavingLinearizes(offset, ops, interleaving[..n]);
      StepLinearized(offset, ops, Execute(Start(offset, ops), interleaving[..n]), interleaving[n]);
    }
  }

  // The log respects real time: it only grows, so a call that had returned
  // before another one began comes before it.
  lemma {:induction false} LogOnlyGrows(st: Shared, interleaving: seq<Turn>)
    ensures st.log <= Execute(st, interleaving).log
  {
    if interleaving != [] {
      LogOnlyGrows(st, interleaving[..|interleaving| - 1]);
    }
  }

  lemma LastStep(st: Shared, interleaving: seq<Turn>, turn: Turn)
    ensures Execute(st, interleaving + [turn]) == Step(Execute(st, interleaving), turn)
  {
    hide Step;
    assert (interleaving + [turn])[..|interleaving|] == interleaving;
  }

  lemma {:induction false} ExecuteInTwoParts(st: Shared, earlier: seq<Turn>, later: seq<Turn>)
    ensures Execute(Execute(st, earlier), later) == Execute(st, earlier + later)
  {
    if later == [] {
      assert earlier + later == earlier;
    } else {
      hide Step, Execute;
      var n := |later| - 1;
      ExecuteInTwoParts(st, earlier, later[..n]);
      LastStep(st, earlier + later[..n], later[n]);
      LastStep(Execute(st, earlier), later[..n], later[n]);
      assert later[..n] + [later[n]] == later;
      assert earlier + later[..n] + [later[n]] == earlier + later;
    }
  }

  lemma RealTimeOrder(offset: i64, ops: seq<Op>, earlier: seq<Turn>, later: seq<Turn>, p: nat, q: nat)
    requires var mid := Execute(Start(offset, ops), earlier);
             var end := Execute(mid, later);
             && p < |end.log| && q < |end.log|
             && end.log[p] < |mid.calls| && mid.calls[end.log[p]].pc.Done?
             && end.log[q] < |mid.calls| && mid.calls[end.log[q]].pc.NotStarted?
    ensures p < q
  {
    hide Execute, Start, Replay;
    var mid := Execute(Start(offset, ops), earlier);
    var end := Execute(mid, later);
    EveryInterleavingLinearizes(offset, ops, earlier);
    EveryInterleavingLinearizes(offset, ops, earlier + later);
    ExecuteInTwoParts(Start(offset, ops), earlier, later);
    LogOnlyGrows(mid, later);
    assert end.log[p] in mid.log;
    var r :| 0 <= r < |mid.log| && mid.log[r] == end.log[p];
    assert end.log[r] == end.log[p];
    assert r == p;
    assert forall k :: 0 <= k < |mid.log| ==> mid.calls[end.log[k]].pc.Done?;
  }

  // Retries. Without spurious failures an exchange fails only because some
  // other call has changed the offset since this one last read it.
  predicate NoneSpurious(interleaving: seq<Turn>) {
    forall k :: 0 <= k < |interleaving| ==> !interleaving[k].spurious
  }

  predicate RetriesCharged(offset: i64, ops: seq<Op>, log: seq<nat>, pc: Pc)
    requires forall k :: 0 <= k < |log| ==> log[k] < |ops|
  {
    pc.Loaded? ==> pc.seen <= |log| && pc.retries <= Changes(offset, ops, log[..pc.seen])
  }

  // The retries of a finished call are at most the changes logged before it.
  ghost predicate Charged(offset: i64, ops: seq<Op>, st: Shared) {
    && WellLogged(ops, st)
    && (forall i :: 0 <= i < |ops| ==> RetriesCharged(offset, ops, st.log, st.calls[i].pc))
    && (forall k :: 0 <= k < |st.log| ==>
          st.calls[st.log[k]].pc.retries <= Changes(offset, ops, st.log[..k]))
  }

  lemma {:induction false} ChangesGrow(offset: i64, ops: seq<Op>, log: seq<nat>, n: nat)
    requires forall k :: 0 <= k < |log| ==> log[k] < |ops|
    requires n <= |log|
    ensures Changes(offset, ops, log[..n]) <= Changes(offset, ops, log)
    ensures Replay(offset, ops, log[..n]) != Replay(offset, ops, log) ==>
              Changes(offset, ops, log[..n]) < Changes(offset, ops, log)
  {
    if n < |log| {
      var earlier := log[..|log| - 1];
      ChangesGrow(offset, ops, earlier, n);
      assert earlier[..n] == log[..n];
    } else {
      assert log[..n] == log;
    }
  }

  lemma StepperCharged(offset: i64, ops: seq<Op>, st: Shared, turn: Turn)
    requires Linearized(offset, ops, st) && Charged(offset, ops, st)
    requires !turn.spurious
    requires Unfinished(st, turn.call)
    ensures var pc := Step(st, turn).calls[turn.call].pc;
            !pc.NotStarted? && pc.retries <= Changes(offset, ops, st.log)
  {
    hide Replay, Changes, Step;
    var pc := st.calls[turn.call].pc;
    StepShape(st, turn);
    assert HoldsWhatItRead(offset, ops, st.log, pc);
    assert RetriesCharged(offset, ops, st.log, pc);
    if pc.Loaded? {
      ChangesGrow(offset, ops, st.log, pc.seen);
    }
  }

  lemma StepCharged(offset: i64, ops: seq<Op>, st: Shared, turn: Turn)
    requires Linearized(offset, ops, st) && Charged(offset, ops, st)
    requires !turn.spurious
    ensures Charged(offset, ops, Step(st, turn))
  {
    hide Replay, Changes, Step, Linearized;
    var i := turn.call;
    StepWellLogged(ops, st, turn);
    if !Unfinished(st, i) {
      StepOfFinished(st, turn);
    } else {
      StepShape(st, turn);
      StepperCharged(offset, ops, st, turn);
      var next := Step(st, turn);
      assert st.log[..|st.log|] == st.log;
      forall k | 0 <= k < |ops|
        ensures RetriesCharged(offset, ops, next.log, next.calls[k].pc)
      {
        assert RetriesCharged(offset, ops, st.log, st.calls[k].pc);
        LoadedKeepsItsPrefix(st.log, next.log, next.calls[k].pc);
      }
      forall k | 0 <= k < |next.log|
        ensures next.calls[next.log[k]].pc.retries <= Changes(offset, ops, next.log[..k])
      {
        assert next.log[..k] == st.log[..k];
        assert k < |st.log| ==> st.log[k] != i;
      }
    }
  }

  lemma {:induction false} RetriesAreCharged(offset: i64, ops: seq<Op>, interleaving: seq<Turn>)
    requires NoneSpurious(interleaving)
    ensures Charged(offset, ops, Execute(Start(offset, ops), interleaving))
  {
    if interleaving != [] {
      hide Linearized, Charged;
      var n := |interleaving| - 1;
      EveryInterleavingLinearizes(offset, ops, interleaving[..n]);
      RetriesAreCharged(offset, ops, interleaving[..n]);
      StepCharged(offset, ops, Execute(Start(offset, ops), interleaving[..n]), interleaving[n]);
    }
  }

  // What is left to do: at most one retry for each commit still to come.
  function Weight(n: nat, pc: Pc): nat {
    match pc
    case NotStarted => n + 2
    case Loaded(_, seen, _) => 1 + Max(n - seen, 0)
    case Done(_, _) => 0
  }

  function Work(n: nat, calls: seq<Call>): nat {
    if calls == [] then 0
    else Work(n, calls[..|calls| - 1]) + Weight(n, calls[|calls| - 1].pc)
  }

  lemma {:induction false} WorkUpdate(n: nat, calls: seq<Call>, i: nat, call: Call)
    requires i < |calls|
    ensures Work(n, calls[i := call]) == Work(n, calls) - Weight(n, calls[i].pc) + Weight(n, call.pc)
  {
    var last := |calls| - 1;
    if i < last {
      WorkUpdate(n, calls[..last], i, call);
      assert calls[i := call][..last] == calls[..last][i := call];
    } else {
      assert calls[i := call][..last] == calls[..last];
    }
  }

  lemma {:induction false} WorkAtStart(n: nat, calls: seq<Call>)
    requires forall i :: 0 <= i < |calls| ==> calls[i].pc.NotStarted?
    ensures Work(n, calls) == |calls| * (n + 2)
  {
    if calls != [] {
      var last := |calls| - 1;
      WorkAtStart(n, calls[..last]);
      assert |calls| * (n + 2) == last * (n + 2) + (n + 2);
    }
  }

  lemma StepLightens(offset: i64, ops: seq<Op>, st: Shared, turn: Turn)
    requires Linearized(offset, ops, st)
    requires !turn.spurious && Unfinished(st, turn.call)
    ensures Weight(|ops|, Step(st, turn).calls[turn.call].pc) < Weight(|ops|, st.calls[turn.call].pc)
  {
    hide Replay, Step;
    DistinctIsShort(st.log, |ops|);
    assert HoldsWhatItRead(offset, ops, st.log, st.calls[turn.call].pc);
    assert st.log[..|st.log|] == st.log;
    StepShape(st, turn);
  }

  // Without spurious failures every step of an unfinished call does work.
  lemma StepDoesWork(offset: i64, ops: seq<Op>, st: Shared, turn: Turn)
    requires Linearized(offset, ops, st)
    requires !turn.spurious && Unfinished(st, turn.call)
    ensures Work(|ops|, Step(st, turn).calls) < Work(|ops|, st.calls)
  {
    hide Replay, Step, Work, Weight;
    StepLightens(offset, ops, st, turn);
    StepShape(st, turn);
    WorkUpdate(|ops|, st.calls, turn.call, Step(st, turn).calls[turn.call]);
  }

  // The steps of an interleaving that some unfinished call takes.
  function BusySteps(st: Shared, interleaving: seq<Turn>): nat {
    if interleaving == [] then 0
    else
      var n := |interleaving| - 1;
      BusySteps(st, interleaving[..n]) + (if Unfinished(Execute(st, interleaving[..n]), interleaving[n].call) then 1 else 0)
  }

  // So n calls finish within n * (n + 2) steps, however they are interleaved.
  lemma {:induction false} StepsAreBounded(offset: i64, ops: seq<Op>, interleaving: seq<Turn>)
    requires NoneSpurious(interleaving)
    ensures var st := Start(offset, ops);
            BusySteps(st, interleaving) + Work(|ops|, Execute(st, interleaving).calls) <= |ops| * (|ops| + 2)
  {
    hide Linearized, Step, Work;
    var st := Start(offset, ops);
    if interleaving == [] {
      WorkAtStart(|ops|, st.calls);
    } else {
      var n := |interleaving| - 1;
      var before := Execute(st, interleaving[..n]);
      StepsAreBounded(offset, ops, interleaving[..n]);
      EveryInterleavingLinearizes(offset, ops, interleaving[..n]);
      if Unfinished(before, interleaving[n].call) {
        StepDoesWork(offset, ops, before, interleaving[n]);
      } else {
        StepOfFinished(before, interleaving[n]);
      }
    }
  }
}
