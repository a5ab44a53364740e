// Any number of threads sharing one schedule. A thread's calls are independent
// processes here: an execution interleaves their atomic steps in any order, and
// a call may stay unstarted for as long as its thread is busy elsewhere.
module ScheduleContention {
  import opened Machine
  import opened Schedule
  import opened ScheduleHistory
  import opened Counting

  // Where one `maybe_fail` call stands between its atomic steps.
  datatype Pc =
    | NotStarted
    | Counted
    | Picked
    | Done(outcome: Outcome)

  datatype Call = Call(attempt: usize, pc: Pc)

  // The schedule that the threads share, their calls, and the order in which
  // calls took effect.
  datatype Shared = Shared(schedule: State, calls: seq<Call>, log: seq<nat>)

  function Start(schedule: State, attempts: seq<usize>): Shared {
    Shared(schedule, seq(|attempts|, i requires 0 <= i < |attempts| => Call(attempts[i], NotStarted)), [])
  }

  // The next atomic step of call i.
  function Step(st: Shared, i: nat): Shared {
    if i >= |st.calls| then st
    else
      var Call(attempt, pc) := st.calls[i];
      var s := st.schedule;
      match pc
      case NotStarted =>
        Shared(s.(invocations := WrappingAdd(s.invocations, 1)), st.calls[i := Call(attempt, Counted)], st.log)
      case Counted =>
        if Fires(s.kind, attempt)
        then st.(calls := st.calls[i := Call(attempt, Picked)])
        else Finish(st, i, Proceed)
      case Picked =>
        var outcome := if Allows(s.limit, s.failures) then Fail(InjectedFailure(s.mode, attempt)) else Proceed;
        Finish(st.(schedule := s.(failures := WrappingAdd(s.failures, 1))), i, outcome)
      case Done(_) => st
  }

  function Finish(st: Shared, i: nat, outcome: Outcome): Shared
    requires i < |st.calls|
  {
    st.(calls := st.calls[i := Call(st.calls[i].attempt, Done(outcome))], log := st.log + [i])
  }

  // An interleaving names the call that takes each step.
  function Execute(st: Shared, interleaving: seq<nat>): Shared {
    if interleaving == [] then st
    else
      var n := |interleaving| - 1;
      Step(Execute(st, interleaving[..n]), interleaving[n])
  }

  function AttemptsOf(attempts: seq<usize>, log: seq<nat>): seq<usize>
    requires forall k :: 0 <= k < |log| ==> log[k] < |attempts|
  {
    seq(|log|, k requires 0 <= k < |log| => attempts[log[k]])
  }

  function Started(calls: seq<Call>): set<int> {
    set i | 0 <= i < |calls| && !calls[i].pc.NotStarted?
  }

  function Failed(calls: seq<Call>): set<int> {
    set i | 0 <= i < |calls| && calls[i].pc.Done? && calls[i].pc.outcome.Fail?
  }

  // The calls made are the ones given, and the log lists the finished ones once each.
  ghost predicate WellLogged(attempts: seq<usize>, st: Shared) {
    && |st.calls| == |attempts|
    && (forall i :: 0 <= i < |attempts| ==> st.calls[i].attempt == attempts[i])
    && (forall i :: 0 <= i < |attempts| && st.calls[i].pc.Picked? ==> Fires(st.schedule.kind, attempts[i]))
    && Distinct(st.log)
    && (forall k :: 0 <= k < |st.log| ==> st.log[k] < |attempts| && st.calls[st.log[k]].pc.Done?)
    && (forall i :: 0 <= i < |attempts| && st.calls[i].pc.Done? ==> i in st.log)
  }

  // Every finished call returned what one thread checking the logged attempts
  // in that order would have got.
  ghost predicate Linearized(s: State, attempts: seq<usize>, st: Shared) {
    && WellLogged(attempts, st)
    && var (after, outcomes) := Run(s, AttemptsOf(attempts, st.log));
    && st.schedule == after.(invocations := (s.invocations + |Started(st.calls)|) % TWO64)
    && |outcomes| == |st.log|
    && forall k :: 0 <= k < |st.log| ==> st.calls[st.log[k]].pc.outcome == outcomes[k]
  }

  lemma StartedUpdate(calls: seq<Call>, i: nat, pc: Pc)
    requires i < |calls| && !pc.NotStarted?
    ensures var updated := calls[i := Call(calls[i].attempt, pc)];
            Started(updated) == Started(calls) + {i}
  {
  }

  lemma LogOneMore(attempts: seq<usize>, log: seq<nat>, i: nat)
    requires forall k :: 0 <= k < |log| ==> log[k] < |attempts|
    requires i < |attempts|
    ensures var longer := AttemptsOf(attempts, log + [i]);
            longer[..|log|] == AttemptsOf(attempts, log) && longer[|log|] == attempts[i] && |longer| == |log| + 1
  {
  }

  lemma RunOneMore(s: State, attempts: seq<usize>, log: seq<nat>, i: nat)
    requires forall k :: 0 <= k < |log| ==> log[k] < |attempts|
    requires i < |attempts|
    ensures var (before, outcomes) := Run(s, AttemptsOf(attempts, log));
            var (after, outcome) := Check(before, attempts[i]);
            Run(s, AttemptsOf(attempts, log + [i])) == (after, outcomes + [outcome])
  {
    hide Fires;
    LogOneMore(attempts, log, i);
  }

  lemma StepWellLogged(attempts: seq<usize>, st: Shared, i: nat)
    requires WellLogged(attempts, st)
    ensures WellLogged(attempts, Step(st, i))
  {
    hide Fires, Started;
    if i < |st.calls| && !st.calls[i].pc.Done? {
      assert i !in st.log;
      var next := Step(st, i);
      forall k | 0 <= k < |attempts| && next.calls[k].pc.Done?
        ensures k in next.log
      {
        if k == i {
          assert next.log[|next.log| - 1] == i;
        } else {
          assert k in st.log;
        }
      }
    }
  }

  lemma StepLinearized(s: State, attempts: seq<usize>, st: Shared, i: nat)
    requires Linearized(s, attempts, st)
    ensures Linearized(s, attempts, Step(st, i))
  {
    hide Fires, Run, Started;
    StepWellLogged(attempts, st, i);
    if i < |st.calls| && !st.calls[i].pc.Done? {
      var next := Step(st, i);
      StartedUpdate(st.calls, i, next.calls[i].pc);
      RunKeeps(s, AttemptsOf(attempts, st.log));
      if st.calls[i].pc.NotStarted? {
        NotYetStarted(st.calls, i);
        ModSuccessor(s.invocations + |Started(st.calls)|, 1);
      } else {
        AlreadyStarted(st.calls, i);
        assert Started(next.calls) == Started(st.calls);
        RunOneMore(s, attempts, st.log, i);
      }
    }
  }

  lemma NotYetStarted(calls: seq<Call>, i: nat)
    requires i < |calls| && calls[i].pc.NotStarted?
    ensures i !in Started(calls)
    ensures |Started(calls) + {i}| == |Started(calls)| + 1
  {
  }

  lemma AlreadyStarted(calls: seq<Call>, i: nat)
    requires i < |calls| && !calls[i].pc.NotStarted?
    ensures Started(calls) + {i} == Started(calls)
  {
  }

  lemma RunKeeps(s: State, attempts: seq<usize>)
    ensures var after := Run(s, attempts).0;
            after.kind == s.kind && after.mode == s.mode && after.limit == s.limit
  {
    RunCounters(s, attempts);
  }

  // Every interleaving is linearizable, from every schedule state and with
  // counters free to wrap.
  lemma {:induction false} EveryInterleavingLinearizes(s: State, attempts: seq<usize>, interleaving: seq<nat>)
    ensures Linearized(s, attempts, Execute(Start(s, attempts), interleaving))
  {
    if interleaving == [] {
      assert Started(Start(s, attempts).calls) == {};
      ModIdentity(s.invocations);
    } else {
      hide Linearized;
      var n := |interleaving| - 1;
      EveryInterleavingLinearizes(s, attempts, interleaving[..n]);
      StepLinearized(s, attempts, Execute(Start(s, attempts), interleaving[..n]), interleaving[n]);
    }
  }

  // Along a list without repetitions, lists and sets count alike.
  lemma {:induction false} FiringAlong(kind: Kind, attempts: seq<usize>, log: seq<nat>, picked: set<int>)
    requires forall k :: 0 <= k < |log| ==> log[k] < |attempts|
    requires Distinct(log)
    requires picked <= Members(log)
    requires forall k :: 0 <= k < |log| ==> (log[k] in picked <==> Fires(kind, attempts[log[k]]))
    ensures FiringCount(kind, AttemptsOf(attempts, log)) == |picked|
  {
    hide Fires, Members;
    if log == [] {
      NoMembers();
    } else {
      var n := |log| - 1;
      MembersStep(log);
      assert log == log[..n] + [log[n]];
      LogOneMore(attempts, log[..n], log[n]);
      FiringAlong(kind, attempts, log[..n], picked - {log[n]});
    }
  }

  lemma {:induction false} EmittedAlong(log: seq<nat>, outcomes: seq<Outcome>, failed: set<int>)
    requires |outcomes| == |log|
    requires Distinct(log)
    requires failed <= Members(log)
    requires forall k :: 0 <= k < |log| ==> (log[k] in failed <==> outcomes[k].Fail?)
    ensures |Emitted(outcomes)| == |failed|
  {
    hide Members;
    if log == [] {
      NoMembers();
    } else {
      var n := |log| - 1;
      MembersStep(log);
      EmittedAlong(log[..n], outcomes[..n], failed - {log[n]});
    }
  }

  lemma FailedAreEmitted(s: State, attempts: seq<usize>, st: Shared)
    requires Linearized(s, attempts, st)
    ensures |Failed(st.calls)| == |Emitted(Run(s, AttemptsOf(attempts, st.log)).1)|
  {
    hide Fires, Run;
    EmittedAlong(st.log, Run(s, AttemptsOf(attempts, st.log)).1, Failed(st.calls));
  }

  predicate Quiescent(st: Shared) {
    forall i :: 0 <= i < |st.calls| ==> st.calls[i].pc.Done?
  }

  function FiringCalls(kind: Kind, attempts: seq<usize>): set<int> {
    set i | 0 <= i < |attempts| && Fires(kind, attempts[i])
  }

  // The counters of a fresh schedule at any moment, free to wrap.
  lemma CountersOfLog(kind: Kind, mode: FailureMode, limit: Option<usize>, attempts: seq<usize>, st: Shared)
    requires Linearized(Fresh(kind, mode, limit), attempts, st)
    ensures var fired := FiringCount(kind, AttemptsOf(attempts, st.log));
            && |Failed(st.calls)| == EmittedAfter(limit, fired)
            && st.schedule.failures == fired % TWO64
            && st.schedule.invocations == |Started(st.calls)| % TWO64
  {
    hide Fires, Run, Firing, Emitted, EmittedAfter, Failed, Started, AttemptsOf;
    var s := Fresh(kind, mode, limit);
    FailedAreEmitted(s, attempts, st);
    EmittedCount(kind, mode, limit, AttemptsOf(attempts, st.log));
    RunCounters(s, AttemptsOf(attempts, st.log));
  }

  // Once all calls have returned, the log lists each of them once.
  lemma LogAtQuiescence(s: State, attempts: seq<usize>, st: Shared)
    requires Linearized(s, attempts, st) && Quiescent(st)
    ensures FiringCount(s.kind, AttemptsOf(attempts, st.log)) == |FiringCalls(s.kind, attempts)|
    ensures |Started(st.calls)| == |attempts|
  {
    hide Fires, Run, FiringCount, AttemptsOf;
    FiringAlong(s.kind, attempts, st.log, FiringCalls(s.kind, attempts));
    assert Started(st.calls) == Range(|attempts|);
  }

  lemma FewFired(kind: Kind, attempts: seq<usize>, st: Shared)
    requires WellLogged(attempts, st)
    ensures FiringCount(kind, AttemptsOf(attempts, st.log)) <= |attempts|
  {
    hide Fires;
    DistinctIsShort(st.log, |attempts|);
  }

  // Counters free to wrap: once all calls have returned, in any interleaving,
  // the number of failures is that of checking the attempts one by one.
  lemma FailuresUnderContention(kind: Kind, mode: FailureMode, limit: Option<usize>, attempts: seq<usize>,
                                interleaving: seq<nat>)
    requires Quiescent(Execute(Start(Fresh(kind, mode, limit), attempts), interleaving))
    ensures var st := Execute(Start(Fresh(kind, mode, limit), attempts), interleaving);
            && |Failed(st.calls)| == EmittedAfter(limit, |FiringCalls(kind, attempts)|)
            && st.schedule.failures == |FiringCalls(kind, attempts)| % TWO64
            && st.schedule.invocations == |attempts| % TWO64
  {
    hide Execute, Start, Linearized, AttemptsOf, FiringCount, Failed, Started, FiringCalls, Quiescent, EmittedAfter;
    var s := Fresh(kind, mode, limit);
    var st := Execute(Start(s, attempts), interleaving);
    EveryInterleavingLinearizes(s, attempts, interleaving);
    CountersOfLog(kind, mode, limit, attempts, st);
    LogAtQuiescence(s, attempts, st);
  }

  // The exact-limit claim: at every moment of every interleaving the failures
  // handed out are what `failure_count` reads and never exceed the limit; once
  // all calls have returned they are min(limit, firing calls).
  lemma LimitUnderContention(kind: Kind, mode: FailureMode, limit: Option<usize>, attempts: seq<usize>,
                             interleaving: seq<nat>)
    requires |attempts| < TWO64
    ensures var st := Execute(Start(Fresh(kind, mode, limit), attempts), interleaving);
            && |Failed(st.calls)| == Clamped(limit, st.schedule.failures)
            && (limit.Some? ==> |Failed(st.calls)| <= limit.value)
            && (Quiescent(st) ==>
                  && |Failed(st.calls)| == Clamped(limit, |FiringCalls(kind, attempts)|)
                  && st.schedule.invocations == |attempts|)
  {
    hide Execute, Start, AttemptsOf, FiringCount, Failed, Started, FiringCalls, Quiescent, EmittedAfter, Run;
    var s := Fresh(kind, mode, limit);
    var st := Execute(Start(s, attempts), interleaving);
    EveryInterleavingLinearizes(s, attempts, interleaving);
    assert Linearized(s, attempts, st) && WellLogged(attempts, st);
    hide Linearized, WellLogged;
    CountersOfLog(kind, mode, limit, attempts, st);
    FewFired(kind, attempts, st);
    var fired := FiringCount(kind, AttemptsOf(attempts, st.log));
    ModIdentity(fired);
    RawCounterSuffices(limit, fired);
    if Quiescent(st) {
      LogAtQuiescence(s, attempts, st);
      ModIdentity(|attempts|);
    }
  }

  // The order of the log respects real time: steps only append to it, so a call
  // that had returned before another one began precedes it.
  lemma {:induction false} LogOnlyGrows(st: Shared, interleaving: seq<nat>)
    ensures st.log <= Execute(st, interleaving).log
  {
    if interleaving != [] {
      LogOnlyGrows(st, interleaving[..|interleaving| - 1]);
    }
  }

  lemma LastStep(st: Shared, interleaving: seq<nat>, i: nat)
    ensures Execute(st, interleaving + [i]) == Step(Execute(st, interleaving), i)
  {
    hide Step;
    assert (interleaving + [i])[..|interleaving|] == interleaving;
  }

  lemma {:induction false} ExecuteInTwoParts(st: Shared, earlier: seq<nat>, later: seq<nat>)
    ensures Execute(Execute(st, earlier), later) == Execute(st, earlier + later)
  {
    if later == [] {
      assert earlier + later == earlier;
    } else {
      hide Step, Execute;
      var n := |later| - 1;
      ExecuteInTwoParts(st, earlier, later[..n]);
      LastStep(st, earlier + later[..n], later[n]);
      LastStep(Execute(st, earlier), later[..n], later[n]);
      assert later[..n] + [later[n]] == later;
      assert earlier + later[..n] + [later[n]] == earlier + later;
    }
  }

  lemma RealTimeOrder(s: State, attempts: seq<usize>, earlier: seq<nat>, later: seq<nat>, p: nat, q: nat)
    requires var mid := Execute(Start(s, attempts), earlier);
             var end := Execute(mid, later);
             && p < |end.log| && q < |end.log|
             && end.log[p] < |mid.calls| && mid.calls[end.log[p]].pc.Done?
             && end.log[q] < |mid.calls| && mid.calls[end.log[q]].pc.NotStarted?
    ensures p < q
  {
    hide Execute, Start;
    var mid := Execute(Start(s, attempts), earlier);
    var end := Execute(mid, later);
    EveryInterleavingLinearizes(s, attempts, earlier);
    EveryInterleavingLinearizes(s, attempts, earlier + later);
    ExecuteInTwoParts(Start(s, attempts), earlier, later);
    LogOnlyGrows(mid, later);
    assert end.log[p] in mid.log;
    var r :| 0 <= r < |mid.log| && mid.log[r] == end.log[p];
    assert end.log[r] == end.log[p];
    assert r == p;
    assert forall k :: 0 <= k < |mid.log| ==> mid.calls[end.log[k]].pc.Done?;
  }
}
