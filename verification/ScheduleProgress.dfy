// Checks that threads make at the same time do return, after exactly the steps
// that their attempts need, and any order of them is one that can happen.
module ScheduleProgress {
  import opened Machine
  import opened Schedule
  import opened ScheduleHistory
  import opened Counting
  import opened ScheduleContention

  predicate Unfinished(st: Shared, i: nat) {
    i < |st.calls| && !st.calls[i].pc.Done?
  }

  // Three steps of its own finish a call, wherever it stood.
  lemma CallFinishes(st: Shared, i: nat)
    requires i < |st.calls|
    ensures var end := Step(Step(Step(st, i), i), i);
            |end.calls| == |st.calls| && end.calls[i].pc.Done?
  {
    hide Fires;
  }

  // Taken without interruption, they are one whole check.
  lemma UninterruptedCall(st: Shared, i: nat)
    requires i < |st.calls| && st.calls[i].pc.NotStarted?
    ensures var end := Step(Step(Step(st, i), i), i);
            var Call(attempt, _) := st.calls[i];
            var (schedule, outcome) := Check(st.schedule, attempt);
            end == Shared(schedule, st.calls[i := Call(attempt, Done(outcome))], st.log + [i])
  {
    hide Fires;
    var first := Step(st, i);
    var second := Step(first, i);
    var Call(attempt, _) := st.calls[i];
    var (schedule, outcome) := Check(st.schedule, attempt);
    assert Step(second, i).calls == st.calls[i := Call(attempt, Done(outcome))];
  }

  // The steps a call has left: a firing one takes three, any other two.
  function StepsLeft(kind: Kind, call: Call): nat {
    var firing := if Fires(kind, call.attempt) then 1 else 0;
    match call.pc
    case NotStarted => 2 + firing
    case Counted => 1 + firing
    case Picked => 1
    case Done(_) => 0
  }

  function Work(kind: Kind, calls: seq<Call>): nat {
    if calls == [] then 0
    else Work(kind, calls[..|calls| - 1]) + StepsLeft(kind, calls[|calls| - 1])
  }

  lemma {:induction false} WorkUpdate(kind: Kind, calls: seq<Call>, i: nat, call: Call)
    requires i < |calls|
    ensures Work(kind, calls[i := call]) == Work(kind, calls) - StepsLeft(kind, calls[i]) + StepsLeft(kind, call)
  {
    hide StepsLeft;
    var last := |calls| - 1;
    if i < last {
      WorkUpdate(kind, calls[..last], i, call);
      assert calls[i := call][..last] == calls[..last][i := call];
    } else {
      assert calls[i := call][..last] == calls[..last];
    }
  }

  lemma {:induction false} WorkAtStart(s: State, attempts: seq<usize>)
    ensures Work(s.kind, Start(s, attempts).calls) == 2 * |attempts| + FiringCount(s.kind, attempts)
  {
    hide Fires;
    if attempts != [] {
      hide Firing;
      var n := |attempts| - 1;
      WorkAtStart(s, attempts[..n]);
      LastFiring(s.kind, attempts);
      assert Start(s, attempts).calls[..n] == Start(s, attempts[..n]).calls;
    }
  }

  // Each step of an unfinished call is one step less to take.
  lemma StepDoesWork(st: Shared, i: nat)
    requires Unfinished(st, i)
    ensures Step(st, i).schedule.kind == st.schedule.kind
    ensures Work(st.schedule.kind, Step(st, i).calls) == Work(st.schedule.kind, st.calls) - 1
  {
    hide Fires, Work;
    WorkUpdate(st.schedule.kind, st.calls, i, Step(st, i).calls[i]);
  }

  lemma {:induction false} NoWorkIffQuiescent(st: Shared)
    ensures Work(st.schedule.kind, st.calls) == 0 <==> Quiescent(st)
    decreases |st.calls|
  {
    hide Fires;
    if st.calls != [] {
      NoWorkIffQuiescent(st.(calls := st.calls[..|st.calls| - 1]));
    }
  }

  // The steps of an interleaving that some unfinished call takes.
  function BusySteps(st: Shared, interleaving: seq<nat>): nat {
    if interleaving == [] then 0
    else
      var n := |interleaving| - 1;
      BusySteps(st, interleaving[..n]) + (if Unfinished(Execute(st, interleaving[..n]), interleaving[n]) then 1 else 0)
  }

  lemma {:induction false} StepsAndWork(s: State, attempts: seq<usize>, interleaving: seq<nat>)
    ensures var st := Execute(Start(s, attempts), interleaving);
            && st.schedule.kind == s.kind
            && BusySteps(Start(s, attempts), interleaving) + Work(s.kind, st.calls)
            == 2 * |attempts| + FiringCount(s.kind, attempts)
  {
    hide Step, Work, FiringCount;
    if interleaving == [] {
      WorkAtStart(s, attempts);
    } else {
      var n := |interleaving| - 1;
      var before := Execute(Start(s, attempts), interleaving[..n]);
      StepsAndWork(s, attempts, interleaving[..n]);
      if Unfinished(before, interleaving[n]) {
        StepDoesWork(before, interleaving[n]);
      } else {
        StepOfFinished(before, interleaving[n]);
      }
    }
  }

  lemma StepOfFinished(st: Shared, i: nat)
    requires !Unfinished(st, i)
    ensures Step(st, i) == st
  {
  }

  // In every interleaving all calls have returned once two steps for each call
  // and one more for each that fires have been taken, and not before.
  lemma AllReturnIff(s: State, attempts: seq<usize>, interleaving: seq<nat>)
    ensures Quiescent(Execute(Start(s, attempts), interleaving)) <==>
              BusySteps(Start(s, attempts), interleaving) == 2 * |attempts| + FiringCount(s.kind, attempts)
    ensures BusySteps(Start(s, attempts), interleaving) <= 3 * |attempts|
  {
    hide Execute, Start, Work, Quiescent, BusySteps;
    StepsAndWork(s, attempts, interleaving);
    NoWorkIffQuiescent(Execute(Start(s, attempts), interleaving));
  }

  // One call after another, each with three turns.
  function OneByOne(order: seq<nat>): seq<nat> {
    if order == [] then []
    else
      var n := |order| - 1;
      OneByOne(order[..n]) + [order[n]] + [order[n]] + [order[n]]
  }

  // The calls in `order` have been made, in that order, and no others begun.
  ghost predicate MadeInOrder(s: State, attempts: seq<usize>, order: seq<nat>, st: Shared)
    requires forall k :: 0 <= k < |order| ==> order[k] < |attempts|
  {
    var (after, outcomes) := Run(s, AttemptsOf(attempts, order));
    && st.schedule == after
    && st.log == order
    && |outcomes| == |order|
    && |st.calls| == |attempts|
    && (forall k :: 0 <= k < |order| ==> st.calls[order[k]] == Call(attempts[order[k]], Done(outcomes[k])))
    && (forall i :: 0 <= i < |attempts| && i !in order ==> st.calls[i] == Call(attempts[i], NotStarted))
  }

  lemma OneMoreMade(s: State, attempts: seq<usize>, order: seq<nat>, st: Shared, i: nat)
    requires forall k :: 0 <= k < |order| ==> order[k] < |attempts|
    requires i < |attempts| && i !in order
    requires MadeInOrder(s, attempts, order, st)
    ensures MadeInOrder(s, attempts, order + [i], Step(Step(Step(st, i), i), i))
  {
    hide Step, Run, AttemptsOf, Check;
    UninterruptedCall(st, i);
    RunOneMore(s, attempts, order, i);
  }

  // Any calls may be made one by one, in any order, with the outcomes and the
  // counters of checking their attempts in that order on one thread.
  lemma {:induction false} EveryOrderIsPossible(s: State, attempts: seq<usize>, order: seq<nat>)
    requires Distinct(order)
    requires forall k :: 0 <= k < |order| ==> order[k] < |attempts|
    ensures MadeInOrder(s, attempts, order, Execute(Start(s, attempts), OneByOne(order)))
  {
    hide Step, Execute, Run, AttemptsOf, MadeInOrder, Start, OneByOne;
    if order == [] {
      NoneMade(s, attempts);
    } else {
      OneByOneStep(order);
      var n, i := |order| - 1, order[|order| - 1];
      EveryOrderIsPossible(s, attempts, order[..n]);
      assert order[..n] + [i] == order;
      assert i !in order[..n];
      OneMoreMade(s, attempts, order[..n], Execute(Start(s, attempts), OneByOne(order[..n])), i);
      ThreeTurns(Start(s, attempts), OneByOne(order[..n]), i);
    }
  }

  lemma NoneMade(s: State, attempts: seq<usize>)
    ensures MadeInOrder(s, attempts, [], Execute(Start(s, attempts), OneByOne([])))
  {
    assert AttemptsOf(attempts, []) == [];
  }

  lemma OneByOneStep(order: seq<nat>)
    requires order != []
    ensures var n := |order| - 1; OneByOne(order) == OneByOne(order[..n]) + [order[n]] + [order[n]] + [order[n]]
  {
  }

  // An order of all the calls leaves none unfinished.
  lemma AllMadeInOrder(s: State, attempts: seq<usize>, order: seq<nat>)
    requires Permutation(order, |attempts|)
    ensures var st := Execute(Start(s, attempts), OneByOne(order));
            && Quiescent(st)
            && st.schedule == Run(s, AttemptsOf(attempts, order)).0
  {
    hide Execute, Start, OneByOne, Run, AttemptsOf;
    EveryOrderIsPossible(s, attempts, order);
    var st := Execute(Start(s, attempts), OneByOne(order));
    forall i | 0 <= i < |attempts|
      ensures st.calls[i].pc.Done?
    {
      assert i in order;
      var k :| 0 <= k < |order| && order[k] == i;
    }
  }

  lemma ThreeTurns(st: Shared, earlier: seq<nat>, i: nat)
    ensures Execute(st, earlier + [i] + [i] + [i]) == Step(Step(Step(Execute(st, earlier), i), i), i)
  {
    hide Step, Execute;
    LastStep(st, earlier, i);
    LastStep(st, earlier + [i], i);
    LastStep(st, earlier + [i] + [i], i);
  }
}
