// When concurrent skews leave the clock at the same offset whatever the threads do.
module ClockDeterminism {
  import opened Machine
  import opened Saturation
  import opened Counting
  import opened ClockContention

  function Skews(deltas: seq<i64>): seq<Op> {
    seq(|deltas|, i requires 0 <= i < |deltas| => Skew(deltas[i]))
  }

  function InOrder(deltas: seq<i64>, log: seq<nat>): seq<i64>
    requires forall k :: 0 <= k < |log| ==> log[k] < |deltas|
  {
    seq(|log|, k requires 0 <= k < |log| => deltas[log[k]])
  }

  // Replaying logged skews is the sequential saturating fold.
  lemma {:induction false} ReplayIsFold(offset: i64, deltas: seq<i64>, log: seq<nat>)
    requires forall k :: 0 <= k < |log| ==> log[k] < |deltas|
    ensures Replay(offset, Skews(deltas), log) == Fold(offset, InOrder(deltas, log))
  {
    if log != [] {
      var n := |log| - 1;
      ReplayIsFold(offset, deltas, log[..n]);
      assert InOrder(deltas, log)[..n] == InOrder(deltas, log[..n]);
    }
  }

  // The skews among the logged calls, in order.
  function SkewsOf(ops: seq<Op>, log: seq<nat>): seq<i64>
    requires forall k :: 0 <= k < |log| ==> log[k] < |ops|
  {
    if log == [] then []
    else
      var n := |log| - 1;
      var op := ops[log[n]];
      SkewsOf(ops, log[..n]) + (if op.Skew? then [op.delta] else [])
  }

  predicate NoReset(ops: seq<Op>, log: seq<nat>) {
    forall k :: 0 <= k < |log| ==> log[k] < |ops| && !ops[log[k]].Reset?
  }

  // While nothing is reset, only the skews matter.
  lemma {:induction false} ReplayOfSkews(offset: i64, ops: seq<Op>, log: seq<nat>)
    requires NoReset(ops, log)
    ensures Replay(offset, ops, log) == Fold(offset, SkewsOf(ops, log))
  {
    if log != [] {
      var n := |log| - 1;
      ReplayOfSkews(offset, ops, log[..n]);
      var skews := SkewsOf(ops, log[..n]);
      if ops[log[n]].Skew? {
        assert (skews + [ops[log[n]].delta])[..|skews|] == skews;
      } else {
        assert skews + [] == skews;
      }
    }
  }

  lemma {:induction false} ReplayInTwoParts(offset: i64, ops: seq<Op>, a: seq<nat>, b: seq<nat>)
    requires forall k :: 0 <= k < |a| ==> a[k] < |ops|
    requires forall k :: 0 <= k < |b| ==> b[k] < |ops|
    ensures Replay(offset, ops, a + b) == Replay(Replay(offset, ops, a), ops, b)
  {
    if b == [] {
      assert a + b == a;
    } else {
      hide Replay, Effect;
      var n := |b| - 1;
      ReplayInTwoParts(offset, ops, a, b[..n]);
      ReplayOneMore(offset, ops, a + b[..n], b[n]);
      ReplayOneMore(Replay(offset, ops, a), ops, b[..n], b[n]);
      assert b[..n] + [b[n]] == b;
      assert a + b[..n] + [b[n]] == a + b;
    }
  }

  // A reset wipes out what came before it: the offset is the fold, from zero,
  // of the skews since the last one.
  lemma ReplaySinceReset(offset: i64, ops: seq<Op>, before: seq<nat>, reset: nat, since: seq<nat>)
    requires forall k :: 0 <= k < |before| ==> before[k] < |ops|
    requires reset < |ops| && ops[reset].Reset?
    requires NoReset(ops, since)
    ensures Replay(offset, ops, before + [reset] + since) == Fold(0, SkewsOf(ops, since))
  {
    hide Replay, Fold, SkewsOf;
    ReplayInTwoParts(offset, ops, before + [reset], since);
    ReplayOneMore(offset, ops, before, reset);
    ReplayOfSkews(0, ops, since);
  }

  // So it is in every execution, whatever the threads do.
  lemma OffsetSinceReset(offset: i64, ops: seq<Op>, interleaving: seq<Turn>, before: seq<nat>, reset: nat, since: seq<nat>)
    requires Execute(Start(offset, ops), interleaving).log == before + [reset] + since
    requires reset < |ops| && ops[reset].Reset?
    requires NoReset(ops, since)
    ensures Execute(Start(offset, ops), interleaving).offset == Fold(0, SkewsOf(ops, since))
  {
    hide Execute, Replay, Fold, SkewsOf;
    EveryInterleavingLinearizes(offset, ops, interleaving);
    var log := Execute(Start(offset, ops), interleaving).log;
    forall k | 0 <= k < |before|
      ensures before[k] < |ops|
    {
      assert before[k] == log[k];
    }
    ReplaySinceReset(offset, ops, before, reset, since);
  }

  lemma InOrderOfConcat(deltas: seq<i64>, a: seq<nat>, b: seq<nat>)
    requires forall k :: 0 <= k < |a| ==> a[k] < |deltas|
    requires forall k :: 0 <= k < |b| ==> b[k] < |deltas|
    ensures InOrder(deltas, a + b) == InOrder(deltas, a) + InOrder(deltas, b)
  {
  }

  lemma InOrderOfPrefix(deltas: seq<i64>, n: nat, log: seq<nat>)
    requires n <= |deltas|
    requires forall k :: 0 <= k < |log| ==> log[k] < n
    ensures InOrder(deltas[..n], log) == InOrder(deltas, log)
  {
  }

  lemma {:induction false} PermutationKeepsDeltas(deltas: seq<i64>, log: seq<nat>)
    requires Permutation(log, |deltas|)
    ensures multiset(InOrder(deltas, log)) == multiset(deltas)
  {
    hide InOrder, Permutation;
    if deltas == [] {
      NothingInOrder(deltas, log);
    } else {
      var n := |deltas| - 1;
      var before, after := SplitAtTop(log, n);
      PermutationKeepsDeltas(deltas[..n], before + after);
      InOrderOfPrefix(deltas, n, before + after);
      InOrderWithTop(deltas, before, after);
      assert deltas == deltas[..n] + [deltas[n]];
    }
  }

  lemma NothingInOrder(deltas: seq<i64>, log: seq<nat>)
    requires deltas == [] && Permutation(log, 0)
    ensures InOrder(deltas, log) == []
  {
    DistinctIsShort(log, 0);
  }

  lemma InOrderWithTop(deltas: seq<i64>, before: seq<nat>, after: seq<nat>)
    requires deltas != []
    requires forall k :: 0 <= k < |before| ==> before[k] < |deltas|
    requires forall k :: 0 <= k < |after| ==> after[k] < |deltas|
    ensures var n := |deltas| - 1;
            multiset(InOrder(deltas, before + [n] + after)) == multiset(InOrder(deltas, before + after)) + multiset{deltas[n]}
  {
    hide InOrder;
    var n := |deltas| - 1;
    InOrderOfConcat(deltas, before, after);
    InOrderOfConcat(deltas, before + [n], after);
    InOrderOfConcat(deltas, before, [n]);
    InOrderOfOne(deltas, n);
  }

  lemma InOrderOfOne(deltas: seq<i64>, i: nat)
    requires i < |deltas|
    ensures InOrder(deltas, [i]) == [deltas[i]]
  {
  }

  lemma SplitAtTop(log: seq<nat>, n: nat) returns (before: seq<nat>, after: seq<nat>)
    requires Permutation(log, n + 1)
    ensures log == before + [n] + after
    ensures Permutation(before + after, n)
    ensures forall k :: 0 <= k < |before| ==> before[k] < n
    ensures forall k :: 0 <= k < |after| ==> after[k] < n
  {
    assert n in log;
    var p :| 0 <= p < |log| && log[p] == n;
    before, after := log[..p], log[p + 1..];
    WithoutTop(log, p, n);
  }

  lemma WithoutTop(log: seq<nat>, p: nat, n: nat)
    requires Permutation(log, n + 1)
    requires p < |log| && log[p] == n
    ensures Permutation(log[..p] + log[p + 1..], n)
  {
    var rest := log[..p] + log[p + 1..];
    forall i | 0 <= i < n
      ensures i in rest
    {
      assert i in log;
      var k :| 0 <= k < |log| && log[k] == i;
      assert rest[if k < p then k else k - 1] == i;
    }
  }

  predicate Quiescent(st: Shared) {
    forall i :: 0 <= i < |st.calls| ==> st.calls[i].pc.Done?
  }

  // When all skews have returned, the offset is the fold of some reordering of them.
  lemma FinalOffset(offset: i64, deltas: seq<i64>, interleaving: seq<Turn>) returns (order: seq<i64>)
    requires Quiescent(Execute(Start(offset, Skews(deltas)), interleaving))
    ensures multiset(order) == multiset(deltas)
    ensures Execute(Start(offset, Skews(deltas)), interleaving).offset == Fold(offset, order)
  {
    hide Execute, Replay;
    var st := Execute(Start(offset, Skews(deltas)), interleaving);
    EveryInterleavingLinearizes(offset, Skews(deltas), interleaving);
    assert Permutation(st.log, |deltas|);
    order := InOrder(deltas, st.log);
    PermutationKeepsDeltas(deltas, st.log);
    ReplayIsFold(offset, deltas, st.log);
  }

  // One thread after another, each skew loading and committing at once.
  function OneByOne(order: seq<nat>): seq<Turn> {
    if order == [] then []
    else
      var n := |order| - 1;
      OneByOne(order[..n]) + [Turn(order[n], false)] + [Turn(order[n], false)]
  }

  lemma TwoTurns(st: Shared, earlier: seq<Turn>, turn: Turn)
    ensures Execute(st, earlier + [turn] + [turn]) == Step(Step(Execute(st, earlier), turn), turn)
  {
    hide Step;
    assert (earlier + [turn] + [turn])[..|earlier| + 1] == earlier + [turn];
    assert (earlier + [turn])[..|earlier|] == earlier;
  }

  // A skew that has not started is over after two turns of its own.
  lemma TwoTurnsFinish(st: Shared, i: nat)
    requires i < |st.calls| && st.calls[i].op.Skew? && st.calls[i].pc.NotStarted?
    ensures var next := Step(Step(st, Turn(i, false)), Turn(i, false));
            && next.log == st.log + [i]
            && |next.calls| == |st.calls|
            && next.calls[i].op == st.calls[i].op && next.calls[i].pc.Done?
            && forall k :: 0 <= k < |st.calls| && k != i ==> next.calls[k] == st.calls[k]
  {
  }

  // The calls in `order` have finished, in that order, and no others have started.
  ghost predicate RunInOrder(deltas: seq<i64>, order: seq<nat>, st: Shared) {
    && st.log == order
    && |st.calls| == |deltas|
    && (forall i :: 0 <= i < |deltas| ==> st.calls[i].op == Skew(deltas[i]))
    && (forall i :: 0 <= i < |deltas| && i in order ==> st.calls[i].pc.Done?)
    && (forall i :: 0 <= i < |deltas| && i !in order ==> st.calls[i].pc.NotStarted?)
  }

  lemma OneMoreInOrder(deltas: seq<i64>, order: seq<nat>, st: Shared)
    requires order != [] && Distinct(order)
    requires var n := |order| - 1; order[n] < |deltas| && RunInOrder(deltas, order[..n], st)
    ensures var turn := Turn(order[|order| - 1], false);
            RunInOrder(deltas, order, Step(Step(st, turn), turn))
  {
    hide Step;
    var n := |order| - 1;
    assert order == order[..n] + [order[n]];
    assert order[n] !in order[..n];
    TwoTurnsFinish(st, order[n]);
  }

  lemma {:induction false} OneByOneRuns(offset: i64, deltas: seq<i64>, order: seq<nat>)
    requires Distinct(order)
    requires forall k :: 0 <= k < |order| ==> order[k] < |deltas|
    ensures RunInOrder(deltas, order, Execute(Start(offset, Skews(deltas)), OneByOne(order)))
  {
    if order != [] {
      hide Execute, Step, RunInOrder;
      var n := |order| - 1;
      OneByOneRuns(offset, deltas, order[..n]);
      TwoTurns(Start(offset, Skews(deltas)), OneByOne(order[..n]), Turn(order[n], false));
      OneMoreInOrder(deltas, order, Execute(Start(offset, Skews(deltas)), OneByOne(order[..n])));
    } else {
      NothingRun(Start(offset, Skews(deltas)));
    }
  }

  lemma NothingRun(st: Shared)
    ensures Execute(st, []) == st
  {
  }

  // The indices of the forward skews, and of the others, in order.
  function Indices(deltas: seq<i64>, forward: bool): (r: seq<nat>)
    ensures forall k :: 0 <= k < |r| ==> r[k] < |deltas|
  {
    if deltas == [] then []
    else
      var n := |deltas| - 1;
      var earlier := Indices(deltas[..n], forward);
      if (deltas[n] > 0) == forward then earlier + [n] else earlier
  }

  lemma {:induction false} IndicesSelect(deltas: seq<i64>, forward: bool)
    ensures Distinct(Indices(deltas, forward))
    ensures forall i :: 0 <= i < |deltas| ==> (i in Indices(deltas, forward) <==> (deltas[i] > 0) == forward)
  {
    if deltas != [] {
      IndicesSelect(deltas[..|deltas| - 1], forward);
    }
  }

  lemma {:induction false} IndicesInOrder(deltas: seq<i64>, forward: bool)
    ensures InOrder(deltas, Indices(deltas, forward)) == if forward then Positives(deltas) else Others(deltas)
  {
    if deltas != [] {
      hide InOrder;
      var n := |deltas| - 1;
      IndicesInOrder(deltas[..n], forward);
      var earlier := Indices(deltas[..n], forward);
      InOrderOfPrefix(deltas, n, earlier);
      InOrderOfConcat(deltas, earlier, [n]);
      InOrderOfOne(deltas, n);
    } else {
      assert InOrder(deltas, []) == [];
    }
  }

  // Every order of skews that are all concurrent is what some execution does.
  lemma OrderIsPossible(offset: i64, deltas: seq<i64>, order: seq<nat>)
    requires Permutation(order, |deltas|)
    ensures var st := Execute(Start(offset, Skews(deltas)), OneByOne(order));
            Quiescent(st) && st.offset == Fold(offset, InOrder(deltas, order))
  {
    hide Execute, Replay, Fold, InOrder;
    OneByOneRuns(offset, deltas, order);
    EveryInterleavingLinearizes(offset, Skews(deltas), OneByOne(order));
    ReplayIsFold(offset, deltas, order);
  }

  // In particular, committing the forward skews first, or last.
  lemma ExtremeOrder(offset: i64, deltas: seq<i64>, forwardFirst: bool) returns (interleaving: seq<Turn>)
    ensures var st := Execute(Start(offset, Skews(deltas)), interleaving);
            && Quiescent(st)
            && st.offset == Fold(offset, if forwardFirst then Positives(deltas) + Others(deltas)
                                         else Others(deltas) + Positives(deltas))
  {
    hide Execute, Fold, InOrder, Indices, Quiescent, OneByOne;
    var first, second := Indices(deltas, forwardFirst), Indices(deltas, !forwardFirst);
    IndicesSelect(deltas, forwardFirst);
    IndicesSelect(deltas, !forwardFirst);
    IndicesInOrder(deltas, forwardFirst);
    IndicesInOrder(deltas, !forwardFirst);
    DisjointConcat(deltas, first, second, forwardFirst);
    InOrderOfConcat(deltas, first, second);
    interleaving := OneByOne(first + second);
    OrderIsPossible(offset, deltas, first + second);
  }

  lemma DisjointConcat(deltas: seq<i64>, first: seq<nat>, second: seq<nat>, forward: bool)
    requires Distinct(first) && Distinct(second)
    requires forall k :: 0 <= k < |first| ==> first[k] < |deltas|
    requires forall k :: 0 <= k < |second| ==> second[k] < |deltas|
    requires forall i :: 0 <= i < |deltas| ==> (i in first <==> (deltas[i] > 0) == forward)
    requires forall i :: 0 <= i < |deltas| ==> (i in second <==> (deltas[i] > 0) == !forward)
    ensures Permutation(first + second, |deltas|)
  {
    forall j, k | 0 <= j < k < |first + second|
      ensures (first + second)[j] != (first + second)[k]
    {
      if j < |first| <= k {
        assert first[j] in first && second[k - |first|] in second;
      }
    }
  }

  ghost predicate Deterministic(offset: i64, deltas: seq<i64>) {
    forall a: seq<Turn>, b: seq<Turn> ::
      Quiescent(Execute(Start(offset, Skews(deltas)), a)) && Quiescent(Execute(Start(offset, Skews(deltas)), b)) ==>
        Execute(Start(offset, Skews(deltas)), a).offset == Execute(Start(offset, Skews(deltas)), b).offset
  }

  // Skews that are all concurrent, one to a thread, end at one offset, in every
  // interleaving and with any spurious failures, exactly when they all go one
  // way or cannot reach a bound.
  lemma DeterministicIff(offset: i64, deltas: seq<i64>)
    ensures Deterministic(offset, deltas) <==> SwingsFit(offset, deltas)
  {
    hide Execute, Start, Quiescent;
    if SwingsFit(offset, deltas) {
      forall a: seq<Turn>, b: seq<Turn>
        | Quiescent(Execute(Start(offset, Skews(deltas)), a)) && Quiescent(Execute(Start(offset, Skews(deltas)), b))
        ensures Execute(Start(offset, Skews(deltas)), a).offset == Execute(Start(offset, Skews(deltas)), b).offset
      {
        OrderIndependentIff(offset, deltas);
        var orderA := FinalOffset(offset, deltas, a);
        var orderB := FinalOffset(offset, deltas, b);
      }
    } else {
      var a := ExtremeOrder(offset, deltas, true);
      var b := ExtremeOrder(offset, deltas, false);
      ExtremeOrdersDiffer(offset, deltas);
    }
  }

  // Advances only move the clock forward, so none of them is ever lost and the
  // final offset is exact up to saturation, whatever the threads do.
  lemma AdvancesAreNotLost(offset: i64, deltas: seq<i64>, interleaving: seq<Turn>)
    requires forall i :: 0 <= i < |deltas| ==> deltas[i] >= 0
    requires Quiescent(Execute(Start(offset, Skews(deltas)), interleaving))
    ensures Execute(Start(offset, Skews(deltas)), interleaving).offset == Clamp(offset + Sum(deltas))
  {
    hide Execute, Quiescent;
    var order := FinalOffset(offset, deltas, interleaving);
    TotalsOfPermutation(order, deltas);
    NothingBackward(deltas);
    SumIsNet(deltas);
    OneDirection(offset, order);
  }

  lemma {:induction false} NothingBackward(deltas: seq<i64>)
    requires forall i :: 0 <= i < |deltas| ==> deltas[i] >= 0
    ensures Backward(deltas) == 0
  {
    if deltas != [] {
      NothingBackward(deltas[..|deltas| - 1]);
    }
  }
}
