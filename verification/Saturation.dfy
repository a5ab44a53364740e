// The algebra of repeated saturating additions.
module Saturation {
  import opened Machine

  function Clamp(x: int): i64 {
    if x < I64_MIN then I64_MIN else if x > I64_MAX then I64_MAX else x
  }

  function SaturatingAdd(x: i64, d: i64): i64 {
    Clamp(x + d)
  }

  // The exact sum wherever it fits 64 bits, and the nearer end otherwise.
  lemma SaturatesAtTheEnds(x: i64, d: i64)
    ensures x + d > 9_223_372_036_854_775_807 ==> SaturatingAdd(x, d) == 9_223_372_036_854_775_807
    ensures x + d < -9_223_372_036_854_775_808 ==> SaturatingAdd(x, d) == -9_223_372_036_854_775_808
    ensures -9_223_372_036_854_775_808 <= x + d <= 9_223_372_036_854_775_807 ==> SaturatingAdd(x, d) == x + d
  {
  }

  // Skewing by each delta in turn.
  function Fold(x: i64, deltas: seq<i64>): i64 {
    if deltas == [] then x
    else SaturatingAdd(Fold(x, deltas[..|deltas| - 1]), deltas[|deltas| - 1])
  }

  function Sum(deltas: seq<i64>): int {
    if deltas == [] then 0
    else Sum(deltas[..|deltas| - 1]) + deltas[|deltas| - 1]
  }

  // A whole list of skews as one shift followed by one clamp to [lo, hi].
  datatype Collapsed = Collapsed(shift: int, lo: i64, hi: i64)

  function Apply(c: Collapsed, x: i64): int {
    Max(c.lo, Min(c.hi, x + c.shift))
  }

  function Collapse(deltas: seq<i64>): (c: Collapsed)
    ensures c.lo <= c.hi
  {
    if deltas == [] then Collapsed(0, I64_MIN, I64_MAX)
    else
      var c := Collapse(deltas[..|deltas| - 1]);
      var d := deltas[|deltas| - 1];
      Collapsed(c.shift + d, Clamp(c.lo + d), Clamp(c.hi + d))
  }

  // Every list of skews collapses to one shift and one clamp.
  lemma {:induction false} FoldCollapses(x: i64, deltas: seq<i64>)
    ensures Fold(x, deltas) == Apply(Collapse(deltas), x)
    ensures Collapse(deltas).shift == Sum(deltas)
  {
    if deltas != [] {
      FoldCollapses(x, deltas[..|deltas| - 1]);
    }
  }

  // A later start ends no earlier, and no further ahead than it started.
  lemma MonotoneAndNonExpansive(x: i64, y: i64, deltas: seq<i64>)
    requires x <= y
    ensures 0 <= Fold(y, deltas) - Fold(x, deltas) <= y - x
  {
    FoldCollapses(x, deltas);
    FoldCollapses(y, deltas);
  }

  function Positives(deltas: seq<i64>): seq<i64> {
    if deltas == [] then []
    else
      var earlier := Positives(deltas[..|deltas| - 1]);
      var d := deltas[|deltas| - 1];
      if d > 0 then earlier + [d] else earlier
  }

  function Others(deltas: seq<i64>): seq<i64> {
    if deltas == [] then []
    else
      var earlier := Others(deltas[..|deltas| - 1]);
      var d := deltas[|deltas| - 1];
      if d > 0 then earlier else earlier + [d]
  }

  // How far the forward skews, or the backward ones, go together.
  function Forward(deltas: seq<i64>): nat {
    if deltas == [] then 0
    else Forward(deltas[..|deltas| - 1]) + Max(deltas[|deltas| - 1], 0)
  }

  function Backward(deltas: seq<i64>): nat {
    if deltas == [] then 0
    else Backward(deltas[..|deltas| - 1]) + Max(0 - deltas[|deltas| - 1] as int, 0)
  }

  lemma {:induction false} SumIsNet(deltas: seq<i64>)
    ensures Sum(deltas) == Forward(deltas) - Backward(deltas)
  {
    if deltas != [] {
      SumIsNet(deltas[..|deltas| - 1]);
    }
  }

  // Skews in one direction never overshoot and come back.
  lemma {:induction false} OneDirection(x: i64, deltas: seq<i64>)
    requires Forward(deltas) == 0 || Backward(deltas) == 0
    ensures Fold(x, deltas) == Clamp(x + Forward(deltas) - Backward(deltas))
  {
    if deltas != [] {
      OneDirection(x, deltas[..|deltas| - 1]);
    }
  }

  // Skews whose swings stay inside the range never meet a bound.
  lemma {:induction false} NoBoundMet(x: i64, deltas: seq<i64>)
    requires x + Forward(deltas) <= I64_MAX && x - Backward(deltas) >= I64_MIN
    ensures Fold(x, deltas) == x + Forward(deltas) - Backward(deltas)
  {
    if deltas != [] {
      NoBoundMet(x, deltas[..|deltas| - 1]);
    }
  }

  // Takes one occurrence of d out of a list.
  lemma TakeOut(deltas: seq<i64>, d: i64) returns (before: seq<i64>, after: seq<i64>)
    requires d in multiset(deltas)
    ensures deltas == before + [d] + after
    ensures multiset(before + after) == multiset(deltas) - multiset{d}
  {
    var k :| 0 <= k < |deltas| && deltas[k] == d;
    before, after := deltas[..k], deltas[k + 1..];
    assert deltas == before + [d] + after;
  }

  // Reordering: Forward and Backward depend on the multiset of deltas alone.
  lemma {:induction false} TotalsOfPermutation(a: seq<i64>, b: seq<i64>)
    requires multiset(a) == multiset(b)
    ensures Forward(a) == Forward(b) && Backward(a) == Backward(b)
  {
    if a == [] {
      assert |multiset(b)| == 0;
    } else {
      var n := |a| - 1;
      assert a == a[..n] + [a[n]];
      var before, after := TakeOut(b, a[n]);
      TotalsOfPermutation(a[..n], before + after);
      TotalsOfInsertion(before, a[n], after);
    }
  }

  lemma TotalsOfInsertion(before: seq<i64>, d: i64, after: seq<i64>)
    ensures Forward(before + [d] + after) == Forward(before + after) + Max(d, 0)
    ensures Backward(before + [d] + after) == Backward(before + after) + Max(0 - d as int, 0)
  {
    TotalsOfSplit(before + [d], after);
    TotalsOfSplit(before, after);
    assert (before + [d])[..|before|] == before;
  }

  lemma {:induction false} TotalsOfSplit(a: seq<i64>, b: seq<i64>)
    ensures Forward(a + b) == Forward(a) + Forward(b)
    ensures Backward(a + b) == Backward(a) + Backward(b)
  {
    if b == [] {
      assert a + b == a;
    } else {
      var n := |b| - 1;
      TotalsOfSplit(a, b[..n]);
      assert (a + b)[..|a + b| - 1] == a + b[..n];
    }
  }

  lemma {:induction false} FoldOfSplit(x: i64, a: seq<i64>, b: seq<i64>)
    ensures Fold(x, a + b) == Fold(Fold(x, a), b)
  {
    if b == [] {
      assert a + b == a;
    } else {
      var n := |b| - 1;
      FoldOfSplit(x, a, b[..n]);
      assert (a + b)[..|a + b| - 1] == a + b[..n];
    }
  }

  lemma {:induction false} Partition(deltas: seq<i64>)
    ensures multiset(Positives(deltas)) + multiset(Others(deltas)) == multiset(deltas)
  {
    if deltas != [] {
      var n := |deltas| - 1;
      Partition(deltas[..n]);
      assert deltas == deltas[..n] + [deltas[n]];
    }
  }

  lemma {:induction false} PartitionTotals(deltas: seq<i64>)
    ensures Forward(Positives(deltas)) == Forward(deltas) && Backward(Positives(deltas)) == 0
    ensures Forward(Others(deltas)) == 0 && Backward(Others(deltas)) == Backward(deltas)
  {
    if deltas != [] {
      var n := |deltas| - 1;
      PartitionTotals(deltas[..n]);
      if deltas[n] > 0 {
        TotalsOfInsertion(Positives(deltas[..n]), deltas[n], []);
        assert Positives(deltas[..n]) + [] == Positives(deltas[..n]);
        assert Positives(deltas) == Positives(deltas[..n]) + [deltas[n]] + [];
      } else {
        TotalsOfInsertion(Others(deltas[..n]), deltas[n], []);
        assert Others(deltas[..n]) + [] == Others(deltas[..n]);
        assert Others(deltas) == Others(deltas[..n]) + [deltas[n]] + [];
      }
    }
  }

  // Whether the final offset depends on the order of the skews.
  ghost predicate OrderIndependent(x: i64, deltas: seq<i64>) {
    forall other: seq<i64> :: multiset(other) == multiset(deltas) ==> Fold(x, other) == Fold(x, deltas)
  }

  // The skews all go one way, or they cannot reach a bound in any order.
  predicate SwingsFit(x: i64, deltas: seq<i64>) {
    || Forward(deltas) == 0
    || Backward(deltas) == 0
    || (x + Forward(deltas) <= I64_MAX && x - Backward(deltas) >= I64_MIN)
  }

  // Order is irrelevant exactly then.
  lemma OrderIndependentIff(x: i64, deltas: seq<i64>)
    ensures OrderIndependent(x, deltas) <==> SwingsFit(x, deltas)
  {
    if SwingsFit(x, deltas) {
      forall other: seq<i64> | multiset(other) == multiset(deltas)
        ensures Fold(x, other) == Fold(x, deltas)
      {
        TotalsOfPermutation(other, deltas);
        FoldWhenSwingsFit(x, other);
        FoldWhenSwingsFit(x, deltas);
      }
    } else {
      var forwardFirst := Positives(deltas) + Others(deltas);
      var backwardFirst := Others(deltas) + Positives(deltas);
      ExtremeOrdersDiffer(x, deltas);
      Partition(deltas);
      assert multiset(backwardFirst) == multiset(forwardFirst);
      assert Fold(x, forwardFirst) != Fold(x, deltas) || Fold(x, backwardFirst) != Fold(x, deltas);
    }
  }

  lemma FoldWhenSwingsFit(x: i64, deltas: seq<i64>)
    requires SwingsFit(x, deltas)
    ensures Fold(x, deltas) == Clamp(x + Forward(deltas) - Backward(deltas))
  {
    if Forward(deltas) == 0 || Backward(deltas) == 0 {
      OneDirection(x, deltas);
    } else {
      NoBoundMet(x, deltas);
    }
  }

  lemma BoundMetOnOneSide(x: i64, forward: nat, backward: nat)
    requires forward > 0 && backward > 0
    requires x + forward > I64_MAX || x - backward < I64_MIN
    ensures Clamp(Clamp(x + forward) - backward) != Clamp(Clamp(x - backward) + forward)
  {
  }

  // Forward skews first and backward skews first then end in different places.
  lemma ExtremeOrdersDiffer(x: i64, deltas: seq<i64>)
    requires !SwingsFit(x, deltas)
    ensures Fold(x, Positives(deltas) + Others(deltas)) != Fold(x, Others(deltas) + Positives(deltas))
  {
    hide Fold, Positives, Others, Forward, Backward;
    var ps, os := Positives(deltas), Others(deltas);
    PartitionTotals(deltas);
    FoldOfSplit(x, ps, os);
    FoldOfSplit(x, os, ps);
    OneDirection(x, ps);
    OneDirection(Fold(x, ps), os);
    OneDirection(x, os);
    OneDirection(Fold(x, os), ps);
    BoundMetOnOneSide(x, Forward(deltas), Backward(deltas));
  }
}
