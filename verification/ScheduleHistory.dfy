// What a schedule does over a whole list of attempts.
module ScheduleHistory {
  import opened Machine
  import opened Schedule
  import opened Counting

  // Checks the attempts in order.
  function Run(s: State, attempts: seq<usize>): (State, seq<Outcome>) {
    if attempts == [] then (s, [])
    else
      var (before, outcomes) := Run(s, attempts[..|attempts| - 1]);
      var (after, outcome) := Check(before, attempts[|attempts| - 1]);
      (after, outcomes + [outcome])
  }

  // The attempts of a list that the schedule picks, in order.
  function Firing(kind: Kind, attempts: seq<usize>): (r: seq<usize>)
    ensures |r| <= |attempts|
  {
    if attempts == [] then []
    else
      var firing := Firing(kind, attempts[..|attempts| - 1]);
      var last := attempts[|attempts| - 1];
      if Fires(kind, last) then firing + [last] else firing
  }

  function FiringCount(kind: Kind, attempts: seq<usize>): nat {
    |Firing(kind, attempts)|
  }

  // The attempt numbers of the failures that were actually emitted.
  function Emitted(outcomes: seq<Outcome>): (r: seq<usize>)
    ensures |r| <= |outcomes|
  {
    if outcomes == [] then []
    else
      var emitted := Emitted(outcomes[..|outcomes| - 1]);
      var last := outcomes[|outcomes| - 1];
      if last.Fail? then emitted + [last.failure.attempt] else emitted
  }

  lemma LastCheck(s: State, attempts: seq<usize>)
    requires attempts != []
    ensures var n := |attempts| - 1;
            var (before, outcomes) := Run(s, attempts[..n]);
            var (after, outcome) := Check(before, attempts[n]);
            Run(s, attempts) == (after, outcomes + [outcome])
  {
    hide Check;
  }

  lemma LastFiring(kind: Kind, attempts: seq<usize>)
    requires attempts != []
    ensures var n := |attempts| - 1;
            Firing(kind, attempts) == Firing(kind, attempts[..n]) + (if Fires(kind, attempts[n]) then [attempts[n]] else [])
  {
    hide Fires;
  }

  lemma EmittedAppend(outcomes: seq<Outcome>, outcome: Outcome)
    ensures Emitted(outcomes + [outcome])
         == Emitted(outcomes) + (if outcome.Fail? then [outcome.failure.attempt] else [])
  {
    assert (outcomes + [outcome])[..|outcomes|] == outcomes;
  }

  // What the i-th call must return, in terms of the attempts before it alone.
  function Expected(s: State, attempts: seq<usize>, i: nat): Outcome
    requires i < |attempts|
  {
    if Fires(s.kind, attempts[i]) && Allows(s.limit, (s.failures + FiringCount(s.kind, attempts[..i])) % TWO64)
    then Fail(InjectedFailure(s.mode, attempts[i]))
    else Proceed
  }

  // The counters after a run, free to wrap.
  lemma {:induction false} RunCounters(s: State, attempts: seq<usize>)
    ensures Run(s, attempts).0
         == s.(invocations := (s.invocations + |attempts|) % TWO64,
               failures := (s.failures + FiringCount(s.kind, attempts)) % TWO64)
  {
    hide Fires;
    if attempts != [] {
      hide Run, Firing;
      var n := |attempts| - 1;
      LastCheck(s, attempts);
      LastFiring(s.kind, attempts);
      RunCounters(s, attempts[..n]);
      ModSuccessor(s.invocations + n, 1);
      ModSuccessor(s.failures + FiringCount(s.kind, attempts[..n]), 1);
    }
  }

  // The history law, from any state and any number of calls.
  lemma {:induction false} HistoryLaw(s: State, attempts: seq<usize>)
    ensures var outcomes := Run(s, attempts).1;
            && |outcomes| == |attempts|
            && forall i :: 0 <= i < |attempts| ==> outcomes[i] == Expected(s, attempts, i)
  {
    hide Fires;
    if attempts != [] {
      var shorter := attempts[..|attempts| - 1];
      HistoryLaw(s, shorter);
      RunCounters(s, shorter);
      forall i | 0 <= i < |shorter|
        ensures Expected(s, attempts, i) == Expected(s, shorter, i)
      {
        assert shorter[..i] == attempts[..i];
      }
    }
  }

  // The state after a run that no counter wraps in.
  lemma FreshState(kind: Kind, mode: FailureMode, limit: Option<usize>, attempts: seq<usize>)
    requires |attempts| < TWO64
    ensures Run(Fresh(kind, mode, limit), attempts).0
         == State(kind, mode, limit, |attempts|, FiringCount(kind, attempts))
  {
    hide Run, Fires, Firing;
    RunCounters(Fresh(kind, mode, limit), attempts);
    ModIdentity(FiringCount(kind, attempts));
    ModIdentity(|attempts|);
  }

  // With fewer than 2^64 calls no counter wraps: the i-th call fails iff it
  // fires and fewer than `limit` earlier calls fired.
  lemma FreshLaw(kind: Kind, mode: FailureMode, limit: Option<usize>, attempts: seq<usize>, i: nat)
    requires i < |attempts| < TWO64
    ensures var (after, outcomes) := Run(Fresh(kind, mode, limit), attempts);
            && |outcomes| == |attempts|
            && (outcomes[i].Fail? <==>
                  Fires(kind, attempts[i]) && Allows(limit, FiringCount(kind, attempts[..i])))
            && (outcomes[i].Fail? ==> outcomes[i].failure == InjectedFailure(mode, attempts[i]))
            && after.invocations == |attempts|
  {
    hide Run, Fires;
    HistoryLaw(Fresh(kind, mode, limit), attempts);
    FreshState(kind, mode, limit, attempts);
    ModIdentity(FiringCount(kind, attempts[..i]));
  }

  // Failures emitted once `fired` calls have fired. The counter wraps, so a
  // limit starts over with every 2^64 of them.
  function EmittedAfter(limit: Option<usize>, fired: nat): nat {
    match limit
    case None => fired
    case Some(n) => fired / TWO64 * n + Min(fired % TWO64, n)
  }

  lemma EmittedAfterOneMore(limit: Option<usize>, fired: nat)
    ensures EmittedAfter(limit, fired + 1) == EmittedAfter(limit, fired) + (if Allows(limit, fired % TWO64) then 1 else 0)
  {
    if limit.Some? {
      NextQuotient(fired, TWO64, limit.value);
    }
  }

  lemma EmittedAfterMonotone(limit: Option<usize>, a: nat, b: nat)
    requires a <= b
    ensures EmittedAfter(limit, a) <= EmittedAfter(limit, b)
  {
    if limit.Some? && a / TWO64 < b / TWO64 {
      assert (a / TWO64 + 1) * limit.value <= b / TWO64 * limit.value;
    }
  }

  // The exact number of failures emitted, for any number of calls.
  lemma {:induction false} EmittedCount(kind: Kind, mode: FailureMode, limit: Option<usize>, attempts: seq<usize>)
    ensures |Emitted(Run(Fresh(kind, mode, limit), attempts).1)| == EmittedAfter(limit, FiringCount(kind, attempts))
  {
    if attempts != [] {
      hide Fires, EmittedAfter, Run, Firing, Emitted;
      var shorter := attempts[..|attempts| - 1];
      LastCheck(Fresh(kind, mode, limit), attempts);
      LastFiring(kind, attempts);
      EmittedCount(kind, mode, limit, shorter);
      RunCounters(Fresh(kind, mode, limit), shorter);
      EmittedAfterOneMore(limit, FiringCount(kind, shorter));
      var (before, outcomes) := Run(Fresh(kind, mode, limit), shorter);
      EmittedAppend(outcomes, Check(before, attempts[|attempts| - 1]).1);
    }
  }

  // The emitted failures are the first `limit` firing attempts as long as the
  // failure counter has not wrapped under a limit above zero, and no longer.
  lemma EmittedIsFirstFiring(kind: Kind, mode: FailureMode, limit: Option<usize>, attempts: seq<usize>)
    ensures Emitted(Run(Fresh(kind, mode, limit), attempts).1)
         == Firing(kind, attempts)[..Clamped(limit, FiringCount(kind, attempts))]
       <==> limit.None? || limit.value == 0 || FiringCount(kind, attempts) <= TWO64
  {
    hide Run, Fires, Firing, Emitted;
    EmittedCount(kind, mode, limit, attempts);
    if limit.None? || FiringCount(kind, attempts) <= TWO64 {
      EmittedBeforeWrap(kind, mode, limit, attempts);
    } else {
      PastTheLimit(FiringCount(kind, attempts), limit.value);
    }
  }

  lemma {:induction false} EmittedBeforeWrap(kind: Kind, mode: FailureMode, limit: Option<usize>, attempts: seq<usize>)
    requires limit.None? || FiringCount(kind, attempts) <= TWO64
    ensures Emitted(Run(Fresh(kind, mode, limit), attempts).1)
         == Firing(kind, attempts)[..Clamped(limit, FiringCount(kind, attempts))]
  {
    if attempts == [] {
      hide Fires;
    } else {
      hide Fires, Run, Firing, Emitted, FiringCount, Check, Clamped;
      var shorter := attempts[..|attempts| - 1];
      LastCheck(Fresh(kind, mode, limit), attempts);
      LastFiring(kind, attempts);
      EmittedBeforeWrap(kind, mode, limit, shorter);
      RunCounters(Fresh(kind, mode, limit), shorter);
      var (before, outcomes) := Run(Fresh(kind, mode, limit), shorter);
      EmittedAppend(outcomes, Check(before, attempts[|attempts| - 1]).1);
      if limit.Some? && Fires(kind, attempts[|attempts| - 1]) {
        ModIdentity(|Firing(kind, shorter)|);
      }
      PrefixOneMore(limit, Firing(kind, shorter), attempts[|attempts| - 1]);
    }
  }

  lemma PrefixOneMore(limit: Option<usize>, firing: seq<usize>, last: usize)
    ensures (firing + [last])[..Clamped(limit, |firing| + 1)]
         == firing[..Clamped(limit, |firing|)] + (if Allows(limit, |firing|) then [last] else [])
  {
  }

  // Without a limit every firing attempt is emitted, however many there are.
  lemma UnlimitedEmitsAll(kind: Kind, mode: FailureMode, attempts: seq<usize>)
    ensures Emitted(Run(Fresh(kind, mode, None), attempts).1) == Firing(kind, attempts)
  {
    hide Run, Fires, Firing, Emitted;
    EmittedIsFirstFiring(kind, mode, None, attempts);
  }

  // `failure_count` reports exactly the failures emitted until its counter has
  // wrapped, unless the limit is zero.
  lemma FailureCountIsEmitted(kind: Kind, mode: FailureMode, limit: Option<usize>, attempts: seq<usize>)
    ensures var (after, outcomes) := Run(Fresh(kind, mode, limit), attempts);
            var fired := FiringCount(kind, attempts);
            && (|Emitted(outcomes)| == Clamped(limit, after.failures) <==> limit == Some(0) || fired < TWO64)
            && (limit == Some(0) || fired < TWO64 ==> |Emitted(outcomes)| == Clamped(limit, fired))
  {
    hide Run, Fires, FiringCount, Emitted, EmittedAfter, Clamped;
    RunCounters(Fresh(kind, mode, limit), attempts);
    EmittedCount(kind, mode, limit, attempts);
    RawCounterSuffices(limit, FiringCount(kind, attempts));
  }

  lemma RawCounterSuffices(limit: Option<usize>, fired: nat)
    ensures EmittedAfter(limit, fired) == Clamped(limit, fired % TWO64) <==> limit == Some(0) || fired < TWO64
    ensures limit == Some(0) || fired < TWO64 ==> EmittedAfter(limit, fired) == Clamped(limit, fired)
  {
    if fired < TWO64 {
      ModIdentity(fired);
      assert fired / TWO64 == 0;
    } else if limit.Some? {
      AtLeastOnce(fired / TWO64, limit.value);
    }
  }

  lemma AtLeastOnce(q: nat, n: nat)
    requires q > 0
    ensures q * n >= n
  {
  }

  // The documented cap on the total number of failures holds exactly until the
  // failure counter has wrapped.
  lemma LimitIsRespected(kind: Kind, mode: FailureMode, limit: usize, attempts: seq<usize>)
    ensures |Emitted(Run(Fresh(kind, mode, Some(limit)), attempts).1)| <= limit
       <==> limit == 0 || FiringCount(kind, attempts) <= TWO64
  {
    hide Fires, Run, Firing, Emitted;
    EmittedCount(kind, mode, Some(limit), attempts);
    PastTheLimit(FiringCount(kind, attempts), limit);
  }

  // A limit of one lets two failures through, given 2^64 + 1 calls that fire.
  lemma LimitIsOutlived()
    ensures |Emitted(Run(Fresh(EveryN(1), IoError, Some(1)), seq(TWO64 + 1, i => 7)).1)| == 2
  {
    hide Run, Firing, Emitted;
    AllFire(EveryN(1), 7, TWO64 + 1);
    EmittedCount(EveryN(1), IoError, Some(1), seq(TWO64 + 1, i => 7));
  }

  lemma PastTheLimit(fired: nat, limit: nat)
    ensures fired / TWO64 * limit + Min(fired % TWO64, limit) <= limit <==> limit == 0 || fired <= TWO64
  {
    var q := fired / TWO64;
    assert q >= 2 ==> q * limit >= 2 * limit;
  }

  // Whether checking `attempt` gives the same outcome after every history.
  ghost predicate HistoryIndependent(s: State, attempt: usize) {
    forall history: seq<usize> ::
      Check(Run(s, history).0, attempt).1 == Check(s, attempt).1
  }

  // The documentation promises the same outcome for the same schedule and
  // attempt. A limit breaks that for exactly the attempts it can suppress.
  lemma OutcomeOfAttemptAlone(kind: Kind, mode: FailureMode, limit: Option<usize>, attempt: usize)
    ensures HistoryIndependent(Fresh(kind, mode, limit), attempt) <==>
              limit.None? || limit.value == 0 || !Fires(kind, attempt)
  {
    var s := Fresh(kind, mode, limit);
    if limit.None? || limit.value == 0 || !Fires(kind, attempt) {
      forall history: seq<usize>
        ensures Check(Run(s, history).0, attempt).1 == Check(s, attempt).1
      {
        RunCounters(s, history);
      }
    } else {
      var history := seq(limit.value, i => attempt);
      RunCounters(s, history);
      AllFire(kind, attempt, limit.value);
      assert Check(Run(s, history).0, attempt).1 != Check(s, attempt).1;
    }
  }

  lemma {:induction false} AllFire(kind: Kind, attempt: usize, n: nat)
    requires Fires(kind, attempt)
    ensures FiringCount(kind, seq(n, i => attempt)) == n
  {
    if n > 0 {
      assert seq(n, i => attempt)[..n - 1] == seq(n - 1, i => attempt);
      AllFire(kind, attempt, n - 1);
    }
  }

  // The attempts 1, 2, ..., m, as a wrapper numbers its operations.
  function FirstAttempts(m: usize): (r: seq<usize>)
    ensures |r| == m
  {
    seq(m, i requires 0 <= i < m => i + 1)
  }

  lemma FirstAttemptsStep(m: usize)
    requires m > 0
    ensures FirstAttempts(m)[..m - 1] == FirstAttempts(m - 1)
    ensures FirstAttempts(m)[m - 1] == m
  {
  }

  // `every_n(n)` picks m / n of the first m attempts.
  lemma {:induction false} EveryNCount(n: usize, m: usize)
    requires n > 0
    ensures FiringCount(EveryN(n), FirstAttempts(m)) == m / n
  {
    if m > 0 {
      hide Firing, FirstAttempts;
      FirstAttemptsStep(m);
      LastFiring(EveryN(n), FirstAttempts(m));
      EveryNCount(n, m - 1);
      NextMultiple(n, m);
    } else {
      Quotient(0, n, 0, 0);
    }
  }

  lemma NextMultiple(n: nat, m: nat)
    requires 0 < n && 0 < m
    ensures m / n == (m - 1) / n + (if m % n == 0 then 1 else 0)
  {
    NextQuotient(m - 1, n, 1);
  }

  // `on_attempts` picks each distinct listed attempt in 1..=m once; zero and
  // repetitions add nothing.
  lemma {:induction false} OnAttemptsCount(listed: set<usize>, m: usize)
    ensures FiringCount(Explicit(listed), FirstAttempts(m)) == |Reached(listed, m)|
  {
    if m > 0 {
      hide Reached, FirstAttempts, Firing;
      FirstAttemptsStep(m);
      LastFiring(Explicit(listed), FirstAttempts(m));
      OnAttemptsCount(listed, m - 1);
      ReachedStep(listed, m);
    } else {
      assert Reached(listed, 0) == {};
    }
  }

  // The listed attempts among the first m.
  function Reached(listed: set<usize>, m: nat): set<usize> {
    set a | a in listed && 1 <= a <= m
  }

  lemma ReachedStep(listed: set<usize>, m: usize)
    requires m > 0
    ensures |Reached(listed, m)| == |Reached(listed, m - 1)| + (if m in listed then 1 else 0)
  {
    if m in listed {
      assert Reached(listed, m) == Reached(listed, m - 1) + {m};
    } else {
      assert Reached(listed, m) == Reached(listed, m - 1);
    }
  }
}
