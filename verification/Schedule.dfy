// Failure schedules: which attempts fail, and the two counters that every
// check of a schedule updates.
module Schedule {
  import opened Machine
  import SplitMix

  datatype FailureMode =
    | IoError
    | PartialWrite
    | ConnectionReset
    | Timeout
    | Corruption
    | PermissionDenied

  datatype InjectedFailure = InjectedFailure(mode: FailureMode, attempt: usize)

  datatype Outcome = Proceed | Fail(failure: InjectedFailure)

  datatype ScheduleKind =
    | Explicit(attempts: set<usize>)
    | EveryN(n: usize)
    | SeededRandom(seed: u64, probThousandths: u32)

  // `every_n` clamps its argument to at least one, so no schedule divides by zero.
  type Kind = k: ScheduleKind | k.EveryN? ==> k.n > 0 witness EveryN(1)

  function OnAttempts(attempts: seq<usize>): Kind {
    Explicit(set a | a in attempts)
  }

  function EveryNth(n: usize): Kind {
    EveryN(Max(n, 1))
  }

  // The state of a schedule, as a value.
  datatype State = State(kind: Kind, mode: FailureMode, limit: Option<usize>, invocations: usize, failures: usize)

  predicate Fires(kind: Kind, attempt: usize) {
    match kind
    case Explicit(attempts) => attempt in attempts
    case EveryN(n) => attempt % n == 0
    case SeededRandom(seed, probThousandths) => SplitMix.Output(seed, attempt) % 1000 < probThousandths
  }

  function Fresh(kind: Kind, mode: FailureMode, limit: Option<usize>): State {
    State(kind, mode, limit, 0, 0)
  }

  // The meaning of one `maybe_fail`; ScheduleHistory says what runs of it do.
  function Check(s: State, attempt: usize): (State, Outcome) {
    var counted := s.(invocations := WrappingAdd(s.invocations, 1));
    if !Fires(s.kind, attempt) then
      (counted, Proceed)
    else
      (counted.(failures := WrappingAdd(s.failures, 1)),
       if Allows(s.limit, s.failures) then Fail(InjectedFailure(s.mode, attempt)) else Proceed)
  }

  // Whether a limit still lets a failure through after `prior` earlier ones.
  predicate Allows(limit: Option<usize>, prior: nat) {
    limit.None? || prior < limit.value
  }

  // A list schedule fires on the listed attempts, zero included, and no others.
  lemma OnAttemptsFires(attempts: seq<usize>, k: usize)
    ensures Fires(OnAttempts(attempts), k) <==> k in attempts
  {
  }

  predicate IsMultiple(k: nat, n: nat, q: nat) {
    k == q * n
  }

  // An every-n schedule fires on the multiples of n, and on all attempts when n
  // is zero. Attempt zero is a multiple.
  lemma EveryNthFires(n: usize, k: usize)
    ensures Fires(EveryNth(n), k) <==> exists q: nat :: IsMultiple(k, Max(n, 1), q)
  {
    var step := Max(n, 1);
    if k % step == 0 {
      assert IsMultiple(k, step, k / step);
    }
    if q: nat :| IsMultiple(k, step, q) {
      MultipleHasNoRemainder(q, step);
    }
  }

  lemma MultipleHasNoRemainder(q: nat, n: nat)
    requires n > 0
    ensures q * n % n == 0
  {
    var d := q - q * n / n;
    assert d * n == q * n % n;
    assert d >= 1 ==> d * n >= n;
    assert d <= -1 ==> d * n < 0;
  }

  function Clamped(limit: Option<usize>, count: nat): nat {
    if limit.None? then count else Min(count, limit.value)
  }

  class FailureSchedule {
    const kind: Kind
    const mode: FailureMode
    var failureLimit: Option<usize>
    var invocations: usize
    var failures: usize

    function View(): State
      reads this
    {
      State(kind, mode, failureLimit, invocations, failures)
    }

    constructor FailOn(attempts: seq<usize>, mode: FailureMode)
      ensures View() == Fresh(OnAttempts(attempts), mode, None)
      ensures forall k: usize :: Fires(kind, k) <==> k in attempts
    {
      this.kind := OnAttempts(attempts);
      this.mode := mode;
      this.failureLimit := None;
      this.invocations, this.failures := 0, 0;
    }

    constructor FailEvery(n: usize, mode: FailureMode)
      ensures View() == Fresh(EveryNth(n), mode, None)
      ensures n == 0 ==> forall k: usize :: Fires(kind, k)
    {
      this.kind := EveryNth(n);
      this.mode := mode;
      this.failureLimit := None;
      this.invocations, this.failures := 0, 0;
    }

    // The probability arrives already rounded to thousandths.
    constructor Seeded(seed: u64, probThousandths: u32, mode: FailureMode)
      requires probThousandths <= 1000
      ensures View() == Fresh(SeededRandom(seed, probThousandths), mode, None)
    {
      this.kind := SeededRandom(seed, probThousandths);
      this.mode := mode;
      this.failureLimit := None;
      this.invocations, this.failures := 0, 0;
    }

    method Limit(n: usize)
      modifies this
      ensures View() == old(View()).(limit := Some(n))
    {
      failureLimit := Some(n);
    }

    method MaybeFail(attempt: usize) returns (outcome: Outcome)
      modifies this
      ensures (View(), outcome) == Check(old(View()), attempt)
    {
      invocations := WrappingAdd(invocations, 1);
      if !Fires(kind, attempt) {
        return Proceed;
      }
      match failureLimit {
        case Some(limit) =>
          var prior := failures;
          failures := WrappingAdd(failures, 1);
          if prior >= limit {
            return Proceed;
          }
        case None =>
          failures := WrappingAdd(failures, 1);
      }
      return Fail(InjectedFailure(mode, attempt));
    }

    method FailureCount() returns (count: usize)
      ensures count == Clamped(failureLimit, failures)
    {
      var raw := failures;
      match failureLimit {
        case Some(limit) => count := Min(raw, limit);
        case None => count := raw;
      }
    }

    method InvocationCount() returns (count: usize)
      ensures count == invocations
    {
      count := invocations;
    }
  }
}
