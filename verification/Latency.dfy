// Per-attempt delays, with durations as the (seconds, nanoseconds) pairs that
// the standard library computes on.
module Latency {
  import opened Machine

  const NANOS_PER_SEC := 1_000_000_000

  datatype Span = Span(secs: u64, nanos: u32)

  type Duration = d: Span | d.nanos < NANOS_PER_SEC witness Span(0, 0)

  const ZERO: Duration := Span(0, 0)
  const DURATION_MAX: Duration := Span(U64_MAX, NANOS_PER_SEC - 1)

  function AsNanos(d: Duration): u128 {
    d.secs * NANOS_PER_SEC + d.nanos
  }

  // The derived order on pairs.
  predicate AtMost(a: Duration, b: Duration) {
    a.secs < b.secs || (a.secs == b.secs && a.nanos <= b.nanos)
  }

  function CheckedU64(x: nat): Option<u64> {
    if x < TWO64 then Some(x) else None
  }

  // `Duration::checked_mul`.
  function CheckedMul(d: Duration, factor: u32): Option<Duration> {
    var totalNanos := d.nanos * factor;
    match CheckedU64(d.secs * factor)
    case None => None
    case Some(s) =>
      match CheckedU64(s + totalNanos / NANOS_PER_SEC)
      case None => None
      case Some(secs) => Some(Span(secs, totalNanos % NANOS_PER_SEC))
  }

  // `Duration::checked_add`.
  function CheckedAdd(a: Duration, b: Duration): Option<Duration> {
    match CheckedU64(a.secs + b.secs)
    case None => None
    case Some(secs) =>
      var nanos := a.nanos + b.nanos;
      if nanos < NANOS_PER_SEC then Some(Span(secs, nanos))
      else
        match CheckedU64(secs + 1)
        case None => None
        case Some(carried) => Some(Span(carried, nanos - NANOS_PER_SEC))
  }

  function SaturatingMul(a: u128, b: u128): u128 {
    Min(a * b, U128_MAX)
  }

  function SaturatingAdd(a: u128, b: u128): u128 {
    Min(a + b, U128_MAX)
  }

  function DurationFromNanosSaturating(ns: u128): Duration {
    if ns / NANOS_PER_SEC < TWO64
    then Span(ns / NANOS_PER_SEC, ns % NANOS_PER_SEC)
    else DURATION_MAX
  }

  function LinearRampWide(start: Duration, step: Duration, n: usize): Duration {
    DurationFromNanosSaturating(SaturatingAdd(SaturatingMul(AsNanos(step), n), AsNanos(start)))
  }

  // The plain-Duration path, which gives up on any overflow.
  function LinearRampFast(start: Duration, step: Duration, n: usize): Option<Duration> {
    if n > U32_MAX then None
    else
      match CheckedMul(step, n)
      case None => None
      case Some(d) => CheckedAdd(start, d)
  }

  datatype LatencyProfile =
    | Constant(delay: Duration)
    | LinearRamp(start: Duration, step: Duration)
    | StepSchedule(boundaries: seq<(usize, Duration)>)

  function DelayFor(profile: LatencyProfile, attempt: usize): Duration {
    match profile
    case Constant(delay) => delay
    case LinearRamp(start, step) =>
      var n := Max(attempt - 1, 0);
      (match LinearRampFast(start, step, n)
       case Some(d) => d
       case None => LinearRampWide(start, step, n))
    case StepSchedule(boundaries) =>
      if boundaries == [] then ZERO else boundaries[StepIndex(boundaries, attempt)].1
  }

  // The first entry whose threshold covers the attempt, or else the last entry.
  function StepIndex(boundaries: seq<(usize, Duration)>, attempt: usize): (i: nat)
    requires boundaries != []
    ensures i < |boundaries|
  {
    if attempt <= boundaries[0].0 || |boundaries| == 1 then 0
    else 1 + StepIndex(boundaries[1..], attempt)
  }

  // Entry i is the first whose threshold is not below the attempt, or it is the
  // last and all before it are below.
  predicate FirstToCover(boundaries: seq<(usize, Duration)>, attempt: usize, i: nat)
    requires i < |boundaries|
  {
    && (forall k :: 0 <= k < i ==> boundaries[k].0 < attempt)
    && (attempt <= boundaries[i].0 || i == |boundaries| - 1)
  }

  // The search loop of a step schedule.
  method StepDelay(boundaries: seq<(usize, Duration)>, attempt: usize) returns (delay: Duration)
    ensures delay == DelayFor(StepSchedule(boundaries), attempt)
    ensures boundaries == [] ==> delay == ZERO
    ensures forall i :: 0 <= i < |boundaries| && FirstToCover(boundaries, attempt, i) ==> delay == boundaries[i].1
  {
    forall i | 0 <= i < |boundaries| && FirstToCover(boundaries, attempt, i)
      ensures StepIndex(boundaries, attempt) == i
    {
      StepIndexIs(boundaries, attempt, i);
    }
    if boundaries == [] {
      return ZERO;
    }
    for i := 0 to |boundaries|
      invariant forall k :: 0 <= k < i ==> boundaries[k].0 < attempt
    {
      if attempt <= boundaries[i].0 {
        StepIndexIs(boundaries, attempt, i);
        return boundaries[i].1;
      }
    }
    StepIndexIs(boundaries, attempt, |boundaries| - 1);
    return boundaries[|boundaries| - 1].1;
  }

  lemma {:induction false} StepIndexIs(boundaries: seq<(usize, Duration)>, attempt: usize, i: nat)
    requires i < |boundaries|
    requires forall k :: 0 <= k < i ==> boundaries[k].0 < attempt
    requires attempt <= boundaries[i].0 || i == |boundaries| - 1
    ensures StepIndex(boundaries, attempt) == i
  {
    if i > 0 {
      StepIndexIs(boundaries[1..], attempt, i - 1);
    }
  }

  // The delay of a constant profile, and of a step schedule by its thresholds.
  lemma ConstantDelay(delay: Duration, attempt: usize)
    ensures DelayFor(Constant(delay), attempt) == delay
  {
  }

  lemma StepDelayIs(boundaries: seq<(usize, Duration)>, attempt: usize)
    ensures var delay := DelayFor(StepSchedule(boundaries), attempt);
            if boundaries == [] then delay == Span(0, 0)
            else exists i :: 0 <= i < |boundaries| && FirstToCover(boundaries, attempt, i) && delay == boundaries[i].1
  {
    if boundaries != [] {
      StepIndexCovers(boundaries, attempt);
      assert FirstToCover(boundaries, attempt, StepIndex(boundaries, attempt));
    }
  }

  // A second is a thousand million nanoseconds, and the longest duration is the
  // longest pair.
  lemma Units(d: Duration)
    ensures AsNanos(d) == d.secs * 1_000_000_000 + d.nanos && d.nanos <= 999_999_999
    ensures DURATION_MAX == Span(18_446_744_073_709_551_615, 999_999_999) && ZERO == Span(0, 0)
    ensures AtMost(d, DURATION_MAX)
  {
  }

  // Two steps of 600 ms from zero carry into the second: 1.2 s at attempt 3.
  lemma RampCarries()
    ensures DelayFor(LinearRamp(Span(0, 0), Span(0, 600_000_000)), 3) == Span(1, 200_000_000)
    ensures DelayFor(LinearRamp(Span(0, 0), Span(0, 600_000_000)), 1) == Span(0, 0)
  {
  }

  // A well-formed pair is determined by its nanoseconds, and ordered by them.
  lemma NanosDetermine(a: Duration, b: Duration)
    ensures AtMost(a, b) <==> AsNanos(a) <= AsNanos(b)
    ensures a == b <==> AsNanos(a) == AsNanos(b)
  {
  }

  // `checked_mul` and `checked_add` fail exactly when the exact result is
  // longer than the longest duration, and are exact otherwise.
  lemma CheckedMulExact(d: Duration, factor: u32)
    ensures match CheckedMul(d, factor)
            case Some(r) => AsNanos(r) == AsNanos(d) * factor
            case None => AsNanos(d) * factor > AsNanos(DURATION_MAX)
  {
    var totalNanos := d.nanos * factor;
    assert AsNanos(d) * factor == d.secs * factor * NANOS_PER_SEC + totalNanos;
  }

  lemma CheckedAddExact(a: Duration, b: Duration)
    ensures match CheckedAdd(a, b)
            case Some(r) => AsNanos(r) == AsNanos(a) + AsNanos(b)
            case None => AsNanos(a) + AsNanos(b) > AsNanos(DURATION_MAX)
  {
  }

  lemma FromNanosExact(ns: u128)
    ensures AsNanos(DurationFromNanosSaturating(ns)) == Min(ns, AsNanos(DURATION_MAX))
  {
  }

  // The exact delay of a ramp after n steps, clamped once at the end.
  function RampNanos(start: Duration, step: Duration, n: usize): int {
    Min(AsNanos(start) + n * AsNanos(step), AsNanos(DURATION_MAX))
  }

  lemma WideExact(start: Duration, step: Duration, n: usize)
    ensures AsNanos(LinearRampWide(start, step, n)) == RampNanos(start, step, n)
  {
    FromNanosExact(SaturatingAdd(SaturatingMul(AsNanos(step), n), AsNanos(start)));
  }

  lemma FastExact(start: Duration, step: Duration, n: usize)
    ensures match LinearRampFast(start, step, n)
            case Some(d) => AsNanos(d) == AsNanos(start) + n * AsNanos(step) <= AsNanos(DURATION_MAX)
            case None => n > U32_MAX || AsNanos(start) + n * AsNanos(step) > AsNanos(DURATION_MAX)
  {
    if n <= U32_MAX {
      hide CheckedMul, CheckedAdd;
      CheckedMulExact(step, n);
      match CheckedMul(step, n) {
        case None =>
        case Some(d) => CheckedAddExact(start, d);
      }
    }
  }

  // The linear ramp is exact for every start, step and attempt.
  lemma LinearRampExact(start: Duration, step: Duration, attempt: usize)
    ensures AsNanos(DelayFor(LinearRamp(start, step), attempt)) == RampNanos(start, step, Max(attempt - 1, 0))
  {
    hide LinearRampFast, LinearRampWide;
    var n := Max(attempt - 1, 0);
    FastExact(start, step, n);
    WideExact(start, step, n);
  }

  // Where the fast path answers, the wide path would give the same pair, and
  // within the range of u32 it declines only what saturates.
  lemma PathsAgree(start: Duration, step: Duration, n: usize)
    ensures match LinearRampFast(start, step, n)
            case Some(d) => d == LinearRampWide(start, step, n)
            case None => n <= U32_MAX ==> LinearRampWide(start, step, n) == DURATION_MAX
  {
    hide LinearRampFast, LinearRampWide;
    FastExact(start, step, n);
    WideExact(start, step, n);
    NanosDetermine(LinearRampWide(start, step, n), DURATION_MAX);
    match LinearRampFast(start, step, n) {
      case Some(d) => NanosDetermine(d, LinearRampWide(start, step, n));
      case None =>
    }
  }

  lemma MoreStepsTakeLonger(m: nat, n: nat, step: nat)
    requires m <= n
    ensures m * step <= n * step
  {
    assert n * step == m * step + (n - m) * step;
  }

  // Delays never shrink from one attempt to a later one.
  lemma LinearRampMonotone(start: Duration, step: Duration, a: usize, b: usize)
    requires a <= b
    ensures AtMost(DelayFor(LinearRamp(start, step), a), DelayFor(LinearRamp(start, step), b))
  {
    hide DelayFor, AsNanos;
    LinearRampExact(start, step, a);
    LinearRampExact(start, step, b);
    MoreStepsTakeLonger(Max(a - 1, 0), Max(b - 1, 0), AsNanos(step));
    NanosDetermine(DelayFor(LinearRamp(start, step), a), DelayFor(LinearRamp(start, step), b));
  }

  predicate Sorted(boundaries: seq<(usize, Duration)>) {
    forall i, j :: 0 <= i < j < |boundaries| ==> boundaries[i].0 <= boundaries[j].0
  }

  predicate DelaysGrow(boundaries: seq<(usize, Duration)>) {
    forall i, j :: 0 <= i <= j < |boundaries| ==> AtMost(boundaries[i].1, boundaries[j].1)
  }

  ghost predicate MonotoneInAttempt(profile: LatencyProfile) {
    forall a: usize, b: usize :: a <= b ==> AtMost(DelayFor(profile, a), DelayFor(profile, b))
  }

  // On a sorted schedule the search finds the least threshold that covers the
  // attempt, or the last entry when none does.
  lemma {:induction false} StepIndexIsLeast(boundaries: seq<(usize, Duration)>, attempt: usize)
    requires boundaries != [] && Sorted(boundaries)
    ensures var i := StepIndex(boundaries, attempt);
            && (forall k :: 0 <= k < i ==> boundaries[k].0 < attempt)
            && (if attempt <= boundaries[i].0
                then forall k :: 0 <= k < |boundaries| && attempt <= boundaries[k].0 ==> boundaries[i].0 <= boundaries[k].0
                else i == |boundaries| - 1 && forall k :: 0 <= k < |boundaries| ==> boundaries[k].0 < attempt)
  {
    if attempt > boundaries[0].0 && |boundaries| > 1 {
      var rest := boundaries[1..];
      StepIndexIsLeast(rest, attempt);
      var i := StepIndex(rest, attempt);
      assert boundaries[i + 1] == rest[i];
      forall k | 0 < k < |boundaries|
        ensures boundaries[k] == rest[k - 1]
      {
      }
    }
  }

  lemma {:induction false} StepIndexCovers(boundaries: seq<(usize, Duration)>, attempt: usize)
    requires boundaries != []
    ensures var i := StepIndex(boundaries, attempt);
            && (forall k :: 0 <= k < i ==> boundaries[k].0 < attempt)
            && (attempt <= boundaries[i].0 || i == |boundaries| - 1)
  {
    if attempt > boundaries[0].0 && |boundaries| > 1 {
      StepIndexCovers(boundaries[1..], attempt);
    }
  }

  // Later attempts never select an earlier entry, sorted or not.
  lemma StepIndexMonotone(boundaries: seq<(usize, Duration)>, a: usize, b: usize)
    requires boundaries != []
    requires a <= b
    ensures StepIndex(boundaries, a) <= StepIndex(boundaries, b)
  {
    StepIndexCovers(boundaries, a);
    StepIndexCovers(boundaries, b);
  }

  // Some attempt selects entry i: its threshold is above all earlier ones, or
  // it is the last entry and some attempt is above all earlier ones.
  predicate Reachable(boundaries: seq<(usize, Duration)>, i: nat)
    requires i < |boundaries|
  {
    || AboveEarlier(boundaries, i, boundaries[i].0)
    || (i == |boundaries| - 1 && AboveEarlier(boundaries, i, U64_MAX))
  }

  predicate AboveEarlier(boundaries: seq<(usize, Duration)>, i: nat, attempt: usize)
    requires i < |boundaries|
  {
    forall k :: 0 <= k < i ==> boundaries[k].0 < attempt
  }

  predicate ReachableDelaysGrow(boundaries: seq<(usize, Duration)>) {
    forall i, j :: 0 <= i <= j < |boundaries| && Reachable(boundaries, i) && Reachable(boundaries, j) ==>
      AtMost(boundaries[i].1, boundaries[j].1)
  }

  lemma SelectedIsReachable(boundaries: seq<(usize, Duration)>, attempt: usize)
    requires boundaries != []
    ensures Reachable(boundaries, StepIndex(boundaries, attempt))
  {
    StepIndexCovers(boundaries, attempt);
  }

  // An attempt that selects a reachable entry.
  function Selecting(boundaries: seq<(usize, Duration)>, i: nat): (attempt: usize)
    requires i < |boundaries| && Reachable(boundaries, i)
    ensures StepIndex(boundaries, attempt) == i
  {
    var attempt := if AboveEarlier(boundaries, i, boundaries[i].0) then boundaries[i].0 else U64_MAX;
    StepIndexIs(boundaries, attempt, i);
    attempt
  }

  // The delays never shrink from one attempt to a later one iff the delays of
  // the entries that some attempt selects never do.
  lemma StepsMonotoneIff(boundaries: seq<(usize, Duration)>)
    ensures MonotoneInAttempt(StepSchedule(boundaries)) <==> ReachableDelaysGrow(boundaries)
  {
    var profile := StepSchedule(boundaries);
    if ReachableDelaysGrow(boundaries) && boundaries != [] {
      forall a: usize, b: usize | a <= b
        ensures AtMost(DelayFor(profile, a), DelayFor(profile, b))
      {
        StepIndexMonotone(boundaries, a, b);
        SelectedIsReachable(boundaries, a);
        SelectedIsReachable(boundaries, b);
      }
    }
    if MonotoneInAttempt(profile) {
      forall i, j | 0 <= i <= j < |boundaries| && Reachable(boundaries, i) && Reachable(boundaries, j)
        ensures AtMost(boundaries[i].1, boundaries[j].1)
      {
        var a, b := Selecting(boundaries, i), Selecting(boundaries, j);
        assert a <= b;
        assert AtMost(DelayFor(profile, a), DelayFor(profile, b));
      }
    }
  }

  // So growing delays suffice, whatever the thresholds.
  lemma GrowingStepsAreMonotone(boundaries: seq<(usize, Duration)>)
    requires DelaysGrow(boundaries)
    ensures MonotoneInAttempt(StepSchedule(boundaries))
  {
    StepsMonotoneIff(boundaries);
  }
}
