// The virtual clock: one signed offset that skews move and saturate.
module Clock {
  import opened Machine
  import opened Latency
  import Saturation

  // What other threads do to the offset between a read and the compare-exchange
  // that follows it, and whether the weak exchange then fails for no reason.
  datatype Interference = Interference(store: Option<i64>, spurious: bool)

  // The offset once the given interference has happened to it.
  function Disturbed(offset: i64, env: seq<Interference>): i64 {
    if env == [] then offset
    else
      match env[|env| - 1].store
      case Some(value) => value
      case None => Disturbed(offset, env[..|env| - 1])
  }

  // Whether the k-th exchange goes through: what was read is still there.
  predicate Commits(offset: i64, env: seq<Interference>, k: nat)
    requires k < |env|
  {
    Disturbed(offset, env[..k + 1]) == Disturbed(offset, env[..k]) && !env[k].spurious
  }

  // The nanoseconds that `advance` hands on, pinned to the range of i64.
  function AdvanceNanos(delta: Duration): i64 {
    if AsNanos(delta) <= I64_MAX then AsNanos(delta) else I64_MAX
  }

  class VirtualClock {
    var offsetNs: i64

    constructor ()
      ensures offsetNs == 0
    {
      offsetNs := 0;
    }

    method CompareExchangeWeak(cur: i64, next: i64, spurious: bool) returns (ok: bool, actual: i64)
      modifies this
      ensures actual == old(offsetNs)
      ensures ok <==> actual == cur && !spurious
      ensures offsetNs == if ok then next else actual
    {
      actual := offsetNs;
      ok := actual == cur && !spurious;
      if ok {
        offsetNs := next;
      }
    }

    // The retry loop of `skew_by`, against any finite interference. The skew
    // is applied exactly once, to the offset that is there when it commits.
    method SkewBy(deltaNs: i64, env: seq<Interference>) returns (used: nat)
      modifies this
      ensures used <= |env|
      ensures offsetNs == Saturation.SaturatingAdd(Disturbed(old(offsetNs), env[..used]), deltaNs)
      ensures forall k :: 0 <= k < used - 1 ==> !Commits(old(offsetNs), env, k)
      ensures used < |env| ==> used > 0 && Commits(old(offsetNs), env, used - 1)
    {
      var cur := offsetNs;
      used := 0;
      while true
        invariant used <= |env|
        invariant cur == offsetNs == Disturbed(old(offsetNs), env[..used])
        invariant forall k :: 0 <= k < used ==> !Commits(old(offsetNs), env, k)
        decreases |env| - used
      {
        var next := Saturation.SaturatingAdd(cur, deltaNs);
        var spurious := false;
        if used < |env| {
          assert env[..used + 1][..used] == env[..used];
          match env[used].store {
            case Some(value) => offsetNs := value;
            case None =>
          }
          spurious := env[used].spurious;
          used := used + 1;
        }
        var ok, actual := CompareExchangeWeak(cur, next, spurious);
        if ok {
          return;
        }
        cur := actual;
      }
    }

    method Advance(delta: Duration, env: seq<Interference>) returns (used: nat)
      modifies this
      ensures used <= |env|
      ensures offsetNs == Saturation.SaturatingAdd(Disturbed(old(offsetNs), env[..used]), AdvanceNanos(delta))
    {
      var deltaNs := if AsNanos(delta) <= I64_MAX then AsNanos(delta) else I64_MAX;
      used := SkewBy(deltaNs, env);
    }

    method Reset()
      modifies this
      ensures offsetNs == 0
    {
      offsetNs := 0;
    }

    // The offset as a duration, clamped at the anchor.
    method Now() returns (time: Duration)
      ensures AsNanos(time) == Max(offsetNs, 0)
      ensures offsetNs >= 0 ==> time == Span(offsetNs / 1_000_000_000, offsetNs % 1_000_000_000)
      ensures offsetNs < 0 ==> time == Span(0, 0)
    {
      var ns := offsetNs;
      if ns >= 0 {
        time := Span(ns / NANOS_PER_SEC, ns % NANOS_PER_SEC);
      } else {
        time := ZERO;
      }
    }

    method NowSignedNs() returns (ns: i64)
      ensures ns == offsetNs
    {
      ns := offsetNs;
    }
  }

  // The delta in nanoseconds, exactly, until it leaves the range of i64.
  lemma AdvanceUnits(delta: Duration)
    ensures var ns := delta.secs * 1_000_000_000 + delta.nanos;
            && AdvanceNanos(delta) == Min(ns, 9_223_372_036_854_775_807)
            && (delta.secs < 9_223_372_036 ==> Saturation.SaturatingAdd(0, AdvanceNanos(delta)) == ns)
  {
  }

  // Advancing never moves the clock back.
  lemma AdvanceIsForward(offset: i64, delta: Duration)
    ensures Saturation.SaturatingAdd(offset, AdvanceNanos(delta)) >= offset
  {
  }

  // The documentation says that an advance saturates the offset at the top of
  // the range. Pinning the delta first does that, unless the delta is out of
  // range and the offset negative: then the clock stops short.
  lemma AdvanceSaturatesIff(offset: i64, delta: Duration)
    ensures Saturation.SaturatingAdd(offset, AdvanceNanos(delta)) == Saturation.Clamp(offset + AsNanos(delta))
       <==> AsNanos(delta) <= I64_MAX || offset >= 0
  {
  }

  // Five nanoseconds before the anchor, the longest advance stops five
  // nanoseconds short of the top.
  lemma AdvanceStopsShort()
    ensures Saturation.SaturatingAdd(-5, AdvanceNanos(DURATION_MAX)) == I64_MAX - 5
    ensures Saturation.Clamp(-5 + AsNanos(DURATION_MAX)) == I64_MAX
  {
  }
}
