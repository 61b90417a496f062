/**
 Timed histories of a circuit breaker: what its state says about the outcomes recorded so far, and when it
 rejects.
 */
module BreakerRuns {
  import opened CircuitBreakers

  datatype Event = Allow(now: int) | Success(now: int) | Failure(now: int)

  /** Sequential calls read a clock that starts at its epoch and never goes back. */
  ghost predicate Monotone(h: seq<Event>) {
    (forall i :: 0 <= i < |h| ==> 0 <= h[i].now) && (forall i, j :: 0 <= i < j < |h| ==> h[i].now <= h[j].now)
  }

  function Next(b: Breaker, e: Event): Breaker {
    match e
    case Allow(now) => b.AfterAllow(now)
    case Success(_) => b.AfterSuccess()
    case Failure(now) => b.AfterFailure(now)
  }

  function Run(threshold: int, timeout: int, h: seq<Event>): Breaker {
    if h == [] then Fresh(threshold, timeout) else Next(Run(threshold, timeout, h[..|h|-1]), h[|h|-1])
  }

  // ---------- history counters, unbounded ----------

  function Failures(h: seq<Event>): nat {
    if h == [] then 0 else Failures(h[..|h|-1]) + (if h[|h|-1].Failure? then 1 else 0)
  }

  function Successes(h: seq<Event>): nat {
    if h == [] then 0 else Successes(h[..|h|-1]) + (if h[|h|-1].Success? then 1 else 0)
  }

  /** The last event of h closes the breaker: a success recorded while HALF_OPEN. */
  predicate Closes(threshold: int, timeout: int, h: seq<Event>)
    requires h != []
  {
    h[|h|-1].Success? && Run(threshold, timeout, h[..|h|-1]).state == HALF_OPEN
  }

  function Closings(threshold: int, timeout: int, h: seq<Event>): nat {
    if h == [] then 0
    else Closings(threshold, timeout, h[..|h|-1]) + (if Closes(threshold, timeout, h) then 1 else 0)
  }

  /** The failures recorded since the last closing, or since the start. */
  function SinceClosing(threshold: int, timeout: int, h: seq<Event>): nat {
    if h == [] then 0
    else if Closes(threshold, timeout, h) then 0
    else SinceClosing(threshold, timeout, h[..|h|-1]) + (if h[|h|-1].Failure? then 1 else 0)
  }

  /** A threshold below one acts like one: a failure is recorded before the threshold is looked at. */
  function Effective(threshold: int): int {
    if threshold >= 1 then threshold else 1
  }

  /** The configured threshold is an int of 32 bits. */
  predicate Int32(n: int) {
    -0x8000_0000 <= n < 0x8000_0000
  }

  lemma WrapSmall(n: int)
    requires Int32(n)
    ensures Wrap32(n) == n
  {
  }

  lemma WrapNext(n: int)
    ensures Wrap32(Wrap32(n) + 1) == Wrap32(n + 1)
  {
  }

  /** n failures since the last closing and s successes in all: what the fields of the breaker then are. */
  ghost predicate Reflects(b: Breaker, n: nat, s: nat) {
    && (b.state == CLOSED <==> n < Effective(b.threshold))
    && b.failures == Wrap32(n) && b.successes == Wrap32(s)
  }

  lemma FailureReflects(b: Breaker, n: nat, s: nat, now: int)
    requires Int32(b.threshold) && Reflects(b, n, s)
    ensures Reflects(b.AfterFailure(now), n + 1, s)
  {
    WrapNext(n);
    if b.state == CLOSED {
      WrapSmall(n + 1);
    }
  }

  lemma SuccessReflects(b: Breaker, n: nat, s: nat)
    requires Reflects(b, n, s)
    ensures Reflects(b.AfterSuccess(), if b.state == HALF_OPEN then 0 else n, s + 1)
  {
    WrapNext(s);
    WrapSmall(0);
  }

  /**
   In every sequential run the breaker is CLOSED exactly while fewer failures than the threshold were
   recorded since the last closing, and the counters are those numbers of failures and of successes,
   wrapped to 32 bits.
   */
  lemma {:induction false} StateCountsFailures(threshold: int, timeout: int, h: seq<Event>)
    requires Int32(threshold)
    ensures Run(threshold, timeout, h).threshold == threshold && Run(threshold, timeout, h).timeout == timeout
    ensures Reflects(Run(threshold, timeout, h), SinceClosing(threshold, timeout, h), Successes(h))
  {
    if h == [] {
      WrapSmall(0);
    } else {
      var before := h[..|h|-1];
      var b, n := Run(threshold, timeout, before), SinceClosing(threshold, timeout, before);
      StateCountsFailures(threshold, timeout, before);
      match h[|h|-1]
      case Allow(_) =>
      case Success(_) => SuccessReflects(b, n, Successes(before));
      case Failure(now) => FailureReflects(b, n, Successes(before), now);
    }
  }

  /** Every closing has cost at least a threshold of failures. */
  lemma {:induction false} ClosingsCostFailures(threshold: int, timeout: int, h: seq<Event>)
    requires Int32(threshold)
    ensures Failures(h) >= Effective(threshold) * Closings(threshold, timeout, h) + SinceClosing(threshold, timeout, h)
  {
    if h != [] {
      var before := h[..|h|-1];
      ClosingsCostFailures(threshold, timeout, before);
      StateCountsFailures(threshold, timeout, before);
      OneMore(Effective(threshold), Closings(threshold, timeout, before));
    }
  }

  lemma OneMore(a: int, b: int)
    ensures a * (b + 1) == a * b + a
  {
  }

  /**
   Comparing the failure counter with the threshold tells the state exactly when the failures since the last
   closing are below the threshold, or the remainder of their number by 2^32 is at least the threshold and
   below 2^31; with fewer than 2^31 failures it always does.
   */
  lemma CounterTellsStateIff(threshold: int, timeout: int, h: seq<Event>)
    requires 1 <= threshold < 0x8000_0000
    ensures var b, n := Run(threshold, timeout, h), SinceClosing(threshold, timeout, h);
      (b.state == CLOSED <==> b.failures < threshold) <==>
      n < threshold || threshold <= n % 0x1_0000_0000 < 0x8000_0000
    ensures var b, n := Run(threshold, timeout, h), SinceClosing(threshold, timeout, h);
      n < 0x8000_0000 ==> (b.failures == n && (b.state == CLOSED <==> b.failures < threshold))
  {
    StateCountsFailures(threshold, timeout, h);
    var n := SinceClosing(threshold, timeout, h);
    if n < 0x8000_0000 {
      WrapSmall(n);
    }
  }

  function Repeated(e: Event, n: nat): (h: seq<Event>)
    ensures |h| == n && forall i :: 0 <= i < n ==> h[i] == e
  {
    seq(n, i => e)
  }

  lemma {:induction false} OnlyFailures(threshold: int, timeout: int, now: int, n: nat)
    ensures SinceClosing(threshold, timeout, Repeated(Failure(now), n)) == n
    ensures Run(threshold, timeout, Repeated(Failure(now), n)).state != HALF_OPEN
  {
    if n > 0 {
      assert Repeated(Failure(now), n)[..n-1] == Repeated(Failure(now), n - 1);
      OnlyFailures(threshold, timeout, now, n - 1);
    }
  }

  /** After 2^31 failures and no closing the breaker is OPEN and its counter is the least 32-bit integer. */
  lemma CounterWraps(threshold: int, timeout: int, now: int)
    requires 1 <= threshold < 0x8000_0000
    ensures var b := Run(threshold, timeout, Repeated(Failure(now), 0x8000_0000));
      b.state == OPEN && b.failures == -0x8000_0000
  {
    OnlyFailures(threshold, timeout, now, 0x8000_0000);
    StateCountsFailures(threshold, timeout, Repeated(Failure(now), 0x8000_0000));
  }

  // ---------- gating ----------

  /** The time of the latest failure of a history that has one. */
  function LatestFailure(h: seq<Event>): int {
    if h == [] then 0 else if h[|h|-1].Failure? then h[|h|-1].now else LatestFailure(h[..|h|-1])
  }

  lemma {:induction false} LastFailureIsLatest(threshold: int, timeout: int, h: seq<Event>)
    ensures Run(threshold, timeout, h).lastFailure == LatestFailure(h)
    ensures Run(threshold, timeout, h).timeout == timeout
  {
    if h != [] {
      LastFailureIsLatest(threshold, timeout, h[..|h|-1]);
    }
  }

  lemma {:induction false} LatestFailureInHistory(h: seq<Event>)
    requires Failures(h) > 0
    ensures exists i :: 0 <= i < |h| && h[i].Failure? && h[i].now == LatestFailure(h)
  {
    if !h[|h|-1].Failure? {
      LatestFailureInHistory(h[..|h|-1]);
      var before := h[..|h|-1];
      var i :| 0 <= i < |before| && before[i].Failure? && before[i].now == LatestFailure(before);
      assert h[i] == before[i];
    } else {
      var i := |h| - 1;
      assert h[i].Failure?;
    }
  }

  lemma {:induction false} SinceClosingBounded(threshold: int, timeout: int, h: seq<Event>)
    ensures SinceClosing(threshold, timeout, h) <= Failures(h)
  {
    if h != [] {
      SinceClosingBounded(threshold, timeout, h[..|h|-1]);
    }
  }

  /** Elapsed milliseconds are below the timeout exactly while less than the timeout has gone by. */
  lemma MillisBelow(nanos: int, timeout: int)
    requires nanos >= 0
    ensures ToMillis(nanos) < timeout <==> nanos < timeout * 1_000_000
  {
  }

  /**
   A request is rejected exactly when the breaker is OPEN and the latest recorded failure is less than the
   timeout ago; then at least a threshold of failures was recorded since the last closing.
   */
  lemma RejectedIff(threshold: int, timeout: int, h: seq<Event>, now: int)
    requires Int32(threshold) && Monotone(h + [Allow(now)])
    ensures var b := Run(threshold, timeout, h);
      && (!b.Allows(now) <==> b.state == OPEN && now - LatestFailure(h) < timeout * 1_000_000)
      && (!b.Allows(now) ==> SinceClosing(threshold, timeout, h) >= Effective(threshold))
      && (!b.Allows(now) ==> exists i :: 0 <= i < |h| && h[i].Failure? && now - h[i].now < timeout * 1_000_000)
  {
    var b := Run(threshold, timeout, h);
    StateCountsFailures(threshold, timeout, h);
    LastFailureIsLatest(threshold, timeout, h);
    SinceClosingBounded(threshold, timeout, h);
    var all := h + [Allow(now)];
    assert all[|h|] == Allow(now);
    if b.state == OPEN {
      LatestFailureInHistory(h);
      var i :| 0 <= i < |h| && h[i].Failure? && h[i].now == LatestFailure(h);
      assert all[i] == h[i] && all[i].now <= all[|h|].now;
      MillisBelow(now - LatestFailure(h), timeout);
    }
  }

  /** OPEN at the end of h, and no request admitted in the events that follow. */
  predicate NoneAdmitted(threshold: int, timeout: int, h: seq<Event>, more: seq<Event>) {
    more == [] ||
      var before := more[..|more|-1];
      && NoneAdmitted(threshold, timeout, h, before)
      && (more[|more|-1].Allow? ==> !Run(threshold, timeout, h + before).Allows(more[|more|-1].now))
  }

  /**
   From any opening on, whatever is recorded meanwhile, the breaker stays OPEN until a request is admitted;
   the first one admitted comes a full timeout or more after the latest failure, those recorded while OPEN
   included, and makes the breaker HALF_OPEN.
   */
  lemma FirstAdmissionAfterOpening(
    threshold: int, timeout: int, h: seq<Event>, more: seq<Event>, now: int)
    requires Int32(threshold) && Run(threshold, timeout, h).state == OPEN
    requires NoneAdmitted(threshold, timeout, h, more) && Monotone(h + more + [Allow(now)])
    ensures Run(threshold, timeout, h + more).state == OPEN
    ensures Run(threshold, timeout, h + more).Allows(now) <==>
            now - LatestFailure(h + more) >= timeout * 1_000_000
    ensures Run(threshold, timeout, h + more).Allows(now) ==>
            Run(threshold, timeout, h + more + [Allow(now)]).state == HALF_OPEN
  {
    StaysOpen(threshold, timeout, h, more);
    RejectedIff(threshold, timeout, h + more, now);
    assert (h + more + [Allow(now)])[..|h + more|] == h + more;
  }

  lemma {:induction false} StaysOpen(threshold: int, timeout: int, h: seq<Event>, more: seq<Event>)
    requires Run(threshold, timeout, h).state == OPEN && NoneAdmitted(threshold, timeout, h, more)
    ensures Run(threshold, timeout, h + more).state == OPEN
  {
    if more == [] {
      assert h + more == h;
    } else {
      var before := more[..|more|-1];
      StaysOpen(threshold, timeout, h, before);
      assert (h + more)[..|h + more|-1] == h + before;
    }
  }

  // ---------- the state told from the history ----------

  /** A request came a full timeout or more after the latest failure, and no outcome was recorded since. */
  predicate Probed(timeout: int, h: seq<Event>) {
    if h == [] then false
    else
      var before := h[..|h|-1];
      match h[|h|-1]
      case Allow(now) => Probed(timeout, before) || now - LatestFailure(before) >= timeout * 1_000_000
      case Success(_) => false
      case Failure(_) => false
  }

  /** The failures since the last closing, where a closing is a success while a probe is out. */
  function Counted(threshold: int, timeout: int, h: seq<Event>): nat {
    if h == [] then 0
    else
      var before := h[..|h|-1];
      match h[|h|-1]
      case Allow(_) => Counted(threshold, timeout, before)
      case Success(_) =>
        if Counted(threshold, timeout, before) >= Effective(threshold) && Probed(timeout, before) then 0
        else Counted(threshold, timeout, before)
      case Failure(_) => Counted(threshold, timeout, before) + 1
  }

  /** The times of a run before its last event. */
  lemma MonotoneInit(h: seq<Event>)
    requires Monotone(h) && h != []
    ensures Monotone(h[..|h|-1])
  {
  }

  lemma {:induction false} LatestFailureBefore(h: seq<Event>, now: int)
    requires Monotone(h) && 0 <= now && forall i :: 0 <= i < |h| ==> h[i].now <= now
    ensures 0 <= LatestFailure(h) <= now
  {
    if h != [] {
      LatestFailureBefore(h[..|h|-1], now);
    }
  }

  lemma AdmitsIff(threshold: int, timeout: int, h: seq<Event>)
    requires h != [] && h[|h|-1].Allow? && Monotone(h)
    ensures var before, now := h[..|h|-1], h[|h|-1].now;
            Run(threshold, timeout, before).TimeoutExpired(now) <==> now - LatestFailure(before) >= timeout * 1_000_000
  {
    var before, now := h[..|h|-1], h[|h|-1].now;
    MonotoneInit(h);
    LastFailureIsLatest(threshold, timeout, before);
    assert forall i :: 0 <= i < |before| ==> before[i] == h[i];
    LatestFailureBefore(before, now);
    MillisBelow(now - LatestFailure(before), timeout);
  }

  /**
   After every run the state is CLOSED while fewer failures than the threshold were counted, HALF_OPEN when a
   probe is out, and OPEN otherwise; all of it read off the history.
   */
  lemma {:induction false} StateIsTold(threshold: int, timeout: int, h: seq<Event>)
    requires Int32(threshold) && Monotone(h)
    ensures SinceClosing(threshold, timeout, h) == Counted(threshold, timeout, h)
    ensures Run(threshold, timeout, h).state ==
            if Counted(threshold, timeout, h) < Effective(threshold) then CLOSED
            else if Probed(timeout, h) then HALF_OPEN
            else OPEN
  {
    StateCountsFailures(threshold, timeout, h);
    if h != [] {
      MonotoneInit(h);
      StateIsTold(threshold, timeout, h[..|h|-1]);
      StateCountsFailures(threshold, timeout, h[..|h|-1]);
      if h[|h|-1].Allow? {
        AdmitsIff(threshold, timeout, h);
      }
    }
  }

  /**
   A recorded failure never leaves the breaker HALF_OPEN: it is OPEN from the threshold on, a failed probe
   included, and CLOSED below it.
   */
  lemma FailureOpens(threshold: int, timeout: int, h: seq<Event>, now: int)
    requires Int32(threshold)
    ensures Run(threshold, timeout, h + [Failure(now)]).state ==
            if SinceClosing(threshold, timeout, h) + 1 >= Effective(threshold) then OPEN else CLOSED
    ensures Run(threshold, timeout, h).state == HALF_OPEN ==>
            Run(threshold, timeout, h + [Failure(now)]).state == OPEN
  {
    var all := h + [Failure(now)];
    assert all[..|all|-1] == h && all[|all|-1] == Failure(now);
    StateCountsFailures(threshold, timeout, h);
    StateCountsFailures(threshold, timeout, all);
  }

  /** The breaker of the program, five failures and 30 seconds, through a failed probe: the next request is rejected. */
  lemma FailedProbeRejects(h: seq<Event>, probe: int, failure: int, now: int)
    requires Monotone(h + [Allow(probe)] + [Failure(failure)] + [Allow(now)])
    requires Run(5, 30_000, h + [Allow(probe)]).state == HALF_OPEN
    ensures Run(5, 30_000, h + [Allow(probe)] + [Failure(failure)]).Allows(now) <==> now - failure >= 30_000_000_000
  {
    var all := h + [Allow(probe)] + [Failure(failure)] + [Allow(now)];
    var failed := h + [Allow(probe)] + [Failure(failure)];
    assert all[..|all|-1] == failed && all[|all|-1] == Allow(now);
    MonotoneInit(all);
    FailureOpens(5, 30_000, h + [Allow(probe)], failure);
    AdmitsIff(5, 30_000, all);
    assert failed[|failed|-1] == Failure(failure);
  }
}
