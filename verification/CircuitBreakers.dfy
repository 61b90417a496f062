/**
 The circuit breaker: CLOSED lets requests through, OPEN rejects them until a timeout after the last recorded
 failure, HALF_OPEN lets requests through until the next recorded outcome decides.

 Each method is atomic. Clock readings are nanoseconds; counters are 32-bit and wrap.
 */
module CircuitBreakers {

  const NANOS_PER_MILLI: int := 1_000_000

  datatype State = CLOSED | OPEN | HALF_OPEN

  /** The 32-bit two's complement integer that agrees with n in the low 32 bits. */
  function Wrap32(n: int): (w: int)
    ensures -0x8000_0000 <= w < 0x8000_0000 && (n - w) % 0x1_0000_0000 == 0
  {
    var r := n % 0x1_0000_0000;
    if r < 0x8000_0000 then r else r - 0x1_0000_0000
  }

  /** A duration cast drops the fraction of a millisecond, toward zero. */
  function ToMillis(nanos: int): (ms: int)
    ensures nanos >= 0 ==> ms * 1_000_000 <= nanos < (ms + 1) * 1_000_000
    ensures nanos <= 0 ==> (ms - 1) * 1_000_000 < nanos <= ms * 1_000_000
  {
    if nanos >= 0 then nanos / NANOS_PER_MILLI else -(-nanos / NANOS_PER_MILLI)
  }

  datatype Breaker = Breaker(
    threshold: int, timeout: int, state: State, failures: int, successes: int, lastFailure: int)
  {

    predicate TimeoutExpired(now: int) {
      ToMillis(now - lastFailure) >= timeout
    }

    predicate Allows(now: int) {
      state == OPEN ==> TimeoutExpired(now)
    }

    function AfterAllow(now: int): Breaker {
      if state == OPEN && TimeoutExpired(now) then this.(state := HALF_OPEN) else this
    }

    function AfterSuccess(): Breaker {
      var counted := this.(successes := Wrap32(successes + 1));
      if state == HALF_OPEN then counted.(state := CLOSED, failures := 0) else counted
    }

    function AfterFailure(now: int): Breaker {
      var counted := this.(failures := Wrap32(failures + 1), lastFailure := now);
      if (state == CLOSED && counted.failures >= threshold) || state == HALF_OPEN then counted.(state := OPEN)
      else counted
    }
  }

  /** The time point before any failure is the epoch of the clock. */
  function Fresh(threshold: int, timeout: int): Breaker {
    Breaker(threshold, timeout, CLOSED, 0, 0, 0)
  }

  class CircuitBreaker {
    const threshold: int
    const timeout: int
    var state: State
    var failureCount: int
    var successCount: int
    var lastFailureTime: int

    constructor (threshold: int, timeout: int)
      ensures View() == Fresh(threshold, timeout)
    {
      this.threshold := threshold;
      this.timeout := timeout;
      state, failureCount, successCount, lastFailureTime := CLOSED, 0, 0, 0;
    }

    function View(): Breaker
      reads this
    {
      Breaker(threshold, timeout, state, failureCount, successCount, lastFailureTime)
    }

    method AllowRequest(now: int) returns (allowed: bool)
      modifies this
      ensures allowed == old(View()).Allows(now) && View() == old(View()).AfterAllow(now)
    {
      match state
      case CLOSED => return true;
      case OPEN =>
        if ToMillis(now - lastFailureTime) >= timeout {
          state := HALF_OPEN;
          return true;
        }
        return false;
      case HALF_OPEN => return true;
    }

    method RecordSuccess()
      modifies this
      ensures View() == old(View()).AfterSuccess()
    {
      successCount := Wrap32(successCount + 1);
      if state == HALF_OPEN {
        state := CLOSED;
        failureCount := 0;
      }
    }

    method RecordFailure(now: int)
      modifies this
      ensures View() == old(View()).AfterFailure(now)
    {
      failureCount := Wrap32(failureCount + 1);
      lastFailureTime := now;
      if state == CLOSED && failureCount >= threshold {
        state := OPEN;
      } else if state == HALF_OPEN {
        state := OPEN;
      }
    }
  }
}
