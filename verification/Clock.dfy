/** Ticks and nanoseconds (kernel/src/arch/x86_64/tsc.rs, lapic_timer.rs). */
module Clock {
  import opened Prelude

  const NANOS: nat := 1_000_000_000

  function Quotient(a: nat, d: nat): (q: nat)
    requires 0 < d
    ensures d * q <= a < d * q + d
  {
    a / d
  }

  /** Whole seconds and the rest are converted apart, so that only the rest needs a 128-bit product. */
  function TicksToNanos(ticks: nat, frequency: nat): Option<nat> {
    if frequency == 0 then None
    else
      var whole: nat := Quotient(ticks, frequency) * NANOS;
      var rest: nat := ticks % frequency;
      var fraction: nat := Quotient(rest * NANOS, frequency) % U64;
      if U64 <= whole || U64 <= whole + fraction then None else Some(whole + fraction)
  }

  /** The converted value is the exact quotient rounded down, and is refused exactly when it does not fit. */
  lemma TicksToNanosIsFloor(ticks: nat, frequency: nat)
    requires 0 < frequency
    ensures var exact := ticks * 1_000_000_000 / frequency;
            TicksToNanos(ticks, frequency) == if exact < U64 then Some(exact) else None
  {
    SplitQuotient(ticks, frequency);
    var rest := ticks % frequency;
    assert Quotient(rest * NANOS, frequency) < NANOS by {
      assert rest * NANOS < frequency * NANOS;
      Smaller(rest * NANOS, frequency, NANOS);
    }
  }

  lemma Smaller(a: nat, d: nat, k: nat)
    requires 0 < d && a < d * k
    ensures Quotient(a, d) < k
  {
    var q := Quotient(a, d);
    assert d * (q - k) < 0;
  }

  lemma SplitQuotient(ticks: nat, frequency: nat)
    requires 0 < frequency
    ensures ticks / frequency * NANOS + ticks % frequency * NANOS / frequency == ticks * NANOS / frequency
  {
    var q, r := ticks / frequency, ticks % frequency;
    var a := r * NANOS;
    assert ticks * NANOS == frequency * (q * NANOS) + a by {
      assert ticks == frequency * q + r;
      assert (frequency * q + r) * NANOS == frequency * (q * NANOS) + r * NANOS;
    }
    AddMultiple(a, frequency, q * NANOS);
  }

  lemma AddMultiple(a: nat, d: nat, k: nat)
    requires 0 < d
    ensures (d * k + a) / d == k + a / d
  {
    FloorUnique(d * k + a, d, k + a / d);
  }

  /** The floor of a quotient is the only number between the bounds. */
  lemma FloorUnique(n: nat, d: nat, q: nat)
    requires 0 < d && d * q <= n < d * q + d
    ensures n / d == q
  {
    var e := n / d - q;
    assert d * e == n - n % d - d * q;
  }

  /** The tick at which a deadline falls due; the product fits in 128 bits, the sum may not fit in 64. */
  function DeadlineToTsc(start: nat, frequency: nat, nanos: nat): Option<nat> {
    var deadline := start + Quotient(nanos * frequency, NANOS);
    if deadline < U64 then Some(deadline) else None
  }

  /** A deadline falls due the whole number of ticks in its nanoseconds after the start, if that is a 64-bit number. */
  lemma DeadlineIs(start: nat, frequency: nat, nanos: nat)
    ensures var exact := start + nanos * frequency / 1_000_000_000;
            DeadlineToTsc(start, frequency, nanos) == if exact < 0x1_0000_0000_0000_0000 then Some(exact) else None
    ensures TicksToNanos(start, 0) == None
  {
  }

  function Ceiling(a: nat, d: nat): (c: nat)
    requires 0 < d
    ensures a <= c * d < a + d
  {
    Quotient(a + d - 1, d)
  }

  lemma Between(m: nat, d: nat, low: int)
    requires 0 < d && low * d <= m
    ensures low <= m / d
  {
    var q := Quotient(m, d);
    assert d * (q + 1 - low) > 0;
  }

  lemma NotLate(m: nat, frequency: nat, nanos: nat)
    requires 0 < frequency && m <= nanos * frequency
    ensures m / frequency <= nanos
  {
    assert nanos * frequency < frequency * (nanos + 1);
    Smaller(m, frequency, nanos + 1);
  }

  lemma NotEarly(m: nat, frequency: nat, nanos: nat, c: nat)
    requires 0 < frequency && nanos * frequency < m + NANOS && NANOS <= c * frequency
    ensures nanos - c <= m / frequency
  {
    assert (nanos - c) * frequency == nanos * frequency - c * frequency;
    Between(m, frequency, nanos - c);
  }

  /**
   * The clock, read at the tick chosen for a deadline, shows at most the deadline and less by no more than the
   * length of a tick rounded up; one tick later it has reached the deadline.
   */
  lemma DeadlineRoundTrip(start: nat, frequency: nat, nanos: nat)
    requires 0 < frequency && nanos < U64 && DeadlineToTsc(start, frequency, nanos).Some?
    ensures var elapsed := DeadlineToTsc(start, frequency, nanos).value - start;
            && TicksToNanos(elapsed, frequency).Some?
            && nanos - Ceiling(NANOS, frequency) <= TicksToNanos(elapsed, frequency).value <= nanos
            && nanos <= (elapsed + 1) * NANOS / frequency
  {
    var k := Quotient(nanos * frequency, NANOS);
    var m := k * NANOS;
    TicksToNanosIsFloor(k, frequency);
    NotLate(m, frequency, nanos);
    NotEarly(m, frequency, nanos, Ceiling(NANOS, frequency));
    Between(m + NANOS, frequency, nanos);
    assert (k + 1) * NANOS == m + NANOS;
  }
}
