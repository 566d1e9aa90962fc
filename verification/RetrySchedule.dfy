/** The retry schedule of e-mail deliveries (apps/api/core/email.py), over exact reals. */
module RetrySchedule {

  function Min(a: real, b: real): real { if a <= b then a else b }
  function Max(a: real, b: real): real { if a >= b then a else b }

  /** `base * 2.0 ** n`. */
  function Doubled(base: real, n: nat): real {
    if n == 0 then base else 2.0 * Doubled(base, n - 1)
  }

  const MAX_EXPONENT: nat := 24

  /** `retry_delay_seconds`. */
  function RetryDelaySeconds(attempt: int, base: real, cap: real): real {
    if attempt <= 0 then Max(0.0, Min(base, cap))
    else Max(0.0, Min(Doubled(base, if attempt <= MAX_EXPONENT then attempt else MAX_EXPONENT), cap))
  }

  /** `next_attempt_at`, in seconds. */
  function NextAttemptAt(attempt: int, base: real, cap: real, now: real): real {
    now + RetryDelaySeconds(attempt, base, cap)
  }

  lemma {:induction false} DoubledMonotone(base: real, m: nat, n: nat)
    requires m <= n
    ensures base >= 0.0 ==> 0.0 <= Doubled(base, m) <= Doubled(base, n)
    ensures base > 0.0 && m < n ==> Doubled(base, m) < Doubled(base, n)
    ensures base <= 0.0 ==> Doubled(base, m) <= 0.0 && Doubled(base, n) <= 0.0
    decreases n
  {
    if n > 0 {
      DoubledMonotone(base, 0, n - 1);
      if m < n { DoubledMonotone(base, m, n - 1); } else { DoubledMonotone(base, m - 1, n - 1); }
    }
  }

  /** The delay is never negative, and within the ceiling exactly if the ceiling is not negative. */
  lemma DelayInRange(attempt: int, base: real, cap: real)
    ensures RetryDelaySeconds(attempt, base, cap) >= 0.0
    ensures RetryDelaySeconds(attempt, base, cap) <= cap <==> cap >= 0.0
  {
  }

  lemma NegativeCeilingExample()
    ensures RetryDelaySeconds(1, 1.0, -1.0) == 0.0 > -1.0
  {
  }

  /** Later attempts never wait less, so successive attempts come due in order. */
  lemma DelayMonotone(earlier: int, later: int, base: real, cap: real)
    requires earlier <= later
    ensures RetryDelaySeconds(earlier, base, cap) <= RetryDelaySeconds(later, base, cap)
    ensures forall now :: NextAttemptAt(earlier, base, cap, now) <= NextAttemptAt(later, base, cap, now)
  {
    var m := if earlier <= 0 then 0 else if earlier <= MAX_EXPONENT then earlier else MAX_EXPONENT;
    var n := if later <= 0 then 0 else if later <= MAX_EXPONENT then later else MAX_EXPONENT;
    DoubledMonotone(base, m, n);
  }

  /** The clamped exponent changes nothing, exactly unless the attempt is beyond it while the delay
      there is positive and still below the ceiling. */
  lemma ClampIsInvisibleExactly(attempt: nat, base: real, cap: real)
    ensures RetryDelaySeconds(attempt, base, cap) == Max(0.0, Min(Doubled(base, attempt), cap))
       <==> attempt <= MAX_EXPONENT || base <= 0.0 || Doubled(base, MAX_EXPONENT) >= cap
  {
    if attempt > MAX_EXPONENT {
      DoubledMonotone(base, MAX_EXPONENT, attempt);
      DoubledMonotone(base, 0, MAX_EXPONENT);
    }
  }

  /** The first attempt beyond the clamp waits half of what it would have. */
  lemma ClampExample()
    ensures var cap := Doubled(1.0, MAX_EXPONENT + 1);
            RetryDelaySeconds(MAX_EXPONENT + 1, 1.0, cap) == Doubled(1.0, MAX_EXPONENT) < cap
  {
    DoubledMonotone(1.0, MAX_EXPONENT, MAX_EXPONENT + 1);
    DoubledMonotone(1.0, 0, MAX_EXPONENT);
  }

  /** An attempt comes due that long after now; the first ones wait the base, up to the ceiling. */
  lemma DueExactly(attempt: int, base: real, cap: real, now: real)
    ensures NextAttemptAt(attempt, base, cap, now) - now == RetryDelaySeconds(attempt, base, cap)
    ensures attempt <= 0 && 0.0 <= base <= cap ==> RetryDelaySeconds(attempt, base, cap) == base
    ensures 0.0 <= cap && Doubled(base, 24) >= cap && attempt >= 24 ==> RetryDelaySeconds(attempt, base, cap) == cap
  {
  }

  /** Below the ceiling every wait is twice the one before it. */
  lemma DelayDoubles(attempt: nat, base: real, cap: real)
    requires attempt < MAX_EXPONENT && base >= 0.0 && Doubled(base, attempt + 1) <= cap
    ensures RetryDelaySeconds(attempt + 1, base, cap) == 2.0 * RetryDelaySeconds(attempt, base, cap)
  {
    DoubledMonotone(base, attempt, attempt + 1);
  }
}
