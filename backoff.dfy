/** `calculate_backoff`: the delay, in whole seconds, before the next
    archive health check, growing exponentially with the attempt number and
    capped. All arithmetic is on unsigned 64-bit integers that saturate. */
module Backoff {

  const U64Max: nat := 0xFFFF_FFFF_FFFF_FFFF

  type u64 = x: nat | x <= U64Max
  type u32 = x: nat | x <= 0xFFFF_FFFF

  datatype Option<T> = None | Some(value: T)

  const DefaultBaseDelaySecs: u64 := 15
  const DefaultMaxDelaySecs: u64 := 300

  /** The exponent is clamped here, before any multiplication. */
  const MaxExponent: u32 := 5

  function Pow(b: nat, e: nat): nat {
    if e == 0 then 1 else b * Pow(b, e - 1)
  }

  function Min(a: nat, b: nat): nat {
    if a <= b then a else b
  }

  /** `u64::saturating_mul`: the product, or `u64::MAX` when it overflows. */
  function SaturatingMul(a: u64, b: u64): (r: u64)
    ensures r <= a * b
    ensures a * b <= U64Max ==> r == a * b
    ensures a * b > U64Max ==> r == U64Max
  {
    Min(a * b, U64Max)
  }

  /** `u64::saturating_pow`. */
  function SaturatingPow(b: u64, e: u32): u64 {
    Min(Pow(b, e), U64Max)
  }

  function GetOr(o: Option<u64>, default: u64): u64 {
    match o
    case Some(v) => v
    case None => default
  }

  /** The uncapped delay `base * 2^min(attempt, 5)`, saturating. */
  function Uncapped(attempt: u32, base: u64): u64 {
    SaturatingMul(base, SaturatingPow(2, Min(attempt, MaxExponent)))
  }

  /** `calculate_backoff(attempt, base_delay_secs, max_delay_secs)`. */
  function CalculateBackoff(attempt: u32, baseDelaySecs: Option<u64>, maxDelaySecs: Option<u64>): (r: u64)
    ensures var max := GetOr(maxDelaySecs, DefaultMaxDelaySecs);
      var product := GetOr(baseDelaySecs, DefaultBaseDelaySecs) * Pow(2, Min(attempt, MaxExponent));
      r <= max && r <= product && (r == product || r == max)
  {
    var base := GetOr(baseDelaySecs, DefaultBaseDelaySecs);
    var max := GetOr(maxDelaySecs, DefaultMaxDelaySecs);
    var delaySecs := Uncapped(attempt, base);
    PowTwoSmall(Min(attempt, MaxExponent));
    Min(delaySecs, max)
  }

  lemma {:induction false} PowTwoSmall(e: nat)
    requires e <= 5
    ensures 1 <= Pow(2, e) <= 32
  {
    if e > 0 {
      PowTwoSmall(e - 1);
    }
  }

  lemma {:induction false} PowMonotone(b: nat, e1: nat, e2: nat)
    requires b >= 1 && e1 <= e2
    ensures Pow(b, e1) <= Pow(b, e2)
    decreases e2
  {
    if e1 < e2 {
      PowMonotone(b, e1, e2 - 1);
      assert Pow(b, e2) == b * Pow(b, e2 - 1);
    }
  }

  lemma MulMonotone(a: nat, x: nat, y: nat)
    requires x <= y
    ensures a * x <= a * y
  {
  }

  /** A later attempt never waits less: the delay is non-decreasing in the
      attempt number, for any base and cap. */
  lemma BackoffMonotone(a1: u32, a2: u32, base: Option<u64>, max: Option<u64>)
    requires a1 <= a2
    ensures CalculateBackoff(a1, base, max) <= CalculateBackoff(a2, base, max)
  {
    var b := GetOr(base, DefaultBaseDelaySecs);
    var e1, e2 := Min(a1, MaxExponent), Min(a2, MaxExponent);
    PowTwoSmall(e1);
    PowTwoSmall(e2);
    PowMonotone(2, e1, e2);
    MulMonotone(b, Pow(2, e1), Pow(2, e2));
  }

  /** From attempt 5 on the delay no longer changes. */
  lemma BackoffConstantFromFive(attempt: u32, base: Option<u64>, max: Option<u64>)
    requires attempt >= 5
    ensures CalculateBackoff(attempt, base, max) == CalculateBackoff(5, base, max)
  {
  }

  /** Below the exponent clamp each attempt doubles the previous delay,
      up to the cap. */
  lemma BackoffDoubles(attempt: u32, base: Option<u64>, max: Option<u64>)
    requires attempt < 5
    ensures CalculateBackoff(attempt + 1, base, max)
         == Min(2 * CalculateBackoff(attempt, base, max), GetOr(max, DefaultMaxDelaySecs))
  {
    var b := GetOr(base, DefaultBaseDelaySecs);
    PowTwoSmall(attempt);
    assert Pow(2, attempt + 1) == 2 * Pow(2, attempt);
    assert b * Pow(2, attempt + 1) == 2 * (b * Pow(2, attempt));
  }

  /** When the base is large enough for 32 times the base to reach the cap,
      the cap is reached exactly at attempt 5 and held from then on. */
  lemma BackoffReachesCap(attempt: u32, base: u64, max: u64)
    requires attempt >= 5 && base * 32 >= max
    ensures CalculateBackoff(attempt, Some(base), Some(max)) == max
  {
    PowTwoSmall(5);
    assert Pow(2, 5) == 32;
  }

  /** The default schedule: 15, 30, 60, 120, 240, then 300 seconds. */
  lemma DefaultSchedule()
    ensures CalculateBackoff(0, None, None) == 15
    ensures CalculateBackoff(1, None, None) == 30
    ensures CalculateBackoff(2, None, None) == 60
    ensures CalculateBackoff(3, None, None) == 120
    ensures CalculateBackoff(4, None, None) == 240
    ensures CalculateBackoff(5, None, None) == 300
    ensures CalculateBackoff(10, None, None) == 300
  {
    assert Pow(2, 5) == 32;
  }
}
