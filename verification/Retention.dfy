/** The retention window: days on the command line, a `Duration` in seconds, a cutoff in milliseconds. */
module Retention {
  import opened Basics

  const MS_PER_DAY: int := 86_400_000
  const MAX_DAYS: int := 213_503_982_334

  /** The `u64` seconds handed to `Duration::from_secs`. */
  function Seconds(days: u64): u64 {
    WrapU64(WrapU64((days as int) * 24) as int * 3600)
  }

  /** A duration's milliseconds, a `u128` in the source, cast to `u64`. */
  function Millis(seconds: u64): u64 {
    WrapU64((seconds as int) * 1000)
  }

  /** The time before which both prunes delete, as the `i64` bound into the statement. */
  function Cutoff(now: u64, seconds: u64): int {
    AsI64(SaturatingSub(now, Millis(seconds)))
  }

  /** The window the operator asked for. */
  function Intended(now: u64, days: u64): int {
    Max(0, (now as int) - MS_PER_DAY * (days as int))
  }

  /** The three unchecked multiplications and the cast amount to one reduction modulo 2^64. */
  lemma MillisOfDays(days: u64)
    ensures Millis(Seconds(days)) == WrapU64(MS_PER_DAY * (days as int))
  {
    var d: int := days;
    var a := d * 24 % TWO64;
    var b := a * 3600 % TWO64;
    var ka, kb := d * 24 / TWO64, a * 3600 / TWO64;
    assert b * 1000 == MS_PER_DAY * d - TWO64 * (ka * 3_600_000 + kb * 1000);
    ModShift(MS_PER_DAY * d, ka * 3_600_000 + kb * 1000);
  }

  lemma ModShift(x: int, k: int)
    ensures (x - TWO64 * k) % TWO64 == x % TWO64
  {
    var q, r := x / TWO64, x % TWO64;
    var y := x - TWO64 * k;
    assert y == TWO64 * (q - k) + r;
    var q', r' := y / TWO64, y % TWO64;
    assert TWO64 * (q - k - q') == r' - r;
  }

  /**
   The code meets the window exactly when the millisecond count fits, or the clock is still within the
   wrapped window: beyond `MAX_DAYS` the cast keeps only the remainder modulo 2^64.
   */
  lemma CutoffExactIff(now: u64, days: u64)
    requires now < TWO63
    ensures Cutoff(now, Seconds(days)) == Intended(now, days)
            <==> days <= MAX_DAYS || now <= MS_PER_DAY * (days as int) % TWO64
  {
    MillisOfDays(days);
    var ms := MS_PER_DAY * (days as int);
    if days <= MAX_DAYS {
      assert ms < TWO64;
      assert ms % TWO64 == ms;
    } else {
      assert ms >= TWO64 > now;
    }
  }

  /** One day past the limit, a window of half a billion years becomes nine and a half hours. */
  lemma OneDayTooMany()
    ensures Millis(Seconds(213_503_982_335)) == 34_448_384
    ensures Intended(1_700_000_000_000, 213_503_982_335) == 0
    ensures Cutoff(1_700_000_000_000, Seconds(213_503_982_335)) == 1_699_965_551_616
  {
  }

  /** For a fixed window the cutoff never moves back and never passes the clock. */
  lemma CutoffMonotone(now: u64, later: u64, seconds: u64)
    requires now <= later < TWO63
    ensures 0 <= Cutoff(now, seconds) <= Cutoff(later, seconds)
    ensures Cutoff(now, seconds) <= now
  {
  }
}
