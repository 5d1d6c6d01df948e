/** The interval until the next poll of a device. */
module PollingBackoff {

  const BASE_INTERVAL_SECONDS: int := 60
  const MAX_INTERVAL_SECONDS: int := 3600
  const BACKOFF_MULTIPLIER: int := 2

  function Power(b: int, e: nat): int {
    if e == 0 then 1 else b * Power(b, e - 1)
  }

  function NextPollInterval(failures: int): int {
    if failures <= 0 then BASE_INTERVAL_SECONDS
    else
      var interval := BASE_INTERVAL_SECONDS * Power(BACKOFF_MULTIPLIER, failures);
      if interval <= MAX_INTERVAL_SECONDS then interval else MAX_INTERVAL_SECONDS
  }

  lemma {:induction false} PowerGrows(d: nat, e: nat)
    requires d <= e
    ensures 1 <= Power(2, d) <= Power(2, e)
  {
    if d < e {
      PowerGrows(d, e - 1);
    } else if d > 0 {
      PowerGrows(d - 1, d - 1);
    }
  }

  /** The interval stays within the base and the ceiling, never shrinks with more failures, doubles with
      every failure until it would pass the ceiling, and is at the ceiling from the sixth failure on. */
  lemma BackoffShape(k: nat, more: nat)
    requires k <= more
    ensures 60 <= NextPollInterval(k) <= NextPollInterval(more) <= 3600
    ensures forall none: int :: none <= 0 ==> NextPollInterval(none) == 60
    ensures k < 5 ==> NextPollInterval(k + 1) == 2 * NextPollInterval(k)
    ensures NextPollInterval(k) == 3600 <==> k >= 6
  {
    PowerGrows(k, more);
    PowerGrows(0, k);
    assert Power(2, 5) == 2 * Power(2, 4) && Power(2, 4) == 2 * Power(2, 3);
    assert Power(2, 3) == 8 && Power(2, 6) == 64;
    if k >= 6 {
      PowerGrows(6, k);
    } else {
      PowerGrows(k, 5);
    }
    if more >= 6 {
      PowerGrows(6, more);
    }
  }
}
