/**
 * Time as the widgets see it: `Instant`s are millisecond readings of a
 * clock the caller passes in.
 */
module Clock {
  /** `Instant::elapsed` / `Instant::duration_since`: saturates at zero when `now` reads earlier than `since`. */
  function Elapsed(since: nat, now: nat): (d: nat)
    ensures now >= since ==> since + d == now
    ensures now < since ==> d == 0
  {
    if now >= since then now - since else 0
  }
}
