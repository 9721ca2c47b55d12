/**
 * Time as the session registry sees it. An instant is a number of
 * nanoseconds counted from Go's zero `time.Time`, so the instant 0 is the
 * zero time that `IsZero` recognises; `now` and a validity period in whole
 * seconds are passed in by the caller.
 */
module Expiry {

  const NanosPerSecond: int := 1_000_000_000

  /** `Validity` as `init` sets it: one hour, in seconds. */
  const DefaultValidity: int := 60 * 60

  /** `int(d.Seconds())`: a duration in nanoseconds as whole seconds, truncated toward zero. */
  function WholeSeconds(d: int): (r: int)
    ensures 0 <= d ==> 0 <= r && r * NanosPerSecond <= d < (r + 1) * NanosPerSecond
    ensures d < 0 ==> r <= 0 && (r - 1) * NanosPerSecond < d <= r * NanosPerSecond
  {
    if d >= 0 then d / NanosPerSecond else -((-d) / NanosPerSecond)
  }

  lemma WholeSecondsMonotone(d1: int, d2: int)
    requires d1 <= d2
    ensures WholeSeconds(d1) <= WholeSeconds(d2)
  {
  }

  /**
   * A session last touched at `t` is still valid at `now` when `t` is not the
   * zero time and its idle time, in whole seconds, is below `validity`.
   */
  predicate Live(t: nat, now: nat, validity: int): (r: bool)
    ensures t == 0 ==> !r
    ensures t != 0 && t <= now ==> (r <==> now - t < validity * NanosPerSecond)
    ensures t != 0 && now < t && 0 < validity ==> r
  {
    t != 0 && WholeSeconds(now - t) < validity
  }

  /** Under the validity `init` sets, a session stays valid for less than an hour of idle time. */
  lemma LiveForAnHour(t: nat, now: nat)
    requires 0 < t <= now
    ensures Live(t, now, DefaultValidity) <==> now - t < 3600 * NanosPerSecond
  {
  }

  /** A session touched no earlier than a valid one is valid too. */
  lemma LiveMonotone(t1: nat, t2: nat, now: nat, validity: int)
    requires t1 <= t2 && Live(t1, now, validity)
    ensures Live(t2, now, validity)
  {
    WholeSecondsMonotone(now - t2, now - t1);
  }
}
