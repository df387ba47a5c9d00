/**
 Schedules: the shapes the availability-overlap engine works on.

 A participant's availability is a map from a day name ("Monday", ...) to the list of
 half-open intervals [start, end) during which that participant is free. Bounds are the
 numbers the client stored; the engine only ever compares them.
 */
module Schedules {

  /** One `{start, end}` record of an availability list. */
  datatype Interval = Interval(start: int, end: int)

  type Day = string

  /** One participant's availability, already deserialised. */
  type Schedule = map<Day, seq<Interval>>

  /** `Math.max` on the integer bounds. */
  function Max(a: int, b: int): int
  {
    if a < b then b else a
  }

  /** `Math.min` on the integer bounds. */
  function Min(a: int, b: int): int
  {
    if a < b then a else b
  }

  /** An interval that covers at least one time point. */
  predicate IsProper(iv: Interval)
  {
    iv.start < iv.end
  }

  /** Time point `t` lies in the half-open interval [start, end). */
  predicate Contains(iv: Interval, t: int)
  {
    iv.start <= t < iv.end
  }

  /** Time point `t` is covered by some interval of the list. */
  predicate Covers(ivs: seq<Interval>, t: int)
  {
    exists k :: 0 <= k < |ivs| && Contains(ivs[k], t)
  }

  /** `inner` starts no earlier and ends no later than `outer`. */
  predicate Within(inner: Interval, outer: Interval)
  {
    outer.start <= inner.start && inner.end <= outer.end
  }

  /** Every interval on every day covers at least one time point. */
  predicate WellFormed(s: Schedule)
  {
    forall d, k :: d in s && 0 <= k < |s[d]| ==> IsProper(s[d][k])
  }
}
