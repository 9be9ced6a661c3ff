/** Time windows shared by every stage of the lightning-strike pipeline. */
module Intervals {

  /** A closed window [start, end] of video time, in seconds. The source
      represents it as a Python pair (start, end). */
  datatype Span = Span(start: real, end: real)

  predicate WellFormed(s: Span) {
    s.start <= s.end
  }

  predicate AllWellFormed(ss: seq<Span>) {
    forall k :: 0 <= k < |ss| ==> WellFormed(ss[k])
  }

  /** No window starts before time zero. */
  predicate NonNegative(ss: seq<Span>) {
    forall k :: 0 <= k < |ss| ==> ss[k].start >= 0.0
  }

  /** The closed window `s` contains the instant `t`. */
  predicate Contains(s: Span, t: real) {
    s.start <= t <= s.end
  }

  /** `outer` contains every instant of `inner`. */
  predicate Inside(inner: Span, outer: Span) {
    outer.start <= inner.start && inner.end <= outer.end
  }

  /** Some window of `ss` contains the instant `t`. */
  predicate Covers(ss: seq<Span>, t: real) {
    exists k :: 0 <= k < |ss| && Contains(ss[k], t)
  }

  /** Timestamps in non-decreasing order, as the analysis tool emits them. */
  predicate Ascending(ts: seq<real>) {
    forall i, j :: 0 <= i < j < |ts| ==> ts[i] <= ts[j]
  }
}
