/** Worked runs of the pipeline stages on small inputs: a single strike, two
    strikes far apart, pre-rolls that overlap, a pre-roll clamped at zero,
    windows that only touch, and the strict brightness threshold. */
module Scenarios {
  import opened Intervals
  import opened ThresholdFilter
  import opened EventGrouper
  import opened SegmentBuilder

  lemma OneStrike()
    ensures Group([10.0, 10.04, 10.08], MaxGap(25.0)) == [Span(10.0, 10.08)]
    ensures Build([Span(10.0, 10.08)], 0.5, 1.0) == [Span(9.5, 11.08)]
  {
  }

  lemma TwoStrikes()
    ensures Group([5.0, 5.04, 20.0, 20.04], MaxGap(25.0)) == [Span(5.0, 5.04), Span(20.0, 20.04)]
    ensures Build([Span(5.0, 5.04), Span(20.0, 20.04)], 0.5, 1.0) == [Span(4.5, 6.04), Span(19.5, 21.04)]
  {
  }

  lemma OverlappingRollsMerge()
    ensures Build([Span(1.0, 1.2), Span(3.0, 3.2)], 1.0, 1.0) == [Span(0.0, 4.2)]
  {
  }

  lemma PreRollClampedAtZero()
    ensures Build([Span(0.2, 0.3)], 1.0, 0.0) == [Span(0.0, 0.3)]
  {
  }

  lemma TouchingWindowsJoin()
    ensures Build([Span(1.0, 2.0), Span(3.0, 4.0)], 0.5, 0.5) == [Span(0.5, 4.5)]
  {
  }

  lemma ThresholdIsStrict()
    ensures BrightTimestamps([Some(Reading(1.0, 50.0)), None, Some(Reading(1.04, 50.5))], 50.0) == [1.04]
  {
  }
}
