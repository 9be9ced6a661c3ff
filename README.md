# Lightning trimmer: a verified model of the strike pipeline

The lightning trimmer cuts a long sky video down to the moments with
lightning in them. It measures the average brightness of every frame, keeps
the frames brighter than a threshold, groups bright frames that follow each
other closely into strike events, pads every event with a pre-roll and a
post-roll, merges the padded windows that overlap or touch, and asks the
encoder to keep exactly those windows of both the video and the audio stream.

This project models that pipeline in Dafny and proves what it guarantees:

- `intervals.dfy` (`Intervals`): the time window `Span(start, end)` and the
  predicates used throughout (well-formed, non-negative, containment,
  coverage of a time, ascending timestamps).
- `threshold_filter.dfy` (`ThresholdFilter`): the brightness filter. One
  optional reading per line of the analysis output. A line that does not
  match the pattern is `None`. The filter loop is a method proved equal to a
  recursive specification, and the specification is characterised exactly.
- `event_grouper.dfy` (`EventGrouper`): the grouping of bright timestamps
  into events whenever consecutive frames are at most `1.5 / framerate`
  apart. The loop is a method proved equal to a recursive specification. The
  specification is characterised independently: `EventOf(i)` counts the gaps
  before timestamp `i`, and the number of events is one more than the number
  of gaps.
- `segment_builder.dfy` (`SegmentBuilder`): padding, the stable sort by
  start, and the merge sweep. The sweep is a method proved equal to a
  recursive `Merge`. The result is sorted, strictly separated, covers
  exactly the times the padded windows cover, and is a fixed point of the
  builder.
- `render_driver.dfy` (`RenderDriver`): the `select`/`aselect` filter graph
  text, with number formatting as a parameter.
- `pipeline.dfy` (`Pipeline`): the order in which `main` runs the stages and
  its early exits.
- `scenarios.dfy` (`Scenarios`): worked runs on small inputs.

The brightness threshold, the pre-roll and the post-roll are constants in
the program, 50, 0.5 and 1.0 at lines 19, 22 and 25. Here they are
parameters, collected in `Pipeline.Config` with `Pipeline.Defaults` holding
those values. The frame rate is a parameter. It must be positive, because
line 134 divides by it without a check.

The sort at line 165 keys on the start only, and Python's sort is stable,
so windows with equal starts keep their input order; ties are not broken by
end. `SegmentBuilder.SortByStartStable` states this.

## Model

| member | source | states |
|---|---|---|
| ThresholdFilter.DetectBrightFrames | cross_platform/media_management/lightning_trimmer.py:107-121 | The loop's result is the filter specification. It is empty exactly when no line holds a reading brighter than the threshold. |
| ThresholdFilter.BrightTimestamps | cross_platform/media_management/lightning_trimmer.py:111-117 | The filter never returns more timestamps than there are lines. |
| ThresholdFilter.FilterExact | cross_platform/media_management/lightning_trimmer.py:111-117 | The output is exactly the timestamps of the readings with brightness strictly above the threshold. The k-th output comes from the k-th such line, the source lines strictly increase, and every bright line is represented. |
| ThresholdFilter.NonBrightLineIgnored | cross_platform/media_management/lightning_trimmer.py:113-116 | An unmatched line, or a reading at or below the threshold (equality included), adds nothing to the output. |
| ThresholdFilter.FilterKeepsOrder | cross_platform/media_management/lightning_trimmer.py:109-117 | Readings in time order give ascending bright timestamps. Non-negative timestamps, the only ones the pattern can capture, stay non-negative. |
| EventGrouper.MaxGap | cross_platform/media_management/lightning_trimmer.py:134 | The gap is positive and equals 1.5 frame durations (`gap * framerate == 1.5`). |
| EventGrouper.Group | cross_platform/media_management/lightning_trimmer.py:129-151 | There are no more events than timestamps, and none exactly when there are no timestamps. The first event starts at the first timestamp and the last event ends at the last one. |
| EventGrouper.GroupContinuousFrames | cross_platform/media_management/lightning_trimmer.py:127-153 | The loop's result is the grouping specification. It is empty exactly on empty input. Otherwise it holds one event per gap larger than `max_gap`, plus one. |
| EventGrouper.GroupCount | cross_platform/media_management/lightning_trimmer.py:140-151 | On non-empty input the number of events is the number of gaps plus one. |
| EventGrouper.GroupCharacterized | cross_platform/media_management/lightning_trimmer.py:136-151 | Every timestamp has an event index below the event count. A timestamp that opens an event (the first one, or one after a gap) is that event's start. A timestamp that closes one (the last one, or one before a gap) is its end. |
| EventGrouper.SameOrNextEvent | cross_platform/media_management/lightning_trimmer.py:141-148 | Consecutive timestamps within `max_gap` belong to the same event. A larger difference starts the next event, which starts at the later timestamp. |
| EventGrouper.GroupStart | cross_platform/media_management/lightning_trimmer.py:137-147 | A timestamp that opens an event is that event's start. |
| EventGrouper.GroupEnd | cross_platform/media_management/lightning_trimmer.py:143-151 | A timestamp that closes an event is that event's end. |
| EventGrouper.EventOfMonotone | cross_platform/media_management/lightning_trimmer.py:140-148 | Later timestamps never belong to earlier events. |
| EventGrouper.GroupEndpointsFromInput | cross_platform/media_management/lightning_trimmer.py:137-151 | Both endpoints of every event are input timestamps. |
| EventGrouper.GroupWellFormed | cross_platform/media_management/lightning_trimmer.py:137-151 | For ascending input, every event has start no later than end. |
| EventGrouper.GroupSeparated | cross_platform/media_management/lightning_trimmer.py:141-148 | Consecutive events are more than `max_gap` apart. |
| EventGrouper.GroupCovers | cross_platform/media_management/lightning_trimmer.py:136-151 | For ascending input, every timestamp lies inside the event it belongs to. |
| SegmentBuilder.Max | cross_platform/media_management/lightning_trimmer.py:163-174 | The maximum is one of its arguments and no smaller than either. |
| SegmentBuilder.Pad | cross_platform/media_management/lightning_trimmer.py:162-164 | The padded start is never negative. It is either 0 or the event start minus the pre-roll. The padded end is the event end plus the post-roll. A padded event contains the event, and a well-formed event stays well-formed. |
| SegmentBuilder.PadAll | cross_platform/media_management/lightning_trimmer.py:162-164 | Padding gives one window per event, none of them starting before zero. |
| SegmentBuilder.SortByStart | cross_platform/media_management/lightning_trimmer.py:165 | The sort is a permutation of its input. |
| SegmentBuilder.Insert | cross_platform/media_management/lightning_trimmer.py:165 | One insertion step of the sort adds exactly the inserted window. |
| SegmentBuilder.SortByStartSorted | cross_platform/media_management/lightning_trimmer.py:165 | The sort output is ordered by start. |
| SegmentBuilder.InsertStable | cross_platform/media_management/lightning_trimmer.py:165 | An insertion step places the new window after every window with the same start. |
| SegmentBuilder.SortByStartStable | cross_platform/media_management/lightning_trimmer.py:165 | The sort is stable: the windows sharing any one start appear in their input order. |
| SegmentBuilder.SortByStartOfSorted | cross_platform/media_management/lightning_trimmer.py:165 | Input already ordered by start is left unchanged. |
| SegmentBuilder.Merge | cross_platform/media_management/lightning_trimmer.py:167-178 | The merge gives no more segments than windows, and none exactly when there are no windows. |
| SegmentBuilder.MergeSweep | cross_platform/media_management/lightning_trimmer.py:167-178 | The sweep loop computes the merge specification. Its output is empty exactly on empty input, and consecutive segments have strict gaps. |
| SegmentBuilder.MergeSeparated | cross_platform/media_management/lightning_trimmer.py:171-178 | Every segment ends strictly before the next one starts. |
| SegmentBuilder.MergeEndpoints | cross_platform/media_management/lightning_trimmer.py:171-178 | Every merged start is the start of some window, and every merged end is the end of some window. |
| SegmentBuilder.MergeSorted | cross_platform/media_management/lightning_trimmer.py:171-178 | Windows ordered by start give segments ordered by start. |
| SegmentBuilder.MergeWellFormed | cross_platform/media_management/lightning_trimmer.py:171-178 | Well-formed windows give well-formed segments. |
| SegmentBuilder.MergeContains | cross_platform/media_management/lightning_trimmer.py:171-178 | For windows ordered by start, every window lies inside some merged segment. |
| SegmentBuilder.MergeSound | cross_platform/media_management/lightning_trimmer.py:171-178 | A time covered by a merged segment is covered by some window. |
| SegmentBuilder.MergeUnion | cross_platform/media_management/lightning_trimmer.py:165-178 | For windows ordered by start, the merged segments cover exactly the times the windows cover. |
| SegmentBuilder.MergeOfSeparated | cross_platform/media_management/lightning_trimmer.py:171-178 | Merging an already merged list (strict gaps) leaves it unchanged. |
| SegmentBuilder.SeparatedChain | cross_platform/media_management/lightning_trimmer.py:171-178 | In a well-formed separated list, every segment ends before any later segment starts. |
| SegmentBuilder.TouchingWindowsShareSegment | cross_platform/media_management/lightning_trimmer.py:173-174 | Two well-formed windows that overlap or only touch (`next_start == current_end`) end up inside the same merged segment. |
| SegmentBuilder.CoversPermutation | cross_platform/media_management/lightning_trimmer.py:165 | Reordering the windows does not change which times they cover. |
| SegmentBuilder.BuildCorrect | cross_platform/media_management/lightning_trimmer.py:156-181 | The final segments are empty exactly when there are no events, and there are never more segments than events. They are sorted and strictly separated, and none starts before zero. They are well-formed when the events are well-formed and non-negative. |
| SegmentBuilder.BuildCovers | cross_platform/media_management/lightning_trimmer.py:162-178 | Every padded event lies inside some final segment. The final segments cover exactly the times the padded events cover. |
| SegmentBuilder.BuildIdempotent | cross_platform/media_management/lightning_trimmer.py:162-178 | Rebuilding the final segments with zero padding returns them unchanged. |
| SegmentBuilder.Build | cross_platform/media_management/lightning_trimmer.py:156-181 | Padding, sorting and merging as one value give at most one segment per event, and none exactly when there are no events. `SegmentBuilder.BuildCorrect`, `SegmentBuilder.BuildCovers` and `SegmentBuilder.BuildIdempotent` state its order, separation, coverage and fixed point. |
| SegmentBuilder.CalculateAndMergeFinalSegments | cross_platform/media_management/lightning_trimmer.py:156-181 | The method computes the builder specification. Its result is empty exactly when there are no events, has at most one segment per event, and is sorted, strictly separated and non-negative. |
| RenderDriver.Join | cross_platform/media_management/lightning_trimmer.py:188 | `'+'.join` starts with the first part and adds no character but plus signs. `RenderDriver.SplitJoin` proves that splitting at `+` undoes it for plus-free parts. |
| RenderDriver.SelectPredicate | cross_platform/media_management/lightning_trimmer.py:188 | The predicate (the `+`-join of the `Clauses` helper's `between(t,s,e)` clauses) is empty exactly when there are no segments and holds only clause characters and plus signs. `RenderDriver.PredicateClauses` proves it splits back into exactly one clause per segment, in segment order. |
| RenderDriver.FilterGraph | cross_platform/media_management/lightning_trimmer.py:187-190 | With quote-free numbers, the `filter_complex` text quotes exactly two arguments, both the same predicate, as `RenderDriver.BothStreamsSelectSame` also states. |
| RenderDriver.PredicateClauses | cross_platform/media_management/lightning_trimmer.py:187-190 | When no formatted number holds a plus sign, splitting the predicate at `+` gives back exactly one `between(t,s,e)` clause per segment, in segment order. |
| RenderDriver.SplitJoin | cross_platform/media_management/lightning_trimmer.py:188 | Joining plus-free parts with `+` and splitting at `+` are inverse. |
| RenderDriver.PredicateUnquoted | cross_platform/media_management/lightning_trimmer.py:188 | With quote-free numbers, the predicate text holds no single quote, so it cannot end the quoted argument early. |
| RenderDriver.BothStreamsSelectSame | cross_platform/media_management/lightning_trimmer.py:187-190 | The filter graph quotes exactly two texts, and both are the same predicate: the video `select` and the audio `aselect` keep the same windows. |
| RenderDriver.FixedTextUnquoted | cross_platform/media_management/lightning_trimmer.py:188-189 | The fixed parts of the filter graph hold no single quote. |
| RenderDriver.QuotedStep | cross_platform/media_management/lightning_trimmer.py:188-189 | A quoted text whose surroundings hold no quote is read back as it was written. |
| Pipeline.PlanOutcomes | cross_platform/media_management/lightning_trimmer.py:238-255 | A run stops early exactly when no line is bright. The "no clips" exit of lines 246-248 is never taken. A render gets a non-empty, sorted, strictly separated, non-negative segment list with at most one segment per event. The segments are well-formed when the frames arrive in time order with non-negative timestamps (`InTimeOrder` and `NonNegativeTimes`). |
| Pipeline.DefaultsValid | cross_platform/media_management/lightning_trimmer.py:19-25 | `Pipeline.Defaults` holds the shipped threshold 50, pre-roll 0.5 and post-roll 1.0, and these meet the non-negative roll requirement. |
| Pipeline.Plan | cross_platform/media_management/lightning_trimmer.py:238-255 | The outcome of `main`'s stages is never the "no clips" exit, and a render always has segments. `Pipeline.PlanOutcomes` states the rest. |
| Pipeline.Run | cross_platform/media_management/lightning_trimmer.py:238-255 | Running the three stage loops gives the planned outcome, and that outcome is never the "no clips" exit. |
| Scenarios.OneStrike | cross_platform/media_management/lightning_trimmer.py:129-178 | Three frames 40 ms apart at 25 fps form one event [10, 10.08]. With the default rolls this becomes the segment [9.5, 11.08]. |
| Scenarios.TwoStrikes | cross_platform/media_management/lightning_trimmer.py:129-178 | Two bursts 15 s apart form two events and two separate segments. |
| Scenarios.OverlappingRollsMerge | cross_platform/media_management/lightning_trimmer.py:162-178 | With one-second rolls, padded windows [0, 2.2] and [2, 4.2] merge into [0, 4.2]. |
| Scenarios.PreRollClampedAtZero | cross_platform/media_management/lightning_trimmer.py:163 | An event at 0.2 s with a one-second pre-roll starts its segment at 0. |
| Scenarios.TouchingWindowsJoin | cross_platform/media_management/lightning_trimmer.py:173 | Padded windows [0.5, 2.5] and [2.5, 4.5], which only touch, become one segment. |
| Scenarios.ThresholdIsStrict | cross_platform/media_management/lightning_trimmer.py:116 | A reading exactly at the threshold and an unmatched line are both dropped. A reading just above the threshold is kept. |

## Left out

- External processes are not modelled: the dependency check (lines 29-43), the ffprobe frame-rate query and its JSON and rational parsing (65-90), the ffmpeg analysis run (100-105), and the render run with its error and cancel handling (191-228). The frame rate and the analysis output are parameters instead.
- The regular expression and `float()` parsing (lines 109-115) are not modelled. The analysis output is a sequence of optional `(timestamp, brightness)` readings, and a line the pattern does not match is `None`. `NonNegativeTimes` and `InTimeOrder` state what the pattern and the analysis tool guarantee about those readings. The model assumes every matched line parses: the pattern `[\d.]+` also matches text such as `.` or `1.2.3` that `float()` rejects, and the resulting `ValueError` (lines 114-115) ends the run in `main`'s generic handler (lines 263-265) without rendering; that abort is not modelled.
- Floating point is not modelled. Timestamps, the gap `1.5 / framerate` and the padding are exact `real`s, so IEEE-754 rounding is not captured.
- Interactive input (lines 46-62), output file naming (250-253), the platform encoder switch (203-209), the fixed ffmpeg argument lists and all progress printing are I/O or constant data. They are left out.
- Number formatting in the f-strings is the parameter `fmt`. The model does not capture how Python renders a float. `max(0, x)` yields the integer `0`, which prints as `0`. Python prints timestamps of 1e16 s or more with a `+` in the exponent, which `RenderDriver.PredicateClauses` excludes by its `NumbersAvoid` premise.
- RenderDriver.PredicateClauses: proved only for formatted numbers without a `+`, for the reason above.
- Pipeline.Run: returns the segments to render, not the rendered video. The filter graph built from them is `RenderDriver.FilterGraph`.
- The other scripts of the repository (backups, download organising, the daily quote, brew cleanup, audio upmixing) are not part of this model. They are process, network or file-system wrappers.
