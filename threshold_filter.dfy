/** The brightness filter of `detect_bright_frames`: from the per-line readings
    of the frame analysis, keep the timestamps of frames brighter than the
    threshold. */
module ThresholdFilter {
  import opened Intervals

  datatype Option<T> = None | Some(value: T)

  /** One parsed analysis line: the frame's presentation time and its average
      luma. A line is assumed to parse whenever the pattern matches it; the
      abort on matched text that is not a number is not modelled. */
  datatype Reading = Reading(timestamp: real, brightness: real)

  /** A line counts when the pattern matched it and its brightness is strictly
      above the threshold; equality does not count. */
  predicate IsBright(line: Option<Reading>, threshold: real) {
    line.Some? && line.value.brightness > threshold
  }

  /** The list the filter loop builds, defined one line at a time as the loop
      appends. */
  function BrightTimestamps(lines: seq<Option<Reading>>, threshold: real): (ts: seq<real>)
    ensures |ts| <= |lines|
  {
    if |lines| == 0 then []
    else
      var prev := BrightTimestamps(lines[..|lines| - 1], threshold);
      var line := lines[|lines| - 1];
      if IsBright(line, threshold) then prev + [line.value.timestamp] else prev
  }

  /** The positions of the bright lines, in increasing order. */
  function BrightIndices(lines: seq<Option<Reading>>, threshold: real): seq<nat>
  {
    if |lines| == 0 then []
    else
      var prev := BrightIndices(lines[..|lines| - 1], threshold);
      if IsBright(lines[|lines| - 1], threshold) then prev + [|lines| - 1] else prev
  }

  /** The filter keeps exactly the bright lines, each once, in input order:
      `BrightIndices` lists every bright position in increasing order and
      nothing else, and the k-th kept timestamp is the timestamp of the line
      at the k-th bright position. */
  lemma {:induction false} FilterExact(lines: seq<Option<Reading>>, threshold: real)
    ensures |BrightTimestamps(lines, threshold)| == |BrightIndices(lines, threshold)|
    ensures forall k :: 0 <= k < |BrightIndices(lines, threshold)| ==>
      var i := BrightIndices(lines, threshold)[k];
      i < |lines| && IsBright(lines[i], threshold) && BrightTimestamps(lines, threshold)[k] == lines[i].value.timestamp
    ensures forall k, l :: 0 <= k < l < |BrightIndices(lines, threshold)| ==>
      BrightIndices(lines, threshold)[k] < BrightIndices(lines, threshold)[l]
    ensures forall i :: 0 <= i < |lines| && IsBright(lines[i], threshold) ==> i in BrightIndices(lines, threshold)
  {
    if |lines| > 0 {
      var n := |lines| - 1;
      var init := lines[..n];
      FilterExact(init, threshold);
      var ts, idx := BrightTimestamps(lines, threshold), BrightIndices(lines, threshold);
      var ts0, idx0 := BrightTimestamps(init, threshold), BrightIndices(init, threshold);
      assert idx == if IsBright(lines[n], threshold) then idx0 + [n] else idx0;
      assert ts == if IsBright(lines[n], threshold) then ts0 + [lines[n].value.timestamp] else ts0;
      forall k | 0 <= k < |idx0|
        ensures idx0[k] < n && lines[idx0[k]] == init[idx0[k]]
      {
      }
      forall i | 0 <= i < |lines| && IsBright(lines[i], threshold)
        ensures i in idx
      {
        if i < n {
          assert init[i] == lines[i];
          assert i in idx0;
        }
      }
    }
  }

  /** A line whose brightness equals the threshold, or an unmatched line,
      adds nothing to the result. */
  lemma {:induction false} NonBrightLineIgnored(lines: seq<Option<Reading>>, line: Option<Reading>, threshold: real)
    requires line.None? || line.value.brightness <= threshold
    ensures BrightTimestamps(lines + [line], threshold) == BrightTimestamps(lines, threshold)
  {
    assert (lines + [line])[..|lines|] == lines;
  }

  /** The pattern of line 109 captures only digits and dots, so a matched
      line never carries a negative timestamp. */
  predicate NonNegativeTimes(lines: seq<Option<Reading>>) {
    forall i :: 0 <= i < |lines| && lines[i].Some? ==> lines[i].value.timestamp >= 0.0
  }

  /** The analysis tool reports frames in presentation order. */
  predicate InTimeOrder(lines: seq<Option<Reading>>) {
    forall i, j :: 0 <= i < j < |lines| && lines[i].Some? && lines[j].Some? ==>
      lines[i].value.timestamp <= lines[j].value.timestamp
  }

  /** The filter keeps order and sign: frames in time order give ascending
      bright timestamps, and no kept timestamp is negative. */
  lemma FilterKeepsOrder(lines: seq<Option<Reading>>, threshold: real)
    ensures InTimeOrder(lines) ==> Ascending(BrightTimestamps(lines, threshold))
    ensures NonNegativeTimes(lines) ==> forall k :: 0 <= k < |BrightTimestamps(lines, threshold)| ==>
      BrightTimestamps(lines, threshold)[k] >= 0.0
  {
    FilterExact(lines, threshold);
  }

  /** The loop at lines 111-117: one pass over the analysis lines, appending
      the timestamp of each bright one. */
  method DetectBrightFrames(lines: seq<Option<Reading>>, threshold: real) returns (bright: seq<real>)
    ensures bright == BrightTimestamps(lines, threshold)
    ensures |bright| <= |lines|
    ensures (bright == []) <==> (forall i :: 0 <= i < |lines| ==> !IsBright(lines[i], threshold))
  {
    bright := [];
    for i := 0 to |lines|
      invariant bright == BrightTimestamps(lines[..i], threshold)
    {
      assert lines[..i + 1][..i] == lines[..i];
      var line := lines[i];
      if line.Some? {
        var reading := line.value;
        if reading.brightness > threshold {
          bright := bright + [reading.timestamp];
        }
      }
    }
    assert lines[..|lines|] == lines;
    FilterExact(lines, threshold);
    var idx := BrightIndices(lines, threshold);
    if bright != [] {
      assert 0 < |idx| && IsBright(lines[idx[0]], threshold);
    }
  }
}
