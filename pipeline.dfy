/** The pipeline as `main` drives it (lines 238-255): detect bright frames,
    stop early when there are none, group, build the segments, and hand them
    to the render step. */
module Pipeline {
  import opened Intervals
  import opened ThresholdFilter
  import opened EventGrouper
  import opened SegmentBuilder

  /** The tunables of lines 19, 22 and 25. */
  datatype Config = Config(threshold: real, preRoll: real, postRoll: real)

  const Defaults := Config(50.0, 0.5, 1.0)

  predicate ValidConfig(c: Config) {
    c.preRoll >= 0.0 && c.postRoll >= 0.0
  }

  /** The shipped settings are a valid configuration. */
  lemma DefaultsValid()
    ensures ValidConfig(Defaults)
    ensures Defaults.threshold == 50.0 && Defaults.preRoll == 0.5 && Defaults.postRoll == 1.0
  {
  }

  /** How a run ends: no frame above the threshold (line 240), no clip
      (line 246), or a render of the given segments (line 255). */
  datatype Outcome = NoLightning | NoClips | Render(segments: seq<Span>)

  /** The outcome of a run: it never reaches the "no clips" exit, and a
      render always has segments to keep. */
  function Plan(lines: seq<Option<Reading>>, framerate: real, c: Config): (r: Outcome)
    requires framerate > 0.0 && ValidConfig(c)
    ensures !r.NoClips?
    ensures r.Render? ==> r.segments != []
  {
    var bright := BrightTimestamps(lines, c.threshold);
    if bright == [] then NoLightning
    else
      var segs := Build(Group(bright, MaxGap(framerate)), c.preRoll, c.postRoll);
      if segs == [] then NoClips else Render(segs)
  }

  /** A run stops early exactly when no line is bright; the "no clips"
      branch of lines 246-248 is never taken; a render gets a non-empty,
      ordered, strictly separated list of segments, none starting before zero,
      at most one per event, and well-formed when the frames come in time
      order with non-negative timestamps. */
  lemma PlanOutcomes(lines: seq<Option<Reading>>, framerate: real, c: Config)
    requires framerate > 0.0 && ValidConfig(c)
    ensures Plan(lines, framerate, c).NoLightning? <==>
      forall i :: 0 <= i < |lines| ==> !IsBright(lines[i], c.threshold)
    ensures !Plan(lines, framerate, c).NoClips?
    ensures Plan(lines, framerate, c).Render? ==>
      var bright, segs := BrightTimestamps(lines, c.threshold), Plan(lines, framerate, c).segments;
      && 1 <= |segs| <= BreakCount(bright, MaxGap(framerate)) + 1
      && SortedByStart(segs) && Separated(segs) && NonNegative(segs)
      && (InTimeOrder(lines) && NonNegativeTimes(lines) ==> AllWellFormed(segs))
  {
    var bright := BrightTimestamps(lines, c.threshold);
    FilterExact(lines, c.threshold);
    if bright != [] {
      var idx := BrightIndices(lines, c.threshold);
      assert IsBright(lines[idx[0]], c.threshold);
    }
    if bright != [] {
      var gap := MaxGap(framerate);
      var events := Group(bright, gap);
      GroupCount(bright, gap);
      BuildCorrect(events, c.preRoll, c.postRoll);
      if InTimeOrder(lines) && NonNegativeTimes(lines) {
        FilterKeepsOrder(lines, c.threshold);
        GroupWellFormed(bright, gap);
        GroupEndpointsFromInput(bright, gap);
        forall k | 0 <= k < |events| ensures events[k].start >= 0.0 {
          var j :| 0 <= j < |bright| && bright[j] == events[k].start;
        }
      }
    }
  }

  /** Lines 238-255 with the three stages run as their loops. */
  method Run(lines: seq<Option<Reading>>, framerate: real, c: Config) returns (outcome: Outcome)
    requires framerate > 0.0 && ValidConfig(c)
    ensures outcome == Plan(lines, framerate, c)
    ensures outcome.NoLightning? || outcome.Render?
  {
    var bright := DetectBrightFrames(lines, c.threshold);
    if bright == [] {
      return NoLightning;
    }
    var events := GroupContinuousFrames(bright, framerate);
    var segments := CalculateAndMergeFinalSegments(events, c.preRoll, c.postRoll);
    if segments == [] {
      return NoClips;
    }
    outcome := Render(segments);
  }
}
