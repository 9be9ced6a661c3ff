/** `group_continuous_frames`: one pass over the bright timestamps that
    collapses frames separated by at most `max_gap` into one event. */
module EventGrouper {
  import opened Intervals

  /** The tolerance of line 134: one and a half nominal frame periods. The
      source divides without checking the frame rate, so a positive rate is
      demanded of the caller. */
  function MaxGap(framerate: real): (gap: real)
    requires framerate > 0.0
    ensures gap > 0.0 && gap * framerate == 1.5
  {
    1.5 / framerate
  }

  /** Position `i` opens a new event: its distance from the previous
      timestamp exceeds the tolerance. */
  predicate IsBreak(ts: seq<real>, i: int, gap: real)
    requires 0 < i < |ts|
  {
    ts[i] - ts[i - 1] > gap
  }

  /** The event list the loop builds, defined one timestamp at a time exactly
      as the loop sees them: the new timestamp either extends the last event or
      closes it and opens a degenerate event of its own. */
  function Group(ts: seq<real>, gap: real): (events: seq<Span>)
    ensures |events| <= |ts|
    ensures (events == []) <==> (ts == [])
    ensures ts != [] ==> events[0].start == ts[0] && events[|events| - 1].end == ts[|ts| - 1]
  {
    if |ts| == 0 then []
    else if |ts| == 1 then [Span(ts[0], ts[0])]
    else
      var prev := Group(ts[..|ts| - 1], gap);
      var t := ts[|ts| - 1];
      if t - ts[|ts| - 2] <= gap then prev[..|prev| - 1] + [Span(prev[|prev| - 1].start, t)]
      else prev + [Span(t, t)]
  }

  /** The number of positions that open a new event. */
  function BreakCount(ts: seq<real>, gap: real): nat
  {
    if |ts| <= 1 then 0
    else BreakCount(ts[..|ts| - 1], gap) + (if IsBreak(ts, |ts| - 1, gap) then 1 else 0)
  }

  /** The index of the event that timestamp `i` belongs to: the number of
      breaks at positions 1..i. */
  function EventOf(ts: seq<real>, gap: real, i: int): nat
    requires 0 <= i < |ts|
  {
    if i == 0 then 0 else EventOf(ts, gap, i - 1) + (if IsBreak(ts, i, gap) then 1 else 0)
  }

  /** Event indices depend only on the timestamps up to `i`. */
  lemma {:induction false} EventOfPrefix(ts: seq<real>, gap: real, n: int, i: int)
    requires 0 <= i < n <= |ts|
    ensures EventOf(ts[..n], gap, i) == EventOf(ts, gap, i)
  {
    if i > 0 {
      EventOfPrefix(ts, gap, n, i - 1);
      assert ts[..n][i] == ts[i] && ts[..n][i - 1] == ts[i - 1];
    }
  }

  /** The last timestamp belongs to the event numbered by all breaks. */
  lemma {:induction false} EventOfLast(ts: seq<real>, gap: real)
    requires ts != []
    ensures EventOf(ts, gap, |ts| - 1) == BreakCount(ts, gap)
  {
    var n := |ts|;
    if n > 1 {
      var p := ts[..n - 1];
      EventOfLast(p, gap);
      EventOfPrefix(ts, gap, n - 1, n - 2);
    }
  }

  /** Event indices never decrease along the sequence. */
  lemma {:induction false} EventOfMonotone(ts: seq<real>, gap: real, i: int, j: int)
    requires 0 <= i <= j < |ts|
    ensures EventOf(ts, gap, i) <= EventOf(ts, gap, j)
  {
    if i < j {
      EventOfMonotone(ts, gap, i, j - 1);
    }
  }

  /** Unfolds one step of `Group`: how the last timestamp changes the
      events of the shorter prefix. */
  lemma GroupSnoc(ts: seq<real>, gap: real)
    requires |ts| >= 2
    ensures var g0, t := Group(ts[..|ts| - 1], gap), ts[|ts| - 1];
      && |g0| > 0
      && (!IsBreak(ts, |ts| - 1, gap) ==>
            Group(ts, gap) == g0[..|g0| - 1] + [Span(g0[|g0| - 1].start, t)])
      && (IsBreak(ts, |ts| - 1, gap) ==> Group(ts, gap) == g0 + [Span(t, t)])
  {
    assert ts[..|ts| - 1][|ts| - 2] == ts[|ts| - 2];
  }

  /** One event per break, plus one. */
  lemma {:induction false} GroupCount(ts: seq<real>, gap: real)
    requires ts != []
    ensures |Group(ts, gap)| == BreakCount(ts, gap) + 1
  {
    if |ts| >= 2 {
      GroupCount(ts[..|ts| - 1], gap);
      GroupSnoc(ts, gap);
    }
  }

  /** Appending a timestamp touches only the last event: earlier events are
      unchanged, and the last one keeps its start when it is extended. */
  lemma SnocKeepsEarlier(g0: seq<Span>, g: seq<Span>, t: real, e: int)
    requires 0 <= e < |g0|
    requires g == g0 + [Span(t, t)] || g == g0[..|g0| - 1] + [Span(g0[|g0| - 1].start, t)]
    ensures e < |g| && g[e].start == g0[e].start
    ensures g[e].end == g0[e].end || g[e].end == t
    ensures e < |g0| - 1 || g == g0 + [Span(t, t)] ==> g[e] == g0[e]
  {
  }

  /** `SnocKeepsEarlier` for the events of a prefix and of the whole input. */
  lemma EarlierEvent(ts: seq<real>, gap: real, e: int)
    requires |ts| >= 2 && 0 <= e < |Group(ts[..|ts| - 1], gap)|
    ensures e < |Group(ts, gap)|
    ensures Group(ts, gap)[e].start == Group(ts[..|ts| - 1], gap)[e].start
    ensures Group(ts, gap)[e].end == Group(ts[..|ts| - 1], gap)[e].end || Group(ts, gap)[e].end == ts[|ts| - 1]
    ensures e < |Group(ts[..|ts| - 1], gap)| - 1 || IsBreak(ts, |ts| - 1, gap) ==>
      Group(ts, gap)[e] == Group(ts[..|ts| - 1], gap)[e]
  {
    GroupSnoc(ts, gap);
    SnocKeepsEarlier(Group(ts[..|ts| - 1], gap), Group(ts, gap), ts[|ts| - 1], e);
  }

  /** The event of timestamp `i` in the whole input, seen from the prefix
      without the last timestamp: same start, and the same end unless it is
      the last event of the prefix and the last timestamp extends it. */
  lemma FromPrefix(ts: seq<real>, gap: real, i: int)
    requires 0 <= i < |ts| - 1
    requires EventOf(ts[..|ts| - 1], gap, i) < |Group(ts[..|ts| - 1], gap)|
    ensures EventOf(ts, gap, i) < |Group(ts, gap)|
    ensures var p, e := ts[..|ts| - 1], EventOf(ts[..|ts| - 1], gap, i);
      && Group(ts, gap)[EventOf(ts, gap, i)].start == Group(p, gap)[e].start
      && (Group(ts, gap)[EventOf(ts, gap, i)].end == Group(p, gap)[e].end
          || Group(ts, gap)[EventOf(ts, gap, i)].end == ts[|ts| - 1])
      && (e < |Group(p, gap)| - 1 || IsBreak(ts, |ts| - 1, gap) ==>
          Group(ts, gap)[EventOf(ts, gap, i)].end == Group(p, gap)[e].end)
  {
    EventOfPrefix(ts, gap, |ts| - 1, i);
    EarlierEvent(ts, gap, EventOf(ts[..|ts| - 1], gap, i));
  }

  /** The last timestamp belongs to the last event, which ends there. */
  lemma LastEvent(ts: seq<real>, gap: real)
    requires ts != []
    ensures EventOf(ts, gap, |ts| - 1) == |Group(ts, gap)| - 1
    ensures Group(ts, gap)[|Group(ts, gap)| - 1].end == ts[|ts| - 1]
  {
    EventOfLast(ts, gap);
    GroupCount(ts, gap);
  }

  lemma EventOfBound(ts: seq<real>, gap: real, i: int)
    requires 0 <= i < |ts|
    ensures EventOf(ts, gap, i) <= BreakCount(ts, gap) < |Group(ts, gap)|
  {
    EventOfMonotone(ts, gap, i, |ts| - 1);
    EventOfLast(ts, gap);
    GroupCount(ts, gap);
  }

  /** An event starts at the first timestamp after a break, or at the very
      first timestamp. */
  lemma {:induction false} GroupStart(ts: seq<real>, gap: real, i: int)
    requires 0 <= i < |ts| && (i == 0 || IsBreak(ts, i, gap))
    ensures EventOf(ts, gap, i) < |Group(ts, gap)|
    ensures Group(ts, gap)[EventOf(ts, gap, i)].start == ts[i]
  {
    var n := |ts|;
    if n == 1 {
      assert Group(ts, gap) == [Span(ts[0], ts[0])];
    } else if i == n - 1 {
      LastEvent(ts, gap);
      GroupSnoc(ts, gap);
      assert Group(ts, gap)[|Group(ts, gap)| - 1] == Span(ts[i], ts[i]);
    } else {
      var p := ts[..n - 1];
      assert p[i] == ts[i];
      assert i == 0 || IsBreak(p, i, gap);
      GroupStart(p, gap, i);
      FromPrefix(ts, gap, i);
    }
  }

  /** An event ends at the last timestamp before a break, or at the very
      last timestamp. */
  lemma {:induction false} GroupEnd(ts: seq<real>, gap: real, i: int)
    requires 0 <= i < |ts| && (i == |ts| - 1 || IsBreak(ts, i + 1, gap))
    ensures EventOf(ts, gap, i) < |Group(ts, gap)|
    ensures Group(ts, gap)[EventOf(ts, gap, i)].end == ts[i]
  {
    var n := |ts|;
    if i == n - 1 {
      LastEvent(ts, gap);
    } else if i == n - 2 {
      EndBeforeLastBreak(ts, gap);
    } else {
      var p := ts[..n - 1];
      assert p[i] == ts[i];
      assert IsBreak(p, i + 1, gap);
      GroupEnd(p, gap, i);
      EventOfBound(p, gap, i + 1);
      assert EventOf(p, gap, i + 1) == EventOf(p, gap, i) + 1;
      FromPrefix(ts, gap, i);
    }
  }

  /** A break before the last timestamp closes the event of the one before. */
  lemma EndBeforeLastBreak(ts: seq<real>, gap: real)
    requires |ts| >= 2 && IsBreak(ts, |ts| - 1, gap)
    ensures EventOf(ts, gap, |ts| - 2) < |Group(ts, gap)|
    ensures Group(ts, gap)[EventOf(ts, gap, |ts| - 2)].end == ts[|ts| - 2]
  {
    var p := ts[..|ts| - 1];
    assert p[|ts| - 2] == ts[|ts| - 2];
    LastEvent(p, gap);
    FromPrefix(ts, gap, |ts| - 2);
  }

  /** Neighbours within the tolerance belong to the same event; a larger gap
      moves on to the next event, which starts at that timestamp. */
  lemma SameOrNextEvent(ts: seq<real>, gap: real, i: int)
    requires 0 < i < |ts|
    ensures ts[i] - ts[i - 1] <= gap ==> EventOf(ts, gap, i) == EventOf(ts, gap, i - 1)
    ensures ts[i] - ts[i - 1] > gap ==>
      && EventOf(ts, gap, i) == EventOf(ts, gap, i - 1) + 1
      && EventOf(ts, gap, i) < |Group(ts, gap)|
      && Group(ts, gap)[EventOf(ts, gap, i)].start == ts[i]
  {
    if IsBreak(ts, i, gap) {
      GroupStart(ts, gap, i);
    }
  }

  /** The grouping, characterised independently of the loop: there is one
      event per break plus one, timestamp `i` belongs to event `EventOf(i)`,
      an event starts at the first timestamp after a break (or at the very
      first) and ends at the last timestamp before a break (or at the very
      last). With `SameOrNextEvent` these determine the event list. */
  lemma GroupCharacterized(ts: seq<real>, gap: real)
    ensures ts != [] ==> |Group(ts, gap)| == BreakCount(ts, gap) + 1
    ensures forall i :: 0 <= i < |ts| ==> EventOf(ts, gap, i) < |Group(ts, gap)|
    ensures forall i :: 0 <= i < |ts| && (i == 0 || IsBreak(ts, i, gap)) ==>
      Group(ts, gap)[EventOf(ts, gap, i)].start == ts[i]
    ensures forall i :: 0 <= i < |ts| && (i == |ts| - 1 || IsBreak(ts, i + 1, gap)) ==>
      Group(ts, gap)[EventOf(ts, gap, i)].end == ts[i]
  {
    if ts != [] { GroupCount(ts, gap); }
    forall i | 0 <= i < |ts| ensures EventOf(ts, gap, i) < |Group(ts, gap)| {
      EventOfBound(ts, gap, i);
    }
    forall i | 0 <= i < |ts| && (i == 0 || IsBreak(ts, i, gap))
      ensures Group(ts, gap)[EventOf(ts, gap, i)].start == ts[i]
    {
      GroupStart(ts, gap, i);
    }
    forall i | 0 <= i < |ts| && (i == |ts| - 1 || IsBreak(ts, i + 1, gap))
      ensures Group(ts, gap)[EventOf(ts, gap, i)].end == ts[i]
    {
      GroupEnd(ts, gap, i);
    }
  }

  /** Every event endpoint is one of the input timestamps. */
  lemma {:induction false} GroupEndpointsFromInput(ts: seq<real>, gap: real)
    ensures forall k :: 0 <= k < |Group(ts, gap)| ==>
      Group(ts, gap)[k].start in ts && Group(ts, gap)[k].end in ts
  {
    var n := |ts|;
    if n > 1 {
      var p := ts[..n - 1];
      GroupEndpointsFromInput(p, gap);
      GroupSnoc(ts, gap);
      forall x | x in p ensures x in ts {
        var j :| 0 <= j < |p| && p[j] == x;
        assert ts[j] == x;
      }
    }
  }

  /** For ascending input every event is a well-formed window. */
  lemma {:induction false} GroupWellFormed(ts: seq<real>, gap: real)
    requires Ascending(ts)
    ensures AllWellFormed(Group(ts, gap))
  {
    var n := |ts|;
    if n > 1 {
      var p := ts[..n - 1];
      assert Ascending(p);
      GroupWellFormed(p, gap);
      GroupSnoc(ts, gap);
      assert ts[n - 2] <= ts[n - 1];
    }
  }

  /** Consecutive events are separated by more than the tolerance. */
  lemma {:induction false} GroupSeparated(ts: seq<real>, gap: real)
    ensures forall k :: 0 <= k < |Group(ts, gap)| - 1 ==>
      Group(ts, gap)[k + 1].start - Group(ts, gap)[k].end > gap
  {
    var n := |ts|;
    if n > 1 {
      var p := ts[..n - 1];
      GroupSeparated(p, gap);
      GroupSnoc(ts, gap);
      assert p[n - 2] == ts[n - 2];
    }
  }

  /** For ascending input each timestamp lies inside the event it belongs to. */
  lemma {:induction false} GroupCovers(ts: seq<real>, gap: real, i: int)
    requires Ascending(ts) && 0 <= i < |ts|
    ensures EventOf(ts, gap, i) < |Group(ts, gap)|
    ensures Contains(Group(ts, gap)[EventOf(ts, gap, i)], ts[i])
  {
    var n := |ts|;
    if i == n - 1 {
      EventOfLast(ts, gap);
      GroupCount(ts, gap);
      GroupWellFormed(ts, gap);
    } else {
      var p := ts[..n - 1];
      assert Ascending(p) && p[i] == ts[i];
      GroupCovers(p, gap, i);
      FromPrefix(ts, gap, i);
      assert ts[i] <= ts[n - 1];
    }
  }

  /** One iteration of the loop at lines 140-148: the closed events and the
      open one, extended by the next timestamp, are the events of one more
      timestamp. */
  lemma GroupStep(ts: seq<real>, gap: real, i: int, closed: seq<Span>, start: real, end: real)
    requires 1 <= i < |ts|
    requires closed + [Span(start, end)] == Group(ts[..i], gap)
    ensures ts[i] - ts[i - 1] <= gap ==> closed + [Span(start, ts[i])] == Group(ts[..i + 1], gap)
    ensures ts[i] - ts[i - 1] > gap ==> (closed + [Span(start, end)]) + [Span(ts[i], ts[i])] == Group(ts[..i + 1], gap)
  {
    var q := ts[..i + 1];
    assert q[..i] == ts[..i];
    assert q[i] == ts[i] && q[i - 1] == ts[i - 1];
    var prev := closed + [Span(start, end)];
    assert prev[..|prev| - 1] == closed;
  }

  /** The loop at lines 129-151. */
  method GroupContinuousFrames(ts: seq<real>, framerate: real) returns (groups: seq<Span>)
    requires framerate > 0.0
    ensures groups == Group(ts, MaxGap(framerate))
    ensures (groups == []) <==> (ts == [])
    ensures ts != [] ==> |groups| == BreakCount(ts, MaxGap(framerate)) + 1
  {
    if |ts| == 0 {
      return [];
    }
    var maxGap := 1.5 / framerate;
    groups := [];
    var currentStart, currentEnd := ts[0], ts[0];
    for i := 1 to |ts|
      invariant groups + [Span(currentStart, currentEnd)] == Group(ts[..i], maxGap)
    {
      GroupStep(ts, maxGap, i, groups, currentStart, currentEnd);
      if ts[i] - ts[i - 1] <= maxGap {
        currentEnd := ts[i];
      } else {
        groups := groups + [Span(currentStart, currentEnd)];
        currentStart, currentEnd := ts[i], ts[i];
      }
    }
    groups := groups + [Span(currentStart, currentEnd)];
    assert ts[..|ts|] == ts;
    GroupCount(ts, maxGap);
  }
}
