/** `calculate_and_merge_final_segments`: pad every event, sort the padded
    windows by start and sweep them once, merging every window that starts no
    later than the running end. */
module SegmentBuilder {
  import opened Intervals

  /** The larger of two values, as Python's `max` on two numbers. */
  function Max(a: real, b: real): (m: real)
    ensures m >= a && m >= b && (m == a || m == b)
  {
    if a >= b then a else b
  }

  /** Line 163 for one event: pre-roll before, post-roll after, and the start
      clamped at zero. */
  function Pad(e: Span, pre: real, post: real): (s: Span)
    requires pre >= 0.0 && post >= 0.0
    ensures s.start >= 0.0 && s.start >= e.start - pre
    ensures s.start == 0.0 || s.start == e.start - pre
    ensures s.end - e.end == post
    ensures e.start >= 0.0 ==> Inside(e, s)
    ensures WellFormed(e) && e.start >= 0.0 ==> WellFormed(s)
  {
    Span(Max(0.0, e.start - pre), e.end + post)
  }

  /** The list comprehension of lines 162-164. */
  function PadAll(events: seq<Span>, pre: real, post: real): (segs: seq<Span>)
    requires pre >= 0.0 && post >= 0.0
    ensures |segs| == |events|
    ensures NonNegative(segs)
    ensures AllWellFormed(events) && NonNegative(events) ==> AllWellFormed(segs)
  {
    seq(|events|, k requires 0 <= k < |events| => Pad(events[k], pre, post))
  }

  predicate SortedByStart(ss: seq<Span>) {
    forall i, j :: 0 <= i < j < |ss| ==> ss[i].start <= ss[j].start
  }

  /** Places `x` after every window whose start is not larger than its own, so
      that windows with equal starts keep their input order. */
  function Insert(sorted: seq<Span>, x: Span): (r: seq<Span>)
    ensures |r| == |sorted| + 1
    ensures multiset(r) == multiset(sorted) + multiset{x}
  {
    if |sorted| == 0 || sorted[|sorted| - 1].start <= x.start then sorted + [x]
    else
      assert sorted == sorted[..|sorted| - 1] + [sorted[|sorted| - 1]];
      Insert(sorted[..|sorted| - 1], x) + [sorted[|sorted| - 1]]
  }

  /** `segments.sort(key=lambda x: x[0])` at line 165: a stable sort by start,
      written as an insertion sort. */
  function SortByStart(ss: seq<Span>): (r: seq<Span>)
    ensures multiset(r) == multiset(ss)
    ensures |r| == |ss|
  {
    if |ss| == 0 then []
    else
      assert ss == ss[..|ss| - 1] + [ss[|ss| - 1]];
      Insert(SortByStart(ss[..|ss| - 1]), ss[|ss| - 1])
  }

  lemma {:induction false} InsertSorted(s: seq<Span>, x: Span)
    requires SortedByStart(s)
    ensures SortedByStart(Insert(s, x))
  {
    var n := |s|;
    if n > 0 && s[n - 1].start > x.start {
      var init, last := s[..n - 1], s[n - 1];
      InsertSorted(init, x);
      var r0 := Insert(init, x);
      forall i | 0 <= i < |r0| ensures r0[i].start <= last.start {
        assert r0[i] in multiset(r0);
        if r0[i] != x {
          assert r0[i] in multiset(init);
          var j :| 0 <= j < |init| && init[j] == r0[i];
          assert s[j] == r0[i];
        }
      }
    }
  }

  /** The sort's result is ordered by start. */
  lemma {:induction false} SortByStartSorted(ss: seq<Span>)
    ensures SortedByStart(SortByStart(ss))
  {
    if |ss| > 0 {
      SortByStartSorted(ss[..|ss| - 1]);
      InsertSorted(SortByStart(ss[..|ss| - 1]), ss[|ss| - 1]);
    }
  }

  /** The windows of `ss` that start at `t`, in order. */
  function WithStart(ss: seq<Span>, t: real): seq<Span>
  {
    if |ss| == 0 then []
    else WithStart(ss[..|ss| - 1], t) + (if ss[|ss| - 1].start == t then [ss[|ss| - 1]] else [])
  }

  lemma {:induction false} WithStartAppend(a: seq<Span>, b: seq<Span>, t: real)
    ensures WithStart(a + b, t) == WithStart(a, t) + WithStart(b, t)
  {
    if |b| > 0 {
      var bi := b[..|b| - 1];
      assert (a + b)[..|a + b| - 1] == a + bi;
      WithStartAppend(a, bi, t);
    } else {
      assert a + b == a;
    }
  }

  lemma WithStartSingle(x: Span, t: real)
    ensures WithStart([x], t) == if x.start == t then [x] else []
  {
    assert [x][..0] == [];
  }

  lemma {:induction false} InsertStable(s: seq<Span>, x: Span, t: real)
    requires SortedByStart(s)
    ensures WithStart(Insert(s, x), t) == WithStart(s, t) + WithStart([x], t)
  {
    var n := |s|;
    if n == 0 || s[n - 1].start <= x.start {
      assert Insert(s, x) == s + [x];
      WithStartAppend(s, [x], t);
    } else {
      var init, last := s[..n - 1], s[n - 1];
      assert s == init + [last];
      assert Insert(s, x) == Insert(init, x) + [last];
      assert x.start != last.start;
      var wx, wl := WithStart([x], t), WithStart([last], t);
      WithStartSingle(x, t);
      WithStartSingle(last, t);
      calc {
        WithStart(Insert(s, x), t);
        { WithStartAppend(Insert(init, x), [last], t); }
        WithStart(Insert(init, x), t) + wl;
        { InsertStable(init, x, t); }
        WithStart(init, t) + wx + wl;
        WithStart(init, t) + wl + wx;
        { WithStartAppend(init, [last], t); }
        WithStart(s, t) + wx;
      }
    }
  }

  /** The sort is stable: for every start value, the windows with that start
      appear in the same relative order as in the input. */
  lemma {:induction false} SortByStartStable(ss: seq<Span>, t: real)
    ensures WithStart(SortByStart(ss), t) == WithStart(ss, t)
  {
    if |ss| > 0 {
      var init, last := ss[..|ss| - 1], ss[|ss| - 1];
      SortByStartStable(init, t);
      SortByStartSorted(init);
      InsertStable(SortByStart(init), last, t);
      assert SortByStart(ss) == Insert(SortByStart(init), last);
      WithStartSingle(last, t);
    }
  }

  /** Sorting an already ordered list changes nothing. */
  lemma {:induction false} SortByStartOfSorted(ss: seq<Span>)
    requires SortedByStart(ss)
    ensures SortByStart(ss) == ss
  {
    if |ss| > 0 {
      var init, x := ss[..|ss| - 1], ss[|ss| - 1];
      assert SortedByStart(init);
      SortByStartOfSorted(init);
      assert SortByStart(ss) == Insert(init, x);
      assert |init| == 0 || init[|init| - 1].start <= x.start;
      assert ss == init + [x];
    }
  }

  /** The merge sweep of lines 171-178, one window at a time: a window that
      starts no later than the running end is absorbed into it, otherwise it
      opens the next segment. */
  function Merge(ss: seq<Span>): (merged: seq<Span>)
    ensures |merged| <= |ss|
    ensures (merged == []) <==> (ss == [])
  {
    if |ss| == 0 then []
    else if |ss| == 1 then [ss[0]]
    else
      var prev := Merge(ss[..|ss| - 1]);
      var cur, x := prev[|prev| - 1], ss[|ss| - 1];
      if x.start <= cur.end then prev[..|prev| - 1] + [Span(cur.start, Max(cur.end, x.end))]
      else prev + [x]
  }

  lemma MergeSnoc(ss: seq<Span>)
    requires |ss| >= 2
    ensures var m0, x := Merge(ss[..|ss| - 1]), ss[|ss| - 1];
      && |m0| > 0
      && (x.start <= m0[|m0| - 1].end ==>
            Merge(ss) == m0[..|m0| - 1] + [Span(m0[|m0| - 1].start, Max(m0[|m0| - 1].end, x.end))])
      && (x.start > m0[|m0| - 1].end ==> Merge(ss) == m0 + [x])
  {
  }

  /** Consecutive segments leave a strict gap: touching windows never end up
      in different segments. */
  predicate Separated(ss: seq<Span>) {
    forall k :: 0 <= k < |ss| - 1 ==> ss[k].end < ss[k + 1].start
  }

  lemma {:induction false} MergeSeparated(ss: seq<Span>)
    ensures Separated(Merge(ss))
  {
    if |ss| >= 2 {
      MergeSeparated(ss[..|ss| - 1]);
      MergeSnoc(ss);
    }
  }

  /** Every segment starts at the start of some input window and ends at the
      end of some input window. */
  lemma {:induction false} MergeEndpoints(ss: seq<Span>, k: int)
    requires 0 <= k < |Merge(ss)|
    ensures exists j :: 0 <= j < |ss| && ss[j].start == Merge(ss)[k].start
    ensures exists j :: 0 <= j < |ss| && ss[j].end == Merge(ss)[k].end
  {
    var n := |ss|;
    if n >= 2 {
      var init := ss[..n - 1];
      var m0, m := Merge(init), Merge(ss);
      MergeSnoc(ss);
      if k < |m0| {
        MergeEndpoints(init, k);
        var j1 :| 0 <= j1 < |init| && init[j1].start == m0[k].start;
        assert ss[j1] == init[j1];
        var j2 :| 0 <= j2 < |init| && init[j2].end == m0[k].end;
        assert ss[j2] == init[j2];
        if m[k].end != m0[k].end {
          assert m[k].end == ss[n - 1].end;
        }
      }
    }
  }

  /** An ordered input gives ordered segments. */
  lemma {:induction false} MergeSorted(ss: seq<Span>)
    requires SortedByStart(ss)
    ensures SortedByStart(Merge(ss))
  {
    var n := |ss|;
    if n >= 2 {
      var init := ss[..n - 1];
      var m0 := Merge(init);
      MergeSorted(init);
      MergeSnoc(ss);
      forall k | 0 <= k < |m0| ensures m0[k].start <= ss[n - 1].start {
        MergeEndpoints(init, k);
        var j :| 0 <= j < |init| && init[j].start == m0[k].start;
        assert init[j] == ss[j];
      }
    }
  }

  lemma {:induction false} MergeWellFormed(ss: seq<Span>)
    requires AllWellFormed(ss)
    ensures AllWellFormed(Merge(ss))
  {
    if |ss| >= 2 {
      MergeWellFormed(ss[..|ss| - 1]);
      MergeSnoc(ss);
    }
  }

  /** Nothing is lost: for ordered input, every window lies inside some
      segment. */
  lemma {:induction false} MergeContains(ss: seq<Span>, j: int)
    requires SortedByStart(ss) && 0 <= j < |ss|
    ensures exists k :: 0 <= k < |Merge(ss)| && Inside(ss[j], Merge(ss)[k])
  {
    var n := |ss|;
    if n == 1 {
      assert Inside(ss[j], Merge(ss)[0]);
    } else {
      var init := ss[..n - 1];
      var m0, m := Merge(init), Merge(ss);
      var last := |m0| - 1;
      MergeSnoc(ss);
      if j < n - 1 {
        MergeContains(init, j);
        var k :| 0 <= k < |m0| && Inside(init[j], m0[k]);
        assert init[j] == ss[j];
        assert k < |m| && m[k].start == m0[k].start && m[k].end >= m0[k].end;
        assert Inside(ss[j], m[k]);
      } else if ss[j].start <= m0[last].end {
        MergeEndpoints(init, last);
        var i :| 0 <= i < |init| && init[i].start == m0[last].start;
        assert init[i] == ss[i];
        assert Inside(ss[j], m[last]);
      } else {
        assert Inside(ss[j], m[|m| - 1]);
      }
    }
  }

  /** Nothing is invented: every instant of a segment lies in some input window. */
  lemma {:induction false} MergeSound(ss: seq<Span>, t: real)
    requires Covers(Merge(ss), t)
    ensures Covers(ss, t)
  {
    var n := |ss|;
    var m := Merge(ss);
    var k :| 0 <= k < |m| && Contains(m[k], t);
    if n == 1 {
      assert Contains(ss[0], t);
    } else {
      var init := ss[..n - 1];
      var m0 := Merge(init);
      var last := |m0| - 1;
      MergeSnoc(ss);
      if k < last || (k == last && m == m0 + [ss[n - 1]]) || (k == last && t <= m0[last].end) {
        assert Contains(m0[k], t);
        MergeSound(init, t);
        var i :| 0 <= i < |init| && Contains(init[i], t);
        assert init[i] == ss[i];
      } else {
        assert Contains(ss[n - 1], t);
      }
    }
  }

  /** For ordered input the segments cover exactly the instants the windows
      cover: the merge computes the union. */
  lemma MergeUnion(ss: seq<Span>, t: real)
    requires SortedByStart(ss)
    ensures Covers(Merge(ss), t) <==> Covers(ss, t)
  {
    if Covers(Merge(ss), t) {
      MergeSound(ss, t);
    }
    if Covers(ss, t) {
      var j :| 0 <= j < |ss| && Contains(ss[j], t);
      MergeContains(ss, j);
    }
  }

  /** A list that is already separated is its own merge. */
  lemma {:induction false} MergeOfSeparated(ss: seq<Span>)
    requires Separated(ss)
    ensures Merge(ss) == ss
  {
    var n := |ss|;
    if n >= 2 {
      var init := ss[..n - 1];
      MergeOfSeparated(init);
      MergeSnoc(ss);
      assert ss == init + [ss[n - 1]];
    }
  }

  /** Separated well-formed segments are strictly ordered, far apart as well
      as next to each other. */
  lemma {:induction false} SeparatedChain(ss: seq<Span>, a: int, b: int)
    requires Separated(ss) && AllWellFormed(ss) && 0 <= a < b < |ss|
    ensures ss[a].end < ss[b].start
  {
    if a + 1 < b {
      SeparatedChain(ss, a, b - 1);
      assert WellFormed(ss[b - 1]);
    }
  }

  /** Two windows that overlap or merely touch always end up in the same
      segment. */
  lemma TouchingWindowsShareSegment(ss: seq<Span>, i: int, j: int, k1: int, k2: int)
    requires AllWellFormed(ss) && 0 <= i < |ss| && 0 <= j < |ss|
    requires ss[j].start <= ss[i].end && ss[i].start <= ss[j].end
    requires 0 <= k1 < |Merge(ss)| && Inside(ss[i], Merge(ss)[k1])
    requires 0 <= k2 < |Merge(ss)| && Inside(ss[j], Merge(ss)[k2])
    ensures k1 == k2
  {
    MergeSeparated(ss);
    MergeWellFormed(ss);
    if k1 < k2 {
      SeparatedChain(Merge(ss), k1, k2);
    } else if k2 < k1 {
      SeparatedChain(Merge(ss), k2, k1);
    }
  }

  /** The whole of lines 156-181 as one value: never more segments than
      events, and none exactly when there are no events. */
  function Build(events: seq<Span>, pre: real, post: real): (segs: seq<Span>)
    requires pre >= 0.0 && post >= 0.0
    ensures |segs| <= |events|
    ensures (segs == []) <==> (events == [])
  {
    Merge(SortByStart(PadAll(events, pre, post)))
  }

  lemma CoversPermutation(a: seq<Span>, b: seq<Span>, t: real)
    requires multiset(a) == multiset(b)
    ensures Covers(a, t) <==> Covers(b, t)
  {
    if Covers(a, t) {
      var k :| 0 <= k < |a| && Contains(a[k], t);
      assert a[k] in multiset(b);
      var j :| 0 <= j < |b| && b[j] == a[k];
    }
    if Covers(b, t) {
      var k :| 0 <= k < |b| && Contains(b[k], t);
      assert b[k] in multiset(a);
      var j :| 0 <= j < |a| && a[j] == b[k];
    }
  }

  /** The final segments: empty exactly for no events, never more segments
      than events, ordered by start, strictly separated, starting at or after
      zero, every padded event inside one of them, and covering exactly the
      instants the padded events cover. */
  lemma BuildCorrect(events: seq<Span>, pre: real, post: real)
    requires pre >= 0.0 && post >= 0.0
    ensures var segs := Build(events, pre, post);
      && ((segs == []) <==> (events == []))
      && |segs| <= |events|
      && SortedByStart(segs)
      && Separated(segs)
      && NonNegative(segs)
      && (AllWellFormed(events) && NonNegative(events) ==> AllWellFormed(segs))
  {
    var padded := PadAll(events, pre, post);
    var sorted := SortByStart(padded);
    SortByStartSorted(padded);
    MergeSorted(sorted);
    MergeSeparated(sorted);
    forall k | 0 <= k < |Merge(sorted)| ensures Merge(sorted)[k].start >= 0.0 {
      MergeEndpoints(sorted, k);
      var j :| 0 <= j < |sorted| && sorted[j].start == Merge(sorted)[k].start;
      assert sorted[j] in multiset(padded);
    }
    if AllWellFormed(events) && NonNegative(events) {
      forall j | 0 <= j < |sorted| ensures WellFormed(sorted[j]) {
        assert sorted[j] in multiset(padded);
      }
      MergeWellFormed(sorted);
    }
  }

  /** Every padded event lies inside some final segment, and the final
      segments cover exactly the instants the padded events cover. */
  lemma BuildCovers(events: seq<Span>, pre: real, post: real, t: real)
    requires pre >= 0.0 && post >= 0.0
    ensures forall j :: 0 <= j < |events| ==>
      exists k :: 0 <= k < |Build(events, pre, post)| &&
        Inside(Pad(events[j], pre, post), Build(events, pre, post)[k])
    ensures Covers(Build(events, pre, post), t) <==> Covers(PadAll(events, pre, post), t)
  {
    var padded := PadAll(events, pre, post);
    var sorted := SortByStart(padded);
    assert Build(events, pre, post) == Merge(sorted);
    SortByStartSorted(padded);
    forall j | 0 <= j < |events|
      ensures exists k :: 0 <= k < |Merge(sorted)| && Inside(Pad(events[j], pre, post), Merge(sorted)[k])
    {
      assert padded[j] == Pad(events[j], pre, post);
      assert padded[j] in multiset(sorted);
      var i :| 0 <= i < |sorted| && sorted[i] == padded[j];
      MergeContains(sorted, i);
    }
    MergeUnion(sorted, t);
    CoversPermutation(sorted, padded, t);
  }

  /** Running the builder again on its own output, with no padding, gives
      the same segments back. */
  lemma BuildIdempotent(events: seq<Span>, pre: real, post: real)
    requires pre >= 0.0 && post >= 0.0
    ensures Build(Build(events, pre, post), 0.0, 0.0) == Build(events, pre, post)
  {
    var segs := Build(events, pre, post);
    BuildCorrect(events, pre, post);
    var padded := PadAll(segs, 0.0, 0.0);
    assert padded == segs;
    SortByStartOfSorted(segs);
    MergeOfSeparated(segs);
  }

  /** One iteration of the sweep: the running segment and the closed ones
      so far, extended by the next window, are the merge of one more window. */
  lemma MergeStep(ss: seq<Span>, i: int, merged: seq<Span>, current: Span)
    requires 1 <= i < |ss|
    requires merged + [current] == Merge(ss[..i])
    ensures ss[i].start <= current.end ==>
      merged + [Span(current.start, Max(current.end, ss[i].end))] == Merge(ss[..i + 1])
    ensures ss[i].start > current.end ==>
      (merged + [current]) + [ss[i]] == Merge(ss[..i + 1])
  {
    assert ss[..i + 1][..i] == ss[..i];
    var prev := merged + [current];
    assert prev[..|prev| - 1] == merged;
    MergeSnoc(ss[..i + 1]);
  }

  /** The sweep of lines 167-178 over the sorted, padded windows. */
  method MergeSweep(segments: seq<Span>) returns (merged: seq<Span>)
    ensures merged == Merge(segments)
    ensures (merged == []) <==> (segments == [])
    ensures Separated(merged)
  {
    merged := [];
    if |segments| == 0 {
      return;
    }
    var currentStart, currentEnd := segments[0].start, segments[0].end;
    for i := 1 to |segments|
      invariant merged + [Span(currentStart, currentEnd)] == Merge(segments[..i])
    {
      MergeStep(segments, i, merged, Span(currentStart, currentEnd));
      var next := segments[i];
      if next.start <= currentEnd {
        currentEnd := Max(currentEnd, next.end);
      } else {
        merged := merged + [Span(currentStart, currentEnd)];
        currentStart, currentEnd := next.start, next.end;
      }
    }
    merged := merged + [Span(currentStart, currentEnd)];
    assert segments[..|segments|] == segments;
    MergeSeparated(segments);
  }

  /** The function of lines 156-181: pad, sort by start, sweep. */
  method CalculateAndMergeFinalSegments(events: seq<Span>, pre: real, post: real) returns (merged: seq<Span>)
    requires pre >= 0.0 && post >= 0.0
    ensures merged == Build(events, pre, post)
    ensures (merged == []) <==> (events == [])
    ensures |merged| <= |events|
    ensures SortedByStart(merged) && Separated(merged) && NonNegative(merged)
  {
    if |events| == 0 {
      return [];
    }
    var segments := SortByStart(PadAll(events, pre, post));
    merged := MergeSweep(segments);
    BuildCorrect(events, pre, post);
  }
}
