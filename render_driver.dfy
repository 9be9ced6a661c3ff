/** The filter-graph text built in `generate_final_video`: one selection
    predicate over all segments, used for both the video and the audio
    stream. */
module RenderDriver {
  import opened Intervals

  /** One clause of line 188: true while the frame time `t` lies in the
      segment. `fmt` stands for the f-string rendering of a Python number. */
  function Clause(s: Span, fmt: real -> string): string
  {
    "between(t," + fmt(s.start) + "," + fmt(s.end) + ")"
  }

  function Clauses(segs: seq<Span>, fmt: real -> string): (cs: seq<string>)
    ensures |cs| == |segs|
    ensures forall k :: 0 <= k < |segs| ==> cs[k] == Clause(segs[k], fmt)
  {
    seq(|segs|, k requires 0 <= k < |segs| => Clause(segs[k], fmt))
  }

  /** `'+'.join(parts)`: the parts in order, a plus sign between neighbours,
      and no other character. */
  function Join(parts: seq<string>): (s: string)
    ensures parts != [] ==> parts[0] <= s
    ensures forall c :: c in s ==> c == '+' || exists k :: 0 <= k < |parts| && c in parts[k]
  {
    if |parts| == 0 then ""
    else if |parts| == 1 then parts[0]
    else
      var rest := Join(parts[1..]);
      assert forall c :: c in rest ==> c == '+' || exists k :: 0 <= k < |parts| && c in parts[k] by {
        forall c | c in rest && c != '+'
          ensures exists k :: 0 <= k < |parts| && c in parts[k]
        {
          var k :| 0 <= k < |parts[1..]| && c in parts[1..][k];
          assert parts[k + 1] == parts[1..][k];
        }
      }
      parts[0] + "+" + rest
  }

  /** The selection predicate of lines 188 and 189: empty exactly when there
      are no segments, and made only of the clauses' characters and plus
      signs. */
  function SelectPredicate(segs: seq<Span>, fmt: real -> string): (p: string)
    ensures (p == "") <==> (segs == [])
    ensures forall c :: c in p ==> c == '+' || exists k :: 0 <= k < |segs| && c in Clause(segs[k], fmt)
  {
    Join(Clauses(segs, fmt))
  }

  /** The fixed text around the two quoted predicates of lines 188-189: the
      video `select`, then (after the video timestamps are rebuilt) the audio
      `aselect`, then the audio timestamps. */
  const VideoSelect := "[0:v]select="
  const AudioSelect := ",setpts=N/FRAME_RATE/TB[v];[0:a]aselect="
  const AudioTail := ",asetpts=N/SR/TB[a]"

  /** The `filter_complex` argument of lines 187-190. When the numbers hold
      no single quote, reading back the quoted arguments gives the same
      predicate twice, once for the video and once for the audio stream. */
  function FilterGraph(segs: seq<Span>, fmt: real -> string): (g: string)
    ensures NumbersAvoid(segs, fmt, '\'') ==>
      Quoted(g) == [SelectPredicate(segs, fmt), SelectPredicate(segs, fmt)]
  {
    var p := SelectPredicate(segs, fmt);
    var g := VideoSelect + "'" + p + "'" + (AudioSelect + "'" + p + "'" + AudioTail);
    assert NumbersAvoid(segs, fmt, '\'') ==> Quoted(g) == [p, p] by {
      if NumbersAvoid(segs, fmt, '\'') {
        FixedTextUnquoted();
        PredicateUnquoted(segs, fmt);
        QuotedTwice(VideoSelect, p, AudioSelect, AudioTail);
      }
    }
    g
  }

  lemma FixedTextUnquoted()
    ensures '\'' !in VideoSelect && '\'' !in AudioSelect && '\'' !in AudioTail
  {
  }

  /** The rendered numbers of every segment are free of `c`. */
  predicate NumbersAvoid(segs: seq<Span>, fmt: real -> string, c: char)
  {
    forall k :: 0 <= k < |segs| ==> c !in fmt(segs[k].start) && c !in fmt(segs[k].end)
  }

  /** `s.split('+')`: the pieces between the plus signs. */
  function Split(s: string): (parts: seq<string>)
    ensures |parts| >= 1
  {
    if |s| == 0 then [""]
    else
      var rest := Split(s[1..]);
      if s[0] == '+' then [""] + rest else [[s[0]] + rest[0]] + rest[1..]
  }

  lemma {:induction false} SplitWithoutPlus(a: string)
    requires '+' !in a
    ensures Split(a) == [a]
  {
    if |a| > 0 {
      assert '+' !in a[1..] by {
        forall i | 0 <= i < |a[1..]| ensures a[1..][i] != '+' {
          assert a[1..][i] == a[i + 1];
        }
      }
      SplitWithoutPlus(a[1..]);
      assert [a[0]] + a[1..] == a;
    }
  }

  lemma {:induction false} SplitAtPlus(a: string, b: string)
    requires '+' !in a
    ensures Split(a + "+" + b) == [a] + Split(b)
  {
    var s := a + "+" + b;
    if |a| == 0 {
      assert s[1..] == b;
    } else {
      assert s[1..] == a[1..] + "+" + b;
      assert '+' !in a[1..] by {
        forall i | 0 <= i < |a[1..]| ensures a[1..][i] != '+' {
          assert a[1..][i] == a[i + 1];
        }
      }
      SplitAtPlus(a[1..], b);
      assert [a[0]] + a[1..] == a;
    }
  }

  /** Splitting a join at the separator gives the pieces back, provided no
      piece holds the separator. */
  lemma {:induction false} SplitJoin(parts: seq<string>)
    requires |parts| >= 1
    requires forall k :: 0 <= k < |parts| ==> '+' !in parts[k]
    ensures Split(Join(parts)) == parts
  {
    if |parts| == 1 {
      SplitWithoutPlus(parts[0]);
    } else {
      SplitJoin(parts[1..]);
      SplitAtPlus(parts[0], Join(parts[1..]));
      assert [parts[0]] + parts[1..] == parts;
    }
  }

  /** The predicate holds exactly one `between(t,s,e)` clause per segment, in
      segment order: splitting it at the plus signs gives the clauses back. */
  lemma PredicateClauses(segs: seq<Span>, fmt: real -> string)
    requires |segs| >= 1 && NumbersAvoid(segs, fmt, '+')
    ensures Split(SelectPredicate(segs, fmt)) == Clauses(segs, fmt)
    ensures forall k :: 0 <= k < |segs| ==>
      Split(SelectPredicate(segs, fmt))[k] == "between(t," + fmt(segs[k].start) + "," + fmt(segs[k].end) + ")"
  {
    var cs := Clauses(segs, fmt);
    forall k | 0 <= k < |cs| ensures '+' !in cs[k] {
      assert cs[k] == "between(t," + fmt(segs[k].start) + "," + fmt(segs[k].end) + ")";
    }
    SplitJoin(cs);
  }

  /** The position of the first `c` in `s`. */
  function IndexOf(s: string, c: char): (i: nat)
    requires c in s
    ensures i < |s| && s[i] == c && c !in s[..i]
  {
    if s[0] == c then 0
    else
      var i := 1 + IndexOf(s[1..], c);
      assert s[..i] == [s[0]] + s[1..][..i - 1];
      i
  }

  /** The texts enclosed by successive pairs of single quotes. */
  function Quoted(s: string): seq<string>
    decreases |s|
  {
    if '\'' !in s then []
    else
      var rest := s[IndexOf(s, '\'') + 1..];
      if '\'' !in rest then []
      else
        var j := IndexOf(rest, '\'');
        [rest[..j]] + Quoted(rest[j + 1..])
  }

  lemma FirstQuote(a: string, b: string)
    requires '\'' !in a
    ensures '\'' in a + "'" + b && IndexOf(a + "'" + b, '\'') == |a|
  {
    var s := a + "'" + b;
    assert s[..|a|] == a;
    assert s[|a|] == '\'';
  }

  lemma QuotedStep(a: string, p: string, b: string)
    requires '\'' !in a && '\'' !in p
    ensures Quoted(a + "'" + p + "'" + b) == [p] + Quoted(b)
  {
    var s := a + "'" + p + "'" + b;
    FirstQuote(a, p + "'" + b);
    assert s == a + "'" + (p + "'" + b);
    var rest := s[|a| + 1..];
    assert rest == p + "'" + b;
    FirstQuote(p, b);
    assert rest[..|p|] == p;
    assert rest[|p| + 1..] == b;
  }

  lemma QuotedNone(c: string)
    requires '\'' !in c
    ensures Quoted(c) == []
  {
  }

  lemma QuotedTwice(a: string, p: string, b: string, c: string)
    requires '\'' !in a && '\'' !in p && '\'' !in b && '\'' !in c
    ensures Quoted(a + "'" + p + "'" + (b + "'" + p + "'" + c)) == [p, p]
  {
    QuotedStep(a, p, b + "'" + p + "'" + c);
    QuotedStep(b, p, c);
    QuotedNone(c);
  }

  lemma PredicateUnquoted(segs: seq<Span>, fmt: real -> string)
    requires NumbersAvoid(segs, fmt, '\'')
    ensures '\'' !in SelectPredicate(segs, fmt)
  {
    QuoteFreeJoin(Clauses(segs, fmt), segs, fmt);
  }

  /** The filter graph quotes exactly two expressions, the video `select`
      and the audio `aselect`, and both are the same selection predicate. */
  lemma BothStreamsSelectSame(segs: seq<Span>, fmt: real -> string)
    requires NumbersAvoid(segs, fmt, '\'')
    ensures Quoted(FilterGraph(segs, fmt)) == [SelectPredicate(segs, fmt), SelectPredicate(segs, fmt)]
  {
    PredicateUnquoted(segs, fmt);
    FixedTextUnquoted();
    QuotedTwice(VideoSelect, SelectPredicate(segs, fmt), AudioSelect, AudioTail);
  }

  lemma {:induction false} QuoteFreeJoin(cs: seq<string>, segs: seq<Span>, fmt: real -> string)
    requires NumbersAvoid(segs, fmt, '\'')
    requires |cs| <= |segs| && forall k :: 0 <= k < |cs| ==> cs[k] == Clause(segs[|segs| - |cs| + k], fmt)
    ensures '\'' !in Join(cs)
  {
    if |cs| > 0 {
      var s := segs[|segs| - |cs|];
      assert cs[0] == "between(t," + fmt(s.start) + "," + fmt(s.end) + ")";
      if |cs| > 1 {
        QuoteFreeJoin(cs[1..], segs, fmt);
      }
    }
  }
}
