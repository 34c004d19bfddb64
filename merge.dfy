/** merge (ttv2srt.py:153-193) as a whole: the overlay sweep, the cleanup
    of empty windows and the renumbering, and what the three together
    guarantee about the track they produce. */
module Merging {
  import opened Captions
  import opened Tiling
  import opened Overlay
  import opened Cleanup
  import opened Builder

  /** At an instant that falls inside entry k of a non-overlapping list, that
      entry alone is on screen. */
  lemma {:induction false} ActiveOnly(s: seq<Subtitle>, k: nat, t: int)
    requires Disjoint(s) && k < |s| && Covers(s[k], t)
    ensures Active(s, t) == [s[k].content]
  {
    var rest := s[1..];
    assert forall m :: 0 <= m < |rest| ==> rest[m] == s[m + 1];
    if k == 0 {
      assert forall m :: 0 <= m < |rest| ==> !Covers(rest[m], t);
    } else {
      assert !Covers(s[0], t);
      assert Disjoint(rest) by {
        forall i, m | 0 <= i < m < |rest| ensures rest[i].end <= rest[m].start {
          assert rest[i] == s[i + 1] && rest[m] == s[m + 1];
        }
      }
      ActiveOnly(rest, k - 1, t);
    }
  }

  /** An instant between the first start and the last end of a chained list
      that no entry covers lies in a gap between two neighbours. */
  lemma {:induction false} Locate(s: seq<Subtitle>, t: int) returns (k: nat)
    requires Proper(s) && Chained(s) && |s| > 0
    requires s[0].start <= t < s[|s| - 1].end
    requires forall m :: 0 <= m < |s| ==> !Covers(s[m], t)
    ensures k + 1 < |s| && s[k].end <= t < s[k + 1].start
  {
    assert !Covers(s[0], t);
    if t < s[1].start {
      k := 0;
    } else {
      var rest := s[1..];
      assert forall m :: 0 <= m < |rest| ==> rest[m] == s[m + 1];
      var m := Locate(rest, t);
      k := m + 1;
    }
  }

  /** The resolved list of the whole input, with its parts spelled out. */
  lemma SweepOutcome(input: seq<Subtitle>, s: seq<Subtitle>)
    requires BuilderShaped(input) && |input| > 0 && Resolved(input, 0, s)
    ensures Proper(s) && Chained(s) && |s| > 0
    ensures s[0].start == input[0].start && s[|s| - 1].end == input[|input| - 1].end
    ensures AllShow(input, s) && GapsSilent(input, s) && CutAtBounds(input, s) && NoStraddle(input, s)
    ensures input[0].start == input[|input| - 1].start ==> |s| == 1
    ensures Chained(input) ==> s == input
  {
    assert input[0..] == input;
  }

  /** After the cleanup and the renumbering of an ordered list, every window
      is non-empty and no two overlap. */
  lemma KeptLayout(swept: seq<Subtitle>, out: seq<Subtitle>)
    requires Proper(swept) && Chained(swept)
    requires |out| == |NonEmpty(swept)|
    requires forall k :: 0 <= k < |out| ==> out[k] == NonEmpty(swept)[k].(index := k + 1)
    ensures forall k :: 0 <= k < |out| ==> out[k].start < out[k].end
    ensures Disjoint(out)
  {
    var kept := NonEmpty(swept);
    ChainedPairwise(swept);
    NonEmptyDisjoint(swept);
    forall k | 0 <= k < |kept| ensures kept[k].start < kept[k].end {
      NonEmptyMembers(swept, kept[k]);
      var m :| 0 <= m < |swept| && swept[m] == kept[k];
    }
    forall i, k | 0 <= i < k < |out| ensures out[i].end <= out[k].start {
      assert out[i].end == kept[i].end && out[k].start == kept[k].start;
    }
  }

  /** Dropping entries and renumbering the rest moves no cut. */
  lemma CutsKept(input: seq<Subtitle>, swept: seq<Subtitle>, out: seq<Subtitle>)
    requires CutAtBounds(input, swept)
    requires |out| == |NonEmpty(swept)|
    requires forall k :: 0 <= k < |out| ==> out[k] == NonEmpty(swept)[k].(index := k + 1)
    ensures CutAtBounds(input, out)
  {
    var kept := NonEmpty(swept);
    forall k | 0 <= k < |out| ensures IsBound(input, out[k].start) && IsBound(input, out[k].end) {
      NonEmptyMembers(swept, kept[k]);
      var m :| 0 <= m < |swept| && swept[m] == kept[k];
    }
  }

  /** The cleanup and the renumbering put no input boundary inside a window. */
  lemma StraddleKept(input: seq<Subtitle>, swept: seq<Subtitle>, out: seq<Subtitle>)
    requires NoStraddle(input, swept)
    requires |out| == |NonEmpty(swept)|
    requires forall k :: 0 <= k < |out| ==> out[k] == NonEmpty(swept)[k].(index := k + 1)
    ensures NoStraddle(input, out)
  {
    var kept := NonEmpty(swept);
    forall k, m | 0 <= k < |out| && 0 <= m < |input|
      ensures !Inside(input[m].start, out[k]) && !Inside(input[m].end, out[k])
    {
      NonEmptyMembers(swept, kept[k]);
      var i :| 0 <= i < |swept| && swept[i] == kept[k];
      assert !Inside(input[m].start, swept[i]) && !Inside(input[m].end, swept[i]);
    }
  }

  /** A tiling whose pieces show the input's stacked texts and whose gaps show
      nothing displays, at every instant, exactly the flattened input. */
  lemma TiledFlat(input: seq<Subtitle>, s: seq<Subtitle>, t: int)
    requires BuilderShaped(input) && |input| > 0
    requires Proper(s) && Chained(s) && |s| > 0
    requires s[0].start == input[0].start && s[|s| - 1].end == input[|input| - 1].end
    requires AllShow(input, s) && GapsSilent(input, s)
    ensures Active(s, t) == Flat(input, t)
  {
    ChainedPairwise(s);
    if k :| 0 <= k < |s| && Covers(s[k], t) {
      ActiveOnly(s, k, t);
      assert Shows(input, s[k]);
    } else if t < s[0].start {
      ActiveBefore(input, 0, t);
      assert input[0..] == input;
    } else if t >= s[|s| - 1].end {
      ActiveAfter(input, 0, t);
      assert input[0..] == input;
    } else {
      var k := Locate(s, t);
      assert Silent(input, s[k].end, s[k + 1].start);
    }
  }

  /** merge: the sweep, the cleanup and the renumbering in turn. For what the
      comment loop produces it returns entries numbered 1, 2, ... in order,
      each with a non-empty window, none overlapping another; at every
      instant it shows exactly what the input shows, stacked into one block
      in input order; every window starts and ends where some input entry
      starts or ends, and no input entry starts or ends strictly inside a
      window; a run of identical windows becomes one entry; and input
      that never overlapped comes back unchanged apart from its numbers. */
  method Merge(input: seq<Subtitle>) returns (out: seq<Subtitle>)
    requires BuilderShaped(input)
    ensures forall k :: 0 <= k < |out| ==> out[k].index == k + 1
    ensures forall k :: 0 <= k < |out| ==> out[k].start < out[k].end
    ensures Disjoint(out)
    ensures forall t :: Active(out, t) == Flat(input, t)
    ensures CutAtBounds(input, out) && NoStraddle(input, out)
    ensures |input| > 0 && input[0].start == input[|input| - 1].start ==> |out| == 1
    ensures Chained(input) ==> |out| == |input| && forall k :: 0 <= k < |out| ==> out[k] == input[k].(index := k + 1)
  {
    var swept := Sweep(input);
    var kept := DropEmpty(swept);
    out := Renumber(kept);
    if |input| > 0 {
      SweepOutcome(input, swept);
      KeptLayout(swept, out);
      forall t ensures Active(out, t) == Flat(input, t) {
        RenumberedActive(kept, out, t);
        NonEmptyActive(swept, t);
        TiledFlat(input, swept, t);
      }
      CutsKept(input, swept, out);
      StraddleKept(input, swept, out);
      if input[0].start == input[|input| - 1].start {
        NonEmptyKeeps(swept);
      }
      if Chained(input) {
        NonEmptyKeeps(input);
      }
    }
  }

  /** The end of main (lines 108-144): the captions of the kept comments,
      merged. Comments arrive in posting order and the duration is positive,
      so the builder's output is what merge expects; every instant of the
      result shows the stacked captions of the comments on screen then. */
  method BuildAndMerge(comments: seq<Comment>, cfg: Settings) returns (unmerged: seq<Subtitle>, out: seq<Subtitle>)
    requires InOrder(comments) && cfg.duration > 0
    ensures |unmerged| == |KeptComments(comments)|
    ensures forall k :: 0 <= k < |unmerged| ==> unmerged[k] == Entry(KeptComments(comments)[k], k + 1, cfg)
    ensures forall k :: 0 <= k < |out| ==> out[k].index == k + 1 && out[k].start < out[k].end
    ensures Disjoint(out)
    ensures forall t :: Active(out, t) == Flat(unmerged, t)
    ensures CutAtBounds(unmerged, out) && NoStraddle(unmerged, out)
    ensures |unmerged| > 0 && unmerged[0].start == unmerged[|unmerged| - 1].start ==> |out| == 1
  {
    unmerged := Build(comments, cfg);
    out := Merge(unmerged);
  }
}
