/** What the overlay sweep of merge (ttv2srt.py:153-193) keeps true of the
    part of the list it has already handled, and why each kind of step keeps
    it true. The steps themselves are in module Overlay. */
module Tiling {
  import opened Captions

  /** What the comment loop produces: every entry lasts the same positive
      duration and none starts before the one ahead of it. */
  predicate BuilderShaped(s: seq<Subtitle>) {
    (forall k :: 0 <= k < |s| ==> s[k].start < s[k].end && s[k].end - s[k].start == s[0].end - s[0].start) &&
    (forall j, k :: 0 <= j <= k < |s| ==> s[j].start <= s[k].start)
  }

  function Duration(s: seq<Subtitle>): int
    requires |s| > 0
  {
    s[0].end - s[0].start
  }

  /** Every entry ends no later than the next one begins. */
  predicate Chained(s: seq<Subtitle>) {
    forall k :: 0 <= k < |s| - 1 ==> s[k].end <= s[k + 1].start
  }

  /** No entry ends before it starts. */
  predicate Proper(s: seq<Subtitle>) {
    forall k :: 0 <= k < |s| ==> s[k].start <= s[k].end
  }

  /** Neighbouring entries never overlap, so no two entries do. */
  lemma {:induction false} ChainedPairwise(s: seq<Subtitle>)
    requires Proper(s) && Chained(s)
    ensures forall i, k :: 0 <= i < k < |s| ==> s[i].end <= s[k].start
  {
    if |s| > 1 {
      var rest := s[1..];
      assert forall k :: 0 <= k < |rest| ==> rest[k] == s[k + 1];
      ChainedPairwise(rest);
      forall i, k | 0 <= i < k < |s| ensures s[i].end <= s[k].start {
        if i > 0 {
          assert rest[i - 1] == s[i] && rest[k - 1] == s[k];
        } else if k > 1 {
          assert rest[0] == s[1] && rest[k - 1] == s[k];
        }
      }
    }
  }

  /** Every entry ending before h is followed by one starting where it ends. */
  predicate Contig(s: seq<Subtitle>, h: int) {
    forall k :: 0 <= k < |s| - 1 && s[k].end < h ==> s[k].end == s[k + 1].start
  }

  /** How far a handled suffix is known to have no gap: up to one duration
      past its first start, and one instant further when its first entry was
      cut short. */
  function Reach(s: seq<Subtitle>, d: int): int
    requires |s| > 0
  {
    if s[0].end < s[0].start + d then s[0].start + d + 1 else s[0].start + d
  }

  /** The layout of a handled suffix: its first entry lasts at most one
      duration, entries follow one another without overlap, and there is no
      gap within its reach. */
  predicate Tiled(s: seq<Subtitle>, d: int) {
    |s| > 0 && s[0].end <= s[0].start + d && Proper(s) && Chained(s) && Contig(s, Reach(s, d))
  }

  /** Every entry of s shows the stacked texts of inp. */
  ghost predicate AllShow(inp: seq<Subtitle>, s: seq<Subtitle>) {
    forall k :: 0 <= k < |s| ==> Shows(inp, s[k])
  }

  /** Between neighbouring entries of s nothing of inp is on screen. */
  ghost predicate GapsSilent(inp: seq<Subtitle>, s: seq<Subtitle>) {
    forall k :: 0 <= k < |s| - 1 ==> Silent(inp, s[k].end, s[k + 1].start)
  }

  /** Some entry of inp starts or ends at instant t. */
  predicate IsBound(inp: seq<Subtitle>, t: int) {
    exists m :: 0 <= m < |inp| && (inp[m].start == t || inp[m].end == t)
  }

  /** Every entry of s starts and ends where some entry of inp starts or ends:
      the sweep only ever cuts at curr's end (lines 171-172) and at the next
      entry's start (line 177). */
  predicate CutAtBounds(inp: seq<Subtitle>, s: seq<Subtitle>) {
    forall k :: 0 <= k < |s| ==> IsBound(inp, s[k].start) && IsBound(inp, s[k].end)
  }

  /** Instant t lies strictly inside y's window. */
  predicate Inside(t: int, y: Subtitle) {
    y.start < t < y.end
  }

  /** No start or end of an entry of inp lies strictly inside an entry of s:
      the sweep cuts at every boundary it meets, even where the same text is
      on screen on both sides of it. */
  predicate NoStraddle(inp: seq<Subtitle>, s: seq<Subtitle>) {
    forall k, m :: 0 <= k < |s| && 0 <= m < |inp| ==> !Inside(inp[m].start, s[k]) && !Inside(inp[m].end, s[k])
  }

  /** What the list from position lo onward looks like once the sweep has
      handled every entry from lo on: it is tiled, starts where input[lo]
      starts and ends where the last input entry ends, an identical run at the
      end of the input has become a single entry, its entries show the
      stacked texts of input[lo..] and its gaps show nothing of them, every
      cut lies at an input boundary and no boundary of input[lo..] lies
      inside an entry; and an input that never overlapped is
      left as it was. */
  ghost predicate Resolved(input: seq<Subtitle>, lo: nat, s: seq<Subtitle>)
    requires BuilderShaped(input) && lo < |input|
  {
    Tiled(s, Duration(input)) &&
    s[0].start == input[lo].start && s[|s| - 1].end == input[|input| - 1].end &&
    (input[lo].start == input[|input| - 1].start ==> |s| == 1) &&
    AllShow(input[lo..], s) && GapsSilent(input[lo..], s) && CutAtBounds(input, s) &&
    NoStraddle(input[lo..], s) &&
    (Chained(input) ==> s == input[lo..])
  }

  /** The whole working list while the sweep stands at position lo: the
      entries before lo are still the input's, the rest is resolved. */
  ghost predicate Swept(input: seq<Subtitle>, lo: nat, subs: seq<Subtitle>)
    requires BuilderShaped(input) && lo < |input|
  {
    lo < |subs| && subs[..lo] == input[..lo] && Resolved(input, lo, subs[lo..])
  }

  /** The suffix that one split step leaves behind: x cut back to where s
      begins, x's text stacked on s[0 .. j-1], s[j] split at x's end with x's
      text stacked on its left piece, and the rest of s untouched. */
  ghost function Overlaid(x: Subtitle, s: seq<Subtitle>, j: nat): seq<Subtitle>
    requires j < |s|
  {
    seq(|s| + 2, k requires 0 <= k < |s| + 2 =>
      if k == 0 then x.(end := s[0].start)
      else if k <= j then s[k - 1].(content := x.content + "\n" + s[k - 1].content)
      else if k == j + 1 then s[j].(end := x.end, content := x.content + "\n" + s[j].content)
      else if k == j + 2 then s[j].(start := x.end)
      else s[k - 2])
  }

  // ---------------------------------------------------------------------------
  // What the input shows, instant by instant

  lemma ActiveBefore(input: seq<Subtitle>, lo: nat, t: int)
    requires BuilderShaped(input) && lo < |input| && t < input[lo].start
    ensures Active(input[lo..], t) == []
  {
    forall k | 0 <= k < |input[lo..]| ensures !Covers(input[lo..][k], t) {
      assert input[lo..][k] == input[lo + k];
    }
  }

  lemma ActiveAfter(input: seq<Subtitle>, lo: nat, t: int)
    requires BuilderShaped(input) && lo < |input| && t >= input[|input| - 1].end
    ensures Active(input[lo..], t) == []
  {
    forall k | 0 <= k < |input[lo..]| ensures !Covers(input[lo..][k], t) {
      assert input[lo..][k] == input[lo + k];
    }
  }

  /** A piece lying after input[c] ends shows the same with or without it. */
  lemma ShowsPast(input: seq<Subtitle>, c: nat, y: Subtitle, z: Subtitle)
    requires c < |input| && Shows(input[c + 1..], y)
    requires y.start <= z.start && z.end <= y.end && z.content == y.content
    requires input[c].end <= z.start
    ensures Shows(input[c..], z)
  {
    forall t | Covers(z, t) ensures Active(input[c..], t) != [] && z.content == Join(Active(input[c..], t)) {
      ActiveStep(input, c, t);
      assert Covers(y, t) && !Covers(input[c], t);
      assert Active(input[c..], t) == Active(input[c + 1..], t);
    }
  }

  /** A piece lying inside input[c] must show input[c]'s text on top. */
  lemma ShowsStacked(input: seq<Subtitle>, c: nat, y: Subtitle, z: Subtitle)
    requires c < |input| && Shows(input[c + 1..], y)
    requires y.start <= z.start && z.end <= y.end
    requires input[c].start <= z.start && z.end <= input[c].end
    requires z.content == input[c].content + "\n" + y.content
    ensures Shows(input[c..], z)
  {
    forall t | Covers(z, t) ensures Active(input[c..], t) != [] && z.content == Join(Active(input[c..], t)) {
      ActiveStep(input, c, t);
      assert Covers(y, t) && Covers(input[c], t);
      JoinCons(input[c].content, Active(input[c + 1..], t));
    }
  }

  /** A piece of input[c] before every later entry starts shows its text alone. */
  lemma ShowsAlone(input: seq<Subtitle>, c: nat, z: Subtitle)
    requires BuilderShaped(input) && c + 1 < |input|
    requires input[c].start <= z.start && z.end <= input[c].end && z.end <= input[c + 1].start
    requires z.content == input[c].content
    ensures Shows(input[c..], z)
  {
    forall t | Covers(z, t) ensures Active(input[c..], t) != [] && z.content == Join(Active(input[c..], t)) {
      ActiveStep(input, c, t);
      ActiveBefore(input, c + 1, t);
      assert Covers(input[c], t);
      assert Active(input[c..], t) == [input[c].content];
      assert Join([input[c].content]) == input[c].content;
    }
  }

  lemma SilentPast(input: seq<Subtitle>, c: nat, a: int, b: int)
    requires c < |input| && Silent(input[c + 1..], a, b) && input[c].end <= a
    ensures Silent(input[c..], a, b)
  {
    forall t | a <= t < b ensures Active(input[c..], t) == [] {
      ActiveStep(input, c, t);
    }
  }

  lemma SilentBetween(input: seq<Subtitle>, c: nat, a: int, b: int)
    requires BuilderShaped(input) && c + 1 < |input| && input[c].end <= a && b <= input[c + 1].start
    ensures Silent(input[c..], a, b)
  {
    forall t | a <= t < b ensures Active(input[c..], t) == [] {
      ActiveStep(input, c, t);
      ActiveBefore(input, c + 1, t);
    }
  }

  // ---------------------------------------------------------------------------
  // The start of the sweep

  /** The last input entry alone is resolved. */
  lemma LastResolved(input: seq<Subtitle>)
    requires BuilderShaped(input) && |input| > 0
    ensures Swept(input, |input| - 1, input)
  {
    var n := |input|;
    var s := input[n - 1..];
    assert s == [input[n - 1]];
    forall t | Covers(input[n - 1], t) ensures Active(s, t) == [input[n - 1].content] {
      assert s[1..] == [];
    }
    assert IsBound(input, s[0].start) && IsBound(input, s[0].end);
    assert input[n - 1..] == s;
  }

  // ---------------------------------------------------------------------------
  // Every kind of step cuts only at input boundaries

  /** Keeping curr unchanged in front (line 159 and line 163 both false). */
  lemma PrependCuts(input: seq<Subtitle>, c: nat, s: seq<Subtitle>)
    requires c < |input| && CutAtBounds(input, s)
    ensures CutAtBounds(input, [input[c]] + s)
  {
    var r := [input[c]] + s;
    forall k | 0 <= k < |r| ensures IsBound(input, r[k].start) && IsBound(input, r[k].end) {
      if k > 0 {
        assert r[k] == s[k - 1];
      }
    }
  }

  lemma CoalesceCuts(input: seq<Subtitle>, c: nat, s: seq<Subtitle>, y: Subtitle)
    requires c < |input| && |s| > 0 && CutAtBounds(input, s)
    requires y.start == input[c].start && y.end == input[c].end
    ensures CutAtBounds(input, [y] + s[1..])
  {
    var r := [y] + s[1..];
    forall k | 0 <= k < |r| ensures IsBound(input, r[k].start) && IsBound(input, r[k].end) {
      if k > 0 {
        assert r[k] == s[k];
      }
    }
  }

  lemma SplitCuts(input: seq<Subtitle>, c: nat, s: seq<Subtitle>, j: nat)
    requires c < |input| && j < |s| && CutAtBounds(input, s)
    ensures CutAtBounds(input, Overlaid(input[c], s, j))
  {
    var x := input[c];
    var r := Overlaid(x, s, j);
    assert IsBound(input, x.end);
    forall k | 0 <= k < |r| ensures IsBound(input, r[k].start) && IsBound(input, r[k].end) {
      if k == 0 {
        assert r[k].start == x.start && r[k].end == s[0].start;
      } else if k <= j {
        assert r[k].start == s[k - 1].start && r[k].end == s[k - 1].end;
      } else if k == j + 1 {
        assert r[k].start == s[j].start;
      } else if k == j + 2 {
        assert r[k].end == s[j].end;
      } else {
        assert r[k] == s[k - 2];
      }
    }
  }

  // ---------------------------------------------------------------------------
  // Every kind of step cuts at every input boundary it reaches

  /** Every start and end of input[c + 1..] lies at or after input[c + 1]'s start. */
  lemma BoundsAfter(input: seq<Subtitle>, c: nat, rest: seq<Subtitle>)
    requires BuilderShaped(input) && c + 1 < |input| && rest == input[c + 1..]
    ensures forall m :: 0 <= m < |rest| ==> input[c + 1].start <= rest[m].start <= rest[m].end
  {
    forall m | 0 <= m < |rest| ensures input[c + 1].start <= rest[m].start <= rest[m].end {
      assert rest[m] == input[c + 1 + m];
    }
  }

  lemma PrependNoStraddle(input: seq<Subtitle>, c: nat, s: seq<Subtitle>)
    requires BuilderShaped(input) && c + 1 < |input| && NoStraddle(input[c + 1..], s)
    requires Proper(s) && Chained(s) && |s| > 0
    requires s[0].start == input[c + 1].start && input[c].end <= s[0].start
    ensures NoStraddle(input[c..], [input[c]] + s)
  {
    var x := input[c];
    var r := [x] + s;
    var inp := input[c..];
    ChainedPairwise(s);
    BoundsAfter(input, c, input[c + 1..]);
    forall k, m | 0 <= k < |r| && 0 <= m < |inp| ensures !Inside(inp[m].start, r[k]) && !Inside(inp[m].end, r[k]) {
      if m == 0 {
        assert inp[m] == x;
        if k > 0 {
          assert r[k] == s[k - 1] && s[0].start <= s[k - 1].start;
        }
      } else {
        assert inp[m] == input[c + 1..][m - 1];
        if k > 0 {
          assert r[k] == s[k - 1];
        }
      }
    }
  }

  lemma CoalesceNoStraddle(input: seq<Subtitle>, c: nat, s: seq<Subtitle>, y: Subtitle)
    requires c + 1 < |input| && NoStraddle(input[c + 1..], s)
    requires Proper(s) && Chained(s) && |s| > 0
    requires y.start == s[0].start == input[c].start && y.end == s[0].end == input[c].end
    ensures NoStraddle(input[c..], [y] + s[1..])
  {
    var x := input[c];
    var r := [y] + s[1..];
    var inp := input[c..];
    ChainedPairwise(s);
    forall k, m | 0 <= k < |r| && 0 <= m < |inp| ensures !Inside(inp[m].start, r[k]) && !Inside(inp[m].end, r[k]) {
      if k > 0 {
        assert r[k] == s[k];
      }
      if m == 0 {
        assert inp[m] == x;
      } else {
        assert inp[m] == input[c + 1..][m - 1];
      }
    }
  }

  /** Every piece of the split suffix lies inside one entry of s or inside x,
      and x's own start and end are never inside a piece. */
  lemma SplitNoStraddle(input: seq<Subtitle>, c: nat, s: seq<Subtitle>, j: nat)
    requires BuilderShaped(input) && c + 1 < |input| && NoStraddle(input[c + 1..], s)
    requires Proper(s) && Chained(s) && |s| > 0
    requires s[0].start == input[c + 1].start < input[c].end
    requires j < |s| && s[j].start <= input[c].end < s[j].end
    requires forall k :: 0 <= k < j ==> s[k].end <= input[c].end
    ensures NoStraddle(input[c..], Overlaid(input[c], s, j))
  {
    var x := input[c];
    var r := Overlaid(x, s, j);
    var inp := input[c..];
    ChainedPairwise(s);
    BoundsAfter(input, c, input[c + 1..]);
    assert x.start <= s[0].start;
    forall k, m | 0 <= k < |r| && 0 <= m < |inp| ensures !Inside(inp[m].start, r[k]) && !Inside(inp[m].end, r[k]) {
      if m == 0 {
        assert inp[m] == x;
        if 0 < k <= j {
          assert r[k].start == s[k - 1].start && r[k].end == s[k - 1].end;
          assert s[0].start <= s[k - 1].start;
        } else if k == j + 1 {
          assert s[0].start <= s[j].start;
        } else if k > j + 2 {
          assert r[k] == s[k - 2] && s[j].end <= s[k - 2].start;
        }
      } else {
        var y := input[c + 1..][m - 1];
        assert inp[m] == y;
        if k == 0 {
          assert r[k].end == s[0].start;
        } else if k <= j {
          assert r[k].start == s[k - 1].start && r[k].end == s[k - 1].end;
          assert !Inside(y.start, s[k - 1]) && !Inside(y.end, s[k - 1]);
        } else if k <= j + 2 {
          assert s[j].start <= r[k].start && r[k].end <= s[j].end;
          assert !Inside(y.start, s[j]) && !Inside(y.end, s[j]);
        } else {
          assert r[k] == s[k - 2];
        }
      }
    }
  }

  // ---------------------------------------------------------------------------
  // Step kind 1: input[c] ends before the resolved suffix begins

  lemma PrependTiled(x: Subtitle, s: seq<Subtitle>, d: int)
    requires Tiled(s, d) && x.start < x.end == x.start + d && x.end <= s[0].start
    ensures Tiled([x] + s, d)
  {
    var r := [x] + s;
    ChainedPairwise(s);
    assert forall k :: 0 <= k < |s| ==> r[k + 1] == s[k];
    assert Reach(r, d) == x.end;
    assert forall k :: 0 <= k < |s| ==> x.end <= s[k].end;
  }

  lemma PrependFaithful(input: seq<Subtitle>, c: nat, s: seq<Subtitle>)
    requires BuilderShaped(input) && c + 1 < |input|
    requires Proper(s) && Chained(s) && |s| > 0
    requires s[0].start == input[c + 1].start && input[c].end <= s[0].start
    requires AllShow(input[c + 1..], s) && GapsSilent(input[c + 1..], s)
    ensures AllShow(input[c..], [input[c]] + s) && GapsSilent(input[c..], [input[c]] + s)
  {
    var x := input[c];
    var r := [x] + s;
    ChainedPairwise(s);
    assert forall k :: 0 <= k < |s| ==> r[k + 1] == s[k];
    forall k | 0 <= k < |r| ensures Shows(input[c..], r[k]) {
      if k == 0 {
        ShowsAlone(input, c, x);
      } else {
        assert s[0].start <= s[k - 1].start;
        ShowsPast(input, c, s[k - 1], s[k - 1]);
      }
    }
    forall k | 0 <= k < |r| - 1 ensures Silent(input[c..], r[k].end, r[k + 1].start) {
      if k == 0 {
        SilentBetween(input, c, x.end, s[0].start);
      } else {
        assert s[0].start <= s[k - 1].end;
        SilentPast(input, c, s[k - 1].end, s[k].start);
      }
    }
  }

  /** Step kind 1: input[c] is put in front of the suffix unchanged. */
  lemma PrependResolves(input: seq<Subtitle>, c: nat, s: seq<Subtitle>)
    requires BuilderShaped(input) && c + 1 < |input| && Resolved(input, c + 1, s)
    requires input[c].end <= s[0].start
    ensures Resolved(input, c, [input[c]] + s)
  {
    var n := |input|;
    assert input[c].start <= input[c + 1].start <= input[n - 1].start;
    PrependTiled(input[c], s, Duration(input));
    PrependFaithful(input, c, s);
    PrependCuts(input, c, s);
    PrependNoStraddle(input, c, s);
    if Chained(input) {
      assert [input[c]] + input[c + 1..] == input[c..];
    }
  }

  // ---------------------------------------------------------------------------
  // Step kind 2: the resolved suffix starts with input[c]'s exact window

  lemma CoalesceTiled(y: Subtitle, s: seq<Subtitle>, d: int)
    requires Tiled(s, d) && y.start == s[0].start && y.end == s[0].end == y.start + d
    ensures |s| == 1 || y.end <= s[1].start
    ensures Tiled([y] + s[1..], d)
  {
    var r := [y] + s[1..];
    ChainedPairwise(s);
    assert forall k :: 1 <= k < |s| ==> r[k] == s[k];
    assert Reach(r, d) == y.end;
    assert forall k :: 1 <= k < |s| ==> y.end <= s[k].end;
  }

  lemma CoalesceFaithful(input: seq<Subtitle>, c: nat, s: seq<Subtitle>)
    requires BuilderShaped(input) && c + 1 < |input|
    requires Proper(s) && Chained(s) && |s| > 0
    requires s[0].start == input[c].start && s[0].end == input[c].end
    requires AllShow(input[c + 1..], s) && GapsSilent(input[c + 1..], s)
    ensures var r := [input[c].(content := input[c].content + "\n" + s[0].content)] + s[1..];
            AllShow(input[c..], r) && GapsSilent(input[c..], r)
  {
    var x := input[c];
    var x' := x.(content := x.content + "\n" + s[0].content);
    var r := [x'] + s[1..];
    ChainedPairwise(s);
    assert forall k :: 1 <= k < |s| ==> r[k] == s[k];
    forall k | 0 <= k < |r| ensures Shows(input[c..], r[k]) {
      if k == 0 {
        ShowsStacked(input, c, s[0], x');
      } else {
        ShowsPast(input, c, s[k], s[k]);
      }
    }
    forall k | 0 <= k < |r| - 1 ensures Silent(input[c..], r[k].end, r[k + 1].start) {
      SilentPast(input, c, s[k].end, s[k + 1].start);
    }
  }

  /** Step kind 2: the two become one entry with input[c]'s text on top, and
      the entry after it starts no earlier than input[c] ends. */
  lemma CoalesceResolves(input: seq<Subtitle>, c: nat, s: seq<Subtitle>)
    requires BuilderShaped(input) && c + 1 < |input| && Resolved(input, c + 1, s)
    requires s[0].start == input[c].start && s[0].end == input[c].end
    ensures |s| == 1 || input[c].end <= s[1].start
    ensures Resolved(input, c, [input[c].(content := input[c].content + "\n" + s[0].content)] + s[1..])
  {
    var n := |input|;
    var x' := input[c].(content := input[c].content + "\n" + s[0].content);
    assert input[c].start <= input[c + 1].start <= input[n - 1].start;
    CoalesceTiled(x', s, Duration(input));
    CoalesceFaithful(input, c, s);
    CoalesceCuts(input, c, s, x');
    CoalesceNoStraddle(input, c, s, x');
  }

  // ---------------------------------------------------------------------------
  // Step kind 3: input[c] reaches into the suffix and s[j] outlasts it

  /** Where the step must split something, it can: input[c] ends before the
      last entry does, so a later entry outlasting it exists. */
  lemma OverlapEndsBeforeLast(input: seq<Subtitle>, c: nat, s: seq<Subtitle>)
    requires BuilderShaped(input) && c + 1 < |input| && Resolved(input, c + 1, s)
    requires !(s[0].start == input[c].start && s[0].end == input[c].end)
    ensures input[c].end < s[|s| - 1].end
  {
    var n := |input|;
    assert input[c].start <= input[c + 1].start <= input[n - 1].start;
  }

  /** Up to the end of x the suffix has no gap, so the entry to split starts
      no later than x ends. */
  lemma NoGapWithinReach(x: Subtitle, s: seq<Subtitle>, d: int, j: nat)
    requires Tiled(s, d) && x.start <= s[0].start < x.end == x.start + d
    requires !(s[0].start == x.start && s[0].end == x.end)
    requires j < |s| && forall k :: 0 <= k < j ==> s[k].end <= x.end
    ensures forall k :: 0 <= k < j ==> s[k].end == s[k + 1].start
    ensures s[j].start <= x.end
  {
    assert x.end < Reach(s, d);
    if j > 0 {
      assert s[j - 1].end == s[j].start;
    }
  }

  /** The split pieces and the pieces around them have non-negative length
      and follow one another without overlap. */
  lemma OverlaidChained(x: Subtitle, s: seq<Subtitle>, j: nat)
    requires Proper(s) && Chained(s) && |s| > 0 && x.start <= s[0].start
    requires j < |s| && s[j].start <= x.end < s[j].end
    requires forall k :: 0 <= k < j ==> s[k].end == s[k + 1].start
    ensures Proper(Overlaid(x, s, j)) && Chained(Overlaid(x, s, j))
  {
    var r := Overlaid(x, s, j);
    forall k | 0 <= k < |r| ensures r[k].start <= r[k].end {
      if 0 < k <= j {
        assert r[k].start == s[k - 1].start && r[k].end == s[k - 1].end;
      } else if k > j + 2 {
        assert r[k] == s[k - 2];
      }
    }
    forall k | 0 <= k < |r| - 1 ensures r[k].end <= r[k + 1].start {
      if 0 < k <= j {
        assert r[k].end == s[k - 1].end && r[k + 1].start == s[k].start;
      } else if k > j + 1 {
        assert r[k].end == s[k - 2].end && r[k + 1] == s[k - 1];
      }
    }
  }

  /** Every piece of the split suffix that ends by x's end is followed by one
      starting where it ends. */
  lemma OverlaidContig(x: Subtitle, s: seq<Subtitle>, j: nat)
    requires Proper(s) && Chained(s) && |s| > 0
    requires j < |s| && x.end < s[j].end
    requires forall k :: 0 <= k < j ==> s[k].end == s[k + 1].start
    ensures Contig(Overlaid(x, s, j), x.end + 1)
  {
    var r := Overlaid(x, s, j);
    ChainedPairwise(s);
    assert forall k :: j < k < |s| ==> x.end < s[k].end;
    forall k | 0 <= k < |r| - 1 && r[k].end < x.end + 1 ensures r[k].end == r[k + 1].start {
      if 0 < k <= j {
        assert r[k].end == s[k - 1].end && r[k + 1].start == s[k].start;
      }
    }
  }

  lemma SplitTiled(x: Subtitle, s: seq<Subtitle>, d: int, j: nat)
    requires Tiled(s, d) && x.start <= s[0].start < x.end == x.start + d
    requires j < |s| && x.end < s[j].end && s[j].start <= x.end
    requires forall k :: 0 <= k < j ==> s[k].end <= x.end && s[k].end == s[k + 1].start
    ensures var r := Overlaid(x, s, j);
            Tiled(r, d) && r[0].start == x.start && r[|r| - 1].end == s[|s| - 1].end
  {
    var r := Overlaid(x, s, j);
    OverlaidChained(x, s, j);
    OverlaidContig(x, s, j);
    assert Reach(r, d) == x.end + 1;
  }

  lemma SplitShows(input: seq<Subtitle>, c: nat, s: seq<Subtitle>, j: nat)
    requires BuilderShaped(input) && c + 1 < |input|
    requires Proper(s) && Chained(s) && AllShow(input[c + 1..], s)
    requires 0 < |s| && s[0].start == input[c + 1].start < input[c].end
    requires j < |s| && input[c].end < s[j].end && s[j].start <= input[c].end
    requires forall k :: 0 <= k < j ==> s[k].end <= input[c].end
    ensures AllShow(input[c..], Overlaid(input[c], s, j))
  {
    var x := input[c];
    var r := Overlaid(x, s, j);
    ChainedPairwise(s);
    assert x.start <= s[0].start;
    forall k | 0 <= k < |r| ensures Shows(input[c..], r[k]) {
      if k == 0 {
        ShowsAlone(input, c, r[0]);
      } else if k <= j {
        assert s[0].start <= s[k - 1].start;
        ShowsStacked(input, c, s[k - 1], r[k]);
      } else if k == j + 1 {
        assert s[0].start <= s[j].start;
        ShowsStacked(input, c, s[j], r[k]);
      } else if k == j + 2 {
        ShowsPast(input, c, s[j], r[k]);
      } else {
        assert s[j].end <= s[k - 2].start;
        ShowsPast(input, c, s[k - 2], r[k]);
      }
    }
  }

  lemma SplitSilent(input: seq<Subtitle>, c: nat, s: seq<Subtitle>, j: nat)
    requires c + 1 < |input|
    requires Proper(s) && Chained(s) && GapsSilent(input[c + 1..], s)
    requires j < |s| && input[c].end < s[j].end
    requires forall k :: 0 <= k < j ==> s[k].end == s[k + 1].start
    ensures GapsSilent(input[c..], Overlaid(input[c], s, j))
  {
    var r := Overlaid(input[c], s, j);
    ChainedPairwise(s);
    forall k | 0 <= k < |r| - 1 ensures Silent(input[c..], r[k].end, r[k + 1].start) {
      if k > j + 1 {
        assert r[k].end == s[k - 2].end && r[k + 1].start == s[k - 1].start;
        assert s[j].end <= s[k - 2].end;
        SilentPast(input, c, s[k - 2].end, s[k - 1].start);
      } else if 0 < k <= j {
        assert r[k].end == s[k - 1].end && r[k + 1].start == s[k].start;
      }
    }
  }

  /** Step kind 3: after the split the suffix is resolved one step further. */
  lemma SplitResolves(input: seq<Subtitle>, c: nat, s: seq<Subtitle>, j: nat)
    requires BuilderShaped(input) && c + 1 < |input| && Resolved(input, c + 1, s)
    requires !(s[0].start == input[c].start && s[0].end == input[c].end)
    requires s[0].start < input[c].end
    requires j < |s| && input[c].end < s[j].end
    requires forall k :: 0 <= k < j ==> s[k].end <= input[c].end
    ensures Resolved(input, c, Overlaid(input[c], s, j))
  {
    var n := |input|;
    var d := Duration(input);
    assert input[c].start <= input[c + 1].start;
    assert input[c].end == input[c].start + d;
    OverlapEndsBeforeLast(input, c, s);
    NoGapWithinReach(input[c], s, d, j);
    SplitTiled(input[c], s, d, j);
    SplitShows(input, c, s, j);
    SplitSilent(input, c, s, j);
    SplitCuts(input, c, s, j);
    SplitNoStraddle(input, c, s, j);
  }
}
