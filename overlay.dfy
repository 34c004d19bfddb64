/** The overlay sweep of merge (ttv2srt.py:155-180): walking backward over the
    list, coalescing identical neighbours and splitting the first later entry
    that outlasts the current one, so that the list becomes a sequence of
    non-overlapping display windows with stacked text. */
module Overlay {
  import opened Captions
  import opened Tiling

  // ---------------------------------------------------------------------------
  // The individual list operations of one sweep step

  /** Two entries with identical windows (lines 159-161): the second one's text
      goes under the first one's and the second one leaves the list. */
  function Coalesce(subs: seq<Subtitle>, curr: nat): (r: seq<Subtitle>)
    requires curr + 1 < |subs|
    ensures |r| == |subs| - 1
    ensures forall k :: 0 <= k < curr ==> r[k] == subs[k]
    ensures r[curr] == subs[curr].(content := subs[curr].content + "\n" + subs[curr + 1].content)
    ensures forall k :: curr < k < |r| ==> r[k] == subs[k + 1]
  {
    var merged := subs[curr := subs[curr].(content := subs[curr].content + "\n" + subs[curr + 1].content)];
    merged[..curr + 1] + merged[curr + 2..]
  }

  /** Splitting entry sel at instant at (lines 166-172): a copy is inserted in
      front of it, the copy ends at `at` and the original now starts there;
      both keep the text and the index. */
  function Split(subs: seq<Subtitle>, sel: nat, at: int): (r: seq<Subtitle>)
    requires sel < |subs|
    ensures |r| == |subs| + 1
    ensures forall k :: 0 <= k < sel ==> r[k] == subs[k]
    ensures r[sel] == subs[sel].(end := at)
    ensures r[sel + 1] == subs[sel].(start := at)
    ensures forall k :: sel + 1 < k < |r| ==> r[k] == subs[k - 1]
  {
    var copied := subs[..sel] + [subs[sel]] + subs[sel..];
    copied[sel + 1 := copied[sel + 1].(start := at)][sel := copied[sel].(end := at)]
  }

  /** The j loop (lines 173-176): every entry after curr up to and including
      sel gets curr's text stacked on top of its own; nothing else changes. */
  method StackContent(subs0: seq<Subtitle>, curr: nat, sel: nat) returns (subs: seq<Subtitle>)
    requires curr < sel < |subs0|
    ensures |subs| == |subs0|
    ensures forall k :: 0 <= k < |subs| ==>
      subs[k] == if curr < k <= sel then subs0[k].(content := subs0[curr].content + "\n" + subs0[k].content)
                 else subs0[k]
  {
    subs := subs0;
    var j := 0;
    while sel - j > curr
      invariant 0 <= j <= sel - curr
      invariant |subs| == |subs0|
      invariant forall k :: 0 <= k < |subs| ==>
        subs[k] == if sel - j < k <= sel then subs0[k].(content := subs0[curr].content + "\n" + subs0[k].content)
                   else subs0[k]
    {
      subs := subs[sel - j := subs[sel - j].(content := subs[curr].content + "\n" + subs[sel - j].content)];
      j := j + 1;
    }
  }

  /** The inner loop's guard with the bounds check line 163 lacks: an entry
      follows curr and curr still reaches into it. */
  predicate Overlapping(subs: seq<Subtitle>, curr: nat, nxt: nat)
    requires curr < |subs|
    ensures Overlapping(subs, curr, nxt) ==> nxt < |subs|
  {
    nxt < |subs| && subs[curr].end > subs[nxt].start
  }

  // ---------------------------------------------------------------------------
  // One step and the whole sweep

  /** The working list of a sweep standing at curr + 1, taken apart: the
      untouched entries before curr, input[curr], and the resolved rest. */
  lemma SweptParts(input: seq<Subtitle>, curr: nat, subs0: seq<Subtitle>)
    requires BuilderShaped(input) && curr + 1 < |input| && Swept(input, curr + 1, subs0)
    ensures subs0 == input[..curr] + [input[curr]] + subs0[curr + 1..]
    ensures subs0 == input[..curr] + ([input[curr]] + subs0[curr + 1..])
    ensures Resolved(input, curr + 1, subs0[curr + 1..])
  {
    ListParts(input, curr, subs0);
  }

  lemma ListParts(input: seq<Subtitle>, curr: nat, subs0: seq<Subtitle>)
    requires curr < |input| && curr < |subs0| && subs0[..curr + 1] == input[..curr + 1]
    ensures subs0 == input[..curr] + [input[curr]] + subs0[curr + 1..]
    ensures subs0 == input[..curr] + ([input[curr]] + subs0[curr + 1..])
  {
    assert subs0 == subs0[..curr + 1] + subs0[curr + 1..];
    assert input[..curr + 1] == input[..curr] + [input[curr]];
  }

  /** Putting the untouched entries back in front of a resolved suffix. */
  lemma SweptJoin(input: seq<Subtitle>, lo: nat, r: seq<Subtitle>)
    requires BuilderShaped(input) && lo < |input| && Resolved(input, lo, r)
    ensures Swept(input, lo, input[..lo] + r)
  {
    var subs := input[..lo] + r;
    assert subs[..lo] == input[..lo];
    assert subs[lo..] == r;
  }

  /** Coalescing at curr changes only the suffix from curr on. */
  lemma CoalesceSplice(pre: seq<Subtitle>, x: Subtitle, s: seq<Subtitle>)
    requires |s| > 0
    ensures Coalesce(pre + [x] + s, |pre|) == pre + ([x.(content := x.content + "\n" + s[0].content)] + s[1..])
  {
    var subs := pre + [x] + s;
    var a := Coalesce(subs, |pre|);
    var b := pre + ([x.(content := x.content + "\n" + s[0].content)] + s[1..]);
    assert |a| == |b|;
    forall k | 0 <= k < |a| ensures a[k] == b[k] {
      if k > |pre| {
        assert subs[k + 1] == s[k - |pre|];
      }
    }
  }

  /** Splitting, stacking and cutting curr back change the list from curr on
      into the overlaid suffix. */
  lemma SplitSplice(pre: seq<Subtitle>, x: Subtitle, s: seq<Subtitle>, j: nat, b: seq<Subtitle>)
    requires j < |s|
    requires var a := Split(pre + [x] + s, |pre| + 1 + j, x.end);
      |b| == |a| &&
      forall k :: 0 <= k < |b| ==>
        b[k] == if |pre| < k <= |pre| + 1 + j then a[k].(content := a[|pre|].content + "\n" + a[k].content) else a[k]
    ensures b[|pre| := b[|pre|].(end := b[|pre| + 1].start)] == pre + Overlaid(x, s, j)
  {
    var c := |pre|;
    var subs := pre + [x] + s;
    var a := Split(subs, c + 1 + j, x.end);
    var r := b[c := b[c].(end := b[c + 1].start)];
    var o := pre + Overlaid(x, s, j);
    assert a[c] == x;
    assert |r| == |o|;
    forall k | 0 <= k < |r| ensures r[k] == o[k] {
      if k == c {
        assert b[c + 1].start == s[0].start;
      } else if c < k < c + 1 + j {
        assert a[k] == subs[k] == s[k - c - 1];
      } else if k > c + 2 + j {
        assert a[k] == subs[k - 1] == s[k - c - 2];
      } else if k > c {
        assert subs[c + 1 + j] == s[j];
      }
    }
  }

  /** An identical window: after coalescing, the step is done. */
  lemma CoalescedCase(input: seq<Subtitle>, curr: nat, subs0: seq<Subtitle>)
    requires BuilderShaped(input) && curr + 1 < |input| && Swept(input, curr + 1, subs0)
    requires subs0[curr].start == subs0[curr + 1].start && subs0[curr].end == subs0[curr + 1].end
    ensures !Overlapping(Coalesce(subs0, curr), curr, curr + 1) && Swept(input, curr, Coalesce(subs0, curr))
  {
    SweptParts(input, curr, subs0);
    var s := subs0[curr + 1..];
    var x := input[curr];
    assert subs0[curr] == x && subs0[curr + 1] == s[0];
    var r := [x.(content := x.content + "\n" + s[0].content)] + s[1..];
    CoalesceResolves(input, curr, s);
    CoalesceSplice(input[..curr], x, s);
    SweptJoin(input, curr, r);
    var subs := input[..curr] + r;
    assert subs[curr] == r[0];
    if curr + 1 < |subs| {
      assert subs[curr + 1] == s[1];
    }
  }

  /** No overlap: the step is done without changing the list. */
  lemma DisjointCase(input: seq<Subtitle>, curr: nat, subs0: seq<Subtitle>)
    requires BuilderShaped(input) && curr + 1 < |input| && Swept(input, curr + 1, subs0)
    requires subs0[curr].end <= subs0[curr + 1].start
    ensures Swept(input, curr, subs0)
  {
    SweptParts(input, curr, subs0);
    var s := subs0[curr + 1..];
    assert subs0[curr] == input[curr] && subs0[curr + 1] == s[0];
    PrependResolves(input, curr, s);
    SweptJoin(input, curr, [input[curr]] + s);
  }

  /** A real overlap: a later entry outlasts curr, so the scan will split. */
  lemma OverlapCase(input: seq<Subtitle>, curr: nat, subs0: seq<Subtitle>)
    requires BuilderShaped(input) && curr + 1 < |input| && Swept(input, curr + 1, subs0)
    requires !(subs0[curr].start == subs0[curr + 1].start && subs0[curr].end == subs0[curr + 1].end)
    ensures subs0[curr].end < subs0[|subs0| - 1].end
  {
    SweptParts(input, curr, subs0);
    var s := subs0[curr + 1..];
    assert subs0[curr] == input[curr] && subs0[curr + 1] == s[0];
    OverlapEndsBeforeLast(input, curr, s);
    assert subs0[|subs0| - 1] == s[|s| - 1];
  }

  /** The inner guard as line 163 writes it: it reads subs[nxt] without first
      checking that nxt is still in the list, so None stands for the
      IndexError that read raises. Overlapping is the guard with that check. */
  function GuardAsWritten(subs: seq<Subtitle>, curr: nat, nxt: nat): (r: Option<bool>)
    requires curr < |subs|
    ensures r == None <==> nxt >= |subs|
    ensures r != None ==> (r.value <==> Overlapping(subs, curr, nxt))
  {
    if nxt < |subs| then Some(subs[curr].end > subs[nxt].start) else None
  }

  /** When the last two entries share their window, the very first pass of
      the outer loop coalesces them, deleting the last entry, and the guard
      as written then reads past the end of the list. */
  lemma IdenticalTailRaises(subs: seq<Subtitle>)
    requires |subs| >= 2
    requires subs[|subs| - 2].start == subs[|subs| - 1].start && subs[|subs| - 2].end == subs[|subs| - 1].end
    ensures GuardAsWritten(Coalesce(subs, |subs| - 2), |subs| - 2, |subs| - 1) == None
    ensures !Overlapping(Coalesce(subs, |subs| - 2), |subs| - 2, |subs| - 1)
  {
  }

  /** Two comments posted at the same offset (10.5 s, a fractional offset, so
      the timestamp text is the intended one) are the smallest builder output
      that makes merge as written fail. */
  lemma SameOffsetPairRaises()
    ensures var subs := [Subtitle(1, 10500, 70500, "x"), Subtitle(2, 10500, 70500, "y")];
      BuilderShaped(subs) && GuardAsWritten(Coalesce(subs, 0), 0, 1) == None
  {
    var subs := [Subtitle(1, 10500, 70500, "x"), Subtitle(2, 10500, 70500, "y")];
    IdenticalTailRaises(subs);
  }

  /** The body of the inner loop once it has found entry sel outlasting curr
      (lines 165-177): split sel at curr's end, stack curr's text on the
      entries from curr + 1 up to the left piece, and cut curr back to where
      the next entry starts. */
  method SplitAt(subs0: seq<Subtitle>, curr: nat, sel: nat) returns (subs: seq<Subtitle>)
    requires curr < sel < |subs0|
    ensures subs == subs0[..curr] + Overlaid(subs0[curr], subs0[curr + 1..], sel - curr - 1)
  {
    ghost var x := subs0[curr];
    ghost var s := subs0[curr + 1..];
    assert subs0 == subs0[..curr] + [x] + s;
    var nxt := curr + 1;
    subs := Split(subs0, sel, subs0[curr].end);
    subs := StackContent(subs, curr, sel);
    SplitSplice(subs0[..curr], x, s, sel - curr - 1, subs);
    subs := subs[curr := subs[curr].(end := subs[nxt].start)];
  }

  /** The inner loop (lines 163-178): while curr still reaches into the entry
      after it, look for the first later entry that outlasts curr; split it
      at curr's end, stack curr's text on everything from curr + 1 up to the
      left piece, and cut curr back to where the next entry starts. The
      guard also checks that an entry follows curr; see README "Findings". */
  method SplitOverlap(subs0: seq<Subtitle>, curr: nat) returns (subs: seq<Subtitle>, ghost j: nat)
    requires curr < |subs0|
    requires Overlapping(subs0, curr, curr + 1) ==> subs0[curr].end < subs0[|subs0| - 1].end
    ensures !Overlapping(subs0, curr, curr + 1) ==> subs == subs0
    ensures Overlapping(subs0, curr, curr + 1) ==> |subs| == |subs0| + 1 && !Overlapping(subs, curr, curr + 1)
    ensures Overlapping(subs0, curr, curr + 1) ==>
      var s := subs0[curr + 1..];
      j < |s| && subs0[curr].end < s[j].end && (forall k :: 0 <= k < j ==> s[k].end <= subs0[curr].end) &&
      subs == subs0[..curr] + Overlaid(subs0[curr], s, j)
  {
    ghost var s := subs0[curr + 1..];
    ghost var x := subs0[curr];
    var nxt := curr + 1;
    subs := subs0;
    j := 0;
    ghost var done := false;
    var i := 0;
    while nxt < |subs| && subs[curr].end > subs[nxt].start
      invariant i <= |s| && curr < |subs|
      invariant !done ==> subs == subs0 && forall k :: 0 <= k < i ==> s[k].end <= x.end
      invariant done ==> !Overlapping(subs, curr, nxt) && Overlapping(subs0, curr, nxt)
      invariant done ==> j < |s| && x.end < s[j].end && forall k :: 0 <= k < j ==> s[k].end <= x.end
      invariant done ==> subs == subs0[..curr] + Overlaid(x, s, j)
      decreases |s| - i
    {
      var sel := nxt + i;
      assert s[|s| - 1] == subs0[|subs0| - 1];
      assert subs[curr] == x && subs[sel] == s[i];
      if subs[curr].end < subs[sel].end {
        subs := SplitAt(subs, curr, sel);
        j := i;
        done := true;
        assert subs[curr] == Overlaid(x, s, j)[0] && subs[nxt] == Overlaid(x, s, j)[1];
      }
      i := i + 1;
    }
  }

  /** The coalesce of lines 159-161 and what it leaves for the scan: either
      nothing overlaps any more and the step is done, or the list is
      unchanged, curr's window differs from the next one's and the last entry
      outlasts curr. */
  lemma CoalesceStep(input: seq<Subtitle>, curr: nat, subs0: seq<Subtitle>, subs1: seq<Subtitle>)
    requires BuilderShaped(input) && curr + 1 < |input| && Swept(input, curr + 1, subs0)
    requires subs1 == if subs0[curr].end == subs0[curr + 1].end && subs0[curr].start == subs0[curr + 1].start
                      then Coalesce(subs0, curr) else subs0
    ensures curr < |subs1| <= |subs0|
    ensures !Overlapping(subs1, curr, curr + 1) ==> Swept(input, curr, subs1)
    ensures Overlapping(subs1, curr, curr + 1) ==>
      subs1 == subs0 && !(subs0[curr].end == subs0[curr + 1].end && subs0[curr].start == subs0[curr + 1].start) &&
      subs1[curr].end < subs1[|subs1| - 1].end
  {
    if subs0[curr].end == subs0[curr + 1].end && subs0[curr].start == subs0[curr + 1].start {
      CoalescedCase(input, curr, subs0);
    } else if subs0[curr].end <= subs0[curr + 1].start {
      DisjointCase(input, curr, subs0);
    } else {
      OverlapCase(input, curr, subs0);
    }
  }

  /** The scan of lines 163-178 when curr overlaps the resolved rest: the
      split leaves the list resolved from curr on. */
  lemma SplitStep(input: seq<Subtitle>, curr: nat, subs0: seq<Subtitle>, subs: seq<Subtitle>, j: nat)
    requires BuilderShaped(input) && curr + 1 < |input| && Swept(input, curr + 1, subs0)
    requires Overlapping(subs0, curr, curr + 1)
    requires !(subs0[curr].end == subs0[curr + 1].end && subs0[curr].start == subs0[curr + 1].start)
    requires var s := subs0[curr + 1..];
      j < |s| && subs0[curr].end < s[j].end && (forall k :: 0 <= k < j ==> s[k].end <= subs0[curr].end) &&
      subs == subs0[..curr] + Overlaid(subs0[curr], s, j)
    ensures |subs| == |subs0| + 1
    ensures Swept(input, curr, subs)
  {
    SweptParts(input, curr, subs0);
    var s := subs0[curr + 1..];
    assert subs0[curr] == input[curr] && subs0[curr + 1] == s[0];
    assert subs0[..curr] == input[..curr];
    SplitResolves(input, curr, s, j);
    SweptJoin(input, curr, Overlaid(input[curr], s, j));
  }

  /** One pass of the outer loop body (lines 159-178) at position curr:
      coalesce an identical neighbour, then split what curr overlaps. */
  method ResolveAt(ghost input: seq<Subtitle>, subs0: seq<Subtitle>, curr: nat, nxt: nat)
    returns (subs: seq<Subtitle>)
    requires BuilderShaped(input) && nxt == curr + 1 && nxt < |input|
    requires Swept(input, nxt, subs0)
    ensures Swept(input, curr, subs)
    ensures |subs| <= |subs0| + 1
  {
    var subs1 := subs0;
    if subs1[curr].end == subs1[nxt].end && subs1[curr].start == subs1[nxt].start {
      subs1 := Coalesce(subs1, curr);
    }
    CoalesceStep(input, curr, subs0, subs1);
    ghost var overlapped := Overlapping(subs1, curr, nxt);
    ghost var j;
    subs, j := SplitOverlap(subs1, curr);
    if overlapped {
      SplitStep(input, curr, subs0, subs, j);
    }
  }

  /** The outer loop (lines 155-180): from the second-to-last entry back to the
      first, each entry is resolved against everything after it. Lists of
      fewer than two entries are left alone. */
  method Sweep(input: seq<Subtitle>) returns (subs: seq<Subtitle>)
    requires BuilderShaped(input)
    ensures |input| == 0 ==> subs == []
    ensures |input| > 0 ==> Resolved(input, 0, subs)
  {
    subs := input;
    var curr := |subs| - 2;
    var nxt := curr + 1;
    if |input| > 0 {
      LastResolved(input);
    }
    while curr >= 0
      invariant nxt == curr + 1
      invariant |input| == 0 ==> subs == []
      invariant |input| > 0 ==> -1 <= curr && nxt < |input| && Swept(input, nxt, subs)
    {
      subs := ResolveAt(input, subs, curr, nxt);
      curr := curr - 1;
      nxt := nxt - 1;
    }
    if |input| > 0 {
      assert subs[0..] == subs;
    }
  }
}
