/** The two passes of merge after the overlay sweep (ttv2srt.py:182-191):
    dropping entries left with an empty window, and numbering the entries
    from 1 in list order. */
module Cleanup {
  import opened Captions

  /** No entry of s ends after a later entry starts. */
  predicate Disjoint(s: seq<Subtitle>) {
    forall i, k :: 0 <= i < k < |s| ==> s[i].end <= s[k].start
  }

  /** The entries of s whose window is not empty, in their order. */
  function NonEmpty(s: seq<Subtitle>): (r: seq<Subtitle>)
    ensures |r| <= |s|
    ensures forall k :: 0 <= k < |r| ==> r[k].start != r[k].end
  {
    if s == [] then []
    else (if s[0].start == s[0].end then [] else [s[0]]) + NonEmpty(s[1..])
  }

  /** Exactly the entries with a non-empty window survive. */
  lemma {:induction false} NonEmptyMembers(s: seq<Subtitle>, x: Subtitle)
    ensures x in NonEmpty(s) <==> x in s && x.start != x.end
  {
    if s != [] {
      NonEmptyMembers(s[1..], x);
      assert x in s <==> x == s[0] || x in s[1..] by {
        assert s == [s[0]] + s[1..];
      }
    }
  }

  /** Peeling the first entry off a suffix of a list. */
  lemma NonEmptyStep(s: seq<Subtitle>, i: nat)
    requires i < |s|
    ensures NonEmpty(s[i..]) == (if s[i].start == s[i].end then [] else [s[i]]) + NonEmpty(s[i + 1..])
  {
    assert s[i..][1..] == s[i + 1..];
  }

  /** An entry with an empty window is never on screen, so dropping those
      changes nothing that is shown at any instant. */
  lemma {:induction false} NonEmptyActive(s: seq<Subtitle>, t: int)
    ensures Active(NonEmpty(s), t) == Active(s, t)
  {
    if s != [] {
      NonEmptyActive(s[1..], t);
      var q := NonEmpty(s);
      if s[0].start == s[0].end {
        assert q == NonEmpty(s[1..]);
        assert !Covers(s[0], t);
      } else {
        assert q == [s[0]] + NonEmpty(s[1..]);
        assert q[0] == s[0] && q[1..] == NonEmpty(s[1..]);
      }
    }
  }

  /** Dropping entries keeps the rest in non-overlapping order. */
  lemma {:induction false} NonEmptyDisjoint(s: seq<Subtitle>)
    requires Disjoint(s)
    ensures Disjoint(NonEmpty(s))
  {
    if s != [] {
      var rest := s[1..];
      assert Disjoint(rest) by {
        forall i, k | 0 <= i < k < |rest| ensures rest[i].end <= rest[k].start {
          assert rest[i] == s[i + 1] && rest[k] == s[k + 1];
        }
      }
      NonEmptyDisjoint(rest);
      var r := NonEmpty(rest);
      if s[0].start != s[0].end {
        forall k | 0 <= k < |r| ensures s[0].end <= r[k].start {
          NonEmptyMembers(rest, r[k]);
          var m :| 0 <= m < |rest| && rest[m] == r[k];
          assert rest[m] == s[m + 1];
        }
        assert NonEmpty(s) == [s[0]] + r;
        forall i, k | 0 <= i < k < |[s[0]] + r| ensures ([s[0]] + r)[i].end <= ([s[0]] + r)[k].start {
          if i > 0 {
            assert ([s[0]] + r)[i] == r[i - 1] && ([s[0]] + r)[k] == r[k - 1];
          }
        }
      }
    }
  }

  /** A list without empty windows is left as it is. */
  lemma {:induction false} NonEmptyKeeps(s: seq<Subtitle>)
    requires forall k :: 0 <= k < |s| ==> s[k].start != s[k].end
    ensures NonEmpty(s) == s
  {
    if s != [] {
      assert forall k :: 0 <= k < |s[1..]| ==> s[1..][k] == s[k + 1];
      NonEmptyKeeps(s[1..]);
      assert [s[0]] + s[1..] == s;
    }
  }

  /** Dropping twice drops nothing more. */
  lemma NonEmptyIdempotent(s: seq<Subtitle>)
    ensures NonEmpty(NonEmpty(s)) == NonEmpty(s)
  {
    NonEmptyKeeps(NonEmpty(s));
  }

  /** The cleanup loop (lines 182-186): walking backward, every entry whose
      window starts where it ends is deleted. */
  method DropEmpty(subs0: seq<Subtitle>) returns (subs: seq<Subtitle>)
    ensures subs == NonEmpty(subs0)
  {
    subs := subs0;
    var i := |subs| - 1;
    while i >= 0
      invariant -1 <= i < |subs0|
      invariant subs == subs0[..i + 1] + NonEmpty(subs0[i + 1..])
    {
      NonEmptyStep(subs0, i);
      assert subs[i] == subs0[i];
      if subs[i].start == subs[i].end {
        assert subs[..i] == subs0[..i];
        assert subs[i + 1..] == NonEmpty(subs0[i + 1..]);
        subs := subs[..i] + subs[i + 1..];
      } else {
        assert subs0[..i + 1] == subs0[..i] + [subs0[i]];
      }
      i := i - 1;
    }
    assert subs0[0..] == subs0;
  }

  /** The reindex loop (lines 188-191): entry k gets the number k + 1 and
      nothing else changes. */
  method Renumber(subs0: seq<Subtitle>) returns (subs: seq<Subtitle>)
    ensures |subs| == |subs0|
    ensures forall k :: 0 <= k < |subs| ==> subs[k] == subs0[k].(index := k + 1)
  {
    subs := subs0;
    var i := 0;
    while i < |subs|
      invariant |subs| == |subs0| && 0 <= i <= |subs|
      invariant forall k :: 0 <= k < |subs| ==> subs[k] == if k < i then subs0[k].(index := k + 1) else subs0[k]
    {
      subs := subs[i := subs[i].(index := i + 1)];
      i := i + 1;
    }
  }

  /** Numbers do not matter for what is shown. */
  lemma {:induction false} RenumberedActive(s: seq<Subtitle>, r: seq<Subtitle>, t: int)
    requires |r| == |s|
    requires forall k :: 0 <= k < |r| ==> r[k] == s[k].(index := r[k].index)
    ensures Active(r, t) == Active(s, t)
  {
    if s != [] {
      assert forall k :: 0 <= k < |r| - 1 ==> r[1..][k] == r[k + 1] && s[1..][k] == s[k + 1];
      RenumberedActive(s[1..], r[1..], t);
    }
  }
}
