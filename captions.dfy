/** Caption entries and what a caption track shows at a given instant.
    Times are integer milliseconds from the start of the video. */
module Captions {

  datatype Option<T> = None | Some(value: T)

  /** One SubRip entry as the srt library represents it: its sequence number,
      its display window [start, end) and its text block. */
  datatype Subtitle = Subtitle(index: int, start: int, end: int, content: string)

  /** Entry x is on screen at instant t. */
  predicate Covers(x: Subtitle, t: int) {
    x.start <= t < x.end
  }

  /** A text block made of the given lines, one per line, in order. */
  function Join(lines: seq<string>): string {
    if |lines| == 0 then ""
    else if |lines| == 1 then lines[0]
    else lines[0] + "\n" + Join(lines[1..])
  }

  /** Stacking a line on top of a non-empty block is joining one more line. */
  lemma JoinCons(line: string, rest: seq<string>)
    requires rest != []
    ensures Join([line] + rest) == line + "\n" + Join(rest)
  {
    assert ([line] + rest)[1..] == rest;
  }

  /** The texts of the entries of s on screen at instant t, in list order. */
  function Active(s: seq<Subtitle>, t: int): (r: seq<string>)
    ensures r == [] <==> forall k :: 0 <= k < |s| ==> !Covers(s[k], t)
    ensures |r| <= |s|
  {
    if s == [] then []
    else
      assert forall k :: 1 <= k < |s| ==> s[1..][k - 1] == s[k];
      (if Covers(s[0], t) then [s[0].content] else []) + Active(s[1..], t)
  }

  /** Peeling the first entry off a suffix of a list. */
  lemma ActiveStep(s: seq<Subtitle>, c: nat, t: int)
    requires c < |s|
    ensures Active(s[c..], t) == (if Covers(s[c], t) then [s[c].content] else []) + Active(s[c + 1..], t)
  {
    assert s[c..][1..] == s[c + 1..];
  }

  /** What a track of non-overlapping entries should show at instant t to
      reproduce inp: everything inp shows then, stacked into one block, or
      nothing when inp shows nothing. */
  function Flat(inp: seq<Subtitle>, t: int): (r: seq<string>)
    ensures |r| <= 1
    ensures r == [] <==> Active(inp, t) == []
  {
    var lines := Active(inp, t);
    if lines == [] then [] else [Join(lines)]
  }

  /** Entry x, wherever it is on screen, displays exactly the stacked texts of
      the entries of inp on screen at that instant, and at least one is. */
  ghost predicate Shows(inp: seq<Subtitle>, x: Subtitle) {
    forall t :: Covers(x, t) ==> Active(inp, t) != [] && x.content == Join(Active(inp, t))
  }

  /** No entry of inp is on screen anywhere in [a, b). */
  ghost predicate Silent(inp: seq<Subtitle>, a: int, b: int) {
    forall t :: a <= t < b ==> Active(inp, t) == []
  }
}
