/** The comment loop of main (ttv2srt.py:109-139): every chat comment whose
    message has visible text becomes one caption entry, numbered densely
    from 1, shown for a fixed duration from the moment it was posted. */
module Builder {
  import opened Captions
  import opened Tiling

  /** One piece of a chat message: a plain text fragment carries nothing but
      its text (an object with a single field, line 116); any other fragment
      carries more than one field. */
  datatype Fragment = Plain(text: string) | Decorated(text: string)

  /** A downloaded chat comment: when it was posted (milliseconds into the
      video), who posted it, its message fragments and, when the user picked
      one, the colour of their name. */
  datatype Comment = Comment(offset: int, name: string, fragments: seq<Fragment>, color: Option<string>)

  /** The user settings the loop reads: how long each comment is shown
      in milliseconds (1000 times the whole seconds of `-t`, lines 46-50), whether names are coloured and whether captions sit in
      the bottom-right corner. */
  datatype Settings = Settings(duration: int, colorTags: bool, posTags: bool)

  /** The name colour used when a comment has none (line 131). */
  const DefaultColor: string := "#1E90FF"

  /** The characters Python's str.isspace and str.strip treat as whitespace. */
  const Whitespace: set<char> := {
    '\t', '\n', '\U{000B}', '\U{000C}', '\r', '\U{001C}', '\U{001D}', '\U{001E}', '\U{001F}', ' ',
    '\U{0085}', '\U{00A0}', '\U{1680}', '\U{2000}', '\U{2001}', '\U{2002}', '\U{2003}', '\U{2004}',
    '\U{2005}', '\U{2006}', '\U{2007}', '\U{2008}', '\U{2009}', '\U{200A}', '\U{2028}', '\U{2029}',
    '\U{202F}', '\U{205F}', '\U{3000}'
  }

  predicate IsSpace(c: char) {
    c in Whitespace
  }

  /** The text is empty or all whitespace: `not s or s.isspace()` (line 118). */
  predicate Blank(s: string) {
    forall i :: 0 <= i < |s| ==> IsSpace(s[i])
  }

  /** str.lstrip(): the text without its leading whitespace. */
  function TrimLeft(s: string): (r: string)
    ensures |r| <= |s| && r == s[|s| - |r|..]
    ensures forall i :: 0 <= i < |s| - |r| ==> IsSpace(s[i])
    ensures r == [] || !IsSpace(r[0])
  {
    if s != [] && IsSpace(s[0]) then
      var r := TrimLeft(s[1..]);
      assert forall i :: 0 <= i < |s| - 1 ==> s[1..][i] == s[i + 1];
      r
    else s
  }

  /** str.rstrip() (line 136): the text without its trailing whitespace. */
  function TrimRight(s: string): (r: string)
    ensures |r| <= |s| && r == s[..|r|]
    ensures forall i :: |r| <= i < |s| ==> IsSpace(s[i])
    ensures r == [] || !IsSpace(r[|r| - 1])
  {
    if s != [] && IsSpace(s[|s| - 1]) then
      var r := TrimRight(s[..|s| - 1]);
      assert forall i :: 0 <= i < |s| - 1 ==> s[..|s| - 1][i] == s[i];
      r
    else s
  }

  /** str.strip() (line 117): whitespace removed from both ends, so what is
      left is empty or begins and ends with a visible character. */
  function Strip(s: string): (r: string)
    ensures |r| <= |s|
    ensures r == [] || (!IsSpace(r[0]) && !IsSpace(r[|r| - 1]))
  {
    var l := TrimLeft(s);
    var r := TrimRight(l);
    assert r != [] ==> r[0] == l[0];
    r
  }

  /** Stripping removes only whitespace: everything before the kept piece
      (which TrimLeft and TrimRight show is contiguous) and after it. */
  lemma StripRemovesOnlySpace(s: string)
    ensures var r := Strip(s); var a := |s| - |TrimLeft(s)|;
      a + |r| <= |s| && r == s[a..a + |r|] && forall i :: 0 <= i < a || a + |r| <= i < |s| ==> IsSpace(s[i])
  {
    var l := TrimLeft(s);
    var r := TrimRight(l);
    var a := |s| - |l|;
    assert l == s[a..];
    forall i | a + |r| <= i < |s| ensures IsSpace(s[i]) {
      assert s[i] == l[i - a];
    }
  }

  /** Stripping leaves nothing exactly when the text is blank. */
  lemma StripEmpty(s: string)
    ensures Strip(s) == [] <==> Blank(s)
  {
    var l := TrimLeft(s);
    assert l != [] ==> l[0] == s[|s| - |l|];
    assert forall i :: |s| - |l| <= i < |s| ==> s[i] == l[i - (|s| - |l|)];
  }

  /** The message text the fragment loop (lines 115-117) accumulates: every
      plain fragment stripped and followed by one space, in order; other
      fragments contribute nothing. Unless empty, the text therefore ends
      with the space of its last plain fragment. */
  function MessageText(frs: seq<Fragment>): (r: string)
    ensures r == [] || r[|r| - 1] == ' '
  {
    if frs == [] then ""
    else
      var init := MessageText(frs[..|frs| - 1]);
      match frs[|frs| - 1]
      case Plain(t) => init + (Strip(t) + " ")
      case Decorated(_) => init
  }

  /** The text of one fragment more. */
  lemma MessageTextPrefix(frs: seq<Fragment>, i: nat)
    requires i < |frs|
    ensures MessageText(frs[..i + 1]) == MessageText(frs[..i]) + (if frs[i].Plain? then Strip(frs[i].text) + " " else "")
  {
    assert frs[..i + 1][..i] == frs[..i];
  }

  /** The fragment loop (lines 115-117). */
  method CollectText(frs: seq<Fragment>) returns (text: string)
    ensures text == MessageText(frs)
  {
    text := "";
    var i := 0;
    while i < |frs|
      invariant 0 <= i <= |frs|
      invariant text == MessageText(frs[..i])
    {
      MessageTextPrefix(frs, i);
      if frs[i].Plain? {
        text := text + (Strip(frs[i].text) + " ");
      }
      i := i + 1;
    }
    assert frs[..|frs|] == frs;
  }

  lemma BlankConcat(a: string, b: string)
    ensures Blank(a + b) <==> Blank(a) && Blank(b)
  {
    assert forall i :: 0 <= i < |b| ==> b[i] == (a + b)[|a| + i];
    assert forall i :: 0 <= i < |a| ==> a[i] == (a + b)[i];
  }

  /** A message counts as blank exactly when every plain fragment is blank:
      fragments with more than one field alone never make a caption. */
  lemma {:induction false} BlankMessage(frs: seq<Fragment>)
    ensures Blank(MessageText(frs)) <==> forall i :: 0 <= i < |frs| && frs[i].Plain? ==> Blank(frs[i].text)
  {
    if frs != [] {
      var init := frs[..|frs| - 1];
      var last := frs[|frs| - 1];
      MessageTextStep(init, last);
      BlankMessage(init);
      assert forall i :: 0 <= i < |init| ==> init[i] == frs[i];
    }
  }

  lemma MessageTextStep(init: seq<Fragment>, last: Fragment)
    ensures MessageText(init + [last]) == MessageText(init) + (if last.Plain? then Strip(last.text) + " " else "")
    ensures Blank(MessageText(init + [last])) <==> Blank(MessageText(init)) && (last.Plain? ==> Blank(last.text))
  {
    var frs := init + [last];
    assert frs[..|frs| - 1] == init;
    var tail := if last.Plain? then Strip(last.text) + " " else "";
    BlankConcat(MessageText(init), tail);
    if last.Plain? {
      StripEmpty(last.text);
      BlankConcat(Strip(last.text), " ");
      var r := Strip(last.text);
      if r != [] {
        assert !IsSpace(r[0]);
      }
    }
  }

  /** The comment is kept: its message text is not blank (line 118). */
  predicate Kept(c: Comment) {
    !Blank(MessageText(c.fragments))
  }

  /** The name colour written for a comment (lines 129-132): its own when
      present; when the field is missing or null the lookup or the string
      concatenation raises and the default is used instead. */
  function NameColor(c: Comment): (r: string)
    ensures c.color == None ==> r == DefaultColor
    ensures c.color.Some? ==> r == c.color.value
  {
    match c.color
    case Some(v) => v
    case None => DefaultColor
  }

  /** The corner tag (lines 125-126). */
  function PositionTag(cfg: Settings): string {
    if cfg.posTags then "{\\an3}" else ""
  }

  /** The font tag opening the name (lines 127-133). */
  function NameTag(c: Comment, cfg: Settings): string {
    if cfg.colorTags then "<font color=\"" + NameColor(c) + "\">" else ""
  }

  /** What separates the name from the message (line 135). */
  function Separator(cfg: Settings): string {
    if cfg.colorTags then ": </font><font color=\"#FFFFFF\">" else ": "
  }

  /** The font tag closing the message (line 137). */
  function CloseTag(cfg: Settings): string {
    if cfg.colorTags then "</font>" else ""
  }

  /** The caption text of a kept comment (lines 125-136): the corner tag,
      the coloured name, the separator and the message text without its
      trailing whitespace, closed by the font tag when colouring. The last
      srt block separator belongs to the file layout, not to the text. */
  function Content(c: Comment, text: string, cfg: Settings): (r: string)
    ensures !cfg.colorTags && !cfg.posTags ==> r == c.name + ": " + TrimRight(text)
  {
    PositionTag(cfg) + NameTag(c, cfg) + c.name + Separator(cfg) + TrimRight(text) + CloseTag(cfg)
  }

  /** Without a colour of its own, a coloured name is opened in the default
      colour. */
  lemma DefaultColorUsed(c: Comment, cfg: Settings)
    requires c.color == None && cfg.colorTags
    ensures NameTag(c, cfg) == "<font color=\"#1E90FF\">"
  {
  }

  /** What a kept comment becomes once the srt text has been read back: entry
      number idx, shown from its offset for the configured duration. */
  function Entry(c: Comment, idx: int, cfg: Settings): (r: Subtitle)
    ensures r.index == idx && r.start == c.offset && r.end - r.start == cfg.duration
    ensures cfg.duration > 0 ==> r.start < r.end
  {
    Subtitle(idx, c.offset, c.offset + cfg.duration, Content(c, MessageText(c.fragments), cfg))
  }

  /** The comments that make a caption, in their order. */
  function KeptComments(cs: seq<Comment>): (r: seq<Comment>)
    ensures |r| <= |cs|
    ensures forall k :: 0 <= k < |r| ==> Kept(r[k])
  {
    if cs == [] then []
    else KeptComments(cs[..|cs| - 1]) + (if Kept(cs[|cs| - 1]) then [cs[|cs| - 1]] else [])
  }

  /** Exactly the comments with visible text make a caption. */
  lemma {:induction false} KeptMembers(cs: seq<Comment>, c: Comment)
    ensures c in KeptComments(cs) <==> c in cs && Kept(c)
  {
    if cs != [] {
      var init := cs[..|cs| - 1];
      KeptMembers(init, c);
      assert cs == init + [cs[|cs| - 1]];
    }
  }

  /** Comments in the order they were posted. */
  predicate InOrder(cs: seq<Comment>) {
    forall i, k :: 0 <= i <= k < |cs| ==> cs[i].offset <= cs[k].offset
  }

  /** Skipping comments keeps the rest in posting order. */
  lemma {:induction false} KeptInOrder(cs: seq<Comment>)
    requires InOrder(cs)
    ensures InOrder(KeptComments(cs))
  {
    if cs != [] {
      var init := cs[..|cs| - 1];
      var last := cs[|cs| - 1];
      assert InOrder(init) by {
        forall i, k | 0 <= i <= k < |init| ensures init[i].offset <= init[k].offset {
          assert init[i] == cs[i] && init[k] == cs[k];
        }
      }
      KeptInOrder(init);
      var r := KeptComments(init);
      if Kept(last) {
        forall k | 0 <= k < |r| ensures r[k].offset <= last.offset {
          KeptMembers(init, r[k]);
          var m :| 0 <= m < |init| && init[m] == r[k];
          assert init[m] == cs[m];
        }
        var q := r + [last];
        assert KeptComments(cs) == q;
        forall i, k | 0 <= i <= k < |q| ensures q[i].offset <= q[k].offset {
          if k < |r| {
            assert q[i] == r[i] && q[k] == r[k];
          }
        }
      }
    }
  }

  /** Taking one more comment into account. */
  lemma KeptStep(cs: seq<Comment>, n: nat)
    requires n < |cs|
    ensures KeptComments(cs[..n + 1]) == KeptComments(cs[..n]) + (if Kept(cs[n]) then [cs[n]] else [])
  {
    assert cs[..n + 1][..n] == cs[..n];
  }

  /** Captions of comments in posting order, all shown for the same positive
      duration, have the shape merge relies on. */
  lemma EntriesShaped(cs: seq<Comment>, cfg: Settings, subs: seq<Subtitle>)
    requires InOrder(cs) && cfg.duration > 0 && |subs| == |cs|
    requires forall k :: 0 <= k < |subs| ==> subs[k] == Entry(cs[k], k + 1, cfg)
    ensures BuilderShaped(subs)
  {
  }

  /** The captions of the kept comments have the shape merge relies on when
      the comments arrive in posting order and the duration is positive. */
  lemma BuiltShaped(comments: seq<Comment>, cfg: Settings, subs: seq<Subtitle>)
    requires |subs| == |KeptComments(comments)|
    requires forall k :: 0 <= k < |subs| ==> subs[k] == Entry(KeptComments(comments)[k], k + 1, cfg)
    ensures InOrder(comments) && cfg.duration > 0 ==> BuilderShaped(subs)
  {
    if InOrder(comments) && cfg.duration > 0 {
      KeptInOrder(comments);
      EntriesShaped(KeptComments(comments), cfg, subs);
    }
  }

  /** One more caption keeps the entries numbered in step with the comments. */
  lemma EntriesStep(subs: seq<Subtitle>, kept: seq<Comment>, c: Comment, cfg: Settings)
    requires |subs| == |kept|
    requires forall k :: 0 <= k < |subs| ==> subs[k] == Entry(kept[k], k + 1, cfg)
    ensures forall k :: 0 <= k < |subs| + 1 ==>
      (subs + [Entry(c, |subs| + 1, cfg)])[k] == Entry((kept + [c])[k], k + 1, cfg)
  {
  }

  /** One pass of the comment loop (lines 110-137): collect the message text;
      a blank one means the comment is skipped, otherwise the entry numbered
      idx is shown from the comment's offset for the configured duration. */
  method Caption(c: Comment, idx: int, cfg: Settings) returns (keep: bool, entry: Subtitle)
    ensures keep == Kept(c)
    ensures keep ==> entry == Entry(c, idx, cfg)
  {
    var text := CollectText(c.fragments);
    keep := !Blank(text);
    entry := Entry(c, idx, cfg);
  }

  /** The comment loop (lines 109-139): the message text of each comment is
      collected; a blank one is skipped without using up a number; every
      other comment becomes the next entry. For comments in posting order and
      a positive duration the result has the shape merge relies on. */
  method Build(comments: seq<Comment>, cfg: Settings) returns (subs: seq<Subtitle>)
    ensures |subs| == |KeptComments(comments)|
    ensures forall k :: 0 <= k < |subs| ==> subs[k] == Entry(KeptComments(comments)[k], k + 1, cfg)
    ensures InOrder(comments) && cfg.duration > 0 ==> BuilderShaped(subs)
  {
    subs := [];
    var idx := 1;
    var n := 0;
    ghost var kept: seq<Comment> := [];
    while n < |comments|
      invariant 0 <= n <= |comments|
      invariant kept == KeptComments(comments[..n])
      invariant idx == |subs| + 1 && |subs| == |kept|
      invariant forall k :: 0 <= k < |subs| ==> subs[k] == Entry(kept[k], k + 1, cfg)
    {
      var c := comments[n];
      KeptStep(comments, n);
      var keep, entry := Caption(c, idx, cfg);
      if keep {
        EntriesStep(subs, kept, c, cfg);
        subs := subs + [entry];
        kept := kept + [c];
        idx := idx + 1;
      }
      n := n + 1;
    }
    assert comments[..|comments|] == comments;
    BuiltShaped(comments, cfg, subs);
  }
}
