# ttv2srt: chat captions and the overlap merge

ttv2srt turns the chat log of a Twitch VOD into an srt subtitle file. It does
this in two steps:

1. The comment loop of `main` gives each chat comment with visible text one
   caption. The caption is shown from the moment the comment was posted for
   a fixed number of seconds. Its text is the poster's name (optionally
   coloured) followed by the message.
2. `merge` removes the overlaps between those captions. It sweeps the list
   from the back. Two captions with the same window become one. A caption
   that reaches into later captions is cut back, the later captions get its
   text stacked on top of theirs, and the first later caption that outlasts
   it is split at its end. Afterwards, captions left with an empty window are
   dropped and the rest are numbered again from 1.

This project models both steps in Dafny and proves what the merge is for.
The inner loop's guard in the model has the `nxt < len(subs)` check that
line 163 lacks: as written, `merge` raises IndexError whenever the last two
captions share a window (see Findings). With that guard corrected, when `-t`
is positive and the comments arrive in posting order, the merged track:

- is numbered 1, 2, … in order;
- has only non-empty windows, and no two of them overlap;
- shows at every instant exactly the texts the unmerged track shows then,
  stacked into one block in list order (`Captions.Flat`);
- cuts windows exactly where unmerged captions start or end: every window
  starts and ends at such an instant, and none has one strictly inside it;
- is a single caption when all unmerged captions share one window;
- is unchanged apart from its numbers when the input had no overlap.

Times are whole milliseconds. A caption is the `Subtitle` record that the srt
library parses from the builder's text:

- `index`: its number;
- `start` and `end`: its display window, `[start, end)`;
- `content`: its text.

The Python list that `merge` works on is local to it, and `insert` always
stores a fresh record. Each loop of `merge` is therefore a method that
threads a `seq<Subtitle>` value through `while` loops with the source's
guards and index arithmetic; the inner loop's guard adds the
`nxt < len(subs)` check.

Modules, in dependency order:

- `Captions`: entries, what is on screen at an instant (`Active`), and the
  flattened view of a track (`Flat`).
- `Tiling`: the invariant of the overlay sweep (`Resolved` / `Swept`) and
  one lemma per kind of sweep step.
- `Overlay`: the list operations of lines 155-180, the inner scan and the
  outer sweep.
- `Cleanup`: the empty-window pass and the renumbering.
- `Builder`: the comment loop.
- `Merging`: `merge` as a whole, and the builder followed by the merge.

## Model

| member | source | states |
|---|---|---|
| Overlay.Coalesce | ttv2srt.py:159-161 | the next entry's text goes under curr's text, the next entry leaves the list, and every other entry keeps its place and value |
| Overlay.Split | ttv2srt.py:166-172 | a copy of entry sel is inserted before it; the copy ends at the split instant, the original now starts there, and both keep text and index; the list grows by one and nothing else moves |
| Overlay.StackContent | ttv2srt.py:173-176 | every entry after curr, up to and including sel, gets curr's text stacked on top; every other entry is unchanged |
| Overlay.GuardAsWritten | ttv2srt.py:163 | the inner guard as written fails (None) exactly when nxt is past the end of the list; otherwise it agrees with the bounds-checked guard `Overlapping` |
| Overlay.IdenticalTailRaises | ttv2srt.py:159-163 | when the last two entries share their window, the first outer pass coalesces them, and the guard as written then reads past the end of the list, although nothing is left to overlap |
| Overlay.SameOffsetPairRaises | ttv2srt.py:159-163 | a list of just two builder-shaped entries with the same window, e.g. [10500,70500) "x" and [10500,70500) "y", make the guard as written read past the end |
| Overlay.Overlapping | ttv2srt.py:163 | the inner guard with the bounds check: it holds only when an entry follows curr, so its read of `subs[nxt]` stays inside the list |
| Overlay.SplitAt | ttv2srt.py:165-177 | splitting the entry found by the scan, stacking curr's text and cutting curr back turn the list from curr on into the overlaid suffix, and leave the entries before curr as they were |
| Overlay.SplitOverlap | ttv2srt.py:163-178 | the inner loop with the bounds-checked guard: when curr does not reach into the next entry, the list is unchanged; otherwise the scan stops at the first later entry j that outlasts curr (all before it end no later than curr), and the list becomes curr cut back to the next start, curr's text stacked on entries up to j, and j split at curr's end; exactly one split happens, the list grows by one, and curr no longer reaches into its successor, so the loop exits |
| Overlay.CoalesceStep | ttv2srt.py:159-163 | after the coalesce either nothing overlaps and the list is swept from curr on, or the list is unchanged, curr differs from its neighbour, and the last entry outlasts curr, so the scan stays inside the list |
| Overlay.SplitStep | ttv2srt.py:163-178 | a split at curr leaves the list one entry longer and swept from curr on |
| Overlay.ResolveAt | ttv2srt.py:159-178 | one outer pass keeps the sweep invariant: entries before curr are still the input's, and from curr on the list is resolved; the list grows by at most one entry |
| Overlay.Sweep | ttv2srt.py:155-180 | the whole sweep leaves an empty input empty and turns any other builder-shaped input into a resolved list: ordered, non-overlapping, starting at the first start and ending at the last end, every entry showing the stacked texts on screen during its window, every gap silent, every cut at an instant where some input entry starts or ends and no input start or end strictly inside an entry, and a non-overlapping input unchanged |
| Tiling.LastResolved | ttv2srt.py:155-157 | the last entry alone is already resolved, so the sweep can start at the second-to-last |
| Tiling.PrependResolves | ttv2srt.py:159-163 | an entry that ends before the resolved rest begins is kept unchanged in front of it, and the result is resolved |
| Tiling.CoalesceResolves | ttv2srt.py:159-161 | an entry with the same window as the first resolved entry merges into it, its text on top, and the result is resolved |
| Tiling.OverlapEndsBeforeLast | ttv2srt.py:163-165 | when curr overlaps the resolved rest but does not share its first window, some later entry outlasts curr, so the scan finds an entry to split |
| Tiling.NoGapWithinReach | ttv2srt.py:164-172 | every entry the scan passes over ends where the next one begins, and the entry it splits starts no later than curr's end, so the split pieces have non-negative length |
| Tiling.OverlaidChained | ttv2srt.py:166-177 | after the split every piece has non-negative length and ends no later than the next one starts |
| Tiling.OverlaidContig | ttv2srt.py:166-177 | after the split every piece ending by curr's original end is followed by one starting exactly where it ends |
| Tiling.SplitTiled | ttv2srt.py:166-177 | the split suffix is laid out like a resolved one: it starts at curr's start, ends at the old last end, and is ordered and gap-free within its reach |
| Tiling.SplitResolves | ttv2srt.py:163-177 | cutting curr back, stacking its text and splitting the first outlasting entry gives a resolved list one position further forward |
| Tiling.PrependCuts | ttv2srt.py:159-163 | keeping an input entry in front of a list cut at input boundaries keeps it cut at input boundaries |
| Tiling.CoalesceCuts | ttv2srt.py:159-161 | replacing the first entry by one with an input entry's window keeps the list cut at input boundaries |
| Tiling.SplitCuts | ttv2srt.py:166-177 | the split cuts only at curr's end and at the next entry's start, so the list stays cut at input boundaries |
| Tiling.PrependNoStraddle | ttv2srt.py:159-163 | keeping curr unchanged in front of the resolved rest leaves no start or end of input[curr..] strictly inside any entry |
| Tiling.CoalesceNoStraddle | ttv2srt.py:159-161 | merging curr into the first resolved entry, whose window it shares, leaves no start or end of input[curr..] strictly inside any entry |
| Tiling.SplitNoStraddle | ttv2srt.py:166-177 | after cutting curr back, stacking and splitting at curr's end, no start or end of input[curr..] lies strictly inside any piece |
| Tiling.ChainedPairwise | ttv2srt.py:158-180 | a list in which each entry ends before its neighbour starts has no two overlapping entries |
| Cleanup.NonEmpty | ttv2srt.py:182-186 | the entries kept by the cleanup have non-empty windows and are no more than the input |
| Cleanup.NonEmptyMembers | ttv2srt.py:182-186 | an entry survives the cleanup exactly when it was in the list and its window is not empty |
| Cleanup.NonEmptyActive | ttv2srt.py:182-186 | the cleanup changes nothing that is on screen at any instant |
| Cleanup.NonEmptyDisjoint | ttv2srt.py:182-186 | dropping entries keeps a non-overlapping list non-overlapping |
| Cleanup.NonEmptyKeeps | ttv2srt.py:182-186 | a list without empty windows is left as it is |
| Cleanup.NonEmptyIdempotent | ttv2srt.py:182-186 | running the cleanup twice drops nothing more |
| Cleanup.DropEmpty | ttv2srt.py:182-186 | the backward deletion loop leaves exactly the entries with a non-empty window, in order |
| Cleanup.Renumber | ttv2srt.py:188-191 | entry k gets number k + 1, and nothing else about any entry changes |
| Cleanup.RenumberedActive | ttv2srt.py:188-191 | renumbering changes nothing that is on screen |
| Merging.ActiveOnly | ttv2srt.py:182-191 | in a non-overlapping list, at an instant inside entry k only entry k's text is on screen |
| Merging.Locate | ttv2srt.py:158-180 | an uncovered instant between the first start and the last end of an ordered list lies in a gap between two neighbours |
| Merging.KeptLayout | ttv2srt.py:182-191 | after the cleanup and the renumbering of an ordered list, every window is non-empty and no two overlap |
| Merging.CutsKept | ttv2srt.py:182-191 | the cleanup and the renumbering keep every window cut at input boundaries |
| Merging.StraddleKept | ttv2srt.py:182-191 | the cleanup and the renumbering put no input start or end strictly inside a window |
| Merging.TiledFlat | ttv2srt.py:158-180 | a resolved list shows, at every instant, exactly the flattened input |
| Merging.Merge | ttv2srt.py:153-193 | for builder-shaped input: numbers 1, 2, … in order; non-empty windows; no overlap; at every instant exactly the input's on-screen texts stacked in input order; every start and end is a start or end of some input entry and no input start or end lies strictly inside a window, so no window is cut finer or coarser than the input's boundaries; when all input entries share one window the result is a single entry; a never-overlapping input returned with only its numbers changed |
| Merging.BuildAndMerge | ttv2srt.py:107-144 | the captions of the kept comments, in posting order and with a positive duration, are merged into a numbered, non-overlapping track that shows at every instant the stacked captions of the comments on screen then, cut exactly where captions start or end, and a single entry when all captions share one window |
| Builder.TrimLeft | ttv2srt.py:117 | lstrip removes exactly a whitespace prefix: the result is a suffix of the text, everything cut is whitespace, and it does not begin with whitespace |
| Builder.TrimRight | ttv2srt.py:136 | rstrip removes exactly a whitespace suffix: the result is a prefix of the text, everything cut is whitespace, and it does not end with whitespace |
| Builder.Strip | ttv2srt.py:117 | strip never lengthens the text, and what it leaves is empty or begins and ends with a visible character |
| Builder.StripRemovesOnlySpace | ttv2srt.py:117 | the stripped text is a contiguous piece of the original, and everything before and after that piece is whitespace |
| Builder.StripEmpty | ttv2srt.py:117-118 | stripping leaves nothing exactly when the text is empty or all whitespace |
| Builder.MessageText | ttv2srt.py:115-117 | the message text of a fragment list is empty or ends with the space written after its last plain fragment |
| Builder.CollectText | ttv2srt.py:115-117 | the fragment loop accumulates every single-field fragment's stripped text followed by one space, in order |
| Builder.MessageTextStep | ttv2srt.py:115-117 | one more fragment appends its stripped text and a space when it is plain, and the message stays blank exactly when that fragment is blank too |
| Builder.BlankMessage | ttv2srt.py:115-119 | a comment is skipped exactly when every plain fragment is blank; fragments with more than one field alone never make a caption |
| Builder.KeptComments | ttv2srt.py:118-119 | the comments that make a caption all have visible text and are no more than the input |
| Builder.KeptMembers | ttv2srt.py:118-119 | a comment makes a caption exactly when its message text is not blank |
| Builder.EntriesShaped | ttv2srt.py:120-124 | captions of comments in posting order, each shown for the same positive duration from its offset, start no earlier than the one before and all last that duration |
| Builder.KeptStep | ttv2srt.py:109-119 | one more comment adds itself to the kept comments exactly when its text is not blank |
| Builder.KeptInOrder | ttv2srt.py:109-119 | skipping comments keeps the rest in posting order |
| Builder.NameColor | ttv2srt.py:129-132 | the colour written is the comment's own when it has one, and the default #1E90FF when the field is missing or null |
| Builder.DefaultColorUsed | ttv2srt.py:127-133 | with colour tags on and no colour of its own, the name tag opens a font in the default colour #1E90FF |
| Builder.Content | ttv2srt.py:125-137 | without colour or position tags the caption text is the name, ": ", and the message without trailing whitespace |
| Builder.Entry | ttv2srt.py:120-137 | a comment's entry carries the given number, starts at the comment's offset and lasts the configured duration, so its window is non-empty when the duration is positive |
| Builder.Caption | ttv2srt.py:110-137 | one pass of the comment loop keeps the comment exactly when its message text is not blank, and then yields that comment's entry with the given number |
| Builder.BuiltShaped | ttv2srt.py:109-139 | for comments in posting order and a positive duration, the captions of the kept comments all last that duration and start in non-decreasing order |
| Builder.Build | ttv2srt.py:107-139 | one entry per kept comment, numbered densely from 1, shown from its offset for the configured duration, with the caption text of that comment; for comments in posting order and a positive duration, all windows have the same positive length and starts never decrease |

## Left out

- Command-line parsing (ttv2srt.py:30-89): the settings are a `Settings` parameter instead.
- The VOD id regex and the paged HTTP download (ttv2srt.py:91-104): these are network I/O, so the comments are a parameter.
- Writing the output file (ttv2srt.py:146-151): this is file I/O.
- The progress `print`s: console output only.
- The emoji option (ttv2srt.py:112-113): it takes the message body verbatim and skips the blank-text check. Only the fragment path is modelled.
- Offsets are taken to be whole milliseconds. The float seconds of the JSON and their rounding are not modelled.
- The timestamp text (ttv2srt.py:120-124) is not modelled. `str(timedelta)` omits the fraction when the offset is a whole second, so `[:-3]` then cuts into the seconds. The model takes the timestamps to be the ones intended.
- `srt.parse` and `srt.compose` (ttv2srt.py:154, 193) are not modelled. The builder's text is modelled by the records parsing gives back. Any normalisation the library applies to content is not modelled.
- The `proprietary` field that `insert` copies (ttv2srt.py:170) is not modelled: it passes through unchanged, and no step reads it.
- `Fragment`: a fragment object with exactly one key is taken to be `{"text": …}` (`Plain`). Any other fragment is `Decorated`.
- Merging.Merge: requires builder-shaped input, which is what `main` passes when `-t` is positive and the comments arrive in posting order. That means equal positive durations and starts that never decrease. On other lists the code as written can go wrong. When a shorter caption lies inside a longer one, `sel` runs past the end at line 165. Across a gap, a split at lines 171-172 can give a piece that ends before it starts. The model does not describe those runs.
- A zero or negative `-t` (ttv2srt.py:46-50): the argument is an unchecked `int`. With `-t 0` every window is empty, so the cleanup at lines 182-186 drops every caption unless the tail coalesce raises first; negative durations give windows that end before they start. The model covers positive durations only.
- Overlay.SplitOverlap: the index `j` of the split entry is ghost. It describes the result and is not part of what the loop returns.
- The list and its records are modelled as values, although `merge` updates them in place. No aliasing is lost by this, because no record is ever shared between two list slots.

Two comments posted at the same offset always have their texts stacked
together, and they become one entry when nothing later overlaps them. As written, the code raises instead when the last two
comments share an offset (see Findings); a shared offset earlier in the list
is followed by a later entry, so the read stays inside the list. The model uses the corrected guard.

## Findings

| source | as written | input that shows it | evidently intended | confidence | as-written member | corrected member |
|---|---|---|---|---|---|---|
| ttv2srt.py:159-163 | the inner guard reads `subs[nxt]` right after the coalesce may have deleted `subs[nxt]`; when the deleted entry was the last, `nxt == len(subs)` and the read raises IndexError | the last two comments posted at the same fractional-second offset, e.g. the entries [10500,70500) "x" and [10500,70500) "y" | when no entry follows curr, the inner loop is skipped, and the pair becomes one entry with text "x\ny" | not executed | Overlay.IdenticalTailRaises | Overlay.SplitOverlap |

The corrected guard is `Overlay.Overlapping`. It checks `nxt < len(subs)` before the read. `Overlay.SplitOverlap` uses it, and through `Overlay.ResolveAt` and `Overlay.Sweep` so does `Merging.Merge`. `Merging.Merge` proves the intended result for every builder-shaped input, this pair included. `Overlay.GuardAsWritten` and `Overlay.SameOffsetPairRaises` show the failure on the guard as written.
