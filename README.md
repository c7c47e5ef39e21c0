# linewrap, modelled in Dafny

A model of the wrapping engine of `LineWrap` (`lib/index.js`) and of the
space-run overlay `SpaceBreaker` (`lib/spacebreaker.js`).

- **Configuration.** The constructor derives the indent, its width, the first
  line's column, the working width, the width of the newline replacement and
  the width of the overflow marker. It throws when no column is left to wrap
  in, or when the overflow policy is unknown.
- **Chunking.** The text is split at newline sequences, with the newline
  replacement's breaks placed between the pieces. A URL-looking token that
  parses as a URL becomes one verbatim chunk. Everything else is cut by the
  space-run breaker.
- **Fragment sizing.** Each chunk becomes one or more fragments:
  - a chunk that fits passes through unchanged;
  - an over-long space run collapses to the newline replacement;
  - an over-long word is handled by the overflow policy: it passes as it is
    (visible), is clipped with an ellipsis (clip), or is cut into hyphenated
    pages (anywhere).
- **Line packing.** A greedy state machine over `line`, `cur`, `spaces` and
  `spLen` places the fragments into indented lines. `wrap` joins the lines
  with the terminator.
- **The overlay.** It overrides rules LB2, LB3, LB7 and LB18 of Unicode
  Standard Annex #14. Its five rules keep a whitespace run together as one
  break opportunity tagged `space`. That makes the use of the annex
  deliberately non-conformant.

Three files make up the model:

- `text.dfy` (module `GraphemeText`): text is a sequence of grapheme
  clusters, so the width of a text is its length. The module restates the
  JavaScript operations the engine uses: `slice` with its negative-index
  rules, `padEnd` and `join`.
- `spacebreaker.dfy` (module `SpaceBreaking`):
  - the overlay's rules, as functions from the breaker's state to a verdict
    and a new state;
  - the rule table, as a sequence of named rules;
  - the class `SpaceBreaker`, whose constructor edits that table in place.
- `linewrap.dfy` (module `LineWrapping`): the class `LineWrap`, whose fields
  are fixed at construction. It has a method for each step of the source:
  `Create`, `Fragments` and `Pages`, `LineChunks` and
  `Chunks`, `Place`, `Lines` and `Wrap`. The grapheme counter
  `GraphemeCount` is a method of the module, outside the class.
  - Each method is proved equal to a specification function.
  - The properties the source promises are lemmas about those functions.

The engine depends on collaborators it does not implement. The model takes
them as parameters:

- the space-run breaker's break iteration (`Engines.breaks`);
- the URL-looking-token scan (`Engines.urlMatches`);
- the strict URL parser (`Engines.isUrl`);
- the newline splitter (`Options.isNewline`);
- the escape callback (`Options.escape`).

Where a property depends on them, the lemma states what it needs:

- `BreaksPartition`: the breaker's spans concatenate to the input;
- `MatchesFrom`: the tokens are ordered, do not overlap and sit where the
  scan found them;
- for `LineWrap.LinesFitWidth`, an escape that keeps widths.

The option documentation and the code disagree in one place, and the model
follows the code: the `newline` option is documented as inserted at the end
of every line, including the last (`lib/index.js:110-111`). `wrap` puts none
after the last line (`lib/index.js:389-391`), and `LineWrap.Wrap` proves that.

Two further behaviours of the code, on which the documentation is silent:

- The code sizes every fragment against the working width, including on a
  first line that starts at `firstCol`. It never checks `firstCol` against
  the ellipsis under clip.
- Input made only of whitespace yields no line in the code. The exception is
  a first line whose column starts past the indent: then that first line is
  emitted, empty of words (`LineWrap.WhitespaceOnly`).

## Model

| member | source | states |
|---|---|---|
| `GraphemeText.SliceCases` | lib/index.js:244-245 | `slice` within bounds is the plain subsequence. An end past the last grapheme stops there. A negative end counts from the end. An empty range gives nothing. |
| `GraphemeText.PadEnd` | lib/index.js:156-159 | `''.padEnd(n, fill)` has length `n` (0 when `n` is not positive or `fill` is empty). Position `i` holds `fill[i mod |fill|]`. |
| `GraphemeText.JoinShape` | lib/index.js:390 | A join has every text and one separator between each neighbouring pair. It ends with the last text, not with a separator. Joining nothing gives nothing. |
| `GraphemeText.JoinFromLeft` | lib/index.js:390 | Read from the left, a join is the first text, then each later text with the separator in front. |
| `SpaceBreaking.IsFancySpace` | lib/spacebreaker.js:28-41 | True for every SP character. False for every class other than SP and BA. For BA, true exactly for a tab or a space separator (general category Zs). |
| `SpaceBreaking.InitialSpaces` | lib/spacebreaker.js:48-54 | Always passes. It sets the run flag exactly when the text starts and the next character is a fancy space, never clears it, and changes nothing else. |
| `SpaceBreaking.TrailingSpaces` | lib/spacebreaker.js:61-70 | Must break exactly when the next position is end of text and the current chunk is empty or differs from the previous chunk. That break is space-tagged iff a run is open. Otherwise it passes and changes nothing. |
| `SpaceBreaking.SpacesBreak` | lib/spacebreaker.js:77-87 | Outside a run: pass, state unchanged. Inside a run, before a fancy space: no break, run kept. Inside a run, before anything else: may break, tagged space, run closed. |
| `SpaceBreaking.SpacesStart` | lib/spacebreaker.js:94-121 | Never breaks before ZW. Before an SP after ZW, OP, QU, CL, CP or B2 it passes without opening a run. It may break, opening a run, exactly before any other fancy space. Otherwise it passes with the state unchanged. |
| `SpaceBreaking.BreakAfterSpace` | lib/spacebreaker.js:127-134 | May break, tagged space, exactly after an SP. Otherwise it passes and changes nothing. |
| `SpaceBreaking.InitializeState` | lib/spacebreaker.js:154-156 | A fresh evaluation starts outside a run. Nothing else in the state changes. |
| `SpaceBreaking.Apply` | lib/spacebreaker.js:141-148 | Dispatches an entry of the installed table to the overlay rule it names. A generic rule is outside the model and is taken to pass (the abstraction listed under "Left out"), so only the overlay entries are modelled here. No overlay rule moves the positions under evaluation or clears a space tag. |
| `SpaceBreaking.FreshRunOpening` | lib/spacebreaker.js:48-156 | After `_initializeState`, `LBspacesBreak` passes. Dispatched through `Apply`, an entry leaves a run open exactly when it is `initialSpaces` at the start of the text before a fancy space, or `LBspacesStart` before a fancy space that is not an SP after ZW, OP, QU, CL, CP or B2. |
| `SpaceBreaking.RunStaysAtomic` | lib/spacebreaker.js:77-87 | Inside a run, each further fancy space gets no break. The first other character gets one may-break, tagged space, which closes the run. When every next position is a fancy space, the run is still open afterwards. |
| `SpaceBreaking.RunEndsAtEot` | lib/spacebreaker.js:61-87 | A run that reaches the end of the text gets no break inside it. At the end-of-text position `trailingSpaces` either must break, tagged space because the run is open, or passes with nothing changed. In the second case `LBspacesStart` passes as well, and `LBspacesBreak` closes the run with one space-tagged may-break. |
| `SpaceBreaking.SpaceRunIsOneBreak` | lib/spacebreaker.js:94-121 | A run opened by `LBspacesStart` gives one break opportunity before it and none inside it. After it there is exactly one space-tagged break opportunity. |
| `SpaceBreaking.InstalledShape` | lib/spacebreaker.js:141-148 | The constructor's five changes leave the generic table recoverable by undoing them. The table grows by two. The two inserted rules sit immediately before LB02 and LBspacesStop. Each overlay rule appears exactly once. |
| `SpaceBreaking.SpaceBreaker.constructor` | lib/spacebreaker.js:141-148 | Applies the five changes in the source's order: insert before LB02, replace LB03, insert before LBspacesStop, replace LB07, replace LB18. |
| `LineWrapping.Configure` | lib/index.js:155-186 | Fails iff the working width `width - indentWidth` is not positive (with that width) or the overflow policy is unknown. On success: a numeric indent is `indentChar` repeated to `n * |indentChar|` graphemes (n copies), with indent width `n`; a string indent is kept, with its grapheme count as width; the first column is the indent width unless `indentFirst` is off and `firstCol` is a number; the replacement width is the replacement's length; the marker width is the ellipsis under clip, the hyphen under anywhere, and none under visible. |
| `LineWrapping.DefaultsConfigure` | lib/index.js:133-149 | The defaults configure to no indent, first column 0, working width 80, replacement width 1 and no overflow marker. |
| `LineWrapping.GraphemeCount` | lib/index.js:195-202 | Counting graphemes one by one gives the text's length. |
| `LineWrapping.LineWrap.Create` | lib/index.js:129-187 | The constructor computes the fields step by step. It fails with `Configure`'s error where the source throws. Otherwise it returns a fresh wrapper whose fields are `Configure`'s layout. |
| `LineWrapping.LineWrap.Init` | lib/index.js:129-187 | Stores a configured layout. The result satisfies `Valid`. |
| `LineWrapping.LineWrap.ValidIsConfigured` | lib/index.js:155-186 | A wrapper is `Valid` exactly when its fields are what `Configure` derives from its options. |
| `LineWrapping.LineWrap.Fragments` | lib/index.js:210-271 | Sizing a chunk step by step gives `FragmentsOf`, whose properties are the next four rows. |
| `LineWrapping.LineWrap.FragmentsShape` | lib/index.js:212-240 | Every chunk gives at least one fragment, and every fragment keeps the chunk's verbatim and space tags. A chunk strictly narrower than the working width passes unchanged, annotated with its width. A space run as wide as the working width or wider becomes one space fragment holding the newline replacement, with the replacement's width. Overflow visible passes a long word unchanged. Only overflow anywhere ever gives more than one fragment. |
| `LineWrapping.LineWrap.ClipFragment` | lib/index.js:241-251 | Clip gives one fragment: the first `workingWidth - |ellipsis|` graphemes, then the ellipsis, annotated `workingWidth` and exactly that long. With an ellipsis wider than the working width, the negative slice end drops only the last few graphemes. |
| `LineWrapping.LineWrap.Pages` | lib/index.js:253-268 | The page loop builds `PagesFrom(b, 0)`: every page but the last is hyphenated. |
| `LineWrapping.LineWrap.PagesSplit` | lib/index.js:257-267 | From any offset, the pages are the reference cut of the rest of the word into `page`-grapheme pieces. Each page but the last is followed by the hyphen. |
| `LineWrapping.LineWrap.AnywhereSplits` | lib/index.js:253-268 | A long word gives ceil(n / page) fragments in order. Each but the last is `page` graphemes plus the hyphen, `workingWidth` wide. The last has no hyphen and is as wide as its text. Without the hyphens, the pieces concatenate back to the word. |
| `LineWrapping.LineWrap.FragmentsFit` | lib/index.js:210-271 | With an ellipsis no wider than the working width under clip, every fragment is exactly as long as its annotation and no word fragment is wider than the working width: for every chunk outside overflow visible, and under visible for every chunk that is not a word wider than the working width. |
| `LineWrapping.LineWrap.LineChunks` | lib/index.js:291-315 | The token loop over one line builds `PieceChunks`: the text before each token, then the token (verbatim when it parses as a URL), then the tail. |
| `LineWrapping.LineWrap.Chunks` | lib/index.js:280-317 | The line loop builds `ChunksOf`: each line's chunks, with the replacement's breaks in front of every line but the first. |
| `LineWrapping.LineWrap.PieceChunksCover` | lib/index.js:291-315 | Read in order, the chunks of one line are the line from the offset on. The text before each token, the token and the tail partition it. |
| `LineWrapping.LineWrap.ChunksReassemble` | lib/index.js:280-317 | The chunks concatenate to the input pieces joined by the newline replacement, so replacements sit only between pieces and vanish when empty. |
| `LineWrapping.LineWrap.SingleLine` | lib/index.js:313-315 | A line with no token and no newline is chunked by the breaker alone. |
| `LineWrapping.LineWrap.PieceVerbatim` | lib/index.js:294-310 | Every verbatim chunk of a line is one of its URL-looking tokens that parses as a URL, and is not a space run. |
| `LineWrapping.LineWrap.PieceUrlsKept` | lib/index.js:294-310 | Every URL-looking token of a line that parses as a URL becomes a verbatim chunk holding exactly its text. |
| `LineWrapping.LineWrap.PiecesVerbatim` | lib/index.js:284-316 | Both directions of `PieceVerbatim` and `PieceUrlsKept`, across the newline-split pieces and their separators. |
| `LineWrapping.LineWrap.VerbatimIffUrl` | lib/index.js:280-317 | A chunk is verbatim iff it is a URL-looking token of the input that parses as a URL. Such a chunk is never a space run and holds exactly the matched text. |
| `LineWrapping.LineWrap.Place` | lib/index.js:340-374 | The fragment loop over one chunk carries the packer state exactly as the `Step` rules do. |
| `LineWrapping.LineWrap.StepPlacement` | lib/index.js:345-373 | A space fragment only extends the pending spaces. A word always clears the pending spaces and ends the current line. At the indent column it is placed without emitting a line. Elsewhere it follows the pending spaces iff `cur + spLen + width <= width`. Otherwise, exactly then, the line is emitted and a fresh line `indent + seg` starts at `indentWidth + width`. |
| `LineWrapping.LineWrap.Lines` | lib/index.js:327-380 | The chunk loop gives `LinesOf`: just the indent (or nothing) for empty input; otherwise the packed lines, with the left-over line only if its column passed the indent. |
| `LineWrapping.LineWrap.LinesFitWidth` | lib/index.js:327-380 | With the first line indented or starting at a column that is not negative (this covers the command line's `--outdentFirst`), an indent as wide as it claims and a width-keeping escape, no line is wider than `width`: always under anywhere, under clip when the ellipsis is no wider than the working width, and under visible (the default policy) whenever no word chunk is wider than the working width. |
| `LineWrapping.LineWrap.StepKeepsColumn` | lib/index.js:345-373 | One fragment never takes the column past the width, when the column starts within the width and a word is no wider than the working width. |
| `LineWrapping.LineWrap.ColumnBound` | lib/index.js:339-373 | If the first column is within the width, the column is within the width after every chunk, and so at the end: always under anywhere, under clip whatever the ellipsis (a clipped word counts as exactly the working width), and under visible whenever no word chunk is wider than the working width. |
| `LineWrapping.LineWrap.NoTrailingSpaces` | lib/index.js:345-373 | Pending spaces reach a line only in front of a word. Every line is the untouched first line or ends with a word of the input. This is empty when the escape turns a word into the empty text; the source can then end a line with spaces. |
| `LineWrapping.LineWrap.WhitespaceOnly` | lib/index.js:376-379 | Input of nothing but space runs gives no line. The exception is a first line starting past the indent column, which is emitted empty of words. |
| `LineWrapping.LineWrap.FitsOnOneLine` | lib/index.js:327-380 | With the first line indented (`indentFirst`), input with no newline, an identity escape, every chunk narrower than the working width and the whole no wider, which starts with a non-empty word and ends with a word, comes back as the single line `indent + text`. |
| `LineWrapping.LineWrap.ShortFitsOnOneLine` | lib/index.js:327-380 | The same, with the first line indented, for input shorter than the working width, without a condition on its chunks. |
| `LineWrapping.LineWrap.FirstLineQuirk` | lib/index.js:335-372 | Without an indented first line, and with `firstCol` off the indent column, a first word that does not fit after `firstCol` makes the wrapper emit an empty first line. |
| `LineWrapping.LineWrap.Wrap` | lib/index.js:389-391 | The lines are joined by the terminator, with none after the last. The result ends with the last line, and its length is the lines' lengths plus one terminator fewer than there are lines. Empty input gives the indent, or nothing. |
| `LineWrapping.LineWrap.ClipExample` | test/index.test.js:43-46 | Clipping "abcde" at width 4 gives the single line "abc…". |
| `LineWrapping.LineWrap.AnywhereExample` | test/index.test.js:48-51 | Overflow anywhere at width 4 gives the lines "abc-" and "de". |
| `LineWrapping.LineWrap.SpaceRunExample` | test/index.test.js:15-17 | At width 4, "foo    bar" gives "foo" and "bar". |
| `LineWrapping.LineWrap.IndentExample` | test/index.test.js:34-36 | At width 4 with an indent of 2, "ab bc" gives "  ab" and "  bc". |

## Left out

- Grapheme segmentation (`Intl.Segmenter`, Unicode Standard Annex #29) and the `locale` option are not modelled. Text is already a sequence of grapheme clusters.
  - The source's `line.length`, `m.index` and string `slice` in `#chunks` count UTF-16 code units. The model counts graphemes there too.
  - So does `indentChar.length` in the numeric indent.
- Display-cell widths, double-width characters and styling escapes are not modelled. The source does not implement them either (`lib/index.js:196`).
- The generic rule engine from `@cto.af/linebreak` is outside the model:
  - the full annex #14 rule table and the code-point-to-class lookup;
  - rule evaluation and break iteration;
  - the `addRuleBefore` and `replaceRule` mechanics, modelled only as insertion and replacement in a named table.
  - Generic rules pass in `SpaceBreaking.Apply`, and `LineBreakClass` lists only the classes the overlay inspects.
  - The end-to-end break sequences of `test/spacebreaker.test.js:26-31` need that engine, so they are not restated.
- The breaker's output reaches the wrapper as the oracle `Engines.breaks`. `BreaksPartition` is assumed where a lemma needs it.
- The URL heuristic regular expression and the WHATWG URL parser are the oracles `Engines.urlMatches` (with `MatchesFrom` assumed where needed) and `Engines.isUrl`.
- The default newline regular expression is not modelled. The `isNewline` splitter is a function in the options.
- The `escape` callback is an uninterpreted function.
- The generators `lines` and `#fragments` are modelled as the whole sequences they yield.
- `Break` objects keep only their text, `space`, `verbatim` and grapheme annotation. Other props the source spreads along are dropped.
- The unused `indentEmpty` option is not modelled.
- NaN is modelled as `None`, for `firstCol` and for the visible overflow marker's width.
- `OVERFLOW_ANYWHERE`'s reused Symbol description does not matter to the model: overflow is an enum.
- `bin/linewrap.js` (command-line parsing, I/O, `htmlEscape`) is not modelled.
- `LineWrapping.LineWrap.Lines`: requires `PagesAdvance`, so under overflow anywhere the hyphen must be narrower than the working width. Under such a configuration the source hangs only when a word chunk at least `workingWidth` long reaches the page loop (`lib/index.js:257`), and wraps every other input; the model excludes those other inputs too, and does not describe the hang. `Fragments`, `Pages` and `Wrap` carry the same requirement.
- `LineWrapping.LineWrap.LinesFitWidth`: needs a first line that is indented or starts at a column that is not negative, an indent exactly `indentWidth` long and an escape that keeps widths. Only these break the bound in the source: a negative `firstCol` (the first line then takes more than `width` graphemes), a negative numeric `indent` (the indent is then empty while the working width grows to `width - indent`, so a word of up to `width - indent - 1` graphemes passes unclipped), a multi-grapheme `indentChar`, a widening escape, under overflow visible, a word chunk wider than the working width, which the source passes through whole (`lib/index.js:237`), or, under clip, an ellipsis wider than the working width: the slice end `workingWidth - |ellipsis|` is then negative and keeps all but `|ellipsis| - workingWidth` graphemes of a long word before the ellipsis, so the line is wider than `width` (`lib/index.js:244-249`).
- `LineWrapping.LineWrap.FitsOnOneLine`: the source returns input unchanged on one line only under its conditions. Under clip and anywhere a word exactly `workingWidth` long is clipped or split, because the fit test is a strict `<` (`lib/index.js:213`); under visible it passes through whole (`lib/index.js:237`), a case the lemma does not cover. Without an indented first line and without `firstCol`, the source returns `[text]` without the indent; the lemma covers only the indented first line. Leading spaces are dropped at the indent column, and trailing spaces are never committed.
- `LineWrapping.LineWrap.FragmentsFit`: excludes clip with an ellipsis wider than the working width. There the source annotates a fragment as `workingWidth` while its text is longer (`LineWrap.ClipFragment` states that case).
