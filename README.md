# fuzzymatch-rs: a Dafny model of vim-clap's Rust filter extension

vim-clap's Python provider can hand filtering to a small Rust extension,
`fuzzymatch_rs`. The extension exports one function, `fuzzy_match(query,
candidates, winwidth, enable_icon, line_splitter)`. It scores every candidate
line and keeps the lines that match. It sorts them by descending score and
shortens long lines for a window of `winwidth` columns. It returns three
values: the matched indices of each line, the lines themselves, and a map from
a shortened line's row number to its original text.

A matcher is chosen once per query:

- A query that contains a space uses `substr_scorer`. This scorer lower-cases
  the line and splits the query into whitespace-separated terms. It then finds
  each lower-cased term with a cursor that only moves forward. Each term must
  occur at or after the end of the term before it.
- Any other query uses the fzy matcher. With icons enabled, fzy runs on the
  line past its 4-byte icon prefix, and every reported offset is shifted right
  by 4.

The model is written in the source's own form:

- `find_start_at` and the scorer's specification are pure functions.
- `substr_scorer` is a `method` with its `for` loop. `resize_with` becomes a
  `method` whose loop mirrors the `pos += 1; pos - 1` closure.
- The in-place `sort_unstable_by` is an insertion sort on an `array`.
- The final unzip loop is a `method` with a `for` loop.

Files:

- `wrappers.dfy`: `Option`.
- `text.dfy`: ASCII whitespace, lower-casing, `split_whitespace`, and `str::find`.
- `scorer.dfy`: `find_start_at` and `substr_scorer`, each with its reference definitions and lemmas.
- `matcher.dfy`: how the matcher is selected, and the fzy icon shift.
- `ranking.dfy`: filtering, sorting, the unzip loop and the re-keying of the map.
- `scenarios.dfy`: the repository's own test inputs, worked through.

Strings are `seq<char>`, with one character per byte. This is the ASCII case,
where byte offsets and character positions agree. In that case `to_lowercase`
is ASCII lower-casing and `split_whitespace` splits on ASCII whitespace: space
and codes 9 to 13. Scores are `real`, standing in for `f64`.

Two functions are parameters of the model:

- The fzy matcher returned by `get_appropriate_matcher`, with type `FzyFn`.
- `truncate_long_matched_lines`, with type `Truncator`.

Both live in other crates. Nothing is assumed about them except their types.

The returned map is keyed by text (`HashMap<String, String>`). The comment
at lib.rs:64-66 explains why: the truncator's map is keyed by row number
(`usize`), and those keys are turned into strings because Vim dictionaries
need string keys. The model assumes exactly that. The external truncator
returns `map<nat, string>`, and `Rekey` turns each key into its decimal
numeral, as the `to_string` at lib.rs:117 does.

## Model

| member | source | states |
|---|---|---|
| Text.ToLower | pythonx/clap/fuzzymatch-rs/src/lib.rs:17-18 | lower-casing keeps the length and lower-cases each character on its own (ASCII) |
| Text.SplitWhitespace | pythonx/clap/fuzzymatch-rs/src/lib.rs:22 | every term is non-empty and holds no whitespace (where the cuts fall is fixed by the next two rows) |
| Text.SplitWord | pythonx/clap/fuzzymatch-rs/src/lib.rs:22 | a non-empty string with no whitespace is one term |
| Text.SplitAtWhitespace | pythonx/clap/fuzzymatch-rs/src/lib.rs:22 | a whitespace character always cuts: the terms of `a + [c] + b` are those of `a` then those of `b`; with the row above this fixes every split |
| Text.SplitEmptyIff | pythonx/clap/fuzzymatch-rs/src/lib.rs:22 | `split_whitespace` yields no terms exactly when the needle is all whitespace (including empty) |
| Text.SplitKeepsText | pythonx/clap/fuzzymatch-rs/src/lib.rs:22 | the terms, concatenated in order, are the needle with its whitespace removed |
| Text.Find | pythonx/clap/fuzzymatch-rs/src/lib.rs:13 | `str::find`: `Some(i)` is an occurrence with none before it; `None` means no occurrence at all |
| Scorer.FindStartAt | pythonx/clap/fuzzymatch-rs/src/lib.rs:12-14 | the result is the leftmost occurrence at or after `at`, as an absolute offset; `None` means none at or after `at` |
| Scorer.FindStartAtExact | pythonx/clap/fuzzymatch-rs/src/lib.rs:12-14 | conversely, an occurrence at `i` with none in `[at, i)` is exactly what is returned |
| Scorer.LowerTerms | pythonx/clap/fuzzymatch-rs/src/lib.rs:23 | each term is lower-cased on its own, with order and count kept |
| Scorer.GreedyStarts | pythonx/clap/fuzzymatch-rs/src/lib.rs:20-43 | the starts the forward-only cursor finds, one per term when it succeeds, `None` as soon as a term is missing |
| Scorer.GreedyIsPlacement | pythonx/clap/fuzzymatch-rs/src/lib.rs:20-43 | the starts the forward cursor finds form a placement: each term occurs at its start, the first at or after the initial offset, each later one at or after the end of the one before |
| Scorer.GreedyLeftmost | pythonx/clap/fuzzymatch-rs/src/lib.rs:20-43 | if any placement exists, the cursor succeeds, and each of its starts is at or before that placement's corresponding start (greedy is leftmost) |
| Scorer.GreedySomeIff | pythonx/clap/fuzzymatch-rs/src/lib.rs:20-43 | the cursor succeeds if and only if a placement exists, so it never misses a match by not backtracking |
| Scorer.RunsShape | pythonx/clap/fuzzymatch-rs/src/lib.rs:27-39 | the positions of a placement are strictly ascending, lie in `[offset, len)`, number the total term length, and spell the concatenated terms |
| Scorer.ScoreOf | pythonx/clap/fuzzymatch-rs/src/lib.rs:45-55 | the score: 0 for no positions, else `2/(first+1) + 1/(last+1) - (last+1-first)` (definition; its properties are the next three rows) |
| Scorer.ScoreAtMostTwo | pythonx/clap/fuzzymatch-rs/src/lib.rs:49-55 | no score of positions whose first is not past their last exceeds 2 |
| Scorer.ScoreWiderSpanLower | pythonx/clap/fuzzymatch-rs/src/lib.rs:49-55 | with the same first position, a later last position scores strictly lower |
| Scorer.ScoreLaterStartLower | pythonx/clap/fuzzymatch-rs/src/lib.rs:49-55 | with the same span, a later first position scores strictly lower |
| Scorer.SubstrScore | pythonx/clap/fuzzymatch-rs/src/lib.rs:16-56 | what `substr_scorer` returns: the runs of the greedy starts of the lower-cased terms in the lower-cased haystack, scored, or `None` (definition; the rows below state its properties) |
| Scorer.WhitespaceNeedle | pythonx/clap/fuzzymatch-rs/src/lib.rs:22-47 | an all-whitespace (or empty) needle matches every haystack with score 0 and no positions |
| Scorer.SubstrSomeIff | pythonx/clap/fuzzymatch-rs/src/lib.rs:16-43 | the scorer returns `Some` if and only if the lower-cased terms can be placed left to right in the lower-cased haystack |
| Scorer.SubstrUnfold | pythonx/clap/fuzzymatch-rs/src/lib.rs:16-43 | a successful result comes from the cursor's starts, and these form a placement |
| Scorer.SubstrPositions | pythonx/clap/fuzzymatch-rs/src/lib.rs:27-39 | a successful result's positions are strictly ascending, inside the haystack, one per non-whitespace needle character, and spell the lower-cased needle without whitespace in the lower-cased haystack |
| Scorer.SubstrEmptyIff | pythonx/clap/fuzzymatch-rs/src/lib.rs:45-47 | a successful result has no positions exactly when the needle is all whitespace |
| Scorer.SubstrNoneNotWhitespace | pythonx/clap/fuzzymatch-rs/src/lib.rs:22-47 | only a needle with at least one term can fail to match |
| Scorer.SubstrAtMostTwo | pythonx/clap/fuzzymatch-rs/src/lib.rs:49-55 | a successful result never scores above 2 |
| Scorer.RunsAppend | pythonx/clap/fuzzymatch-rs/src/lib.rs:30-39 | appending one term's start adds exactly that term's run of consecutive positions |
| Scorer.GreedyStep | pythonx/clap/fuzzymatch-rs/src/lib.rs:25-42 | one pass of the loop: a missing term ends the search with `None`; a found term moves the cursor to its end and extends the starts |
| Scorer.LoopInit | pythonx/clap/fuzzymatch-rs/src/lib.rs:20-21 | `offset = 0` and empty `positions` establish the loop invariant |
| Scorer.LoopMissing | pythonx/clap/fuzzymatch-rs/src/lib.rs:41 | a term not found from the current offset means the whole search fails |
| Scorer.LoopFound | pythonx/clap/fuzzymatch-rs/src/lib.rs:26-39 | a found term keeps the invariant with the new offset `idx + len` and its run appended |
| Scorer.LoopDone | pythonx/clap/fuzzymatch-rs/src/lib.rs:22-43 | after the last term, the starts are the cursor's and the positions are their runs |
| Scorer.ResizeWithRun | pythonx/clap/fuzzymatch-rs/src/lib.rs:30-39 | `resize_with` with the counting closure appends `idx, idx+1, ..., idx+len-1` to the positions |
| Scorer.SubstrScorer | pythonx/clap/fuzzymatch-rs/src/lib.rs:16-56 | the loop computes the specification `SubstrScore`; a whitespace needle gives (0, []); positions ascend, lie inside the haystack, and number the needle's non-whitespace characters |
| Scorer.SubstrProperties | pythonx/clap/fuzzymatch-rs/src/lib.rs:16-56 | every promise above about `SubstrScore`, gathered for one needle and haystack, including the bound of 2 on the score |
| Matcher.Select | pythonx/clap/fuzzymatch-rs/src/lib.rs:79-92 | the substring scorer is chosen exactly when the query contains `' '`; otherwise fzy is chosen, with the icon flag |
| Matcher.FzyLine | pythonx/clap/fuzzymatch-rs/src/lib.rs:85 | the text fzy sees: the line past its first 4 bytes with icons, else the whole line |
| Matcher.Shift | pythonx/clap/fuzzymatch-rs/src/lib.rs:86 | moves every index right by `k`, keeping their number |
| Matcher.Apply | pythonx/clap/fuzzymatch-rs/src/lib.rs:79-92 | substring: the scorer's result on the whole line; fzy: `Some` exactly when fzy matches the (icon-stripped) line, with the score converted to real, the same number of indices, each moved by the icon offset, and all at least 4 with icons |
| Matcher.SpaceSelectsSubstring | pythonx/clap/fuzzymatch-rs/src/lib.rs:79-80 | a query with a space is scored by the substring scorer on the whole line, whatever the icon flag |
| Matcher.PlainFzyPassesThrough | pythonx/clap/fuzzymatch-rs/src/lib.rs:88-90 | without a space and without icons, fzy's score and indices pass through unchanged |
| Matcher.IconShift | pythonx/clap/fuzzymatch-rs/src/lib.rs:83-87 | with icons, fzy runs on `line[4..]`; its score is kept; every index is moved 4 to the right; indices inside `line[4..]` land inside `line` between 4 and its length, in the same ascending order |
| Matcher.TabQueryGoesToFzy | pythonx/clap/fuzzymatch-rs/src/lib.rs:79 | a query whose terms are separated only by a tab goes to fzy, although the substring scorer would see two terms |
| Ranking.Matched | pythonx/clap/fuzzymatch-rs/src/lib.rs:94-97 | the kept rows are no more than the candidates, and a row is kept exactly when it is a candidate paired with that candidate's own matcher score and indices |
| Ranking.Results | pythonx/clap/fuzzymatch-rs/src/lib.rs:94-96 | the matcher's result for each candidate, in order |
| Ranking.MatchedInOrder | pythonx/clap/fuzzymatch-rs/src/lib.rs:94-97 | one row per matching candidate, in input order: ascending candidate numbers, exactly those of the candidates with a result, pick out the rows in turn, each with that candidate's text and result |
| Ranking.Swap | pythonx/clap/fuzzymatch-rs/src/lib.rs:99 | exchanges two rows and leaves the others alone |
| Ranking.Insert | pythonx/clap/fuzzymatch-rs/src/lib.rs:99 | extends a sorted prefix by one row, permuting the array and leaving every row after position `i` where it was |
| Ranking.SortByScore | pythonx/clap/fuzzymatch-rs/src/lib.rs:99 | sorts the rows in place by non-increasing score, as a permutation of the old contents |
| Ranking.Rank | pythonx/clap/fuzzymatch-rs/src/lib.rs:94-99 | the ranked rows are sorted by descending score, are a permutation of the matched rows, and hold exactly the matching candidates with their own results |
| Ranking.Unzip | pythonx/clap/fuzzymatch-rs/src/lib.rs:105-110 | `indices` and `filtered` have one entry per truncated row, and entry `i` holds row `i`'s indices and text |
| Ranking.Skipped | pythonx/clap/fuzzymatch-rs/src/lib.rs:101-102 | `Some(2)` exactly when icons are enabled, else `None` |
| Ranking.Digit | pythonx/clap/fuzzymatch-rs/src/lib.rs:117 | a digit below 10 is the character `'0' + d` |
| Ranking.DecimalString | pythonx/clap/fuzzymatch-rs/src/lib.rs:117 | `usize::to_string` is a non-empty string of decimal digits, one digit long exactly below 10 |
| Ranking.DecimalInjective | pythonx/clap/fuzzymatch-rs/src/lib.rs:117 | different row numbers have different numerals |
| Ranking.Rekey | pythonx/clap/fuzzymatch-rs/src/lib.rs:115-118 | every row number's text is found under its numeral, and every key is the numeral of some row number |
| Ranking.NumeralsSize | pythonx/clap/fuzzymatch-rs/src/lib.rs:117 | a set of row numbers has as many numerals as members |
| Ranking.RekeySize | pythonx/clap/fuzzymatch-rs/src/lib.rs:115-118 | re-keying loses no entry: the returned map is as large as the truncator's |
| Ranking.FuzzyMatch | pythonx/clap/fuzzymatch-rs/src/lib.rs:71-120 | there is a descending-score permutation of the matches such that, handed to the truncator with `Some(2)` columns skipped for icons (else `None`), `indices` and `filtered` align with the rows it returns and the map is its map re-keyed by numeral |
| Scenarios.NoBacktracking | pythonx/clap/fuzzymatch-rs/src/lib.rs:20-43 | `"b a"` against `"ab"`: each term occurs, but `"a"` does not occur after `"b"`, so there is no match |
| Scenarios.TermsOfTwoWords | pythonx/clap/fuzzymatch-rs/src/lib.rs:22-23 | two non-empty lower-case words joined by one space split into exactly those two terms |
| Scenarios.FindOu | pythonx/clap/fuzzymatch-rs/src/lib.rs:25 | after `"su"`, `"ou"` is found at 16 in `"substr_scorer_should_work"` |
| Scenarios.FindOrk | pythonx/clap/fuzzymatch-rs/src/lib.rs:25 | after `"su"`, `"ork"` is found at 22 |
| Scenarios.SuOu | pythonx/clap/fuzzymatch-rs/src/lib.rs:143-146 | `("su ou", "substr_scorer_should_work")` gives positions `[0, 1, 16, 17]` and score `2 + 1/18 - 18` |
| Scenarios.SuOrk | pythonx/clap/fuzzymatch-rs/src/lib.rs:143-146 | `("su ork", "substr_scorer_should_work")` gives positions `[0, 1, 22, 23, 24]` and score `2 + 1/25 - 25` |

## Left out

- The fzy algorithm (`get_appropriate_matcher`, lib.rs:78) is not part of this model. It is the parameter `FzyFn`, and the line splitter only picks which function is passed.
- `truncate_long_matched_lines` (lib.rs:103) is not part of this model. It is the parameter `Truncator`, so nothing is proved about how lines are shortened to `winwidth` or which rows enter the map.
- Unicode: `to_lowercase`, `split_whitespace` and byte offsets are modelled for ASCII text only. Multi-byte characters, case mappings that change length, and Unicode whitespace are not modelled.
- `&line[4..]` panics on a line shorter than 4 bytes, or one whose fifth byte is not a character boundary. `AllAccepted` requires candidates long enough, and the boundary panic is not modelled.
- Floating point: scores are exact reals. `f64` rounding and the `i64 as f64` conversion are not modelled. `partial_cmp(..).unwrap()` cannot panic because reals have no NaN.
- Ranking.SortByScore: `sort_unstable_by` gives no order among equal scores, so the model promises only a sorted permutation. That is all the source promises.
- usize overflow of `idx + sub_niddle.len()` and `pos += 1` is not modelled, because integers are unbounded.
- The pyo3 glue (`#[pyfunction]`, `#[pymodule]`, `PyResult`) is not modelled. The `fuzzy_match` result is the method's out-parameters, and it never fails.
- The Python comparison in the test at lib.rs:130-157 is not modelled, because `scorer.py` is not part of this model. `Scenarios.SuOu` and `Scenarios.SuOrk` give the Rust results for its two inputs. The icon test (lib.rs:159-167) only prints, and the truncator it depends on is a parameter.
- Ranking.FuzzyMatch: the contract says only that some descending-score order of the matches is handed to the truncator. Among equal scores, `sort_unstable_by` fixes no order, and the truncator is a parameter.
