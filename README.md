# minigrep line filter, in Dafny

This project models the library half of minigrep (`src/lib.rs`), a small
grep-like tool. The library has two parts.

- **Argument validator.** `Config::new` turns the command line into a
  `(mode, query, filename)` configuration, or fails with one of two fixed
  messages.
- **Three searches over the lines of a text.**
  - `search` keeps the lines that contain the query.
  - `search_case_insensitive` keeps the lines whose lower-cased form contains
    the lower-cased query. It returns the lines as they were written.
  - `search_count` counts the lines that contain the query.

The model has three modules.

- `Text` (`text.dfy`) models the parts of Rust's `str` that the searches
  rely on:
  - `Lines` is `str::lines`. It cuts the text at every '\n'. It drops the '\r'
    of a "\r\n" terminator. It yields no empty line after a final '\n'.
  - `Unlines` is its partner. The lemmas `LinesOfUnlines` and `UnlinesOfLines`
    prove the round trips in both directions, for text without '\r'.
  - `UnlinesCrlf` joins lines with "\r\n". The lemma `LinesOfUnlinesCrlf`
    proves that splitting such text gives the lines back, whatever they hold
    other than '\n'.
  - `Contains` is `str::contains`: the query occurs at some offset.
  - `ToLower` is `str::to_lowercase`, for ASCII letters only.
- `MiniGrep` (`minigrep.dfy`) holds three things.
  - `NewConfig` models `Config::new`. It returns a `Result` datatype.
  - `Hits` is the specification of a search: the filter of a line list by the
    case-sensitive or the case-insensitive test. It comes with lemmas about
    order (subsequence), multiplicity, membership, size, the empty query, and
    how the two tests relate.
  - The three searches are methods. Each has the source's loop and
    accumulator, and is proved equal to `Hits`, or to its length, over
    `Lines(contents)`.
- `MiniGrepScenarios` (`scenarios.dfy`) states the three unit tests of
  `src/lib.rs` as methods. Each method calls the search on the test's text
  and promises the test's expected result.

## Model

| member | source | states |
|---|---|---|
| Text.NewlineIndex | src/lib.rs:64 | the cut point `str::lines` uses: the first '\n' of the text, or its end if it has none; no '\n' comes before it |
| Text.Lines | src/lib.rs:76 | `str::lines`: the empty text has no lines, and every non-empty text has at least one |
| Text.LinesHaveNoNewline | src/lib.rs:76 | no line that `str::lines` yields contains a '\n' |
| Text.LinesSingle | src/lib.rs:76 | a non-empty text without '\n' is one line, the text itself |
| Text.LinesCons | src/lib.rs:76 | a line followed by '\n' is split off unchanged, unless it ends in '\r' |
| Text.LinesConsCrlf | src/lib.rs:76 | a line terminated by "\r\n" is split off without its '\r', whatever else it holds except '\n' |
| Text.LinesOfUnlinesCrlf | src/lib.rs:76 | splitting "\r\n"-joined lines gives those lines back, if no line holds a '\n'; a line may itself end in '\r' |
| Text.LinesOfUnlines | src/lib.rs:76 | splitting the '\n'-joined lines gives those lines back, if no line holds a '\n' or ends in '\r' |
| Text.UnlinesOfLines | src/lib.rs:76 | joining the lines of a text without '\r' gives the text back, with a final '\n' added if it had none |
| Text.FirstLineOff | src/lib.rs:76 | rejoining the lines of a text restores its first line, the '\n' after it, then the rest rejoined |
| Text.ContainsStep | src/lib.rs:77 | a line that does not start with the query contains it exactly when the line minus its first character does |
| Text.ContainsSkip | src/lib.rs:77 | a stretch of the line that lacks the query's first character can be skipped without changing containment |
| Text.ContainsLowered | src/lib.rs:86-90 | if a line contains the query, the lower-cased line contains the lower-cased query |
| MiniGrep.NewConfig | src/lib.rs:35-58 | 3 arguments give mode "-d", query args[1] and filename args[2]; 4 arguments give mode args[1], query args[2] and filename args[3]; any other count gives "not enough arguments"; a 4-argument mode other than "-i", "-d" or "-n" gives "invalid mode argument"; on success the mode is one of those three |
| MiniGrep.ConfigRoundTrip | src/lib.rs:44-57 | every configuration with a valid mode is what its own four-argument command line produces, whatever the program is called |
| MiniGrep.HitsSubsequence | src/lib.rs:73-83 | a search result is a subsequence of the lines: the document order is kept |
| MiniGrep.HitsMultiplicity | src/lib.rs:76-79 | a line is in the result as often as in the text if it passes the test, and not at all otherwise |
| MiniGrep.HitsMembers | src/lib.rs:76-79 | a line is in the result exactly when it is a line of the text that passes the test |
| MiniGrep.HitsBounded | src/lib.rs:61-71 | a search never selects more lines than the text has |
| MiniGrep.EmptyQueryHitsAll | src/lib.rs:77-78 | the empty query is contained in every line, so it selects all lines, with or without case |
| MiniGrep.SensitiveWithinInsensitive | src/lib.rs:77 | every line the case-sensitive search returns is also returned, in the same order, by the case-insensitive search (line 90) |
| MiniGrep.SearchCount | src/lib.rs:61-71 | the count equals the number of lines `search` returns, and is at most the number of lines |
| MiniGrep.Search | src/lib.rs:73-83 | the result is the line list filtered by `Contains` with the order kept; a line is in it exactly when it is a line of the text that contains the query |
| MiniGrep.SearchCaseInsensitive | src/lib.rs:85-96 | the result is the line list filtered by the lower-cased test; the lines come back as written; a line is in it exactly when it is a line of the text whose lower-cased form contains the lower-cased query |
| MiniGrepScenarios.FourLines | src/lib.rs:105-109 | the tests' four-line texts split into exactly their four lines |
| MiniGrepScenarios.HitsOfFour | src/lib.rs:76-79 | a search over four lines tests each line once, in order |
| MiniGrepScenarios.DuctOnlyInSecondLine | src/lib.rs:104-109 | of the four lines, only "safe, secure, productive." contains "duct" ("Duct tape." does not, because of its capital letter) |
| MiniGrepScenarios.DuctHits | src/lib.rs:103-111 | "duct" selects only the second line of the test text |
| MiniGrepScenarios.RustNotInSecondLine | src/lib.rs:116-119 | "safe, secure, productive." does not contain "rust" |
| MiniGrepScenarios.RustNotInThirdLine | src/lib.rs:116-120 | "pick three." does not contain "rust" |
| MiniGrepScenarios.RustInFirstAndLastLine | src/lib.rs:116-121 | "Rust:" and "Trust me", lower-cased, contain "rust" |
| MiniGrepScenarios.RustHits | src/lib.rs:115-126 | ignoring case, "RuSt" selects the first and the last line of the test text, as written |
| MiniGrepScenarios.OneResult | src/lib.rs:102-112 | the test `one_result`: `search("duct", …)` returns ["safe, secure, productive."] |
| MiniGrepScenarios.CountOccurrences | src/lib.rs:129-139 | the test `count_occurrences`: `search_count("duct", …)` returns 1 |
| MiniGrepScenarios.CaseInsensitive | src/lib.rs:114-127 | the test `case_insensitive`: `search_case_insensitive("RuSt", …)` returns ["Rust:", "Trust me"] |

## Left out

- `run` (src/lib.rs:5-26) is not modelled. It reads the file, prints, and
  dispatches on the mode; all of that is I/O and formatting.
- MiniGrep.SearchCaseInsensitive: lower-cases ASCII letters only. Rust's
  Unicode `to_lowercase` can change lengths and depends on context; that is
  library behaviour outside this model.
- Text.ContainsLowered: proved for ASCII lower-casing only, for the same
  reason.
- MiniGrep.SensitiveWithinInsensitive: holds for ASCII lower-casing only.
  Under Unicode `to_lowercase`, "ΑΣ" contains "Σ", but its lower-cased form
  "ας" (final sigma) does not contain "σ".
- Text.UnlinesOfLines: stated only for text without '\r'. A '\r' right
  before a '\n' is dropped by splitting, so rejoining with '\n' alone cannot
  restore it.
- MiniGrep.SearchCount: the counter is a natural number. The source's `i32`
  would overflow past 2^31 - 1 matching lines, and that case is not modelled.
- MiniGrep.NewConfig: ignores `args[0]`, the program name, as the source does.
  The validator's `&'static str` errors become strings.
- The searches return copies of the lines, not slices borrowed from
  `contents`. Lifetimes and aliasing are not modelled.
- The library has no match spans, highlighting, inverted search or colour
  handling, so none is modelled.
- Text.Lines: follows current Rust. A lone '\r' at the very end of the text
  stays on the last line; only a "\r\n" terminator loses its '\r'.
