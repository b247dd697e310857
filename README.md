# lintoko: rule application and diagnostics, in Dafny

lintoko is a linter for Motoko. A rule is a name, a description and a
tree-sitter query. Linting a file applies every rule's query to the parse
tree and turns the captures named `error` into diagnostics. This project
models the pipeline that starts once the query engine has produced its
matches:

- **Templating** (`Template`). Every `@name` in a rule's description is
  replaced by the text of the first capture of the match with that name.
  A placeholder is `@` followed by one or more characters from `a`-`z`
  and `-`. The scan is leftmost, greedy and non-overlapping, and the text
  that is inserted is never scanned again. A name with no capture, or a
  capture whose text is not UTF-8, is an error.
- **Applying one rule** (`RuleApplication`). Rule application follows these steps:
  - A query that does not compile, or one without an `error` capture, is an error.
  - A declared `trailing` capture drops every match where one of its nodes has a following named sibling.
  - The other matches contribute one error pair per `error` node, in order. A pair is the node's range and the match's captures.
  - When the query declares `filter`, they also contribute their `filter` ranges to a suppression set.
  - Pairs whose range is suppressed are dropped. So are pairs whose range was already reported by an earlier pair.
  - Every remaining pair becomes a diagnostic with a templated description.
  - The first templating error aborts the rule.
- **Ordering** (`Ordering`). A file's diagnostics are stably sorted by their start byte.
- **Text output** (`TextOutput`). The text format prints:
  - a header `path:line:column Error: description`;
  - the line `Found in:`;
  - the source lines of the diagnostic's rows, each labelled with its 1-based number, right-aligned to the width of the last line's number.

  The number formatting (`ilog(10)`, decimal digits) and Rust's `str::lines` splitting are modelled exactly.
- **Linting a file** (`Lint`). Linting a file follows these steps:
  - Every rule is applied in catalogue order.
  - The first failing rule aborts before anything is written.
  - The diagnostics are sorted.
  - Each diagnostic is written in the configured format, followed by a line feed.
  - The result is the number of diagnostics.

  The output is a `Sink` object whose `text` field grows with every write.

The tree-sitter query engine is a parameter: a function from query text to a
`QueryRun`. A `QueryRun` is either `CompileFailed`, or the set of capture
names the query declares together with its matches in engine order. Each
capture in a match carries:
- its name;
- its range;
- its UTF-8 text (`None` when the bytes are not UTF-8);
- whether its node has a following named sibling.

The pretty (miette) renderer is a parameter too.

Each imperative routine is a Dafny method with the loop structure of the Rust
code, proved equal to a specification function. The properties are proved as
lemmas about those functions:
- `TemplateDescription` is proved equal to `Render`.
- `ApplyRule`, `CollectMatches` and `ReportErrors` are proved equal to `ApplySpec`.
- `PrintTextDiagnostic` is proved equal to `TextDiagnostic`.
- `LintFile` states exactly the state of the `Sink` after it runs.

## Model

| member | source | states |
|---|---|---|
| Template.TemplateDescription | src/lib.rs:84-110 | The templating loop returns exactly `Render(template, captures)`: the text between placeholders, each placeholder's capture text, and the tail after the last placeholder; or the error of the first placeholder that cannot be filled. |
| Template.FirstCapture | src/lib.rs:97-99 | Returns `None` exactly when no capture has the name; otherwise it returns the capture with the smallest index that has it. |
| Template.PiecesRoundTrip | src/lib.rs:90-93 | The placeholder scan loses nothing: reassembling the literals and `@name` holes gives back the template. |
| Template.PiecesAlternate | src/lib.rs:93-96 | The scan alternates. It starts and ends with a literal, and holes and literals take turns. |
| Template.PiecesLiteralsClean | src/lib.rs:93-96 | No literal piece contains a placeholder, so the scan misses none. |
| Template.PiecesHolesGreedy | src/lib.rs:90 | Each hole is a non-empty name in `[a-z-]+`, and the literal after it does not start with a name character, so the name is taken greedily. |
| Template.PiecesUnique | src/lib.rs:90-96 | A cut that spells out the template, alternates, has placeholder-free literals and greedy names is the scan's cut, so no other cut has those four properties. |
| Template.PiecesCharacterised | src/lib.rs:90-96 | A cut is the scan's exactly when it has the four properties: leftmost, greedy and non-overlapping, as for `@([a-z-]+)`. |
| Template.NoPlaceholderRendersItself | src/lib.rs:108 | A template without placeholders renders to itself, whatever the captures. |
| Template.ExpandFills | src/lib.rs:93-108 | Expansion succeeds exactly when every hole can be filled. Its text is then the pieces with each hole replaced verbatim by its capture text. |
| Template.ExpandErrorKinds | src/lib.rs:97-104 | Templating can fail only with a missing capture or non-UTF-8 text. |
| Template.ExpandFirstError | src/lib.rs:97-104 | When holes before index k can be filled and hole k cannot, the error is hole k's: `CaptureNotFound(name, template)` when no capture has the name, `NonUtf8Text` when its text is not UTF-8. |
| Template.RenderMeaning | src/lib.rs:84-110 | Rendering succeeds exactly when every placeholder of the template can be filled. The result is the template with every placeholder replaced by its first capture's text, and every other character unchanged. |
| Template.RenderLeading | src/lib.rs:93-108 | A template `@name` followed by a placeholder-free tail renders to the capture text plus the tail, or to the matching error. |
| Template.RenderExample | src/lib.rs:84-110 | `@x is unused` with `x` bound to `foo` renders to `foo is unused`. |
| Template.RenderNoRescan | src/lib.rs:100-106 | Inserted text that looks like a placeholder (`@y`) is not templated again. |
| Template.RenderUnknownName | src/lib.rs:97-99 | A placeholder naming no capture gives `CaptureNotFound` with that name. |
| RuleApplication.ApplyRule | src/lib.rs:112-166 | Returns `ApplySpec(rule, run)`. These errors are listed separately: a failed compile gives `QueryCompileFailed(name)`, and a missing `error` capture gives `MissingErrorCapture(query)`. On success no diagnostic's range is suppressed, and no two diagnostics share a range. |
| RuleApplication.CollectMatches | src/lib.rs:124-146 | The match loop returns exactly the error pairs and the suppression set of the matches the trailing guard keeps. |
| RuleApplication.MatchErrorPairs | src/lib.rs:136-139 | One pair per `error` capture of the match, in capture order, each with all the match's captures. |
| RuleApplication.MatchFilterRanges | src/lib.rs:141-145 | The set of the match's `filter` ranges. |
| RuleApplication.ReportErrors | src/lib.rs:147-165 | The reporting loop returns the templated diagnostics of the pairs that are neither suppressed nor already seen, or the first templating error. |
| RuleApplication.ToDiagnosticsMeaning | src/lib.rs:157-163 | Succeeds exactly when every pair's description renders. The i-th diagnostic then carries the rule name, the description templated with the i-th pair's captures, and the i-th pair's range. |
| RuleApplication.KeptUnsuppressed | src/lib.rs:150-152 | No kept pair has a suppressed range. |
| RuleApplication.KeptDistinct | src/lib.rs:153-156 | The kept pairs have pairwise distinct ranges. |
| RuleApplication.KeptRanges | src/lib.rs:149-156 | The kept ranges are exactly the collected ranges minus the suppressed ones. |
| RuleApplication.KeptFirstOccurrences | src/lib.rs:149-156 | The kept pairs form a subsequence of the collected pairs, in the same order. Each was the first collected pair with its range. |
| RuleApplication.ApplyProperties | src/lib.rs:147-165 | A successful rule reports no suppressed range, even when the filter comes from a later match, and never reports a range twice. |
| RuleApplication.ApplyErrorKinds | src/lib.rs:113-122 | With an `error` capture declared, the only failures are templating errors. A missing `filter` or `trailing` capture is not an error, and no matches gives no diagnostics. |
| RuleApplication.ApplyComplete | src/lib.rs:128-165 | The reported ranges are exactly the error ranges of the kept matches minus the suppression set. |
| RuleApplication.ApplyFirstOccurrence | src/lib.rs:147-165 | Diagnostic i comes from the first collected pair for its range, at strictly increasing pair indices. Its description is templated with that pair's own match's captures. |
| RuleApplication.MatchFiltersMembers | src/lib.rs:141-145 | A range is among a match's filter ranges exactly when one of its `filter` captures has it. |
| RuleApplication.CollectFiltersMembers | src/lib.rs:128-146 | The suppression set holds exactly the `filter` ranges of the matches the trailing guard keeps, whether they come before or after the error they suppress. It is empty when the query does not declare `filter`. |
| RuleApplication.MatchErrorsMembers | src/lib.rs:136-139 | A pair is among a match's error pairs exactly when it is an `error` capture's range paired with the whole match. |
| RuleApplication.CollectErrorsMembers | src/lib.rs:128-139 | The collected pairs are exactly the `error` capture ranges of the matches the trailing guard keeps, each paired with its match's captures. |
| RuleApplication.CollectErrorsAppend | src/lib.rs:128-139 | Collecting error pairs distributes over concatenation of the match stream. |
| RuleApplication.CollectFiltersAppend | src/lib.rs:128-146 | Collecting the suppression set distributes over concatenation of the match stream. |
| RuleApplication.ApplyIgnoresDiscarded | src/lib.rs:129-135 | A match the trailing guard discards changes nothing: removing it from the stream gives the same result. Its filter captures suppress nothing. |
| Ordering.SortByStart | src/lib.rs:226 | The result is sorted by start byte and is a permutation of the input. For every start byte, it keeps the diagnostics with that start byte in their input order, which makes the sort stable. |
| Ordering.InsertWithStart | src/lib.rs:226 | Inserting puts the new element after every element with the same key. |
| Ordering.WithStartAppend | src/lib.rs:222-226 | Selecting one start byte's diagnostics distributes over concatenation. |
| Ordering.StableSortUnique | src/lib.rs:226 | Two sorted sequences with the same elements, in the same order, for every key are equal. |
| Ordering.SortByStartIsTheStableSort | src/lib.rs:226 | Any stable sort of the diagnostics by start byte is `SortByStart`. |
| TextOutput.PrintTextDiagnostic | src/lib.rs:186-207 | The rendering loop returns exactly `TextDiagnostic(path, source, d)`: the header line, `Found in:`, and one labelled line per excerpt line, each followed by a line feed. |
| TextOutput.Ilog10Bounds | src/lib.rs:190 | `Ilog10(n)` is the k with 10^k <= n < 10^(k+1). |
| TextOutput.Ilog10Monotone | src/lib.rs:197-198 | The logarithm is monotone, so the padding `max_line_chars - line_chars` is never negative. |
| TextOutput.DecimalRoundTrip | src/lib.rs:199-202 | The decimal digits of n read back as n and have no leading zero. |
| TextOutput.DecimalLength | src/lib.rs:190-199 | A positive n has `ilog10(n) + 1` digits. |
| TextOutput.LabelWidth | src/lib.rs:196-199 | Every line label is as wide as the last line's number: spaces followed by the number, which right-aligns the numbers. |
| TextOutput.Excerpt | src/lib.rs:191-194 | At most `end_row - start_row + 1` lines are shown. |
| TextOutput.ExcerptLines | src/lib.rs:191-195 | Element i of the excerpt is source line `start_row + i`. The excerpt has every row of the range that the source has, and is empty when the range starts after the last line. |
| TextOutput.LinesHaveNoLineFeed | src/lib.rs:191-192 | No line produced by `str::lines` contains a line feed. |
| TextOutput.UnlinesLines | src/lib.rs:191-199 | For text without carriage returns, splitting into lines and writing each line with a line feed gives back the text, plus a line feed when the last line had none. |
| TextOutput.LinesUnlines | src/lib.rs:199-206 | Writing lines without line breaks, each followed by a line feed, and splitting the result gives back the lines. |
| TextOutput.TextDiagnosticLines | src/lib.rs:202-206 | Read back with `str::lines`, the report is `path:line:column Error: description`, then `Found in:`, then the numbered excerpt lines. This holds when the path and description contain no line feed, the description does not end in a carriage return, and no source line ends in a stray carriage return. LF and CRLF sources both meet the last condition. |
| TextOutput.CRFreeHasNoStrayCR | src/lib.rs:191-192 | A source without carriage returns has no line ending in one. |
| TextOutput.CRLFHasNoStrayCR | src/lib.rs:191-192 | `str::lines` splits the CRLF text `a\r\nb` into `a` and `b`, so it has no stray carriage return. |
| Lint.Sink.WriteLine | src/lib.rs:232 | A write appends the text and one line feed. |
| Lint.LintFile | src/lib.rs:209-235 | If some rule fails, returns the error of the first failing rule and writes nothing. Otherwise it returns the number of diagnostics, and the sink's new text is the old text followed by every diagnostic in `SortByStart` order, each formatted and followed by a line feed. |
| Lint.ApplyRules | src/lib.rs:221-224 | The rule loop returns `CollectAll`: the concatenated diagnostics, or the first failing rule's error. |
| Lint.WriteAll | src/lib.rs:227-233 | The output loop appends every diagnostic's formatted text and a line feed, in order. |
| Lint.CollectAllErrPrefix | src/lib.rs:222-224 | Once a prefix of the rules fails, the whole run fails with that error. |
| Lint.CollectAllAppend | src/lib.rs:221-225 | The run over `a + b` succeeds exactly when both parts do. Its diagnostics are then those of `a` followed by those of `b`, so no diagnostic is dropped across rules. An error in `a` is the error of the whole run. |
| Lint.CollectAllMeaning | src/lib.rs:222-224 | The run succeeds exactly when every rule succeeds. |
| Lint.CollectAllFirstError | src/lib.rs:222-224 | The error of the run is the error of the first failing rule. |
| Lint.CountIsSum | src/lib.rs:225 | The returned count is the sum of the per-rule diagnostic counts. |
| Lint.LintOrder | src/lib.rs:221-226 | The sorted diagnostics of `a + b` are ordered by start byte. Those with a given start byte are `a`'s, then `b`'s, each in the order its rule reported them. |
| Lint.LintNoRules | src/lib.rs:242-253 | Linting with the default configuration and no rules returns a count of 0 and writes nothing. |
| Lint.WrittenSnoc | src/lib.rs:227-233 | Each further diagnostic appends its formatted text and a line feed. In the text format, that text is `TextDiagnostic`. |

## Left out

- Parsing and query matching: tree-sitter parsing, query compilation and the match cursor are not modelled. Each rule's query is handed to an `engine` parameter, which returns either `CompileFailed` or the declared capture names with the matches, in the engine's order. lintoko trusts tree-sitter, so its behaviour is the model's input.
- The regular expression `@([a-z-]+)`: modelled by a hand-written scanner. It is proved lossless, leftmost and greedy, and to be the only cut with those properties (`PiecesCharacterised`).
- UTF-8 decoding (`utf8_text`): each capture carries its text as an `Option`, where `None` means the bytes are not UTF-8. Strings are sequences of characters, and byte offsets are not modelled.
- `print_pretty_diagnostic` (src/lib.rs:168-184): the miette report is a foreign library's output. It is the `pretty` parameter of `Lint.LintFile`.
- I/O errors from `writeln!`: the sink always accepts a write.
- `lint_file`'s grammar loading and its panics on a failed grammar load or parse: outside the model.
- `default_rules`, `load_rule_from_file`, `load_rules_from_directory` and src/main.rs: TOML parsing, file-system access and command-line handling are not part of this model.
- Error messages: errors are data constructors carrying the values that the source's messages interpolate, such as the rule name, the query, or the capture name and template. The message text itself is not modelled.
- `tree_sitter::Range` holds byte offsets and points. `Span` keeps the start and end byte and the start and end row and column. `Range` assumes the start is not past the end, as tree-sitter guarantees.
- Decomposition of the Rust functions: `apply_rule` is split into `CollectMatches`, `MatchErrorPairs`, `MatchFilterRanges` and `ReportErrors`, and `lint_file` into `ApplyRules` and `WriteAll`. Each keeps the loop of the Rust code it stands for.
- `str::lines`: modelled as current Rust defines it. A line ended by `\r\n` loses the `\r`. A last line with no line feed keeps a trailing `\r`.
