# rusttest-to-dg: the annotation converter, in Dafny

rusttest-to-dg turns a rustc UI test into a GCC DejaGnu test. It has two parts.

- **Reading the annotations** (`load_error`). It reads the test file's `//~` annotations, one per line:
  - `//~ KIND message` is about the annotation's own line;
  - `//~^^ KIND message` is about the line k lines above, where k is the number of carets;
  - `//~| KIND message` follows the last annotation that was not itself a follow.

  Each annotation becomes an `Error` with a target line, a relative line number, an optional kind, a message and an optional error code. When a `.stderr` transcript is given, the codes are filled from its `error[Ennnn]` records.
- **Rewriting the file** (`transform_code`). It re-emits the file line by line.
  - A header line is swapped for its prepared DejaGnu header.
  - Every other line is rewritten by the first error whose comment line it is. The line becomes the error's `dg-error`/`dg-warning`/… directive, or, for an error about its own line, the code before the sigil followed by the directive.

The model has these modules:

- `Kinds`: the severity keywords and `from_str`.
- `ErrorDisplay`: the `Error` record and its rendering, with a reader that takes a directive apart again.
- `Sigil`: a hand-written scanner for the sigil pattern `//(?:\[revs])?~(\||\^*)`. It has the leftmost-first semantics of Rust's `regex` crate: the earliest start wins, `|` is preferred to `^*`, and `^*` is greedy.
- `Annotations`:
  - `parse_expected`;
  - the pass of `load_error` over the lines, which threads the last non-follow anchor;
  - `load_error` itself.
- `Stderr`:
  - `is_error_code`;
  - the record filter of `parse_error_code`;
  - the code-enrichment loop of `load_error`.
- `Transform`: `transform_code`.
- `Text`: Rust's `lines`, `trim`, `split_whitespace`, `to_uppercase` and integer formatting, as used by the code above.

A panic of the source is an explicit `Failure` in the model. The `Panic` type has one case per panic:

| Case | Source | Cause |
|---|---|---|
| `EmptyComment` | errors.rs:243 | Nothing but whitespace follows the sigil. |
| `FollowWithoutAnchor` | errors.rs:257 | A `//~|` comes with no anchor above it. |
| `AdjustBeyondStart` | errors.rs:269 | There are more carets than lines above, so the `usize` subtraction underflows. This panics in builds with overflow checks, such as debug builds (see "Left out" for release builds). |
| `BadLineNumber` | errors.rs:208 | A transcript line number does not parse as a `usize`. |
| `DirectiveNotFound` | transform.rs:52 | The sigil cannot be found on a line keyed by an offset-0 error. `DirectiveAlwaysFound` proves this never happens. |

The imperative parts keep their loops. Each loop is a method, proved equal to a function that specifies it:
- `ScanLines`, `ParseErrorCode` and `FillErrorCodes` are the loops of errors.rs;
- `HeaderLoop`, `ErrorLoop` and `RewriteCode` are the loops of transform.rs;
- `LoadError` and `TransformCode` put them together.

The properties are proved about those functions.

The code is followed where it disagrees with its own comments:

- **Sign of the relative line number.**
  - The doc comment on `relative_line_num` (errors.rs:66-69) says it is `1` for an error on the previous line.
  - The code computes `-(adjusts)` for carets (errors.rs:270) and `anchor - L` for a follow annotation (errors.rs:261). Both are negative for an earlier line.
  - The directive's `.N` field has the same sign.
  - The model uses the code's sign.
- **The anchor is a zero-based index.**
  - After a non-follow annotation on 1-based line L, `load_error` stores `Some(L - 1)` (errors.rs:132-136). That is the line's zero-based index, not its number.
  - A following `//~|` therefore targets the line just above the anchor annotation's line. `ParseExpectedFollow` and `ScanAnchor` state this.
  - So a follow annotation lies at least two lines below its target, and its offset is at most -2 (`FollowOffsetBelowMinusOne`).
  - The model keeps this behaviour exactly.

## Model

| member | source | states |
|---|---|---|
| Kinds.BeforeColon | src/errors.rs:35-38 | The result is a prefix of the word that holds no `:`. When it is shorter than the word, a `:` follows it. This is the first piece of `split(':')`. |
| Kinds.UpperUntilColonSpec | src/errors.rs:31-38 | The one-pass scan stops at the first colon or at the end. Every character before the stop is upper-cased. |
| Kinds.UpperBeforeColon | src/errors.rs:31-38 | Upper-casing before splitting at the first colon gives the same piece as splitting first. |
| Kinds.LookupKeywordTable | src/errors.rs:39-46 | Trying the arms of the match in order gives the keyword lookup: HELP, ERROR, NOTE, SUGGESTION, WARN and WARNING, and nothing else. |
| Kinds.FromStr | src/errors.rs:30-47 | `from_str` as a one-pass scan and a table lookup. It has no contract of its own: `FromStrIs` and `FromStrIff` specify it. |
| Kinds.FromStrIs | src/errors.rs:30-46 | `from_str(s)` is the keyword lookup of `s.to_uppercase().split(':').next()`. |
| Kinds.KindOfKeywordIff | src/errors.rs:39-46 | The lookup yields kind k exactly for k's keywords: HELP, ERROR, NOTE, SUGGESTION, or WARN/WARNING. Every other word, the empty one included, is rejected. |
| Kinds.FromStrIff | src/errors.rs:30-46 | `from_str(s)` is kind k if and only if the upper-cased text before the first colon is one of k's keywords. |
| Kinds.FromStrIgnoresCase | src/errors.rs:31 | Two words that upper-case alike parse alike. |
| Kinds.FromStrIgnoresAfterColon | src/errors.rs:32-38 | Everything from the first colon on is ignored. |
| Kinds.FromStrOfUpperWord | src/errors.rs:31-46 | An upper-case word parses as the keyword it is, in upper or in lower case. |
| Kinds.FromStrAcceptsKeywords | src/errors.rs:39-46 | Every keyword of a kind parses to that kind, upper- or lower-case. |
| Kinds.FromStrTestKeywords | src/errors.rs:290-340 | `"help:"` is Help and `"warn"` is Warning, as in the unit tests. |
| Kinds.FromStrTestRejects | src/errors.rs:342-351 | `"unrecognized"` and `""` are rejected, as in the unit tests. |
| Kinds.Name | src/errors.rs:50-60 | The display name of a kind is never empty. |
| Kinds.NameTestCases | src/errors.rs:353-376 | The display names are `help message`, `error`, `note`, `suggestion` and `warning`, as in the unit tests. |
| Kinds.NameInjective | src/errors.rs:50-60 | Distinct kinds display differently. |
| ErrorDisplay.Tag | src/errors.rs:88-95 | The directive name has no space, quote or newline and is not empty. This is what lets the directive be read back. |
| ErrorDisplay.Render | src/errors.rs:83-113 | The directive template. It has no contract of its own: `RenderReadsBack`, `RenderNoNewline` and `Transform.ExampleRender` specify it. |
| ErrorDisplay.RenderNoNewline | src/errors.rs:83-113 | A directive holds no newline unless its error code does. |
| ErrorDisplay.ReadOffsetOfField | src/errors.rs:103-107 | The line field reads back: absent for 0, `.N ` for any other N. |
| ErrorDisplay.ReadPatternOfFields | src/errors.rs:97-101 | A quote-free code field reads back as the directive's regexp field. |
| ErrorDisplay.RenderReadsBack | src/errors.rs:83-113 | Reading a rendered directive gives back the kind's tag, the code field (empty, or `.code.`) and the relative line number. Rendering loses none of them. |
| Stderr.IsErrorCode | src/errors.rs:174-176 | An accepted code is `E` and four digits, so it has no quote and no newline. |
| Stderr.ParseUsize | src/errors.rs:206-208 | A parsed line number is below 2^64. |
| Stderr.ParseUsizeOfNatToString | src/errors.rs:206-208 | Every `usize` reads back from its decimal form. |
| Stderr.Kept | src/errors.rs:200-202 | The kept captures are exactly the captures with a well-formed code. |
| Stderr.KeptAt | src/errors.rs:200-211 | A well-formed capture is kept at the position given by the number of well-formed captures before it, so transcript order is kept. |
| Stderr.KeepRecords | src/errors.rs:185-212 | Every record has a well-formed code. `KeepRecordsFailure` and `KeepRecordsKept` state which records are kept and when the filter aborts. |
| Stderr.KeepRecordsFailure | src/errors.rs:200-209 | The filter aborts exactly when some capture with a well-formed code has a line number that is not a `usize`. The panic names the first such capture's line number. |
| Stderr.KeepRecordsKept | src/errors.rs:200-211 | On success, record j is the j-th capture with a well-formed code, with its own code, its own detail and its parsed line number. |
| Stderr.ParseErrorCode | src/errors.rs:179-213 | The filtering loop computes `KeepRecords`. |
| Stderr.KeepRecordsFailurePersists | src/errors.rs:200-209 | Once a prefix of the captures aborts, the whole list aborts with the same panic. |
| Stderr.LastMatchingCode | src/errors.rs:154-160 | The result is None exactly when no record matches by line or by message. Otherwise it is the code of a matching record after which no record matches, so the last match wins. |
| Stderr.WithCode | src/errors.rs:154-160 | One error after the inner loop. It has no contract of its own: `Enrich` and `LastMatchingCode` specify it. |
| Stderr.Enrich | src/errors.rs:153-161 | Enrichment keeps the number and order of the errors and changes only their codes. Each code becomes the last matching record's code, or stays as it was. |
| Stderr.FillErrorCodes | src/errors.rs:153-161 | The nested in-place loop computes `Enrich`. |
| Sigil.TildeAt | src/errors.rs:227 | The position found holds `~`. |
| Sigil.TildeAtRevGroup | src/errors.rs:227 | What precedes that `~` is an optional `[revs]` group. |
| Sigil.TildeAtComplete | src/errors.rs:227 | Any `~` that ends a revision group is the one found, so the optional group is tried before it is skipped. |
| Sigil.MatchAt | src/errors.rs:227-232 | A match starts where asked and is at least three characters long. A follow match has 0 adjusts. |
| Sigil.MatchAtInPattern | src/errors.rs:227 | Every reported match is an instance of the pattern. |
| Sigil.MatchAtPreferred | src/errors.rs:227-232 | The match takes `|` when it is there. Otherwise it takes every `^` that follows the `~`: the run is greedy and the match stops only before a character that is not `^`. |
| Sigil.MatchAtComplete | src/errors.rs:227 | Every instance of the pattern starting at i makes the scan succeed at i. |
| Sigil.FindFrom | src/errors.rs:227 | A match found from i starts at or after i and is the match at its start. |
| Sigil.FindSigil | src/errors.rs:227 | The match found is the one the scan reports at its start. |
| Sigil.FindFromLeftmost | src/errors.rs:227 | The search skips only positions where nothing matches. |
| Sigil.NoSigilIff | src/errors.rs:227 | A line has no sigil exactly when no piece of it is an instance of the pattern. |
| Sigil.FindSigilLeftmost | src/errors.rs:227 | No instance of the pattern starts before the match found. |
| Annotations.Place | src/errors.rs:253-272 | A placed annotation always has target minus relative line equal to its own 1-based line. |
| Annotations.ParseExpected | src/errors.rs:216-284 | The result is "no annotation" exactly when the line has no sigil. A parsed error has no code and is keyed to its own line. It is a follow annotation exactly when the sigil is `|`. |
| Annotations.ParseExpectedFailures | src/errors.rs:238-272 | There are three ways to abort, each as an if-and-only-if: a blank payload, a `|` with no anchor, or more carets than lines above. Parsing succeeds exactly when none applies. |
| Annotations.ParseExpectedFollow | src/errors.rs:255-262 | A follow annotation targets the stored anchor index. Its relative line number is `anchor - L`. |
| Annotations.ParseExpectedAdjust | src/errors.rs:263-271 | k carets on line L give target `L - k` (which needs `k <= L`) and relative line number `-k`, ThisLine for k = 0 and AdjustBackward(k) otherwise. |
| Annotations.WordAndMessageOfTail | src/errors.rs:238-251 | The positions located in the line are the first whitespace-separated word after the sigil and the trimmed message. |
| Annotations.Message | src/errors.rs:245-251 | The message after the keyword is cut. It has no contract of its own: `ParseExpectedText` and `MessageOfPayload` specify it. |
| Annotations.ParseExpectedText | src/errors.rs:238-251 | The kind is `from_str` of the first word after the sigil. The message is the rest, trimmed, with that word cut off only when it names a kind. |
| Annotations.MessageOfPayload | src/errors.rs:245-251 | When the word names a kind, the trimmed payload is that word, whitespace and the message. Otherwise the message is the whole trimmed payload, starting with that word. |
| Annotations.Scan | src/errors.rs:128-140 | The pass of `load_error` over the first n lines. It has no contract of its own: `ScanNext`, `ScanAnchor`, `ScanCommentLines`, `ScanErrorIsParse` and `ScanFailurePersists` specify it. |
| Annotations.LastAnchor | src/errors.rs:132-137 | The index found is the last line among the first n whose sigil is not `|`. |
| Annotations.SigilLinesSpec | src/errors.rs:132-139 | The listed line numbers are increasing and lie in 1..n. A number is listed exactly when its line holds a sigil. |
| Annotations.ScanAnchor | src/errors.rs:132-137 | The anchor carried by the pass is the zero-based index of the last non-follow annotation line. Follow lines never move it. |
| Annotations.ScanCommentLines | src/errors.rs:132-139 | A successful pass gives exactly one error per annotated line, in file order, each keyed to its own line. |
| Annotations.ScanErrorIsParse | src/errors.rs:132-139 | Each error of the pass is what `parse_expected` makes of its own line, given the last anchor index above it. |
| Annotations.ScanNext | src/errors.rs:133-139 | One loop step of `load_error` covers three cases: a panic aborts, a line without a sigil changes nothing, and an annotation is appended, moving the anchor unless it is a follow. |
| Annotations.ParseExpectedOffset | src/errors.rs:253-272 | With the anchor at least two lines up, a follow annotation's offset is at most -2. The offset is 0 exactly for a `//~` with no carets, and such an error targets its own line. |
| Annotations.FollowOffsetBelowMinusOne | src/errors.rs:255-262 | An error that `parse_expected` makes of a `//~|` line in the file has relative line number at most -2. |
| Annotations.ZeroOffsetIsThisLine | src/errors.rs:263-271 | An error with offset 0 parsed from a line of the file came from a `//~` with no carets, and targets that line. |
| Annotations.SigilCommentLines | src/errors.rs:132-139 | Errors keyed to exactly the sigil lines each name a line on which the sigil search succeeds. |
| Annotations.LoadedOnSigilLines | src/errors.rs:127-164 | Every error `load_error` returns is keyed to a line of the file that holds a sigil. |
| Annotations.ScanFailurePersists | src/errors.rs:132-140 | Once the pass panics, the rest of the file does not matter. |
| Annotations.FollowWithoutAnchorAborts | src/errors.rs:255-260 | A non-empty `//~|` with no anchor line above aborts the whole load. |
| Annotations.ScanLine | src/errors.rs:133-139 | One iteration of the line loop computes the pass over one more line. |
| Annotations.ScanLines | src/errors.rs:128-140 | The line loop computes the pass `Scan`. |
| Annotations.LoadError | src/errors.rs:127-164 | `load_error` computes `LoadSpec`: the pass, then, with a transcript, the record filter and the enrichment. |
| Annotations.LoadSpec | src/errors.rs:127-164 | `load_error` as a value. It has no contract of its own: `LoadSpecKeepsScan`, `NoStderrNoCodes` and `LoadedOnSigilLines` specify it. |
| Annotations.NoStderrNoCodes | src/errors.rs:142-145 | Without a transcript no error has a code. |
| Annotations.LoadSpecKeepsScan | src/errors.rs:142-163 | The errors returned are those of the pass, same number and order, with only codes changed. Every code set is a well-formed `Ennnn`. |
| Text.TrimStart | src/errors.rs:248 | `trim_start`: the result is a suffix of the input and does not start with whitespace. |
| Text.Trim | src/errors.rs:251 | `trim`: the result is empty or starts and ends with a non-whitespace character. `TrimAfterFirstWord` relates it to the first word. |
| Text.FirstWord | src/errors.rs:240-243 | `split_whitespace().next()`: a word found is non-empty and fits in the trimmed text. `FirstWordSpec` pins it down. |
| Text.Upper | src/errors.rs:31 | `to_uppercase`: the same length, each character upper-cased. |
| Text.IntToString | src/errors.rs:106 | `format!("{}")` of an integer: not empty, with a leading `-` exactly for a negative number. `IntToStringRoundTrip` reads it back. |
| Text.FirstWordSpec | src/errors.rs:240-243 | `split_whitespace().next()` is None exactly for all-whitespace text. Otherwise it is the maximal run of non-whitespace at the front of the trimmed text. |
| Text.TrimAfterFirstWord | src/errors.rs:248-251 | The trimmed text is the first word, a whitespace run and the trimmed remainder. |
| Text.Lines | src/errors.rs:132 | No line returned by `str::lines` holds a `\n`. |
| Text.LinesOfJoinLinesStrip | src/transform.rs:65-66 | Joining `\n`-free lines, each followed by `\n`, and reading them back gives the joined lines in order, each without a final `\r`. |
| Text.IntToStringRoundTrip | src/errors.rs:106 | The decimal form of a relative line number reads back as that number. |
| Transform.HeaderFrom | src/transform.rs:26-32 | The entry found is the first header entry for the line, or there is none. |
| Transform.KeyedFrom | src/transform.rs:35-39 | The error found is the first one whose `line_num - relative_line_num` is the line, or there is none. |
| Transform.HeaderRewrite | src/transform.rs:25-32 | The header substitution for one line. It has no contract of its own: `RewriteLine` and `HeaderLoop` specify it. |
| Transform.ErrorRewrite | src/transform.rs:35-63 | The error rewrite for one line. It has no contract of its own: `RewriteLine`, `RewriteLinePlacesDirective` and `ErrorLoop` specify it. |
| Transform.RewriteLine | src/transform.rs:23-64 | For one line:<br>- A header line gets its first header entry's text, or stays unchanged. Errors are never applied to it.<br>- A line with no keyed error passes through unchanged.<br>- The rewrite panics exactly when the keyed error has offset 0 and the line has no sigil. |
| Transform.RewriteLinePlacesDirective | src/transform.rs:44-60 | For a keyed line:<br>- The output ends with the error's directive.<br>- With a non-zero offset the directive is the whole line.<br>- With offset 0 the directive follows the line's text up to the leftmost sigil.<br>- The directive's offset, read back, leads from this line to the error's target line. |
| Transform.RewriteAll | src/transform.rs:20-68 | The rewrite of the first k lines. It has no contract of its own: `RewriteAllSpec`, `RewriteAllNext` and `RewriteAllFailurePersists` specify it. |
| Transform.RewriteAllSpec | src/transform.rs:20-68 | There is one output line per input line, each the rewrite of the input line with the same number. The rewrite succeeds if and only if every line does. |
| Transform.RewriteAllNext | src/transform.rs:22-67 | One loop step appends the rewrite of the next line, or stops with its panic. |
| Transform.RewriteAllFailurePersists | src/transform.rs:50-52 | A panic on one line is the result for the whole file. |
| Transform.KeyedLineHasSigil | src/transform.rs:35-52 | When every error sits on a sigil line, a line that keys an error holds a sigil. |
| Transform.DirectiveAlwaysFound | src/transform.rs:50-52 | The `expect` never fires. Whenever `load_error` succeeds, `transform_code` succeeds. |
| Transform.RewriteLineNoNewline | src/transform.rs:23-66 | A rewritten line holds no `\n` if the input line, the header texts and the error codes hold none. |
| Transform.TransformLines | src/transform.rs:20-23 | The output has exactly as many lines as the input. Line i of the output, read back, is the rewrite of input line i with a final `\r` dropped. |
| Transform.ExampleParse | src/transform.rs:81 | The test's annotation line parses as an Error-kind error about line 0, with offset -1 and the text after `ERROR ` as its message. |
| Transform.ExampleRender | src/transform.rs:80 | That error renders as `// { dg-error "" "" { target *-*-* } .-1 }`. |
| Transform.TransformOneLine | src/transform.rs:44-47 | A one-line file whose annotation is about another line becomes that annotation's directive and a newline. |
| Transform.TransformExample | src/transform.rs:77-83 | The unit test: the `//~^ ERROR expected one of …` line with no transcript becomes `// { dg-error "" "" { target *-*-* } .-1 }\n`. |
| Transform.HeaderLoop | src/transform.rs:25-32 | The header loop, with its `continue` and `break`, computes the first-entry substitution. |
| Transform.ErrorLoop | src/transform.rs:35-63 | The error loop computes the keyed rewrite, including the panic of the `expect`. |
| Transform.RewriteCode | src/transform.rs:20-68 | The line loop builds the joined rewrite of every line, or stops at the first panic. |
| Transform.TransformSpec | src/transform.rs:13-71 | `transform_code` as a value. It has no contract of its own: `TransformLines` and `DirectiveAlwaysFound` specify it. |
| Transform.TransformCode | src/transform.rs:13-71 | `transform_code` computes `TransformSpec`: `load_error`, then the line rewrite. |

## Left out

- I/O: src/main.rs and src/cli.rs (argument parsing, reading the test and transcript files, printing) are not part of this model.
- src/header.rs: `is_header_line` and `parse_additional_options` are not part of this model.
  - They are parameters of `TransformCode`: a predicate on lines, and the list of prepared header lines.
  - `TransformLines` assumes the header texts hold no `\n`.
- Stderr.ParseErrorCode: the pattern match of `parse_error_code` over the transcript text (errors.rs:181-199) is not modelled.
  - Its lazy and greedy groups and `captures_iter` are not modelled.
  - The model takes the list of captured (code, detail, line number) triples as given, and models the `is_error_code` filter and the line-number parse that follow.
  - Because that pattern only captures `E\d{4}`, the filter never rejects anything in the source. The model does not rely on that.
- The `regex!` macro (errors.rs:9-15) caches compiled patterns in a once-cell. It is replaced by the hand-written scanner in `Sigil`, and its caching and thread safety are not modelled.
- Unicode:
  - `\w` in the sigil's revision group and `\d` are modelled over ASCII.
  - `to_uppercase` is modelled over ASCII, so non-ASCII letters and multi-character upper-case forms are not handled.
  - `char::is_whitespace` (used by `trim` and `split_whitespace`) is the full Unicode White_Space set.
- Annotations.Place: the model follows builds with overflow checks, where `line_num - adjusts` with more carets than lines above panics (`AdjustBeyondStart`). In a release build the subtraction wraps instead:
  - `load_error` succeeds with `line_num = 2^64 - (k - L)` for k carets on line L;
  - the `as i32` at transform.rs:37 truncates that back to `L - k`, so the error is still keyed to line L;
  - line L becomes a `.-k` directive and nothing aborts.
  The model does not capture this release behaviour.
- Annotations.Place: the `as i32` casts at errors.rs:254 and 261 are modelled as exact integers. A line number or anchor of 2^31 or more, where the cast would wrap, is not modelled.
- Transform.KeyedFrom: the `as i32` key computation at transform.rs:37 is modelled as exact integer arithmetic, with the same limitation.
- Annotations.ParseExpected: the `assert_eq!(adjusts, 0, …)` at errors.rs:256 cannot fail, because a `|` match has no carets (`Sigil.MatchAt`). It is not modelled as a separate panic.
- The `WhichLine` payload of `FollowPrevious` is the anchor index, as in the source. The value is returned but not used by `load_error`.
- `anyhow::Result`: `transform_code` always returns `Ok`. Its only failures are panics, which the model returns as `Failure`.
- Loops:
  - The loops of `load_error` and `transform_code` are split into helper methods (`ScanLines`, `ScanLine`, `HeaderLoop`, `ErrorLoop`, `RewriteCode`).
  - `RewriteCode` still loops over the lines and calls `HeaderLoop` or `ErrorLoop` on each one, in source order.
  - The behaviour is the same.
