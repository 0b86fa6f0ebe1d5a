# file-find-mcp search tool, modelled in Dafny

This project models the core of `src/tools/search_tool.rs` of file-find-mcp, a
tool server that offers two operations:

- `read_file_content(path)` returns a file's text, the marker `File is empty.`,
  or one of five errors: the path does not exist, it is not a file, it looks
  binary, it could not be read as text, or it could not be read at all.
- `search(directory, keyword)` checks the request, then runs `rg --json`. It
  skips blank output lines and lines that are not JSON. It turns each `match`
  record that carries its path and its line as text into a
  `Hit: <path> - <trimmed line>` line, even when the trimmed line is empty.
  Other records are dropped. When that yields no hit, it runs a fallback scan of its own. The scan
  walks the directory and counts the files whose whole content contains the
  keyword literally. For each such file it reports the first line containing the
  keyword, `Hit: <path> - Line <n>: <trimmed line>`, or nothing when every
  occurrence overlaps a line ending. It stops once ten files have been counted.

Everything outside the process enters the model as data:

- what the filesystem says of a path (`Paths.PathKind`);
- what `fs::read_to_string` and `fs::read` returned (`Result` values);
- the `rg` run: it failed to start, or it printed lines, each with an abstract
  JSON reading;
- the walk of the directory, as a sequence of entries in discovery order;
- what compiling the keyword as a regular expression reported.

The pure decisions are functions. These are the binary heuristic, the
read-outcome classification, request validation and result formatting. The two
loops of the source are methods with loop invariants. `SearchWithRipgrep` loops
over the output lines, in its helper `ExtractHits`. `SearchWithGrepRs` loops over the walk, and its inner loop
`FirstMatchingLine` loops over a file's lines. Each method is proved equal to a
specification function. That function's properties are then proved as lemmas.

Modules: `Basics` (Option, Result, filter_map), `Paths`, `Text` (Rust's `trim`,
`contains`, `lines`, decimal formatting), `FileReader`, `FallbackSearch`,
`PrimarySearch`, `SearchTool`.

Two points where the program's behaviour differs from what one might expect:

- The comment at line 201 says the fallback runs "if ripgrep command fails or
  returns no results". But the `?` at line 161 propagates a launch failure of
  `rg` as the search's error, so the fallback runs only on zero hits.
  `SearchTool.LaunchFailureIsAnError` states what the code does.
- The fallback itself can fail: it first compiles the keyword as a regular
  expression and returns `Invalid search pattern: ...` when that fails (lines
  211-212). The model keeps this error.

## Model

| member | source | states |
|---|---|---|
| `FileReader.LooksBinaryIsTenPercent` | src/tools/search_tool.rs:79-84 | The binary heuristic holds exactly when the bytes contain a NUL, or when 10 times the control-byte count exceeds the length. So "count > len / 10" with integer division means "more than ten per cent". |
| `FileReader.ShortInputBinaryIff` | src/tools/search_tool.rs:79-84 | Below ten bytes, one control byte (NUL included) makes the input binary. Without one it is not binary, so the empty input is never binary. |
| `FileReader.ControlCountPositive` | src/tools/search_tool.rs:80-84 | The control-byte count is positive exactly when some byte is below 32 and is not tab, line feed or carriage return. |
| `FileReader.ControlCountConcat` | src/tools/search_tool.rs:80-83 | The control-byte count of two concatenated byte sequences is the sum of their counts. |
| `FileReader.ReadFileContent` | src/tools/search_tool.rs:39-104 | The outcome is a success exactly when the path is a regular file and decodes as text, and a success is never the empty string. |
| `FileReader.ReadRejectsNonFiles` | src/tools/search_tool.rs:47-60 | A missing path gets the does-not-exist error. Any other non-file gets the is-not-a-file error. Neither outcome depends on the file reads. |
| `FileReader.ReadDecodedFile` | src/tools/search_tool.rs:63-69 | Decoded non-empty content is returned unchanged. Decoded empty content returns exactly `File is empty.`. Neither is an error. |
| `FileReader.ReadUndecodableFile` | src/tools/search_tool.rs:71-101 | A file that does not decode is a binary-file error when it has a NUL or more than ten per cent control bytes. Otherwise it is a could-not-read-as-text error carrying the decoder's message. A failed re-read is the read error. |
| `FileReader.ReadErrorsQuotePath` | src/tools/search_tool.rs:47-100 | Every error message contains the given path between single quotes. |
| `Text.TrimEmptyIff` | src/tools/search_tool.rs:126 | A string trims to the empty string exactly when all of its characters are whitespace. |
| `Text.TrimSpec` | src/tools/search_tool.rs:188 | Trimming removes exactly the leading and trailing whitespace: the original string is whitespace, then the trimmed text, then whitespace, and the trimmed text is empty or starts and ends with non-whitespace. |
| `Text.LineOccursInText` | src/tools/search_tool.rs:246 | Every line that `lines()` yields occurs in the text it was split from. |
| `Text.LineMatchIsTextMatch` | src/tools/search_tool.rs:243-247 | A pattern found in one line of a file is found in the whole content, so the per-file guard never hides a matching line. |
| `Text.LinesHaveNoNewline` | src/tools/search_tool.rs:246 | No line produced by `lines()` contains a line feed. |
| `Text.NewlinePatternInNoLine` | src/tools/search_tool.rs:246-247 | A pattern that holds a line feed is contained in no line. |
| `Text.SpanningPatternInNoLine` | src/tools/search_tool.rs:243-252 | Example: `"b\nc"` is in `"ab\ncd"` but in neither of its lines, so the whole-content test and the per-line test can disagree. |
| `Text.DecimalRoundTrip` | src/tools/search_tool.rs:248 | The decimal text printed for a line number reads back as that number. |
| `FallbackSearch.FirstMatchFrom` | src/tools/search_tool.rs:246-251 | The result is the first index from `j` on whose line contains the pattern. None means no such line exists. |
| `FallbackSearch.FirstHit` | src/tools/search_tool.rs:245-251 | A file reports its first line containing the pattern, with a 1-based line number and the trimmed text. It reports nothing exactly when no line contains the pattern. |
| `FallbackSearch.FirstMatchingLine` | src/tools/search_tool.rs:246-252 | The inner loop, which stops at the first match, returns the index `FirstMatchFrom` specifies. |
| `FallbackSearch.SearchWithGrepRs` | src/tools/search_tool.rs:209-268 | The fallback method's result equals the specification: an invalid pattern is an error before any scanning; otherwise the result is the rendered hits of the capped scan over the walk. |
| `FallbackSearch.ScanStopsAtCap` | src/tools/search_tool.rs:230-234 | Once ten files have matched, the rest of the walk changes nothing. |
| `FallbackSearch.ScanAgreesWithUncapped` | src/tools/search_tool.rs:230-265 | The scan counts the smaller of the number of matching files and 10. Its hits are a prefix of every matching file's hit in walk order. With at most ten matching files they are all of them. Walk errors, non-files and unreadable files add nothing. |
| `FallbackSearch.ScanBounded` | src/tools/search_tool.rs:231-250 | At most ten files are counted, and the number of reported lines never exceeds that count. |
| `FallbackSearch.MatchCountedWithoutHit` | src/tools/search_tool.rs:243-252 | Below the cap, a file whose content contains the pattern but none of whose lines does is counted towards the cap and adds no hit. |
| `FallbackSearch.NewlineKeywordCountsWithoutHit` | src/tools/search_tool.rs:243-252 | Below the cap, every file matched by a keyword that holds a line feed is counted and adds no hit. |
| `FallbackSearch.MatchCountedWithoutHitExample` | src/tools/search_tool.rs:243-252 | Example: a walk of one file `"ab\ncd"` searched for `"b\nc"` ends with count 1 and no hits. |
| `PrimarySearch.ExtractHits` | src/tools/search_tool.rs:170-198 | The loop over output lines ends with `count` equal to the number of extracted hits. The results text is their rendered lines, in output order. |
| `PrimarySearch.SearchWithRipgrep` | src/tools/search_tool.rs:149-206 | The primary method's result equals the specification: a launch failure is an error, a run with hits reports them, and a run with none hands over to the fallback. |
| `PrimarySearch.PrimaryHitsConcat` | src/tools/search_tool.rs:173-198 | Hits come out in output order. The hits of two pieces of output are the first piece's hits followed by the second's. |
| `PrimarySearch.SkippedLineIsInert` | src/tools/search_tool.rs:174-196 | A line yielding no hit can be removed without changing the hits. This covers blank lines, non-JSON lines, non-`match` records and records lacking the path or the line text. |
| `PrimarySearch.PrimaryHitsAreReportedMatches` | src/tools/search_tool.rs:181-189 | A hit is extracted exactly when some non-blank output line is a `match` record with its path and a line text that trims to its text. |
| `PrimarySearch.RenderHitsEmptyIff` | src/tools/search_tool.rs:188 | The results text is empty exactly when there are no hits. |
| `PrimarySearch.RipgrepGate` | src/tools/search_tool.rs:200-205 | The fallback runs exactly when a run that started yielded no hit. A run with hits gives their non-empty text. An error comes only from a failed launch, or from an invalid pattern in the fallback. |
| `SearchTool.ValidateSearch` | src/tools/search_tool.rs:110-128 | A request passes exactly when the path is a directory and the keyword is not all whitespace. |
| `SearchTool.FormatResults` | src/tools/search_tool.rs:135-145 | An empty results text gives exactly the no-results sentence with the raw keyword. Any other text gives the header followed by that text unchanged. |
| `SearchTool.Search` | src/tools/search_tool.rs:108-146 | The search method's result equals the specification: validation, then the primary search with its fallback, then formatting. |
| `SearchTool.RejectedRequests` | src/tools/search_tool.rs:110-128 | The checks run in this order: missing path, then not a directory, then an all-whitespace keyword. A rejected request does not depend on any search result. |
| `SearchTool.LaunchFailureIsAnError` | src/tools/search_tool.rs:133 | A valid request whose `rg` cannot start fails with the launch error, whatever the walk holds. |
| `SearchTool.PrimaryHitsAnswer` | src/tools/search_tool.rs:133-145 | A valid request whose `rg` output yields a hit is answered by the header followed by their hit lines. |
| `SearchTool.FallbackAnswer` | src/tools/search_tool.rs:133-145 | A valid request whose `rg` output yields no hit, and whose keyword compiles as a regular expression, is answered by the fallback scan of the raw keyword, which reports at most ten lines. |
| `SearchTool.AnswerShape` | src/tools/search_tool.rs:135-145 | Every successful answer is the no-results sentence, or the header followed by a non-empty text. |

## Left out

- Spawning `rg` and its fixed flags (lines 151-160) are left out. These flags are case-insensitive, `--max-count=10`, `--max-depth=10`, `--no-ignore`, `--hidden` and `--json`. They are process I/O: the model takes the run's outcome as input, so what `rg` matches is not modelled.
- The non-zero exit warning (lines 163-166) only logs, so it is left out.
- `String::from_utf8_lossy` and `serde_json` parsing (lines 169, 179) are foreign library code. Each output line arrives already split, with an abstract parsed record or none for invalid JSON.
- The `ignore::WalkBuilder` walk (lines 224-228) is left out. It includes hidden files, does not read `.ignore` files, and caps the depth at 10. Git ignore rules (`.gitignore`, git's exclude files) still apply, because only `ignore(false)` is set; the comment at line 226 says otherwise. So inside a git repository the fallback skips files that `rg --no-ignore` (line 156) searches. The walk is filesystem I/O, given as a sequence of entries in discovery order.
- UTF-8 decoding by `fs::read_to_string` and `fs::read` is given as `Result` values. The two reads are independent inputs, as they are in the source.
- `RegexMatcher::new` is left out. The model takes only its error report, because regular-expression syntax is a foreign library. The unused `SearcherBuilder` (lines 218-221) has no effect.
- `tracing` logging has no effect on results, so it is left out. So is the `async`/`#[tool]` machinery.
- The parameter structs (lines 11-25) become plain parameters. `SearchTool::new` (lines 33-35) builds a stateless value and `ServerHandler::get_info` (lines 271-288) returns protocol metadata, so both are left out.
- PrimarySearch.SearchWithRipgrep: `count` is an unbounded natural. The source's `i32` could overflow only after 2^31 hits.
- PrimarySearch.HitOf tests a blank line by "all characters are whitespace" rather than by `trim().is_empty()`. The method uses the trim test. `Text.TrimEmptyIff` proves the two the same.
- Repeating a search on unchanged inputs gives the same answer, because `SearchOutcome` is a function of its inputs. No separate lemma states this.
- A file whose text is exactly `File is empty.` cannot be told apart from an empty file. The model keeps this as the source has it.
