/** The `search` tool: checks the request, runs the primary search (which
    falls back to the scan by itself) and words the answer. */
module SearchTool {
  import opened Basics
  import opened Text
  import opened Paths
  import PrimarySearch
  import FallbackSearch

  const EmptyKeywordMessage: string := "Search keyword is empty. Please enter a valid keyword."

  const ResultsHeader: string := "Search results:\n"

  function NotADirectoryMessage(path: string): string
  {
    "The specified path " + Quoted(path) + " is not a directory"
  }

  function NoResultsMessage(keyword: string): string
  {
    "No search results for keyword " + Quoted(keyword) + "."
  }

  /** The request checks, in the order they run: the directory must exist, be
      a directory, and the keyword must not trim to nothing. */
  function ValidateSearch(directory: string, keyword: string, kind: PathKind): (r: Option<string>)
    ensures r.None? <==> kind == Directory && !AllWhitespace(keyword)
  {
    TrimEmptyIff(keyword);
    if kind == Missing then Some(PathMissingMessage(directory))
    else if kind != Directory then Some(NotADirectoryMessage(directory))
    else if Trim(keyword) == [] then Some(EmptyKeywordMessage)
    else None
  }

  /** The answer for a results text: the no-results sentence, naming the
      keyword as given, when it is empty, else the header and the text unchanged. */
  function FormatResults(keyword: string, results: string): (r: string)
    ensures results == [] <==> r == NoResultsMessage(keyword)
    ensures results != [] ==> |r| == |ResultsHeader| + |results|
    ensures results != [] ==> r[..|ResultsHeader|] == ResultsHeader && r[|ResultsHeader|..] == results
  {
    if results == [] then NoResultsMessage(keyword)
    else
      var r := ResultsHeader + results;
      assert r[0] == 'S' && NoResultsMessage(keyword)[0] == 'N';
      r
  }

  /** What `search(directory, keyword)` returns. The outside world enters as
      data: what the filesystem says of `directory`, the `rg` run, what compiling
      the keyword as a regular expression reported, and the fallback's walk. */
  function SearchOutcome(directory: string, keyword: string, kind: PathKind, rg: PrimarySearch.RgRun,
                         regexError: Option<string>, walk: seq<FallbackSearch.WalkEntry>): Result<string, string>
  {
    match ValidateSearch(directory, keyword, kind)
    case Some(e) => Err(e)
    case None =>
      match PrimarySearch.RipgrepOutcome(keyword, rg, regexError, walk)
      case Err(e) => Err(e)
      case Ok(results) => Ok(FormatResults(keyword, results))
  }

  /** `search`: validation, then the primary search and the formatting. */
  method Search(directory: string, keyword: string, kind: PathKind, rg: PrimarySearch.RgRun,
                regexError: Option<string>, walk: seq<FallbackSearch.WalkEntry>) returns (r: Result<string, string>)
    ensures r == SearchOutcome(directory, keyword, kind, rg, regexError, walk)
  {
    var invalid := ValidateSearch(directory, keyword, kind);
    if invalid.Some? {
      return Err(invalid.value);
    }
    var results := PrimarySearch.SearchWithRipgrep(keyword, rg, regexError, walk);
    match results
    case Err(e) => r := Err(e);
    case Ok(text) => r := Ok(FormatResults(keyword, text));
  }

  /** The checks run in a fixed order, name the offending path, and a rejected
      request never looks at the search results. */
  lemma RejectedRequests(directory: string, keyword: string, kind: PathKind,
                         rg: PrimarySearch.RgRun, regexError: Option<string>, walk: seq<FallbackSearch.WalkEntry>,
                         rg': PrimarySearch.RgRun, regexError': Option<string>, walk': seq<FallbackSearch.WalkEntry>)
    ensures var r := SearchOutcome(directory, keyword, kind, rg, regexError, walk);
      && (kind == Missing ==> r == Err(PathMissingMessage(directory)))
      && (kind != Missing && kind != Directory ==> r == Err(NotADirectoryMessage(directory)))
      && (kind == Directory && AllWhitespace(keyword) ==> r == Err(EmptyKeywordMessage))
      && (kind != Directory || AllWhitespace(keyword) ==>
            r == SearchOutcome(directory, keyword, kind, rg', regexError', walk'))
  {
    TrimEmptyIff(keyword);
  }

  /** A valid request whose `rg` run could not start fails with the launch
      error; the fallback is not tried. */
  lemma LaunchFailureIsAnError(directory: string, keyword: string, detail: string,
                               regexError: Option<string>, walk: seq<FallbackSearch.WalkEntry>)
    requires !AllWhitespace(keyword)
    ensures SearchOutcome(directory, keyword, Directory, PrimarySearch.LaunchFailed(detail), regexError, walk)
      == Err(PrimarySearch.LaunchFailureMessage(detail))
  {
  }

  /** A valid request whose `rg` output yields a hit answers with the
      header and their hit lines, in output order. */
  lemma PrimaryHitsAnswer(directory: string, keyword: string, lines: seq<PrimarySearch.OutputLine>,
                          regexError: Option<string>, walk: seq<FallbackSearch.WalkEntry>)
    requires !AllWhitespace(keyword) && PrimarySearch.PrimaryHits(lines) != []
    ensures SearchOutcome(directory, keyword, Directory, PrimarySearch.Finished(lines), regexError, walk)
      == Ok(ResultsHeader + PrimarySearch.RenderHits(PrimarySearch.PrimaryHits(lines)))
  {
    PrimarySearch.RipgrepGate(keyword, PrimarySearch.Finished(lines), regexError, walk);
  }

  /** A valid request whose `rg` output yields no hit is answered by the
      fallback scan of the raw keyword, which reports at most ten lines. */
  lemma FallbackAnswer(directory: string, keyword: string, lines: seq<PrimarySearch.OutputLine>,
                       walk: seq<FallbackSearch.WalkEntry>)
    requires !AllWhitespace(keyword) && PrimarySearch.PrimaryHits(lines) == []
    ensures var hits := FallbackSearch.Scan(walk, keyword).hits;
      && SearchOutcome(directory, keyword, Directory, PrimarySearch.Finished(lines), None, walk)
           == Ok(FormatResults(keyword, FallbackSearch.RenderLineHits(hits)))
      && |hits| <= FallbackSearch.MaxMatchingFiles
  {
    FallbackSearch.ScanBounded(walk, keyword);
  }

  /** Every successful answer is either the no-results sentence or the header
      followed by a non-empty results text. */
  lemma AnswerShape(directory: string, keyword: string, kind: PathKind, rg: PrimarySearch.RgRun,
                    regexError: Option<string>, walk: seq<FallbackSearch.WalkEntry>)
    ensures var r := SearchOutcome(directory, keyword, kind, rg, regexError, walk);
      r.Ok? ==> r.value == NoResultsMessage(keyword) ||
                (|r.value| > |ResultsHeader| && r.value[..|ResultsHeader|] == ResultsHeader)
  {
  }
}
