/** The primary search (`search_with_ripgrep`): reads the JSON lines an
    external `rg --json` run printed, turns each match record carrying its path and line text into a hit, and
    hands over to the fallback scan when no hit came out. */
module PrimarySearch {
  import opened Basics
  import opened Text
  import FallbackSearch

  /** What one output line parsed to, as far as the tool reads it: the
      top-level "type" string and the "data.path.text" and "data.lines.text"
      strings, each absent when the field is missing or not a string. */
  datatype JsonRecord = JsonRecord(recordType: Option<string>, pathText: Option<string>,
                                   linesText: Option<string>)

  /** One line of `rg`'s standard output: its text, and its JSON reading
      (`None` when it is not valid JSON). */
  datatype OutputLine = OutputLine(text: string, parsed: Option<JsonRecord>)

  /** The `rg` run: it could not be started, or it ran (whatever its exit
      status) and printed these lines. */
  datatype RgRun = LaunchFailed(detail: string) | Finished(lines: seq<OutputLine>)

  /** A hit as `rg` reports it: the path and the trimmed matching line. */
  datatype Hit = Hit(path: string, text: string)

  function LaunchFailureMessage(detail: string): string
  {
    "Failed to execute ripgrep: " + detail
  }

  function RenderHit(h: Hit): string
  {
    "Hit: " + h.path + " - " + h.text + "\n"
  }

  /** The results text: one rendered line per hit, in order. */
  function RenderHits(hs: seq<Hit>): string
  {
    if hs == [] then "" else RenderHits(hs[..|hs| - 1]) + RenderHit(hs[|hs| - 1])
  }

  /** The hit one output line yields: blank lines, lines that are not JSON,
      records whose type is not "match", and match records lacking the path
      or the line text yield none. */
  function HitOf(line: OutputLine): Option<Hit>
  {
    if AllWhitespace(line.text) then None
    else
      match line.parsed
      case None => None
      case Some(rec) =>
        if rec.recordType == Some("match") && rec.pathText.Some? && rec.linesText.Some?
        then Some(Hit(rec.pathText.value, Trim(rec.linesText.value)))
        else None
  }

  /** The hits of a run's output, in output order. */
  function PrimaryHits(lines: seq<OutputLine>): seq<Hit>
  {
    FilterMap(lines, HitOf)
  }

  /** `line` is a non-blank match record naming `h`'s path, whose line text trims to `h`'s text. */
  predicate Reports(line: OutputLine, h: Hit)
  {
    && !AllWhitespace(line.text)
    && line.parsed.Some?
    && line.parsed.value.recordType == Some("match")
    && line.parsed.value.pathText == Some(h.path)
    && line.parsed.value.linesText.Some?
    && Trim(line.parsed.value.linesText.value) == h.text
  }

  /** What `search_with_ripgrep(keyword)` returns: a launch failure is an
      error, and a run with no hit defers to the fallback scan. */
  function RipgrepOutcome(keyword: string, rg: RgRun, regexError: Option<string>,
                          walk: seq<FallbackSearch.WalkEntry>): Result<string, string>
  {
    match rg
    case LaunchFailed(detail) => Err(LaunchFailureMessage(detail))
    case Finished(lines) =>
      var hits := PrimaryHits(lines);
      if |hits| == 0 then FallbackSearch.FallbackOutcome(keyword, regexError, walk)
      else Ok(RenderHits(hits))
  }

  /** Extraction works line by line: the hits of two pieces of output are
      the hits of the first followed by those of the second. */
  lemma PrimaryHitsConcat(a: seq<OutputLine>, b: seq<OutputLine>)
    ensures PrimaryHits(a + b) == PrimaryHits(a) + PrimaryHits(b)
  {
    FilterMapConcat(a, b, HitOf);
  }

  /** A line that yields no hit can be dropped from the output without effect. */
  lemma SkippedLineIsInert(a: seq<OutputLine>, line: OutputLine, b: seq<OutputLine>)
    requires HitOf(line) == None
    ensures PrimaryHits(a + [line] + b) == PrimaryHits(a + b)
  {
    FilterMapSkip(a, line, b, HitOf);
  }

  /** A hit is reported exactly when some output line is a match record for it. */
  lemma PrimaryHitsAreReportedMatches(lines: seq<OutputLine>, h: Hit)
    ensures h in PrimaryHits(lines) <==> exists j :: 0 <= j < |lines| && Reports(lines[j], h)
  {
    FilterMapMembership(lines, HitOf, h);
    forall j | 0 <= j < |lines|
      ensures HitOf(lines[j]) == Some(h) <==> Reports(lines[j], h)
    {
    }
  }

  lemma RenderHitsAppend(hs: seq<Hit>, h: Hit)
    ensures RenderHits(hs + [h]) == RenderHits(hs) + RenderHit(h)
  {
    assert (hs + [h])[..|hs|] == hs;
  }

  /** The results text is empty exactly when there are no hits. */
  lemma {:induction false} RenderHitsEmptyIff(hs: seq<Hit>)
    ensures RenderHits(hs) == [] <==> hs == []
  {
    if hs != [] {
      assert |RenderHit(hs[|hs| - 1])| > 0;
    }
  }

  /** The fallback gate: it runs exactly when the run finished with no hit, an
      error comes only from a failed launch or (in the fallback) an invalid
      pattern, and a run with hits reports them all. */
  lemma RipgrepGate(keyword: string, rg: RgRun, regexError: Option<string>, walk: seq<FallbackSearch.WalkEntry>)
    ensures var r := RipgrepOutcome(keyword, rg, regexError, walk);
      && (rg.Finished? && PrimaryHits(rg.lines) == [] ==> r == FallbackSearch.FallbackOutcome(keyword, regexError, walk))
      && (rg.Finished? && PrimaryHits(rg.lines) != [] ==> r == Ok(RenderHits(PrimaryHits(rg.lines))) && r.value != [])
      && (r.Err? <==> rg.LaunchFailed? || (PrimaryHits(rg.lines) == [] && regexError.Some?))
  {
    if rg.Finished? {
      RenderHitsEmptyIff(PrimaryHits(rg.lines));
    }
  }

  /** The loop of `search_with_ripgrep` over the output lines: it counts the
      hits and appends one rendered line per hit to the results text. */
  method ExtractHits(lines: seq<OutputLine>) returns (results: string, count: nat)
    ensures count == |PrimaryHits(lines)|
    ensures results == RenderHits(PrimaryHits(lines))
  {
    results := "";
    count := 0;
    var i := 0;
    while i < |lines|
      invariant i <= |lines|
      invariant count == |PrimaryHits(lines[..i])|
      invariant results == RenderHits(PrimaryHits(lines[..i]))
    {
      var line := lines[i];
      FilterMapStep(lines, i, HitOf);
      ghost var before := PrimaryHits(lines[..i]);
      TrimEmptyIff(line.text);
      if Trim(line.text) != [] && line.parsed.Some? {
        var rec := line.parsed.value;
        if rec.recordType == Some("match") && rec.pathText.Some? && rec.linesText.Some? {
          var hit := Hit(rec.pathText.value, Trim(rec.linesText.value));
          RenderHitsAppend(before, hit);
          count := count + 1;
          results := results + RenderHit(hit);
        } else {
          assert before + [] == before;
        }
      } else {
        assert before + [] == before;
      }
      i := i + 1;
    }
    assert lines[..|lines|] == lines;
  }

  /** `search_with_ripgrep`: the launch, the loop over the output lines, and
      the zero-count gate to the fallback scan. */
  method SearchWithRipgrep(keyword: string, rg: RgRun, regexError: Option<string>,
                           walk: seq<FallbackSearch.WalkEntry>) returns (r: Result<string, string>)
    ensures r == RipgrepOutcome(keyword, rg, regexError, walk)
  {
    if rg.LaunchFailed? {
      return Err(LaunchFailureMessage(rg.detail));
    }
    var results, count := ExtractHits(rg.lines);
    if count == 0 {
      r := FallbackSearch.SearchWithGrepRs(keyword, regexError, walk);
      return;
    }
    return Ok(results);
  }
}
