/** The fallback scan (`search_with_grep_rs`): walks the directory itself and
    reports, for each of at most ten files whose content contains the keyword
    literally, the first line that contains it, if any line contains it. */
module FallbackSearch {
  import opened Basics
  import opened Text

  /** The scan stops once this many files have matched. */
  const MaxMatchingFiles: nat := 10

  /** One item of the directory walk, in discovery order: a walk error, or a
      path with what `is_file` says of it and what `fs::read_to_string` gave
      (`None` when the file could not be read as text). */
  datatype WalkEntry =
    | WalkError(detail: string)
    | Visited(path: string, isFile: bool, content: Option<string>)

  /** A reported line: file path, 1-based line number, trimmed line text. */
  datatype LineHit = LineHit(path: string, lineNumber: nat, text: string)

  function InvalidPatternMessage(detail: string): string
  {
    "Invalid search pattern: " + detail
  }

  function RenderLineHit(h: LineHit): string
  {
    "Hit: " + h.path + " - Line " + DecimalString(h.lineNumber) + ": " + h.text + "\n"
  }

  /** The results text: one rendered line per hit, in order. */
  function RenderLineHits(hs: seq<LineHit>): string
  {
    if hs == [] then "" else RenderLineHits(hs[..|hs| - 1]) + RenderLineHit(hs[|hs| - 1])
  }

  /** The index of the first of `lines[j..]` that contains `p`, if any. */
  function FirstMatchFrom(lines: seq<string>, p: string, j: nat): (r: Option<nat>)
    requires j <= |lines|
    ensures r.Some? ==> j <= r.value < |lines| && Contains(lines[r.value], p)
    ensures r.Some? ==> forall k :: j <= k < r.value ==> !Contains(lines[k], p)
    ensures r.None? ==> forall k :: j <= k < |lines| ==> !Contains(lines[k], p)
    decreases |lines| - j
  {
    if j == |lines| then None
    else if Contains(lines[j], p) then Some(j)
    else FirstMatchFrom(lines, p, j + 1)
  }

  /** The line a matching file reports: its first line containing `p`, numbered from 1.
      There is none when `p` occurs in the content only across a line break. */
  function FirstHit(path: string, content: string, p: string): (r: Option<LineHit>)
    ensures r.Some? ==>
      var n := r.value.lineNumber;
      && r.value.path == path
      && 1 <= n <= |Lines(content)|
      && Contains(Lines(content)[n - 1], p)
      && r.value.text == Trim(Lines(content)[n - 1])
      && (forall k :: 0 <= k < n - 1 ==> !Contains(Lines(content)[k], p))
    ensures r.None? <==> forall k :: 0 <= k < |Lines(content)| ==> !Contains(Lines(content)[k], p)
  {
    var lines := Lines(content);
    match FirstMatchFrom(lines, p, 0)
    case None => None
    case Some(i) => Some(LineHit(path, i + 1, Trim(lines[i])))
  }

  /** A regular file, readable as text, whose whole content contains `p`. */
  predicate IsMatchingFile(e: WalkEntry, p: string)
  {
    e.Visited? && e.isFile && e.content.Some? && Contains(e.content.value, p)
  }

  /** The hits an entry contributes when it is scanned: none, or one. */
  function EntryHits(e: WalkEntry, p: string): (hs: seq<LineHit>)
    ensures |hs| <= 1
    ensures hs != [] ==> IsMatchingFile(e, p)
  {
    if IsMatchingFile(e, p) then AsSeq(FirstHit(e.path, e.content.value, p)) else []
  }

  /** The scan's state: the hits so far and the number of matching files counted. */
  datatype ScanState = ScanState(hits: seq<LineHit>, count: nat)

  /** One turn of the walk loop: the cap is checked before the entry is looked at. */
  function Step(st: ScanState, e: WalkEntry, p: string): ScanState
  {
    if st.count >= MaxMatchingFiles then st
    else if IsMatchingFile(e, p) then ScanState(st.hits + EntryHits(e, p), st.count + 1)
    else st
  }

  /** The scan over a prefix of the walk. */
  function Scan(es: seq<WalkEntry>, p: string): ScanState
  {
    if es == [] then ScanState([], 0) else Step(Scan(es[..|es| - 1], p), es[|es| - 1], p)
  }

  /** Reference without the cap: every matching file's hit, in walk order. */
  function AllHits(es: seq<WalkEntry>, p: string): seq<LineHit>
  {
    if es == [] then [] else AllHits(es[..|es| - 1], p) + EntryHits(es[|es| - 1], p)
  }

  /** Reference without the cap: the number of matching files. */
  function MatchCount(es: seq<WalkEntry>, p: string): nat
  {
    if es == [] then 0
    else MatchCount(es[..|es| - 1], p) + (if IsMatchingFile(es[|es| - 1], p) then 1 else 0)
  }

  /** What `search_with_grep_rs(pattern)` returns: `regexError` is what
      compiling the pattern as a regular expression reported, if anything. */
  function FallbackOutcome(pattern: string, regexError: Option<string>, walk: seq<WalkEntry>): Result<string, string>
  {
    match regexError
    case Some(e) => Err(InvalidPatternMessage(e))
    case None => Ok(RenderLineHits(Scan(walk, pattern).hits))
  }

  /** Once the cap is reached, the rest of the walk changes nothing. */
  lemma {:induction false} ScanStopsAtCap(es: seq<WalkEntry>, k: nat, p: string)
    requires k <= |es| && Scan(es[..k], p).count >= MaxMatchingFiles
    ensures Scan(es, p) == Scan(es[..k], p)
    decreases |es|
  {
    if k < |es| {
      var init := es[..|es| - 1];
      assert init[..k] == es[..k];
      ScanStopsAtCap(init, k, p);
    } else {
      assert es[..k] == es;
    }
  }

  /** The capped scan against the uncapped reference: it counts
      min(matching files, 10), its hits are a prefix of all hits in walk
      order, and with at most ten matching files they are all of them. */
  lemma {:induction false} ScanAgreesWithUncapped(es: seq<WalkEntry>, p: string)
    ensures Scan(es, p).count == if MatchCount(es, p) < MaxMatchingFiles then MatchCount(es, p) else MaxMatchingFiles
    ensures Scan(es, p).hits <= AllHits(es, p)
    ensures MatchCount(es, p) <= MaxMatchingFiles ==> Scan(es, p).hits == AllHits(es, p)
  {
    if es != [] {
      var init, last := es[..|es| - 1], es[|es| - 1];
      ScanAgreesWithUncapped(init, p);
      var st := Scan(init, p);
      if st.count < MaxMatchingFiles {
        assert st.hits == AllHits(init, p);
      }
    }
  }

  /** At most ten files are counted, and each reports at most one line. */
  lemma {:induction false} ScanBounded(es: seq<WalkEntry>, p: string)
    ensures |Scan(es, p).hits| <= Scan(es, p).count <= MaxMatchingFiles
  {
    if es != [] {
      ScanBounded(es[..|es| - 1], p);
    }
  }

  /** A file matches on its whole content even when no single line contains the
      pattern: it is then counted towards the cap but reports nothing. */
  lemma MatchCountedWithoutHit(st: ScanState, e: WalkEntry, p: string)
    requires st.count < MaxMatchingFiles && IsMatchingFile(e, p)
    requires forall k :: 0 <= k < |Lines(e.content.value)| ==> !Contains(Lines(e.content.value)[k], p)
    ensures Step(st, e, p) == ScanState(st.hits, st.count + 1)
  {
    StepOnMatchingFile(st, e, p, FirstMatchFrom(Lines(e.content.value), p, 0));
  }

  /** In particular a keyword holding a line feed never reports a line: every file
      it matches is counted without a hit. */
  lemma NewlineKeywordCountsWithoutHit(st: ScanState, e: WalkEntry, p: string)
    requires st.count < MaxMatchingFiles && IsMatchingFile(e, p) && '\n' in p
    ensures Step(st, e, p) == ScanState(st.hits, st.count + 1)
  {
    var lines := Lines(e.content.value);
    forall k | 0 <= k < |lines|
      ensures !Contains(lines[k], p)
    {
      NewlinePatternInNoLine(e.content.value, k, p);
    }
    MatchCountedWithoutHit(st, e, p);
  }

  /** Such a file exists: "ab\ncd" contains "b\nc", and neither of its lines does. */
  lemma MatchCountedWithoutHitExample()
    ensures Scan([Visited("notes.txt", true, Some("ab\ncd"))], "b\nc") == ScanState([], 1)
  {
    SpanningPatternInNoLine();
    var es := [Visited("notes.txt", true, Some("ab\ncd"))];
    assert es[..0] == [];
    MatchCountedWithoutHit(ScanState([], 0), es[0], "b\nc");
  }

  lemma ScanExtend(es: seq<WalkEntry>, i: nat, p: string)
    requires i < |es|
    ensures Scan(es[..i + 1], p) == Step(Scan(es[..i], p), es[i], p)
  {
    assert es[..i + 1][..i] == es[..i];
  }

  /** One turn of the walk loop on a file that matches, given the inner loop's answer. */
  lemma StepOnMatchingFile(st: ScanState, e: WalkEntry, p: string, found: Option<nat>)
    requires st.count < MaxMatchingFiles && IsMatchingFile(e, p)
    requires found == FirstMatchFrom(Lines(e.content.value), p, 0)
    ensures found.Some? ==> found.value < |Lines(e.content.value)|
    ensures found.Some? ==>
      var hit := LineHit(e.path, found.value + 1, Trim(Lines(e.content.value)[found.value]));
      Step(st, e, p) == ScanState(st.hits + [hit], st.count + 1)
    ensures found.None? ==> Step(st, e, p) == ScanState(st.hits, st.count + 1)
  {
    assert st.hits + [] == st.hits;
  }

  lemma RenderAppend(hs: seq<LineHit>, h: LineHit)
    ensures RenderLineHits(hs + [h]) == RenderLineHits(hs) + RenderLineHit(h)
  {
    assert (hs + [h])[..|hs|] == hs;
  }

  /** The inner loop of the scan: the index of the first line containing `p`. */
  method FirstMatchingLine(lines: seq<string>, p: string) returns (found: Option<nat>)
    ensures found == FirstMatchFrom(lines, p, 0)
  {
    var j := 0;
    while j < |lines|
      invariant j <= |lines|
      invariant FirstMatchFrom(lines, p, j) == FirstMatchFrom(lines, p, 0)
    {
      if Contains(lines[j], p) {
        return Some(j);
      }
      j := j + 1;
    }
    return None;
  }

  /** `search_with_grep_rs`: the pattern check, then the capped walk. */
  method SearchWithGrepRs(pattern: string, regexError: Option<string>, walk: seq<WalkEntry>)
    returns (r: Result<string, string>)
    ensures r == FallbackOutcome(pattern, regexError, walk)
  {
    if regexError.Some? {
      return Err(InvalidPatternMessage(regexError.value));
    }
    var results := "";
    var count := 0;
    var i := 0;
    assert walk[..|walk|] == walk;
    while i < |walk|
      invariant i <= |walk|
      invariant count == Scan(walk[..i], pattern).count
      invariant results == RenderLineHits(Scan(walk[..i], pattern).hits)
    {
      if count >= MaxMatchingFiles {
        ScanStopsAtCap(walk, i, pattern);
        break;
      }
      ghost var st := Scan(walk[..i], pattern);
      ScanExtend(walk, i, pattern);
      var entry := walk[i];
      if entry.Visited? && entry.isFile && entry.content.Some? {
        var content := entry.content.value;
        if Contains(content, pattern) {
          count := count + 1;
          var lines := Lines(content);
          var found := FirstMatchingLine(lines, pattern);
          StepOnMatchingFile(st, entry, pattern, found);
          if found.Some? {
            var hit := LineHit(entry.path, found.value + 1, Trim(lines[found.value]));
            RenderAppend(st.hits, hit);
            results := results + RenderLineHit(hit);
          }
        }
      }
      i := i + 1;
    }
    return Ok(results);
  }
}
