/** The parts of Rust's `str` the search tool relies on: `trim`, `contains`
    with a string pattern, `lines`, and decimal formatting of a line number. */
module Text {

  /** `char::is_whitespace`: the Unicode White_Space property. */
  predicate IsWhitespace(c: char)
  {
    var n := c as int;
    || 9 <= n <= 13
    || n == 0x20 || n == 0x85 || n == 0xA0 || n == 0x1680
    || 0x2000 <= n <= 0x200A
    || n == 0x2028 || n == 0x2029 || n == 0x202F || n == 0x205F || n == 0x3000
  }

  predicate AllWhitespace(s: string)
  {
    forall i :: 0 <= i < |s| ==> IsWhitespace(s[i])
  }

  /** `str::trim_start`: drops the leading whitespace. */
  function TrimStart(s: string): (r: string)
    ensures |r| <= |s|
  {
    if s != [] && IsWhitespace(s[0]) then TrimStart(s[1..]) else s
  }

  /** `str::trim_end`: drops the trailing whitespace. */
  function TrimEnd(s: string): (r: string)
    ensures |r| <= |s|
  {
    if s != [] && IsWhitespace(s[|s| - 1]) then TrimEnd(s[..|s| - 1]) else s
  }

  /** `str::trim`: the text between the leading and the trailing whitespace. */
  function Trim(s: string): string
  {
    TrimEnd(TrimStart(s))
  }

  /** What trim_start drops is whitespace, it drops all of it, and it keeps the rest as it was. */
  lemma {:induction false} TrimStartSpec(s: string)
    ensures var r := TrimStart(s);
      && r == s[|s| - |r|..]
      && AllWhitespace(s[..|s| - |r|])
      && (r == [] || !IsWhitespace(r[0]))
  {
    if s != [] && IsWhitespace(s[0]) {
      TrimStartSpec(s[1..]);
      var r := TrimStart(s);
      assert s[..|s| - |r|] == [s[0]] + s[1..][..|s| - 1 - |r|];
    }
  }

  /** What trim_end drops is whitespace, it drops all of it, and it keeps the rest as it was. */
  lemma {:induction false} TrimEndSpec(s: string)
    ensures var r := TrimEnd(s);
      && r == s[..|r|]
      && AllWhitespace(s[|r|..])
      && (r == [] || !IsWhitespace(r[|r| - 1]))
  {
    if s != [] && IsWhitespace(s[|s| - 1]) {
      var init := s[..|s| - 1];
      TrimEndSpec(init);
      var r := TrimEnd(s);
      assert s[|r|..] == init[|r|..] + [s[|s| - 1]];
    }
  }

  /** Trimming removes exactly the leading and the trailing whitespace: `s` is
      whitespace, then the trimmed text, then whitespace, and the trimmed text
      neither starts nor ends with whitespace. */
  lemma TrimSpec(s: string)
    ensures var r := Trim(s);
      && Contains(s, r)
      && (r == [] || (!IsWhitespace(r[0]) && !IsWhitespace(r[|r| - 1])))
    ensures exists a, b :: s == a + Trim(s) + b && AllWhitespace(a) && AllWhitespace(b)
  {
    var t := TrimStart(s);
    TrimStartSpec(s);
    TrimEndSpec(t);
    var r := TrimEnd(t);
    var a, b := s[..|s| - |t|], t[|r|..];
    assert t == r + b;
    assert s == a + r + b;
    assert AllWhitespace(a) && AllWhitespace(b);
    if r != [] {
      assert r[0] == t[0];
    }
    assert OccursAt(s, r, |a|);
  }

  /** A string trims to nothing exactly when every character of it is whitespace. */
  lemma TrimEmptyIff(s: string)
    ensures Trim(s) == [] <==> AllWhitespace(s)
  {
    var t := TrimStart(s);
    TrimStartSpec(s);
    TrimEndSpec(t);
    if Trim(s) == [] {
      assert AllWhitespace(t[0..]);
      assert s == s[..|s| - |t|] + t;
    }
  }

  /** A path as the messages show it, between single quotes. */
  function Quoted(path: string): (q: string)
    ensures |q| == |path| + 2 && q[0] == '\'' && q[|q| - 1] == '\'' && q[1..|q| - 1] == path
  {
    "'" + path + "'"
  }

  /** `p` occurs in `s` starting at index `i`. */
  predicate OccursAt(s: string, p: string, i: nat)
  {
    i + |p| <= |s| && s[i..i + |p|] == p
  }

  /** `str::contains` with a string pattern: a literal substring test
      (the empty pattern is contained in every string). */
  predicate Contains(s: string, p: string)
  {
    exists i: nat :: i <= |s| && OccursAt(s, p, i)
  }

  lemma {:induction false} ContainsInfix(a: string, p: string, b: string)
    ensures Contains(a + p + b, p)
  {
    var s := a + p + b;
    assert s[|a|..|a| + |p|] == p;
    assert OccursAt(s, p, |a|);
  }

  /** What occurs in a piece of `s` occurs in `s`. */
  lemma {:induction false} ContainsTransitive(s: string, t: string, p: string)
    requires Contains(s, t) && Contains(t, p)
    ensures Contains(s, p)
  {
    var i: nat :| i <= |s| && OccursAt(s, t, i);
    var j: nat :| j <= |t| && OccursAt(t, p, j);
    forall m | 0 <= m < |p|
      ensures s[i + j..i + j + |p|][m] == p[m]
    {
      assert p[m] == t[j + m] == s[i + j + m];
    }
    assert OccursAt(s, p, i + j);
  }

  /** Index of the first newline of `s`, or `|s|` when it has none. */
  function NewlineIndex(s: string): (k: nat)
    ensures k <= |s|
    ensures k < |s| ==> s[k] == '\n'
    ensures forall j :: 0 <= j < k ==> s[j] != '\n'
  {
    if s == [] || s[0] == '\n' then 0 else 1 + NewlineIndex(s[1..])
  }

  /** A line that ended in "\r\n" loses its '\r' as well. */
  function StripCr(line: string): (r: string)
    ensures r == line || (line == r + ['\r'])
  {
    if line != [] && line[|line| - 1] == '\r' then line[..|line| - 1] else line
  }

  /** `str::lines`: splits at "\n" and at "\r\n"; a final line ending does not
      start an empty last line, and the empty string has no lines. */
  function Lines(s: string): seq<string>
    decreases |s|
  {
    if s == [] then []
    else
      var k := NewlineIndex(s);
      if k == |s| then [s] else [StripCr(s[..k])] + Lines(s[k + 1..])
  }

  /** Every line is a piece of the text it was split from. */
  lemma {:induction false} LineOccursInText(s: string, k: nat)
    requires k < |Lines(s)|
    ensures Contains(s, Lines(s)[k])
    decreases |s|
  {
    var n := NewlineIndex(s);
    if n == |s| {
      assert OccursAt(s, s, 0);
    } else if k == 0 {
      var line := StripCr(s[..n]);
      assert s[0..|line|] == line;
      assert OccursAt(s, line, 0);
    } else {
      var rest := s[n + 1..];
      LineOccursInText(rest, k - 1);
      assert Lines(s)[k] == Lines(rest)[k - 1];
      assert Contains(s, rest) by { assert OccursAt(s, rest, n + 1); }
      ContainsTransitive(s, rest, Lines(s)[k]);
    }
  }

  /** No line carries a line feed: `lines()` cuts at every one of them. */
  lemma {:induction false} LinesHaveNoNewline(s: string, k: nat)
    requires k < |Lines(s)|
    ensures '\n' !in Lines(s)[k]
    decreases |s|
  {
    var n := NewlineIndex(s);
    if n == |s| {
    } else if k == 0 {
      var line := s[..n];
      assert '\n' !in line;
    } else {
      LinesHaveNoNewline(s[n + 1..], k - 1);
    }
  }

  /** So a pattern holding a line feed is found in no line. */
  lemma NewlinePatternInNoLine(s: string, k: nat, p: string)
    requires k < |Lines(s)| && '\n' in p
    ensures !Contains(Lines(s)[k], p)
  {
    LinesHaveNoNewline(s, k);
  }

  /** A pattern found in one line is found in the whole text. */
  lemma LineMatchIsTextMatch(s: string, k: nat, p: string)
    requires k < |Lines(s)| && Contains(Lines(s)[k], p)
    ensures Contains(s, p)
  {
    LineOccursInText(s, k);
    ContainsTransitive(s, Lines(s)[k], p);
  }

  /** The converse fails: "b\nc" spans the line break of "ab\ncd", so it is in
      the text but in none of its lines. */
  lemma SpanningPatternInNoLine()
    ensures Contains("ab\ncd", "b\nc")
    ensures Lines("ab\ncd") == ["ab", "cd"]
    ensures forall k :: 0 <= k < |Lines("ab\ncd")| ==> !Contains(Lines("ab\ncd")[k], "b\nc")
  {
    assert OccursAt("ab\ncd", "b\nc", 1);
    assert NewlineIndex("ab\ncd") == 2 by {
      assert NewlineIndex("b\ncd") == 1;
    }
    assert "ab\ncd"[..2] == "ab" && StripCr("ab") == "ab";
    assert "ab\ncd"[3..] == "cd";
    assert NewlineIndex("cd") == 2;
    assert Lines("cd") == ["cd"];
  }

  predicate IsDigits(s: string)
  {
    forall i :: 0 <= i < |s| ==> '0' <= s[i] <= '9'
  }

  function DigitChar(d: nat): (c: char)
    requires d < 10
    ensures '0' <= c <= '9'
  {
    ('0' as int + d) as char
  }

  /** Decimal formatting of a natural number, as `{}` prints an integer:
      at least one digit and no leading zero. */
  function DecimalString(n: nat): (s: string)
    ensures |s| >= 1 && IsDigits(s)
    ensures s[0] == '0' ==> n == 0
  {
    if n < 10 then [DigitChar(n)] else DecimalString(n / 10) + [DigitChar(n % 10)]
  }

  /** The number a string of decimal digits denotes. */
  function DecimalValue(s: string): nat
    requires IsDigits(s)
  {
    if s == [] then 0 else 10 * DecimalValue(s[..|s| - 1]) + (s[|s| - 1] as int - '0' as int)
  }

  /** Formatting a number and reading it back gives the number. */
  lemma {:induction false} DecimalRoundTrip(n: nat)
    ensures DecimalValue(DecimalString(n)) == n
  {
    if n >= 10 {
      DecimalRoundTrip(n / 10);
      var s := DecimalString(n);
      assert s[..|s| - 1] == DecimalString(n / 10);
    }
  }
}
