/** The `read_file_content` tool: classifies what reading one path gives,
    including the heuristic that tells a binary file from a non-UTF-8 text file. */
module FileReader {
  import opened Basics
  import opened Text
  import opened Paths

  newtype byte = x: int | 0 <= x < 256

  /** A control byte the heuristic counts: below 32, except tab, line feed and carriage return. */
  predicate IsControlByte(b: byte)
  {
    b < 32 && b != 9 && b != 10 && b != 13
  }

  /** How many control bytes `bytes` holds (the `filter(..).count()` of the source). */
  function ControlCount(bytes: seq<byte>): (n: nat)
    ensures n <= |bytes|
  {
    if bytes == [] then 0
    else ControlCount(bytes[..|bytes| - 1]) + (if IsControlByte(bytes[|bytes| - 1]) then 1 else 0)
  }

  /** The binary-file heuristic: a NUL byte, or more control bytes than a tenth
      of the length, rounded down. */
  predicate LooksBinary(bytes: seq<byte>)
  {
    0 in bytes || ControlCount(bytes) > |bytes| / 10
  }

  lemma {:induction false} ControlCountConcat(a: seq<byte>, b: seq<byte>)
    ensures ControlCount(a + b) == ControlCount(a) + ControlCount(b)
    decreases |b|
  {
    if b != [] {
      var c := a + b;
      assert c[..|c| - 1] == a + b[..|b| - 1];
      ControlCountConcat(a, b[..|b| - 1]);
    } else {
      assert a + b == a;
    }
  }

  /** Some byte is counted exactly when the count is positive. */
  lemma {:induction false} ControlCountPositive(bytes: seq<byte>)
    ensures ControlCount(bytes) > 0 <==> exists i :: 0 <= i < |bytes| && IsControlByte(bytes[i])
  {
    if bytes != [] {
      var init := bytes[..|bytes| - 1];
      ControlCountPositive(init);
      if exists i :: 0 <= i < |init| && IsControlByte(init[i]) {
        var i :| 0 <= i < |init| && IsControlByte(init[i]);
        assert bytes[i] == init[i];
      }
      if exists i :: 0 <= i < |bytes| && IsControlByte(bytes[i]) {
        var i :| 0 <= i < |bytes| && IsControlByte(bytes[i]);
        if i < |init| {
          assert init[i] == bytes[i];
        }
      }
    }
  }

  /** The integer-division threshold is exactly "more than ten per cent
      control bytes": count > len / 10 holds iff 10 * count > len. */
  lemma LooksBinaryIsTenPercent(bytes: seq<byte>)
    ensures LooksBinary(bytes) <==> 0 in bytes || 10 * ControlCount(bytes) > |bytes|
  {
    var c, n := ControlCount(bytes), |bytes|;
    var q := n / 10;
    assert n == 10 * q + n % 10 && 0 <= n % 10 < 10;
    if c > q {
      assert 10 * c >= 10 * q + 10;
    }
    if 10 * c > n {
      assert 10 * c > 10 * q;
    }
  }

  /** Below ten bytes the threshold is zero: a single control byte makes the
      file binary, and with none (the empty file included) it is not. */
  lemma ShortInputBinaryIff(bytes: seq<byte>)
    requires |bytes| < 10
    ensures LooksBinary(bytes) <==> exists i :: 0 <= i < |bytes| && IsControlByte(bytes[i])
  {
    ControlCountPositive(bytes);
    if 0 in bytes {
      var i :| 0 <= i < |bytes| && bytes[i] == 0;
      assert IsControlByte(bytes[i]);
    }
  }

  const EmptyFileMarker: string := "File is empty."

  function NotAFileMessage(path: string): string
  {
    "The specified path " + Quoted(path) + " is not a file"
  }

  function BinaryFileMessage(path: string): string
  {
    "The file " + Quoted(path) + " appears to be a binary file and cannot be displayed as text"
  }

  function NotTextMessage(path: string, detail: string): string
  {
    "The file " + Quoted(path) + " could not be read as text: " + detail
  }

  function ReadErrorMessage(path: string, detail: string): string
  {
    "Error reading file " + Quoted(path) + ": " + detail
  }

  /** `read_file_content(path)`. The filesystem enters as data: `kind` is what
      `exists`/`is_file` report, `text` what `fs::read_to_string` gives (the
      content, or the error's text), `raw` what the re-read `fs::read` gives. */
  function ReadFileContent(path: string, kind: PathKind, text: Result<string, string>,
                           raw: Result<seq<byte>, string>): (r: Result<string, string>)
    ensures r.Ok? <==> kind == RegularFile && text.Ok?
    ensures r.Ok? ==> r.value != []
  {
    if kind == Missing then Err(PathMissingMessage(path))
    else if kind != RegularFile then Err(NotAFileMessage(path))
    else
      match text
      case Ok(content) => if content == [] then Ok(EmptyFileMarker) else Ok(content)
      case Err(e) =>
        match raw
        case Ok(bytes) =>
          if LooksBinary(bytes) then Err(BinaryFileMessage(path)) else Err(NotTextMessage(path, e))
        case Err(readErr) => Err(ReadErrorMessage(path, readErr))
  }

  /** Existence is checked before kind, and neither check reads the file. */
  lemma ReadRejectsNonFiles(path: string, kind: PathKind, text: Result<string, string>,
                            raw: Result<seq<byte>, string>, text': Result<string, string>,
                            raw': Result<seq<byte>, string>)
    requires kind != RegularFile
    ensures ReadFileContent(path, kind, text, raw) == ReadFileContent(path, kind, text', raw')
    ensures kind == Missing ==> ReadFileContent(path, kind, text, raw) == Err(PathMissingMessage(path))
    ensures kind != Missing ==> ReadFileContent(path, kind, text, raw) == Err(NotAFileMessage(path))
  {
  }

  /** A decoded file is returned unchanged, an empty one as the fixed marker;
      neither is an error, and the re-read is never consulted. */
  lemma ReadDecodedFile(path: string, content: string, raw: Result<seq<byte>, string>)
    ensures content != [] ==> ReadFileContent(path, RegularFile, Ok(content), raw) == Ok(content)
    ensures content == [] ==> ReadFileContent(path, RegularFile, Ok(content), raw) == Ok(EmptyFileMarker)
  {
  }

  /** A file that does not decode as text: NUL bytes or more than ten per cent
      control bytes make it a binary-file error, anything else a could-not-read-as-text
      error carrying the decoder's message; a failed re-read is a read error. */
  lemma ReadUndecodableFile(path: string, decodeErr: string, raw: Result<seq<byte>, string>)
    ensures var r := ReadFileContent(path, RegularFile, Err(decodeErr), raw);
      && (raw.Ok? && (0 in raw.value || 10 * ControlCount(raw.value) > |raw.value|) ==>
            r == Err(BinaryFileMessage(path)))
      && (raw.Ok? && !(0 in raw.value || 10 * ControlCount(raw.value) > |raw.value|) ==>
            r == Err(NotTextMessage(path, decodeErr)))
      && (raw.Err? ==> r == Err(ReadErrorMessage(path, raw.error)))
  {
    if raw.Ok? {
      LooksBinaryIsTenPercent(raw.value);
    }
  }

  /** Each error message quotes the path it names. */
  lemma MessagesQuotePath(path: string, detail: string)
    ensures Contains(PathMissingMessage(path), Quoted(path))
    ensures Contains(NotAFileMessage(path), Quoted(path))
    ensures Contains(BinaryFileMessage(path), Quoted(path))
    ensures Contains(NotTextMessage(path, detail), Quoted(path))
    ensures Contains(ReadErrorMessage(path, detail), Quoted(path))
  {
    var q := Quoted(path);
    ContainsInfix("The specified path ", q, " does not exist");
    ContainsInfix("The specified path ", q, " is not a file");
    ContainsInfix("The file ", q, " appears to be a binary file and cannot be displayed as text");
    ContainsInfix("The file ", q, " could not be read as text: " + detail);
    assert NotTextMessage(path, detail) == "The file " + q + (" could not be read as text: " + detail);
    ContainsInfix("Error reading file ", q, ": " + detail);
    assert ReadErrorMessage(path, detail) == "Error reading file " + q + (": " + detail);
  }

  /** Every error `read_file_content` gives quotes the path it was given. */
  lemma ReadErrorsQuotePath(path: string, kind: PathKind, text: Result<string, string>,
                            raw: Result<seq<byte>, string>)
    ensures var r := ReadFileContent(path, kind, text, raw);
      r.Err? ==> Contains(r.error, Quoted(path))
  {
    if kind == RegularFile && text.Err? {
      match raw
      case Ok(_) => MessagesQuotePath(path, text.error);
      case Err(readErr) => MessagesQuotePath(path, readErr);
    } else {
      MessagesQuotePath(path, "");
    }
  }
}
