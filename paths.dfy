/** What the filesystem reports about a path, as `Path::exists`, `is_file` and `is_dir` see it. */
module Paths {
  import opened Text

  /** Exactly one of these holds for a path: it is missing (or a broken link),
      a regular file, a directory, or some other kind of entry (socket, device, ...). */
  datatype PathKind = Missing | RegularFile | Directory | Special

  /** The message both tools give for a path that does not exist. */
  function PathMissingMessage(path: string): string
  {
    "The specified path " + Quoted(path) + " does not exist"
  }
}
