/**
 * The corpus as the engine sees it. The directory walk and the file reads
 * are not modelled: a `FileSystem` value gives the regular files the walk of
 * the corpus root yields, in walk order, and the text of every file that
 * reads successfully. A path with no entry in `files` is one whose read
 * fails (unreadable, not UTF-8, vanished).
 */
module Corpus {
  import opened Wrappers

  /** A file path; `ext` is its extension as text, `None` when it has none (or none as UTF-8). */
  datatype Path = Path(name: string, ext: Option<string>)

  datatype FileSystem = FileSystem(walk: seq<Path>, files: map<Path, string>)

  /** `std::fs::read_to_string`, with every error collapsed into `None`. */
  function ReadToString(fs: FileSystem, p: Path): Option<string> {
    if p in fs.files then Some(fs.files[p]) else None
  }

  /**
   * `is_indexable_file`: the path has an extension and that exact string is
   * one of the supported extensions. A path without one never qualifies.
   */
  predicate IsIndexableFile(exts: seq<string>, p: Path): (b: bool)
    ensures b <==> exists i :: 0 <= i < |exts| && p.ext == Some(exts[i])
    ensures p.ext.None? ==> !b
  {
    match p.ext
    case Some(e) => e in exts
    case None => false
  }
}
