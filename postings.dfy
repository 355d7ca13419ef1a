/**
 * The inverted term index that `build_index` and `index_file` maintain:
 * a map from term to an append-only list of `(path, line)` postings.
 *
 * The source iterates over the set of a line's terms in hash order, but
 * pushes every term at most once per line, so the map it ends with does not
 * depend on that order. `AddLine` states the effect of one line at once;
 * `AddFile` and `IndexWalk` fold it over the lines of a file and the files of
 * the walk, and `Occurrences` / `WalkOccurrences` say which postings a term
 * receives, in walk order and then line order.
 */
module Postings {
  import opened Wrappers
  import opened Text
  import opened Tokens
  import opened Corpus

  /** An occurrence of a term: the file and the zero-based line number. */
  datatype Posting = Posting(path: Path, line: nat)

  type TermIndex = map<string, seq<Posting>>

  /** The posting list of `t`; empty for a term the map does not hold (`or_default`). */
  function PostingsOf(idx: TermIndex, t: string): seq<Posting> {
    if t in idx then idx[t] else []
  }

  /** The map after pushing `(p, i)` onto the list of every term in `terms`. */
  function AddLine(idx: TermIndex, p: Path, i: nat, terms: set<string>): TermIndex {
    map t | t in idx.Keys + terms :: PostingsOf(idx, t) + (if t in terms then [Posting(p, i)] else [])
  }

  /** `index_file`: line `i` of the file adds `(p, i)` for each of its terms. */
  function AddFile(idx: TermIndex, p: Path, lines: seq<string>): TermIndex
    decreases |lines|
  {
    if lines == [] then idx
    else
      var n := |lines| - 1;
      AddLine(AddFile(idx, p, lines[..n]), p, n, Terms(lines[n]))
  }

  /** The postings of `t` in one file: the lines holding `t`, in order. */
  function Occurrences(t: string, p: Path, lines: seq<string>): seq<Posting>
    decreases |lines|
  {
    if lines == [] then []
    else
      var n := |lines| - 1;
      Occurrences(t, p, lines[..n]) + (if t in Terms(lines[n]) then [Posting(p, n)] else [])
  }

  /** The files of the walk that `build_index` reads: eligible and readable. */
  predicate Indexed(fs: FileSystem, exts: seq<string>, p: Path) {
    IsIndexableFile(exts, p) && p in fs.files
  }

  /** The map after the scan loop of `build_index` over `walk`. */
  function IndexWalk(idx: TermIndex, walk: seq<Path>, fs: FileSystem, exts: seq<string>): TermIndex
    decreases |walk|
  {
    if walk == [] then idx
    else
      var n := |walk| - 1;
      var prev := IndexWalk(idx, walk[..n], fs, exts);
      if Indexed(fs, exts, walk[n]) then AddFile(prev, walk[n], Lines(fs.files[walk[n]])) else prev
  }

  /** The postings of `t` a scan of `walk` appends, in walk order and then line order. */
  function WalkOccurrences(t: string, walk: seq<Path>, fs: FileSystem, exts: seq<string>): seq<Posting>
    decreases |walk|
  {
    if walk == [] then []
    else
      var n := |walk| - 1;
      WalkOccurrences(t, walk[..n], fs, exts)
        + (if Indexed(fs, exts, walk[n]) then Occurrences(t, walk[n], Lines(fs.files[walk[n]])) else [])
  }

  /** The count `build_index` returns after a scan: files of `walk` read and indexed. */
  function IndexedCount(walk: seq<Path>, fs: FileSystem, exts: seq<string>): nat
    decreases |walk|
  {
    if walk == [] then 0
    else
      var n := |walk| - 1;
      IndexedCount(walk[..n], fs, exts) + (if Indexed(fs, exts, walk[n]) then 1 else 0)
  }

  /** Every key is a well-formed term with a non-empty posting list. */
  ghost predicate IndexValid(idx: TermIndex) {
    forall t :: t in idx ==> IsTerm(t) && idx[t] != []
  }

  lemma AddLinePostings(idx: TermIndex, p: Path, i: nat, terms: set<string>, t: string)
    ensures PostingsOf(AddLine(idx, p, i, terms), t)
         == PostingsOf(idx, t) + (if t in terms then [Posting(p, i)] else [])
  {
  }

  /** Indexing one file appends to each term exactly its occurrences in that file. */
  lemma {:induction false} AddFilePostings(idx: TermIndex, p: Path, lines: seq<string>, t: string)
    ensures PostingsOf(AddFile(idx, p, lines), t) == PostingsOf(idx, t) + Occurrences(t, p, lines)
    decreases |lines|
  {
    if lines != [] {
      var n := |lines| - 1;
      AddFilePostings(idx, p, lines[..n], t);
      AddLinePostings(AddFile(idx, p, lines[..n]), p, n, Terms(lines[n]), t);
    }
  }

  /**
   * A scan only appends: the new posting list of every term is its old list
   * followed by its occurrences in the indexed files of the walk.
   */
  lemma {:induction false} IndexWalkPostings(idx: TermIndex, walk: seq<Path>, fs: FileSystem, exts: seq<string>, t: string)
    ensures PostingsOf(IndexWalk(idx, walk, fs, exts), t) == PostingsOf(idx, t) + WalkOccurrences(t, walk, fs, exts)
    decreases |walk|
  {
    if walk != [] {
      var n := |walk| - 1;
      var pre, q := walk[..n], walk[n];
      var prev := IndexWalk(idx, pre, fs, exts);
      var earlier, walked := PostingsOf(idx, t), WalkOccurrences(t, pre, fs, exts);
      IndexWalkPostings(idx, pre, fs, exts, t);
      IndexWalkStep(idx, walk, fs, exts, t);
      if Indexed(fs, exts, q) {
        AddFileAfter(prev, q, Lines(fs.files[q]), t, earlier, walked);
      } else {
        assert walked + [] == walked;
      }
    }
  }

  /**
   * Changing the extensions and scanning again appends a second round after
   * the first: the old postings stay, so a file eligible under both lists
   * has its occurrences listed twice.
   */
  lemma RescanAppends(idx: TermIndex, walk: seq<Path>, fs: FileSystem, before: seq<string>, after: seq<string>, t: string)
    ensures PostingsOf(IndexWalk(IndexWalk(idx, walk, fs, before), walk, fs, after), t)
         == PostingsOf(idx, t) + WalkOccurrences(t, walk, fs, before) + WalkOccurrences(t, walk, fs, after)
  {
    IndexWalkPostings(idx, walk, fs, before, t);
    IndexWalkPostings(IndexWalk(idx, walk, fs, before), walk, fs, after, t);
  }

  /** Indexing one more file appends its postings after those already gathered. */
  lemma AddFileAfter(idx: TermIndex, p: Path, lines: seq<string>, t: string, earlier: seq<Posting>, walked: seq<Posting>)
    requires PostingsOf(idx, t) == earlier + walked
    ensures PostingsOf(AddFile(idx, p, lines), t) == earlier + (walked + Occurrences(t, p, lines))
  {
    AddFilePostings(idx, p, lines, t);
    assert (earlier + walked) + Occurrences(t, p, lines) == earlier + (walked + Occurrences(t, p, lines));
  }

  /** One step of a scan: the last file of the walk is indexed after the others, if at all. */
  lemma IndexWalkStep(idx: TermIndex, walk: seq<Path>, fs: FileSystem, exts: seq<string>, t: string)
    requires walk != []
    ensures var n := |walk| - 1;
      var prev := IndexWalk(idx, walk[..n], fs, exts);
      && IndexWalk(idx, walk, fs, exts)
         == (if Indexed(fs, exts, walk[n]) then AddFile(prev, walk[n], Lines(fs.files[walk[n]])) else prev)
      && WalkOccurrences(t, walk, fs, exts)
         == WalkOccurrences(t, walk[..n], fs, exts)
            + (if Indexed(fs, exts, walk[n]) then Occurrences(t, walk[n], Lines(fs.files[walk[n]])) else [])
  {
  }

  /** A posting of `t` in a file is exactly a line of that file whose terms include `t`. */
  lemma {:induction false} OccurrencesExact(t: string, p: Path, lines: seq<string>, o: Posting)
    ensures o in Occurrences(t, p, lines) <==> o.path == p && o.line < |lines| && t in Terms(lines[o.line])
    decreases |lines|
  {
    if lines != [] {
      var n := |lines| - 1;
      var pre := lines[..n];
      OccurrencesExact(t, p, pre, o);
      OccurrencesStep(t, p, lines);
      if o.line < n {
        assert pre[o.line] == lines[o.line];
      } else if o == Posting(p, n) {
        assert o !in Occurrences(t, p, pre);
      }
    }
  }

  lemma OccurrencesStep(t: string, p: Path, lines: seq<string>)
    requires lines != []
    ensures var n := |lines| - 1;
      Occurrences(t, p, lines) == Occurrences(t, p, lines[..n]) + (if t in Terms(lines[n]) then [Posting(p, n)] else [])
  {
  }

  /**
   * The postings of one file are in strictly increasing line order, so a line
   * yields at most one posting per term however often the word repeats on it.
   */
  lemma {:induction false} OccurrencesOrdered(t: string, p: Path, lines: seq<string>)
    ensures forall i, j :: 0 <= i < j < |Occurrences(t, p, lines)| ==>
      Occurrences(t, p, lines)[i].line < Occurrences(t, p, lines)[j].line
    ensures forall o :: o in Occurrences(t, p, lines) ==> o.path == p && o.line < |lines|
    decreases |lines|
  {
    if lines != [] {
      var n := |lines| - 1;
      OccurrencesOrdered(t, p, lines[..n]);
    }
  }

  /**
   * A posting the scan appends for `t` names an indexed file of the walk, a
   * line inside it, and a line whose terms include `t`; and every such line
   * of every such file gets one.
   */
  lemma {:induction false} WalkOccurrencesExact(t: string, walk: seq<Path>, fs: FileSystem, exts: seq<string>, o: Posting)
    ensures o in WalkOccurrences(t, walk, fs, exts) <==>
      && o.path in walk && Indexed(fs, exts, o.path)
      && o.line < |Lines(fs.files[o.path])|
      && t in Terms(Lines(fs.files[o.path])[o.line])
    decreases |walk|
  {
    if walk != [] {
      var n := |walk| - 1;
      var pre, q := walk[..n], walk[n];
      WalkOccurrencesExact(t, pre, fs, exts, o);
      if Indexed(fs, exts, q) {
        OccurrencesExact(t, q, Lines(fs.files[q]), o);
      }
      if o.path == q {
        assert o.path in walk;
      } else {
        assert o.path in walk <==> o.path in pre;
      }
    }
  }

  /** A line with no terms leaves the map as it is. */
  lemma AddLineEmpty(idx: TermIndex, p: Path, i: nat)
    ensures AddLine(idx, p, i, {}) == idx
  {
    var r := AddLine(idx, p, i, {});
    assert r.Keys == idx.Keys;
    forall t | t in idx ensures r[t] == idx[t] {
    }
  }

  /**
   * The effect of one line is one push per term, in any order: pushing onto
   * the list of a further term `t` extends the effect of the terms pushed so far.
   */
  lemma AddLineInsert(idx: TermIndex, p: Path, i: nat, done: set<string>, t: string, cur: TermIndex)
    requires t !in done && cur == AddLine(idx, p, i, done)
    ensures cur[t := PostingsOf(cur, t) + [Posting(p, i)]] == AddLine(idx, p, i, done + {t})
  {
    var a := AddLine(idx, p, i, done + {t});
    var b := cur[t := PostingsOf(cur, t) + [Posting(p, i)]];
    assert a.Keys == b.Keys;
    forall u | u in a ensures a[u] == b[u] {
    }
  }

  lemma AddLineValid(idx: TermIndex, p: Path, i: nat, terms: set<string>)
    requires IndexValid(idx)
    requires forall t :: t in terms ==> IsTerm(t)
    ensures IndexValid(AddLine(idx, p, i, terms))
  {
  }

  lemma {:induction false} AddFileValid(idx: TermIndex, p: Path, lines: seq<string>)
    requires IndexValid(idx)
    ensures IndexValid(AddFile(idx, p, lines))
    decreases |lines|
  {
    if lines != [] {
      var n := |lines| - 1;
      AddFileValid(idx, p, lines[..n]);
      AddLineValid(AddFile(idx, p, lines[..n]), p, n, Terms(lines[n]));
    }
  }

  /** A scan keeps every key a well-formed term with a non-empty list. */
  lemma {:induction false} IndexWalkValid(idx: TermIndex, walk: seq<Path>, fs: FileSystem, exts: seq<string>)
    requires IndexValid(idx)
    ensures IndexValid(IndexWalk(idx, walk, fs, exts))
    decreases |walk|
  {
    if walk != [] {
      var n := |walk| - 1;
      IndexWalkValid(idx, walk[..n], fs, exts);
      if Indexed(fs, exts, walk[n]) {
        AddFileValid(IndexWalk(idx, walk[..n], fs, exts), walk[n], Lines(fs.files[walk[n]]));
      }
    }
  }

  /** After a scan the map holds exactly the old terms and the terms the scan met. */
  lemma IndexWalkKeys(idx: TermIndex, walk: seq<Path>, fs: FileSystem, exts: seq<string>, t: string)
    requires IndexValid(idx)
    ensures t in IndexWalk(idx, walk, fs, exts) <==> t in idx || WalkOccurrences(t, walk, fs, exts) != []
  {
    IndexWalkValid(idx, walk, fs, exts);
    IndexWalkPostings(idx, walk, fs, exts, t);
  }
}
