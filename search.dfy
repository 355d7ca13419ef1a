/**
 * What the two searches of the document index return, as functions of the
 * corpus: `RelevantCode` for `search_relevant_code` and `ScoredSearch` for
 * `search_with_scoring`, with the properties the engine promises about them.
 */
module Search {
  import opened Wrappers
  import opened Text
  import opened Tokens
  import opened Corpus
  import opened Ranking
  import opened Snippets
  import opened Postings

  /** A ranked hit: relevance is `matches / termCount`. */
  datatype SearchResult = SearchResult(
    path: Path, lineNumber: nat, snippet: string, matches: nat, termCount: nat, fileType: string)

  /** A substring hit: one per file. */
  datatype CodeSnippet = CodeSnippet(path: Path, snippet: string)

  /** The label a result gets when its path has no extension. */
  const UnknownFileType: string := "unknown"

  // ---------------------------------------------------------------------------
  // Substring search

  /** The file at `p` is a hit: indexable, readable, and its lower-cased text contains `queryLower`. */
  predicate IsHit(fs: FileSystem, exts: seq<string>, queryLower: string, p: Path) {
    Indexed(fs, exts, p) && Contains(Lower(fs.files[p]), queryLower)
  }

  /** The snippet of every hit of `walk`, in walk order. */
  function Hits(walk: seq<Path>, fs: FileSystem, exts: seq<string>, queryLower: string): seq<CodeSnippet>
    decreases |walk|
  {
    if walk == [] then []
    else
      var n := |walk| - 1;
      var p := walk[n];
      Hits(walk[..n], fs, exts, queryLower) + FileHit(fs, exts, queryLower, p)
  }

  /** The snippet of the file at `p` when it is a hit, else nothing. */
  function FileHit(fs: FileSystem, exts: seq<string>, queryLower: string, p: Path): seq<CodeSnippet> {
    if IsHit(fs, exts, queryLower, p)
    then [CodeSnippet(p, ExtractSnippet(fs.files[p], queryLower, SnippetMaxLen))]
    else []
  }

  /**
   * The most results `search_relevant_code` returns: the cap is checked only
   * after a push, so a limit of 0 still lets the first hit through.
   */
  function ResultCap(limit: nat): nat {
    Max(limit, 1)
  }

  /** `search_relevant_code(query, limit)` over `fs`. */
  function RelevantCode(fs: FileSystem, exts: seq<string>, query: string, limit: nat): seq<CodeSnippet> {
    Take(Hits(fs.walk, fs, exts, Lower(query)), ResultCap(limit))
  }

  /** The hits of a walk are the hits of its first part followed by those of the rest. */
  lemma {:induction false} HitsConcat(a: seq<Path>, b: seq<Path>, fs: FileSystem, exts: seq<string>, ql: string)
    ensures Hits(a + b, fs, exts, ql) == Hits(a, fs, exts, ql) + Hits(b, fs, exts, ql)
    decreases |b|
  {
    if b == [] {
      assert a + b == a;
    } else {
      var n := |b| - 1;
      assert (a + b)[..|a + b| - 1] == a + b[..n];
      assert (a + b)[|a + b| - 1] == b[n];
      HitsConcat(a, b[..n], fs, exts, ql);
    }
  }

  /**
   * Every hit names a file of the walk that is indexable and readable and
   * whose lower-cased text contains the lower-cased query, and carries that
   * file's snippet.
   */
  lemma {:induction false} HitsSound(walk: seq<Path>, fs: FileSystem, exts: seq<string>, ql: string, c: CodeSnippet)
    requires c in Hits(walk, fs, exts, ql)
    ensures c.path in walk && IsIndexableFile(exts, c.path) && c.path in fs.files
    ensures Contains(Lower(fs.files[c.path]), ql)
    ensures c.snippet == ExtractSnippet(fs.files[c.path], ql, SnippetMaxLen)
    decreases |walk|
  {
    var n := |walk| - 1;
    if c in Hits(walk[..n], fs, exts, ql) {
      HitsSound(walk[..n], fs, exts, ql, c);
    }
  }

  /** Every file of the walk that is a hit yields a snippet. */
  lemma {:induction false} HitsComplete(walk: seq<Path>, fs: FileSystem, exts: seq<string>, ql: string, k: nat)
    requires k < |walk| && IsHit(fs, exts, ql, walk[k])
    ensures CodeSnippet(walk[k], ExtractSnippet(fs.files[walk[k]], ql, SnippetMaxLen)) in Hits(walk, fs, exts, ql)
    decreases |walk|
  {
    var n := |walk| - 1;
    if k < n {
      assert walk[..n][k] == walk[k];
      HitsComplete(walk[..n], fs, exts, ql, k);
      HitsKeep(walk, fs, exts, ql, CodeSnippet(walk[k], ExtractSnippet(fs.files[walk[k]], ql, SnippetMaxLen)));
    } else {
      HitsLast(walk, fs, exts, ql);
    }
  }

  /** A hit of all but the last file is a hit of the walk. */
  lemma HitsKeep(walk: seq<Path>, fs: FileSystem, exts: seq<string>, ql: string, c: CodeSnippet)
    requires walk != [] && c in Hits(walk[..|walk| - 1], fs, exts, ql)
    ensures c in Hits(walk, fs, exts, ql)
  {
  }

  /** The last file of the walk, when it is a hit, yields its snippet. */
  lemma HitsLast(walk: seq<Path>, fs: FileSystem, exts: seq<string>, ql: string)
    requires walk != [] && IsHit(fs, exts, ql, walk[|walk| - 1])
    ensures CodeSnippet(walk[|walk| - 1], ExtractSnippet(fs.files[walk[|walk| - 1]], ql, SnippetMaxLen))
         in Hits(walk, fs, exts, ql)
  {
  }

  /** The hits of the first `w + 1` files: those of the first `w`, then the hit of file `w`, if any. */
  lemma HitsStep(walk: seq<Path>, fs: FileSystem, exts: seq<string>, ql: string, w: nat)
    requires w < |walk|
    ensures Hits(walk[..w + 1], fs, exts, ql) == Hits(walk[..w], fs, exts, ql) + FileHit(fs, exts, ql, walk[w])
  {
    assert walk[..w + 1][..w] == walk[..w];
  }

  /**
   * `search_relevant_code` returns the first hits in walk order, as many as
   * there are up to the cap, and each comes from an indexable, readable file
   * whose text contains the query regardless of case.
   */
  lemma RelevantCodeResults(fs: FileSystem, exts: seq<string>, query: string, limit: nat)
    ensures var r := RelevantCode(fs, exts, query, limit);
      && |r| == Min(ResultCap(limit), |Hits(fs.walk, fs, exts, Lower(query))|)
      && r <= Hits(fs.walk, fs, exts, Lower(query))
      && forall c :: c in r ==>
           && c.path in fs.walk && IsIndexableFile(exts, c.path) && c.path in fs.files
           && Contains(Lower(fs.files[c.path]), Lower(query))
  {
    var r := RelevantCode(fs, exts, query, limit);
    forall c | c in r
      ensures c.path in fs.walk && IsIndexableFile(exts, c.path) && c.path in fs.files
      ensures Contains(Lower(fs.files[c.path]), Lower(query))
    {
      HitsSound(fs.walk, fs, exts, Lower(query), c);
    }
  }

  /**
   * A query of at most 768 characters (three quarters of the snippet length)
   * appears, regardless of case, in every snippet returned for it.
   */
  lemma RelevantCodeShowsQuery(fs: FileSystem, exts: seq<string>, query: string, limit: nat, c: CodeSnippet)
    requires c in RelevantCode(fs, exts, query, limit)
    requires |query| <= SnippetMaxLen - SnippetMaxLen / 4
    ensures Contains(Lower(c.snippet), Lower(query))
  {
    var ql := Lower(query);
    HitsSound(fs.walk, fs, exts, ql, c);
    var content := fs.files[c.path];
    var idx := Find(Lower(content), ql).value;
    SnippetShowsMatch(content, ql, SnippetMaxLen, idx);
    ContainsAt(Lower(c.snippet), ql, idx - WindowStart(idx, SnippetMaxLen));
  }

  /**
   * Once the hits of a first part of the walk reach the cap, nothing after
   * it changes the result: the scan can stop there.
   */
  lemma RelevantCodeStopsAtCap(a: seq<Path>, b: seq<Path>, fs: FileSystem, exts: seq<string>, query: string, limit: nat)
    requires |Hits(a, fs, exts, Lower(query))| >= ResultCap(limit)
    ensures RelevantCode(FileSystem(a + b, fs.files), exts, query, limit)
         == RelevantCode(FileSystem(a, fs.files), exts, query, limit)
  {
    var ql := Lower(query);
    var fsAB, fsA := FileSystem(a + b, fs.files), FileSystem(a, fs.files);
    HitsFilesOnly(a, fs, fsAB, exts, ql);
    HitsFilesOnly(a, fs, fsA, exts, ql);
    HitsConcat(a, b, fsAB, exts, ql);
    TakeLonger(Hits(a, fsAB, exts, ql), Hits(b, fsAB, exts, ql), ResultCap(limit));
  }

  /** Hits depend on the readable files only, not on the walk recorded in `fs`. */
  lemma {:induction false} HitsFilesOnly(walk: seq<Path>, fs: FileSystem, fs': FileSystem, exts: seq<string>, ql: string)
    requires fs.files == fs'.files
    ensures Hits(walk, fs, exts, ql) == Hits(walk, fs', exts, ql)
    decreases |walk|
  {
    if walk != [] {
      HitsFilesOnly(walk[..|walk| - 1], fs, fs', exts, ql);
    }
  }

  // ---------------------------------------------------------------------------
  // Scored search

  /** The candidates of one file: every line with at least one matching query term. */
  function FileCandidates(p: Path, lines: seq<string>, terms: seq<string>): seq<Candidate>
    decreases |lines|
  {
    if lines == [] then []
    else
      var n := |lines| - 1;
      var m := MatchCount(terms, Lower(lines[n]));
      FileCandidates(p, lines[..n], terms) + (if m > 0 then [Candidate(p, n, m)] else [])
  }

  /** The candidates of a walk, in walk order and then line order. */
  function WalkCandidates(walk: seq<Path>, fs: FileSystem, exts: seq<string>, terms: seq<string>): seq<Candidate>
    decreases |walk|
  {
    if walk == [] then []
    else
      var n := |walk| - 1;
      WalkCandidates(walk[..n], fs, exts, terms)
        + (if Indexed(fs, exts, walk[n]) then FileCandidates(walk[n], Lines(fs.files[walk[n]]), terms) else [])
  }

  /** All candidates of `search_with_scoring(query, _)` over `fs`. */
  function Candidates(fs: FileSystem, exts: seq<string>, query: string): seq<Candidate> {
    WalkCandidates(fs.walk, fs, exts, QueryTerms(query))
  }

  /** The candidate's file can be read and has the candidate's line. */
  predicate Resolves(fs: FileSystem, c: Candidate) {
    c.path in fs.files && c.line < |Lines(fs.files[c.path])|
  }

  /** The result built for a candidate whose file and line can be read. */
  function ResultFor(fs: FileSystem, c: Candidate, termCount: nat): SearchResult
    requires Resolves(fs, c)
  {
    var lines := Lines(fs.files[c.path]);
    SearchResult(c.path, c.line, ContextSnippet(lines, c.line), c.matches, termCount,
                 c.path.ext.GetOr(UnknownFileType))
  }

  /** The results loop: re-read each kept candidate's file and skip it if the line is gone. */
  function Finish(fs: FileSystem, top: seq<Candidate>, termCount: nat): seq<SearchResult>
    decreases |top|
  {
    if top == [] then []
    else
      var n := |top| - 1;
      Finish(fs, top[..n], termCount) + Reread(fs, top[n], termCount)
  }

  /** Reading a kept candidate's file again: its result, or nothing if the file or line is gone. */
  function Reread(fs: FileSystem, c: Candidate, termCount: nat): seq<SearchResult> {
    match ReadToString(fs, c.path)
    case Some(content) =>
      if c.line < |Lines(content)| then [ResultFor(fs, c, termCount)] else []
    case None => []
  }

  /** The candidates `search_with_scoring` keeps: the best `limit`, ties in walk order. */
  function TopCandidates(fs: FileSystem, exts: seq<string>, query: string, limit: nat): seq<Candidate> {
    Take(SortDesc(Candidates(fs, exts, query)), limit)
  }

  /** `search_with_scoring(query, limit)` over `fs`. */
  function ScoredSearch(fs: FileSystem, exts: seq<string>, query: string, limit: nat): seq<SearchResult> {
    Finish(fs, TopCandidates(fs, exts, query, limit), |QueryTerms(query)|)
  }

  /** A candidate of a file is exactly a line of it with at least one matching term. */
  lemma {:induction false} FileCandidatesExact(p: Path, lines: seq<string>, terms: seq<string>, c: Candidate)
    ensures c in FileCandidates(p, lines, terms) <==>
      c.path == p && c.line < |lines| && c.matches == MatchCount(terms, Lower(lines[c.line])) && c.matches > 0
    decreases |lines|
  {
    if lines != [] {
      var n := |lines| - 1;
      FileCandidatesExact(p, lines[..n], terms, c);
      if c.line < n {
        assert lines[..n][c.line] == lines[c.line];
      }
    }
  }

  /**
   * A candidate is exactly a line, of an indexable and readable file of the
   * walk, that matches at least one query term; its score is that line's
   * match count.
   */
  lemma {:induction false} WalkCandidatesExact(walk: seq<Path>, fs: FileSystem, exts: seq<string>, terms: seq<string>, c: Candidate)
    ensures c in WalkCandidates(walk, fs, exts, terms) <==>
      && c.path in walk && Indexed(fs, exts, c.path)
      && c.line < |Lines(fs.files[c.path])|
      && c.matches == MatchCount(terms, Lower(Lines(fs.files[c.path])[c.line]))
      && c.matches > 0
    decreases |walk|
  {
    if walk != [] {
      var n := |walk| - 1;
      var pre, q := walk[..n], walk[n];
      WalkCandidatesExact(pre, fs, exts, terms, c);
      if Indexed(fs, exts, q) {
        FileCandidatesExact(q, Lines(fs.files[q]), terms, c);
      }
      if c.path == q {
        assert c.path in walk;
      } else {
        assert c.path in walk <==> c.path in pre;
      }
    }
  }

  /** With every kept candidate resolvable, the results loop skips nothing. */
  lemma {:induction false} FinishResolved(fs: FileSystem, top: seq<Candidate>, termCount: nat)
    requires forall k :: 0 <= k < |top| ==> Resolves(fs, top[k])
    ensures |Finish(fs, top, termCount)| == |top|
    ensures forall k :: 0 <= k < |top| ==> Finish(fs, top, termCount)[k] == ResultFor(fs, top[k], termCount)
    decreases |top|
  {
    if top != [] {
      var n := |top| - 1;
      var pre := top[..n];
      assert forall k :: 0 <= k < n ==> pre[k] == top[k];
      FinishResolved(fs, pre, termCount);
      FinishStep(fs, top, termCount);
      RereadResolved(fs, top[n], termCount);
      var f := Finish(fs, top, termCount);
      forall k | 0 <= k < |top| ensures f[k] == ResultFor(fs, top[k], termCount) {
        if k < n {
          assert f[k] == Finish(fs, pre, termCount)[k];
        }
      }
    }
  }

  /** One step of the results loop. */
  lemma FinishStep(fs: FileSystem, top: seq<Candidate>, termCount: nat)
    requires top != []
    ensures Finish(fs, top, termCount)
         == Finish(fs, top[..|top| - 1], termCount) + Reread(fs, top[|top| - 1], termCount)
  {
  }

  /** Re-reading a candidate that resolves yields its result. */
  lemma RereadResolved(fs: FileSystem, c: Candidate, termCount: nat)
    requires Resolves(fs, c)
    ensures Reread(fs, c, termCount) == [ResultFor(fs, c, termCount)]
  {
  }

  /** Over a static corpus every kept candidate resolves: its file and line are still there. */
  lemma TopResolves(fs: FileSystem, exts: seq<string>, query: string, limit: nat)
    ensures forall c :: c in TopCandidates(fs, exts, query, limit) ==>
      (Resolves(fs, c) && c in Candidates(fs, exts, query))
  {
    var cands := Candidates(fs, exts, query);
    var top := TopCandidates(fs, exts, query, limit);
    forall c | c in top ensures Resolves(fs, c) && c in cands {
      assert c in SortDesc(cands);
      assert c in multiset(SortDesc(cands));
      assert c in multiset(cands);
      WalkCandidatesExact(fs.walk, fs, exts, QueryTerms(query), c);
    }
  }

  /**
   * Result `k` is built from kept candidate `k`: the results are exactly the
   * best `min(limit, #candidates)` candidates, none dropped by the second read.
   */
  lemma ScoredSearchIsTop(fs: FileSystem, exts: seq<string>, query: string, limit: nat)
    ensures var top := TopCandidates(fs, exts, query, limit);
      var r := ScoredSearch(fs, exts, query, limit);
      && |r| == |top| == Min(limit, |Candidates(fs, exts, query)|)
      && forall k :: 0 <= k < |r| ==>
           r[k].path == top[k].path && r[k].lineNumber == top[k].line && r[k].matches == top[k].matches
  {
    TopResolves(fs, exts, query, limit);
    var top := TopCandidates(fs, exts, query, limit);
    assert forall k :: 0 <= k < |top| ==> top[k] in top;
    FinishResolved(fs, top, |QueryTerms(query)|);
    assert |multiset(SortDesc(Candidates(fs, exts, query)))| == |multiset(Candidates(fs, exts, query))|;
  }

  /** Scores never increase along the results. */
  lemma ScoredSearchSorted(fs: FileSystem, exts: seq<string>, query: string, limit: nat)
    ensures var r := ScoredSearch(fs, exts, query, limit);
      forall i, j :: 0 <= i <= j < |r| ==> r[i].matches >= r[j].matches
  {
    ScoredSearchIsTop(fs, exts, query, limit);
    var sorted := SortDesc(Candidates(fs, exts, query));
    var top := TopCandidates(fs, exts, query, limit);
    assert forall k :: 0 <= k < |top| ==> top[k] == sorted[k];
  }

  /**
   * Each result comes from an indexable, readable file of the walk whose
   * extension is its `fileType` (so never the "unknown" fallback); its line
   * exists and matches between one and all query terms, so its relevance
   * lies in (0, 1]; its snippet is the clamped window around that line and
   * shows the line in full.
   */
  lemma ScoredSearchSound(fs: FileSystem, exts: seq<string>, query: string, limit: nat, k: nat)
    requires k < |ScoredSearch(fs, exts, query, limit)|
    ensures var r := ScoredSearch(fs, exts, query, limit)[k];
      && r.path in fs.walk && IsIndexableFile(exts, r.path) && r.path in fs.files
      && r.path.ext == Some(r.fileType) && r.fileType in exts
      && r.lineNumber < |Lines(fs.files[r.path])|
      && r.termCount == |QueryTerms(query)|
      && r.matches == MatchCount(QueryTerms(query), Lower(Lines(fs.files[r.path])[r.lineNumber]))
      && 0 < r.matches <= r.termCount
      && 0.0 < Relevance(r.matches, r.termCount) <= 1.0
      && r.snippet == ContextSnippet(Lines(fs.files[r.path]), r.lineNumber)
      && Contains(r.snippet, Lines(fs.files[r.path])[r.lineNumber])
  {
    var top := TopCandidates(fs, exts, query, limit);
    TopResolves(fs, exts, query, limit);
    assert forall k :: 0 <= k < |top| ==> top[k] in top;
    FinishResolved(fs, top, |QueryTerms(query)|);
    var c := top[k];
    assert c in top;
    WalkCandidatesExact(fs.walk, fs, exts, QueryTerms(query), c);
    var r := ScoredSearch(fs, exts, query, limit)[k];
    assert r == ResultFor(fs, c, |QueryTerms(query)|);
    RelevanceBounds(r.matches, r.termCount);
  }

  /** The candidates of score `m` among a prefix are a prefix of those of the whole. */
  lemma {:induction false} BucketOfPrefix(s: seq<Candidate>, n: nat, m: nat)
    requires n <= |s|
    ensures Bucket(s[..n], m) <= Bucket(s, m)
  {
    BucketConcat(s[..n], s[n..], m);
    assert s[..n] + s[n..] == s;
  }

  /**
   * Ties keep walk order: for every score, the kept candidates of that score
   * are the first ones of that score in walk and line order.
   */
  lemma ScoredSearchStable(fs: FileSystem, exts: seq<string>, query: string, limit: nat, m: nat)
    ensures Bucket(TopCandidates(fs, exts, query, limit), m) <= Bucket(Candidates(fs, exts, query), m)
  {
    var sorted := SortDesc(Candidates(fs, exts, query));
    BucketOfPrefix(sorted, |TopCandidates(fs, exts, query, limit)|, m);
    SortDescStable(Candidates(fs, exts, query), m);
  }

  /** A candidate left out of the results scores no higher than any result. */
  lemma ScoredSearchKeepsBest(fs: FileSystem, exts: seq<string>, query: string, limit: nat, c: Candidate)
    requires c in Candidates(fs, exts, query)
    requires c !in TopCandidates(fs, exts, query, limit)
    ensures forall r :: r in ScoredSearch(fs, exts, query, limit) ==> c.matches <= r.matches
  {
    ScoredSearchIsTop(fs, exts, query, limit);
    TopAreBest(Candidates(fs, exts, query), limit, c);
  }

  lemma {:induction false} NoMatchNoFileCandidates(p: Path, lines: seq<string>, terms: seq<string>)
    requires forall line :: line in lines ==> MatchCount(terms, Lower(line)) == 0
    ensures FileCandidates(p, lines, terms) == []
    decreases |lines|
  {
    if lines != [] {
      var n := |lines| - 1;
      assert lines[n] in lines;
      assert forall line :: line in lines[..n] ==> line in lines;
      NoMatchNoFileCandidates(p, lines[..n], terms);
    }
  }

  lemma {:induction false} NoMatchNoCandidates(walk: seq<Path>, fs: FileSystem, exts: seq<string>, terms: seq<string>)
    requires forall line :: MatchCount(terms, Lower(line)) == 0
    ensures WalkCandidates(walk, fs, exts, terms) == []
    decreases |walk|
  {
    if walk != [] {
      var n := |walk| - 1;
      NoMatchNoCandidates(walk[..n], fs, exts, terms);
      if Indexed(fs, exts, walk[n]) {
        NoMatchNoFileCandidates(walk[n], Lines(fs.files[walk[n]]), terms);
      }
    }
  }

  /** A query none of whose words is longer than two characters finds nothing (and fails no way). */
  lemma ShortQueryFindsNothing(fs: FileSystem, exts: seq<string>, query: string, limit: nat)
    requires QueryTerms(query) == []
    ensures ScoredSearch(fs, exts, query, limit) == []
  {
    NoMatchNoCandidates(fs.walk, fs, exts, QueryTerms(query));
  }

  /**
   * Query terms are not lower-cased, so a query whose every term has a
   * capital letter finds nothing, although the line is lower-cased.
   */
  lemma CapitalisedQueryFindsNothing(fs: FileSystem, exts: seq<string>, query: string, limit: nat)
    requires forall t :: t in QueryTerms(query) ==> exists j :: 0 <= j < |t| && IsUpper(t[j])
    ensures ScoredSearch(fs, exts, query, limit) == []
  {
    forall line ensures MatchCount(QueryTerms(query), Lower(line)) == 0 {
      CapitalisedTermsNeverMatch(QueryTerms(query), line);
    }
    NoMatchNoCandidates(fs.walk, fs, exts, QueryTerms(query));
  }
}
