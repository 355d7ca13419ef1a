/**
 * The document index itself: the state the engine keeps (supported
 * extensions, inverted term index, `indexed` flag) and its operations, each
 * proved against the functions of the other modules that say what it computes.
 *
 * The corpus root is kept as given but not used: the walk of the corpus and
 * the file contents arrive as a `FileSystem` value.
 */
module Engine {
  import opened Wrappers
  import opened Text
  import opened Tokens
  import opened Corpus
  import opened Ranking
  import opened Snippets
  import opened Postings
  import opened Search

  class DocumentIndex {
    var corpusRoot: string
    var supportedExtensions: seq<string>
    var termIndex: TermIndex
    var indexed: bool

    /** The term index holds only well-formed terms, each with at least one posting. */
    ghost predicate Valid()
      reads this
    {
      IndexValid(termIndex)
    }

    /** `new`: an empty, not yet built index. */
    constructor (corpusRoot: string, extensions: seq<string>)
      ensures Valid()
      ensures this.corpusRoot == corpusRoot && supportedExtensions == extensions
      ensures termIndex == map[] && !indexed
    {
      this.corpusRoot := corpusRoot;
      supportedExtensions := extensions;
      termIndex := map[];
      indexed := false;
    }

    /**
     * `build_index`. Once built, it returns the number of distinct terms and
     * changes nothing. Otherwise it scans the walk, appends the postings of
     * every indexable, readable file in walk order, returns the number of such
     * files and marks the index built.
     */
    method BuildIndex(fs: FileSystem) returns (count: nat)
      requires Valid()
      modifies this
      ensures Valid() && indexed
      ensures corpusRoot == old(corpusRoot) && supportedExtensions == old(supportedExtensions)
      ensures old(indexed) ==> termIndex == old(termIndex) && count == |old(termIndex)|
      ensures !old(indexed) ==>
        && termIndex == IndexWalk(old(termIndex), fs.walk, fs, supportedExtensions)
        && count == IndexedCount(fs.walk, fs, supportedExtensions)
        && forall t :: PostingsOf(termIndex, t)
             == PostingsOf(old(termIndex), t) + WalkOccurrences(t, fs.walk, fs, supportedExtensions)
    {
      if indexed {
        return |termIndex|;
      }
      ghost var start := termIndex;
      count := 0;
      var w := 0;
      while w < |fs.walk|
        invariant w <= |fs.walk|
        invariant termIndex == IndexWalk(start, fs.walk[..w], fs, supportedExtensions)
        invariant count == IndexedCount(fs.walk[..w], fs, supportedExtensions)
        invariant corpusRoot == old(corpusRoot) && supportedExtensions == old(supportedExtensions)
      {
        var p := fs.walk[w];
        assert fs.walk[..w + 1][..w] == fs.walk[..w];
        if IsIndexableFile(supportedExtensions, p) {
          match ReadToString(fs, p) {
            case Some(content) =>
              termIndex := IndexFile(termIndex, p, content);
              count := count + 1;
            case None =>
          }
        }
        w := w + 1;
      }
      assert fs.walk[..w] == fs.walk;
      indexed := true;
      IndexWalkValid(start, fs.walk, fs, supportedExtensions);
      forall t ensures PostingsOf(termIndex, t) == PostingsOf(start, t) + WalkOccurrences(t, fs.walk, fs, supportedExtensions) {
        IndexWalkPostings(start, fs.walk, fs, supportedExtensions, t);
      }
    }

    /** `index_file`: for every line, push `(p, line number)` onto the list of each of its terms. */
    static method IndexFile(termIndex: TermIndex, p: Path, content: string) returns (idx: TermIndex)
      ensures idx == AddFile(termIndex, p, Lines(content))
    {
      var lines := Lines(content);
      idx := termIndex;
      var i := 0;
      while i < |lines|
        invariant i <= |lines|
        invariant idx == AddFile(termIndex, p, lines[..i])
      {
        AddFileStep(termIndex, p, lines, i);
        var terms := ExtractTerms(lines[i]);
        idx := IndexLine(idx, p, i, terms);
        i := i + 1;
      }
      assert lines[..i] == lines;
    }

    /** The inner loop of `index_file`: one push per term of line `i`, in any order. */
    static method IndexLine(termIndex: TermIndex, p: Path, i: nat, terms: set<string>) returns (idx: TermIndex)
      ensures idx == AddLine(termIndex, p, i, terms)
    {
      idx := termIndex;
      AddLineEmpty(termIndex, p, i);
      var rest := terms;
      ghost var done: set<string> := {};
      while rest != {}
        invariant rest <= terms && done == terms - rest
        invariant idx == AddLine(termIndex, p, i, done)
        decreases rest
      {
        var t :| t in rest;
        AddLineInsert(termIndex, p, i, done, t, idx);
        idx := idx[t := PostingsOf(idx, t) + [Posting(p, i)]];
        done := done + {t};
        rest := rest - {t};
      }
    }

    /** `extract_terms`: the lower-cased words of the line longer than two, as a set. */
    static method ExtractTerms(line: string) returns (terms: set<string>)
      ensures terms == Terms(line)
      ensures forall t :: t in terms ==> IsTerm(t)
    {
      var words := Words(line);
      terms := {};
      var i := 0;
      while i < |words|
        invariant i <= |words|
        invariant terms == set w | w in words[..i] :: Lower(w)
      {
        assert forall w :: w in words[..i + 1] <==> w in words[..i] || w == words[i];
        terms := terms + {Lower(words[i])};
        i := i + 1;
      }
      assert words[..i] == words;
    }

    /**
     * `calculate_relevance`: the number of query terms the lower-cased line
     * contains and the score `matches / |terms|`, which is positive exactly
     * when some term matches.
     */
    static method CalculateRelevance(terms: seq<string>, line: string) returns (matches: nat, score: real)
      ensures matches == MatchCount(terms, Lower(line))
      ensures matches <= |terms| && score == Relevance(matches, |terms|)
      ensures score > 0.0 <==> matches > 0
    {
      matches := CountMatches(terms, Lower(line));
      if matches == 0 {
        return matches, 0.0;
      }
      score := (matches as real) / (|terms| as real);
      RelevanceBounds(matches, |terms|);
    }

    /** The loop of `calculate_relevance`: count the terms the lower-cased line contains. */
    static method CountMatches(terms: seq<string>, lineLower: string) returns (matches: nat)
      ensures matches == MatchCount(terms, lineLower)
    {
      matches := 0;
      var i := 0;
      while i < |terms|
        invariant i <= |terms|
        invariant matches == MatchCount(terms[..i], lineLower)
      {
        MatchCountStep(terms, lineLower, i);
        if Contains(lineLower, terms[i]) {
          matches := matches + 1;
        }
        i := i + 1;
      }
      assert terms[..i] == terms;
    }

    /**
     * `search_relevant_code`: the snippets of the first hits in walk order,
     * stopping as soon as a push reaches the limit. The ghost `inspected` is
     * the number of walk entries looked at: the files before the last one it
     * looked at hold fewer hits than the cap, so no file after the one that
     * reaches the cap is looked at.
     */
    method SearchRelevantCode(fs: FileSystem, query: string, limit: nat)
      returns (results: seq<CodeSnippet>, ghost inspected: nat)
      ensures results == RelevantCode(fs, supportedExtensions, query, limit)
      ensures inspected <= |fs.walk|
      ensures results == Hits(fs.walk[..inspected], fs, supportedExtensions, Lower(query))
      ensures inspected < |fs.walk| ==> |results| == ResultCap(limit)
      ensures inspected < |fs.walk| ==> 0 < inspected
      ensures 0 < inspected ==>
                |Hits(fs.walk[..inspected - 1], fs, supportedExtensions, Lower(query))| < ResultCap(limit)
    {
      var queryLower := Lower(query);
      results := [];
      var w := 0;
      while w < |fs.walk|
        invariant w <= |fs.walk|
        invariant results == Hits(fs.walk[..w], fs, supportedExtensions, queryLower)
        invariant |results| < ResultCap(limit)
      {
        ghost var grown := Hits(fs.walk[..w + 1], fs, supportedExtensions, queryLower);
        HitsStep(fs.walk, fs, supportedExtensions, queryLower, w);
        var hit := InspectFile(fs, supportedExtensions, queryLower, fs.walk[w]);
        assert grown == results + hit;
        if hit != [] {
          ghost var before := results;
          results := results + hit;
          if |results| >= limit {
            inspected := w + 1;
            assert fs.walk[..inspected - 1] == fs.walk[..w];
            CapCount(fs, supportedExtensions, queryLower, limit, inspected);
            CapReached(fs, supportedExtensions, query, limit, inspected);
            return;
          }
        }
        w := w + 1;
      }
      inspected := w;
      CapNotReached(fs, supportedExtensions, query, limit, w);
    }

    /**
     * One round of the loop of `search_relevant_code`: skip the file unless it
     * is indexable and readable; if its lower-cased text contains the query,
     * its snippet.
     */
    static method InspectFile(fs: FileSystem, exts: seq<string>, queryLower: string, p: Path)
      returns (hit: seq<CodeSnippet>)
      ensures hit == FileHit(fs, exts, queryLower, p)
    {
      hit := [];
      if IsIndexableFile(exts, p) {
        match ReadToString(fs, p) {
          case Some(content) =>
            if Contains(Lower(content), queryLower) {
              var snippet := ExtractSnippet(content, queryLower, SnippetMaxLen);
              hit := [CodeSnippet(p, snippet)];
            }
          case None =>
        }
      }
    }

    /**
     * `search_with_scoring`: score every line of every indexable, readable
     * file, sort the candidates by descending score keeping ties in walk and
     * line order, keep the first `limit` and build their results.
     */
    method SearchWithScoring(fs: FileSystem, query: string, limit: nat) returns (results: seq<SearchResult>)
      ensures results == ScoredSearch(fs, supportedExtensions, query, limit)
      ensures |results| == Min(limit, |Candidates(fs, supportedExtensions, query)|)
      ensures forall i, j :: 0 <= i <= j < |results| ==> results[i].matches >= results[j].matches
    {
      var terms := QueryTerms(query);
      var candidates := CollectCandidates(fs, supportedExtensions, terms);
      var top := Take(SortDesc(candidates), limit);
      results := BuildResults(fs, top, |terms|);
      ScoredSearchIsTop(fs, supportedExtensions, query, limit);
      ScoredSearchSorted(fs, supportedExtensions, query, limit);
    }

    /** The scan of `search_with_scoring`: every scoring line of every indexable, readable file. */
    static method CollectCandidates(fs: FileSystem, exts: seq<string>, terms: seq<string>)
      returns (candidates: seq<Candidate>)
      ensures candidates == WalkCandidates(fs.walk, fs, exts, terms)
    {
      candidates := [];
      var w := 0;
      while w < |fs.walk|
        invariant w <= |fs.walk|
        invariant candidates == WalkCandidates(fs.walk[..w], fs, exts, terms)
      {
        var p := fs.walk[w];
        WalkCandidatesStep(fs.walk, fs, exts, terms, w);
        if IsIndexableFile(exts, p) {
          match ReadToString(fs, p) {
            case Some(content) =>
              var more := ScoreLines(p, Lines(content), terms);
              candidates := candidates + more;
            case None =>
          }
        }
        w := w + 1;
      }
      assert fs.walk[..w] == fs.walk;
    }

    /** The line loop of `search_with_scoring` over one file. */
    static method ScoreLines(p: Path, lines: seq<string>, terms: seq<string>) returns (candidates: seq<Candidate>)
      ensures candidates == FileCandidates(p, lines, terms)
    {
      candidates := [];
      var i := 0;
      while i < |lines|
        invariant i <= |lines|
        invariant candidates == FileCandidates(p, lines[..i], terms)
      {
        FileCandidatesStep(p, lines, terms, i);
        var matches, score := CalculateRelevance(terms, lines[i]);
        if score > 0.0 {
          candidates := candidates + [Candidate(p, i, matches)];
        }
        i := i + 1;
      }
      assert lines[..i] == lines;
    }

    /** The results loop of `search_with_scoring`: re-read each kept candidate and build its result. */
    static method BuildResults(fs: FileSystem, top: seq<Candidate>, termCount: nat) returns (results: seq<SearchResult>)
      ensures results == Finish(fs, top, termCount)
    {
      results := [];
      var k := 0;
      while k < |top|
        invariant k <= |top|
        invariant results == Finish(fs, top[..k], termCount)
      {
        FinishStep(fs, top[..k + 1], termCount);
        assert top[..k + 1][..k] == top[..k];
        var found := Reresolve(fs, top[k], termCount);
        results := results + found;
        k := k + 1;
      }
      assert top[..k] == top;
    }

    /**
     * One round of the results loop: read the candidate's file again and, if
     * its line is still there, build the result with the clamped context
     * window; otherwise nothing.
     */
    static method Reresolve(fs: FileSystem, c: Candidate, termCount: nat) returns (found: seq<SearchResult>)
      ensures found == Reread(fs, c, termCount)
    {
      found := [];
      match ReadToString(fs, c.path) {
        case Some(content) =>
          var lines := Lines(content);
          if c.line < |lines| {
            var snippet := JoinLines(lines[ContextStart(c.line)..ContextEnd(c.line, |lines|)]);
            found := [SearchResult(c.path, c.line, snippet, c.matches, termCount,
                                   c.path.ext.GetOr(UnknownFileType))];
          }
        case None =>
      }
    }

    /** `refresh`: does nothing and succeeds. */
    method Refresh() returns (ok: bool)
      ensures ok
    {
      ok := true;
    }

    /**
     * `update_extensions`: replaces the extension list and marks the index
     * unbuilt, keeping the postings, so the next build appends to them.
     */
    method UpdateExtensions(extensions: seq<string>)
      requires Valid()
      modifies this
      ensures Valid()
      ensures supportedExtensions == extensions && !indexed
      ensures termIndex == old(termIndex) && corpusRoot == old(corpusRoot)
    {
      supportedExtensions := extensions;
      indexed := false;
    }
  }

  lemma AddFileStep(idx: TermIndex, p: Path, lines: seq<string>, i: nat)
    requires i < |lines|
    ensures AddFile(idx, p, lines[..i + 1]) == AddLine(AddFile(idx, p, lines[..i]), p, i, Terms(lines[i]))
  {
    assert lines[..i + 1][..i] == lines[..i];
  }

  lemma WalkCandidatesStep(walk: seq<Path>, fs: FileSystem, exts: seq<string>, terms: seq<string>, w: nat)
    requires w < |walk|
    ensures WalkCandidates(walk[..w + 1], fs, exts, terms) == WalkCandidates(walk[..w], fs, exts, terms)
      + (if Indexed(fs, exts, walk[w]) then FileCandidates(walk[w], Lines(fs.files[walk[w]]), terms) else [])
  {
    assert walk[..w + 1][..w] == walk[..w];
  }

  lemma FileCandidatesStep(p: Path, lines: seq<string>, terms: seq<string>, i: nat)
    requires i < |lines|
    ensures FileCandidates(p, lines[..i + 1], terms) == FileCandidates(p, lines[..i], terms)
      + (if MatchCount(terms, Lower(lines[i])) > 0 then [Candidate(p, i, MatchCount(terms, Lower(lines[i])))] else [])
  {
    assert lines[..i + 1][..i] == lines[..i];
  }

  lemma MatchCountStep(terms: seq<string>, lineLower: string, i: nat)
    requires i < |terms|
    ensures MatchCount(terms[..i + 1], lineLower)
         == MatchCount(terms[..i], lineLower) + (if Contains(lineLower, terms[i]) then 1 else 0)
  {
    assert terms[..i + 1][..i] == terms[..i];
  }

  /** A scan of the whole walk that stays below the cap returns every hit. */
  lemma CapNotReached(fs: FileSystem, exts: seq<string>, query: string, limit: nat, w: nat)
    requires w == |fs.walk|
    requires |Hits(fs.walk[..w], fs, exts, Lower(query))| < ResultCap(limit)
    ensures RelevantCode(fs, exts, query, limit) == Hits(fs.walk[..w], fs, exts, Lower(query))
    ensures 0 < w ==> |Hits(fs.walk[..w - 1], fs, exts, Lower(query))| < ResultCap(limit)
  {
    assert fs.walk[..w] == fs.walk;
    if 0 < w {
      HitsStep(fs.walk, fs, exts, Lower(query), w - 1);
      assert fs.walk[..w - 1 + 1] == fs.walk[..w];
    }
  }

  /** The push of file `i - 1` that reaches `limit` brings the hits to exactly `max(limit, 1)`. */
  lemma CapCount(fs: FileSystem, exts: seq<string>, ql: string, limit: nat, i: nat)
    requires 0 < i <= |fs.walk|
    requires |Hits(fs.walk[..i - 1], fs, exts, ql)| < ResultCap(limit)
    requires |Hits(fs.walk[..i - 1], fs, exts, ql)| < |Hits(fs.walk[..i], fs, exts, ql)|
    requires |Hits(fs.walk[..i], fs, exts, ql)| >= limit
    ensures |Hits(fs.walk[..i], fs, exts, ql)| == ResultCap(limit)
  {
    var n := i - 1;
    HitsStep(fs.walk, fs, exts, ql, n);
    assert fs.walk[..n + 1] == fs.walk[..i];
  }

  /** Once a first part of the walk yields `max(limit, 1)` hits, those hits are the whole result. */
  lemma CapReached(fs: FileSystem, exts: seq<string>, query: string, limit: nat, w: nat)
    requires w <= |fs.walk|
    requires |Hits(fs.walk[..w], fs, exts, Lower(query))| == ResultCap(limit)
    ensures RelevantCode(fs, exts, query, limit) == Hits(fs.walk[..w], fs, exts, Lower(query))
  {
    HitsConcat(fs.walk[..w], fs.walk[w..], fs, exts, Lower(query));
    assert fs.walk[..w] + fs.walk[w..] == fs.walk;
  }


}
