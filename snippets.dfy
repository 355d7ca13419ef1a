/**
 * The two snippet shapes of the engine: the line window of
 * `search_with_scoring` (six lines before and after the match, clamped to the
 * file) and the character window of `extract_snippet`.
 */
module Snippets {
  import opened Wrappers
  import opened Text

  /** Lines shown before and after the matching line. */
  const ContextLines: nat := 6

  /** The `max_len` that `search_relevant_code` passes to `extract_snippet`. */
  const SnippetMaxLen: nat := 1024

  /** Appended when a snippet stops before the end of the content. */
  const TruncationMarker: string := "\n..."

  /** `line_idx.saturating_sub(6)`. */
  function ContextStart(i: nat): nat {
    if i >= ContextLines then i - ContextLines else 0
  }

  /** `min(line_idx + 7, lines.len())`. */
  function ContextEnd(i: nat, n: nat): nat {
    Min(i + ContextLines + 1, n)
  }

  /**
   * The window holds the matching line, never leaves the file, has at most
   * 13 lines, and is as large as the file allows: up to six lines on each side.
   */
  lemma ContextWindowBounds(i: nat, n: nat)
    requires i < n
    ensures ContextStart(i) <= i < ContextEnd(i, n) <= n
    ensures ContextEnd(i, n) - ContextStart(i) <= 2 * ContextLines + 1
    ensures ContextEnd(i, n) - ContextStart(i) == Min(i, ContextLines) + 1 + Min(n - 1 - i, ContextLines)
  {
  }

  /**
   * The snippet of a scored result: the window's lines joined with `"\n"`.
   * It shows the matching line, and every other line of the window, in full.
   */
  function ContextSnippet(lines: seq<string>, i: nat): (s: string)
    requires i < |lines|
    ensures Contains(s, lines[i])
    ensures forall k :: ContextStart(i) <= k < ContextEnd(i, |lines|) ==> Contains(s, lines[k])
  {
    WindowShowsLines(lines, ContextStart(i), ContextEnd(i, |lines|));
    JoinLines(lines[ContextStart(i)..ContextEnd(i, |lines|)])
  }

  /** Joining the lines `lo` to `hi` keeps each of them whole. */
  lemma WindowShowsLines(lines: seq<string>, lo: nat, hi: nat)
    requires lo <= hi <= |lines|
    ensures forall k :: lo <= k < hi ==> Contains(JoinLines(lines[lo..hi]), lines[k])
  {
    var window := lines[lo..hi];
    forall k | lo <= k < hi ensures Contains(JoinLines(window), lines[k]) {
      assert window[k - lo] == lines[k];
      JoinContainsLine(window, k - lo);
      ContainsAt(JoinLines(window), lines[k], JoinOffset(window, k - lo));
    }
  }

  /** Where the character window of `extract_snippet` starts for a match at `idx`. */
  function WindowStart(idx: nat, maxLen: nat): nat {
    if idx >= maxLen / 4 then idx - maxLen / 4 else 0
  }

  /**
   * `extract_snippet`: around the first case-insensitive match of `q` (which
   * the caller passes lower-cased) a window of `maxLen` characters starting a
   * quarter of `maxLen` before the match; with no match, the first `maxLen`
   * characters. A marker follows when the window stops before the end; none
   * precedes it when it starts after the beginning.
   */
  function ExtractSnippet(content: string, q: string, maxLen: nat): (s: string)
    ensures |s| <= maxLen + |TruncationMarker|
  {
    match Find(Lower(content), q)
    case Some(idx) =>
      var start := WindowStart(idx, maxLen);
      var end := Min(start + maxLen, |content|);
      content[start..end] + (if end < |content| then TruncationMarker else "")
    case None =>
      if |content| <= maxLen then content else content[..maxLen] + TruncationMarker
  }

  /**
   * With a match at `idx` the snippet is the window `content[start..end]`, at
   * most `maxLen` long, starting a quarter of `maxLen` before the match
   * (clamped at the beginning), followed by the
   * marker exactly when it ends before the content does.
   */
  lemma SnippetAroundMatch(content: string, q: string, maxLen: nat, idx: nat) returns (start: nat, end: nat)
    requires Find(Lower(content), q) == Some(idx)
    ensures start <= idx <= end <= |content| && end - start <= maxLen
    ensures idx - start == Min(idx, maxLen / 4)
    ensures end == |content| || end - start == maxLen
    ensures ExtractSnippet(content, q, maxLen)
         == content[start..end] + (if end < |content| then TruncationMarker else "")
  {
    start := WindowStart(idx, maxLen);
    end := Min(start + maxLen, |content|);
  }

  /**
   * A query no longer than three quarters of `maxLen` is shown whole in the
   * snippet: the window covers the whole first match.
   */
  lemma SnippetShowsMatch(content: string, q: string, maxLen: nat, idx: nat)
    requires Find(Lower(content), q) == Some(idx)
    requires |q| <= maxLen - maxLen / 4
    ensures MatchAt(Lower(ExtractSnippet(content, q, maxLen)), q, idx - WindowStart(idx, maxLen))
  {
    var start, end := SnippetAroundMatch(content, q, maxLen, idx);
    var s := ExtractSnippet(content, q, maxLen);
    var lc := Lower(content);
    assert MatchAt(lc, q, idx);
    assert idx + |q| <= end;
    MatchInWindow(content, q, start, end, idx, s);
  }

  lemma MatchInWindow(content: string, q: string, start: nat, end: nat, idx: nat, s: string)
    requires start <= idx && idx + |q| <= end <= |content|
    requires MatchAt(Lower(content), q, idx)
    requires |s| >= end - start && s[..end - start] == content[start..end]
    ensures MatchAt(Lower(s), q, idx - start)
  {
    var o := idx - start;
    forall j | 0 <= j < |q| ensures Lower(s)[o + j] == q[j] {
      assert s[o + j] == s[..end - start][o + j] == content[idx + j];
      assert Lower(content)[idx..idx + |q|][j] == q[j];
    }
    assert Lower(s)[o..o + |q|] == q;
  }

  /**
   * Both branches of `extract_snippet` cut one window `content[start..end]`
   * of at most `maxLen` characters, which reaches either the end of the
   * content or its full length, and add the marker exactly when characters
   * are left out after it. With a match the window starts at most a quarter
   * of `maxLen` before it; without one, at the beginning.
   */
  lemma SnippetWindow(content: string, q: string, maxLen: nat) returns (start: nat, end: nat)
    ensures start <= end <= |content| && end - start <= maxLen
    ensures end == |content| || end - start == maxLen
    ensures ExtractSnippet(content, q, maxLen)
         == content[start..end] + (if end < |content| then TruncationMarker else "")
    ensures Find(Lower(content), q).None? ==> start == 0
    ensures Find(Lower(content), q).Some? ==>
              var idx := Find(Lower(content), q).value;
              start <= idx <= end && idx - start == Min(idx, maxLen / 4)
  {
    match Find(Lower(content), q)
    case Some(idx) =>
      start, end := SnippetAroundMatch(content, q, maxLen, idx);
    case None =>
      start, end := 0, Min(maxLen, |content|);
      if |content| <= maxLen {
        assert content[start..end] == content;
      }
  }
}
