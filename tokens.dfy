/**
 * The two tokenizers of the document index: index terms of a line
 * (`extract_terms`) and query terms (`search_with_scoring`), and the
 * per-line term match count behind `calculate_relevance`.
 */
module Tokens {
  import opened Text

  /** Length filter shared by both tokenizers: only pieces longer than two characters. */
  function KeepLong(ws: seq<string>): (r: seq<string>)
    ensures forall w :: w in r <==> w in ws && |w| > 2
  {
    if ws == [] then [] else (if |ws[0]| > 2 then [ws[0]] else []) + KeepLong(ws[1..])
  }

  /** The filter keeps each piece longer than two characters as often as it occurs. */
  lemma {:induction false} KeepLongCounts(ws: seq<string>)
    ensures forall w :: multiset(KeepLong(ws))[w] == if |w| > 2 then multiset(ws)[w] else 0
  {
    if ws != [] {
      KeepLongCounts(ws[1..]);
      assert ws == [ws[0]] + ws[1..];
    }
  }

  /** The words `extract_terms` keeps: pieces between non-word characters, longer than two. */
  function Words(line: string): seq<string> {
    KeepLong(Split(line, IsWordSeparator))
  }

  /** A well-formed index term: longer than two, word characters only, no upper case. */
  ghost predicate IsTerm(t: string) {
    |t| > 2 && forall i :: 0 <= i < |t| ==> IsWordChar(t[i]) && !IsUpper(t[i])
  }

  lemma WordsAreWordChars(line: string)
    ensures forall w :: w in Words(line) ==> forall j :: 0 <= j < |w| ==> IsWordChar(w[j])
  {
    forall w | w in Words(line) ensures forall j :: 0 <= j < |w| ==> IsWordChar(w[j]) {
      PieceAvoidsSeparator(line, IsWordSeparator, w);
    }
  }

  /** The terms of one line, as a set: each lower-cased word once. */
  function Terms(line: string): (ts: set<string>)
    ensures forall t :: t in ts ==> IsTerm(t)
  {
    WordsAreWordChars(line);
    set w | w in Words(line) :: Lower(w)
  }

  /**
   * Every term of a line is the lower-cased form of a maximal run `line[a..b]`
   * of word characters longer than two.
   */
  lemma TermOrigin(line: string, t: string) returns (a: int, b: int)
    requires t in Terms(line)
    ensures IsPiece(line, IsWordSeparator, a, b) && b - a > 2 && Lower(line[a..b]) == t
  {
    var w :| w in Words(line) && Lower(w) == t;
    a, b := SplitPieceOf(line, IsWordSeparator, w);
  }

  /** Conversely, the lower-cased form of every such run is a term of the line. */
  lemma TermOfRun(line: string, a: int, b: int)
    requires IsPiece(line, IsWordSeparator, a, b) && b - a > 2
    ensures Lower(line[a..b]) in Terms(line)
  {
    SplitPieceComplete(line, IsWordSeparator, a, b);
    assert line[a..b] in Words(line);
  }

  /**
   * The query terms of `search_with_scoring`: whitespace-separated words
   * longer than two characters, in query order and with repeats, NOT
   * lower-cased. Each piece of the query between whitespace that is longer
   * than two characters is a term exactly as often as it occurs, so repeats
   * count in the score's denominator.
   */
  function QueryTerms(query: string): (ts: seq<string>)
    ensures forall t :: t in ts ==> |t| > 2 && forall j :: 0 <= j < |t| ==> !IsWhitespace(t[j])
    ensures forall t :: t in ts ==> t in Split(query, IsWhitespace)
    ensures forall w :: multiset(ts)[w] == if |w| > 2 then multiset(Split(query, IsWhitespace))[w] else 0
  {
    var ts := KeepLong(SplitWhitespace(query));
    KeepLongCounts(SplitWhitespace(query));
    NonEmptyCounts(Split(query, IsWhitespace));
    assert forall t :: t in ts ==> t in Split(query, IsWhitespace);
    forall t | t in ts ensures forall j :: 0 <= j < |t| ==> !IsWhitespace(t[j]) {
      PieceAvoidsSeparator(query, IsWhitespace, t);
    }
    ts
  }

  /**
   * Every query term is a stretch `query[a..b]` between whitespace, longer
   * than two characters, taken as written: no case is changed.
   */
  lemma QueryTermOrigin(query: string, t: string) returns (a: int, b: int)
    requires t in QueryTerms(query)
    ensures IsPiece(query, IsWhitespace, a, b) && b - a > 2 && query[a..b] == t
  {
    a, b := SplitPieceOf(query, IsWhitespace, t);
  }

  /** Conversely, every stretch between whitespace longer than two characters is a query term. */
  lemma QueryTermOfWord(query: string, a: int, b: int)
    requires IsPiece(query, IsWhitespace, a, b) && b - a > 2
    ensures query[a..b] in QueryTerms(query)
  {
    SplitPieceComplete(query, IsWhitespace, a, b);
    assert query[a..b] in SplitWhitespace(query);
  }

  /**
   * The number of query terms (counted with repeats) that occur in the
   * lower-cased line: the numerator of `calculate_relevance`.
   */
  function MatchCount(terms: seq<string>, lineLower: string): (m: nat)
    ensures m <= |terms|
    ensures m == 0 <==> forall t :: t in terms ==> !Contains(lineLower, t)
  {
    if terms == [] then 0
    else
      var rest := terms[..|terms| - 1];
      assert forall t :: t in terms <==> t in rest || t == terms[|terms| - 1];
      MatchCount(rest, lineLower) + (if Contains(lineLower, terms[|terms| - 1]) then 1 else 0)
  }

  /**
   * Query terms are compared against the lower-cased line without being
   * lower-cased themselves, so a line can match only query terms written
   * without capitals.
   */
  lemma {:induction false} CapitalisedTermsNeverMatch(terms: seq<string>, line: string)
    requires forall t :: t in terms ==> exists j :: 0 <= j < |t| && IsUpper(t[j])
    ensures MatchCount(terms, Lower(line)) == 0
  {
    forall t | t in terms ensures !Contains(Lower(line), t) {
      var j :| 0 <= j < |t| && IsUpper(t[j]);
      UpperNeverInLower(line, t, j);
    }
  }
}
