/**
 * Character classes and string operations of the Rust standard library that
 * the document index relies on: `to_lowercase`, `is_alphanumeric`,
 * `is_whitespace`, `str::split` with a predicate, `str::lines`, `str::find`,
 * `str::contains` and `join("\n")`.
 *
 * Strings are sequences of characters. Lower-casing and the alphanumeric test
 * are those of ASCII; on ASCII text a character is one byte, so the byte
 * offsets the source computes coincide with the character offsets used here.
 */
module Text {
  import opened Wrappers

  predicate IsUpper(c: char) {
    'A' <= c <= 'Z'
  }

  predicate IsAlphanumeric(c: char) {
    'a' <= c <= 'z' || 'A' <= c <= 'Z' || '0' <= c <= '9'
  }

  /** A character that may occur inside an index term. */
  predicate IsWordChar(c: char) {
    IsAlphanumeric(c) || c == '_'
  }

  /** The separator of `extract_terms`: neither alphanumeric nor an underscore. */
  predicate IsWordSeparator(c: char) {
    !IsWordChar(c)
  }

  /** Rust's `char::is_whitespace`: the Unicode White_Space property. */
  predicate IsWhitespace(c: char) {
    var n := c as int;
    (0x09 <= n <= 0x0D) || n == 0x20 || n == 0x85 || n == 0xA0 || n == 0x1680
    || (0x2000 <= n <= 0x200A) || n == 0x2028 || n == 0x2029 || n == 0x202F
    || n == 0x205F || n == 0x3000
  }

  predicate IsNewline(c: char) {
    c == '\n'
  }

  function LowerChar(c: char): (d: char)
    ensures !IsUpper(d)
    ensures IsWordChar(d) == IsWordChar(c)
    ensures !IsUpper(c) ==> d == c
  {
    if IsUpper(c) then (c as int + 32) as char else c
  }

  /** `to_lowercase` restricted to ASCII: the length is preserved. */
  function Lower(s: string): (r: string)
    ensures |r| == |s|
    ensures forall i :: 0 <= i < |s| ==> r[i] == LowerChar(s[i])
  {
    seq(|s|, i requires 0 <= i < |s| => LowerChar(s[i]))
  }

  /** Position of the first character of `s` satisfying `p`, or `|s|` if none does. */
  function IndexWhere(s: string, p: char -> bool): (k: nat)
    ensures k <= |s|
    ensures k < |s| ==> p(s[k])
    ensures forall j :: 0 <= j < k ==> !p(s[j])
  {
    if s == [] then 0
    else if p(s[0]) then 0
    else 1 + IndexWhere(s[1..], p)
  }

  /**
   * Rust's `str::split` with a character predicate: the pieces between
   * separators, empty pieces included, so there is always at least one.
   */
  function Split(s: string, sep: char -> bool): (pieces: seq<string>)
    ensures |pieces| > 0
    decreases |s|
  {
    var k := IndexWhere(s, sep);
    if k == |s| then [s] else [s[..k]] + Split(s[k + 1..], sep)
  }

  /** `s[a..b]` is a piece of `s` cut at separators on both sides. */
  ghost predicate IsPiece(s: string, sep: char -> bool, a: int, b: int) {
    && 0 <= a <= b <= |s|
    && (a == 0 || sep(s[a - 1]))
    && (b == |s| || sep(s[b]))
    && forall j :: a <= j < b ==> !sep(s[j])
  }

  /** One step of `Split`: the first piece, then the pieces of the rest. */
  lemma SplitStep(s: string, sep: char -> bool, i: nat)
    requires i == IndexWhere(s, sep) < |s|
    ensures Split(s, sep) == [s[..i]] + Split(s[i + 1..], sep)
  {
    var k := IndexWhere(s, sep);
    assert k != |s|;
  }

  /** Without a separator the whole text is the only piece. */
  lemma SplitNoSeparator(s: string, sep: char -> bool)
    requires IndexWhere(s, sep) == |s|
    ensures Split(s, sep) == [s[0..|s|]]
    ensures IsPiece(s, sep, 0, |s|)
  {
    assert s[0..|s|] == s;
  }

  /** Every piece of `Split` is a separator-delimited stretch of the input: `s[a..b]`. */
  lemma {:induction false} SplitPieceSound(s: string, sep: char -> bool, k: nat) returns (a: int, b: int)
    requires k < |Split(s, sep)|
    ensures IsPiece(s, sep, a, b) && s[a..b] == Split(s, sep)[k]
    decreases |s|
  {
    var i := IndexWhere(s, sep);
    if i == |s| {
      SplitNoSeparator(s, sep);
      a, b := 0, |s|;
    } else {
      if k == 0 {
        SplitHead(s, sep, i);
        a, b := 0, i;
      } else {
        var t := s[i + 1..];
        SplitTail(s, sep, i, k);
        var a', b' := SplitPieceSound(t, sep, k - 1);
        a, b := ShiftPiece(s, sep, i, a', b');
      }
    }
  }

  /** The first piece of a text with a separator at `i`, its first, is `s[0..i]`. */
  lemma SplitHead(s: string, sep: char -> bool, i: nat)
    requires i == IndexWhere(s, sep) < |s|
    ensures IsPiece(s, sep, 0, i) && s[0..i] == Split(s, sep)[0]
  {
    SplitStep(s, sep, i);
  }

  /** Piece `k > 0` of a text is piece `k - 1` of the text after its first separator. */
  lemma SplitTail(s: string, sep: char -> bool, i: nat, k: nat)
    requires i == IndexWhere(s, sep) < |s|
    requires 0 < k < |Split(s, sep)|
    ensures k - 1 < |Split(s[i + 1..], sep)| && Split(s, sep)[k] == Split(s[i + 1..], sep)[k - 1]
  {
    SplitStep(s, sep, i);
  }

  /** A piece of the text after the separator at `i` is a piece of the whole text. */
  lemma ShiftPiece(s: string, sep: char -> bool, i: nat, a: int, b: int) returns (a': int, b': int)
    requires i < |s| && sep(s[i])
    requires IsPiece(s[i + 1..], sep, a, b)
    ensures a' == i + 1 + a && b' == i + 1 + b
    ensures IsPiece(s, sep, a', b') && s[a'..b'] == s[i + 1..][a..b]
  {
    a', b' := i + 1 + a, i + 1 + b;
    var t := s[i + 1..];
    forall j | i + 1 + a <= j < i + 1 + b ensures !sep(s[j]) {
      assert s[j] == t[j - i - 1];
    }
    if a > 0 {
      assert s[i + a] == t[a - 1];
    }
    if b < |t| {
      assert s[i + 1 + b] == t[b];
    }
  }

  /** A piece of the whole text past the separator at `i` is a piece of the text after it. */
  lemma UnshiftPiece(s: string, sep: char -> bool, i: nat, a: int, b: int) returns (a': int, b': int)
    requires i < |s| && i + 1 <= a
    requires IsPiece(s, sep, a, b)
    ensures a' == a - i - 1 && b' == b - i - 1
    ensures IsPiece(s[i + 1..], sep, a', b')
    ensures s[i + 1..][a'..b'] == s[a..b]
  {
    a', b' := a - i - 1, b - i - 1;
    var t := s[i + 1..];
    forall j | a' <= j < b' ensures !sep(t[j]) {
      assert t[j] == s[j + i + 1];
    }
    if a' > 0 {
      assert t[a' - 1] == s[a - 1];
    }
    if b' < |t| {
      assert t[b'] == s[b];
    }
    forall j | 0 <= j < b' - a' ensures t[a'..b'][j] == s[a..b][j] {
      assert t[a' + j] == s[a + j];
    }
  }

  /** The first piece of a text whose first separator is at `i` is `s[..i]`. */
  lemma FirstPiece(s: string, sep: char -> bool, i: nat, b: int)
    requires i == IndexWhere(s, sep)
    requires IsPiece(s, sep, 0, b)
    ensures b == i
  {
  }

  /** A piece that does not start the text starts after its first separator. */
  lemma LaterPiece(s: string, sep: char -> bool, i: nat, a: int, b: int)
    requires i == IndexWhere(s, sep)
    requires IsPiece(s, sep, a, b) && a > 0
    ensures i < |s| && i + 1 <= a
  {
  }

  /** Every separator-delimited stretch of the input is a piece of `Split`. */
  lemma {:induction false} SplitPieceComplete(s: string, sep: char -> bool, a: int, b: int)
    requires IsPiece(s, sep, a, b)
    ensures s[a..b] in Split(s, sep)
    decreases |s|, 1
  {
    if a == 0 {
      FirstPieceIn(s, sep, b);
    } else {
      LaterPieceIn(s, sep, a, b);
    }
  }

  /** A piece that does not start the text is a piece of the text after its first separator. */
  lemma {:induction false} LaterPieceIn(s: string, sep: char -> bool, a: int, b: int)
    requires IsPiece(s, sep, a, b) && a > 0
    ensures s[a..b] in Split(s, sep)
    decreases |s|, 0
  {
    var i := IndexWhere(s, sep);
    LaterPiece(s, sep, i, a, b);
    var a', b' := UnshiftPiece(s, sep, i, a, b);
    SplitPieceComplete(s[i + 1..], sep, a', b');
    SplitStepIn(s, sep, i, s[a..b]);
  }

  /** A piece that starts the text is the first piece of `Split`. */
  lemma FirstPieceIn(s: string, sep: char -> bool, b: int)
    requires IsPiece(s, sep, 0, b)
    ensures s[0..b] in Split(s, sep)
  {
    var i := IndexWhere(s, sep);
    FirstPiece(s, sep, i, b);
    if i < |s| {
      SplitStepIn(s, sep, i, s[..i]);
    } else {
      SplitNoSeparator(s, sep);
    }
  }

  /** The pieces of `Split` are the first piece and the pieces of the rest. */
  lemma SplitStepIn(s: string, sep: char -> bool, i: nat, x: string)
    requires i == IndexWhere(s, sep) < |s|
    requires x == s[..i] || x in Split(s[i + 1..], sep)
    ensures x in Split(s, sep)
  {
    SplitStep(s, sep, i);
  }

  /** Where a piece of `Split` sits in the input. */
  lemma SplitPieceOf(s: string, sep: char -> bool, w: string) returns (a: int, b: int)
    requires w in Split(s, sep)
    ensures IsPiece(s, sep, a, b) && s[a..b] == w
  {
    var k :| 0 <= k < |Split(s, sep)| && Split(s, sep)[k] == w;
    a, b := SplitPieceSound(s, sep, k);
  }

  /** No piece of `Split` holds a separator. */
  lemma PieceAvoidsSeparator(s: string, sep: char -> bool, w: string)
    requires w in Split(s, sep)
    ensures forall j :: 0 <= j < |w| ==> !sep(w[j])
  {
    var a, b := SplitPieceOf(s, sep, w);
    assert forall j :: 0 <= j < |w| ==> w[j] == s[a + j];
  }

  /** Rust's `split_whitespace`: whitespace-separated pieces, empty ones dropped. */
  function SplitWhitespace(s: string): (words: seq<string>)
    ensures forall w :: w in words ==> w != [] && w in Split(s, IsWhitespace)
  {
    NonEmpty(Split(s, IsWhitespace))
  }

  function NonEmpty(ws: seq<string>): (r: seq<string>)
    ensures forall w :: w in r <==> w in ws && w != []
  {
    if ws == [] then [] else (if ws[0] != [] then [ws[0]] else []) + NonEmpty(ws[1..])
  }

  /** Dropping empty pieces keeps every other piece as often as it occurs. */
  lemma {:induction false} NonEmptyCounts(ws: seq<string>)
    ensures forall w :: multiset(NonEmpty(ws))[w] == if w != [] then multiset(ws)[w] else 0
  {
    if ws != [] {
      NonEmptyCounts(ws[1..]);
      assert ws == [ws[0]] + ws[1..];
    }
  }

  /** Drops one trailing carriage return. */
  function StripCr(s: string): string {
    if |s| > 0 && s[|s| - 1] == '\r' then s[..|s| - 1] else s
  }

  /**
   * Rust's `str::lines`: split at each `'\n'`, cut one `'\r'` that precedes a
   * `'\n'`, and yield no empty last line after a final newline. A `'\r'` at the
   * very end without a `'\n'` is kept.
   */
  function Lines(s: string): (ls: seq<string>)
    ensures ls == [] <==> s == []
    ensures forall i :: 0 <= i < |ls| ==> '\n' !in ls[i]
    decreases |s|
  {
    if s == [] then []
    else
      var k := IndexWhere(s, IsNewline);
      if k == |s| then [s] else [StripCr(s[..k])] + Lines(s[k + 1..])
  }

  /** Every line followed by a newline. */
  function Unlines(ls: seq<string>): string {
    if ls == [] then [] else ls[0] + "\n" + Unlines(ls[1..])
  }

  /** One step of `Lines` on a text whose first newline is at `k`. */
  lemma LinesStep(s: string, k: nat)
    requires k == IndexWhere(s, IsNewline) < |s|
    ensures Lines(s) == [StripCr(s[..k])] + Lines(s[k + 1..])
    ensures s == s[..k] + "\n" + s[k + 1..]
  {
    CutAt(s, k);
  }

  lemma CutAt(s: string, k: nat)
    requires k < |s| && s[k] == '\n'
    ensures s == s[..k] + "\n" + s[k + 1..]
  {
  }

  lemma NoCrAround(s: string, k: nat)
    requires '\r' !in s && k < |s|
    ensures '\r' !in s[..k] && '\r' !in s[k + 1..]
    ensures StripCr(s[..k]) == s[..k]
  {
    assert forall j :: 0 <= j < k ==> s[..k][j] == s[j];
    var t := s[k + 1..];
    assert forall j :: 0 <= j < |t| ==> t[j] == s[k + 1 + j];
  }

  lemma UnlinesCons(x: string, r: seq<string>)
    ensures Unlines([x] + r) == x + "\n" + Unlines(r)
  {
    assert ([x] + r)[1..] == r;
  }

  /**
   * `Lines` loses nothing but the optional final newline: on text without
   * carriage returns, writing the lines back with a newline after each gives
   * the text itself, plus a newline if its last line had none.
   */
  lemma {:induction false} LinesRoundTrip(s: string)
    requires '\r' !in s
    ensures Unlines(Lines(s)) == if s == [] || s[|s| - 1] == '\n' then s else s + "\n"
    decreases |s|
  {
    if s != [] {
      var k := IndexWhere(s, IsNewline);
      if k == |s| {
        assert Lines(s) == [s];
        UnlinesCons(s, []);
      } else {
        var head, t := s[..k], s[k + 1..];
        LinesStep(s, k);
        NoCrAround(s, k);
        LinesRoundTrip(t);
        UnlinesCons(head, Lines(t));
        if t == [] {
          assert s[|s| - 1] == '\n';
        } else {
          assert s[|s| - 1] == t[|t| - 1];
          if t[|t| - 1] != '\n' {
            assert head + "\n" + (t + "\n") == (head + "\n" + t) + "\n";
          }
        }
      }
    }
  }

  /** Every line followed by a carriage return and a newline. */
  function UnlinesCrLf(ls: seq<string>): string {
    if ls == [] then [] else ls[0] + "\r\n" + UnlinesCrLf(ls[1..])
  }

  /** A last line without a line ending, or none when it is empty. */
  function LastLine(t: string): seq<string> {
    if t == [] then [] else [t]
  }

  /** Text without a newline is a single line, kept whole, or no line at all. */
  lemma LinesOfLast(t: string)
    requires '\n' !in t
    ensures Lines(t) == LastLine(t)
  {
    assert forall j :: 0 <= j < |t| ==> !IsNewline(t[j]);
  }

  /** The first line of a text ends at its first newline. */
  lemma LinesCons(a: string, b: string)
    requires '\n' !in a
    ensures Lines(a + "\n" + b) == [StripCr(a)] + Lines(b)
  {
    var s := a + "\n" + b;
    assert forall j :: 0 <= j < |a| ==> s[j] == a[j] && !IsNewline(s[j]);
    assert s[|a|] == '\n';
    assert IndexWhere(s, IsNewline) == |a|;
    assert s[..|a|] == a && s[|a| + 1..] == b;
  }

  /** No line holds a newline. */
  ghost predicate NoNewlines(ls: seq<string>) {
    forall i :: 0 <= i < |ls| ==> '\n' !in ls[i]
  }

  /** No line holds a newline or ends with a carriage return. */
  ghost predicate PlainLines(ls: seq<string>) {
    NoNewlines(ls) && forall i :: 0 <= i < |ls| ==> ls[i] == [] || ls[i][|ls[i]| - 1] != '\r'
  }

  lemma NoNewlinesTail(ls: seq<string>)
    requires ls != [] && NoNewlines(ls)
    ensures '\n' !in ls[0] && NoNewlines(ls[1..])
  {
    assert forall i :: 0 <= i < |ls| - 1 ==> ls[1..][i] == ls[i + 1];
  }

  lemma PlainLinesTail(ls: seq<string>)
    requires ls != [] && PlainLines(ls)
    ensures '\n' !in ls[0] && StripCr(ls[0]) == ls[0] && PlainLines(ls[1..])
  {
    NoNewlinesTail(ls);
    assert forall i :: 0 <= i < |ls| - 1 ==> ls[1..][i] == ls[i + 1];
  }

  lemma ConsTail<T>(ls: seq<T>, x: seq<T>)
    requires ls != []
    ensures [ls[0]] + (ls[1..] + x) == ls + x
  {
    assert ls == [ls[0]] + ls[1..];
  }

  /**
   * Lines ended by `"\n"` read back as they were, provided none holds a
   * newline or ends with a carriage return; an unterminated last line is
   * read back too.
   */
  lemma {:induction false} LinesOfUnlines(ls: seq<string>, t: string)
    requires PlainLines(ls)
    requires '\n' !in t
    ensures Lines(Unlines(ls) + t) == ls + LastLine(t)
  {
    if ls == [] {
      assert Unlines(ls) + t == t;
      LinesOfLast(t);
    } else {
      var rest := Unlines(ls[1..]) + t;
      assert Unlines(ls) + t == ls[0] + "\n" + rest;
      PlainLinesTail(ls);
      LinesCons(ls[0], rest);
      LinesOfUnlines(ls[1..], t);
      ConsTail(ls, LastLine(t));
    }
  }

  /** The first line ended by `"\r\n"`: what precedes the newline loses its carriage return. */
  lemma CrLfHead(l: string, rest: string)
    requires '\n' !in l
    ensures l + "\r\n" + rest == (l + "\r") + "\n" + rest
    ensures '\n' !in l + "\r" && StripCr(l + "\r") == l
  {
    assert forall j :: 0 <= j < |l| ==> (l + "\r")[j] == l[j];
  }

  /**
   * Lines ended by `"\r\n"` read back as they were, provided none holds a
   * newline: exactly one carriage return is cut before each newline, so a
   * line's own final carriage return survives. A carriage return at the end
   * of an unterminated last line is kept.
   */
  lemma {:induction false} LinesOfUnlinesCrLf(ls: seq<string>, t: string)
    requires NoNewlines(ls)
    requires '\n' !in t
    ensures Lines(UnlinesCrLf(ls) + t) == ls + LastLine(t)
  {
    if ls == [] {
      assert UnlinesCrLf(ls) + t == t;
      LinesOfLast(t);
    } else {
      var rest := UnlinesCrLf(ls[1..]) + t;
      assert UnlinesCrLf(ls) + t == ls[0] + "\r\n" + rest;
      NoNewlinesTail(ls);
      CrLfHead(ls[0], rest);
      LinesCons(ls[0] + "\r", rest);
      LinesOfUnlinesCrLf(ls[1..], t);
      ConsTail(ls, LastLine(t));
    }
  }

  /** `join("\n")`: the lines with a newline between consecutive ones. */
  function JoinLines(ls: seq<string>): string
    decreases |ls|
  {
    if ls == [] then []
    else if |ls| == 1 then ls[0]
    else ls[0] + "\n" + JoinLines(ls[1..])
  }

  /** Where line `k` starts inside `JoinLines(ls)`. */
  function JoinOffset(ls: seq<string>, k: nat): nat
    requires k < |ls|
  {
    if k == 0 then 0 else |ls[0]| + 1 + JoinOffset(ls[1..], k - 1)
  }

  /** `q` occurs in `s` at position `i`. */
  predicate MatchAt(s: string, q: string, i: nat) {
    i + |q| <= |s| && s[i..i + |q|] == q
  }

  /** Every joined line occurs in the joined text at its offset. */
  lemma {:induction false} JoinContainsLine(ls: seq<string>, k: nat)
    requires k < |ls|
    ensures MatchAt(JoinLines(ls), ls[k], JoinOffset(ls, k))
    decreases |ls|
  {
    if k == 0 {
      if |ls| > 1 {
        assert JoinLines(ls) == ls[0] + ("\n" + JoinLines(ls[1..]));
      }
    } else {
      JoinContainsLine(ls[1..], k - 1);
      var o := JoinOffset(ls[1..], k - 1);
      var head := ls[0] + "\n";
      var tail := JoinLines(ls[1..]);
      assert JoinLines(ls) == head + tail;
      assert (head + tail)[|head| + o..|head| + o + |ls[k]|] == tail[o..o + |ls[k]|];
    }
  }

  /** Rust's `str::find` starting at `from`: the first occurrence at or after it. */
  function FindFrom(s: string, q: string, from: nat): (r: Option<nat>)
    ensures r.Some? ==> from <= r.value && MatchAt(s, q, r.value)
    ensures r.Some? ==> forall j :: from <= j < r.value ==> !MatchAt(s, q, j)
    ensures r.None? ==> forall j: nat :: from <= j ==> !MatchAt(s, q, j)
    decreases |s| - from
  {
    if from + |q| > |s| then None
    else if s[from..from + |q|] == q then Some(from)
    else FindFrom(s, q, from + 1)
  }

  /** Rust's `str::find`: the first occurrence of `q` in `s`. */
  function Find(s: string, q: string): (r: Option<nat>)
    ensures r.Some? ==> MatchAt(s, q, r.value)
    ensures r.Some? ==> forall j :: 0 <= j < r.value ==> !MatchAt(s, q, j)
    ensures r.None? <==> forall j: nat :: !MatchAt(s, q, j)
  {
    FindFrom(s, q, 0)
  }

  /** Rust's `str::contains`. */
  predicate Contains(s: string, q: string)
  {
    Find(s, q).Some?
  }

  lemma ContainsAt(s: string, q: string, i: nat)
    requires MatchAt(s, q, i)
    ensures Contains(s, q)
  {
  }

  /**
   * A string holding an upper-case letter never occurs in lower-cased text.
   */
  lemma UpperNeverInLower(s: string, q: string, j: nat)
    requires j < |q| && IsUpper(q[j])
    ensures !Contains(Lower(s), q)
  {
  }
}
