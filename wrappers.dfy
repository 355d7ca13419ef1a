/** `Option`, `take(n)`, `min` and `max`, shared by the other modules. */
module Wrappers {

  /** An optional value: a Rust `Option`. */
  datatype Option<+T> = None | Some(value: T) {

    /** The carried value, or `default` when there is none (Rust's `unwrap_or`). */
    function GetOr(default: T): T {
      match this
      case Some(v) => v
      case None => default
    }
  }

  /** The first `n` elements of `s`, or all of `s` when it is shorter (Rust's `take(n)`). */
  function Take<T>(s: seq<T>, n: nat): (r: seq<T>)
    ensures |r| == if n < |s| then n else |s|
    ensures r <= s
  {
    if n < |s| then s[..n] else s
  }

  /** Taking no more than a first part holds leaves the rest unread. */
  lemma TakeLonger<T>(s: seq<T>, t: seq<T>, n: nat)
    requires n <= |s|
    ensures Take(s + t, n) == Take(s, n)
  {
    assert (s + t)[..n] == s[..n];
  }

  function Min(a: nat, b: nat): nat {
    if a <= b then a else b
  }

  function Max(a: nat, b: nat): nat {
    if a <= b then b else a
  }
}
