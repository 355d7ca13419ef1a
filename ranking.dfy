/**
 * Scoring and ranking of candidate lines in `search_with_scoring`.
 *
 * The source keeps a floating-point score `matches / |terms|`. Every
 * candidate of one search shares the denominator, so the model keeps the
 * integer numerator and the denominator, and ranks by the numerator. The
 * source's `sort_by` is a stable sort in descending score order; `SortDesc`
 * below produces it as the concatenation of the groups of equal score, from
 * the highest down, each group in its original order, and the lemmas prove it
 * sorted, a permutation, stable, and the only arrangement with these
 * properties.
 */
module Ranking {
  import opened Wrappers
  import opened Corpus

  /** One scoring line: file, zero-based line number and number of matched query terms. */
  datatype Candidate = Candidate(path: Path, line: nat, matches: nat)

  /** The `f32` score of `calculate_relevance`: 0 without matches, else `matches / total`. */
  function Relevance(matches: nat, total: nat): real
    requires matches <= total
  {
    if matches == 0 then 0.0 else (matches as real) / (total as real)
  }

  /** A score of a line with at least one match lies in (0, 1]. */
  lemma RelevanceBounds(matches: nat, total: nat)
    requires 0 < matches <= total
    ensures 0.0 < Relevance(matches, total) <= 1.0
  {
    var r := Relevance(matches, total);
    assert r * (total as real) == matches as real;
  }

  /**
   * With a shared denominator, comparing scores is comparing match counts,
   * so ranking by `matches` is ranking by score.
   */
  lemma RelevanceOrder(a: nat, b: nat, total: nat)
    requires 0 < a <= total && 0 < b <= total
    ensures Relevance(a, total) <= Relevance(b, total) <==> a <= b
  {
    var t := total as real;
    var ra, rb := (a as real) / t, (b as real) / t;
    assert Relevance(a, total) == ra && Relevance(b, total) == rb;
    DivMul(a as real, t);
    DivMul(b as real, t);
    ScaleOrder(ra, rb, t);
    assert ra <= rb <==> a as real <= b as real;
  }

  /** Dividing by a positive `t` and multiplying back gives the number again. */
  lemma DivMul(x: real, t: real)
    requires t > 0.0
    ensures (x / t) * t == x
  {
  }

  /** Multiplying both sides by a positive `t` keeps their order, and only it. */
  lemma ScaleOrder(x: real, y: real, t: real)
    requires t > 0.0
    ensures x <= y <==> x * t <= y * t
  {
    if x <= y {
      assert (y - x) * t >= 0.0;
    } else {
      assert (x - y) * t > 0.0;
    }
  }

  /** Scores never increase along `cs`. */
  ghost predicate NonIncreasing(cs: seq<Candidate>) {
    forall i, j :: 0 <= i <= j < |cs| ==> cs[i].matches >= cs[j].matches
  }

  /** The candidates of score `k`, in their original order. */
  function Bucket(cs: seq<Candidate>, k: nat): seq<Candidate> {
    if cs == [] then []
    else (if cs[0].matches == k then [cs[0]] else []) + Bucket(cs[1..], k)
  }

  /** The groups of score `k`, `k - 1`, ..., `0`, concatenated. */
  function Buckets(cs: seq<Candidate>, k: nat): seq<Candidate>
    decreases k
  {
    Bucket(cs, k) + (if k == 0 then [] else Buckets(cs, k - 1))
  }

  /** The highest score among `cs` (0 for none). */
  function MaxMatches(cs: seq<Candidate>): (m: nat)
    ensures forall c :: c in cs ==> c.matches <= m
    ensures cs != [] ==> exists c :: c in cs && c.matches == m
  {
    if cs == [] then 0
    else
      var m := MaxMatches(cs[1..]);
      assert forall c :: c in cs ==> c == cs[0] || c in cs[1..];
      if cs[0].matches >= m then cs[0].matches else m
  }

  /**
   * `candidates.sort_by(|a, b| b.score.partial_cmp(&a.score))`: the
   * candidates rearranged into non-increasing score order. That it keeps ties
   * in their original order is `SortDescStable`.
   */
  function SortDesc(cs: seq<Candidate>): (r: seq<Candidate>)
    ensures NonIncreasing(r)
    ensures multiset(r) == multiset(cs)
  {
    BucketsSorted(cs, MaxMatches(cs));
    BucketsAreAtMost(cs, MaxMatches(cs));
    AtMostAll(cs, MaxMatches(cs));
    Buckets(cs, MaxMatches(cs))
  }

  /** Group `k` holds candidates of `cs` of score `k` only. */
  lemma {:induction false} BucketMembers(cs: seq<Candidate>, k: nat)
    ensures forall c :: c in Bucket(cs, k) ==> c.matches == k && c in cs
  {
    if cs != [] {
      BucketMembers(cs[1..], k);
    }
  }

  lemma {:induction false} BucketsBelow(cs: seq<Candidate>, k: nat)
    ensures forall c :: c in Buckets(cs, k) ==> c.matches <= k
    decreases k
  {
    BucketMembers(cs, k);
    if k > 0 {
      BucketsBelow(cs, k - 1);
    }
  }

  /** A sequence made of candidates of score `k` followed by a sorted sequence of lower scores is sorted. */
  lemma SortedConcat(b: seq<Candidate>, rest: seq<Candidate>, k: nat)
    requires forall c :: c in b ==> c.matches == k
    requires forall c :: c in rest ==> c.matches < k
    requires NonIncreasing(rest)
    ensures NonIncreasing(b + rest)
  {
    var r := b + rest;
    forall i, j | 0 <= i <= j < |r| ensures r[i].matches >= r[j].matches {
      if j < |b| {
        assert r[i] == b[i] && r[j] == b[j];
        assert b[i] in b && b[j] in b;
      } else if i < |b| {
        assert r[i] == b[i] && b[i] in b;
        assert r[j] == rest[j - |b|] && rest[j - |b|] in rest;
      } else {
        assert r[i] == rest[i - |b|] && r[j] == rest[j - |b|];
      }
    }
  }

  /** The concatenated groups are sorted: group `k` first, then lower scores. */
  lemma {:induction false} BucketsSorted(cs: seq<Candidate>, k: nat)
    ensures NonIncreasing(Buckets(cs, k))
    decreases k
  {
    BucketMembers(cs, k);
    if k > 0 {
      BucketsSorted(cs, k - 1);
      BucketsBelow(cs, k - 1);
      SortedConcat(Bucket(cs, k), Buckets(cs, k - 1), k);
    } else {
      SortedConcat(Bucket(cs, k), [], k);
      assert Buckets(cs, k) == Bucket(cs, k) + [];
    }
  }


  /** The candidates of score at most `k`, in their original order. */
  function AtMost(cs: seq<Candidate>, k: nat): seq<Candidate> {
    if cs == [] then []
    else (if cs[0].matches <= k then [cs[0]] else []) + AtMost(cs[1..], k)
  }

  lemma {:induction false} AtMostZero(cs: seq<Candidate>)
    ensures AtMost(cs, 0) == Bucket(cs, 0)
  {
    if cs != [] {
      AtMostZero(cs[1..]);
    }
  }

  lemma {:induction false} AtMostSplit(cs: seq<Candidate>, k: nat)
    requires k > 0
    ensures multiset(AtMost(cs, k)) == multiset(Bucket(cs, k)) + multiset(AtMost(cs, k - 1))
  {
    if cs != [] {
      var c, t := cs[0], cs[1..];
      AtMostSplit(t, k);
      if c.matches > k {
        assert AtMost(cs, k) == AtMost(t, k);
        assert Bucket(cs, k) == Bucket(t, k);
        assert AtMost(cs, k - 1) == AtMost(t, k - 1);
      } else if c.matches == k {
        assert AtMost(cs, k) == [c] + AtMost(t, k);
        assert Bucket(cs, k) == [c] + Bucket(t, k);
        assert AtMost(cs, k - 1) == AtMost(t, k - 1);
      } else {
        assert AtMost(cs, k) == [c] + AtMost(t, k);
        assert Bucket(cs, k) == Bucket(t, k);
        assert AtMost(cs, k - 1) == [c] + AtMost(t, k - 1);
      }
    }
  }

  lemma {:induction false} AtMostAll(cs: seq<Candidate>, k: nat)
    requires forall c :: c in cs ==> c.matches <= k
    ensures AtMost(cs, k) == cs
  {
    if cs != [] {
      assert cs[0] in cs;
      assert forall c :: c in cs[1..] ==> c in cs;
      AtMostAll(cs[1..], k);
      assert cs == [cs[0]] + cs[1..];
    }
  }

  lemma {:induction false} BucketsAreAtMost(cs: seq<Candidate>, k: nat)
    ensures multiset(Buckets(cs, k)) == multiset(AtMost(cs, k))
    decreases k
  {
    if k > 0 {
      AtMostSplit(cs, k);
      BucketsAreAtMost(cs, k - 1);
      assert Buckets(cs, k) == Bucket(cs, k) + Buckets(cs, k - 1);
    } else {
      AtMostZero(cs);
      assert Buckets(cs, k) == Bucket(cs, k) + [];
    }
  }


  lemma {:induction false} BucketConcat(a: seq<Candidate>, b: seq<Candidate>, k: nat)
    ensures Bucket(a + b, k) == Bucket(a, k) + Bucket(b, k)
  {
    if a != [] {
      var head := if a[0].matches == k then [a[0]] else [];
      assert (a + b)[0] == a[0];
      assert (a + b)[1..] == a[1..] + b;
      BucketConcat(a[1..], b, k);
      assert Bucket(a + b, k) == head + Bucket(a[1..] + b, k);
      assert head + (Bucket(a[1..], k) + Bucket(b, k)) == (head + Bucket(a[1..], k)) + Bucket(b, k);
    } else {
      assert a + b == b;
    }
  }

  lemma {:induction false} BucketOfBucket(cs: seq<Candidate>, j: nat, k: nat)
    ensures Bucket(Bucket(cs, j), k) == if j == k then Bucket(cs, k) else []
  {
    if cs != [] {
      var head := if cs[0].matches == j then [cs[0]] else [];
      BucketConcat(head, Bucket(cs[1..], j), k);
      BucketOfBucket(cs[1..], j, k);
      if cs[0].matches == j {
        assert Bucket(head, k) == if j == k then [cs[0]] else [];
      }
    }
  }

  lemma {:induction false} BucketOfBuckets(cs: seq<Candidate>, m: nat, k: nat)
    ensures Bucket(Buckets(cs, m), k) == if k <= m then Bucket(cs, k) else []
    decreases m
  {
    var rest := if m == 0 then [] else Buckets(cs, m - 1);
    BucketConcat(Bucket(cs, m), rest, k);
    BucketOfBucket(cs, m, k);
    if m > 0 {
      BucketOfBuckets(cs, m - 1, k);
    }
  }

  lemma {:induction false} BucketAboveMax(cs: seq<Candidate>, k: nat)
    requires forall c :: c in cs ==> c.matches < k
    ensures Bucket(cs, k) == []
  {
    if cs != [] {
      assert cs[0] in cs;
      assert forall c :: c in cs[1..] ==> c in cs;
      BucketAboveMax(cs[1..], k);
    }
  }

  /**
   * `SortDesc` is stable: the candidates of each score keep their relative
   * order, which is walk order and then line order.
   */
  lemma SortDescStable(cs: seq<Candidate>, k: nat)
    ensures Bucket(SortDesc(cs), k) == Bucket(cs, k)
  {
    BucketOfBuckets(cs, MaxMatches(cs), k);
    if k > MaxMatches(cs) {
      BucketAboveMax(cs, k);
    }
  }

  lemma BucketHead(cs: seq<Candidate>)
    requires cs != []
    ensures Bucket(cs, cs[0].matches) == [cs[0]] + Bucket(cs[1..], cs[0].matches)
    ensures forall k :: k != cs[0].matches ==> Bucket(cs, k) == Bucket(cs[1..], k)
  {
  }

  /** The head of a non-empty sorted sequence carries its highest score. */
  lemma SortedHeadIsMax(s: seq<Candidate>, c: Candidate)
    requires NonIncreasing(s) && c in s
    ensures c.matches <= s[0].matches
  {
  }

  /** Two sorted sequences with the same groups start with the same candidate. */
  lemma SameGroupsSameHead(r: seq<Candidate>, s: seq<Candidate>)
    requires NonIncreasing(r) && NonIncreasing(s) && r != [] && s != []
    requires Bucket(r, r[0].matches) == Bucket(s, r[0].matches)
    requires Bucket(r, s[0].matches) == Bucket(s, s[0].matches)
    ensures r[0] == s[0]
  {
    BucketHead(r);
    BucketHead(s);
    BucketMembers(s, r[0].matches);
    BucketMembers(r, s[0].matches);
    assert r[0] in Bucket(s, r[0].matches);
    assert s[0] in Bucket(r, s[0].matches);
    SortedHeadIsMax(s, r[0]);
    SortedHeadIsMax(r, s[0]);
    var m := r[0].matches;
    assert m == s[0].matches;
    assert Bucket(r, m)[0] == r[0];
    assert Bucket(s, m)[0] == s[0];
  }

  /** Removing equal heads keeps the groups equal. */
  lemma SameGroupsTails(r: seq<Candidate>, s: seq<Candidate>)
    requires r != [] && s != [] && r[0] == s[0]
    requires forall k :: Bucket(r, k) == Bucket(s, k)
    ensures forall k :: Bucket(r[1..], k) == Bucket(s[1..], k)
  {
    BucketHead(r);
    BucketHead(s);
    forall k ensures Bucket(r[1..], k) == Bucket(s[1..], k) {
      if k == r[0].matches {
        assert [r[0]] + Bucket(r[1..], k) == [s[0]] + Bucket(s[1..], k);
        assert ([r[0]] + Bucket(r[1..], k))[1..] == Bucket(r[1..], k);
        assert ([s[0]] + Bucket(s[1..], k))[1..] == Bucket(s[1..], k);
      } else {
        assert Bucket(r, k) == Bucket(r[1..], k);
        assert Bucket(s, k) == Bucket(s[1..], k);
      }
    }
  }

  /** A sorted arrangement is fixed by its groups. */
  lemma {:induction false} SortedByGroups(r: seq<Candidate>, s: seq<Candidate>)
    requires NonIncreasing(r) && NonIncreasing(s)
    requires forall k :: Bucket(r, k) == Bucket(s, k)
    ensures r == s
    decreases |r| + |s|
  {
    if r == [] && s != [] {
      BucketHead(s);
    } else if r != [] && s == [] {
      BucketHead(r);
    } else if r != [] {
      SameGroupsSameHead(r, s);
      SameGroupsTails(r, s);
      SortedTail(r);
      SortedTail(s);
      SortedByGroups(r[1..], s[1..]);
      assert r == [r[0]] + r[1..] && s == [s[0]] + s[1..];
    }
  }

  lemma SortedTail(s: seq<Candidate>)
    requires NonIncreasing(s) && s != []
    ensures NonIncreasing(s[1..])
  {
    forall i, j | 0 <= i <= j < |s| - 1 ensures s[1..][i].matches >= s[1..][j].matches {
      assert s[1..][i] == s[i + 1] && s[1..][j] == s[j + 1];
    }
  }

  /**
   * `SortDesc` is the only sorted arrangement that keeps the order within each
   * score, hence it is what any stable descending sort, the source's
   * `sort_by` included, produces.
   */
  lemma SortDescUnique(cs: seq<Candidate>, r: seq<Candidate>)
    requires NonIncreasing(r)
    requires forall k :: Bucket(r, k) == Bucket(cs, k)
    ensures r == SortDesc(cs)
  {
    forall k ensures Bucket(r, k) == Bucket(SortDesc(cs), k) {
      SortDescStable(cs, k);
    }
    SortedByGroups(r, SortDesc(cs));
  }

  /**
   * Truncating the sorted candidates to `n` keeps the best ones: a candidate
   * left out scores no higher than any that is kept.
   */
  lemma TopAreBest(cs: seq<Candidate>, n: nat, c: Candidate)
    requires c in cs && c !in Take(SortDesc(cs), n)
    ensures forall k :: 0 <= k < |Take(SortDesc(cs), n)| ==> c.matches <= Take(SortDesc(cs), n)[k].matches
  {
    var sorted := SortDesc(cs);
    assert c in multiset(cs);
    assert c in multiset(sorted);
    var j :| 0 <= j < |sorted| && sorted[j] == c;
    var top := Take(sorted, n);
    assert j >= |top|;
    forall k | 0 <= k < |top| ensures c.matches <= top[k].matches {
      assert top[k] == sorted[k];
    }
  }
}
