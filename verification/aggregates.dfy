/** SQL aggregation over row sequences: weighted sums, `GROUP BY` totals
    and `ORDER BY ... DESC LIMIT n`, with the facts the reports rely on. */
module Aggregates {
  import opened Common

  /** `SUM(w)` over the rows, as an integer (0 over no rows). */
  function SumOf<T>(s: seq<T>, w: T -> int): int {
    if s == [] then 0 else w(s[0]) + SumOf(s[1..], w)
  }

  function Not<T>(p: T -> bool): T -> bool {
    (x: T) => !p(x)
  }

  /** The rows of one group: those whose key is `k`. */
  function GroupOf<T, K(==)>(key: T -> K, k: K): T -> bool {
    (x: T) => key(x) == k
  }

  /** `SUM(w) ... GROUP BY key`, as a function of the group's key. */
  function GroupTotal<T(!new), K(==)>(items: seq<T>, key: T -> K, w: T -> int): K -> int {
    (k: K) => SumOf(Filter(items, GroupOf(key, k)), w)
  }

  function One<T>(): T -> int {
    (x: T) => 1
  }

  /** `CASE WHEN p THEN 1 ELSE 0 END`. */
  function Indicator<T>(p: T -> bool): T -> int {
    (x: T) => if p(x) then 1 else 0
  }

  // ---------------------------------------------------------------------------
  // Sums
  // ---------------------------------------------------------------------------

  lemma {:induction false} SumOfConcat<T>(a: seq<T>, b: seq<T>, w: T -> int)
    ensures SumOf(a + b, w) == SumOf(a, w) + SumOf(b, w)
  {
    if a == [] {
      assert a + b == b;
    } else {
      assert (a + b)[1..] == a[1..] + b;
      SumOfConcat(a[1..], b, w);
    }
  }

  /** Counting is summing ones. */
  lemma {:induction false} SumOfOnes<T>(s: seq<T>)
    ensures SumOf(s, One<T>()) == |s|
  {
    if s != [] {
      SumOfOnes(s[1..]);
    }
  }

  /** Two weightings that agree on every row give the same sum. */
  lemma {:induction false} SumOfCongruent<T>(s: seq<T>, f: T -> int, g: T -> int)
    requires forall x :: x in s ==> f(x) == g(x)
    ensures SumOf(s, f) == SumOf(s, g)
  {
    if s != [] {
      assert s[0] in s;
      assert forall x :: x in s[1..] ==> x in s;
      SumOfCongruent(s[1..], f, g);
    }
  }

  /** Inserting a row adds its weight, wherever it lands. */
  lemma {:induction false} SumOfInsertBy<T>(x: T, s: seq<T>, le: (T, T) -> bool, w: T -> int)
    ensures SumOf(InsertBy(x, s, le), w) == w(x) + SumOf(s, w)
  {
    if s != [] && !le(x, s[0]) {
      var r := InsertBy(x, s, le);
      assert r[0] == s[0] && r[1..] == InsertBy(x, s[1..], le);
      SumOfInsertBy(x, s[1..], le, w);
    } else if s != [] {
      assert ([x] + s)[1..] == s;
    }
  }

  /** `ORDER BY` does not change a sum: the sorted rows weigh what the
      rows weigh. */
  lemma {:induction false} SumOfSortBy<T>(s: seq<T>, le: (T, T) -> bool, w: T -> int)
    ensures SumOf(SortBy(s, le), w) == SumOf(s, w)
  {
    if s != [] {
      SumOfSortBy(s[1..], le, w);
      SumOfInsertBy(s[0], SortBy(s[1..], le), le, w);
    }
  }

  /** Rows dropped by a filter that all weigh zero do not change the sum. */
  lemma {:induction false} SumOfFilterZero<T(!new)>(s: seq<T>, p: T -> bool, w: T -> int)
    requires forall x :: x in s && !p(x) ==> w(x) == 0
    ensures SumOf(Filter(s, p), w) == SumOf(s, w)
  {
    if s != [] {
      assert s[0] in s;
      assert forall x :: x in s[1..] ==> x in s;
      SumOfFilterZero(s[1..], p, w);
      if p(s[0]) {
        assert Filter(s, p) == [s[0]] + Filter(s[1..], p);
        SumOfConcat([s[0]], Filter(s[1..], p), w);
      } else {
        assert Filter(s, p) == Filter(s[1..], p);
      }
    }
  }

  /** Every row falls on one side of a filter. */
  lemma {:induction false} SumOfPartition<T(!new)>(s: seq<T>, p: T -> bool, w: T -> int)
    ensures SumOf(s, w) == SumOf(Filter(s, p), w) + SumOf(Filter(s, Not(p)), w)
  {
    if s != [] {
      SumOfPartition(s[1..], p, w);
      if p(s[0]) {
        SumOfConcat([s[0]], Filter(s[1..], p), w);
        assert Filter(s, Not(p)) == Filter(s[1..], Not(p));
      } else {
        SumOfConcat([s[0]], Filter(s[1..], Not(p)), w);
        assert Filter(s, p) == Filter(s[1..], p);
      }
    }
  }

  /** Filtering by a stricter condition after a weaker one is filtering by
      the stricter one. */
  lemma {:induction false} FilterTwice<T(!new)>(s: seq<T>, weaker: T -> bool, stricter: T -> bool)
    requires forall x :: x in s && stricter(x) ==> weaker(x)
    ensures Filter(Filter(s, weaker), stricter) == Filter(s, stricter)
  {
    if s != [] {
      assert s[0] in s;
      assert forall x :: x in s[1..] ==> x in s;
      FilterTwice(s[1..], weaker, stricter);
      var once := Filter(s, weaker);
      if weaker(s[0]) {
        assert once == [s[0]] + Filter(s[1..], weaker);
        assert once[0] == s[0] && once[1..] == Filter(s[1..], weaker);
      } else {
        assert once == Filter(s[1..], weaker);
        assert Filter(s, stricter) == Filter(s[1..], stricter);
      }
    }
  }

  /** Counting the rows that pass a filter is summing its indicator. */
  lemma {:induction false} CountIsSum<T(!new)>(s: seq<T>, p: T -> bool)
    ensures |Filter(s, p)| == SumOf(s, Indicator(p))
  {
    if s != [] {
      CountIsSum(s[1..], p);
      assert Filter(s, p) == (if p(s[0]) then [s[0]] else []) + Filter(s[1..], p);
    }
  }

  /** Filtering twice is filtering once by a condition that holds exactly
      when both do. */
  lemma {:induction false} FilterThenFilter<T(!new)>(s: seq<T>, p: T -> bool, q: T -> bool, both: T -> bool)
    requires forall x :: x in s ==> (both(x) <==> p(x) && q(x))
    ensures Filter(Filter(s, p), q) == Filter(s, both)
  {
    if s != [] {
      assert s[0] in s;
      assert forall x :: x in s[1..] ==> x in s;
      FilterThenFilter(s[1..], p, q, both);
      var once := Filter(s, p);
      if p(s[0]) {
        assert once == [s[0]] + Filter(s[1..], p);
        assert once[0] == s[0] && once[1..] == Filter(s[1..], p);
      } else {
        assert once == Filter(s[1..], p);
        assert Filter(s, both) == Filter(s[1..], both);
      }
    }
  }

  /** `GROUP BY`: when every row's key is one of `keys`, listed once each,
      the group totals add up to the total over all rows. */
  lemma {:induction false} GroupTotalsAddUp<T(!new), K>(items: seq<T>, keys: seq<K>, key: T -> K, w: T -> int)
    requires forall i, j :: 0 <= i < j < |keys| ==> keys[i] != keys[j]
    requires forall x :: x in items ==> key(x) in keys
    ensures SumOf(keys, GroupTotal(items, key, w)) == SumOf(items, w)
    decreases |keys|
  {
    if keys != [] {
      var k0 := keys[0];
      var total := GroupTotal(items, key, w);
      var others := Filter(items, Not(GroupOf(key, k0)));
      var rest := GroupTotal(others, key, w);
      forall x | x in others ensures key(x) in keys[1..] {
        assert x in items && Not(GroupOf(key, k0))(x);
        assert key(x) != k0;
        var i :| 0 <= i < |keys| && keys[i] == key(x);
        assert i != 0;
        assert keys[1..][i - 1] == key(x);
      }
      forall i, j | 0 <= i < j < |keys[1..]| ensures keys[1..][i] != keys[1..][j] {
        assert keys[1..][i] == keys[i + 1] && keys[1..][j] == keys[j + 1];
      }
      GroupTotalsAddUp(others, keys[1..], key, w);
      assert SumOf(keys[1..], rest) == SumOf(others, w);
      forall k | k in keys[1..] ensures total(k) == rest(k) {
        var j :| 0 <= j < |keys[1..]| && keys[1..][j] == k;
        assert keys[j + 1] == k;
        assert k != k0;
        FilterTwice(items, Not(GroupOf(key, k0)), GroupOf(key, k));
        assert total(k) == SumOf(Filter(items, GroupOf(key, k)), w);
        assert rest(k) == SumOf(Filter(others, GroupOf(key, k)), w);
      }
      SumOfCongruent(keys[1..], total, rest);
      SumOfPartition(items, GroupOf(key, k0), w);
      assert total(k0) == SumOf(Filter(items, GroupOf(key, k0)), w);
      assert SumOf(keys, total) == total(k0) + SumOf(keys[1..], total);
    }
  }

  /** Two sequences of the same length whose rows weigh the same position
      by position have the same sum. */
  lemma {:induction false} SumOfPointwise<A, B>(a: seq<A>, b: seq<B>, f: A -> int, g: B -> int)
    requires |a| == |b|
    requires forall i :: 0 <= i < |a| ==> f(a[i]) == g(b[i])
    ensures SumOf(a, f) == SumOf(b, g)
  {
    if a != [] {
      assert forall i :: 0 <= i < |a[1..]| ==> a[1..][i] == a[i + 1] && b[1..][i] == b[i + 1];
      SumOfPointwise(a[1..], b[1..], f, g);
    }
  }

  // ---------------------------------------------------------------------------
  // Top n
  // ---------------------------------------------------------------------------

  /** `ORDER BY score DESC LIMIT n`. */
  function TopN<T>(s: seq<T>, score: T -> int, n: nat): seq<T> {
    Take(SortBy(s, ByIntDesc(score)), n)
  }

  /** The top-n list holds at most n rows, each from the input, in
      non-increasing score order; a row left out means the list is full
      and every listed row scores at least as much as it. */
  lemma TopNIsTop<T(!new)>(s: seq<T>, score: T -> int, n: nat)
    ensures |TopN(s, score, n)| <= n
    ensures forall x :: x in TopN(s, score, n) ==> x in s
    ensures forall i, j :: 0 <= i < j < |TopN(s, score, n)| ==> score(TopN(s, score, n)[i]) >= score(TopN(s, score, n)[j])
    ensures forall x :: x in s && x !in TopN(s, score, n) ==>
      |TopN(s, score, n)| == n && forall y :: y in TopN(s, score, n) ==> score(y) >= score(x)
  {
    var sorted := SortBy(s, ByIntDesc(score));
    var top := TopN(s, score, n);
    ByIntPreorders(score);
    SortBySorted(s, ByIntDesc(score));
    assert top == Take(sorted, n);
    forall i, j | 0 <= i < j < |sorted| ensures score(sorted[i]) >= score(sorted[j]) {
      assert ByIntDesc(score)(sorted[i], sorted[j]);
    }
    forall x | x in top ensures x in s {
      SortByMembers(s, ByIntDesc(score), x);
    }
    forall x | x in s && x !in top
      ensures |top| == n && forall y :: y in top ==> score(y) >= score(x)
    {
      SortByMembers(s, ByIntDesc(score), x);
      var i :| 0 <= i < |sorted| && sorted[i] == x;
      forall y | y in top ensures score(y) >= score(x) {
        var j :| 0 <= j < |top| && top[j] == y;
        assert sorted[j] == y;
      }
    }
  }
}
