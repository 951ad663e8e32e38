/** Shared vocabulary of the library model: optional values, day numbers,
    money in cents, PHP's notion of an "empty" form value, substring search,
    row ordering, filtering, summing and SQL-style paging. */
module Common {

  datatype Option<T> = None | Some(value: T)

  /** A calendar date as a day number ('Y-m-d' strings compare like these). */
  type Day = int

  /** Money in cents, so that 0.50 per day is exact. */
  type Cents = int

  /** Where a multi-statement transaction is interrupted by a storage error, if at all. */
  datatype Fault = NoFault | FailAt(step: nat)

  /** The fault interrupts one of the first `n` statements of a transaction. */
  predicate FailsBefore(fault: Fault, n: nat) {
    fault.FailAt? && fault.step < n
  }

  /** PHP `empty()` on a string form value: "" and "0" are both empty. */
  predicate Blank(s: string) {
    s == "" || s == "0"
  }

  // ---------------------------------------------------------------------------
  // Substring search (SQL `LIKE '%kw%'`)
  // ---------------------------------------------------------------------------

  /** Reference definition: `needle` occurs at some position of `hay`. */
  ghost predicate OccursIn(needle: string, hay: string) {
    exists i :: OccursAt(needle, hay, i)
  }

  ghost predicate OccursAt(needle: string, hay: string, i: int) {
    0 <= i <= |hay| - |needle| && hay[i..i + |needle|] == needle
  }

  /** Executable substring test, scanning `hay` from the left. */
  predicate Contains(hay: string, needle: string)
    decreases |hay|
  {
    |needle| <= |hay| && (hay[..|needle|] == needle || Contains(hay[1..], needle))
  }

  lemma {:induction false} ContainsIff(hay: string, needle: string)
    ensures Contains(hay, needle) <==> OccursIn(needle, hay)
    decreases |hay|
  {
    if |needle| <= |hay| {
      if hay[..|needle|] == needle {
        assert OccursAt(needle, hay, 0);
      } else {
        assert hay != [];
        ContainsIff(hay[1..], needle);
        if Contains(hay[1..], needle) {
          var i :| OccursAt(needle, hay[1..], i);
          assert hay[i + 1..i + 1 + |needle|] == hay[1..][i..i + |needle|];
          assert OccursAt(needle, hay, i + 1);
        } else if OccursIn(needle, hay) {
          OccursShift(needle, hay);
        }
      }
    }
  }

  /** An occurrence that is not at the front is an occurrence in the tail. */
  lemma OccursShift(needle: string, hay: string)
    requires OccursIn(needle, hay)
    requires |needle| <= |hay| && hay[..|needle|] != needle
    ensures hay != [] && OccursIn(needle, hay[1..])
  {
    var i :| OccursAt(needle, hay, i);
    assert i != 0 by {
      assert hay[..|needle|] == hay[0..0 + |needle|];
    }
    assert hay[1..][i - 1..i - 1 + |needle|] == hay[i..i + |needle|];
    assert OccursAt(needle, hay[1..], i - 1);
  }

  /** The empty keyword (`'%%'`) matches every value. */
  lemma EmptyKeywordMatches(hay: string)
    ensures Contains(hay, "")
  {
    assert hay[..0] == "";
  }

  // ---------------------------------------------------------------------------
  // Ordering (SQL `ORDER BY`)
  // ---------------------------------------------------------------------------

  /** Binary (code point) lexicographic order on strings. */
  predicate StrLe(a: string, b: string)
    decreases |a|
  {
    a == [] || (b != [] && (a[0] < b[0] || (a[0] == b[0] && StrLe(a[1..], b[1..]))))
  }

  lemma {:induction false} StrLeTotal(a: string, b: string)
    ensures StrLe(a, b) || StrLe(b, a)
    decreases |a|
  {
    if a != [] && b != [] && a[0] == b[0] {
      StrLeTotal(a[1..], b[1..]);
    }
  }

  lemma {:induction false} StrLeTrans(a: string, b: string, c: string)
    requires StrLe(a, b) && StrLe(b, c)
    ensures StrLe(a, c)
    decreases |a|
  {
    if a != [] && b != [] && c != [] && a[0] == b[0] && b[0] == c[0] {
      StrLeTrans(a[1..], b[1..], c[1..]);
    }
  }

  lemma {:induction false} StrLeAntisym(a: string, b: string)
    requires StrLe(a, b) && StrLe(b, a)
    ensures a == b
    decreases |a|
  {
    if a != [] && b != [] {
      StrLeAntisym(a[1..], b[1..]);
      assert a == [a[0]] + a[1..];
      assert b == [b[0]] + b[1..];
    }
  }

  ghost predicate TotalPreorder<T(!new)>(le: (T, T) -> bool) {
    && (forall a, b :: le(a, b) || le(b, a))
    && (forall a, b, c :: le(a, b) && le(b, c) ==> le(a, c))
  }

  ghost predicate SortedBy<T>(s: seq<T>, le: (T, T) -> bool) {
    forall i, j :: 0 <= i < j < |s| ==> le(s[i], s[j])
  }

  /** Inserts `x` before the first element it is not after. */
  function InsertBy<T>(x: T, s: seq<T>, le: (T, T) -> bool): (r: seq<T>)
    ensures multiset(r) == multiset(s) + multiset{x}
    ensures |r| == |s| + 1
  {
    if s == [] then [x]
    else if le(x, s[0]) then [x] + s
    else
      assert s == [s[0]] + s[1..];
      [s[0]] + InsertBy(x, s[1..], le)
  }

  lemma {:induction false} InsertBySorted<T(!new)>(x: T, s: seq<T>, le: (T, T) -> bool)
    requires TotalPreorder(le) && SortedBy(s, le)
    ensures SortedBy(InsertBy(x, s, le), le)
  {
    if s != [] && !le(x, s[0]) {
      InsertBySorted(x, s[1..], le);
      var r := InsertBy(x, s, le);
      var t := InsertBy(x, s[1..], le);
      assert r == [s[0]] + t;
      forall k | 0 <= k < |t| ensures le(s[0], t[k]) {
        assert t[k] in multiset(t);
        assert t[k] in multiset(s[1..]) + multiset{x};
        if t[k] in multiset(s[1..]) {
          var m :| 0 <= m < |s[1..]| && s[1..][m] == t[k];
          assert s[1..][m] == s[m + 1];
        } else {
          assert t[k] == x;
        }
      }
    }
  }

  /** Insertion sort under `le`; equal elements keep their input order. */
  function SortBy<T>(s: seq<T>, le: (T, T) -> bool): (r: seq<T>)
    ensures multiset(r) == multiset(s)
    ensures |r| == |s|
  {
    if s == [] then []
    else
      assert s == [s[0]] + s[1..];
      InsertBy(s[0], SortBy(s[1..], le), le)
  }

  lemma {:induction false} SortBySorted<T(!new)>(s: seq<T>, le: (T, T) -> bool)
    requires TotalPreorder(le)
    ensures SortedBy(SortBy(s, le), le)
  {
    if s != [] {
      SortBySorted(s[1..], le);
      InsertBySorted(s[0], SortBy(s[1..], le), le);
    }
  }

  /** What the sort keeps: exactly the input elements. */
  lemma SortByMembers<T>(s: seq<T>, le: (T, T) -> bool, x: T)
    ensures x in SortBy(s, le) <==> x in s
  {
    var r := SortBy(s, le);
    assert x in r <==> x in multiset(r);
    assert x in s <==> x in multiset(s);
  }

  /** Ascending order of a string column. */
  function ByKey<T>(key: T -> string): (T, T) -> bool {
    (a: T, b: T) => StrLe(key(a), key(b))
  }

  lemma ByKeyPreorder<T(!new)>(key: T -> string)
    ensures TotalPreorder(ByKey(key))
  {
    forall a: T, b: T ensures ByKey(key)(a, b) || ByKey(key)(b, a) {
      StrLeTotal(key(a), key(b));
    }
    forall a: T, b: T, c: T | ByKey(key)(a, b) && ByKey(key)(b, c) ensures ByKey(key)(a, c) {
      StrLeTrans(key(a), key(b), key(c));
    }
  }

  /** Ascending order of one string column, then of a second one (`ORDER BY major, minor`). */
  function ByKeys<T>(major: T -> string, minor: T -> string): (T, T) -> bool {
    (a: T, b: T) => if major(a) == major(b) then StrLe(minor(a), minor(b)) else StrLe(major(a), major(b))
  }

  lemma ByKeysPreorder<T(!new)>(major: T -> string, minor: T -> string)
    ensures TotalPreorder(ByKeys(major, minor))
  {
    var le := ByKeys(major, minor);
    forall a: T, b: T ensures le(a, b) || le(b, a) {
      StrLeTotal(major(a), major(b));
      StrLeTotal(minor(a), minor(b));
    }
    forall a: T, b: T, c: T | le(a, b) && le(b, c) ensures le(a, c) {
      if major(a) == major(b) && major(b) == major(c) {
        StrLeTrans(minor(a), minor(b), minor(c));
      } else if major(a) == major(b) {
      } else if major(b) == major(c) {
      } else {
        StrLeTrans(major(a), major(b), major(c));
        if major(a) == major(c) {
          StrLeAntisym(major(a), major(b));
        }
      }
    }
  }

  /** Ascending order of an integer column. */
  function ByIntAsc<T>(key: T -> int): (T, T) -> bool {
    (a: T, b: T) => key(a) <= key(b)
  }

  /** Descending order of an integer column. */
  function ByIntDesc<T>(key: T -> int): (T, T) -> bool {
    (a: T, b: T) => key(a) >= key(b)
  }

  lemma ByIntPreorders<T(!new)>(key: T -> int)
    ensures TotalPreorder(ByIntAsc(key)) && TotalPreorder(ByIntDesc(key))
  {
  }

  // ---------------------------------------------------------------------------
  // Filtering, counting and summing (SQL WHERE, COUNT, SUM)
  // ---------------------------------------------------------------------------

  function Filter<T(!new)>(s: seq<T>, p: T -> bool): (r: seq<T>)
    ensures |r| <= |s|
    ensures forall x :: x in r <==> x in s && p(x)
  {
    if s == [] then []
    else
      assert s == [s[0]] + s[1..];
      (if p(s[0]) then [s[0]] else []) + Filter(s[1..], p)
  }

  lemma {:induction false} FilterConcat<T(!new)>(a: seq<T>, b: seq<T>, p: T -> bool)
    ensures Filter(a + b, p) == Filter(a, p) + Filter(b, p)
  {
    if a != [] {
      assert (a + b)[1..] == a[1..] + b;
      FilterConcat(a[1..], b, p);
    } else {
      assert a + b == b;
    }
  }

  /** A filter that no element passes leaves nothing. */
  lemma {:induction false} FilterNone<T(!new)>(s: seq<T>, p: T -> bool)
    requires forall x :: x in s ==> !p(x)
    ensures Filter(s, p) == []
  {
    if s != [] {
      assert s[0] in s;
      assert forall x :: x in s[1..] ==> x in s;
      FilterNone(s[1..], p);
    }
  }

  /** Filtering commutes with a mapping that does not change the filter's
      verdict on any element. */
  lemma {:induction false} FilterMapSeq<T(!new)>(s: seq<T>, g: T -> T, p: T -> bool)
    requires forall x :: x in s ==> p(g(x)) == p(x)
    ensures Filter(MapSeq(s, g), p) == MapSeq(Filter(s, p), g)
  {
    if s != [] {
      assert s[0] in s;
      assert forall x :: x in s[1..] ==> x in s;
      FilterMapSeq(s[1..], g, p);
      assert MapSeq(s, g)[1..] == MapSeq(s[1..], g);
      if p(s[0]) {
        assert MapSeq(Filter(s, p), g) == [g(s[0])] + MapSeq(Filter(s[1..], p), g);
      }
    }
  }

  /** Number of elements satisfying `p`. */
  function CountWhere<T(!new)>(s: seq<T>, p: T -> bool): (n: nat)
    ensures n <= |s|
  {
    |Filter(s, p)|
  }

  function Sum(s: seq<int>): int {
    if s == [] then 0 else s[0] + Sum(s[1..])
  }

  lemma {:induction false} SumConcat(a: seq<int>, b: seq<int>)
    ensures Sum(a + b) == Sum(a) + Sum(b)
  {
    if a != [] {
      assert (a + b)[1..] == a[1..] + b;
      SumConcat(a[1..], b);
    } else {
      assert a + b == b;
    }
  }

  function MapSeq<T, U>(s: seq<T>, f: T -> U): (r: seq<U>)
    ensures |r| == |s|
    ensures forall i :: 0 <= i < |s| ==> r[i] == f(s[i])
  {
    if s == [] then [] else [f(s[0])] + MapSeq(s[1..], f)
  }

  /** The mapped sequence holds the image of every element and nothing else. */
  lemma MapSeqMembers<T, U>(s: seq<T>, f: T -> U)
    ensures forall x :: x in s ==> f(x) in MapSeq(s, f)
    ensures forall y :: y in MapSeq(s, f) ==> exists x :: x in s && y == f(x)
  {
    var r := MapSeq(s, f);
    forall x | x in s ensures f(x) in r {
      var i :| 0 <= i < |s| && s[i] == x;
      assert r[i] == f(x);
    }
    forall y | y in r ensures exists x :: x in s && y == f(x) {
      var i :| 0 <= i < |r| && r[i] == y;
      assert s[i] in s;
    }
  }

  /** `SUM(col)`: SQL gives NULL over no rows. */
  function SqlSum(s: seq<int>): (r: Option<int>)
    ensures r.None? <==> s == []
  {
    if s == [] then None else Some(Sum(s))
  }

  function Take<T>(s: seq<T>, n: nat): (r: seq<T>)
    ensures |r| == if n < |s| then n else |s|
    ensures r <= s
  {
    if n < |s| then s[..n] else s
  }

  // ---------------------------------------------------------------------------
  // Paging (SQL `LIMIT :limit OFFSET :offset`)
  // ---------------------------------------------------------------------------

  /** Offset `(page - 1) * perPage`. A negative offset or limit makes the
      statement fail, which is `None` here. */
  function Paginate<T>(s: seq<T>, page: int, perPage: int): (r: Option<seq<T>>)
    ensures r.None? <==> (page - 1) * perPage < 0 || perPage < 0
    ensures r.Some? ==> |r.value| <= perPage
    ensures r.Some? ==> forall i :: 0 <= i < |r.value| ==>
              (page - 1) * perPage + i < |s| && r.value[i] == s[(page - 1) * perPage + i]
  {
    var offset := (page - 1) * perPage;
    if offset < 0 || perPage < 0 then None
    else if offset >= |s| then Some([])
    else Some(s[offset..if offset + perPage < |s| then offset + perPage else |s|])
  }

  /** A page of a sorted listing is sorted, and holds only rows of the listing. */
  lemma PageOfSortedListing<T>(s: seq<T>, page: int, perPage: int, le: (T, T) -> bool)
    requires SortedBy(s, le)
    requires Paginate(s, page, perPage).Some?
    ensures SortedBy(Paginate(s, page, perPage).value, le)
    ensures forall x :: x in Paginate(s, page, perPage).value ==> x in s
  {
    var r := Paginate(s, page, perPage).value;
    var offset := (page - 1) * perPage;
    forall i, j | 0 <= i < j < |r| ensures le(r[i], r[j]) {
      assert r[i] == s[offset + i] && r[j] == s[offset + j];
    }
    forall x | x in r ensures x in s {
      var i :| 0 <= i < |r| && r[i] == x;
      assert s[offset + i] == x;
    }
  }

  /** Pages of one listing never overlap, and consecutive pages tile the listing. */
  lemma PagesAreConsecutive<T>(s: seq<T>, page: int, perPage: int)
    requires page >= 1 && perPage > 0 && page * perPage < |s|
    ensures Paginate(s, page, perPage).Some? && Paginate(s, page + 1, perPage).Some?
    ensures Paginate(s, page, perPage).value == s[(page - 1) * perPage..page * perPage]
    ensures Paginate(s, page + 1, perPage).value[0] == s[page * perPage]
  {
    assert (page - 1) * perPage + perPage == page * perPage;
    assert (page + 1 - 1) * perPage == page * perPage;
  }

  // ---------------------------------------------------------------------------
  // Tables: rows of a keyed table in primary-key order
  // ---------------------------------------------------------------------------

  predicate IsMin(s: set<int>, m: int) {
    m in s && forall y :: y in s ==> m <= y
  }

  lemma Pick(s: set<int>) returns (x: int)
    requires s != {}
    ensures x in s
  {
    if forall y :: y !in s {
      assert false;
    }
    x :| x in s;
  }

  lemma MinOf(s: set<int>) returns (m: int)
    requires s != {}
    ensures IsMin(s, m)
    decreases |s|
  {
    var x := Pick(s);
    if s == {x} {
      m := x;
    } else {
      var m' := MinOf(s - {x});
      m := if x < m' then x else m';
      forall y | y in s ensures m <= y {
        if y != x { assert y in s - {x}; }
      }
    }
  }

  lemma MinExists(s: set<int>)
    requires s != {}
    ensures exists m :: IsMin(s, m)
  {
    var m := MinOf(s);
    assert IsMin(s, m);
  }

  /** The smallest key of a non-empty key set. */
  function MinKey(s: set<int>): (m: int)
    requires s != {}
    ensures m in s && forall y :: y in s ==> m <= y
  {
    MinExists(s);
    var m :| IsMin(s, m);
    m
  }

  /** The keys of a table in ascending order (a table scan by primary key). */
  function KeysAsc(s: set<int>): (r: seq<int>)
    ensures forall i, j :: 0 <= i < j < |r| ==> r[i] < r[j]
    ensures forall k :: k in r <==> k in s
    ensures |r| == |s|
    decreases |s|
  {
    if s == {} then []
    else
      var m := MinKey(s);
      [m] + KeysAsc(s - {m})
  }

  /** The rows of a table, in primary-key order. */
  function Rows<R(==,!new)>(m: map<int, R>): (r: seq<R>)
    ensures |r| == |m|
    ensures forall x :: x in r <==> x in m.Values
  {
    var ks := KeysAsc(m.Keys);
    var r := seq(|ks|, i requires 0 <= i < |ks| => m[ks[i]]);
    assert forall x :: x in r ==> x in m.Values by {
      forall x | x in r ensures x in m.Values {
        var i :| 0 <= i < |r| && r[i] == x;
        assert ks[i] in m;
      }
    }
    assert forall x :: x in m.Values ==> x in r by {
      forall x | x in m.Values ensures x in r {
        var k :| k in m && m[k] == x;
        var i :| 0 <= i < |ks| && ks[i] == k;
        assert r[i] == x;
      }
    }
    r
  }

  /** The i-th row is the row under the i-th smallest key. */
  lemma RowsInKeyOrder<R(!new)>(m: map<int, R>)
    ensures forall i :: 0 <= i < |Rows(m)| ==> KeysAsc(m.Keys)[i] in m && Rows(m)[i] == m[KeysAsc(m.Keys)[i]]
  {
  }

  /** Overwriting the row under one key changes the listing at that key's
      place only: the listing is the old one with `g` applied, for any `g`
      that gives the new row on the old one and leaves the others alone. */
  lemma RowsAfterPut<R(!new)>(m: map<int, R>, k: int, v: R, g: R -> R)
    requires k in m
    requires forall j :: j in m ==> g(m[j]) == if j == k then v else m[j]
    ensures Rows(m[k := v]) == MapSeq(Rows(m), g)
  {
    var m' := m[k := v];
    assert m'.Keys == m.Keys;
    RowsInKeyOrder(m);
    RowsInKeyOrder(m');
  }
}
