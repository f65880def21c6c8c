/**
 * `ORDER BY <column> ASC` on a nullable integer column, as SQL Server evaluates
 * it: NULL sorts before every value. Rows with equal keys keep the order in
 * which the table holds them (SQL leaves that order open; the model fixes one).
 */
module Ordering {
  import opened Base

  /** Ascending order on a nullable key, NULLs first. */
  predicate NullsFirstLe(a: Option<int>, b: Option<int>) {
    match a
    case None => true
    case Some(x) => b.Some? && x <= b.value
  }

  ghost predicate SortedBy<T>(key: T -> Option<int>, s: seq<T>) {
    forall i, j :: 0 <= i < j < |s| ==> NullsFirstLe(key(s[i]), key(s[j]))
  }

  /** Places `x` before the first element that does not sort before it. */
  function InsertBy<T>(key: T -> Option<int>, x: T, s: seq<T>): (r: seq<T>)
    ensures |r| == |s| + 1
  {
    if s == [] then [x]
    else if NullsFirstLe(key(x), key(s[0])) then [x] + s
    else [s[0]] + InsertBy(key, x, s[1..])
  }

  /** Stable insertion sort by `key`. */
  function SortBy<T>(key: T -> Option<int>, s: seq<T>): (r: seq<T>)
    ensures |r| == |s|
  {
    if s == [] then [] else InsertBy(key, s[0], SortBy(key, s[1..]))
  }

  lemma {:induction false} InsertByPermutes<T>(key: T -> Option<int>, x: T, s: seq<T>)
    ensures multiset(InsertBy(key, x, s)) == multiset(s) + multiset{x}
  {
    if s != [] && !NullsFirstLe(key(x), key(s[0])) {
      InsertByPermutes(key, x, s[1..]);
      assert s == [s[0]] + s[1..];
    }
  }

  lemma {:induction false} InsertBySorted<T>(key: T -> Option<int>, x: T, s: seq<T>)
    requires SortedBy(key, s)
    ensures SortedBy(key, InsertBy(key, x, s))
  {
    if s != [] && !NullsFirstLe(key(x), key(s[0])) {
      var t := s[1..];
      assert SortedBy(key, t) by {
        forall i, j | 0 <= i < j < |t| ensures NullsFirstLe(key(t[i]), key(t[j])) {
          assert t[i] == s[i + 1] && t[j] == s[j + 1];
        }
      }
      InsertBySorted(key, x, t);
      InsertByPermutes(key, x, t);
      var r := InsertBy(key, x, t);
      forall k | 0 <= k < |r| ensures NullsFirstLe(key(s[0]), key(r[k])) {
        assert r[k] in multiset(r);
        if r[k] == x {
        } else {
          assert r[k] in multiset(t);
          var m :| 0 <= m < |t| && t[m] == r[k];
          assert t[m] == s[m + 1];
        }
      }
    }
  }

  lemma {:induction false} SortByPermutes<T>(key: T -> Option<int>, s: seq<T>)
    ensures multiset(SortBy(key, s)) == multiset(s)
  {
    if s != [] {
      SortByPermutes(key, s[1..]);
      InsertByPermutes(key, s[0], SortBy(key, s[1..]));
      assert s == [s[0]] + s[1..];
    }
  }

  lemma {:induction false} SortBySorted<T>(key: T -> Option<int>, s: seq<T>)
    ensures SortedBy(key, SortBy(key, s))
  {
    if s != [] {
      SortBySorted(key, s[1..]);
      InsertBySorted(key, s[0], SortBy(key, s[1..]));
    }
  }

  /** The sort result is an ordering of the input: sorted, and the same rows with the same multiplicities. */
  lemma SortByCorrect<T>(key: T -> Option<int>, s: seq<T>)
    ensures SortedBy(key, SortBy(key, s))
    ensures multiset(SortBy(key, s)) == multiset(s)
  {
    SortBySorted(key, s);
    SortByPermutes(key, s);
  }

  /** A sequence element belongs to the multiset of the sequence (used to move between the two views). */
  lemma InMultiset<T>(x: T, s: seq<T>, t: seq<T>)
    requires multiset(s) == multiset(t)
    ensures x in s <==> x in t
  {
    assert x in s <==> x in multiset(s);
    assert x in t <==> x in multiset(t);
  }

  /** No two elements share a key. */
  ghost predicate KeysDistinct<T>(key: T -> Option<int>, s: seq<T>) {
    forall i, j :: 0 <= i < j < |s| ==> key(s[i]) != key(s[j])
  }

  /** Putting an element whose key no element has in front keeps the keys distinct. */
  lemma KeysDistinctCons<T>(key: T -> Option<int>, x: T, s: seq<T>)
    requires KeysDistinct(key, s)
    requires forall k :: 0 <= k < |s| ==> key(s[k]) != key(x)
    ensures KeysDistinct(key, [x] + s)
  {
    var r := [x] + s;
    forall i, j | 0 <= i < j < |r| ensures key(r[i]) != key(r[j]) {
      assert r[j] == s[j - 1];
      if i > 0 {
        assert r[i] == s[i - 1];
      }
    }
  }

  lemma {:induction false} InsertByDistinct<T>(key: T -> Option<int>, x: T, s: seq<T>)
    requires KeysDistinct(key, s)
    requires forall k :: 0 <= k < |s| ==> key(s[k]) != key(x)
    ensures KeysDistinct(key, InsertBy(key, x, s))
  {
    if s != [] && !NullsFirstLe(key(x), key(s[0])) {
      var t := s[1..];
      assert forall k :: 0 <= k < |t| ==> t[k] == s[k + 1];
      InsertByDistinct(key, x, t);
      InsertByPermutes(key, x, t);
      var r := InsertBy(key, x, t);
      forall k | 0 <= k < |r| ensures key(s[0]) != key(r[k]) {
        assert r[k] in multiset(r);
        if r[k] != x {
          assert r[k] in multiset(t);
          var m :| 0 <= m < |t| && t[m] == r[k];
        }
      }
    }
  }

  /** Sorting keeps keys distinct. */
  lemma {:induction false} SortByDistinct<T>(key: T -> Option<int>, s: seq<T>)
    requires KeysDistinct(key, s)
    ensures KeysDistinct(key, SortBy(key, s))
  {
    if s != [] {
      var t := s[1..];
      assert forall k :: 0 <= k < |t| ==> t[k] == s[k + 1];
      SortByDistinct(key, t);
      SortByPermutes(key, t);
      var u := SortBy(key, t);
      forall k | 0 <= k < |u| ensures key(u[k]) != key(s[0]) {
        assert u[k] in multiset(u);
        assert u[k] in multiset(t);
        var m :| 0 <= m < |t| && t[m] == u[k];
      }
      InsertByDistinct(key, s[0], u);
    }
  }

  /** When keys are distinct, the sorted order is strictly increasing. */
  lemma SortByStrict<T>(key: T -> Option<int>, s: seq<T>)
    requires KeysDistinct(key, s)
    ensures forall i, j :: 0 <= i < j < |s| ==>
      NullsFirstLe(key(SortBy(key, s)[i]), key(SortBy(key, s)[j])) && key(SortBy(key, s)[i]) != key(SortBy(key, s)[j])
  {
    SortBySorted(key, s);
    SortByDistinct(key, s);
  }
}
