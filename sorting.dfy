/** The ordering of query results by an integer column (`ORDER BY`), as an
    insertion sort whose contract is what SQL promises: the rows come back in
    non-decreasing key order and are exactly the rows selected. The insertion
    is stable: rows with equal keys keep their table order. */
module Sorting {

  ghost predicate SortedBy<T>(s: seq<T>, key: T -> int) {
    forall i, j :: 0 <= i < j < |s| ==> key(s[i]) <= key(s[j])
  }

  function Insert<T>(x: T, s: seq<T>, key: T -> int): (r: seq<T>)
    requires SortedBy(s, key)
    ensures SortedBy(r, key)
    ensures multiset(r) == multiset(s) + multiset{x}
  {
    if s == [] then [x]
    else if key(x) <= key(s[0]) then [x] + s
    else
      var tail := Insert(x, s[1..], key);
      InsertAfterHead(s, tail, x, key);
      [s[0]] + tail
  }

  /** Putting the head back in front of the tail with `x` inserted keeps the
      order and adds exactly `x`. */
  lemma InsertAfterHead<T>(s: seq<T>, tail: seq<T>, x: T, key: T -> int)
    requires s != [] && SortedBy(s, key) && key(s[0]) <= key(x)
    requires SortedBy(tail, key) && multiset(tail) == multiset(s[1..]) + multiset{x}
    ensures SortedBy([s[0]] + tail, key)
    ensures multiset([s[0]] + tail) == multiset(s) + multiset{x}
  {
    forall e | e in tail ensures key(s[0]) <= key(e) {
      assert e in multiset(tail);
      if e != x {
        assert e in multiset(s[1..]);
        var k :| 0 <= k < |s[1..]| && s[1..][k] == e;
        assert s[k + 1] == e;
      }
    }
    assert s == [s[0]] + s[1..];
  }

  /** `ORDER BY key`: a permutation of `s` in non-decreasing key order. */
  function SortBy<T>(s: seq<T>, key: T -> int): (r: seq<T>)
    ensures SortedBy(r, key)
    ensures multiset(r) == multiset(s)
    ensures |r| == |s|
  {
    if s == [] then []
    else
      assert s == [s[0]] + s[1..];
      Insert(s[0], SortBy(s[1..], key), key)
  }

  /** Two rows with equal keys come back in table order. */
  lemma TiesKeepOrder<T>(x: T, y: T, key: T -> int)
    requires key(x) == key(y)
    ensures SortBy([x, y], key) == [x, y]
  {
    assert [x, y][1..] == [y];
  }

  /** In a sorted sequence a row with a smaller key comes first. */
  lemma SmallerKeyFirst<T>(s: seq<T>, key: T -> int, i: nat, j: nat)
    requires SortedBy(s, key) && i < |s| && j < |s|
    requires key(s[i]) < key(s[j])
    ensures i < j
  {
  }
}
