/** The two shapes every read endpoint has: a scan of one table for the rows
    a WHERE clause keeps, and an ORDER BY on one column. A table is a map
    from identity value to row; identities lie in a known range [lo, hi). */
module Query {

  /** The rows of `m` with identity in [lo, hi) that `keep` accepts, in
      identity order. */
  function SelectRows<T>(m: map<int, T>, keep: T -> bool, lo: int, hi: int): (rows: seq<(int, T)>)
    decreases hi - lo
    ensures forall k :: 0 <= k < |rows| ==>
      rows[k].0 in m && m[rows[k].0] == rows[k].1 && keep(rows[k].1) && lo <= rows[k].0 < hi
    ensures forall id :: id in m && lo <= id < hi && keep(m[id]) ==> (id, m[id]) in rows
    ensures forall a, b :: 0 <= a < b < |rows| ==> rows[a].0 < rows[b].0
  {
    if lo >= hi then []
    else if lo in m && keep(m[lo]) then [(lo, m[lo])] + SelectRows(m, keep, lo + 1, hi)
    else SelectRows(m, keep, lo + 1, hi)
  }

  ghost predicate SortedBy<T>(s: seq<T>, key: T -> int)
  {
    forall i, j :: 0 <= i < j < |s| ==> key(s[i]) <= key(s[j])
  }

  ghost predicate Distinct<T>(s: seq<T>)
  {
    forall i, j :: 0 <= i < j < |s| ==> s[i] != s[j]
  }

  /** Places `x` before the first element whose key is not smaller. */
  function InsertBy<T>(x: T, s: seq<T>, key: T -> int): (r: seq<T>)
    requires SortedBy(s, key)
    ensures SortedBy(r, key)
    ensures multiset(r) == multiset(s) + multiset{x}
  {
    if s == [] then [x]
    else if key(x) <= key(s[0]) then [x] + s
    else
      var rest := InsertBy(x, s[1..], key);
      assert s == [s[0]] + s[1..];
      HeadBelowRest(s[0], x, s[1..], rest, key);
      [s[0]] + rest
  }

  /** Every element of an insertion into the tail of a sorted sequence keeps
      a key no smaller than the head's. */
  lemma HeadBelowRest<T>(h: T, x: T, tail: seq<T>, rest: seq<T>, key: T -> int)
    requires key(h) < key(x)
    requires forall j :: 0 <= j < |tail| ==> key(h) <= key(tail[j])
    requires multiset(rest) == multiset(tail) + multiset{x}
    ensures forall j :: 0 <= j < |rest| ==> key(h) <= key(rest[j])
  {
    forall j | 0 <= j < |rest|
      ensures key(h) <= key(rest[j])
    {
      assert rest[j] in multiset(rest);
      if rest[j] != x {
        assert rest[j] in multiset(tail);
        assert rest[j] in tail;
      }
    }
  }

  /** ORDER BY key ASC (a stable insertion sort). */
  function SortBy<T>(s: seq<T>, key: T -> int): (r: seq<T>)
    ensures SortedBy(r, key)
    ensures multiset(r) == multiset(s)
  {
    if s == [] then []
    else
      assert s == [s[0]] + s[1..];
      InsertBy(s[0], SortBy(s[1..], key), key)
  }

  /** In a sequence without repeats, every element occurs exactly once. */
  lemma {:induction false} DistinctOnce<T>(s: seq<T>, x: T)
    requires Distinct(s)
    requires x in s
    ensures multiset(s)[x] == 1
  {
    assert s == [s[0]] + s[1..];
    if s[0] == x {
      assert x !in s[1..];
    } else {
      DistinctOnce(s[1..], x);
    }
  }

  /** SELECT ... WHERE keep ORDER BY key ASC: every kept row of the table
      occurs exactly once, nothing else occurs, and keys ascend. */
  function Listing<T>(m: map<int, T>, keep: T -> bool, lo: int, hi: int, key: T -> int): (rows: seq<(int, T)>)
    ensures forall x :: x in rows ==> x.0 in m && m[x.0] == x.1 && keep(x.1) && lo <= x.0 < hi
    ensures forall id :: id in m && lo <= id < hi && keep(m[id]) ==> multiset(rows)[(id, m[id])] == 1
    ensures forall i, j :: 0 <= i < j < |rows| ==> key(rows[i].1) <= key(rows[j].1)
  {
    var found := SelectRows(m, keep, lo, hi);
    var rowKey := (row: (int, T)) => key(row.1);
    var sorted := SortBy(found, rowKey);
    assert forall i, j :: 0 <= i < j < |sorted| ==> rowKey(sorted[i]) <= rowKey(sorted[j]);
    OnceEach(m, keep, lo, hi, found, sorted);
    sorted
  }

  lemma OnceEach<T>(m: map<int, T>, keep: T -> bool, lo: int, hi: int, found: seq<(int, T)>, sorted: seq<(int, T)>)
    requires found == SelectRows(m, keep, lo, hi)
    requires multiset(sorted) == multiset(found)
    ensures forall x :: x in sorted ==> x.0 in m && m[x.0] == x.1 && keep(x.1) && lo <= x.0 < hi
    ensures forall id :: id in m && lo <= id < hi && keep(m[id]) ==> multiset(sorted)[(id, m[id])] == 1
  {
    forall x | x in sorted
      ensures x.0 in m && m[x.0] == x.1 && keep(x.1) && lo <= x.0 < hi
    {
      assert x in multiset(found);
      var k :| 0 <= k < |found| && found[k] == x;
    }
    assert Distinct(found);
    forall id | id in m && lo <= id < hi && keep(m[id])
      ensures multiset(sorted)[(id, m[id])] == 1
    {
      DistinctOnce(found, (id, m[id]));
    }
  }
}
