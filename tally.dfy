/**
 * Counting over sequences of integer keys, shared by the group-by of topic ids
 * and the (year, topic) pivot table: occurrence counts, the ascending list of
 * distinct keys that pandas uses as a group-by or pivot index, and the fact
 * that counts over a list of distinct keys covering the data add up to its length.
 */
module Tally {

  /** Number of occurrences of k in xs. */
  function Count(xs: seq<int>, k: int): nat
  {
    if xs == [] then 0 else (if xs[0] == k then 1 else 0) + Count(xs[1..], k)
  }

  predicate StrictlyIncreasing(s: seq<int>)
  {
    forall i, j :: 0 <= i < j < |s| ==> s[i] < s[j]
  }

  /** Adds x to a strictly increasing list of keys, unless it is already there. */
  function InsertKey(x: int, s: seq<int>): seq<int>
  {
    if s == [] then [x]
    else if x < s[0] then [x] + s
    else if x == s[0] then s
    else [s[0]] + InsertKey(x, s[1..])
  }

  lemma {:induction false} InsertKeyMembers(x: int, s: seq<int>)
    ensures forall v :: v in InsertKey(x, s) <==> v == x || v in s
  {
    if s != [] && x > s[0] {
      InsertKeyMembers(x, s[1..]);
      assert s == [s[0]] + s[1..];
    }
  }

  lemma {:induction false} InsertKeyOrdered(x: int, s: seq<int>)
    requires StrictlyIncreasing(s)
    ensures StrictlyIncreasing(InsertKey(x, s))
  {
    if s != [] && x > s[0] {
      var tail := s[1..];
      var rest := InsertKey(x, tail);
      InsertKeyOrdered(x, tail);
      InsertKeyMembers(x, tail);
      forall v | v in rest ensures s[0] < v {
        if v != x {
          var j :| 0 <= j < |tail| && tail[j] == v;
          assert s[j + 1] == v;
        }
      }
      var r := [s[0]] + rest;
      forall i, j | 0 <= i < j < |r| ensures r[i] < r[j] {
        assert r[j] == rest[j - 1] && rest[j - 1] in rest;
        if i > 0 {
          assert r[i] == rest[i - 1];
        }
      }
      assert InsertKey(x, s) == r;
    }
  }

  /** The distinct values of xs in ascending order (a sorted group-by index). */
  function SortedKeys(xs: seq<int>): (r: seq<int>)
    ensures StrictlyIncreasing(r)
    ensures forall v :: v in r <==> v in xs
  {
    if xs == [] then []
    else
      var rest := SortedKeys(xs[1..]);
      InsertKeyMembers(xs[0], rest);
      InsertKeyOrdered(xs[0], rest);
      assert xs == [xs[0]] + xs[1..];
      InsertKey(xs[0], rest)
  }

  /** The sum of the counts in xs of every key of ks. */
  function SumCounts(xs: seq<int>, ks: seq<int>): nat
  {
    if ks == [] then 0 else Count(xs, ks[0]) + SumCounts(xs, ks[1..])
  }

  lemma {:induction false} CountPositive(xs: seq<int>, k: int)
    ensures k in xs <==> Count(xs, k) > 0
  {
    if xs != [] {
      CountPositive(xs[1..], k);
      assert k in xs <==> xs[0] == k || k in xs[1..];
    }
  }

  lemma {:induction false} SumCountsOfEmpty(ks: seq<int>)
    ensures SumCounts([], ks) == 0
  {
    if ks != [] {
      SumCountsOfEmpty(ks[1..]);
    }
  }

  /** One more element adds one to the sum exactly when it is one of the (distinct) keys. */
  lemma {:induction false} SumCountsCons(x: int, xs: seq<int>, ks: seq<int>)
    requires StrictlyIncreasing(ks)
    ensures SumCounts([x] + xs, ks) == (if x in ks then 1 else 0) + SumCounts(xs, ks)
  {
    if ks != [] {
      assert ([x] + xs)[1..] == xs;
      SumCountsCons(x, xs, ks[1..]);
      assert x in ks <==> x == ks[0] || x in ks[1..];
      assert x == ks[0] ==> x !in ks[1..];
    }
  }

  /** Counting every key of a distinct key list that covers xs counts every element once. */
  lemma {:induction false} SumCountsCovers(xs: seq<int>, ks: seq<int>)
    requires StrictlyIncreasing(ks)
    requires forall x :: x in xs ==> x in ks
    ensures SumCounts(xs, ks) == |xs|
  {
    if xs == [] {
      SumCountsOfEmpty(ks);
    } else {
      assert [xs[0]] + xs[1..] == xs;
      SumCountsCons(xs[0], xs[1..], ks);
      SumCountsCovers(xs[1..], ks);
    }
  }
}
