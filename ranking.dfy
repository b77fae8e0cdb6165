/**
 * Ranking by weight, descending: the one concept behind pandas'
 * `Series.sort_values(ascending=False).head(n)` and numpy's
 * `argsort()[::-1][:n]`. A series is a list of key/value entries; neither
 * library sort is stable, so only the order of the values is specified, not
 * the order of entries with equal values.
 */
module Ranking {

  datatype Entry = Entry(key: int, value: int)

  function Min(a: int, b: int): int { if a <= b then a else b }

  predicate NonIncreasing(s: seq<Entry>)
  {
    forall i, j :: 0 <= i < j < |s| ==> s[i].value >= s[j].value
  }

  predicate DistinctKeys(s: seq<Entry>)
  {
    forall i, j :: 0 <= i < j < |s| ==> s[i].key != s[j].key
  }

  /** The index of a series, in order. */
  function Keys(s: seq<Entry>): seq<int>
  {
    seq(|s|, i requires 0 <= i < |s| => s[i].key)
  }

  /** The sum of the values of a series. */
  function Total(s: seq<Entry>): int
  {
    if s == [] then 0 else s[0].value + Total(s[1..])
  }

  /** Places x before the first entry of the series that it does not outweigh. */
  function Insert(x: Entry, s: seq<Entry>): (r: seq<Entry>)
    ensures |r| == |s| + 1
  {
    if s == [] || x.value >= s[0].value then [x] + s
    else [s[0]] + Insert(x, s[1..])
  }

  /** Insertion adds exactly x. */
  lemma {:induction false} InsertPermutes(x: Entry, s: seq<Entry>)
    ensures multiset(Insert(x, s)) == multiset(s) + multiset{x}
  {
    if s != [] && x.value < s[0].value {
      InsertPermutes(x, s[1..]);
      assert s == [s[0]] + s[1..];
    }
  }

  lemma ConsNonIncreasing(x: Entry, s: seq<Entry>)
    requires NonIncreasing(s)
    requires forall e :: e in s ==> e.value <= x.value
    ensures NonIncreasing([x] + s)
  {
    forall i, j | 0 <= i < j < |s| + 1 ensures ([x] + s)[i].value >= ([x] + s)[j].value {
      assert ([x] + s)[j] == s[j - 1];
    }
  }

  /** Insertion into a descending series keeps it descending. */
  lemma {:induction false} InsertOrdered(x: Entry, s: seq<Entry>)
    requires NonIncreasing(s)
    ensures NonIncreasing(Insert(x, s))
  {
    if s == [] || x.value >= s[0].value {
      ConsNonIncreasing(x, s);
    } else {
      var tail := s[1..];
      var rest := Insert(x, tail);
      InsertOrdered(x, tail);
      InsertPermutes(x, tail);
      forall e | e in rest ensures e.value <= s[0].value {
        assert e in multiset(rest);
        if e != x {
          assert e in multiset(tail);
          var j :| 0 <= j < |tail| && tail[j] == e;
          assert s[j + 1] == e;
        }
      }
      ConsNonIncreasing(s[0], rest);
    }
  }

  /** The series sorted by value, descending (insertion sort). */
  function SortDescending(s: seq<Entry>): (r: seq<Entry>)
    ensures |r| == |s|
  {
    if s == [] then [] else Insert(s[0], SortDescending(s[1..]))
  }

  /** Sorting permutes the series and leaves it in descending order. */
  lemma {:induction false} SortPermutes(s: seq<Entry>)
    ensures multiset(SortDescending(s)) == multiset(s)
    ensures NonIncreasing(SortDescending(s))
  {
    if s != [] {
      SortPermutes(s[1..]);
      InsertPermutes(s[0], SortDescending(s[1..]));
      InsertOrdered(s[0], SortDescending(s[1..]));
      assert s == [s[0]] + s[1..];
    }
  }

  lemma {:induction false} InsertTotal(x: Entry, s: seq<Entry>)
    ensures Total(Insert(x, s)) == Total(s) + x.value
  {
    if s != [] && x.value < s[0].value {
      InsertTotal(x, s[1..]);
      assert ([s[0]] + Insert(x, s[1..]))[1..] == Insert(x, s[1..]);
    }
  }

  /** Sorting does not change the sum of the values. */
  lemma {:induction false} SortTotal(s: seq<Entry>)
    ensures Total(SortDescending(s)) == Total(s)
  {
    if s != [] {
      SortTotal(s[1..]);
      InsertTotal(s[0], SortDescending(s[1..]));
    }
  }

  lemma {:induction false} InsertDistinct(x: Entry, s: seq<Entry>)
    requires DistinctKeys(s)
    requires forall e :: e in s ==> e.key != x.key
    ensures DistinctKeys(Insert(x, s))
  {
    if s != [] && x.value < s[0].value {
      var rest := Insert(x, s[1..]);
      InsertDistinct(x, s[1..]);
      InsertPermutes(x, s[1..]);
      forall e | e in rest ensures e.key != s[0].key {
        assert e in multiset(rest);
        if e != x {
          var j :| 1 <= j < |s| && s[j] == e;
        }
      }
      assert Insert(x, s) == [s[0]] + rest;
    }
  }

  /** Sorting keeps the keys of a series distinct. */
  lemma {:induction false} SortDistinct(s: seq<Entry>)
    requires DistinctKeys(s)
    ensures DistinctKeys(SortDescending(s))
  {
    if s != [] {
      var rest := SortDescending(s[1..]);
      SortDistinct(s[1..]);
      SortPermutes(s[1..]);
      forall e | e in rest ensures e.key != s[0].key {
        assert e in multiset(rest);
        var j :| 1 <= j < |s| && s[j] == e;
      }
      InsertDistinct(s[0], rest);
    }
  }

  /** `sort_values(ascending=False).head(n)`: the first n entries by descending value. */
  function Head(s: seq<Entry>, n: nat): seq<Entry>
  {
    SortDescending(s)[..Min(n, |s|)]
  }

  /** The entries taken are a prefix of the sorted series. */
  lemma HeadPrefix(s: seq<Entry>, n: nat)
    ensures var sorted := SortDescending(s);
      && |Head(s, n)| == Min(n, |s|)
      && sorted == Head(s, n) + sorted[Min(n, |s|)..]
  {
  }

  /** The head is in descending order and every entry of it comes from the series. */
  lemma {:induction false} HeadOrderedFrom(s: seq<Entry>, n: nat)
    ensures NonIncreasing(Head(s, n))
    ensures forall e :: e in Head(s, n) ==> e in s
  {
    var sorted := SortDescending(s);
    var h := Head(s, n);
    SortPermutes(s);
    HeadPrefix(s, n);
    forall e | e in h ensures e in s {
      assert e in sorted;
      assert e in multiset(sorted);
    }
  }

  /** No entry left out outweighs an entry taken. */
  lemma {:induction false} HeadDominates(s: seq<Entry>, n: nat)
    ensures forall e, i :: e in s && e !in Head(s, n) && 0 <= i < |Head(s, n)| ==> e.value <= Head(s, n)[i].value
  {
    var sorted := SortDescending(s);
    var h := Head(s, n);
    var m := Min(n, |s|);
    SortPermutes(s);
    HeadPrefix(s, n);
    forall e, i | e in s && e !in h && 0 <= i < |h| ensures e.value <= h[i].value {
      assert e in multiset(sorted);
      assert e in sorted[m..];
      var j :| 0 <= j < |sorted| - m && sorted[m..][j] == e;
      assert sorted[m + j] == e;
      assert h[i] == sorted[i];
    }
  }

  /**
   * The head holds min(n, |s|) entries of the series in descending order,
   * with distinct keys when the series has them, and no entry left out
   * outweighs any entry taken.
   */
  lemma {:induction false} HeadIsTop(s: seq<Entry>, n: nat)
    ensures |Head(s, n)| == Min(n, |s|)
    ensures NonIncreasing(Head(s, n))
    ensures forall e :: e in Head(s, n) ==> e in s
    ensures DistinctKeys(s) ==> DistinctKeys(Head(s, n))
    ensures Min(n, |s|) == |s| ==> Total(Head(s, n)) == Total(s)
    ensures forall e, i :: e in s && e !in Head(s, n) && 0 <= i < |Head(s, n)| ==> e.value <= Head(s, n)[i].value
  {
    HeadPrefix(s, n);
    HeadOrderedFrom(s, n);
    HeadDominates(s, n);
    if DistinctKeys(s) {
      SortDistinct(s);
    }
    if Min(n, |s|) == |s| {
      SortTotal(s);
      assert Head(s, n) == SortDescending(s);
    }
  }
}
