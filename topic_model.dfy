/**
 * What src/topic_model.py does with the factorisation's output: the
 * document-topic matrix W (one row per document, one column per topic) and
 * the topic-term matrix H (one row per topic, one column per vocabulary
 * term) are given, as rows of abstract ordered weights. Each document gets
 * the topic of its largest weight, the enriched table gains a `topic_id`
 * column, the topics are listed by document count, and each topic's
 * highest-weighted terms are extracted.
 */
module TopicModel {
  import opened Tally
  import opened Ranking

  /** `N_TOPICS` */
  const NTopics: nat := 10

  /** `TOP_WORDS` */
  const TopWords: nat := 12

  // ---------------------------------------------------------------------------
  // Topic assignment, line 44: `W.argmax(axis=1)`

  /** k is the first index at which row reaches its maximum. */
  predicate IsFirstArgmax(row: seq<int>, k: int)
  {
    && 0 <= k < |row|
    && (forall j :: 0 <= j < |row| ==> row[j] <= row[k])
    && (forall j :: 0 <= j < k ==> row[j] < row[k])
  }

  /** numpy's argmax of one row: the first occurrence of the maximum. */
  function Argmax(row: seq<int>): (k: nat)
    requires |row| > 0
    ensures IsFirstArgmax(row, k)
  {
    if |row| == 1 then 0
    else
      var k := Argmax(row[..|row| - 1]);
      if row[|row| - 1] > row[k] then |row| - 1 else k
  }

  /** The first-argmax index of a row is unique: ties go to the smallest index. */
  lemma FirstArgmaxUnique(row: seq<int>, a: int, b: int)
    requires IsFirstArgmax(row, a) && IsFirstArgmax(row, b)
    ensures a == b
  {
    // both are maxima, so they carry equal weights; a strictly smaller index would then be below itself
    assert row[a] == row[b];
  }

  /** W has one row per document and one weight per topic. */
  predicate IsTopicMatrix(W: seq<seq<int>>)
  {
    forall i :: 0 <= i < |W| ==> |W[i]| == NTopics
  }

  /** `topic_id = W.argmax(axis=1)` */
  function AssignTopics(W: seq<seq<int>>): (ids: seq<nat>)
    requires IsTopicMatrix(W)
    ensures |ids| == |W|
    ensures forall i :: 0 <= i < |W| ==> ids[i] < NTopics && IsFirstArgmax(W[i], ids[i])
  {
    seq(|W|, i requires 0 <= i < |W| => Argmax(W[i]))
  }

  // ---------------------------------------------------------------------------
  // The enriched table, line 45: `df["topic_id"] = topic_id`

  /** A cell of the table read from clean_text.csv. */
  datatype Cell = Text(s: string) | Number(n: int) | Missing

  /** A pandas data frame: named columns of equal length, in column order. */
  class Frame {
    var columns: seq<string>
    var data: map<string, seq<Cell>>
    var rows: nat

    ghost predicate Valid()
      reads this
    {
      && (forall i, j :: 0 <= i < j < |columns| ==> columns[i] != columns[j])
      && (forall c :: c in data <==> c in columns)
      && (forall c :: c in data ==> |data[c]| == rows)
    }

    constructor (rows: nat)
      ensures Valid()
      ensures columns == [] && data == map[] && this.rows == rows
    {
      columns := [];
      data := map[];
      this.rows := rows;
    }

    /**
     * `df[name] = values`: replaces the column in place, or appends a new
     * one at the end; values of the wrong length are refused (pandas raises).
     */
    method SetColumn(name: string, values: seq<Cell>) returns (ok: bool)
      requires Valid()
      modifies this
      ensures Valid()
      ensures ok <==> |values| == old(rows)
      ensures rows == old(rows)
      ensures ok ==> data == old(data)[name := values]
      ensures ok ==> columns == if name in old(columns) then old(columns) else old(columns) + [name]
      ensures !ok ==> data == old(data) && columns == old(columns)
    {
      if |values| != rows {
        return false;
      }
      if name !in columns {
        columns := columns + [name];
      }
      data := data[name := values];
      return true;
    }
  }

  /** The `topic_id` column: one number cell per document. */
  function TopicCells(ids: seq<nat>): seq<Cell>
  {
    seq(|ids|, i requires 0 <= i < |ids| => Number(ids[i]))
  }

  /**
   * Lines 44-45: the table gains the column `topic_id` holding each
   * document's first-argmax topic; every other column is left as it was.
   */
  method LabelDocuments(df: Frame, W: seq<seq<int>>) returns (ok: bool)
    requires df.Valid() && IsTopicMatrix(W)
    modifies df
    ensures df.Valid() && df.rows == old(df.rows)
    ensures ok <==> |W| == old(df.rows)
    ensures ok ==> "topic_id" in df.data && df.data["topic_id"] == TopicCells(AssignTopics(W))
    ensures ok ==> forall c :: c in old(df.data) && c != "topic_id" ==> c in df.data && df.data[c] == old(df.data[c])
    ensures ok ==> df.data.Keys == old(df.data.Keys) + {"topic_id"}
    ensures ok && "topic_id" !in old(df.columns) ==> df.columns == old(df.columns) + ["topic_id"]
    ensures ok && "topic_id" in old(df.columns) ==> df.columns == old(df.columns)
    ensures !ok ==> df.data == old(df.data) && df.columns == old(df.columns)
  {
    var ids := AssignTopics(W);
    var cells := TopicCells(ids);
    ok := df.SetColumn("topic_id", cells);
  }

  // ---------------------------------------------------------------------------
  // Topic distribution, line 46:
  // `df.groupby("topic_id").size().sort_values(ascending=False)`

  /** One entry (key, count) per key of ks, in the order of ks. */
  function SizesOver(ids: seq<int>, ks: seq<int>): seq<Entry>
  {
    if ks == [] then [] else [Entry(ks[0], Count(ids, ks[0]))] + SizesOver(ids, ks[1..])
  }

  /** `groupby(...).size()`: one entry per distinct id, ascending, with its count. */
  function GroupSizes(ids: seq<int>): seq<Entry>
  {
    SizesOver(ids, SortedKeys(ids))
  }

  /** The topic distribution: the group sizes sorted by count, descending. */
  function TopicCounts(ids: seq<int>): seq<Entry>
  {
    SortDescending(GroupSizes(ids))
  }

  lemma {:induction false} SizesOverEntries(ids: seq<int>, ks: seq<int>)
    ensures |SizesOver(ids, ks)| == |ks|
    ensures forall i :: 0 <= i < |ks| ==> SizesOver(ids, ks)[i] == Entry(ks[i], Count(ids, ks[i]))
  {
    if ks != [] {
      SizesOverEntries(ids, ks[1..]);
      var s := SizesOver(ids, ks);
      assert s[1..] == SizesOver(ids, ks[1..]);
    }
  }

  lemma {:induction false} SizesOverSpec(ids: seq<int>, ks: seq<int>)
    requires StrictlyIncreasing(ks)
    ensures DistinctKeys(SizesOver(ids, ks))
    ensures Total(SizesOver(ids, ks)) == SumCounts(ids, ks)
  {
    SizesOverEntries(ids, ks);
    if ks != [] {
      SizesOverSpec(ids, ks[1..]);
      var s := SizesOver(ids, ks);
      assert s[1..] == SizesOver(ids, ks[1..]);
    }
  }

  /** Every entry of the sorted distribution is an entry of the group sizes. */
  lemma TopicCountsEntries(ids: seq<int>)
    ensures forall e :: e in TopicCounts(ids) <==> e in GroupSizes(ids)
  {
    var r := TopicCounts(ids);
    SortPermutes(GroupSizes(ids));
    forall e ensures e in r <==> e in GroupSizes(ids) {
      assert e in r <==> e in multiset(r);
    }
  }

  /**
   * The topic distribution lists every topic that occurs and no other, each
   * once, with its positive document count; the counts add up to the number
   * of documents and do not increase along the list.
   */
  lemma TopicCountsProperties(ids: seq<int>)
    ensures NonIncreasing(TopicCounts(ids))
    ensures DistinctKeys(TopicCounts(ids))
    ensures Total(TopicCounts(ids)) == |ids|
    ensures forall e :: e in TopicCounts(ids) ==> e.value == Count(ids, e.key) && e.value > 0
    ensures forall t :: t in Keys(TopicCounts(ids)) <==> t in ids
  {
    var ks := SortedKeys(ids);
    var g := GroupSizes(ids);
    var r := TopicCounts(ids);
    SizesOverEntries(ids, ks);
    SizesOverSpec(ids, ks);
    SumCountsCovers(ids, ks);
    SortPermutes(g);
    SortTotal(g);
    SortDistinct(g);
    TopicCountsEntries(ids);
    forall e | e in r ensures e.value == Count(ids, e.key) && e.value > 0 {
      var i :| 0 <= i < |g| && g[i] == e;
      CountPositive(ids, e.key);
    }
    forall t ensures t in Keys(r) <==> t in ids {
      TopicKey(ids, t);
    }
  }

  lemma TopicKey(ids: seq<int>, t: int)
    ensures t in Keys(TopicCounts(ids)) <==> t in ids
  {
    var ks := SortedKeys(ids);
    var g := GroupSizes(ids);
    var r := TopicCounts(ids);
    SizesOverEntries(ids, ks);
    TopicCountsEntries(ids);
    if t in Keys(r) {
      var i :| 0 <= i < |r| && Keys(r)[i] == t;
      assert r[i] in g;
      var j :| 0 <= j < |g| && g[j] == r[i];
      assert ks[j] == t;
    }
    if t in ids {
      var i :| 0 <= i < |ks| && ks[i] == t;
      assert g[i] in r;
      var j :| 0 <= j < |r| && r[j] == g[i];
      assert Keys(r)[j] == t;
    }
  }

  // ---------------------------------------------------------------------------
  // Top terms per topic, lines 50-54

  /** A row as a series indexed by column position. */
  function Indexed(row: seq<int>): seq<Entry>
  {
    seq(|row|, i requires 0 <= i < |row| => Entry(i, row[i]))
  }

  /**
   * idx lists min(n, |row|) distinct positions of row, by non-increasing
   * weight, and no position left out outweighs one listed.
   */
  predicate IsTopSelection(row: seq<int>, n: nat, idx: seq<int>)
  {
    && |idx| == Min(n, |row|)
    && (forall k :: 0 <= k < |idx| ==> 0 <= idx[k] < |row|)
    && (forall k, l :: 0 <= k < l < |idx| ==> idx[k] != idx[l])
    && (forall k, l :: 0 <= k < l < |idx| ==> row[idx[k]] >= row[idx[l]])
    && (forall j, k :: 0 <= j < |row| && j !in idx && 0 <= k < |idx| ==> row[j] <= row[idx[k]])
  }

  /** `row.argsort()[::-1][:n]` */
  function TopIndices(row: seq<int>, n: nat): (idx: seq<int>)
    ensures IsTopSelection(row, n, idx)
  {
    var h := Head(Indexed(row), n);
    HeadIsTop(Indexed(row), n);
    TopIndicesFromHead(row, n);
    Keys(h)
  }

  lemma TopIndicesFromHead(row: seq<int>, n: nat)
    ensures IsTopSelection(row, n, Keys(Head(Indexed(row), n)))
  {
    var s := Indexed(row);
    var h := Head(s, n);
    var idx := Keys(h);
    HeadIsTop(s, n);
    assert DistinctKeys(s);
    forall k | 0 <= k < |h| ensures 0 <= h[k].key < |row| && h[k].value == row[h[k].key] {
      assert h[k] in s;
    }
    forall j, k | 0 <= j < |row| && j !in idx && 0 <= k < |idx| ensures row[j] <= row[idx[k]] {
      assert s[j] in s;
      forall m | 0 <= m < |h| ensures h[m] != s[j] {
        assert idx[m] == h[m].key;
      }
    }
  }

  /** `[feature_names[i] for i in top_idx]` */
  function Terms(vocab: seq<string>, idx: seq<int>): seq<string>
    requires forall k :: 0 <= k < |idx| ==> 0 <= idx[k] < |vocab|
  {
    seq(|idx|, k requires 0 <= k < |idx| => vocab[idx[k]])
  }

  /** The top terms of one topic row. */
  function TopTerms(row: seq<int>, vocab: seq<string>): seq<string>
    requires |row| <= |vocab|
  {
    Terms(vocab, TopIndices(row, TopWords))
  }

  /** Distinct positions in a vocabulary of distinct terms give distinct terms. */
  lemma TermsDistinct(vocab: seq<string>, idx: seq<int>)
    requires forall k :: 0 <= k < |idx| ==> 0 <= idx[k] < |vocab|
    requires forall i, j :: 0 <= i < j < |vocab| ==> vocab[i] != vocab[j]
    requires forall k, l :: 0 <= k < l < |idx| ==> idx[k] != idx[l]
    ensures forall k, l :: 0 <= k < l < |idx| ==> Terms(vocab, idx)[k] != Terms(vocab, idx)[l]
  {
    forall k, l | 0 <= k < l < |idx| ensures Terms(vocab, idx)[k] != Terms(vocab, idx)[l] {
      if idx[k] < idx[l] {
        assert vocab[idx[k]] != vocab[idx[l]];
      } else {
        assert vocab[idx[l]] != vocab[idx[k]];
      }
    }
  }

  /**
   * Lines 50-54: `topic_words` has one list per topic t < N_TOPICS, the
   * vocabulary terms at `H[t]`'s top positions; each list has
   * min(TOP_WORDS, |H[t]|) terms, by non-increasing weight, which are
   * distinct when the vocabulary is.
   */
  method TopicWords(H: seq<seq<int>>, vocab: seq<string>) returns (topicWords: seq<seq<string>>)
    requires |H| >= NTopics
    requires forall t :: 0 <= t < NTopics ==> |H[t]| <= |vocab|
    ensures |topicWords| == NTopics
    ensures forall t :: 0 <= t < NTopics ==> topicWords[t] == Terms(vocab, TopIndices(H[t], TopWords))
    ensures forall t :: 0 <= t < NTopics ==> |topicWords[t]| == Min(TopWords, |H[t]|)
    ensures (forall i, j :: 0 <= i < j < |vocab| ==> vocab[i] != vocab[j]) ==>
      forall t, k, l :: 0 <= t < NTopics && 0 <= k < l < |topicWords[t]| ==> topicWords[t][k] != topicWords[t][l]
  {
    topicWords := [];
    for t := 0 to NTopics
      invariant |topicWords| == t
      invariant forall u :: 0 <= u < t ==> topicWords[u] == TopTerms(H[u], vocab)
    {
      var topIdx := TopIndices(H[t], TopWords);
      var words := Terms(vocab, topIdx);
      topicWords := topicWords + [words];
    }
    forall t | 0 <= t < NTopics
      ensures |topicWords[t]| == Min(TopWords, |H[t]|)
      ensures (forall i, j :: 0 <= i < j < |vocab| ==> vocab[i] != vocab[j]) ==>
        forall k, l :: 0 <= k < l < |topicWords[t]| ==> topicWords[t][k] != topicWords[t][l]
    {
      if forall i, j :: 0 <= i < j < |vocab| ==> vocab[i] != vocab[j] {
        TermsDistinct(vocab, TopIndices(H[t], TopWords));
      }
    }
  }
}
