/**
 * The year-by-topic trend table of src/trend_report.py: records of the
 * enriched table lose the ones without a founding year or topic, have their
 * year truncated to an integer and kept within 1995..2026, and are counted
 * per (year, topic) into a dense table; the five topics with the largest
 * column totals are picked for the plot.
 */
module TrendReport {
  import opened Wrappers
  import opened Tally
  import opened Ranking

  const MinYear: int := 1995
  const MaxYear: int := 2026

  /** `head(5)`: how many topics the plot shows. */
  const PlotTopics: nat := 5

  /**
   * One row of with_topics.csv after `pd.to_numeric(errors="coerce")` on the
   * year: None is a missing or non-numeric cell. The text is None where the
   * cell is missing, which includes an empty normalised text (the CSV round
   * trip reads an empty field back as missing).
   */
  datatype Record = Record(year: Option<real>, topic: Option<int>, text: Option<string>)

  /** A row that survived `dropna` and `astype(int)`. */
  datatype Obs = Obs(year: int, topic: int, text: Option<string>)

  // ---------------------------------------------------------------------------
  // Filtering, lines 25-30

  /** `astype(int)` on a float: truncation toward zero. */
  function Truncate(x: real): (n: int)
    ensures x >= 0.0 ==> 0 <= n && n as real <= x < n as real + 1.0
    ensures x < 0.0 ==> n <= 0 && n as real - 1.0 < x <= n as real
  {
    if x >= 0.0 then x.Floor else -((-x).Floor)
  }

  predicate Complete(r: Record)
  {
    r.year.Some? && r.topic.Some?
  }

  /** `df.dropna(subset=["founded_year", "topic_id"])` */
  function DropMissing(rs: seq<Record>): (kept: seq<Record>)
    ensures forall i :: 0 <= i < |kept| ==> Complete(kept[i])
    ensures forall r :: r in kept <==> r in rs && Complete(r)
  {
    if rs == [] then []
    else
      assert rs == [rs[0]] + rs[1..];
      (if Complete(rs[0]) then [rs[0]] else []) + DropMissing(rs[1..])
  }

  function Observe(r: Record): Obs
    requires Complete(r)
  {
    Obs(Truncate(r.year.value), r.topic.value, r.text)
  }

  /** `df["founded_year"] = df["founded_year"].astype(int)` */
  function YearsToInt(rs: seq<Record>): seq<Obs>
    requires forall i :: 0 <= i < |rs| ==> Complete(rs[i])
  {
    if rs == [] then [] else [Observe(rs[0])] + YearsToInt(rs[1..])
  }

  predicate InYearRange(y: int)
  {
    MinYear <= y <= MaxYear
  }

  /** `df[(df["founded_year"] >= 1995) & (df["founded_year"] <= 2026)]` */
  function InRange(obs: seq<Obs>): seq<Obs>
  {
    if obs == [] then []
    else (if InYearRange(obs[0].year) then [obs[0]] else []) + InRange(obs[1..])
  }

  /** Lines 25-30 in order. */
  function Prepare(rs: seq<Record>): seq<Obs>
  {
    InRange(YearsToInt(DropMissing(rs)))
  }

  /** A record reaches the table when it has a year and a topic and its truncated year is in range. */
  predicate Accepted(r: Record)
  {
    Complete(r) && InYearRange(Truncate(r.year.value))
  }

  /** The records that reach the table, filtered in one pass, in input order. */
  function Selected(rs: seq<Record>): seq<Obs>
  {
    if rs == [] then []
    else (if Accepted(rs[0]) then [Observe(rs[0])] else []) + Selected(rs[1..])
  }

  /**
   * The three filtering steps keep exactly the accepted records, in order:
   * the range check applies to the truncated year.
   */
  lemma {:induction false} PrepareIsSelected(rs: seq<Record>)
    ensures Prepare(rs) == Selected(rs)
  {
    if rs != [] {
      PrepareIsSelected(rs[1..]);
      var rest := DropMissing(rs[1..]);
      if Complete(rs[0]) {
        var d := [rs[0]] + rest;
        assert DropMissing(rs) == d;
        assert d[1..] == rest;
        var o := YearsToInt(d);
        assert o == [Observe(rs[0])] + YearsToInt(rest);
        assert o[1..] == YearsToInt(rest);
      } else {
        assert DropMissing(rs) == rest;
      }
    }
  }

  // ---------------------------------------------------------------------------
  // The pivot table, lines 32-36:
  // `pivot_table(index="founded_year", columns="topic_id", values="text", aggfunc="count").fillna(0)`

  /** Row keys, column keys and the dense grid of counts (rows = years). */
  datatype Pivot = Pivot(years: seq<int>, topics: seq<int>, cells: seq<seq<int>>)

  /** `aggfunc="count"` on `text`: the records of the group whose text is present. */
  function CellCount(obs: seq<Obs>, y: int, t: int): nat
  {
    if obs == [] then 0
    else
      var hit := obs[0].year == y && obs[0].topic == t && obs[0].text.Some?;
      (if hit then 1 else 0) + CellCount(obs[1..], y, t)
  }

  function YearsOf(obs: seq<Obs>): seq<int>
  {
    seq(|obs|, i requires 0 <= i < |obs| => obs[i].year)
  }

  function TopicsOf(obs: seq<Obs>): seq<int>
  {
    seq(|obs|, i requires 0 <= i < |obs| => obs[i].topic)
  }

  function Grid(obs: seq<Obs>, ys: seq<int>, ts: seq<int>): seq<seq<int>>
  {
    seq(|ys|, i requires 0 <= i < |ys| => seq(|ts|, j requires 0 <= j < |ts| => CellCount(obs, ys[i], ts[j]) as int))
  }

  /** The pivot table: one row per year present, one column per topic present, zero-filled. */
  function PivotTable(obs: seq<Obs>): Pivot
  {
    var ys := SortedKeys(YearsOf(obs));
    var ts := SortedKeys(TopicsOf(obs));
    Pivot(ys, ts, Grid(obs, ys, ts))
  }

  /**
   * Rows are exactly the years present, columns exactly the topics present,
   * both ascending, and the grid has a cell for every pair of them (by
   * `Grid`, the count of that year's and topic's records with a text, 0
   * where there are none).
   */
  lemma PivotShape(obs: seq<Obs>)
    ensures var p := PivotTable(obs);
      && StrictlyIncreasing(p.years) && StrictlyIncreasing(p.topics)
      && (forall y :: y in p.years <==> exists o :: o in obs && o.year == y)
      && (forall t :: t in p.topics <==> exists o :: o in obs && o.topic == t)
      && |p.cells| == |p.years|
      && (forall i :: 0 <= i < |p.years| ==> |p.cells[i]| == |p.topics|)
  {
    var p := PivotTable(obs);
    forall y ensures y in p.years <==> exists o :: o in obs && o.year == y {
      if y in YearsOf(obs) {
        var i :| 0 <= i < |obs| && YearsOf(obs)[i] == y;
        assert obs[i] in obs;
      }
      if o :| o in obs && o.year == y {
        var i :| 0 <= i < |obs| && obs[i] == o;
        assert YearsOf(obs)[i] == y;
      }
    }
    forall t ensures t in p.topics <==> exists o :: o in obs && o.topic == t {
      if t in TopicsOf(obs) {
        var i :| 0 <= i < |obs| && TopicsOf(obs)[i] == t;
        assert obs[i] in obs;
      }
      if o :| o in obs && o.topic == t {
        var i :| 0 <= i < |obs| && obs[i] == o;
        assert TopicsOf(obs)[i] == t;
      }
    }
  }

  // ---------------------------------------------------------------------------
  // Totals

  function RowSum(row: seq<int>): int
  {
    if row == [] then 0 else row[0] + RowSum(row[1..])
  }

  function GridSum(g: seq<seq<int>>): int
  {
    if g == [] then 0 else RowSum(g[0]) + GridSum(g[1..])
  }

  /** `pivot.sum(axis=0)` for column j. */
  function ColumnSum(g: seq<seq<int>>, j: nat): int
    requires forall i :: 0 <= i < |g| ==> j < |g[i]|
  {
    if g == [] then 0 else g[0][j] + ColumnSum(g[1..], j)
  }

  /** The records that have a text. */
  function TextCount(obs: seq<Obs>): nat
  {
    if obs == [] then 0 else (if obs[0].text.Some? then 1 else 0) + TextCount(obs[1..])
  }

  /** The records of topic t that have a text. */
  function TopicTotal(obs: seq<Obs>, t: int): nat
  {
    if obs == [] then 0 else (if obs[0].topic == t && obs[0].text.Some? then 1 else 0) + TopicTotal(obs[1..], t)
  }

  /** Topics of the records of year y that have a text. */
  function TextTopicsIn(obs: seq<Obs>, y: int): seq<int>
  {
    if obs == [] then []
    else (if obs[0].year == y && obs[0].text.Some? then [obs[0].topic] else []) + TextTopicsIn(obs[1..], y)
  }

  /** Years of the records that have a text. */
  function TextYears(obs: seq<Obs>): seq<int>
  {
    if obs == [] then []
    else (if obs[0].text.Some? then [obs[0].year] else []) + TextYears(obs[1..])
  }

  /** Years of the records of topic t that have a text. */
  function TextYearsOf(obs: seq<Obs>, t: int): seq<int>
  {
    if obs == [] then []
    else (if obs[0].topic == t && obs[0].text.Some? then [obs[0].year] else []) + TextYearsOf(obs[1..], t)
  }

  lemma {:induction false} CountCons(x: int, xs: seq<int>, k: int)
    ensures Count([x] + xs, k) == (if x == k then 1 else 0) + Count(xs, k)
  {
    assert ([x] + xs)[1..] == xs;
  }

  /** A cell counts a topic among the texts of its year, and a year among the texts of its topic. */
  lemma {:induction false} CellCountAsCount(obs: seq<Obs>, y: int, t: int)
    ensures CellCount(obs, y, t) == Count(TextTopicsIn(obs, y), t)
    ensures CellCount(obs, y, t) == Count(TextYearsOf(obs, t), y)
  {
    if obs != [] {
      CellCountAsCount(obs[1..], y, t);
      var o := obs[0];
      if o.year == y && o.text.Some? {
        CountCons(o.topic, TextTopicsIn(obs[1..], y), t);
      } else {
        assert TextTopicsIn(obs, y) == TextTopicsIn(obs[1..], y);
      }
      if o.topic == t && o.text.Some? {
        CountCons(o.year, TextYearsOf(obs[1..], t), y);
      } else {
        assert TextYearsOf(obs, t) == TextYearsOf(obs[1..], t);
      }
    }
  }

  lemma {:induction false} TextTopicsInSpec(obs: seq<Obs>, y: int)
    ensures |TextTopicsIn(obs, y)| == Count(TextYears(obs), y)
    ensures forall t :: t in TextTopicsIn(obs, y) ==> t in TopicsOf(obs)
  {
    if obs != [] {
      TextTopicsInSpec(obs[1..], y);
      if obs[0].text.Some? {
        CountCons(obs[0].year, TextYears(obs[1..]), y);
      } else {
        assert TextYears(obs) == TextYears(obs[1..]);
      }
      if !(obs[0].year == y && obs[0].text.Some?) {
        assert TextTopicsIn(obs, y) == TextTopicsIn(obs[1..], y);
      }
      assert forall t :: t in TopicsOf(obs[1..]) ==> t in TopicsOf(obs) by {
        assert forall i :: 0 <= i < |obs| - 1 ==> TopicsOf(obs[1..])[i] == TopicsOf(obs)[i + 1];
      }
      assert obs[0].topic == TopicsOf(obs)[0];
    }
  }

  lemma {:induction false} TextYearsSpec(obs: seq<Obs>)
    ensures |TextYears(obs)| == TextCount(obs)
    ensures forall y :: y in TextYears(obs) ==> y in YearsOf(obs)
  {
    if obs != [] {
      TextYearsSpec(obs[1..]);
      assert forall y :: y in YearsOf(obs[1..]) ==> y in YearsOf(obs) by {
        assert forall i :: 0 <= i < |obs| - 1 ==> YearsOf(obs[1..])[i] == YearsOf(obs)[i + 1];
      }
      assert obs[0].year == YearsOf(obs)[0];
    }
  }

  lemma {:induction false} TextYearsOfSpec(obs: seq<Obs>, t: int)
    ensures |TextYearsOf(obs, t)| == TopicTotal(obs, t)
    ensures forall y :: y in TextYearsOf(obs, t) ==> y in YearsOf(obs)
  {
    if obs != [] {
      TextYearsOfSpec(obs[1..], t);
      assert forall y :: y in YearsOf(obs[1..]) ==> y in YearsOf(obs) by {
        assert forall i :: 0 <= i < |obs| - 1 ==> YearsOf(obs[1..])[i] == YearsOf(obs)[i + 1];
      }
      assert obs[0].year == YearsOf(obs)[0];
    }
  }

  lemma {:induction false} RowSumOfCounts(obs: seq<Obs>, y: int, ts: seq<int>)
    ensures RowSum(seq(|ts|, j requires 0 <= j < |ts| => CellCount(obs, y, ts[j]) as int))
      == SumCounts(TextTopicsIn(obs, y), ts)
  {
    var row := seq(|ts|, j requires 0 <= j < |ts| => CellCount(obs, y, ts[j]) as int);
    if ts != [] {
      RowSumOfCounts(obs, y, ts[1..]);
      assert row[1..] == seq(|ts| - 1, j requires 0 <= j < |ts| - 1 => CellCount(obs, y, ts[1..][j]) as int);
      CellCountAsCount(obs, y, ts[0]);
    }
  }

  lemma {:induction false} GridSumOfCounts(obs: seq<Obs>, ys: seq<int>, ts: seq<int>)
    requires StrictlyIncreasing(ts)
    requires forall i :: 0 <= i < |obs| ==> obs[i].topic in ts
    ensures GridSum(Grid(obs, ys, ts)) == SumCounts(TextYears(obs), ys)
  {
    var g := Grid(obs, ys, ts);
    if ys != [] {
      GridSumOfCounts(obs, ys[1..], ts);
      assert g[1..] == Grid(obs, ys[1..], ts);
      RowSumOfCounts(obs, ys[0], ts);
      TextTopicsInSpec(obs, ys[0]);
      forall t | t in TextTopicsIn(obs, ys[0]) ensures t in ts {
        var i :| 0 <= i < |obs| && TopicsOf(obs)[i] == t;
      }
      SumCountsCovers(TextTopicsIn(obs, ys[0]), ts);
    }
  }

  /** The cells of the table add up to the number of kept records that have a text. */
  lemma PivotTotal(obs: seq<Obs>)
    ensures GridSum(PivotTable(obs).cells) == TextCount(obs)
  {
    var p := PivotTable(obs);
    PivotShape(obs);
    assert forall i :: 0 <= i < |obs| ==> obs[i].topic in p.topics by {
      assert forall i :: 0 <= i < |obs| ==> TopicsOf(obs)[i] == obs[i].topic;
    }
    GridSumOfCounts(obs, p.years, p.topics);
    TextYearsSpec(obs);
    SumCountsCovers(TextYears(obs), p.years);
  }

  lemma {:induction false} ColumnSumOfCounts(obs: seq<Obs>, ys: seq<int>, ts: seq<int>, j: nat)
    requires j < |ts|
    ensures ColumnSum(Grid(obs, ys, ts), j) == SumCounts(TextYearsOf(obs, ts[j]), ys)
  {
    var g := Grid(obs, ys, ts);
    if ys != [] {
      ColumnSumOfCounts(obs, ys[1..], ts, j);
      assert g[1..] == Grid(obs, ys[1..], ts);
      CellCountAsCount(obs, ys[0], ts[j]);
    }
  }

  /** Column j of the table totals the kept records of topic j that have a text. */
  lemma ColumnTotalIsTopicTotal(obs: seq<Obs>, j: nat)
    requires j < |PivotTable(obs).topics|
    ensures forall i :: 0 <= i < |PivotTable(obs).cells| ==> j < |PivotTable(obs).cells[i]|
    ensures ColumnSum(PivotTable(obs).cells, j) == TopicTotal(obs, PivotTable(obs).topics[j])
  {
    var p := PivotTable(obs);
    ColumnSumOfCounts(obs, p.years, p.topics, j);
    TextYearsOfSpec(obs, p.topics[j]);
    SumCountsCovers(TextYearsOf(obs, p.topics[j]), p.years);
  }

  // ---------------------------------------------------------------------------
  // Topics to plot, line 42:
  // `pivot.sum(axis=0).sort_values(ascending=False).head(5).index.tolist()`

  predicate WellShaped(p: Pivot)
  {
    |p.cells| == |p.years| && forall i :: 0 <= i < |p.cells| ==> |p.cells[i]| == |p.topics|
  }

  /** `pivot.sum(axis=0)`: each topic with its column total. */
  function ColumnTotals(p: Pivot): seq<Entry>
    requires WellShaped(p)
  {
    seq(|p.topics|, j requires 0 <= j < |p.topics| => Entry(p.topics[j], ColumnSum(p.cells, j)))
  }

  function TopTopics(p: Pivot): seq<int>
    requires WellShaped(p)
  {
    Keys(Head(ColumnTotals(p), PlotTopics))
  }

  /** The column totals pair each topic of the table with its total, once each. */
  lemma ColumnTotalsEntries(obs: seq<Obs>)
    ensures WellShaped(PivotTable(obs))
    ensures var p := PivotTable(obs); var s := ColumnTotals(p);
      && |s| == |p.topics|
      && (forall j :: 0 <= j < |s| ==> s[j] == Entry(p.topics[j], TopicTotal(obs, p.topics[j])))
      && DistinctKeys(s)
  {
    var p := PivotTable(obs);
    forall j | 0 <= j < |p.topics| ensures ColumnTotals(p)[j] == Entry(p.topics[j], TopicTotal(obs, p.topics[j])) {
      ColumnTotalIsTopicTotal(obs, j);
    }
  }

  /** Totals paired with a list of topics, one entry per topic, in its order. */
  predicate TotalsOf(obs: seq<Obs>, ts: seq<int>, s: seq<Entry>)
  {
    |s| == |ts| && forall j :: 0 <= j < |s| ==> s[j] == Entry(ts[j], TopicTotal(obs, ts[j]))
  }

  /** The topics picked are topics of the list, listed with their totals. */
  lemma TopOfTotalsMembers(obs: seq<Obs>, ts: seq<int>, s: seq<Entry>)
    requires TotalsOf(obs, ts, s)
    ensures var h := Head(s, PlotTopics);
      forall k :: 0 <= k < |h| ==> h[k].key in ts && h[k].value == TopicTotal(obs, h[k].key)
  {
    var h := Head(s, PlotTopics);
    HeadOrderedFrom(s, PlotTopics);
    forall k | 0 <= k < |h| ensures h[k].key in ts && h[k].value == TopicTotal(obs, h[k].key) {
      assert h[k] in s;
    }
  }

  /** A topic left out of the pick has no larger total than one picked. */
  lemma TopOfTotalsDominates(obs: seq<Obs>, ts: seq<int>, s: seq<Entry>)
    requires TotalsOf(obs, ts, s)
    ensures var top := Keys(Head(s, PlotTopics));
      forall t, k :: t in ts && t !in top && 0 <= k < |top| ==> TopicTotal(obs, t) <= TopicTotal(obs, top[k])
  {
    var h := Head(s, PlotTopics);
    var top := Keys(h);
    HeadDominates(s, PlotTopics);
    TopOfTotalsMembers(obs, ts, s);
    forall t, k | t in ts && t !in top && 0 <= k < |top| ensures TopicTotal(obs, t) <= TopicTotal(obs, top[k]) {
      var j :| 0 <= j < |ts| && ts[j] == t;
      assert s[j] in s;
      forall m | 0 <= m < |h| ensures h[m] != s[j] {
        assert top[m] == h[m].key;
      }
    }
  }

  /** The selection argument on any list of distinct topics paired with their totals. */
  lemma {:induction false} TopOfTotals(obs: seq<Obs>, ts: seq<int>, s: seq<Entry>)
    requires TotalsOf(obs, ts, s) && DistinctKeys(s)
    ensures var top := Keys(Head(s, PlotTopics));
      && |top| == Min(PlotTopics, |ts|)
      && (forall k :: 0 <= k < |top| ==> top[k] in ts)
      && (forall k, l :: 0 <= k < l < |top| ==> top[k] != top[l])
      && (forall k, l :: 0 <= k < l < |top| ==> TopicTotal(obs, top[k]) >= TopicTotal(obs, top[l]))
      && (forall t, k :: t in ts && t !in top && 0 <= k < |top| ==> TopicTotal(obs, t) <= TopicTotal(obs, top[k]))
  {
    HeadIsTop(s, PlotTopics);
    TopOfTotalsMembers(obs, ts, s);
    TopOfTotalsDominates(obs, ts, s);
  }

  /**
   * At most five distinct topics of the table, as many as it has up to five,
   * by non-increasing total; no topic left out has a larger total than one
   * picked.
   */
  lemma TopTopicsProperties(obs: seq<Obs>)
    ensures WellShaped(PivotTable(obs))
    ensures var p := PivotTable(obs); var top := TopTopics(p);
      && |top| == Min(PlotTopics, |p.topics|)
      && (forall k :: 0 <= k < |top| ==> top[k] in p.topics)
      && (forall k, l :: 0 <= k < l < |top| ==> top[k] != top[l])
      && (forall k, l :: 0 <= k < l < |top| ==> TopicTotal(obs, top[k]) >= TopicTotal(obs, top[l]))
      && (forall t, k :: t in p.topics && t !in top && 0 <= k < |top| ==> TopicTotal(obs, t) <= TopicTotal(obs, top[k]))
  {
    ColumnTotalsEntries(obs);
    TopOfTotals(obs, PivotTable(obs).topics, ColumnTotals(PivotTable(obs)));
  }

  // ---------------------------------------------------------------------------
  // The report, lines 21-42

  /** The table and the topics picked for the plot. */
  datatype Trend = Trend(table: Pivot, plotted: seq<int>)

  /**
   * `main` without its file output: no table when the enriched table has no
   * `founded_year` column (a warning, not an error), and otherwise the
   * table of the accepted records and the topics to plot.
   */
  function Report(hasYearColumn: bool, rs: seq<Record>): (r: Option<Trend>)
    ensures r.None? <==> !hasYearColumn
  {
    if !hasYearColumn then None
    else
      var p := PivotTable(Prepare(rs));
      TopTopicsProperties(Prepare(rs));
      Some(Trend(p, TopTopics(p)))
  }

  /** The accepted records of year y and topic t that have a text. */
  function AcceptedCount(rs: seq<Record>, y: int, t: int): nat
  {
    if rs == [] then 0
    else
      var r := rs[0];
      var hit := Accepted(r) && Truncate(r.year.value) == y && r.topic.value == t && r.text.Some?;
      (if hit then 1 else 0) + AcceptedCount(rs[1..], y, t)
  }

  /** The accepted records that have a text. */
  function AcceptedTextCount(rs: seq<Record>): nat
  {
    if rs == [] then 0
    else (if Accepted(rs[0]) && rs[0].text.Some? then 1 else 0) + AcceptedTextCount(rs[1..])
  }

  lemma {:induction false} SelectedCounts(rs: seq<Record>, y: int, t: int)
    ensures CellCount(Selected(rs), y, t) == AcceptedCount(rs, y, t)
    ensures TextCount(Selected(rs)) == AcceptedTextCount(rs)
  {
    if rs != [] {
      SelectedCounts(rs[1..], y, t);
      var rest := Selected(rs[1..]);
      if Accepted(rs[0]) {
        assert Selected(rs) == [Observe(rs[0])] + rest;
        assert Selected(rs)[1..] == rest;
      } else {
        assert Selected(rs) == rest;
      }
    }
  }

  /** The kept observations are exactly the accepted records, truncated. */
  lemma {:induction false} SelectedMembers(rs: seq<Record>)
    ensures forall o :: o in Selected(rs) <==> exists r :: r in rs && Accepted(r) && Observe(r) == o
  {
    if rs != [] {
      SelectedMembers(rs[1..]);
      assert rs == [rs[0]] + rs[1..];
      assert Selected(rs) == (if Accepted(rs[0]) then [Observe(rs[0])] else []) + Selected(rs[1..]);
    }
  }

  /**
   * Over the raw records: the table's years are the truncated in-range years
   * of the records that have a year and a topic, its topics are theirs; each
   * cell counts those records of its year and topic that have a text; and all
   * cells together count every such record with a text.
   */
  lemma ReportCells(rs: seq<Record>)
    ensures var p := Report(true, rs).value.table;
      && (forall y :: y in p.years <==> exists r :: r in rs && Accepted(r) && Truncate(r.year.value) == y)
      && (forall t :: t in p.topics <==> exists r :: r in rs && Accepted(r) && r.topic.value == t)
      && (forall i, j :: 0 <= i < |p.years| && 0 <= j < |p.topics| ==>
            p.cells[i][j] == AcceptedCount(rs, p.years[i], p.topics[j]))
      && GridSum(p.cells) == AcceptedTextCount(rs)
  {
    var obs := Prepare(rs);
    var p := PivotTable(obs);
    PrepareIsSelected(rs);
    PivotShape(obs);
    PivotTotal(obs);
    SelectedCounts(rs, 0, 0);
    SelectedMembers(rs);
    forall i, j | 0 <= i < |p.years| && 0 <= j < |p.topics| ensures p.cells[i][j] == AcceptedCount(rs, p.years[i], p.topics[j]) {
      SelectedCounts(rs, p.years[i], p.topics[j]);
    }
    forall y ensures y in p.years <==> exists r :: r in rs && Accepted(r) && Truncate(r.year.value) == y {
      if r :| r in rs && Accepted(r) && Truncate(r.year.value) == y {
        assert Observe(r) in obs;
      }
    }
    forall t ensures t in p.topics <==> exists r :: r in rs && Accepted(r) && r.topic.value == t {
      if r :| r in rs && Accepted(r) && r.topic.value == t {
        assert Observe(r) in obs;
      }
    }
  }
}
