/**
 * What the wide distance table promises (software/src/main.py,
 * compute_metrics_wide): one row per ordered pair of sample ids in order,
 * one column `{metric}_{intersection}` per configured metric, each holding
 * the metric over that mode's clone-key sets, and mirrored pairs holding the
 * same values.
 */
module WideTableFacts {
  import opened Wrappers
  import opened StringOrder
  import opened SamplePairs
  import opened Clonotypes
  import opened MetricCompute
  import opened DistanceTable

  // ------------------------------------------------------------ column names

  /** The part of `s` after its last `c`, or all of `s` when it has none. */
  function AfterLast(s: string, c: char): (r: string)
    ensures c !in r
  {
    if s == [] then []
    else if s[|s| - 1] == c then []
    else AfterLast(s[..|s| - 1], c) + [s[|s| - 1]]
  }

  lemma {:induction false} AfterLastColumn(m: string, i: string)
    requires '_' !in i
    ensures AfterLast(ColumnName(m, i), '_') == i
  {
    var s := ColumnName(m, i);
    if i != [] {
      var i' := i[..|i| - 1];
      assert s[..|s| - 1] == ColumnName(m, i');
      assert s[|s| - 1] == i[|i| - 1];
      assert i[|i| - 1] in i;
      AfterLastColumn(m, i');
      assert i == i' + [i[|i| - 1]];
    }
  }

  /**
   * Column names of intersection modes without `_` do not collide: the
   * name determines both the metric and the mode.
   */
  lemma ColumnNameInjective(m1: string, i1: string, m2: string, i2: string)
    requires '_' !in i1 && '_' !in i2
    ensures ColumnName(m1, i1) == ColumnName(m2, i2) <==> m1 == m2 && i1 == i2
  {
    if ColumnName(m1, i1) == ColumnName(m2, i2) {
      AfterLastColumn(m1, i1);
      AfterLastColumn(m2, i2);
      var s := ColumnName(m1, i1);
      assert m1 == s[..|m1|] && m2 == s[..|m2|];
    }
  }

  /** None of the intersection modes the engine knows contains `_`. */
  lemma SupportedHasNoUnderscore(i: string)
    requires SupportedIntersection(i)
    ensures '_' !in i
  {
  }

  // ------------------------------------------------------- the columns of a row

  /** The column names a list of groups produces. */
  ghost function Columns(groups: seq<Group>): set<string> {
    set k, m | 0 <= k < |groups| && m in groups[k].metrics :: ColumnName(m, groups[k].intersection)
  }

  lemma {:induction false} GroupColsKeys(metrics: seq<string>, i: string, t: Table, p: Pair)
    requires forall m :: m in metrics ==> m in t
    ensures GroupCols(metrics, i, t, p).Keys == set m | m in metrics :: ColumnName(m, i)
  {
    if metrics != [] {
      var n := |metrics| - 1;
      GroupColsKeys(metrics[..n], i, t, p);
      assert metrics == metrics[..n] + [metrics[n]];
    }
  }

  lemma {:induction false} RowValuesKeys(groups: seq<Group>, tables: seq<Table>, p: Pair)
    requires TablesCover(groups, tables)
    ensures RowValues(groups, tables, p).Keys == Columns(groups)
  {
    if groups != [] {
      var n := |groups| - 1;
      var init := groups[..n];
      assert TablesCover(init, tables[..n]) by {
        forall k, m | 0 <= k < n && m in init[k].metrics ensures m in tables[..n][k] {
          assert init[k] == groups[k];
        }
      }
      RowValuesKeys(init, tables[..n], p);
      GroupColsKeys(groups[n].metrics, groups[n].intersection, tables[n], p);
      forall x | x in Columns(groups) ensures x in Columns(init) || x in set m | m in groups[n].metrics :: ColumnName(m, groups[n].intersection) {
        var k, m :| 0 <= k < |groups| && m in groups[k].metrics && x == ColumnName(m, groups[k].intersection);
        if k < n {
          assert init[k] == groups[k];
        }
      }
      forall x | x in Columns(init) ensures x in Columns(groups) {
        var k, m :| 0 <= k < n && m in init[k].metrics && x == ColumnName(m, init[k].intersection);
        assert init[k] == groups[k];
      }
    }
  }

  /** Grouping configs by mode and listing each group's columns gives one column per config. */
  lemma ColumnsOfConfigs(configs: seq<Config>)
    ensures Columns(GroupByIntersection(configs)) == set c | c in configs :: ColumnName(c.metric, c.intersection)
  {
    var groups := GroupByIntersection(configs);
    forall x | x in Columns(groups) ensures exists c :: c in configs && x == ColumnName(c.metric, c.intersection) {
      var k, m :| 0 <= k < |groups| && m in groups[k].metrics && x == ColumnName(m, groups[k].intersection);
      MetricsOfAt(groups, k);
      ConfiguredForMembers(configs, groups[k].intersection);
      assert Config(m, groups[k].intersection) in configs;
    }
    forall c | c in configs ensures ColumnName(c.metric, c.intersection) in Columns(groups) {
      var k := GroupOf(configs, c);
    }
  }

  /** The group that holds a configured metric. */
  lemma GroupOf(configs: seq<Config>, c: Config) returns (k: nat)
    requires c in configs
    ensures var groups := GroupByIntersection(configs);
      k < |groups| && groups[k].intersection == c.intersection && c.metric in groups[k].metrics
  {
    var groups := GroupByIntersection(configs);
    assert c.intersection in Intersections(groups);
    var g :| g in groups && g.intersection == c.intersection;
    var j :| 0 <= j < |groups| && groups[j] == g;
    k := j;
    MetricsOfAt(groups, k);
    ConfiguredForMembers(configs, c.intersection);
  }

  // ------------------------------------------------------------ cell values

  lemma {:induction false} GroupColsAt(metrics: seq<string>, i: string, t: Table, p: Pair, m: string)
    requires forall x :: x in metrics ==> x in t
    requires m in metrics && '_' !in i
    ensures ColumnName(m, i) in GroupCols(metrics, i, t, p)
    ensures GroupCols(metrics, i, t, p)[ColumnName(m, i)] == Lookup(t[m], p)
  {
    var n := |metrics| - 1;
    if metrics[n] != m {
      assert m in metrics[..n] by {
        assert metrics == metrics[..n] + [metrics[n]];
      }
      ColumnNameInjective(m, i, metrics[n], i);
      GroupColsAt(metrics[..n], i, t, p, m);
    }
  }

  lemma {:induction false} RowValuesAt(groups: seq<Group>, tables: seq<Table>, p: Pair, k: nat, m: string)
    requires TablesCover(groups, tables) && DistinctIntersections(groups)
    requires forall j :: 0 <= j < |groups| ==> '_' !in groups[j].intersection
    requires k < |groups| && m in groups[k].metrics
    ensures ColumnName(m, groups[k].intersection) in RowValues(groups, tables, p)
    ensures RowValues(groups, tables, p)[ColumnName(m, groups[k].intersection)] == Lookup(tables[k][m], p)
  {
    var n := |groups| - 1;
    var g := groups[n];
    if k == n {
      GroupColsAt(g.metrics, g.intersection, tables[n], p, m);
    } else {
      var init := groups[..n];
      assert init[k] == groups[k];
      assert TablesCover(init, tables[..n]) by {
        forall j, x | 0 <= j < n && x in init[j].metrics ensures x in tables[..n][j] {
          assert init[j] == groups[j];
        }
      }
      RowValuesAt(init, tables[..n], p, k, m);
      GroupColsKeys(g.metrics, g.intersection, tables[n], p);
      forall x | x in g.metrics ensures ColumnName(x, g.intersection) != ColumnName(m, groups[k].intersection) {
        ColumnNameInjective(x, g.intersection, m, groups[k].intersection);
      }
    }
  }

  /** The clone-key sets of every sample for intersection mode `i`, with an empty set for a sample without keys. */
  ghost function ModeSets(rows: seq<Row>, i: string, singleCell: bool): map<string, set<string>>
    requires CloneKeysOf(rows, i, singleCell).Ok?
  {
    WithDefaults(GroupBySample(rows, CloneKeysOf(rows, i, singleCell).value), SampleIds(rows))
  }

  /** A finished mode table holds, for every ordered pair of ids, the metric over that mode's clone-key sets. */
  lemma GroupTableValue(rows: seq<Row>, g: Group, singleCell: bool, t: Table, a: string, b: string, m: string)
    requires GroupTable(rows, SampleIds(rows), g, singleCell) == Ok(t)
    requires m in g.metrics && a in SampleIds(rows) && b in SampleIds(rows)
    ensures CloneKeysOf(rows, g.intersection, singleCell).Ok?
    ensures SupportedMetric(m) && a in ModeSets(rows, g.intersection, singleCell) && b in ModeSets(rows, g.intersection, singleCell)
    ensures (a, b) in t[m] && t[m][(a, b)] == ValueAt(g.intersection, ModeSets(rows, g.intersection, singleCell), m, a, b)
  {
    assert (a, b) in PairSet(SampleIds(rows));
  }

  /** The pieces `WideRows` is made of, once it succeeds. */
  lemma WideRowsParts(rows: seq<Row>, configs: seq<Config>, singleCell: bool) returns (groups: seq<Group>, tables: seq<Table>)
    requires WideRows(rows, configs, singleCell).Ok?
    ensures groups == GroupByIntersection(configs)
    ensures GroupTables(rows, SampleIds(rows), groups, singleCell) == Ok(tables)
    ensures TablesCover(groups, tables)
    ensures WideRows(rows, configs, singleCell).value == RowsOf(SampleIds(rows), groups, tables)
    ensures rows != [] ==> forall j :: 0 <= j < |groups| ==> SupportedIntersection(groups[j].intersection)
  {
    groups := GroupByIntersection(configs);
    tables := GroupTables(rows, SampleIds(rows), groups, singleCell).value;
    forall j | 0 <= j < |groups| ensures CloneKeysOf(rows, groups[j].intersection, singleCell).Ok? {
      assert GroupTable(rows, SampleIds(rows), groups[j], singleCell) == Ok(tables[j]);
    }
  }

  // ---------------------------------------------------------- the promises

  /** The sample pair of each row, in row order. */
  function PairsOf(out: seq<OutRow>): (ps: seq<Pair>)
    ensures |ps| == |out| && forall q :: 0 <= q < |out| ==> ps[q] == (out[q].sample1, out[q].sample2)
  {
    seq(|out|, q requires 0 <= q < |out| => (out[q].sample1, out[q].sample2))
  }

  lemma RowsOfPairs(ids: seq<string>, groups: seq<Group>, tables: seq<Table>)
    requires groups != [] && TablesCover(groups, tables)
    ensures PairsOf(RowsOf(ids, groups, tables)) == Product(ids, ids)
  {
  }

  /**
   * The table has no row when no metric is configured, and otherwise one row
   * per ordered pair of sample ids: n·n rows for n samples, every pair of
   * ids present, and the pairs strictly increasing (so none twice).
   */
  lemma WideRowsShape(rows: seq<Row>, configs: seq<Config>, singleCell: bool)
    requires WideRows(rows, configs, singleCell).Ok?
    ensures var out := WideRows(rows, configs, singleCell).value;
      var ids := SampleIds(rows);
      && (configs == [] ==> out == [])
      && (configs != [] ==>
            |out| == |ids| * |ids|
            && (forall p :: p in PairsOf(out) <==> p.0 in ids && p.1 in ids)
            && PairSorted(PairsOf(out)))
  {
    var groups, tables := WideRowsParts(rows, configs, singleCell);
    var ids := SampleIds(rows);
    if configs != [] {
      RowsOfPairs(ids, groups, tables);
      ProductLength(ids, ids);
      ProductMembers(ids, ids);
      ProductSorted(ids, ids);
    }
  }

  /** Every row has exactly the columns `{metric}_{intersection}` of the configs. */
  lemma WideRowsColumns(rows: seq<Row>, configs: seq<Config>, singleCell: bool)
    requires WideRows(rows, configs, singleCell).Ok?
    ensures var out := WideRows(rows, configs, singleCell).value;
      forall q :: 0 <= q < |out| ==> out[q].values.Keys == set c | c in configs :: ColumnName(c.metric, c.intersection)
  {
    var groups, tables := WideRowsParts(rows, configs, singleCell);
    var out := WideRows(rows, configs, singleCell).value;
    ColumnsOfConfigs(configs);
    forall q | 0 <= q < |out| ensures out[q].values.Keys == Columns(groups) {
      RowValuesKeys(groups, tables, (out[q].sample1, out[q].sample2));
    }
  }

  /**
   * The column of config `c` in the row of `(a, b)` holds the metric over the
   * clone-key sets of `a` and `b` for the config's intersection mode,
   * computed for the pair in increasing order.
   */
  lemma WideRowsValue(rows: seq<Row>, configs: seq<Config>, singleCell: bool, q: nat, c: Config)
    requires WideRows(rows, configs, singleCell).Ok?
    requires q < |WideRows(rows, configs, singleCell).value| && c in configs
    ensures var row := WideRows(rows, configs, singleCell).value[q];
      && CloneKeysOf(rows, c.intersection, singleCell).Ok?
      && SupportedIntersection(c.intersection) && SupportedMetric(c.metric)
      && row.sample1 in ModeSets(rows, c.intersection, singleCell)
      && row.sample2 in ModeSets(rows, c.intersection, singleCell)
      && ColumnName(c.metric, c.intersection) in row.values
      && row.values[ColumnName(c.metric, c.intersection)]
         == ValueAt(c.intersection, ModeSets(rows, c.intersection, singleCell), c.metric, row.sample1, row.sample2)
  {
    var groups, tables := WideRowsParts(rows, configs, singleCell);
    var ids := SampleIds(rows);
    var pairs := Product(ids, ids);
    var out := WideRows(rows, configs, singleCell).value;
    ProductMembers(ids, ids);
    assert pairs[q] in pairs;
    var p := pairs[q];
    assert rows != [] by {
      assert p.0 in ids;
    }
    var k := GroupOf(configs, c);
    forall j | 0 <= j < |groups| ensures '_' !in groups[j].intersection {
      SupportedHasNoUnderscore(groups[j].intersection);
    }
    RowValuesAt(groups, tables, p, k, c.metric);
    GroupTableValue(rows, groups[k], singleCell, tables[k], p.0, p.1, c.metric);
  }

  // ------------------------------------------------------------ symmetry and diagonal

  /**
   * Each pair's value is computed once, for the pair in increasing order, and
   * stored under both orders: the value does not depend on the order.
   */
  lemma ValueAtSymmetric(mode: string, sets: map<string, set<string>>, metric: string, a: string, b: string)
    requires SupportedMetric(metric) && a in sets && b in sets
    ensures ValueAt(mode, sets, metric, a, b) == ValueAt(mode, sets, metric, b, a)
  {
    if a != b {
      LessTotal(a, b);
      if Less(a, b) {
        LessAsymmetric(a, b);
      } else {
        LessAsymmetric(b, a);
      }
    }
  }

  /** The rows of `(a, b)` and `(b, a)` hold the same value in every column. */
  lemma WideRowsSymmetric(rows: seq<Row>, configs: seq<Config>, singleCell: bool, q: nat, r: nat)
    requires WideRows(rows, configs, singleCell).Ok?
    requires q < |WideRows(rows, configs, singleCell).value| && r < |WideRows(rows, configs, singleCell).value|
    requires var out := WideRows(rows, configs, singleCell).value;
      out[q].sample1 == out[r].sample2 && out[q].sample2 == out[r].sample1
    ensures var out := WideRows(rows, configs, singleCell).value;
      out[q].values == out[r].values
  {
    var out := WideRows(rows, configs, singleCell).value;
    WideRowsColumns(rows, configs, singleCell);
    assert out[q].values.Keys == out[r].values.Keys;
    forall col | col in out[q].values ensures out[q].values[col] == out[r].values[col] {
      var c :| c in configs && col == ColumnName(c.metric, c.intersection);
      ColumnSymmetric(rows, configs, singleCell, q, r, c);
    }
  }

  lemma ColumnSymmetric(rows: seq<Row>, configs: seq<Config>, singleCell: bool, q: nat, r: nat, c: Config)
    requires WideRows(rows, configs, singleCell).Ok? && c in configs
    requires q < |WideRows(rows, configs, singleCell).value| && r < |WideRows(rows, configs, singleCell).value|
    requires var out := WideRows(rows, configs, singleCell).value;
      out[q].sample1 == out[r].sample2 && out[q].sample2 == out[r].sample1
    ensures var out := WideRows(rows, configs, singleCell).value;
      var col := ColumnName(c.metric, c.intersection);
      col in out[q].values && col in out[r].values && out[q].values[col] == out[r].values[col]
  {
    var out := WideRows(rows, configs, singleCell).value;
    WideRowsValue(rows, configs, singleCell, q, c);
    WideRowsValue(rows, configs, singleCell, r, c);
    ValueAtSymmetric(c.intersection, ModeSets(rows, c.intersection, singleCell), c.metric, out[q].sample1, out[q].sample2);
  }

  /**
   * A sample against itself scores a perfect match: 1.0, or its number of
   * distinct clone keys for sharedClonotypes. Two different samples that share
   * no clone key score 0.0 in every metric.
   */
  lemma ValueAtDiagonal(mode: string, sets: map<string, set<string>>, metric: string, a: string, b: string)
    requires SupportedMetric(metric) && a in sets && b in sets
    ensures a == b ==> ValueAt(mode, sets, metric, a, b) == if metric == "sharedClonotypes" then Int(|sets[a]|) else Float(1.0)
    ensures a != b && sets[a] * sets[b] == {} ==> ValueAt(mode, sets, metric, a, b) == Float(0.0)
  {
    assert sets[b] * sets[a] == sets[a] * sets[b];
  }

  /** The same, stated for the rows of the wide table. */
  lemma WideRowsDiagonal(rows: seq<Row>, configs: seq<Config>, singleCell: bool, q: nat, c: Config)
    requires WideRows(rows, configs, singleCell).Ok?
    requires q < |WideRows(rows, configs, singleCell).value| && c in configs
    ensures var row := WideRows(rows, configs, singleCell).value[q];
      var col := ColumnName(c.metric, c.intersection);
      && CloneKeysOf(rows, c.intersection, singleCell).Ok?
      && var sets := ModeSets(rows, c.intersection, singleCell);
      && row.sample1 in sets && row.sample2 in sets && col in row.values
      && (row.sample1 == row.sample2 ==>
            row.values[col] == if c.metric == "sharedClonotypes" then Int(|sets[row.sample1]|) else Float(1.0))
      && (row.sample1 != row.sample2 && sets[row.sample1] * sets[row.sample2] == {} ==> row.values[col] == Float(0.0))
  {
    WideRowsValue(rows, configs, singleCell, q, c);
    var row := WideRows(rows, configs, singleCell).value[q];
    ValueAtDiagonal(c.intersection, ModeSets(rows, c.intersection, singleCell), c.metric, row.sample1, row.sample2);
  }
}
