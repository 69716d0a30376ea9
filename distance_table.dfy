/**
 * The wide distance table (software/src/main.py, compute_metrics_wide):
 * metric configs are grouped by intersection mode, clone-key sets are built
 * once per mode, each unordered sample pair is computed once and copied to
 * its mirror, and one row per ordered sample pair collects a column
 * `{metric}_{intersection}` per config.
 *
 * `ComputeMetricsWide` follows the program's loops and is proved equal to
 * the specification function `WideTable`, which reads the configs and then
 * computes `WideRows`; the lemmas in `WideTableFacts` state what the program
 * promises about `WideRows`.
 */
module DistanceTable {
  import opened Wrappers
  import opened StringOrder
  import opened SamplePairs
  import opened Clonotypes
  import opened MetricCompute

  /** One entry of the JSON metric configuration as read: either key may be absent. */
  datatype RawConfig = RawConfig(metric: Option<string>, intersection: Option<string>)

  /** A complete entry of the JSON metric configuration: `{type, intersection}`. */
  datatype Config = Config(metric: string, intersection: string)

  /** One entry of `metrics_by_intersection`: the metric names of one intersection mode, in config order. */
  datatype Group = Group(intersection: string, metrics: seq<string>)

  /** `metric_values` of one intersection mode: metric name, then sample pair, to value. */
  type Table = map<string, map<Pair, Value>>

  /** One row of the wide output. */
  datatype OutRow = OutRow(sample1: string, sample2: string, values: map<string, Value>)

  /** The column `{metric}_{intersection}`. */
  function ColumnName(metric: string, intersection: string): string {
    metric + "_" + intersection
  }

  // ------------------------------------------------------- reading the configs

  /**
   * `config['intersection']`, then `config['type']`: the first absent key
   * raises, the intersection being read first.
   */
  function ReadConfig(raw: RawConfig): (r: Result<Config, Error>)
    ensures r.Ok? <==> raw.metric.Some? && raw.intersection.Some?
    ensures r.Ok? ==> r.value.metric == raw.metric.value && r.value.intersection == raw.intersection.value
    ensures raw.intersection.None? ==> r == Err(MissingKey("intersection"))
    ensures raw.intersection.Some? && raw.metric.None? ==> r == Err(MissingKey("type"))
  {
    if raw.intersection.None? then Err(MissingKey("intersection"))
    else if raw.metric.None? then Err(MissingKey("type"))
    else Ok(Config(raw.metric.value, raw.intersection.value))
  }

  /** All entries read in order, or the exception of the first incomplete one. */
  function ReadConfigs(raw: seq<RawConfig>): (r: Result<seq<Config>, Error>)
    ensures r.Ok? ==> |r.value| == |raw|
    ensures r.Ok? ==> forall k :: 0 <= k < |raw| ==> ReadConfig(raw[k]) == Ok(r.value[k])
  {
    if raw == [] then Ok([])
    else
      match ReadConfigs(raw[..|raw| - 1])
      case Err(e) => Err(e)
      case Ok(configs) =>
        match ReadConfig(raw[|raw| - 1])
        case Err(e) => Err(e)
        case Ok(c) => Ok(configs + [c])
  }

  /** Entry `k` is incomplete and every entry before it is complete. */
  predicate FirstIncomplete(raw: seq<RawConfig>, k: int) {
    && 0 <= k < |raw|
    && ReadConfig(raw[k]).Err?
    && forall j :: 0 <= j < k ==> ReadConfig(raw[j]).Ok?
  }

  /**
   * Reading fails exactly when some entry lacks a key, and then with the
   * exception of the first such entry.
   */
  lemma {:induction false} ReadConfigsError(raw: seq<RawConfig>)
    ensures ReadConfigs(raw).Err? <==> exists k :: 0 <= k < |raw| && ReadConfig(raw[k]).Err?
    ensures ReadConfigs(raw).Err? ==>
      exists k :: FirstIncomplete(raw, k) && ReadConfig(raw[k]) == Err(ReadConfigs(raw).error)
  {
    if raw != [] {
      var init := raw[..|raw| - 1];
      var last := |raw| - 1;
      ReadConfigsError(init);
      assert forall k :: 0 <= k < |init| ==> init[k] == raw[k];
      match ReadConfigs(init)
      case Err(e) =>
        var k :| FirstIncomplete(init, k) && ReadConfig(init[k]) == Err(e);
        assert FirstIncomplete(raw, k);
      case Ok(configs) =>
        if ReadConfig(raw[last]).Err? {
          assert FirstIncomplete(raw, last);
        }
    }
  }

  lemma ReadConfigsStep(raw: seq<RawConfig>, i: nat, configs: seq<Config>)
    requires i < |raw| && ReadConfigs(raw[..i]) == Ok(configs)
    ensures ReadConfigs(raw[..i + 1]) ==
      match ReadConfig(raw[i])
      case Err(e) => Err(e)
      case Ok(c) => Ok(configs + [c])
  {
    assert raw[..i + 1][..i] == raw[..i];
    assert raw[..i + 1][i] == raw[i];
  }

  lemma {:induction false} ReadConfigsKeepError(raw: seq<RawConfig>, i: nat, e: Error)
    requires i <= |raw| && ReadConfigs(raw[..i]) == Err(e)
    ensures ReadConfigs(raw) == Err(e)
    decreases |raw| - i
  {
    if i < |raw| {
      assert raw[..i + 1][..i] == raw[..i];
      ReadConfigsKeepError(raw, i + 1, e);
    } else {
      assert raw[..i] == raw;
    }
  }

  // ---------------------------------------------------------------- grouping

  /** The intersection modes that have a group. */
  function Intersections(groups: seq<Group>): set<string> {
    set g | g in groups :: g.intersection
  }

  /** `metrics_by_intersection.get(i, [])`: the metric names grouped under mode `i`. */
  function MetricsOf(groups: seq<Group>, i: string): seq<string> {
    if groups == [] then []
    else if groups[0].intersection == i then groups[0].metrics
    else MetricsOf(groups[1..], i)
  }

  predicate DistinctIntersections(groups: seq<Group>) {
    forall k, l :: 0 <= k < l < |groups| ==> groups[k].intersection != groups[l].intersection
  }

  /** The metric names configured with mode `i`, in configuration order. */
  function ConfiguredFor(configs: seq<Config>, i: string): seq<string> {
    if configs == [] then []
    else
      var n := |configs| - 1;
      ConfiguredFor(configs[..n], i) + (if configs[n].intersection == i then [configs[n].metric] else [])
  }

  /**
   * `metrics_by_intersection[c.intersection].append(c.metric)` on a
   * `defaultdict(list)`; `AddToGroupSpec` states its effect.
   */
  function AddToGroup(groups: seq<Group>, c: Config): seq<Group> {
    if groups == [] then [Group(c.intersection, [c.metric])]
    else if groups[0].intersection == c.intersection then
      [groups[0].(metrics := groups[0].metrics + [c.metric])] + groups[1..]
    else [groups[0]] + AddToGroup(groups[1..], c)
  }

  /**
   * Appending a config grows the list of its mode by one name at the end,
   * gives a mode seen for the first time a group of its own, and keeps one
   * group per mode.
   */
  lemma {:induction false} AddToGroupSpec(groups: seq<Group>, c: Config)
    requires DistinctIntersections(groups)
    ensures DistinctIntersections(AddToGroup(groups, c))
    ensures Intersections(AddToGroup(groups, c)) == Intersections(groups) + {c.intersection}
    ensures forall i :: MetricsOf(AddToGroup(groups, c), i) == MetricsOf(groups, i) + (if i == c.intersection then [c.metric] else [])
  {
    var r := AddToGroup(groups, c);
    if groups == [] {
    } else if groups[0].intersection == c.intersection {
      assert r[1..] == groups[1..];
      assert groups == [groups[0]] + groups[1..];
      assert r == [r[0]] + r[1..];
    } else {
      var rest := AddToGroup(groups[1..], c);
      AddToGroupSpec(groups[1..], c);
      assert r[1..] == rest;
      assert groups == [groups[0]] + groups[1..];
      assert r == [groups[0]] + rest;
      IntersectionsCons(groups[0], rest);
      IntersectionsCons(groups[0], groups[1..]);
      FirstNotLater(groups);
      forall k, l | 0 <= k < l < |r| ensures r[k].intersection != r[l].intersection {
        assert r[l] == rest[l - 1];
        if k == 0 {
          assert r[l] in rest;
          assert r[l].intersection in Intersections(rest);
        } else {
          assert r[k] == rest[k - 1];
        }
      }
    }
  }

  lemma IntersectionsCons(g: Group, groups: seq<Group>)
    ensures Intersections([g] + groups) == {g.intersection} + Intersections(groups)
  {
    forall i | i in Intersections([g] + groups) ensures i in {g.intersection} + Intersections(groups) {
      var h :| h in [g] + groups && h.intersection == i;
      if h != g {
        assert h in groups;
      }
    }
    forall i | i in Intersections(groups) ensures i in Intersections([g] + groups) {
      var h :| h in groups && h.intersection == i;
      assert h in [g] + groups;
    }
  }

  lemma FirstNotLater(groups: seq<Group>)
    requires DistinctIntersections(groups) && groups != []
    ensures groups[0].intersection !in Intersections(groups[1..])
  {
    forall g | g in groups[1..] ensures g.intersection != groups[0].intersection {
      var j :| 0 <= j < |groups[1..]| && groups[1..][j] == g;
      assert groups[j + 1] == g;
    }
  }

  /**
   * `metrics_by_intersection` after all configs: one group per distinct
   * intersection mode, holding that mode's metric names in configuration order.
   */
  function GroupByIntersection(configs: seq<Config>): (groups: seq<Group>)
    ensures DistinctIntersections(groups)
    ensures Intersections(groups) == set c | c in configs :: c.intersection
    ensures forall i :: MetricsOf(groups, i) == ConfiguredFor(configs, i)
    ensures groups == [] <==> configs == []
  {
    if configs == [] then []
    else
      var init := configs[..|configs| - 1];
      var last := configs[|configs| - 1];
      assert configs == init + [last];
      AddToGroupSpec(GroupByIntersection(init), last);
      var r := AddToGroup(GroupByIntersection(init), last);
      assert last.intersection in Intersections(r);
      r
  }

  /**
   * The position of the first config with mode `i`, or `|configs|` when no
   * config has it.
   */
  function FirstIndex(configs: seq<Config>, i: string): (r: nat)
    ensures r <= |configs|
    ensures r < |configs| ==> configs[r].intersection == i
    ensures forall j :: 0 <= j < r && j < |configs| ==> configs[j].intersection != i
  {
    if configs == [] then 0
    else if configs[0].intersection == i then 0
    else 1 + FirstIndex(configs[1..], i)
  }

  /** Appending a config does not move the first occurrence of a mode already present. */
  lemma FirstIndexAppend(init: seq<Config>, last: Config, i: string)
    ensures FirstIndex(init, i) < |init| ==> FirstIndex(init + [last], i) == FirstIndex(init, i)
    ensures FirstIndex(init, i) == |init| && last.intersection == i ==> FirstIndex(init + [last], i) == |init|
  {
    var cs := init + [last];
    var a, b := FirstIndex(cs, i), FirstIndex(init, i);
    if b < |init| {
      assert cs[b] == init[b];
    } else if last.intersection == i {
      assert cs[|init|] == last;
    }
  }

  lemma {:induction false} FirstIndexAbsent(configs: seq<Config>, i: string)
    requires forall c :: c in configs ==> c.intersection != i
    ensures FirstIndex(configs, i) == |configs|
  {
    if configs != [] {
      assert configs[0] in configs;
      FirstIndexAbsent(configs[1..], i);
    }
  }

  /**
   * Adding a config whose mode has a group leaves the modes and their order
   * unchanged; a config with a new mode gets a group at the end.
   */
  lemma {:induction false} AddToGroupModes(groups: seq<Group>, c: Config)
    ensures c.intersection in Intersections(groups) ==>
      |AddToGroup(groups, c)| == |groups|
      && forall k :: 0 <= k < |groups| ==> AddToGroup(groups, c)[k].intersection == groups[k].intersection
    ensures c.intersection !in Intersections(groups) ==>
      AddToGroup(groups, c) == groups + [Group(c.intersection, [c.metric])]
  {
    if groups != [] && groups[0].intersection != c.intersection {
      AddToGroupModes(groups[1..], c);
      IntersectionsCons(groups[0], groups[1..]);
      assert groups == [groups[0]] + groups[1..];
    }
  }

  /**
   * Every group's mode occurs among the configs, and the groups come in the
   * order in which their modes first occur.
   */
  predicate ModesFirstSeen(configs: seq<Config>, groups: seq<Group>) {
    && (forall k :: 0 <= k < |groups| ==> FirstIndex(configs, groups[k].intersection) < |configs|)
    && (forall k, l :: 0 <= k < l < |groups| ==>
          FirstIndex(configs, groups[k].intersection) < FirstIndex(configs, groups[l].intersection))
  }

  /** `metrics_by_intersection` keeps its keys in first-insertion order. */
  lemma {:induction false} GroupByIntersectionOrder(configs: seq<Config>)
    ensures ModesFirstSeen(configs, GroupByIntersection(configs))
  {
    if configs != [] {
      var init := configs[..|configs| - 1];
      var last := configs[|configs| - 1];
      assert configs == init + [last];
      var before := GroupByIntersection(init);
      GroupByIntersectionOrder(init);
      forall c | c in init ensures c.intersection in Intersections(before) {
        assert c.intersection in set c | c in init :: c.intersection;
      }
      ModesFirstSeenStep(init, last, before);
    }
  }

  lemma ModesFirstSeenStep(init: seq<Config>, last: Config, before: seq<Group>)
    requires ModesFirstSeen(init, before)
    requires forall c :: c in init ==> c.intersection in Intersections(before)
    ensures ModesFirstSeen(init + [last], AddToGroup(before, last))
  {
    var configs := init + [last];
    var groups := AddToGroup(before, last);
    AddToGroupModes(before, last);
    forall k | 0 <= k < |before|
      ensures FirstIndex(configs, before[k].intersection) == FirstIndex(init, before[k].intersection)
    {
      FirstIndexAppend(init, last, before[k].intersection);
    }
    if last.intersection !in Intersections(before) {
      FirstIndexAbsent(init, last.intersection);
      FirstIndexAppend(init, last, last.intersection);
      assert groups[|before|].intersection == last.intersection;
    }
  }

  /** Inside a group list without repeated modes, a group's own mode finds that group. */
  lemma {:induction false} MetricsOfAt(groups: seq<Group>, k: nat)
    requires DistinctIntersections(groups) && k < |groups|
    ensures MetricsOf(groups, groups[k].intersection) == groups[k].metrics
  {
    if k > 0 {
      assert groups[1..][k - 1] == groups[k];
      MetricsOfAt(groups[1..], k - 1);
    }
  }

  lemma {:induction false} ConfiguredForMembers(configs: seq<Config>, i: string)
    ensures forall m :: m in ConfiguredFor(configs, i) <==> Config(m, i) in configs
  {
    if configs != [] {
      var n := |configs| - 1;
      ConfiguredForMembers(configs[..n], i);
      assert configs == configs[..n] + [configs[n]];
    }
  }

  // ------------------------------------------------------- per-sample clone sets

  /** `sorted(df['sampleId'].unique())`. */
  function SampleIds(rows: seq<Row>): (ids: seq<string>)
    ensures Sorted(ids)
    ensures forall s :: s in ids <==> exists k :: 0 <= k < |rows| && rows[k].sampleId == s
  {
    var all := seq(|rows|, k requires 0 <= k < |rows| => rows[k].sampleId);
    assert forall s :: s in all <==> exists k :: 0 <= k < |rows| && rows[k].sampleId == s by {
      forall s | exists k :: 0 <= k < |rows| && rows[k].sampleId == s ensures s in all {
        var k :| 0 <= k < |rows| && rows[k].sampleId == s;
        assert all[k] == s;
      }
    }
    SortedUnique(all)
  }

  /** `df.apply(make_clone_key, axis=1)`: every row's key, or the first row's exception. */
  function CloneKeysOf(rows: seq<Row>, intersection: string, singleCell: bool): (r: Result<seq<string>, Error>)
    ensures r.Ok? ==> |r.value| == |rows| && forall k :: 0 <= k < |rows| ==> MakeCloneKey(rows[k], intersection, singleCell) == Ok(r.value[k])
    ensures r.Err? <==> exists k :: 0 <= k < |rows| && MakeCloneKey(rows[k], intersection, singleCell).Err?
  {
    if rows == [] then Ok([])
    else
      match MakeCloneKey(rows[0], intersection, singleCell)
      case Err(e) => Err(e)
      case Ok(key) =>
        match CloneKeysOf(rows[1..], intersection, singleCell)
        case Err(e) =>
          assert forall k :: 0 <= k < |rows[1..]| ==> rows[1..][k] == rows[k + 1];
          Err(e)
        case Ok(keys) =>
          assert forall k :: 0 < k < |rows| ==> rows[k] == rows[1..][k - 1];
          Ok([key] + keys)
  }

  /** An intersection mode the engine does not know fails on the first row. */
  lemma CloneKeysUnsupported(rows: seq<Row>, intersection: string, singleCell: bool)
    requires rows != [] && !SupportedIntersection(intersection)
    ensures CloneKeysOf(rows, intersection, singleCell) == Err(UnsupportedIntersection(intersection, singleCell))
  {
  }

  /** The clone keys of sample `s`: the key set of `sample_cloneset_dict[s]`. */
  function CloneSet(rows: seq<Row>, keys: seq<string>, s: string): set<string>
    requires |keys| == |rows|
  {
    set k | 0 <= k < |rows| && rows[k].sampleId == s :: keys[k]
  }

  /** `sample_cloneset_dict`: one clone-key set per sample present in the table. */
  function GroupBySample(rows: seq<Row>, keys: seq<string>): (sets: map<string, set<string>>)
    requires |keys| == |rows|
    ensures forall s :: s in sets <==> exists k :: 0 <= k < |rows| && rows[k].sampleId == s
    ensures forall s :: s in sets ==> sets[s] == CloneSet(rows, keys, s)
  {
    map s | s in (set k | 0 <= k < |rows| :: rows[k].sampleId) :: CloneSet(rows, keys, s)
  }

  /** The sets after `setdefault(sid, set())` for every sample id. */
  function WithDefaults(sets: map<string, set<string>>, ids: seq<string>): (r: map<string, set<string>>)
    ensures forall s :: s in r <==> s in sets || s in ids
    ensures forall s :: s in r ==> r[s] == if s in sets then sets[s] else {}
  {
    map s | s in sets.Keys + (set x | x in ids) :: if s in sets then sets[s] else {}
  }

  method SetDefaults(sets: map<string, set<string>>, ids: seq<string>) returns (r: map<string, set<string>>)
    ensures r == WithDefaults(sets, ids)
  {
    r := sets;
    for k := 0 to |ids|
      invariant r == WithDefaults(sets, ids[..k])
    {
      assert forall s :: s in ids[..k + 1] <==> s in ids[..k] || s == ids[k] by {
        assert ids[..k + 1] == ids[..k] + [ids[k]];
      }
      if ids[k] !in r {
        r := r[ids[k] := {}];
      }
      assert r == WithDefaults(sets, ids[..k + 1]);
    }
    assert ids[..|ids|] == ids;
  }

  // ------------------------------------------------------- metric values per pair

  /** The first metric name the engine does not know, if any. */
  function FirstUnsupported(metrics: seq<string>): (r: Option<string>)
    ensures r.None? <==> forall m :: m in metrics ==> SupportedMetric(m)
    ensures r.Some? ==> r.value in metrics && !SupportedMetric(r.value)
  {
    if metrics == [] then None
    else if !SupportedMetric(metrics[0]) then Some(metrics[0])
    else FirstUnsupported(metrics[1..])
  }

  lemma {:induction false} FirstUnsupportedAt(metrics: seq<string>, t: nat)
    requires t < |metrics| && !SupportedMetric(metrics[t])
    requires forall j :: 0 <= j < t ==> SupportedMetric(metrics[j])
    ensures FirstUnsupported(metrics) == Some(metrics[t])
  {
    if t > 0 {
      FirstUnsupportedAt(metrics[1..], t - 1);
    }
  }

  /**
   * The value stored for the ordered pair `(a, b)`: the metric is computed
   * once, for the pair in increasing order, and copied to its mirror.
   */
  function ValueAt(mode: string, sets: map<string, set<string>>, metric: string, a: string, b: string): Value
    requires SupportedMetric(metric) && a in sets && b in sets
  {
    if LessEq(a, b) then ComputeMetric(a, b, sets[a], sets[b], metric, mode).value
    else ComputeMetric(b, a, sets[b], sets[a], metric, mode).value
  }

  /** Every ordered pair of sample ids. */
  function PairSet(ids: seq<string>): set<Pair> {
    set a, b | a in ids && b in ids :: (a, b)
  }

  /** Every metric's value for every ordered pair of sample ids. */
  function PairTable(mode: string, ids: seq<string>, sets: map<string, set<string>>, metrics: seq<string>): (t: Table)
    requires forall s :: s in ids ==> s in sets
    requires forall m :: m in metrics ==> SupportedMetric(m)
    ensures forall m :: m in t <==> m in metrics
    ensures forall m :: m in t ==> t[m].Keys == PairSet(ids)
  {
    map m | m in metrics :: map p | p in PairSet(ids) :: ValueAt(mode, sets, m, p.0, p.1)
  }

  /**
   * `metric_values` of one intersection mode, or the exception of the first
   * self-pair: a self-pair raises for the first metric name the engine does
   * not know, and every sample list that is not empty has one.
   */
  function PairValues(mode: string, ids: seq<string>, sets: map<string, set<string>>, metrics: seq<string>): (r: Result<Table, Error>)
    requires forall s :: s in ids ==> s in sets
    ensures r.Err? <==> ids != [] && FirstUnsupported(metrics).Some?
    ensures r.Ok? ==> forall m :: m in r.value <==> m in metrics
    ensures r.Ok? ==> forall m, p :: m in r.value ==> (p in r.value[m] <==> p.0 in ids && p.1 in ids)
  {
    if ids == [] then Ok(EmptyTable(metrics))
    else if FirstUnsupported(metrics).Some? then Err(UnsupportedMetric(FirstUnsupported(metrics).value))
    else Ok(PairTable(mode, ids, sets, metrics))
  }

  /** The stores of one metric for one pair: `(s1, s2)` and, when distinct, `(s2, s1)`. */
  function Stored(col: map<Pair, Value>, s1: string, s2: string, v: Value): map<Pair, Value> {
    if s1 != s2 then col[(s1, s2) := v][(s2, s1) := v] else col[(s1, s2) := v]
  }

  /**
   * The columns after the metric loop has stored the metrics `done` for the
   * pair `(s1, s2)`: each of them was computed, and its column holds the
   * pair and its mirror; the other columns are as they were.
   */
  ghost predicate PairStored(mode: string, out: Table, mv: Table, done: seq<string>, s1: string, s2: string, set1: set<string>, set2: set<string>) {
    (forall m :: m in out <==> m in mv)
    && (forall j :: 0 <= j < |done| ==> ComputeMetric(s1, s2, set1, set2, done[j], mode).Ok?)
    && forall m :: m in mv ==>
         if m in done then ComputeMetric(s1, s2, set1, set2, m, mode).Ok? && out[m] == Stored(mv[m], s1, s2, ComputeMetric(s1, s2, set1, set2, m, mode).value)
         else out[m] == mv[m]
  }

  lemma PairStoredStep(mode: string, out: Table, mv: Table, done: seq<string>, m: string, s1: string, s2: string, set1: set<string>, set2: set<string>)
    requires PairStored(mode, out, mv, done, s1, s2, set1, set2)
    requires m in mv && ComputeMetric(s1, s2, set1, set2, m, mode).Ok?
    ensures PairStored(mode, out[m := Stored(out[m], s1, s2, ComputeMetric(s1, s2, set1, set2, m, mode).value)], mv, done + [m], s1, s2, set1, set2)
  {
    assert forall x :: x in done + [m] <==> x in done || x == m;
  }

  /** Before a metric fails, every earlier one is known to the engine; then the first unknown one is it. */
  lemma FailsAtFirstUnsupported(mode: string, metrics: seq<string>, t: nat, s1: string, s2: string, set1: set<string>, set2: set<string>)
    requires t < |metrics| && ComputeMetric(s1, s2, set1, set2, metrics[t], mode).Err?
    requires forall j :: 0 <= j < t ==> ComputeMetric(s1, s2, set1, set2, metrics[..t][j], mode).Ok?
    ensures FirstUnsupported(metrics) == Some(metrics[t]) && (s1 == s2 || set1 * set2 != {})
  {
    forall j | 0 <= j < t ensures SupportedMetric(metrics[j]) {
      assert metrics[..t][j] == metrics[j];
    }
    FirstUnsupportedAt(metrics, t);
  }

  /** The metric loop for one unordered pair `(s1, s2)`. */
  method FillPair(mode: string, mv: Table, metrics: seq<string>, s1: string, s2: string, set1: set<string>, set2: set<string>)
    returns (r: Result<Table, Error>)
    requires forall m :: m in metrics ==> m in mv
    ensures r.Err? <==> FirstUnsupported(metrics).Some? && (s1 == s2 || set1 * set2 != {})
    ensures r.Err? ==> r.error == UnsupportedMetric(FirstUnsupported(metrics).value)
    ensures r.Ok? ==> forall m :: m in r.value <==> m in mv
    ensures r.Ok? ==> forall m :: m in mv ==>
      if m in metrics then ComputeMetric(s1, s2, set1, set2, m, mode).Ok? && r.value[m] == Stored(mv[m], s1, s2, ComputeMetric(s1, s2, set1, set2, m, mode).value)
      else r.value[m] == mv[m]
  {
    var out := mv;
    for t := 0 to |metrics|
      invariant PairStored(mode, out, mv, metrics[..t], s1, s2, set1, set2)
    {
      var m := metrics[t];
      var val := ComputeMetric(s1, s2, set1, set2, m, mode);
      if val.Err? {
        FailsAtFirstUnsupported(mode, metrics, t, s1, s2, set1, set2);
        return Err(val.error);
      }
      PairStoredStep(mode, out, mv, metrics[..t], m, s1, s2, set1, set2);
      assert metrics[..t + 1] == metrics[..t] + [m];
      out := out[m := Stored(out[m], s1, s2, val.value)];
    }
    assert metrics[..|metrics|] == metrics;
    forall x | x in metrics ensures SupportedMetric(x) || (s1 != s2 && set1 * set2 == {}) {
      var j :| 0 <= j < |metrics| && metrics[j] == x;
      assert ComputeMetric(s1, s2, set1, set2, metrics[j], mode).Ok?;
    }
    return Ok(out);
  }

  /** The pairs of `done` and their mirrors. */
  function Covered(done: seq<Pair>): set<Pair> {
    (set p | p in done) + (set p | p in done :: (p.1, p.0))
  }

  lemma CoveredAppend(done: seq<Pair>, x: Pair)
    ensures Covered(done + [x]) == Covered(done) + {x, (x.1, x.0)}
  {
    assert forall p :: p in done + [x] <==> p in done || p == x;
  }

  /** Every value `mv` holds is the one `target` holds for that metric and pair. */
  ghost predicate Agrees(mv: Table, target: Table) {
    forall m, p :: m in mv && m in target && p in mv[m] ==> p in target[m] && mv[m][p] == target[m][p]
  }

  /**
   * The state of `metric_values` once the unordered pairs `done` have been
   * computed: each metric holds the pairs of `done` and their mirrors, with
   * the values of the finished table `target`.
   */
  ghost predicate Filled(mv: Table, target: Table, done: seq<Pair>) {
    mv.Keys == target.Keys
    && (forall m :: m in mv ==> mv[m].Keys == Covered(done))
    && Agrees(mv, target)
  }

  /** The value of an ordered pair in increasing order is also its mirror's. */
  lemma ValueAtMirror(mode: string, sets: map<string, set<string>>, m: string, s1: string, s2: string)
    requires SupportedMetric(m) && s1 in sets && s2 in sets && LessEq(s1, s2)
    ensures ComputeMetric(s1, s2, sets[s1], sets[s2], m, mode).Ok?
    ensures ValueAt(mode, sets, m, s1, s2) == ComputeMetric(s1, s2, sets[s1], sets[s2], m, mode).value == ValueAt(mode, sets, m, s2, s1)
  {
    if s1 != s2 {
      LessAsymmetric(s1, s2);
    }
  }

  /** Storing a pair and its mirror with their common target value keeps a column in agreement. */
  lemma StoredColumn(col: map<Pair, Value>, tcol: map<Pair, Value>, s1: string, s2: string)
    requires (s1, s2) in tcol && (s2, s1) in tcol && tcol[(s1, s2)] == tcol[(s2, s1)]
    requires forall p :: p in col ==> p in tcol && col[p] == tcol[p]
    ensures Stored(col, s1, s2, tcol[(s1, s2)]).Keys == col.Keys + {(s1, s2), (s2, s1)}
    ensures forall p :: p in Stored(col, s1, s2, tcol[(s1, s2)]) ==> p in tcol && Stored(col, s1, s2, tcol[(s1, s2)])[p] == tcol[p]
  {
  }

  /** Storing one more ordered pair `(s1, s2)` and its mirror keeps `Filled`. */
  lemma FilledStep(mv: Table, mv': Table, target: Table, done: seq<Pair>, s1: string, s2: string)
    requires Filled(mv, target, done)
    requires mv'.Keys == mv.Keys
    requires forall m :: m in mv ==>
      (s1, s2) in target[m] && (s2, s1) in target[m] && target[m][(s1, s2)] == target[m][(s2, s1)]
      && mv'[m] == Stored(mv[m], s1, s2, target[m][(s1, s2)])
    ensures Filled(mv', target, done + [(s1, s2)])
  {
    CoveredAppend(done, (s1, s2));
    forall m | m in mv
      ensures mv'[m].Keys == mv[m].Keys + {(s1, s2), (s2, s1)}
      ensures forall p :: p in mv'[m] ==> p in target[m] && mv'[m][p] == target[m][p]
    {
      StoredColumn(mv[m], target[m], s1, s2);
    }
  }

  /** The pairs `CombinationsWithReplacement(ids)` and their mirrors are all ordered pairs of ids. */
  lemma CoveredCombinations(ids: seq<string>)
    requires Sorted(ids)
    ensures Covered(CombinationsWithReplacement(ids)) == PairSet(ids)
  {
    CombinationsMembers(ids);
    var done := CombinationsWithReplacement(ids);
    forall p | p in PairSet(ids) ensures p in Covered(done) {
      if p.0 != p.1 {
        LessTotal(p.0, p.1);
      }
      if !LessEq(p.0, p.1) {
        assert (p.1, p.0) in done;
        assert ((p.1, p.0).1, (p.1, p.0).0) == p;
      }
    }
  }

  /** After every pair of `CombinationsWithReplacement(ids)` the table is complete. */
  lemma FilledComplete(mv: Table, target: Table, ids: seq<string>)
    requires Sorted(ids)
    requires forall m :: m in target ==> target[m].Keys == PairSet(ids)
    requires Filled(mv, target, CombinationsWithReplacement(ids))
    ensures mv == target
  {
    CoveredCombinations(ids);
    TableEqual(mv, target);
  }

  /** Two tables with the same metrics, the same pairs per metric, and agreeing values are equal. */
  lemma TableEqual(mv: Table, target: Table)
    requires mv.Keys == target.Keys
    requires forall m :: m in mv ==> mv[m].Keys == target[m].Keys
    requires Agrees(mv, target)
    ensures mv == target
  {
    forall m | m in mv ensures mv[m] == target[m] {
      forall p | p in mv[m] ensures mv[m][p] == target[m][p] {
      }
    }
  }

  /**
   * What the loop needs to know of the finished table: its metrics, its
   * pairs, and that a pair in increasing order and its mirror both hold the
   * value computed for the pair in increasing order.
   */
  ghost predicate IsPairTable(mode: string, target: Table, ids: seq<string>, sets: map<string, set<string>>, metrics: seq<string>) {
    (forall m :: m in target <==> m in metrics)
    && (forall m :: m in target ==> target[m].Keys == PairSet(ids))
    && (forall m, a, b :: m in target && a in ids && b in ids && a in sets && b in sets && LessEq(a, b) ==>
          ComputeMetric(a, b, sets[a], sets[b], m, mode).Ok?
          && (a, b) in target[m] && (b, a) in target[m]
          && target[m][(a, b)] == ComputeMetric(a, b, sets[a], sets[b], m, mode).value == target[m][(b, a)])
  }

  lemma PairTableIs(mode: string, ids: seq<string>, sets: map<string, set<string>>, metrics: seq<string>)
    requires forall s :: s in ids ==> s in sets
    requires forall m :: m in metrics ==> SupportedMetric(m)
    ensures IsPairTable(mode, PairTable(mode, ids, sets, metrics), ids, sets, metrics)
  {
    var t := PairTable(mode, ids, sets, metrics);
    forall m, a, b | m in t && a in ids && b in ids && a in sets && b in sets && LessEq(a, b)
      ensures ComputeMetric(a, b, sets[a], sets[b], m, mode).Ok?
      ensures (a, b) in t[m] && (b, a) in t[m]
      ensures t[m][(a, b)] == ComputeMetric(a, b, sets[a], sets[b], m, mode).value == t[m][(b, a)]
    {
      ValueAtMirror(mode, sets, m, a, b);
      assert (a, b) in PairSet(ids) && (b, a) in PairSet(ids);
    }
  }

  lemma CombinationsAt(ids: seq<string>, q: nat)
    requires Sorted(ids) && q < |CombinationsWithReplacement(ids)|
    ensures var p := CombinationsWithReplacement(ids)[q]; p.0 in ids && p.1 in ids && LessEq(p.0, p.1)
  {
    CombinationsMembers(ids);
    assert CombinationsWithReplacement(ids)[q] in CombinationsWithReplacement(ids);
  }

  /** The entries of a pair in increasing order, and of its mirror, in a table characterised by `IsPairTable`. */
  lemma PairTableEntry(mode: string, target: Table, ids: seq<string>, sets: map<string, set<string>>, metrics: seq<string>, s1: string, s2: string)
    requires IsPairTable(mode, target, ids, sets, metrics)
    requires s1 in ids && s2 in ids && s1 in sets && s2 in sets && LessEq(s1, s2)
    ensures forall m :: m in target ==>
      && ComputeMetric(s1, s2, sets[s1], sets[s2], m, mode).Ok?
      && (s1, s2) in target[m] && (s2, s1) in target[m]
      && target[m][(s1, s2)] == ComputeMetric(s1, s2, sets[s1], sets[s2], m, mode).value == target[m][(s2, s1)]
  {
  }

  /** `metric_values` before the pair loop: an empty column per metric. */
  function EmptyTable(metrics: seq<string>): (t: Table)
    ensures forall m :: m in t <==> m in metrics
    ensures forall m :: m in t ==> t[m] == map[]
  {
    map m | m in metrics :: map[]
  }

  /**
   * The state of the pair loop once the pairs `done` are processed: no pair
   * yet means the initial table, a processed pair means every metric name
   * is known, and then the table is `Filled` up to `done`.
   */
  ghost predicate PairLoop(mv: Table, target: Table, metrics: seq<string>, done: seq<Pair>) {
    (forall m :: m in mv <==> m in metrics)
    && (done == [] ==> mv == EmptyTable(metrics))
    && (done != [] ==> FirstUnsupported(metrics).None?)
    && (FirstUnsupported(metrics).None? ==> Filled(mv, target, done))
  }

  /** Storing the values `FillPair` computed for `(s1, s2)` keeps the table `Filled`, one pair further. */
  lemma PairFilled(mode: string, mv: Table, mv': Table, target: Table, done: seq<Pair>, ids: seq<string>, sets: map<string, set<string>>,
                   metrics: seq<string>, s1: string, s2: string)
    requires IsPairTable(mode, target, ids, sets, metrics) && Filled(mv, target, done)
    requires s1 in ids && s2 in ids && s1 in sets && s2 in sets && LessEq(s1, s2)
    requires mv'.Keys == mv.Keys
    requires forall m :: m in mv ==> mv'[m] == Stored(mv[m], s1, s2, ComputeMetric(s1, s2, sets[s1], sets[s2], m, mode).value)
    ensures Filled(mv', target, done + [(s1, s2)])
  {
    PairTableEntry(mode, target, ids, sets, metrics, s1, s2);
    FilledStep(mv, mv', target, done, s1, s2);
  }

  /** The same step, stated on the loop's state. */
  lemma PairLoopStep(mode: string, mv: Table, mv': Table, target: Table, done: seq<Pair>, ids: seq<string>, sets: map<string, set<string>>,
                     metrics: seq<string>, s1: string, s2: string)
    requires FirstUnsupported(metrics).None? && IsPairTable(mode, target, ids, sets, metrics)
    requires PairLoop(mv, target, metrics, done)
    requires s1 in ids && s2 in ids && s1 in sets && s2 in sets && LessEq(s1, s2)
    requires forall m :: m in mv' <==> m in mv
    requires forall m :: m in mv ==> mv'[m] == Stored(mv[m], s1, s2, ComputeMetric(s1, s2, sets[s1], sets[s2], m, mode).value)
    ensures PairLoop(mv', target, metrics, done + [(s1, s2)])
  {
    assert mv'.Keys == mv.Keys;
    PairFilled(mode, mv, mv', target, done, ids, sets, metrics, s1, s2);
  }

  /** One pass of the pair loop: the metrics of pair `q` stored at the pair and its mirror. */
  method FillNextPair(mode: string, mv: Table, ghost target: Table, ids: seq<string>, uniquePairs: seq<Pair>, q: nat, sets: map<string, set<string>>, metrics: seq<string>)
    returns (r: Result<Table, Error>)
    requires Sorted(ids) && uniquePairs == CombinationsWithReplacement(ids) && q < |uniquePairs|
    requires forall s :: s in ids ==> s in sets
    requires FirstUnsupported(metrics).None? ==> IsPairTable(mode, target, ids, sets, metrics)
    requires PairLoop(mv, target, metrics, uniquePairs[..q])
    ensures r.Err? ==> ids != [] && FirstUnsupported(metrics).Some? && r.error == UnsupportedMetric(FirstUnsupported(metrics).value)
    ensures r.Ok? ==> PairLoop(r.value, target, metrics, uniquePairs[..q + 1])
  {
    var (s1, s2) := uniquePairs[q];
    CombinationsAt(ids, q);
    if q == 0 {
      CombinationsHead(ids);
    }
    r := FillPair(mode, mv, metrics, s1, s2, sets[s1], sets[s2]);
    if r.Ok? {
      assert uniquePairs[..q + 1] == uniquePairs[..q] + [(s1, s2)];
      PairLoopStep(mode, mv, r.value, target, uniquePairs[..q], ids, sets, metrics, s1, s2);
    }
  }

  /** After the last pair: the initial table when there are no samples, else the finished one. */
  lemma PairLoopDone(mode: string, mv: Table, target: Table, ids: seq<string>, sets: map<string, set<string>>, metrics: seq<string>)
    requires Sorted(ids)
    requires FirstUnsupported(metrics).None? ==> IsPairTable(mode, target, ids, sets, metrics)
    requires PairLoop(mv, target, metrics, CombinationsWithReplacement(ids))
    ensures ids == [] ==> mv == EmptyTable(metrics)
    ensures ids != [] ==> FirstUnsupported(metrics).None? && mv == target
  {
    if ids != [] {
      CombinationsHead(ids);
      FilledComplete(mv, target, ids);
    }
  }

  /** The pair loop over `CombinationsWithReplacement(ids)`, for a table characterised by `IsPairTable`. */
  method FillAllPairs(mode: string, ids: seq<string>, uniquePairs: seq<Pair>, sets: map<string, set<string>>, metrics: seq<string>, ghost target: Table)
    returns (r: Result<Table, Error>)
    requires Sorted(ids) && uniquePairs == CombinationsWithReplacement(ids)
    requires forall s :: s in ids ==> s in sets
    requires FirstUnsupported(metrics).None? ==> IsPairTable(mode, target, ids, sets, metrics)
    ensures r.Err? <==> ids != [] && FirstUnsupported(metrics).Some?
    ensures r.Err? ==> r.error == UnsupportedMetric(FirstUnsupported(metrics).value)
    ensures r.Ok? && ids == [] ==> r.value == EmptyTable(metrics)
    ensures r.Ok? && ids != [] ==> r.value == target
  {
    var mv: Table := EmptyTable(metrics);
    assert Covered([]) == {};
    for q := 0 to |uniquePairs|
      invariant PairLoop(mv, target, metrics, uniquePairs[..q])
    {
      var filled := FillNextPair(mode, mv, target, ids, uniquePairs, q, sets, metrics);
      if filled.Err? {
        return Err(filled.error);
      }
      mv := filled.value;
    }
    assert uniquePairs[..|uniquePairs|] == uniquePairs;
    PairLoopDone(mode, mv, target, ids, sets, metrics);
    r := Ok(mv);
  }

  /** Step 2 of the engine: each unordered pair once, every metric of the mode. */
  method ComputePairValues(mode: string, ids: seq<string>, uniquePairs: seq<Pair>, sets: map<string, set<string>>, metrics: seq<string>)
    returns (r: Result<Table, Error>)
    requires Sorted(ids) && uniquePairs == CombinationsWithReplacement(ids)
    requires forall s :: s in ids ==> s in sets
    ensures r == PairValues(mode, ids, sets, metrics)
  {
    ghost var target: Table := map[];
    if FirstUnsupported(metrics).None? {
      target := PairTable(mode, ids, sets, metrics);
      PairTableIs(mode, ids, sets, metrics);
    }
    r := FillAllPairs(mode, ids, uniquePairs, sets, metrics, target);
  }

  // ------------------------------------------------------------ per-mode tables

  /** Steps 1 and 2 for one intersection mode. */
  function GroupTable(rows: seq<Row>, ids: seq<string>, g: Group, singleCell: bool): (r: Result<Table, Error>)
    ensures r.Ok? ==> forall m :: m in r.value <==> m in g.metrics
  {
    match CloneKeysOf(rows, g.intersection, singleCell)
    case Err(e) => Err(e)
    case Ok(keys) => PairValues(g.intersection, ids, WithDefaults(GroupBySample(rows, keys), ids), g.metrics)
  }

  /** The tables of all modes in order, or the exception of the first mode that fails. */
  function GroupTables(rows: seq<Row>, ids: seq<string>, groups: seq<Group>, singleCell: bool): (r: Result<seq<Table>, Error>)
    ensures r.Ok? ==> |r.value| == |groups|
    ensures r.Ok? ==> forall k :: 0 <= k < |groups| ==> GroupTable(rows, ids, groups[k], singleCell) == Ok(r.value[k])
  {
    if groups == [] then Ok([])
    else
      var init := groups[..|groups| - 1];
      match GroupTables(rows, ids, init, singleCell)
      case Err(e) => Err(e)
      case Ok(tables) =>
        match GroupTable(rows, ids, groups[|groups| - 1], singleCell)
        case Err(e) => Err(e)
        case Ok(t) => Ok(tables + [t])
  }

  /** Building the tables fails exactly when some mode fails, and then with the exception of the first such mode. */
  lemma {:induction false} GroupTablesError(rows: seq<Row>, ids: seq<string>, groups: seq<Group>, singleCell: bool)
    ensures GroupTables(rows, ids, groups, singleCell).Err? <==>
      exists k :: 0 <= k < |groups| && GroupTable(rows, ids, groups[k], singleCell).Err?
    ensures GroupTables(rows, ids, groups, singleCell).Err? ==>
      exists k :: FirstFailing(rows, ids, groups, singleCell, k)
        && GroupTable(rows, ids, groups[k], singleCell) == Err(GroupTables(rows, ids, groups, singleCell).error)
  {
    if groups != [] {
      var init := groups[..|groups| - 1];
      var last := |groups| - 1;
      GroupTablesError(rows, ids, init, singleCell);
      assert forall k :: 0 <= k < |init| ==> init[k] == groups[k];
      match GroupTables(rows, ids, init, singleCell)
      case Err(e) =>
        var k :| FirstFailing(rows, ids, init, singleCell, k)
          && GroupTable(rows, ids, init[k], singleCell) == Err(e);
        assert FirstFailing(rows, ids, groups, singleCell, k);
      case Ok(tables) =>
        if GroupTable(rows, ids, groups[last], singleCell).Err? {
          assert FirstFailing(rows, ids, groups, singleCell, last);
        }
    }
  }

  /** Mode `k` fails and every mode before it succeeds. */
  predicate FirstFailing(rows: seq<Row>, ids: seq<string>, groups: seq<Group>, singleCell: bool, k: int) {
    && 0 <= k < |groups|
    && GroupTable(rows, ids, groups[k], singleCell).Err?
    && forall j :: 0 <= j < k ==> GroupTable(rows, ids, groups[j], singleCell).Ok?
  }

  lemma {:induction false} GroupTablesKeepError(rows: seq<Row>, ids: seq<string>, groups: seq<Group>, k: nat, singleCell: bool, e: Error)
    requires k <= |groups| && GroupTables(rows, ids, groups[..k], singleCell) == Err(e)
    ensures GroupTables(rows, ids, groups, singleCell) == Err(e)
    decreases |groups| - k
  {
    if k < |groups| {
      assert groups[..k + 1][..k] == groups[..k];
      GroupTablesKeepError(rows, ids, groups, k + 1, singleCell, e);
    } else {
      assert groups[..k] == groups;
    }
  }

  /** `metric_values[metric].get(pair, 0.0)`. */
  function Lookup(col: map<Pair, Value>, p: Pair): Value {
    if p in col then col[p] else Float(0.0)
  }

  /** The columns one mode contributes to the row of pair `p` (step 3). */
  function GroupCols(metrics: seq<string>, intersection: string, t: Table, p: Pair): map<string, Value>
    requires forall m :: m in metrics ==> m in t
  {
    if metrics == [] then map[]
    else
      var last := metrics[|metrics| - 1];
      GroupCols(metrics[..|metrics| - 1], intersection, t, p)[ColumnName(last, intersection) := Lookup(t[last], p)]
  }

  predicate TablesCover(groups: seq<Group>, tables: seq<Table>) {
    |groups| == |tables| && forall k, m :: 0 <= k < |groups| && m in groups[k].metrics ==> m in tables[k]
  }

  /** The metric columns of the row of pair `p`, modes applied in order. */
  function RowValues(groups: seq<Group>, tables: seq<Table>, p: Pair): map<string, Value>
    requires TablesCover(groups, tables)
  {
    if groups == [] then map[]
    else
      var n := |groups| - 1;
      RowValues(groups[..n], tables[..n], p) + GroupCols(groups[n].metrics, groups[n].intersection, tables[n], p)
  }

  /** One row per ordered pair of ids, in order, once some mode has been processed. */
  function RowsOf(ids: seq<string>, groups: seq<Group>, tables: seq<Table>): seq<OutRow>
    requires TablesCover(groups, tables)
  {
    if groups == [] then []
    else
      var pairs := Product(ids, ids);
      seq(|pairs|, q requires 0 <= q < |pairs| => OutRow(pairs[q].0, pairs[q].1, RowValues(groups, tables, pairs[q])))
  }

  /** The rows for the grouped configs `groups`, or the exception raised while building them. */
  function GroupedRows(rows: seq<Row>, groups: seq<Group>, singleCell: bool): Result<seq<OutRow>, Error> {
    var ids := SampleIds(rows);
    match GroupTables(rows, ids, groups, singleCell)
    case Err(e) => Err(e)
    case Ok(tables) => Ok(RowsOf(ids, groups, tables))
  }

  /** `compute_metrics_wide` on complete configs as a value: the rows in order, or the exception raised. */
  function WideRows(rows: seq<Row>, configs: seq<Config>, singleCell: bool): Result<seq<OutRow>, Error> {
    GroupedRows(rows, GroupByIntersection(configs), singleCell)
  }

  /**
   * `compute_metrics_wide` on the configs as read: an incomplete entry
   * raises before any clone key is built.
   */
  function WideTable(rows: seq<Row>, raw: seq<RawConfig>, singleCell: bool): Result<seq<OutRow>, Error> {
    match ReadConfigs(raw)
    case Err(e) => Err(e)
    case Ok(configs) => WideRows(rows, configs, singleCell)
  }

  /**
   * An incomplete config entry makes the whole computation raise the
   * `KeyError` of the first incomplete entry, whatever the input rows.
   */
  lemma WideTableIncomplete(rows: seq<Row>, raw: seq<RawConfig>, singleCell: bool, k: nat)
    requires k < |raw| && (raw[k].metric.None? || raw[k].intersection.None?)
    ensures WideTable(rows, raw, singleCell).Err?
    ensures WideTable(rows, raw, singleCell).error == MissingKey("intersection")
         || WideTable(rows, raw, singleCell).error == MissingKey("type")
  {
    assert ReadConfig(raw[k]).Err?;
    ReadConfigsError(raw);
  }

  lemma GroupTablesStep(rows: seq<Row>, ids: seq<string>, groups: seq<Group>, k: nat, singleCell: bool, tables: seq<Table>, t: Table)
    requires k < |groups|
    requires GroupTables(rows, ids, groups[..k], singleCell) == Ok(tables)
    requires GroupTable(rows, ids, groups[k], singleCell) == Ok(t)
    ensures GroupTables(rows, ids, groups[..k + 1], singleCell) == Ok(tables + [t])
  {
    assert groups[..k + 1][..k] == groups[..k];
    assert groups[..k + 1][k] == groups[k];
  }

  lemma RowValuesStep(groups: seq<Group>, k: nat, tables: seq<Table>, t: Table, p: Pair)
    requires k < |groups| && TablesCover(groups[..k], tables)
    requires forall m :: m in groups[k].metrics ==> m in t
    ensures TablesCover(groups[..k + 1], tables + [t])
    ensures RowValues(groups[..k + 1], tables + [t], p)
         == RowValues(groups[..k], tables, p) + GroupCols(groups[k].metrics, groups[k].intersection, t, p)
  {
    var gs, ts := groups[..k + 1], tables + [t];
    assert gs[..k] == groups[..k] && ts[..k] == tables && gs[k] == groups[k] && ts[k] == t;
    assert TablesCover(gs, ts) by {
      forall j, m | 0 <= j < |gs| && m in gs[j].metrics ensures m in ts[j] {
        if j < k {
          assert gs[j] == groups[..k][j];
        }
      }
    }
  }

  /** Rows read from `results` in pair order are the rows `RowsOf` describes. */
  lemma RowsFromResults(ids: seq<string>, groups: seq<Group>, tables: seq<Table>,
                        results: map<Pair, map<string, Value>>, out: seq<OutRow>)
    requires groups != [] && TablesCover(groups, tables)
    requires var pairs := Product(ids, ids);
      |out| == |pairs|
      && (forall p :: p in results ==> results[p] == RowValues(groups, tables, p))
      && forall q :: 0 <= q < |out| ==> pairs[q] in results && out[q] == OutRow(pairs[q].0, pairs[q].1, results[pairs[q]])
    ensures RowsOf(ids, groups, tables) == out
  {
  }

  // ------------------------------------------------------------- the engine loop

  /** The metric columns of one row after setting a mode's columns, metric by metric. */
  method FillRow(base: map<string, Value>, metrics: seq<string>, intersection: string, t: Table, key: Pair)
    returns (row: map<string, Value>)
    requires forall m :: m in metrics ==> m in t
    ensures row == base + GroupCols(metrics, intersection, t, key)
  {
    row := base;
    for j := 0 to |metrics|
      invariant row == base + GroupCols(metrics[..j], intersection, t, key)
    {
      assert metrics[..j + 1][..j] == metrics[..j];
      row := row[ColumnName(metrics[j], intersection) := Lookup(t[metrics[j]], key)];
    }
    assert metrics[..|metrics|] == metrics;
  }

  /** `itertools.product(ids, ids)` lists no pair twice. */
  lemma ProductDistinct(ids: seq<string>)
    requires Sorted(ids)
    ensures forall i, j :: 0 <= i < j < |Product(ids, ids)| ==> Product(ids, ids)[i] != Product(ids, ids)[j]
  {
    var ps := Product(ids, ids);
    ProductSorted(ids, ids);
    forall i, j | 0 <= i < j < |ps| ensures ps[i] != ps[j] {
      PairLessAsymmetric(ps[i], ps[j]);
    }
  }

  /** The row of pair `p` before a mode adds its columns: none for the first mode. */
  function Base(results: map<Pair, map<string, Value>>, first: bool, p: Pair): map<string, Value> {
    if first || p !in results then map[] else results[p]
  }

  /** A list without repetitions does not hold its next element among the earlier ones. */
  lemma SliceStep(allPairs: seq<Pair>, q: nat)
    requires q < |allPairs|
    requires forall i, j :: 0 <= i < j < |allPairs| ==> allPairs[i] != allPairs[j]
    ensures allPairs[q] !in allPairs[..q]
    ensures forall p :: p in allPairs[..q + 1] <==> p in allPairs[..q] || p == allPairs[q]
  {
    forall i | 0 <= i < q ensures allPairs[..q][i] != allPairs[q] {
      assert allPairs[i] != allPairs[q];
    }
    assert allPairs[..q + 1] == allPairs[..q] + [allPairs[q]];
  }

  /** Step 3 for one mode: create missing rows in pair order, then set the mode's columns. */
  method Populate(results: map<Pair, map<string, Value>>, order: seq<Pair>, allPairs: seq<Pair>, g: Group, t: Table, first: bool)
    returns (results': map<Pair, map<string, Value>>, order': seq<Pair>)
    requires forall m :: m in g.metrics ==> m in t
    requires forall i, j :: 0 <= i < j < |allPairs| ==> allPairs[i] != allPairs[j]
    requires first ==> results == map[] && order == []
    requires !first ==> order == allPairs && forall p :: p in results <==> p in allPairs
    ensures order' == allPairs
    ensures forall p :: p in results' <==> p in allPairs
    ensures forall p :: p in results' ==> results'[p] == Base(results, first, p) + GroupCols(g.metrics, g.intersection, t, p)
  {
    results', order' := results, order;
    for q := 0 to |allPairs|
      invariant order' == if first then allPairs[..q] else allPairs
      invariant forall p :: p in results' <==> p in allPairs[..q] || (!first && p in allPairs)
      invariant forall p :: p in results' ==>
        results'[p] == if p in allPairs[..q] then Base(results, first, p) + GroupCols(g.metrics, g.intersection, t, p) else results[p]
    {
      var key := allPairs[q];
      SliceStep(allPairs, q);
      if key !in results' {
        results' := results'[key := map[]];
        order' := order' + [key];
      }
      var row := FillRow(results'[key], g.metrics, g.intersection, t, key);
      results' := results'[key := row];
    }
    assert allPairs[..|allPairs|] == allPairs;
  }

  /** `metrics_by_intersection` from the raw configs, or the exception of the first incomplete entry. */
  function GroupedConfigs(raw: seq<RawConfig>): Result<seq<Group>, Error> {
    match ReadConfigs(raw)
    case Err(e) => Err(e)
    case Ok(configs) => Ok(GroupByIntersection(configs))
  }

  /** The loop that fills `metrics_by_intersection`. */
  method GroupConfigs(raw: seq<RawConfig>) returns (r: Result<seq<Group>, Error>)
    ensures r == GroupedConfigs(raw)
  {
    var groups := [];
    ghost var configs: seq<Config> := [];
    for i := 0 to |raw|
      invariant ReadConfigs(raw[..i]) == Ok(configs)
      invariant groups == GroupByIntersection(configs)
    {
      ReadConfigsStep(raw, i, configs);
      match ReadConfig(raw[i])
      case Err(e) =>
        ReadConfigsKeepError(raw, i + 1, e);
        return Err(e);
      case Ok(c) =>
        assert (configs + [c])[..|configs|] == configs;
        groups := AddToGroup(groups, c);
        configs := configs + [c];
    }
    assert raw[..|raw|] == raw;
    r := Ok(groups);
  }

  /** Steps 1 and 2 of the loop body for one mode. */
  method BuildGroupTable(rows: seq<Row>, ids: seq<string>, uniquePairs: seq<Pair>, g: Group, singleCell: bool)
    returns (r: Result<Table, Error>)
    requires ids == SampleIds(rows) && uniquePairs == CombinationsWithReplacement(ids)
    ensures r == GroupTable(rows, ids, g, singleCell)
  {
    var keys := CloneKeysOf(rows, g.intersection, singleCell);
    if keys.Err? {
      return Err(keys.error);
    }
    var sets := GroupBySample(rows, keys.value);
    sets := SetDefaults(sets, ids);
    r := ComputePairValues(g.intersection, ids, uniquePairs, sets, g.metrics);
  }

  /** The rows after the modes `groups`: none before the first mode, then one per ordered pair. */
  ghost predicate RowsSoFar(results: map<Pair, map<string, Value>>, order: seq<Pair>, allPairs: seq<Pair>, groups: seq<Group>, tables: seq<Table>) {
    TablesCover(groups, tables)
    && (groups == [] ==> results == map[] && order == [])
    && (groups != [] ==>
          && order == allPairs
          && (forall p :: p in results <==> p in allPairs)
          && forall p :: p in results ==> results[p] == RowValues(groups, tables, p))
  }

  lemma RowValuesStepAll(groups: seq<Group>, k: nat, tables: seq<Table>, t: Table)
    requires k < |groups| && TablesCover(groups[..k], tables)
    requires forall m :: m in groups[k].metrics ==> m in t
    ensures TablesCover(groups[..k + 1], tables + [t])
    ensures forall p ::
      RowValues(groups[..k + 1], tables + [t], p)
         == RowValues(groups[..k], tables, p) + GroupCols(groups[k].metrics, groups[k].intersection, t, p)
  {
    RowValuesStep(groups, k, tables, t, ("", ""));
    forall p ensures RowValues(groups[..k + 1], tables + [t], p)
         == RowValues(groups[..k], tables, p) + GroupCols(groups[k].metrics, groups[k].intersection, t, p) {
      RowValuesStep(groups, k, tables, t, p);
    }
  }

  /** One mode's columns added to every row (step 3), as `RowsSoFar` tracks it. */
  method AddGroupColumns(results: map<Pair, map<string, Value>>, order: seq<Pair>, allPairs: seq<Pair>,
                         groups: seq<Group>, k: nat, ghost tables: seq<Table>, t: Table)
    returns (results': map<Pair, map<string, Value>>, order': seq<Pair>)
    requires k < |groups| && RowsSoFar(results, order, allPairs, groups[..k], tables)
    requires forall m :: m in groups[k].metrics ==> m in t
    requires forall i, j :: 0 <= i < j < |allPairs| ==> allPairs[i] != allPairs[j]
    ensures RowsSoFar(results', order', allPairs, groups[..k + 1], tables + [t])
  {
    RowValuesStepAll(groups, k, tables, t);
    results', order' := Populate(results, order, allPairs, groups[k], t, k == 0);
  }

  /** `results.values()` in insertion order, each row with its pair. */
  function RowsInOrder(results: map<Pair, map<string, Value>>, order: seq<Pair>): (out: seq<OutRow>)
    requires forall p :: p in order ==> p in results
    ensures |out| == |order|
    ensures forall q :: 0 <= q < |order| ==> out[q] == OutRow(order[q].0, order[q].1, results[order[q]])
  {
    seq(|order|, q requires 0 <= q < |order| => OutRow(order[q].0, order[q].1, results[order[q]]))
  }

  /** Once every mode is processed, the rows in insertion order are the rows `RowsOf` describes. */
  lemma RowsSoFarComplete(results: map<Pair, map<string, Value>>, order: seq<Pair>, ids: seq<string>, groups: seq<Group>, tables: seq<Table>)
    requires RowsSoFar(results, order, Product(ids, ids), groups, tables)
    ensures forall p :: p in order ==> p in results
    ensures RowsInOrder(results, order) == RowsOf(ids, groups, tables)
  {
    if groups != [] {
      RowsFromResults(ids, groups, tables, results, RowsInOrder(results, order));
    }
  }

  /** The loop over the intersection modes, then the rows in insertion order. */
  method BuildRows(rows: seq<Row>, groups: seq<Group>, singleCell: bool) returns (res: Result<seq<OutRow>, Error>)
    ensures res == GroupedRows(rows, groups, singleCell)
  {
    var ids := SampleIds(rows);
    var allPairs := Product(ids, ids);
    var uniquePairs := CombinationsWithReplacement(ids);
    ProductDistinct(ids);

    var results: map<Pair, map<string, Value>> := map[];
    var order: seq<Pair> := [];  // insertion order of `results`
    ghost var tables: seq<Table> := [];
    for k := 0 to |groups|
      invariant GroupTables(rows, ids, groups[..k], singleCell) == Ok(tables)
      invariant RowsSoFar(results, order, allPairs, groups[..k], tables)
    {
      var values := BuildGroupTable(rows, ids, uniquePairs, groups[k], singleCell);
      if values.Err? {
        assert groups[..k + 1][..k] == groups[..k];
        GroupTablesKeepError(rows, ids, groups, k + 1, singleCell, values.error);
        return Err(values.error);
      }
      GroupTablesStep(rows, ids, groups, k, singleCell, tables, values.value);
      results, order := AddGroupColumns(results, order, allPairs, groups, k, tables, values.value);
      tables := tables + [values.value];
    }
    assert groups[..|groups|] == groups;
    RowsSoFarComplete(results, order, ids, groups, tables);
    res := Ok(RowsInOrder(results, order));
  }

  /**
   * compute_metrics_wide: the table with one row per ordered pair of sample
   * ids (pairs in order) and one column per configured metric, or the first
   * exception raised while building it.
   */
  method ComputeMetricsWide(rows: seq<Row>, raw: seq<RawConfig>, singleCell: bool) returns (res: Result<seq<OutRow>, Error>)
    ensures res == WideTable(rows, raw, singleCell)
  {
    var grouped := GroupConfigs(raw);
    match grouped
    case Err(e) =>
      res := Err(e);
    case Ok(groups) =>
      res := BuildRows(rows, groups, singleCell);
  }
}
