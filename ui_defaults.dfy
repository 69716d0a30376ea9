/**
 * The defaults of the UI (model/src/uiState.ts): the initial UI state and
 * the six default metric entries, one per distance type.
 */
module UiDefaults {
  import opened Wrappers
  import opened BlockTypes
  import opened BlockModel

  /** The initial UI state: a heatmap on the settings tab, clustered without normalisation. */
  function DefaultUiState(): (ui: UiState)
    ensures ui.blockTitle == DefaultTitle && ui.graphState.title == DefaultTitle
    ensures ui.graphState.template == "heatmap" && ui.graphState.currentTab == Some("settings")
    ensures ui.graphState.layersSettings == Some(LayersSettings(None))
    ensures ui.tableState.None? && ui.metrics.None?
  {
    UiState(DefaultTitle, None, GraphState(DefaultTitle, "heatmap", Some("settings"), Some(LayersSettings(None))), None)
  }

  /** The part of every default id that names the intersection mode. */
  const ModeSuffix: string := "-cdr3ntvj"

  /** The part of a default id that names the distance type. */
  function IdStem(t: DistanceType): string {
    match t
    case F1 => "f1"
    case F2 => "f2"
    case Jaccard => "jaccard"
    case D => "d"
    case SharedClonotypes => "shared"
    case Correlation => "correlation"
  }

  /** The id of the default entry for `t`; it ends in the intersection mode the entry is set up with. */
  function DefaultId(t: DistanceType): (id: string)
    ensures |id| > |ModeSuffix| && id[|id| - |ModeSuffix|..] == ModeSuffix
  {
    var id := IdStem(t) + ModeSuffix;
    assert id[|id| - |ModeSuffix|..] == ModeSuffix;
    id
  }

  /** A character that tells the default ids apart: the second one. */
  function IdTag(t: DistanceType): char {
    match t
    case F1 => '1'
    case F2 => '2'
    case Jaccard => 'a'
    case D => '-'
    case SharedClonotypes => 'h'
    case Correlation => 'o'
  }

  lemma DefaultIdChars(t: DistanceType)
    ensures DefaultId(t)[0] in "fjdsc" && DefaultId(t)[1] == IdTag(t)
  {
    var id := IdStem(t) + ModeSuffix;
    assert id[0] == IdStem(t)[0];
    assert id[1] == if |IdStem(t)| > 1 then IdStem(t)[1] else ModeSuffix[0];
  }

  /** Distinct distance types have distinct default ids. */
  lemma DefaultIdInjective(t: DistanceType, u: DistanceType)
    ensures DefaultId(t) == DefaultId(u) <==> t == u
  {
    DefaultIdChars(t);
    DefaultIdChars(u);
  }

  /** A default entry: intersection CDR3ntVJ, hypergeometric downsampling chosen automatically, collapsed. */
  function DefaultEntry(t: DistanceType): Metric {
    Metric(Some(DefaultId(t)), Some(t), Some(CDR3ntVJ), Downsampling(Some(Hypergeometric), Some(Auto), None), Some(false))
  }

  /** The default metric entries. */
  function DefaultMetricUis(): (ms: seq<Metric>)
    ensures DistanceTypes(ms) == [Some(F1), Some(F2), Some(Jaccard), Some(D), Some(SharedClonotypes), Some(Correlation)]
    ensures forall m :: m in ms ==>
      && m.distance.Some? && m.id == Some(DefaultId(m.distance.value))
      && m.intersection == Some(CDR3ntVJ) && m.isExpanded == Some(false)
      && m.downsampling == Downsampling(Some(Hypergeometric), Some(Auto), None)
  {
    [DefaultEntry(F1), DefaultEntry(F2), DefaultEntry(Jaccard), DefaultEntry(D), DefaultEntry(SharedClonotypes), DefaultEntry(Correlation)]
  }

  /** No two entries of a list share an id. */
  predicate DistinctIds(ms: seq<Metric>)
    requires forall m :: m in ms ==> m.id.Some?
  {
    forall j, k :: 0 <= j < k < |ms| ==> ms[j].id != ms[k].id
  }

  /** The six default entries have pairwise distinct ids. */
  lemma DefaultMetricUisDistinct()
    ensures DistinctIds(DefaultMetricUis())
  {
    var ms := DefaultMetricUis();
    var ts := DistanceTypes(ms);
    assert forall j, k :: 0 <= j < k < 6 ==> ts[j] != ts[k];
    forall j, k | 0 <= j < k < 6 ensures ms[j].id != ms[k].id {
      assert ms[j] in ms && ms[k] in ms;
      DefaultIdInjective(ms[j].distance.value, ms[k].distance.value);
    }
  }

  /** Each distance type is set up by exactly one default entry, the one at `k0`. */
  lemma DefaultTypeOnce(t: DistanceType) returns (k0: nat)
    ensures k0 < 6 && DefaultMetricUis()[k0].distance == Some(t)
    ensures forall k :: 0 <= k < 6 && DefaultMetricUis()[k].distance == Some(t) ==> k == k0
  {
    var ms := DefaultMetricUis();
    var ts := DistanceTypes(ms);
    k0 := match t
      case F1 => 0 case F2 => 1 case Jaccard => 2 case D => 3 case SharedClonotypes => 4 case Correlation => 5;
    assert forall k :: 0 <= k < 6 ==> ms[k].distance == ts[k];
  }

  /**
   * The default entries ask for the same distances as the model's default
   * arguments, in another order.
   */
  lemma DefaultsAgree()
    ensures multiset(DistanceTypes(DefaultMetricUis())) == multiset(DistanceTypes(DefaultArgs().metrics.value))
  {
    var x, y, z := [Some(F1), Some(F2)], [Some(Jaccard)], [Some(D), Some(SharedClonotypes), Some(Correlation)];
    assert DistanceTypes(DefaultMetricUis()) == x + y + z;
    assert DistanceTypes(DefaultArgs().metrics.value) == x + z + y;
  }
}
