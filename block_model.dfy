/**
 * The block model (model/src/index.ts): the default arguments and UI state,
 * the gate that decides whether the block may run, the filter that offers
 * abundance columns, and the outputs derived from the workflow's results.
 * The SDK calls that build tables and frames are opaque: the model keeps
 * what they are given.
 */
module BlockModel {
  import opened Wrappers
  import opened Clonotypes
  import opened MetricCompute
  import opened BlockTypes

  // ------------------------------------------------------------ default args

  /** A metric entry of the older shape the model file declares: type and intersection only. */
  function PlainMetric(t: DistanceType, i: IntersectionType): Metric {
    Metric(None, Some(t), Some(i), Downsampling(None, None, None), None)
  }

  /** The distance types of a metric list, in order. */
  function DistanceTypes(metrics: seq<Metric>): (ts: seq<Option<DistanceType>>)
    ensures |ts| == |metrics| && forall k :: 0 <= k < |metrics| ==> ts[k] == metrics[k].distance
  {
    seq(|metrics|, k requires 0 <= k < |metrics| => metrics[k].distance)
  }

  /** The arguments a new block starts with: no abundance column, six metrics. */
  function DefaultArgs(): (args: BlockArgs)
    ensures args.abundanceRef.None? && args.metrics.Some?
    ensures DistanceTypes(args.metrics.value) == [Some(F1), Some(F2), Some(D), Some(SharedClonotypes), Some(Correlation), Some(Jaccard)]
    ensures forall m :: m in args.metrics.value ==> m.intersection == Some(CDR3ntVJ)
  {
    BlockArgs(None, Some([
      PlainMetric(F1, CDR3ntVJ),
      PlainMetric(F2, CDR3ntVJ),
      PlainMetric(D, CDR3ntVJ),
      PlainMetric(SharedClonotypes, CDR3ntVJ),
      PlainMetric(Correlation, CDR3ntVJ),
      PlainMetric(Jaccard, CDR3ntVJ)]))
  }

  /**
   * The default metric list asks for every distance type exactly once, and
   * the engine accepts each of its configurations.
   */
  lemma DefaultArgsCoverEveryType(t: DistanceType)
    ensures var ms := DefaultArgs().metrics.value;
      && |set k | 0 <= k < |ms| && ms[k].distance == Some(t)| == 1
      && forall m :: m in ms ==> SupportedMetric(DistanceName(m.distance.value)) && SupportedIntersection(IntersectionName(m.intersection.value))
  {
    var ms := DefaultArgs().metrics.value;
    var k0 := match t
      case F1 => 0 case F2 => 1 case D => 2 case SharedClonotypes => 3 case Correlation => 4 case Jaccard => 5;
    assert (set k | 0 <= k < |ms| && ms[k].distance == Some(t)) == {k0};
    forall m | m in ms
      ensures SupportedMetric(DistanceName(m.distance.value)) && SupportedIntersection(IntersectionName(m.intersection.value))
    {
      DistanceNamesMatchEngine(m.distance.value, "");
      IntersectionNamesMatchEngine(m.intersection.value, "");
    }
  }

  // ------------------------------------------------------------ args gate

  /** The block may run once an abundance column is chosen; the metric list does not matter. */
  predicate ArgsValid(args: BlockArgs) {
    args.abundanceRef.Some?
  }

  /**
   * Validity depends on the abundance reference alone: any metric list,
   * the empty one or a missing one included, keeps it, and a new block is
   * not valid until a column is chosen.
   */
  lemma ArgsValidIgnoresMetrics(args: BlockArgs, metrics: Option<seq<Metric>>)
    ensures ArgsValid(args.(metrics := metrics)) <==> ArgsValid(args)
    ensures ArgsValid(args.(metrics := Some([]))) <==> args.abundanceRef.Some?
    ensures !ArgsValid(DefaultArgs())
  {
  }

  // ------------------------------------------------------------ abundance options

  /** The part of a column spec the filter reads. */
  datatype ColumnSpec = ColumnSpec(kind: string, valueType: string, annotations: Option<map<string, string>>)

  /** `isPColumnSpec`: the spec describes a PColumn. */
  predicate IsPColumnSpec(c: ColumnSpec) {
    c.kind == "PColumn"
  }

  /** `isNumericType`. */
  predicate IsNumericType(c: ColumnSpec) {
    c.valueType == "Double" || c.valueType == "Int" || c.valueType == "Float" || c.valueType == "Long"
  }

  /** `c.annotations?.[key] === value`: false when the annotations or the key are missing. */
  predicate AnnotationIs(c: ColumnSpec, key: string, value: string) {
    c.annotations.Some? && key in c.annotations.value && c.annotations.value[key] == value
  }

  /** The predicate the `abundanceOptions` output filters the result pool with. */
  predicate IsAbundanceOption(c: ColumnSpec) {
    && IsPColumnSpec(c)
    && IsNumericType(c)
    && AnnotationIs(c, "pl7.app/isAbundance", "true")
    && AnnotationIs(c, "pl7.app/abundance/normalized", "false")
  }

  /**
   * The `abundanceOptions` output: the specs of the result pool that pass the
   * filter, in pool order. Every one offered is a PColumn of one of the four
   * numeric value types.
   */
  function AbundanceOptions(pool: seq<ColumnSpec>): (r: seq<ColumnSpec>)
    ensures |r| <= |pool|
    ensures forall c :: c in r <==> c in pool && IsAbundanceOption(c)
    ensures forall c :: c in r ==> c.kind == "PColumn" && c.valueType in {"Int", "Long", "Float", "Double"}
  {
    if pool == [] then []
    else if IsAbundanceOption(pool[0]) then [pool[0]] + AbundanceOptions(pool[1..])
    else AbundanceOptions(pool[1..])
  }

  /** The filter keeps pool order: filtering two pools one after the other is filtering their concatenation. */
  lemma {:induction false} AbundanceOptionsConcat(a: seq<ColumnSpec>, b: seq<ColumnSpec>)
    ensures AbundanceOptions(a + b) == AbundanceOptions(a) + AbundanceOptions(b)
  {
    if a == [] {
      assert a + b == b;
    } else {
      assert (a + b)[1..] == a[1..] + b;
      AbundanceOptionsConcat(a[1..], b);
    }
  }

  /**
   * An option carries both annotations with exactly the strings `"true"` and
   * `"false"`: a column without annotations, a normalized one, or one
   * whose flag is absent is never offered, and changing any other
   * annotation does not matter.
   */
  lemma AbundanceOptionAnnotations(c: ColumnSpec, key: string, value: string)
    ensures c.annotations.None? ==> !IsAbundanceOption(c)
    ensures AnnotationIs(c, "pl7.app/abundance/normalized", "true") ==> !IsAbundanceOption(c)
    ensures c.annotations.Some? && key != "pl7.app/isAbundance" && key != "pl7.app/abundance/normalized" ==>
      (IsAbundanceOption(c) <==> IsAbundanceOption(c.(annotations := Some(c.annotations.value[key := value]))))
  {
  }

  // ------------------------------------------------------------ outputs

  /** A column of a resolved output. */
  datatype PColumn = PColumn(id: string, spec: ColumnSpec)

  /** `PColumnIdAndSpec`. */
  datatype ColumnIdAndSpec = ColumnIdAndSpec(columnId: string, spec: ColumnSpec)

  /**
   * The workflow's outputs as the block sees them: for each output name that
   * resolves, its columns when they are available; and whether the run is
   * ready or failed.
   */
  datatype Outputs = Outputs(resolved: map<string, Option<seq<PColumn>>>, readyOrError: bool)

  /** `ctx.outputs?.resolve(name)?.getPColumns()`. */
  function ResolveColumns(outputs: Option<Outputs>, name: string): (r: Option<seq<PColumn>>)
    ensures r.Some? <==> outputs.Some? && name in outputs.value.resolved && outputs.value.resolved[name].Some?
    ensures r.Some? ==> r == outputs.value.resolved[name]
  {
    if outputs.None? || name !in outputs.value.resolved then None
    else outputs.value.resolved[name]
  }

  /** The sorting and filters of the results table. */
  datatype TableState = TableState(sorting: seq<string>, filters: seq<string>)

  /** What `createPlDataTable` is given; the table it builds is not part of the model. */
  datatype DataTable = DataTable(columns: seq<PColumn>, state: Option<TableState>)

  /** What `createPFrameForGraphs` is given. */
  datatype GraphFrame = GraphFrame(columns: seq<PColumn>)

  /** The `pt` output: the unique-pairs table once its columns are available. */
  function PT(outputs: Option<Outputs>, tableState: Option<TableState>): (r: Option<DataTable>)
    ensures r.None? <==> ResolveColumns(outputs, "pfUnique").None?
    ensures r.Some? ==> r.value.columns == ResolveColumns(outputs, "pfUnique").value && r.value.state == tableState
  {
    match ResolveColumns(outputs, "pfUnique")
    case None => None
    case Some(cols) => Some(DataTable(cols, tableState))
  }

  /** The `pf` output: the frame the graphs read, once the full table's columns are available. */
  function PF(outputs: Option<Outputs>): (r: Option<GraphFrame>)
    ensures r.None? <==> ResolveColumns(outputs, "pf").None?
    ensures r.Some? ==> r.value.columns == ResolveColumns(outputs, "pf").value
  {
    match ResolveColumns(outputs, "pf")
    case None => None
    case Some(cols) => Some(GraphFrame(cols))
  }

  /** Each column's id and spec, in order. */
  function IdsAndSpecs(cols: seq<PColumn>): (r: seq<ColumnIdAndSpec>)
    ensures |r| == |cols|
    ensures forall k :: 0 <= k < |cols| ==> r[k] == ColumnIdAndSpec(cols[k].id, cols[k].spec)
  {
    if cols == [] then [] else [ColumnIdAndSpec(cols[0].id, cols[0].spec)] + IdsAndSpecs(cols[1..])
  }

  /** The `heatmapPCols` output. */
  function HeatmapPCols(outputs: Option<Outputs>): (r: Option<seq<ColumnIdAndSpec>>)
    ensures r.None? <==> ResolveColumns(outputs, "pf").None?
    ensures r.Some? ==> var cols := ResolveColumns(outputs, "pf").value;
      |r.value| == |cols| && forall k :: 0 <= k < |cols| ==> r.value[k] == ColumnIdAndSpec(cols[k].id, cols[k].spec)
  {
    match ResolveColumns(outputs, "pf")
    case None => None
    case Some(cols) => Some(IdsAndSpecs(cols))
  }

  /**
   * The heatmap columns and the graph frame come from the same output: one
   * is present exactly when the other is, with the same ids in the same
   * order.
   */
  lemma HeatmapMatchesFrame(outputs: Option<Outputs>)
    ensures HeatmapPCols(outputs).Some? <==> PF(outputs).Some?
    ensures HeatmapPCols(outputs).Some? ==>
      forall k :: 0 <= k < |HeatmapPCols(outputs).value| ==> HeatmapPCols(outputs).value[k].columnId == PF(outputs).value.columns[k].id
  {
  }

  /** `ctx.outputs?.getIsReadyOrError()`: undefined (`None`) when there are no outputs yet. */
  function ReadyOrError(outputs: Option<Outputs>): Option<bool> {
    match outputs
    case None => None
    case Some(o) => Some(o.readyOrError)
  }

  /**
   * The `isRunning` output, a strict comparison of that optional flag with
   * `false`: no outputs yet means not running, and so does a finished or
   * failed run.
   */
  predicate IsRunning(outputs: Option<Outputs>): (b: bool)
    ensures b <==> outputs.Some? && !outputs.value.readyOrError
  {
    ReadyOrError(outputs) == Some(false)
  }

  // ------------------------------------------------------------ UI state and title

  /** The heatmap layer's settings. */
  datatype LayersSettings = LayersSettings(heatmapNormalizationDirection: Option<string>)

  /** The part of the graph state the block sets. */
  datatype GraphState = GraphState(title: string, template: string, currentTab: Option<string>, layersSettings: Option<LayersSettings>)

  /** `UiState`. */
  datatype UiState = UiState(blockTitle: string, tableState: Option<TableState>, graphState: GraphState, metrics: Option<seq<Metric>>)

  const DefaultTitle: string := "Repertoire Distance"

  /** The UI state the model file registers: a heatmap with no tab selected and an empty table state. */
  function InitialUiState(): (ui: UiState)
    ensures ui.blockTitle == DefaultTitle && ui.graphState.title == DefaultTitle
    ensures ui.graphState.template == "heatmap" && ui.graphState.currentTab.None?
    ensures ui.tableState == Some(TableState([], []))
  {
    UiState(DefaultTitle, Some(TableState([], [])), GraphState(DefaultTitle, "heatmap", None, None), None)
  }

  /** The block title: the UI state's title, or the default when there is no UI state. */
  function Title(ui: Option<UiState>): (title: string)
    ensures ui.Some? ==> title == ui.value.blockTitle
    ensures ui.None? ==> title == DefaultTitle
  {
    match ui
    case Some(u) => u.blockTitle
    case None => DefaultTitle
  }

  /**
   * `??` replaces only a missing value: a title the user cleared to the
   * empty string stays empty, and the initial state shows the default title.
   */
  lemma TitleKeepsEmpty(u: UiState)
    requires u.blockTitle == ""
    ensures Title(Some(u)) == "" && Title(Some(InitialUiState())) == DefaultTitle
  {
  }
}
