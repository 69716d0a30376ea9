/**
 * The block's data types (model/src/types.ts): the distance types and
 * intersection modes a user can pick, a metric entry of the argument list,
 * and the block arguments. Each name the UI stores is the name the distance
 * engine reads from its JSON configuration.
 */
module BlockTypes {
  import opened Wrappers
  import opened Clonotypes
  import opened MetricCompute

  /** `DistanceType`. */
  datatype DistanceType = F1 | F2 | D | SharedClonotypes | Correlation | Jaccard

  /** `IntersectionType`. */
  datatype IntersectionType = CDR3ntVJ | CDR3aaVJ | CDR3nt | CDR3aa

  /** The string a distance type is stored as. */
  function DistanceName(t: DistanceType): string {
    match t
    case F1 => "F1"
    case F2 => "F2"
    case D => "D"
    case SharedClonotypes => "sharedClonotypes"
    case Correlation => "correlation"
    case Jaccard => "jaccard"
  }

  /** The string an intersection mode is stored as. */
  function IntersectionName(i: IntersectionType): string {
    match i
    case CDR3ntVJ => "CDR3ntVJ"
    case CDR3aaVJ => "CDR3aaVJ"
    case CDR3nt => "CDR3nt"
    case CDR3aa => "CDR3aa"
  }

  /** Reads a stored distance name back. */
  function ParseDistance(s: string): (r: Option<DistanceType>)
    ensures r.Some? ==> DistanceName(r.value) == s
  {
    if s == "F1" then Some(F1)
    else if s == "F2" then Some(F2)
    else if s == "D" then Some(D)
    else if s == "sharedClonotypes" then Some(SharedClonotypes)
    else if s == "correlation" then Some(Correlation)
    else if s == "jaccard" then Some(Jaccard)
    else None
  }

  /** Reads a stored intersection name back. */
  function ParseIntersection(s: string): (r: Option<IntersectionType>)
    ensures r.Some? ==> IntersectionName(r.value) == s
  {
    if s == "CDR3ntVJ" then Some(CDR3ntVJ)
    else if s == "CDR3aaVJ" then Some(CDR3aaVJ)
    else if s == "CDR3nt" then Some(CDR3nt)
    else if s == "CDR3aa" then Some(CDR3aa)
    else None
  }

  /**
   * The UI's distance types are exactly the metrics the engine computes:
   * every stored name is one the engine accepts and reads back to the same
   * type, and every name the engine accepts is stored by some type.
   */
  lemma DistanceNamesMatchEngine(t: DistanceType, s: string)
    ensures SupportedMetric(DistanceName(t))
    ensures ParseDistance(DistanceName(t)) == Some(t)
    ensures SupportedMetric(s) <==> ParseDistance(s).Some?
  {
  }

  /** Likewise for the intersection modes and the clone-key modes. */
  lemma IntersectionNamesMatchEngine(i: IntersectionType, s: string)
    ensures SupportedIntersection(IntersectionName(i))
    ensures ParseIntersection(IntersectionName(i)) == Some(i)
    ensures SupportedIntersection(s) <==> ParseIntersection(s).Some?
  {
  }

  /** Distinct types are stored under distinct names. */
  lemma DistanceNameInjective(t: DistanceType, u: DistanceType)
    ensures DistanceName(t) == DistanceName(u) <==> t == u
  {
    DistanceNamesMatchEngine(t, DistanceName(t));
    DistanceNamesMatchEngine(u, DistanceName(u));
  }

  /** `downsampling.type`. */
  datatype DownsamplingKind = NoDownsampling | Top | CumTop | Hypergeometric

  /** `downsampling.valueChooser`. */
  datatype ValueChooser = Min | Fixed | Max | Auto

  /** `downsampling`; every field may be absent. */
  datatype Downsampling = Downsampling(kind: Option<DownsamplingKind>, valueChooser: Option<ValueChooser>, n: Option<int>)

  /**
   * A metric entry, with the UI fields `id` and `isExpanded` that the pages
   * keep in the arguments too. Ids are strings: every id the code creates is
   * one.
   */
  datatype Metric = Metric(
    id: Option<string>,
    distance: Option<DistanceType>,
    intersection: Option<IntersectionType>,
    downsampling: Downsampling,
    isExpanded: Option<bool>)

  /** `PlRef`: a reference to a column produced by another block. */
  datatype PlRef = PlRef(blockId: string, name: string)

  /**
   * `BlockArgs`. The declared type requires `metrics`, but the metrics page
   * treats it as possibly missing, so the model lets it be absent.
   */
  datatype BlockArgs = BlockArgs(abundanceRef: Option<PlRef>, metrics: Option<seq<Metric>>)
}
