/**
 * Metric labels (ui/src/pages/util.ts): the options of the metric-type
 * selector, the value-to-label map built from them once, and the lookup the
 * pages use to show a metric's name.
 */
module MetricLabels {
  import opened Wrappers
  import opened BlockTypes

  /** An option of the selector: its value and the label (`text`) shown for it. */
  datatype MetricOption = MetricOption(value: string, text: string)

  /** `metricTypeOptions`. */
  function MetricTypeOptions(): (opts: seq<MetricOption>)
    ensures |opts| == 6
  {
    [MetricOption("F1", "F1 metric"),
     MetricOption("F2", "F2 metric"),
     MetricOption("D", "D metric"),
     MetricOption("sharedClonotypes", "Shared Clonotypes"),
     MetricOption("correlation", "Correlation"),
     MetricOption("jaccard", "Jaccard")]
  }

  /** Every distance type has an option, stored under the type's name. */
  lemma OptionsCoverTypes(t: DistanceType) returns (k: nat)
    ensures k < 6 && MetricTypeOptions()[k].value == DistanceName(t)
  {
    k := match t
      case F1 => 0 case F2 => 1 case D => 2 case SharedClonotypes => 3 case Correlation => 4 case Jaccard => 5;
  }

  /** No two options share a value. */
  predicate DistinctValues(opts: seq<MetricOption>) {
    forall j, k :: 0 <= j < k < |opts| ==> opts[j].value != opts[k].value
  }

  /** The options have pairwise distinct values, so they are one per distance type. */
  lemma OptionsDistinct()
    ensures DistinctValues(MetricTypeOptions())
  {
    var opts := MetricTypeOptions();
    forall j, k | 0 <= j < k < 6 ensures opts[j].value != opts[k].value {
      DistanceNameInjective(ParseDistance(opts[j].value).value, ParseDistance(opts[k].value).value);
    }
  }

  /** The map `map.set` builds from the options in order: a later option overwrites an earlier one. */
  function LabelsOf(opts: seq<MetricOption>): (m: map<string, string>)
    ensures forall v :: v in m <==> exists k :: 0 <= k < |opts| && opts[k].value == v
  {
    if opts == [] then map[]
    else
      var last := opts[|opts| - 1];
      var m := LabelsOf(opts[..|opts| - 1])[last.value := last.text];
      assert forall v :: v in m <==> exists k :: 0 <= k < |opts| && opts[k].value == v by {
        forall v | exists k :: 0 <= k < |opts| && opts[k].value == v ensures v in m {
          var k :| 0 <= k < |opts| && opts[k].value == v;
          if k < |opts| - 1 {
            assert opts[..|opts| - 1][k] == opts[k];
          }
        }
      }
      m
  }

  /** Each value is mapped to the label of the last option with that value. */
  lemma {:induction false} LabelsOfLastWins(opts: seq<MetricOption>, k: nat)
    requires k < |opts|
    requires forall j :: k < j < |opts| ==> opts[j].value != opts[k].value
    ensures LabelsOf(opts)[opts[k].value] == opts[k].text
  {
    if k < |opts| - 1 {
      var init := opts[..|opts| - 1];
      assert init[k] == opts[k];
      LabelsOfLastWins(init, k);
    }
  }

  /** `labelsMap`: the loop that fills the map, one `map.set` per option. */
  method BuildLabelsMap(opts: seq<MetricOption>) returns (m: map<string, string>)
    ensures m == LabelsOf(opts)
  {
    m := map[];
    for i := 0 to |opts|
      invariant m == LabelsOf(opts[..i])
    {
      assert opts[..i + 1][..i] == opts[..i];
      m := m[opts[i].value := opts[i].text];
    }
    assert opts[..|opts|] == opts;
  }

  /** `getMetricLabel`: the label stored for a value, if any. */
  function GetMetricLabel(labels: map<string, string>, value: string): (r: Option<string>)
    ensures r.Some? <==> value in labels
    ensures r.Some? ==> r.value == labels[value]
  {
    if value in labels then Some(labels[value]) else None
  }

  /**
   * On the map built from the options, a value's label is the label of its
   * option, and a value that is no option's has none.
   */
  lemma GetMetricLabelSpec(value: string)
    ensures var r := GetMetricLabel(LabelsOf(MetricTypeOptions()), value);
      && (r.None? <==> forall k :: 0 <= k < 6 ==> MetricTypeOptions()[k].value != value)
      && forall k :: 0 <= k < 6 && MetricTypeOptions()[k].value == value ==> r == Some(MetricTypeOptions()[k].text)
  {
    var opts := MetricTypeOptions();
    OptionsDistinct();
    forall k | 0 <= k < 6 && opts[k].value == value ensures LabelsOf(opts)[value] == opts[k].text {
      LabelsOfLastWins(opts, k);
    }
  }

  /** Every distance type has a label; shared clonotypes read "Shared Clonotypes". */
  lemma EveryTypeHasLabel(t: DistanceType)
    ensures GetMetricLabel(LabelsOf(MetricTypeOptions()), DistanceName(t)).Some?
    ensures GetMetricLabel(LabelsOf(MetricTypeOptions()), "sharedClonotypes") == Some("Shared Clonotypes")
  {
    var k := OptionsCoverTypes(t);
    GetMetricLabelSpec(DistanceName(t));
    GetMetricLabelSpec("sharedClonotypes");
    assert MetricTypeOptions()[3].value == "sharedClonotypes";
  }
}
