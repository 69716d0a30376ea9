/**
 * One metric for one pair of samples (software/src/main.py, compute_metric),
 * over the two samples' clone-key sets. The set-based metrics
 * (sharedClonotypes, jaccard, D) are exact; F1, F2 and correlation read clone
 * fractions with floating point and are kept as an opaque value.
 */
module MetricCompute {
  import opened Wrappers
  import opened Clonotypes

  /** A value stored in a metric column. */
  datatype Value =
    | Int(n: int)       // a Python int
    | Float(x: real)    // a Python float, kept as an exact rational
    | FromFractions(metric: string, mode: string, sample1: string, sample2: string)
      // F1, F2 or correlation computed from the clone fractions of sample1 and
      // sample2, with clones told apart by the intersection mode `mode`

  /** The metric names the engine knows. */
  predicate SupportedMetric(metric: string) {
    metric in {"F1", "F2", "jaccard", "correlation", "D", "sharedClonotypes"}
  }

  /** The metrics whose value for two distinct samples depends only on the clone-key sets. */
  predicate SetMetric(metric: string) {
    metric in {"jaccard", "D", "sharedClonotypes"}
  }

  /** Sizes of the intersection and the union of two sets. */
  lemma CardinalityBounds(a: set<string>, b: set<string>)
    ensures |a * b| <= |a| && |a * b| <= |b| && |a * b| <= |a + b|
    ensures |a + b| + |a * b| == |a| + |b|
    ensures a * b != {} ==> |a| > 0 && |b| > 0 && |a + b| > 0
  {
    assert |a - b| >= 0 && |b - a| >= 0;
  }

  /**
   * The value of `metric` for the samples `s1`, `s2` whose clone-key sets are
   * `set1`, `set2` under the intersection mode `mode`. A self-pair is a perfect match; two samples without a
   * shared clone score 0 for every metric name, even an unknown one.
   */
  function ComputeMetric(s1: string, s2: string, set1: set<string>, set2: set<string>, metric: string, mode: string): (r: Result<Value, Error>)
    ensures r.Err? <==> !SupportedMetric(metric) && (s1 == s2 || set1 * set2 != {})
    ensures r.Err? ==> r.error == UnsupportedMetric(metric)
    ensures s1 == s2 && SupportedMetric(metric) ==>
      r == Ok(if metric == "sharedClonotypes" then Int(|set1|) else Float(1.0))
    ensures s1 != s2 && set1 * set2 == {} ==> r == Ok(Float(0.0))
    ensures r.Ok? && r.value.FromFractions? ==>
      r.value == FromFractions(metric, mode, s1, s2) && metric in {"F1", "F2", "correlation"}
  {
    if s1 == s2 then
      if metric in ["F1", "F2", "jaccard", "correlation", "D"] then Ok(Float(1.0))
      else if metric == "sharedClonotypes" then Ok(Int(|set1|))
      else Err(UnsupportedMetric(metric))
    else
      var shared := set1 * set2;
      if |shared| == 0 then Ok(Float(0.0))
      else
        CardinalityBounds(set1, set2);
        if metric == "F1" || metric == "F2" then Ok(FromFractions(metric, mode, s1, s2))
        else if metric == "jaccard" then Ok(Float(|shared| as real / |set1 + set2| as real))
        else if metric == "D" then Ok(Float(|shared| as real / (|set1| * |set2|) as real))
        else if metric == "correlation" then
          // fewer than two shared clonotypes give no regression
          if |shared| > 1 then Ok(FromFractions(metric, mode, s1, s2)) else Ok(Float(0.0))
        else if metric == "sharedClonotypes" then Ok(Int(|shared|))
        else Err(UnsupportedMetric(metric))
  }

  /**
   * For distinct samples that share at least one clone key, the set-based
   * metrics are the shared count, the Jaccard index and |A∩B|/(|A|·|B|),
   * and they lie in their natural ranges.
   */
  lemma SetMetricFormulas(s1: string, s2: string, set1: set<string>, set2: set<string>, mode: string)
    requires s1 != s2 && set1 * set2 != {}
    ensures var shared := |set1 * set2|;
      && ComputeMetric(s1, s2, set1, set2, "sharedClonotypes", mode) == Ok(Int(shared))
      && 1 <= shared <= |set1| && shared <= |set2|
      && ComputeMetric(s1, s2, set1, set2, "jaccard", mode) == Ok(Float(shared as real / |set1 + set2| as real))
      && 0.0 < ComputeMetric(s1, s2, set1, set2, "jaccard", mode).value.x <= 1.0
      && ComputeMetric(s1, s2, set1, set2, "D", mode) == Ok(Float(shared as real / (|set1| * |set2|) as real))
      && 0.0 < ComputeMetric(s1, s2, set1, set2, "D", mode).value.x <= 1.0
  {
    CardinalityBounds(set1, set2);
    var shared := |set1 * set2|;
    RatioInUnit(shared, |set1 + set2|);
    ProductBound(shared, |set1|, |set2|);
    RatioInUnit(shared, |set1| * |set2|);
  }

  /** A ratio of positive integers whose numerator is at most its denominator lies in (0, 1]. */
  lemma RatioInUnit(n: int, d: int)
    requires 1 <= n <= d
    ensures 0.0 < n as real / d as real <= 1.0
  {
    assert n as real <= d as real;
  }

  lemma ProductBound(n: int, a: int, b: int)
    requires 1 <= n <= a && n <= b
    ensures n <= a * b
  {
    assert a * 1 <= a * b;
  }

  /**
   * Correlation over a single shared clonotype is 0: the regression needs
   * at least two points.
   */
  lemma CorrelationNeedsTwoShared(s1: string, s2: string, set1: set<string>, set2: set<string>, mode: string)
    requires s1 != s2 && |set1 * set2| <= 1
    ensures ComputeMetric(s1, s2, set1, set2, "correlation", mode) == Ok(Float(0.0))
  {
  }

  /**
   * The set-based metrics do not depend on the order of the two samples;
   * neither does any metric of a self-pair or of a pair without shared clones.
   */
  lemma {:induction false} ComputeMetricSymmetric(s1: string, s2: string, set1: set<string>, set2: set<string>, metric: string, mode: string)
    requires SetMetric(metric) || s1 == s2 || set1 * set2 == {}
    requires s1 == s2 ==> set1 == set2
    ensures ComputeMetric(s1, s2, set1, set2, metric, mode) == ComputeMetric(s2, s1, set2, set1, metric, mode)
  {
    assert set1 * set2 == set2 * set1;
    assert set1 + set2 == set2 + set1;
    assert |set1| * |set2| == |set2| * |set1|;
  }
}
