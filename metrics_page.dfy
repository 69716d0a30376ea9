/**
 * The metrics page (ui/src/pages/metrics.ts): the one-time migration that
 * seeds an empty metric list, and `addMetric`, which appends a fresh entry
 * to the list in place. The clock `Date.now()` is a parameter.
 */
module MetricsPage {
  import opened Wrappers
  import opened Decimal
  import opened BlockTypes
  import opened UiDefaults

  // ------------------------------------------------------------ new entries

  const IdPrefix: string := "metric-"

  /** The id of an entry added at time `now` (milliseconds since the epoch). */
  function NewMetricId(now: nat): (id: string)
    ensures |id| > |IdPrefix| && id[..|IdPrefix|] == IdPrefix
    ensures forall i :: |IdPrefix| <= i < |id| ==> IsDigit(id[i])
  {
    IdPrefix + NatToString(now)
  }

  /** Two entries get the same id exactly when they are added at the same clock value. */
  lemma NewMetricIdInjective(a: nat, b: nat)
    ensures NewMetricId(a) == NewMetricId(b) <==> a == b
  {
    if NewMetricId(a) == NewMetricId(b) {
      assert NatToString(a) == NewMetricId(a)[|IdPrefix|..];
      assert NatToString(b) == NewMetricId(b)[|IdPrefix|..];
      NatToStringInjective(a, b);
    }
  }

  /** The entry `addMetric` appends: nothing chosen yet, no downsampling, shown expanded. */
  function NewMetric(now: nat): (m: Metric)
    ensures m.id == Some(NewMetricId(now))
    ensures m.distance.None? && m.intersection.None? && m.isExpanded == Some(true)
    ensures m.downsampling == Downsampling(Some(NoDownsampling), Some(Auto), None)
  {
    Metric(Some(NewMetricId(now)), None, None, Downsampling(Some(NoDownsampling), Some(Auto), None), Some(true))
  }

  // ------------------------------------------------------------ migration

  /** The single entry the migration seeds: the first default entry, F1 on CDR3ntVJ. */
  function SeedMetric(): (m: Metric)
    ensures m == DefaultMetricUis()[0]
    ensures m.id == Some("f1-cdr3ntvj") && m.distance == Some(F1)
  {
    assert DefaultId(F1) == "f1-cdr3ntvj";
    Metric(Some("f1-cdr3ntvj"), Some(F1), Some(CDR3ntVJ), Downsampling(Some(Hypergeometric), Some(Auto), None), Some(false))
  }

  /** The metric list is missing or empty. */
  predicate NeedsSeed(metrics: Option<seq<Metric>>) {
    metrics.None? || metrics.value == []
  }

  /** The arguments after the migration's update. */
  function Migrated(args: BlockArgs): (r: BlockArgs)
    ensures r.abundanceRef == args.abundanceRef
    ensures NeedsSeed(args.metrics) ==> r.metrics == Some([SeedMetric()])
    ensures !NeedsSeed(args.metrics) ==> r == args
  {
    if NeedsSeed(args.metrics) then args.(metrics := Some([SeedMetric()])) else args
  }

  /**
   * After the migration the list is never missing or empty, and migrating
   * again changes nothing.
   */
  lemma MigratedIdempotent(args: BlockArgs)
    ensures !NeedsSeed(Migrated(args).metrics)
    ensures Migrated(Migrated(args)) == Migrated(args)
  {
  }

  // ------------------------------------------------------------ ids stay distinct

  /** The entries added at the clock values `times`, in order. */
  function NewMetrics(times: seq<nat>): (ms: seq<Metric>)
    ensures |ms| == |times| && forall k :: 0 <= k < |times| ==> ms[k] == NewMetric(times[k])
  {
    seq(|times|, k requires 0 <= k < |times| => NewMetric(times[k]))
  }

  /** No clock value is used twice. */
  predicate DistinctTimes(times: seq<nat>) {
    forall j, k :: 0 <= j < k < |times| ==> times[j] != times[k]
  }

  /** A new id never equals a default id: those do not start with `m`. */
  lemma NewIdIsNotDefault(now: nat, t: DistanceType)
    ensures NewMetricId(now) != DefaultId(t)
  {
    assert NewMetricId(now)[0] == 'm';
    DefaultIdChars(t);
  }

  /** The seeded entry's id is no added entry's. */
  lemma SeedIdIsNotNew(now: nat)
    ensures SeedMetric().id != Some(NewMetricId(now))
  {
    assert SeedMetric().id == Some(DefaultId(F1));
    NewIdIsNotDefault(now, F1);
  }

  /** Entries added at distinct clock values have distinct ids. */
  lemma NewMetricsDistinct(times: seq<nat>)
    requires DistinctTimes(times)
    ensures DistinctIds(NewMetrics(times))
  {
    var ms := NewMetrics(times);
    forall j, k | 0 <= j < k < |ms| ensures ms[j].id != ms[k].id {
      NewMetricIdInjective(times[j], times[k]);
    }
  }

  /** An entry whose id no entry of a list with distinct ids has keeps the ids distinct in front of it. */
  lemma ConsDistinct(x: Metric, ms: seq<Metric>)
    requires x.id.Some? && forall m :: m in ms ==> m.id.Some?
    requires DistinctIds(ms)
    requires forall k :: 0 <= k < |ms| ==> ms[k].id != x.id
    ensures forall m :: m in [x] + ms ==> m.id.Some?
    ensures DistinctIds([x] + ms)
  {
    var all := [x] + ms;
    forall j, k | 0 <= j < k < |all| ensures all[j].id != all[k].id {
      assert all[k] == ms[k - 1];
      if j > 0 {
        assert all[j] == ms[j - 1];
      }
    }
  }

  /**
   * Starting from the seeded list, entries added at distinct clock values
   * all have distinct ids.
   */
  lemma SeededThenAddedDistinct(times: seq<nat>)
    requires DistinctTimes(times)
    ensures DistinctIds([SeedMetric()] + NewMetrics(times))
  {
    var added := NewMetrics(times);
    NewMetricsDistinct(times);
    forall k | 0 <= k < |added| ensures added[k].id != SeedMetric().id {
      SeedIdIsNotNew(times[k]);
    }
    ConsDistinct(SeedMetric(), added);
  }

  // ------------------------------------------------------------ the page

  /**
   * The page's view of the block: the arguments the metrics live in, and
   * the flag of the `once` wrapper around the migration.
   */
  class MetricsSession {
    var args: BlockArgs
    var migrated: bool

    constructor(initial: BlockArgs)
      ensures args == initial && !migrated
    {
      args := initial;
      migrated := false;
    }

    /**
     * The migration: only on its first call, and only when the list is
     * missing or empty, the update re-checks the arguments it is handed and
     * seeds them.
     */
    method MigrateOnce()
      modifies this
      ensures migrated
      ensures args == if old(migrated) then old(args) else Migrated(old(args))
    {
      if !migrated {
        migrated := true;
        if NeedsSeed(args.metrics) {
          var updated := args;
          if NeedsSeed(updated.metrics) {
            updated := updated.(metrics := Some([SeedMetric()]));
          }
          args := updated;
        }
      }
    }

    /**
     * `useMetrics`: runs the migration. However often the page calls it,
     * the arguments end up as after one migration.
     */
    method UseMetrics()
      modifies this
      ensures migrated
      ensures args == if old(migrated) then old(args) else Migrated(old(args))
    {
      MigrateOnce();
    }

    /**
     * `addMetric`: pushes a new entry onto the list in place. The entries
     * already there stay as they are, in order. A missing list makes the
     * push throw; then nothing changes.
     */
    method AddMetric(now: nat) returns (ok: bool)
      modifies this
      ensures ok <==> old(args.metrics).Some?
      ensures ok ==> args == old(args).(metrics := Some(old(args.metrics).value + [NewMetric(now)]))
      ensures !ok ==> args == old(args)
      ensures migrated == old(migrated)
    {
      match args.metrics
      case None =>
        ok := false;
      case Some(list) =>
        args := args.(metrics := Some(list + [NewMetric(now)]));
        ok := true;
    }
  }

  /**
   * A page opened twice and then used to add a metric: the second
   * `useMetrics` changes nothing, the list is seeded if it was empty, and
   * the new entry comes last.
   */
  method OpenTwiceThenAdd(initial: BlockArgs, now: nat) returns (result: BlockArgs)
    ensures result.abundanceRef == initial.abundanceRef
    ensures result.metrics == Some(Migrated(initial).metrics.value + [NewMetric(now)])
  {
    var session := new MetricsSession(initial);
    session.UseMetrics();
    session.UseMetrics();
    MigratedIdempotent(initial);
    var ok := session.AddMetric(now);
    result := session.args;
  }
}
