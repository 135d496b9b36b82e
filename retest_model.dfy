/**
 * Data model of the test-retest script: the three tractometry tables, the
 * fixed metric and ICC-variant tables, the estimator's outcome and the
 * degenerate-result policy applied to it.
 */
module RetestModel {
  import opened Wrappers
  import opened PyStr

  /** Field name to value within one bundle entry (e.g. "mean_length"). */
  type Fields = map<string, real>
  /** Bundle id to its fields, for one acquisition. */
  type BundleStats = map<string, Fields>
  /** Acquisition id to its bundles: one loaded statistics table. */
  type StatTable = map<string, BundleStats>

  /** The length, volume and streamline-count tables. */
  datatype Tables = Tables(length: StatTable, volume: StatTable, streamlineCount: StatTable)

  /** Everything that stops a run: the failed assertions and uncaught exceptions. */
  datatype Error =
    | VolumeKeysDiffer            // first assertion on the table keys
    | StreamlineCountKeysDiffer   // second assertion on the table keys
    | MissingKey(key: string)     // a dictionary lookup raised KeyError
    | NoObjectsToConcatenate      // concatenating an empty list of frames

  datatype Metric = Length | Volume | StreamlineCount

  /** The metrics in the order both the computation and the export visit them. */
  const Metrics: seq<Metric> := [Length, Volume, StreamlineCount]

  function MetricName(m: Metric): string {
    match m
    case Length => "length"
    case Volume => "volume"
    case StreamlineCount => "streamline_count"
  }

  /** The field read for a metric inside a bundle entry. */
  function FieldOf(m: Metric): (f: string)
    ensures m != Length ==> f == MetricName(m)
    ensures m == Length ==> f == "mean_length"
  {
    match m
    case Length => "mean_length"
    case Volume => "volume"
    case StreamlineCount => "streamline_count"
  }

  /** The table paired with a metric. */
  function TableOf(t: Tables, m: Metric): (table: StatTable)
    ensures forall j | 0 <= j < |Metrics| && Metrics[j] == m :: table == [t.length, t.volume, t.streamlineCount][j]
  {
    match m
    case Length => t.length
    case Volume => t.volume
    case StreamlineCount => t.streamlineCount
  }

  lemma MetricsEnumerated(m: Metric)
    ensures m in Metrics
    ensures forall i, j :: 0 <= i < j < |Metrics| ==> Metrics[i] != Metrics[j]
  {
  }

  /** Distinct metrics read distinct fields and carry distinct names. */
  lemma MetricTablesInjective(m: Metric, n: Metric)
    requires m != n
    ensures FieldOf(m) != FieldOf(n) && MetricName(m) != MetricName(n)
  {
  }

  /**
   * Both assertions on the table keys, in order: the volume table first,
   * then the streamline-count table.
   */
  function CheckTableKeys(t: Tables): (r: Result<(), Error>)
    ensures r.Ok? <==> t.length.Keys == t.volume.Keys && t.length.Keys == t.streamlineCount.Keys
    ensures r == Err(VolumeKeysDiffer) <==> t.length.Keys != t.volume.Keys
    ensures r.Err? ==> r.error == VolumeKeysDiffer || r.error == StreamlineCountKeysDiffer
  {
    if t.length.Keys != t.volume.Keys then Err(VolumeKeysDiffer)
    else if t.length.Keys != t.streamlineCount.Keys then Err(StreamlineCountKeysDiffer)
    else Ok(())
  }

  /**
   * Comparing the sorted key lists, as the script does, is comparing the
   * key sets, which is how `CheckTableKeys` is stated.
   */
  lemma SortedKeysEqualIffSameKeys(a: set<string>, b: set<string>, ra: seq<string>, rb: seq<string>)
    requires SortedEnumeration(ra, a) && SortedEnumeration(rb, b)
    ensures ra == rb <==> a == b
  {
    if a == b {
      SortedEnumerationUnique(ra, rb, a);
    }
    if ra == rb {
      assert forall x :: x in a <==> x in b;
    }
  }

  /** The six ICC forms offered on the command line. */
  datatype Variant = ICC11 | ICC21 | ICC31 | ICC1k | ICC2k | ICC3k

  /** The row of the estimator's table that holds a variant. */
  function VariantIndex(v: Variant): (i: nat)
    ensures i < 6
  {
    match v
    case ICC11 => 0
    case ICC21 => 1
    case ICC31 => 2
    case ICC1k => 3
    case ICC2k => 4
    case ICC3k => 5
  }

  /** The variant stored at a row of the estimator's table. */
  function VariantAt(i: nat): Variant
    requires i < 6
  {
    [ICC11, ICC21, ICC31, ICC1k, ICC2k, ICC3k][i]
  }

  /** The variant table is a bijection between the six forms and rows 0 to 5. */
  lemma VariantIndexBijective(v: Variant, i: nat)
    requires i < 6
    ensures VariantAt(VariantIndex(v)) == v
    ensures VariantIndex(VariantAt(i)) == i
    ensures forall w :: VariantIndex(w) == VariantIndex(v) ==> w == v
  {
  }

  datatype Interval = Interval(lower: real, upper: real)

  /** One (ICC, 95% confidence interval) pair. */
  datatype Estimate = Estimate(icc: real, ci: Interval)

  /** What is stored when the estimator cannot compute an ICC. */
  const Sentinel: Estimate := Estimate(0.0, Interval(0.0, 0.0))

  /** The estimator's result table: one row per ICC form. */
  type IccTable = t: seq<Estimate> | |t| == 6
    witness [Sentinel, Sentinel, Sentinel, Sentinel, Sentinel, Sentinel]

  /** One (subject, session label, value) sample. */
  datatype Row = Row(subject: string, session: string, value: real)

  /**
   * What the ICC estimator gives back for a sample table: its six-row
   * table, or one of the two exceptions the script catches.
   */
  datatype Outcome =
    | Estimated(table: IccTable)
    | TooFewRatings   // AssertionError: fewer ratings than the estimator needs
    | MissingValues   // ValueError: raters missing for some targets

  /**
   * The try/except around the estimator: the requested variant's row on
   * success, the zero sentinel on either caught exception.
   */
  function SelectEstimate(v: Variant, o: Outcome): (e: Estimate)
    ensures o.Estimated? ==> e == o.table[VariantIndex(v)]
    ensures o.TooFewRatings? || o.MissingValues? ==> e == Sentinel
  {
    match o
    case Estimated(table) => table[VariantIndex(v)]
    case TooFewRatings => Sentinel
    case MissingValues => Sentinel
  }

  /** The two failures cannot be told apart in what is stored, whatever the variant. */
  lemma FailuresIndistinguishable(v: Variant, w: Variant)
    ensures SelectEstimate(v, TooFewRatings) == SelectEstimate(w, MissingValues) == Sentinel
  {
  }
}
