/**
 * The whole of the test-retest computation: the table key check, bundle
 * discovery, the bundle x metric estimation loop and the CSV export, in the
 * order the script runs them.
 */
module TestRetest {
  import opened Wrappers
  import opened PyStr
  import opened Dict
  import opened RetestModel
  import opened RepeatedMeasures
  import opened BundleDiscovery
  import opened ResultStore

  /** What a successful run produces: the analysed bundles, the per-label keys, the results and the CSV rows. */
  datatype Report = Report(bundles: seq<string>, bundlesPerLabel: set<string>, results: Store, csv: seq<seq<CsvCell>>)

  /** Every cell of every bundle in `s` can be estimated. */
  ghost predicate CellsOk(tables: Tables, mapping: ODict<seq<string>>, variant: Variant, estimator: Estimator, s: set<string>)
    requires mapping.Valid()
  {
    forall b, m | b in s :: CellEstimate(tables, mapping, variant, estimator, b, m).Ok?
  }

  /**
   * A report for the given inputs: the tables agree on their acquisitions,
   * the bundles are the unlabelled bundles in sorted order, the results
   * hold exactly those bundles in that order with every cell as
   * `CellEstimate` gives it, and the CSV is their export, with the layout
   * `ExportRoundTrip` reads back.
   */
  ghost predicate IsReport(tables: Tables, mapping: ODict<seq<string>>, variant: Variant, estimator: Estimator, rep: Report)
    requires mapping.Valid()
  {
    && CheckTableKeys(tables).Ok?
    && SortedEnumeration(rep.bundles, UnlabelledBundles(tables.length))
    && rep.bundlesPerLabel == LabelledBundles(tables.length)
    && rep.results.Valid() && rep.results.keys == rep.bundles
    && (forall b | b in rep.results.entries :: Filled(tables, mapping, variant, estimator, b, rep.results.entries[b]))
    && Complete(rep.results)
    && rep.csv == ExportOf(rep.results, |rep.results.keys|)
    && IsExport(rep.results, rep.csv)
  }

  /** A strictly sorted list has no repeated entry. */
  lemma SortedIsDistinct(r: seq<string>)
    requires StrictlySorted(r)
    ensures Distinct(r)
  {
    forall i, j | 0 <= i < j < |r|
      ensures r[i] != r[j]
    {
      if r[i] == r[j] {
        LessIrreflexive(r[i]);
      }
    }
  }

  /** A store that holds all of its listed bundles is complete. */
  lemma HoldsComplete(tables: Tables, mapping: ODict<seq<string>>, variant: Variant, estimator: Estimator,
                      bundles: seq<string>, store: Store)
    requires mapping.Valid() && store.Valid() && store.keys == bundles
    requires Holds(tables, mapping, variant, estimator, bundles, |bundles|, store)
    ensures forall b | b in store.entries :: Filled(tables, mapping, variant, estimator, b, store.entries[b])
    ensures Complete(store)
  {
    forall b | b in store.entries
      ensures Filled(tables, mapping, variant, estimator, b, store.entries[b])
    {
      var k :| 0 <= k < |bundles| && bundles[k] == b;
    }
  }

  /** All cells in loop order succeed exactly when all cells of the enumerated set do. */
  lemma CellsOkOnEnumeration(tables: Tables, mapping: ODict<seq<string>>, variant: Variant, estimator: Estimator,
                             bundles: seq<string>, s: set<string>)
    requires mapping.Valid() && SortedEnumeration(bundles, s)
    ensures CellsOkBefore(tables, mapping, variant, estimator, bundles, |bundles|, 0)
      <==> CellsOk(tables, mapping, variant, estimator, s)
  {
    if CellsOkBefore(tables, mapping, variant, estimator, bundles, |bundles|, 0) {
      forall b, m | b in s
        ensures CellEstimate(tables, mapping, variant, estimator, b, m).Ok?
      {
        var k :| 0 <= k < |bundles| && bundles[k] == b;
      }
    }
  }

  /**
   * The script's main flow, from the loaded tables and subject mapping to
   * the results and the CSV rows. A key mismatch stops it first; otherwise
   * it fails exactly when some cell of an analysed bundle cannot be
   * estimated, with that cell's error.
   */
  method Run(tables: Tables, mapping: ODict<seq<string>>, variant: Variant, estimator: Estimator)
    returns (r: Result<Report, Error>)
    requires mapping.Valid()
    ensures CheckTableKeys(tables).Err? ==> r == Err(CheckTableKeys(tables).error)
    ensures r.Ok? ==> IsReport(tables, mapping, variant, estimator, r.value)
    ensures r.Ok? <==> CheckTableKeys(tables).Ok? && CellsOk(tables, mapping, variant, estimator, UnlabelledBundles(tables.length))
    ensures r.Err? && CheckTableKeys(tables).Ok? ==> exists b, m | b in UnlabelledBundles(tables.length) ::
      CellEstimate(tables, mapping, variant, estimator, b, m) == Err(r.error)
  {
    var check := CheckTableKeys(tables);
    if check.Err? {
      return Err(check.error);
    }
    var bundles, bundlesPerLabel := DiscoverBundles(tables.length);
    SortedIsDistinct(bundles);
    CellsOkOnEnumeration(tables, mapping, variant, estimator, bundles, UnlabelledBundles(tables.length));
    var computed := ComputeAll(tables, mapping, variant, estimator, bundles);
    if computed.Err? {
      ghost var i, j :| 0 <= i < |bundles| && 0 <= j < |Metrics|
        && CellsOkBefore(tables, mapping, variant, estimator, bundles, i, j)
        && CellEstimate(tables, mapping, variant, estimator, bundles[i], Metrics[j]) == Err(computed.error);
      assert bundles[i] in UnlabelledBundles(tables.length);
      return Err(computed.error);
    }
    var results := computed.value;
    HoldsComplete(tables, mapping, variant, estimator, bundles, results);
    var csv := ExportRows(results);
    ExportHasLayout(results);
    return Ok(Report(bundles, bundlesPerLabel, results, csv));
  }

  /**
   * The report is a function of the inputs: two reports for the same
   * tables, mapping, variant and estimator are equal.
   */
  lemma ReportDetermined(tables: Tables, mapping: ODict<seq<string>>, variant: Variant, estimator: Estimator,
                         rep1: Report, rep2: Report)
    requires mapping.Valid()
    requires IsReport(tables, mapping, variant, estimator, rep1) && IsReport(tables, mapping, variant, estimator, rep2)
    ensures rep1 == rep2
  {
    SortedEnumerationUnique(rep1.bundles, rep2.bundles, UnlabelledBundles(tables.length));
    var s1, s2 := rep1.results, rep2.results;
    assert s1.entries.Keys == s2.entries.Keys by {
      forall b ensures b in s1.entries <==> b in s2.entries {
        assert b in s1.entries <==> b in s1.keys;
      }
    }
    forall b | b in s1.entries
      ensures s1.entries[b] == s2.entries[b]
    {
      InnerDetermined(tables, mapping, variant, estimator, b, s1.entries[b], s2.entries[b]);
    }
    assert s1.entries == s2.entries;
  }

  /** Two filled inner maps for the same bundle are equal. */
  lemma InnerDetermined(tables: Tables, mapping: ODict<seq<string>>, variant: Variant, estimator: Estimator,
                        b: string, inner1: map<Metric, Estimate>, inner2: map<Metric, Estimate>)
    requires mapping.Valid()
    requires Filled(tables, mapping, variant, estimator, b, inner1) && Filled(tables, mapping, variant, estimator, b, inner2)
    ensures inner1 == inner2
  {
    forall m ensures m in inner1 && m in inner2 && inner1[m] == inner2[m] {
      assert CellEstimate(tables, mapping, variant, estimator, b, m) == Ok(inner1[m]);
    }
  }
}
