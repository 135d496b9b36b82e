/**
 * The bundle x metric loop that fills the nested results dictionary, and
 * the CSV rows exported from it.
 */
module ResultStore {
  import opened Wrappers
  import opened Dict
  import opened RetestModel
  import opened RepeatedMeasures

  /** `results[bundle][metric]`: bundles in first-written order, metrics in a map. */
  type Store = ODict<map<Metric, Estimate>>

  /** The estimator, given as a parameter: it is a call into a statistics library. */
  type Estimator = seq<Row> -> Outcome

  /**
   * The stored result for one bundle and one metric: the sample table is
   * built, and the estimator's outcome goes through the degenerate-result
   * policy; a failed lookup or an empty sample table stops the run instead.
   */
  function CellEstimate(tables: Tables, mapping: ODict<seq<string>>, variant: Variant, estimator: Estimator,
                        bundle: string, metric: Metric): (r: Result<Estimate, Error>)
    requires mapping.Valid()
    ensures r.Err? ==> r.error.MissingKey? || r.error.NoObjectsToConcatenate?
    ensures r.Err? <==> Frame(RowsFor(TableOf(tables, metric), bundle, FieldOf(metric), mapping.keys, mapping.entries)).Err?
  {
    var rows :- Frame(RowsFor(TableOf(tables, metric), bundle, FieldOf(metric), mapping.keys, mapping.entries));
    Ok(SelectEstimate(variant, estimator(rows)))
  }

  /**
   * When a cell stops the run, in terms of the inputs: with the
   * empty-concat error exactly when every subject's acquisition list can
   * be read but no listed acquisition has the bundle in the metric's
   * table; with some error exactly then, or when some subject lists an
   * acquisition missing from that table or one whose entry lacks the field.
   */
  lemma CellFailure(tables: Tables, mapping: ODict<seq<string>>, variant: Variant, estimator: Estimator,
                    bundle: string, metric: Metric)
    requires mapping.Valid()
    ensures CellEstimate(tables, mapping, variant, estimator, bundle, metric) == Err(NoObjectsToConcatenate) <==>
      && (forall s | s in mapping.keys :: Readable(TableOf(tables, metric), bundle, FieldOf(metric), mapping.entries[s]))
      && (forall s, a | s in mapping.keys && a in mapping.entries[s] :: bundle !in TableOf(tables, metric)[a])
    ensures CellEstimate(tables, mapping, variant, estimator, bundle, metric).Err? <==>
      || (exists s | s in mapping.keys :: !Readable(TableOf(tables, metric), bundle, FieldOf(metric), mapping.entries[s]))
      || (forall s, a | s in mapping.keys && a in mapping.entries[s] ::
            a in TableOf(tables, metric) && bundle !in TableOf(tables, metric)[a])
  {
    FrameFailure(TableOf(tables, metric), bundle, FieldOf(metric), mapping.keys, mapping.entries);
  }

  /**
   * One pass of the inner loop's body: the sample table for the bundle and
   * metric is built, the estimator runs on it, and the degenerate-result
   * policy picks the stored estimate.
   */
  method EstimateCell(tables: Tables, mapping: ODict<seq<string>>, variant: Variant, estimator: Estimator,
                      bundle: string, metric: Metric) returns (r: Result<Estimate, Error>)
    requires mapping.Valid()
    ensures r == CellEstimate(tables, mapping, variant, estimator, bundle, metric)
  {
    var df := BuildFrame(TableOf(tables, metric), bundle, FieldOf(metric), mapping);
    if df.Err? {
      return Err(df.error);
    }
    var outcome := estimator(df.value);
    return Ok(SelectEstimate(variant, outcome));
  }

  /**
   * `results[bundle][metric] = e` on the auto-vivifying dictionary: the
   * first write for a bundle creates its entry at the end.
   */
  function Record(store: Store, bundle: string, metric: Metric, e: Estimate): (s: Store)
    requires store.Valid()
    ensures s.Valid()
    ensures bundle in store.entries ==> s.keys == store.keys
    ensures bundle !in store.entries ==> s.keys == store.keys + [bundle]
    ensures bundle in s.entries && metric in s.entries[bundle] && s.entries[bundle][metric] == e
    ensures forall m | m != metric :: (m in s.entries[bundle] <==> bundle in store.entries && m in store.entries[bundle])
    ensures forall m | m != metric && bundle in store.entries && m in store.entries[bundle] ::
      s.entries[bundle][m] == store.entries[bundle][m]
    ensures forall b | b in store.entries && b != bundle :: b in s.entries && s.entries[b] == store.entries[b]
  {
    var inner := if bundle in store.entries then store.entries[bundle] else map[];
    Put(store, bundle, inner[metric := e])
  }

  /** One more metric's cell joins the inner map without disturbing the earlier ones. */
  lemma CellsExtend(cell: Metric -> Result<Estimate, Error>, inner: map<Metric, Estimate>, j: nat, e: Estimate)
    requires j < |Metrics| && cell(Metrics[j]) == Ok(e)
    requires forall j' | 0 <= j' < j :: Metrics[j'] in inner && cell(Metrics[j']) == Ok(inner[Metrics[j']])
    ensures forall j' | 0 <= j' < j + 1 ::
      Metrics[j'] in inner[Metrics[j] := e] && cell(Metrics[j']) == Ok(inner[Metrics[j] := e][Metrics[j']])
  {
    MetricsEnumerated(Metrics[j]);
  }

  /** Successive writes into a bundle new to the store build up its inner map. */
  lemma RecordIntoNew(store: Store, bundle: string, inner: map<Metric, Estimate>, metric: Metric, e: Estimate, first: bool)
    requires store.Valid() && bundle !in store.entries
    requires first ==> inner == map[]
    ensures Record(if first then store else Put(store, bundle, inner), bundle, metric, e)
      == Put(store, bundle, inner[metric := e])
  {
    var entries := store.entries[bundle := inner[metric := e]];
    assert Put(store, bundle, inner[metric := e]) == ODict(store.keys + [bundle], entries);
    if !first {
      var once := Put(store, bundle, inner);
      assert once == ODict(store.keys + [bundle], store.entries[bundle := inner]);
      UpdateTwice(store.entries, bundle, inner, inner[metric := e]);
    }
  }

  /** Every cell before metric `j` of bundle `i` (in loop order) succeeded. */
  ghost predicate CellsOkBefore(tables: Tables, mapping: ODict<seq<string>>, variant: Variant, estimator: Estimator,
                                bundles: seq<string>, i: nat, j: nat)
    requires mapping.Valid() && i <= |bundles| && j <= |Metrics|
  {
    && (forall k, m | 0 <= k < i :: CellEstimate(tables, mapping, variant, estimator, bundles[k], m).Ok?)
    && (forall j' | 0 <= j' < j :: i < |bundles| && CellEstimate(tables, mapping, variant, estimator, bundles[i], Metrics[j']).Ok?)
  }

  /** A bundle's inner map holds all three metrics, each as `CellEstimate` gives it. */
  ghost predicate Filled(tables: Tables, mapping: ODict<seq<string>>, variant: Variant, estimator: Estimator,
                         bundle: string, inner: map<Metric, Estimate>)
    requires mapping.Valid()
  {
    forall m :: m in inner && CellEstimate(tables, mapping, variant, estimator, bundle, m) == Ok(inner[m])
  }

  /** The store holds every cell of the first `i` bundles. */
  ghost predicate Holds(tables: Tables, mapping: ODict<seq<string>>, variant: Variant, estimator: Estimator,
                        bundles: seq<string>, i: nat, store: Store)
    requires mapping.Valid() && i <= |bundles|
  {
    forall k | 0 <= k < i ::
      bundles[k] in store.entries && Filled(tables, mapping, variant, estimator, bundles[k], store.entries[bundles[k]])
  }

  /** Appending the next bundle's cells, leaving the earlier ones alone, extends `Holds`. */
  lemma HoldsExtend(tables: Tables, mapping: ODict<seq<string>>, variant: Variant, estimator: Estimator,
                    bundles: seq<string>, i: nat, store: Store, next: Store)
    requires mapping.Valid() && i < |bundles|
    requires Holds(tables, mapping, variant, estimator, bundles, i, store)
    requires forall b | b in store.entries :: b in next.entries && next.entries[b] == store.entries[b]
    requires bundles[i] in next.entries && Filled(tables, mapping, variant, estimator, bundles[i], next.entries[bundles[i]])
    ensures Holds(tables, mapping, variant, estimator, bundles, i + 1, next)
  {
    forall k | 0 <= k < i + 1
      ensures bundles[k] in next.entries && Filled(tables, mapping, variant, estimator, bundles[k], next.entries[bundles[k]])
    {
      if k < i {
        assert bundles[k] in store.entries;
      }
    }
  }

  /**
   * The inner loop over the three metrics for one bundle not yet in the
   * store: on success the bundle is appended with its three cells, the
   * other bundles untouched; otherwise the error is that of the first
   * failing metric.
   */
  method RecordBundle(tables: Tables, mapping: ODict<seq<string>>, variant: Variant, estimator: Estimator, store: Store, bname: string)
    returns (r: Result<Store, Error>)
    requires mapping.Valid() && store.Valid() && bname !in store.entries
    ensures r.Ok? ==> r.value.Valid() && r.value.keys == store.keys + [bname]
    ensures r.Ok? ==> forall b | b in store.entries :: b in r.value.entries && r.value.entries[b] == store.entries[b]
    ensures r.Ok? ==> Filled(tables, mapping, variant, estimator, bname, r.value.entries[bname])
    ensures r.Err? ==> exists j | 0 <= j < |Metrics| ::
      && (forall j' | 0 <= j' < j :: CellEstimate(tables, mapping, variant, estimator, bname, Metrics[j']).Ok?)
      && CellEstimate(tables, mapping, variant, estimator, bname, Metrics[j]) == Err(r.error)
  {
    var current := store;
    ghost var inner: map<Metric, Estimate> := map[];
    ghost var cell := (m: Metric) => CellEstimate(tables, mapping, variant, estimator, bname, m);
    var j := 0;
    while j < |Metrics|
      invariant 0 <= j <= |Metrics|
      invariant j == 0 ==> inner == map[]
      invariant current == if j == 0 then store else Put(store, bname, inner)
      invariant forall j' | 0 <= j' < j ::
        Metrics[j'] in inner && cell(Metrics[j']) == Ok(inner[Metrics[j']])
    {
      var metric := Metrics[j];
      var estimate := EstimateCell(tables, mapping, variant, estimator, bname, metric);
      if estimate.Err? {
        return Err(estimate.error);
      }
      var e := estimate.value;
      CellsExtend(cell, inner, j, e);
      RecordIntoNew(store, bname, inner, metric, e, j == 0);
      current := Record(current, bname, metric, e);
      inner := inner[metric := e];
      j := j + 1;
    }
    forall m ensures m in inner && cell(m) == Ok(inner[m])
    {
      MetricsEnumerated(m);
    }
    return Ok(current);
  }

  /**
   * The nested loop over the sorted bundles and the three metrics. On
   * success the store has exactly the given bundles, in order, each with
   * all three metrics holding their cell's estimate; otherwise the error is
   * that of the first failing cell in loop order.
   */
  method ComputeAll(tables: Tables, mapping: ODict<seq<string>>, variant: Variant, estimator: Estimator, bundles: seq<string>)
    returns (r: Result<Store, Error>)
    requires mapping.Valid() && Distinct(bundles)
    ensures r.Ok? ==> r.value.Valid() && r.value.keys == bundles
    ensures r.Ok? ==> Holds(tables, mapping, variant, estimator, bundles, |bundles|, r.value)
    ensures r.Ok? <==> CellsOkBefore(tables, mapping, variant, estimator, bundles, |bundles|, 0)
    ensures r.Err? ==> exists i, j | 0 <= i < |bundles| && 0 <= j < |Metrics| ::
      && CellsOkBefore(tables, mapping, variant, estimator, bundles, i, j)
      && CellEstimate(tables, mapping, variant, estimator, bundles[i], Metrics[j]) == Err(r.error)
  {
    var store: Store := Empty();
    var i := 0;
    while i < |bundles|
      invariant 0 <= i <= |bundles|
      invariant store.Valid() && store.keys == bundles[..i]
      invariant Holds(tables, mapping, variant, estimator, bundles, i, store)
    {
      var bname := bundles[i];
      assert bname !in store.entries by {
        assert bname !in bundles[..i];
      }
      var next := RecordBundle(tables, mapping, variant, estimator, store, bname);
      if next.Err? {
        ghost var j :| 0 <= j < |Metrics|
          && (forall j' | 0 <= j' < j :: CellEstimate(tables, mapping, variant, estimator, bname, Metrics[j']).Ok?)
          && CellEstimate(tables, mapping, variant, estimator, bname, Metrics[j]) == Err(next.error);
        assert CellsOkBefore(tables, mapping, variant, estimator, bundles, i, j);
        assert !CellsOkBefore(tables, mapping, variant, estimator, bundles, |bundles|, 0);
        return Err(next.error);
      }
      assert bundles[..i + 1] == bundles[..i] + [bname];
      HoldsExtend(tables, mapping, variant, estimator, bundles, i, store, next.value);
      store := next.value;
      i := i + 1;
    }
    assert bundles[..i] == bundles;
    return Ok(store);
  }

  /** A CSV cell: the key column is text, the three others are numbers. */
  datatype CsvCell = Text(text: string) | Number(number: real)

  const Header: seq<CsvCell> := [Text("Bundle"), Text("icc"), Text("ci_lower"), Text("ci_upper")]

  /** The first column of a data row: `<bundle>_<metric>`. */
  function RowKey(bundle: string, metric: Metric): string {
    bundle + "_" + MetricName(metric)
  }

  function CsvRow(bundle: string, metric: Metric, e: Estimate): seq<CsvCell> {
    [Text(RowKey(bundle, metric)), Number(e.icc), Number(e.ci.lower), Number(e.ci.upper)]
  }

  /** Every listed bundle has all three metrics. */
  ghost predicate Complete(store: Store) {
    store.Valid() && forall b, m | b in store.entries :: m in store.entries[b]
  }

  /** The three rows of one bundle, in the fixed metric order. */
  ghost function BundleRows(store: Store, b: string): seq<seq<CsvCell>>
    requires Complete(store) && b in store.entries
  {
    seq(|Metrics|, j requires 0 <= j < |Metrics| => CsvRow(b, Metrics[j], store.entries[b][Metrics[j]]))
  }

  /** The header, then the rows of the first `n` bundles of the store, in order. */
  ghost function ExportOf(store: Store, n: nat): seq<seq<CsvCell>>
    requires Complete(store) && n <= |store.keys|
  {
    if n == 0 then [Header]
    else ExportOf(store, n - 1) + BundleRows(store, store.keys[n - 1])
  }

  /** The export loop over the results' bundles. */
  method ExportRows(store: Store) returns (rows: seq<seq<CsvCell>>)
    requires Complete(store)
    ensures rows == ExportOf(store, |store.keys|)
  {
    rows := [Header];
    var k := 0;
    while k < |store.keys|
      invariant 0 <= k <= |store.keys|
      invariant rows == ExportOf(store, k)
    {
      rows := WriteBundle(store, store.keys[k], rows);
      k := k + 1;
    }
  }

  /** The inner export loop: one row per metric of `bundle`, appended in metric order. */
  method WriteBundle(store: Store, bundle: string, rows: seq<seq<CsvCell>>) returns (rows': seq<seq<CsvCell>>)
    requires Complete(store) && bundle in store.keys
    ensures rows' == rows + BundleRows(store, bundle)
  {
    rows' := rows;
    var j := 0;
    while j < |Metrics|
      invariant 0 <= j <= |Metrics|
      invariant rows' == rows + BundleRows(store, bundle)[..j]
    {
      var dataName := Metrics[j];
      var e := store.entries[bundle][dataName];
      var row := [Text(RowKey(bundle, dataName))];
      row := row + [Number(e.icc)];
      row := row + [Number(e.ci.lower), Number(e.ci.upper)];
      assert row == CsvRow(bundle, dataName, e) == BundleRows(store, bundle)[j];
      assert BundleRows(store, bundle)[..j + 1] == BundleRows(store, bundle)[..j] + [row];
      rows' := rows' + [row];
      j := j + 1;
    }
    assert BundleRows(store, bundle)[..j] == BundleRows(store, bundle);
  }

  /**
   * The layout of the CSV: the header, then for each bundle of the store in
   * order, one row per metric in the fixed metric order.
   */
  ghost predicate IsExport(store: Store, rows: seq<seq<CsvCell>>)
    requires Complete(store)
  {
    && |rows| == 1 + 3 * |store.keys|
    && rows[0] == Header
    && forall k, j | 0 <= k < |store.keys| && 0 <= j < 3 ::
         rows[1 + 3 * k + j] == CsvRow(store.keys[k], Metrics[j], store.entries[store.keys[k]][Metrics[j]])
  }

  /** The header comes first and each bundle adds three rows. */
  lemma {:induction false} ExportLength(store: Store, n: nat)
    requires Complete(store) && n <= |store.keys|
    ensures |ExportOf(store, n)| == 1 + 3 * n && ExportOf(store, n)[0] == Header
  {
    if n > 0 {
      ExportLength(store, n - 1);
    }
  }

  /** Metric `j` of the `k`-th bundle sits at row `1 + 3 * k + j`. */
  lemma {:induction false} ExportRowOf(store: Store, n: nat, k: nat, j: nat)
    requires Complete(store) && n <= |store.keys| && k < n && j < 3
    ensures 1 + 3 * k + j < |ExportOf(store, n)|
    ensures ExportOf(store, n)[1 + 3 * k + j] == CsvRow(store.keys[k], Metrics[j], store.entries[store.keys[k]][Metrics[j]])
  {
    ExportLength(store, n - 1);
    var prefix, last := ExportOf(store, n - 1), BundleRows(store, store.keys[n - 1]);
    var p := 1 + 3 * k + j;
    BundleRowAt(store, store.keys[n - 1], j);
    IndexConcat(prefix, last, p);
    if k < n - 1 {
      ExportRowOf(store, n - 1, k, j);
    } else {
      assert p - |prefix| == j;
    }
  }

  /** The `j`-th row of a bundle's block. */
  lemma BundleRowAt(store: Store, b: string, j: nat)
    requires Complete(store) && b in store.entries && j < 3
    ensures |BundleRows(store, b)| == 3
    ensures BundleRows(store, b)[j] == CsvRow(b, Metrics[j], store.entries[b][Metrics[j]])
  {
  }

  /** Indexing into two lists one after the other. */
  lemma IndexConcat<T>(a: seq<T>, b: seq<T>, i: nat)
    requires i < |a| + |b|
    ensures |a + b| == |a| + |b|
    ensures (a + b)[i] == if i < |a| then a[i] else b[i - |a|]
  {
  }

  /** The rows of the first `n` bundles sit three to a bundle after the header. */
  lemma ExportLayout(store: Store, n: nat)
    requires Complete(store) && n <= |store.keys|
    ensures |ExportOf(store, n)| == 1 + 3 * n && ExportOf(store, n)[0] == Header
    ensures forall k, j | 0 <= k < n && 0 <= j < 3 ::
      ExportOf(store, n)[1 + 3 * k + j] == CsvRow(store.keys[k], Metrics[j], store.entries[store.keys[k]][Metrics[j]])
  {
    ExportLength(store, n);
    forall k, j | 0 <= k < n && 0 <= j < 3
      ensures ExportOf(store, n)[1 + 3 * k + j] == CsvRow(store.keys[k], Metrics[j], store.entries[store.keys[k]][Metrics[j]])
    {
      ExportRowOf(store, n, k, j);
    }
  }

  /** What the export loop writes has the CSV layout. */
  lemma ExportHasLayout(store: Store)
    requires Complete(store)
    ensures IsExport(store, ExportOf(store, |store.keys|))
  {
    ExportLayout(store, |store.keys|);
  }

  /** The last character of each metric name tells the metrics apart. */
  lemma MetricNameLastChars(m: Metric)
    ensures |MetricName(m)| >= 6
    ensures MetricName(m)[|MetricName(m)| - 1] == (match m case Length => 'h' case Volume => 'e' case StreamlineCount => 't')
  {
  }

  /** Different (bundle, metric) pairs never share a row key. */
  lemma RowKeyInjective(b1: string, m1: Metric, b2: string, m2: Metric)
    requires RowKey(b1, m1) == RowKey(b2, m2)
    ensures b1 == b2 && m1 == m2
  {
    var key := RowKey(b1, m1);
    MetricNameLastChars(m1);
    MetricNameLastChars(m2);
    assert key[|key| - 1] == MetricName(m1)[|MetricName(m1)| - 1];
    assert key[|key| - 1] == MetricName(m2)[|MetricName(m2)| - 1];
    var n := |key| - |MetricName(m1)| - 1;
    assert b1 == key[..n];
    assert b2 == key[..n];
  }

  /** The key splits back into the bundle, the separator and the metric name. */
  lemma RowKeyParts(b: string, m: Metric)
    ensures var key := RowKey(b, m);
      && |key| == |b| + 1 + |MetricName(m)|
      && key[..|b|] == b && key[|b|] == '_' && key[|b| + 1..] == MetricName(m)
  {
  }

  /** A data row is as wide as the header: the key as text, then the ICC and its interval as numbers. */
  lemma CsvRowShape(b: string, m: Metric, e: Estimate)
    ensures var row := CsvRow(b, m, e);
      && |row| == |Header| && row[0] == Text(RowKey(b, m)) && row[0] != Header[0]
      && (forall i | 1 <= i < |row| :: row[i].Number? && !Header[i].Number?)
      && row[1..] == [Number(e.icc), Number(e.ci.lower), Number(e.ci.upper)]
  {
    HeaderIsNoDataRow(b, m);
  }

  /** No data row key can be mistaken for the header's first cell. */
  lemma HeaderIsNoDataRow(b: string, m: Metric)
    ensures Header[0] != Text(RowKey(b, m))
  {
    MetricNameLastChars(m);
  }

  /** Where a data row comes from: row `p` is metric `j` of bundle `k`, with `p == 1 + 3 * k + j`. */
  lemma ExportRowAt(store: Store, rows: seq<seq<CsvCell>>, p: nat) returns (k: nat, j: nat)
    requires Complete(store) && IsExport(store, rows) && 1 <= p < |rows|
    ensures p == 1 + 3 * k + j && k < |store.keys| && j < 3
    ensures rows[p] == CsvRow(store.keys[k], Metrics[j], store.entries[store.keys[k]][Metrics[j]])
  {
    k, j := RowIndexSplit(p, |store.keys|);
  }

  /** Division by three of a data row's offset past the header. */
  lemma RowIndexSplit(p: int, n: nat) returns (k: nat, j: nat)
    requires 1 <= p < 1 + 3 * n
    ensures p == 1 + 3 * k + j && k < n && j < 3
  {
    k, j := (p - 1) / 3, (p - 1) % 3;
  }

  /**
   * Reading the CSV back: each (bundle, metric) of the store is on exactly
   * one row, and that row carries the stored estimate unchanged.
   */
  lemma ExportRoundTrip(store: Store, rows: seq<seq<CsvCell>>, b: string, m: Metric)
    requires Complete(store) && IsExport(store, rows) && b in store.entries
    ensures exists p | 0 <= p < |rows| :: rows[p] == CsvRow(b, m, store.entries[b][m])
    ensures forall p, q | 0 <= p < |rows| && 0 <= q < |rows| && rows[p] != [] && rows[q] != []
      && rows[p][0] == Text(RowKey(b, m)) && rows[q][0] == Text(RowKey(b, m)) :: p == q
    ensures forall p | 0 <= p < |rows| && rows[p] != [] && rows[p][0] == Text(RowKey(b, m)) ::
      rows[p] == CsvRow(b, m, store.entries[b][m])
  {
    var k, j := Locate(store, b, m);
    var home := 1 + 3 * k + j;
    HomeRow(store, rows, b, m, k, j);
    forall p | 0 <= p < |rows| && rows[p] != [] && rows[p][0] == Text(RowKey(b, m))
      ensures p == home
    {
      KeyRowIsHome(store, rows, b, m, k, j, p);
    }
  }

  /** The positions of a stored bundle and of a metric in their orders. */
  lemma Locate(store: Store, b: string, m: Metric) returns (k: nat, j: nat)
    requires store.Valid() && b in store.entries
    ensures k < |store.keys| && store.keys[k] == b && j < 3 && Metrics[j] == m
  {
    k :| 0 <= k < |store.keys| && store.keys[k] == b;
    MetricsEnumerated(m);
    j :| 0 <= j < 3 && Metrics[j] == m;
  }

  /** Row `1 + 3 * k + j` holds metric `Metrics[j]` of bundle `keys[k]`. */
  lemma HomeRow(store: Store, rows: seq<seq<CsvCell>>, b: string, m: Metric, k: nat, j: nat)
    requires Complete(store) && IsExport(store, rows)
    requires k < |store.keys| && store.keys[k] == b && j < 3 && Metrics[j] == m
    ensures rows[1 + 3 * k + j] == CsvRow(b, m, store.entries[b][m])
  {
  }

  /** A row carrying the key of bundle `keys[k]` and metric `Metrics[j]` is row `1 + 3 * k + j`. */
  lemma KeyRowIsHome(store: Store, rows: seq<seq<CsvCell>>, b: string, m: Metric, k: nat, j: nat, p: nat)
    requires Complete(store) && IsExport(store, rows)
    requires k < |store.keys| && store.keys[k] == b && j < 3 && Metrics[j] == m
    requires p < |rows| && rows[p] != [] && rows[p][0] == Text(RowKey(b, m))
    ensures p == 1 + 3 * k + j
  {
    if p == 0 {
      HeaderIsNoDataRow(b, m);
    } else {
      var k', j' := ExportRowAt(store, rows, p);
      RowKeyInjective(store.keys[k'], Metrics[j'], b, m);
      MetricsEnumerated(m);
    }
  }
}
