/**
 * The merge step of the agreement summary: for every configured bundle,
 * the agreement files whose path names the bundle are read, and each
 * metric's per-file value lists are appended into one distribution, with a
 * companion list of zeros of the same length.
 */
module Agreements {
  import opened Wrappers
  import opened PyStr
  import opened Dict

  /** The five agreement metrics, in the order the merge visits them. */
  const MetricList: seq<string> := [
    "bundle_adjacency_voxels",
    "w_dice_voxels",
    "density_correlation",
    "dice_voxels",
    "bundle_adjacency_streamlines"
  ]

  /** One parsed agreement file: metric name to its list of values. */
  type Doc = map<string, seq<real>>

  /** The pair of lists kept per bundle and metric: the values and a list of zeros. */
  datatype Series = Series(values: seq<real>, zeros: seq<int>)

  /** `ind_dict`: bundle to metric to series, both in first-written order. */
  type Merged = ODict<ODict<Series>>

  /** The `KeyError` raised when a contributing file lacks one of the metrics. */
  datatype MergeError = MissingMetric(metric: string)

  /** `[0] * n`. */
  function Zeros(n: nat): (z: seq<int>)
    ensures |z| == n && forall i | 0 <= i < n :: z[i] == 0
  {
    seq(n, _ => 0)
  }

  /** `[f for f in in_jsons if bundle in f]`. */
  function BundleFiles(paths: seq<string>, bundle: string): (r: seq<string>)
    ensures forall p :: p in r <==> p in paths && Contains(p, bundle)
    ensures |r| <= |paths|
  {
    if paths == [] then []
    else (if Contains(paths[0], bundle) then [paths[0]] else []) + BundleFiles(paths[1..], bundle)
  }

  /** A path contributes when it names an existing file whose JSON is not `{}`. */
  predicate Contributes(files: map<string, Doc>, path: string) {
    path in files && files[path] != map[]
  }

  /** The documents of the contributing paths, in path order. */
  function Docs(paths: seq<string>, files: map<string, Doc>): (docs: seq<Doc>)
    ensures |docs| <= |paths|
    ensures forall d | d in docs :: d != map[]
  {
    if paths == [] then []
    else (if Contributes(files, paths[0]) then [files[paths[0]]] else []) + Docs(paths[1..], files)
  }

  /** The series a metric has so far, or the fresh pair of empty lists. */
  function Lookup(inner: ODict<Series>, m: string): Series {
    if m in inner.entries then inner.entries[m] else Series([], [])
  }

  /** Both `extend` calls: the values, and as many zeros. */
  function Extend(s: Series, vs: seq<real>): Series {
    Series(s.values + vs, s.zeros + Zeros(|vs|))
  }

  /** One metric of one file: create the pair if it is missing, then extend it. */
  function AddMetric(inner: ODict<Series>, doc: Doc, m: string): (r: Result<ODict<Series>, MergeError>)
    requires inner.Valid()
    ensures r.Ok? <==> m in doc
    ensures r.Err? ==> r.error == MissingMetric(m)
    ensures r.Ok? ==> (&& r.value.Valid()
                       && r.value.entries == inner.entries[m := Extend(Lookup(inner, m), doc[m])]
                       && r.value.keys == if m in inner.entries then inner.keys else inner.keys + [m])
  {
    var prepared := if m in inner.entries then inner else Put(inner, m, Series([], []));
    if m !in doc then Err(MissingMetric(m))
    else
      var s := prepared.entries[m];
      Ok(Put(prepared, m, Series(s.values + doc[m], s.zeros + Zeros(|doc[m]|))))
  }

  /** The metric loop for one file, over the metrics `ms` still to visit. */
  function AddMetrics(inner: ODict<Series>, doc: Doc, ms: seq<string>): (r: Result<ODict<Series>, MergeError>)
    requires inner.Valid()
    ensures r.Ok? ==> r.value.Valid()
    decreases |ms|
  {
    if ms == [] then Ok(inner)
    else
      var next :- AddMetric(inner, doc, ms[0]);
      AddMetrics(next, doc, ms[1..])
  }

  /** The file loop for one bundle, over the paths still to visit; skipped paths add nothing. */
  function MergeFiles(inner: ODict<Series>, paths: seq<string>, files: map<string, Doc>): (r: Result<ODict<Series>, MergeError>)
    requires inner.Valid()
    ensures r.Ok? ==> r.value.Valid()
    decreases |paths|
  {
    if paths == [] then Ok(inner)
    else if !Contributes(files, paths[0]) then MergeFiles(inner, paths[1..], files)
    else
      var next :- AddMetrics(inner, files[paths[0]], MetricList);
      MergeFiles(next, paths[1..], files)
  }

  /** The merged metrics of one bundle, from an empty dictionary. */
  function BundleMerge(bundle: string, paths: seq<string>, files: map<string, Doc>): (r: Result<ODict<Series>, MergeError>)
    ensures r.Ok? ==> r.value.Valid()
    ensures r.Err? ==> r.error.metric in MetricList
  {
    FilesReduceToDocs(Empty(), BundleFiles(paths, bundle), files);
    FoldDocsOutcome(Empty(), Docs(BundleFiles(paths, bundle), files));
    MergeFiles(Empty(), BundleFiles(paths, bundle), files)
  }

  /** The bundle loop, over the bundles still to visit. */
  function MergeBundles(acc: Merged, bundles: seq<string>, paths: seq<string>, files: map<string, Doc>): (r: Result<Merged, MergeError>)
    requires acc.Valid()
    ensures r.Ok? ==> r.value.Valid()
    ensures r.Err? ==> r.error.metric in MetricList
    ensures r.Ok? ==> forall b | b in r.value.entries :: b in acc.entries || b in bundles
    ensures r.Ok? ==> forall b | b in acc.entries || b in bundles :: b in r.value.entries
    decreases |bundles|
  {
    if bundles == [] then Ok(acc)
    else
      var inner :- BundleMerge(bundles[0], paths, files);
      MergeBundles(Put(acc, bundles[0], inner), bundles[1..], paths, files)
  }

  /**
   * The three nested loops that build `ind_dict`. The inner dictionary is
   * grown in a local and written back under its bundle after the file loop.
   */
  method Merge(bundles: seq<string>, paths: seq<string>, files: map<string, Doc>) returns (r: Result<Merged, MergeError>)
    ensures r == MergeBundles(Empty(), bundles, paths, files)
  {
    var indDict: Merged := Empty();
    var i := 0;
    while i < |bundles|
      invariant 0 <= i <= |bundles|
      invariant indDict.Valid()
      invariant MergeBundles(Empty(), bundles, paths, files) == MergeBundles(indDict, bundles[i..], paths, files)
    {
      var bundle := bundles[i];
      ghost var before := indDict;
      indDict := Put(indDict, bundle, Empty());
      var bundleFiles := BundleFiles(paths, bundle);
      var inner := MergeBundleFiles(bundleFiles, files);
      if inner.Err? {
        return Err(inner.error);
      }
      indDict := Put(indDict, bundle, inner.value);
      PutTwice(before, bundle, Empty(), inner.value);
      assert bundles[i..][1..] == bundles[i + 1..];
      i := i + 1;
    }
    return Ok(indDict);
  }

  /** The file loop and the metric loop of one bundle. */
  method MergeBundleFiles(bundleFiles: seq<string>, files: map<string, Doc>) returns (r: Result<ODict<Series>, MergeError>)
    ensures r == MergeFiles(Empty(), bundleFiles, files)
  {
    var inner: ODict<Series> := Empty();
    var f := 0;
    while f < |bundleFiles|
      invariant 0 <= f <= |bundleFiles|
      invariant inner.Valid()
      invariant MergeFiles(Empty(), bundleFiles, files) == MergeFiles(inner, bundleFiles[f..], files)
    {
      var subj := bundleFiles[f];
      assert bundleFiles[f..][1..] == bundleFiles[f + 1..];
      if subj !in files {
        MergeFilesSkip(inner, bundleFiles[f..], files);
        f := f + 1;
        continue;
      }
      var currDict := files[subj];
      if currDict == map[] {
        MergeFilesSkip(inner, bundleFiles[f..], files);
        f := f + 1;
        continue;
      }
      var next := AddFileMetrics(inner, currDict);
      MergeFilesAdvance(inner, bundleFiles[f..], files, next);
      if next.Err? {
        return Err(next.error);
      }
      inner := next.value;
      f := f + 1;
    }
    return Ok(inner);
  }

  /** The metric loop for one file's document. */
  method AddFileMetrics(start: ODict<Series>, currDict: Doc) returns (r: Result<ODict<Series>, MergeError>)
    requires start.Valid()
    ensures r == AddMetrics(start, currDict, MetricList)
  {
    var inner := start;
    var j := 0;
    while j < |MetricList|
      invariant 0 <= j <= |MetricList|
      invariant inner.Valid()
      invariant AddMetrics(start, currDict, MetricList) == AddMetrics(inner, currDict, MetricList[j..])
    {
      var metric := MetricList[j];
      assert MetricList[j..][1..] == MetricList[j + 1..];
      ghost var before := inner;
      if metric !in inner.entries {
        inner := Put(inner, metric, Series([], []));
      }
      if metric !in currDict {
        AddMetricsMissing(before, currDict, MetricList[j..]);
        return Err(MissingMetric(metric));
      }
      var s := inner.entries[metric];
      inner := Put(inner, metric, Series(s.values + currDict[metric], s.zeros + Zeros(|currDict[metric]|)));
      AddMetricsAdvance(before, currDict, MetricList[j..], inner);
      j := j + 1;
    }
    return Ok(inner);
  }

  // ---------------------------------------------------------------------
  // File selection

  /**
   * Selection is by substring, so a file selected for a bundle is also
   * selected for every bundle whose name occurs inside that bundle's name.
   */
  lemma SelectionIncludesLongerNames(paths: seq<string>, short: string, long: string)
    requires Contains(long, short)
    ensures forall p | p in BundleFiles(paths, long) :: p in BundleFiles(paths, short)
  {
    forall p | p in BundleFiles(paths, long)
      ensures p in BundleFiles(paths, short)
    {
      ContainsTransitive(p, long, short);
    }
  }

  /**
   * Selection is a filter: it keeps the input order and every repeat, so
   * the selection of two path lists is the two selections one after the other.
   */
  lemma {:induction false} BundleFilesAppend(a: seq<string>, b: seq<string>, bundle: string)
    ensures BundleFiles(a + b, bundle) == BundleFiles(a, bundle) + BundleFiles(b, bundle)
    decreases |a|
  {
    if a != [] {
      var ab := a + b;
      assert ab[0] == a[0];
      assert ab[1..] == a[1..] + b;
      BundleFilesAppend(a[1..], b, bundle);
      var head := if Contains(a[0], bundle) then [a[0]] else [];
      assert BundleFiles(ab, bundle) == head + BundleFiles(a[1..] + b, bundle);
      ConcatAssoc(head, BundleFiles(a[1..], bundle), BundleFiles(b, bundle));
    } else {
      assert a + b == b;
    }
  }

  /** The contributing documents of two path lists, one after the other. */
  lemma {:induction false} DocsAppend(a: seq<string>, b: seq<string>, files: map<string, Doc>)
    ensures Docs(a + b, files) == Docs(a, files) + Docs(b, files)
    decreases |a|
  {
    if a != [] {
      var ab := a + b;
      assert ab[0] == a[0];
      assert ab[1..] == a[1..] + b;
      DocsAppend(a[1..], b, files);
      var head := if Contributes(files, a[0]) then [files[a[0]]] else [];
      assert Docs(ab, files) == head + Docs(a[1..] + b, files);
      ConcatAssoc(head, Docs(a[1..], files), Docs(b, files));
    } else {
      assert a + b == b;
    }
  }

  /** An element of a non-empty list is its head or an element of its tail. */
  lemma InCons<T>(s: seq<T>)
    requires s != []
    ensures forall x :: x in s <==> x == s[0] || x in s[1..]
  {
    assert s == [s[0]] + s[1..];
  }

  lemma ConcatAssoc<T>(a: seq<T>, b: seq<T>, c: seq<T>)
    ensures a + (b + c) == (a + b) + c
  {
  }

  /** A missing file or an empty one, wherever it is listed, contributes nothing. */
  lemma SkippedPathIgnored(before: seq<string>, p: string, after: seq<string>, files: map<string, Doc>)
    requires !Contributes(files, p)
    ensures Docs(before + [p] + after, files) == Docs(before + after, files)
  {
    DocsAppend(before + [p], after, files);
    DocsAppend(before, [p], files);
    DocsAppend(before, after, files);
  }

  // ---------------------------------------------------------------------
  // What the merge computes

  /** The file loop from the contributing documents alone. */
  function FoldDocs(inner: ODict<Series>, docs: seq<Doc>): (r: Result<ODict<Series>, MergeError>)
    requires inner.Valid()
    ensures r.Ok? ==> r.value.Valid()
    decreases |docs|
  {
    if docs == [] then Ok(inner)
    else
      var next :- AddMetrics(inner, docs[0], MetricList);
      FoldDocs(next, docs[1..])
  }

  /** The file loop depends on the contributing documents only, in path order. */
  lemma {:induction false} FilesReduceToDocs(inner: ODict<Series>, paths: seq<string>, files: map<string, Doc>)
    requires inner.Valid()
    ensures MergeFiles(inner, paths, files) == FoldDocs(inner, Docs(paths, files))
    decreases |paths|
  {
    if paths != [] {
      var rest := Docs(paths[1..], files);
      FilesReduceToDocsStep(inner, paths, files);
      if !Contributes(files, paths[0]) {
        FilesReduceToDocs(inner, paths[1..], files);
      } else {
        var next := AddMetrics(inner, files[paths[0]], MetricList);
        if next.Ok? {
          FilesReduceToDocs(next.value, paths[1..], files);
        }
      }
    }
  }

  /** One step of both loops agrees. */
  lemma FilesReduceToDocsStep(inner: ODict<Series>, paths: seq<string>, files: map<string, Doc>)
    requires inner.Valid() && paths != []
    ensures !Contributes(files, paths[0]) ==> (
      && Docs(paths, files) == Docs(paths[1..], files)
      && MergeFiles(inner, paths, files) == MergeFiles(inner, paths[1..], files))
    ensures Contributes(files, paths[0]) ==> (
      var docs, next := Docs(paths, files), AddMetrics(inner, files[paths[0]], MetricList);
      && docs != [] && docs[0] == files[paths[0]] && docs[1..] == Docs(paths[1..], files)
      && (next.Err? ==> MergeFiles(inner, paths, files) == FoldDocs(inner, docs) == Err(next.error))
      && (next.Ok? ==> (&& MergeFiles(inner, paths, files) == MergeFiles(next.value, paths[1..], files)
                        && FoldDocs(inner, docs) == FoldDocs(next.value, docs[1..]))))
  {
    if Contributes(files, paths[0]) {
      var docs := Docs(paths, files);
      assert docs == [files[paths[0]]] + Docs(paths[1..], files);
    }
  }

  /** A document carries all five metrics. */
  predicate HasAll(d: Doc) {
    forall m | m in MetricList :: m in d
  }

  /** The values of metric `m` over the documents, one list after the other. */
  function ConcatValues(docs: seq<Doc>, m: string): seq<real>
    requires forall d | d in docs :: m in d
    decreases |docs|
  {
    if docs == [] then [] else docs[0][m] + ConcatValues(docs[1..], m)
  }

  /** The zeros list is as long as the values list and holds only zeros. */
  predicate ZeroPadded(s: Series) {
    s.zeros == Zeros(|s.values|)
  }

  /** The shape the merge keeps: no metric or all five, each zero-padded. */
  predicate Shaped(inner: ODict<Series>) {
    && (inner.keys == [] || inner.keys == MetricList)
    && forall m | m in inner.entries :: ZeroPadded(inner.entries[m])
  }

  lemma MetricListDistinct()
    ensures Distinct(MetricList)
  {
  }

  /** Extending a zero-padded series keeps it zero-padded. */
  lemma ExtendPadded(s: Series, vs: seq<real>)
    requires ZeroPadded(s)
    ensures ZeroPadded(Extend(s, vs))
  {
    assert Zeros(|s.values|) + Zeros(|vs|) == Zeros(|s.values + vs|);
  }

  /** Dropping the first of distinct metrics leaves distinct metrics without it. */
  lemma DistinctTail(ms: seq<string>)
    requires Distinct(ms) && ms != []
    ensures Distinct(ms[1..]) && ms[0] !in ms[1..] && ms == [ms[0]] + ms[1..]
  {
    assert forall i | 0 <= i < |ms[1..]| :: ms[1..][i] == ms[i + 1];
  }

  /** The metric loop for one file fails exactly when the file lacks a visited metric, and names one. */
  lemma {:induction false} AddMetricsOutcome(inner: ODict<Series>, doc: Doc, ms: seq<string>)
    requires inner.Valid()
    ensures AddMetrics(inner, doc, ms).Ok? <==> forall m | m in ms :: m in doc
    ensures AddMetrics(inner, doc, ms).Err? ==>
      AddMetrics(inner, doc, ms).error.metric in ms && AddMetrics(inner, doc, ms).error.metric !in doc
    decreases |ms|
  {
    if ms != [] {
      AddMetricsStep(inner, doc, ms);
      InCons(ms);
      var step := AddMetric(inner, doc, ms[0]);
      if step.Ok? {
        AddMetricsOutcome(step.value, doc, ms[1..]);
      }
    }
  }

  /** The metric loop extends each visited metric by the file's values once and leaves the others alone. */
  lemma {:induction false} AddMetricsEntries(inner: ODict<Series>, doc: Doc, ms: seq<string>)
    requires inner.Valid() && Distinct(ms) && AddMetrics(inner, doc, ms).Ok?
    ensures forall m | m in ms :: (m in doc && m in AddMetrics(inner, doc, ms).value.entries
      && AddMetrics(inner, doc, ms).value.entries[m] == Extend(Lookup(inner, m), doc[m]))
    ensures forall m | m !in ms :: ((m in AddMetrics(inner, doc, ms).value.entries <==> m in inner.entries)
      && Lookup(AddMetrics(inner, doc, ms).value, m) == Lookup(inner, m))
    decreases |ms|
  {
    if ms != [] {
      var m0, tail := ms[0], ms[1..];
      AddMetricsStep(inner, doc, ms);
      DistinctTail(ms);
      var next := AddMetric(inner, doc, m0).value;
      AddMetricsEntries(next, doc, tail);
      var out := AddMetrics(next, doc, tail).value;
      forall m | m in ms
        ensures m in doc && m in out.entries && out.entries[m] == Extend(Lookup(inner, m), doc[m])
      {
        if m == m0 {
          assert Lookup(out, m) == Lookup(next, m);
        } else {
          assert m in tail && Lookup(next, m) == Lookup(inner, m);
        }
      }
      forall m | m !in ms
        ensures (m in out.entries <==> m in inner.entries) && Lookup(out, m) == Lookup(inner, m)
      {
        assert m != m0 && m !in tail;
      }
    }
  }

  /** Metrics seen for the first time are appended in visiting order; known ones keep their place. */
  lemma {:induction false} AddMetricsKeys(inner: ODict<Series>, doc: Doc, ms: seq<string>)
    requires inner.Valid() && Distinct(ms) && AddMetrics(inner, doc, ms).Ok?
    ensures (forall m | m in ms :: m !in inner.entries) ==> AddMetrics(inner, doc, ms).value.keys == inner.keys + ms
    ensures (forall m | m in ms :: m in inner.entries) ==> AddMetrics(inner, doc, ms).value.keys == inner.keys
    decreases |ms|
  {
    if ms != [] {
      var m0, tail := ms[0], ms[1..];
      AddMetricsStep(inner, doc, ms);
      DistinctTail(ms);
      var next := AddMetric(inner, doc, m0).value;
      AddMetricsKeys(next, doc, tail);
      if forall m | m in ms :: m !in inner.entries {
        assert forall m | m in tail :: m !in next.entries;
        ConcatAssoc(inner.keys, [m0], tail);
      }
    }
  }

  /** One visited metric: either it fails here, or the rest of the metrics continue from its result. */
  lemma AddMetricsStep(inner: ODict<Series>, doc: Doc, ms: seq<string>)
    requires inner.Valid() && ms != []
    ensures AddMetric(inner, doc, ms[0]).Err? ==> AddMetrics(inner, doc, ms) == Err(MissingMetric(ms[0]))
    ensures AddMetric(inner, doc, ms[0]).Ok? ==>
      AddMetrics(inner, doc, ms) == AddMetrics(AddMetric(inner, doc, ms[0]).value, doc, ms[1..])
  {
  }

  /** A skipped path leaves the file loop's outcome to the rest of the paths. */
  lemma MergeFilesSkip(inner: ODict<Series>, paths: seq<string>, files: map<string, Doc>)
    requires inner.Valid() && paths != [] && !Contributes(files, paths[0])
    ensures MergeFiles(inner, paths, files) == MergeFiles(inner, paths[1..], files)
  {
  }

  /** A contributing path either stops the file loop or hands it the extended dictionary. */
  lemma MergeFilesAdvance(inner: ODict<Series>, paths: seq<string>, files: map<string, Doc>, next: Result<ODict<Series>, MergeError>)
    requires inner.Valid() && paths != [] && Contributes(files, paths[0])
    requires next == AddMetrics(inner, files[paths[0]], MetricList)
    ensures next.Err? ==> MergeFiles(inner, paths, files) == Err(next.error)
    ensures next.Ok? ==> next.value.Valid() && MergeFiles(inner, paths, files) == MergeFiles(next.value, paths[1..], files)
  {
  }

  /** A metric the document lacks stops the metric loop with its `KeyError`. */
  lemma AddMetricsMissing(inner: ODict<Series>, doc: Doc, ms: seq<string>)
    requires inner.Valid() && ms != [] && ms[0] !in doc
    ensures AddMetrics(inner, doc, ms) == Err(MissingMetric(ms[0]))
  {
  }

  /** A metric the document has hands the metric loop the dictionary with that metric extended. */
  lemma AddMetricsAdvance(inner: ODict<Series>, doc: Doc, ms: seq<string>, next: ODict<Series>)
    requires inner.Valid() && ms != [] && ms[0] in doc
    requires var m := ms[0];
      var prepared := if m in inner.entries then inner else Put(inner, m, Series([], []));
      next == Put(prepared, m, Extend(prepared.entries[m], doc[m]))
    ensures next.Valid() && AddMetrics(inner, doc, ms) == AddMetrics(next, doc, ms[1..])
  {
  }

  /**
   * The file loop over contributing documents fails exactly when some
   * document lacks one of the five metrics, and then names such a metric.
   */
  lemma {:induction false} FoldDocsOutcome(inner: ODict<Series>, docs: seq<Doc>)
    requires inner.Valid()
    ensures FoldDocs(inner, docs).Ok? <==> forall d | d in docs :: HasAll(d)
    ensures FoldDocs(inner, docs).Err? ==> (
      var e := FoldDocs(inner, docs).error;
      e.metric in MetricList && exists d | d in docs :: e.metric !in d)
    decreases |docs|
  {
    if docs != [] {
      var d, rest := docs[0], docs[1..];
      FoldDocsStep(inner, docs);
      InCons(docs);
      AddMetricsOutcome(inner, d, MetricList);
      var step := AddMetrics(inner, d, MetricList);
      assert HasAll(d) <==> step.Ok?;
      if step.Ok? {
        FoldDocsOutcome(step.value, rest);
        assert (forall x | x in docs :: HasAll(x)) <==> (forall x | x in rest :: HasAll(x));
      }
    }
  }

  /**
   * A successful file loop from a shaped dictionary: the dictionary stays
   * shaped, has all five metrics once any document was merged, and each
   * metric's values are extended by the documents' values in order.
   */
  lemma {:induction false} FoldDocsEffect(inner: ODict<Series>, docs: seq<Doc>)
    requires inner.Valid() && Shaped(inner) && FoldDocs(inner, docs).Ok?
    ensures (
      var out := FoldDocs(inner, docs).value;
      && Shaped(out)
      && out.keys == (if docs == [] then inner.keys else MetricList)
      && forall m | m in MetricList && m in out.entries ::
           (forall d | d in docs :: m in d) && out.entries[m].values == Lookup(inner, m).values + ConcatValues(docs, m))
    decreases |docs|
  {
    if docs != [] {
      var d, rest := docs[0], docs[1..];
      FoldDocsStep(inner, docs);
      InCons(docs);
      var next := AddMetrics(inner, d, MetricList).value;
      NextShaped(inner, d);
      FoldDocsEffect(next, rest);
      var out := FoldDocs(next, rest).value;
      MetricListDistinct();
      AddMetricsEntries(inner, d, MetricList);
      forall m | m in MetricList && m in out.entries
        ensures out.entries[m].values == Lookup(inner, m).values + ConcatValues(docs, m)
      {
        assert out.entries[m].values == Lookup(next, m).values + ConcatValues(rest, m);
        assert Lookup(next, m).values == Lookup(inner, m).values + d[m];
        assert ConcatValues(docs, m) == d[m] + ConcatValues(rest, m);
        ConcatAssoc(Lookup(inner, m).values, d[m], ConcatValues(rest, m));
      }
    }
  }

  /** One contributing document: either it fails here, or the rest continue from its result. */
  lemma FoldDocsStep(inner: ODict<Series>, docs: seq<Doc>)
    requires inner.Valid() && docs != []
    ensures docs == [docs[0]] + docs[1..]
    ensures AddMetrics(inner, docs[0], MetricList).Err? ==>
      FoldDocs(inner, docs) == Err(AddMetrics(inner, docs[0], MetricList).error)
    ensures AddMetrics(inner, docs[0], MetricList).Ok? ==>
      FoldDocs(inner, docs) == FoldDocs(AddMetrics(inner, docs[0], MetricList).value, docs[1..])
  {
  }

  /** Merging one complete document into a shaped dictionary keeps it shaped, with all five metrics. */
  lemma NextShaped(inner: ODict<Series>, d: Doc)
    requires inner.Valid() && Shaped(inner) && AddMetrics(inner, d, MetricList).Ok?
    ensures Shaped(AddMetrics(inner, d, MetricList).value)
    ensures AddMetrics(inner, d, MetricList).value.keys == MetricList
  {
    var next := AddMetrics(inner, d, MetricList).value;
    MetricListDistinct();
    AddMetricsEntries(inner, d, MetricList);
    AddMetricsKeys(inner, d, MetricList);
    if inner.keys == [] {
      assert forall m | m in MetricList :: m !in inner.entries;
    } else {
      assert forall m | m in MetricList :: m in inner.entries;
    }
    forall m | m in next.entries
      ensures ZeroPadded(next.entries[m])
    {
      assert m in next.keys;
      ExtendPadded(Lookup(inner, m), d[m]);
    }
  }

  /**
   * One bundle's merged metrics: the merge fails exactly when a
   * contributing file lacks a metric. Otherwise the bundle has no metric
   * when no file contributed and all five, in list order, when one did;
   * each metric's values are the contributing files' values in path order,
   * and its zeros list is as long and all zeros.
   */
  lemma BundleMergeSpec(bundle: string, paths: seq<string>, files: map<string, Doc>)
    ensures BundleMerge(bundle, paths, files).Ok? <==> forall d | d in Docs(BundleFiles(paths, bundle), files) :: HasAll(d)
    ensures BundleMerge(bundle, paths, files).Err? ==> (
      var e := BundleMerge(bundle, paths, files).error;
      e.metric in MetricList && exists d | d in Docs(BundleFiles(paths, bundle), files) :: e.metric !in d)
    ensures BundleMerge(bundle, paths, files).Ok? ==> (
      var docs, out := Docs(BundleFiles(paths, bundle), files), BundleMerge(bundle, paths, files).value;
      && (out.keys == [] <==> docs == [])
      && (docs != [] ==> out.keys == MetricList)
      && forall m | m in out.entries ::
           (forall d | d in docs :: m in d)
           && out.entries[m].values == ConcatValues(docs, m)
           && out.entries[m].zeros == Zeros(|ConcatValues(docs, m)|))
  {
    var docs := Docs(BundleFiles(paths, bundle), files);
    FilesReduceToDocs(Empty(), BundleFiles(paths, bundle), files);
    FoldDocsOutcome(Empty(), docs);
    if FoldDocs(Empty(), docs).Ok? {
      FoldDocsEffect(Empty(), docs);
    }
  }

  /** One configured bundle: either its merge fails here, or the rest continue from the dictionary holding it. */
  lemma MergeBundlesStep(acc: Merged, bundles: seq<string>, paths: seq<string>, files: map<string, Doc>)
    requires acc.Valid() && bundles != []
    ensures BundleMerge(bundles[0], paths, files).Err? ==>
      MergeBundles(acc, bundles, paths, files) == Err(BundleMerge(bundles[0], paths, files).error)
    ensures BundleMerge(bundles[0], paths, files).Ok? ==>
      MergeBundles(acc, bundles, paths, files)
        == MergeBundles(Put(acc, bundles[0], BundleMerge(bundles[0], paths, files).value), bundles[1..], paths, files)
  {
  }

  /** The bundle loop fails exactly when some bundle's merge fails, and with that bundle's error. */
  lemma {:induction false} MergeBundlesOutcome(acc: Merged, bundles: seq<string>, paths: seq<string>, files: map<string, Doc>)
    requires acc.Valid()
    ensures MergeBundles(acc, bundles, paths, files).Ok? <==> forall b | b in bundles :: BundleMerge(b, paths, files).Ok?
    ensures MergeBundles(acc, bundles, paths, files).Err? ==>
      exists b | b in bundles :: BundleMerge(b, paths, files) == Err(MergeBundles(acc, bundles, paths, files).error)
    decreases |bundles|
  {
    if bundles != [] {
      MergeBundlesStep(acc, bundles, paths, files);
      InCons(bundles);
      var inner := BundleMerge(bundles[0], paths, files);
      if inner.Ok? {
        MergeBundlesOutcome(Put(acc, bundles[0], inner.value), bundles[1..], paths, files);
      }
    }
  }

  /**
   * A successful bundle loop: exactly the earlier bundles and the visited
   * ones are present, every visited bundle holds its own merge, and
   * earlier entries not visited again are kept.
   */
  lemma {:induction false} MergeBundlesEntries(acc: Merged, bundles: seq<string>, paths: seq<string>, files: map<string, Doc>)
    requires acc.Valid() && MergeBundles(acc, bundles, paths, files).Ok?
    ensures (
      var out := MergeBundles(acc, bundles, paths, files).value;
      && (forall b :: b in out.entries <==> b in acc.entries || b in bundles)
      && (forall b | b in bundles :: b in out.entries && BundleMerge(b, paths, files) == Ok(out.entries[b]))
      && (forall b | b in acc.entries && b !in bundles :: out.entries[b] == acc.entries[b]))
    decreases |bundles|
  {
    if bundles != [] {
      MergeBundlesStep(acc, bundles, paths, files);
      InCons(bundles);
      var b0 := bundles[0];
      var next := Put(acc, b0, BundleMerge(b0, paths, files).value);
      MergeBundlesEntries(next, bundles[1..], paths, files);
    }
  }

  /** Distinct bundles not yet present are appended in configuration order. */
  lemma {:induction false} MergeBundlesKeys(acc: Merged, bundles: seq<string>, paths: seq<string>, files: map<string, Doc>)
    requires acc.Valid() && MergeBundles(acc, bundles, paths, files).Ok?
    requires Distinct(bundles) && forall b | b in bundles :: b !in acc.entries
    ensures MergeBundles(acc, bundles, paths, files).value.keys == acc.keys + bundles
    decreases |bundles|
  {
    if bundles != [] {
      MergeBundlesStep(acc, bundles, paths, files);
      DistinctTail(bundles);
      var b0 := bundles[0];
      var next := Put(acc, b0, BundleMerge(b0, paths, files).value);
      MergeBundlesKeys(next, bundles[1..], paths, files);
      ConcatAssoc(acc.keys, [b0], bundles[1..]);
    }
  }

  /**
   * `ind_dict` as a whole: the merge fails exactly when some configured
   * bundle's merge fails, with that error; otherwise it holds exactly the
   * configured bundles, each with its own merge (a bundle listed twice
   * ends up with the merge of its last listing, which is the same one),
   * and without repeats they come in configuration order.
   */
  lemma IndDictSpec(bundles: seq<string>, paths: seq<string>, files: map<string, Doc>)
    ensures MergeBundles(Empty(), bundles, paths, files).Ok? <==> forall b | b in bundles :: BundleMerge(b, paths, files).Ok?
    ensures MergeBundles(Empty(), bundles, paths, files).Err? ==>
      exists b | b in bundles :: BundleMerge(b, paths, files) == Err(MergeBundles(Empty(), bundles, paths, files).error)
    ensures MergeBundles(Empty(), bundles, paths, files).Ok? ==> (
      var out := MergeBundles(Empty(), bundles, paths, files).value;
      && (forall b :: b in out.entries <==> b in bundles)
      && (forall b | b in bundles :: BundleMerge(b, paths, files) == Ok(out.entries[b]))
      && (Distinct(bundles) ==> out.keys == bundles))
  {
    MergeBundlesOutcome(Empty(), bundles, paths, files);
    if MergeBundles(Empty(), bundles, paths, files).Ok? {
      MergeBundlesEntries(Empty(), bundles, paths, files);
      if Distinct(bundles) {
        MergeBundlesKeys(Empty(), bundles, paths, files);
      }
    }
  }
}
