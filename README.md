# Test-retest reliability and agreement merging, modelled in Dafny

This project models the computational core of two scripts of the
`correlation_flow` repository.

- `bin/compute_test_retest_stats.py` reads three tractometry tables: the
  length, volume and streamline-count statistics, each mapping an
  acquisition to its bundles and their fields. It also reads a subject
  mapping from each subject to its acquisitions. The script first checks
  that the three tables list the same acquisitions. It then collects the
  analysed bundles: the bundles of acquisitions without a key containing "label",
  sorted. For every bundle and every metric it builds a long-format sample
  table of (subject, session label, value) rows and passes it to an ICC
  estimator. It keeps the requested ICC form and its 95% confidence
  interval, or a zero sentinel when the estimator gives up. Finally it
  writes one CSV row per bundle and metric.
- `bin/plot_agreements.py` merges per-subject agreement files into
  `ind_dict`. For each configured bundle, it takes the files whose path
  contains the bundle name, skips missing and empty ones, and appends the
  values of five agreement metrics. Each metric also gets an equally long
  list of zeros.

Modules:

- `Wrappers`: the `Result` type.
- `Dict`: Python's insertion-ordered `dict`, as a key list plus a map.
- `PyStr`: the pieces of Python `str` semantics the scripts use. These
  are `in`, `replace(p, "")` and the code-point order used by `sorted`.
- `RetestModel`: tables, metrics, ICC forms, estimator outcomes and the
  sentinel policy.
- `RepeatedMeasures`: the sample-table builder.
- `BundleDiscovery`: the analysed and per-label bundle sets.
- `ResultStore`: the bundle × metric loop and the CSV export.
- `TestRetest`: the whole flow of the first script.
- `Agreements`: the merge of the second script.

Each loop of the source is a method with a specification. Most loops are
proved equal to a recursive specification function, and the properties
are proved about those functions. Three kinds of loop are instead tied to
a declarative statement of their result:
- `DiscoverBundles` to set comprehensions over the length table;
- `SortStrings` to the sorted enumeration of a set;
- `RecordBundle` and `ComputeAll` to the predicates saying that every
  cell holds its estimate.

The ICC estimator (pingouin) is a function-valued parameter. Its result is
one of three things: a six-row table, the `AssertionError` the script
catches, or the `ValueError` it catches. Reading a file is modelled as a
map from path to parsed document; a path outside the map is a file that
does not exist.

The session label is computed by `s.replace(f"{subid}_", "")`. This
removes every occurrence of `<subid>_`, not only a leading one, so it is
not a prefix strip. `RemovesInnerOccurrence` shows an inner occurrence
being removed. `LabelsCollideOnlyUnderReplace` shows two ids of one
subject that get the same label under `replace` but not under a prefix
strip.

## Model

| member | source | states |
|---|---|---|
| RetestModel.CheckTableKeys | bin/compute_test_retest_stats.py:92-98 | Succeeds exactly when the volume and streamline-count tables have the length table's acquisitions. The volume assertion fails first, and only when those key sets differ. |
| RetestModel.SortedKeysEqualIffSameKeys | bin/compute_test_retest_stats.py:92-98 | Comparing the two sorted key lists is the same as comparing the key sets. |
| RetestModel.FieldOf | bin/compute_test_retest_stats.py:122-130 | The field read for each metric: `mean_length` for length, otherwise the metric's own name. |
| RetestModel.TableOf | bin/compute_test_retest_stats.py:122-125 | The `zip` pairing: the `j`-th metric in visiting order reads the `j`-th of the length, volume and streamline-count tables. |
| RetestModel.MetricTablesInjective | bin/compute_test_retest_stats.py:122-130 | Distinct metrics read distinct fields and carry distinct names. |
| RetestModel.VariantIndex | bin/compute_test_retest_stats.py:166-177 | Each of the six ICC forms selects a row index below 6. |
| RetestModel.VariantIndexBijective | bin/compute_test_retest_stats.py:166-178 | The form-to-row table is a bijection between the six forms and rows 0 to 5. |
| RetestModel.SelectEstimate | bin/compute_test_retest_stats.py:157-190 | On success, the requested form's (ICC, CI) row. On either caught exception, the zero sentinel. |
| RetestModel.FailuresIndistinguishable | bin/compute_test_retest_stats.py:180-190 | Both caught exceptions store the same sentinel whatever the ICC form, so they cannot be told apart afterwards. |
| PyStr.ContainsTransitive | bin/plot_agreements.py:62 | Python's substring test is transitive. |
| PyStr.Contains | bin/compute_test_retest_stats.py:106 | `sub in s` holds only when `sub` is no longer than `s`. |
| PyStr.OccursContains | bin/plot_agreements.py:62 | An occurrence of `sub` at any position of `s` makes `sub in s` true. |
| PyStr.ContainsIndex | bin/plot_agreements.py:62 | Conversely, whenever `sub in s` holds, `sub` occurs at some position of `s`. |
| PyStr.RemoveAll | bin/compute_test_retest_stats.py:148 | `replace(pat, "")` never lengthens a string, and shortens it whenever it changes it. |
| PyStr.StripsLeadingPattern | bin/compute_test_retest_stats.py:148 | A leading `<subid>_` followed by a rest without it leaves exactly the rest. |
| PyStr.RemovesInnerOccurrence | bin/compute_test_retest_stats.py:148 | An occurrence in the middle is removed too, so this is not a prefix strip. |
| PyStr.RemoveAllLeading | bin/compute_test_retest_stats.py:148 | A leading `<subid>_` is deleted and the scan resumes right after it. |
| PyStr.RemoveAllKeepsCleanPrefix | bin/compute_test_retest_stats.py:148 | A prefix in which no occurrence of the pattern starts is kept unchanged, and the rest is processed on its own. |
| PyStr.Less | bin/compute_test_retest_stats.py:111 | The string order `sorted` uses never relates a string to itself, and a proper prefix is smaller than the longer string. |
| PyStr.LessIrreflexive | bin/compute_test_retest_stats.py:111 | No string is smaller than itself. |
| PyStr.LessTransitive | bin/compute_test_retest_stats.py:111 | The string order is transitive. |
| PyStr.LessTotal | bin/compute_test_retest_stats.py:111 | Any two distinct strings are ordered one way or the other. |
| PyStr.LessAsymmetric | bin/compute_test_retest_stats.py:111 | Two strings are never ordered both ways. |
| PyStr.Insert | bin/compute_test_retest_stats.py:111 | Inserting into a strictly sorted list keeps it strictly sorted. Its elements are exactly the list's elements plus the new one. |
| PyStr.SortStrings | bin/compute_test_retest_stats.py:111 | `sorted` of a set gives a strictly increasing list of exactly the set's elements. |
| PyStr.SortedEnumerationUnique | bin/compute_test_retest_stats.py:111 | There is only one such list for a given set. |
| BundleDiscovery.DiscoverBundles | bin/compute_test_retest_stats.py:100-111 | `bundles` is the sorted set of bundles of acquisitions without a key containing "label". `bundles_per_label` is the set of bundles of the others. |
| BundleDiscovery.HasLabelKey | bin/compute_test_retest_stats.py:106 | An acquisition with a key exactly "label" counts as labelled, and a labelled acquisition always has a key of at least five characters. |
| BundleDiscovery.AnalysedBundleWitness | bin/compute_test_retest_stats.py:105-107 | A bundle is analysed exactly when some acquisition without a key containing "label" has it. |
| BundleDiscovery.LabelKeysNotAnalysed | bin/compute_test_retest_stats.py:105-109 | A key containing "label" is never analysed. It is a per-label bundle whenever some acquisition has it. |
| RepeatedMeasures.SessionValues | bin/compute_test_retest_stats.py:137-141 | The comprehension succeeds exactly when every listed acquisition is in the table and carries the field wherever it has the bundle; otherwise it raises KeyError. Its entries are exactly the listed acquisitions that have the bundle, with their field values. |
| RepeatedMeasures.SessionValuesInListOrder | bin/compute_test_retest_stats.py:137-141 | Without repeated ids, the entries follow the acquisition-list order. |
| RepeatedMeasures.SessionValuesFirstOccurrence | bin/compute_test_retest_stats.py:137-141 | With or without repeated ids, the keys are the listed acquisitions that have the bundle, each at its first listing. |
| RepeatedMeasures.WithBundle | bin/compute_test_retest_stats.py:139-140 | The acquisitions kept by the comprehension's filter are exactly the listed ones that have the bundle. |
| RepeatedMeasures.FirstOccurrences | bin/compute_test_retest_stats.py:137-141 | Dropping repeats after their first occurrence leaves a duplicate-free list with the same elements. |
| RepeatedMeasures.SessionLabel | bin/compute_test_retest_stats.py:148 | A session label is never longer than its acquisition id, and an id that does not contain `<subid>_` is its own label. |
| RepeatedMeasures.SubjectRows | bin/compute_test_retest_stats.py:143-153 | One subject's frame has one row per key of its comprehension, in key order. Each row names the subject and carries that key's session label and the value stored under the key. |
| RepeatedMeasures.RowsFor | bin/compute_test_retest_stats.py:134-154 | The sample rows subject by subject. A failure is always a KeyError. |
| RepeatedMeasures.RowsForOk | bin/compute_test_retest_stats.py:134-141 | Building the rows raises KeyError exactly when some subject lists an acquisition missing from the table, or one whose bundle entry lacks the field. |
| RepeatedMeasures.RowsForEmpty | bin/compute_test_retest_stats.py:134-154 | The rows are empty exactly when no acquisition listed for any subject has the bundle. |
| RepeatedMeasures.Frame | bin/compute_test_retest_stats.py:155 | `pandas.concat` fails exactly on an empty list of frames, with the concat error. A KeyError raised earlier passes through, and a successful frame is the rows unchanged. |
| RepeatedMeasures.ConcatEmpty | bin/compute_test_retest_stats.py:155 | The concatenated table is empty exactly when every frame is empty. |
| RepeatedMeasures.FrameFailure | bin/compute_test_retest_stats.py:133-155 | The empty-concat error at line 155 happens exactly when every list can be read but no listed acquisition of any subject has the bundle. The sample table fails to build exactly then, or when some list cannot be read. |
| RepeatedMeasures.CollectFrames | bin/compute_test_retest_stats.py:133-154 | Every frame the loop appends is non-empty, and the frames concatenate to `RowsFor`'s rows. Otherwise the loop fails with `RowsFor`'s error. |
| RepeatedMeasures.BuildFrame | bin/compute_test_retest_stats.py:133-155 | The frame is `RowsFor` with an empty result turned into the concat error. A built frame is never empty. |
| RepeatedMeasures.RowsGroupedBySubject | bin/compute_test_retest_stats.py:134-155 | The sample table is one group per subject in mapping order. Each group names its subject. It has exactly one row per distinct listed acquisition that has the bundle, matched position by position to a duplicate-free list of those acquisitions, with the label and the field value. A group is empty exactly when no listed acquisition has the bundle. |
| RepeatedMeasures.SubjectRowsOfIds | bin/compute_test_retest_stats.py:137-153 | A subject's frame has one row per key of its comprehension, and those keys are the distinct listed acquisitions that have the bundle. |
| RepeatedMeasures.SubjectRowsAreGroup | bin/compute_test_retest_stats.py:143-153 | One subject's frame is such a group. |
| RepeatedMeasures.LabelsCanCollide | bin/compute_test_retest_stats.py:147-150 | Two distinct acquisitions of one subject ("s1_a" and "a") get the same session label. |
| RepeatedMeasures.LabelsCollideOnlyUnderReplace | bin/compute_test_retest_stats.py:147-150 | The ids "s1_x_s1_y" and "s1_x_y" of subject "s1" both get the label "x_y", while a prefix strip keeps them apart. |
| RepeatedMeasures.LabelsDistinctWhenPrefixed | bin/compute_test_retest_stats.py:147-150 | Labels are unique within a subject when each acquisition id is `<subid>_` followed by a suffix that does not contain it again. |
| ResultStore.CellEstimate | bin/compute_test_retest_stats.py:133-194 | A cell fails exactly when its sample table cannot be built, with a KeyError or the concat error. A caught estimator exception is not a failure. |
| ResultStore.CellFailure | bin/compute_test_retest_stats.py:133-155 | In terms of the inputs, a cell stops the run in two cases. It fails with the empty-concat error exactly when every subject's list can be read but no listed acquisition has the bundle in the metric's table. It fails at all exactly then, or when some subject lists an acquisition missing from that table or one lacking the field. |
| ResultStore.EstimateCell | bin/compute_test_retest_stats.py:133-190 | The loop body computes exactly `CellEstimate` for its bundle and metric. |
| ResultStore.Record | bin/compute_test_retest_stats.py:116-194 | Writing into the auto-vivifying results. The first write for a bundle appends it. The written cell holds the estimate, and every other cell and bundle is unchanged. |
| ResultStore.RecordBundle | bin/compute_test_retest_stats.py:122-194 | The metric loop for one new bundle. On success, the bundle is appended with all three cells as `CellEstimate` gives them and the other bundles are untouched. Otherwise the error is that of the first failing metric. |
| ResultStore.ComputeAll | bin/compute_test_retest_stats.py:116-194 | The bundle × metric loop. It succeeds exactly when every cell succeeds. The results then hold the bundles in order, every cell filled. Otherwise the error is that of the first failing cell in loop order. |
| ResultStore.ExportRows | bin/compute_test_retest_stats.py:197-209 | The CSV rows are the header, then each bundle's three rows in results order. |
| ResultStore.WriteBundle | bin/compute_test_retest_stats.py:203-209 | The inner export loop appends one bundle's three rows in metric order. |
| ResultStore.ExportLength | bin/compute_test_retest_stats.py:197-209 | The export has one header row plus three rows per bundle. |
| ResultStore.ExportRowOf | bin/compute_test_retest_stats.py:202-209 | Metric `j` of the `k`-th bundle sits at row `1 + 3k + j`. |
| ResultStore.ExportLayout | bin/compute_test_retest_stats.py:197-209 | Every row of the export has that layout. |
| ResultStore.ExportHasLayout | bin/compute_test_retest_stats.py:197-209 | The export loop's rows have the CSV layout: the header, then three rows per bundle in results order. |
| ResultStore.RowKeyInjective | bin/compute_test_retest_stats.py:204 | Distinct (bundle, metric) pairs never share a `<bundle>_<metric>` key. |
| ResultStore.RowKeyParts | bin/compute_test_retest_stats.py:204 | A data row key splits back into its bundle, an underscore and the metric name. |
| ResultStore.CsvRowShape | bin/compute_test_retest_stats.py:197-208 | A data row has as many cells as the `columns` header. Its first cell is the row key as text and never equals the header's "Bundle". Its other cells are the ICC, the lower bound and the upper bound as numbers, where the header has text. |
| ResultStore.HeaderIsNoDataRow | bin/compute_test_retest_stats.py:197-204 | No data row key equals the header's first cell. |
| ResultStore.ExportRowAt | bin/compute_test_retest_stats.py:202-209 | Each data row is metric `j` of bundle `k` for some `k` and `j` < 3. |
| ResultStore.ExportRoundTrip | bin/compute_test_retest_stats.py:197-209 | Reading the CSV back: each stored (bundle, metric) is on exactly one row, and that row carries the stored ICC and interval unchanged. |
| TestRetest.Run | bin/compute_test_retest_stats.py:92-209 | A key mismatch stops the run with its assertion. Otherwise the run succeeds exactly when every cell of every analysed bundle can be estimated. It then yields the report, whose CSV has the layout `ExportRoundTrip` reads back. A failure carries the error of a failing cell of an analysed bundle. |
| TestRetest.ReportDetermined | bin/compute_test_retest_stats.py:92-209 | The report is a function of the tables, the mapping, the ICC form and the estimator. |
| TestRetest.CellsOkOnEnumeration | bin/compute_test_retest_stats.py:121-125 | All cells succeed in loop order exactly when all cells of the analysed set succeed. |
| Agreements.Zeros | bin/plot_agreements.py:76 | `[0] * n` has length `n` and only zeros. |
| Agreements.BundleFiles | bin/plot_agreements.py:62 | A path is selected exactly when it is an input whose text contains the bundle name. |
| Agreements.BundleFilesAppend | bin/plot_agreements.py:62 | The selection keeps input order and repeats: selecting from two path lists one after the other gives the two selections one after the other. |
| Agreements.SelectionIncludesLongerNames | bin/plot_agreements.py:62 | A file selected for a bundle is also selected for every bundle whose name occurs inside that bundle's name. |
| Agreements.Docs | bin/plot_agreements.py:64-71 | The contributing documents are never empty, and there are no more of them than paths. |
| Agreements.SkippedPathIgnored | bin/plot_agreements.py:65-71 | A missing or empty file contributes nothing, wherever it is listed. |
| Agreements.DocsAppend | bin/plot_agreements.py:64-71 | The contributions of two path lists concatenate. |
| Agreements.AddMetric | bin/plot_agreements.py:73-76 | One metric of one file: it fails exactly when the file lacks the metric. Otherwise the metric's values are extended by the file's values and its zeros by as many zeros, and a new metric goes to the end. |
| Agreements.AddMetrics | bin/plot_agreements.py:72-76 | The metric loop keeps the inner dictionary well formed: duplicate-free keys in step with its entries. What it computes is stated by `AddMetricsOutcome`, `AddMetricsEntries` and `AddMetricsKeys`. |
| Agreements.AddFileMetrics | bin/plot_agreements.py:72-76 | The metric loop computes exactly `AddMetrics` over the five metrics. |
| Agreements.AddMetricsOutcome | bin/plot_agreements.py:72-76 | The metric loop fails exactly when the file lacks a visited metric, and names such a metric. |
| Agreements.AddMetricsEntries | bin/plot_agreements.py:72-76 | Each visited metric is extended by the file's values once, and the others are untouched. |
| Agreements.AddMetricsKeys | bin/plot_agreements.py:73-74 | Two cases only. When no visited metric is in the dictionary yet, they are appended in visiting order. When all of them are already there, the key order is unchanged. A dictionary with some but not all of them is not covered; the merge never builds one, as `NextShaped` shows. |
| Agreements.MergeBundleFiles | bin/plot_agreements.py:64-76 | The file loop with its skips computes exactly `MergeFiles` from an empty dictionary. |
| Agreements.MergeFiles | bin/plot_agreements.py:64-76 | The file loop keeps the inner dictionary well formed. What it computes is stated by `FilesReduceToDocs`, `FoldDocsOutcome` and `FoldDocsEffect`. |
| Agreements.BundleMerge | bin/plot_agreements.py:60-76 | One bundle's merge is well formed, and when it fails it names one of the five metrics. |
| Agreements.FilesReduceToDocs | bin/plot_agreements.py:64-76 | The file loop depends only on the contributing documents, in path order. |
| Agreements.FoldDocsOutcome | bin/plot_agreements.py:64-76 | The file loop fails exactly when some contributing document lacks one of the five metrics, and then names such a metric. |
| Agreements.FoldDocsEffect | bin/plot_agreements.py:64-76 | After a successful loop the dictionary keeps its shape. It has all five metrics once a document was merged, and each metric's values are extended by the documents' values in order. |
| Agreements.NextShaped | bin/plot_agreements.py:72-76 | Merging one complete document into a dictionary with no metric or all five, each zero-padded, keeps it zero-padded with all five metrics in list order. |
| Agreements.BundleMergeSpec | bin/plot_agreements.py:60-76 | One bundle's merge fails exactly when a contributing file lacks a metric. Otherwise it has no metric when no file contributed and all five in list order when one did. Each metric's values are the contributing files' values in path order, and its zeros list is as long and all zeros. |
| Agreements.Merge | bin/plot_agreements.py:58-76 | The three nested loops compute exactly `MergeBundles` from an empty `ind_dict`. |
| Agreements.MergeBundles | bin/plot_agreements.py:58-76 | The bundle loop fails only with the missing-metric error of one of the five metrics. On success `ind_dict` is well formed and holds exactly the bundles it started with plus the visited ones. |
| Agreements.MergeBundlesOutcome | bin/plot_agreements.py:58-76 | The bundle loop fails exactly when some bundle's merge fails, and with that bundle's error. |
| Agreements.MergeBundlesEntries | bin/plot_agreements.py:58-76 | Exactly the earlier and the visited bundles are present. Each visited bundle holds its own merge, and earlier entries not visited again are kept. |
| Agreements.MergeBundlesKeys | bin/plot_agreements.py:58-60 | Distinct new bundles are appended in configuration order. |
| Agreements.IndDictSpec | bin/plot_agreements.py:58-76 | `ind_dict` holds exactly the configured bundles, each with its own merge, in configuration order when there are no repeats. It fails exactly when some bundle's merge fails. |
| Dict.Put | bin/plot_agreements.py:60 | `d[k] = v`: a new key goes to the end, an existing key keeps its position, and only `k`'s value changes. |
| Dict.PutTwice | bin/plot_agreements.py:60-75 | Writing a key twice leaves the same dictionary as writing it once with the second value. |

## Left out

- Command-line parsing and input/output path checks are not modelled, because they are argument handling, not computation (`bin/compute_test_retest_stats.py:35-81`, `bin/plot_agreements.py:21-39`).
- JSON parsing and file reading are not modelled. Parsed documents are inputs: the tables, the subject mapping, the bundle list, and a map from path to agreement document.
- The `print` calls (`bin/compute_test_retest_stats.py:192-193`) and all plotting are not modelled: the matplotlib bar chart (`bin/compute_test_retest_stats.py:211-260`), and the `y_lims` table, the plotly figures and the `metrics.json` dump (`bin/plot_agreements.py:48-54,78-101`).
- The ICC computation itself belongs to the statistics library and is not modelled; the estimator is a parameter.
- The `nan_policy` option and how pandas represents a data frame are not modelled. The sample table is a list of rows.
- Running without `--icc` leaves `index` unbound. The script then fails with `UnboundLocalError` at line 178 as soon as one estimator call returns normally. A run in which every estimator call raises one of the caught exceptions completes. With no analysed bundle the CSV is written and the plotting code then fails at line 232. The model takes the ICC form as a required input, so it does not capture that failure.
- JSON values of unexpected types are not modelled, because the model gives every field and metric value a fixed type. Examples: a non-numeric field, a metric whose value is a string (`extend` would add its characters), or a top-level list in an agreement file.
- In `plot_agreements.py` the inner dictionary is mutated in place through `ind_dict[bundle]`. The model grows it in a local and writes it back under its bundle after the file loop. `Dict.PutTwice` shows that this leaves the same `ind_dict`.
- On failure, the placeholder pair that `plot_agreements.py:73-74` creates just before the `KeyError` is not kept. The script stops at that point, so nothing observes it.
- TestRetest.Run: on failure the contract names a failing cell of an analysed bundle, not the first one in loop order. `ResultStore.ComputeAll` states the first-in-loop-order property.
- Floating-point arithmetic is replaced by `real`. No arithmetic on the values happens in the modelled core; they are only copied.
