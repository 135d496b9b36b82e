/**
 * Bundle discovery over the length table: acquisitions without a key
 * containing "label" contribute their bundles to the analysed set, the others to
 * the per-label set.
 */
module BundleDiscovery {
  import opened PyStr
  import opened RetestModel

  /** `any("label" in s for s in sub_dict.keys())`. */
  predicate HasLabelKey(entry: BundleStats)
    ensures "label" in entry ==> HasLabelKey(entry)
    ensures HasLabelKey(entry) ==> exists k | k in entry :: |k| >= 5
  {
    exists k | k in entry :: Contains(k, "label")
  }

  /** The bundles of the acquisitions that have no key containing "label". */
  ghost function UnlabelledBundles(t: StatTable): set<string> {
    set a, b | a in t && !HasLabelKey(t[a]) && b in t[a] :: b
  }

  /** The bundles of the acquisitions that have a key containing "label". */
  ghost function LabelledBundles(t: StatTable): set<string> {
    set a, b | a in t && HasLabelKey(t[a]) && b in t[a] :: b
  }

  /**
   * The loop over the length table filling `bundles` and
   * `bundles_per_label`, then `sorted(bundles)`.
   */
  method DiscoverBundles(lengthStats: StatTable) returns (bundles: seq<string>, bundlesPerLabel: set<string>)
    ensures SortedEnumeration(bundles, UnlabelledBundles(lengthStats))
    ensures bundlesPerLabel == LabelledBundles(lengthStats)
  {
    var unlabelled: set<string> := {};
    bundlesPerLabel := {};
    var rest := lengthStats.Keys;
    while rest != {}
      invariant rest <= lengthStats.Keys
      invariant unlabelled == set a, b | a in lengthStats && a !in rest && !HasLabelKey(lengthStats[a]) && b in lengthStats[a] :: b
      invariant bundlesPerLabel == set a, b | a in lengthStats && a !in rest && HasLabelKey(lengthStats[a]) && b in lengthStats[a] :: b
      decreases rest
    {
      var subid :| subid in rest;
      var subDict := lengthStats[subid];
      if !HasLabelKey(subDict) {
        unlabelled := unlabelled + subDict.Keys;
      } else {
        bundlesPerLabel := bundlesPerLabel + subDict.Keys;
      }
      rest := rest - {subid};
    }
    bundles := SortStrings(unlabelled);
  }

  /** A bundle is analysed exactly when some acquisition without a key containing "label" has it. */
  lemma AnalysedBundleWitness(t: StatTable, b: string)
    ensures b in UnlabelledBundles(t) <==> exists a | a in t :: !HasLabelKey(t[a]) && b in t[a]
  {
  }

  /** A key containing "label" is itself a bundle of the per-label set, never of the analysed set. */
  lemma LabelKeysNotAnalysed(t: StatTable, k: string)
    requires Contains(k, "label")
    ensures k !in UnlabelledBundles(t)
    ensures (exists a | a in t :: k in t[a]) ==> k in LabelledBundles(t)
  {
    if exists a | a in t :: k in t[a] {
      var a :| a in t && k in t[a];
      assert HasLabelKey(t[a]);
    }
  }
}
