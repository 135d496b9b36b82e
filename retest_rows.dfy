/**
 * The repeated-measures row builder: for one bundle and one metric, the
 * long-format (subject, session label, value) table fed to the estimator.
 */
module RepeatedMeasures {
  import opened Wrappers
  import opened PyStr
  import opened Dict
  import opened RetestModel

  /** Every listed acquisition is in the table, and carries `field` wherever it has the bundle. */
  predicate Readable(stats: StatTable, bundle: string, field: string, sessids: seq<string>) {
    forall s | s in sessids :: s in stats && (bundle in stats[s] ==> field in stats[s][bundle])
  }

  /**
   * The per-subject dictionary comprehension: acquisition id to value, for
   * each listed acquisition that has the bundle, in first-listed order; a
   * repeated id keeps one entry. A listed id absent from the table, or a
   * bundle entry without the field, raises KeyError.
   */
  function SessionValues(stats: StatTable, bundle: string, field: string, sessids: seq<string>): (r: Result<ODict<real>, Error>)
    ensures r.Ok? <==> Readable(stats, bundle, field, sessids)
    ensures r.Err? ==> r.error.MissingKey?
    ensures r.Ok? ==> r.value.Valid() && |r.value.keys| <= |sessids|
    ensures r.Ok? ==> forall s :: s in r.value.entries <==> s in sessids && s in stats && bundle in stats[s]
    ensures r.Ok? ==> forall s :: s in r.value.entries ==>
      (s in stats && bundle in stats[s] && field in stats[s][bundle] && r.value.entries[s] == stats[s][bundle][field])
    decreases |sessids|
  {
    if sessids == [] then Ok(Empty())
    else
      var prefix := sessids[..|sessids| - 1];
      var s := sessids[|sessids| - 1];
      assert sessids == prefix + [s];
      var prev :- SessionValues(stats, bundle, field, prefix);
      if s !in stats then Err(MissingKey(s))
      else if bundle !in stats[s] then Ok(prev)
      else if field !in stats[s][bundle] then Err(MissingKey(field))
      else Ok(Put(prev, s, stats[s][bundle][field]))
  }

  /** The listed acquisitions that have the bundle, in list order. */
  function WithBundle(stats: StatTable, bundle: string, sessids: seq<string>): (r: seq<string>)
    requires forall s | s in sessids :: s in stats
    ensures forall s :: s in r <==> s in sessids && bundle in stats[s]
    decreases |sessids|
  {
    if sessids == [] then []
    else
      var prefix := sessids[..|sessids| - 1];
      var s := sessids[|sessids| - 1];
      WithBundle(stats, bundle, prefix) + (if bundle in stats[s] then [s] else [])
  }

  /** Without repeated ids, the comprehension keeps the acquisition-list order. */
  lemma {:induction false} SessionValuesInListOrder(stats: StatTable, bundle: string, field: string, sessids: seq<string>)
    requires Distinct(sessids) && SessionValues(stats, bundle, field, sessids).Ok?
    ensures SessionValues(stats, bundle, field, sessids).value.keys == WithBundle(stats, bundle, sessids)
    decreases |sessids|
  {
    if sessids != [] {
      var prefix := sessids[..|sessids| - 1];
      var s := sessids[|sessids| - 1];
      assert sessids == prefix + [s];
      assert s !in prefix;
      SessionValuesInListOrder(stats, bundle, field, prefix);
    }
  }

  /** The list with every repeated entry dropped after its first occurrence. */
  function FirstOccurrences(xs: seq<string>): (r: seq<string>)
    ensures Distinct(r)
    ensures forall x :: x in r <==> x in xs
    decreases |xs|
  {
    if xs == [] then []
    else
      var init := FirstOccurrences(xs[..|xs| - 1]);
      var x := xs[|xs| - 1];
      assert forall y :: y in xs <==> y in xs[..|xs| - 1] || y == x by {
        assert xs == xs[..|xs| - 1] + [x];
      }
      if x in init then init else init + [x]
  }

  /**
   * With or without repeated ids, the comprehension's keys are the listed
   * acquisitions that have the bundle, each at its first listing.
   */
  lemma {:induction false} SessionValuesFirstOccurrence(stats: StatTable, bundle: string, field: string, sessids: seq<string>)
    requires SessionValues(stats, bundle, field, sessids).Ok?
    ensures forall s | s in sessids :: s in stats
    ensures SessionValues(stats, bundle, field, sessids).value.keys == FirstOccurrences(WithBundle(stats, bundle, sessids))
    decreases |sessids|
  {
    if sessids != [] {
      var prefix := sessids[..|sessids| - 1];
      var s := sessids[|sessids| - 1];
      assert sessids == prefix + [s];
      SessionValuesFirstOccurrence(stats, bundle, field, prefix);
      var prev := SessionValues(stats, bundle, field, prefix).value;
      var w := WithBundle(stats, bundle, prefix);
      assert s in prev.entries <==> s in FirstOccurrences(w);
      if bundle in stats[s] {
        assert WithBundle(stats, bundle, sessids) == w + [s];
        FirstOccurrencesSnoc(w, s);
        assert SessionValues(stats, bundle, field, sessids).value == Put(prev, s, stats[s][bundle][field]);
      } else {
        assert WithBundle(stats, bundle, sessids) == w;
        assert SessionValues(stats, bundle, field, sessids).value == prev;
      }
    }
  }

  /** One more entry: kept at the end when new, dropped when seen before. */
  lemma FirstOccurrencesSnoc(xs: seq<string>, x: string)
    ensures FirstOccurrences(xs + [x]) ==
      if x in FirstOccurrences(xs) then FirstOccurrences(xs) else FirstOccurrences(xs) + [x]
  {
    assert (xs + [x])[..|xs + [x]| - 1] == xs;
  }

  /** The session label: the acquisition id with every `<subject>_` removed. */
  function SessionLabel(subject: string, acquisition: string): (session: string)
    ensures |session| <= |acquisition|
    ensures !Contains(acquisition, subject + "_") ==> session == acquisition
  {
    var pat := subject + "_";
    if Contains(acquisition, pat) then RemoveAll(acquisition, pat)
    else RemoveAllAbsent(acquisition, pat); RemoveAll(acquisition, pat)
  }

  /** The rows one subject contributes, one per entry of its comprehension. */
  function SubjectRows(subject: string, values: ODict<real>): (rows: seq<Row>)
    requires values.Valid()
    ensures |rows| == |values.keys|
    ensures forall p | 0 <= p < |rows| :: rows[p].subject == subject && rows[p].value == values.entries[values.keys[p]]
    ensures forall p | 0 <= p < |rows| :: rows[p].session == SessionLabel(subject, values.keys[p])
  {
    seq(|values.keys|, i requires 0 <= i < |values.keys| =>
      Row(subject, SessionLabel(subject, values.keys[i]), values.entries[values.keys[i]]))
  }

  /**
   * The rows of all subjects, subject after subject in mapping order; the
   * first KeyError in that order stops everything.
   */
  function RowsFor(stats: StatTable, bundle: string, field: string, subjects: seq<string>, sessions: map<string, seq<string>>): (r: Result<seq<Row>, Error>)
    requires forall s | s in subjects :: s in sessions
    ensures r.Err? ==> r.error.MissingKey?
    decreases |subjects|
  {
    if subjects == [] then Ok([])
    else
      var values :- SessionValues(stats, bundle, field, sessions[subjects[0]]);
      var rest :- RowsFor(stats, bundle, field, subjects[1..], sessions);
      Ok(SubjectRows(subjects[0], values) + rest)
  }

  /** `pandas.concat` of the per-subject frames. */
  function Concat(frames: seq<seq<Row>>): seq<Row>
    decreases |frames|
  {
    if frames == [] then [] else Concat(frames[..|frames| - 1]) + frames[|frames| - 1]
  }

  /** The concatenation is empty exactly when every frame is. */
  lemma {:induction false} ConcatEmpty(frames: seq<seq<Row>>)
    ensures Concat(frames) == [] <==> forall k | 0 <= k < |frames| :: frames[k] == []
    decreases |frames|
  {
    if frames != [] {
      var init := frames[..|frames| - 1];
      ConcatEmpty(init);
      assert forall k | 0 <= k < |init| :: init[k] == frames[k];
    }
  }

  /** Concatenating an empty list of frames raises, outside the estimator's try. */
  function Frame(r: Result<seq<Row>, Error>): (f: Result<seq<Row>, Error>)
    ensures f.Ok? <==> r.Ok? && r.value != []
    ensures r.Err? ==> f == r
    ensures f.Ok? ==> f == r
    ensures r == Ok([]) ==> f == Err(NoObjectsToConcatenate)
  {
    if r.Ok? && r.value == [] then Err(NoObjectsToConcatenate) else r
  }

  function Prepend(rows: seq<Row>, r: Result<seq<Row>, Error>): Result<seq<Row>, Error> {
    if r.Ok? then Ok(rows + r.value) else r
  }

  lemma PrependAssociative(a: seq<Row>, b: seq<Row>, r: Result<seq<Row>, Error>)
    ensures Prepend(a, Prepend(b, r)) == Prepend(a + b, r)
    ensures Prepend([], r) == r
  {
    if r.Ok? {
      assert a + (b + r.value) == (a + b) + r.value;
      assert [] + r.value == r.value;
    }
  }

  /** One step of `RowsFor`, from the subject at position `i` on. */
  lemma RowsForStep(stats: StatTable, bundle: string, field: string, subjects: seq<string>, sessions: map<string, seq<string>>, i: nat)
    requires forall s | s in subjects :: s in sessions
    requires i < |subjects|
    ensures var values := SessionValues(stats, bundle, field, sessions[subjects[i]]);
      RowsFor(stats, bundle, field, subjects[i..], sessions) ==
        if values.Err? then Err(values.error)
        else Prepend(SubjectRows(subjects[i], values.value), RowsFor(stats, bundle, field, subjects[i + 1..], sessions))
  {
    assert subjects[i..][0] == subjects[i] && subjects[i..][1..] == subjects[i + 1..];
  }

  lemma ConcatSnoc(frames: seq<seq<Row>>, frame: seq<Row>)
    ensures Concat(frames + [frame]) == Concat(frames) + frame
  {
    assert (frames + [frame])[..|frames|] == frames;
  }

  /** Appending the frame of the subject at position `i` keeps the loop's account of the rows. */
  lemma AppendFrameStep(stats: StatTable, bundle: string, field: string, subjects: seq<string>, sessions: map<string, seq<string>>,
                        i: nat, data: seq<seq<Row>>, values: ODict<real>, data': seq<seq<Row>>)
    requires forall s | s in subjects :: s in sessions
    requires i < |subjects|
    requires SessionValues(stats, bundle, field, sessions[subjects[i]]) == Ok(values)
    requires values.Valid()
    requires data' == if values.keys != [] then data + [SubjectRows(subjects[i], values)] else data
    ensures Prepend(Concat(data), RowsFor(stats, bundle, field, subjects[i..], sessions))
        == Prepend(Concat(data'), RowsFor(stats, bundle, field, subjects[i + 1..], sessions))
  {
    RowsForStep(stats, bundle, field, subjects, sessions, i);
    var frame := SubjectRows(subjects[i], values);
    PrependAssociative(Concat(data), frame, RowsFor(stats, bundle, field, subjects[i + 1..], sessions));
    if values.keys != [] {
      ConcatSnoc(data, frame);
    } else {
      assert Concat(data) + frame == Concat(data);
    }
  }

  /**
   * The loop over the subject mapping that appends one frame per subject
   * with at least one matching acquisition.
   */
  method CollectFrames(stats: StatTable, bundle: string, field: string, mapping: ODict<seq<string>>) returns (data: Result<seq<seq<Row>>, Error>)
    requires mapping.Valid()
    ensures data.Ok? ==> forall k :: 0 <= k < |data.value| ==> data.value[k] != []
    ensures data.Ok? ==> RowsFor(stats, bundle, field, mapping.keys, mapping.entries) == Ok(Concat(data.value))
    ensures data.Err? ==> RowsFor(stats, bundle, field, mapping.keys, mapping.entries) == Err(data.error)
  {
    ghost var all := RowsFor(stats, bundle, field, mapping.keys, mapping.entries);
    var frames: seq<seq<Row>> := [];
    var i := 0;
    assert mapping.keys[0..] == mapping.keys;
    PrependAssociative([], [], all);
    while i < |mapping.keys|
      invariant 0 <= i <= |mapping.keys|
      invariant forall k :: 0 <= k < |frames| ==> frames[k] != []
      invariant all == Prepend(Concat(frames), RowsFor(stats, bundle, field, mapping.keys[i..], mapping.entries))
    {
      var subid := mapping.keys[i];
      var metricValues := SessionValues(stats, bundle, field, mapping.entries[subid]);
      if metricValues.Err? {
        RowsForStep(stats, bundle, field, mapping.keys, mapping.entries, i);
        return Err(metricValues.error);
      }
      var frames' := frames;
      if metricValues.value.keys != [] {
        frames' := frames + [SubjectRows(subid, metricValues.value)];
      }
      AppendFrameStep(stats, bundle, field, mapping.keys, mapping.entries, i, frames, metricValues.value, frames');
      frames := frames';
      i := i + 1;
    }
    assert mapping.keys[i..] == [];
    assert Concat(frames) + [] == Concat(frames);
    return Ok(frames);
  }

  /** The per-subject frames, then their concatenation, which raises when there is none. */
  method BuildFrame(stats: StatTable, bundle: string, field: string, mapping: ODict<seq<string>>) returns (df: Result<seq<Row>, Error>)
    requires mapping.Valid()
    ensures df == Frame(RowsFor(stats, bundle, field, mapping.keys, mapping.entries))
    ensures df.Ok? ==> df.value != []
  {
    var data :- CollectFrames(stats, bundle, field, mapping);
    if data == [] {
      return Err(NoObjectsToConcatenate);
    }
    assert |Concat(data)| >= |data[|data| - 1]|;
    return Ok(Concat(data));
  }

  lemma {:induction false} ConcatCons(frame: seq<Row>, frames: seq<seq<Row>>)
    ensures Concat([frame] + frames) == frame + Concat(frames)
    decreases |frames|
  {
    if frames != [] {
      var init := frames[..|frames| - 1];
      assert ([frame] + frames)[..|frames|] == [frame] + init;
      ConcatCons(frame, init);
    } else {
      assert [frame][..0] == [];
    }
  }

  /** The row an acquisition of a subject contributes. */
  function RowOf(stats: StatTable, bundle: string, field: string, subject: string, acquisition: string): Row
    requires acquisition in stats && bundle in stats[acquisition] && field in stats[acquisition][bundle]
  {
    Row(subject, SessionLabel(subject, acquisition), stats[acquisition][bundle][field])
  }

  /**
   * The rows `group` are what one subject contributes: every row names the
   * subject, comes from one of its listed acquisitions that has the bundle
   * (label with the subject prefix removed, value from the metric's field),
   * every such acquisition gives a row, there are no more rows than listed
   * acquisitions, and none at all when no listed acquisition has the bundle.
   */
  ghost predicate SubjectGroup(stats: StatTable, bundle: string, field: string, subject: string, sessids: seq<string>, group: seq<Row>)
    requires Readable(stats, bundle, field, sessids)
  {
    && |group| <= |sessids|
    && (group == [] <==> forall s | s in sessids :: bundle !in stats[s])
    && (forall p | 0 <= p < |group| :: group[p].subject == subject)
    && (forall p | 0 <= p < |group| :: exists s | s in sessids && bundle in stats[s] ::
          group[p] == RowOf(stats, bundle, field, subject, s))
    && (forall s | s in sessids && bundle in stats[s] :: RowOf(stats, bundle, field, subject, s) in group)
    && exists ids | MatchingIds(stats, bundle, sessids, ids) :: RowsOfIds(stats, bundle, field, subject, ids, group)
  }

  /** `ids` lists each listed acquisition that has the bundle, once. */
  predicate MatchingIds(stats: StatTable, bundle: string, sessids: seq<string>, ids: seq<string>)
    requires forall s | s in sessids :: s in stats
  {
    && Distinct(ids)
    && (forall s | s in ids :: s in sessids && bundle in stats[s])
    && (forall s | s in sessids && bundle in stats[s] :: s in ids)
  }

  /** `group` has one row per id of `ids`, position by position. */
  predicate RowsOfIds(stats: StatTable, bundle: string, field: string, subject: string, ids: seq<string>, group: seq<Row>)
    requires forall s | s in ids :: s in stats && bundle in stats[s] && field in stats[s][bundle]
  {
    |group| == |ids| && forall p | 0 <= p < |group| :: group[p] == RowOf(stats, bundle, field, subject, ids[p])
  }

  lemma SubjectRowsAreGroup(stats: StatTable, bundle: string, field: string, subject: string, sessids: seq<string>)
    requires SessionValues(stats, bundle, field, sessids).Ok?
    ensures SubjectGroup(stats, bundle, field, subject, sessids,
      SubjectRows(subject, SessionValues(stats, bundle, field, sessids).value))
  {
    var values := SessionValues(stats, bundle, field, sessids).value;
    var group := SubjectRows(subject, values);
    forall p | 0 <= p < |group|
      ensures exists s | s in sessids && bundle in stats[s] :: group[p] == RowOf(stats, bundle, field, subject, s)
    {
      var s := values.keys[p];
      assert s in values.entries;
      assert group[p] == RowOf(stats, bundle, field, subject, s);
    }
    forall s | s in sessids && bundle in stats[s]
      ensures RowOf(stats, bundle, field, subject, s) in group
    {
      assert s in values.entries;
      var p :| 0 <= p < |values.keys| && values.keys[p] == s;
      assert group[p] == RowOf(stats, bundle, field, subject, s);
    }
    if group == [] {
      forall s | s in sessids ensures bundle !in stats[s] {
      }
    }
    if group != [] {
      assert values.keys[0] in values.entries;
    }
    SubjectRowsOfIds(stats, bundle, field, subject, sessids);
  }

  /** A subject's frame has one row per matching acquisition, in the comprehension's key order. */
  lemma SubjectRowsOfIds(stats: StatTable, bundle: string, field: string, subject: string, sessids: seq<string>)
    requires SessionValues(stats, bundle, field, sessids).Ok?
    ensures Readable(stats, bundle, field, sessids)
    ensures MatchingIds(stats, bundle, sessids, SessionValues(stats, bundle, field, sessids).value.keys)
    ensures RowsOfIds(stats, bundle, field, subject, SessionValues(stats, bundle, field, sessids).value.keys,
                      SubjectRows(subject, SessionValues(stats, bundle, field, sessids).value))
  {
  }

  /** The frame of every subject, including the empty ones the loop does not append. */
  ghost function SubjectFrames(stats: StatTable, bundle: string, field: string, subjects: seq<string>, sessions: map<string, seq<string>>): (frames: seq<seq<Row>>)
    requires forall s | s in subjects :: s in sessions && Readable(stats, bundle, field, sessions[s])
    ensures |frames| == |subjects|
    ensures forall i | 0 <= i < |subjects| ::
      frames[i] == SubjectRows(subjects[i], SessionValues(stats, bundle, field, sessions[subjects[i]]).value)
    decreases |subjects|
  {
    if subjects == [] then []
    else
      [SubjectRows(subjects[0], SessionValues(stats, bundle, field, sessions[subjects[0]]).value)]
        + SubjectFrames(stats, bundle, field, subjects[1..], sessions)
  }

  /** A successful build reads every subject's acquisitions and concatenates their frames. */
  lemma {:induction false} RowsAreSubjectFrames(stats: StatTable, bundle: string, field: string, subjects: seq<string>, sessions: map<string, seq<string>>)
    requires forall s | s in subjects :: s in sessions
    requires RowsFor(stats, bundle, field, subjects, sessions).Ok?
    ensures forall s | s in subjects :: Readable(stats, bundle, field, sessions[s])
    ensures RowsFor(stats, bundle, field, subjects, sessions).value == Concat(SubjectFrames(stats, bundle, field, subjects, sessions))
    decreases |subjects|
  {
    if subjects != [] {
      RowsAreSubjectFrames(stats, bundle, field, subjects[1..], sessions);
      assert forall s | s in subjects :: s == subjects[0] || s in subjects[1..];
      var head := SubjectRows(subjects[0], SessionValues(stats, bundle, field, sessions[subjects[0]]).value);
      ConcatCons(head, SubjectFrames(stats, bundle, field, subjects[1..], sessions));
    }
  }

  /**
   * The sample table is grouped by subject in mapping order: it is the
   * concatenation of one group per subject, each as `SubjectGroup` says.
   */
  lemma RowsGroupedBySubject(stats: StatTable, bundle: string, field: string, subjects: seq<string>, sessions: map<string, seq<string>>)
    requires forall s | s in subjects :: s in sessions
    requires RowsFor(stats, bundle, field, subjects, sessions).Ok?
    ensures forall s | s in subjects :: Readable(stats, bundle, field, sessions[s])
    ensures RowsFor(stats, bundle, field, subjects, sessions).value == Concat(SubjectFrames(stats, bundle, field, subjects, sessions))
    ensures forall i | 0 <= i < |subjects| ::
      SubjectGroup(stats, bundle, field, subjects[i], sessions[subjects[i]], SubjectFrames(stats, bundle, field, subjects, sessions)[i])
  {
    RowsAreSubjectFrames(stats, bundle, field, subjects, sessions);
    forall i | 0 <= i < |subjects|
      ensures SubjectGroup(stats, bundle, field, subjects[i], sessions[subjects[i]], SubjectFrames(stats, bundle, field, subjects, sessions)[i])
    {
      SubjectRowsAreGroup(stats, bundle, field, subjects[i], sessions[subjects[i]]);
    }
  }

  /** Two distinct acquisitions of a subject can share a session label. */
  lemma LabelsCanCollide()
    ensures SessionLabel("s1", "s1_a") == SessionLabel("s1", "a") == "a"
  {
    assert !Contains("a", "s1_") by {
      assert !StartsWith("a", "s1_");
      assert "a"[1..] == [];
    }
    StripsLeadingPattern("s1_", "a");
    assert "s1_" + "a" == "s1_a";
    RemoveAllAbsent("a", "s1_");
  }

  /** Removing a leading pattern only, as a prefix strip would. */
  function StripPrefix(s: string, pat: string): (r: string)
    ensures StartsWith(s, pat) ==> s == pat + r
    ensures !StartsWith(s, pat) ==> r == s
  {
    if StartsWith(s, pat) then s[|pat|..] else s
  }

  /**
   * A collision that `replace` causes and a prefix strip would not: the
   * ids "s1_x_s1_y" and "s1_x_y" of subject "s1" both get the label "x_y",
   * while stripping the leading "s1_" keeps them apart.
   */
  lemma LabelsCollideOnlyUnderReplace()
    ensures SessionLabel("s1", "s1_x_s1_y") == SessionLabel("s1", "s1_x_y") == "x_y"
    ensures StripPrefix("s1_x_s1_y", "s1_") != StripPrefix("s1_x_y", "s1_")
  {
    var pat := "s1_";
    assert RemoveAll("", pat) == "";
    assert !StartsWith("y", pat);
    assert RemoveAll("y", pat) == "y" by { assert "y"[1..] == ""; }
    assert StartsWith("s1_y", pat) && "s1_y"[3..] == "y";
    assert RemoveAll("s1_y", pat) == "y";
    assert !StartsWith("_s1_y", pat) && "_s1_y"[1..] == "s1_y";
    assert RemoveAll("_s1_y", pat) == "_y";
    assert !StartsWith("x_s1_y", pat) && "x_s1_y"[1..] == "_s1_y";
    assert RemoveAll("x_s1_y", pat) == "x_y";
    assert StartsWith("s1_x_s1_y", pat) && "s1_x_s1_y"[3..] == "x_s1_y";
    assert RemoveAll("s1_x_s1_y", pat) == "x_y";
    assert !StartsWith("_y", pat) && "_y"[1..] == "y";
    assert RemoveAll("_y", pat) == "_y";
    assert !StartsWith("x_y", pat) && "x_y"[1..] == "_y";
    assert RemoveAll("x_y", pat) == "x_y";
    assert StartsWith("s1_x_y", pat) && "s1_x_y"[3..] == "x_y";
    assert "s1" + "_" == pat;
  }

  /**
   * Labels are unique within a subject when each of its acquisition ids is
   * `<subject>_` followed by a suffix that does not contain it again.
   */
  lemma LabelsDistinctWhenPrefixed(subject: string, values: ODict<real>)
    requires values.Valid()
    requires forall s | s in values.keys :: StartsWith(s, subject + "_") && !Contains(s[|subject| + 1..], subject + "_")
    ensures forall p, q | 0 <= p < q < |SubjectRows(subject, values)| ::
      SubjectRows(subject, values)[p].session != SubjectRows(subject, values)[q].session
  {
    var pat := subject + "_";
    var rows := SubjectRows(subject, values);
    forall p, q | 0 <= p < q < |rows| ensures rows[p].session != rows[q].session {
      var a, b := values.keys[p], values.keys[q];
      assert a in values.keys && b in values.keys;
      assert a[..|pat|] == pat && b[..|pat|] == pat;
      assert a == pat + a[|pat|..] && b == pat + b[|pat|..];
      StripsLeadingPattern(pat, a[|pat|..]);
      StripsLeadingPattern(pat, b[|pat|..]);
    }
  }

  /**
   * Building the rows raises KeyError exactly when some subject lists an
   * acquisition missing from the table, or one whose bundle entry lacks
   * the field.
   */
  lemma {:induction false} RowsForOk(stats: StatTable, bundle: string, field: string, subjects: seq<string>, sessions: map<string, seq<string>>)
    requires forall s | s in subjects :: s in sessions
    ensures RowsFor(stats, bundle, field, subjects, sessions).Ok? <==>
      forall s | s in subjects :: Readable(stats, bundle, field, sessions[s])
    decreases |subjects|
  {
    if subjects != [] {
      RowsForOk(stats, bundle, field, subjects[1..], sessions);
      assert forall s | s in subjects :: s == subjects[0] || s in subjects[1..];
    }
  }

  /** The rows are empty exactly when no acquisition listed for any subject has the bundle. */
  lemma {:induction false} RowsForEmpty(stats: StatTable, bundle: string, field: string, subjects: seq<string>, sessions: map<string, seq<string>>)
    requires forall s | s in subjects :: s in sessions
    requires RowsFor(stats, bundle, field, subjects, sessions).Ok?
    ensures forall s, a | s in subjects && a in sessions[s] :: a in stats
    ensures RowsFor(stats, bundle, field, subjects, sessions).value == [] <==>
      forall s, a | s in subjects && a in sessions[s] :: bundle !in stats[a]
    decreases |subjects|
  {
    if subjects != [] {
      RowsForEmpty(stats, bundle, field, subjects[1..], sessions);
      assert forall s | s in subjects :: s == subjects[0] || s in subjects[1..];
      var values := SessionValues(stats, bundle, field, sessions[subjects[0]]).value;
      if values.keys != [] {
        assert values.keys[0] in values.entries;
      }
    }
  }

  /**
   * The sample table fails to build with the empty-concat error exactly
   * when every list can be read but no listed acquisition of any subject
   * has the bundle; every other failure is a KeyError on an unreadable list.
   */
  lemma FrameFailure(stats: StatTable, bundle: string, field: string, subjects: seq<string>, sessions: map<string, seq<string>>)
    requires forall s | s in subjects :: s in sessions
    ensures Frame(RowsFor(stats, bundle, field, subjects, sessions)) == Err(NoObjectsToConcatenate) <==>
      && (forall s | s in subjects :: Readable(stats, bundle, field, sessions[s]))
      && (forall s, a | s in subjects && a in sessions[s] :: bundle !in stats[a])
    ensures Frame(RowsFor(stats, bundle, field, subjects, sessions)).Err? <==>
      || (exists s | s in subjects :: !Readable(stats, bundle, field, sessions[s]))
      || (forall s, a | s in subjects && a in sessions[s] :: a in stats && bundle !in stats[a])
  {
    RowsForOk(stats, bundle, field, subjects, sessions);
    if RowsFor(stats, bundle, field, subjects, sessions).Ok? {
      RowsForEmpty(stats, bundle, field, subjects, sessions);
    }
  }
}
