/**
 * The pieces of Python's `str` semantics the scripts rely on: the `in`
 * substring test, `str.replace(pattern, "")`, and the ordering `sorted`
 * uses for strings (lexicographic by code point).
 */
module PyStr {

  /** `p` is a prefix of `s`. */
  predicate StartsWith(s: string, p: string) {
    |p| <= |s| && s[..|p|] == p
  }

  /** Python's `sub in s`. */
  predicate Contains(s: string, sub: string)
    ensures Contains(s, sub) ==> |sub| <= |s|
    decreases |s|
  {
    StartsWith(s, sub) || (|s| > 0 && Contains(s[1..], sub))
  }

  /** `sub` occurs in `s` starting at position `i`. */
  predicate OccursAt(s: string, sub: string, i: nat) {
    i + |sub| <= |s| && s[i..i + |sub|] == sub
  }

  /** An occurrence at any position makes `sub in s` true. */
  lemma {:induction false} OccursContains(s: string, sub: string, i: nat)
    requires OccursAt(s, sub, i)
    ensures Contains(s, sub)
    decreases i
  {
    if i > 0 {
      assert OccursAt(s[1..], sub, i - 1) by {
        assert s[1..][i - 1..i - 1 + |sub|] == s[i..i + |sub|];
      }
      OccursContains(s[1..], sub, i - 1);
    }
  }

  /** When `sub in s`, the leftmost position it occurs at. */
  lemma {:induction false} ContainsIndex(s: string, sub: string) returns (i: nat)
    requires Contains(s, sub)
    ensures OccursAt(s, sub, i)
    decreases |s|
  {
    if StartsWith(s, sub) {
      i := 0;
    } else {
      var j := ContainsIndex(s[1..], sub);
      i := j + 1;
      assert s[1..][j..j + |sub|] == s[i..i + |sub|];
    }
  }

  /** Substring containment is transitive. */
  lemma ContainsTransitive(s: string, mid: string, sub: string)
    requires Contains(s, mid) && Contains(mid, sub)
    ensures Contains(s, sub)
  {
    var i := ContainsIndex(s, mid);
    var j := ContainsIndex(mid, sub);
    var inS, inMid := s[i + j..i + j + |sub|], mid[j..j + |sub|];
    forall k | 0 <= k < |sub|
      ensures inS[k] == inMid[k]
    {
      assert inMid[k] == mid[j + k] == s[i..i + |mid|][j + k];
    }
    assert inS == inMid;
    OccursContains(s, sub, i + j);
  }

  /**
   * Python's `s.replace(pat, "")`: scans left to right and deletes every
   * non-overlapping occurrence of `pat`, not only a leading one.
   */
  function RemoveAll(s: string, pat: string): (r: string)
    requires |pat| > 0
    ensures |r| <= |s|
    ensures r == s || |r| < |s|
    decreases |s|
  {
    if StartsWith(s, pat) then RemoveAll(s[|pat|..], pat)
    else if s == [] then []
    else [s[0]] + RemoveAll(s[1..], pat)
  }

  /** A string without an occurrence of `pat` is left as it is. */
  lemma {:induction false} RemoveAllAbsent(s: string, pat: string)
    requires |pat| > 0 && !Contains(s, pat)
    ensures RemoveAll(s, pat) == s
    decreases |s|
  {
    if s != [] {
      RemoveAllAbsent(s[1..], pat);
      assert [s[0]] + s[1..] == s;
    }
  }

  /** A leading `pat` followed by a rest free of `pat` leaves exactly the rest. */
  lemma StripsLeadingPattern(pat: string, rest: string)
    requires |pat| > 0 && !Contains(rest, pat)
    ensures RemoveAll(pat + rest, pat) == rest
  {
    assert StartsWith(pat + rest, pat);
    assert (pat + rest)[|pat|..] == rest;
    RemoveAllAbsent(rest, pat);
  }

  /** A leading `pat` is deleted and the scan resumes right after it. */
  lemma RemoveAllLeading(pat: string, s: string)
    requires |pat| > 0
    ensures RemoveAll(pat + s, pat) == RemoveAll(s, pat)
  {
    assert StartsWith(pat + s, pat);
    assert (pat + s)[|pat|..] == s;
  }

  /** No occurrence of `pat` starts in the first `n` positions of `s`. */
  predicate NoOccurrenceBefore(s: string, pat: string, n: nat)
    requires n <= |s|
  {
    forall i | 0 <= i < n :: !StartsWith(s[i..], pat)
  }

  /**
   * A prefix `a` in which no occurrence of `pat` starts is kept as it is,
   * and the rest is scanned on its own.
   */
  lemma {:induction false} RemoveAllKeepsCleanPrefix(a: string, b: string, pat: string)
    requires |pat| > 0 && NoOccurrenceBefore(a + b, pat, |a|)
    ensures RemoveAll(a + b, pat) == a + RemoveAll(b, pat)
    decreases |a|
  {
    if a != [] {
      var s := a + b;
      assert s[0..] == s;
      assert !StartsWith(s, pat);
      assert RemoveAll(s, pat) == [s[0]] + RemoveAll(s[1..], pat);
      assert s[1..] == a[1..] + b;
      assert NoOccurrenceBefore(a[1..] + b, pat, |a[1..]|) by {
        forall i | 0 <= i < |a[1..]|
          ensures !StartsWith((a[1..] + b)[i..], pat)
        {
          assert (a[1..] + b)[i..] == s[i + 1..];
        }
      }
      RemoveAllKeepsCleanPrefix(a[1..], b, pat);
      ConsConcat(a[0], a[1..], RemoveAll(b, pat));
      assert s[0] == a[0];
      assert [a[0]] + a[1..] == a;
      calc {
        RemoveAll(s, pat);
        [a[0]] + RemoveAll(a[1..] + b, pat);
        [a[0]] + (a[1..] + RemoveAll(b, pat));
        a + RemoveAll(b, pat);
      }
    } else {
      assert a + b == b;
    }
  }

  lemma ConsConcat(c: char, x: string, y: string)
    ensures [c] + (x + y) == ([c] + x) + y
  {
  }

  /** `replace` is not a prefix strip: an occurrence in the middle is removed too. */
  lemma RemovesInnerOccurrence()
    ensures RemoveAll("a_s_b", "s_") == "a_b"
  {
    var pat := "s_";
    assert !StartsWith("a_s_b", pat);
    assert !StartsWith("_s_b", pat);
    assert "a_s_b"[1..] == "_s_b";
    assert "_s_b"[1..] == "s_b";
    assert StartsWith("s_b", pat);
    assert "s_b"[2..] == "b";
    assert !StartsWith("b", pat);
    assert "b"[1..] == [];
  }

  /**
   * Python's `<` on strings: lexicographic by code point, a proper prefix
   * being smaller.
   */
  predicate Less(a: string, b: string)
    ensures Less(a, b) ==> a != b
    ensures StartsWith(b, a) && a != b ==> Less(a, b)
    decreases |a|
  {
    if |a| == 0 then |b| > 0
    else if |b| == 0 then false
    else
      assert StartsWith(b, a) ==> StartsWith(b[1..], a[1..]) && b[0] == a[0];
      assert a[0] == b[0] ==> (a == b <==> a[1..] == b[1..]) by {
        assert a == [a[0]] + a[1..] && b == [b[0]] + b[1..];
      }
      a[0] < b[0] || (a[0] == b[0] && Less(a[1..], b[1..]))
  }

  lemma {:induction false} LessIrreflexive(a: string)
    ensures !Less(a, a)
    decreases |a|
  {
    if |a| > 0 {
      LessIrreflexive(a[1..]);
    }
  }

  lemma {:induction false} LessTransitive(a: string, b: string, c: string)
    requires Less(a, b) && Less(b, c)
    ensures Less(a, c)
    decreases |a|
  {
    if |a| > 0 && a[0] == b[0] && b[0] == c[0] {
      LessTransitive(a[1..], b[1..], c[1..]);
    }
  }

  /** Any two distinct strings are ordered one way or the other. */
  lemma {:induction false} LessTotal(a: string, b: string)
    requires a != b
    ensures Less(a, b) || Less(b, a)
    decreases |a|
  {
    if |a| > 0 && |b| > 0 && a[0] == b[0] {
      assert a == [a[0]] + a[1..] && b == [b[0]] + b[1..];
      LessTotal(a[1..], b[1..]);
    }
  }

  lemma LessAsymmetric(a: string, b: string)
    requires Less(a, b)
    ensures !Less(b, a)
  {
    if Less(b, a) {
      LessTransitive(a, b, a);
      LessIrreflexive(a);
    }
  }

  /** Sorted in strictly increasing order, hence without duplicates. */
  predicate StrictlySorted(r: seq<string>) {
    forall i, j :: 0 <= i < j < |r| ==> Less(r[i], r[j])
  }

  /** `r` is what Python's `sorted(s)` returns for the set `s`. */
  ghost predicate SortedEnumeration(r: seq<string>, s: set<string>) {
    StrictlySorted(r) && (forall x :: x in r <==> x in s)
  }

  /** Places `x` into a strictly sorted sequence, keeping it strictly sorted. */
  function Insert(r: seq<string>, x: string): (r': seq<string>)
    requires StrictlySorted(r)
    ensures StrictlySorted(r')
    ensures forall y :: y in r' <==> y in r || y == x
    decreases |r|
  {
    if r == [] then [x]
    else if x == r[0] then r
    else if Less(x, r[0]) then
      assert forall j :: 0 < j < |r| ==> Less(x, r[j]) by {
        forall j | 0 < j < |r| { LessTransitive(x, r[0], r[j]); }
      }
      [x] + r
    else
      var tail := Insert(r[1..], x);
      LessTotal(x, r[0]);
      assert forall y :: y in tail ==> Less(r[0], y) by {
        forall y | y in tail ensures Less(r[0], y) {
          if y != x {
            var j :| 0 <= j < |r[1..]| && r[1..][j] == y;
            assert r[j + 1] == y;
          }
        }
      }
      assert forall y :: y in r <==> y == r[0] || y in r[1..] by {
        assert r == [r[0]] + r[1..];
      }
      [r[0]] + tail
  }

  /** Python's `sorted(s)` for a set of strings. */
  method SortStrings(s: set<string>) returns (r: seq<string>)
    ensures SortedEnumeration(r, s)
  {
    r := [];
    var rest := s;
    while rest != {}
      invariant rest <= s
      invariant StrictlySorted(r)
      invariant forall x :: x in r <==> x in s - rest
      decreases rest
    {
      var x :| x in rest;
      r := Insert(r, x);
      rest := rest - {x};
    }
  }

  /** The least element of a strictly sorted sequence comes first. */
  lemma HeadIsLeast(r: seq<string>, x: string)
    requires StrictlySorted(r) && x in r && x != r[0]
    ensures Less(r[0], x)
  {
    var j :| 0 <= j < |r| && r[j] == x;
  }

  /** `sorted` is deterministic: a set has exactly one sorted enumeration. */
  lemma {:induction false} SortedEnumerationUnique(a: seq<string>, b: seq<string>, s: set<string>)
    requires SortedEnumeration(a, s) && SortedEnumeration(b, s)
    ensures a == b
    decreases |a|
  {
    if a != [] {
      assert a[0] in b;
    }
    if b != [] {
      assert b[0] in a;
    }
    if a != [] && b != [] {
      if a[0] != b[0] {
        HeadIsLeast(a, b[0]);
        HeadIsLeast(b, a[0]);
        LessAsymmetric(a[0], b[0]);
      }
      var s' := s - {a[0]};
      forall x ensures x in a[1..] <==> x in s' {
        if x in a[1..] {
          var j :| 0 <= j < |a[1..]| && a[1..][j] == x;
          assert Less(a[0], a[j + 1]);
          LessIrreflexive(x);
        }
        if x in s' {
          assert x in a && x != a[0];
          var j :| 0 <= j < |a| && a[j] == x;
          assert x == a[1..][j - 1];
        }
      }
      forall x ensures x in b[1..] <==> x in s' {
        if x in b[1..] {
          var j :| 0 <= j < |b[1..]| && b[1..][j] == x;
          assert Less(b[0], b[j + 1]);
          LessIrreflexive(x);
        }
        if x in s' {
          assert x in b && x != b[0];
          var j :| 0 <= j < |b| && b[j] == x;
          assert x == b[1..][j - 1];
        }
      }
      SortedEnumerationUnique(a[1..], b[1..], s');
      assert a == [a[0]] + a[1..] && b == [b[0]] + b[1..];
    }
  }
}
