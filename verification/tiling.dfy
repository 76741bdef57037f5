/**
 The absent ranges a non-low-level range scan records, as a function of the
 keys it visits, and the phantom-protection property they give: over a scan
 of [lower, upper) that visits k1 < ... < kn, the recorded ranges and the
 visited keys together cover the interval exactly, without overlap.
 */
module Tiling {
  import opened Keys

  function Last(ks: seq<Key>): Key
    requires |ks| > 0
  {
    ks[|ks| - 1]
  }

  /** Where the gap after the keys seen so far starts: the scan's lower bound
      before any key, else the successor of the last key. */
  function GapStart(lower: Key, ks: seq<Key>): Key {
    if |ks| == 0 then lower else NextKey(Last(ks))
  }

  /** The ranges recorded while the keys `ks` arrive in order: before each
      key, the gap since the previous one, when it is not empty. */
  function Gaps(lower: Key, ks: seq<Key>): seq<KeyRange>
    decreases |ks|
  {
    if |ks| == 0 then []
    else
      var prefix := ks[..|ks| - 1];
      var g := KeyRange(GapStart(lower, prefix), Upto(Last(ks)));
      Gaps(lower, prefix) + (if IsEmptyRange(g) then [] else [g])
  }

  /** The range recorded after the scan completes: from the gap start to the
      scan's upper bound (or +inf). */
  function Trailing(lower: Key, ks: seq<Key>, upper: Bound): KeyRange {
    KeyRange(GapStart(lower, ks), upper)
  }

  /** `x` lies in the scanned interval [lower, upper). */
  predicate InScan(lower: Key, upper: Bound, x: Key) {
    Le(lower, x) && Below(x, upper)
  }

  lemma CoveredAppend(rs: seq<KeyRange>, g: KeyRange, x: Key)
    ensures Covered(rs + [g], x) <==> Covered(rs, x) || InRange(g, x)
  {
    if Covered(rs, x) {
      var i :| 0 <= i < |rs| && InRange(rs[i], x);
      assert (rs + [g])[i] == rs[i];
    }
    if Covered(rs + [g], x) {
      var i :| 0 <= i < |rs + [g]| && InRange((rs + [g])[i], x);
      if i < |rs| {
        assert rs[i] == (rs + [g])[i];
      }
    }
    if InRange(g, x) {
      assert (rs + [g])[|rs|] == g;
    }
  }

  /** Adding a range only when it is non-empty adds exactly its keys. */
  lemma CoveredAppendIfNonEmpty(rs: seq<KeyRange>, g: KeyRange, x: Key)
    ensures Covered(rs + (if IsEmptyRange(g) then [] else [g]), x) <==> Covered(rs, x) || InRange(g, x)
  {
    EmptyRangeHasNoKeys(g);
    if IsEmptyRange(g) {
      assert rs + [] == rs;
    } else {
      CoveredAppend(rs, g, x);
    }
  }

  lemma LastIsGreatest(ks: seq<Key>, i: nat)
    requires StrictlyIncreasing(ks)
    requires i < |ks|
    ensures Le(ks[i], Last(ks))
  {
  }

  /** Everything at or above the gap start lies above every key seen. */
  lemma AboveGapStart(lower: Key, ks: seq<Key>, x: Key)
    requires StrictlyIncreasing(ks)
    requires |ks| > 0 ==> Le(lower, ks[0])
    requires Le(GapStart(lower, ks), x)
    ensures Le(lower, x) && x !in ks
    ensures |ks| > 0 ==> Less(Last(ks), x)
  {
    if |ks| > 0 {
      var q := Last(ks);
      NextKeyImmediate(q, x);
      forall i | 0 <= i < |ks|
        ensures ks[i] != x
      {
        LastIsGreatest(ks, i);
        LeLessTransitive(ks[i], q, x);
        LessIrreflexive(x);
      }
      LastIsGreatest(ks, 0);
      if lower != ks[0] {
        LessTransitive(lower, ks[0], x) by {
          LeLessTransitive(ks[0], q, x);
        }
      } else {
        LeLessTransitive(ks[0], q, x);
      }
    }
  }

  /** What the gaps over the keys before the last one cover. */
  ghost predicate GapsCoverPrefix(lower: Key, ks: seq<Key>)
    requires |ks| > 0
  {
    var p := ks[..|ks| - 1];
    forall y :: Covered(Gaps(lower, p), y) <==> |p| > 0 && Le(lower, y) && Less(y, Last(p)) && y !in p
  }

  /** One more key: the gaps cover `x` exactly when it lies below the new
      last key and was not visited. */
  lemma GapsCoverStep(lower: Key, ks: seq<Key>, x: Key)
    requires StrictlyIncreasing(ks) && |ks| > 0 && Le(lower, ks[0])
    requires GapsCoverPrefix(lower, ks)
    ensures Covered(Gaps(lower, ks), x) <==> Le(lower, x) && Less(x, Last(ks)) && x !in ks
  {
    var p := ks[..|ks| - 1];
    var k := Last(ks);
    var g := KeyRange(GapStart(lower, p), Upto(k));
    assert Gaps(lower, ks) == Gaps(lower, p) + (if IsEmptyRange(g) then [] else [g]);
    assert ks == p + [k];
    CoveredAppendIfNonEmpty(Gaps(lower, p), g, x);
    if |p| > 0 {
      var q := Last(p);
      assert Less(q, k) && q == ks[|ks| - 2];
      assert StrictlyIncreasing(p);
      LastIsGreatest(p, 0);
      if Covered(Gaps(lower, p), x) {
        LessTransitive(x, q, k);
        LessAsymmetric(x, k);
      }
      if InRange(g, x) {
        AboveGapStart(lower, p, x);
        LessAsymmetric(x, k);
        assert x !in p && x != k;
      }
      if Le(lower, x) && Less(x, k) && x !in ks {
        LessTrichotomy(x, q);
        if Less(q, x) {
          NextKeyImmediate(q, x);
        }
      }
    } else {
      assert ks == [k];
      if Less(x, k) {
        LessAsymmetric(x, k);
      }
    }
  }

  /** One more key keeps the gaps pairwise disjoint: the new gap starts above
      everything the earlier gaps cover. */
  lemma GapsDisjointStep(lower: Key, ks: seq<Key>)
    requires StrictlyIncreasing(ks) && |ks| > 0 && Le(lower, ks[0])
    requires GapsCoverPrefix(lower, ks)
    requires PairwiseDisjoint(Gaps(lower, ks[..|ks| - 1]))
    ensures PairwiseDisjoint(Gaps(lower, ks))
  {
    var p := ks[..|ks| - 1];
    var g := KeyRange(GapStart(lower, p), Upto(Last(ks)));
    var gp := Gaps(lower, p);
    assert Gaps(lower, ks) == gp + (if IsEmptyRange(g) then [] else [g]);
    assert StrictlyIncreasing(p);
    forall i, j, x | 0 <= i < j < |Gaps(lower, ks)| && InRange(Gaps(lower, ks)[i], x)
      ensures !InRange(Gaps(lower, ks)[j], x)
    {
      assert Gaps(lower, ks)[i] == gp[i];
      if j < |gp| {
        assert Gaps(lower, ks)[j] == gp[j];
      } else if |p| > 0 {
        assert Covered(gp, x);
        assert Gaps(lower, ks)[j] == g;
        if InRange(g, x) {
          AboveGapStart(lower, p, x);
          LessAsymmetric(x, Last(p));
        }
      }
    }
  }

  /** The gaps recorded while visiting sorted keys cover exactly the keys from
      the lower bound up to the last key that were not visited; they are
      non-empty and pairwise disjoint. */
  lemma {:induction false} GapsCoverBelowLast(lower: Key, ks: seq<Key>)
    requires StrictlyIncreasing(ks)
    requires |ks| > 0 ==> Le(lower, ks[0])
    ensures forall x :: Covered(Gaps(lower, ks), x) <==>
      |ks| > 0 && Le(lower, x) && Less(x, Last(ks)) && x !in ks
    ensures PairwiseDisjoint(Gaps(lower, ks))
    ensures forall i :: 0 <= i < |Gaps(lower, ks)| ==> !IsEmptyRange(Gaps(lower, ks)[i])
    decreases |ks|
  {
    if |ks| > 0 {
      var p := ks[..|ks| - 1];
      var g := KeyRange(GapStart(lower, p), Upto(Last(ks)));
      assert Gaps(lower, ks) == Gaps(lower, p) + (if IsEmptyRange(g) then [] else [g]);
      assert StrictlyIncreasing(p);
      GapsCoverBelowLast(lower, p);
      assert GapsCoverPrefix(lower, ks);
      forall x
        ensures Covered(Gaps(lower, ks), x) <==> Le(lower, x) && Less(x, Last(ks)) && x !in ks
      {
        GapsCoverStep(lower, ks, x);
      }
      GapsDisjointStep(lower, ks);
      forall i | 0 <= i < |Gaps(lower, ks)|
        ensures !IsEmptyRange(Gaps(lower, ks)[i])
      {
        if i < |Gaps(lower, p)| {
          assert Gaps(lower, ks)[i] == Gaps(lower, p)[i];
        }
      }
    }
  }

  /** Phantom protection: the gaps plus the trailing range cover exactly the
      keys of [lower, upper) that the scan did not visit, and no key lies in
      two of them. */
  lemma ScanRangesTile(lower: Key, upper: Bound, ks: seq<Key>)
    requires StrictlyIncreasing(ks)
    requires forall i :: 0 <= i < |ks| ==> InScan(lower, upper, ks[i])
    ensures var rs := Gaps(lower, ks) + [Trailing(lower, ks, upper)];
      && (forall x :: Covered(rs, x) <==> InScan(lower, upper, x) && x !in ks)
      && PairwiseDisjoint(rs)
  {
    var gs := Gaps(lower, ks);
    var t := Trailing(lower, ks, upper);
    var rs := gs + [t];
    GapsCoverBelowLast(lower, ks);
    forall x
      ensures Covered(rs, x) <==> InScan(lower, upper, x) && x !in ks
    {
      CoveredAppend(gs, t, x);
      if |ks| > 0 {
        var q := Last(ks);
        assert InScan(lower, upper, q);
        if Covered(gs, x) && upper.Upto? {
          LessTransitive(x, q, upper.key);
        }
        if InRange(t, x) {
          AboveGapStart(lower, ks, x);
        }
        if InScan(lower, upper, x) && x !in ks {
          LessTrichotomy(x, q);
          if Less(q, x) {
            NextKeyImmediate(q, x);
          }
        }
      }
    }
    forall i, j, x | 0 <= i < j < |rs| && InRange(rs[i], x)
      ensures !InRange(rs[j], x)
    {
      if j < |gs| {
        assert rs[i] == gs[i] && rs[j] == gs[j];
      } else {
        assert rs[i] == gs[i] && rs[j] == t;
        assert Covered(gs, x);
        if InRange(t, x) {
          AboveGapStart(lower, ks, x);
          LessAsymmetric(x, Last(ks));
        }
      }
    }
  }
}
