/**
 The key space of the transactional index: byte strings ordered the way
 `std::string` compares them (lexicographically, bytes unsigned), the
 successor key used to start the gap after a scanned key, and half-open key
 ranges `[lo, hi)` / `[lo, +inf)`.
 */
module Keys {

  /** One unsigned byte. */
  type Byte = b: int | 0 <= b < 256

  /** Keys (and values) are byte strings. */
  type Key = seq<Byte>

  /** Strict lexicographic order: a proper prefix sorts first, otherwise the
      first differing byte decides. */
  predicate Less(a: Key, b: Key)
    decreases |a|
  {
    if |a| == 0 then |b| > 0
    else if |b| == 0 then false
    else a[0] < b[0] || (a[0] == b[0] && Less(a[1..], b[1..]))
  }

  predicate Le(a: Key, b: Key) {
    a == b || Less(a, b)
  }

  lemma {:induction false} LessIrreflexive(a: Key)
    ensures !Less(a, a)
    decreases |a|
  {
    if |a| > 0 {
      LessIrreflexive(a[1..]);
    }
  }

  lemma {:induction false} LessTransitive(a: Key, b: Key, c: Key)
    requires Less(a, b) && Less(b, c)
    ensures Less(a, c)
    decreases |a|
  {
    if |a| > 0 && a[0] == b[0] && b[0] == c[0] {
      LessTransitive(a[1..], b[1..], c[1..]);
    }
  }

  lemma {:induction false} LessTrichotomy(a: Key, b: Key)
    ensures Less(a, b) || a == b || Less(b, a)
    decreases |a|
  {
    if |a| > 0 && |b| > 0 && a[0] == b[0] {
      LessTrichotomy(a[1..], b[1..]);
      if a[1..] == b[1..] {
        assert a == [a[0]] + a[1..] && b == [b[0]] + b[1..];
      }
    }
  }

  lemma LessAsymmetric(a: Key, b: Key)
    requires Less(a, b)
    ensures !Less(b, a) && a != b
  {
    LessIrreflexive(a);
    if Less(b, a) {
      LessTransitive(a, b, a);
    }
  }

  lemma LeLessTransitive(a: Key, b: Key, c: Key)
    requires Le(a, b) && Less(b, c)
    ensures Less(a, c)
  {
    if a != b {
      LessTransitive(a, b, c);
    }
  }

  lemma LessLeTransitive(a: Key, b: Key, c: Key)
    requires Less(a, b) && Le(b, c)
    ensures Less(a, c)
  {
    if b != c {
      LessTransitive(a, b, c);
    }
  }

  /** util::next_key: the key extended by one zero byte. */
  function NextKey(k: Key): Key {
    k + [0]
  }

  /** The successor is greater than the key, and no key lies strictly
      between the two: every key above `k` is at or above `NextKey(k)`. */
  lemma {:induction false} NextKeyImmediate(k: Key, x: Key)
    ensures Less(k, NextKey(k))
    ensures Less(k, x) <==> Le(NextKey(k), x)
    decreases |k|
  {
    if |k| == 0 {
      assert NextKey(k) == [0] && NextKey(k)[1..] == [];
      if |x| == 1 && x[0] == 0 {
        assert x == [0];
      } else if |x| > 1 && x[0] == 0 {
        assert Less(NextKey(k)[1..], x[1..]);
      }
    } else {
      assert NextKey(k)[1..] == NextKey(k[1..]);
      NextKeyImmediate(k[1..], if |x| > 0 then x[1..] else x);
      if |x| > 0 && x[0] == k[0] && NextKey(k[1..]) == x[1..] {
        assert x == [x[0]] + x[1..];
        assert NextKey(k) == [k[0]] + NextKey(k)[1..];
      }
      if Le(NextKey(k), x) {
        LessLeTransitive(k, NextKey(k), x);
      }
    }
  }

  /** The upper end of a range or scan: a key (exclusive) or +inf. */
  datatype Bound = Upto(key: Key) | PlusInf

  predicate Below(x: Key, hi: Bound) {
    hi.Upto? ==> Less(x, hi.key)
  }

  /** key_range_t: the half-open interval [lo, hi). */
  datatype KeyRange = KeyRange(lo: Key, hi: Bound)

  predicate InRange(r: KeyRange, x: Key) {
    Le(r.lo, x) && Below(x, r.hi)
  }

  /** key_range_t::is_empty_range: a bounded range whose end is not above its start. */
  predicate IsEmptyRange(r: KeyRange) {
    r.hi.Upto? && Le(r.hi.key, r.lo)
  }

  /** A range is empty exactly when no key lies in it. */
  lemma EmptyRangeHasNoKeys(r: KeyRange)
    ensures IsEmptyRange(r) <==> forall x :: !InRange(r, x)
  {
    if IsEmptyRange(r) {
      forall x
        ensures !InRange(r, x)
      {
        if InRange(r, x) {
          LeLessTransitive(r.lo, x, r.hi.key);
          LessLeTransitive(r.lo, r.hi.key, r.lo);
          LessIrreflexive(r.lo);
        }
      }
    } else {
      assert InRange(r, r.lo) by {
        if r.hi.Upto? {
          LessTrichotomy(r.lo, r.hi.key);
        }
      }
    }
  }

  /** Some range of the list contains `x`. */
  predicate Covered(rs: seq<KeyRange>, x: Key) {
    exists i :: 0 <= i < |rs| && InRange(rs[i], x)
  }

  /** No key lies in two ranges of the list. */
  ghost predicate PairwiseDisjoint(rs: seq<KeyRange>) {
    forall i, j, x :: 0 <= i < j < |rs| && InRange(rs[i], x) ==> !InRange(rs[j], x)
  }

  predicate StrictlyIncreasing(ks: seq<Key>) {
    forall i, j :: 0 <= i < j < |ks| ==> Less(ks[i], ks[j])
  }
}
