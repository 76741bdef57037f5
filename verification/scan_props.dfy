/**
 What a whole range scan guarantees: the absent ranges it records tile the
 scanned interval around the visited keys; low-level scans record no ranges
 and pin node versions instead; the caller sees only non-empty values, the
 transaction's own writes taking precedence; and the abort reasons a scan
 can raise.
 */
module ScanProperties {
  import opened Keys
  import opened Transaction
  import opened Tiling
  import opened RangeScan

  /** The keys the traversal visits, in order. */
  function EntryKeys(events: seq<ScanEvent>): seq<Key>
    decreases |events|
  {
    if |events| == 0 then []
    else (if events[0].KeyVisit? then [events[0].key] else []) + EntryKeys(events[1..])
  }

  /** The adapter's gap bookkeeping agrees with `Gaps` over the keys seen. */
  ghost predicate TracksGaps(a: Adapter, lower: Key, base: seq<KeyRange>, seen: seq<Key>) {
    && (a.invoked <==> |seen| > 0)
    && (|seen| > 0 ==> a.prevKey == Last(seen))
    && a.ctx.absentRanges == base + Gaps(lower, seen)
  }

  /** A traversal that was not stopped before its first event continues
      from the state after that event. */
  lemma TraverseStep(txn: Txn, read: StableReader, visit: Visitor, lower: Key, a: Adapter, events: seq<ScanEvent>)
    requires |events| > 0
    requires Traverse(txn, read, visit, lower, a, events).Ok?
    requires !Traverse(txn, read, visit, lower, a, events).value.callerStopped
    ensures !a.callerStopped && Step(txn, read, visit, lower, a, events[0]).Ok?
    ensures Traverse(txn, read, visit, lower, a, events) ==
      Traverse(txn, read, visit, lower, Step(txn, read, visit, lower, a, events[0]).value, events[1..])
  {
  }

  /** One key visit extends the tracked keys by that key. */
  lemma InvokeTracksGaps(txn: Txn, read: StableReader, visit: Visitor, lower: Key,
                         a: Adapter, k: Key, h: Handle, base: seq<KeyRange>, seen: seq<Key>)
    requires !txn.lowLevelScan
    requires TracksGaps(a, lower, base, seen)
    requires Invoke(txn, read, visit, lower, a, k, h).Ok?
    ensures TracksGaps(Invoke(txn, read, visit, lower, a, k, h).value, lower, base, seen + [k])
  {
    var seen' := seen + [k];
    assert seen'[..|seen'| - 1] == seen;
    assert GapBefore(lower, a, k) == KeyRange(GapStart(lower, seen), Upto(k));
    var g := GapBefore(lower, a, k);
    assert base + Gaps(lower, seen') == base + (Gaps(lower, seen) + (if IsEmptyRange(g) then [] else [g]));
  }

  /** The key a traversal event visits, if any. */
  function StepKeys(e: ScanEvent): seq<Key> {
    if e.KeyVisit? then [e.key] else []
  }

  lemma EntryKeysCons(events: seq<ScanEvent>)
    requires |events| > 0
    ensures EntryKeys(events) == StepKeys(events[0]) + EntryKeys(events[1..])
  {
  }

  lemma AppendAssoc<T>(x: seq<T>, y: seq<T>, z: seq<T>)
    ensures (x + y) + z == x + (y + z)
  {
  }

  /** One traversal callback extends the tracked keys by the key it visits. */
  lemma StepTracksGaps(txn: Txn, read: StableReader, visit: Visitor, lower: Key,
                       a: Adapter, e: ScanEvent, base: seq<KeyRange>, seen: seq<Key>)
    requires !txn.lowLevelScan
    requires TracksGaps(a, lower, base, seen)
    requires Step(txn, read, visit, lower, a, e).Ok?
    ensures TracksGaps(Step(txn, read, visit, lower, a, e).value, lower, base, seen + StepKeys(e))
  {
    if e.KeyVisit? {
      InvokeTracksGaps(txn, read, visit, lower, a, e.key, e.record, base, seen);
    } else {
      assert seen + StepKeys(e) == seen;
    }
  }

  /** A successful traversal not stopped before its first event went through
      that event and continued from there. */
  lemma TraverseUnfold(txn: Txn, read: StableReader, visit: Visitor, lower: Key, a: Adapter, events: seq<ScanEvent>)
    requires |events| > 0 && !a.callerStopped
    requires Traverse(txn, read, visit, lower, a, events).Ok?
    ensures Step(txn, read, visit, lower, a, events[0]).Ok?
    ensures var next := Step(txn, read, visit, lower, a, events[0]).value;
      && Traverse(txn, read, visit, lower, a, events) == Traverse(txn, read, visit, lower, next, events[1..])
      && Processed(txn, read, visit, lower, a, events) == 1 + Processed(txn, read, visit, lower, next, events[1..])
  {
  }

  /** Outside low-level mode, a traversal the caller did not stop records
      exactly the gaps before the keys it visits. */
  lemma {:induction false} TraverseRecordsGaps(txn: Txn, read: StableReader, visit: Visitor, lower: Key,
                                               a: Adapter, events: seq<ScanEvent>,
                                               base: seq<KeyRange>, seen: seq<Key>)
    requires !txn.lowLevelScan
    requires TracksGaps(a, lower, base, seen)
    requires Traverse(txn, read, visit, lower, a, events).Ok?
    requires !Traverse(txn, read, visit, lower, a, events).value.callerStopped
    ensures TracksGaps(Traverse(txn, read, visit, lower, a, events).value, lower, base, seen + EntryKeys(events))
    decreases |events|
  {
    if |events| == 0 {
      assert seen + EntryKeys(events) == seen;
    } else {
      TraverseStep(txn, read, visit, lower, a, events);
      var next := Step(txn, read, visit, lower, a, events[0]).value;
      var e := events[0];
      StepTracksGaps(txn, read, visit, lower, a, e, base, seen);
      EntryKeysCons(events);
      AppendAssoc(seen, StepKeys(e), EntryKeys(events[1..]));
      TraverseRecordsGaps(txn, read, visit, lower, next, events[1..], base, seen + StepKeys(e));
    }
  }

  /** Phantom protection: a completed, non-low-level scan of [lower, upper)
      whose visited keys are increasing and inside the interval records ranges
      that, with the visited keys, cover the interval exactly and pairwise
      disjointly; earlier ranges are kept. */
  lemma SearchRangeTiles(txn: Txn, ctx: Context, read: StableReader, visit: Visitor,
                         lower: Key, upper: Bound, events: seq<ScanEvent>)
    requires !txn.lowLevelScan
    requires StrictlyIncreasing(EntryKeys(events))
    requires forall i :: 0 <= i < |EntryKeys(events)| ==> InScan(lower, upper, EntryKeys(events)[i])
    requires SearchRangeCall(txn, ctx, read, visit, lower, upper, events).Ok?
    requires !SearchRangeCall(txn, ctx, read, visit, lower, upper, events).value.callerStopped
    ensures var out := SearchRangeCall(txn, ctx, read, visit, lower, upper, events).value;
      && ctx.absentRanges <= out.ctx.absentRanges
      && var added := out.ctx.absentRanges[|ctx.absentRanges|..];
      && (forall x :: Covered(added, x) <==> InScan(lower, upper, x) && x !in EntryKeys(events))
      && PairwiseDisjoint(added)
  {
    var out := SearchRangeCall(txn, ctx, read, visit, lower, upper, events).value;
    var ks := EntryKeys(events);
    if upper.Upto? && Le(upper.key, lower) {
      assert out.ctx.absentRanges[|ctx.absentRanges|..] == [];
      EmptyIntervalHasNoKeys(lower, upper);
    } else {
      UnstoppedScanRanges(txn, ctx, read, visit, lower, upper, events);
      var added := Gaps(lower, ks) + [Trailing(lower, ks, upper)];
      assert out.ctx.absentRanges[|ctx.absentRanges|..] == added;
      ScanRangesTile(lower, upper, ks);
    }
  }

  /** When `upper <= lower` no key lies in the scanned interval. */
  lemma EmptyIntervalHasNoKeys(lower: Key, upper: Bound)
    requires upper.Upto? && Le(upper.key, lower)
    ensures forall x :: !InScan(lower, upper, x)
  {
    forall x | InScan(lower, upper, x)
      ensures false
    {
      LeLessTransitive(lower, x, upper.key);
      LessLeTransitive(lower, upper.key, lower);
      LessIrreflexive(lower);
    }
  }

  /** A completed non-low-level scan of a non-empty interval appends the gaps
      before the visited keys and then the trailing range. */
  lemma UnstoppedScanRanges(txn: Txn, ctx: Context, read: StableReader, visit: Visitor,
                            lower: Key, upper: Bound, events: seq<ScanEvent>)
    requires !txn.lowLevelScan
    requires !(upper.Upto? && Le(upper.key, lower))
    requires SearchRangeCall(txn, ctx, read, visit, lower, upper, events).Ok?
    requires !SearchRangeCall(txn, ctx, read, visit, lower, upper, events).value.callerStopped
    ensures SearchRangeCall(txn, ctx, read, visit, lower, upper, events).value.ctx.absentRanges ==
      ctx.absentRanges + Gaps(lower, EntryKeys(events)) + [Trailing(lower, EntryKeys(events), upper)]
  {
    var ks := EntryKeys(events);
    var a := Traverse(txn, read, visit, lower, Start(ctx), events).value;
    assert [] + ks == ks;
    assert ctx.absentRanges + Gaps(lower, []) == ctx.absentRanges;
    TraverseRecordsGaps(txn, read, visit, lower, Start(ctx), events, ctx.absentRanges, []);
    assert KeyRange(if a.invoked then NextKey(a.prevKey) else lower, upper) == Trailing(lower, ks, upper);
  }

  /** What every traversal keeps: the write and absent sets, the tids already
      in the read set, and (outside low-level mode) the node versions; and
      what it hands the caller: non-empty values for visited keys, the
      transaction's own value for a key it wrote. */
  lemma {:induction false} TraverseKeepsContext(txn: Txn, read: StableReader, visit: Visitor, lower: Key,
                                                a: Adapter, events: seq<ScanEvent>)
    requires Traverse(txn, read, visit, lower, a, events).Ok?
    ensures var b := Traverse(txn, read, visit, lower, a, events).value;
      && b.ctx.writeSet == a.ctx.writeSet
      && b.ctx.absentSet == a.ctx.absentSet
      && (forall g :: g in a.ctx.readSet ==> g in b.ctx.readSet && b.ctx.readSet[g] == a.ctx.readSet[g])
      && (!txn.lowLevelScan ==> b.ctx.nodeScan == a.ctx.nodeScan)
      && a.delivered <= b.delivered
      && (forall i :: |a.delivered| <= i < |b.delivered| ==>
            && b.delivered[i].1 != []
            && b.delivered[i].0 in EntryKeys(events)
            && (b.delivered[i].0 in a.ctx.writeSet ==> b.delivered[i].1 == a.ctx.writeSet[b.delivered[i].0].value))
    decreases |events|
  {
    if |events| > 0 && !a.callerStopped {
      var next := Step(txn, read, visit, lower, a, events[0]).value;
      var b := Traverse(txn, read, visit, lower, a, events).value;
      TraverseKeepsContext(txn, read, visit, lower, next, events[1..]);
      assert EntryKeys(events) == (if events[0].KeyVisit? then [events[0].key] else []) + EntryKeys(events[1..]);
      forall i | |a.delivered| <= i < |b.delivered|
        ensures b.delivered[i].0 in EntryKeys(events)
      {
        if i >= |next.delivered| {
          assert b.delivered[i].0 in EntryKeys(events[1..]);
        } else {
          assert b.delivered[i] == next.delivered[i];
        }
      }
    }
  }

  /** Read-your-own-writes in scans: a completed scan hands the caller every
      visited key the transaction wrote with a non-empty value, carrying that
      value. */
  lemma {:induction false} LocalWritesDelivered(txn: Txn, read: StableReader, visit: Visitor, lower: Key,
                                                a: Adapter, events: seq<ScanEvent>)
    requires Traverse(txn, read, visit, lower, a, events).Ok?
    requires !Traverse(txn, read, visit, lower, a, events).value.callerStopped
    ensures var b := Traverse(txn, read, visit, lower, a, events).value;
      forall i :: 0 <= i < |events| && events[i].KeyVisit? && events[i].key in a.ctx.writeSet &&
                  a.ctx.writeSet[events[i].key].value != [] ==>
        (events[i].key, a.ctx.writeSet[events[i].key].value) in b.delivered
    decreases |events|
  {
    if |events| > 0 {
      var next := Step(txn, read, visit, lower, a, events[0]).value;
      var b := Traverse(txn, read, visit, lower, a, events).value;
      LocalWritesDelivered(txn, read, visit, lower, next, events[1..]);
      TraverseKeepsContext(txn, read, visit, lower, next, events[1..]);
      forall i | 0 <= i < |events| && events[i].KeyVisit? && events[i].key in a.ctx.writeSet &&
                 a.ctx.writeSet[events[i].key].value != []
        ensures (events[i].key, a.ctx.writeSet[events[i].key].value) in b.delivered
      {
        var item := (events[i].key, a.ctx.writeSet[events[i].key].value);
        if i == 0 {
          assert next.delivered[|a.delivered|] == item;
          assert b.delivered[|a.delivered|] == item;
        } else {
          assert events[1..][i - 1] == events[i];
        }
      }
    }
  }

  /** In low-level-scan mode a traversal records no absent range, keeps the
      node versions already pinned, and, unless the caller stopped it, leaves
      every visited node pinned at the version it was visited with. */
  lemma {:induction false} LowLevelTraversePinsNodes(txn: Txn, read: StableReader, visit: Visitor, lower: Key,
                                                     a: Adapter, events: seq<ScanEvent>)
    requires txn.lowLevelScan
    requires Traverse(txn, read, visit, lower, a, events).Ok?
    ensures var b := Traverse(txn, read, visit, lower, a, events).value;
      && b.ctx.absentRanges == a.ctx.absentRanges
      && (forall n :: n in a.ctx.nodeScan ==> n in b.ctx.nodeScan && b.ctx.nodeScan[n] == a.ctx.nodeScan[n])
      && (!b.callerStopped ==>
            forall i :: 0 <= i < |events| && events[i].NodeVisit? ==>
              events[i].node in b.ctx.nodeScan && b.ctx.nodeScan[events[i].node] == events[i].version)
    decreases |events|
  {
    if |events| > 0 && !a.callerStopped {
      var next := Step(txn, read, visit, lower, a, events[0]).value;
      var b := Traverse(txn, read, visit, lower, a, events).value;
      LowLevelTraversePinsNodes(txn, read, visit, lower, next, events[1..]);
      if !b.callerStopped {
        forall i | 0 < i < |events| && events[i].NodeVisit?
          ensures events[i].node in b.ctx.nodeScan && b.ctx.nodeScan[events[i].node] == events[i].version
        {
          assert events[1..][i - 1] == events[i];
        }
      }
    }
  }

  /** A low-level scan records no absent range (not even the trailing one)
      and pins node versions; so a completed low-level scan never saw one
      node at two versions. */
  lemma LowLevelScanPinsNodes(txn: Txn, ctx: Context, read: StableReader, visit: Visitor,
                              lower: Key, upper: Bound, events: seq<ScanEvent>)
    requires txn.lowLevelScan
    requires SearchRangeCall(txn, ctx, read, visit, lower, upper, events).Ok?
    ensures var out := SearchRangeCall(txn, ctx, read, visit, lower, upper, events).value;
      && out.ctx.absentRanges == ctx.absentRanges
      && (forall n :: n in ctx.nodeScan ==> n in out.ctx.nodeScan && out.ctx.nodeScan[n] == ctx.nodeScan[n])
      && (!out.callerStopped && !(upper.Upto? && Le(upper.key, lower)) ==>
            forall i, j ::
              0 <= i < j < |events| && events[i].NodeVisit? && events[j].NodeVisit? && events[i].node == events[j].node
              ==> events[i].version == events[j].version)
  {
    if !(upper.Upto? && Le(upper.key, lower)) {
      LowLevelTraversePinsNodes(txn, read, visit, lower, Start(ctx), events);
    }
  }

  /** Outside low-level mode the scan leaves node versions alone. */
  lemma ScanLeavesNodeVersions(txn: Txn, ctx: Context, read: StableReader, visit: Visitor,
                               lower: Key, upper: Bound, events: seq<ScanEvent>)
    requires !txn.lowLevelScan
    requires SearchRangeCall(txn, ctx, read, visit, lower, upper, events).Ok?
    ensures SearchRangeCall(txn, ctx, read, visit, lower, upper, events).value.ctx.nodeScan == ctx.nodeScan
  {
    if !(upper.Upto? && Le(upper.key, lower)) {
      TraverseKeepsContext(txn, read, visit, lower, Start(ctx), events);
    }
  }

  /** A traversal aborts only for an unstable read, an invisible tid, or (in
      low-level mode) a node whose version changed; a record-read conflict
      cannot arise because only records missing from the read set are read. */
  lemma {:induction false} TraverseAbortReasons(txn: Txn, read: StableReader, visit: Visitor, lower: Key,
                                                a: Adapter, events: seq<ScanEvent>)
    ensures var r := Traverse(txn, read, visit, lower, a, events);
      r.Aborted? ==>
        r.reason == UnstableRead || r.reason == FutureTidRead ||
        (txn.lowLevelScan && r.reason == NodeScanReadVersionChanged)
    decreases |events|
  {
    if |events| > 0 && !a.callerStopped {
      var s := Step(txn, read, visit, lower, a, events[0]);
      if s.Ok? {
        TraverseAbortReasons(txn, read, visit, lower, s.value, events[1..]);
      }
    }
  }

  /** The scan as a whole: no READ_NODE_INTEREFERENCE abort is reachable. */
  lemma ScanAbortReasons(txn: Txn, ctx: Context, read: StableReader, visit: Visitor,
                         lower: Key, upper: Bound, events: seq<ScanEvent>)
    ensures var r := SearchRangeCall(txn, ctx, read, visit, lower, upper, events);
      r.Aborted? ==>
        r.reason == UnstableRead || r.reason == FutureTidRead ||
        (txn.lowLevelScan && r.reason == NodeScanReadVersionChanged)
  {
    TraverseAbortReasons(txn, read, visit, lower, Start(ctx), events);
  }

  /** A traversal whose visits of `k` all carry a record already in the read
      set never hands `k` to the caller unless the transaction wrote `k`:
      local results other than own writes are empty, and the adapter only
      reads, and delivers, records missing from the read set. */
  lemma {:induction false} TraverseNotRedelivered(txn: Txn, read: StableReader, visit: Visitor, lower: Key,
                                                  a: Adapter, events: seq<ScanEvent>, k: Key, h: Handle)
    requires h in a.ctx.readSet && k !in a.ctx.writeSet
    requires forall i :: 0 <= i < |events| && events[i].KeyVisit? && events[i].key == k ==> events[i].record == h
    requires Traverse(txn, read, visit, lower, a, events).Ok?
    ensures var b := Traverse(txn, read, visit, lower, a, events).value;
      forall i :: |a.delivered| <= i < |b.delivered| ==> b.delivered[i].0 != k
    decreases |events|
  {
    if |events| > 0 && !a.callerStopped {
      var next := Step(txn, read, visit, lower, a, events[0]).value;
      assert next.delivered == a.delivered || next.delivered[|a.delivered|].0 != k;
      assert h in next.ctx.readSet && k !in next.ctx.writeSet;
      forall i | 0 <= i < |events[1..]| && events[1..][i].KeyVisit? && events[1..][i].key == k
        ensures events[1..][i].record == h
      {
        assert events[1..][i] == events[i + 1];
      }
      TraverseNotRedelivered(txn, read, visit, lower, next, events[1..], k, h);
      TraverseKeepsContext(txn, read, visit, lower, next, events[1..]);
    }
  }

  /** A record the transaction already read, at a key it did not write, is not
      handed to the caller by a later scan, nor read again: its read-set tid
      stays as it was. */
  lemma ReadRecordNotRedelivered(txn: Txn, ctx: Context, read: StableReader, visit: Visitor,
                                 lower: Key, upper: Bound, events: seq<ScanEvent>, k: Key, h: Handle)
    requires h in ctx.readSet && k !in ctx.writeSet
    requires forall i :: 0 <= i < |events| && events[i].KeyVisit? && events[i].key == k ==> events[i].record == h
    requires SearchRangeCall(txn, ctx, read, visit, lower, upper, events).Ok?
    ensures var out := SearchRangeCall(txn, ctx, read, visit, lower, upper, events).value;
      && (forall i :: 0 <= i < |out.delivered| ==> out.delivered[i].0 != k)
      && h in out.ctx.readSet && out.ctx.readSet[h] == ctx.readSet[h]
  {
    if !(upper.Upto? && Le(upper.key, lower)) {
      TraverseNotRedelivered(txn, read, visit, lower, Start(ctx), events, k, h);
      TraverseKeepsContext(txn, read, visit, lower, Start(ctx), events);
    }
  }

  /** How many traversal events the adapter consumed: all of them, unless
      the caller stopped the traversal early. */
  function Processed(txn: Txn, read: StableReader, visit: Visitor, lower: Key, a: Adapter, events: seq<ScanEvent>)
    : (n: nat)
    ensures n <= |events|
    decreases |events|
  {
    if |events| == 0 || a.callerStopped then 0
    else
      match Step(txn, read, visit, lower, a, events[0])
      case Ok(next) => 1 + Processed(txn, read, visit, lower, next, events[1..])
      case Aborted(_) => 0
  }

  /** Outside low-level mode, any successful traversal (stopped or not)
      records exactly the gaps before the keys of the events it consumed. */
  lemma {:induction false} TraverseRecordsGapsUntilStop(txn: Txn, read: StableReader, visit: Visitor, lower: Key,
                                                        a: Adapter, events: seq<ScanEvent>,
                                                        base: seq<KeyRange>, seen: seq<Key>)
    requires !txn.lowLevelScan
    requires TracksGaps(a, lower, base, seen)
    requires Traverse(txn, read, visit, lower, a, events).Ok?
    ensures var n := Processed(txn, read, visit, lower, a, events);
      TracksGaps(Traverse(txn, read, visit, lower, a, events).value, lower, base, seen + EntryKeys(events[..n]))
    decreases |events|
  {
    if |events| == 0 || a.callerStopped {
      assert events[..0] == [];
      assert seen + EntryKeys([]) == seen;
    } else {
      TraverseUnfold(txn, read, visit, lower, a, events);
      var next := Step(txn, read, visit, lower, a, events[0]).value;
      var m := Processed(txn, read, visit, lower, next, events[1..]);
      var pre := events[..m + 1];
      assert pre[0] == events[0] && pre[1..] == events[1..][..m];
      var e := events[0];
      StepTracksGaps(txn, read, visit, lower, a, e, base, seen);
      EntryKeysCons(pre);
      AppendAssoc(seen, StepKeys(e), EntryKeys(events[1..][..m]));
      TraverseRecordsGapsUntilStop(txn, read, visit, lower, next, events[1..], base, seen + StepKeys(e));
    }
  }

  /** A non-low-level scan the caller stopped keeps the gaps recorded before
      each key it got to, and records no trailing range. */
  lemma StoppedScanRecordsGaps(txn: Txn, ctx: Context, read: StableReader, visit: Visitor,
                               lower: Key, upper: Bound, events: seq<ScanEvent>)
    requires !txn.lowLevelScan
    requires !(upper.Upto? && Le(upper.key, lower))
    requires SearchRangeCall(txn, ctx, read, visit, lower, upper, events).Ok?
    requires SearchRangeCall(txn, ctx, read, visit, lower, upper, events).value.callerStopped
    ensures var out := SearchRangeCall(txn, ctx, read, visit, lower, upper, events).value;
      var n := Processed(txn, read, visit, lower, Start(ctx), events);
      out.ctx.absentRanges == ctx.absentRanges + Gaps(lower, EntryKeys(events[..n]))
  {
    assert [] + EntryKeys(events[..Processed(txn, read, visit, lower, Start(ctx), events)])
        == EntryKeys(events[..Processed(txn, read, visit, lower, Start(ctx), events)]);
    assert ctx.absentRanges + Gaps(lower, []) == ctx.absentRanges;
    TraverseRecordsGapsUntilStop(txn, read, visit, lower, Start(ctx), events, ctx.absentRanges, []);
  }
}
