/**
 Range scan (txn_btree::search_range_call) and its adapter
 (txn_search_range_callback). The index's traversal is the input: the
 sequence of node visits and key visits it would make over [lower, upper),
 stopping as soon as the adapter reports that the caller stopped.
 */
module RangeScan {
  import opened Keys
  import opened Transaction
  import opened Tiling

  /** One callback from the index's range traversal: crossing into a node
      (on_resp_node) or reaching a key and its record (invoke). */
  datatype ScanEvent = NodeVisit(node: NodeId, version: nat) | KeyVisit(key: Key, record: Handle)

  /** A key and value handed to the caller. */
  type Item = (Key, Value)

  /** The caller's callback: given what it was handed so far and the next
      pair, whether the scan goes on. */
  type Visitor = (seq<Item>, Item) -> bool

  /** The adapter's state: the context, whether a key was seen (`invoked`),
      the last key seen, whether the caller stopped, and what was handed to
      the caller so far. */
  datatype Adapter = Adapter(
    ctx: Context,
    invoked: bool,
    prevKey: Key,
    callerStopped: bool,
    delivered: seq<Item>)

  function Start(ctx: Context): Adapter {
    Adapter(ctx, false, [], false, [])
  }

  /** The gap before key `k`: from the lower bound for the first key, else
      from the successor of the previous key. */
  function GapBefore(lower: Key, a: Adapter, k: Key): KeyRange {
    KeyRange(if a.invoked then NextKey(a.prevKey) else lower, Upto(k))
  }

  function AddIfNonEmpty(rs: seq<KeyRange>, g: KeyRange): seq<KeyRange> {
    if IsEmptyRange(g) then rs else rs + [g]
  }

  /** on_resp_node: in low-level-scan mode, pin the node's first-seen version
      and abort if it later reads differently; otherwise nothing. */
  function OnRespNode(txn: Txn, a: Adapter, n: NodeId, version: nat): (r: Result<Adapter>)
    ensures !txn.lowLevelScan ==> r == Ok(a)
    ensures txn.lowLevelScan ==>
      && (r.Aborted? <==> n in a.ctx.nodeScan && a.ctx.nodeScan[n] != version)
      && (r.Aborted? ==> r.reason == NodeScanReadVersionChanged)
      && (r.Ok? ==> r.value == a.(ctx := a.ctx.(nodeScan := a.ctx.nodeScan[n := version])))
  {
    if !txn.lowLevelScan then Ok(a)
    else if n !in a.ctx.nodeScan then
      Ok(a.(ctx := a.ctx.(nodeScan := a.ctx.nodeScan[n := version])))
    else if a.ctx.nodeScan[n] != version then
      Aborted(NodeScanReadVersionChanged)
    else
      assert a.ctx.nodeScan[n := version] == a.ctx.nodeScan;
      Ok(a)
  }

  /** The gap before `k` contains no key at or above `k`, so recording it
      never changes how `k` itself resolves locally. */
  lemma GapLeavesKeyAlone(ctx: Context, g: KeyRange, k: Key)
    requires g.hi == Upto(k)
    ensures LocalSearch(ctx.(absentRanges := AddIfNonEmpty(ctx.absentRanges, g)), k) == LocalSearch(ctx, k)
  {
    LessIrreflexive(k);
    CoveredAppendIfNonEmpty(ctx.absentRanges, g, k);
  }

  /** The part of invoke before the record read: record the gap before `k`
      (not in low-level mode) and hand the transaction's own non-deleted
      write to the caller. */
  function LocalVisit(txn: Txn, visit: Visitor, lower: Key, a: Adapter, k: Key): (r: Adapter)
    ensures r.invoked && r.ctx.readSet == a.ctx.readSet
    ensures r.ctx == if txn.lowLevelScan then a.ctx
                     else a.ctx.(absentRanges := AddIfNonEmpty(a.ctx.absentRanges, GapBefore(lower, a, k)))
    ensures r.prevKey == if txn.lowLevelScan then a.prevKey else k
    ensures LocalSearch(r.ctx, k) == LocalSearch(a.ctx, k)
    ensures r.delivered ==
      if LocalSearch(a.ctx, k).Some? && LocalSearch(a.ctx, k).value != [] then a.delivered + [(k, LocalSearch(a.ctx, k).value)]
      else a.delivered
    ensures r.callerStopped <==>
      a.callerStopped || (|r.delivered| > |a.delivered| && !visit(a.delivered, r.delivered[|a.delivered|]))
  {
    var ctx1 := if txn.lowLevelScan then a.ctx
                else a.ctx.(absentRanges := AddIfNonEmpty(a.ctx.absentRanges, GapBefore(lower, a, k)));
    GapLeavesKeyAlone(a.ctx, GapBefore(lower, a, k), k);
    var local := LocalSearch(ctx1, k);
    if local.Some? && local.value != [] then
      var item := (k, local.value);
      assert (a.delivered + [item])[|a.delivered|] == item;
      Adapter(ctx1, true, if txn.lowLevelScan then a.prevKey else k, a.callerStopped || !visit(a.delivered, item),
              a.delivered + [item])
    else
      Adapter(ctx1, true, if txn.lowLevelScan then a.prevKey else k, a.callerStopped, a.delivered)
  }

  /** invoke: record the gap before `k` (not in low-level mode), hand the
      transaction's own non-deleted write to the caller, and read the record
      unless it is already in the read set; its value goes to the caller
      only if the key was not resolved locally and the value is non-empty. */
  function Invoke(txn: Txn, read: StableReader, visit: Visitor, lower: Key, a: Adapter, k: Key, h: Handle)
    : (r: Result<Adapter>)
    // bookkeeping
    ensures r.Ok? ==>
      && r.value.invoked
      && r.value.ctx.writeSet == a.ctx.writeSet
      && r.value.ctx.absentSet == a.ctx.absentSet
      && r.value.ctx.nodeScan == a.ctx.nodeScan
    ensures r.Ok? && txn.lowLevelScan ==>
      r.value.ctx.absentRanges == a.ctx.absentRanges && r.value.prevKey == a.prevKey
    ensures r.Ok? && !txn.lowLevelScan ==>
      r.value.ctx.absentRanges == AddIfNonEmpty(a.ctx.absentRanges, GapBefore(lower, a, k)) && r.value.prevKey == k
    // a record already read is not read again
    ensures h in a.ctx.readSet ==> r.Ok? && r.value.ctx.readSet == a.ctx.readSet
    // a new record: stabilising read, visibility, and a fresh read-set entry
    ensures h !in a.ctx.readSet ==>
      var obs := read(h, ReadTid(txn), txn.readOnly);
      && (r == Aborted(UnstableRead) <==> !obs.stable)
      && (r == Aborted(FutureTidRead) <==> obs.stable && !txn.canReadTid(obs.tid))
      && (r.Ok? <==> obs.stable && txn.canReadTid(obs.tid))
      && (r.Ok? ==> r.value.ctx.readSet == a.ctx.readSet[h := obs.tid])
    // delivery: at most one non-empty pair for `k`, extending what was delivered
    ensures r.Ok? ==>
      && a.delivered <= r.value.delivered
      && |r.value.delivered| <= |a.delivered| + 1
      && forall i :: |a.delivered| <= i < |r.value.delivered| ==>
           r.value.delivered[i].0 == k && r.value.delivered[i].1 != []
    // local precedence: the transaction's own write decides what the caller sees
    ensures r.Ok? && k in a.ctx.writeSet ==>
      r.value.delivered ==
        if a.ctx.writeSet[k].value != [] then a.delivered + [(k, a.ctx.writeSet[k].value)] else a.delivered
    ensures r.Ok? && LocalSearch(a.ctx, k).Some? && k !in a.ctx.writeSet ==>
      r.value.delivered == a.delivered
    // index value: only for a key not resolved locally and a record not read before
    ensures r.Ok? && LocalSearch(a.ctx, k).None? ==>
      var obs := read(h, ReadTid(txn), txn.readOnly);
      r.value.delivered ==
        if h !in a.ctx.readSet && obs.value != [] then a.delivered + [(k, obs.value)] else a.delivered
    // the caller stops the scan by answering false
    ensures r.Ok? ==>
      (r.value.callerStopped <==>
        a.callerStopped ||
        (|r.value.delivered| > |a.delivered| && !visit(a.delivered, r.value.delivered[|a.delivered|])))
  {
    var b := LocalVisit(txn, visit, lower, a, k);
    if h in b.ctx.readSet then Ok(b)
    else
      var checked :- ReadRecord(txn, read, b.ctx.readSet, h);
      var b' := b.(ctx := b.ctx.(readSet := checked.readSet));
      if LocalSearch(b.ctx, k).None? && checked.obs.value != [] then
        var item := (k, checked.obs.value);
        assert (b.delivered + [item])[..|a.delivered|] == a.delivered;
        Ok(b'.(delivered := b.delivered + [item], callerStopped := b.callerStopped || !visit(b.delivered, item)))
      else Ok(b')
  }

  /** One traversal callback. */
  function Step(txn: Txn, read: StableReader, visit: Visitor, lower: Key, a: Adapter, e: ScanEvent)
    : Result<Adapter>
  {
    match e
    case NodeVisit(n, version) => OnRespNode(txn, a, n, version)
    case KeyVisit(k, h) => Invoke(txn, read, visit, lower, a, k, h)
  }

  /** The index's range traversal driving the adapter: events in order,
      halting at the first abort or once the caller stopped. */
  function Traverse(txn: Txn, read: StableReader, visit: Visitor, lower: Key, a: Adapter, events: seq<ScanEvent>)
    : Result<Adapter>
    decreases |events|
  {
    if |events| == 0 || a.callerStopped then Ok(a)
    else
      var next :- Step(txn, read, visit, lower, a, events[0]);
      Traverse(txn, read, visit, lower, next, events[1..])
  }

  /** What a scan leaves behind: the context, the pairs handed to the caller,
      and whether the caller stopped it. */
  datatype ScanOutcome = ScanOutcome(ctx: Context, delivered: seq<Item>, callerStopped: bool)

  /** search_range_call over [lower, upper): an empty interval is a no-op;
      otherwise traverse, then (unless the caller stopped, and not in
      low-level mode) record the trailing gap up to `upper`. */
  function SearchRangeCall(txn: Txn, ctx: Context, read: StableReader, visit: Visitor,
                           lower: Key, upper: Bound, events: seq<ScanEvent>)
    : (r: Result<ScanOutcome>)
    ensures upper.Upto? && Le(upper.key, lower) ==> r == Ok(ScanOutcome(ctx, [], false))
    // otherwise the traversal decides the abort, what is delivered and whether the caller stopped
    ensures !(upper.Upto? && Le(upper.key, lower)) ==>
      var t := Traverse(txn, read, visit, lower, Start(ctx), events);
      && (r.Aborted? <==> t.Aborted?)
      && (r.Aborted? ==> r.reason == t.reason)
      && (r.Ok? ==> r.value.delivered == t.value.delivered && r.value.callerStopped == t.value.callerStopped)
      // a caller's `false` ends the scan with no trailing range; so does low-level mode
      && (r.Ok? && (r.value.callerStopped || txn.lowLevelScan) ==> r.value.ctx == t.value.ctx)
      // otherwise exactly one more range: from past the last visited key (or `lower`) up to `upper`
      && (r.Ok? && !r.value.callerStopped && !txn.lowLevelScan ==>
            && r.value.ctx == t.value.ctx.(absentRanges := r.value.ctx.absentRanges)
            && |r.value.ctx.absentRanges| == |t.value.ctx.absentRanges| + 1
            && r.value.ctx.absentRanges[..|t.value.ctx.absentRanges|] == t.value.ctx.absentRanges
            && r.value.ctx.absentRanges[|t.value.ctx.absentRanges|].hi == upper)
  {
    if upper.Upto? && Le(upper.key, lower) then Ok(ScanOutcome(ctx, [], false))
    else
      var a :- Traverse(txn, read, visit, lower, Start(ctx), events);
      if a.callerStopped then Ok(ScanOutcome(a.ctx, a.delivered, true))
      else if txn.lowLevelScan then Ok(ScanOutcome(a.ctx, a.delivered, false))
      else
        var trailing := KeyRange(if a.invoked then NextKey(a.prevKey) else lower, upper);
        Ok(ScanOutcome(a.ctx.(absentRanges := a.ctx.absentRanges + [trailing]), a.delivered, false))
  }
}
