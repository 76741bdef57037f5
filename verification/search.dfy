/**
 Point read (txn_btree::search): the transaction's own state first, then the
 index; a key the index lacks is remembered as absent, a record the index has
 goes through the stabilising read, the visibility check and the read-set step.
 */
module PointRead {
  import opened Keys
  import opened Transaction

  /** What search reports: found, the value (at most max_bytes_read bytes),
      and the transaction context afterwards. */
  datatype SearchOutcome = SearchOutcome(found: bool, value: Value, ctx: Context)

  /** `v.resize(maxBytes)` when `v` is longer than `maxBytes`. */
  function Truncate(v: Value, maxBytes: nat): (r: Value)
    ensures r <= v
    ensures |r| == if |v| > maxBytes then maxBytes else |v|
  {
    if |v| > maxBytes then v[..maxBytes] else v
  }

  /** A positive limit keeps a value empty exactly when it was empty. */
  lemma TruncateKeepsEmptiness(v: Value, maxBytes: nat)
    requires maxBytes > 0
    ensures Truncate(v, maxBytes) == [] <==> v == []
  {
  }

  /** The point read. The value reported when the index has no record is
      empty (the code leaves the caller's buffer as it was). */
  function Search(txn: Txn, ctx: Context, index: Index, read: StableReader, k: Key, maxBytes: nat)
    : (r: Result<SearchOutcome>)
    requires maxBytes > 0
    ensures r.Ok? ==> |r.value.value| <= maxBytes && (r.value.found <==> r.value.value != [])
    // 1) resolved locally: no index access, nothing recorded
    ensures LocalSearch(ctx, k).Some? ==>
      && r.Ok?
      && r.value.ctx == ctx
      && r.value.value == Truncate(LocalSearch(ctx, k).value, maxBytes)
      && (r.value.found <==> LocalSearch(ctx, k).value != [])
    // 2) not in the index: remembered as absent, for the first time
    ensures LocalSearch(ctx, k).None? && k !in index ==>
      && k !in ctx.absentSet
      && r == Ok(SearchOutcome(false, [], ctx.(absentSet := ctx.absentSet[k := AbsentRecRead])))
    // 3) in the index: stabilising read, visibility, read-set record-or-verify
    ensures LocalSearch(ctx, k).None? && k in index ==>
      var h := index[k];
      var obs := read(h, ReadTid(txn), txn.readOnly);
      && (r == Aborted(UnstableRead) <==> !obs.stable)
      && (r == Aborted(FutureTidRead) <==> obs.stable && !txn.canReadTid(obs.tid))
      && (r == Aborted(ReadNodeInterference) <==>
            obs.stable && txn.canReadTid(obs.tid) &&
            h in ctx.readSet && ctx.readSet[h] != 0 && ctx.readSet[h] != obs.tid)
      && (r.Ok? ==>
            && r.value.ctx == ctx.(readSet := ctx.readSet[h := obs.tid])
            && r.value.value == Truncate(obs.value, maxBytes)
            && (r.value.found <==> obs.value != []))
    ensures r.Aborted? ==>
      r.reason == UnstableRead || r.reason == FutureTidRead || r.reason == ReadNodeInterference
  {
    match LocalSearch(ctx, k)
    case Some(local) =>
      var v := Truncate(local, maxBytes);
      Ok(SearchOutcome(v != [], v, ctx))
    case None =>
      if k !in index then
        // a key in the absent set resolves locally, so it is not there yet
        assert k !in ctx.absentSet;
        Ok(SearchOutcome(false, [], ctx.(absentSet := ctx.absentSet[k := AbsentRecRead])))
      else
        var checked :- ReadRecord(txn, read, ctx.readSet, index[k]);
        var v := Truncate(checked.obs.value, maxBytes);
        TruncateKeepsEmptiness(checked.obs.value, maxBytes);
        Ok(SearchOutcome(v != [], v, ctx.(readSet := checked.readSet)))
  }

  /** Searching the same key again, with no write in between and the record
      still reading the same, reports the same and changes nothing more. */
  lemma SearchIdempotent(txn: Txn, ctx: Context, index: Index, read: StableReader, k: Key, maxBytes: nat)
    requires maxBytes > 0
    requires Search(txn, ctx, index, read, k, maxBytes).Ok?
    ensures var first := Search(txn, ctx, index, read, k, maxBytes).value;
      Search(txn, first.ctx, index, read, k, maxBytes) == Ok(first)
  {
    var first := Search(txn, ctx, index, read, k, maxBytes).value;
    if LocalSearch(ctx, k).None? {
      if k !in index {
        assert LocalSearch(first.ctx, k) == Some([]);
      } else {
        assert LocalSearch(first.ctx, k).None?;
        var h := index[k];
        var obs := read(h, ReadTid(txn), txn.readOnly);
        assert first.ctx.readSet[h] == obs.tid;
        assert first.ctx.readSet[h := obs.tid] == first.ctx.readSet;
      }
    }
  }
}
