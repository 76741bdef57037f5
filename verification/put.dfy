/**
 Write (both txn_btree::do_tree_put overloads, which behave identically):
 a read-only transaction aborts; an expect-new write first asks the
 transaction to insert a fresh record into the index and aborts when that
 insert collides; then the write-set entry for the key is replaced.
 */
module TreePut {
  import opened Keys
  import opened Transaction
  import opened PointRead

  /** What try_insert_new_tuple reports: the record it placed at the key, if
      any, and whether the insert collided with a record already there. The
      insert itself belongs to the transaction, so its report is an input to
      the write. do_tree_put checks that a collision always names a record;
      only a collision decides anything here, so that check changes nothing. */
  datatype InsertResult = InsertResult(record: Option<Handle>, collided: bool)

  /** `write_set[k] = write_record_t(v, tuple)`. */
  function InstallWrite(ctx: Context, k: Key, v: Value, tuple: Option<Handle>): Context {
    ctx.(writeSet := ctx.writeSet[k := WriteRecord(v, tuple)])
  }

  /** do_tree_put(k, v, expectNew); `ins` is what the insert reported, and is
      consulted only for an expect-new write. */
  function DoTreePut(txn: Txn, ctx: Context, k: Key, v: Value, expectNew: bool, ins: InsertResult)
    : (r: Result<Context>)
    // a read-only transaction aborts before anything else happens
    ensures txn.readOnly ==> r == Aborted(User)
    // an expect-new write whose insert collided aborts
    ensures !txn.readOnly && expectNew && ins.collided ==> r == Aborted(WriteNodeInterference)
    ensures r.Ok? <==> !txn.readOnly && !(expectNew && ins.collided)
    // the entry for `k` is replaced, not merged; it names the inserted record
    // only for an expect-new write
    ensures r.Ok? ==>
      && k in r.value.writeSet
      && r.value.writeSet[k] == WriteRecord(v, if expectNew then ins.record else None)
      && r.value.writeSet.Keys == ctx.writeSet.Keys + {k}
    // nothing else in the context changes
    ensures r.Ok? ==>
      && (forall j :: j in ctx.writeSet && j != k ==> r.value.writeSet[j] == ctx.writeSet[j])
      && r.value == ctx.(writeSet := r.value.writeSet)
  {
    if txn.readOnly then Aborted(User)
    else if expectNew && ins.collided then Aborted(WriteNodeInterference)
    else Ok(InstallWrite(ctx, k, v, if expectNew then ins.record else None))
  }

  /** An expect-new write whose insert reported neither a collision nor a
      record behaves as a plain write: it stores no record pointer. */
  lemma ExpectNewWithoutRecordIsPlainWrite(txn: Txn, ctx: Context, k: Key, v: Value, ins: InsertResult,
                                           other: InsertResult)
    requires !ins.collided && ins.record.None?
    ensures DoTreePut(txn, ctx, k, v, true, ins) == DoTreePut(txn, ctx, k, v, false, other)
  {
  }

  /** Read-your-own-writes: after a write, searching the key returns the
      written value (truncated), whatever the index and the record hold. */
  lemma ReadOwnWrite(txn: Txn, ctx: Context, index: Index, k: Key, v: Value, expectNew: bool, ins: InsertResult,
                     read: StableReader, maxBytes: nat)
    requires maxBytes > 0
    requires DoTreePut(txn, ctx, k, v, expectNew, ins).Ok?
    ensures var w := DoTreePut(txn, ctx, k, v, expectNew, ins).value;
      Search(txn, w, index, read, k, maxBytes) == Ok(SearchOutcome(v != [], Truncate(v, maxBytes), w))
  {
    TruncateKeepsEmptiness(v, maxBytes);
  }

  /** A plain write after an expect-new write of the same key replaces the
      entry whole: the record the first write inserted is no longer referenced
      by the write set. */
  lemma PlainPutDropsInsertedRecord(txn: Txn, ctx: Context, k: Key, v1: Value, v2: Value, newRecord: Handle,
                                    other: InsertResult)
    requires DoTreePut(txn, ctx, k, v1, true, InsertResult(Some(newRecord), false)).Ok?
    ensures var first := DoTreePut(txn, ctx, k, v1, true, InsertResult(Some(newRecord), false)).value;
      && first.writeSet[k].inserted == Some(newRecord)
      && DoTreePut(txn, first, k, v2, false, other) ==
           Ok(first.(writeSet := first.writeSet[k := WriteRecord(v2, None)]))
  {
  }
}
