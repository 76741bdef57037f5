/**
 What the transactional index sees of its transaction: the flags, the
 snapshot, the visibility rule, the per-index transaction context (write set,
 read set, absent set, absent ranges, node versions), the abort reasons, and
 the stabilising-read / visibility / read-set step shared by point reads and
 range scans.
 */
module Transaction {
  import opened Keys

  /** tid_t: a 64-bit commit timestamp; 0 doubles as "not yet read". */
  type Tid = t: int | 0 <= t < 0x1_0000_0000_0000_0000

  /** dbtuple::MAX_TID, the "read the latest" sentinel. */
  const MAX_TID: Tid := 0xFFFF_FFFF_FFFF_FFFF

  /** A versioned record (dbtuple) by identity: an arena handle instead of a pointer. */
  type Handle = nat

  /** An index node by identity. */
  type NodeId = nat

  type Value = seq<Byte>

  /** The ordered index, abstracted to its key-to-record map. */
  type Index = map<Key, Handle>

  datatype Option<+T> = None | Some(value: T)

  /** transaction_base::abort_reason, restricted to the reasons this layer raises. */
  datatype AbortReason =
    | User
    | UnstableRead
    | FutureTidRead
    | ReadNodeInterference
    | NodeScanReadVersionChanged
    | WriteNodeInterference

  /** An operation either completes or aborts the transaction with a reason. */
  datatype Result<+T> = Ok(value: T) | Aborted(reason: AbortReason) {
    predicate IsFailure() {
      Aborted?
    }

    function PropagateFailure<U>(): Result<U>
      requires Aborted?
    {
      Aborted(reason)
    }

    function Extract(): T
      requires Ok?
    {
      value
    }
  }

  /** What dbtuple::stable_read reports: whether a stable version was read,
      that version's tid, and its value (empty for a logical delete). */
  datatype Observation = Observation(stable: bool, tid: Tid, value: Value)

  /** The stabilising read as an oracle: record, read tid, read-only hint. */
  type StableReader = (Handle, Tid, bool) -> Observation

  /** consistent_snapshot_tid(): either no snapshot or a snapshot tid. */
  datatype Snapshot = NoSnapshot | SnapshotAt(tid: Tid)

  /** The transaction's fixed parts: TXN_FLAG_READ_ONLY, TXN_FLAG_LOW_LEVEL_SCAN,
      its snapshot and its can_read_tid rule. */
  datatype Txn = Txn(
    readOnly: bool,
    lowLevelScan: bool,
    snapshot: Snapshot,
    canReadTid: Tid -> bool)

  /** write_record_t: the pending value and the record this transaction
      inserted for the key, if any. */
  datatype WriteRecord = WriteRecord(value: Value, inserted: Option<Handle>)

  /** The kind stored in an absent-set entry. */
  datatype AbsentKind = AbsentRecRead

  /** txn_context: the transaction's state for one index. `absentRanges`
      lists the ranges handed to add_absent_range, in order. */
  datatype Context = Context(
    writeSet: map<Key, WriteRecord>,
    readSet: map<Handle, Tid>,
    absentSet: map<Key, AbsentKind>,
    absentRanges: seq<KeyRange>,
    nodeScan: map<NodeId, nat>)

  const EmptyContext := Context(map[], map[], map[], [], map[])

  /** local_search_str: the write set first, then the absent set, then the
      absent ranges; a key known absent resolves to the empty value. */
  function LocalSearch(ctx: Context, k: Key): Option<Value> {
    if k in ctx.writeSet then Some(ctx.writeSet[k].value)
    else if k in ctx.absentSet || Covered(ctx.absentRanges, k) then Some([])
    else None
  }

  /** The tid a read is performed at: the snapshot tid, else MAX_TID. */
  function ReadTid(txn: Txn): Tid
  {
    match txn.snapshot
    case SnapshotAt(s) => s
    case NoSnapshot => MAX_TID
  }

  /** The read-set record-or-verify step on `read_set[h]`, where a missing
      entry reads as tid 0 ("unset"). */
  function RecordRead(readSet: map<Handle, Tid>, h: Handle, t: Tid): (r: Result<map<Handle, Tid>>)
    ensures r.Aborted? <==> h in readSet && readSet[h] != 0 && readSet[h] != t
    ensures r.Aborted? ==> r.reason == ReadNodeInterference
    ensures r.Ok? ==> r.value.Keys == readSet.Keys + {h} && r.value[h] == t
    ensures r.Ok? ==> forall g :: g in readSet && g != h ==> r.value[g] == readSet[g]
    ensures h in readSet && readSet[h] == t ==> r == Ok(readSet)
  {
    var recorded := if h in readSet then readSet[h] else 0;
    if recorded == 0 then
      assert h in readSet && t == 0 ==> readSet[h := t] == readSet;
      Ok(readSet[h := t])
    else if recorded != t then Aborted(ReadNodeInterference)
    else Ok(readSet)
  }

  /** The outcome of a checked read: what was observed and the new read set. */
  datatype CheckedRead = CheckedRead(obs: Observation, readSet: map<Handle, Tid>)

  /** Stabilising read of `h` at ReadTid, then the visibility check, then the
      read-set step; each failure is its own abort, and the two read checks
      come before the read set is touched. */
  function ReadRecord(txn: Txn, read: StableReader, readSet: map<Handle, Tid>, h: Handle): (r: Result<CheckedRead>)
    ensures var obs := read(h, ReadTid(txn), txn.readOnly);
      && (r == Aborted(UnstableRead) <==> !obs.stable)
      && (r == Aborted(FutureTidRead) <==> obs.stable && !txn.canReadTid(obs.tid))
      && (r == Aborted(ReadNodeInterference) <==>
            obs.stable && txn.canReadTid(obs.tid) && h in readSet && readSet[h] != 0 && readSet[h] != obs.tid)
      && (r.Ok? <==> obs.stable && txn.canReadTid(obs.tid) &&
                     !(h in readSet && readSet[h] != 0 && readSet[h] != obs.tid))
      && (r.Ok? ==> r.value.obs == obs && r.value.readSet == readSet[h := obs.tid])
  {
    var obs := read(h, ReadTid(txn), txn.readOnly);
    if !obs.stable then Aborted(UnstableRead)
    else if !txn.canReadTid(obs.tid) then Aborted(FutureTidRead)
    else
      var rs :- RecordRead(readSet, h, obs.tid);
      Ok(CheckedRead(obs, rs))
  }
}
