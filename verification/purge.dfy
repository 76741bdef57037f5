/**
 Teardown (txn_btree::unsafe_purge with purge_tree_walker): mark the index
 destructed, stop background tasks, walk the whole tree releasing the records
 of every node the walk finishes consistently, then clear the tree.
 */
module Purge {
  import opened Keys
  import opened Transaction

  /** The tree walk's per-node protocol: a node's values are handed over at
      the start; the visit then succeeds, or fails (and is retried by the walk). */
  datatype WalkEvent = NodeBegin(values: seq<Handle>) | NodeSuccess | NodeFailure

  /** One record release: `deferred` is dbtuple::release (reclaimed after
      in-flight readers finish), otherwise dbtuple::release_no_rcu. */
  datatype Release = Release(record: Handle, deferred: bool)

  /** purge_tree_walker: the staged records of the current node and the
      releases done so far. */
  datatype Walker = Walker(staged: seq<Handle>, released: seq<Release>)

  /** on_node_begin: stage the node's records; nothing may be staged yet. */
  function OnNodeBegin(w: Walker, values: seq<Handle>): (r: Walker)
    requires w.staged == []
    ensures r.staged == values && r.released == w.released
  {
    w.(staged := values)
  }

  /** Releases of `records`, in order, all in the same mode. */
  function ReleaseAll(records: seq<Handle>, deferred: bool): (rs: seq<Release>)
    ensures |rs| == |records|
    ensures forall i :: 0 <= i < |records| ==> rs[i] == Release(records[i], deferred)
    decreases |records|
  {
    if |records| == 0 then []
    else [Release(records[0], deferred)] + ReleaseAll(records[1..], deferred)
  }

  lemma ReleaseAllAppend(a: seq<Handle>, b: seq<Handle>, deferred: bool)
    ensures ReleaseAll(a + b, deferred) == ReleaseAll(a, deferred) + ReleaseAll(b, deferred)
  {
    var l := ReleaseAll(a + b, deferred);
    var r := ReleaseAll(a, deferred) + ReleaseAll(b, deferred);
    assert |l| == |r|;
    forall i | 0 <= i < |l|
      ensures l[i] == r[i]
    {
      if i >= |a| {
        assert (a + b)[i] == b[i - |a|];
      }
    }
  }

  /** on_node_success: release every staged record exactly once, deferred
      when background tasks exist and immediately otherwise, then empty the
      staging list. */
  function OnNodeSuccess(w: Walker, hasBackgroundTask: bool): (r: Walker)
    ensures r.staged == []
    ensures w.released <= r.released
    ensures |r.released| == |w.released| + |w.staged|
    ensures forall i :: 0 <= i < |w.staged| ==>
      r.released[|w.released| + i] == Release(w.staged[i], hasBackgroundTask)
  {
    Walker([], w.released + ReleaseAll(w.staged, hasBackgroundTask))
  }

  /** on_node_failure: drop the staged records without releasing any. */
  function OnNodeFailure(w: Walker): (r: Walker)
    ensures r.staged == [] && r.released == w.released
  {
    w.(staged := [])
  }

  /** The walk never starts a node while another node's records are staged. */
  predicate FollowsProtocol(stagedEmpty: bool, events: seq<WalkEvent>)
    decreases |events|
  {
    |events| == 0 ||
    match events[0]
    case NodeBegin(values) => stagedEmpty && FollowsProtocol(values == [], events[1..])
    case _ => FollowsProtocol(true, events[1..])
  }

  /** The walker driven by the tree walk's events. Every release it makes is
      in the one mode the configuration selects. */
  function Walk(w: Walker, hasBackgroundTask: bool, events: seq<WalkEvent>): (r: Walker)
    requires FollowsProtocol(w.staged == [], events)
    ensures w.released <= r.released
    ensures forall i :: |w.released| <= i < |r.released| ==> r.released[i].deferred == hasBackgroundTask
    decreases |events|
  {
    if |events| == 0 then w
    else
      match events[0]
      case NodeBegin(values) => Walk(OnNodeBegin(w, values), hasBackgroundTask, events[1..])
      case NodeSuccess => Walk(OnNodeSuccess(w, hasBackgroundTask), hasBackgroundTask, events[1..])
      case NodeFailure => Walk(OnNodeFailure(w), hasBackgroundTask, events[1..])
  }

  /** A node visit as the tree walk reports it: its records, and whether the
      visit finished consistently. */
  datatype NodeVisit = NodeVisit(values: seq<Handle>, consistent: bool)

  /** The events of a sequence of node visits. */
  function EventsOf(visits: seq<NodeVisit>): seq<WalkEvent>
    decreases |visits|
  {
    if |visits| == 0 then []
    else [NodeBegin(visits[0].values), if visits[0].consistent then NodeSuccess else NodeFailure]
         + EventsOf(visits[1..])
  }

  /** The records of the consistently finished visits, in order. */
  function ConsistentRecords(visits: seq<NodeVisit>): seq<Handle>
    decreases |visits|
  {
    if |visits| == 0 then []
    else (if visits[0].consistent then visits[0].values else []) + ConsistentRecords(visits[1..])
  }

  /** The walker after one node visit: staged, then released or dropped. */
  function AfterVisit(released: seq<Release>, hasBackgroundTask: bool, v: NodeVisit): seq<Release> {
    if v.consistent then released + ReleaseAll(v.values, hasBackgroundTask) else released
  }

  /** One node visit at the front of the events: the protocol holds and the
      walker moves on with nothing staged. */
  lemma WalkOneVisit(released: seq<Release>, hasBackgroundTask: bool, v: NodeVisit, rest: seq<WalkEvent>)
    requires FollowsProtocol(true, rest)
    ensures var events := [NodeBegin(v.values), if v.consistent then NodeSuccess else NodeFailure] + rest;
      && FollowsProtocol(true, events)
      && Walk(Walker([], released), hasBackgroundTask, events) ==
         Walk(Walker([], AfterVisit(released, hasBackgroundTask, v)), hasBackgroundTask, rest)
  {
    var events := [NodeBegin(v.values), if v.consistent then NodeSuccess else NodeFailure] + rest;
    assert events[1..][1..] == rest;
    assert FollowsProtocol(v.values == [], events[1..]);
    var w1 := OnNodeBegin(Walker([], released), v.values);
    assert Walk(Walker([], released), hasBackgroundTask, events) == Walk(w1, hasBackgroundTask, events[1..]);
  }

  /** Walking node visits releases exactly the records of the consistent
      visits, in order and in the configured mode; a failed visit releases
      nothing; the staging list ends empty. */
  lemma {:induction false} WalkReleasesConsistentNodes(released: seq<Release>, hasBackgroundTask: bool,
                                                       visits: seq<NodeVisit>)
    ensures FollowsProtocol(true, EventsOf(visits))
    ensures Walk(Walker([], released), hasBackgroundTask, EventsOf(visits)) ==
      Walker([], released + ReleaseAll(ConsistentRecords(visits), hasBackgroundTask))
    decreases |visits|
  {
    if |visits| == 0 {
      assert released + ReleaseAll([], hasBackgroundTask) == released;
    } else {
      var v := visits[0];
      var mid := AfterVisit(released, hasBackgroundTask, v);
      assert EventsOf(visits) ==
        [NodeBegin(v.values), if v.consistent then NodeSuccess else NodeFailure] + EventsOf(visits[1..]);
      WalkReleasesConsistentNodes(mid, hasBackgroundTask, visits[1..]);
      WalkOneVisit(released, hasBackgroundTask, v, EventsOf(visits[1..]));
      ReleasesAfterVisit(released, hasBackgroundTask, visits);
    }
  }

  /** Releasing one visit's records, then the later consistent ones, is
      releasing the consistent records from that visit on. */
  lemma ReleasesAfterVisit(released: seq<Release>, hasBackgroundTask: bool, visits: seq<NodeVisit>)
    requires |visits| > 0
    ensures AfterVisit(released, hasBackgroundTask, visits[0]) + ReleaseAll(ConsistentRecords(visits[1..]), hasBackgroundTask)
         == released + ReleaseAll(ConsistentRecords(visits), hasBackgroundTask)
  {
    var v := visits[0];
    var later := ConsistentRecords(visits[1..]);
    if v.consistent {
      var here := ReleaseAll(v.values, hasBackgroundTask);
      assert ConsistentRecords(visits) == v.values + later;
      ReleaseAllAppend(v.values, later, hasBackgroundTask);
      assert (released + here) + ReleaseAll(later, hasBackgroundTask) ==
             released + (here + ReleaseAll(later, hasBackgroundTask));
    } else {
      assert [] + later == later;
      assert ConsistentRecords(visits) == later;
    }
  }

  /** The index's own state for teardown. */
  datatype Tree = Tree(index: Index, destructed: bool)

  /** What teardown does, in order. */
  datatype PurgeEffect = StopBackgroundTasks | Freed(release: Release) | ClearIndex

  /** The index after teardown and what teardown did, in order. */
  datatype PurgeOutcome = PurgeOutcome(tree: Tree, effects: seq<PurgeEffect>)

  /** unsafe_purge: allowed once. Background tasks are stopped before any
      record is released, and the tree is cleared after the walk. */
  function UnsafePurge(tree: Tree, hasBackgroundTask: bool, walk: seq<WalkEvent>): (r: PurgeOutcome)
    requires !tree.destructed
    requires FollowsProtocol(true, walk)
    ensures r.tree.destructed && r.tree.index == map[]
    ensures |r.effects| >= 2 && r.effects[0] == StopBackgroundTasks && r.effects[|r.effects| - 1] == ClearIndex
    ensures forall i :: 0 < i < |r.effects| - 1 ==>
      r.effects[i].Freed? && r.effects[i].release.deferred == hasBackgroundTask
  {
    var w := Walk(Walker([], []), hasBackgroundTask, walk);
    var freed := seq(|w.released|, i requires 0 <= i < |w.released| => Freed(w.released[i]));
    PurgeOutcome(Tree(map[], true), [StopBackgroundTasks] + freed + [ClearIndex])
  }

  /** Teardown over node visits frees exactly the records of the consistent
      visits, each once, between stopping background tasks and clearing. */
  lemma PurgeFreesConsistentRecords(tree: Tree, hasBackgroundTask: bool, visits: seq<NodeVisit>)
    requires !tree.destructed
    ensures FollowsProtocol(true, EventsOf(visits))
    ensures var effects := UnsafePurge(tree, hasBackgroundTask, EventsOf(visits)).effects;
      var records := ConsistentRecords(visits);
      && |effects| == |records| + 2
      && forall i :: 0 <= i < |records| ==> effects[i + 1] == Freed(Release(records[i], hasBackgroundTask))
  {
    WalkReleasesConsistentNodes([], hasBackgroundTask, visits);
    assert [] + ReleaseAll(ConsistentRecords(visits), hasBackgroundTask) == ReleaseAll(ConsistentRecords(visits), hasBackgroundTask);
  }
}
