/** What every run of routing table operations keeps. */
module RoutingInvariants {
  import opened Bytes
  import opened NodeIds
  import opened RoutingSpec

  ghost predicate AllInLeaf(local: NodeId, n: nat, i: nat, nodes: seq<RoutingNode>)
    requires i <= n < ID_BITS
  {
    forall x :: x in nodes ==> InLeaf(local, n, i, x.info.id) && x.info.id != local
  }

  ghost predicate DistinctIds(nodes: seq<RoutingNode>) {
    forall j, k :: 0 <= j < k < |nodes| ==> nodes[j].info.id != nodes[k].info.id
  }

  /** A bucket that may still be split has an empty cache and no identifier twice. */
  ghost predicate LeafOk(local: NodeId, n: nat, i: nat, leaf: Leaf)
    requires i <= n < ID_BITS
  {
    && |leaf.nodes| <= BUCKET_K
    && |leaf.cache| <= BUCKET_CACHE
    && AllInLeaf(local, n, i, leaf.nodes)
    && AllInLeaf(local, n, i, leaf.cache)
    && (i == n < MAX_SPLITS ==> leaf.cache == [] && DistinctIds(leaf.nodes))
  }

  ghost function Stored(leaves: seq<Leaf>): multiset<RoutingNode> {
    if leaves == [] then multiset{}
    else Stored(leaves[..|leaves| - 1]) + multiset(leaves[|leaves| - 1].nodes)
  }

  ghost predicate LeavesOk(t: Table)
    requires Fits(t)
  {
    forall i :: 0 <= i < |t.leaves| ==> LeafOk(t.local, Splits(t), i, t.leaves[i])
  }

  ghost predicate Wf(t: Table) {
    && Fits(t)
    && LeavesOk(t)
    && t.numBuck == |t.leaves|
    && |Stored(t.leaves)| == t.nodeCount + t.promoted - t.replaced
  }

  // ----- Stored nodes -----

  lemma {:induction false} StoredAppend(leaves: seq<Leaf>, leaf: Leaf)
    ensures Stored(leaves + [leaf]) == Stored(leaves) + multiset(leaf.nodes)
  {
    assert (leaves + [leaf])[..|leaves|] == leaves;
  }

  lemma AddBoth<T>(a: multiset<T>, b: multiset<T>, c: multiset<T>, d: multiset<T>, m: multiset<T>)
    requires a + b == c + d
    ensures a + m + b == c + m + d
  {
    forall x: T
      ensures (a + m + b)[x] == (c + m + d)[x]
    {
      assert (a + b)[x] == (c + d)[x];
    }
  }

  lemma Cancel<T>(a: multiset<T>, b: multiset<T>, m: multiset<T>)
    requires a + m == b + m
    ensures a == b
  {
    forall x: T
      ensures a[x] == b[x]
    {
      assert (a + m)[x] == (b + m)[x];
    }
  }

  lemma Exchange<T>(before: multiset<T>, after: multiset<T>, part: multiset<T>, out: multiset<T>, more: multiset<T>)
    requires after + part == before + (part - out + more)
    requires out <= part <= before
    ensures after == before - out + more
  {
    forall x: T
      ensures after[x] == (before - out + more)[x]
    {
      assert (after + part)[x] == (before + (part - out + more))[x];
    }
  }

  lemma {:induction false} StoredUpdate(leaves: seq<Leaf>, i: nat, leaf: Leaf)
    requires i < |leaves|
    ensures Stored(leaves[i := leaf]) + multiset(leaves[i].nodes) == Stored(leaves) + multiset(leaf.nodes)
    decreases |leaves|
  {
    var m := |leaves| - 1;
    if i < m {
      StoredUpdate(leaves[..m], i, leaf);
      assert leaves[i := leaf][..m] == leaves[..m][i := leaf];
      AddBoth(Stored(leaves[..m][i := leaf]), multiset(leaves[i].nodes),
              Stored(leaves[..m]), multiset(leaf.nodes), multiset(leaves[m].nodes));
    } else {
      assert leaves[i := leaf][..m] == leaves[..m];
    }
  }

  // ----- Halving a bucket -----

  lemma {:induction false} HalfSound(nodes: seq<RoutingNode>, k: nat, v: bool)
    requires k < ID_BITS
    ensures forall x :: x in Half(nodes, k, v) ==> x in nodes && Bit(x.info.id, k) == v
    ensures |Half(nodes, k, v)| <= |nodes|
    decreases |nodes|
  {
    hide Bit;
    if nodes != [] {
      HalfSound(nodes[..|nodes| - 1], k, v);
    }
  }

  lemma {:induction false} HalfDistinct(nodes: seq<RoutingNode>, k: nat, v: bool)
    requires k < ID_BITS && DistinctIds(nodes)
    ensures DistinctIds(Half(nodes, k, v))
    decreases |nodes|
  {
    hide Bit;
    if nodes != [] {
      var m := |nodes| - 1;
      HalfDistinct(nodes[..m], k, v);
      HalfSound(nodes[..m], k, v);
      var h := Half(nodes[..m], k, v);
      forall j | 0 <= j < |h|
        ensures h[j].info.id != nodes[m].info.id
      {
        assert h[j] in nodes[..m];
      }
    }
  }

  lemma {:induction false} HalvesKeepAll(nodes: seq<RoutingNode>, k: nat)
    requires k < ID_BITS
    ensures multiset(Half(nodes, k, false)) + multiset(Half(nodes, k, true)) == multiset(nodes)
    decreases |nodes|
  {
    if nodes != [] {
      var m := |nodes| - 1;
      HalvesKeepAll(nodes[..m], k);
      assert nodes == nodes[..m] + [nodes[m]];
    }
  }

  lemma SplitStored(t: Table)
    requires Fits(t) && Splits(t) < MAX_SPLITS
    ensures Stored(SplitLast(t).leaves) == Stored(t.leaves)
  {
    hide Half, Stored, Bit;
    var n := Splits(t);
    var r := SplitLast(t).leaves;
    var last := t.leaves[n];
    HalvesKeepAll(last.nodes, n);
    StoredAppend(t.leaves[..n], last);
    assert t.leaves == t.leaves[..n] + [last];
    StoredAppend(r[..n], r[n]);
    StoredAppend(r[..n + 1], r[n + 1]);
    assert r[..n] == t.leaves[..n];
    assert r == r[..n + 1] + [r[n + 1]];
    assert r[..n + 1] == r[..n] + [r[n]];
  }

  lemma HalfInLeaf(local: NodeId, n: nat, nodes: seq<RoutingNode>, v: bool)
    requires n < MAX_SPLITS && AllInLeaf(local, n, n, nodes)
    ensures AllInLeaf(local, n + 1, if v == Bit(local, n) then n + 1 else n, Half(nodes, n, v))
  {
    HalfSound(nodes, n, v);
    forall x | x in Half(nodes, n, v)
      ensures InLeaf(local, n + 1, if v == Bit(local, n) then n + 1 else n, x.info.id) && x.info.id != local
    {
      assert InLeaf(local, n, n, x.info.id);
    }
  }

  /** A split loses no node, puts each in the half it belongs to and keeps the table well formed. */
  lemma SplitKeepsWf(t: Table)
    requires Wf(t) && Splits(t) < MAX_SPLITS
    ensures Wf(SplitLast(t)) && Stored(SplitLast(t).leaves) == Stored(t.leaves)
  {
    var n, r := Splits(t), SplitLast(t);
    SplitStored(t);
    forall i | 0 <= i < |r.leaves|
      ensures LeafOk(r.local, n + 1, i, r.leaves[i])
    {
      if i < n {
        assert r.leaves[i] == t.leaves[i];
        assert LeafOk(t.local, n, i, t.leaves[i]);
      } else {
        HalfLeafOk(t, i == n);
      }
    }
  }

  lemma HalfLeafOk(t: Table, other: bool)
    requires Wf(t) && Splits(t) < MAX_SPLITS
    ensures var n := Splits(t);
            var i := if other then n else n + 1;
            i < |SplitLast(t).leaves| && LeafOk(t.local, n + 1, i, SplitLast(t).leaves[i])
  {
    var n := Splits(t);
    var last := t.leaves[n];
    assert LeafOk(t.local, n, n, last);
    var v := if other then !Bit(t.local, n) else Bit(t.local, n);
    HalfInLeaf(t.local, n, last.nodes, v);
    HalfSound(last.nodes, n, v);
    HalfDistinct(last.nodes, n, v);
  }

  // ----- One bucket -----

  lemma RemoveAtKeeps(nodes: seq<RoutingNode>, k: nat)
    requires k < |nodes|
    ensures multiset(RemoveAt(nodes, k)) == multiset(nodes) - multiset{nodes[k]}
    ensures forall x :: x in RemoveAt(nodes, k) ==> x in nodes
    ensures DistinctIds(nodes) ==> DistinctIds(RemoveAt(nodes, k))
  {
    var r := RemoveAt(nodes, k);
    assert nodes == nodes[..k] + [nodes[k]] + nodes[k + 1..];
    assert forall i :: 0 <= i < |r| ==> r[i] == nodes[if i < k then i else i + 1];
  }

  /** The node that an addition pushes out of a bucket, if any. */
  ghost function PushedOut(nodes: seq<RoutingNode>, id: NodeId): multiset<RoutingNode>
    requires CanAdd(nodes, id)
  {
    if HasId(nodes, id) then multiset{nodes[FirstWithId(nodes, id)]}
    else if |nodes| < BUCKET_K then multiset{}
    else multiset{nodes[0]}
  }

  lemma AfterAddKeeps(nodes: seq<RoutingNode>, node: RoutingNode)
    requires CanAdd(nodes, node.info.id)
    ensures multiset(AfterAdd(nodes, node)) == multiset(nodes) - PushedOut(nodes, node.info.id) + multiset{node}
    ensures PushedOut(nodes, node.info.id) <= multiset(nodes)
    ensures forall x :: x in AfterAdd(nodes, node) ==> x in nodes || x == node
  {
    if HasId(nodes, node.info.id) {
      RemoveAtKeeps(nodes, FirstWithId(nodes, node.info.id));
    } else if |nodes| >= BUCKET_K {
      RemoveAtKeeps(nodes, 0);
      assert RemoveAt(nodes, 0) == nodes[1..];
    }
  }

  lemma AfterAddDistinct(nodes: seq<RoutingNode>, node: RoutingNode)
    requires CanAdd(nodes, node.info.id) && DistinctIds(nodes)
    ensures DistinctIds(AfterAdd(nodes, node))
  {
    if HasId(nodes, node.info.id) {
      var k := FirstWithId(nodes, node.info.id);
      RemoveAtKeeps(nodes, k);
      forall j | 0 <= j < |nodes| - 1
        ensures RemoveAt(nodes, k)[j].info.id != node.info.id
      {
        assert RemoveAt(nodes, k)[j] == if j < k then nodes[j] else nodes[j + 1];
      }
    }
  }

  // ----- Table operations -----

  lemma InsertedLeafOk(local: NodeId, n: nat, i: nat, leaf: Leaf, node: RoutingNode)
    requires i <= n < ID_BITS && LeafOk(local, n, i, leaf)
    requires InLeaf(local, n, i, node.info.id) && node.info.id != local
    requires CanAdd(leaf.nodes, node.info.id)
    ensures LeafOk(local, n, i, leaf.(nodes := AfterAdd(leaf.nodes, node)))
  {
    AfterAddKeeps(leaf.nodes, node);
    if DistinctIds(leaf.nodes) {
      AfterAddDistinct(leaf.nodes, node);
    }
  }

  lemma UpdateLeafOk(t: Table, i: nat, leaf: Leaf, r: Table)
    requires Fits(t) && LeavesOk(t) && i < |t.leaves| && LeafOk(t.local, Splits(t), i, leaf)
    requires r.local == t.local && r.leaves == t.leaves[i := leaf]
    ensures Fits(r) && LeavesOk(r)
  {
  }

  /** The effect of an insertion on the stored nodes. */
  ghost predicate InsertEffect(before: multiset<RoutingNode>, node: RoutingNode, after: multiset<RoutingNode>, added: bool) {
    if added then
      exists out: multiset<RoutingNode> ::
        && |out| <= 1
        && out <= before
        && (forall x :: x in out ==> x.info.id == node.info.id || x.IsBad())
        && after == before - out + multiset{node}
    else
      after == before
  }

  /** The three outcomes of one turn of the split-and-retry loop. */
  lemma InsertUnfold(t: Table, rn: RoutingNode, good: bool)
    requires Fits(t)
    ensures var i := IndexOf(t, rn.info.id);
      Insert(t, rn, good) ==
        if CanAdd(t.leaves[i].nodes, rn.info.id) then (AddAt(t, i, rn), true)
        else if i == Splits(t) < MAX_SPLITS then Insert(SplitLast(t), rn, good)
        else (if good then CacheAt(t, i, rn) else t, false)
  {
  }

  lemma InsertedBy(before: multiset<RoutingNode>, node: RoutingNode, after: multiset<RoutingNode>, out: multiset<RoutingNode>)
    requires |out| <= 1 && out <= before && after == before - out + multiset{node}
    requires forall x :: x in out ==> x.info.id == node.info.id || x.IsBad()
    ensures InsertEffect(before, node, after, true)
  {
  }

  /** A node added to its leaf: the leaves stay in order. */
  lemma AddAtLeaves(t: Table, i: nat, node: RoutingNode)
    requires Fits(t) && LeavesOk(t) && node.info.id != t.local && i == IndexOf(t, node.info.id)
    requires CanAdd(t.leaves[i].nodes, node.info.id)
    ensures Fits(AddAt(t, i, node)) && LeavesOk(AddAt(t, i, node))
  {
    var leaf := t.leaves[i];
    assert LeafOk(t.local, Splits(t), i, leaf);
    LeavesPartition(t.local, Splits(t), node.info.id, i);
    InsertedLeafOk(t.local, Splits(t), i, leaf, node);
    UpdateLeafOk(t, i, leaf.(nodes := AfterAdd(leaf.nodes, node)), AddAt(t, i, node));
  }

  /** What is stored after a node is added to leaf i. */
  lemma AddAtStored(t: Table, i: nat, node: RoutingNode)
    requires i < |t.leaves| && CanAdd(t.leaves[i].nodes, node.info.id)
    ensures var nodes := t.leaves[i].nodes;
      var out := PushedOut(nodes, node.info.id);
      out <= multiset(nodes) <= Stored(t.leaves) && Stored(AddAt(t, i, node).leaves) == Stored(t.leaves) - out + multiset{node}
  {
    var leaf := t.leaves[i];
    var leaf' := leaf.(nodes := AfterAdd(leaf.nodes, node));
    var out := PushedOut(leaf.nodes, node.info.id);
    AfterAddKeeps(leaf.nodes, node);
    StoredUpdate(t.leaves, i, leaf');
    LeafStored(t.leaves, i);
    hide AfterAdd, Stored;
    Exchange(Stored(t.leaves), Stored(AddAt(t, i, node).leaves), multiset(leaf.nodes), out, multiset{node});
  }

  lemma PushedOutSize(nodes: seq<RoutingNode>, id: NodeId)
    requires CanAdd(nodes, id)
    ensures |PushedOut(nodes, id)| == if HasId(nodes, id) || |nodes| >= BUCKET_K then 1 else 0
    ensures forall x :: x in PushedOut(nodes, id) ==> x.info.id == id || x.IsBad()
  {
  }

  lemma ExchangeSize<T>(before: multiset<T>, out: multiset<T>, x: T)
    requires out <= before
    ensures |before - out + multiset{x}| == |before| - |out| + 1
  {
    assert before == before - out + out;
  }

  lemma AddAtEffect(t: Table, i: nat, node: RoutingNode)
    requires i < |t.leaves| && CanAdd(t.leaves[i].nodes, node.info.id)
    ensures InsertEffect(Stored(t.leaves), node, Stored(AddAt(t, i, node).leaves), true)
    ensures |Stored(AddAt(t, i, node).leaves)| ==
      |Stored(t.leaves)| + if HasId(t.leaves[i].nodes, node.info.id) || |t.leaves[i].nodes| >= BUCKET_K then 0 else 1
  {
    var nodes := t.leaves[i].nodes;
    var out := PushedOut(nodes, node.info.id);
    PushedOutSize(nodes, node.info.id);
    hide InsertEffect, AfterAdd, Stored, PushedOut, CanAdd, HasId, AddAt;
    AddAtStored(t, i, node);
    ExchangeSize(Stored(t.leaves), out, node);
    InsertedBy(Stored(t.leaves), node, Stored(AddAt(t, i, node).leaves), out);
  }

  lemma AddAtWf(t: Table, i: nat, node: RoutingNode)
    requires Wf(t) && node.info.id != t.local && i == IndexOf(t, node.info.id)
    requires CanAdd(t.leaves[i].nodes, node.info.id)
    ensures Wf(AddAt(t, i, node))
  {
    AddAtLeaves(t, i, node);
    AddAtEffect(t, i, node);
    hide LeavesOk, InsertEffect, AfterAdd, Stored, LeafIndex, CanAdd, HasId;
  }

  lemma InsertHere(t: Table, node: RoutingNode, good: bool)
    requires Wf(t) && node.info.id != t.local
    requires CanAdd(t.leaves[IndexOf(t, node.info.id)].nodes, node.info.id)
    ensures Insert(t, node, good).1
    ensures Wf(Insert(t, node, good).0)
    ensures InsertEffect(Stored(t.leaves), node, Stored(Insert(t, node, good).0.leaves), true)
  {
    InsertUnfold(t, node, good);
    hide LeavesOk, Insert, InsertEffect, Stored, LeafIndex, CanAdd, AddAt;
    var i := IndexOf(t, node.info.id);
    AddAtWf(t, i, node);
    AddAtEffect(t, i, node);
  }

  lemma CacheHere(t: Table, i: nat, node: RoutingNode, r: Table)
    requires Wf(t) && node.info.id != t.local && i == IndexOf(t, node.info.id)
    requires i < Splits(t) || Splits(t) == MAX_SPLITS
    requires r == CacheAt(t, i, node)
    ensures Wf(r) && Stored(r.leaves) == Stored(t.leaves)
  {
    var leaf' := t.leaves[i].(cache := AfterCache(t.leaves[i].cache, node));
    assert LeafOk(t.local, Splits(t), i, t.leaves[i]);
    LeavesPartition(t.local, Splits(t), node.info.id, i);
    assert LeafOk(t.local, Splits(t), i, leaf');
    UpdateLeafOk(t, i, leaf', r);
    StoredUpdate(t.leaves, i, leaf');
    Cancel(Stored(r.leaves), Stored(t.leaves), multiset(leaf'.nodes));
  }

  lemma {:induction false} InsertKeepsWf(t: Table, node: RoutingNode, good: bool)
    requires Wf(t) && node.info.id != t.local
    ensures Wf(Insert(t, node, good).0)
    ensures InsertEffect(Stored(t.leaves), node, Stored(Insert(t, node, good).0.leaves), Insert(t, node, good).1)
    decreases ID_BITS - |t.leaves|
  {
    InsertUnfold(t, node, good);
    hide LeafOk, Insert, LeafIndex;
    var i := IndexOf(t, node.info.id);
    if CanAdd(t.leaves[i].nodes, node.info.id) {
      InsertHere(t, node, good);
    } else if i == Splits(t) && Splits(t) < MAX_SPLITS {
      SplitKeepsWf(t);
      InsertKeepsWf(SplitLast(t), node, good);
    } else if good {
      CacheHere(t, i, node, Insert(t, node, good).0);
    }
  }

  lemma {:induction false} LeafStored(leaves: seq<Leaf>, i: nat)
    requires i < |leaves|
    ensures multiset(leaves[i].nodes) <= Stored(leaves)
    decreases |leaves|
  {
    var m := |leaves| - 1;
    if i < m {
      LeafStored(leaves[..m], i);
      assert leaves[..m][i] == leaves[i];
    }
  }

  lemma StoredSize(leaves: seq<Leaf>, i: nat, leaf: Leaf)
    requires i < |leaves|
    ensures |Stored(leaves[i := leaf])| == |Stored(leaves)| - |leaves[i].nodes| + |leaf.nodes|
  {
    StoredUpdate(leaves, i, leaf);
    assert |Stored(leaves[i := leaf]) + multiset(leaves[i].nodes)| == |Stored(leaves) + multiset(leaf.nodes)|;
  }

  lemma AfterDropOk(local: NodeId, n: nat, i: nat, leaf: Leaf, k: nat)
    requires i <= n < ID_BITS && LeafOk(local, n, i, leaf) && k < |leaf.nodes|
    ensures LeafOk(local, n, i, AfterDrop(leaf, k))
    ensures |AfterDrop(leaf, k).nodes| == if |leaf.cache| > 0 then |leaf.nodes| else |leaf.nodes| - 1
  {
    RemoveAtKeeps(leaf.nodes, k);
    assert forall x :: x in AfterDrop(leaf, k).cache ==> x in leaf.cache;
  }

  lemma DropKeepsWf(t: Table, id: NodeId)
    requires Wf(t)
    ensures Wf(Drop(t, id))
  {
    var i := IndexOf(t, id);
    var leaf := t.leaves[i];
    if HasId(leaf.nodes, id) {
      var k := FirstWithId(leaf.nodes, id);
      assert LeafOk(t.local, Splits(t), i, leaf);
      AfterDropOk(t.local, Splits(t), i, leaf, k);
      UpdateLeafOk(t, i, AfterDrop(leaf, k), Drop(t, id));
      StoredSize(t.leaves, i, AfterDrop(leaf, k));
    }
  }

  lemma ConditionOk(local: NodeId, n: nat, i: nat, leaf: Leaf, k: nat, c: nat)
    requires i <= n < ID_BITS && LeafOk(local, n, i, leaf) && k < |leaf.nodes|
    ensures LeafOk(local, n, i, leaf.(nodes := leaf.nodes[k := leaf.nodes[k].(condition := c)]))
  {
    var nodes' := leaf.nodes[k := leaf.nodes[k].(condition := c)];
    forall x | x in nodes'
      ensures InLeaf(local, n, i, x.info.id) && x.info.id != local
    {
      var j :| 0 <= j < |nodes'| && nodes'[j] == x;
      assert leaf.nodes[j] in leaf.nodes && x.info == leaf.nodes[j].info;
    }
  }

  lemma SetConditionKeepsWf(t: Table, info: NodeInfo, c: nat)
    requires Wf(t)
    ensures Wf(SetCondition(t, info, c))
  {
    var i := IndexOf(t, info.id);
    var leaf := t.leaves[i];
    var k := FirstAt(leaf.nodes, info);
    if k < |leaf.nodes| {
      var leaf' := leaf.(nodes := leaf.nodes[k := leaf.nodes[k].(condition := c)]);
      assert LeafOk(t.local, Splits(t), i, leaf);
      ConditionOk(t.local, Splits(t), i, leaf, k, c);
      UpdateLeafOk(t, i, leaf', SetCondition(t, info, c));
      StoredSize(t.leaves, i, leaf');
    }
  }

  lemma AddKeepsWf(t: Table, info: NodeInfo, good: bool)
    requires Wf(t)
    ensures Wf(Add(t, info, good).0)
  {
    if info.id != t.local {
      InsertKeepsWf(t, NewNode(info), good);
    }
  }

  lemma DropIfKeepsWf(t: Table, b: bool, id: NodeId)
    requires Wf(t)
    ensures Wf(DropIf(t, b, id))
  {
    DropKeepsWf(t, id);
  }

  lemma ReconditionKeepsWf(t: Table, info: NodeInfo, c: nat)
    requires Wf(t)
    ensures Wf(Recondition(t, info, c))
  {
    SetConditionKeepsWf(t, info, c);
    DropIfKeepsWf(SetCondition(t, info, c), c >= BAD_CONDITION, info.id);
  }

  lemma TimeoutUnfold(t: Table, info: NodeInfo)
    requires Fits(t)
    ensures OnTimeout(t, info) ==
      match ConditionOf(t, info)
      case None => t
      case Some(c) => Recondition(t, info, c + 1)
  {
    hide ConditionOf, Recondition;
  }

  lemma TimeoutKeepsWf(t: Table, info: NodeInfo)
    requires Fits(t) && Wf(t)
    ensures Wf(OnTimeout(t, info))
  {
    hide Wf, OnTimeout, ConditionOf, Recondition;
    TimeoutUnfold(t, info);
    match ConditionOf(t, info)
    case None =>
    case Some(c) => ReconditionKeepsWf(t, info, c + 1);
  }

  lemma BatchKeepsWf(t: Table, info: NodeInfo, removeId: NodeId)
    requires Fits(t) && Wf(t)
    ensures Wf(BatchUpdate(t, info, removeId))
  {
    hide Wf, Add;
    AddKeepsWf(t, info, true);
    DropIfKeepsWf(Add(t, info, true).0, removeId != Lowest(), removeId);
  }

  lemma StepKeepsWf(t: Table, op: Op)
    requires Wf(t)
    ensures Wf(Step(t, op))
  {
    match op
    case OpAdd(info, good) => AddKeepsWf(t, info, good);
    case OpRemove(id) => DropKeepsWf(t, id);
    case OpMarkGood(info) => SetConditionKeepsWf(t, info, 0);
    case OpMarkBad(info) => ReconditionKeepsWf(t, info, BAD_CONDITION);
    case OpTimeout(info) => TimeoutKeepsWf(t, info);
    case OpBatch(info, removeId) => BatchKeepsWf(t, info, removeId);
  }

  /**
    After any run: each stored or cached node is in the one leaf whose range
    holds it, no bucket is over capacity, `numBuck` counts the leaves, and the
    stored nodes are `nodeCount` plus promotions minus replacements of bad nodes.
   */
  lemma {:induction false} RunWf(local: NodeId, ops: seq<Op>)
    ensures Wf(Run(local, ops))
  {
    if ops == [] {
      assert Stored(NewTable(local).leaves) == multiset{};
    } else {
      RunWf(local, ops[..|ops| - 1]);
      StepKeepsWf(Run(local, ops[..|ops| - 1]), ops[|ops| - 1]);
    }
  }
}
