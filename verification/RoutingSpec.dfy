/**
  What the routing tree means, on values: the leaf buckets listed by the first
  bit in which they differ from the local identifier, the bucket that still
  holds the local identifier last, and every table operation as a function.
 */
module RoutingSpec {
  import opened Bytes
  import opened NodeIds

  const BUCKET_K: nat := 8
  const BUCKET_CACHE: nat := 2
  const BAD_CONDITION: nat := 5
  const MAX_SPLITS: nat := ID_BITS - 1

  datatype NodeInfo = NodeInfo(id: NodeId, ip: seq<byte>, port: nat)

  datatype RoutingNode = RoutingNode(info: NodeInfo, condition: nat) {
    predicate IsBad() {
      condition >= BAD_CONDITION
    }
  }

  datatype Leaf = Leaf(nodes: seq<RoutingNode>, cache: seq<RoutingNode>)

  /**
    `promoted` counts dropped nodes whose place a cached node took, `replaced`
    counts additions that pushed out a bad node: the two events in which
    `nodeCount` and the number of stored nodes move apart.
   */
  datatype Table = Table(
    local: NodeId,
    leaves: seq<Leaf>,
    numBuck: int,
    nodeCount: int,
    promoted: nat,
    replaced: nat)

  function NewNode(info: NodeInfo): RoutingNode {
    RoutingNode(info, 0)
  }

  function NewTable(local: NodeId): Table {
    Table(local, [Leaf([], [])], 1, 0, 0, 0)
  }

  // ----- Which leaf holds an identifier -----

  /** The first bit from k on, but before n, in which the identifiers differ; n if none. */
  function FirstDiff(a: NodeId, b: NodeId, k: nat, n: nat): (d: nat)
    requires k <= n <= ID_BITS
    ensures k <= d <= n
    ensures forall m :: k <= m < d ==> Bit(a, m) == Bit(b, m)
    ensures d < n ==> Bit(a, d) != Bit(b, d)
    decreases n - k
  {
    if k == n || Bit(a, k) != Bit(b, k) then k else FirstDiff(a, b, k + 1, n)
  }

  /** Whether identifier `id` belongs to leaf i of a tree that was split n times. */
  predicate InLeaf(local: NodeId, n: nat, i: nat, id: NodeId)
    requires i <= n <= ID_BITS
  {
    SamePrefix(id, local, i) && (i < n ==> Bit(id, i) != Bit(local, i))
  }

  function LeafIndex(local: NodeId, n: nat, id: NodeId): (i: nat)
    requires n <= ID_BITS
    ensures i <= n
  {
    FirstDiff(local, id, 0, n)
  }

  /** The leaves partition the identifier space: each identifier is in exactly one. */
  lemma LeavesPartition(local: NodeId, n: nat, id: NodeId, i: nat)
    requires i <= n <= ID_BITS
    ensures InLeaf(local, n, i, id) <==> i == LeafIndex(local, n, id)
  {
    var d := LeafIndex(local, n, id);
    if i < d {
      assert Bit(local, i) == Bit(id, i);
    } else if d < i {
      assert Bit(local, d) != Bit(id, d);
    }
  }

  /** An identifier of the leaf and its prefix: the range of leaf i as the buckets store it. */
  function Anchor(local: NodeId, n: nat, i: nat): NodeId
    requires i <= n < ID_BITS
  {
    if i < n then FlipBit(local, i) else local
  }

  function LeafPrefix(n: nat, i: nat): nat
    requires i <= n < ID_BITS
  {
    if i < n then i + 1 else n
  }

  lemma LeafIsRange(local: NodeId, n: nat, i: nat, id: NodeId)
    requires i <= n < ID_BITS
    ensures InLeaf(local, n, i, id) <==> SamePrefix(id, Anchor(local, n, i), LeafPrefix(n, i))
  {
    if i < n {
      FlipKeepsPrefix(local, i);
      var a := FlipBit(local, i);
      if SamePrefix(id, a, i + 1) {
        assert Bit(id, i) == Bit(a, i);
        assert forall k :: 0 <= k < i ==> Bit(id, k) == Bit(a, k) == Bit(local, k);
      }
      if InLeaf(local, n, i, id) {
        assert forall k :: 0 <= k < i ==> Bit(id, k) == Bit(local, k) == Bit(a, k);
      }
    }
  }

  // ----- One bucket -----

  function FirstWithId(nodes: seq<RoutingNode>, id: NodeId): (k: nat)
    ensures k <= |nodes|
    ensures k < |nodes| ==> nodes[k].info.id == id
    ensures forall j :: 0 <= j < k ==> nodes[j].info.id != id
  {
    if nodes == [] || nodes[0].info.id == id then 0 else 1 + FirstWithId(nodes[1..], id)
  }

  predicate HasId(nodes: seq<RoutingNode>, id: NodeId) {
    FirstWithId(nodes, id) < |nodes|
  }

  function RemoveAt<T>(s: seq<T>, k: nat): seq<T>
    requires k < |s|
  {
    s[..k] + s[k + 1..]
  }

  predicate CanAdd(nodes: seq<RoutingNode>, id: NodeId) {
    HasId(nodes, id) || |nodes| < BUCKET_K || nodes[0].IsBad()
  }

  function AfterAdd(nodes: seq<RoutingNode>, node: RoutingNode): seq<RoutingNode>
    requires CanAdd(nodes, node.info.id)
  {
    if HasId(nodes, node.info.id) then RemoveAt(nodes, FirstWithId(nodes, node.info.id)) + [node]
    else if |nodes| < BUCKET_K then nodes + [node]
    else nodes[1..] + [node]
  }

  function AfterCache(cache: seq<RoutingNode>, node: RoutingNode): seq<RoutingNode> {
    ([node] + cache)[..Min(|cache| + 1, BUCKET_CACHE)]
  }

  function AfterDrop(leaf: Leaf, k: nat): Leaf
    requires k < |leaf.nodes|
  {
    if |leaf.cache| > 0
    then Leaf(RemoveAt(leaf.nodes, k) + [leaf.cache[0]], leaf.cache[1..])
    else Leaf(RemoveAt(leaf.nodes, k), leaf.cache)
  }

  /** The nodes whose bit k is v, in order. */
  function Half(nodes: seq<RoutingNode>, k: nat, v: bool): seq<RoutingNode>
    requires k < ID_BITS
  {
    if nodes == [] then []
    else
      var rest := Half(nodes[..|nodes| - 1], k, v);
      if Bit(nodes[|nodes| - 1].info.id, k) == v then rest + [nodes[|nodes| - 1]] else rest
  }

  // ----- Table operations -----

  ghost predicate Fits(t: Table) {
    1 <= |t.leaves| <= ID_BITS
  }

  function Splits(t: Table): nat
    requires Fits(t)
  {
    |t.leaves| - 1
  }

  function IndexOf(t: Table, id: NodeId): (i: nat)
    requires Fits(t)
    ensures i < |t.leaves|
  {
    LeafIndex(t.local, Splits(t), id)
  }

  /** Splits the last bucket; the upper half keeps the cache. */
  function SplitLast(t: Table): (r: Table)
    requires Fits(t) && Splits(t) < MAX_SPLITS
    ensures Fits(r) && |r.leaves| == |t.leaves| + 1 && r.local == t.local
  {
    var n := Splits(t);
    var last := t.leaves[n];
    var v := Bit(t.local, n);
    t.(leaves := t.leaves[..n] + [
         Leaf(Half(last.nodes, n, !v), if v then [] else last.cache),
         Leaf(Half(last.nodes, n, v), if v then last.cache else [])],
       numBuck := t.numBuck + 1)
  }

  function AddAt(t: Table, i: nat, node: RoutingNode): Table
    requires i < |t.leaves| && CanAdd(t.leaves[i].nodes, node.info.id)
  {
    var leaf := t.leaves[i];
    var known := HasId(leaf.nodes, node.info.id);
    t.(leaves := t.leaves[i := leaf.(nodes := AfterAdd(leaf.nodes, node))],
       nodeCount := if known then t.nodeCount else t.nodeCount + 1,
       replaced := if known || |leaf.nodes| < BUCKET_K then t.replaced else t.replaced + 1)
  }

  function CacheAt(t: Table, i: nat, node: RoutingNode): Table
    requires i < |t.leaves|
  {
    t.(leaves := t.leaves[i := t.leaves[i].(cache := AfterCache(t.leaves[i].cache, node))])
  }

  function DropAt(t: Table, i: nat, id: NodeId): Table
    requires i < |t.leaves| && HasId(t.leaves[i].nodes, id)
  {
    var leaf := t.leaves[i];
    t.(leaves := t.leaves[i := AfterDrop(leaf, FirstWithId(leaf.nodes, id))],
       nodeCount := t.nodeCount - 1,
       promoted := if |leaf.cache| > 0 then t.promoted + 1 else t.promoted)
  }

  /** The split-and-retry loop: each turn lengthens the local prefix by one bit. */
  function Insert(t: Table, node: RoutingNode, good: bool): (r: (Table, bool))
    requires Fits(t)
    ensures Fits(r.0) && r.0.local == t.local
    decreases ID_BITS - |t.leaves|
  {
    var i := IndexOf(t, node.info.id);
    var leaf := t.leaves[i];
    if CanAdd(leaf.nodes, node.info.id) then
      (AddAt(t, i, node), true)
    else if i == Splits(t) && Splits(t) < MAX_SPLITS then
      Insert(SplitLast(t), node, good)
    else if good then
      (CacheAt(t, i, node), false)
    else
      (t, false)
  }

  function Add(t: Table, info: NodeInfo, good: bool): (r: (Table, bool))
    requires Fits(t)
    ensures Fits(r.0) && r.0.local == t.local
  {
    if info.id == t.local then (t, false) else Insert(t, NewNode(info), good)
  }

  function Drop(t: Table, id: NodeId): (r: Table)
    requires Fits(t)
    ensures Fits(r) && r.local == t.local
  {
    var i := IndexOf(t, id);
    if HasId(t.leaves[i].nodes, id) then DropAt(t, i, id) else t
  }

  function DropIf(t: Table, b: bool, id: NodeId): (r: Table)
    requires Fits(t)
    ensures Fits(r) && r.local == t.local
  {
    if b then Drop(t, id) else t
  }

  /** The first node with this identifier and this address; |nodes| if none. */
  function FirstAt(nodes: seq<RoutingNode>, info: NodeInfo): (k: nat)
    ensures k <= |nodes|
    ensures k < |nodes| ==> nodes[k].info == info
    ensures forall j :: 0 <= j < k ==> nodes[j].info != info
  {
    if nodes == [] || nodes[0].info == info then 0 else 1 + FirstAt(nodes[1..], info)
  }

  function SetCondition(t: Table, info: NodeInfo, c: nat): (r: Table)
    requires Fits(t)
    ensures Fits(r) && r.local == t.local
  {
    var i := IndexOf(t, info.id);
    var nodes := t.leaves[i].nodes;
    var k := FirstAt(nodes, info);
    if k == |nodes| then t
    else t.(leaves := t.leaves[i := t.leaves[i].(nodes := nodes[k := nodes[k].(condition := c)])])
  }

  function ConditionOf(t: Table, info: NodeInfo): Option<nat>
    requires Fits(t)
  {
    var nodes := t.leaves[IndexOf(t, info.id)].nodes;
    var k := FirstAt(nodes, info);
    if k == |nodes| then None else Some(nodes[k].condition)
  }

  function MarkGood(t: Table, info: NodeInfo): (r: Table)
    requires Fits(t)
    ensures Fits(r) && r.local == t.local
  {
    SetCondition(t, info, 0)
  }

  function MarkBadAndRemove(t: Table, info: NodeInfo): (r: Table)
    requires Fits(t)
    ensures Fits(r) && r.local == t.local
  {
    if ConditionOf(t, info).None? then t
    else Recondition(t, info, BAD_CONDITION)
  }

  /** The node's condition becomes c; a bad node is dropped. */
  function Recondition(t: Table, info: NodeInfo, c: nat): (r: Table)
    requires Fits(t)
    ensures Fits(r) && r.local == t.local
  {
    DropIf(SetCondition(t, info, c), c >= BAD_CONDITION, info.id)
  }

  function OnTimeout(t: Table, info: NodeInfo): (r: Table)
    requires Fits(t)
    ensures Fits(r) && r.local == t.local
  {
    if ConditionOf(t, info).None? then t
    else Recondition(t, info, ConditionOf(t, info).value + 1)
  }

  function BatchUpdate(t: Table, good: NodeInfo, removeId: NodeId): (r: Table)
    requires Fits(t)
    ensures Fits(r) && r.local == t.local
  {
    DropIf(Add(t, good, true).0, removeId != Lowest(), removeId)
  }

  datatype Op =
    | OpAdd(info: NodeInfo, good: bool)
    | OpRemove(id: NodeId)
    | OpMarkGood(info: NodeInfo)
    | OpMarkBad(info: NodeInfo)
    | OpTimeout(info: NodeInfo)
    | OpBatch(info: NodeInfo, removeId: NodeId)

  function Step(t: Table, op: Op): (r: Table)
    requires Fits(t)
    ensures Fits(r) && r.local == t.local
  {
    match op
    case OpAdd(info, good) => Add(t, info, good).0
    case OpRemove(id) => Drop(t, id)
    case OpMarkGood(info) => MarkGood(t, info)
    case OpMarkBad(info) => MarkBadAndRemove(t, info)
    case OpTimeout(info) => OnTimeout(t, info)
    case OpBatch(info, removeId) => BatchUpdate(t, info, removeId)
  }

  function Run(local: NodeId, ops: seq<Op>): (r: Table)
    ensures Fits(r) && r.local == local
  {
    if ops == [] then NewTable(local)
    else Step(Run(local, ops[..|ops| - 1]), ops[|ops| - 1])
  }
}
