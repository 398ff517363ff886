/**
  The routing table as the program keeps it: a tree of nodes linked by parent
  and child pointers whose leaves own buckets that are changed in place.
 */
module RoutingTree {
  import opened Bytes
  import Lists
  import opened NodeIds
  import opened RoutingSpec
  import opened RoutingInvariants
  import opened RoutingClosest

  /** The two loops of a range test: each stops at the first byte that decides it. */
  method InRange(minID: NodeId, id: NodeId, maxID: NodeId) returns (b: bool)
    ensures b <==> Between(minID, id, maxID)
  {
    var i := 0;
    while i < ID_BYTES
      invariant 0 <= i <= ID_BYTES
      invariant LexLe(minID, id, 0) <==> LexLe(minID, id, i)
    {
      if id[i] < minID[i] {
        return false;
      }
      if id[i] > minID[i] {
        break;
      }
      i := i + 1;
    }
    i := 0;
    while i < ID_BYTES
      invariant 0 <= i <= ID_BYTES
      invariant LexLe(id, maxID, 0) <==> LexLe(id, maxID, i)
    {
      if maxID[i] < id[i] {
        return false;
      }
      if maxID[i] > id[i] {
        break;
      }
      i := i + 1;
    }
    b := true;
  }

  lemma FirstDropped(leaf: Leaf, id: NodeId, k: nat)
    requires k < |leaf.nodes| && leaf.nodes[k].info.id == id && forall j :: 0 <= j < k ==> leaf.nodes[j].info.id != id
    ensures FirstWithId(leaf.nodes, id) == k
    ensures var front := leaf.cache[..Min(1, |leaf.cache|)];
            && AfterDrop(leaf, k) == Leaf(leaf.nodes[..k] + leaf.nodes[k + 1..] + front, leaf.cache[|front|..])
            && front == if leaf.cache == [] then [] else [leaf.cache[0]]
  {
    if leaf.cache == [] {
      assert leaf.nodes[..k] + leaf.nodes[k + 1..] + [] == leaf.nodes[..k] + leaf.nodes[k + 1..];
    }
  }

  class Bucket {
    var prefixLen: nat
    var minID: NodeId
    var maxID: NodeId
    const localID: NodeId
    var nodes: seq<RoutingNode>
    var cache: seq<RoutingNode>

    constructor (prefixLen: nat, maxID: NodeId, minID: NodeId, localID: NodeId)
      ensures this.prefixLen == prefixLen && this.minID == minID && this.maxID == maxID && this.localID == localID
      ensures nodes == [] && cache == []
    {
      this.prefixLen := prefixLen;
      this.minID := minID;
      this.maxID := maxID;
      this.localID := localID;
      nodes := [];
      cache := [];
    }

    /** The bucket's bounds are those of the aligned range of `a` with its prefix length. */
    ghost predicate Covers(a: NodeId)
      reads this
    {
      minID == PrefixMin(a, prefixLen) && maxID == PrefixMax(a, prefixLen)
    }

    /** The bucket of the local identifier before split n, fit to be split unless the prefix is too long. */
    ghost predicate Splittable(local: NodeId, n: nat)
      reads this
    {
      && prefixLen == n < ID_BITS && Covers(local) && localID == local
      && |nodes| <= BUCKET_K
      && (n < MAX_SPLITS ==> DistinctIds(nodes) && cache == [])
      && (forall x :: x in nodes ==> SamePrefix(x.info.id, local, n))
    }

    method SplitAllowed() returns (b: bool)
      ensures b <==> prefixLen < MAX_SPLITS && Between(minID, localID, maxID)
    {
      if prefixLen < MAX_SPLITS {
        b := InRange(minID, localID, maxID);
      } else {
        b := false;
      }
    }

    method Contains(id: NodeId) returns (b: bool)
      ensures b <==> HasId(nodes, id)
    {
      var i := 0;
      while i < |nodes|
        invariant 0 <= i <= |nodes|
        invariant forall j :: 0 <= j < i ==> nodes[j].info.id != id
      {
        if nodes[i].info.id == id {
          return true;
        }
        i := i + 1;
      }
      b := false;
    }

    method AddNode(node: RoutingNode) returns (ok: bool)
      modifies this`nodes
      ensures ok <==> CanAdd(old(nodes), node.info.id)
      ensures nodes == if ok then AfterAdd(old(nodes), node) else old(nodes)
    {
      var i := 0;
      while i < |nodes|
        invariant 0 <= i <= |nodes| && nodes == old(nodes)
        invariant forall j :: 0 <= j < i ==> nodes[j].info.id != node.info.id
      {
        if nodes[i].info.id == node.info.id {
          nodes := nodes[..i] + nodes[i + 1..];
          nodes := nodes + [node];
          return true;
        }
        i := i + 1;
      }
      if |nodes| < BUCKET_K {
        nodes := nodes + [node];
        return true;
      }
      if nodes[0].IsBad() {
        nodes := nodes[1..];
        nodes := nodes + [node];
        return true;
      }
      ok := false;
    }

    method CacheNode(node: RoutingNode)
      modifies this`cache
      ensures cache == AfterCache(old(cache), node)
    {
      cache := [node] + cache;
      if |cache| > BUCKET_CACHE {
        cache := cache[..BUCKET_CACHE];
      }
    }

    method DropNode(id: NodeId) returns (ok: bool)
      modifies this`nodes, this`cache
      ensures ok <==> HasId(old(nodes), id)
      ensures Leaf(nodes, cache) ==
        if ok then AfterDrop(Leaf(old(nodes), old(cache)), FirstWithId(old(nodes), id))
        else Leaf(old(nodes), old(cache))
      ensures ok ==> exists k :: 0 <= k < |old(nodes)| && old(nodes)[k].info.id == id
                       && (forall j :: 0 <= j < k ==> old(nodes)[j].info.id != id)
                       && nodes == old(nodes)[..k] + old(nodes)[k + 1..] + old(cache)[..Min(1, |old(cache)|)]
      ensures ok ==> cache == old(cache)[Min(1, |old(cache)|)..]
    {
      var i := 0;
      while i < |nodes|
        invariant 0 <= i <= |nodes| && nodes == old(nodes) && cache == old(cache)
        invariant forall j :: 0 <= j < i ==> nodes[j].info.id != id
      {
        if nodes[i].info.id == id {
          FirstDropped(Leaf(nodes, cache), id, i);
          hide AfterDrop, FirstWithId;
          nodes := nodes[..i] + nodes[i + 1..];
          if |cache| > 0 {
            nodes := nodes + [cache[0]];
            cache := cache[1..];
          }
          return true;
        }
        i := i + 1;
      }
      ok := false;
    }

    /** A random identifier whose leading bytes are those of the lower bound: always one of this bucket's own. */
    method RandomNodeID(random: NodeId, ghost a: NodeId) returns (id: NodeId)
      requires prefixLen < ID_BITS && Covers(a)
      ensures Between(minID, id, maxID)
      ensures forall j :: 0 <= j < |id| ==> id[j] == if 8 * j < prefixLen then minID[j] else random[j]
    {
      RangeIsPrefix(random, a, prefixLen);
      if prefixLen == 0 {
        return random;
      }
      var lastByteIdx := (prefixLen - 1) / 8;
      id := minID[..lastByteIdx + 1] + random[lastByteIdx + 1..];
      RangeIsPrefix(id, a, prefixLen);
      RangeIsPrefix(minID, a, prefixLen);
      MinInRange(a, prefixLen);
      forall k | 0 <= k < prefixLen
        ensures Bit(id, k) == Bit(a, k)
      {
        assert Bit(id, k) == Bit(minID, k);
      }
    }

    /** The position of the node with this identifier and address; the number of nodes if none. */
    method FindNode(info: NodeInfo) returns (k: nat)
      ensures k == FirstAt(nodes, info)
    {
      k := 0;
      while k < |nodes|
        invariant 0 <= k <= |nodes|
        invariant forall j :: 0 <= j < k ==> nodes[j].info != info
      {
        if nodes[k].info == info {
          return;
        }
        k := k + 1;
      }
    }

    method GoodNodes() returns (out: seq<RoutingNode>)
      ensures out == Good(nodes)
    {
      out := [];
      var i := 0;
      while i < |nodes|
        invariant 0 <= i <= |nodes| && out == Good(nodes[..i])
      {
        assert nodes[..i + 1][..i] == nodes[..i];
        if !nodes[i].IsBad() {
          out := out + [nodes[i]];
        }
        i := i + 1;
      }
      assert nodes[..i] == nodes;
    }

    /**
      Moves the nodes of the lower half to `r`. They go through AddNode, which
      would merge equal identifiers: only buckets without any are ever split.
     */
    method MoveLower(r: Bucket, ghost a: NodeId, ghost p: nat)
      requires r != this && r.nodes == [] && p < ID_BITS
      requires r.minID == PrefixMin(WithBit(a, p, false), p + 1) && r.maxID == PrefixMax(WithBit(a, p, false), p + 1)
      requires |nodes| <= BUCKET_K && DistinctIds(nodes)
      requires forall x :: x in nodes ==> SamePrefix(x.info.id, a, p)
      modifies this`nodes, r`nodes
      ensures r.nodes == Half(old(nodes), p, false)
      ensures nodes == Half(old(nodes), p, true)
    {
      var kept := [];
      var i := 0;
      while i < |nodes|
        invariant 0 <= i <= |nodes| && nodes == old(nodes)
        invariant r.nodes == Half(nodes[..i], p, false)
        invariant kept == Half(nodes[..i], p, true)
      {
        var lower := InRange(r.minID, nodes[i].info.id, r.maxID);
        assert lower <==> !Bit(nodes[i].info.id, p) by {
          assert nodes[i] in nodes;
          InLowerHalf(nodes[i].info.id, a, p);
        }
        assert nodes[..i + 1][..i] == nodes[..i];
        if lower {
          MovedFits(nodes, i, p);
          var ok := r.AddNode(nodes[i]);
        } else {
          kept := kept + [nodes[i]];
        }
        i := i + 1;
      }
      assert nodes[..i] == nodes;
      nodes := kept;
    }

    /** The lower half becomes a new bucket, this bucket keeps the upper half and the cache. */
    method Split(ghost a: NodeId) returns (r: Bucket)
      requires prefixLen < MAX_SPLITS && Covers(a)
      requires |nodes| <= BUCKET_K && DistinctIds(nodes)
      requires forall x :: x in nodes ==> SamePrefix(x.info.id, a, prefixLen)
      modifies this`minID, this`prefixLen, this`nodes
      ensures fresh(r) && r.localID == localID
      ensures prefixLen == r.prefixLen == old(prefixLen) + 1
      ensures r.Covers(WithBit(a, old(prefixLen), false)) && Covers(WithBit(a, old(prefixLen), true))
      ensures r.nodes == Half(old(nodes), old(prefixLen), false) && r.cache == []
      ensures nodes == Half(old(nodes), old(prefixLen), true)
    {
      ghost var p := prefixLen;
      SplitMin(a, p);
      SplitMax(a, p);
      var rMax := FlipBit(maxID, prefixLen);
      var rMin := minID;
      minID := FlipBit(minID, prefixLen);
      prefixLen := prefixLen + 1;
      r := new Bucket(prefixLen, rMax, rMin, localID);
      MoveLower(r, a, p);
    }
  }

  lemma LowerHalf(a: NodeId, p: nat)
    requires p < ID_BITS
    ensures !Bit(WithBit(a, p, false), p) && SamePrefix(WithBit(a, p, false), a, p)
  {
    FlipKeepsPrefix(a, p);
  }

  lemma InLowerHalf(id: NodeId, a: NodeId, p: nat)
    requires p < ID_BITS && SamePrefix(id, a, p)
    ensures Between(PrefixMin(WithBit(a, p, false), p + 1), id, PrefixMax(WithBit(a, p, false), p + 1)) <==> !Bit(id, p)
  {
    hide Bit, WithBit, PrefixMin, PrefixMax, LexLe, Between;
    var z := WithBit(a, p, false);
    RangeIsPrefix(id, z, p + 1);
    LowerHalf(a, p);
    assert forall k :: 0 <= k < p ==> Bit(id, k) == Bit(a, k) == Bit(z, k);
  }

  lemma MovedFits(nodes: seq<RoutingNode>, i: nat, p: nat)
    requires p < ID_BITS && i < |nodes| <= BUCKET_K && DistinctIds(nodes)
    ensures !HasId(Half(nodes[..i], p, false), nodes[i].info.id)
    ensures |Half(nodes[..i], p, false)| < BUCKET_K
  {
    HalfSound(nodes[..i], p, false);
  }

  class TreeNode {
    var parent: TreeNode?
    var left: TreeNode?
    var right: TreeNode?
    var b: Bucket?
    var minID: NodeId
    var maxID: NodeId

    constructor (b: Bucket)
      ensures this.b == b && minID == b.minID && maxID == b.maxID
      ensures parent == null && left == null && right == null
    {
      this.b := b;
      minID := b.minID;
      maxID := b.maxID;
      parent, left, right := null, null, null;
    }

    /** The child to descend to. */
    method Dig(id: NodeId) returns (child: TreeNode)
      requires left != null && right != null
      ensures child == if Between(left.minID, id, left.maxID) then left else right
    {
      var lower := InRange(left.minID, id, left.maxID);
      child := if lower then left else right;
    }

    method Split(ghost a: NodeId)
      requires b != null && b.prefixLen < MAX_SPLITS && b.Covers(a)
      requires |b.nodes| <= BUCKET_K && DistinctIds(b.nodes)
      requires forall x :: x in b.nodes ==> SamePrefix(x.info.id, a, b.prefixLen)
      modifies this`left, this`right, this`b, this`minID, this`maxID, b`minID, b`prefixLen, b`nodes
      ensures b == null && left != null && right != null && fresh(left) && fresh(right) && left != right
      ensures left.parent == this == right.parent
      ensures left.left == left.right == null && right.left == right.right == null
      ensures left.b != null && fresh(left.b) && right.b == old(b)
      ensures left.b.localID == old(b).localID
      ensures left.b.prefixLen == right.b.prefixLen == old(b.prefixLen) + 1
      ensures left.b.Covers(WithBit(a, old(b.prefixLen), false)) && right.b.Covers(WithBit(a, old(b.prefixLen), true))
      ensures left.minID == left.b.minID && left.maxID == left.b.maxID
      ensures right.minID == right.b.minID && right.maxID == right.b.maxID
      ensures minID == left.minID && maxID == right.maxID
      ensures left.b.nodes == Half(old(b.nodes), old(b.prefixLen), false) && left.b.cache == []
      ensures right.b.nodes == Half(old(b.nodes), old(b.prefixLen), true)
    {
      var upper := b;
      var rb := b.Split(a);
      left := new TreeNode(rb);
      right := new TreeNode(upper);
      b := null;
      left.parent := this;
      right.parent := this;
      minID := left.minID;
      maxID := right.maxID;
    }
  }

  // ----- The heap as values -----

  datatype NodeView = NodeView(
    parent: TreeNode?, left: TreeNode?, right: TreeNode?, b: Bucket?, minID: NodeId, maxID: NodeId)

  datatype RangeView = RangeView(prefixLen: nat, minID: NodeId, maxID: NodeId, localID: NodeId)

  ghost function ViewOf(n: TreeNode): NodeView
    reads n
  {
    NodeView(n.parent, n.left, n.right, n.b, n.minID, n.maxID)
  }

  ghost function RangeOf(b: Bucket): RangeView
    reads b
  {
    RangeView(b.prefixLen, b.minID, b.maxID, b.localID)
  }

  ghost function LeafOf(b: Bucket): Leaf
    reads b
  {
    Leaf(b.nodes, b.cache)
  }

  ghost function NodesOf(ns: seq<TreeNode>): (views: seq<NodeView>)
    reads ns
  {
    seq(|ns|, i requires 0 <= i < |ns| reads ns => ViewOf(ns[i]))
  }

  ghost function RangesOf(bs: seq<Bucket>): (views: seq<RangeView>)
    reads bs
  {
    seq(|bs|, i requires 0 <= i < |bs| reads bs => RangeOf(bs[i]))
  }

  ghost function LeavesOf(bs: seq<Bucket>): (leaves: seq<Leaf>)
    reads bs
  {
    seq(|bs|, i requires 0 <= i < |bs| reads bs => LeafOf(bs[i]))
  }

  /**
    `spine` lists the tree nodes that hold the local identifier, root first;
    `sides` their other children, every one a leaf; `buckets` the buckets of the
    leaves, that of the last spine node last. The other fields are what those
    objects contain.
   */
  datatype TreeView = TreeView(
    local: NodeId,
    spine: seq<TreeNode>,
    sides: seq<TreeNode>,
    buckets: seq<Bucket>,
    spineNodes: seq<NodeView>,
    sideNodes: seq<NodeView>,
    ranges: seq<RangeView>)
  {
    ghost predicate Sized() {
      && |sides| < ID_BITS
      && |spine| == |buckets| == |sides| + 1
      && |spineNodes| == |ranges| == |spine|
      && |sideNodes| == |sides|
    }

    /** Spine node i is internal; leaf i and spine node i + 1 are its children. */
    ghost predicate Linked(i: nat)
      requires Sized() && i < |sides|
    {
      && spineNodes[i].b == null
      && spineNodes[i + 1].parent == spine[i]
      && sideNodes[i].parent == spine[i]
      && (if Bit(local, i)
          then spineNodes[i].left == sides[i] && spineNodes[i].right == spine[i + 1]
          else spineNodes[i].left == spine[i + 1] && spineNodes[i].right == sides[i])
    }

    ghost function LeafNode(i: nat): TreeNode
      requires Sized() && i <= |sides|
    {
      if i < |sides| then sides[i] else spine[i]
    }

    ghost predicate LeafBucket(i: nat)
      requires Sized() && i <= |sides|
    {
      var p, a := LeafPrefix(|sides|, i), Anchor(local, |sides|, i);
      && (if i < |sides| then sideNodes[i] else spineNodes[i]).b == buckets[i]
      && ranges[i] == RangeView(p, PrefixMin(a, p), PrefixMax(a, p), local)
    }

    ghost predicate SpineRange(i: nat)
      requires Sized() && i <= |sides|
    {
      spineNodes[i].minID == PrefixMin(local, i) && spineNodes[i].maxID == PrefixMax(local, i)
    }

    ghost predicate SideRange(i: nat)
      requires Sized() && i < |sides|
    {
      sideNodes[i].minID == ranges[i].minID && sideNodes[i].maxID == ranges[i].maxID
    }

    /** The tree is a path along the local identifier with a leaf hanging off every node of it. */
    ghost predicate Caterpillar() {
      && Sized()
      && spineNodes[0].parent == null
      && Lists.Distinct(spine) && Lists.Distinct(sides) && Lists.Distinct(buckets)
      && (forall i, j :: 0 <= i < |spine| && 0 <= j < |sides| ==> spine[i] != sides[j])
      && (forall i :: 0 <= i < |sides| ==> Linked(i) && SideRange(i))
      && (forall i :: 0 <= i <= |sides| ==> LeafBucket(i) && SpineRange(i))
    }
  }

  ghost function TreeOf(local: NodeId, spine: seq<TreeNode>, sides: seq<TreeNode>, buckets: seq<Bucket>): TreeView
    reads spine, sides, buckets
  {
    TreeView(local, spine, sides, buckets, NodesOf(spine), NodesOf(sides), RangesOf(buckets))
  }

  class RoutingTable {
    const localID: NodeId
    var root: TreeNode
    var numBuck: int
    var nodeCount: int
    ghost var promoted: nat
    ghost var replaced: nat
    ghost var spine: seq<TreeNode>
    ghost var sides: seq<TreeNode>
    ghost var buckets: seq<Bucket>

    ghost function Tree(): TreeView
      reads this, spine, sides, buckets
    {
      TreeOf(localID, spine, sides, buckets)
    }

    ghost predicate Shape()
      reads this, spine, sides, buckets
    {
      Tree().Caterpillar() && root == spine[0]
    }

    ghost function View(): Table
      reads this, buckets
    {
      Table(localID, LeavesOf(buckets), numBuck, nodeCount, promoted, replaced)
    }

    ghost predicate Valid()
      reads this, spine, sides, buckets
    {
      Shape() && Wf(View())
    }

    constructor (id: NodeId)
      ensures Valid() && View() == NewTable(id)
      ensures fresh(spine) && fresh(sides) && fresh(buckets)
    {
      localID := id;
      var b := new Bucket(0, Highest(), Lowest(), id);
      root := new TreeNode(b);
      numBuck, nodeCount := 1, 0;
      promoted, replaced := 0, 0;
      spine, sides, buckets := [root], [], [b];
      new;
      WholeRange(id);
      FirstShape();
    }

    lemma ShapeFits()
      requires Shape()
      ensures Fits(View()) && Splits(View()) == |sides|
    {
    }

    lemma FirstShape()
      requires sides == [] && spine == [root] && root.parent == null && root.b != null && buckets == [root.b]
      requires root.b.localID == localID && root.b.prefixLen == 0 && root.b.Covers(localID)
      requires root.minID == PrefixMin(localID, 0) && root.maxID == PrefixMax(localID, 0)
      requires root.b.nodes == root.b.cache == []
      requires numBuck == 1 && nodeCount == promoted == replaced == 0
      ensures Valid() && View() == NewTable(localID)
    {
      assert Tree().LeafBucket(0) && Tree().SpineRange(0);
      assert View() == NewTable(localID) == Run(localID, []);
      RunWf(localID, []);
    }

    /** A node of the tree is a leaf exactly when it is a side or the end of the spine. */
    lemma LeafTest(i: nat)
      requires Shape() && i <= |sides|
      ensures spine[i].b == null <==> i < |sides|
      ensures i < |sides| ==> sides[i].b != null
      ensures Tree().LeafNode(i).b == buckets[i]
    {
      assert Tree().LeafBucket(i);
      assert i < |sides| ==> Tree().Linked(i);
    }

    /** Descending from spine node j stays on the spine as long as `id` agrees with the local identifier. */
    lemma DigChoice(j: nat, id: NodeId)
      requires Shape() && j < |sides| && SamePrefix(id, localID, j)
      ensures spine[j].left != null && spine[j].right != null
      ensures (if Between(spine[j].left.minID, id, spine[j].left.maxID) then spine[j].left else spine[j].right)
           == if Bit(id, j) == Bit(localID, j) then spine[j + 1] else sides[j]
    {
      assert Tree().Linked(j) && Tree().SideRange(j) && Tree().LeafBucket(j);
      assert Tree().SpineRange(j + 1);
      ChildHolds(localID, id, j);
    }

    /** The path from spine node j, or from side j, down to the leaf that holds `id`. */
    method FindFrom(btn: TreeNode, ghost j: nat, ghost side: bool, id: NodeId) returns (leaf: TreeNode)
      requires Shape() && j <= |sides| && SamePrefix(id, localID, j)
      requires if side then j < |sides| && Bit(id, j) != Bit(localID, j) && btn == sides[j] else btn == spine[j]
      ensures leaf == Tree().LeafNode(LeafIndex(localID, |sides|, id))
      decreases |sides| - j, !side
    {
      LeafTest(j);
      LeavesPartition(localID, |sides|, id, j);
      if btn.b != null {
        return btn;
      }
      DigChoice(j, id);
      var child := btn.Dig(id);
      ghost var along := Bit(id, j) == Bit(localID, j);
      leaf := FindFrom(child, if along then j + 1 else j, !along, id);
    }

    /** Changing the contents of bucket i only. */
    twostate lemma LeafChanged(i: nat)
      requires old(Shape()) && root == old(root)
      requires spine == old(spine) && sides == old(sides) && buckets == old(buckets) && i < |buckets|
      requires forall j :: 0 <= j < |spine| ==> unchanged(spine[j])
      requires forall j :: 0 <= j < |sides| ==> unchanged(sides[j])
      requires forall j :: 0 <= j < |buckets| && j != i ==> unchanged(buckets[j])
      requires buckets[i].prefixLen == old(buckets[i].prefixLen)
      requires buckets[i].minID == old(buckets[i].minID) && buckets[i].maxID == old(buckets[i].maxID)
      ensures Shape() && Tree() == old(Tree())
      ensures LeavesOf(buckets) == old(LeavesOf(buckets))[i := Leaf(buckets[i].nodes, buckets[i].cache)]
    {
      assert RangesOf(buckets) == old(RangesOf(buckets));
      assert NodesOf(spine) == old(NodesOf(spine));
      assert NodesOf(sides) == old(NodesOf(sides));
    }

    /** Adds to the bucket of leaf i, if it takes the node, and counts it. */
    method TryAdd(b: Bucket, ghost i: nat, rn: RoutingNode) returns (added: bool)
      requires Shape() && i < |buckets| && b == buckets[i]
      modifies this`nodeCount, this`replaced, b`nodes
      ensures Shape() && added == CanAdd(old(View()).leaves[i].nodes, rn.info.id)
      ensures View() == if added then AddAt(old(View()), i, rn) else old(View())
      ensures !added ==> b.nodes == old(b.nodes)
    {
      ghost var t := View();
      var existed := b.Contains(rn.info.id);
      added := b.AddNode(rn);
      if added && !existed {
        nodeCount := nodeCount + 1;
        if |t.leaves[i].nodes| >= BUCKET_K {
          replaced := replaced + 1;
        }
      }
      LeafChanged(i);
      assert t.leaves[i] == old(Leaf(b.nodes, b.cache));
      if added {
        assert View().leaves == AddAt(t, i, rn).leaves;
      } else {
        assert View().leaves == t.leaves;
      }
    }

    /** The bucket that holds the local identifier can be split as long as its prefix is short enough. */
    lemma SplitReady()
      requires Valid()
      ensures buckets[|sides|].Splittable(localID, |sides|)
    {
      var n := |sides|;
      assert Tree().LeafBucket(n);
      assert LeafOk(localID, n, n, View().leaves[n]);
    }

    /** Splits the bucket that holds the local identifier; the spine grows by one node. */
    method SplitLeaf(btn: TreeNode, ghost b: Bucket)
      requires Shape() && |sides| < MAX_SPLITS && btn == spine[|sides|] && b == buckets[|sides|]
      requires b.Splittable(localID, |sides|)
      modifies this`numBuck, this`spine, this`sides, this`buckets
      modifies btn`left, btn`right, btn`b, btn`minID, btn`maxID
      modifies b`minID, b`prefixLen, b`nodes
      ensures Shape() && View() == SplitLast(old(View()))
      ensures |sides| == old(|sides|) + 1 && spine[..|sides|] == old(spine) && fresh(spine[|sides|])
      ensures sides[..|sides| - 1] == old(sides) && fresh(sides[|sides| - 1])
      ensures forall x :: x in buckets ==> x in old(buckets) || fresh(x)
    {
      hide PrefixMin, PrefixMax, LexLe, Bit, FlipBit, SamePrefix, Half, SplitLast, Lists.Distinct, DistinctIds;
      hide TreeView.Caterpillar;
      ghost var n, t := |sides|, View();
      LeafTest(n);
      Sizes();
      assert t.leaves[n] == Leaf(b.nodes, []);
      SplitUnfold(t, b.nodes);
      ghost var side, next, sideB, nextB := SplitSpine(btn, n, localID, spine, sides, buckets);
      ghost var sp, sd, bs := spine + [next], sides + [side], buckets[..n] + [sideB, nextB];
      ghost var w, leaves := TreeOf(localID, sp, sd, bs), LeavesOf(bs);
      numBuck := numBuck + 1;
      sides, spine, buckets := sd, sp, bs;
      assert Tree() == w && LeavesOf(buckets) == leaves;
    }

    /** Only the bucket of the local identifier may be split, and only while its prefix is short enough. */
    lemma SplitAllowedMeans(i: nat)
      requires Shape() && i <= |sides|
      ensures var b := buckets[i];
        b.prefixLen < MAX_SPLITS && Between(b.minID, b.localID, b.maxID) <==> i == |sides| < MAX_SPLITS
    {
      assert Tree().LeafBucket(i);
      var n := |sides|;
      RangeIsPrefix(localID, Anchor(localID, n, i), LeafPrefix(n, i));
      if i < n {
        FlipKeepsPrefix(localID, i);
      }
    }

    /** One step down after a split: to the half that holds `id`. */
    method Descend(btn: TreeNode, ghost j: nat, id: NodeId) returns (child: TreeNode)
      requires Shape() && j + 1 == |sides| && btn == spine[j] && SamePrefix(id, localID, j)
      ensures child == Tree().LeafNode(LeafIndex(localID, |sides|, id))
    {
      DigChoice(j, id);
      LeavesPartition(localID, |sides|, id, j);
      LeavesPartition(localID, |sides|, id, j + 1);
      child := btn.Dig(id);
    }

    method CacheIn(b: Bucket, ghost i: nat, rn: RoutingNode)
      requires Shape() && i < |buckets| && b == buckets[i]
      modifies b`cache
      ensures Shape() && View() == CacheAt(old(View()), i, rn)
    {
      b.CacheNode(rn);
      LeafChanged(i);
      assert old(View()).leaves[i] == old(LeafOf(b));
    }

    lemma Sizes()
      requires Shape()
      ensures |spine| == |buckets| == |sides| + 1
    {
    }

    lemma LastPrefix(id: NodeId, n: nat)
      requires n <= MAX_SPLITS && LeafIndex(localID, n, id) == n
      ensures SamePrefix(id, localID, n)
    {
      LeavesPartition(localID, n, id, n);
    }

    /** Splits the last leaf and goes on to the half that holds `id`. */
    method SplitAndDescend(btn: TreeNode, ghost b: Bucket, id: NodeId) returns (child: TreeNode)
      requires Shape() && |sides| < MAX_SPLITS && btn == spine[|sides|] && b == buckets[|sides|]
      requires b.Splittable(localID, |sides|) && LeafIndex(localID, |sides|, id) == |sides|
      modifies this`numBuck, this`spine, this`sides, this`buckets
      modifies btn`left, btn`right, btn`b, btn`minID, btn`maxID
      modifies b`minID, b`prefixLen, b`nodes
      ensures Shape() && View() == SplitLast(old(View()))
      ensures |sides| == old(|sides|) + 1 && child == Tree().LeafNode(LeafIndex(localID, |sides|, id))
      ensures forall x :: x in spine ==> x in old(spine) || fresh(x)
      ensures forall x :: x in sides ==> x in old(sides) || fresh(x)
      ensures forall x :: x in buckets ==> x in old(buckets) || fresh(x)
    {
      hide PrefixMin, PrefixMax, LexLe, Half, SplitLast, RoutingTable.View, Lists.Distinct, DistinctIds;
      hide TreeView.Caterpillar, SamePrefix, LeafIndex;
      ghost var n := |sides|;
      LastPrefix(id, n);
      SplitLeaf(btn, b);
      Sizes();
      assert spine[n] == spine[..n + 1][n];
      child := Descend(btn, n, id);
    }

    /** A full bucket is split if it may be; otherwise a good node goes to its cache. */
    method SplitOrCache(btn: TreeNode, b: Bucket, ghost i: nat, rn: RoutingNode, good: bool) returns (done: bool, next: TreeNode)
      requires Shape() && buckets[|sides|].Splittable(localID, |sides|) && i == LeafIndex(localID, |sides|, rn.info.id)
      requires btn == Tree().LeafNode(i) && b == buckets[i]
      modifies this`numBuck, this`spine, this`sides, this`buckets, btn, b
      ensures Shape() && done == !(i == old(|sides|) < MAX_SPLITS)
      ensures done && good ==> View() == CacheAt(old(View()), i, rn)
      ensures done && !good ==> View() == old(View())
      ensures !done ==> View() == SplitLast(old(View()))
      ensures !done ==> |sides| == old(|sides|) + 1 && next == Tree().LeafNode(LeafIndex(localID, |sides|, rn.info.id))
      ensures forall x :: x in spine ==> x in old(spine) || fresh(x)
      ensures forall x :: x in sides ==> x in old(sides) || fresh(x)
      ensures forall x :: x in buckets ==> x in old(buckets) || fresh(x)
    {
      SplitAllowedMeans(i);
      next := btn;
      var allowed := b.SplitAllowed();
      done := !allowed;
      if allowed {
        next := SplitAndDescend(btn, b, rn.info.id);
      } else if good {
        CacheIn(b, i, rn);
      }
    }

    /** One turn of the split-and-retry loop. */
    method InsertTurn(btn: TreeNode, rn: RoutingNode, good: bool) returns (done: bool, ok: bool, next: TreeNode)
      requires Shape() && buckets[|sides|].Splittable(localID, |sides|)
      requires btn == Tree().LeafNode(LeafIndex(localID, |sides|, rn.info.id)) && btn.b != null
      modifies this, btn, btn.b
      ensures Shape()
      ensures done ==> (View(), ok) == Insert(old(View()), rn, good)
      ensures !done ==> |sides| == old(|sides|) + 1 <= MAX_SPLITS && View() == SplitLast(old(View()))
      ensures !done ==> Insert(View(), rn, good) == Insert(old(View()), rn, good)
      ensures !done ==> next == Tree().LeafNode(LeafIndex(localID, |sides|, rn.info.id))
      ensures forall x :: x in spine ==> x in old(spine) || fresh(x)
      ensures forall x :: x in sides ==> x in old(sides) || fresh(x)
      ensures forall x :: x in buckets ==> x in old(buckets) || fresh(x)
    {
      hide PrefixMin, PrefixMax, LexLe, Bit, FlipBit, SamePrefix, LeafIndex, Insert, SplitLast, AddAt, CacheAt, CanAdd;
      ghost var i := LeafIndex(localID, |sides|, rn.info.id);
      LeafTest(i);
      InsertUnfold(View(), rn, good);
      var b := btn.b;
      ok := TryAdd(b, i, rn);
      if ok {
        done, next := true, btn;
      } else {
        done, next := SplitOrCache(btn, b, i, rn, good);
      }
    }

    /** The split-and-retry loop, from the leaf that holds the node's identifier. */
    method InsertLoop(start: TreeNode, rn: RoutingNode, good: bool) returns (ok: bool)
      requires Valid() && start == Tree().LeafNode(LeafIndex(localID, |sides|, rn.info.id))
      modifies this, spine, sides, buckets
      ensures Shape() && (View(), ok) == Insert(old(View()), rn, good)
      ensures forall x :: x in spine ==> x in old(spine) || fresh(x)
      ensures forall x :: x in sides ==> x in old(sides) || fresh(x)
      ensures forall x :: x in buckets ==> x in old(buckets) || fresh(x)
    {
      var btn, done := start, false;
      ok := false;
      while !done
        invariant Shape() && (!done ==> Wf(View()))
        invariant !done ==> btn == Tree().LeafNode(LeafIndex(localID, |sides|, rn.info.id))
        invariant !done ==> Insert(View(), rn, good) == Insert(old(View()), rn, good)
        invariant done ==> (View(), ok) == Insert(old(View()), rn, good)
        invariant forall x :: x in spine ==> x in old(spine) || fresh(x)
        invariant forall x :: x in sides ==> x in old(sides) || fresh(x)
        invariant forall x :: x in buckets ==> x in old(buckets) || fresh(x)
        decreases !done, ID_BITS - |sides|
      {
        SplitReady();
        ghost var i := LeafIndex(localID, |sides|, rn.info.id);
        LeafTest(i);
        assert btn in spine || btn in sides;
        assert btn.b in buckets;
        if |sides| < MAX_SPLITS {
          SplitKeepsWf(View());
        }
        done, ok, btn := InsertTurn(btn, rn, good);
      }
    }

    method AddLocked(info: NodeInfo, good: bool) returns (ok: bool)
      requires Valid()
      modifies this, spine, sides, buckets
      ensures Shape() && (View(), ok) == Add(old(View()), info, good)
      ensures forall x :: x in spine ==> x in old(spine) || fresh(x)
      ensures forall x :: x in sides ==> x in old(sides) || fresh(x)
      ensures forall x :: x in buckets ==> x in old(buckets) || fresh(x)
    {
      if info.id == localID {
        ok := false;
      } else {
        var btn := FindFrom(root, 0, false, info.id);
        ok := InsertLoop(btn, NewNode(info), good);
      }
    }

    method AddNodeInternal(info: NodeInfo, good: bool) returns (ok: bool)
      requires Valid()
      modifies this, spine, sides, buckets
      ensures Shape()
      ensures Wf(View()) && (View(), ok) == Add(old(View()), info, good)
      ensures forall x :: x in spine ==> x in old(spine) || fresh(x)
      ensures forall x :: x in sides ==> x in old(sides) || fresh(x)
      ensures forall x :: x in buckets ==> x in old(buckets) || fresh(x)
    {
      ghost var r := Add(View(), info, good);
      assert Wf(r.0) by {
        AddKeepsWf(View(), info, good);
      }
      ok := AddLocked(info, good);
      assert View() == r.0;
    }

    /** The bucket whose range holds `id`. */
    method BucketFor(id: NodeId) returns (b: Bucket)
      requires Shape()
      ensures b in buckets && b == buckets[LeafIndex(localID, |sides|, id)]
    {
      var btn := FindFrom(root, 0, false, id);
      LeafTest(LeafIndex(localID, |sides|, id));
      b := btn.b;
    }

    /** Drops the first node with this identifier from its bucket; a cached node takes its place. */
    method DropIn(b: Bucket, id: NodeId)
      requires Shape() && b == buckets[LeafIndex(localID, |sides|, id)]
      modifies this`nodeCount, this`promoted, b`nodes, b`cache
      ensures Shape() && View() == Drop(old(View()), id)
    {
      hide PrefixMin, PrefixMax, LexLe, Bit, FlipBit, SamePrefix, LeafIndex, AfterDrop, FirstWithId;
      ghost var i, t := LeafIndex(localID, |sides|, id), View();
      assert t.leaves[i] == LeafOf(b);
      var ok := b.DropNode(id);
      if ok {
        nodeCount := nodeCount - 1;
        if |t.leaves[i].cache| > 0 {
          promoted := promoted + 1;
        }
      }
      LeafChanged(i);
      assert View().leaves == Drop(t, id).leaves;
    }

    method DropLocked(id: NodeId)
      requires Shape()
      modifies this`nodeCount, this`promoted, buckets
      ensures Shape() && View() == Drop(old(View()), id)
    {
      var b := BucketFor(id);
      DropIn(b, id);
    }

    method RemoveNode(id: NodeId)
      requires Valid()
      modifies this`nodeCount, this`promoted, buckets
      ensures Shape()
      ensures Wf(View()) && View() == Drop(old(View()), id)
    {
      DropKeepsWf(View(), id);
      DropLocked(id);
    }

    /** Gives the node at this identifier and address a new condition, if it is stored. */
    method SetNodeCondition(info: NodeInfo, c: nat)
      requires Shape()
      modifies buckets
      ensures Shape() && View() == SetCondition(old(View()), info, c)
    {
      ghost var i, t := LeafIndex(localID, |sides|, info.id), View();
      var b := BucketFor(info.id);
      assert t.leaves[i] == LeafOf(b);
      var k := b.FindNode(info);
      if k < |b.nodes| {
        b.nodes := b.nodes[k := b.nodes[k].(condition := c)];
      }
      LeafChanged(i);
      assert View().leaves == SetCondition(t, info, c).leaves;
    }

    method MarkGood(info: NodeInfo)
      requires Valid()
      modifies buckets
      ensures Shape()
      ensures Wf(View()) && View() == RoutingSpec.MarkGood(old(View()), info)
    {
      SetConditionKeepsWf(View(), info, 0);
      SetNodeCondition(info, 0);
    }

    /** The node's condition becomes c; a bad node is dropped. */
    method ReconditionLocked(info: NodeInfo, c: nat)
      requires Shape()
      modifies this`nodeCount, this`promoted, buckets
      ensures Shape() && View() == Recondition(old(View()), info, c)
    {
      SetNodeCondition(info, c);
      if c >= BAD_CONDITION {
        DropLocked(info.id);
      }
    }

    /** The condition of the node at this identifier and address, if it is stored. */
    method GetCondition(info: NodeInfo) returns (c: Option<nat>)
      requires Shape()
      ensures c == ConditionOf(View(), info)
    {
      var b := BucketFor(info.id);
      assert View().leaves[LeafIndex(localID, |sides|, info.id)] == LeafOf(b);
      var k := b.FindNode(info);
      c := if k < |b.nodes| then Some(b.nodes[k].condition) else None;
    }

    method MarkBadLocked(info: NodeInfo)
      requires Shape()
      modifies this`nodeCount, this`promoted, buckets
      ensures Shape() && View() == RoutingSpec.MarkBadAndRemove(old(View()), info)
    {
      var c := GetCondition(info);
      if c.Some? {
        ReconditionLocked(info, BAD_CONDITION);
      }
    }

    method MarkBadAndRemove(info: NodeInfo)
      requires Valid()
      modifies this`nodeCount, this`promoted, buckets
      ensures Shape()
      ensures Wf(View()) && View() == RoutingSpec.MarkBadAndRemove(old(View()), info)
    {
      ghost var r := RoutingSpec.MarkBadAndRemove(View(), info);
      assert Wf(r) by {
        StepKeepsWf(View(), OpMarkBad(info));
      }
      hide Wf, RoutingSpec.MarkBadAndRemove;
      MarkBadLocked(info);
      assert View() == r;
    }

    method TimeoutLocked(info: NodeInfo)
      requires Shape()
      modifies this`nodeCount, this`promoted, buckets
      ensures Shape() && View() == RoutingSpec.OnTimeout(old(View()), info)
    {
      hide *;
      ShapeFits();
      TimeoutUnfold(View(), info);
      var c := GetCondition(info);
      if c.Some? {
        ReconditionLocked(info, c.value + 1);
      }
    }

    method OnTimeout(info: NodeInfo)
      requires Valid()
      modifies this`nodeCount, this`promoted, buckets
      ensures Shape()
      ensures Wf(View()) && View() == RoutingSpec.OnTimeout(old(View()), info)
    {
      ghost var r := RoutingSpec.OnTimeout(View(), info);
      assert Wf(r) by {
        TimeoutKeepsWf(View(), info);
      }
      TimeoutLocked(info);
      assert View() == r;
    }

    /** Removes the node unless the identifier is the all-zero one, which stands for none. */
    method DropUnlessZero(b: Bucket, id: NodeId)
      requires Shape() && b == buckets[LeafIndex(localID, |sides|, id)]
      modifies this`nodeCount, this`promoted, b`nodes, b`cache
      ensures Shape() && View() == DropIf(old(View()), id != Lowest(), id)
    {
      if id != Lowest() {
        DropIn(b, id);
      }
    }

    method BatchLocked(good: NodeInfo, removeId: NodeId)
      requires Valid()
      modifies this, spine, sides, buckets
      ensures Shape() && View() == RoutingSpec.BatchUpdate(old(View()), good, removeId)
      ensures forall x :: x in spine ==> x in old(spine) || fresh(x)
      ensures forall x :: x in sides ==> x in old(sides) || fresh(x)
      ensures forall x :: x in buckets ==> x in old(buckets) || fresh(x)
    {
      var ok := AddLocked(good, true);
      var b := BucketFor(removeId);
      DropUnlessZero(b, removeId);
    }

    method BatchUpdate(good: NodeInfo, removeId: NodeId)
      requires Valid()
      modifies this, spine, sides, buckets
      ensures Shape()
      ensures Wf(View()) && View() == RoutingSpec.BatchUpdate(old(View()), good, removeId)
      ensures forall x :: x in spine ==> x in old(spine) || fresh(x)
      ensures forall x :: x in sides ==> x in old(sides) || fresh(x)
      ensures forall x :: x in buckets ==> x in old(buckets) || fresh(x)
    {
      ghost var r := RoutingSpec.BatchUpdate(View(), good, removeId);
      assert Wf(r) by {
        BatchKeepsWf(View(), good, removeId);
      }
      BatchLocked(good, removeId);
      assert View() == r;
    }

    /** Any of the operations; what it makes part of the tree is new or was part of it. */
    method Apply(op: Op)
      requires Valid()
      modifies this, spine, sides, buckets
      ensures Valid() && View() == Step(old(View()), op)
      ensures forall x :: x in spine ==> x in old(spine) || fresh(x)
      ensures forall x :: x in sides ==> x in old(sides) || fresh(x)
      ensures forall x :: x in buckets ==> x in old(buckets) || fresh(x)
    {
      hide Wf, Add, Drop, RoutingSpec.MarkGood, RoutingSpec.MarkBadAndRemove, RoutingSpec.OnTimeout, RoutingSpec.BatchUpdate;
      match op
      case OpAdd(info, good) =>
        var ok := AddNodeInternal(info, good);
      case OpRemove(id) =>
        RemoveNode(id);
      case OpMarkGood(info) =>
        MarkGood(info);
      case OpMarkBad(info) =>
        MarkBadAndRemove(info);
      case OpTimeout(info) =>
        OnTimeout(info);
      case OpBatch(info, removeId) =>
        BatchUpdate(info, removeId);
    }

    // ----- Closest nodes -----

    /** Appends the good nodes of a leaf, whose bucket must exist. */
    method CollectFromLeaf(nodes: seq<RoutingNode>, btn: TreeNode, ghost i: nat) returns (out: seq<RoutingNode>)
      requires Shape() && i <= |sides| && btn == Tree().LeafNode(i)
      ensures out == nodes + Good(View().leaves[i].nodes)
    {
      LeafTest(i);
      var good := btn.b.GoodNodes();
      assert View().leaves[i] == LeafOf(buckets[i]);
      out := nodes + good;
    }

    /** The subtree below spine node j, or side j alone, until there are enough nodes. */
    method CollectDownward(nodes: seq<RoutingNode>, btn: TreeNode, ghost j: nat, ghost side: bool, leftFirst: bool)
      returns (out: seq<RoutingNode>)
      requires Shape() && j <= |sides|
      requires if side then j < |sides| && btn == sides[j] else btn == spine[j]
      ensures Cut(out, nodes + if side then Good(View().leaves[j].nodes) else Downward(View(), j, leftFirst))
      decreases |sides| - j, !side
    {
      hide PrefixMin, PrefixMax, LexLe, Bit, FlipBit, SamePrefix, Good;
      LeafTest(j);
      if btn.b != null {
        out := CollectFromLeaf(nodes, btn, j);
        return;
      }
      Children(j);
      var first, second := if leftFirst then btn.left else btn.right, if leftFirst then btn.right else btn.left;
      ghost var sideFirst := Bit(localID, j) == leftFirst;
      out := CollectDownward(nodes, first, if sideFirst then j else j + 1, sideFirst, leftFirst);
      ghost var early := out;
      if |out| < BUCKET_K {
        out := CollectDownward(out, second, if sideFirst then j + 1 else j, !sideFirst, leftFirst);
      }
      ghost var own, below := Good(View().leaves[j].nodes), Downward(View(), j + 1, leftFirst);
      CutConcat(nodes, early, out, if sideFirst then own else below, if sideFirst then below else own);
    }

    lemma Children(j: nat)
      requires Shape() && j < |sides|
      ensures if Bit(localID, j)
        then spine[j].left == sides[j] && spine[j].right == spine[j + 1]
        else spine[j].left == spine[j + 1] && spine[j].right == sides[j]
      ensures spine[j + 1].parent == spine[j] == sides[j].parent
    {
      assert Tree().Linked(j);
    }

    /** The other child of the parent of spine node j. */
    method CollectSibling(nodes: seq<RoutingNode>, cur: TreeNode, parent: TreeNode, ghost j: nat)
      returns (out: seq<RoutingNode>)
      requires Shape() && 0 < j <= |sides| && cur == spine[j] && parent == spine[j - 1]
      ensures out == nodes + Good(View().leaves[j - 1].nodes)
    {
      hide Bit, Good;
      Children(j - 1);
      if parent.left == cur {
        out := CollectFromLeaf(nodes, parent.right, j - 1);
      } else {
        out := CollectFromLeaf(nodes, parent.left, j - 1);
      }
    }

    /** The leaves hanging off the path from spine node j to the root, until there are enough nodes. */
    method CollectUpward(nodes: seq<RoutingNode>, from: TreeNode, ghost j0: nat) returns (out: seq<RoutingNode>)
      requires Shape() && j0 <= |sides| && from == spine[j0]
      ensures Cut(out, nodes + Upward(View(), j0))
    {
      hide PrefixMin, PrefixMax, LexLe, Bit, FlipBit, SamePrefix, Good;
      ghost var j := j0;
      var cur := from;
      out := nodes;
      while true
        invariant 0 <= j <= |sides| && cur == spine[j]
        invariant out + Upward(View(), j) == nodes + Upward(View(), j0)
        decreases j
      {
        var parent := cur.parent;
        if parent == null {
          assert j == 0 by {
            if j > 0 {
              Children(j - 1);
            }
          }
          break;
        }
        Children(j - 1);
        ghost var before := out;
        out := CollectSibling(out, cur, parent, j);
        Assoc(before, Good(View().leaves[j - 1].nodes), Upward(View(), j - 1));
        cur := parent;
        j := j - 1;
        if |out| >= BUCKET_K {
          break;
        }
      }
    }

    /** The parent of the target's leaf, and on which side of it the leaf is. */
    lemma LeafParent(i: nat, d: nat, target: NodeId)
      requires Shape() && |sides| > 0 && i == LeafIndex(localID, |sides|, target) && d == Min(i, |sides| - 1)
      ensures Tree().LeafNode(i) != root
      ensures Tree().LeafNode(i).parent == spine[d]
      ensures spine[d].left == Tree().LeafNode(i) <==> !Bit(target, d)
    {
      Children(d);
      LeavesPartition(localID, |sides|, target, i);
    }

    /** The leaf of the target with its parent's subtree, then the leaves further up. */
    method CollectAround(target: NodeId) returns (nodes: seq<RoutingNode>)
      requires Shape()
      ensures Cut(nodes, Ranking(View(), target))
    {
      hide PrefixMin, PrefixMax, LexLe, Bit, FlipBit, SamePrefix, Good;
      ghost var i := LeafIndex(localID, |sides|, target);
      ghost var d := Min(i, |sides| - 1);
      nodes := [];
      var leaf := FindFrom(root, 0, false, target);
      if |sides| > 0 {
        LeafParent(i, d, target);
      }
      if leaf == root {
        nodes := CollectFromLeaf(nodes, leaf, 0);
      } else {
        var parent := leaf.parent;
        nodes := CollectDownward(nodes, parent, d, false, parent.left == leaf);
        ghost var early := nodes;
        if |nodes| < BUCKET_K {
          nodes := CollectUpward(nodes, parent, d);
        }
        ghost var down, up := Downward(View(), d, !Bit(target, d)), Upward(View(), d);
        CutConcat([], early, nodes, down, up);
        RankingUnfold(View(), target, d);
      }
    }

    method FindClosest(target: NodeId) returns (nodes: seq<RoutingNode>)
      requires Shape()
      ensures nodes == Closest(View(), target)
    {
      nodes := CollectAround(target);
      if |nodes| > BUCKET_K {
        nodes := nodes[..BUCKET_K];
      }
    }

    /** The first `count` of the closest nodes; eight when the caller does not ask for a number. */
    method GetClosestNodes(target: NodeId, count: int) returns (out: seq<NodeInfo>)
      requires Shape()
      ensures var nodes := Closest(View(), target);
        && |out| == Min(if count <= 0 then BUCKET_K else count, |nodes|)
        && forall k :: 0 <= k < |out| ==> out[k] == nodes[k].info
    {
      var nodes := FindClosest(target);
      var n := if count <= 0 then BUCKET_K else count;
      if n > |nodes| {
        n := |nodes|;
      }
      out := [];
      var k := 0;
      while k < n
        invariant 0 <= k <= n && |out| == k
        invariant forall m :: 0 <= m < k ==> out[m] == nodes[m].info
      {
        out := out + [nodes[k].info];
        k := k + 1;
      }
    }
  }

  /** Whole runs: a table on the heap that goes through any operations is the table the specification computes. */
  method RunTable(local: NodeId, ops: seq<Op>) returns (rt: RoutingTable)
    ensures fresh(rt) && rt.Valid() && rt.View() == Run(local, ops)
  {
    hide Wf, Step;
    rt := new RoutingTable(local);
    for i := 0 to |ops|
      invariant fresh(rt) && fresh(rt.spine) && fresh(rt.sides) && fresh(rt.buckets)
      invariant rt.Valid() && rt.View() == Run(local, ops[..i])
    {
      rt.Apply(ops[i]);
      assert forall k :: 0 <= k < |rt.spine| ==> rt.spine[k] in rt.spine;
      assert forall k :: 0 <= k < |rt.sides| ==> rt.sides[k] in rt.sides;
      assert forall k :: 0 <= k < |rt.buckets| ==> rt.buckets[k] in rt.buckets;
      assert ops[..i + 1][..i] == ops[..i];
    }
    assert ops[..|ops|] == ops;
  }

  /** A collection that stopped early holds at least eight nodes. */
  ghost predicate Cut(out: seq<RoutingNode>, full: seq<RoutingNode>) {
    out <= full && (|out| < BUCKET_K ==> out == full)
  }

  lemma Assoc(a: seq<RoutingNode>, b: seq<RoutingNode>, c: seq<RoutingNode>)
    ensures a + (b + c) == (a + b) + c
  {
  }

  lemma CutConcat(nodes: seq<RoutingNode>, early: seq<RoutingNode>, out: seq<RoutingNode>, a: seq<RoutingNode>, b: seq<RoutingNode>)
    requires Cut(early, nodes + a)
    requires if |early| < BUCKET_K then Cut(out, early + b) else out == early
    ensures Cut(out, nodes + (a + b))
  {
    Assoc(nodes, a, b);
  }

  lemma RankingUnfold(t: Table, target: NodeId, d: nat)
    requires Fits(t) && Splits(t) > 0 && d == Min(LeafIndex(t.local, |t.leaves| - 1, target), |t.leaves| - 2)
    ensures [] + (Downward(t, d, !Bit(target, d)) + Upward(t, d)) == Ranking(t, target)
  {
    assert d == ParentDepth(t, target);
  }

  twostate lemma NodesAfter(ns: seq<TreeNode>, new next: TreeNode)
    requires |ns| > 0
    requires forall i :: 0 <= i < |ns| - 1 ==> unchanged(ns[i])
    ensures NodesOf(ns + [next]) == old(NodesOf(ns))[|ns| - 1 := ViewOf(ns[|ns| - 1])] + [ViewOf(next)]
  {
  }

  twostate lemma NodesAppend(ns: seq<TreeNode>, new next: TreeNode)
    requires forall i :: 0 <= i < |ns| ==> unchanged(ns[i])
    ensures NodesOf(ns + [next]) == old(NodesOf(ns)) + [ViewOf(next)]
  {
  }

  twostate lemma RangesAfter(bs: seq<Bucket>, new side: Bucket, new next: Bucket)
    requires |bs| > 0
    requires forall i :: 0 <= i < |bs| - 1 ==> unchanged(bs[i])
    ensures RangesOf(bs[..|bs| - 1] + [side, next]) == old(RangesOf(bs))[..|bs| - 1] + [RangeOf(side), RangeOf(next)]
  {
  }

  twostate lemma LeavesAfter(bs: seq<Bucket>, new side: Bucket, new next: Bucket)
    requires |bs| > 0
    requires forall i :: 0 <= i < |bs| - 1 ==> unchanged(bs[i])
    ensures LeavesOf(bs[..|bs| - 1] + [side, next]) == old(LeavesOf(bs))[..|bs| - 1] + [LeafOf(side), LeafOf(next)]
  {
  }

  ghost function LeafView(parent: TreeNode, b: Bucket, range: RangeView): NodeView {
    NodeView(parent, null, null, b, range.minID, range.maxID)
  }

  /** Splits tree node n of the spine `sp`; `side` is the child that does not hold the local identifier. */
  method SplitNode(btn: TreeNode, ghost n: nat, local: NodeId, ghost sp: seq<TreeNode>, ghost sd: seq<TreeNode>, ghost bs: seq<Bucket>)
    returns (ghost side: TreeNode, ghost next: TreeNode, ghost sideB: Bucket, ghost nextB: Bucket)
    requires n < MAX_SPLITS && |sp| == |bs| == n + 1 && |sd| == n && btn == sp[n] && btn.b == bs[n]
    requires Lists.Distinct(sp) && btn !in sd && Lists.Distinct(bs)
    requires bs[n].Splittable(local, n)
    modifies btn`left, btn`right, btn`b, btn`minID, btn`maxID, btn.b`minID, btn.b`prefixLen, btn.b`nodes
    ensures fresh(side) && fresh(next) && side != next && side !in sp + sd && next !in sp + sd
    ensures Lists.Distinct(bs[..n] + [sideB, nextB]) && (sideB == bs[n] || fresh(sideB)) && (nextB == bs[n] || fresh(nextB))
    ensures IsSplit(old(TreeOf(local, sp, sd, bs)), TreeOf(local, sp + [next], sd + [side], bs[..n] + [sideB, nextB]), side, next)
    ensures var up := Bit(local, n);
      LeavesOf(bs[..n] + [sideB, nextB])
      == old(LeavesOf(bs))[..n] + [Leaf(Half(old(bs[n].nodes), n, !up), []), Leaf(Half(old(bs[n].nodes), n, up), [])]
  {
    hide PrefixMin, PrefixMax, LexLe, Bit, FlipBit, SamePrefix, Half;
    btn.Split(local);
    SplitMin(local, n);
    SplitMax(local, n);
    side := if Bit(local, n) then btn.left else btn.right;
    next := if Bit(local, n) then btn.right else btn.left;
    sideB, nextB := side.b, next.b;
    NodesAfter(sp, next);
    NodesAppend(sd, side);
    RangesAfter(bs, sideB, nextB);
    LeavesAfter(bs, sideB, nextB);
  }

  /** What a split does to the links and ranges of the tree. */
  ghost predicate IsSplit(v: TreeView, w: TreeView, side: TreeNode, next: TreeNode)
    requires v.Sized() && |v.sides| < MAX_SPLITS
  {
    var n, up := |v.sides|, Bit(v.local, |v.sides|);
    var sideRange, nextRange := HalfRange(v.local, n, !up), HalfRange(v.local, n, up);
    && w.local == v.local
    && w.sides == v.sides + [side]
    && w.spine == v.spine + [next]
    && |w.buckets| == n + 2
    && w.buckets[..n] == v.buckets[..n]
    && w.spineNodes == v.spineNodes[n :=
         NodeView(v.spineNodes[n].parent, if up then side else next, if up then next else side, null,
                  PrefixMin(v.local, n), PrefixMax(v.local, n))]
       + [LeafView(v.spine[n], w.buckets[n + 1], nextRange)]
    && w.sideNodes == v.sideNodes + [LeafView(v.spine[n], w.buckets[n], sideRange)]
    && w.ranges == v.ranges[..n] + [sideRange, nextRange]
  }

  function HalfRange(local: NodeId, n: nat, bit: bool): RangeView
    requires n < ID_BITS
  {
    var a := WithBit(local, n, bit);
    RangeView(n + 1, PrefixMin(a, n + 1), PrefixMax(a, n + 1), local)
  }

  lemma SplitTree(v: TreeView, w: TreeView, side: TreeNode, next: TreeNode)
    requires v.Caterpillar() && |v.sides| < MAX_SPLITS && IsSplit(v, w, side, next)
    requires side != next && side !in v.spine + v.sides && next !in v.spine + v.sides
    requires Lists.Distinct(w.buckets)
    ensures w.Caterpillar()
  {
    var n := |v.sides|;
    forall i | 0 <= i < |w.sides|
      ensures w.Linked(i) && w.SideRange(i)
    {
      if i < n {
        assert v.Linked(i) && v.SideRange(i);
      }
    }
    forall i | 0 <= i <= |w.sides|
      ensures w.LeafBucket(i) && w.SpineRange(i)
    {
      if i < n {
        assert v.LeafBucket(i) && v.SpineRange(i);
        assert w.buckets[i] == w.buckets[..n][i];
      }
    }
  }

  lemma SplitUnfold(t: Table, nodes: seq<RoutingNode>)
    requires Fits(t) && Splits(t) < MAX_SPLITS && t.leaves[Splits(t)] == Leaf(nodes, [])
    ensures var n, up := Splits(t), Bit(t.local, Splits(t));
      SplitLast(t)
      == t.(leaves := t.leaves[..n] + [Leaf(Half(nodes, n, !up), []), Leaf(Half(nodes, n, up), [])], numBuck := t.numBuck + 1)
  {
  }

  /** Splits the last node of the spine of a tree; what comes out is such a tree again. */
  method SplitSpine(btn: TreeNode, ghost n: nat, local: NodeId, ghost sp: seq<TreeNode>, ghost sd: seq<TreeNode>, ghost bs: seq<Bucket>)
    returns (ghost side: TreeNode, ghost next: TreeNode, ghost sideB: Bucket, ghost nextB: Bucket)
    requires TreeOf(local, sp, sd, bs).Caterpillar() && |sd| == n < MAX_SPLITS && btn == sp[n] && btn.b == bs[n]
    requires bs[n].Splittable(local, n)
    modifies btn`left, btn`right, btn`b, btn`minID, btn`maxID, btn.b`minID, btn.b`prefixLen, btn.b`nodes
    ensures fresh(side) && fresh(next) && (sideB == bs[n] || fresh(sideB)) && (nextB == bs[n] || fresh(nextB))
    ensures TreeOf(local, sp + [next], sd + [side], bs[..n] + [sideB, nextB]).Caterpillar()
    ensures var up := Bit(local, n);
      LeavesOf(bs[..n] + [sideB, nextB])
      == old(LeavesOf(bs))[..n] + [Leaf(Half(old(bs[n].nodes), n, !up), []), Leaf(Half(old(bs[n].nodes), n, up), [])]
  {
    hide PrefixMin, PrefixMax, LexLe, Bit, FlipBit, SamePrefix, Half, IsSplit, Bucket.Splittable;
    ghost var v := TreeOf(local, sp, sd, bs);
    side, next, sideB, nextB := SplitNode(btn, n, local, sp, sd, bs);
    SplitTree(v, TreeOf(local, sp + [next], sd + [side], bs[..n] + [sideB, nextB]), side, next);
  }

  lemma WholeRange(id: NodeId)
    ensures PrefixMin(id, 0) == Lowest() && PrefixMax(id, 0) == Highest()
  {
    forall j | 0 <= j < ID_BYTES
      ensures PrefixMin(id, 0)[j] == 0 && PrefixMax(id, 0)[j] == 255
    {
      LowByteRange(0, id[j], -8 * j);
    }
  }

  /** The range tests of the two children decide on bit j. */
  lemma ChildHolds(local: NodeId, id: NodeId, j: nat)
    requires j + 1 < ID_BITS && SamePrefix(id, local, j)
    ensures Between(PrefixMin(local, j + 1), id, PrefixMax(local, j + 1)) <==> Bit(id, j) == Bit(local, j)
    ensures SamePrefix(id, local, j + 1) <==> Bit(id, j) == Bit(local, j)
    ensures Between(PrefixMin(FlipBit(local, j), j + 1), id, PrefixMax(FlipBit(local, j), j + 1)) <==> Bit(id, j) != Bit(local, j)
  {
    RangeIsPrefix(id, local, j + 1);
    RangeIsPrefix(id, FlipBit(local, j), j + 1);
    LeafIsRange(local, j + 1, j, id);
  }

  lemma {:induction false} LexLeRefl(a: NodeId, j: nat)
    requires j <= ID_BYTES
    ensures LexLe(a, a, j)
    decreases ID_BYTES - j
  {
    if j < ID_BYTES {
      LexLeRefl(a, j + 1);
    }
  }

  lemma {:induction false} MinBelowMax(a: NodeId, p: nat, j: nat)
    requires j <= ID_BYTES
    ensures LexLe(PrefixMin(a, p), PrefixMax(a, p), j)
    decreases ID_BYTES - j
  {
    if j < ID_BYTES {
      MinBelowMax(a, p, j + 1);
      LowByteRange(a[j], a[j], p - 8 * j);
    }
  }

  lemma MinInRange(a: NodeId, p: nat)
    ensures Between(PrefixMin(a, p), PrefixMin(a, p), PrefixMax(a, p))
  {
    LexLeRefl(PrefixMin(a, p), 0);
    MinBelowMax(a, p, 0);
  }
}
