/** What the routing table operations do to the stored and the cached nodes and to their order. */
module RoutingEffects {
  import opened Bytes
  import opened NodeIds
  import opened RoutingSpec
  import opened RoutingInvariants

  // ----- What can be seen of a table -----

  lemma {:induction false} StoredHas(leaves: seq<Leaf>, x: RoutingNode)
    ensures x in Stored(leaves) <==> exists i :: 0 <= i < |leaves| && x in leaves[i].nodes
    decreases |leaves|
  {
    hide Stored;
    if leaves == [] {
      NoneStored();
    } else {
      var m := |leaves| - 1;
      StoredHas(leaves[..m], x);
      StoredLast(leaves);
      HasLast(leaves, x);
    }
  }

  lemma NoneStored()
    ensures Stored([]) == multiset{}
  {
  }

  lemma HasLast(leaves: seq<Leaf>, x: RoutingNode)
    requires leaves != []
    ensures var m := |leaves| - 1;
            (exists i :: 0 <= i < |leaves| && x in leaves[i].nodes)
            <==> (exists i :: 0 <= i < m && x in leaves[..m][i].nodes) || x in leaves[m].nodes
  {
    var m := |leaves| - 1;
    if i :| 0 <= i < |leaves| && x in leaves[i].nodes {
      if i < m {
        assert x in leaves[..m][i].nodes;
      }
    }
    if i :| 0 <= i < m && x in leaves[..m][i].nodes {
      assert x in leaves[i].nodes;
    }
  }

  lemma StoredLast(leaves: seq<Leaf>)
    requires leaves != []
    ensures Stored(leaves) == Stored(leaves[..|leaves| - 1]) + multiset(leaves[|leaves| - 1].nodes)
  {
  }

  /** Buckets with nodes and cache exchanged. */
  ghost function Swapped(leaves: seq<Leaf>): (r: seq<Leaf>)
    ensures |r| == |leaves|
  {
    seq(|leaves|, i requires 0 <= i < |leaves| => Leaf(leaves[i].cache, leaves[i].nodes))
  }

  ghost function Cached(leaves: seq<Leaf>): multiset<RoutingNode> {
    Stored(Swapped(leaves))
  }

  /** The bucket whose range holds the identifier. */
  function Home(t: Table, id: NodeId): Leaf
    requires Fits(t)
  {
    t.leaves[IndexOf(t, id)]
  }

  ghost predicate Known(t: Table, id: NodeId) {
    exists x :: x in Stored(t.leaves) && x.info.id == id
  }

  /** Where a node of the table is stored: only in its home bucket. */
  lemma AtHome(t: Table, x: RoutingNode)
    requires Wf(t)
    ensures x in Stored(t.leaves) <==> x in Home(t, x.info.id).nodes
  {
    StoredHas(t.leaves, x);
    if i :| 0 <= i < |t.leaves| && x in t.leaves[i].nodes {
      assert LeafOk(t.local, Splits(t), i, t.leaves[i]);
      LeavesPartition(t.local, Splits(t), x.info.id, i);
    }
  }

  lemma KnownAtHome(t: Table, id: NodeId)
    requires Fits(t) && Wf(t)
    ensures Known(t, id) <==> HasId(Home(t, id).nodes, id)
  {
    hide Wf, Stored, FirstWithId;
    var nodes := Home(t, id).nodes;
    var k := FirstWithId(nodes, id);
    if k < |nodes| {
      AtHome(t, nodes[k]);
      assert nodes[k] in Stored(t.leaves);
    }
    if x :| x in Stored(t.leaves) && x.info.id == id {
      AtHome(t, x);
    }
  }

  /** `x` is somewhere before `y` in the list. */
  ghost predicate Precedes(nodes: seq<RoutingNode>, x: RoutingNode, y: RoutingNode) {
    exists a, b :: 0 <= a < b < |nodes| && nodes[a] == x && nodes[b] == y
  }

  /** `x` is before `y` in the same bucket. */
  ghost predicate InOrder(leaves: seq<Leaf>, x: RoutingNode, y: RoutingNode) {
    exists i :: 0 <= i < |leaves| && Precedes(leaves[i].nodes, x, y)
  }

  // ----- Changing one bucket -----

  lemma CachedUpdate(leaves: seq<Leaf>, i: nat, leaf: Leaf)
    requires i < |leaves|
    ensures Cached(leaves[i := leaf]) + multiset(leaves[i].cache) == Cached(leaves) + multiset(leaf.cache)
    ensures multiset(leaves[i].cache) <= Cached(leaves)
  {
    var s, leaf' := Swapped(leaves), Leaf(leaf.cache, leaf.nodes);
    assert Swapped(leaves[i := leaf]) == s[i := leaf'];
    StoredUpdate(s, i, leaf');
    LeafStored(s, i);
  }

  lemma CachedSame(leaves: seq<Leaf>, i: nat, leaf: Leaf)
    requires i < |leaves| && leaf.cache == leaves[i].cache
    ensures Cached(leaves[i := leaf]) == Cached(leaves)
  {
    CachedUpdate(leaves, i, leaf);
    Cancel(Cached(leaves[i := leaf]), Cached(leaves), multiset(leaf.cache));
  }

  /** In one bucket `out` goes and `more` comes. */
  lemma StoredExchange(leaves: seq<Leaf>, i: nat, leaf: Leaf, out: multiset<RoutingNode>, more: multiset<RoutingNode>)
    requires i < |leaves| && out <= multiset(leaves[i].nodes)
    requires multiset(leaf.nodes) == multiset(leaves[i].nodes) - out + more
    ensures Stored(leaves[i := leaf]) == Stored(leaves) - out + more && out <= Stored(leaves)
  {
    hide Stored;
    StoredUpdate(leaves, i, leaf);
    LeafStored(leaves, i);
    Exchange(Stored(leaves), Stored(leaves[i := leaf]), multiset(leaves[i].nodes), out, more);
  }

  lemma CachedExchange(leaves: seq<Leaf>, i: nat, leaf: Leaf, out: multiset<RoutingNode>, more: multiset<RoutingNode>)
    requires i < |leaves| && out <= multiset(leaves[i].cache)
    requires multiset(leaf.cache) == multiset(leaves[i].cache) - out + more
    ensures Cached(leaves[i := leaf]) == Cached(leaves) - out + more && out <= Cached(leaves)
  {
    hide Stored;
    CachedUpdate(leaves, i, leaf);
    Exchange(Cached(leaves), Cached(leaves[i := leaf]), multiset(leaves[i].cache), out, more);
  }

  lemma OrderUpdate(leaves: seq<Leaf>, i: nat, leaf: Leaf, x: RoutingNode, y: RoutingNode)
    requires i < |leaves| && InOrder(leaves[i := leaf], x, y)
    ensures InOrder(leaves, x, y) || Precedes(leaf.nodes, x, y)
  {
    hide Precedes;
    var j :| 0 <= j < |leaves| && Precedes(leaves[i := leaf][j].nodes, x, y);
  }

  // ----- Removal -----

  /** The node that a removal from the bucket takes out of its cache. */
  ghost function Promoted(leaf: Leaf): multiset<RoutingNode> {
    if leaf.cache == [] then multiset{} else multiset{leaf.cache[0]}
  }

  /** The first node of its bucket with the identifier. */
  ghost predicate FirstKnown(t: Table, id: NodeId, x: RoutingNode)
    requires Fits(t)
  {
    var home := Home(t, id).nodes;
    exists k :: 0 <= k < |home| && home[k] == x && x.info.id == id && forall j :: 0 <= j < k ==> home[j].info.id != id
  }

  /** The first node with the identifier is gone, and the newest cached node of its bucket has come instead. */
  ghost predicate Removed(t: Table, id: NodeId, r: Table)
    requires Fits(t)
  {
    var front := Promoted(Home(t, id));
    && |r.leaves| == |t.leaves| && r.nodeCount == t.nodeCount - 1
    && (exists x :: x in Stored(t.leaves) && FirstKnown(t, id, x) && Stored(r.leaves) == Stored(t.leaves) - multiset{x} + front)
    && Cached(r.leaves) == Cached(t.leaves) - front && front <= Cached(t.leaves)
    && (forall x, y :: InOrder(r.leaves, x, y) ==> InOrder(t.leaves, x, y) || y in front)
  }

  lemma RemoveAtOrder(nodes: seq<RoutingNode>, k: nat, more: seq<RoutingNode>, x: RoutingNode, y: RoutingNode)
    requires k < |nodes| && |more| <= 1 && Precedes(RemoveAt(nodes, k) + more, x, y)
    ensures Precedes(nodes, x, y) || y in more
  {
    var r := RemoveAt(nodes, k) + more;
    var a, b :| 0 <= a < b < |r| && r[a] == x && r[b] == y;
    if b < |nodes| - 1 {
      var a', b' := if a < k then a else a + 1, if b < k then b else b + 1;
      assert nodes[a'] == x && nodes[b'] == y && a' < b';
    } else {
      assert y == more[0];
    }
  }

  lemma AfterDropIs(leaf: Leaf, k: nat)
    requires k < |leaf.nodes|
    ensures var r, more := AfterDrop(leaf, k), if leaf.cache == [] then [] else [leaf.cache[0]];
            && r.nodes == RemoveAt(leaf.nodes, k) + more && multiset(more) == Promoted(leaf)
            && multiset(r.nodes) == multiset(leaf.nodes) - multiset{leaf.nodes[k]} + Promoted(leaf)
            && multiset(r.cache) == multiset(leaf.cache) - Promoted(leaf) && Promoted(leaf) <= multiset(leaf.cache)
  {
    RemoveAtKeeps(leaf.nodes, k);
    if leaf.cache != [] {
      assert leaf.cache == [leaf.cache[0]] + leaf.cache[1..];
    } else {
      assert RemoveAt(leaf.nodes, k) + [] == RemoveAt(leaf.nodes, k);
    }
  }

  lemma DropUnfold(t: Table, id: NodeId, k: nat)
    requires Fits(t) && k == FirstWithId(Home(t, id).nodes, id)
    ensures k < |Home(t, id).nodes| <==> HasId(Home(t, id).nodes, id)
    ensures k < |Home(t, id).nodes| ==>
              var r := Drop(t, id);
              && r.leaves == t.leaves[IndexOf(t, id) := AfterDrop(Home(t, id), k)]
              && r.nodeCount == t.nodeCount - 1 && FirstKnown(t, id, Home(t, id).nodes[k])
    ensures k == |Home(t, id).nodes| ==> Drop(t, id) == t
  {
    hide AfterDrop;
  }

  lemma StoredAfterDrop(leaves: seq<Leaf>, i: nat, k: nat)
    requires i < |leaves| && k < |leaves[i].nodes|
    ensures var leaf, r := leaves[i], leaves[i := AfterDrop(leaves[i], k)];
            && leaf.nodes[k] in Stored(leaves)
            && Stored(r) == Stored(leaves) - multiset{leaf.nodes[k]} + Promoted(leaf)
            && Cached(r) == Cached(leaves) - Promoted(leaf) && Promoted(leaf) <= Cached(leaves)
  {
    hide Stored, Cached, AfterDrop, RemoveAt, Promoted;
    var leaf, leaf' := leaves[i], AfterDrop(leaves[i], k);
    AfterDropIs(leaf, k);
    StoredExchange(leaves, i, leaf', multiset{leaf.nodes[k]}, Promoted(leaf));
    assert multiset(leaf'.cache) == multiset(leaf.cache) - Promoted(leaf) + multiset{};
    CachedExchange(leaves, i, leaf', Promoted(leaf), multiset{});
  }

  /**
    A removal takes out one node that has the identifier, and only then: with
    none stored nothing changes at all.
   */
  lemma DropExact(t: Table, id: NodeId)
    requires Wf(t)
    ensures if Known(t, id) then Removed(t, id, Drop(t, id)) else Drop(t, id) == t
  {
    KnownAtHome(t, id);
    hide Wf, Stored, Known, Cached, InOrder, AfterDrop, RemoveAt, Promoted, Drop, FirstWithId, HasId, FirstKnown;
    var i := IndexOf(t, id);
    var k := FirstWithId(t.leaves[i].nodes, id);
    DropUnfold(t, id, k);
    if k < |t.leaves[i].nodes| {
      StoredAfterDrop(t.leaves, i, k);
      forall x, y | InOrder(Drop(t, id).leaves, x, y)
        ensures InOrder(t.leaves, x, y) || y in Promoted(t.leaves[i])
      {
        OrderUpdate(t.leaves, i, AfterDrop(t.leaves[i], k), x, y);
        DropOrder(t.leaves, i, k, x, y);
      }
    }
  }

  lemma DropOrder(leaves: seq<Leaf>, i: nat, k: nat, x: RoutingNode, y: RoutingNode)
    requires i < |leaves| && k < |leaves[i].nodes|
    ensures Precedes(AfterDrop(leaves[i], k).nodes, x, y) ==> InOrder(leaves, x, y) || y in Promoted(leaves[i])
  {
    hide Precedes, RemoveAt, AfterDrop;
    AfterDropIs(leaves[i], k);
    if Precedes(AfterDrop(leaves[i], k).nodes, x, y) {
      RemoveAtOrder(leaves[i].nodes, k, if leaves[i].cache == [] then [] else [leaves[i].cache[0]], x, y);
    }
  }

  lemma DropAtHome(t: Table, id: NodeId)
    requires Fits(t) && HasId(Home(t, id).nodes, id)
    ensures Home(Drop(t, id), id) == AfterDrop(Home(t, id), FirstWithId(Home(t, id).nodes, id))
  {
    hide AfterDrop, FirstWithId, LeafIndex;
  }

  lemma NoneLeft(leaf: Leaf, k: nat, id: NodeId)
    requires k < |leaf.nodes| && leaf.nodes[k].info.id == id && DistinctIds(leaf.nodes)
    requires forall x :: x in leaf.cache ==> x.info.id != id
    ensures !HasId(AfterDrop(leaf, k).nodes, id)
  {
    hide FirstWithId;
    var r := AfterDrop(leaf, k).nodes;
    forall j | 0 <= j < |r|
      ensures r[j].info.id != id
    {
      if j < |leaf.nodes| - 1 {
        assert r[j] == leaf.nodes[if j < k then j else j + 1];
      } else {
        assert r[j] in leaf.cache;
      }
    }
  }

  /** Where identifiers are distinct and the cache does not hold it, the identifier is gone. */
  lemma DropGone(t: Table, id: NodeId)
    requires Fits(t) && Wf(t)
    requires DistinctIds(Home(t, id).nodes) && forall x :: x in Home(t, id).cache ==> x.info.id != id
    ensures !Known(Drop(t, id), id)
  {
    hide Wf, Known, AfterDrop, FirstWithId, Drop;
    DropKeepsWf(t, id);
    KnownAtHome(Drop(t, id), id);
    KnownAtHome(t, id);
    if HasId(Home(t, id).nodes, id) {
      DropAtHome(t, id);
      NoneLeft(Home(t, id), FirstWithId(Home(t, id).nodes, id), id);
    } else {
      DropExact(t, id);
    }
  }

  // ----- Conditions -----

  /** A node is stored under exactly this identifier and address. */
  ghost predicate KnownAt(t: Table, info: NodeInfo) {
    exists x :: x in Stored(t.leaves) && x.info == info
  }

  lemma KnownAtHomeAt(t: Table, info: NodeInfo)
    requires Fits(t) && Wf(t)
    ensures KnownAt(t, info) <==> FirstAt(Home(t, info.id).nodes, info) < |Home(t, info.id).nodes|
  {
    hide Wf, Stored, FirstAt;
    var nodes := Home(t, info.id).nodes;
    var k := FirstAt(nodes, info);
    if k < |nodes| {
      AtHome(t, nodes[k]);
      assert nodes[k] in Stored(t.leaves);
    }
    if x :| x in Stored(t.leaves) && x.info == info {
      AtHome(t, x);
    }
  }

  /** Condition `x.condition` of the node becomes `c`; nothing else changes. */
  ghost predicate Reconditioned(t: Table, x: RoutingNode, c: nat, r: Table) {
    && x in Stored(t.leaves)
    && Stored(r.leaves) == Stored(t.leaves) - multiset{x} + multiset{x.(condition := c)}
    && Cached(r.leaves) == Cached(t.leaves)
    && |r.leaves| == |t.leaves|
    && (forall i :: 0 <= i < |t.leaves| ==> SameInfos(r.leaves[i].nodes, t.leaves[i].nodes))
  }

  /** The same nodes in the same places, whatever their conditions. */
  ghost predicate SameInfos(a: seq<RoutingNode>, b: seq<RoutingNode>) {
    |a| == |b| && forall j :: 0 <= j < |a| ==> a[j].info == b[j].info
  }

  lemma UpdateMultiset<T>(s: seq<T>, k: nat, x: T)
    requires k < |s|
    ensures multiset(s[k := x]) == multiset(s) - multiset{s[k]} + multiset{x}
  {
  }

  lemma SetConditionLeaf(t: Table, info: NodeInfo, c: nat)
    requires Fits(t)
    ensures var nodes := Home(t, info.id).nodes;
            var k := FirstAt(nodes, info);
            if k < |nodes| then
              && ConditionOf(t, info) == Some(nodes[k].condition)
              && SetCondition(t, info, c).leaves
                 == t.leaves[IndexOf(t, info.id) := Home(t, info.id).(nodes := nodes[k := nodes[k].(condition := c)])]
            else SetCondition(t, info, c) == t && ConditionOf(t, info) == None
  {
    hide FirstAt, LeafIndex;
  }

  lemma ReconditionedBy(t: Table, i: nat, k: nat, c: nat, r: Table)
    requires i < |t.leaves| && k < |t.leaves[i].nodes|
    requires var leaf := t.leaves[i]; r.leaves == t.leaves[i := leaf.(nodes := leaf.nodes[k := leaf.nodes[k].(condition := c)])]
    ensures Reconditioned(t, t.leaves[i].nodes[k], c, r)
  {
    hide Stored, Cached;
    var leaf := t.leaves[i];
    var x := leaf.nodes[k];
    var leaf' := leaf.(nodes := leaf.nodes[k := x.(condition := c)]);
    UpdateMultiset(leaf.nodes, k, x.(condition := c));
    StoredExchange(t.leaves, i, leaf', multiset{x}, multiset{x.(condition := c)});
    CachedSame(t.leaves, i, leaf');
  }

  lemma ConditionExact(t: Table, info: NodeInfo, c: nat)
    requires Fits(t) && Wf(t)
    ensures if KnownAt(t, info)
            then exists x: RoutingNode :: x.info == info && ConditionOf(t, info) == Some(x.condition)
                             && Reconditioned(t, x, c, SetCondition(t, info, c))
            else SetCondition(t, info, c) == t && ConditionOf(t, info) == None
  {
    hide Wf, KnownAt, Reconditioned, SetCondition, ConditionOf, LeafIndex, FirstAt;
    KnownAtHomeAt(t, info);
    SetConditionLeaf(t, info, c);
    var nodes := Home(t, info.id).nodes;
    var k := FirstAt(nodes, info);
    if k < |nodes| {
      ReconditionedBy(t, IndexOf(t, info.id), k, c, SetCondition(t, info, c));
      assert nodes[k].info == info;
    }
  }

  /** An answer from a known node clears its condition. */
  lemma MarkGoodExact(t: Table, info: NodeInfo)
    requires Fits(t) && Wf(t)
    ensures if KnownAt(t, info) then exists x: RoutingNode :: x.info == info && Reconditioned(t, x, 0, MarkGood(t, info))
            else MarkGood(t, info) == t
  {
    hide Wf, KnownAt, Reconditioned, ConditionOf, SetCondition;
    ConditionExact(t, info, 0);
    if KnownAt(t, info) {
      var x: RoutingNode :| x.info == info && ConditionOf(t, info) == Some(x.condition) && Reconditioned(t, x, 0, SetCondition(t, info, 0));
    }
  }

  /** The node's condition becomes `c`; if that is bad, a node with its identifier is removed from what is then stored. */
  ghost predicate Judged(t: Table, x: RoutingNode, c: nat, r: Table)
    requires Fits(t)
  {
    exists m: Table :: Fits(m) && Reconditioned(t, x, c, m) && if c >= 5 then Removed(m, x.info.id, r) else r == m
  }

  lemma JudgedBy(t: Table, x: RoutingNode, c: nat, m: Table, r: Table)
    requires Fits(t) && Fits(m) && Reconditioned(t, x, c, m) && if c >= 5 then Removed(m, x.info.id, r) else r == m
    ensures Judged(t, x, c, r)
  {
  }

  lemma ReconditionExact(t: Table, info: NodeInfo, c: nat)
    requires Fits(t) && Wf(t) && KnownAt(t, info)
    ensures exists x: RoutingNode :: x.info == info && ConditionOf(t, info) == Some(x.condition) && Judged(t, x, c, Recondition(t, info, c))
  {
    hide Wf, KnownAt, Reconditioned, Removed, Judged, ConditionOf, SetCondition, Drop, Known, Stored;
    var m := SetCondition(t, info, c);
    ConditionExact(t, info, c);
    var x: RoutingNode :| x.info == info && ConditionOf(t, info) == Some(x.condition) && Reconditioned(t, x, c, m);
    SetConditionKeepsWf(t, info, c);
    StillKnown(t, x, c, m);
    DropExact(m, info.id);
    JudgedBy(t, x, c, m, Recondition(t, info, c));
  }

  lemma StillKnown(t: Table, x: RoutingNode, c: nat, m: Table)
    requires Reconditioned(t, x, c, m)
    ensures Known(m, x.info.id)
  {
    hide Stored;
    assert x.(condition := c) in Stored(m.leaves);
  }

  /** A node that turns out bad is removed; an unknown one changes nothing. */
  lemma MarkBadExact(t: Table, info: NodeInfo)
    requires Fits(t) && Wf(t)
    ensures if KnownAt(t, info) then exists x: RoutingNode :: x.info == info && Judged(t, x, 5, MarkBadAndRemove(t, info))
            else MarkBadAndRemove(t, info) == t
  {
    hide Wf, KnownAt, Judged, ConditionOf, SetCondition, Recondition, Reconditioned;
    ConditionExact(t, info, 5);
    if KnownAt(t, info) {
      ReconditionExact(t, info, 5);
      var x: RoutingNode :| x.info == info && ConditionOf(t, info) == Some(x.condition) && Judged(t, x, 5, Recondition(t, info, 5));
    }
  }

  /** A timeout counts one; at five the node is removed. */
  lemma TimeoutExact(t: Table, info: NodeInfo)
    requires Fits(t) && Wf(t)
    ensures if KnownAt(t, info) then exists x: RoutingNode :: x.info == info && Judged(t, x, x.condition + 1, OnTimeout(t, info))
            else OnTimeout(t, info) == t
  {
    hide Wf, KnownAt, Judged, ConditionOf, SetCondition, Recondition, Reconditioned;
    ConditionExact(t, info, 0);
    if KnownAt(t, info) {
      var c := ConditionOf(t, info).value + 1;
      ReconditionExact(t, info, c);
      var x: RoutingNode :| x.info == info && ConditionOf(t, info) == Some(x.condition) && Judged(t, x, c, Recondition(t, info, c));
    }
  }

  // ----- Insertion -----

  /** What is pushed out: the node that was known by this identifier, or a bad one from a full bucket. */
  ghost predicate MakesRoom(t: Table, id: NodeId, size: nat, out: multiset<RoutingNode>) {
    if Known(t, id) then exists x: RoutingNode :: x.info.id == id && out == multiset{x}
    else out == multiset{} || (size == 8 && exists x: RoutingNode :: x.condition >= 5 && out == multiset{x})
  }

  /** The node is last in its bucket; at most one other is gone, to make room; the others keep their order. */
  ghost predicate Admitted(t: Table, node: RoutingNode, r: Table)
    requires Fits(t) && Fits(r)
  {
    var home := Home(r, node.info.id).nodes;
    && home != [] && home[|home| - 1] == node
    && (exists out :: MakesRoom(t, node.info.id, |home|, out) && out <= Stored(t.leaves)
                      && Stored(r.leaves) == Stored(t.leaves) - out + multiset{node})
    && Cached(r.leaves) == Cached(t.leaves)
    && (forall x, y :: InOrder(r.leaves, x, y) ==> InOrder(t.leaves, x, y) || y == node)
  }

  /** The oldest cached node of a full cache. */
  ghost function Forgotten(leaf: Leaf): multiset<RoutingNode> {
    if |leaf.cache| >= 2 then multiset{leaf.cache[1]} else multiset{}
  }

  ghost predicate CachedFirst(t: Table, node: RoutingNode, r: Table)
    requires Fits(t) && Fits(r)
  {
    var cache, old' := Home(r, node.info.id).cache, Home(t, node.info.id).cache;
    && cache != [] && cache[0] == node && cache[1..] <= old' && |cache| == Min(|old'| + 1, 2)
    && Cached(r.leaves) == Cached(t.leaves) + multiset{node} - Forgotten(Home(t, node.info.id))
  }

  /**
    The identifier is unknown, its bucket is full of nodes led by one that is
    not bad, and may not be split; a good node goes in front of its cache.
   */
  ghost predicate Refused(t: Table, node: RoutingNode, good: bool, r: Table)
    requires Fits(t) && Fits(r)
  {
    var home := Home(r, node.info.id).nodes;
    && !Known(t, node.info.id) && |home| >= 8 && home[0].condition < 5
    && (IndexOf(r, node.info.id) < Splits(r) || Splits(r) == 159)
    && Stored(r.leaves) == Stored(t.leaves)
    && (if good then CachedFirst(t, node, r) else Cached(r.leaves) == Cached(t.leaves))
    && (forall x, y :: InOrder(r.leaves, x, y) ==> InOrder(t.leaves, x, y))
  }

  /** Buckets are split only for a node that its bucket cannot take. */
  ghost predicate SplitsOnlyFull(t: Table, node: RoutingNode, r: Table)
    requires Fits(t)
  {
    |r.leaves| > |t.leaves| ==>
      var home := Home(t, node.info.id).nodes;
      !Known(t, node.info.id) && |home| >= 8 && home[0].condition < 5 && IndexOf(t, node.info.id) == Splits(t)
  }

  lemma {:induction false} HalfOrder(nodes: seq<RoutingNode>, k: nat, v: bool, x: RoutingNode, y: RoutingNode)
    requires k < ID_BITS && Precedes(Half(nodes, k, v), x, y)
    ensures Precedes(nodes, x, y)
    decreases |nodes|
  {
    hide Bit;
    var m := |nodes| - 1;
    var h, last := Half(nodes[..m], k, v), nodes[m];
    var r := Half(nodes, k, v);
    var a, b :| 0 <= a < b < |r| && r[a] == x && r[b] == y;
    if b < |h| {
      assert h[a] == x && h[b] == y;
      HalfOrder(nodes[..m], k, v, x, y);
      var a', b' :| 0 <= a' < b' < m && nodes[..m][a'] == x && nodes[..m][b'] == y;
      assert nodes[a'] == x && nodes[b'] == y;
    } else {
      HalfSound(nodes[..m], k, v);
      assert x in nodes[..m];
      var a' :| 0 <= a' < m && nodes[..m][a'] == x;
      assert nodes[a'] == x && nodes[m] == y;
    }
  }

  lemma SplitOrder(t: Table, x: RoutingNode, y: RoutingNode)
    requires Fits(t) && Splits(t) < MAX_SPLITS && InOrder(SplitLast(t).leaves, x, y)
    ensures InOrder(t.leaves, x, y)
  {
    hide Precedes, Bit, Half;
    var n, r := Splits(t), SplitLast(t);
    var i :| 0 <= i < |r.leaves| && Precedes(r.leaves[i].nodes, x, y);
    if i < n {
      assert r.leaves[i] == t.leaves[i];
    } else {
      HalfOrder(t.leaves[n].nodes, n, if i == n then !Bit(t.local, n) else Bit(t.local, n), x, y);
    }
  }

  lemma SplitCached(t: Table)
    requires Fits(t) && Splits(t) < MAX_SPLITS && t.leaves[Splits(t)].cache == []
    ensures Cached(SplitLast(t).leaves) == Cached(t.leaves)
  {
    var n, r := Splits(t), SplitLast(t);
    var a, b := Swapped(t.leaves), Swapped(r.leaves);
    assert a[n].nodes == [] && b[n].nodes == [] && b[n + 1].nodes == [] && |b| == n + 2 && |a| == n + 1;
    assert forall i :: 0 <= i < n ==> a[i] == b[i];
    hide Stored, SplitLast, Swapped;
    assert a[..n] == b[..n];
    assert b == b[..n] + [b[n]] + [b[n + 1]] && a == a[..n] + [a[n]];
    StoredAppend(b[..n], b[n]);
    StoredAppend(b[..n] + [b[n]], b[n + 1]);
    StoredAppend(a[..n], a[n]);
  }

  lemma SplitHome(t: Table, id: NodeId)
    requires Fits(t) && Splits(t) < MAX_SPLITS && t.leaves[Splits(t)].cache == [] && IndexOf(t, id) == Splits(t)
    ensures Home(SplitLast(t), id).cache == []
  {
    LaterLeaf(t.local, Splits(t), id);
    hide LeafIndex, Half;
  }

  /** The bucket that is split has no cache, and neither have its halves. */
  lemma SplitCaches(t: Table, id: NodeId)
    requires Wf(t) && Splits(t) < MAX_SPLITS && IndexOf(t, id) == Splits(t)
    ensures Cached(SplitLast(t).leaves) == Cached(t.leaves)
    ensures Home(t, id).cache == [] && Home(SplitLast(t), id).cache == []
  {
    assert LeafOk(t.local, Splits(t), Splits(t), t.leaves[Splits(t)]);
    hide SplitLast, Cached, LeafIndex;
    SplitCached(t);
    SplitHome(t, id);
  }

  lemma LaterLeaf(local: NodeId, n: nat, id: NodeId)
    requires n < ID_BITS && LeafIndex(local, n, id) == n
    ensures LeafIndex(local, n + 1, id) >= n
  {
  }

  lemma AfterAddOrder(nodes: seq<RoutingNode>, node: RoutingNode, x: RoutingNode, y: RoutingNode)
    requires CanAdd(nodes, node.info.id) && Precedes(AfterAdd(nodes, node), x, y)
    ensures Precedes(nodes, x, y) || y == node
  {
    hide Precedes, FirstWithId;
    if HasId(nodes, node.info.id) {
      RemoveAtOrder(nodes, FirstWithId(nodes, node.info.id), [node], x, y);
    } else if |nodes| < BUCKET_K {
      AppendOrder(nodes, node, x, y);
    } else {
      assert RemoveAt(nodes, 0) == nodes[1..];
      RemoveAtOrder(nodes, 0, [node], x, y);
    }
  }

  lemma AppendOrder(nodes: seq<RoutingNode>, node: RoutingNode, x: RoutingNode, y: RoutingNode)
    requires Precedes(nodes + [node], x, y)
    ensures Precedes(nodes, x, y) || y == node
  {
    var r := nodes + [node];
    var a, b :| 0 <= a < b < |r| && r[a] == x && r[b] == y;
    if b < |nodes| {
      assert nodes[a] == x && nodes[b] == y;
    }
  }

  lemma PushedMakesRoom(t: Table, node: RoutingNode, i: nat)
    requires Fits(t) && Wf(t) && i == IndexOf(t, node.info.id) && CanAdd(t.leaves[i].nodes, node.info.id)
    ensures var nodes := t.leaves[i].nodes;
            MakesRoom(t, node.info.id, |AfterAdd(nodes, node)|, PushedOut(nodes, node.info.id))
  {
    KnownAtHome(t, node.info.id);
    assert LeafOk(t.local, Splits(t), i, t.leaves[i]);
    hide Wf, Known, LeafOk;
    var nodes, id := t.leaves[i].nodes, node.info.id;
    if HasId(nodes, id) {
      assert nodes[FirstWithId(nodes, id)].info.id == id;
    } else if |nodes| >= BUCKET_K {
      assert nodes[0].condition >= 5;
    }
  }

  lemma AfterAddLast(nodes: seq<RoutingNode>, node: RoutingNode)
    requires CanAdd(nodes, node.info.id)
    ensures var r := AfterAdd(nodes, node); r != [] && r[|r| - 1] == node
  {
  }

  lemma AddAtLeaf(t: Table, node: RoutingNode, i: nat)
    requires Fits(t) && i == IndexOf(t, node.info.id) && CanAdd(t.leaves[i].nodes, node.info.id)
    ensures var r := AddAt(t, i, node);
            && r.leaves == t.leaves[i := t.leaves[i].(nodes := AfterAdd(t.leaves[i].nodes, node))]
            && Fits(r) && IndexOf(r, node.info.id) == i
  {
    hide AfterAdd, CanAdd;
  }

  lemma AddAtAdmitted(t: Table, node: RoutingNode, i: nat)
    requires Fits(t) && Wf(t) && i == IndexOf(t, node.info.id) && CanAdd(t.leaves[i].nodes, node.info.id)
    ensures Fits(AddAt(t, i, node)) && Admitted(t, node, AddAt(t, i, node))
  {
    hide Wf, Stored, AfterAdd, Cached, InOrder, PushedOut, CanAdd, MakesRoom, AddAt, LeafIndex;
    var r, leaf := AddAt(t, i, node), t.leaves[i];
    var leaf' := leaf.(nodes := AfterAdd(leaf.nodes, node));
    AfterAddLast(leaf.nodes, node);
    AddAtLeaf(t, node, i);
    PushedMakesRoom(t, node, i);
    AddAtStored(t, i, node);
    CachedSame(t.leaves, i, leaf');
    forall x, y | InOrder(r.leaves, x, y)
      ensures InOrder(t.leaves, x, y) || y == node
    {
      OrderUpdate(t.leaves, i, leaf', x, y);
      AddOrder(t.leaves, i, node, x, y);
    }
  }

  lemma AddOrder(leaves: seq<Leaf>, i: nat, node: RoutingNode, x: RoutingNode, y: RoutingNode)
    requires i < |leaves| && CanAdd(leaves[i].nodes, node.info.id)
    ensures Precedes(AfterAdd(leaves[i].nodes, node), x, y) ==> InOrder(leaves, x, y) || y == node
  {
    hide Precedes, AfterAdd, CanAdd;
    if Precedes(AfterAdd(leaves[i].nodes, node), x, y) {
      AfterAddOrder(leaves[i].nodes, node, x, y);
    }
  }

  lemma CacheAtFirst(t: Table, node: RoutingNode, i: nat)
    requires Fits(t) && Wf(t) && i == IndexOf(t, node.info.id)
    ensures var r := CacheAt(t, i, node); Fits(r) && CachedFirst(t, node, r)
  {
    var leaf, r := t.leaves[i], CacheAt(t, i, node);
    var leaf' := leaf.(cache := AfterCache(leaf.cache, node));
    assert LeafOk(t.local, Splits(t), i, leaf);
    assert r.leaves == t.leaves[i := leaf'] && Fits(r) && IndexOf(r, node.info.id) == i;
    hide Wf, Stored, LeafOk, Cached;
    CacheMultiset(leaf, node);
    CachedUpdate(t.leaves, i, leaf');
    CacheExchange(Cached(t.leaves), Cached(r.leaves), multiset(leaf.cache), Forgotten(leaf), node);
  }

  lemma CacheMultiset(leaf: Leaf, node: RoutingNode)
    requires |leaf.cache| <= 2
    ensures var cache := AfterCache(leaf.cache, node);
            && multiset(cache) == multiset(leaf.cache) + multiset{node} - Forgotten(leaf)
            && cache != [] && cache[0] == node && cache[1..] <= leaf.cache && |cache| == Min(|leaf.cache| + 1, 2)
            && Forgotten(leaf) <= multiset(leaf.cache)
  {
    var c := leaf.cache;
    if |c| == 2 {
      assert AfterCache(c, node) == [node, c[0]];
      SecondGoes(c, node);
    } else {
      assert AfterCache(c, node) == [node] + c;
    }
    hide AfterCache;
  }

  lemma SecondGoes<T>(c: seq<T>, x: T)
    requires |c| == 2
    ensures multiset([x, c[0]]) == multiset(c) + multiset{x} - multiset{c[1]}
    ensures multiset{c[1]} <= multiset(c)
  {
    assert c == [c[0], c[1]];
    forall y: T
      ensures multiset([x, c[0]])[y] == (multiset(c) + multiset{x} - multiset{c[1]})[y]
    {
      assert multiset(c)[y] == (if y == c[0] then 1 else 0) + (if y == c[1] then 1 else 0);
    }
  }

  lemma CacheExchange<T>(before: multiset<T>, after: multiset<T>, part: multiset<T>, out: multiset<T>, x: T)
    requires after + part == before + (part + multiset{x} - out) && out <= part <= before
    ensures after == before + multiset{x} - out
  {
    forall y: T
      ensures after[y] == (before + multiset{x} - out)[y]
    {
      assert (after + part)[y] == (before + (part + multiset{x} - out))[y];
    }
  }

  lemma CannotAdd(t: Table, id: NodeId)
    requires Fits(t) && Wf(t) && !CanAdd(Home(t, id).nodes, id)
    ensures !Known(t, id) && |Home(t, id).nodes| >= 8 && Home(t, id).nodes[0].condition < 5
  {
    hide Wf, Known;
    KnownAtHome(t, id);
  }

  lemma CacheAtKeeps(t: Table, node: RoutingNode, i: nat)
    requires i < |t.leaves|
    ensures var r := CacheAt(t, i, node);
            && r.local == t.local && |r.leaves| == |t.leaves| && r.leaves[i].nodes == t.leaves[i].nodes
            && Stored(r.leaves) == Stored(t.leaves)
            && forall x, y :: InOrder(r.leaves, x, y) ==> InOrder(t.leaves, x, y)
  {
    var r := CacheAt(t, i, node);
    var leaf' := t.leaves[i].(cache := AfterCache(t.leaves[i].cache, node));
    assert r.leaves == t.leaves[i := leaf'];
    hide Stored, InOrder, AfterCache, CacheAt;
    StoredExchange(t.leaves, i, leaf', multiset{}, multiset{});
    forall x, y | InOrder(r.leaves, x, y)
      ensures InOrder(t.leaves, x, y)
    {
      OrderUpdate(t.leaves, i, leaf', x, y);
      OrderHere(t.leaves, i, x, y);
    }
  }

  lemma NotAdded(t: Table, node: RoutingNode, good: bool, r: Table)
    requires Fits(t) && Wf(t) && var i := IndexOf(t, node.info.id);
             && !CanAdd(t.leaves[i].nodes, node.info.id) && (i < Splits(t) || Splits(t) == MAX_SPLITS)
             && r == if good then CacheAt(t, i, node) else t
    ensures Fits(r) && Refused(t, node, good, r)
  {
    hide Wf, Stored, Cached, InOrder, Known, CacheAt, CanAdd, CachedFirst;
    var i := IndexOf(t, node.info.id);
    CannotAdd(t, node.info.id);
    if good {
      CacheAtFirst(t, node, i);
      CacheAtKeeps(t, node, i);
    }
  }

  lemma OrderHere(leaves: seq<Leaf>, i: nat, x: RoutingNode, y: RoutingNode)
    requires i < |leaves|
    ensures Precedes(leaves[i].nodes, x, y) ==> InOrder(leaves, x, y)
  {
  }

  lemma AdmittedBefore(t: Table, s: Table, node: RoutingNode, r: Table)
    requires Fits(t) && Fits(s) && Fits(r) && Admitted(s, node, r)
    requires Stored(s.leaves) == Stored(t.leaves) && Cached(s.leaves) == Cached(t.leaves)
    requires forall x, y :: InOrder(s.leaves, x, y) ==> InOrder(t.leaves, x, y)
    ensures Admitted(t, node, r)
  {
    hide Stored, Cached, InOrder;
    var home := Home(r, node.info.id).nodes;
    var out :| MakesRoom(s, node.info.id, |home|, out) && out <= Stored(s.leaves)
               && Stored(r.leaves) == Stored(s.leaves) - out + multiset{node};
    assert MakesRoom(t, node.info.id, |home|, out);
  }

  lemma RefusedBefore(t: Table, s: Table, node: RoutingNode, good: bool, r: Table)
    requires Fits(t) && Fits(s) && Fits(r) && Refused(s, node, good, r)
    requires Stored(s.leaves) == Stored(t.leaves) && Cached(s.leaves) == Cached(t.leaves)
    requires Home(s, node.info.id).cache == Home(t, node.info.id).cache == []
    requires forall x, y :: InOrder(s.leaves, x, y) ==> InOrder(t.leaves, x, y)
    ensures Refused(t, node, good, r)
  {
    hide Stored, Cached, InOrder;
  }

  /** An insertion, through any number of splits, admits the node or refuses it, exactly when it has to. */
  lemma {:induction false} InsertExact(t: Table, node: RoutingNode, good: bool)
    requires Fits(t) && Wf(t) && node.info.id != t.local
    ensures var (r, ok) := Insert(t, node, good);
            (if ok then Admitted(t, node, r) else Refused(t, node, good, r)) && SplitsOnlyFull(t, node, r)
    decreases ID_BITS - |t.leaves|
  {
    InsertUnfold(t, node, good);
    hide Insert, Wf, Admitted, Refused, AddAt, CacheAt;
    var i := IndexOf(t, node.info.id);
    var r := Insert(t, node, good).0;
    if CanAdd(t.leaves[i].nodes, node.info.id) {
      AddAtAdmitted(t, node, i);
      AddAtSize(t, node, i);
    } else if i == Splits(t) < MAX_SPLITS {
      var s := SplitLast(t);
      SplitKeepsWf(t);
      SplitCaches(t, node.info.id);
      InsertExact(s, node, good);
      KnownAtHome(t, node.info.id);
      hide SplitLast;
      forall x, y | InOrder(s.leaves, x, y)
        ensures InOrder(t.leaves, x, y)
      {
        SplitOrder(t, x, y);
      }
      if Insert(t, node, good).1 {
        AdmittedBefore(t, s, node, r);
      } else {
        RefusedBefore(t, s, node, good, r);
      }
    } else {
      NotAdded(t, node, good, r);
      CacheAtSize(t, node, i);
    }
  }

  lemma AddAtSize(t: Table, node: RoutingNode, i: nat)
    requires i < |t.leaves| && CanAdd(t.leaves[i].nodes, node.info.id)
    ensures |AddAt(t, i, node).leaves| == |t.leaves|
  {
  }

  lemma CacheAtSize(t: Table, node: RoutingNode, i: nat)
    requires i < |t.leaves|
    ensures |CacheAt(t, i, node).leaves| == |t.leaves|
  {
  }

  /** How adding a node ends: the table's own identifier changes nothing. */
  ghost predicate Offered(t: Table, info: NodeInfo, good: bool, r: Table, ok: bool)
    requires Fits(t) && Fits(r)
  {
    if info.id == t.local then r == t && !ok
    else if ok then Admitted(t, RoutingNode(info, 0), r)
    else Refused(t, RoutingNode(info, 0), good, r)
  }

  lemma AddExact(t: Table, info: NodeInfo, good: bool)
    requires Fits(t) && Wf(t)
    ensures Offered(t, info, good, Add(t, info, good).0, Add(t, info, good).1)
  {
    hide Wf, Admitted, Refused, Insert, SplitsOnlyFull;
    if info.id != t.local {
      InsertExact(t, NewNode(info), good);
    }
  }

  /** A batch adds the good node and then removes the other, if one is named. */
  lemma BatchExact(t: Table, info: NodeInfo, removeId: NodeId)
    requires Fits(t) && Wf(t)
    ensures exists m, ok :: Fits(m) && Offered(t, info, true, m, ok)
              && if !AllZero(removeId) && Known(m, removeId) then Removed(m, removeId, BatchUpdate(t, info, removeId))
                 else BatchUpdate(t, info, removeId) == m
  {
    hide Wf, Offered, Removed, Known, Add, Drop;
    var (m, ok) := Add(t, info, true);
    AddExact(t, info, true);
    AddKeepsWf(t, info, true);
    DropExact(m, removeId);
    LowestIs(removeId);
    assert Fits(m) && Offered(t, info, true, m, ok);
  }

  predicate AllZero(id: NodeId) {
    forall j :: 0 <= j < |id| ==> id[j] == 0
  }

  lemma LowestIs(id: NodeId)
    ensures id == Lowest() <==> AllZero(id)
  {
  }

  // ----- Nodes that do not answer -----

  /** The only node with its identifier, stored or cached in its bucket. */
  ghost predicate Alone(t: Table, x: RoutingNode)
    requires Fits(t)
  {
    var home := Home(t, x.info.id);
    x in home.nodes && DistinctIds(home.nodes) && forall y :: y in home.cache ==> y.info.id != x.info.id
  }

  lemma SetAlone(t: Table, x: RoutingNode, c: nat)
    requires Fits(t) && Alone(t, x)
    ensures Alone(SetCondition(t, x.info, c), x.(condition := c))
    ensures ConditionOf(t, x.info) == Some(x.condition)
  {
    hide LeafIndex;
    var nodes := Home(t, x.info.id).nodes;
    var k := FirstAt(nodes, x.info);
    var j :| 0 <= j < |nodes| && nodes[j] == x;
    assert k == j;
    assert Home(SetCondition(t, x.info, c), x.info.id).nodes[k] == x.(condition := c);
  }

  lemma OneTimeout(t: Table, x: RoutingNode)
    requires Fits(t) && Wf(t) && Alone(t, x)
    ensures var r := OnTimeout(t, x.info);
            Wf(r) && if x.condition + 1 < 5 then Alone(r, x.(condition := x.condition + 1)) else !Known(r, x.info.id)
  {
    hide Wf, Alone, Known, SetCondition, ConditionOf, Drop, OnTimeout, Recondition;
    TimeoutKeepsWf(t, x.info);
    TimeoutUnfold(t, x.info);
    var c := x.condition + 1;
    SetAlone(t, x, c);
    ReconditionIs(t, x.info, c);
    SetConditionKeepsWf(t, x.info, c);
    if c >= 5 {
      AloneGone(SetCondition(t, x.info, c), x.(condition := c));
    }
  }

  lemma ReconditionIs(t: Table, info: NodeInfo, c: nat)
    requires Fits(t)
    ensures Recondition(t, info, c) == if c >= 5 then Drop(SetCondition(t, info, c), info.id) else SetCondition(t, info, c)
  {
    hide SetCondition, Drop;
  }

  lemma AloneGone(t: Table, x: RoutingNode)
    requires Fits(t) && Wf(t) && Alone(t, x)
    ensures !Known(Drop(t, x.info.id), x.info.id)
  {
    hide Wf, Known, Drop;
    DropGone(t, x.info.id);
  }

  function Timeouts(t: Table, info: NodeInfo, n: nat): (r: Table)
    requires Fits(t)
    ensures Fits(r)
  {
    if n == 0 then t else OnTimeout(Timeouts(t, info, n - 1), info)
  }

  lemma UnknownIgnored(t: Table, info: NodeInfo)
    requires Fits(t) && Wf(t) && !Known(t, info.id)
    ensures OnTimeout(t, info) == t
  {
    hide Wf, Judged, Stored, OnTimeout;
    TimeoutExact(t, info);
  }

  /** A node is kept until its timeouts, counted from its last answer, reach five, and is then gone. */
  lemma {:induction false} TimeoutsRemove(t: Table, x: RoutingNode, n: nat)
    requires Fits(t) && Wf(t) && Alone(t, x) && x.condition < 5
    ensures var r := Timeouts(t, x.info, n);
            Wf(r) && if x.condition + n < 5 then Alone(r, x.(condition := x.condition + n)) else !Known(r, x.info.id)
  {
    hide Wf, Alone, Known, OnTimeout;
    if n == 0 {
      assert x.(condition := x.condition + 0) == x;
    } else {
      var m := Timeouts(t, x.info, n - 1);
      TimeoutsRemove(t, x, n - 1);
      if x.condition + n - 1 < 5 {
        OneTimeout(m, x.(condition := x.condition + n - 1));
      } else {
        UnknownIgnored(m, x.info);
      }
    }
  }
}
