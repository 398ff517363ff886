/** The nodes a closest-node lookup collects, in the order in which it collects them. */
module RoutingClosest {
  import opened Bytes
  import opened NodeIds
  import opened RoutingSpec
  import opened RoutingInvariants

  function Good(nodes: seq<RoutingNode>): seq<RoutingNode> {
    if nodes == [] then []
    else if nodes[|nodes| - 1].IsBad() then Good(nodes[..|nodes| - 1])
    else Good(nodes[..|nodes| - 1]) + [nodes[|nodes| - 1]]
  }

  /**
    The subtree that holds the local identifier at depth j, left child first or
    right child first. Its two children are leaf j and the subtree at depth j + 1.
   */
  function Downward(t: Table, j: nat, leftFirst: bool): seq<RoutingNode>
    requires Fits(t) && j <= Splits(t)
    decreases Splits(t) - j
  {
    if j == Splits(t) then Good(t.leaves[j].nodes)
    else if Bit(t.local, j) == leftFirst
    then Good(t.leaves[j].nodes) + Downward(t, j + 1, leftFirst)
    else Downward(t, j + 1, leftFirst) + Good(t.leaves[j].nodes)
  }

  /** The leaves hanging off the path from depth j up to the root. */
  function Upward(t: Table, j: nat): seq<RoutingNode>
    requires Fits(t) && j <= Splits(t)
  {
    if j == 0 then [] else Good(t.leaves[j - 1].nodes) + Upward(t, j - 1)
  }

  /** The depth of the parent of the leaf that holds the target. */
  function ParentDepth(t: Table, target: NodeId): nat
    requires Fits(t) && Splits(t) > 0
  {
    Min(IndexOf(t, target), Splits(t) - 1)
  }

  function Ranking(t: Table, target: NodeId): seq<RoutingNode>
    requires Fits(t)
  {
    if Splits(t) == 0 then Good(t.leaves[0].nodes)
    else
      var d := ParentDepth(t, target);
      Downward(t, d, !Bit(target, d)) + Upward(t, d)
  }

  function Take<T>(s: seq<T>, k: nat): seq<T> {
    s[..Min(|s|, k)]
  }

  function Closest(t: Table, target: NodeId): seq<RoutingNode>
    requires Fits(t)
  {
    Take(Ranking(t, target), BUCKET_K)
  }

  // ----- Every good node is ranked exactly once -----

  ghost function AllGood(leaves: seq<Leaf>): multiset<RoutingNode> {
    if leaves == [] then multiset{}
    else AllGood(leaves[..|leaves| - 1]) + multiset(Good(leaves[|leaves| - 1].nodes))
  }

  lemma {:induction false} UpwardAll(t: Table, j: nat)
    requires Fits(t) && j <= Splits(t)
    ensures multiset(Upward(t, j)) == AllGood(t.leaves[..j])
  {
    if j > 0 {
      UpwardAll(t, j - 1);
      assert t.leaves[..j][..j - 1] == t.leaves[..j - 1];
    }
  }

  lemma {:induction false} DownwardAll(t: Table, j: nat, leftFirst: bool)
    requires Fits(t) && j <= Splits(t)
    ensures multiset(Downward(t, j, leftFirst)) + AllGood(t.leaves[..j]) == AllGood(t.leaves)
    decreases Splits(t) - j
  {
    hide Good;
    assert AllGood(t.leaves[..j + 1]) == AllGood(t.leaves[..j]) + multiset(Good(t.leaves[j].nodes)) by {
      assert t.leaves[..j + 1][..j] == t.leaves[..j];
    }
    if j == Splits(t) {
      assert t.leaves[..j + 1] == t.leaves;
    } else {
      DownwardAll(t, j + 1, leftFirst);
      hide AllGood;
    }
  }

  /** The ranking is a listing of the non-bad nodes, so a lookup returns min(8, their number). */
  lemma RankingAll(t: Table, target: NodeId)
    requires Fits(t)
    ensures multiset(Ranking(t, target)) == AllGood(t.leaves)
    ensures |Closest(t, target)| == Min(BUCKET_K, |AllGood(t.leaves)|)
  {
    if Splits(t) == 0 {
      DownwardAll(t, 0, true);
    } else {
      var d := ParentDepth(t, target);
      DownwardAll(t, d, !Bit(target, d));
      UpwardAll(t, d);
    }
    assert |multiset(Ranking(t, target))| == |Ranking(t, target)|;
  }

  lemma {:induction false} GoodSound(nodes: seq<RoutingNode>)
    ensures forall x :: x in Good(nodes) <==> x in nodes && !x.IsBad()
  {
    if nodes != [] {
      var m := |nodes| - 1;
      GoodSound(nodes[..m]);
      assert nodes == nodes[..m] + [nodes[m]];
    }
  }

  lemma {:induction false} GoodCount(nodes: seq<RoutingNode>, x: RoutingNode)
    ensures multiset(Good(nodes))[x] == if x.IsBad() then 0 else multiset(nodes)[x]
  {
    if nodes != [] {
      var m := |nodes| - 1;
      GoodCount(nodes[..m], x);
      assert nodes == nodes[..m] + [nodes[m]];
    }
  }

  /** The good nodes are the stored nodes that are not bad, each as often as it is stored. */
  lemma {:induction false} AllGoodIsStored(leaves: seq<Leaf>, x: RoutingNode)
    ensures AllGood(leaves)[x] == if x.IsBad() then 0 else Stored(leaves)[x]
  {
    if leaves != [] {
      AllGoodIsStored(leaves[..|leaves| - 1], x);
      GoodCount(leaves[|leaves| - 1].nodes, x);
    }
  }

  // ----- The ranking never goes back to a smaller subtree -----

  /** The depth of the smallest subtree around the target that also holds `id`. */
  function Level(t: Table, target: NodeId, id: NodeId): nat
    requires Fits(t)
  {
    FirstDiff(target, id, 0, LeafPrefix(Splits(t), IndexOf(t, target)))
  }

  ghost predicate LevelsIn(t: Table, target: NodeId, s: seq<RoutingNode>, lo: int, hi: int)
    requires Fits(t)
  {
    forall x :: x in s ==> lo <= Level(t, target, x.info.id) <= hi
  }

  ghost predicate Descending(t: Table, target: NodeId, s: seq<RoutingNode>)
    requires Fits(t)
  {
    forall a, b :: 0 <= a < b < |s| ==> Level(t, target, s[a].info.id) >= Level(t, target, s[b].info.id)
  }

  lemma DescendingConcat(t: Table, target: NodeId, a: seq<RoutingNode>, b: seq<RoutingNode>, lo: int, mid: int, hi: int)
    requires Fits(t)
    requires Descending(t, target, a) && Descending(t, target, b)
    requires LevelsIn(t, target, a, mid, hi) && LevelsIn(t, target, b, lo, mid)
    requires lo <= mid <= hi
    ensures Descending(t, target, a + b) && LevelsIn(t, target, a + b, lo, hi)
  {
    forall i, j | 0 <= i < j < |a + b|
      ensures Level(t, target, (a + b)[i].info.id) >= Level(t, target, (a + b)[j].info.id)
    {
      if i < |a| && j >= |a| {
        assert a[i] in a && b[j - |a|] in b;
      }
    }
  }

  /** A leaf off the target's path is left at its own depth. */
  lemma LevelOffPath(t: Table, target: NodeId, j: nat, id: NodeId)
    requires Fits(t) && j < IndexOf(t, target) && InLeaf(t.local, Splits(t), j, id)
    ensures Level(t, target, id) == j
  {
    var i := IndexOf(t, target);
    LeavesPartition(t.local, Splits(t), target, i);
    assert forall k :: 0 <= k <= j ==> Bit(target, k) == Bit(t.local, k);
    var d := Level(t, target, id);
    assert forall k :: 0 <= k < j ==> Bit(target, k) == Bit(id, k);
  }

  /** Another identifier of the target's own leaf shares the whole prefix. */
  lemma LevelInLeaf(t: Table, target: NodeId, id: NodeId)
    requires Fits(t) && InLeaf(t.local, Splits(t), IndexOf(t, target), id)
    ensures Level(t, target, id) == LeafPrefix(Splits(t), IndexOf(t, target))
  {
    var n, i := Splits(t), IndexOf(t, target);
    LeavesPartition(t.local, n, target, i);
    LeafIsRange(t.local, n, i, target);
    LeafIsRange(t.local, n, i, id);
    var a := Anchor(t.local, n, i);
    assert forall k :: 0 <= k < LeafPrefix(n, i) ==> Bit(target, k) == Bit(a, k) == Bit(id, k);
  }

  /** Below the target's leaf, all leaves part from the target where the local identifier does. */
  lemma LevelBelow(t: Table, target: NodeId, j: nat, id: NodeId)
    requires Fits(t) && IndexOf(t, target) < j <= Splits(t) && InLeaf(t.local, Splits(t), j, id)
    ensures Level(t, target, id) == IndexOf(t, target)
  {
    var i := IndexOf(t, target);
    LeavesPartition(t.local, Splits(t), target, i);
    assert forall k :: 0 <= k <= i ==> Bit(id, k) == Bit(t.local, k);
    assert forall k :: 0 <= k < i ==> Bit(target, k) == Bit(id, k);
  }

  lemma GoodInLeaf(t: Table, j: nat, x: RoutingNode)
    requires Wf(t) && j <= Splits(t) && x in Good(t.leaves[j].nodes)
    ensures InLeaf(t.local, Splits(t), j, x.info.id)
  {
    GoodSound(t.leaves[j].nodes);
    assert LeafOk(t.local, Splits(t), j, t.leaves[j]);
  }

  lemma {:induction false} UpwardLevels(t: Table, target: NodeId, j: nat)
    requires Wf(t) && j <= IndexOf(t, target)
    ensures Descending(t, target, Upward(t, j)) && LevelsIn(t, target, Upward(t, j), 0, j - 1)
  {
    hide LeafOk, Level, Good, IndexOf;
    if j > 0 {
      UpwardLevels(t, target, j - 1);
      var g := Good(t.leaves[j - 1].nodes);
      forall x | x in g
        ensures Level(t, target, x.info.id) == j - 1
      {
        GoodInLeaf(t, j - 1, x);
        LevelOffPath(t, target, j - 1, x.info.id);
      }
      DescendingConcat(t, target, g, Upward(t, j - 1), 0, j - 1, j - 1);
    }
  }

  lemma {:induction false} DownwardLevels(t: Table, target: NodeId, j: nat, leftFirst: bool)
    requires Wf(t) && IndexOf(t, target) < j <= Splits(t)
    ensures LevelsIn(t, target, Downward(t, j, leftFirst), IndexOf(t, target), IndexOf(t, target))
    decreases Splits(t) - j
  {
    hide LeafOk, Level, Good, IndexOf;
    if j < Splits(t) {
      DownwardLevels(t, target, j + 1, leftFirst);
    }
    forall x | x in Good(t.leaves[j].nodes)
      ensures Level(t, target, x.info.id) == IndexOf(t, target)
    {
      GoodInLeaf(t, j, x);
      LevelBelow(t, target, j, x.info.id);
    }
  }

  lemma LeafLevels(t: Table, target: NodeId)
    requires Wf(t)
    ensures var p := LeafPrefix(Splits(t), IndexOf(t, target));
      LevelsIn(t, target, Good(t.leaves[IndexOf(t, target)].nodes), p, p)
  {
    var i := IndexOf(t, target);
    forall x | x in Good(t.leaves[i].nodes)
      ensures Level(t, target, x.info.id) == LeafPrefix(Splits(t), i)
    {
      GoodInLeaf(t, i, x);
      LevelInLeaf(t, target, x.info.id);
    }
  }

  /** The target's own leaf comes first, then the rest of its parent's subtree. */
  lemma OwnThenBelow(t: Table, target: NodeId)
    requires Wf(t) && IndexOf(t, target) < Splits(t)
    ensures var d := IndexOf(t, target);
      var s := Downward(t, d, !Bit(target, d));
      Descending(t, target, s) && LevelsIn(t, target, s, d, d + 1)
  {
    var d := IndexOf(t, target);
    assert Bit(target, d) != Bit(t.local, d);
    hide LeafOk, Level, Good, LeafIndex, Bit;
    LeafLevels(t, target);
    var own, rest := Good(t.leaves[d].nodes), Downward(t, d + 1, !Bit(target, d));
    DownwardLevels(t, target, d + 1, !Bit(target, d));
    DescendingConcat(t, target, own, rest, d, d, d + 1);
  }

  lemma OwnThenSibling(t: Table, target: NodeId)
    requires Wf(t) && IndexOf(t, target) == Splits(t) > 0
    ensures var d := Splits(t) - 1;
      var s := Downward(t, d, !Bit(target, d));
      Descending(t, target, s) && LevelsIn(t, target, s, d, d + 1)
  {
    var n := Splits(t);
    var d := n - 1;
    LeavesPartition(t.local, n, target, n);
    assert Bit(target, d) == Bit(t.local, d);
    hide LeafOk, Level, Good, LeafIndex, Bit;
    LeafLevels(t, target);
    OffPathLevels(t, target, d);
    DescendingConcat(t, target, Good(t.leaves[n].nodes), Good(t.leaves[d].nodes), d, d, d + 1);
  }

  lemma ParentLevels(t: Table, target: NodeId)
    requires Wf(t) && Splits(t) > 0
    ensures var d := ParentDepth(t, target);
      var s := Downward(t, d, !Bit(target, d));
      Descending(t, target, s) && LevelsIn(t, target, s, d, d + 1)
  {
    if IndexOf(t, target) < Splits(t) {
      OwnThenBelow(t, target);
    } else {
      OwnThenSibling(t, target);
    }
  }

  lemma OffPathLevels(t: Table, target: NodeId, d: nat)
    requires Wf(t) && d < IndexOf(t, target)
    ensures var s := Good(t.leaves[d].nodes); Descending(t, target, s) && LevelsIn(t, target, s, d, d)
  {
    hide LeafOk, Level, Good, IndexOf;
    forall x | x in Good(t.leaves[d].nodes)
      ensures Level(t, target, x.info.id) == d
    {
      GoodInLeaf(t, d, x);
      LevelOffPath(t, target, d, x.info.id);
    }
  }

  lemma RankingDescends(t: Table, target: NodeId)
    requires Wf(t)
    ensures Descending(t, target, Ranking(t, target))
  {
    if Splits(t) == 0 {
      LeafLevels(t, target);
    } else {
      var d := ParentDepth(t, target);
      ParentLevels(t, target);
      UpwardLevels(t, target, d);
      DescendingConcat(t, target, Downward(t, d, !Bit(target, d)), Upward(t, d), 0, d, d + 1);
    }
  }

  lemma Omitted<T>(s: seq<T>, k: nat, x: T) returns (b: nat)
    requires x in multiset(s) - multiset(Take(s, k))
    ensures Min(|s|, k) <= b < |s| && s[b] == x
  {
    var m := Min(|s|, k);
    assert s == s[..m] + s[m..];
    assert x in s[m..];
    b :| 0 <= b < |s[m..]| && s[m..][b] == x;
    b := m + b;
  }

  lemma Returned<T>(s: seq<T>, k: nat, x: T) returns (a: nat)
    requires x in Take(s, k)
    ensures a < Min(|s|, k) && s[a] == x
  {
    a :| 0 <= a < |Take(s, k)| && Take(s, k)[a] == x;
  }

  /** No omitted node lies in a strictly smaller subtree around the target than a returned one. */
  lemma ClosestIsNearest(t: Table, target: NodeId, omitted: RoutingNode, returned: RoutingNode)
    requires Wf(t)
    requires omitted in AllGood(t.leaves) - multiset(Closest(t, target))
    requires returned in Closest(t, target)
    ensures Level(t, target, omitted.info.id) <= Level(t, target, returned.info.id)
  {
    RankingAll(t, target);
    var b := Omitted(Ranking(t, target), BUCKET_K, omitted);
    var a := Returned(Ranking(t, target), BUCKET_K, returned);
    RankingDescends(t, target);
  }
}
