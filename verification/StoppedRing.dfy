/** The results of stopped downloads: a ring with an index that refines a bounded queue. */
module StoppedRing {
  import opened Bytes

  type Gid = nat

  datatype Result = Result(gid: Gid, belongsTo: Gid, code: int)

  const DEFAULT_CAPACITY: nat := 1000

  /** What has been evicted: how many, how many of them errors of top-level downloads, and the last such error. */
  datatype Evicted = Evicted(total: nat, errors: nat, last: int)

  function Evict(e: Evicted, r: Result): Evicted {
    if r.belongsTo == 0 && r.code != 0
    then Evicted(e.total + 1, e.errors + 1, r.code)
    else Evicted(e.total + 1, e.errors, e.last)
  }

  function EvictAll(e: Evicted, rs: seq<Result>): (r: Evicted)
    ensures r.total == e.total + |rs|
    decreases |rs|
  {
    if rs == [] then e else EvictAll(Evict(e, rs[0]), rs[1..])
  }

  function Capacity(n: int): (r: nat)
    ensures r > 0
  {
    if n <= 0 then DEFAULT_CAPACITY else n
  }

  // ----- The queue a ring stands for -----

  ghost predicate DistinctIds(q: seq<Result>) {
    forall i, j :: 0 <= i < j < |q| ==> q[i].gid != q[j].gid
  }

  function Other(q: seq<Result>, gid: Gid): (r: seq<Result>)
    ensures |r| <= |q|
    ensures forall i :: 0 <= i < |r| ==> r[i] in q && r[i].gid != gid
  {
    if q == [] then [] else (if q[0].gid != gid then [q[0]] else []) + Other(q[1..], gid)
  }

  /** Pushing on a full queue drops the oldest. */
  function Pushed(q: seq<Result>, capacity: nat, r: Result): seq<Result>
    requires |q| <= capacity
  {
    (if |q| == capacity && q != [] then q[1..] else q) + [r]
  }

  function PushAll(q: seq<Result>, capacity: nat, rs: seq<Result>): seq<Result>
    requires |q| <= capacity && capacity > 0
    decreases |rs|
  {
    if rs == [] then q else PushAll(Pushed(q, capacity, rs[0]), capacity, rs[1..])
  }

  function Newest(q: seq<Result>, n: nat): seq<Result> {
    if |q| <= n then q else q[|q| - n..]
  }

  /** Whatever is pushed, the newest results remain, as many as fit, in the order they came. */
  lemma {:induction false} PushAllKeepsNewest(q: seq<Result>, capacity: nat, rs: seq<Result>)
    requires |q| <= capacity && capacity > 0
    ensures PushAll(q, capacity, rs) == Newest(q + rs, capacity)
    decreases |rs|
  {
    if rs == [] {
      assert q + rs == q;
    } else {
      var q' := Pushed(q, capacity, rs[0]);
      PushAllKeepsNewest(q', capacity, rs[1..]);
      assert q + rs == (q + [rs[0]]) + rs[1..];
      if |q| == capacity {
        assert q' + rs[1..] == (q + rs)[1..];
      }
    }
  }

  // ----- Slots -----

  function Slot(head: nat, i: nat, capacity: nat): (k: nat)
    requires head < capacity && i <= capacity
    ensures k < capacity
  {
    if head + i < capacity then head + i else head + i - capacity
  }

  lemma SlotMod(head: nat, i: nat, capacity: nat)
    requires head < capacity && i <= capacity
    ensures Slot(head, i, capacity) == (head + i) % capacity
  {
    if head + i >= capacity {
      Wraps(head + i, capacity);
    }
  }

  lemma Wraps(n: nat, capacity: nat)
    requires capacity <= n < 2 * capacity
    ensures n % capacity == n - capacity
  {
  }

  /** The ring's fields as a value. */
  datatype RingView = RingView(buf: seq<Option<Result>>, head: nat, size: nat, index: map<Gid, nat>) {
    ghost predicate Filled() {
      && head < |buf| && size <= |buf|
      && forall i :: 0 <= i < size ==> buf[Slot(head, i, |buf|)].Some?
    }

    /** The results, oldest first. */
    ghost function Queue(): (q: seq<Result>)
      requires Filled()
      ensures |q| == size
    {
      seq(size, i requires 0 <= i < size => buf[Slot(head, i, |buf|)].value)
    }

    /** The index knows exactly the stored GIDs, each at its slot. */
    ghost predicate Indexed()
      requires Filled()
    {
      && (forall i :: 0 <= i < size ==> Queue()[i].gid in index && index[Queue()[i].gid] == Slot(head, i, |buf|))
      && (forall g :: g in index ==> exists i :: 0 <= i < size && Queue()[i].gid == g)
    }

    ghost predicate Good() {
      Filled() && DistinctIds(Queue()) && Indexed()
    }
  }

  ghost predicate Absent(q: seq<Result>, gid: Gid) {
    forall i :: 0 <= i < |q| ==> q[i].gid != gid
  }

  lemma PushRoom(v: RingView, r: Result)
    requires v.Good() && v.size < |v.buf| && Absent(v.Queue(), r.gid)
    ensures var k := Slot(v.head, v.size, |v.buf|);
            var w := RingView(v.buf[k := Some(r)], v.head, v.size + 1, v.index[r.gid := k]);
            w.Filled() && w.Good() && w.Queue() == v.Queue() + [r]
  {
    var k := Slot(v.head, v.size, |v.buf|);
    var w := RingView(v.buf[k := Some(r)], v.head, v.size + 1, v.index[r.gid := k]);
    assert forall i :: 0 <= i < v.size ==> Slot(v.head, i, |v.buf|) != k;
    hide Slot;
    var q, q' := v.Queue(), w.Queue();
    assert q' == q + [r];
    forall g | g in w.index
      ensures exists i :: 0 <= i < w.size && q'[i].gid == g
    {
      if g == r.gid {
        assert q'[v.size].gid == g;
      } else {
        var i :| 0 <= i < v.size && q[i].gid == g;
        assert q'[i].gid == g;
      }
    }
  }

  function Popped(v: RingView, gid: Gid): RingView
    requires v.size > 0 && v.head < |v.buf|
  {
    RingView(v.buf, Slot(v.head, 1, |v.buf|), v.size - 1, v.index - {gid})
  }

  lemma PopQueue(v: RingView, gid: Gid)
    requires v.Filled() && v.size > 0
    ensures var w := Popped(v, gid); w.Filled() && w.Queue() == v.Queue()[1..]
    ensures forall i :: 0 <= i < v.size - 1 ==> Slot(Popped(v, gid).head, i, |v.buf|) == Slot(v.head, i + 1, |v.buf|)
    ensures v.buf[v.head] == Some(v.Queue()[0])
  {
    var w := Popped(v, gid);
    assert forall i :: 0 <= i < w.size ==> Slot(w.head, i, |v.buf|) == Slot(v.head, i + 1, |v.buf|);
    assert Slot(v.head, 0, |v.buf|) == v.head;
    assert w.Queue() == v.Queue()[1..];
  }

  lemma PopFirst(v: RingView)
    requires v.Good() && v.size > 0
    ensures v.head < |v.buf| && v.buf[v.head] == Some(v.Queue()[0])
    ensures var w := Popped(v, v.Queue()[0].gid); w.Good() && w.Queue() == v.Queue()[1..]
  {
    hide Slot, RingView.Queue;
    var q := v.Queue();
    var w := Popped(v, q[0].gid);
    PopQueue(v, q[0].gid);
    hide RingView.Filled;
    var q' := w.Queue();
    forall i | 0 <= i < w.size
      ensures q'[i].gid in w.index && w.index[q'[i].gid] == Slot(w.head, i, |v.buf|)
    {
      assert q'[i] == q[i + 1];
    }
    forall g | g in w.index
      ensures exists i :: 0 <= i < w.size && q'[i].gid == g
    {
      var i :| 0 <= i < v.size && q[i].gid == g;
      assert q'[i - 1].gid == g;
    }
  }

  lemma ReadSlot(v: RingView, i: nat)
    requires v.Good() && i < v.size
    ensures var k := (v.head + i) % |v.buf|; k < |v.buf| && v.buf[k] == Some(v.Queue()[i])
  {
    SlotMod(v.head, i, |v.buf|);
  }

  lemma GoodDistinct(v: RingView)
    requires v.Good()
    ensures v.Filled() && DistinctIds(v.Queue())
  {
  }

  lemma NextIsAbsent(q: seq<Result>, i: nat)
    requires DistinctIds(q) && i < |q|
    ensures Absent(q[..i], q[i].gid) && q[..i + 1] == q[..i] + [q[i]]
  {
  }

  lemma FindSlot(v: RingView, gid: Gid)
    requires v.Good()
    ensures gid !in v.index <==> Absent(v.Queue(), gid)
    ensures gid in v.index ==> v.index[gid] < |v.buf| && v.buf[v.index[gid]].Some?
                               && v.buf[v.index[gid]].value in v.Queue() && v.buf[v.index[gid]].value.gid == gid
  {
    if gid in v.index {
      var i :| 0 <= i < v.size && v.Queue()[i].gid == gid;
      assert v.buf[v.index[gid]] == Some(v.Queue()[i]);
    }
  }

  lemma NotEmpty(v: RingView)
    requires v.Good()
    ensures |v.buf| > 0
  {
  }

  lemma EmptyGood(buf: seq<Option<Result>>)
    requires |buf| > 0
    ensures var v := RingView(buf, 0, 0, map[]); v.Filled() && v.Good() && v.Queue() == []
  {
  }

  lemma OtherNone(gid: Gid)
    ensures Other([], gid) == []
  {
  }

  lemma {:induction false} OtherAbsent(q: seq<Result>, gid: Gid)
    requires Absent(q, gid)
    ensures Other(q, gid) == q
  {
    if q != [] {
      OtherAbsent(q[1..], gid);
    }
  }

  lemma {:induction false} OtherPresent(q: seq<Result>, k: nat)
    requires DistinctIds(q) && k < |q|
    ensures Other(q, q[k].gid) == q[..k] + q[k + 1..]
  {
    if k == 0 {
      assert Absent(q[1..], q[0].gid);
      OtherAbsent(q[1..], q[0].gid);
    } else {
      OtherPresent(q[1..], k - 1);
      assert q[1..][k - 1] == q[k];
      assert [q[0]] + (q[1..][..k - 1] + q[1..][k..]) == q[..k] + q[k + 1..];
    }
  }

  lemma OtherGood(q: seq<Result>, gid: Gid)
    requires DistinctIds(q)
    ensures DistinctIds(Other(q, gid))
    ensures |Other(q, gid)| == if Absent(q, gid) then |q| else |q| - 1
  {
    if Absent(q, gid) {
      OtherAbsent(q, gid);
    } else {
      var k :| 0 <= k < |q| && q[k].gid == gid;
      OtherPresent(q, k);
      var r := q[..k] + q[k + 1..];
      assert forall i :: 0 <= i < |r| ==> r[i] == q[if i < k then i else i + 1];
    }
  }

  lemma {:induction false} OtherAppend(q: seq<Result>, r: Result, gid: Gid)
    ensures Other(q + [r], gid) == Other(q, gid) + if r.gid != gid then [r] else []
  {
    if q == [] {
      assert q + [r] == [r] && [r][1..] == [];
    } else {
      assert (q + [r])[1..] == q[1..] + [r];
      OtherAppend(q[1..], r, gid);
    }
  }

  lemma {:induction false} EvictAppend(e: Evicted, rs: seq<Result>, r: Result)
    ensures EvictAll(e, rs + [r]) == Evict(EvictAll(e, rs), r)
    decreases |rs|
  {
    if rs == [] {
      assert rs + [r] == [r] && [r][1..] == [];
    } else {
      assert (rs + [r])[1..] == rs[1..] + [r];
      EvictAppend(Evict(e, rs[0]), rs[1..], r);
    }
  }

  /** A top-level download that did not succeed. */
  predicate Failure(r: Result) {
    r.belongsTo == 0 && r.code != 0
  }

  ghost function Failures(rs: seq<Result>): set<nat> {
    set i | 0 <= i < |rs| && Failure(rs[i])
  }

  lemma FailuresAppend(rs: seq<Result>, r: Result)
    ensures |Failures(rs + [r])| == |Failures(rs)| + if Failure(r) then 1 else 0
  {
    var a, b := Failures(rs), Failures(rs + [r]);
    if Failure(r) {
      assert b == a + {|rs|};
    } else {
      assert b == a;
    }
  }

  /** `code` is the code of the last failure, or `before` if there is none. */
  ghost predicate LastFailure(rs: seq<Result>, before: int, code: int) {
    if exists k :: 0 <= k < |rs| && Failure(rs[k])
    then exists k :: 0 <= k < |rs| && Failure(rs[k]) && code == rs[k].code && forall j :: k < j < |rs| ==> !Failure(rs[j])
    else code == before
  }

  /** What is known of evicted results: how many they were, how many failures, and the code of the last failure. */
  lemma {:induction false} EvictAllExact(e: Evicted, rs: seq<Result>)
    ensures var r := EvictAll(e, rs);
            r.total == e.total + |rs| && r.errors == e.errors + |Failures(rs)| && LastFailure(rs, e.last, r.last)
    decreases |rs|
  {
    if rs == [] {
      assert Failures(rs) == {};
    } else {
      var n := |rs| - 1;
      var rest, x := rs[..n], rs[n];
      assert rs == rest + [x];
      EvictAllExact(e, rest);
      EvictAppend(e, rest, x);
      FailuresAppend(rest, x);
      hide EvictAll, Failures;
      LastAppend(rest, x, e.last, EvictAll(e, rest).last);
    }
  }

  lemma LastAppend(rs: seq<Result>, r: Result, before: int, code: int)
    requires LastFailure(rs, before, code)
    ensures LastFailure(rs + [r], before, if Failure(r) then r.code else code)
  {
    hide Failure;
    var all := rs + [r];
    assert all[|rs|] == r && forall j :: 0 <= j < |rs| ==> all[j] == rs[j];
    if Failure(r) {
      assert Failure(all[|rs|]);
    } else if exists k :: 0 <= k < |rs| && Failure(rs[k]) {
      var k :| 0 <= k < |rs| && Failure(rs[k]) && code == rs[k].code && forall j :: k < j < |rs| ==> !Failure(rs[j]);
      assert Failure(all[k]);
    }
  }

  /** What is known of evicted results after pushing one result after the other. */
  function EvictedOver(e: Evicted, q: seq<Result>, capacity: nat, rs: seq<Result>): Evicted
    requires |q| <= capacity && capacity > 0
    decreases |rs|
  {
    if rs == [] then e else EvictedOver(EvictedBy(e, q, capacity), Pushed(q, capacity, rs[0]), capacity, rs[1..])
  }

  /** Over any run of pushes exactly the oldest results, those that no longer fit, count as evicted. */
  lemma {:induction false} PushAllEvicts(e: Evicted, q: seq<Result>, capacity: nat, rs: seq<Result>)
    requires |q| <= capacity && capacity > 0
    ensures EvictedOver(e, q, capacity, rs) == EvictAll(e, (q + rs)[..Max(0, |q| + |rs| - capacity)])
    decreases |rs|
  {
    hide Evict;
    if rs == [] {
      assert (q + rs)[..0] == [];
    } else {
      var q' := Pushed(q, capacity, rs[0]);
      PushAllEvicts(EvictedBy(e, q, capacity), q', capacity, rs[1..]);
      var all := q + rs;
      assert all == (q + [rs[0]]) + rs[1..];
      if |q| == capacity {
        var gone := all[..|q| + |rs| - capacity];
        assert q' + rs[1..] == all[1..];
        assert gone[0] == q[0] && gone[1..] == all[1..][..|q| + |rs| - capacity - 1];
      }
    }
  }

  class Ring {
    var buf: array<Option<Result>>
    var head: nat
    var size: nat
    var index: map<Gid, nat>
    var evicted: Evicted
    ghost var pushed: nat
    ghost var removed: nat
    ghost var purged: nat

    ghost function View(): RingView
      reads this, buf
    {
      RingView(buf[..], head, size, index)
    }

    ghost function Queue(): (q: seq<Result>)
      reads this, buf
      requires View().Good()
      ensures |q| == size <= buf.Length
    {
      View().Queue()
    }

    /** Everything pushed is stored, evicted, removed or purged. */
    ghost predicate Valid()
      reads this, buf
    {
      View().Good() && pushed == size + evicted.total + removed + purged
    }

    constructor (capacity: int)
      ensures Valid() && fresh(buf) && Queue() == [] && buf.Length == Capacity(capacity)
      ensures evicted == Evicted(0, 0, 0)
    {
      buf := new Option<Result>[Capacity(capacity)](_ => None);
      head, size, index, evicted := 0, 0, map[], Evicted(0, 0, 0);
      pushed, removed, purged := 0, 0, 0;
      new;
      EmptyGood(buf[..]);
    }

    /** The oldest result leaves the ring. */
    method EvictFirst()
      requires View().Good() && size > 0
      modifies this`head, this`size, this`index, this`evicted
      ensures View().Good()
      ensures Queue() == old(Queue())[1..] && evicted == Evict(old(evicted), old(Queue())[0])
    {
      hide RingView.Good, RingView.Queue, Slot, Evict;
      ghost var v := View();
      PopFirst(v);
      var oldest := buf[head].value;
      index := index - {oldest.gid};
      evicted := Evict(evicted, oldest);
      SlotMod(head, 1, buf.Length);
      head, size := (head + 1) % buf.Length, size - 1;
      assert View() == Popped(v, oldest.gid);
    }

    method Append(r: Result)
      requires View().Good() && size < buf.Length && Absent(Queue(), r.gid)
      modifies this`size, this`index, buf
      ensures View().Good() && Queue() == old(Queue()) + [r]
    {
      ghost var v := View();
      PushRoom(v, r);
      SlotMod(head, size, buf.Length);
      hide RingView.Good, RingView.Queue, Slot;
      var pos := (head + size) % buf.Length;
      buf[pos] := Some(r);
      index := index[r.gid := pos];
      size := size + 1;
      assert View() == RingView(v.buf[pos := Some(r)], v.head, v.size + 1, v.index[r.gid := pos]);
    }

    /** The ring overwrites the oldest slot when it is full. */
    method Push(r: Result)
      requires Valid() && Absent(Queue(), r.gid)
      modifies this`head, this`size, this`index, this`evicted, this`pushed, buf
      ensures Valid() && pushed == old(pushed) + 1
      ensures Queue() == Pushed(old(Queue()), buf.Length, r)
      ensures evicted == EvictedBy(old(evicted), old(Queue()), buf.Length)
    {
      hide RingView.Good, RingView.Queue, RingView.Filled, Absent, Evict;
      NotEmpty(View());
      ghost var q := Queue();
      PushFacts(evicted, q, buf.Length, r);
      if size >= buf.Length {
        EvictFirst();
      }
      Append(r);
      pushed := pushed + 1;
    }

    method Get(offset: nat, num: nat) returns (r: seq<Result>)
      requires Valid()
      ensures r == if offset >= size then [] else Queue()[offset..Min(offset + num, size)]
    {
      hide RingView.Good, RingView.Queue;
      r := [];
      if offset >= size {
        return;
      }
      var end := offset + num;
      if end > size {
        end := size;
      }
      var i := 0;
      while i < end - offset
        invariant 0 <= i <= end - offset && r == Queue()[offset..offset + i]
      {
        ReadSlot(View(), offset + i);
        r := r + [buf[(head + offset + i) % buf.Length].value];
        i := i + 1;
      }
    }

    method GetByGid(gid: Gid) returns (r: Option<Result>)
      requires Valid()
      ensures r.Some? ==> r.value in Queue() && r.value.gid == gid
      ensures r.None? ==> Absent(Queue(), gid)
    {
      FindSlot(View(), gid);
      hide RingView.Good, RingView.Queue;
      if gid !in index {
        return None;
      }
      r := Some(buf[index[gid]].value);
    }

    method Clear()
      requires View().Good()
      modifies this`head, this`size, this`index, buf
      ensures View().Good() && Queue() == []
    {
      hide RingView.Good, RingView.Queue;
      NotEmpty(View());
      var i := 0;
      while i < size
        invariant 0 <= i <= size
      {
        buf[(head + i) % buf.Length] := None;
        i := i + 1;
      }
      head, size, index := 0, 0, map[];
      EmptyGood(buf[..]);
    }

    method Purge()
      requires Valid()
      modifies this`head, this`size, this`index, this`purged, buf
      ensures Valid() && Queue() == []
      ensures purged == old(purged) + old(size)
    {
      hide RingView.Good, RingView.Queue;
      purged := purged + size;
      Clear();
    }

    /** The kept results are collected in order and pushed again. */
    method RemoveByGid(gid: Gid) returns (ok: bool)
      requires Valid()
      modifies this`head, this`size, this`index, this`removed, buf
      ensures Valid()
      ensures ok <==> !Absent(old(Queue()), gid)
      ensures Queue() == Other(old(Queue()), gid)
      ensures removed == old(removed) + if ok then 1 else 0
    {
      ghost var q := Queue();
      assert DistinctIds(q);
      hide RingView.Good, RingView.Queue, Other, DistinctIds, Absent;
      FindSlot(View(), gid);
      OtherGood(q, gid);
      if gid !in index {
        OtherAbsent(q, gid);
        return false;
      }
      var kept := Collect(gid);
      Clear();
      Refill(kept);
      removed := removed + 1;
      ok := true;
    }

    method Refill(kept: seq<Result>)
      requires View().Good() && size == 0 && |kept| <= buf.Length && DistinctIds(kept)
      modifies this`size, this`index, buf
      ensures View().Good() && Queue() == kept
    {
      hide RingView.Good, RingView.Queue;
      var i := 0;
      while i < |kept|
        invariant 0 <= i <= |kept| && View().Good() && Queue() == kept[..i]
      {
        Append(kept[i]);
        i := i + 1;
      }
    }

    method Collect(gid: Gid) returns (kept: seq<Result>)
      requires View().Good()
      ensures kept == Other(Queue(), gid)
    {
      OtherNone(gid);
      hide RingView.Good, RingView.Queue, Other;
      kept := [];
      var i := 0;
      while i < size
        invariant 0 <= i <= size && kept == Other(Queue()[..i], gid)
      {
        ReadSlot(View(), i);
        var r := buf[(head + i) % buf.Length].value;
        OtherAppend(Queue()[..i], r, gid);
        assert Queue()[..i + 1] == Queue()[..i] + [r];
        if r.gid != gid {
          kept := kept + [r];
        }
        i := i + 1;
      }
      assert Queue()[..i] == Queue();
    }

    /** A smaller ring keeps the newest results. */
    method Resize(n: int)
      requires Valid()
      modifies this
      ensures Valid() && buf.Length == Capacity(n) && (buf == old(buf) || fresh(buf))
      ensures var drop := Max(0, old(size) - Capacity(n));
              Queue() == old(Queue())[drop..] && evicted == EvictAll(old(evicted), old(Queue())[..drop])
      ensures removed == old(removed) && purged == old(purged) && pushed == old(pushed)
    {
      hide RingView.Good, RingView.Queue, Evict;
      var capacity := Capacity(n);
      ghost var q := Queue();
      if capacity == buf.Length {
        return;
      }
      ghost var i: nat := 0;
      while size > capacity
        invariant Valid() && buf == old(buf) && i <= Max(0, |q| - capacity) && size == |q| - i
        invariant Queue() == q[i..] && evicted == EvictAll(old(evicted), q[..i])
        invariant removed == old(removed) && purged == old(purged) && pushed == old(pushed)
        decreases size
      {
        EvictAppend(old(evicted), q[..i], q[i]);
        assert q[..i + 1] == q[..i] + [q[i]];
        EvictFirst();
        i := i + 1;
      }
      Rebuild(capacity);
    }

    /** The contents move to the start of a new buffer. */
    method Rebuild(capacity: nat)
      requires View().Good() && size <= capacity && capacity > 0
      modifies this`buf, this`index, this`head
      ensures View().Good() && fresh(buf) && buf.Length == capacity && Queue() == old(Queue())
    {
      ghost var v, q := View(), Queue();
      GoodDistinct(v);
      hide RingView.Good, RingView.Queue, RingView.Filled, Slot, DistinctIds, Absent;
      var newBuf := new Option<Result>[capacity](_ => None);
      var newIndex: map<Gid, nat> := map[];
      EmptyGood(newBuf[..]);
      ghost var w := RingView(newBuf[..], 0, 0, newIndex);
      var i := 0;
      while i < size
        invariant 0 <= i <= size && View() == v && buf == old(buf)
        invariant w == RingView(newBuf[..], 0, i, newIndex) && w.Filled() && w.Good() && w.Queue() == q[..i]
      {
        ReadSlot(View(), i);
        NextIsAbsent(q, i);
        var r := buf[(head + i) % buf.Length].value;
        PushRoom(w, r);
        FirstSlots(i, capacity);
        newBuf[i] := Some(r);
        newIndex := newIndex[r.gid := i];
        w := RingView(w.buf[i := Some(r)], 0, i + 1, newIndex);
        assert newBuf[..] == w.buf;
        i := i + 1;
      }
      assert q[..i] == q;
      buf, index, head := newBuf, newIndex, 0;
      assert View() == w;
    }
  }

  function EvictedBy(e: Evicted, q: seq<Result>, capacity: nat): Evicted {
    if |q| == capacity && q != [] then Evict(e, q[0]) else e
  }

  lemma PushFacts(e: Evicted, q: seq<Result>, capacity: nat, r: Result)
    requires Absent(q, r.gid)
    ensures q != [] ==> Absent(q[1..], r.gid) && Evict(e, q[0]).total == e.total + 1
  {
  }

  lemma FirstSlots(i: nat, capacity: nat)
    requires i < capacity
    ensures Slot(0, i, capacity) == i
  {
  }
}
