/** Queues of handles (download GIDs, files): duplicate-free lists from which entries are taken out. */
module Lists {

  type Handle = nat

  ghost predicate Distinct<T>(q: seq<T>) {
    forall i, j :: 0 <= i < j < |q| ==> q[i] != q[j]
  }

  /** A list without the first occurrence of `g`. */
  function Without(q: seq<Handle>, g: Handle): seq<Handle> {
    if q == [] then [] else if q[0] == g then q[1..] else [q[0]] + Without(q[1..], g)
  }

  function IndexOf(q: seq<Handle>, g: Handle): (i: nat)
    ensures i <= |q| && (i < |q| ==> q[i] == g) && (i < |q| <==> g in q)
    ensures forall j :: 0 <= j < i ==> q[j] != g
  {
    if q == [] || q[0] == g then 0 else 1 + IndexOf(q[1..], g)
  }

  lemma DistinctConcat(a: seq<Handle>, b: seq<Handle>)
    requires Distinct(a) && Distinct(b) && forall g :: !(g in a && g in b)
    ensures Distinct(a + b)
  {
    var c := a + b;
    forall i, j | 0 <= i < j < |c|
      ensures c[i] != c[j]
    {
      if i < |a| <= j {
        assert c[i] in a && c[j] in b;
      }
    }
  }

  lemma {:induction false} WithoutDistinct(q: seq<Handle>, g: Handle)
    requires Distinct(q)
    ensures Distinct(Without(q, g))
    ensures forall x :: x in Without(q, g) <==> x in q && x != g
  {
    if q != [] {
      assert q == [q[0]] + q[1..];
      if q[0] != g {
        WithoutDistinct(q[1..], g);
        DistinctConcat([q[0]], Without(q[1..], g));
      }
    }
  }

  lemma {:induction false} WithoutFirst(q: seq<Handle>, g: Handle, k: nat)
    requires k < |q| && q[k] == g && forall j :: 0 <= j < k ==> q[j] != g
    ensures Without(q, g) == q[..k] + q[k + 1..]
  {
    if k > 0 {
      var rest := q[1..];
      WithoutFirst(rest, g, k - 1);
      assert [q[0]] + (rest[..k - 1] + rest[k..]) == q[..k] + q[k + 1..];
    }
  }

  lemma {:induction false} WithoutAbsent(q: seq<Handle>, g: Handle)
    requires g !in q
    ensures Without(q, g) == q
  {
    if q != [] {
      WithoutAbsent(q[1..], g);
    }
  }

  lemma WithoutIndex(q: seq<Handle>, g: Handle)
    ensures g !in q ==> Without(q, g) == q
    ensures g in q ==> Without(q, g) == q[..IndexOf(q, g)] + q[IndexOf(q, g) + 1..]
  {
    hide Without, IndexOf;
    if g in q {
      WithoutFirst(q, g, IndexOf(q, g));
    } else {
      WithoutAbsent(q, g);
    }
  }

  method MoveFrom(q: seq<Handle>, g: Handle) returns (r: seq<Handle>)
    ensures r == Without(q, g)
  {
    WithoutIndex(q, g);
    for i := 0 to |q|
      invariant forall j :: 0 <= j < i ==> q[j] != g
    {
      if q[i] == g {
        assert IndexOf(q, g) == i;
        return q[..i] + q[i + 1..];
      }
    }
    r := q;
  }

  method Find(q: seq<Handle>, g: Handle) returns (k: nat)
    ensures k == IndexOf(q, g)
  {
    k := 0;
    while k < |q| && q[k] != g
      invariant k <= |q| && forall j :: 0 <= j < k ==> q[j] != g
    {
      k := k + 1;
    }
  }
}
