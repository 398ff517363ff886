/** The selectors that choose the next piece to fetch. */
module PieceSelect {
  import opened Bytes
  import opened NodeIds
  import opened Bitfields
  import opened Pieces
  import opened PieceMap

  /** One byte of the combined field: a bit is set where the piece cannot be chosen. */
  method CombinedByte(m: Map, ignore: bytes, i: nat) returns (v: byte)
    requires m.Valid() && i < |m.have|
    ensures forall k :: 0 <= k < 8 ==>
              (ByteBit(v, k) <==>
                 ByteBit(m.have[i], k) || ByteBit(m.used[i], k) || (i < |ignore| && ByteBit(ignore[i], k))
                 || (m.filterEnabled && !ByteBit(m.filter.value[i], k)))
  {
    hide ByteBit, TotalsOf, OrByte, NotByte;
    OrAll(m.have[i], m.used[i]);
    v := OrByte(m.have[i], m.used[i]);
    if i < |ignore| {
      OrAll(v, ignore[i]);
      v := OrByte(v, ignore[i]);
    }
    if m.filterEnabled && m.filter.Some? {
      OrAll(v, NotByte(m.filter.value[i]));
      OrAll(m.filter.value[i], 0);
      v := OrByte(v, NotByte(m.filter.value[i]));
    }
  }

  lemma OrAll(a: byte, b: byte)
    ensures forall k :: 0 <= k < 8 ==> ByteBit(OrByte(a, b), k) == (ByteBit(a, k) || ByteBit(b, k))
    ensures forall k :: 0 <= k < 8 ==> ByteBit(NotByte(a), k) == !ByteBit(a, k)
  {
    hide ByteBit, OrByte, NotByte, AndByte;
    forall k | 0 <= k < 8
      ensures ByteBit(OrByte(a, b), k) == (ByteBit(a, k) || ByteBit(b, k))
      ensures ByteBit(NotByte(a), k) == !ByteBit(a, k)
    {
      ByteOps(a, b, k);
    }
  }

  /** Piece `i` is missing, not in use, not ignored and inside an enabled filter. */
  ghost predicate Selectable(m: Map, ignore: bytes, i: nat)
    reads m
    requires i < m.blocks
  {
    !m.Have()[i] && !m.Used()[i] && !BitAt(ignore, i) && (m.filterEnabled ==> m.FilterBits()[i])
  }

  method Combined(m: Map, ignore: bytes) returns (c: bytes)
    requires m.Valid()
    ensures |c| == BytesFor(m.blocks)
    ensures forall i :: 0 <= i < m.blocks ==> (BitAt(c, i) <==> !Selectable(m, ignore, i))
    ensures forall i :: 0 <= i < m.blocks && BitAt(m.used, i) ==> BitAt(c, i)
  {
    hide ByteBit, TotalsOf, NumPieces;
    c := [];
    for i := 0 to |m.have|
      invariant |c| == i
      invariant forall j, k :: 0 <= j < i && 0 <= k < 8 ==>
                  (ByteBit(c[j], k) <==>
                     ByteBit(m.have[j], k) || ByteBit(m.used[j], k) || (j < |ignore| && ByteBit(ignore[j], k))
                     || (m.filterEnabled && !ByteBit(m.filter.value[j], k)))
    {
      var v := CombinedByte(m, ignore, i);
      c := c + [v];
    }
    forall i | 0 <= i < m.blocks
      ensures BitAt(c, i) <==> !Selectable(m, ignore, i)
      ensures BitAt(m.used, i) ==> BitAt(c, i)
    {
      BitsFit(m.blocks, i);
      assert ByteBit(c[i / 8], i % 8) == BitAt(c, i);
    }
  }

  // ----- Sparse -----

  /** A maximal stretch of free pieces. */
  ghost predicate FreeRun(c: bytes, n: nat, s: int, e: int) {
    && 0 <= s < e <= n && (forall k :: s <= k < e ==> !BitAt(c, k))
    && (s == 0 || BitAt(c, s - 1)) && (e == n || BitAt(c, e))
  }

  /** Behind a piece in use the second half of the stretch is taken. */
  function Adjusted(u: bytes, s: int, e: int): int {
    if s > 0 && BitAt(u, s - 1) then (e - s) / 2 + s else s
  }

  function Span(u: bytes, s: int, e: int): int {
    e - Adjusted(u, s, e)
  }

  lemma {:induction false} ExtendLeft(c: bytes, k: nat) returns (s: nat)
    requires !BitAt(c, k)
    ensures s <= k && (forall i :: s <= i <= k ==> !BitAt(c, i)) && (s == 0 || BitAt(c, s - 1))
  {
    hide BitAt;
    if k == 0 || BitAt(c, k - 1) {
      s := k;
    } else {
      s := ExtendLeft(c, k - 1);
    }
  }

  lemma {:induction false} ExtendRight(c: bytes, n: nat, k: nat) returns (e: nat)
    requires k < n && !BitAt(c, k)
    ensures k < e <= n && (forall i :: k <= i < e ==> !BitAt(c, i)) && (e == n || BitAt(c, e))
    decreases n - k
  {
    hide BitAt;
    if k + 1 == n || BitAt(c, k + 1) {
      e := k + 1;
    } else {
      e := ExtendRight(c, n, k + 1);
    }
  }

  /** Every free piece is in a maximal stretch. */
  lemma RunAround(c: bytes, n: nat, k: nat) returns (s: nat, e: nat)
    requires k < n && !BitAt(c, k)
    ensures FreeRun(c, n, s, e) && s <= k < e
  {
    hide BitAt;
    s := ExtendLeft(c, k);
    e := ExtendRight(c, n, k);
  }

  /** Piece `i` starts the file or follows a fetched one. */
  predicate Anchored(c: bytes, u: bytes, i: int) {
    i == 0 || (BitAt(c, i - 1) && !BitAt(u, i - 1))
  }

  predicate AnchoredRun(c: bytes, u: bytes, s: int, e: int) {
    Anchored(c, u, Adjusted(u, s, e))
  }

  /** The longer span wins; of equal ones an anchored one; of equals in both the earlier one. */
  predicate Beats(c: bytes, u: bytes, s: int, e: int, s': int, e': int) {
    || Span(u, s, e) > Span(u, s', e')
    || (Span(u, s, e) == Span(u, s', e')
        && if s' < s then AnchoredRun(c, u, s, e) && !AnchoredRun(c, u, s', e')
           else AnchoredRun(c, u, s, e) || !AnchoredRun(c, u, s', e'))
  }

  /** The stretch that beats all others that start before `next`. */
  ghost predicate Leads(c: bytes, u: bytes, n: nat, next: int, s: int, e: int) {
    && FreeRun(c, n, s, e) && s < next
    && forall s', e' :: FreeRun(c, n, s', e') && s' < next && s' != s ==> Beats(c, u, s, e, s', e')
  }

  lemma SameRun(c: bytes, n: nat, start: int, end: int, s: int, e: int)
    requires FreeRun(c, n, start, end) && FreeRun(c, n, s, e) && start <= s < end
    ensures s == start && e == end
  {
    hide BitAt;
  }

  /** The stretches that start before the end of the next one are those before it and itself. */
  lemma NextRun(c: bytes, n: nat, next: int, start: int, end: int, s: int, e: int)
    requires 0 <= next <= start && FreeRun(c, n, start, end) && forall k :: next <= k < start ==> BitAt(c, k)
    requires FreeRun(c, n, s, e) && s < end
    ensures s < next || (s == start && e == end)
  {
    hide BitAt;
    assert !BitAt(c, s);
    if s >= next {
      SameRun(c, n, start, end, s, e);
    }
  }

  lemma BeatsTrans(c: bytes, u: bytes, s: int, e: int, s1: int, e1: int, s2: int, e2: int)
    requires s1 < s && s2 < s && !Beats(c, u, s1, e1, s, e) && (if s2 == s1 then e2 == e1 else Beats(c, u, s1, e1, s2, e2))
    ensures Beats(c, u, s, e, s2, e2)
  {
    hide Span, AnchoredRun;
  }

  /** The next stretch takes the lead if the leader does not beat it. */
  lemma LeadAgain(c: bytes, u: bytes, n: nat, next: int, start: int, end: int, s: int, e: int)
    requires Leads(c, u, n, next, s, e) && 0 <= next <= start && FreeRun(c, n, start, end)
    requires forall k :: next <= k < start ==> BitAt(c, k)
    ensures if Beats(c, u, s, e, start, end) then Leads(c, u, n, end, s, e) else Leads(c, u, n, end, start, end)
  {
    hide FreeRun, Beats;
    forall s', e' | FreeRun(c, n, s', e') && s' < end
      ensures s' < next || (s' == start && e' == end)
    {
      NextRun(c, n, next, start, end, s', e');
    }
    assert start < end by { RunNotEmpty(c, n, start, end); }
    if !Beats(c, u, s, e, start, end) {
      forall s', e' | FreeRun(c, n, s', e') && s' < end && s' != start
        ensures Beats(c, u, start, end, s', e')
      {
        if s' == s {
          RunOfStart(c, n, s, e, e');
        }
        BeatsTrans(c, u, start, end, s, e, s', e');
      }
    }
  }

  lemma RunNotEmpty(c: bytes, n: nat, s: int, e: int)
    requires FreeRun(c, n, s, e)
    ensures 0 <= s < e <= n && !BitAt(c, s)
  {
  }

  lemma RunOfStart(c: bytes, n: nat, s: int, e: int, e': int)
    requires FreeRun(c, n, s, e) && FreeRun(c, n, s, e')
    ensures e == e'
  {
    SameRun(c, n, s, e, s, e');
  }

  /** The first stretch of all leads. */
  lemma FirstLeads(c: bytes, u: bytes, n: nat, next: int, start: int, end: int)
    requires 0 <= next <= start && FreeRun(c, n, start, end) && forall k :: next <= k < start ==> BitAt(c, k)
    requires forall s, e :: FreeRun(c, n, s, e) ==> s >= next
    ensures Leads(c, u, n, end, start, end)
  {
    hide BitAt, Beats;
    forall s, e | FreeRun(c, n, s, e) && s < end
      ensures s == start
    {
      NextRun(c, n, next, start, end, s, e);
    }
  }

  lemma NoneBehind(c: bytes, n: nat, next: int)
    requires 0 <= next && forall k :: next <= k < n ==> BitAt(c, k)
    ensures forall s, e :: FreeRun(c, n, s, e) ==> s < next
  {
    hide BitAt;
    forall s, e | FreeRun(c, n, s, e)
      ensures s < next
    {
      assert !BitAt(c, s);
    }
  }

  method SparseSelect(c: bytes, u: bytes, n: nat, len: int, minSplit: int) returns (r: Option<nat>)
    requires len > 0 && forall i :: 0 <= i < n && BitAt(u, i) ==> BitAt(c, i)
    ensures SparsePick(c, u, n, len, minSplit, r)
    ensures r.None? <==> NoneChosen(c, u, n, len, minSplit)
    ensures r.Some? ==> r.value < n && !BitAt(c, r.value)
    ensures r.Some? ==> exists s, e :: Chosen(c, u, n, len, minSplit, s, e, r.value)
    ensures r.None? ==> forall s, e :: FreeRun(c, n, s, e) ==> Span(u, s, e) * len < minSplit
    ensures minSplit <= len && r.None? ==> forall k :: 0 <= k < n ==> BitAt(c, k)
  {
    hide BitAt, Span, Adjusted, Beats, Leads;
    var bs, be, next := 0, 0, 0;
    ghost var lead := 0;
    while next < n
      invariant 0 <= next <= n && (next == 0 || next == n || BitAt(c, next))
      invariant 0 <= bs <= be <= n
      invariant be > bs ==> Leads(c, u, n, next, lead, be) && bs == Adjusted(u, lead, be)
      invariant be == bs ==> forall s, e :: FreeRun(c, n, s, e) ==> s >= next
      decreases n - next
    {
      var start := next;
      while start < n && BitAt(c, start)
        invariant next <= start <= n && forall k :: next <= k < start ==> BitAt(c, k)
      {
        start := start + 1;
      }
      if start == n {
        NoneBehind(c, n, next);
        LeadsToEnd(c, u, n, next, lead, be);
        next := n;
        break;
      }
      var end := start;
      while end < n && !BitAt(c, end)
        invariant start <= end <= n && forall k :: start <= k < end ==> !BitAt(c, k)
      {
        end := end + 1;
      }
      assert FreeRun(c, n, start, end);
      SpanBounds(u, start, end);
      var cur := start;
      if cur > 0 && BitAt(u, cur - 1) {
        cur := (end - cur) / 2 + cur;
      }
      assert cur == Adjusted(u, start, end) by { AdjustedIs(u, start, end); }
      if be == bs {
        FirstLeads(c, u, n, next, start, end);
      } else {
        LeadBounds(c, u, n, next, lead, be);
        LeadAgain(c, u, n, next, start, end, lead, be);
        BeatsIs(c, u, lead, be, start, end);
      }
      if be - bs < end - cur {
        bs, be, lead := cur, end, start;
      } else if be - bs == end - cur && bs > 0 && cur > 0
                && (!BitAt(c, bs - 1) || BitAt(u, bs - 1)) && BitAt(c, cur - 1) && !BitAt(u, cur - 1) {
        bs, be, lead := cur, end, start;
      }
      next := end;
    }
    r := Decide(c, u, n, len, minSplit, bs, be, lead);
  }

  lemma LeadBounds(c: bytes, u: bytes, n: nat, next: int, s: int, e: int)
    requires Leads(c, u, n, next, s, e)
    ensures FreeRun(c, n, s, e) && s < next && Span(u, s, e) == e - Adjusted(u, s, e) > 0
  {
    SpanBounds(u, s, e);
  }

  lemma LeadsToEnd(c: bytes, u: bytes, n: nat, next: int, s: int, e: int)
    requires next <= n && forall s', e' :: FreeRun(c, n, s', e') ==> s' < next
    ensures Leads(c, u, n, next, s, e) ==> Leads(c, u, n, n, s, e)
  {
    hide FreeRun, Beats;
  }

  /** What the code compares, for a later stretch. */
  lemma BeatsIs(c: bytes, u: bytes, s: int, e: int, s': int, e': int)
    requires 0 <= s < e && s < s' < e'
    ensures var a, a' := Adjusted(u, s, e), Adjusted(u, s', e');
      && a' > 0
      && (Beats(c, u, s, e, s', e') <==>
            e - a > e' - a' || (e - a == e' - a' && (a == 0 || (BitAt(c, a - 1) && !BitAt(u, a - 1))
                                                     || !(BitAt(c, a' - 1) && !BitAt(u, a' - 1)))))
  {
    hide BitAt, Adjusted, Span;
    SpanBounds(u, s, e);
    SpanBounds(u, s', e');
  }

  predicate Takes(c: bytes, u: bytes, len: int, minSplit: int, s: int, e: int) {
    AnchoredRun(c, u, s, e) || Span(u, s, e) * len >= minSplit
  }

  /** The leading stretch decides: its adjusted start if it is taken, else nothing. There is one unless nothing is free. */
  ghost predicate SparsePick(c: bytes, u: bytes, n: nat, len: int, minSplit: int, r: Option<nat>) {
    && (forall s, e :: Leads(c, u, n, n, s, e) ==>
          if Takes(c, u, len, minSplit, s, e) then r.Some? && r.value == Adjusted(u, s, e) else r.None?)
    && ((forall s, e :: !Leads(c, u, n, n, s, e)) ==> r.None? && forall k :: 0 <= k < n ==> BitAt(c, k))
  }

  /** A stretch of maximal span that is anchored or long enough to split; `i` begins its span. */
  ghost predicate Chosen(c: bytes, u: bytes, n: nat, len: int, minSplit: int, s: int, e: int, i: int) {
    && FreeRun(c, n, s, e) && i == Adjusted(u, s, e)
    && (forall s', e' :: FreeRun(c, n, s', e') ==> Span(u, s', e') <= Span(u, s, e))
    && Takes(c, u, len, minSplit, s, e)
  }

  ghost predicate NoneChosen(c: bytes, u: bytes, n: nat, len: int, minSplit: int) {
    forall s, e, i :: !Chosen(c, u, n, len, minSplit, s, e, i)
  }

  lemma LeaderLongest(c: bytes, u: bytes, n: nat, s: int, e: int)
    requires Leads(c, u, n, n, s, e)
    ensures forall s', e' :: FreeRun(c, n, s', e') ==> Span(u, s', e') <= Span(u, s, e)
  {
    hide BitAt, Span, AnchoredRun;
    forall s', e' | FreeRun(c, n, s', e')
      ensures Span(u, s', e') <= Span(u, s, e)
    {
      if s' == s {
        RunOfStart(c, n, s, e, e');
      } else {
        assert Beats(c, u, s, e, s', e');
      }
    }
  }

  /** If the leader is not taken, no stretch of maximal span is. */
  lemma LeaderDecides(c: bytes, u: bytes, n: nat, len: int, minSplit: int, s: int, e: int, s': int, e': int, i: int)
    requires Leads(c, u, n, n, s, e) && !Takes(c, u, len, minSplit, s, e)
    ensures !Chosen(c, u, n, len, minSplit, s', e', i)
  {
    hide BitAt, Span, AnchoredRun;
    if Chosen(c, u, n, len, minSplit, s', e', i) {
      LeaderLongest(c, u, n, s, e);
      if s' == s {
        RunOfStart(c, n, s, e, e');
      }
      assert false;
    }
  }

  /** Only one stretch leads. */
  lemma OneLeader(c: bytes, u: bytes, n: nat, s: int, e: int, s': int, e': int)
    requires Leads(c, u, n, n, s, e) && Leads(c, u, n, n, s', e')
    ensures s == s' && e == e'
  {
    hide BitAt, Span, AnchoredRun;
    if s == s' {
      RunOfStart(c, n, s, e, e');
    }
  }

  /** A span is taken if it follows a fetched piece, starts the file or is long enough to split. */
  method Decide(c: bytes, u: bytes, n: nat, len: int, minSplit: int, bs: int, be: int, ghost lead: int) returns (r: Option<nat>)
    requires len > 0 && 0 <= bs <= be <= n
    requires be > bs ==> Leads(c, u, n, n, lead, be) && bs == Adjusted(u, lead, be)
    requires be == bs ==> forall s, e :: FreeRun(c, n, s, e) ==> s >= n
    ensures SparsePick(c, u, n, len, minSplit, r)
    ensures r.None? <==> NoneChosen(c, u, n, len, minSplit)
    ensures r.Some? ==> r.value < n && !BitAt(c, r.value) && exists s, e :: Chosen(c, u, n, len, minSplit, s, e, r.value)
    ensures r.None? ==> forall s, e :: FreeRun(c, n, s, e) ==> Span(u, s, e) * len < minSplit
    ensures minSplit <= len && r.None? ==> forall k :: 0 <= k < n ==> BitAt(c, k)
  {
    hide BitAt, Span, Adjusted, Beats, Leads, FreeRun, Chosen, SparsePick, Takes;
    if be - bs > 0 {
      TakesIs(c, u, n, len, minSplit, lead, be);
      if bs == 0 {
        LeaderTaken(c, u, n, len, minSplit, lead, be);
        return Some(0);
      }
      if (!BitAt(u, bs - 1) && BitAt(c, bs - 1)) || (be - bs) * len >= minSplit {
        LeaderTaken(c, u, n, len, minSplit, lead, be);
        return Some(bs);
      }
      LeaderRefused(c, u, n, len, minSplit, lead, be);
      return None;
    }
    NoRuns(c, u, n, len, minSplit);
    r := None;
  }

  lemma TakesIs(c: bytes, u: bytes, n: nat, len: int, minSplit: int, s: int, e: int)
    requires Leads(c, u, n, n, s, e)
    ensures var a := Adjusted(u, s, e);
      && Takes(c, u, len, minSplit, s, e) == (a == 0 || (BitAt(c, a - 1) && !BitAt(u, a - 1)) || (e - a) * len >= minSplit)
      && 0 <= s <= a < e <= n && !BitAt(c, a)
  {
    hide BitAt, Leads, FreeRun, Adjusted, Span;
    LeadBounds(c, u, n, n, s, e);
    RunNotEmpty(c, n, s, e);
    SpanBounds(u, s, e);
    FreeInside(c, n, s, e, Adjusted(u, s, e));
  }

  lemma FreeInside(c: bytes, n: nat, s: int, e: int, i: int)
    requires FreeRun(c, n, s, e) && s <= i < e
    ensures !BitAt(c, i)
  {
  }

  lemma LeaderTaken(c: bytes, u: bytes, n: nat, len: int, minSplit: int, s: int, e: int)
    requires Leads(c, u, n, n, s, e) && Takes(c, u, len, minSplit, s, e) && 0 <= Adjusted(u, s, e)
    ensures SparsePick(c, u, n, len, minSplit, Some(Adjusted(u, s, e)))
    ensures Chosen(c, u, n, len, minSplit, s, e, Adjusted(u, s, e))
  {
    hide BitAt, Span, Adjusted, Takes;
    LeaderLongest(c, u, n, s, e);
    forall s', e' | Leads(c, u, n, n, s', e')
      ensures s' == s && e' == e
    {
      OneLeader(c, u, n, s, e, s', e');
    }
  }

  lemma LeaderRefused(c: bytes, u: bytes, n: nat, len: int, minSplit: int, s: int, e: int)
    requires len > 0 && Leads(c, u, n, n, s, e) && !Takes(c, u, len, minSplit, s, e)
    ensures SparsePick(c, u, n, len, minSplit, None)
    ensures NoneChosen(c, u, n, len, minSplit)
    ensures forall s', e' :: FreeRun(c, n, s', e') ==> Span(u, s', e') * len < minSplit
    ensures len < minSplit
  {
    LeadBounds(c, u, n, n, s, e);
    hide BitAt, Span, Adjusted, Beats, FreeRun, Leads, Chosen;
    forall s', e' | Leads(c, u, n, n, s', e')
      ensures s' == s && e' == e
    {
      OneLeader(c, u, n, s, e, s', e');
    }
    forall s', e', i
      ensures !Chosen(c, u, n, len, minSplit, s', e', i)
    {
      LeaderDecides(c, u, n, len, minSplit, s, e, s', e', i);
    }
    LeaderLongest(c, u, n, s, e);
    forall s', e' | FreeRun(c, n, s', e')
      ensures Span(u, s', e') * len < minSplit
    {
      Spread(Span(u, s', e'), Span(u, s, e), len);
    }
    Spread(1, Span(u, s, e), len);
  }

  lemma NoRuns(c: bytes, u: bytes, n: nat, len: int, minSplit: int)
    requires forall s, e :: FreeRun(c, n, s, e) ==> s >= n
    ensures SparsePick(c, u, n, len, minSplit, None)
    ensures NoneChosen(c, u, n, len, minSplit)
    ensures forall s, e :: !FreeRun(c, n, s, e)
    ensures forall k :: 0 <= k < n ==> BitAt(c, k)
  {
    hide BitAt, Beats, Span, Adjusted, Takes;
    forall k | 0 <= k < n
      ensures BitAt(c, k)
    {
      if !BitAt(c, k) {
        var s, e := RunAround(c, n, k);
        assert false;
      }
    }
  }

  lemma SpanBounds(u: bytes, s: int, e: int)
    requires s < e
    ensures s <= Adjusted(u, s, e) < e && Span(u, s, e) == e - Adjusted(u, s, e) > 0
  {
  }

  lemma AdjustedIs(u: bytes, s: int, e: int)
    ensures Adjusted(u, s, e) == if s > 0 && BitAt(u, s - 1) then (e - s) / 2 + s else s
  {
  }

  // ----- Geometric -----

  /** Piece `i` is the first free one of the window from `lo` to `hi`, and no piece in use comes before it. */
  ghost predicate Opens(c: bytes, u: bytes, lo: int, hi: int, i: int) {
    lo <= i < hi && !BitAt(c, i) && !BitAt(u, i) && forall j :: lo <= j < i ==> BitAt(c, j) && !BitAt(u, j)
  }

  /** The window between the `w`-th bound and the next offers piece `i`. */
  ghost predicate Offers(c: bytes, u: bytes, n: nat, bounds: seq<nat>, offset: nat, w: nat, i: int)
    requires w + 1 < |bounds|
  {
    Opens(c, u, bounds[w] + offset, Min(bounds[w + 1] + offset, n), i)
  }

  /** The windows between the bounds before the `w`-th offer nothing. */
  ghost predicate Closed(c: bytes, u: bytes, n: nat, bounds: seq<nat>, offset: nat, w: nat)
    requires w < |bounds|
  {
    forall v, i :: 0 <= v < w ==> !Offers(c, u, n, bounds, offset, v, i)
  }

  /** What the windows offer, the first that offers something deciding. */
  ghost predicate GeomPick(c: bytes, u: bytes, n: nat, bounds: seq<nat>, offset: nat, w: nat, i: nat) {
    && w + 1 < |bounds| && Closed(c, u, n, bounds, offset, w)
    && Offers(c, u, n, bounds, offset, w, i)
  }

  lemma StillClosed(c: bytes, u: bytes, n: nat, bounds: seq<nat>, offset: nat, w: nat, i: nat)
    requires w + 1 < |bounds| && Closed(c, u, n, bounds, offset, w)
    requires bounds[w] + offset <= i && (i >= Min(bounds[w + 1] + offset, n) || BitAt(u, i))
    requires forall j :: bounds[w] + offset <= j < i ==> BitAt(c, j) && !BitAt(u, j)
    ensures Closed(c, u, n, bounds, offset, w + 1)
  {
    hide BitAt;
    forall k
      ensures !Offers(c, u, n, bounds, offset, w, k)
    {
    }
  }

  lemma ClosedBeyond(c: bytes, u: bytes, n: nat, bounds: seq<nat>, offset: nat, w: nat)
    requires w < |bounds| && Closed(c, u, n, bounds, offset, w) && bounds[w] + offset >= n
    requires forall k :: 0 < k < |bounds| ==> bounds[k - 1] < bounds[k]
    ensures Closed(c, u, n, bounds, offset, |bounds| - 1)
  {
    hide BitAt;
    forall v: nat, i | w <= v < |bounds| - 1
      ensures !Offers(c, u, n, bounds, offset, v, i)
    {
      BoundsGrow(bounds, w, v);
    }
  }

  lemma {:induction false} BoundsGrow(bounds: seq<nat>, w: nat, v: nat)
    requires w <= v < |bounds| && forall k :: 0 < k < |bounds| ==> bounds[k - 1] < bounds[k]
    ensures bounds[w] <= bounds[v]
    decreases v - w
  {
    if w < v {
      BoundsGrow(bounds, w, v - 1);
    }
  }

  /**
    Windows between growing bounds are searched first, each up to the first
    piece in use; if none offers a free piece, the sparse choice is made.
   */
  method GeomSelect(c: bytes, u: bytes, n: nat, len: int, minSplit: int, bounds: seq<nat>, offset: nat)
    returns (r: Option<nat>)
    requires len > 0 && forall i :: 0 <= i < n && BitAt(u, i) ==> BitAt(c, i)
    requires |bounds| >= 2 && bounds[0] == 0 && bounds[1] == 1 && bounds[|bounds| - 1] + offset >= n
    requires forall k :: 0 < k < |bounds| ==> bounds[k - 1] < bounds[k]
    ensures if Closed(c, u, n, bounds, offset, |bounds| - 1) then SparsePick(c, u, n, len, minSplit, r)
            else r.Some? && exists w :: GeomPick(c, u, n, bounds, offset, w, r.value)
    ensures r.Some? ==> r.value < n && !BitAt(c, r.value)
    ensures minSplit <= len && r.None? ==> forall k :: 0 <= k < n ==> BitAt(c, k)
  {
    hide BitAt, FreeRun, SparsePick, NoneChosen, Closed;
    var w := 0;
    NoWindows(c, u, n, bounds, offset);
    while bounds[w] + offset < n
      invariant 0 <= w < |bounds| && Closed(c, u, n, bounds, offset, w)
      decreases |bounds| - w
    {
      var windowEnd := bounds[w + 1] + offset;
      if windowEnd > n {
        windowEnd := n;
      }
      var i := bounds[w] + offset;
      while i < windowEnd && !BitAt(u, i)
        invariant bounds[w] + offset <= i <= windowEnd
        invariant forall j :: bounds[w] + offset <= j < i ==> BitAt(c, j) && !BitAt(u, j)
      {
        if !BitAt(c, i) {
          WindowOpen(c, u, n, bounds, offset, w, i);
          return Some(i);
        }
        i := i + 1;
      }
      StillClosed(c, u, n, bounds, offset, w, i);
      w := w + 1;
    }
    ClosedBeyond(c, u, n, bounds, offset, w);
    r := SparseSelect(c, u, n, len, minSplit);
  }

  lemma NoWindows(c: bytes, u: bytes, n: nat, bounds: seq<nat>, offset: nat)
    requires |bounds| > 0
    ensures Closed(c, u, n, bounds, offset, 0)
  {
  }

  lemma WindowOpen(c: bytes, u: bytes, n: nat, bounds: seq<nat>, offset: nat, w: nat, i: nat)
    requires w + 1 < |bounds| && Closed(c, u, n, bounds, offset, w)
    requires Offers(c, u, n, bounds, offset, w, i)
    ensures GeomPick(c, u, n, bounds, offset, w, i) && !Closed(c, u, n, bounds, offset, |bounds| - 1)
  {
  }

  // ----- In order -----

  predicate Busy(c: bytes, u: bytes, i: int) {
    BitAt(c, i) || BitAt(u, i)
  }

  /** From `i` on, the first piece at which `minSplit` bytes are free, or where the stretch ends. */
  function Reach(c: bytes, u: bytes, n: nat, len: int, minSplit: int, i: nat, j: nat): (r: (nat, bool))
    requires i <= j <= n
    ensures j <= r.0 <= n
    ensures forall k :: j <= k < r.0 ==> !Busy(c, u, k)
    ensures r.1 ==> r.0 < n && !Busy(c, u, r.0)
    ensures !r.1 ==> r.0 == n || Busy(c, u, r.0)
    decreases n - j
  {
    if j == n || Busy(c, u, j) then (j, false)
    else if (j - i + 1) * len >= minSplit then (j, true)
    else Reach(c, u, n, len, minSplit, i, j + 1)
  }

  function InorderFrom(c: bytes, u: bytes, n: nat, len: int, minSplit: int, i: nat, end: nat): Option<nat>
    requires 0 < i && end <= n
    decreases n + 1 - i
  {
    if i >= end then None
    else if Busy(c, u, i) then InorderFrom(c, u, n, len, minSplit, i + 1, end)
    else if !BitAt(u, i - 1) && BitAt(c, i - 1) then Some(i)
    else
      var p := Reach(c, u, n, len, minSplit, i, i);
      if p.1 then Some(p.0) else if p.0 + 1 > end then None else InorderFrom(c, u, n, len, minSplit, p.0 + 1, end)
  }

  function Inorder(c: bytes, u: bytes, n: nat, len: int, minSplit: int, start: nat, end: int): Option<nat> {
    if start >= end || start >= n then None
    else if !Busy(c, u, start) then Some(start)
    else InorderFrom(c, u, n, len, minSplit, start + 1, Min(end, n))
  }

  method InorderSelect(c: bytes, u: bytes, n: nat, len: int, minSplit: int, start: nat, end: int) returns (r: Option<nat>)
    requires end <= n
    ensures r == Inorder(c, u, n, len, minSplit, start, end)
  {
    hide BitAt, InorderFrom, Reach, Busy;
    if start >= end || start >= n {
      return None;
    }
    if !Busy(c, u, start) {
      return Some(start);
    }
    var i := start + 1;
    while i < end
      invariant start < i && InorderFrom(c, u, n, len, minSplit, start + 1, end) == FromOrNone(c, u, n, len, minSplit, i, end)
      decreases n + 1 - i
    {
      InorderUnfold(c, u, n, len, minSplit, i, end);
      if Busy(c, u, i) {
        i := i + 1;
        continue;
      }
      if !BitAt(u, i - 1) && BitAt(c, i - 1) {
        return Some(i);
      }
      var j := i;
      while j < n && !Busy(c, u, j)
        invariant i <= j <= n && Reach(c, u, n, len, minSplit, i, i) == Reach(c, u, n, len, minSplit, i, j)
      {
        ReachUnfold(c, u, n, len, minSplit, i, j);
        if (j - i + 1) * len >= minSplit {
          return Some(j);
        }
        j := j + 1;
      }
      ReachUnfold(c, u, n, len, minSplit, i, j);
      i := j + 1;
    }
    InorderEnd(c, u, n, len, minSplit, i, end);
    r := None;
  }

  function FromOrNone(c: bytes, u: bytes, n: nat, len: int, minSplit: int, i: nat, end: nat): Option<nat>
    requires 0 < i && end <= n
  {
    if i > end then None else InorderFrom(c, u, n, len, minSplit, i, end)
  }

  lemma InorderUnfold(c: bytes, u: bytes, n: nat, len: int, minSplit: int, i: nat, end: nat)
    requires 0 < i < end <= n
    ensures InorderFrom(c, u, n, len, minSplit, i, end) ==
            if Busy(c, u, i) then InorderFrom(c, u, n, len, minSplit, i + 1, end)
            else if !BitAt(u, i - 1) && BitAt(c, i - 1) then Some(i)
            else
              var p := Reach(c, u, n, len, minSplit, i, i);
              if p.1 then Some(p.0) else FromOrNone(c, u, n, len, minSplit, p.0 + 1, end)
  {
    hide Reach, Busy, BitAt;
  }

  lemma InorderEnd(c: bytes, u: bytes, n: nat, len: int, minSplit: int, i: nat, end: nat)
    requires 0 < i && end <= n && i >= end
    ensures FromOrNone(c, u, n, len, minSplit, i, end) == None
  {
  }

  lemma ReachUnfold(c: bytes, u: bytes, n: nat, len: int, minSplit: int, i: nat, j: nat)
    requires i <= j <= n
    ensures Reach(c, u, n, len, minSplit, i, j) ==
            if j == n || Busy(c, u, j) then (j, false)
            else if (j - i + 1) * len >= minSplit then (j, true)
            else Reach(c, u, n, len, minSplit, i, j + 1)
  {
  }

  lemma {:induction false} InorderFromFree(c: bytes, u: bytes, n: nat, len: int, minSplit: int, i: nat, end: nat)
    requires 0 < i && end <= n
    ensures var r := InorderFrom(c, u, n, len, minSplit, i, end);
            r.Some? ==> i <= r.value < n && !Busy(c, u, r.value)
    ensures end == n ==> var r := InorderFrom(c, u, n, len, minSplit, i, end); r.Some? ==> r.value < end
    decreases n + 1 - i
  {
    hide BitAt, Reach, Busy;
    if i < end {
      var p := Reach(c, u, n, len, minSplit, i, i);
      if Busy(c, u, i) {
        InorderFromFree(c, u, n, len, minSplit, i + 1, end);
      } else if p.0 + 1 <= end {
        InorderFromFree(c, u, n, len, minSplit, p.0 + 1, end);
      }
    }
  }

  /** Whatever is returned is free and not before the start. */
  lemma InorderFree(c: bytes, u: bytes, n: nat, len: int, minSplit: int, start: nat, end: int)
    ensures var r := Inorder(c, u, n, len, minSplit, start, end);
            r.Some? ==> start <= r.value < n && !Busy(c, u, r.value)
  {
    hide BitAt, Busy, InorderFrom;
    if start < end && start < n {
      InorderFromFree(c, u, n, len, minSplit, start + 1, Min(end, n));
    }
  }

  lemma {:induction false} InorderFromLeast(c: bytes, u: bytes, n: nat, len: int, minSplit: int, i: nat, end: nat)
    requires 0 < i && end <= n && minSplit <= len
    ensures var r := InorderFrom(c, u, n, len, minSplit, i, end);
            && (r.Some? ==> i <= r.value < end && !Busy(c, u, r.value) && forall k :: i <= k < r.value ==> Busy(c, u, k))
            && (r.None? ==> forall k :: i <= k < end ==> Busy(c, u, k))
    decreases n + 1 - i
  {
    hide BitAt, Busy;
    if i < end && Busy(c, u, i) {
      InorderFromLeast(c, u, n, len, minSplit, i + 1, end);
    }
  }

  /** With a split size of at most one piece it is the least free piece of the range, if there is one. */
  lemma InorderLeast(c: bytes, u: bytes, n: nat, len: int, minSplit: int, start: nat, end: int)
    requires minSplit <= len
    ensures var r := Inorder(c, u, n, len, minSplit, start, end);
            && (r.Some? ==> start <= r.value < Min(end, n) && !Busy(c, u, r.value)
                            && forall k :: start <= k < r.value ==> Busy(c, u, k))
            && (r.None? ==> forall k :: start <= k < Min(end, n) ==> Busy(c, u, k))
  {
    hide BitAt, Busy, InorderFrom;
    if start < end && start < n {
      InorderFromLeast(c, u, n, len, minSplit, start + 1, Min(end, n));
    }
  }

  /** What a caller can check: no stretch behind the start can carry the choice past the end of the range. */
  predicate StaysInRange(n: nat, len: int, minSplit: int, start: nat, end: int) {
    minSplit <= len || end >= n || end <= start + 1 || (n - 1 - start) * len < minSplit
  }

  lemma {:induction false} ReachShort(c: bytes, u: bytes, n: nat, len: int, minSplit: int, i: nat, j: nat)
    requires len > 0 && i <= j <= n && (n - i) * len < minSplit
    ensures !Reach(c, u, n, len, minSplit, i, j).1
    decreases n - j
  {
    hide BitAt, Busy;
    if j < n {
      Spread(j - i + 1, n - i, len);
      ReachShort(c, u, n, len, minSplit, i, j + 1);
    }
  }

  lemma {:induction false} InorderFromShort(c: bytes, u: bytes, n: nat, len: int, minSplit: int, i: nat, end: nat)
    requires len > 0 && 0 < i && end <= n && (i <= n ==> (n - i) * len < minSplit)
    ensures var r := InorderFrom(c, u, n, len, minSplit, i, end); r.Some? ==> r.value < end
    decreases n + 1 - i
  {
    hide BitAt, Busy, Reach;
    if i < end {
      var p := Reach(c, u, n, len, minSplit, i, i);
      ReachShort(c, u, n, len, minSplit, i, i);
      if Busy(c, u, i) {
        Spread(n - i - 1, n - i, len);
        InorderFromShort(c, u, n, len, minSplit, i + 1, end);
      } else if p.0 + 1 <= end {
        Spread(n - p.0 - 1, n - i, len);
        InorderFromShort(c, u, n, len, minSplit, p.0 + 1, end);
      }
    }
  }

  /** Under the condition the choice is inside the range, whatever the bits. */
  lemma InorderInRange(c: bytes, u: bytes, n: nat, len: int, minSplit: int, start: nat, end: int)
    requires len > 0 && StaysInRange(n, len, minSplit, start, end)
    ensures var r := Inorder(c, u, n, len, minSplit, start, end); r.Some? ==> r.value < end
  {
    hide BitAt, Busy;
    if minSplit <= len {
      InorderLeast(c, u, n, len, minSplit, start, end);
    } else if end >= n {
      InorderFree(c, u, n, len, minSplit, start, end);
    } else if end > start + 1 {
      InorderFromShort(c, u, n, len, minSplit, start + 1, end);
    }
  }

  /** The field of `n` bits of which the first `k` are set. */
  function FirstBits(n: nat, k: nat): (r: bytes)
    requires k <= n
    ensures |r| == BytesFor(n)
  {
    if k == 0 then seq(BytesFor(n), _ => 0)
    else
      SetBitAt(FirstBits(n, k - 1), k - 1, true, 0);
      SetBit(FirstBits(n, k - 1), k - 1, true)
  }

  lemma {:induction false} FirstBitsAre(n: nat, k: nat, i: int)
    requires k <= n
    ensures BitAt(FirstBits(n, k), i) <==> 0 <= i < k
  {
    hide BitAt, SetBit;
    if k == 0 {
      NoBits(BytesFor(n), i);
    } else {
      FirstBitsAre(n, k - 1, i);
      BitsFit(n, k - 1);
      SetBitAt(FirstBits(n, k - 1), k - 1, true, i);
    }
  }

  /** The last place from which a stretch to the end of the file is long enough to split. */
  lemma {:induction false} LastStart(n: nat, len: int, minSplit: int, low: nat, i: nat) returns (r: nat)
    requires len > 0 && low <= i < n && (n - low) * len >= minSplit
    ensures low <= r <= i && (n - r) * len >= minSplit && (r == i || (n - r - 1) * len < minSplit)
    decreases i
  {
    if (n - i) * len >= minSplit {
      r := i;
    } else {
      r := LastStart(n, len, minSplit, low, i - 1);
    }
  }

  lemma {:induction false} ReachLong(c: bytes, u: bytes, n: nat, len: int, minSplit: int, i: nat, j: nat, end: nat)
    requires len > 0 && i <= j < n && i < end && (n - i) * len >= minSplit && (end - i) * len < minSplit
    requires forall k :: i <= k < n ==> !Busy(c, u, k)
    ensures var p := Reach(c, u, n, len, minSplit, i, j); p.1 && p.0 >= end
    decreases n - j
  {
    hide BitAt, Busy;
    if (j - i + 1) * len >= minSplit {
      if j < end {
        Spread(j - i + 1, end - i, len);
      }
    } else {
      ReachLong(c, u, n, len, minSplit, i, j + 1, end);
    }
  }

  lemma {:induction false} InorderSkips(c: bytes, u: bytes, n: nat, len: int, minSplit: int, i: nat, to: nat, end: nat)
    requires 0 < i <= to < end <= n && forall k :: i <= k < to ==> Busy(c, u, k)
    ensures InorderFrom(c, u, n, len, minSplit, i, end) == InorderFrom(c, u, n, len, minSplit, to, end)
    decreases end - i
  {
    hide BitAt, Busy;
    if i < to {
      InorderSkips(c, u, n, len, minSplit, i + 1, to, end);
    }
  }

  lemma InorderPast(u: bytes, n: nat, len: int, minSplit: int, start: nat, end: nat, i: nat)
    requires len > 0 && start < i < end < n && (n - i) * len >= minSplit && (end - i) * len < minSplit
    requires forall k :: 0 <= k < n ==> (BitAt(u, k) <==> k < i)
    ensures var r := Inorder(u, u, n, len, minSplit, start, end); r.Some? && r.value >= end
  {
    hide BitAt, Reach, InorderFrom;
    assert forall k :: 0 <= k < n ==> (Busy(u, u, k) <==> k < i);
    hide Busy;
    ReachLong(u, u, n, len, minSplit, i, i, end);
    InorderSkips(u, u, n, len, minSplit, start + 1, i, end);
    InorderUnfold(u, u, n, len, minSplit, i, end);
  }

  /** Without the condition it need not be: with the pieces before a long free stretch in use, the choice is past the end. */
  lemma InorderLeavesRange(n: nat, len: int, minSplit: int, start: nat, end: int) returns (u: bytes)
    requires len > 0 && !StaysInRange(n, len, minSplit, start, end)
    ensures |u| == BytesFor(n)
    ensures var r := Inorder(u, u, n, len, minSplit, start, end); r.Some? && r.value >= end
  {
    hide Inorder, BitAt;
    var i := LastStart(n, len, minSplit, start + 1, end - 1);
    u := FirstBits(n, i);
    hide FirstBits;
    forall k | 0 <= k < n
      ensures BitAt(u, k) <==> k < i
    {
      FirstBitsAre(n, i, k);
    }
    if i < end - 1 {
      Spread(end - i, n - i - 1, len);
    }
    InorderPast(u, n, len, minSplit, start, end, i);
  }

  // ----- The selectors of a piece map -----

  /** A field whose bits are clear exactly for the selectable pieces. */
  ghost predicate Masks(m: Map, ignore: bytes, c: bytes)
    reads m
  {
    forall i :: 0 <= i < m.blocks ==> (BitAt(c, i) <==> !Selectable(m, ignore, i))
  }

  method SparseIndex(m: Map, ignore: bytes, minSplit: int) returns (r: Option<nat>)
    requires m.Valid()
    ensures r.Some? ==> r.value < m.blocks && Selectable(m, ignore, r.value)
    ensures minSplit <= m.len && r.None? ==> forall k :: 0 <= k < m.blocks ==> !Selectable(m, ignore, k)
    ensures exists c :: Masks(m, ignore, c) && SparsePick(c, m.used, m.blocks, m.len, minSplit, r)
                        && (r.None? <==> NoneChosen(c, m.used, m.blocks, m.len, minSplit))
  {
    hide BitAt, FreeRun, Selectable, TotalsOf, Bits, SparsePick, NoneChosen;
    if m.blocks == 0 {
      assert Masks(m, ignore, []);
      NoRuns([], m.used, 0, m.len, minSplit) by { NoPieces([]); }
      return None;
    }
    var c := Combined(m, ignore);
    r := SparseSelect(c, m.used, m.blocks, m.len, minSplit);
    assert Masks(m, ignore, c);
  }

  lemma NoPieces(c: bytes)
    ensures forall s, e :: !FreeRun(c, 0, s, e)
  {
  }

  ghost predicate GeomChoice(m: Map, c: bytes, minSplit: int, bounds: seq<nat>, offset: nat, r: Option<nat>)
    requires m.len > 0 && |bounds| > 0
    reads m
  {
    if Closed(c, m.used, m.blocks, bounds, offset, |bounds| - 1) then
      SparsePick(c, m.used, m.blocks, m.len, minSplit, r)
    else
      r.Some? && exists w :: GeomPick(c, m.used, m.blocks, bounds, offset, w, r.value)
  }

  method GeomIndex(m: Map, ignore: bytes, minSplit: int, bounds: seq<nat>, offset: nat) returns (r: Option<nat>)
    requires m.Valid()
    requires |bounds| >= 2 && bounds[0] == 0 && bounds[1] == 1 && bounds[|bounds| - 1] + offset >= m.blocks
    requires forall k :: 0 < k < |bounds| ==> bounds[k - 1] < bounds[k]
    ensures r.Some? ==> r.value < m.blocks && Selectable(m, ignore, r.value)
    ensures minSplit <= m.len && r.None? ==> forall k :: 0 <= k < m.blocks ==> !Selectable(m, ignore, k)
    ensures m.blocks > 0 ==> exists c :: Masks(m, ignore, c) && GeomChoice(m, c, minSplit, bounds, offset, r)
  {
    hide BitAt, FreeRun, Selectable, TotalsOf, Bits;
    if m.blocks == 0 {
      return None;
    }
    var c := Combined(m, ignore);
    r := GeomSelect(c, m.used, m.blocks, m.len, minSplit, bounds, offset);
    assert Masks(m, ignore, c) && GeomChoice(m, c, minSplit, bounds, offset, r);
  }

  method InorderIndex(m: Map, ignore: bytes, minSplit: int, start: nat, end: int) returns (r: Option<nat>)
    requires m.Valid()
    ensures r.Some? ==> start <= r.value < m.blocks && Selectable(m, ignore, r.value)
    ensures minSplit <= m.len ==>
              && (r.Some? ==> r.value < end && forall k :: start <= k < r.value ==> !Selectable(m, ignore, k))
              && (r.None? ==> forall k :: start <= k < Min(end, m.blocks) ==> !Selectable(m, ignore, k))
    ensures exists c :: Masks(m, ignore, c) && r == Inorder(c, m.used, m.blocks, m.len, minSplit, start, Min(end, m.blocks))
  {
    hide BitAt, Selectable, TotalsOf, Bits, Inorder;
    var stop := if end > m.blocks then m.blocks else end;
    var c := Combined(m, ignore);
    forall k | 0 <= k < m.blocks
      ensures Busy(c, m.used, k) <==> !Selectable(m, ignore, k)
    {
      assert BitAt(c, k) <==> !Selectable(m, ignore, k);
    }
    assert Masks(m, ignore, c);
    r := InorderSelect(c, m.used, m.blocks, m.len, minSplit, start, stop);
    assert stop == Min(end, m.blocks);
    InorderFree(c, m.used, m.blocks, m.len, minSplit, start, stop);
    if minSplit <= m.len {
      InorderLeast(c, m.used, m.blocks, m.len, minSplit, start, stop);
    }
  }
}
