/** Which piece the in-order selector takes, in terms of the free stretches. */
module InorderChoice {
  import opened Bytes
  import opened Bitfields
  import opened Pieces
  import opened PieceSelect

  /** A maximal stretch of pieces that are neither excluded nor in use. */
  ghost predicate IdleRun(c: bytes, u: bytes, n: nat, s: int, e: int) {
    && 0 <= s < e <= n && (forall k :: s <= k < e ==> !Busy(c, u, k))
    && (s == 0 || Busy(c, u, s - 1)) && (e == n || Busy(c, u, e))
  }

  /** The piece before it has been fetched. */
  predicate Follows(c: bytes, u: bytes, s: int) {
    !BitAt(u, s - 1) && BitAt(c, s - 1)
  }

  /** The stretch follows a fetched piece or is long enough to split. */
  predicate Serves(c: bytes, u: bytes, len: int, minSplit: int, s: int, e: int) {
    Follows(c, u, s) || (e - s) * len >= minSplit
  }

  /** How many pieces it takes to have the split size. */
  function Needed(len: int, minSplit: int): (k: nat)
    ensures k > 0
  {
    Max(1, NumPieces(minSplit, len))
  }

  /** The first piece of the stretch, or the one with which it has the split size. */
  function TakenAt(c: bytes, u: bytes, len: int, minSplit: int, s: int): int {
    if Follows(c, u, s) then s else s + Needed(len, minSplit) - 1
  }

  /** The first stretch that serves among those that start from `low` on and before `end`. */
  ghost predicate FirstServing(c: bytes, u: bytes, n: nat, len: int, minSplit: int, low: int, end: int, s: int, e: int) {
    && IdleRun(c, u, n, s, e) && low <= s < end && Serves(c, u, len, minSplit, s, e)
    && forall s', e' :: IdleRun(c, u, n, s', e') && low <= s' < s ==> !Serves(c, u, len, minSplit, s', e')
  }

  ghost predicate NoneServes(c: bytes, u: bytes, n: nat, len: int, minSplit: int, low: int, end: int) {
    forall s, e :: IdleRun(c, u, n, s, e) && low <= s < end ==> !Serves(c, u, len, minSplit, s, e)
  }

  lemma NeededIs(len: int, minSplit: int)
    requires len > 0
    ensures var k := Needed(len, minSplit); k * len >= minSplit && (k == 1 || (k - 1) * len < minSplit)
  {
    if minSplit > 0 {
      var k := NumPieces(minSplit, len);
      PieceBounds(minSplit, len, k - 1);
      NextStart(k - 1, len);
    } else {
      assert 1 * len >= minSplit;
    }
  }

  lemma NeededOnly(len: int, minSplit: int, k: nat)
    requires len > 0 && k > 0 && k * len >= minSplit && (k == 1 || (k - 1) * len < minSplit)
    ensures k == Needed(len, minSplit)
  {
    hide Needed;
    NeededIs(len, minSplit);
    var m := Needed(len, minSplit);
    if k < m {
      Spread(k, m - 1, len);
    } else if m < k {
      Spread(m, k - 1, len);
    }
  }

  lemma {:induction false} IdleFrom(c: bytes, u: bytes, n: nat, i: nat) returns (e: nat)
    requires i < n && !Busy(c, u, i)
    ensures i < e <= n && (forall k :: i <= k < e ==> !Busy(c, u, k)) && (e == n || Busy(c, u, e))
    decreases n - i
  {
    hide Busy;
    if i + 1 == n || Busy(c, u, i + 1) {
      e := i + 1;
    } else {
      e := IdleFrom(c, u, n, i + 1);
    }
  }

  lemma SameIdle(c: bytes, u: bytes, n: nat, s: int, e: int, s': int, e': int)
    requires IdleRun(c, u, n, s, e) && IdleRun(c, u, n, s', e') && s <= s' <= e
    ensures s == s' && e == e'
  {
    hide Busy;
  }

  /** In a stretch, the inner loop ends where the split size is reached, or at its end. */
  lemma {:induction false} ReachIs(c: bytes, u: bytes, n: nat, len: int, minSplit: int, i: nat, j: nat, e: nat)
    requires len > 0 && IdleRun(c, u, n, i, e) && i <= j <= e && (j == i || (j - i) * len < minSplit)
    ensures Reach(c, u, n, len, minSplit, i, j) ==
            if (e - i) * len >= minSplit then (i + Needed(len, minSplit) - 1, true) else (e, false)
    decreases e - j
  {
    hide Reach, Busy, Needed;
    ReachUnfold(c, u, n, len, minSplit, i, j);
    if j < e {
      if (j - i + 1) * len >= minSplit {
        NeededOnly(len, minSplit, j - i + 1);
        Spread(j - i + 1, e - i, len);
      } else {
        ReachIs(c, u, n, len, minSplit, i, j + 1, e);
      }
    }
  }

  /** What the scan gives from `i` on, when the piece before `i` is busy. */
  ghost predicate ScanIs(c: bytes, u: bytes, n: nat, len: int, minSplit: int, i: nat, end: nat, r: Option<nat>) {
    match r
    case None => NoneServes(c, u, n, len, minSplit, i, end)
    case Some(j) => exists s, e :: FirstServing(c, u, n, len, minSplit, i, end, s, e) && j == TakenAt(c, u, len, minSplit, s)
  }

  /** Stretches that start from `i` on start from `low` on if none that serves starts in between. */
  lemma ScanLater(c: bytes, u: bytes, n: nat, len: int, minSplit: int, i: nat, low: nat, end: nat, r: Option<nat>)
    requires i <= low && ScanIs(c, u, n, len, minSplit, low, end, r)
    requires forall s, e :: IdleRun(c, u, n, s, e) && i <= s < low ==> !Serves(c, u, len, minSplit, s, e)
    ensures ScanIs(c, u, n, len, minSplit, i, end, r)
  {
    hide IdleRun, Serves, TakenAt;
    match r
    case None =>
    case Some(j) =>
      var s, e :| FirstServing(c, u, n, len, minSplit, low, end, s, e) && j == TakenAt(c, u, len, minSplit, s);
      assert FirstServing(c, u, n, len, minSplit, i, end, s, e);
  }

  lemma ScanHere(c: bytes, u: bytes, n: nat, len: int, minSplit: int, i: nat, end: nat, e: nat)
    requires IdleRun(c, u, n, i, e) && i < end && Serves(c, u, len, minSplit, i, e) && 0 <= TakenAt(c, u, len, minSplit, i)
    ensures ScanIs(c, u, n, len, minSplit, i, end, Some(TakenAt(c, u, len, minSplit, i)))
  {
    hide IdleRun, Serves, TakenAt;
    assert FirstServing(c, u, n, len, minSplit, i, end, i, e);
  }

  lemma {:induction false} InorderFromIs(c: bytes, u: bytes, n: nat, len: int, minSplit: int, i: nat, end: nat)
    requires len > 0 && 0 < i && end <= n && (i <= n ==> Busy(c, u, i - 1))
    ensures ScanIs(c, u, n, len, minSplit, i, end, InorderFrom(c, u, n, len, minSplit, i, end))
    decreases n + 1 - i
  {
    if i >= end {
      InorderStops(c, u, n, len, minSplit, i, end);
    } else if Busy(c, u, i) {
      InorderUnfold(c, u, n, len, minSplit, i, end);
      InorderFromIs(c, u, n, len, minSplit, i + 1, end);
      ScanLater(c, u, n, len, minSplit, i, i + 1, end, InorderFrom(c, u, n, len, minSplit, i, end));
    } else {
      InorderIdle(c, u, n, len, minSplit, i, end);
    }
  }

  lemma InorderStops(c: bytes, u: bytes, n: nat, len: int, minSplit: int, i: nat, end: nat)
    requires 0 < i && end <= n && i >= end
    ensures InorderFrom(c, u, n, len, minSplit, i, end) == None
    ensures NoneServes(c, u, n, len, minSplit, i, end)
  {
  }

  /** At the start of a stretch. */
  lemma {:induction false} InorderIdle(c: bytes, u: bytes, n: nat, len: int, minSplit: int, i: nat, end: nat)
    requires len > 0 && 0 < i < end <= n && Busy(c, u, i - 1) && !Busy(c, u, i)
    ensures ScanIs(c, u, n, len, minSplit, i, end, InorderFrom(c, u, n, len, minSplit, i, end))
    decreases n + 1 - i, 0
  {
    hide InorderFrom, Reach, Busy, ScanIs, Needed;
    var e := IdleFrom(c, u, n, i);
    assert IdleRun(c, u, n, i, e);
    InorderUnfold(c, u, n, len, minSplit, i, end);
    ReachIs(c, u, n, len, minSplit, i, i, e);
    if Serves(c, u, len, minSplit, i, e) {
      ScanHere(c, u, n, len, minSplit, i, end, e);
    } else {
      forall s', e' | IdleRun(c, u, n, s', e') && i <= s' < e + 1
        ensures s' == i && e' == e
      {
        SameIdle(c, u, n, i, e, s', e');
      }
      InorderFromIs(c, u, n, len, minSplit, e + 1, end);
      if e + 1 > end {
        InorderStops(c, u, n, len, minSplit, e + 1, end);
      }
      ScanLater(c, u, n, len, minSplit, i, e + 1, end, InorderFrom(c, u, n, len, minSplit, i, end));
    }
  }

  /** Two stretches cannot both be the first that serves. */
  lemma OneFirst(c: bytes, u: bytes, n: nat, len: int, minSplit: int, low: int, end: int, s: int, e: int, s': int, e': int)
    requires FirstServing(c, u, n, len, minSplit, low, end, s, e) && FirstServing(c, u, n, len, minSplit, low, end, s', e')
    ensures s == s' && e == e'
  {
    hide Serves;
    if s == s' {
      SameIdle(c, u, n, s, e, s', e');
    }
  }

  /** If a stretch is the first that serves, it decides. */
  ghost predicate FirstDecides(c: bytes, u: bytes, n: nat, len: int, minSplit: int, low: int, end: int, r: Option<nat>) {
    forall s, e :: FirstServing(c, u, n, len, minSplit, low, end, s, e) ==>
      r.Some? && r.value == TakenAt(c, u, len, minSplit, s)
  }

  lemma ScanDecides(c: bytes, u: bytes, n: nat, len: int, minSplit: int, i: nat, end: nat, r: Option<nat>)
    requires ScanIs(c, u, n, len, minSplit, i, end, r)
    ensures r.None? <==> NoneServes(c, u, n, len, minSplit, i, end)
    ensures FirstDecides(c, u, n, len, minSplit, i, end, r)
  {
    hide IdleRun, Serves, TakenAt;
    forall s, e, s', e' | FirstServing(c, u, n, len, minSplit, i, end, s, e)
                          && FirstServing(c, u, n, len, minSplit, i, end, s', e')
      ensures s == s' && e == e'
    {
      OneFirst(c, u, n, len, minSplit, i, end, s, e, s', e');
    }
  }

  /**
    The in-order choice: the first piece of the range if it is free; else the
    first stretch behind it that follows a fetched piece or is long enough to
    split decides, by its first piece or the one that completes the split size;
    nothing is chosen exactly when there is no such stretch.
   */
  lemma InorderExact(c: bytes, u: bytes, n: nat, len: int, minSplit: int, start: nat, end: int)
    requires len > 0
    ensures var r, stop := Inorder(c, u, n, len, minSplit, start, end), Min(end, n);
            && (r.None? <==> start >= stop || (Busy(c, u, start) && NoneServes(c, u, n, len, minSplit, start + 1, stop)))
            && (start < stop && !Busy(c, u, start) ==> r == Some(start))
            && (start < stop && Busy(c, u, start) ==> FirstDecides(c, u, n, len, minSplit, start + 1, stop, r))
  {
    hide Busy, InorderFrom, NoneServes, FirstDecides, ScanIs;
    var stop := Min(end, n);
    if start < stop && Busy(c, u, start) {
      InorderFromIs(c, u, n, len, minSplit, start + 1, stop);
      ScanDecides(c, u, n, len, minSplit, start + 1, stop, InorderFrom(c, u, n, len, minSplit, start + 1, stop));
    }
  }
}
