/** The control file's bitfield: which pieces of a download are complete, kept up while bytes arrive. */
module Control {
  import opened Bytes
  import opened Bitfields
  import opened Lists
  import opened Pieces

  // ----- Writes and what they cover -----

  datatype Write = Write(lo: int, hi: int)

  /** What of a reported write counts: nothing when it is empty or starts outside the file. */
  function Effective(total: int, start: int, length: int): (w: Write)
    ensures 0 <= w.lo <= w.hi && (w.lo < w.hi ==> w.hi <= total)
  {
    var end := if start + length > total then total else start + length;
    if length <= 0 || start < 0 || start >= end then Write(0, 0) else Write(start, end)
  }

  predicate Wrote(w: Write, b: int) {
    w.lo <= b < w.hi
  }

  ghost predicate Covered(ws: seq<Write>, b: int) {
    exists k :: 0 <= k < |ws| && Wrote(ws[k], b)
  }

  ghost predicate DisjointWrites(ws: seq<Write>) {
    forall j, k :: 0 <= j < k < |ws| ==> forall b :: !(Wrote(ws[j], b) && Wrote(ws[k], b))
  }

  function Overlap(w: Write, lo: int, hi: int): nat {
    var a, b := Max(w.lo, lo), Min(w.hi, hi);
    if b <= a then 0 else b - a
  }

  function OverlapSum(ws: seq<Write>, lo: int, hi: int): nat {
    if ws == [] then 0 else OverlapSum(ws[..|ws| - 1], lo, hi) + Overlap(ws[|ws| - 1], lo, hi)
  }

  /** How many of the writes hold byte `b`. */
  function Times(ws: seq<Write>, b: int): nat {
    if ws == [] then 0 else Times(ws[..|ws| - 1], b) + if Wrote(ws[|ws| - 1], b) then 1 else 0
  }

  lemma {:induction false} SumGrows(ws: seq<Write>, lo: int, hi: int)
    requires lo <= hi
    ensures OverlapSum(ws, lo, lo) == 0
    ensures OverlapSum(ws, lo, hi + 1) == OverlapSum(ws, lo, hi) + Times(ws, hi)
  {
    if ws != [] {
      SumGrows(ws[..|ws| - 1], lo, hi);
    }
  }

  lemma CoveredUnfold(ws: seq<Write>, b: int)
    requires ws != []
    ensures Covered(ws, b) <==> Covered(ws[..|ws| - 1], b) || Wrote(ws[|ws| - 1], b)
  {
    var rest := ws[..|ws| - 1];
    if k :| 0 <= k < |rest| && Wrote(rest[k], b) {
      assert Wrote(ws[k], b);
    }
    if k :| 0 <= k < |ws| && Wrote(ws[k], b) {
      if k < |rest| {
        assert Wrote(rest[k], b);
      }
    }
  }

  lemma {:induction false} TimesCovered(ws: seq<Write>, b: int)
    requires DisjointWrites(ws)
    ensures Times(ws, b) == if Covered(ws, b) then 1 else 0
  {
    if ws != [] {
      TimesCovered(ws[..|ws| - 1], b);
      CoveredUnfold(ws, b);
    }
  }

  /** Disjoint writes add up to a whole range exactly when they cover it. */
  lemma {:induction false} SumIsCoverage(ws: seq<Write>, lo: int, hi: int)
    requires DisjointWrites(ws) && lo <= hi
    ensures OverlapSum(ws, lo, hi) <= hi - lo
    ensures OverlapSum(ws, lo, hi) == hi - lo <==> forall b :: lo <= b < hi ==> Covered(ws, b)
    decreases hi - lo
  {
    hide OverlapSum, Times, Covered;
    if lo == hi {
      SumGrows(ws, lo, hi);
    } else {
      SumIsCoverage(ws, lo, hi - 1);
      SumGrows(ws, lo, hi - 1);
      TimesCovered(ws, hi - 1);
    }
  }

  // ----- Progress -----

  /** For every piece, whether it is complete and how many of its bytes have been counted. */
  datatype Progress = Progress(bits: seq<bool>, counts: seq<int>)


  function Share(total: int, len: int, w: Write, i: int): nat {
    Overlap(w, i * len, PieceEnd(total, len, i))
  }

  predicate Fills(p: Progress, total: int, len: int, w: Write, i: nat)
    requires i < |p.bits| == |p.counts|
  {
    Share(total, len, w, i) > 0 && p.counts[i] + Share(total, len, w, i) >= PieceSize(total, len, i)
  }

  predicate BitAfter(p: Progress, total: int, len: int, w: Write, i: nat)
    requires i < |p.bits| == |p.counts|
  {
    p.bits[i] || Fills(p, total, len, w, i)
  }

  function CountAfter(p: Progress, total: int, len: int, w: Write, i: nat): int
    requires i < |p.bits| == |p.counts|
  {
    if p.bits[i] then p.counts[i]
    else if Fills(p, total, len, w, i) then PieceSize(total, len, i)
    else p.counts[i] + Share(total, len, w, i)
  }

  /** A write adds its share to every incomplete piece and completes those that are then full. */
  function Marked(p: Progress, total: int, len: int, w: Write): (r: Progress)
    requires |p.bits| == |p.counts|
    ensures |r.bits| == |r.counts| == |p.bits|
  {
    Progress(
      seq(|p.bits|, i requires 0 <= i < |p.bits| => BitAfter(p, total, len, w, i)),
      seq(|p.bits|, i requires 0 <= i < |p.bits| => CountAfter(p, total, len, w, i)))
  }

  /** The pieces completed between two moments, ascending, among the first `n`. */
  function NewlySet(p: Progress, r: Progress, n: nat): seq<nat>
    requires n <= |p.bits| && n <= |r.bits|
  {
    if n == 0 then []
    else NewlySet(p, r, n - 1) + if !p.bits[n - 1] && r.bits[n - 1] then [n - 1] else []
  }

  function Seeded(bits: seq<bool>, total: int, len: int): Progress {
    Progress(bits, seq(|bits|, i requires 0 <= i < |bits| => if bits[i] then PieceSize(total, len, i) else 0))
  }

  function After(p: Progress, total: int, len: int, ws: seq<Write>): (r: Progress)
    requires |p.bits| == |p.counts|
    ensures |r.bits| == |r.counts| == |p.bits|
  {
    if ws == [] then p else Marked(After(p, total, len, ws[..|ws| - 1]), total, len, ws[|ws| - 1])
  }

  /** Everything reported as completed over a run. */
  function Reports(p: Progress, total: int, len: int, ws: seq<Write>): seq<nat>
    requires |p.bits| == |p.counts|
  {
    if ws == [] then []
    else
      var before := After(p, total, len, ws[..|ws| - 1]);
      Reports(p, total, len, ws[..|ws| - 1]) + NewlySet(before, Marked(before, total, len, ws[|ws| - 1]), |p.bits|)
  }

  // ----- Runs of writes -----

  /** What is known of piece `i` after the writes `ws`: it is complete once the shares of the writes add up to its size. */
  ghost predicate Tallied(bits: seq<bool>, p: Progress, total: int, len: int, ws: seq<Write>, i: nat)
    requires i < |bits| == |p.bits| == |p.counts|
  {
    var sum, size := OverlapSum(ws, i * len, PieceEnd(total, len, i)), PieceSize(total, len, i);
    && p.counts[i] == (if p.bits[i] then size else sum)
    && (p.bits[i] <==> bits[i] || sum >= size)
  }

  /** Over every run, whether its writes overlap or not. */
  lemma {:induction false} RunTallies(bits: seq<bool>, total: int, len: int, ws: seq<Write>, i: nat)
    requires total > 0 && len > 0 && |bits| == NumPieces(total, len) && i < |bits|
    ensures Tallied(bits, After(Seeded(bits, total, len), total, len, ws), total, len, ws, i)
  {
    hide OverlapSum;
    PieceBounds(total, len, i);
    var lo, hi := i * len, PieceEnd(total, len, i);
    if ws == [] {
      NoWrites(lo, hi);
    } else {
      RunTallies(bits, total, len, ws[..|ws| - 1], i);
      SumUnfold(ws, lo, hi);
    }
  }

  lemma NoWrites(lo: int, hi: int)
    ensures OverlapSum([], lo, hi) == 0
  {
  }

  lemma SumUnfold(ws: seq<Write>, lo: int, hi: int)
    requires ws != []
    ensures OverlapSum(ws, lo, hi) == OverlapSum(ws[..|ws| - 1], lo, hi) + Overlap(ws[|ws| - 1], lo, hi)
  {
  }

  lemma {:induction false} TimesWhenCovered(ws: seq<Write>, b: int)
    ensures Times(ws, b) > 0 <==> Covered(ws, b)
  {
    if ws != [] {
      TimesWhenCovered(ws[..|ws| - 1], b);
      CoveredUnfold(ws, b);
    }
  }

  lemma {:induction false} SumWhenCovered(ws: seq<Write>, lo: int, hi: int)
    requires lo <= hi && forall b :: lo <= b < hi ==> Covered(ws, b)
    ensures OverlapSum(ws, lo, hi) >= hi - lo
    decreases hi - lo
  {
    hide OverlapSum, Times, Covered;
    if lo < hi {
      SumWhenCovered(ws, lo, hi - 1);
      SumGrows(ws, lo, hi - 1);
      TimesWhenCovered(ws, hi - 1);
    }
  }

  /** Over every run a piece all of whose bytes have been written is complete. */
  lemma WrittenIsComplete(bits: seq<bool>, total: int, len: int, ws: seq<Write>, i: nat)
    requires total > 0 && len > 0 && |bits| == NumPieces(total, len) && i < |bits|
    requires forall b :: i * len <= b < PieceEnd(total, len, i) ==> Covered(ws, b)
    ensures After(Seeded(bits, total, len), total, len, ws).bits[i]
  {
    hide OverlapSum, Covered, After, Seeded;
    PieceBounds(total, len, i);
    RunTallies(bits, total, len, ws, i);
    SumWhenCovered(ws, i * len, PieceEnd(total, len, i));
  }

  /**
    Over any run of disjoint writes a piece is complete exactly when it was so
    at the start or all of its bytes have been written, and no counter exceeds
    the size of its piece.
   */
  lemma CompleteIffWritten(bits: seq<bool>, total: int, len: int, ws: seq<Write>, i: nat)
    requires total > 0 && len > 0 && |bits| == NumPieces(total, len) && i < |bits| && DisjointWrites(ws)
    ensures var p := After(Seeded(bits, total, len), total, len, ws);
            && (p.bits[i] <==> bits[i] || forall b :: i * len <= b < PieceEnd(total, len, i) ==> Covered(ws, b))
            && 0 <= p.counts[i] <= PieceSize(total, len, i)
  {
    hide OverlapSum, Covered, After, Seeded;
    PieceBounds(total, len, i);
    RunTallies(bits, total, len, ws, i);
    SumIsCoverage(ws, i * len, PieceEnd(total, len, i));
  }

  /** One byte written `n` times. */
  function Rewrites(b: int, n: nat): (ws: seq<Write>)
    ensures |ws| == n && forall k :: 0 <= k < n ==> ws[k] == Write(b, b + 1)
  {
    if n == 0 then [] else Rewrites(b, n - 1) + [Write(b, b + 1)]
  }

  lemma {:induction false} RewritesSum(b: int, n: nat, lo: int, hi: int)
    requires lo <= b < hi
    ensures OverlapSum(Rewrites(b, n), lo, hi) == n
  {
    hide OverlapSum, Rewrites;
    var ws := Rewrites(b, n);
    if n == 0 {
      NoWrites(lo, hi);
    } else {
      RewritesSum(b, n - 1, lo, hi);
      assert ws[..n - 1] == Rewrites(b, n - 1);
      SumUnfold(ws, lo, hi);
    }
  }

  /**
    Overlapping writes are counted as often as they come: any single byte of a
    piece, written as often as the piece has bytes, completes it, although no
    other byte has been written.
   */
  lemma RewritesComplete(bits: seq<bool>, total: int, len: int, i: nat, b: int)
    requires total > 0 && len > 0 && |bits| == NumPieces(total, len) && i < |bits|
    requires i * len <= b < PieceEnd(total, len, i)
    ensures var ws := Rewrites(b, PieceSize(total, len, i));
            && After(Seeded(bits, total, len), total, len, ws).bits[i]
            && forall x :: Covered(ws, x) <==> x == b
  {
    PieceBounds(total, len, i);
    var n := PieceSize(total, len, i);
    var ws := Rewrites(b, n);
    RewritesSum(b, n, i * len, PieceEnd(total, len, i));
    RunTallies(bits, total, len, ws, i);
    hide After, Seeded, OverlapSum;
    assert Wrote(ws[0], b);
  }

  ghost function SetBetween(p: Progress, r: Progress, n: nat): set<nat>
    requires n <= |p.bits| && n <= |r.bits|
  {
    set i | 0 <= i < n && !p.bits[i] && r.bits[i]
  }

  /** The members of the set, each once. */
  ghost predicate ListsOnce(q: seq<nat>, a: set<nat>) {
    Distinct(q) && forall x :: x in q <==> x in a
  }

  lemma ListBoth(q: seq<nat>, a: set<nat>, r: seq<nat>, b: set<nat>)
    requires ListsOnce(q, a) && ListsOnce(r, b) && a !! b
    ensures ListsOnce(q + r, a + b)
  {
    DistinctConcat(q, r);
  }

  lemma BetweenNext(p: Progress, r: Progress, n: nat)
    requires n < |p.bits| && n < |r.bits|
    ensures SetBetween(p, r, n + 1) == SetBetween(p, r, n) + if !p.bits[n] && r.bits[n] then {n} else {}
    ensures SetBetween(p, r, n) !! {n}
  {
  }

  lemma {:induction false} NewlySetMembers(p: Progress, r: Progress, n: nat)
    requires n <= |p.bits| && n <= |r.bits|
    ensures ListsOnce(NewlySet(p, r, n), SetBetween(p, r, n))
  {
    if n > 0 {
      NewlySetMembers(p, r, n - 1);
      BetweenNext(p, r, n - 1);
      var q, a := NewlySet(p, r, n - 1), SetBetween(p, r, n - 1);
      if !p.bits[n - 1] && r.bits[n - 1] {
        ListBoth(q, a, [n - 1], {n - 1});
      }
    }
  }

  /** Over any run the reports list each newly completed piece once, and nothing else. */
  lemma {:induction false} ReportedOnce(p: Progress, total: int, len: int, ws: seq<Write>)
    requires |p.bits| == |p.counts|
    ensures ListsOnce(Reports(p, total, len, ws), SetBetween(p, After(p, total, len, ws), |p.bits|))
    ensures forall i :: 0 <= i < |p.bits| && p.bits[i] ==> After(p, total, len, ws).bits[i]
  {
    if ws != [] {
      var rest, w := ws[..|ws| - 1], ws[|ws| - 1];
      ReportedOnce(p, total, len, rest);
      var before := After(p, total, len, rest);
      var after := Marked(before, total, len, w);
      NewlySetMembers(before, after, |p.bits|);
      var n := |p.bits|;
      assert SetBetween(p, after, n) == SetBetween(p, before, n) + SetBetween(before, after, n);
      ListBoth(Reports(p, total, len, rest), SetBetween(p, before, n), NewlySet(before, after, n), SetBetween(before, after, n));
    }
  }

  // ----- The record -----

  class Info {
    const total: int
    const len: int
    var bitfield: bytes
    var pieceBytes: seq<int>

    ghost predicate Valid()
      reads this
    {
      && total > 0 && len > 0
      && |bitfield| == BytesFor(NumPieces(total, len)) && |pieceBytes| == NumPieces(total, len)
    }

    ghost function View(): (p: Progress)
      reads this
      requires Valid()
      ensures |p.bits| == |p.counts| == NumPieces(total, len)
    {
      Progress(Bits(bitfield, NumPieces(total, len)), pieceBytes)
    }

    constructor (total: int, len: int, bitfield: bytes)
      requires total > 0 && len > 0 && |bitfield| == BytesFor(NumPieces(total, len))
      ensures Valid() && this.total == total && this.len == len && this.bitfield == bitfield
      ensures View() == Seeded(Bits(bitfield, NumPieces(total, len)), total, len)
    {
      var counts := SeedPieceBytes(total, len, bitfield);
      this.total, this.len, this.bitfield, pieceBytes := total, len, bitfield, counts;
    }

    static method SeedPieceBytes(total: int, len: int, bitfield: bytes) returns (counts: seq<int>)
      ensures counts == Seeded(Bits(bitfield, NumPieces(total, len)), total, len).counts
    {
      counts := [];
      for i := 0 to NumPieces(total, len)
        invariant counts == Seeded(Bits(bitfield, NumPieces(total, len)), total, len).counts[..i]
      {
        counts := counts + [if BitAt(bitfield, i) then PieceSize(total, len, i) else 0];
      }
    }

    /** One piece takes its share of a write; the result says whether that completed it. */
    method MarkPiece(start: int, end: int, i: nat) returns (full: bool)
      requires Valid() && start < end && i < NumPieces(total, len)
      modifies this
      ensures Valid() && View() == MarkedAt(old(View()), total, len, Write(start, end), i)
      ensures full <==> !old(View()).bits[i] && View().bits[i]
    {
      ghost var p := View();
      if BitAt(bitfield, i) {
        assert MarkedAt(p, total, len, Write(start, end), i) == p;
        return false;
      }
      var pieceStart := i * len;
      var pieceEnd := pieceStart + PieceSize(total, len, i);
      var from, to := Max(start, pieceStart), Min(end, pieceEnd);
      if to <= from {
        assert MarkedAt(p, total, len, Write(start, end), i) == p;
        return false;
      }
      pieceBytes := pieceBytes[i := pieceBytes[i] + (to - from)];
      full := pieceBytes[i] >= pieceEnd - pieceStart;
      if full {
        pieceBytes := pieceBytes[i := pieceEnd - pieceStart];
        SetBits(bitfield, i, true, NumPieces(total, len));
        bitfield := SetBit(bitfield, i, true);
      }
      assert View() == MarkedAt(p, total, len, Write(start, end), i);
    }

    /** The result lists the pieces this write has completed. */
    method MarkWritten(start: int, length: int) returns (completed: seq<nat>)
      requires Valid()
      modifies this
      ensures Valid()
      ensures View() == Marked(old(View()), total, len, Effective(total, start, length))
      ensures completed == NewlySet(old(View()), View(), NumPieces(total, len))
    {
      hide Marked, NewlySet, MarkedAt, MarkedUpTo;
      completed := [];
      ghost var p, w := View(), Effective(total, start, length);
      var end := start + length;
      if end > total {
        end := total;
      }
      if length <= 0 || start < 0 || start >= end {
        MarkNothing(p, total, len, w);
        return;
      }
      var first, last := start / len, (end - 1) / len;
      PieceOfByte(total, len, start, 0);
      PieceOfByte(total, len, end - 1, 0);
      MarkSkips(p, total, len, w, first);
      var i := first;
      while i <= last && i < NumPieces(total, len)
        invariant Valid() && first <= i <= NumPieces(total, len)
        invariant MarkedUpTo(p, View(), total, len, w, i) && completed == NewlySet(p, View(), i)
        decreases NumPieces(total, len) - i
      {
        MarkNext(p, View(), total, len, w, i);
        var full := MarkPiece(start, end, i);
        if full {
          completed := completed + [i];
        }
        i := i + 1;
      }
      MarkEnds(p, View(), total, len, w, i);
    }
  }

  function MarkedAt(p: Progress, total: int, len: int, w: Write, i: nat): Progress
    requires i < |p.bits| == |p.counts|
  {
    Progress(p.bits[i := BitAfter(p, total, len, w, i)], p.counts[i := CountAfter(p, total, len, w, i)])
  }

  /** The pieces before `i` have taken their share, the others not yet. */
  ghost predicate MarkedUpTo(p: Progress, r: Progress, total: int, len: int, w: Write, i: nat) {
    && i <= |p.bits| == |p.counts| == |r.bits| == |r.counts|
    && (forall k :: 0 <= k < i ==>
          r.bits[k] == BitAfter(p, total, len, w, k) && r.counts[k] == CountAfter(p, total, len, w, k))
    && (forall k :: i <= k < |p.bits| ==> r.bits[k] == p.bits[k] && r.counts[k] == p.counts[k])
  }

  lemma EndsBefore(len: int, k: int, x: int)
    requires len > 0 && k < x / len
    ensures k * len + len <= x
  {
    assert x == x / len * len + x % len;
    Spread(k + 1, x / len, len);
    NextStart(k, len);
  }

  lemma StartsAfter(len: int, k: int, x: int)
    requires len > 0 && k > x / len
    ensures k * len > x
  {
    assert x == x / len * len + x % len;
    Spread(x / len + 1, k, len);
    NextStart(x / len, len);
  }

  lemma ShareIsNone(total: int, len: int, w: Write, k: nat)
    requires len > 0
    requires w.lo < w.hi ==> k < w.lo / len || k > (w.hi - 1) / len
    ensures Share(total, len, w, k) == 0
  {
    if w.lo < w.hi {
      if k < w.lo / len {
        EndsBefore(len, k, w.lo);
      } else {
        StartsAfter(len, k, w.hi - 1);
      }
    }
  }

  lemma NoShare(p: Progress, total: int, len: int, w: Write, k: nat)
    requires total > 0 && len > 0 && |p.bits| == |p.counts| == NumPieces(total, len) && k < |p.bits|
    requires w.lo < w.hi ==> k < w.lo / len || k > (w.hi - 1) / len
    ensures BitAfter(p, total, len, w, k) == p.bits[k] && CountAfter(p, total, len, w, k) == p.counts[k]
  {
    hide Share, PieceSize, NumPieces;
    ShareIsNone(total, len, w, k);
  }

  lemma {:induction false} NoneNew(p: Progress, r: Progress, n: nat)
    requires n <= |p.bits| && n <= |r.bits| && forall k :: 0 <= k < n ==> p.bits[k] == r.bits[k]
    ensures NewlySet(p, r, n) == []
  {
    if n > 0 {
      NoneNew(p, r, n - 1);
    }
  }

  lemma {:induction false} NewSame(p: Progress, r: Progress, t: Progress, n: nat)
    requires n <= |p.bits| && n <= |r.bits| && n <= |t.bits| && forall k :: 0 <= k < n ==> r.bits[k] == t.bits[k]
    ensures NewlySet(p, r, n) == NewlySet(p, t, n)
  {
    if n > 0 {
      NewSame(p, r, t, n - 1);
    }
  }

  lemma MarkNothing(p: Progress, total: int, len: int, w: Write)
    requires total > 0 && len > 0 && |p.bits| == |p.counts| == NumPieces(total, len) && w.lo >= w.hi
    ensures Marked(p, total, len, w) == p && NewlySet(p, p, |p.bits|) == []
  {
    NoneNew(p, p, |p.bits|);
    forall k | 0 <= k < |p.bits|
      ensures Marked(p, total, len, w).bits[k] == p.bits[k] && Marked(p, total, len, w).counts[k] == p.counts[k]
    {
      NoShare(p, total, len, w, k);
    }
    var r := Marked(p, total, len, w);
    assert r.bits == p.bits && r.counts == p.counts;
  }

  lemma MarkSkips(p: Progress, total: int, len: int, w: Write, first: nat)
    requires total > 0 && len > 0 && |p.bits| == |p.counts| == NumPieces(total, len)
    requires w.lo < w.hi && first == w.lo / len && first <= |p.bits|
    ensures MarkedUpTo(p, p, total, len, w, first) && NewlySet(p, p, first) == []
  {
    NoneNew(p, p, first);
    forall k | 0 <= k < first
      ensures p.bits[k] == BitAfter(p, total, len, w, k) && p.counts[k] == CountAfter(p, total, len, w, k)
    {
      NoShare(p, total, len, w, k);
    }
  }

  lemma MarkNext(p: Progress, r: Progress, total: int, len: int, w: Write, i: nat)
    requires MarkedUpTo(p, r, total, len, w, i) && i < |p.bits|
    ensures var t := MarkedAt(r, total, len, w, i);
            && MarkedUpTo(p, t, total, len, w, i + 1)
            && NewlySet(p, t, i + 1) == NewlySet(p, r, i) + if !r.bits[i] && t.bits[i] then [i] else []
  {
    NewSame(p, r, MarkedAt(r, total, len, w, i), i);
  }

  lemma MarkEnds(p: Progress, r: Progress, total: int, len: int, w: Write, i: nat)
    requires total > 0 && len > 0 && |p.bits| == NumPieces(total, len) && w.lo < w.hi
    requires MarkedUpTo(p, r, total, len, w, i) && (i == |p.bits| || i > (w.hi - 1) / len)
    ensures r == Marked(p, total, len, w) && NewlySet(p, r, |p.bits|) == NewlySet(p, r, i)
  {
    forall k | i <= k < |p.bits|
      ensures p.bits[k] == BitAfter(p, total, len, w, k) && p.counts[k] == CountAfter(p, total, len, w, k)
    {
      NoShare(p, total, len, w, k);
    }
    var m := Marked(p, total, len, w);
    assert m.bits == r.bits && m.counts == r.counts;
    NoneNewAfter(p, r, i, |p.bits|);
  }

  lemma {:induction false} NoneNewAfter(p: Progress, r: Progress, i: nat, n: nat)
    requires i <= n <= |p.bits| && n <= |r.bits| && forall k :: i <= k < n ==> p.bits[k] == r.bits[k]
    ensures NewlySet(p, r, n) == NewlySet(p, r, i)
  {
    if i < n {
      NoneNewAfter(p, r, i, n - 1);
    }
  }

  // ----- Changing the piece length -----

  /** Byte `b` lies in a piece the bitfield marks complete. */
  predicate ByteDone(bf: bytes, len: int, b: int)
    requires len > 0
  {
    BitAt(bf, b / len)
  }

  /** A piece walks from old piece to old piece over its bytes. */
  method PieceDone(src: bytes, total: int, srcLen: int, start: int, end: int) returns (complete: bool)
    requires srcLen > 0 && 0 <= start <= end
    ensures complete <==> forall b :: start <= b < end ==> ByteDone(src, srcLen, b)
  {
    var pos := start;
    while pos < end
      invariant start <= pos <= end
      invariant forall b :: start <= b < pos ==> ByteDone(src, srcLen, b)
      decreases end - pos
    {
      var srcIdx := pos / srcLen;
      if !BitAt(src, srcIdx) {
        assert !ByteDone(src, srcLen, pos);
        return false;
      }
      var next := (srcIdx + 1) * srcLen;
      SamePiece(srcLen, srcIdx, pos);
      forall b | pos <= b < next
        ensures ByteDone(src, srcLen, b)
      {
        SamePiece(srcLen, srcIdx, b);
      }
      if next > end {
        next := end;
      }
      pos := next;
    }
    complete := true;
  }

  lemma SamePiece(len: int, q: int, b: int)
    requires len > 0 && q >= 0
    ensures b / len == q <==> q * len <= b < (q + 1) * len
  {
    NextStart(q, len);
    if q * len <= b < (q + 1) * len {
      QuotientLow(b, len, q);
      QuotientHigh(b, len, q + 1);
    }
    assert b == b / len * len + b % len;
  }

  /** A new piece is marked exactly when every byte of it was in a completed old piece. */
  method ConvertBitfield(src: bytes, total: int, srcLen: int, dstLen: int) returns (dst: bytes)
    requires srcLen > 0 && dstLen > 0
    ensures |dst| == BytesFor(NumPieces(total, dstLen))
    ensures forall i :: 0 <= i < NumPieces(total, dstLen) ==>
              (BitAt(dst, i) <==> forall b :: i * dstLen <= b < PieceEnd(total, dstLen, i) ==> ByteDone(src, srcLen, b))
    ensures forall i :: i >= NumPieces(total, dstLen) ==> !BitAt(dst, i)
  {
    var n := NumPieces(total, dstLen);
    dst := seq(BytesFor(n), _ => 0);
    forall i
      ensures !BitAt(dst, i)
    {
      NoBits(BytesFor(n), i);
    }
    for i := 0 to n
      invariant |dst| == BytesFor(n)
      invariant forall k :: 0 <= k < i ==> (BitAt(dst, k) <==> Whole(src, total, srcLen, dstLen, k))
      invariant forall k :: k >= i ==> !BitAt(dst, k)
    {
      PieceBounds(total, dstLen, i);
      var complete := PieceDone(src, total, srcLen, i * dstLen, i * dstLen + PieceSize(total, dstLen, i));
      if complete {
        BitsFit(n, i);
        forall k
          ensures BitAt(SetBit(dst, i, true), k) == (k == i || BitAt(dst, k)) && |SetBit(dst, i, true)| == |dst|
        {
          SetBitAt(dst, i, true, k);
        }
        dst := SetBit(dst, i, true);
      }
    }
  }

  ghost predicate Whole(src: bytes, total: int, srcLen: int, dstLen: int, i: int)
    requires srcLen > 0 && dstLen > 0
  {
    forall b :: i * dstLen <= b < PieceEnd(total, dstLen, i) ==> ByteDone(src, srcLen, b)
  }

  /** `dst` is a conversion of `src`. */
  ghost predicate Converts(src: bytes, dst: bytes, total: int, srcLen: int, dstLen: int)
    requires srcLen > 0 && dstLen > 0
  {
    forall i :: 0 <= i < NumPieces(total, dstLen) ==> (BitAt(dst, i) <==> Whole(src, total, srcLen, dstLen, i))
  }

  /** Converting never makes a byte complete. */
  lemma ConvertNeverGrows(src: bytes, dst: bytes, total: int, srcLen: int, dstLen: int, b: int)
    requires srcLen > 0 && dstLen > 0 && Converts(src, dst, total, srcLen, dstLen) && 0 <= b < total
    requires ByteDone(dst, dstLen, b)
    ensures ByteDone(src, srcLen, b)
  {
    PieceOfByte(total, dstLen, b, b / dstLen);
    QuotientLow(b, dstLen, 0);
    PieceOfByte(total, dstLen, b, 0);
  }

  /** Converting to the same length changes no piece. */
  lemma ConvertSame(src: bytes, dst: bytes, total: int, len: int, i: int)
    requires len > 0 && Converts(src, dst, total, len, len) && 0 <= i < NumPieces(total, len)
    ensures BitAt(dst, i) == BitAt(src, i)
  {
    PieceBounds(total, len, i);
    var first := i * len;
    NextStart(i, len);
    SamePiece(len, i, first);
    forall b | first <= b < PieceEnd(total, len, i)
      ensures ByteDone(src, len, b) == BitAt(src, i)
    {
      SamePiece(len, i, b);
    }
    assert ByteDone(src, len, first) == BitAt(src, i);
  }
}
