/** The segments still to be fetched according to a control bitfield. */
module ControlSegments {
  import opened Bytes
  import opened Bitfields
  import opened Pieces
  import opened Segments

  predicate Missing(bf: bytes, total: int, len: int, b: int)
    requires len > 0
  {
    0 <= b < total && !BitAt(bf, b / len)
  }

  /** The bytes of incomplete pieces, below a limit. */
  ghost function MissingBelow(bf: bytes, total: int, len: int, limit: int): iset<int>
    requires len > 0
  {
    iset b | Missing(bf, total, len, b) && b < limit
  }

  lemma PieceMissing(bf: bytes, total: int, len: int, i: nat, b: int)
    requires total > 0 && len > 0 && i < NumPieces(total, len) && i * len <= b < (i + 1) * len
    ensures Missing(bf, total, len, b) <==> b < total && !BitAt(bf, i)
    ensures b < total <==> b < PieceEnd(total, len, i)
  {
    NextStart(i, len);
    Spread(0, i, len);
    PieceBounds(total, len, i);
    QuotientLow(b, len, i);
    QuotientHigh(b, len, i + 1);
  }

  lemma SkipPiece(bf: bytes, total: int, len: int, i: nat)
    requires total > 0 && len > 0 && i < NumPieces(total, len) && BitAt(bf, i)
    ensures MissingBelow(bf, total, len, (i + 1) * len) == MissingBelow(bf, total, len, i * len)
  {
    NextStart(i, len);
    forall b | i * len <= b < (i + 1) * len
      ensures !Missing(bf, total, len, b)
    {
      PieceMissing(bf, total, len, i, b);
    }
  }

  lemma TakePiece(bf: bytes, total: int, len: int, i: nat)
    requires total > 0 && len > 0 && i < NumPieces(total, len) && !BitAt(bf, i)
    ensures MissingBelow(bf, total, len, (i + 1) * len)
         == MissingBelow(bf, total, len, i * len) + Range(i * len, PieceEnd(total, len, i))
  {
    PieceBounds(total, len, i);
    NextStart(i, len);
    var a := MissingBelow(bf, total, len, (i + 1) * len);
    var c := MissingBelow(bf, total, len, i * len) + Range(i * len, PieceEnd(total, len, i));
    forall b: int
      ensures b in a <==> b in c
    {
      if i * len <= b < (i + 1) * len {
        PieceMissing(bf, total, len, i, b);
      }
    }
  }

  /** A run of incomplete pieces is one range. */
  lemma {:induction false} TakeRun(bf: bytes, total: int, len: int, from: nat, till: nat)
    requires total > 0 && len > 0 && from < till <= NumPieces(total, len)
    requires forall i :: from <= i < till ==> !BitAt(bf, i)
    ensures MissingBelow(bf, total, len, till * len)
         == MissingBelow(bf, total, len, from * len) + Range(from * len, PieceEnd(total, len, till - 1))
    ensures from * len < PieceEnd(total, len, till - 1)
    decreases till
  {
    hide PieceEnd, NumPieces, MissingBelow;
    TakePiece(bf, total, len, till - 1);
    PieceBounds(total, len, till - 1);
    if from < till - 1 {
      TakeRun(bf, total, len, from, till - 1);
      PieceBounds(total, len, till - 2);
      JoinRanges(from * len, (till - 1) * len, PieceEnd(total, len, till - 1));
    }
  }

  lemma JoinRanges(a: int, b: int, c: int)
    requires a <= b <= c
    ensures Range(a, b) + Range(b, c) == Range(a, c)
  {
  }

  lemma BelowAll(bf: bytes, total: int, len: int)
    requires total > 0 && len > 0
    ensures MissingBelow(bf, total, len, NumPieces(total, len) * len) == iset b | Missing(bf, total, len, b)
    ensures MissingBelow(bf, total, len, 0) == iset{}
  {
    var n := NumPieces(total, len);
    PieceBounds(total, len, n - 1);
    NextStart(n - 1, len);
  }

  /**
    Every maximal run of incomplete pieces becomes one segment: the segments
    tile the bytes that are not complete, ascend and do not touch.
   */
  method MissingSegments(total: int, len: int, bf: bytes) returns (segs: seq<Segment>)
    requires total > 0 && len > 0
    ensures Tiles(segs, iset b | Missing(bf, total, len, b))
    ensures forall i :: 0 <= i < |segs| ==> Free(segs[i])
    ensures forall i :: 0 < i < |segs| ==> segs[i - 1].end < segs[i].start
  {
    hide Tiles, TotalSize, MissingBelow, Missing, PieceEnd, PieceSize, NumPieces, BitAt, Range;
    segs := [];
    var n := NumPieces(total, len);
    BelowAll(bf, total, len);
    assert Tiles([], iset{}) by { NothingTiles(); }
    var i := 0;
    while i < n
      invariant 0 <= i <= n && Tiles(segs, MissingBelow(bf, total, len, i * len))
      invariant forall k :: 0 <= k < |segs| ==> Free(segs[k])
      invariant forall k :: 0 < k < |segs| ==> segs[k - 1].end < segs[k].start
      invariant segs != [] ==> segs[|segs| - 1].end <= i * len || i == n
      invariant segs != [] && segs[|segs| - 1].end == i * len ==> i == n || BitAt(bf, i)
    {
      if BitAt(bf, i) {
        SkipPiece(bf, total, len, i);
        NextStart(i, len);
        i := i + 1;
        continue;
      }
      var first := i;
      while i < n && !BitAt(bf, i)
        invariant first <= i <= n && forall k :: first <= k < i ==> !BitAt(bf, k)
      {
        i := i + 1;
      }
      var start := first * len;
      var last := i - 1;
      var end := last * len + PieceSize(total, len, last);
      assert end == PieceEnd(total, len, last) by { EndIs(total, len, last); }
      TakeRun(bf, total, len, first, i);
      BelowIsBelow(bf, total, len, start);
      PieceBounds(total, len, last);
      TilesAppend(segs, MissingBelow(bf, total, len, start), NewSegment(start, end));
      segs := segs + [NewSegment(start, end)];
    }
  }

  lemma NothingTiles()
    ensures Tiles([], iset{})
  {
  }

  lemma EndIs(total: int, len: int, i: int)
    ensures PieceEnd(total, len, i) == i * len + PieceSize(total, len, i)
  {
  }

  lemma BelowIsBelow(bf: bytes, total: int, len: int, limit: int)
    requires len > 0
    ensures forall b :: b in MissingBelow(bf, total, len, limit) ==> b < limit
  {
  }

  /** A download resumed from its control file: what is complete and what is tiled make up the file. */
  method NewControlSegmentMan(total: int, len: int, bf: bytes) returns (sm: SegmentMan)
    requires total > 0 && len > 0
    ensures fresh(sm) && sm.Valid(iset b | Missing(bf, total, len, b))
    ensures forall b :: 0 <= b < total ==> (BitAt(bf, b / len) <==> !Held(sm.segments, b))
  {
    var segs := MissingSegments(total, len, bf);
    sm := new SegmentMan.Of(segs);
    forall b | 0 <= b < total
      ensures BitAt(bf, b / len) <==> !Held(segs, b)
    {
      assert Missing(bf, total, len, b) <==> Held(segs, b);
    }
  }
}
