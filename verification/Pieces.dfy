/** A file cut into pieces of one length; the last may be shorter. */
module Pieces {

  function NumPieces(total: int, len: int): (n: nat)
    ensures n > 0 <==> total > 0 && len > 0
  {
    if total <= 0 || len <= 0 then 0
    else
      AtLeastOne(total, len);
      (total + len - 1) / len
  }

  lemma AtLeastOne(total: int, len: int)
    requires total > 0 && len > 0
    ensures (total + len - 1) / len > 0
  {
    QuotientLow(total + len - 1, len, 1);
  }

  function PieceSize(total: int, len: int, i: int): int {
    var start := i * len;
    if start >= total then 0 else if start + len > total then total - start else len
  }

  function PieceEnd(total: int, len: int, i: int): int {
    i * len + PieceSize(total, len, i)
  }

  lemma QuotientLow(x: int, len: int, q: int)
    requires len > 0 && x >= q * len
    ensures x / len >= q
  {
    var d := x / len - q;
    assert x == x / len * len + x % len;
    if d < 0 {
      Times(d + 1, len);
    }
  }

  lemma QuotientHigh(x: int, len: int, q: int)
    requires len > 0 && x < q * len
    ensures x / len < q
  {
    var d := x / len - q;
    assert x == x / len * len + x % len;
    if d >= 0 {
      Times(-d, len);
    }
  }

  lemma Times(d: int, len: int)
    requires d <= 0 && len > 0
    ensures d * len <= 0 && (d - 1) * len == d * len - len
  {
  }

  /** Byte `b` is in piece `b / len` and in no other. */
  lemma PieceOfByte(total: int, len: int, b: int, i: int)
    requires len > 0 && 0 <= b < total && 0 <= i
    ensures b / len == i <==> i * len <= b < PieceEnd(total, len, i)
    ensures 0 <= b / len < NumPieces(total, len)
  {
    var q := b / len;
    assert b == q * len + b % len;
    QuotientLow(b, len, 0);
    NextStart(q, len);
    NextStart(i, len);
    if i * len <= b < i * len + len {
      QuotientLow(b, len, i);
      QuotientHigh(b, len, i + 1);
    }
    QuotientLow(total + len - 1, len, q + 1);
  }

  lemma NextStart(i: int, len: int)
    ensures (i + 1) * len == i * len + len
  {
  }

  /** The pieces follow one another without gap up to the end of the file. */
  lemma PieceBounds(total: int, len: int, i: int)
    requires len > 0 && total > 0 && 0 <= i < NumPieces(total, len)
    ensures 0 <= i * len < PieceEnd(total, len, i) <= total
    ensures PieceSize(total, len, i) > 0
    ensures if i + 1 < NumPieces(total, len) then PieceEnd(total, len, i) == (i + 1) * len
            else PieceEnd(total, len, i) == total
  {
    var n := NumPieces(total, len);
    var x := total + len - 1;
    assert x == n * len + x % len;
    NextStart(i, len);
    NextStart(n - 1, len);
    Spread(i, n - 1, len);
    if i + 1 < n {
      Spread(i + 1, n - 1, len);
    }
    Spread(0, i, len);
  }

  lemma Spread(a: int, b: int, len: int)
    requires a <= b && len > 0
    ensures a * len <= b * len
  {
  }

  // ----- Ranges of bytes and pieces -----

  /** Piece `q` has a byte between `lo` and `hi`. */
  ghost predicate Meets(lo: int, hi: int, len: int, q: int)
    requires len > 0
  {
    exists b :: PieceHas(lo, hi, len, q, b)
  }

  predicate PieceHas(lo: int, hi: int, len: int, q: int, b: int)
    requires len > 0
  {
    lo <= b < hi && b / len == q
  }

  lemma MeetsInside(lo: nat, hi: nat, len: int, q: int)
    requires len > 0 && lo < hi && lo / len <= q <= (hi - 1) / len
    ensures Meets(lo, hi, len, q)
  {
    var first, last := lo / len, (hi - 1) / len;
    if q == first {
      assert PieceHas(lo, hi, len, q, lo);
    } else {
      var start := q * len;
      assert lo < start by {
        assert lo == first * len + lo % len;
        NextStart(first, len);
        Spread(first + 1, q, len);
      }
      assert start < hi by {
        assert hi - 1 == last * len + (hi - 1) % len;
        Spread(q, last, len);
      }
      assert start / len == q by {
        NextStart(q, len);
        QuotientLow(start, len, q);
        QuotientHigh(start, len, q + 1);
      }
      assert PieceHas(lo, hi, len, q, start);
    }
  }

  /** The pieces a range meets are the ones from that of its first to that of its last byte. */
  lemma MeetsRange(lo: nat, hi: nat, len: int, q: int)
    requires len > 0 && lo < hi
    ensures Meets(lo, hi, len, q) <==> lo / len <= q <= (hi - 1) / len
  {
    if b :| PieceHas(lo, hi, len, q, b) {
      QuotientMonotone(lo, b, len);
      QuotientMonotone(b, hi - 1, len);
    }
    hide Meets;
    if lo / len <= q <= (hi - 1) / len {
      MeetsInside(lo, hi, len, q);
    }
  }

  lemma QuotientMonotone(a: int, b: int, len: int)
    requires len > 0 && a <= b
    ensures a / len <= b / len
  {
    assert a == a / len * len + a % len;
    QuotientLow(b, len, a / len);
  }
}
