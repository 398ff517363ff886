/** Counting pieces and bytes of a bitfield. */
module PieceCounts {
  import opened Bytes
  import opened NodeIds
  import opened Bitfields
  import opened Pieces

  function CountTrue(s: seq<bool>): (n: nat)
    ensures n <= |s|
  {
    if s == [] then 0 else CountTrue(s[..|s| - 1]) + if s[|s| - 1] then 1 else 0
  }

  lemma {:induction false} CountConcat(a: seq<bool>, b: seq<bool>)
    ensures CountTrue(a + b) == CountTrue(a) + CountTrue(b)
  {
    if b == [] {
      assert a + b == a;
    } else {
      assert (a + b)[..|a + b| - 1] == a + b[..|b| - 1];
      CountConcat(a, b[..|b| - 1]);
    }
  }

  lemma {:induction false} CountNone(s: seq<bool>)
    requires forall i :: 0 <= i < |s| ==> !s[i]
    ensures CountTrue(s) == 0
  {
    if s != [] {
      CountNone(s[..|s| - 1]);
    }
  }

  lemma {:induction false} CountSome(s: seq<bool>, k: nat)
    requires k < |s| && s[k]
    ensures CountTrue(s) > 0
  {
    if k < |s| - 1 {
      CountSome(s[..|s| - 1], k);
    }
  }

  // ----- Population counts byte by byte -----

  /** One entry of the population count table. */
  function PopCount(b: byte): nat {
    CountTrue(BitsOf(b))
  }

  lemma ByteOfBits(bf: bytes, i: nat)
    requires i < |bf|
    ensures Bits(bf, 8 * i + 8) == Bits(bf, 8 * i) + BitsOf(bf[i])
  {
    var a, b := Bits(bf, 8 * i + 8), Bits(bf, 8 * i) + BitsOf(bf[i]);
    forall k | 0 <= k < 8 * i + 8
      ensures a[k] == b[k]
    {
      if k >= 8 * i {
        assert k / 8 == i && k % 8 == k - 8 * i;
      }
    }
  }

  lemma MaskedCount(b: byte, s: nat)
    requires 1 <= s <= 8
    ensures PopCount(AndByte(b, MaskByte(s))) == CountTrue(BitsOf(b)[..s])
  {
    hide ByteBit, AndByte, MaskByte, CountTrue;
    var m := BitsOf(AndByte(b, MaskByte(s)));
    forall k | 0 <= k < 8
      ensures m[k] == (k < s && BitsOf(b)[k])
    {
      ByteOps(b, MaskByte(s), k);
      MaskBits(s, k);
    }
    assert m == BitsOf(b)[..s] + m[s..];
    CountConcat(BitsOf(b)[..s], m[s..]);
    CountNone(m[s..]);
  }

  /** All bytes but the last are looked up in the table; the last one only up to the last bit. */
  method CountSetBits(bf: bytes, n: nat) returns (count: nat)
    requires |bf| >= BytesFor(n)
    ensures count == CountTrue(Bits(bf, n))
  {
    hide CountTrue, AndByte, MaskByte, ByteBit;
    if n == 0 {
      CountNone(Bits(bf, 0));
      return 0;
    }
    var nbytes := (n + 7) / 8;
    count := 0;
    CountNone(Bits(bf, 0));
    for i := 0 to nbytes - 1
      invariant count == CountTrue(Bits(bf, 8 * i))
    {
      ByteOfBits(bf, i);
      CountConcat(Bits(bf, 8 * i), BitsOf(bf[i]));
      count := count + PopCount(bf[i]);
    }
    var last := nbytes - 1;
    var s := n - 8 * last;
    ByteOfBits(bf, last);
    var tail := BitsOf(bf[last])[..s];
    assert Bits(bf, n) == Bits(bf, 8 * last + 8)[..n] == Bits(bf, 8 * last) + tail;
    CountConcat(Bits(bf, 8 * last), tail);
    MaskedCount(bf[last], s);
    count := count + PopCount(AndByte(bf[last], MaskByte(s)));
  }

  // ----- All bits set -----

  /** Every piece is there and the bits behind the last piece are clear. */
  ghost predicate FullAndClean(bf: bytes, n: nat) {
    && (forall i :: 0 <= i < n ==> BitAt(bf, i))
    && (forall i :: n <= i < 8 * |bf| ==> !BitAt(bf, i))
  }

  lemma ByteIsMask(b: byte, s: nat)
    requires 1 <= s <= 8
    ensures b == MaskByte(s) <==> forall i :: 0 <= i < 8 ==> (ByteBit(b, i) <==> i < s)
  {
    hide ByteBit, MaskByte;
    forall i | 0 <= i < 8
      ensures ByteBit(MaskByte(s), i) <==> i < s
    {
      MaskBits(s, i);
    }
    if forall i :: 0 <= i < 8 ==> (ByteBit(b, i) <==> i < s) {
      SameBits(b, MaskByte(s));
    }
  }

  ghost predicate ByteFull(bf: bytes, k: nat, s: nat)
    requires k < |bf|
  {
    forall i :: 0 <= i < 8 ==> (ByteBit(bf[k], i) <==> i < s)
  }

  lemma FullByBytes(bf: bytes, n: nat)
    requires n > 0 && |bf| == BytesFor(n)
    ensures FullAndClean(bf, n) <==>
              (forall k :: 0 <= k < |bf| - 1 ==> ByteFull(bf, k, 8)) && ByteFull(bf, |bf| - 1, n - 8 * (|bf| - 1))
  {
    hide ByteBit;
    var last := |bf| - 1;
    if FullAndClean(bf, n) {
      forall k, i | 0 <= k < |bf| && 0 <= i < 8
        ensures ByteBit(bf[k], i) <==> 8 * k + i < n
      {
        assert BitAt(bf, 8 * k + i) <==> ByteBit(bf[k], i) by { SplitIndex(k, i); }
      }
    }
    if (forall k :: 0 <= k < last ==> ByteFull(bf, k, 8)) && ByteFull(bf, last, n - 8 * last) {
      forall i | 0 <= i < 8 * |bf|
        ensures BitAt(bf, i) <==> i < n
      {
        assert ByteFull(bf, i / 8, if i / 8 < last then 8 else n - 8 * last);
      }
    }
  }

  lemma SplitIndex(k: nat, i: nat)
    requires i < 8
    ensures (8 * k + i) / 8 == k && (8 * k + i) % 8 == i
  {
  }

  /** The test by whole bytes holds exactly when the field is full and its padding is clear. */
  method TestAllBitSet(bf: bytes, n: nat) returns (r: bool)
    requires |bf| == BytesFor(n)
    ensures r <==> FullAndClean(bf, n)
  {
    hide FullAndClean;
    if |bf| == 0 {
      assert FullAndClean(bf, n) by { NothingFull(bf, n); }
      return true;
    }
    FullByBytes(bf, n);
    for k := 0 to |bf| - 1
      invariant forall j :: 0 <= j < k ==> ByteFull(bf, j, 8)
    {
      ByteIsMask(bf[k], 8);
      if bf[k] != MaskByte(8) {
        assert !ByteFull(bf, k, 8);
        return false;
      }
      assert ByteFull(bf, k, 8);
    }
    ByteIsMask(bf[|bf| - 1], n - 8 * (|bf| - 1));
    r := bf[|bf| - 1] == MaskByte(n - 8 * (|bf| - 1));
  }

  lemma NothingFull(bf: bytes, n: nat)
    requires |bf| == 0 == BytesFor(n)
    ensures FullAndClean(bf, n)
  {
  }

  // ----- Sizes -----

  function SizeSum(s: seq<bool>, total: int, len: int): int {
    if s == [] then 0
    else SizeSum(s[..|s| - 1], total, len) + if s[|s| - 1] then PieceSize(total, len, |s| - 1) else 0
  }

  lemma {:induction false} FullPieces(s: seq<bool>, total: int, len: int)
    requires total > 0 && len > 0 && |s| < NumPieces(total, len)
    ensures SizeSum(s, total, len) == CountTrue(s) * len
  {
    if s != [] {
      var n := |s| - 1;
      FullPieces(s[..n], total, len);
      PieceBounds(total, len, n);
      NextStart(n, len);
      NextStart(CountTrue(s[..n]), len);
    }
  }

  /** Only the last piece can be shorter. */
  lemma SizeByCount(s: seq<bool>, total: int, len: int)
    requires total > 0 && len > 0 && |s| == NumPieces(total, len)
    ensures var c, last := CountTrue(s), PieceSize(total, len, |s| - 1);
            SizeSum(s, total, len) == if s[|s| - 1] then (c - 1) * len + last else c * len
  {
    FullPieces(s[..|s| - 1], total, len);
  }

  // ----- Completed bytes of a range -----

  predicate DoneByte(s: seq<bool>, len: int, b: int)
    requires len > 0
  {
    0 <= b / len < |s| && s[b / len]
  }

  /** How many bytes of a range lie in completed pieces. */
  function CountDone(s: seq<bool>, len: int, lo: int, hi: int): nat
    requires len > 0 && lo <= hi
    decreases hi - lo
  {
    if lo == hi then 0 else CountDone(s, len, lo, hi - 1) + if DoneByte(s, len, hi - 1) then 1 else 0
  }

  lemma {:induction false} CountDoneSplits(s: seq<bool>, len: int, lo: int, mid: int, hi: int)
    requires len > 0 && lo <= mid <= hi
    ensures CountDone(s, len, lo, hi) == CountDone(s, len, lo, mid) + CountDone(s, len, mid, hi)
    decreases hi - mid
  {
    if mid < hi {
      CountDoneSplits(s, len, lo, mid, hi - 1);
    }
  }

  lemma {:induction false} CountInPiece(s: seq<bool>, len: int, i: nat, lo: int, hi: int)
    requires len > 0 && i < |s| && i * len <= lo <= hi <= (i + 1) * len
    ensures CountDone(s, len, lo, hi) == if s[i] then hi - lo else 0
    decreases hi - lo
  {
    if lo < hi {
      CountInPiece(s, len, i, lo, hi - 1);
      QuotientLow(hi - 1, len, i);
      QuotientHigh(hi - 1, len, i + 1);
    }
  }

  /** Over whole pieces the completed bytes are the sizes of the completed pieces. */
  lemma {:induction false} CountPieces(s: seq<bool>, total: int, len: int, n: nat)
    requires total > 0 && len > 0 && |s| == NumPieces(total, len) && n <= |s|
    ensures var end := if n == |s| then total else n * len;
            0 <= end && CountDone(s, len, 0, end) == SizeSum(s[..n], total, len)
  {
    hide NumPieces, PieceSize;
    if n == 0 {
      AtLeastOne(total, len);
    } else {
      CountPieces(s, total, len, n - 1);
      PieceBounds(total, len, n - 1);
      NextStart(n - 1, len);
      var lo, hi := (n - 1) * len, PieceEnd(total, len, n - 1);
      assert PieceEnd(total, len, n - 1) == lo + PieceSize(total, len, n - 1);
      assert hi <= n * len by { SizeAtMost(total, len, n - 1); }
      CountDoneSplits(s, len, 0, lo, hi);
      CountInPiece(s, len, n - 1, lo, hi);
      assert s[..n][..n - 1] == s[..n - 1];
    }
  }

  lemma SizeAtMost(total: int, len: int, i: int)
    requires len > 0
    ensures PieceSize(total, len, i) <= len
  {
  }

  /** Over the whole file both counts agree. */
  lemma CountWhole(s: seq<bool>, total: int, len: int)
    requires total > 0 && len > 0 && |s| == NumPieces(total, len)
    ensures CountDone(s, len, 0, total) == SizeSum(s, total, len)
  {
    CountPieces(s, total, len, |s|);
    assert s[..|s|] == s;
  }
}
