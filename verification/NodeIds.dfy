/**
  DHT node identifiers: 20 byte strings compared byte by byte, and the aligned
  ranges the routing tree makes of them by flipping single bits.
 */
module NodeIds {
  import opened Bytes

  const ID_BYTES: nat := 20
  const ID_BITS: nat := 160

  type NodeId = s: seq<byte> | |s| == ID_BYTES witness seq(ID_BYTES, _ => 0)

  function Lowest(): NodeId {
    seq(ID_BYTES, _ => 0)
  }

  function Highest(): NodeId {
    seq(ID_BYTES, _ => 255)
  }

  /** Two to the number of bits of a byte that follow its first r bits. */
  function TailSize(r: nat): (t: nat)
    requires r <= 8
    ensures t > 0
    ensures r < 8 ==> t == 2 * TailSize(r + 1)
    decreases 8 - r
  {
    if r == 8 then 1 else 2 * TailSize(r + 1)
  }

  /** `1 << (7 - i)`: the weight of bit i of a byte, bit 0 being the highest. */
  function BitWeight(i: nat): nat
    requires i < 8
  {
    TailSize(i + 1)
  }

  /** The value of the first r bits of a byte. */
  function TopBits(b: byte, r: nat): nat
    requires r <= 8
  {
    b / TailSize(r)
  }

  predicate ByteBit(b: byte, i: nat)
    requires i < 8
  {
    b / BitWeight(i) % 2 == 1
  }

  predicate Bit(id: NodeId, k: nat)
    requires k < ID_BITS
  {
    ByteBit(id[k / 8], k % 8)
  }

  /** `b ^ (1 << (7 - i))`. */
  function FlipByte(b: byte, i: nat): byte
    requires i < 8
  {
    TopBitsStep(b, i);
    FlipInByte(b, i);
    if ByteBit(b, i) then b - BitWeight(i) else b + BitWeight(i)
  }

  function FlipBit(id: NodeId, k: nat): NodeId
    requires k < ID_BITS
  {
    id[k / 8 := FlipByte(id[k / 8], k % 8)]
  }

  /** The identifier with bit k forced to v. */
  function WithBit(id: NodeId, k: nat, v: bool): NodeId
    requires k < ID_BITS
  {
    if Bit(id, k) == v then id else FlipBit(id, k)
  }

  predicate SamePrefix(a: NodeId, b: NodeId, p: nat)
    requires p <= ID_BITS
  {
    forall k :: 0 <= k < p ==> Bit(a, k) == Bit(b, k)
  }

  /** Byte-wise lexicographic order from byte j on. */
  predicate LexLe(a: NodeId, b: NodeId, j: nat)
    requires j <= ID_BYTES
    decreases ID_BYTES - j
  {
    j == ID_BYTES || a[j] < b[j] || (a[j] == b[j] && LexLe(a, b, j + 1))
  }

  predicate Between(lo: NodeId, id: NodeId, hi: NodeId) {
    LexLe(lo, id, 0) && LexLe(id, hi, 0)
  }

  // ----- Aligned ranges -----

  function Clamp(r: int): (c: nat)
    ensures c <= 8
  {
    Max(0, Min(r, 8))
  }

  /** Byte b with all but its first r bits cleared. */
  function LowByte(b: byte, r: int): byte {
    DivBounds(b, TailSize(Clamp(r)));
    b / TailSize(Clamp(r)) * TailSize(Clamp(r))
  }

  /** Byte b with all but its first r bits set. */
  function HighByte(b: byte, r: int): byte {
    HighByteFits(b, Clamp(r));
    LowByte(b, r) + TailSize(Clamp(r)) - 1
  }

  /** The smallest identifier that shares its first p bits with `id`. */
  function PrefixMin(id: NodeId, p: nat): NodeId {
    seq(ID_BYTES, j requires 0 <= j < ID_BYTES => LowByte(id[j], p - 8 * j))
  }

  /** The largest identifier that shares its first p bits with `id`. */
  function PrefixMax(id: NodeId, p: nat): NodeId {
    seq(ID_BYTES, j requires 0 <= j < ID_BYTES => HighByte(id[j], p - 8 * j))
  }

  // ----- Division -----

  lemma DivBounds(x: nat, d: nat)
    requires d > 0
    ensures 0 <= x / d * d <= x < x / d * d + d
  {
  }

  lemma TimesMonotone(a: nat, b: nat, d: nat)
    ensures a <= b ==> a * d <= b * d
  {
  }

  lemma DivUnique(x: nat, d: nat, q: nat)
    requires d > 0 && q * d <= x < q * d + d
    ensures x / d == q
  {
    DivBounds(x, d);
    TimesMonotone(x / d + 1, q, d);
    TimesMonotone(q + 1, x / d, d);
  }

  lemma DoubleTimes(h: nat, t: nat)
    ensures h * (2 * t) == (2 * h) * t
    ensures (2 * h + 1) * t == h * (2 * t) + t
  {
  }

  // ----- One byte -----

  /** Bit r is the last of the first r + 1 bits. */
  lemma TopBitsStep(b: byte, r: nat)
    requires r < 8
    ensures TopBits(b, r + 1) == 2 * TopBits(b, r) + if ByteBit(b, r) then 1 else 0
  {
    var t, q := TailSize(r + 1), TopBits(b, r + 1);
    DivBounds(b, t);
    DoubleTimes(q / 2, t);
    DivUnique(b, 2 * t, q / 2);
  }

  lemma TailSizeOfByte()
    ensures TailSize(0) == 256
  {
    assert TailSize(5) == 8;
    assert TailSize(2) == 64;
  }

  lemma {:induction false} TopBitsBound(b: byte, r: nat)
    requires r <= 8
    ensures TopBits(b, r) * TailSize(r) + TailSize(r) <= 256
    decreases r
  {
    if r == 0 {
      TailSizeOfByte();
      DivUnique(b, 256, 0);
    } else {
      TopBitsBound(b, r - 1);
      TopBitsStep(b, r - 1);
      DoubleTimes(TopBits(b, r - 1), TailSize(r));
    }
  }

  lemma HighByteFits(b: byte, r: nat)
    requires r <= 8
    ensures LowByte(b, r) + TailSize(r) <= 256
  {
    TopBitsBound(b, r);
  }

  lemma FlipInByte(b: byte, i: nat)
    requires i < 8
    ensures 0 <= (if ByteBit(b, i) then b - BitWeight(i) else b + BitWeight(i)) < 256
  {
    var t, h := TailSize(i + 1), TopBits(b, i);
    DivBounds(b, t);
    TopBitsBound(b, i);
    TopBitsStep(b, i);
    DoubleTimes(h, t);
  }

  lemma LowByteRange(x: byte, a: byte, r: int)
    ensures LowByte(a, r) <= x <= HighByte(a, r) <==> TopBits(x, Clamp(r)) == TopBits(a, Clamp(r))
    ensures r >= 8 ==> LowByte(a, r) == a == HighByte(a, r)
    ensures r < 8 ==> LowByte(a, r) < HighByte(a, r)
    ensures r <= 0 ==> LowByte(a, r) == 0 && HighByte(a, r) == 255
  {
    var t := TailSize(Clamp(r));
    DivBounds(x, t);
    if LowByte(a, r) <= x <= HighByte(a, r) {
      DivUnique(x, t, a / t);
    }
    if r <= 0 {
      TopBitsBound(a, 0);
    }
  }

  /** The first r bits agree as a number exactly when they agree one by one. */
  lemma {:induction false} TopBitsAgree(x: byte, a: byte, r: nat)
    requires r <= 8
    ensures TopBits(x, r) == TopBits(a, r) <==> forall i :: 0 <= i < r ==> ByteBit(x, i) == ByteBit(a, i)
  {
    if r == 0 {
      TopBitsBound(x, 0);
      TopBitsBound(a, 0);
    } else {
      TopBitsAgree(x, a, r - 1);
      TopBitsStep(x, r - 1);
      TopBitsStep(a, r - 1);
    }
  }

  // ----- Flipping one bit -----

  lemma FlipKeepsTop(b: byte, i: nat)
    requires i < 8
    ensures TopBits(FlipByte(b, i), i) == TopBits(b, i)
    ensures ByteBit(FlipByte(b, i), i) == !ByteBit(b, i)
  {
    var t, h, f := TailSize(i + 1), TopBits(b, i), FlipByte(b, i);
    DivBounds(b, t);
    TopBitsStep(b, i);
    TopBitsStep(f, i);
    DoubleTimes(h, t);
    DivUnique(f, t, if ByteBit(b, i) then 2 * h else 2 * h + 1);
  }

  lemma FlipBitBits(id: NodeId, k: nat, m: nat)
    requires m <= k < ID_BITS
    ensures Bit(FlipBit(id, k), m) == if m == k then !Bit(id, k) else Bit(id, m)
  {
    if m / 8 == k / 8 {
      var b, i := id[k / 8], k % 8;
      FlipKeepsTop(b, i);
      TopBitsAgree(FlipByte(b, i), b, i);
    }
  }

  lemma FlipKeepsPrefix(id: NodeId, k: nat)
    requires k < ID_BITS
    ensures SamePrefix(FlipBit(id, k), id, k) && Bit(FlipBit(id, k), k) != Bit(id, k)
  {
    forall m | 0 <= m <= k
      ensures Bit(FlipBit(id, k), m) == if m == k then !Bit(id, k) else Bit(id, m)
    {
      FlipBitBits(id, k, m);
    }
  }

  // ----- Ranges are prefixes -----

  /** Byte i of two identifiers agrees on the part of it that belongs to the first p bits. */
  predicate ByteAgrees(a: NodeId, b: NodeId, p: nat, i: nat)
    requires i < ID_BYTES
  {
    TopBits(a[i], Clamp(p - 8 * i)) == TopBits(b[i], Clamp(p - 8 * i))
  }

  /** The first p bits agree exactly when they agree in every byte; from byte j on. */
  predicate BytesAgree(a: NodeId, b: NodeId, p: nat, j: nat) {
    forall i :: j <= i < ID_BYTES ==> ByteAgrees(a, b, p, i)
  }

  /** Bytes past the prefix agree on their empty prefixes. */
  lemma PastPrefix(id: NodeId, a: NodeId, p: nat, j: nat)
    requires j < ID_BYTES && p - 8 * j < 8
    ensures BytesAgree(id, a, p, j + 1)
  {
    forall i | j + 1 <= i < ID_BYTES
      ensures ByteAgrees(id, a, p, i)
    {
      TopBitsAgree(id[i], a[i], 0);
    }
  }

  lemma ByteRange(id: NodeId, a: NodeId, p: nat, j: nat)
    requires j < ID_BYTES
    ensures var lo, hi := PrefixMin(a, p)[j], PrefixMax(a, p)[j];
      && (lo <= id[j] <= hi <==> ByteAgrees(id, a, p, j))
      && (p - 8 * j >= 8 ==> lo == hi)
      && (p - 8 * j < 8 ==> lo < hi && BytesAgree(id, a, p, j + 1))
  {
    LowByteRange(id[j], a[j], p - 8 * j);
    if p - 8 * j < 8 {
      PastPrefix(id, a, p, j);
    }
  }

  lemma {:induction false} RangeFromByte(id: NodeId, a: NodeId, p: nat, j: nat)
    requires j <= ID_BYTES
    ensures LexLe(PrefixMin(a, p), id, j) && LexLe(id, PrefixMax(a, p), j) <==> BytesAgree(id, a, p, j)
    decreases ID_BYTES - j
  {
    hide ByteAgrees, PrefixMin, PrefixMax;
    if j < ID_BYTES {
      RangeFromByte(id, a, p, j + 1);
      ByteRange(id, a, p, j);
    }
  }

  lemma BytesFromBits(a: NodeId, b: NodeId, p: nat, j: nat)
    requires p <= ID_BITS && j < ID_BYTES && SamePrefix(a, b, p)
    ensures ByteAgrees(a, b, p, j)
  {
    var r := Clamp(p - 8 * j);
    forall i | 0 <= i < r
      ensures ByteBit(a[j], i) == ByteBit(b[j], i)
    {
      var k := 8 * j + i;
      assert k / 8 == j && k % 8 == i;
      assert Bit(a, k) == Bit(b, k);
    }
    TopBitsAgree(a[j], b[j], r);
  }

  lemma PrefixByBytes(a: NodeId, b: NodeId, p: nat)
    requires p <= ID_BITS
    ensures SamePrefix(a, b, p) <==> BytesAgree(a, b, p, 0)
  {
    if SamePrefix(a, b, p) {
      forall j | 0 <= j < ID_BYTES
        ensures ByteAgrees(a, b, p, j)
      {
        BytesFromBits(a, b, p, j);
      }
    } else {
      var k :| 0 <= k < p && Bit(a, k) != Bit(b, k);
      TopBitsAgree(a[k / 8], b[k / 8], Clamp(p - 8 * (k / 8)));
      assert !ByteAgrees(a, b, p, k / 8);
    }
  }

  /** The lexicographic range test of an aligned range is a test of the first p bits. */
  lemma RangeIsPrefix(id: NodeId, a: NodeId, p: nat)
    requires p <= ID_BITS
    ensures Between(PrefixMin(a, p), id, PrefixMax(a, p)) <==> SamePrefix(id, a, p)
  {
    RangeFromByte(id, a, p, 0);
    PrefixByBytes(id, a, p);
  }

  lemma SplitLowByte(b: byte, r: nat, v: bool)
    requires r < 8
    ensures LowByte(ByteWithBit(b, r, v), r + 1) == LowByte(b, r) + if v then BitWeight(r) else 0
  {
    FlipKeepsTop(b, r);
    TopBitsStep(ByteWithBit(b, r, v), r);
    DoubleTimes(TopBits(b, r), TailSize(r + 1));
  }

  lemma LowByteBit(b: byte, r: nat)
    requires r < 8
    ensures !ByteBit(LowByte(b, r), r)
    ensures ByteBit(HighByte(b, r), r)
  {
    var t, h := TailSize(r + 1), TopBits(b, r);
    DoubleTimes(h, t);
    DivUnique(LowByte(b, r), t, 2 * h);
    DivUnique(HighByte(b, r), t, 2 * h + 1);
  }

  function ByteWithBit(b: byte, r: nat, v: bool): byte
    requires r < 8
  {
    if ByteBit(b, r) == v then b else FlipByte(b, r)
  }

  lemma SplitByte(b: byte, r: nat)
    requires r < 8
    ensures FlipByte(HighByte(b, r), r) == HighByte(ByteWithBit(b, r, false), r + 1)
    ensures LowByte(b, r) == LowByte(ByteWithBit(b, r, false), r + 1)
    ensures FlipByte(LowByte(b, r), r) == LowByte(ByteWithBit(b, r, true), r + 1)
    ensures HighByte(b, r) == HighByte(ByteWithBit(b, r, true), r + 1)
  {
    SplitLowByte(b, r, false);
    SplitLowByte(b, r, true);
    LowByteBit(b, r);
  }

  lemma RangeBytes(a: NodeId, p: nat, j: nat)
    requires p < ID_BITS && j == p / 8
    ensures PrefixMin(a, p)[j] == LowByte(a[j], p % 8)
    ensures PrefixMax(a, p)[j] == HighByte(a[j], p % 8)
    ensures PrefixMin(a, p + 1)[j] == LowByte(a[j], p % 8 + 1)
    ensures PrefixMax(a, p + 1)[j] == HighByte(a[j], p % 8 + 1)
    ensures forall i :: 0 <= i < ID_BYTES && i != j ==> Clamp(p - 8 * i) == Clamp(p + 1 - 8 * i)
  {
    assert p - 8 * j == p % 8;
  }

  lemma OtherBytes(a: NodeId, p: nat, v: bool, i: nat)
    requires p < ID_BITS && i < ID_BYTES && i != p / 8
    ensures PrefixMin(a, p)[i] == PrefixMin(WithBit(a, p, v), p + 1)[i]
    ensures PrefixMax(a, p)[i] == PrefixMax(WithBit(a, p, v), p + 1)[i]
  {
    RangeBytes(a, p, p / 8);
    assert WithBit(a, p, v)[i] == a[i];
  }

  lemma SplitMin(a: NodeId, p: nat)
    requires p < ID_BITS
    ensures PrefixMin(a, p) == PrefixMin(WithBit(a, p, false), p + 1)
    ensures FlipBit(PrefixMin(a, p), p) == PrefixMin(WithBit(a, p, true), p + 1)
  {
    forall i | 0 <= i < ID_BYTES
      ensures PrefixMin(a, p)[i] == PrefixMin(WithBit(a, p, false), p + 1)[i]
      ensures FlipBit(PrefixMin(a, p), p)[i] == PrefixMin(WithBit(a, p, true), p + 1)[i]
    {
      if i == p / 8 {
        RangeBytes(a, p, i);
        RangeBytes(WithBit(a, p, false), p, i);
        RangeBytes(WithBit(a, p, true), p, i);
        SplitByte(a[i], p % 8);
      } else {
        OtherBytes(a, p, false, i);
        OtherBytes(a, p, true, i);
      }
    }
  }

  lemma SplitMax(a: NodeId, p: nat)
    requires p < ID_BITS
    ensures FlipBit(PrefixMax(a, p), p) == PrefixMax(WithBit(a, p, false), p + 1)
    ensures PrefixMax(a, p) == PrefixMax(WithBit(a, p, true), p + 1)
  {
    forall i | 0 <= i < ID_BYTES
      ensures FlipBit(PrefixMax(a, p), p)[i] == PrefixMax(WithBit(a, p, false), p + 1)[i]
      ensures PrefixMax(a, p)[i] == PrefixMax(WithBit(a, p, true), p + 1)[i]
    {
      if i == p / 8 {
        RangeBytes(a, p, i);
        RangeBytes(WithBit(a, p, false), p, i);
        RangeBytes(WithBit(a, p, true), p, i);
        SplitByte(a[i], p % 8);
      } else {
        OtherBytes(a, p, false, i);
        OtherBytes(a, p, true, i);
      }
    }
  }
}
