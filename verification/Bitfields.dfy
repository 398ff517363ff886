/** Bitfields as the wire and the disk know them: bit 0 is the highest bit of the first byte. */
module Bitfields {
  import opened Bytes
  import opened NodeIds

  predicate BitAt(bf: bytes, i: int) {
    0 <= i && i / 8 < |bf| && ByteBit(bf[i / 8], i % 8)
  }

  /** Bits outside the field cannot be changed. */
  function SetBit(bf: bytes, i: int, v: bool): bytes {
    if i < 0 || i / 8 >= |bf| || BitAt(bf, i) == v then bf
    else bf[i / 8 := FlipByte(bf[i / 8], i % 8)]
  }

  function BytesFor(bits: int): nat {
    if bits <= 0 then 0 else (bits + 7) / 8
  }

  lemma TailRatio(i: nat, j: nat) returns (m: nat)
    requires i < j <= 8
    ensures TailSize(i) == 2 * m * TailSize(j)
    decreases j - i
  {
    if i + 1 == j {
      m := 1;
    } else {
      var n := TailRatio(i + 1, j);
      m := 2 * n;
      Regroup(n, TailSize(j));
    }
  }

  lemma Regroup(n: nat, t: nat)
    ensures 2 * (2 * n * t) == 2 * (2 * n) * t
  {
  }

  lemma ShiftByMultiple(b: int, k: int, t: nat)
    requires t > 0
    ensures (b + k * t) / t == b / t + k
  {
    var q := b / t;
    assert b + k * t == (q + k) * t + b % t;
    QuotientIs(b + k * t, t, q + k, b % t);
  }

  lemma QuotientIs(x: int, t: nat, q: int, r: int)
    requires t > 0 && x == q * t + r && 0 <= r < t
    ensures x / t == q
  {
    var d := x / t - q;
    assert x / t * t + x % t == x;
    assert d * t == r - x % t;
    if d != 0 {
      BigMultiple(d, t);
    }
  }

  lemma BigMultiple(d: int, t: nat)
    requires d != 0
    ensures d * t >= t || d * t <= 0 - t
  {
  }

  lemma EvenShift(x: int, m: int)
    ensures (x + 2 * m) % 2 == x % 2
  {
  }

  lemma ParityKept(b: int, m: int, t: nat)
    requires t > 0
    ensures (b + 2 * m * t) / t % 2 == b / t % 2
  {
    ShiftByMultiple(b, 2 * m, t);
    EvenShift(b / t, m);
  }

  lemma ParityShift(b: int, w: int, m: int, t: nat)
    requires t > 0 && w == 2 * m * t
    ensures (b + w) / t % 2 == b / t % 2 && (b - w) / t % 2 == b / t % 2
  {
    ParityKept(b, m, t);
    ParityKept(b, -m, t);
    Negate(m, t);
  }

  lemma Negate(m: int, t: int)
    ensures 2 * -m * t == -(2 * m * t)
  {
  }

  lemma FlipKeepsLow(b: byte, i: nat, j: nat)
    requires i < j < 8
    ensures ByteBit(FlipByte(b, i), j) == ByteBit(b, j)
  {
    hide TailSize;
    var m := TailRatio(i + 1, j + 1);
    ParityShift(b, BitWeight(i), m, BitWeight(j));
  }

  lemma FlipOtherBits(b: byte, i: nat, j: nat)
    requires i < 8 && j < 8
    ensures ByteBit(FlipByte(b, i), j) == if i == j then !ByteBit(b, j) else ByteBit(b, j)
  {
    FlipKeepsTop(b, i);
    if j > i {
      FlipKeepsLow(b, i, j);
    } else if j < i {
      TopBitsAgree(FlipByte(b, i), b, i);
    }
  }

  lemma SetBitAt(bf: bytes, i: int, v: bool, j: int)
    ensures |SetBit(bf, i, v)| == |bf|
    ensures BitAt(SetBit(bf, i, v), j) == if j == i && 0 <= i && i / 8 < |bf| then v else BitAt(bf, j)
  {
    if 0 <= i && i / 8 < |bf| && BitAt(bf, i) != v && 0 <= j && j / 8 == i / 8 {
      FlipOtherBits(bf[i / 8], i % 8, j % 8);
    }
  }

  lemma BitsFit(bits: int, i: int)
    requires 0 <= i < bits
    ensures i / 8 < BytesFor(bits)
  {
  }

  lemma NoBits(n: nat, i: int)
    ensures !BitAt(seq(n, _ => 0), i)
  {
    if 0 <= i && i / 8 < n {
      ZeroByte(i % 8);
    }
  }

  lemma ZeroByte(i: nat)
    requires i < 8
    ensures !ByteBit(0, i)
  {
    ZeroQuotient(BitWeight(i));
  }

  lemma ZeroQuotient(t: nat)
    requires t > 0
    ensures 0 / t == 0
  {
  }

  /** The first `n` bits as values. */
  function Bits(bf: bytes, n: nat): (r: seq<bool>)
    ensures |r| == n
  {
    seq(n, i requires 0 <= i < n => BitAt(bf, i))
  }

  lemma SetBits(bf: bytes, i: nat, v: bool, n: nat)
    requires i < n && |bf| == BytesFor(n)
    ensures Bits(SetBit(bf, i, v), n) == Bits(bf, n)[i := v] && |SetBit(bf, i, v)| == |bf|
  {
    BitsFit(n, i);
    forall j | 0 <= j < n
      ensures BitAt(SetBit(bf, i, v), j) == Bits(bf, n)[i := v][j]
    {
      SetBitAt(bf, i, v, j);
    }
    SetBitAt(bf, i, v, i);
  }

  // ----- Bytes made of bits -----

  function FromTop(s: seq<bool>, r: nat): nat
    requires r <= |s|
  {
    if r == 0 then 0 else 2 * FromTop(s, r - 1) + if s[r - 1] then 1 else 0
  }

  lemma {:induction false} FromTopBound(s: seq<bool>, r: nat)
    requires r <= |s| && r <= 8
    ensures FromTop(s, r) * TailSize(r) <= TailSize(0) - TailSize(r)
  {
    if r > 0 {
      FromTopBound(s, r - 1);
      Doubling(FromTop(s, r - 1), TailSize(r), if s[r - 1] then 1 else 0);
    }
  }

  lemma Doubling(x: int, t: int, d: int)
    ensures (2 * x + d) * t == x * (2 * t) + d * t
  {
  }

  function ByteFrom(s: seq<bool>): byte
    requires |s| == 8
  {
    FromTopBound(s, 8);
    TailSizeOfByte();
    FromTop(s, 8)
  }

  lemma {:induction false} TopOfByteFrom(s: seq<bool>, r: nat)
    requires |s| == 8 && r <= 8
    ensures TopBits(ByteFrom(s), r) == FromTop(s, r)
    ensures r < 8 ==> ByteBit(ByteFrom(s), r) == s[r]
    decreases 8 - r
  {
    if r < 8 {
      TopOfByteFrom(s, r + 1);
      TopBitsStep(ByteFrom(s), r);
    }
  }

  function BitsOf(b: byte): (s: seq<bool>)
    ensures |s| == 8
  {
    seq(8, i requires 0 <= i < 8 => ByteBit(b, i))
  }

  /** Two bytes with the same bits are the same. */
  lemma SameBits(a: byte, b: byte)
    requires forall i :: 0 <= i < 8 ==> ByteBit(a, i) == ByteBit(b, i)
    ensures a == b
  {
    TopBitsAgree(a, b, 8);
  }

  function AndByte(a: byte, b: byte): byte {
    ByteFrom(seq(8, i requires 0 <= i < 8 => ByteBit(a, i) && ByteBit(b, i)))
  }

  function OrByte(a: byte, b: byte): byte {
    ByteFrom(seq(8, i requires 0 <= i < 8 => ByteBit(a, i) || ByteBit(b, i)))
  }

  function NotByte(a: byte): byte {
    ByteFrom(seq(8, i requires 0 <= i < 8 => !ByteBit(a, i)))
  }

  lemma ByteOps(a: byte, b: byte, i: nat)
    requires i < 8
    ensures ByteBit(AndByte(a, b), i) == (ByteBit(a, i) && ByteBit(b, i))
    ensures ByteBit(OrByte(a, b), i) == (ByteBit(a, i) || ByteBit(b, i))
    ensures ByteBit(NotByte(a), i) == !ByteBit(a, i)
  {
    hide ByteBit, ByteFrom;
    TopOfByteFrom(seq(8, k requires 0 <= k < 8 => ByteBit(a, k) && ByteBit(b, k)), i);
    TopOfByteFrom(seq(8, k requires 0 <= k < 8 => ByteBit(a, k) || ByteBit(b, k)), i);
    TopOfByteFrom(seq(8, k requires 0 <= k < 8 => !ByteBit(a, k)), i);
  }

  /** The byte whose first `s` bits are set. */
  function MaskByte(s: nat): (b: byte)
    requires 1 <= s <= 8
  {
    MaskFits(s);
    256 - TailSize(s)
  }

  lemma {:induction false} MaskFits(s: nat)
    requires s <= 8
    ensures 1 <= TailSize(s) <= 256
  {
    TailSizeOfByte();
    if s > 0 {
      MaskFits(s - 1);
    }
  }

  lemma MaskBits(s: nat, i: nat)
    requires 1 <= s <= 8 && i < 8
    ensures ByteBit(MaskByte(s), i) <==> i < s
  {
    var all := seq(8, k requires 0 <= k < 8 => k < s);
    TopOfByteFrom(all, i);
    MaskIs(s);
  }

  lemma MaskIs(s: nat)
    requires 1 <= s <= 8
    ensures MaskByte(s) == ByteFrom(seq(8, k requires 0 <= k < 8 => k < s))
  {
    var all := seq(8, k requires 0 <= k < 8 => k < s);
    TailSizeOfByte();
    TopAll(all, s, 8);
  }

  /** Set bits up to `s`, clear ones behind: the value is that of the mask, cut off after `r` bits. */
  lemma {:induction false} TopAll(all: seq<bool>, s: nat, r: nat)
    requires |all| == 8 && 1 <= s <= 8 && r <= 8 && forall k :: 0 <= k < 8 ==> (all[k] <==> k < s)
    ensures FromTop(all, r) * TailSize(r) == 256 - TailSize(if r < s then r else s)
  {
    TailSizeOfByte();
    if r > 0 {
      TopAll(all, s, r - 1);
      Doubling(FromTop(all, r - 1), TailSize(r), if all[r - 1] then 1 else 0);
    }
  }
}
