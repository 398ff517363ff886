/** Which pieces are there, in use and wanted, with the totals that are kept beside the bits. */
module PieceMap {
  import opened Bytes
  import opened NodeIds
  import opened Bitfields
  import opened Pieces
  import opened PieceCounts

  /** The cached totals. */
  datatype Totals = Totals(missing: int, filtered: int, filteredLen: int, completedLen: int, filteredCompletedLen: int)

  function Both(a: seq<bool>, b: seq<bool>): (r: seq<bool>)
    requires |a| == |b|
    ensures |r| == |a|
  {
    seq(|a|, i requires 0 <= i < |a| => a[i] && b[i])
  }

  function Lacking(a: seq<bool>): (r: seq<bool>)
    ensures |r| == |a|
  {
    seq(|a|, i requires 0 <= i < |a| => !a[i])
  }

  /** What the totals should be, summed over single pieces. */
  function TotalsOf(have: seq<bool>, filter: Option<seq<bool>>, enabled: bool, total: int, len: int): Totals
    requires filter.Some? ==> |filter.value| == |have|
  {
    var on := enabled && filter.Some?;
    Totals(
      CountTrue(if on then Both(Lacking(have), filter.value) else Lacking(have)),
      if on then CountTrue(filter.value) else 0,
      if filter.Some? then SizeSum(filter.value, total, len) else 0,
      SizeSum(have, total, len),
      SizeSum(if on then Both(have, filter.value) else have, total, len))
  }

  lemma {:induction false} CountLacking(s: seq<bool>)
    ensures CountTrue(Lacking(s)) == |s| - CountTrue(s)
  {
    if s != [] {
      CountLacking(s[..|s| - 1]);
      assert Lacking(s)[..|s| - 1] == Lacking(s[..|s| - 1]);
    }
  }

  lemma {:induction false} CountSplit(have: seq<bool>, filter: seq<bool>)
    requires |have| == |filter|
    ensures CountTrue(Both(Lacking(have), filter)) == CountTrue(filter) - CountTrue(Both(have, filter))
  {
    if have != [] {
      var n := |have| - 1;
      CountSplit(have[..n], filter[..n]);
      assert Both(Lacking(have), filter)[..n] == Both(Lacking(have[..n]), filter[..n]);
      assert Both(have, filter)[..n] == Both(have[..n], filter[..n]);
    }
  }

  // ----- Changing bits -----

  method SetBitIn(bf: bytes, n: nat, i: int, v: bool) returns (r: bytes, ok: bool)
    requires |bf| == BytesFor(n)
    ensures |r| == |bf| && (ok <==> 0 <= i < n)
    ensures Bits(r, n) == if 0 <= i < n then Bits(bf, n)[i := v] else Bits(bf, n)
  {
    if i < 0 || n <= i {
      return bf, false;
    }
    SetBits(bf, i, v, n);
    return SetBit(bf, i, v), true;
  }

  /** Sets the bits from `first` to `last`, both included, as far as there are pieces. */
  method SetRangeIn(bf: bytes, n: nat, first: int, last: int, v: bool) returns (r: bytes)
    requires |bf| == BytesFor(n)
    ensures |r| == |bf|
    ensures forall k :: 0 <= k < n ==> Bits(r, n)[k] == if first <= k <= last then v else Bits(bf, n)[k]
  {
    hide SetBit, BitAt;
    r := bf;
    var i := first;
    while i <= last && i < n
      invariant |r| == |bf| && first <= i
      invariant forall k :: 0 <= k < n ==> Bits(r, n)[k] == if first <= k < i && k <= last then v else Bits(bf, n)[k]
      decreases n - i
    {
      var ok;
      r, ok := SetBitIn(r, n, i, v);
      i := i + 1;
    }
  }

  method AndInto(a: bytes, b: bytes, n: nat) returns (r: bytes)
    requires |a| == |b| == BytesFor(n)
    ensures |r| == |a| && Bits(r, n) == Both(Bits(a, n), Bits(b, n))
  {
    hide ByteBit, AndByte;
    r := [];
    for i := 0 to |a|
      invariant |r| == i
      invariant forall k :: 0 <= k < i ==> r[k] == AndByte(a[k], b[k])
    {
      r := r + [AndByte(a[i], b[i])];
    }
    forall k | 0 <= k < n
      ensures BitAt(r, k) == (BitAt(a, k) && BitAt(b, k))
    {
      BitsFit(n, k);
      ByteOps(a[k / 8], b[k / 8], k % 8);
    }
  }

  class Map {
    const total: int
    const len: int
    const blocks: nat
    var have: bytes
    var used: bytes
    var filter: Option<bytes>
    var filterEnabled: bool
    var totals: Totals

    ghost predicate Shape()
      reads this
    {
      && blocks == NumPieces(total, len)
      && |have| == |used| == BytesFor(blocks)
      && (filter.Some? ==> |filter.value| == BytesFor(blocks))
      && (filterEnabled ==> filter.Some?)
    }

    ghost function Have(): (r: seq<bool>)
      reads this
      ensures |r| == blocks
    {
      Bits(have, blocks)
    }

    ghost function Used(): (r: seq<bool>)
      reads this
      ensures |r| == blocks
    {
      Bits(used, blocks)
    }

    ghost function Filter(): (r: Option<seq<bool>>)
      reads this
      ensures r.Some? ==> |r.value| == blocks
    {
      if filter.Some? then Some(Bits(filter.value, blocks)) else None
    }

    /** The bits have their shape and every cached total equals its sum over the pieces. */
    ghost predicate Valid()
      reads this
    {
      Shape() && totals == TotalsOf(Have(), Filter(), filterEnabled, total, len)
    }

    constructor (len: int, total: int)
      ensures Valid() && this.total == total && this.len == len
      ensures forall i :: 0 <= i < blocks ==> !Have()[i] && !Used()[i]
      ensures Filter().None? && !filterEnabled
    {
      this.total, this.len, blocks := total, len, NumPieces(total, len);
      have := seq(BytesFor(NumPieces(total, len)), _ => 0);
      used := seq(BytesFor(NumPieces(total, len)), _ => 0);
      filter, filterEnabled, totals := None, false, Totals(0, 0, 0, 0, 0);
      new;
      forall i | 0 <= i < blocks
        ensures !BitAt(have, i) && !BitAt(used, i)
      {
        NoBits(BytesFor(blocks), i);
      }
      UpdateCache();
    }

    method UpdateCache()
      requires Shape()
      modifies this`totals
      ensures Valid()
    {
      hide CountTrue, SizeSum, NumPieces, BitAt;
      if blocks == 0 {
        totals := Totals(0, 0, 0, 0, 0);
        EmptyTotals(Have(), Filter(), filterEnabled, total, len);
        return;
      }
      var missing := CountMissing();
      var filtered := 0;
      var filteredLen := 0;
      if filter.Some? {
        filteredLen := LengthOf(filter.value);
        if filterEnabled {
          filtered := CountSetBits(filter.value, blocks);
        }
      }
      var completed := LengthOf(have);
      var filteredCompleted := completed;
      if filterEnabled && filter.Some? {
        var both := AndInto(have, filter.value, blocks);
        filteredCompleted := LengthOf(both);
      }
      totals := Totals(missing, filtered, filteredLen, completed, filteredCompleted);
    }

    method CountMissing() returns (n: int)
      requires Shape()
      ensures n == CountTrue(if filterEnabled && filter.Some? then Both(Lacking(Have()), Filter().value) else Lacking(Have()))
    {
      hide CountTrue, BitAt, NumPieces;
      if filterEnabled && filter.Some? {
        var all := CountSetBits(filter.value, blocks);
        var both := AndInto(have, filter.value, blocks);
        var got := CountSetBits(both, blocks);
        CountSplit(Have(), Filter().value);
        return all - got;
      }
      var c := CountSetBits(have, blocks);
      CountLacking(Have());
      n := blocks - c;
    }

    /** All pieces count full, except that the last one counts as long as it is. */
    method LengthOf(bf: bytes) returns (n: int)
      requires blocks == NumPieces(total, len) && blocks > 0 && |bf| == BytesFor(blocks)
      ensures n == SizeSum(Bits(bf, blocks), total, len)
    {
      hide CountTrue, SizeSum, NumPieces, PieceSize, BitAt;
      var c := CountSetBits(bf, blocks);
      ghost var bits := Bits(bf, blocks);
      SizeByCount(bits, total, len);
      if bits[blocks - 1] {
        CountSome(bits, blocks - 1);
      }
      LastLength(total, len);
      if c == 0 {
        return 0;
      }
      if BitAt(bf, blocks - 1) {
        return (c - 1) * len + (total - len * (blocks - 1));
      }
      n := c * len;
    }

    method SetHave(i: int, v: bool) returns (ok: bool)
      requires Valid()
      modifies this
      ensures Valid() && (ok <==> 0 <= i < blocks)
      ensures Have() == if ok then old(Have())[i := v] else old(Have())
      ensures used == old(used) && filter == old(filter) && filterEnabled == old(filterEnabled)
    {
      hide TotalsOf, BitAt;
      have, ok := SetBitIn(have, blocks, i, v);
      UpdateCache();
    }

    method SetUse(i: int, v: bool) returns (ok: bool)
      requires Valid()
      modifies this
      ensures Valid() && (ok <==> 0 <= i < blocks)
      ensures Used() == if ok then old(Used())[i := v] else old(Used())
      ensures have == old(have) && filter == old(filter) && filterEnabled == old(filterEnabled)
    {
      hide TotalsOf, BitAt;
      used, ok := SetBitIn(used, blocks, i, v);
      UpdateCache();
    }

    method SetHaveRange(first: int, last: int, v: bool)
      requires Valid()
      modifies this
      ensures Valid()
      ensures forall k :: 0 <= k < blocks ==> Have()[k] == if first <= k <= last then v else old(Have())[k]
      ensures used == old(used) && filter == old(filter) && filterEnabled == old(filterEnabled)
    {
      hide TotalsOf, BitAt;
      have := SetRangeIn(have, blocks, first, last, v);
      UpdateCache();
    }

    /** A bitfield of the right length replaces the pieces and ends all use. */
    method SetBitfield(bf: bytes)
      requires Valid()
      modifies this
      ensures Valid()
      ensures have == if |bf| == BytesFor(blocks) then bf else old(have)
      ensures |bf| == BytesFor(blocks) && blocks > 0 ==> forall i :: 0 <= i < blocks ==> !Used()[i]
      ensures filter == old(filter) && filterEnabled == old(filterEnabled)
    {
      hide TotalsOf;
      if |have| == 0 || |bf| != |have| {
        assert |bf| == BytesFor(blocks) ==> have == bf;
        return;
      }
      have := bf;
      used := seq(|have|, _ => 0);
      forall i | 0 <= i < blocks
        ensures !BitAt(used, i)
      {
        NoBits(BytesFor(blocks), i);
      }
      UpdateCache();
    }

    /** The pieces in the filter; without a filter none is. */
    ghost function FilterBits(): (r: seq<bool>)
      reads this
      ensures |r| == blocks
    {
      if filter.Some? then Bits(filter.value, blocks) else seq(blocks, _ => false)
    }

    method EnsureFilter()
      requires Shape()
      modifies this`filter
      ensures Shape() && filter.Some? && FilterBits() == old(FilterBits())
    {
      if filter.None? {
        filter := Some(seq(BytesFor(blocks), _ => 0));
        forall i | 0 <= i < blocks
          ensures !BitAt(filter.value, i)
        {
          NoBits(BytesFor(blocks), i);
        }
        assert FilterBits() == old(FilterBits());
      }
    }

    /** The pieces that a range of bytes meets are put into the filter or taken out of it. */
    method MarkFilter(offset: nat, length: nat, v: bool)
      requires Valid()
      modifies this
      ensures Valid() && filter.Some?
      ensures forall i :: 0 <= i < blocks ==>
                FilterBits()[i] == if Meets(offset, offset + length, len, i) then v else old(FilterBits())[i]
      ensures have == old(have) && used == old(used) && filterEnabled == old(filterEnabled)
    {
      hide TotalsOf, BitAt, Meets;
      EnsureFilter();
      if length > 0 && blocks > 0 {
        var first, last := offset / len, (offset + length - 1) / len;
        MeetsAll(offset, offset + length, len, blocks);
        var bf := SetRangeIn(filter.value, blocks, first, last, v);
        filter := Some(bf);
      } else {
        MeetsNothing(offset, len, blocks);
      }
      UpdateCache();
    }

    /** The pieces that a range of bytes does not meet are put into the filter. */
    method AddNotFilter(offset: nat, length: nat)
      requires Valid()
      modifies this
      ensures Valid() && filter.Some?
      ensures forall i :: 0 <= i < blocks ==>
                FilterBits()[i] == ((length > 0 && !Meets(offset, offset + length, len, i)) || old(FilterBits())[i])
      ensures have == old(have) && used == old(used) && filterEnabled == old(filterEnabled)
    {
      hide TotalsOf, BitAt, Meets;
      EnsureFilter();
      if length > 0 && blocks > 0 {
        var start, last := offset / len, (offset + length - 1) / len;
        MeetsAll(offset, offset + length, len, blocks);
        if blocks <= start {
          start := blocks;
        }
        var bf := SetRangeIn(filter.value, blocks, 0, start - 1, true);
        bf := SetRangeIn(bf, blocks, last + 1, blocks - 1, true);
        filter := Some(bf);
      }
      UpdateCache();
    }

    method ClearFilter()
      requires Valid()
      modifies this
      ensures Valid() && filter.None? && !filterEnabled && have == old(have) && used == old(used)
    {
      hide TotalsOf, BitAt;
      filter, filterEnabled := None, false;
      UpdateCache();
    }

    method EnableFilter()
      requires Valid()
      modifies this
      ensures Valid() && filterEnabled && have == old(have) && used == old(used)
      ensures FilterBits() == old(FilterBits())
    {
      hide TotalsOf, BitAt;
      EnsureFilter();
      filterEnabled := true;
      UpdateCache();
    }

    method DisableFilter()
      requires Valid()
      modifies this
      ensures Valid() && !filterEnabled && have == old(have) && used == old(used) && filter == old(filter)
    {
      hide TotalsOf, BitAt;
      filterEnabled := false;
      UpdateCache();
    }

    method IsAllBitSet() returns (r: bool)
      requires Valid()
      ensures r <==> FullAndClean(have, blocks)
    {
      r := TestAllBitSet(have, blocks);
    }

    /** The number of completed bytes in a range, cut off at the end of the file. */
    method OffsetCompletedLength(offset: nat, length: nat) returns (res: int)
      requires Valid() && len >= 0
      ensures len == 0 || offset >= total ==> res == 0
      ensures len > 0 && offset < total ==> res == CountDone(Have(), len, offset, Min(offset + length, total))
    {
      hide TotalsOf, CountDone, BitAt, NumPieces;
      if length == 0 || total <= offset || len == 0 {
        if len > 0 && offset < total {
          CountNothing(Have(), len, offset);
        }
        return 0;
      }
      var n := length;
      if total < offset + length {
        n := total - offset;
      }
      res := RangeCompleted(offset, offset + n);
    }

    method RangeCompleted(lo: nat, hi: nat) returns (res: int)
      requires Shape() && len > 0 && lo < hi <= total
      ensures res == CountDone(Have(), len, lo, hi)
    {
      hide CountDone, BitAt, NumPieces;
      var start, end := lo / len, (hi - 1) / len;
      ghost var s := Have();
      Around(total, len, lo, hi);
      if start == end {
        CountInPiece(s, len, start, lo, hi);
        return if BitAt(have, start) then hi - lo else 0;
      }
      var next := (start + 1) * len;
      CountInPiece(s, len, start, lo, next);
      res := if BitAt(have, start) then next - lo else 0;
      var i := start + 1;
      while i <= end - 1
        invariant start < i <= end && lo <= i * len && res == CountDone(s, len, lo, i * len)
      {
        NextStart(i, len);
        CountInPiece(s, len, i, i * len, (i + 1) * len);
        CountDoneSplits(s, len, lo, i * len, (i + 1) * len);
        if BitAt(have, i) {
          res := res + len;
        }
        i := i + 1;
      }
      CountInPiece(s, len, end, end * len, hi);
      CountDoneSplits(s, len, lo, end * len, hi);
      if BitAt(have, end) {
        res := res + (hi - end * len);
      }
    }
  }

  lemma LastLength(total: int, len: int)
    requires total > 0 && len > 0
    ensures var n := NumPieces(total, len); PieceSize(total, len, n - 1) == total - len * (n - 1)
  {
    PieceBounds(total, len, NumPieces(total, len) - 1);
  }

  lemma EmptyTotals(have: seq<bool>, filter: Option<seq<bool>>, enabled: bool, total: int, len: int)
    requires have == [] && (filter.Some? ==> filter.value == [])
    ensures TotalsOf(have, filter, enabled, total, len) == Totals(0, 0, 0, 0, 0)
  {
  }

  lemma CountNothing(s: seq<bool>, len: int, lo: int)
    requires len > 0
    ensures CountDone(s, len, lo, lo) == 0
  {
  }

  lemma MeetsAll(lo: nat, hi: nat, len: int, n: nat)
    requires len > 0 && lo < hi
    ensures 0 <= lo / len <= (hi - 1) / len
    ensures forall i :: 0 <= i < n ==> (Meets(lo, hi, len, i) <==> lo / len <= i <= (hi - 1) / len)
  {
    hide Meets;
    QuotientLow(lo, len, 0);
    QuotientMonotone(lo, hi - 1, len);
    forall i | 0 <= i < n
      ensures Meets(lo, hi, len, i) <==> lo / len <= i <= (hi - 1) / len
    {
      MeetsRange(lo, hi, len, i);
    }
  }

  lemma MeetsNothing(lo: nat, len: int, n: nat)
    requires n > 0 ==> len > 0
    ensures forall i :: 0 <= i < n ==> !Meets(lo, lo, len, i)
  {
  }

  /** The first and last piece of a range, and where they begin and end. */
  lemma Around(total: int, len: int, lo: nat, hi: nat)
    requires len > 0 && lo < hi <= total
    ensures var start, end := lo / len, (hi - 1) / len;
            && 0 <= start <= end < NumPieces(total, len)
            && start * len <= lo < (start + 1) * len
            && end * len < hi <= (end + 1) * len
            && (start < end ==> (start + 1) * len <= end * len)
  {
    var start, end := lo / len, (hi - 1) / len;
    QuotientMonotone(lo, hi - 1, len);
    PieceOfByte(total, len, lo, 0);
    PieceOfByte(total, len, hi - 1, 0);
    assert lo == start * len + lo % len;
    assert hi - 1 == end * len + (hi - 1) % len;
    NextStart(start, len);
    NextStart(end, len);
    if start < end {
      Spread(start + 1, end, len);
    }
  }
}
