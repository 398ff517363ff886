/** Which files of a torrent are created at full length when only some are selected. */
module FileSelection {
  import opened Bytes
  import opened Pieces
  import opened MultiFile

  /** Where file `i` starts when all files are laid end to end. */
  function Offset(lengths: seq<nat>, i: nat): nat
    requires i <= |lengths|
  {
    if i == 0 then 0 else Offset(lengths, i - 1) + lengths[i - 1]
  }

  lemma {:induction false} OffsetGrows(lengths: seq<nat>, i: nat, j: nat)
    requires i < j <= |lengths|
    ensures Offset(lengths, i) + lengths[i] <= Offset(lengths, j)
    decreases j
  {
    if i < j - 1 {
      OffsetGrows(lengths, i, j - 1);
    }
  }

  predicate InOriginal(lengths: seq<nat>, i: nat, b: int)
    requires i < |lengths|
  {
    Offset(lengths, i) <= b < Offset(lengths, i) + lengths[i]
  }

  lemma {:induction false} Locate(lengths: seq<nat>, n: nat, b: nat) returns (i: nat)
    requires n <= |lengths| && b < Offset(lengths, n)
    ensures i < n && InOriginal(lengths, i, b)
  {
    if b >= Offset(lengths, n - 1) {
      i := n - 1;
    } else {
      i := Locate(lengths, n - 1, b);
    }
  }

  predicate Requested(selected: seq<bool>, i: nat) {
    selected == [] || (i < |selected| && selected[i])
  }

  // ----- Wanted pieces -----

  ghost predicate WantedBy(lengths: seq<nat>, selected: seq<bool>, len: int, n: nat, q: int)
    requires len > 0 && n <= |lengths|
  {
    exists i :: 0 <= i < n && i < |selected| && selected[i]
                && Meets(Offset(lengths, i), Offset(lengths, i) + lengths[i], len, q)
  }

  method SelectedPieces(lengths: seq<nat>, selected: seq<bool>, len: int, numPieces: int) returns (wanted: seq<bool>)
    ensures selected == [] || len <= 0 || numPieces <= 0 ==> wanted == []
    ensures selected != [] && len > 0 && numPieces > 0 ==>
              |wanted| == numPieces
              && forall q :: 0 <= q < numPieces ==> (wanted[q] <==> WantedBy(lengths, selected, len, |lengths|, q))
  {
    if selected == [] || len <= 0 || numPieces <= 0 {
      return [];
    }
    wanted := seq(numPieces, _ => false);
    var offset := 0;
    for i := 0 to |lengths|
      invariant offset == Offset(lengths, i) && |wanted| == numPieces
      invariant forall q :: 0 <= q < numPieces ==> (wanted[q] <==> WantedBy(lengths, selected, len, i, q))
    {
      ghost var before := wanted;
      if i < |selected| && selected[i] && lengths[i] > 0 {
        wanted := MarkRange(wanted, offset, offset + lengths[i], len);
      }
      forall q | 0 <= q < numPieces
        ensures wanted[q] <==> WantedBy(lengths, selected, len, i + 1, q)
      {
        WantedNext(lengths, selected, len, i, q);
      }
      offset := offset + lengths[i];
    }
  }

  lemma WantedNext(lengths: seq<nat>, selected: seq<bool>, len: int, i: nat, q: int)
    requires len > 0 && i < |lengths|
    ensures WantedBy(lengths, selected, len, i + 1, q) <==>
              WantedBy(lengths, selected, len, i, q)
              || (i < |selected| && selected[i] && Meets(Offset(lengths, i), Offset(lengths, i) + lengths[i], len, q))
  {
    hide Meets;
  }

  method MarkRange(wanted: seq<bool>, lo: nat, hi: nat, len: int) returns (r: seq<bool>)
    requires len > 0 && lo < hi
    ensures |r| == |wanted| && forall q :: 0 <= q < |r| ==> (r[q] <==> wanted[q] || Meets(lo, hi, len, q))
  {
    hide Meets;
    r := wanted;
    QuotientLow(lo, len, 0);
    var first, last := lo / len, (hi - 1) / len;
    var piece := first;
    while piece <= last && piece < |r|
      invariant first <= piece && |r| == |wanted|
      invariant forall q :: 0 <= q < |r| ==> (r[q] <==> wanted[q] || (first <= q < piece && q <= last))
      decreases |r| - piece
    {
      r := r[piece := true];
      piece := piece + 1;
    }
    forall q | 0 <= q < |r|
      ensures r[q] <==> wanted[q] || Meets(lo, hi, len, q)
    {
      MeetsRange(lo, hi, len, q);
    }
  }

  /** A file shares a piece with something wanted. */
  ghost predicate TouchesWanted(offset: nat, length: nat, len: int, wanted: seq<bool>) {
    len > 0 && exists q :: 0 <= q < |wanted| && wanted[q] && Meets(offset, offset + length, len, q)
  }

  method OverlapsWantedPiece(offset: nat, length: nat, len: int, wanted: seq<bool>) returns (r: bool)
    ensures r <==> TouchesWanted(offset, length, len, wanted)
  {
    if wanted == [] || length <= 0 || len <= 0 {
      return false;
    }
    hide Meets;
    QuotientLow(offset, len, 0);
    var end := offset + length;
    var first, last := offset / len, (end - 1) / len;
    forall q | 0 <= q < |wanted|
      ensures Meets(offset, end, len, q) <==> first <= q <= last
    {
      MeetsRange(offset, end, len, q);
    }
    var piece := first;
    while piece <= last && piece < |wanted|
      invariant first <= piece && forall q :: first <= q < piece && q <= last && q < |wanted| ==> !wanted[q]
      decreases |wanted| - piece
    {
      if wanted[piece] {
        return true;
      }
      piece := piece + 1;
    }
    r := false;
  }

  // ----- Entries -----

  ghost predicate Kept(lengths: seq<nat>, selected: seq<bool>, len: int, wanted: seq<bool>, i: nat)
    requires i < |lengths|
  {
    Requested(selected, i) || TouchesWanted(Offset(lengths, i), lengths[i], len, wanted)
  }

  /** Files keep their place; one that is not kept becomes empty. */
  ghost predicate EntriesFor(lengths: seq<nat>, selected: seq<bool>, len: int, wanted: seq<bool>, entries: seq<FileEntry>) {
    && |entries| <= |lengths|
    && forall i :: 0 <= i < |entries| ==>
         entries[i] == FileEntry(Offset(lengths, i), if Kept(lengths, selected, len, wanted, i) then lengths[i] else 0)
  }

  method DiskEntries(lengths: seq<nat>, selected: seq<bool>, len: int, numPieces: int)
    returns (entries: seq<FileEntry>, wanted: seq<bool>)
    ensures |entries| == |lengths| && Ordered(entries)
    ensures EntriesFor(lengths, selected, len, wanted, entries)
    ensures wanted == [] || (len > 0 && |wanted| == numPieces && selected != [])
    ensures forall q :: 0 <= q < |wanted| ==> (wanted[q] <==> WantedBy(lengths, selected, len, |lengths|, q))
  {
    wanted := SelectedPieces(lengths, selected, len, numPieces);
    hide TouchesWanted, WantedBy, EntriesFor;
    entries := [];
    assert EntriesFor(lengths, selected, len, wanted, []) by { NoEntries(lengths, selected, len, wanted); }
    var offset := 0;
    for i := 0 to |lengths|
      invariant offset == Offset(lengths, i) && |entries| == i
      invariant EntriesFor(lengths, selected, len, wanted, entries)
    {
      var touched := Requested(selected, i);
      if !touched {
        touched := OverlapsWantedPiece(offset, lengths[i], len, wanted);
      }
      NextEntry(lengths, selected, len, wanted, entries);
      entries := entries + [FileEntry(offset, if touched then lengths[i] else 0)];
      offset := offset + lengths[i];
    }
    EntriesOrdered(lengths, selected, len, wanted, entries);
  }

  lemma NoEntries(lengths: seq<nat>, selected: seq<bool>, len: int, wanted: seq<bool>)
    ensures EntriesFor(lengths, selected, len, wanted, [])
  {
  }

  lemma NextEntry(lengths: seq<nat>, selected: seq<bool>, len: int, wanted: seq<bool>, entries: seq<FileEntry>)
    requires EntriesFor(lengths, selected, len, wanted, entries) && |entries| < |lengths|
    ensures var i := |entries|;
            var length := if Kept(lengths, selected, len, wanted, i) then lengths[i] else 0;
            EntriesFor(lengths, selected, len, wanted, entries + [FileEntry(Offset(lengths, i), length)])
  {
    hide Kept, Offset;
    var k := |entries|;
    var r := entries + [FileEntry(Offset(lengths, k), if Kept(lengths, selected, len, wanted, k) then lengths[k] else 0)];
    assert forall i :: 0 <= i < k ==> r[i] == entries[i];
  }

  /** The entries are what the disk layer accepts: sorted and without overlap. */
  lemma EntriesOrdered(lengths: seq<nat>, selected: seq<bool>, len: int, wanted: seq<bool>, entries: seq<FileEntry>)
    requires EntriesFor(lengths, selected, len, wanted, entries)
    ensures Ordered(entries)
  {
    hide Kept;
    forall i, j | 0 <= i < j < |entries|
      ensures End(entries[i]) <= entries[j].offset
    {
      OffsetGrows(lengths, i, j);
    }
  }

  lemma TouchedBy(offset: nat, length: nat, len: int, wanted: seq<bool>, b: nat)
    requires len > 0 && offset <= b < offset + length && b / len < |wanted| && wanted[b / len]
    ensures TouchesWanted(offset, length, len, wanted)
  {
    QuotientLow(b, len, 0);
    assert PieceHas(offset, offset + length, len, b / len, b);
    hide PieceHas;
    assert Meets(offset, offset + length, len, b / len);
  }

  /** A byte of a wanted piece is in a file that is kept at full length. */
  lemma WantedByteKept(lengths: seq<nat>, selected: seq<bool>, len: int, wanted: seq<bool>, entries: seq<FileEntry>, b: nat)
    requires EntriesFor(lengths, selected, len, wanted, entries) && |entries| == |lengths|
    requires b < Offset(lengths, |lengths|)
    requires selected == [] || (len > 0 && b / len < |wanted| && wanted[b / len])
    ensures InFile(entries, b)
  {
    var i := Locate(lengths, |lengths|, b);
    if selected != [] {
      TouchedBy(Offset(lengths, i), lengths[i], len, wanted, b);
    }
    hide TouchesWanted;
    assert Kept(lengths, selected, len, wanted, i);
    assert Holds(entries[i], b);
  }

  /** All bytes of a wanted piece are in files; without a selection, those of every piece. */
  lemma WantedPieceKept(lengths: seq<nat>, selected: seq<bool>, len: int, wanted: seq<bool>, entries: seq<FileEntry>, q: nat)
    requires EntriesFor(lengths, selected, len, wanted, entries) && |entries| == |lengths|
    requires len > 0 && (selected == [] || (q < |wanted| && wanted[q]))
    ensures AllInFiles(entries, q * len, PieceEnd(Offset(lengths, |lengths|), len, q))
  {
    var total := Offset(lengths, |lengths|);
    forall b | q * len <= b < PieceEnd(total, len, q)
      ensures InFile(entries, b)
    {
      Spread(0, q, len);
      PieceOfByte(total, len, b, q);
      WantedByteKept(lengths, selected, len, wanted, entries, b);
    }
  }

  /** Writing a whole wanted piece meets no gap, whatever was selected. */
  method WritePiece(a: Adaptor, lengths: seq<nat>, selected: seq<bool>, len: int, ghost wanted: seq<bool>, q: nat, p: bytes)
    returns (written: nat, ok: bool)
    requires a.Valid() && EntriesFor(lengths, selected, len, wanted, a.files) && |a.files| == |lengths|
    requires len > 0 && q < NumPieces(Offset(lengths, |lengths|), len) && (selected == [] || (q < |wanted| && wanted[q]))
    requires |p| == PieceSize(Offset(lengths, |lengths|), len, q)
    modifies a
    ensures a.Valid() && ok && written == |p|
  {
    ghost var total := Offset(lengths, |lengths|);
    PieceBounds(total, len, q);
    WantedPieceKept(lengths, selected, len, wanted, a.files, q);
    assert InFile(a.files, q * len);
    InFileBound(a.files, q * len);
    hide PieceSize, AllInFiles;
    written, ok := a.WriteAt(p, q * len);
  }
}
