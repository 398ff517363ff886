/** Several files read and written as one range of bytes. */
module MultiFile {
  import opened Bytes
  import opened FileContents

  /** Where a file lies in the range; gaps and empty entries are allowed. */
  datatype FileEntry = FileEntry(offset: nat, length: nat)

  function End(fe: FileEntry): nat {
    fe.offset + fe.length
  }

  predicate Holds(fe: FileEntry, off: int) {
    fe.offset <= off < End(fe)
  }

  /** Sorted and without overlap. */
  ghost predicate Ordered(files: seq<FileEntry>) {
    forall i, j :: 0 <= i < j < |files| ==> End(files[i]) <= files[j].offset
  }

  function Total(files: seq<FileEntry>): nat
    requires files != []
  {
    End(files[|files| - 1])
  }

  ghost predicate InFile(files: seq<FileEntry>, off: int) {
    exists i :: 0 <= i < |files| && Holds(files[i], off)
  }

  ghost predicate AllInFiles(files: seq<FileEntry>, lo: int, hi: int) {
    forall b :: lo <= b < hi ==> InFile(files, b)
  }

  lemma OneFile(files: seq<FileEntry>, off: int, i: nat, j: nat)
    requires Ordered(files) && i < |files| && j < |files| && Holds(files[i], off) && Holds(files[j], off)
    ensures i == j
  {
  }

  lemma InFileBound(files: seq<FileEntry>, off: int)
    requires Ordered(files) && files != [] && InFile(files, off)
    ensures 0 <= off < Total(files)
  {
    var i :| 0 <= i < |files| && Holds(files[i], off);
    if i < |files| - 1 {
      assert End(files[i]) <= files[|files| - 1].offset;
    }
  }

  // ----- Finding a file -----

  /** Binary search by the ends of the files. */
  method FileAtOffset(files: seq<FileEntry>, off: int) returns (r: Option<nat>)
    requires Ordered(files)
    ensures r.Some? ==> r.value < |files| && Holds(files[r.value], off)
    ensures r.None? <==> !InFile(files, off)
  {
    var lo, hi := 0, |files|;
    while lo < hi
      invariant 0 <= lo <= hi <= |files|
      invariant forall k :: 0 <= k < lo ==> End(files[k]) <= off
      invariant forall k :: hi <= k < |files| ==> off < End(files[k])
    {
      var mid := lo + (hi - lo) / 2;
      if files[mid].offset + files[mid].length <= off {
        lo := mid + 1;
      } else {
        hi := mid;
      }
    }
    if lo >= |files| {
      return None;
    }
    var fe := files[lo];
    if fe.offset <= off < fe.offset + fe.length {
      return Some(lo);
    }
    assert forall k :: lo < k < |files| ==> off < files[k].offset;
    r := None;
  }

  /** The least offset behind `off` at which an entry starts. */
  method NextFileOffset(files: seq<FileEntry>, off: int) returns (r: int)
    requires Ordered(files)
    ensures r == -1 || (r > off && exists i :: 0 <= i < |files| && files[i].offset == r)
    ensures r == -1 ==> forall k :: 0 <= k < |files| ==> files[k].offset <= off
    ensures r != -1 ==> forall k :: 0 <= k < |files| ==> files[k].offset <= off || r <= files[k].offset
  {
    for i := 0 to |files|
      invariant forall k :: 0 <= k < i ==> files[k].offset <= off
    {
      if files[i].offset > off {
        forall k | i < k < |files|
          ensures files[i].offset <= files[k].offset
        {
          assert End(files[i]) <= files[k].offset;
        }
        return files[i].offset;
      }
    }
    r := -1;
  }

  // ----- One flat range -----

  /** What the files hold: never more than the length of their entry. */
  ghost predicate Fits(files: seq<FileEntry>, data: seq<bytes>) {
    |data| == |files| && forall i :: 0 <= i < |data| ==> |data[i]| <= files[i].length
  }

  /** The byte at an offset; zero in gaps and where a file is short. */
  ghost function ByteAt(files: seq<FileEntry>, data: seq<bytes>, off: int): byte
    requires Ordered(files) && Fits(files, data)
  {
    if InFile(files, off) then
      var i := FileOf(files, off);
      var k := off - files[i].offset;
      if k < |data[i]| then data[i][k] else 0
    else 0
  }

  ghost function FileOf(files: seq<FileEntry>, off: int): (i: nat)
    requires InFile(files, off)
    ensures i < |files| && Holds(files[i], off)
  {
    var i :| 0 <= i < |files| && Holds(files[i], off);
    i
  }

  ghost function Flat(files: seq<FileEntry>, data: seq<bytes>): (r: bytes)
    requires Ordered(files) && Fits(files, data) && files != []
    ensures |r| == Total(files)
  {
    seq(Total(files), off requires 0 <= off < Total(files) => ByteAt(files, data, off))
  }

  lemma ByteIn(files: seq<FileEntry>, data: seq<bytes>, i: nat, off: int)
    requires Ordered(files) && Fits(files, data) && i < |files| && Holds(files[i], off)
    ensures var k := off - files[i].offset;
            ByteAt(files, data, off) == if k < |data[i]| then data[i][k] else 0
  {
    assert InFile(files, off);
    OneFile(files, off, i, FileOf(files, off));
  }

  lemma BytesIn(files: seq<FileEntry>, data: seq<bytes>, i: nat, off: int, chunk: bytes)
    requires Ordered(files) && Fits(files, data) && i < |files|
    requires files[i].offset <= off && off + |chunk| <= End(files[i])
    requires forall k :: 0 <= k < |chunk| ==>
      var f := off - files[i].offset + k; chunk[k] == if f < |data[i]| then data[i][f] else 0
    ensures forall k :: 0 <= k < |chunk| ==> chunk[k] == ByteAt(files, data, off + k)
  {
    hide ByteAt, Ordered;
    forall k | 0 <= k < |chunk|
      ensures chunk[k] == ByteAt(files, data, off + k)
    {
      ByteIn(files, data, i, off + k);
    }
  }

  /** Writing into one file changes exactly that range of the flat bytes. */
  lemma WriteIn(files: seq<FileEntry>, data: seq<bytes>, i: nat, k: nat, p: bytes)
    requires Ordered(files) && Fits(files, data) && files != [] && i < |files|
    requires p != [] && k + |p| <= files[i].length
    ensures var data' := data[i := Put(data[i], k, p)];
            && Fits(files, data')
            && files[i].offset + k + |p| <= Total(files)
            && Flat(files, data') == Put(Flat(files, data), files[i].offset + k, p)
  {
    var data' := data[i := Put(data[i], k, p)];
    var at := files[i].offset + k;
    assert Holds(files[i], at + |p| - 1) && InFile(files, at + |p| - 1);
    InFileBound(files, at + |p| - 1);
    FlatWrites(files, data, data', i, k, p);
  }

  lemma FlatWrites(files: seq<FileEntry>, data: seq<bytes>, data': seq<bytes>, i: nat, k: nat, p: bytes)
    requires Ordered(files) && Fits(files, data) && files != [] && i < |files|
    requires p != [] && k + |p| <= files[i].length && files[i].offset + k + |p| <= Total(files)
    requires data' == data[i := Put(data[i], k, p)] && Fits(files, data')
    ensures Flat(files, data') == Put(Flat(files, data), files[i].offset + k, p)
  {
    hide ByteAt, Put, Ordered, Fits;
    var f, at := Flat(files, data), files[i].offset + k;
    var a, b := Flat(files, data'), Put(f, at, p);
    PutAt(f, at, p, 0);
    forall off | 0 <= off < Total(files)
      ensures a[off] == b[off]
    {
      WrittenByte(files, data, i, k, p, off);
      PutAt(f, at, p, off);
    }
  }

  lemma WrittenByte(files: seq<FileEntry>, data: seq<bytes>, i: nat, k: nat, p: bytes, off: int)
    requires Ordered(files) && Fits(files, data) && i < |files| && p != [] && k + |p| <= files[i].length
    ensures Fits(files, data[i := Put(data[i], k, p)])
    ensures ByteAt(files, data[i := Put(data[i], k, p)], off)
         == if files[i].offset + k <= off < files[i].offset + k + |p| then p[off - files[i].offset - k]
            else ByteAt(files, data, off)
  {
    var data' := data[i := Put(data[i], k, p)];
    if Holds(files[i], off) {
      ByteIn(files, data, i, off);
      ByteIn(files, data', i, off);
    } else if InFile(files, off) {
      var j := FileOf(files, off);
      ByteIn(files, data, j, off);
      ByteIn(files, data', j, off);
    }
  }

  // ----- The adaptor -----

  class Adaptor {
    const files: seq<FileEntry>
    var data: seq<bytes>

    ghost predicate Valid()
      reads this
    {
      files != [] && Ordered(files) && Fits(files, data)
    }

    ghost function View(): bytes
      reads this
      requires Valid()
    {
      Flat(files, data)
    }

    constructor (files: seq<FileEntry>, data: seq<bytes>)
      requires files != [] && Ordered(files) && Fits(files, data)
      ensures Valid() && this.files == files && this.data == data
    {
      this.files, this.data := files, data;
    }

    /**
      A write goes on from file to file until it is done or meets a byte that
      no file holds; what it has written by then, and nothing else, is changed.
     */
    method WriteAt(p: bytes, offset: int) returns (written: nat, ok: bool)
      requires Valid()
      modifies this
      ensures Valid() && written <= |p|
      ensures ok <==> 0 <= offset <= Total(files) && AllInFiles(files, offset, offset + |p|)
      ensures ok ==> written == |p|
      ensures !ok && 0 <= offset <= Total(files) ==> written < |p| && !InFile(files, offset + written)
      ensures AllInFiles(files, offset, offset + written)
      ensures if 0 <= offset <= Total(files) then View() == Put(old(View()), offset, p[..written])
              else written == 0 && View() == old(View())
    {
      hide Put, Flat, InFile;
      if offset < 0 || offset > Total(files) {
        return 0, false;
      }
      written := 0;
      ghost var flat := View();
      while written < |p|
        invariant Valid() && written <= |p| && View() == Put(flat, offset, p[..written])
        invariant AllInFiles(files, offset, offset + written)
        decreases |p| - written
      {
        var off := offset + written;
        var at := FileAtOffset(files, off);
        if at.None? {
          return written, false;
        }
        var i := at.value;
        var fileOff := off - files[i].offset;
        var n := Min(|p| - written, files[i].length - fileOff);
        var chunk := p[written..written + n];
        WriteIn(files, data, i, fileOff, chunk);
        PutConcat(flat, offset, p[..written], chunk);
        assert p[..written] + chunk == p[..written + n];
        AllIn(files, i, off, n);
        data := data[i := Put(data[i], fileOff, chunk)];
        written := written + n;
      }
      assert p[..written] == p;
      ok := true;
    }

    /** Reading stops at the end of the range; gaps and missing parts of files read as zero. */
    method ReadAt(n: nat, offset: int) returns (r: bytes, eof: bool)
      requires Valid()
      ensures |r| == Max(0, Min(n, Total(files) - offset))
      ensures forall k :: 0 <= k < |r| ==> r[k] == ByteAt(files, data, offset + k)
      ensures eof <==> n > 0 && offset + n >= Total(files)
    {
      hide ByteAt, InFile;
      r := [];
      if n == 0 {
        return r, false;
      }
      if offset >= Total(files) {
        return r, true;
      }
      while |r| < n
        invariant |r| <= n && (offset + |r| <= Total(files))
        invariant forall k :: 0 <= k < |r| ==> r[k] == ByteAt(files, data, offset + k)
        decreases n - |r|
      {
        var off := offset + |r|;
        if off >= Total(files) {
          return r, true;
        }
        var chunk := ReadSome(n - |r|, off);
        r := r + chunk;
      }
      eof := offset + |r| >= Total(files);
    }

    /** The bytes up to the end of the file or gap that holds `off`. */
    method ReadSome(n: nat, off: int) returns (chunk: bytes)
      requires Valid() && n > 0 && off < Total(files)
      ensures 0 < |chunk| <= n && off + |chunk| <= Total(files)
      ensures forall k :: 0 <= k < |chunk| ==> chunk[k] == ByteAt(files, data, off + k)
    {
      var at := FileAtOffset(files, off);
      if at.None? {
        var next := NextFileOffset(files, off);
        if next < 0 {
          assert false;
        }
        GapEnds(files, off, next);
        var gap := Min(n, next - off);
        chunk := seq(gap, _ => 0);
        return;
      }
      var i := at.value;
      var fileOff := off - files[i].offset;
      var n' := Min(n, files[i].length - fileOff);
      FileEndsInside(files, i);
      chunk := ReadFile(i, fileOff, n');
      BytesIn(files, data, i, off, chunk);
    }

    /** A short file is filled up with zeros. */
    method ReadFile(i: nat, fileOff: nat, n: nat) returns (chunk: bytes)
      requires Valid() && i < |files|
      ensures |chunk| == n
      ensures forall k :: 0 <= k < n ==> chunk[k] == if fileOff + k < |data[i]| then data[i][fileOff + k] else 0
    {
      var have := Max(0, Min(n, |data[i]| - fileOff));
      chunk := (if have > 0 then data[i][fileOff..fileOff + have] else []) + seq(n - have, _ => 0);
    }
  }

  lemma FileEndsInside(files: seq<FileEntry>, i: nat)
    requires Ordered(files) && i < |files|
    ensures End(files[i]) <= Total(files)
  {
    if i < |files| - 1 {
      assert End(files[i]) <= files[|files| - 1].offset;
    }
  }

  lemma AllIn(files: seq<FileEntry>, i: nat, off: int, n: nat)
    requires i < |files| && Holds(files[i], off) && off + n <= End(files[i])
    ensures AllInFiles(files, off, off + n)
  {
    forall b | off <= b < off + n
      ensures InFile(files, b)
    {
      assert Holds(files[i], b);
    }
  }

  /** No file holds anything between `off` and the next entry. */
  lemma GapEnds(files: seq<FileEntry>, off: int, next: int)
    requires Ordered(files) && files != [] && off < Total(files) && !InFile(files, off)
    requires forall k :: 0 <= k < |files| ==> files[k].offset <= off || next <= files[k].offset
    requires next == Total(files) || (next > off && exists i :: 0 <= i < |files| && files[i].offset == next)
    ensures off < next <= Total(files) && forall b :: off <= b < next ==> !InFile(files, b)
  {
    if next != Total(files) {
      var i :| 0 <= i < |files| && files[i].offset == next;
      FileEndsInside(files, i);
    }
    forall b | off <= b < next
      ensures !InFile(files, b)
    {
    }
  }

  lemma {:induction false} AdjacentOrders(files: seq<FileEntry>)
    requires forall i :: 0 < i < |files| ==> End(files[i - 1]) <= files[i].offset
    ensures Ordered(files)
  {
    if files != [] {
      var n := |files| - 1;
      AdjacentOrders(files[..n]);
      forall i | 0 <= i < n
        ensures End(files[i]) <= files[n].offset
      {
        if i < n - 1 {
          assert End(files[..n][i]) <= files[..n][n - 1].offset;
        }
      }
      assert forall i, j :: 0 <= i < j < n ==> End(files[..n][i]) <= files[..n][j].offset;
    }
  }

  /** Only neighbours are compared, which is enough. */
  method NewMultiFile(files: seq<FileEntry>, data: seq<bytes>) returns (r: Option<Adaptor>)
    requires Fits(files, data)
    ensures r.Some? <==> files != [] && Ordered(files)
    ensures r.Some? ==> fresh(r.value) && r.value.Valid() && r.value.files == files && r.value.data == data
  {
    if files == [] {
      return None;
    }
    var i := 1;
    while i < |files|
      invariant 1 <= i <= |files| && forall k :: 0 < k < i ==> End(files[k - 1]) <= files[k].offset
    {
      if files[i].offset < files[i - 1].offset || files[i].offset < files[i - 1].offset + files[i - 1].length {
        assert !(End(files[i - 1]) <= files[i].offset);
        return None;
      }
      i := i + 1;
    }
    AdjacentOrders(files);
    var a := new Adaptor(files, data);
    r := Some(a);
  }

  /** What a successful write has written is what a read of the range then returns. */
  method WriteThenRead(a: Adaptor, p: bytes, offset: int) returns (ok: bool, r: bytes)
    requires a.Valid()
    modifies a
    ensures a.Valid() && (ok ==> r == p)
  {
    var written;
    written, ok := a.WriteAt(p, offset);
    var eof;
    r, eof := a.ReadAt(|p|, offset);
    if ok && p != [] {
      assert InFile(a.files, offset + |p| - 1);
      InFileBound(a.files, offset + |p| - 1);
      assert p[..written] == p;
      ReadsBack(old(a.View()), offset, p, a.View(), r, a);
    }
  }

  lemma ReadsBack(before: bytes, offset: nat, p: bytes, after: bytes, r: bytes, a: Adaptor)
    requires a.Valid() && after == a.View() == Put(before, offset, p) && p != []
    requires |r| == |p| && offset + |p| <= Total(a.files) == |before|
    requires forall k :: 0 <= k < |r| ==> r[k] == ByteAt(a.files, a.data, offset + k)
    ensures r == p
  {
    hide Put, ByteAt;
    forall k | 0 <= k < |p|
      ensures r[k] == p[k]
    {
      PutAt(before, offset, p, offset + k);
      assert r[k] == after[offset + k];
    }
  }
}
