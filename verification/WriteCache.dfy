/** One cached region for each of several files; the least recently used is written out when they grow too large. */
module WriteCache {
  import opened Bytes
  import opened FileContents
  import opened Lists

  type FileId = nat

  datatype Entry = Entry(goff: nat, data: bytes)

  /** The bytes cached for the files of a list. */
  function Sum(q: seq<FileId>, entries: map<FileId, Entry>): nat {
    if q == [] then 0 else (if q[0] in entries then |entries[q[0]].data| else 0) + Sum(q[1..], entries)
  }

  lemma {:induction false} SumSame(q: seq<FileId>, a: map<FileId, Entry>, b: map<FileId, Entry>)
    requires forall i :: 0 <= i < |q| ==> (q[i] in a <==> q[i] in b) && (q[i] in a ==> a[q[i]] == b[q[i]])
    ensures Sum(q, a) == Sum(q, b)
  {
    if q != [] {
      SumSame(q[1..], a, b);
    }
  }

  lemma {:induction false} SumWithout(q: seq<FileId>, f: FileId, entries: map<FileId, Entry>)
    requires f in q && f in entries
    ensures Sum(q, entries) == Sum(Without(q, f), entries) + |entries[f].data|
  {
    if q[0] != f {
      assert q == [q[0]] + q[1..];
      SumWithout(q[1..], f, entries);
    }
  }

  lemma {:induction false} SumAppend(q: seq<FileId>, f: FileId, entries: map<FileId, Entry>)
    requires f in entries
    ensures Sum(q + [f], entries) == Sum(q, entries) + |entries[f].data|
  {
    if q == [] {
      assert q + [f] == [f] && [f][1..] == [];
    } else {
      assert (q + [f])[1..] == q[1..] + [f];
      SumAppend(q[1..], f, entries);
    }
  }

  /** What follows on the cached bytes of the file is appended to them; anything else takes their place. */
  function Laid(entries: map<FileId, Entry>, f: FileId, offset: nat, data: bytes): map<FileId, Entry> {
    if f in entries && entries[f].goff + |entries[f].data| == offset
    then entries[f := Entry(entries[f].goff, entries[f].data + data)]
    else entries[f := Entry(offset, data)]
  }

  /** The list is a duplicate-free listing of the cached files and the total is exact. */
  ghost predicate Consistent(entries: map<FileId, Entry>, lru: seq<FileId>, total: int) {
    && Distinct(lru)
    && (forall f :: f in lru <==> f in entries)
    && (forall f :: f in entries ==> entries[f].data != [])
    && total == Sum(lru, entries)
  }

  lemma DropKeeps(entries: map<FileId, Entry>, lru: seq<FileId>, total: int, f: FileId)
    requires Consistent(entries, lru, total) && f in entries
    ensures Consistent(entries - {f}, Without(lru, f), total - |entries[f].data|)
  {
    hide Without, Sum;
    WithoutDistinct(lru, f);
    SumWithout(lru, f, entries);
    SumSame(Without(lru, f), entries, entries - {f});
  }

  /** An entry is set and its file becomes the most recently used. */
  lemma TouchKeeps(entries: map<FileId, Entry>, lru: seq<FileId>, total: int, f: FileId, e: Entry)
    requires Consistent(entries, lru, total) && e.data != []
    ensures var was := if f in entries then |entries[f].data| else 0;
            Consistent(entries[f := e], Without(lru, f) + [f], total - was + |e.data|)
  {
    hide Without, Sum;
    WithoutDistinct(lru, f);
    var rest := Without(lru, f);
    if f in entries {
      SumWithout(lru, f, entries);
    } else {
      WithoutIndex(lru, f);
    }
    SumSame(rest, entries, entries[f := e]);
    SumAppend(rest, f, entries[f := e]);
  }

  /** When the file was last used; 0 if never. */
  function LastUse(uses: seq<FileId>, f: FileId): (n: nat)
    ensures n <= |uses| && (n == 0 <==> f !in uses)
  {
    if uses == [] then 0 else if uses[|uses| - 1] == f then |uses| else LastUse(uses[..|uses| - 1], f)
  }

  /** The files of the list have been used, each after the ones before it. */
  ghost predicate ByRecency(q: seq<FileId>, uses: seq<FileId>) {
    && (forall i :: 0 <= i < |q| ==> LastUse(uses, q[i]) > 0)
    && (forall i, j :: 0 <= i < j < |q| ==> LastUse(uses, q[i]) < LastUse(uses, q[j]))
  }

  lemma UsedNow(uses: seq<FileId>, f: FileId, g: FileId)
    ensures LastUse(uses + [f], g) == if g == f then |uses| + 1 else LastUse(uses, g)
  {
    assert (uses + [f])[..|uses|] == uses;
  }

  lemma RecencyWithout(q: seq<FileId>, uses: seq<FileId>, f: FileId)
    requires ByRecency(q, uses)
    ensures ByRecency(Without(q, f), uses)
  {
    hide Without, LastUse;
    WithoutIndex(q, f);
  }

  lemma RecencySplit(q: seq<FileId>, uses: seq<FileId>, k: nat)
    requires ByRecency(q, uses) && k <= |q|
    ensures forall f, g :: f in q[..k] && g in q[k..] ==> LastUse(uses, f) < LastUse(uses, g)
  {
    hide LastUse;
  }

  lemma WithoutHead(q: seq<FileId>)
    requires q != []
    ensures Without(q, q[0]) == q[1..]
  {
  }

  lemma Listed(entries: map<FileId, Entry>, lru: seq<FileId>, total: int)
    requires Consistent(entries, lru, total)
    ensures forall i :: 0 <= i < |lru| ==> lru[i] in entries
  {
  }

  lemma RecencyTouch(q: seq<FileId>, uses: seq<FileId>, f: FileId)
    requires ByRecency(q, uses) && Distinct(q)
    ensures ByRecency(Without(q, f) + [f], uses + [f])
  {
    hide Without, LastUse;
    RecencyWithout(q, uses, f);
    WithoutDistinct(q, f);
    var rest := Without(q, f);
    forall i | 0 <= i < |rest|
      ensures rest[i] != f && LastUse(uses + [f], rest[i]) == LastUse(uses, rest[i])
    {
      assert rest[i] in rest;
      UsedNow(uses, f, rest[i]);
    }
    UsedNow(uses, f, f);
  }

  class Disk {
    var contents: map<FileId, bytes>

    function Read(f: FileId): bytes
      reads this
    {
      if f in contents then contents[f] else []
    }

    method WriteAt(f: FileId, p: bytes, off: nat)
      modifies this
      ensures Read(f) == Put(old(Read(f)), off, p)
      ensures forall g :: g != f ==> Read(g) == old(Read(g))
    {
      contents := contents[f := Put(Read(f), off, p)];
    }
  }

  class Cache {
    const disk: Disk
    const maxSize: int
    var entries: map<FileId, Entry>
    var totalSize: int
    var lru: seq<FileId>
    ghost var uses: seq<FileId>

    /** The list is in the order of last use. */
    ghost predicate Valid()
      reads this
    {
      Consistent(entries, lru, totalSize) && ByRecency(lru, uses)
    }

    /** A file with its cached region laid over it. */
    ghost function Seen(f: FileId): bytes
      reads this, disk
    {
      if f in entries then Put(disk.Read(f), entries[f].goff, entries[f].data) else disk.Read(f)
    }

    constructor (disk: Disk, maxSize: int)
      ensures Valid() && entries == map[] && this.disk == disk && this.maxSize == maxSize
    {
      this.disk, this.maxSize := disk, maxSize;
      entries, totalSize, lru, uses := map[], 0, [], [];
    }

    method RemoveFromLru(f: FileId)
      modifies this`lru
      ensures lru == Without(old(lru), f)
    {
      lru := MoveFrom(lru, f);
    }

    method FlushEntry(f: FileId)
      requires Valid()
      modifies this`entries, this`totalSize, this`lru, disk
      ensures Valid() && entries == old(entries) - {f} && lru == Without(old(lru), f)
      ensures totalSize == old(totalSize) - if f in old(entries) then |old(entries)[f].data| else 0
      ensures forall g :: Seen(g) == old(Seen(g))
      ensures forall g :: g != f ==> disk.Read(g) == old(disk.Read(g))
    {
      hide Without, Sum, Put, ByRecency;
      RecencyWithout(lru, uses, f);
      if f !in entries {
        WithoutIndex(lru, f);
        return;
      }
      DropKeeps(entries, lru, totalSize, f);
      disk.WriteAt(f, entries[f].data, entries[f].goff);
      totalSize := totalSize - |entries[f].data|;
      entries := entries - {f};
      RemoveFromLru(f);
    }

    /**
      The least recently used files are written out, no more of them than it
      takes to come within the limit; the others are left as they are.
     */
    method Evict() returns (ghost gone: nat)
      requires Valid()
      modifies this`entries, this`totalSize, this`lru, disk
      ensures Valid() && (totalSize <= maxSize || lru == [])
      ensures gone <= |old(lru)| && lru == old(lru)[gone..]
      ensures forall f :: f in entries ==> f in old(entries) && entries[f] == old(entries)[f]
      ensures gone > 0 && old(lru)[gone - 1] in old(entries) ==>
                totalSize + |old(entries)[old(lru)[gone - 1]].data| > maxSize
      ensures forall f, g :: f in old(lru)[..gone] && g in lru ==> LastUse(uses, f) < LastUse(uses, g)
      ensures forall g :: Seen(g) == old(Seen(g))
    {
      hide Consistent, Seen, Sum, ByRecency;
      gone := 0;
      while totalSize > maxSize && |lru| > 0
        invariant Valid() && forall g :: Seen(g) == old(Seen(g))
        invariant gone <= |old(lru)| && lru == old(lru)[gone..]
        invariant forall f :: f in entries ==> f in old(entries) && entries[f] == old(entries)[f]
        invariant gone > 0 && old(lru)[gone - 1] in old(entries) ==>
                    totalSize + |old(entries)[old(lru)[gone - 1]].data| > maxSize
        decreases |lru|
      {
        assert lru[0] in entries by { Listed(entries, lru, totalSize); }
        WithoutHead(lru);
        FlushEntry(lru[0]);
        gone := gone + 1;
      }
      RecencySplit(old(lru), uses, gone);
    }

    method Touch(f: FileId)
      modifies this`lru
      ensures lru == Without(old(lru), f) + [f]
    {
      RemoveFromLru(f);
      lru := lru + [f];
    }

    /**
      After every addition each file shows what writing directly would have made
      of it. The file is the most recently used; the least recently used ones
      may have been written out.
     */
    method Add(f: FileId, offset: nat, data: bytes) returns (ghost gone: nat)
      requires Valid()
      modifies this`entries, this`totalSize, this`lru, this`uses, disk
      ensures Valid()
      ensures Seen(f) == Put(old(Seen(f)), offset, data)
      ensures forall g :: g != f ==> Seen(g) == old(Seen(g))
      ensures data != [] && maxSize >= 0 ==> totalSize <= maxSize
      ensures if data == [] then uses == old(uses) && lru == old(lru)
              else && uses == old(uses) + [f] && gone <= |Without(old(lru), f)| + 1
                   && lru == (Without(old(lru), f) + [f])[gone..]
      ensures data == [] ==> entries == old(entries)
      ensures data != [] ==>
                var laid := Laid(old(entries), f, offset, data);
                && (forall g :: g in entries ==> g in laid && entries[g] == laid[g])
                && (gone > 0 ==> var last := (Without(old(lru), f) + [f])[gone - 1];
                                 last in laid && totalSize + |laid[last].data| > maxSize)
    {
      hide Without, Sum, Put, ByRecency;
      gone := 0;
      if data == [] {
        return;
      }
      Store(f, offset, data);
      assert forall g :: g in lru ==> g in entries by { AllCached(entries, lru, totalSize); }
      gone := Evict();
      NothingCached(entries, lru, totalSize);
    }

    /** What follows on the cached bytes is appended to them; otherwise they are written out first. */
    method Store(f: FileId, offset: nat, data: bytes)
      requires Valid() && data != []
      modifies this`entries, this`totalSize, this`lru, this`uses, disk
      ensures Valid() && uses == old(uses) + [f] && lru == Without(old(lru), f) + [f]
      ensures entries == Laid(old(entries), f, offset, data)
      ensures f !in old(entries) || old(entries)[f].goff + |old(entries)[f].data| == offset ==>
                disk.contents == old(disk.contents)
      ensures Seen(f) == Put(old(Seen(f)), offset, data)
      ensures forall g :: g != f ==> Seen(g) == old(Seen(g))
    {
      hide Without, Sum, Put, Consistent, ByRecency;
      assert Distinct(lru) by { ListDistinct(entries, lru, totalSize); }
      RecencyTouch(lru, uses, f);
      if f in entries {
        var e := entries[f];
        if e.goff + |e.data| == offset {
          PutConcat(disk.Read(f), e.goff, e.data, data);
          TouchKeeps(entries, lru, totalSize, f, Entry(e.goff, e.data + data));
          entries := entries[f := Entry(e.goff, e.data + data)];
          totalSize := totalSize + |data|;
          Touch(f);
          uses := uses + [f];
          return;
        }
        FlushEntry(f);
        assert (old(entries) - {f})[f := Entry(offset, data)] == old(entries)[f := Entry(offset, data)];
        WithoutTwice(old(lru), f);
      }
      TouchKeeps(entries, lru, totalSize, f, Entry(offset, data));
      entries := entries[f := Entry(offset, data)];
      totalSize := totalSize + |data|;
      Touch(f);
      uses := uses + [f];
    }

    method Flush(f: FileId)
      requires Valid()
      modifies this`entries, this`totalSize, this`lru, disk
      ensures Valid() && entries == old(entries) - {f} && lru == Without(old(lru), f) && disk.Read(f) == old(Seen(f))
      ensures forall g :: g != f ==> disk.Read(g) == old(disk.Read(g))
      ensures forall g :: Seen(g) == old(Seen(g))
    {
      hide Without, Sum, Put, Consistent;
      FlushEntry(f);
      assert Seen(f) == old(Seen(f));
    }

    /** Closing leaves nothing in the cache and everything on disk. */
    method Close()
      requires Valid()
      modifies this`entries, this`totalSize, this`lru, disk
      ensures Valid() && entries == map[] && totalSize == 0
      ensures forall g :: disk.Read(g) == old(Seen(g))
    {
      hide Consistent, Put, Sum, ByRecency;
      while |lru| > 0
        invariant Valid() && forall g :: Seen(g) == old(Seen(g))
        decreases |lru|
      {
        FlushEntry(lru[0]);
      }
      NothingCached(entries, lru, totalSize);
      assert forall g :: Seen(g) == disk.Read(g);
    }
  }

  lemma AllCached(entries: map<FileId, Entry>, lru: seq<FileId>, total: int)
    requires Consistent(entries, lru, total)
    ensures forall g :: g in lru ==> g in entries
  {
  }

  lemma ListDistinct(entries: map<FileId, Entry>, lru: seq<FileId>, total: int)
    requires Consistent(entries, lru, total)
    ensures Distinct(lru)
  {
  }

  lemma WithoutTwice(q: seq<FileId>, f: FileId)
    requires Distinct(q)
    ensures Without(Without(q, f), f) == Without(q, f)
  {
    hide Without;
    WithoutDistinct(q, f);
    WithoutIndex(Without(q, f), f);
  }

  lemma NothingCached(entries: map<FileId, Entry>, lru: seq<FileId>, total: int)
    requires Consistent(entries, lru, total)
    ensures lru == [] ==> entries == map[] && total == 0
  {
    if lru == [] {
      assert entries.Keys == {};
    }
  }
}
