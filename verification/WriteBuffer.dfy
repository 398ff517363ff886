/** Small writes are gathered in one buffer before they reach the file. */
module WriteBuffer {
  import opened Bytes
  import opened FileContents

  class File {
    var contents: bytes

    constructor ()
      ensures contents == []
    {
      contents := [];
    }

    method WriteAt(p: bytes, off: nat)
      modifies this
      ensures contents == Put(old(contents), off, p)
    {
      contents := Put(contents, off, p);
    }
  }

  class Buffer {
    const w: File
    const buf: array<byte>
    var start: nat
    var used: nat
    var dirty: bool

    ghost predicate Valid()
      reads this
    {
      used <= buf.Length && (dirty <==> used > 0)
    }

    /** The file with the buffered bytes laid over it. */
    ghost function Seen(): bytes
      reads this, buf, w
      requires Valid()
    {
      Put(w.contents, start, buf[..used])
    }

    /** Where the buffered bytes belong, and the bytes. */
    ghost function Buffered(): (nat, bytes)
      reads this, buf
      requires Valid()
    {
      (start, buf[..used])
    }

    constructor (w: File, size: nat)
      ensures Valid() && this.w == w && fresh(buf) && buf.Length == size && used == 0
      ensures Seen() == w.contents
    {
      this.w := w;
      buf := new byte[size];
      start, used, dirty := 0, 0, false;
    }

    method FlushNow()
      requires Valid()
      modifies this, w
      ensures Valid() && used == 0 && start == old(start)
      ensures w.contents == old(Seen()) && Seen() == old(Seen())
    {
      w.WriteAt(buf[..used], start);
      used, dirty := 0, false;
    }

    method Flush()
      requires Valid()
      modifies this, w
      ensures Valid() && used == 0 && w.contents == old(Seen()) && Seen() == old(Seen())
    {
      if !dirty {
        return;
      }
      FlushNow();
    }

    /** Buffered bytes are forgotten. */
    method Discard()
      requires Valid()
      modifies this
      ensures Valid() && Seen() == w.contents
    {
      used, dirty := 0, false;
    }

    method Fill(at: nat, p: bytes)
      requires at + |p| <= buf.Length
      modifies buf
      ensures buf[..at + |p|] == old(buf[..at]) + p
    {
      forall k | 0 <= k < |p| {
        buf[at + k] := p[k];
      }
    }

    /** As much as fits is appended when the write starts where the buffered bytes end. */
    method Coalesce(p: bytes, offset: nat) returns (n: nat)
      requires Valid() && p != [] && offset == start + used && used < buf.Length
      modifies this, buf, w
      ensures Valid() && 0 < n <= |p|
      ensures Seen() == Put(old(Seen()), offset, p[..n])
      ensures n < |p| ==> used == 0
      ensures n == Min(|p|, buf.Length - old(used))
      ensures if old(used) + |p| < buf.Length
              then w.contents == old(w.contents) && start == old(start) && buf[..used] == old(buf[..used]) + p
              else used == 0 && w.contents == Seen()
    {
      hide Put;
      n := buf.Length - used;
      if n > |p| {
        n := |p|;
      }
      dirty := true;
      PutConcat(w.contents, start, buf[..used], p[..n]);
      Fill(used, p[..n]);
      used := used + n;
      if used == buf.Length {
        FlushNow();
      }
    }

    /** After every write the file shows what writing directly would have made of it. */
    method WriteAt(p: bytes, offset: nat) returns (wrote: nat)
      requires Valid()
      modifies this, buf, w
      ensures Valid() && wrote == |p|
      ensures Seen() == Put(old(Seen()), offset, p)
      ensures p == [] ==> Buffered() == old(Buffered()) && w.contents == old(w.contents)
      ensures p != [] && offset == old(start + used) && old(used) + |p| < buf.Length ==>
                w.contents == old(w.contents) && Buffered() == (old(start), old(buf[..used]) + p)
      ensures p != [] && offset == old(start + used) && old(used) + |p| >= buf.Length ==>
                var n := buf.Length - old(used);
                if |p| - n < buf.Length
                then w.contents == Put(old(Seen()), offset, p[..n]) && buf[..used] == p[n..] && (used > 0 ==> start == offset + n)
                else w.contents == Seen() && used == 0
      ensures p != [] && offset != old(start + used) ==>
                if |p| < buf.Length then w.contents == old(Seen()) && Buffered() == (offset, p)
                else w.contents == Seen() && used == 0
    {
      hide Put;
      wrote := |p|;
      if p == [] {
        return;
      }
      var rest, off := p, offset;
      ghost var before := Seen();
      if offset == start + used && used < buf.Length {
        var n := Coalesce(p, offset);
        assert p[..|p|] == p;
        if n == |p| {
          return;
        }
        rest, off := p[n..], offset + n;
        assert p == p[..n] + rest;
        PutConcat(before, offset, p[..n], rest);
      }
      if dirty {
        FlushNow();
      }
      assert w.contents == Seen() by { assert buf[..0] == []; }
      if |rest| >= buf.Length {
        w.WriteAt(rest, off);
        assert buf[..0] == [];
        return;
      }
      start := off;
      Fill(0, rest);
      used, dirty := |rest|, true;
      assert buf[..used] == rest;
    }
  }
}
