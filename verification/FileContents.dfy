/** A file as a byte string that grows when something is written behind its end. */
module FileContents {
  import opened Bytes

  /** Byte `i` after writing `p` at `off`; what nobody wrote is zero. */
  function Over(f: bytes, off: nat, p: bytes, i: nat): byte {
    if off <= i < off + |p| then p[i - off] else if i < |f| then f[i] else 0
  }

  function Put(f: bytes, off: nat, p: bytes): (r: bytes)
    ensures p == [] ==> r == f
    ensures p != [] ==> |r| == Max(|f|, off + |p|)
  {
    if p == [] then f else seq(Max(|f|, off + |p|), i requires 0 <= i => Over(f, off, p, i))
  }

  lemma PutAt(f: bytes, off: nat, p: bytes, i: nat)
    requires p != [] && i < Max(|f|, off + |p|)
    ensures Put(f, off, p)[i] == Over(f, off, p, i)
  {
  }

  lemma OverTwice(f: bytes, off: nat, a: bytes, b: bytes, i: nat)
    requires a != [] && b != []
    ensures Over(Put(f, off, a), off + |a|, b, i) == Over(f, off, a + b, i)
  {
    if i < |Put(f, off, a)| {
      PutAt(f, off, a, i);
    }
    hide Put;
    if off <= i < off + |a| + |b| {
      assert (a + b)[i - off] == if i < off + |a| then a[i - off] else b[i - off - |a|];
    }
  }

  /** Two writes, one where the other ends, are one write. */
  lemma PutConcat(f: bytes, off: nat, a: bytes, b: bytes)
    ensures Put(Put(f, off, a), off + |a|, b) == Put(f, off, a + b)
  {
    hide Put, Over;
    if a == [] {
      assert a + b == b;
    } else if b == [] {
      assert a + b == a;
    } else {
      var r, s := Put(Put(f, off, a), off + |a|, b), Put(f, off, a + b);
      forall i | 0 <= i < |r|
        ensures r[i] == s[i]
      {
        PutAt(Put(f, off, a), off + |a|, b, i);
        PutAt(f, off, a + b, i);
        OverTwice(f, off, a, b, i);
      }
    }
  }
}
