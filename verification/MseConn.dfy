/** The two ends of a connection: raw reads in arbitrary pieces and the encrypted stream on top. */
module MseConn {
  import opened Bytes
  import opened MseSpec

  /**
    One end of a connection. `incoming` is what the peer sends and this end has
    not read yet; a read gets an arbitrary non-empty part of it.
   */
  class Wire {
    var incoming: seq<byte>
    var written: seq<byte>

    constructor (incoming: seq<byte>)
      ensures this.incoming == incoming && written == []
    {
      this.incoming := incoming;
      written := [];
    }

    method Read(max: nat) returns (chunk: seq<byte>, ok: bool)
      modifies this`incoming
      ensures chunk + incoming == old(incoming) && |chunk| <= max
      ensures ok <==> max == 0 || old(incoming) != []
      ensures ok && max > 0 ==> |chunk| > 0
    {
      if max == 0 {
        return [], true;
      }
      if incoming == [] {
        return [], false;
      }
      var n: nat :| 1 <= n <= max && n <= |incoming|;
      chunk, incoming := incoming[..n], incoming[n..];
      ok := true;
    }

    method Write(b: seq<byte>)
      modifies this`written
      ensures written == old(written) + b
    {
      written := written + b;
    }
  }

  method ReadExact(w: Wire, n: nat) returns (r: Result<seq<byte>>)
    modifies w`incoming
    ensures r.Ok? <==> |old(w.incoming)| >= n
    ensures r.Ok? ==> r.value == old(w.incoming)[..n] && w.incoming == old(w.incoming)[n..]
  {
    var buf: seq<byte> := [];
    while |buf| < n
      invariant buf + w.incoming == old(w.incoming) && |buf| <= n
      decreases n - |buf|
    {
      var chunk, ok := w.Read(n - |buf|);
      if !ok {
        return Err;
      }
      buf := buf + chunk;
    }
    assert buf == old(w.incoming)[..n];
    r := Ok(buf);
  }

  /** Reads on until the buffer holds `need` bytes, never more than that. */
  method ReadUntil(w: Wire, buf: seq<byte>, need: nat) returns (r: Result<seq<byte>>)
    modifies w`incoming
    ensures r.Ok? <==> |buf| + |old(w.incoming)| >= need
    ensures r.Ok? ==> r.value + w.incoming == buf + old(w.incoming) && |r.value| == Max(|buf|, need) && buf <= r.value
  {
    var b := buf;
    while |b| < need
      invariant b + w.incoming == buf + old(w.incoming) && |b| <= Max(|buf|, need) && buf <= b
      decreases need - |b|
    {
      var chunk, ok := w.Read(Min(need - |b|, 512));
      if !ok {
        assert |b + w.incoming| == |buf + old(w.incoming)|;
        return Err;
      }
      b := b + chunk;
    }
    assert |b + w.incoming| == |buf + old(w.incoming)|;
    r := Ok(b);
  }

  /** `bytes.Index`. */
  method Index(s: seq<byte>, marker: seq<byte>) returns (i: Option<nat>)
    ensures i.Some? ==> FirstAt(s, marker, i.value)
    ensures i.None? ==> forall j: nat :: !OccursAt(s, marker, j)
  {
    var k := 0;
    while k + |marker| <= |s|
      invariant forall j :: 0 <= j < k ==> !OccursAt(s, marker, j)
    {
      if s[k..k + |marker|] == marker {
        return Some(k);
      }
      k := k + 1;
    }
    i := None;
  }

  /** What is first in a stream is first in every prefix that holds it. */
  lemma FirstInPrefix(buf: seq<byte>, s: seq<byte>, marker: seq<byte>, i: nat)
    requires buf <= s && i + |marker| <= |buf|
    ensures FirstAt(buf, marker, i) <==> FirstAt(s, marker, i)
  {
    forall j: nat | j + |marker| <= |buf|
      ensures OccursAt(buf, marker, j) <==> OccursAt(s, marker, j)
    {
      assert buf[j..j + |marker|] == s[j..j + |marker|];
    }
  }

  /**
    Reads until the marker turns up or `limit` bytes have gone by without it. A
    marker that ends within the limit is found however the reads fall.
   */
  method SearchMarker(w: Wire, marker: seq<byte>, limit: nat) returns (r: Result<(seq<byte>, nat)>)
    requires |marker| > 0 && limit > 0
    modifies w`incoming
    ensures r.Ok? ==>
      && r.value.0 + w.incoming == old(w.incoming)
      && FirstAt(old(w.incoming), marker, r.value.1)
      && r.value.1 + |marker| <= |r.value.0|
      && r.value.1 + |marker| < limit + 1024
    ensures (exists i: nat :: FirstAt(old(w.incoming), marker, i) && i + |marker| <= limit) ==> r.Ok?
  {
    ghost var s := w.incoming;
    var buf: seq<byte> := [];
    while true
      invariant buf + w.incoming == s && |buf| < limit
      invariant forall j: nat :: !OccursAt(buf, marker, j)
      decreases |w.incoming|
    {
      var chunk, ok := w.Read(1024);
      if !ok {
        assert buf == s;
        return Err;
      }
      buf := buf + chunk;
      var i := Index(buf, marker);
      if i.Some? {
        FirstInPrefix(buf, s, marker, i.value);
        return Ok((buf, i.value));
      }
      if |buf| >= limit {
        forall k: nat | FirstAt(s, marker, k) && k + |marker| <= limit
          ensures false
        {
          FirstInPrefix(buf, s, marker, k);
        }
        return Err;
      }
    }
  }

  /** A connection after the handshake; `pending` is decrypted but not yet handed out. */
  class Conn {
    const crypto: Crypto
    const wire: Wire
    var encKey: seq<byte>
    var encPos: nat
    var decKey: seq<byte>
    var decPos: nat
    var pending: seq<byte>

    constructor (crypto: Crypto, wire: Wire, encKey: seq<byte>, encPos: nat, decKey: seq<byte>, decPos: nat, pending: seq<byte>)
      ensures this.crypto == crypto && this.wire == wire && this.encKey == encKey && this.encPos == encPos
      ensures this.decKey == decKey && this.decPos == decPos && this.pending == pending
    {
      this.crypto, this.wire := crypto, wire;
      this.encKey, this.encPos := encKey, encPos;
      this.decKey, this.decPos := decKey, decPos;
      this.pending := pending;
    }

    /** The plain text this end has yet to read. */
    ghost function Unread(): seq<byte>
      reads this, wire
    {
      pending + Crypt(crypto, decKey, decPos, wire.incoming)
    }

    method Read(max: nat) returns (b: seq<byte>, ok: bool)
      modifies this`pending, this`decPos, wire`incoming
      ensures b + Unread() == old(Unread()) && |b| <= max
      ensures ok && max > 0 ==> |b| > 0
      ensures !ok ==> old(Unread()) == []
      ensures decPos + |wire.incoming| == old(decPos + |wire.incoming|)
    {
      if |pending| > 0 {
        var n := Min(max, |pending|);
        b, ok := pending[..n], true;
        pending := pending[n..];
        return;
      }
      b, ok := wire.Read(max);
      if |b| > 0 {
        CryptConcat(crypto, decKey, decPos, b, wire.incoming);
        b := Crypt(crypto, decKey, decPos, b);
        decPos := decPos + |b|;
      }
    }

    method Write(b: seq<byte>)
      modifies this`encPos, wire`written
      ensures wire.written == old(wire.written) + Crypt(crypto, encKey, old(encPos), b)
      ensures encPos == old(encPos) + |b|
    {
      if |b| == 0 {
        return;
      }
      wire.Write(Crypt(crypto, encKey, encPos, b));
      encPos := encPos + |b|;
    }
  }

  /** Cipher text that follows what is already on the wire reads as its plain text. */
  lemma Delivered(c: Crypto, key: seq<byte>, pos: nat, incoming: seq<byte>, b: seq<byte>)
    ensures Crypt(c, key, pos, incoming + Crypt(c, key, pos + |incoming|, b)) == Crypt(c, key, pos, incoming) + b
  {
    hide Crypt;
    CryptConcat(c, key, pos, incoming, Crypt(c, key, pos + |incoming|, b));
    CryptTwice(c, key, pos + |incoming|, b);
  }

  lemma Regroup(all: seq<byte>, done: seq<byte>, b: seq<byte>, rest: seq<byte>, unread: seq<byte>)
    requires all == done + unread && b + rest == unread
    ensures all == (done + b) + rest && done + b <= all
  {
  }

  /**
    One direction between two ends whose ciphers are aligned: whatever was sent
    is what was received followed by what is still unread.
   */
  class Link {
    const from: Conn
    const to: Conn
    ghost var sent: seq<byte>
    ghost var received: seq<byte>

    ghost predicate Valid()
      reads this, from, to, from.wire, to.wire
    {
      && from != to && from.wire != to.wire && from.crypto == to.crypto
      && from.encKey == to.decKey
      && to.decPos + |to.wire.incoming| == from.encPos
      && sent == received + to.Unread()
    }

    constructor (from: Conn, to: Conn)
      requires from != to && from.wire != to.wire && from.crypto == to.crypto
      requires from.encKey == to.decKey && to.decPos + |to.wire.incoming| == from.encPos
      ensures Valid() && this.from == from && this.to == to && received == [] && sent == to.Unread()
    {
      this.from, this.to := from, to;
      received := [];
      sent := to.Unread();
      new;
      assert sent == received + to.Unread();
    }

    /** A write and the delivery of its cipher text. */
    method Send(b: seq<byte>)
      requires Valid()
      modifies this`sent, from`encPos, from.wire`written, to.wire`incoming
      ensures Valid() && sent == old(sent) + b && received == old(received)
    {
      hide Crypt;
      var start := |from.wire.written|;
      ghost var before := to.Unread();
      from.Write(b);
      Delivered(to.crypto, to.decKey, to.decPos, to.wire.incoming, b);
      to.wire.incoming := to.wire.incoming + from.wire.written[start..];
      sent := sent + b;
      assert to.Unread() == before + b;
    }

    method Receive(max: nat) returns (b: seq<byte>, ok: bool)
      requires Valid()
      modifies this`received, to`pending, to`decPos, to.wire`incoming
      ensures Valid() && received == old(received) + b && sent == old(sent)
      ensures received <= sent
      ensures max > 0 && received != sent ==> |b| > 0
    {
      ghost var before, unread := received, to.Unread();
      b, ok := to.Read(max);
      received := received + b;
      Regroup(sent, before, b, to.Unread(), unread);
    }
  }
}
