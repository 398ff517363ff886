/** Both sides of the handshake, and what they are for each other. */
module MseHandshake {
  import opened Bytes
  import opened Arithmetic
  import opened MseSpec
  import opened MseConn

  const INITIATOR_LIMIT: nat := 520
  const RECEIVER_LIMIT: nat := 532

  /** The encrypted verification constant: the marker the initiator looks for. */
  function Marker(c: Crypto, key: seq<byte>): (m: seq<byte>)
    ensures |m| == VC_LENGTH
  {
    Crypt(c, key, RC4_DISCARD, Zeros(VC_LENGTH))
  }

  /** Decrypts the header of a buffered stream piece by piece, as the cipher advances. */
  method ReadHeader(c: Crypto, key: seq<byte>, s: seq<byte>) returns (n: Result<nat>)
    requires |s| >= 14
    ensures n == HeaderLength(Crypt(c, key, RC4_DISCARD, s))
  {
    ghost var plain := Crypt(c, key, RC4_DISCARD, s);
    CryptSlice(c, key, RC4_DISCARD, s, 0, VC_LENGTH);
    CryptSlice(c, key, RC4_DISCARD, s, 8, 12);
    CryptSlice(c, key, RC4_DISCARD, s, 12, 14);
    var vc := Crypt(c, key, RC4_DISCARD, s[0..VC_LENGTH]);
    assert plain[..VC_LENGTH] == plain[0..VC_LENGTH] == vc;
    if vc != Zeros(VC_LENGTH) {
      return Err;
    }
    var crypto := Crypt(c, key, RC4_DISCARD + 8, s[8..12]);
    assert plain[11] == plain[8..12][3] == crypto[3];
    if !HasArc4(crypto[3]) {
      return Err;
    }
    var length := Crypt(c, key, RC4_DISCARD + 12, s[12..14]);
    assert plain[12] == plain[12..14][0] == length[0] && plain[13] == plain[12..14][1] == length[1];
    if Number(length, 0) > MAX_PAD {
      return Err;
    }
    n := Ok(14 + Number(length, 0));
  }

  /** A header of a prefix is the header of the whole stream. */
  lemma HeaderOfPrefix(c: Crypto, key: seq<byte>, buf: seq<byte>, s: seq<byte>)
    requires buf <= s && |buf| >= 14
    ensures HeaderLength(Crypt(c, key, RC4_DISCARD, buf)) == HeaderLength(Crypt(c, key, RC4_DISCARD, s))
  {
    assert Crypt(c, key, RC4_DISCARD, buf)[..VC_LENGTH] == Crypt(c, key, RC4_DISCARD, s)[..VC_LENGTH];
  }

  /** What is left of a stream once the first n plain bytes are used up and `buf` has been read. */
  lemma PendingRest(c: Crypto, key: seq<byte>, s: seq<byte>, buf: seq<byte>, incoming: seq<byte>, n: nat)
    requires s == buf + incoming && n <= |buf|
    ensures Crypt(c, key, RC4_DISCARD + n, buf[n..]) + Crypt(c, key, RC4_DISCARD + |buf|, incoming)
         == Crypt(c, key, RC4_DISCARD, s)[n..]
  {
    CryptSlice(c, key, RC4_DISCARD, s, n, |s|);
    assert s[n..|s|] == buf[n..] + incoming;
    CryptConcat(c, key, RC4_DISCARD + n, buf[n..], incoming);
  }

  datatype Cipher = Cipher(pos: nat, pending: seq<byte>)

  /** The plain text still to come, given the state of the decrypting cipher. */
  ghost function Rest(c: Crypto, key: seq<byte>, d: Cipher, incoming: seq<byte>): seq<byte> {
    d.pending + Crypt(c, key, d.pos, incoming)
  }

  /** `buf0` starts at the marker. */
  method ParseInitiatorReceive(c: Crypto, w: Wire, key: seq<byte>, buf0: seq<byte>) returns (r: Result<Cipher>)
    modifies w`incoming
    ensures var s := buf0 + old(w.incoming);
      && (match InitiatorParse(Crypt(c, key, RC4_DISCARD, s))
          case Err => r.Err?
          case Ok(payload) => r.Ok? && Rest(c, key, r.value, w.incoming) == payload)
      && (r.Ok? ==> r.value.pos + |w.incoming| == RC4_DISCARD + |s|)
  {
    hide Crypt;
    ghost var s := buf0 + w.incoming;
    var got := ReadUntil(w, buf0, 14);
    if got.Err? {
      return Err;
    }
    var buf := got.value;
    HeaderOfPrefix(c, key, buf, s);
    var n := ReadHeader(c, key, buf);
    if n.Err? {
      return Err;
    }
    got := ReadUntil(w, buf, n.value);
    if got.Err? {
      return Err;
    }
    buf := got.value;
    PendingRest(c, key, s, buf, w.incoming, n.value);
    r := Ok(Cipher(RC4_DISCARD + |buf|, Crypt(c, key, RC4_DISCARD + n.value, buf[n.value..])));
  }

  /** The keys of one side: for what it sends and for what it receives. */
  function InitiatorKeys(c: Crypto, secret: seq<byte>, ih: Hash): (seq<byte>, seq<byte>) {
    (DeriveKey(c, KEY_A, secret, ih), DeriveKey(c, KEY_B, secret, ih))
  }

  function ReceiverKeys(c: Crypto, secret: seq<byte>, ih: Hash): (seq<byte>, seq<byte>) {
    (DeriveKey(c, KEY_B, secret, ih), DeriveKey(c, KEY_A, secret, ih))
  }

  /** What a side waits for before it sends anything that depends on the other's key. */
  predicate HasValidKey(s: seq<byte>) {
    |s| >= KEY_LENGTH && ValidKey(FromBytes(s[..KEY_LENGTH]))
  }

  /** The stream s holds a valid key, and the first marker behind it, at i, is followed by `payload`. */
  ghost predicate InitiatorAccepts(c: Crypto, ih: Hash, priv: nat, s: seq<byte>, i: nat, payload: seq<byte>) {
    && |s| >= KEY_LENGTH
    && var peer := FromBytes(s[..KEY_LENGTH]);
    && ValidKey(peer)
    && var key := DeriveKey(c, KEY_B, Secret(peer, priv), ih);
    && var rest := s[KEY_LENGTH..];
    && FirstAt(rest, Marker(c, key), i)
    && InitiatorParse(Crypt(c, key, RC4_DISCARD, rest[i..])) == Ok(payload)
  }

  method InitiateHandshake(c: Crypto, w: Wire, ih: Hash, priv: nat, padA: seq<byte>, padC: seq<byte>) returns (r: Result<Conn>)
    requires |padA| <= MAX_PAD && |padC| <= MAX_PAD
    modifies w
    ensures r.Ok? ==> fresh(r.value) && r.value.wire == w && r.value.crypto == c
    ensures r.Ok? ==> exists i: nat :: i < 1536 && InitiatorAccepts(c, ih, priv, old(w.incoming), i, r.value.Unread())
    ensures r.Ok? ==>
      var secret := Secret(FromBytes(old(w.incoming)[..KEY_LENGTH]), priv);
      && w.written == old(w.written) + EncodeKey(PublicKey(priv)) + InitiatorStep2(c, secret, ih, padA, ARC4_ONLY, padC, [])
      && (r.value.encKey, r.value.decKey) == InitiatorKeys(c, secret, ih)
      && r.value.encPos == RC4_DISCARD + |InitiatorBlob(ARC4_ONLY, padC, [])|
    ensures r.Ok? ==> forall i: nat :: InitiatorAccepts(c, ih, priv, old(w.incoming), i, r.value.Unread()) ==>
      r.value.decPos + |w.incoming| == RC4_DISCARD + |old(w.incoming)| - KEY_LENGTH - i
    ensures forall i: nat, payload: seq<byte> ::
      InitiatorAccepts(c, ih, priv, old(w.incoming), i, payload) && i <= 512 ==> r.Ok?
    ensures r.Err? && !HasValidKey(old(w.incoming)) ==> w.written == old(w.written) + EncodeKey(PublicKey(priv))
    ensures r.Err? && HasValidKey(old(w.incoming)) ==>
      var secret := Secret(FromBytes(old(w.incoming)[..KEY_LENGTH]), priv);
      w.written == old(w.written) + EncodeKey(PublicKey(priv)) + InitiatorStep2(c, secret, ih, padA, ARC4_ONLY, padC, [])
  {
    w.Write(EncodeKey(PublicKey(priv)));
    var raw := ReadExact(w, KEY_LENGTH);
    if raw.Err? {
      return Err;
    }
    var peer := FromBytes(raw.value);
    if !ValidKey(peer) {
      return Err;
    }
    var secret := Secret(peer, priv);
    var (encKey, decKey) := InitiatorKeys(c, secret, ih);
    w.Write(InitiatorStep2(c, secret, ih, padA, ARC4_ONLY, padC, []));
    ghost var rest := w.incoming;
    var found := SearchMarker(w, Marker(c, decKey), INITIATOR_LIMIT);
    if found.Err? {
      return Err;
    }
    var (buf, idx) := found.value;
    assert rest[idx..] == buf[idx..] + w.incoming;
    FirstUnique(rest, Marker(c, decKey), idx);
    var d := ParseInitiatorReceive(c, w, decKey, buf[idx..]);
    if d.Err? {
      return Err;
    }
    var conn := new Conn(c, w, encKey, RC4_DISCARD + |InitiatorBlob(ARC4_ONLY, padC, [])|, decKey, d.value.pos, d.value.pending);
    assert InitiatorAccepts(c, ih, priv, old(w.incoming), idx, conn.Unread());
    r := Ok(conn);
  }

  // ----- The receiving side -----

  /** Compares the received hash with each candidate's in turn. */
  method FindHash(c: Crypto, secret: seq<byte>, req23: seq<byte>, candidates: seq<Hash>) returns (r: Result<Hash>)
    ensures r == MatchHash(c, secret, req23, candidates)
  {
    var k := 0;
    while k < |candidates|
      invariant 0 <= k <= |candidates|
      invariant MatchHash(c, secret, req23, candidates) == MatchHash(c, secret, req23, candidates[k..])
    {
      if req23 == Req23(c, candidates[k], secret) {
        return Ok(candidates[k]);
      }
      k := k + 1;
    }
    r := Err;
  }

  datatype Accepted = Accepted(ia: seq<byte>, cipher: Cipher)

  /** The encrypted part of the initiator's message, from the start of `buf0`: header, padding, initial payload. */
  method ParsePayload(c: Crypto, w: Wire, key: seq<byte>, buf0: seq<byte>) returns (r: Result<Accepted>)
    modifies w`incoming
    ensures var s := buf0 + old(w.incoming);
      && (match ReceiverPayload(Crypt(c, key, RC4_DISCARD, s))
          case Err => r.Err?
          case Ok(p) => r.Ok? && r.value.ia == p.0 && Rest(c, key, r.value.cipher, w.incoming) == p.1)
      && (r.Ok? ==> r.value.cipher.pos + |w.incoming| == RC4_DISCARD + |s|)
  {
    hide Crypt;
    ghost var s := buf0 + w.incoming;
    ghost var plain := Crypt(c, key, RC4_DISCARD, s);
    var got := ReadUntil(w, buf0, 14);
    if got.Err? {
      return Err;
    }
    var buf := got.value;
    HeaderOfPrefix(c, key, buf, s);
    var h := ReadHeader(c, key, buf);
    if h.Err? {
      return Err;
    }
    var n := h.value;
    got := ReadUntil(w, buf, n + 2);
    if got.Err? {
      return Err;
    }
    buf := got.value;
    DecryptSlice(c, key, s, buf, w.incoming, n, n + 2);
    var length := Crypt(c, key, RC4_DISCARD + n, buf[n..n + 2]);
    assert plain[n] == plain[n..n + 2][0] && plain[n + 1] == plain[n..n + 2][1];
    var k := Number(length, 0);
    if k > MAX_IA {
      return Err;
    }
    var m := n + 2;
    got := ReadUntil(w, buf, m + k);
    if got.Err? {
      return Err;
    }
    buf := got.value;
    DecryptSlice(c, key, s, buf, w.incoming, m, m + k);
    var ia := Crypt(c, key, RC4_DISCARD + m, buf[m..m + k]);
    PendingRest(c, key, s, buf, w.incoming, m + k);
    r := Ok(Accepted(ia, Cipher(RC4_DISCARD + |buf|, Crypt(c, key, RC4_DISCARD + m + k, buf[m + k..]))));
  }

  lemma DecryptSlice(c: Crypto, key: seq<byte>, s: seq<byte>, buf: seq<byte>, incoming: seq<byte>, i: nat, j: nat)
    requires s == buf + incoming && i <= j <= |buf|
    ensures Crypt(c, key, RC4_DISCARD, s)[i..j] == Crypt(c, key, RC4_DISCARD + i, buf[i..j])
  {
    CryptSlice(c, key, RC4_DISCARD, s, i, j);
    assert s[i..j] == buf[i..j];
  }

  /** The stream s holds a valid key, and what follows the first marker behind it is `rec`. */
  ghost predicate ReceiverAccepts(c: Crypto, candidates: seq<Hash>, priv: nat, s: seq<byte>, i: nat, rec: Received) {
    && |s| >= KEY_LENGTH
    && var peer := FromBytes(s[..KEY_LENGTH]);
    && ValidKey(peer)
    && var secret := Secret(peer, priv);
    && var rest := s[KEY_LENGTH..];
    && FirstAt(rest, Req1(c, secret), i)
    && ReceiverParse(c, secret, candidates, rest[i + HASH_LENGTH..]) == Ok(rec)
  }

  /** `buf0` starts behind the marker. */
  method ParseReceiverReceive(c: Crypto, w: Wire, secret: seq<byte>, candidates: seq<Hash>, buf0: seq<byte>)
    returns (r: Result<(Hash, Accepted)>)
    modifies w`incoming
    ensures var s := buf0 + old(w.incoming);
      && (match ReceiverParse(c, secret, candidates, s)
          case Err => r.Err?
          case Ok(rec) =>
            && r.Ok? && r.value.0 == rec.infoHash && r.value.1.ia == rec.ia
            && Rest(c, DeriveKey(c, KEY_A, secret, rec.infoHash), r.value.1.cipher, w.incoming) == rec.payload)
      && (r.Ok? ==> r.value.1.cipher.pos + |w.incoming| == RC4_DISCARD + |s| - HASH_LENGTH)
  {
    hide Crypt;
    ghost var s := buf0 + w.incoming;
    var got := ReadUntil(w, buf0, HASH_LENGTH);
    if got.Err? {
      return Err;
    }
    var buf := got.value;
    assert s[..HASH_LENGTH] == buf[..HASH_LENGTH];
    assert s[HASH_LENGTH..] == buf[HASH_LENGTH..] + w.incoming;
    var ih := FindHash(c, secret, buf[..HASH_LENGTH], candidates);
    if ih.Err? {
      return Err;
    }
    var p := ParsePayload(c, w, DeriveKey(c, KEY_A, secret, ih.value), buf[HASH_LENGTH..]);
    if p.Err? {
      return Err;
    }
    r := Ok((ih.value, p.value));
  }

  method ReceiveHandshake(c: Crypto, w: Wire, candidates: seq<Hash>, priv: nat, padB: seq<byte>, stale: Stale, padD: seq<byte>)
    returns (r: Result<(Conn, Hash, seq<byte>)>)
    requires |padB| <= MAX_PAD && |padD| <= MAX_PAD
    modifies w
    ensures r.Ok? ==> fresh(r.value.0) && r.value.0.wire == w && r.value.0.crypto == c
    ensures r.Ok? ==> exists i: nat ::
      ReceiverAccepts(c, candidates, priv, old(w.incoming), i, Received(r.value.1, r.value.2, r.value.0.Unread())) && i < 1536
    ensures r.Ok? ==>
      var secret := Secret(FromBytes(old(w.incoming)[..KEY_LENGTH]), priv);
      && w.written == old(w.written) + EncodeKey(PublicKey(priv)) + ReceiverStep2(c, secret, r.value.1, padB, stale, padD)
      && (r.value.0.encKey, r.value.0.decKey) == ReceiverKeys(c, secret, r.value.1)
      && r.value.0.encPos == RC4_DISCARD + |ReceiverBlob(stale, padD)|
    ensures r.Ok? ==> forall i: nat, rec: Received :: ReceiverAccepts(c, candidates, priv, old(w.incoming), i, rec) ==>
      r.value.0.decPos + |w.incoming| == RC4_DISCARD + |old(w.incoming)| - KEY_LENGTH - i - 2 * HASH_LENGTH
    ensures forall i: nat, rec: Received ::
      ReceiverAccepts(c, candidates, priv, old(w.incoming), i, rec) && i <= 512 ==> r.Ok?
    ensures r.Err? ==> w.written == old(w.written) + if HasValidKey(old(w.incoming)) then EncodeKey(PublicKey(priv)) else []
  {
    hide Crypt;
    var raw := ReadExact(w, KEY_LENGTH);
    if raw.Err? {
      return Err;
    }
    var peer := FromBytes(raw.value);
    if !ValidKey(peer) {
      return Err;
    }
    var secret := Secret(peer, priv);
    w.Write(EncodeKey(PublicKey(priv)));
    ghost var rest := w.incoming;
    var found := SearchMarker(w, Req1(c, secret), RECEIVER_LIMIT);
    if found.Err? {
      return Err;
    }
    var (buf, idx) := found.value;
    assert rest[idx + HASH_LENGTH..] == buf[idx + HASH_LENGTH..] + w.incoming;
    FirstUnique(rest, Req1(c, secret), idx);
    var p := ParseReceiverReceive(c, w, secret, candidates, buf[idx + HASH_LENGTH..]);
    if p.Err? {
      return Err;
    }
    var (ih, acc) := p.value;
    var (encKey, decKey) := ReceiverKeys(c, secret, ih);
    w.Write(ReceiverStep2(c, secret, ih, padB, stale, padD));
    var conn := new Conn(c, w, encKey, RC4_DISCARD + |ReceiverBlob(stale, padD)|, decKey, acc.cipher.pos, acc.cipher.pending);
    assert ReceiverAccepts(c, candidates, priv, old(w.incoming), idx, Received(ih, acc.ia, conn.Unread()));
    r := Ok((conn, ih, acc.ia));
  }

  lemma FirstUnique(s: seq<byte>, marker: seq<byte>, i: nat)
    requires FirstAt(s, marker, i)
    ensures forall j: nat :: FirstAt(s, marker, j) ==> j == i
  {
  }
}
