/** The two sides of the handshake together. */
module MseAgreement {
  import opened Bytes
  import opened Arithmetic
  import opened MseSpec
  import opened MseConn
  import opened MseHandshake

  /**
    What the private keys, the random paddings and the receiver's reused buffer
    decide, and what the initiator offers and sends as initial payload.
   */
  datatype Session = Session(
    crypto: Crypto, infoHash: Hash, privA: nat, privB: nat,
    padA: seq<byte>, padB: seq<byte>, padC: seq<byte>, padD: seq<byte>, stale: Stale,
    offer: Field, ia: seq<byte>)
  {
    /** Keys are valid, paddings and initial payload not too long, and ARC4, the bit of value 2, is offered. */
    predicate Sound() {
      && ValidKey(PublicKey(privA)) && ValidKey(PublicKey(privB))
      && |padA| <= MAX_PAD && |padB| <= MAX_PAD && |padC| <= MAX_PAD && |padD| <= MAX_PAD
      && |ia| <= MAX_IA && offer[3] % 4 >= 2
    }

    /** This program's own initiator offers nothing else and has no initial payload. */
    predicate Own() {
      offer == ARC4_ONLY && ia == []
    }

    function Blob(): seq<byte>
      requires |padC| <= MAX_PAD && |ia| <= MAX_IA
    {
      InitiatorBlob(offer, padC, ia)
    }

    function Shared(): seq<byte> {
      Secret(PublicKey(privB), privA)
    }

    function KeyA(): Hash {
      DeriveKey(crypto, KEY_A, Shared(), infoHash)
    }

    function KeyB(): Hash {
      DeriveKey(crypto, KEY_B, Shared(), infoHash)
    }

    /** The initiator's bytes behind its public key, when `payload` follows the handshake. */
    function AfterKeyA(payload: seq<byte>): seq<byte>
      requires |padC| <= MAX_PAD && |ia| <= MAX_IA
    {
      InitiatorStep2(crypto, Shared(), infoHash, padA, offer, padC, ia)
      + Crypt(crypto, KeyA(), RC4_DISCARD + |Blob()|, payload)
    }

    /** The receiver's bytes behind its public key, when `payload` follows the handshake. */
    function AfterKeyB(payload: seq<byte>): seq<byte>
      requires |padD| <= MAX_PAD
    {
      ReceiverStep2(crypto, Shared(), infoHash, padB, stale, padD)
      + Crypt(crypto, KeyB(), RC4_DISCARD + |ReceiverBlob(stale, padD)|, payload)
    }

    function StreamA(payload: seq<byte>): seq<byte>
      requires |padC| <= MAX_PAD && |ia| <= MAX_IA
    {
      EncodeKey(PublicKey(privA)) + AfterKeyA(payload)
    }

    function StreamB(payload: seq<byte>): seq<byte>
      requires |padD| <= MAX_PAD
    {
      EncodeKey(PublicKey(privB)) + AfterKeyB(payload)
    }

    /** Neither marker occurs by chance before its place, in particular not within the paddings. */
    ghost predicate NoEarlyMarker(payloadA: seq<byte>, payloadB: seq<byte>)
      requires Sound()
    {
      && (forall j :: 0 <= j < |padA| ==> !OccursAt(AfterKeyA(payloadA), Req1(crypto, Shared()), j))
      && (forall j :: 0 <= j < |padB| ==> !OccursAt(AfterKeyB(payloadB), Marker(crypto, KeyB()), j))
    }

    /** Different candidate hashes have different verification values. */
    ghost predicate Distinguishes(candidates: seq<Hash>) {
      forall h :: h in candidates && Req23(crypto, h, Shared()) == Req23(crypto, infoHash, Shared()) ==> h == infoHash
    }
  }

  /** Both sides compute the session's secret from the key they receive. */
  lemma BothSecrets(s: Session)
    ensures Secret(FromBytes(EncodeKey(PublicKey(s.privB))), s.privA) == s.Shared()
    ensures Secret(FromBytes(EncodeKey(PublicKey(s.privA))), s.privB) == s.Shared()
  {
    SharedSecret(s.privA, s.privB);
    KeyRoundTrip(PublicKey(s.privA));
    KeyRoundTrip(PublicKey(s.privB));
  }

  // ----- Keys that are refused -----

  /** The only numbers whose powers are all known beforehand. */
  predicate Predictable(x: nat) {
    x == 0 || x == 1 || x == PRIME - 1
  }

  lemma {:induction false} PowerOfMinusOne(m: nat, e: nat)
    requires m > 2
    ensures ModExp(m - 1, e, m) == 1 || ModExp(m - 1, e, m) == m - 1
  {
    if e > 0 {
      PowerOfMinusOne(m, e - 1);
      var r := Pow(m - 1, e - 1) % m;
      ModTimes(m - 1, Pow(m - 1, e - 1), m);
      ModSmall(m - 1, m);
      assert ((m - 1) * r) % m == 1 || ((m - 1) * r) % m == m - 1 by {
        if r == 1 {
          ModSmall(m - 1, m);
        } else {
          ModUnique((m - 1) * (m - 1), m, m - 2, 1);
        }
      }
    }
  }

  lemma {:induction false} PowerOfOne(e: nat)
    ensures Pow(1, e) == 1
  {
    if e > 0 {
      PowerOfOne(e - 1);
    }
  }

  lemma PowerStays(x: nat, priv: nat)
    requires Predictable(x)
    ensures Predictable(ModExp(x, priv, PRIME))
  {
    if x == 1 {
      PowerOfOne(priv);
    } else if x == PRIME - 1 {
      hide ModExp;
      PowerOfMinusOne(PRIME, priv);
    } else if priv > 0 {
      assert Pow(0, priv) == 0;
    }
  }

  /** A peer's key below the prime is refused exactly when it makes every secret one of three known numbers. */
  lemma RefusedKeys(pub: nat)
    ensures ValidKey(pub) <==> pub < PRIME && exists priv :: !Predictable(ModExp(pub, priv, PRIME))
  {
    if ValidKey(pub) {
      assert Pow(pub, 1) == pub * Pow(pub, 0) == pub;
      ModSmall(pub, PRIME);
      assert !Predictable(ModExp(pub, 1, PRIME));
    } else if pub < PRIME {
      forall priv
        ensures Predictable(ModExp(pub, priv, PRIME))
      {
        PowerStays(pub, priv);
      }
    }
  }

  /** Neither side goes on with such a key. */
  lemma RefusedByBoth(c: Crypto, ih: Hash, candidates: seq<Hash>, priv: nat, s: seq<byte>, i: nat, payload: seq<byte>, rec: Received)
    requires |s| >= KEY_LENGTH
    requires forall e :: FromBytes(s[..KEY_LENGTH]) >= PRIME || Predictable(ModExp(FromBytes(s[..KEY_LENGTH]), e, PRIME))
    ensures !InitiatorAccepts(c, ih, priv, s, i, payload) && !ReceiverAccepts(c, candidates, priv, s, i, rec)
  {
    hide Crypt, ModExp, FromBytes, Predictable, ValidKey, InitiatorParse, ReceiverParse;
    RefusedKeys(FromBytes(s[..KEY_LENGTH]));
  }

  // ----- Headers and payloads -----

  /** A blob and the payload behind it are one cipher text. */
  lemma OneCipherText(c: Crypto, key: seq<byte>, blob: seq<byte>, payload: seq<byte>)
    ensures Crypt(c, key, RC4_DISCARD, blob) + Crypt(c, key, RC4_DISCARD + |blob|, payload)
         == Crypt(c, key, RC4_DISCARD, blob + payload)
    ensures Crypt(c, key, RC4_DISCARD, Crypt(c, key, RC4_DISCARD, blob) + Crypt(c, key, RC4_DISCARD + |blob|, payload))
         == blob + payload
  {
    CryptConcat(c, key, RC4_DISCARD, blob, payload);
    CryptTwice(c, key, RC4_DISCARD, blob + payload);
  }

  lemma ReceiverBlobParses(stale: Stale, padD: seq<byte>, payload: seq<byte>)
    requires |padD| <= MAX_PAD
    ensures InitiatorParse(ReceiverBlob(stale, padD) + payload) == Ok(payload)
  {
    var plain := ReceiverBlob(stale, padD) + payload;
    assert plain[..VC_LENGTH] == Zeros(VC_LENGTH);
    assert Number(plain, 12) == |padD|;
    assert HeaderLength(plain) == Ok(14 + |padD|);
    assert plain[14 + |padD|..] == payload;
  }

  /** The initial payload is read back, and what follows it is left, when ARC4 is offered; else the blob is refused. */
  lemma InitiatorBlobParses(offer: Field, padC: seq<byte>, ia: seq<byte>, payload: seq<byte>)
    requires |padC| <= MAX_PAD && |ia| <= MAX_IA
    ensures ReceiverPayload(InitiatorBlob(offer, padC, ia) + payload) == if offer[3] % 4 >= 2 then Ok((ia, payload)) else Err
  {
    HeaderExact(offer, |padC|, padC + BE16(|ia|) + ia + payload);
    var plain := InitiatorBlob(offer, padC, ia) + payload;
    assert plain == Zeros(VC_LENGTH) + offer + BE16(|padC|) + (padC + BE16(|ia|) + ia + payload);
    var n := 14 + |padC|;
    assert plain[n] == BE16(|ia|)[0] && plain[n + 1] == BE16(|ia|)[1];
    assert plain[n + 2..n + 2 + |ia|] == ia;
    assert plain[n + 2 + |ia|..] == payload;
  }

  /** Any crypto field and any length: what a header is taken for. */
  lemma HeaderExact(field: Field, k: nat, rest: seq<byte>)
    requires k < 65536
    ensures HeaderLength(Zeros(VC_LENGTH) + field + BE16(k) + rest) == if field[3] % 4 >= 2 && k <= 512 then Ok(14 + k) else Err
  {
    var plain := Zeros(VC_LENGTH) + field + BE16(k) + rest;
    assert plain[..VC_LENGTH] == Zeros(VC_LENGTH);
    assert plain[11] == field[3];
    assert plain[12] == k / 256 && plain[13] == k % 256;
    assert Number(plain, 12) == k;
  }

  /** Behind a header the initiator wants the padding in full, and takes what follows as data. */
  lemma SelectExact(field: Field, k: nat, rest: seq<byte>)
    requires k < 65536
    ensures InitiatorParse(Zeros(VC_LENGTH) + field + BE16(k) + rest)
         == if field[3] % 4 >= 2 && k <= 512 && k <= |rest| then Ok(rest[k..]) else Err
  {
    HeaderExact(field, k, rest);
    var plain := Zeros(VC_LENGTH) + field + BE16(k) + rest;
    assert plain[14..] == rest;
    if k <= |rest| {
      assert plain[14 + k..] == rest[k..];
    }
  }

  /** A header is only ever seen behind the verification constant, and not before it has arrived. */
  lemma NoHeader(plain: seq<byte>)
    requires |plain| < 14 || plain[..VC_LENGTH] != Zeros(VC_LENGTH)
    ensures HeaderLength(plain) == Err && InitiatorParse(plain) == Err && ReceiverPayload(plain) == Err
  {
  }

  /** Behind a header the receiver wants padding, length and initial payload in full, and no more than 68 bytes of it. */
  lemma PayloadExact(offer: Field, padC: seq<byte>, k: nat, rest: seq<byte>)
    requires |padC| <= MAX_PAD && k < 65536
    ensures ReceiverPayload(Zeros(VC_LENGTH) + offer + BE16(|padC|) + padC + BE16(k) + rest)
         == if offer[3] % 4 >= 2 && k <= 68 && k <= |rest| then Ok((rest[..k], rest[k..])) else Err
  {
    HeaderExact(offer, |padC|, padC + BE16(k) + rest);
    var plain := Zeros(VC_LENGTH) + offer + BE16(|padC|) + padC + BE16(k) + rest;
    assert plain == Zeros(VC_LENGTH) + offer + BE16(|padC|) + (padC + BE16(k) + rest);
    var n := 14 + |padC|;
    assert plain[n] == k / 256 && plain[n + 1] == k % 256;
    assert Number(plain, n) == k && plain[n + 2..] == rest;
    if k <= |rest| {
      assert plain[n + 2..n + 2 + k] == rest[..k] && plain[n + 2 + k..] == rest[k..];
    }
  }

  /** The receiver's encrypted blob starts with the initiator's marker. */
  lemma MarkerInPlace(s: Session, payload: seq<byte>)
    requires s.Sound()
    ensures OccursAt(s.AfterKeyB(payload), Marker(s.crypto, s.KeyB()), |s.padB|)
  {
    var blob := ReceiverBlob(s.stale, s.padD);
    var enc := Crypt(s.crypto, s.KeyB(), RC4_DISCARD, blob);
    CryptSlice(s.crypto, s.KeyB(), RC4_DISCARD, blob, 0, VC_LENGTH);
    assert blob[0..VC_LENGTH] == Zeros(VC_LENGTH);
    assert s.AfterKeyB(payload)[|s.padB|..|s.padB| + VC_LENGTH] == enc[0..VC_LENGTH];
  }

  lemma AfterMarkerB(s: Session, payload: seq<byte>)
    requires s.Sound()
    ensures Crypt(s.crypto, s.KeyB(), RC4_DISCARD, s.AfterKeyB(payload)[|s.padB|..]) == ReceiverBlob(s.stale, s.padD) + payload
  {
    hide Crypt;
    var blob := ReceiverBlob(s.stale, s.padD);
    assert s.AfterKeyB(payload)[|s.padB|..]
        == Crypt(s.crypto, s.KeyB(), RC4_DISCARD, blob) + Crypt(s.crypto, s.KeyB(), RC4_DISCARD + |blob|, payload);
    OneCipherText(s.crypto, s.KeyB(), blob, payload);
  }

  /** For every chunking the initiator sees the receiver's payload and nothing else. */
  lemma InitiatorAgrees(s: Session, payloadA: seq<byte>, payload: seq<byte>)
    requires s.Sound() && s.NoEarlyMarker(payloadA, payload)
    ensures InitiatorAccepts(s.crypto, s.infoHash, s.privA, s.StreamB(payload), |s.padB|, payload)
  {
    hide Crypt, ReceiverStep2, InitiatorParse, Secret, Marker, PublicKey, Session.AfterKeyB, ReceiverBlob;
    BothSecrets(s);
    KeyRoundTrip(PublicKey(s.privB));
    var stream := s.StreamB(payload);
    assert stream[..KEY_LENGTH] == EncodeKey(PublicKey(s.privB));
    assert stream[KEY_LENGTH..] == s.AfterKeyB(payload);
    MarkerInPlace(s, payload);
    AfterMarkerB(s, payload);
    ReceiverBlobParses(s.stale, s.padD, payload);
  }

  /** Under a hash function that tells the candidates apart, the receiver finds the hash exactly if it is a candidate. */
  lemma {:induction false} MatchesExactly(s: Session, candidates: seq<Hash>)
    requires s.Distinguishes(candidates)
    ensures MatchHash(s.crypto, s.Shared(), Req23(s.crypto, s.infoHash, s.Shared()), candidates)
         == if s.infoHash in candidates then Ok(s.infoHash) else Err
    decreases |candidates|
  {
    if candidates != [] {
      assert candidates == [candidates[0]] + candidates[1..];
      MatchesExactly(s, candidates[1..]);
    }
  }

  /** Where the receiver's stream holds the marker, the hash and the encrypted part. */
  lemma AfterMarker(s: Session, payload: seq<byte>)
    requires s.Sound()
    ensures var rest := s.AfterKeyA(payload);
      && OccursAt(rest, Req1(s.crypto, s.Shared()), |s.padA|)
      && var tail := rest[|s.padA| + HASH_LENGTH..];
      && |tail| >= HASH_LENGTH
      && tail[..HASH_LENGTH] == Req23(s.crypto, s.infoHash, s.Shared())
      && Crypt(s.crypto, s.KeyA(), RC4_DISCARD, tail[HASH_LENGTH..]) == s.Blob() + payload
  {
    hide Crypt, Req23, Req1;
    var rest := s.AfterKeyA(payload);
    var blob := s.Blob();
    var req1, req23 := Req1(s.crypto, s.Shared()), Req23(s.crypto, s.infoHash, s.Shared());
    var enc := Crypt(s.crypto, s.KeyA(), RC4_DISCARD, blob) + Crypt(s.crypto, s.KeyA(), RC4_DISCARD + |blob|, payload);
    assert rest == s.padA + (req1 + (req23 + enc));
    assert rest[|s.padA|..|s.padA| + HASH_LENGTH] == req1;
    assert rest[|s.padA| + HASH_LENGTH..] == req23 + enc;
    OneCipherText(s.crypto, s.KeyA(), blob, payload);
  }

  lemma ReceiverAgrees(s: Session, candidates: seq<Hash>, payload: seq<byte>, payloadB: seq<byte>)
    requires s.Sound() && s.NoEarlyMarker(payload, payloadB)
    requires s.Distinguishes(candidates) && s.infoHash in candidates
    ensures ReceiverAccepts(s.crypto, candidates, s.privB, s.StreamA(payload), |s.padA|, Received(s.infoHash, s.ia, payload))
  {
    hide Crypt, Req23, Req1;
    BothSecrets(s);
    KeyRoundTrip(PublicKey(s.privA));
    var stream := s.StreamA(payload);
    assert stream[..KEY_LENGTH] == EncodeKey(PublicKey(s.privA));
    assert stream[KEY_LENGTH..] == s.AfterKeyA(payload);
    AfterMarker(s, payload);
    MatchesExactly(s, candidates);
    InitiatorBlobParses(s.offer, s.padC, s.ia, payload);
  }

  /** Without its hash among the candidates the initiator is turned away. */
  lemma ReceiverRejects(s: Session, candidates: seq<Hash>, payload: seq<byte>, payloadB: seq<byte>, i: nat, rec: Received)
    requires s.Sound() && s.NoEarlyMarker(payload, payloadB)
    requires s.Distinguishes(candidates) && s.infoHash !in candidates
    ensures !ReceiverAccepts(s.crypto, candidates, s.privB, s.StreamA(payload), i, rec)
  {
    hide Crypt, Req23, Req1;
    BothSecrets(s);
    KeyRoundTrip(PublicKey(s.privA));
    var stream := s.StreamA(payload);
    assert stream[..KEY_LENGTH] == EncodeKey(PublicKey(s.privA));
    assert stream[KEY_LENGTH..] == s.AfterKeyA(payload);
    AfterMarker(s, payload);
    assert FirstAt(s.AfterKeyA(payload), Req1(s.crypto, s.Shared()), |s.padA|);
    FirstUnique(s.AfterKeyA(payload), Req1(s.crypto, s.Shared()), |s.padA|);
    MatchesExactly(s, candidates);
  }

  /**
    Runs both sides, each reading in arbitrary pieces what the other writes, and
    then one payload in each direction. Both succeed and agree on the hash, what
    each wrote is what the other was reading, and the ciphers stay aligned.
   */
  method RunHandshake(s: Session, candidates: seq<Hash>, payloadA: seq<byte>, payloadB: seq<byte>)
    returns (a: Conn, b: Conn, infoHash: Hash, ia: seq<byte>)
    requires s.Sound() && s.Own() && s.NoEarlyMarker(payloadA, payloadB)
    requires s.Distinguishes(candidates) && s.infoHash in candidates
    ensures infoHash == s.infoHash && ia == []
    ensures fresh(a) && fresh(b) && fresh(a.wire) && fresh(b.wire) && a != b && a.wire != b.wire
    ensures a.crypto == b.crypto == s.crypto
    ensures a.wire.written == s.StreamA(payloadA) && b.wire.written == s.StreamB(payloadB)
    ensures a.Unread() == payloadB && b.Unread() == payloadA
    ensures a.encKey == b.decKey && b.encKey == a.decKey
    ensures b.decPos + |b.wire.incoming| == a.encPos && a.decPos + |a.wire.incoming| == b.encPos
  {
    hide Crypt, Secret, PublicKey, InitiatorStep2, ReceiverStep2, InitiatorAccepts, ReceiverAccepts;
    hide InitiatorBlob, ReceiverBlob, EncodeKey, Session.NoEarlyMarker, Session.Distinguishes;
    var wa := new Wire(s.StreamB(payloadB));
    var wb := new Wire(s.StreamA(payloadA));
    InitiatorAgrees(s, payloadA, payloadB);
    ReceiverAgrees(s, candidates, payloadA, payloadB);
    BothSecrets(s);
    StreamKeys(s, payloadA, payloadB);
    var ra := InitiateHandshake(s.crypto, wa, s.infoHash, s.privA, s.padA, s.padC);
    assert ra.Ok?;
    var rb := ReceiveHandshake(s.crypto, wb, candidates, s.privB, s.padB, s.stale, s.padD);
    assert rb.Ok?;
    a := ra.value;
    b, infoHash, ia := rb.value.0, rb.value.1, rb.value.2;
    OnlyInitiatorOutcome(s, payloadB, a.Unread());
    OnlyReceiverOutcome(s, candidates, payloadA, Received(infoHash, ia, b.Unread()));
    a.Write(payloadA);
    b.Write(payloadB);
  }

  /**
    The receiving side against any initiator, whatever it offers beside ARC4 and
    whatever it sends as initial payload: the payload is handed over, and what
    follows is read as it was sent.
   */
  method RunReceiver(s: Session, candidates: seq<Hash>, payloadA: seq<byte>, payloadB: seq<byte>)
    returns (b: Conn, infoHash: Hash, ia: seq<byte>)
    requires s.Sound() && s.NoEarlyMarker(payloadA, payloadB)
    requires s.Distinguishes(candidates) && s.infoHash in candidates
    ensures infoHash == s.infoHash && ia == s.ia
    ensures fresh(b) && fresh(b.wire) && b.crypto == s.crypto
    ensures b.wire.written == s.StreamB(payloadB) && b.Unread() == payloadA
    ensures b.encKey == s.KeyB() && b.decKey == s.KeyA()
    ensures b.decPos + |b.wire.incoming| == RC4_DISCARD + |s.Blob()| + |payloadA|
  {
    hide Crypt, Secret, PublicKey, InitiatorStep2, ReceiverStep2, ReceiverAccepts;
    hide InitiatorBlob, ReceiverBlob, EncodeKey, Session.NoEarlyMarker, Session.Distinguishes, Session.Blob;
    var wb := new Wire(s.StreamA(payloadA));
    ReceiverAgrees(s, candidates, payloadA, payloadB);
    BothSecrets(s);
    StreamKeys(s, payloadA, payloadB);
    var rb := ReceiveHandshake(s.crypto, wb, candidates, s.privB, s.padB, s.stale, s.padD);
    assert rb.Ok?;
    b, infoHash, ia := rb.value.0, rb.value.1, rb.value.2;
    OnlyReceiverOutcome(s, candidates, payloadA, Received(infoHash, ia, b.Unread()));
    b.Write(payloadB);
  }

  /** Each stream starts with the sender's key; what it holds beyond the handshake is its payload. */
  lemma StreamKeys(s: Session, payloadA: seq<byte>, payloadB: seq<byte>)
    requires s.Sound()
    ensures s.StreamA(payloadA)[..KEY_LENGTH] == EncodeKey(PublicKey(s.privA))
    ensures s.StreamB(payloadB)[..KEY_LENGTH] == EncodeKey(PublicKey(s.privB))
    ensures |s.StreamA(payloadA)| == KEY_LENGTH + |s.padA| + 2 * HASH_LENGTH + |s.Blob()| + |payloadA|
    ensures |s.StreamB(payloadB)| == KEY_LENGTH + |s.padB| + |ReceiverBlob(s.stale, s.padD)| + |payloadB|
  {
    hide Crypt, EncodeKey, InitiatorBlob, ReceiverBlob;
  }

  lemma OnlyInitiatorOutcome(s: Session, payloadB: seq<byte>, other: seq<byte>)
    requires s.Sound() && InitiatorAccepts(s.crypto, s.infoHash, s.privA, s.StreamB(payloadB), |s.padB|, payloadB)
    requires exists i: nat :: InitiatorAccepts(s.crypto, s.infoHash, s.privA, s.StreamB(payloadB), i, other)
    ensures other == payloadB
  {
    hide Crypt, Secret, PublicKey, ReceiverStep2, InitiatorParse, Session.StreamB;
    var i: nat :| InitiatorAccepts(s.crypto, s.infoHash, s.privA, s.StreamB(payloadB), i, other);
  }

  lemma OnlyReceiverOutcome(s: Session, candidates: seq<Hash>, payloadA: seq<byte>, other: Received)
    requires s.Sound()
    requires ReceiverAccepts(s.crypto, candidates, s.privB, s.StreamA(payloadA), |s.padA|, Received(s.infoHash, s.ia, payloadA))
    requires exists i: nat :: ReceiverAccepts(s.crypto, candidates, s.privB, s.StreamA(payloadA), i, other)
    ensures other == Received(s.infoHash, s.ia, payloadA)
  {
    hide Crypt, Secret, PublicKey, InitiatorStep2, ReceiverParse, Session.StreamA;
    var i: nat :| ReceiverAccepts(s.crypto, candidates, s.privB, s.StreamA(payloadA), i, other);
  }
}
