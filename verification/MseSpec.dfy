/**
  Message stream encryption: the bytes the two sides of a handshake put on the
  wire and what each side makes of the bytes it receives. SHA-1 and the RC4 key
  stream are parameters.
 */
module MseSpec {
  import opened Bytes
  import opened Arithmetic

  const KEY_LENGTH: nat := 96
  const MAX_PAD: nat := 512
  const VC_LENGTH: nat := 8
  const HASH_LENGTH: nat := 20
  const MAX_IA: nat := 68
  const RC4_DISCARD: nat := 1024
  const GENERATOR: nat := 2
  const PRIME: nat := 0xFFFFFFFFFFFFFFFFC90FDAA22168C234C4C6628B80DC1CD129024E088A67CC74020BBEA63B139B22514A08798E3404DDEF9519B3CD3A431B302B0A6DF25F14374FE1356D6D51C245E485B576625E7EC6F44C42E9A63A36210000000000090563

  type Hash = s: seq<byte> | |s| == HASH_LENGTH witness Zeros(HASH_LENGTH)

  datatype Crypto = Crypto(sha1: seq<byte> -> Hash, stream: (seq<byte>, nat) -> byte)

  datatype Result<+T> = Ok(value: T) | Err

  // ----- Key exchange -----

  /** The public key as exactly 96 bytes. */
  function EncodeKey(x: nat): (s: seq<byte>)
    ensures |s| == KEY_LENGTH
  {
    var b := MinimalBytes(x);
    if |b| <= KEY_LENGTH then Zeros(KEY_LENGTH - |b|) + b else b[|b| - KEY_LENGTH..]
  }

  function PublicKey(priv: nat): nat {
    ModExp(GENERATOR, priv, PRIME)
  }

  predicate ValidKey(pub: nat) {
    2 <= pub <= PRIME - 2
  }

  function Secret(peerPub: nat, priv: nat): seq<byte> {
    EncodeKey(ModExp(peerPub, priv, PRIME))
  }

  lemma PowHalf()
    ensures Pow(256, 48) == 0x1000000000000000000000000000000000000000000000000000000000000000000000000000000000000000000000000
  {
    assert Pow(256, 3) == 0x1000000;
    PowAdd(256, 3, 3);
    PowAdd(256, 6, 6);
    PowAdd(256, 12, 12);
    PowAdd(256, 24, 24);
  }

  lemma PrimeFits(half: nat)
    requires half == 0x1000000000000000000000000000000000000000000000000000000000000000000000000000000000000000000000000
    ensures PRIME < half * half
  {
  }

  lemma PowBytes()
    ensures PRIME < Pow(256, KEY_LENGTH)
  {
    hide Pow;
    PowHalf();
    PrimeFits(Pow(256, 48));
    PowAdd(256, 48, 48);
  }

  /** A number below the prime survives the wire format. */
  lemma KeyRoundTrip(x: nat)
    requires x < PRIME
    ensures FromBytes(EncodeKey(x)) == x
  {
    PowBytes();
    MinimalLength(x, KEY_LENGTH);
    MinimalRoundTrip(x);
    LeadingZeros(KEY_LENGTH - |MinimalBytes(x)|, MinimalBytes(x));
  }

  /** Each side, from its own private key and the other's key as received, gets the same secret. */
  lemma SharedSecret(a: nat, b: nat)
    ensures Secret(FromBytes(EncodeKey(PublicKey(b))), a) == Secret(FromBytes(EncodeKey(PublicKey(a))), b)
  {
    KeyRoundTrip(PublicKey(a));
    KeyRoundTrip(PublicKey(b));
    ExchangeCommutes(GENERATOR, a, b, PRIME);
  }

  // ----- Derived values -----

  const KEY_A: seq<byte> := [107, 101, 121, 65]
  const KEY_B: seq<byte> := [107, 101, 121, 66]
  const REQ_1: seq<byte> := [114, 101, 113, 49]
  const REQ_2: seq<byte> := [114, 101, 113, 50]
  const REQ_3: seq<byte> := [114, 101, 113, 51]

  function DeriveKey(c: Crypto, prefix: seq<byte>, secret: seq<byte>, infoHash: Hash): Hash {
    c.sha1(prefix + secret + infoHash)
  }

  function Req1(c: Crypto, secret: seq<byte>): Hash {
    c.sha1(REQ_1 + secret)
  }

  function Req23(c: Crypto, infoHash: Hash, secret: seq<byte>): Hash {
    var x, y := c.sha1(REQ_2 + infoHash), c.sha1(REQ_3 + secret);
    seq(HASH_LENGTH, i requires 0 <= i < HASH_LENGTH => XorByte(x[i], y[i]))
  }

  /** The cipher with this key, `pos` bytes into its key stream, applied to data. */
  function Crypt(c: Crypto, key: seq<byte>, pos: nat, data: seq<byte>): (r: seq<byte>)
    ensures |r| == |data|
  {
    seq(|data|, i requires 0 <= i < |data| => XorByte(data[i], c.stream(key, pos + i)))
  }

  lemma CryptTwice(c: Crypto, key: seq<byte>, pos: nat, data: seq<byte>)
    ensures Crypt(c, key, pos, Crypt(c, key, pos, data)) == data
  {
    forall i | 0 <= i < |data|
      ensures Crypt(c, key, pos, Crypt(c, key, pos, data))[i] == data[i]
    {
      XorByteCancels(data[i], c.stream(key, pos + i));
    }
  }

  /** The cipher may be applied piece by piece as long as the position keeps up. */
  lemma CryptConcat(c: Crypto, key: seq<byte>, pos: nat, a: seq<byte>, b: seq<byte>)
    ensures Crypt(c, key, pos, a + b) == Crypt(c, key, pos, a) + Crypt(c, key, pos + |a|, b)
  {
  }

  lemma CryptSlice(c: Crypto, key: seq<byte>, pos: nat, data: seq<byte>, i: nat, j: nat)
    requires i <= j <= |data|
    ensures Crypt(c, key, pos, data)[i..j] == Crypt(c, key, pos + i, data[i..j])
  {
  }

  function BE16(n: nat): seq<byte>
    requires n < 65536
  {
    [n / 256, n % 256]
  }

  // ----- What goes over the wire -----

  /** A crypto field: the four bytes in which an initiator offers ciphers and a receiver selects one. */
  type Field = s: seq<byte> | |s| == 4 witness [0, 0, 0, 2]

  const ARC4_ONLY: Field := [0, 0, 0, 2]

  /** What an initiator encrypts: any offer, any padding and any initial payload. */
  function InitiatorBlob(offer: Field, padC: seq<byte>, ia: seq<byte>): seq<byte>
    requires |padC| <= MAX_PAD && |ia| <= MAX_IA
  {
    Zeros(VC_LENGTH) + offer + BE16(|padC|) + padC + BE16(|ia|) + ia
  }

  /** Everything an initiator sends after its public key, up to and with its initial payload. */
  function InitiatorStep2(c: Crypto, secret: seq<byte>, infoHash: Hash, padA: seq<byte>,
                          offer: Field, padC: seq<byte>, ia: seq<byte>): seq<byte>
    requires |padC| <= MAX_PAD && |ia| <= MAX_IA
  {
    padA + Req1(c, secret) + Req23(c, infoHash, secret)
    + Crypt(c, DeriveKey(c, KEY_A, secret, infoHash), RC4_DISCARD, InitiatorBlob(offer, padC, ia))
  }

  /** Three bytes of the crypto field that the receiver leaves as it finds them in a reused buffer. */
  type Stale = s: seq<byte> | |s| == 3 witness [0, 0, 0]

  function ReceiverBlob(stale: Stale, padD: seq<byte>): seq<byte>
    requires |padD| <= MAX_PAD
  {
    Zeros(VC_LENGTH) + stale + [2] + BE16(|padD|) + padD
  }

  /** Everything the receiver sends after its public key. */
  function ReceiverStep2(c: Crypto, secret: seq<byte>, infoHash: Hash, padB: seq<byte>, stale: Stale, padD: seq<byte>): seq<byte>
    requires |padD| <= MAX_PAD
  {
    padB + Crypt(c, DeriveKey(c, KEY_B, secret, infoHash), RC4_DISCARD, ReceiverBlob(stale, padD))
  }

  // ----- What a side makes of the stream from the marker on -----

  predicate HasArc4(b: byte) {
    b / 2 % 2 == 1
  }

  function Number(s: seq<byte>, i: nat): nat
    requires i + 2 <= |s|
  {
    var high: int := s[i];
    high * 256 + s[i + 1]
  }

  /**
    The decrypted stream behind the marker: verification constant, crypto field,
    padding with its length. The result is how much of it the header takes up.
   */
  function HeaderLength(plain: seq<byte>): Result<nat> {
    if |plain| < 14 then Err
    else if plain[..VC_LENGTH] != Zeros(VC_LENGTH) then Err
    else if !HasArc4(plain[11]) then Err
    else if Number(plain, 12) > MAX_PAD then Err
    else Ok(14 + Number(plain, 12))
  }

  /** The initiator's view: payload follows the header. */
  function InitiatorParse(plain: seq<byte>): Result<seq<byte>> {
    match HeaderLength(plain)
    case Err => Err
    case Ok(n) => if |plain| < n then Err else Ok(plain[n..])
  }

  datatype Received = Received(infoHash: Hash, ia: seq<byte>, payload: seq<byte>)

  /** The receiver's view: the header is followed by a length-prefixed initial payload. */
  function ReceiverPayload(plain: seq<byte>): Result<(seq<byte>, seq<byte>)> {
    match HeaderLength(plain)
    case Err => Err
    case Ok(n) =>
      if |plain| < n + 2 then Err
      else
        var k := Number(plain, n);
        if k > MAX_IA || |plain| < n + 2 + k then Err
        else Ok((plain[n + 2..n + 2 + k], plain[n + 2 + k..]))
  }

  /** The first candidate whose hash matches. */
  function MatchHash(c: Crypto, secret: seq<byte>, req23: seq<byte>, candidates: seq<Hash>): Result<Hash> {
    if candidates == [] then Err
    else if Req23(c, candidates[0], secret) == req23 then Ok(candidates[0])
    else MatchHash(c, secret, req23, candidates[1..])
  }

  /** The stream that follows the first marker. */
  function ReceiverParse(c: Crypto, secret: seq<byte>, candidates: seq<Hash>, s: seq<byte>): Result<Received> {
    if |s| < HASH_LENGTH then Err
    else
      match MatchHash(c, secret, s[..HASH_LENGTH], candidates)
      case Err => Err
      case Ok(ih) =>
        match ReceiverPayload(Crypt(c, DeriveKey(c, KEY_A, secret, ih), RC4_DISCARD, s[HASH_LENGTH..]))
        case Err => Err
        case Ok(p) => Ok(Received(ih, p.0, p.1))
  }

  // ----- Searching the marker -----

  predicate OccursAt(s: seq<byte>, marker: seq<byte>, i: nat) {
    i + |marker| <= |s| && s[i..i + |marker|] == marker
  }

  /** `bytes.Index`: the first occurrence. */
  ghost predicate FirstAt(s: seq<byte>, marker: seq<byte>, i: nat) {
    OccursAt(s, marker, i) && forall j :: 0 <= j < i ==> !OccursAt(s, marker, j)
  }
}
