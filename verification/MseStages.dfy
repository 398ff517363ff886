/** The stages of the handshake are those of its two methods: what each has sent, and when it is done. */
module MseStages {
  import opened Bytes
  import opened MseSpec
  import opened MseConn
  import opened MseHandshake
  import opened MseAgreement
  import opened MseProgress

  /** How many bytes of a session's handshake follow the keys. */
  function LengthsOf(s: Session): Lengths
    requires s.Sound()
  {
    Lengths(|s.AfterKeyA([])|, |s.AfterKeyB([])|)
  }

  lemma StreamParts(s: Session)
    requires s.Sound()
    ensures s.StreamA([]) == EncodeKey(PublicKey(s.privA)) + InitiatorStep2(s.crypto, s.Shared(), s.infoHash, s.padA, s.offer, s.padC, s.ia)
    ensures s.StreamB([]) == EncodeKey(PublicKey(s.privB)) + ReceiverStep2(s.crypto, s.Shared(), s.infoHash, s.padB, s.stale, s.padD)
    ensures |s.AfterKeyA([])| == |InitiatorStep2(s.crypto, s.Shared(), s.infoHash, s.padA, s.offer, s.padC, s.ia)|
    ensures |s.AfterKeyB([])| == |ReceiverStep2(s.crypto, s.Shared(), s.infoHash, s.padB, s.stale, s.padD)|
  {
    hide EncodeKey, InitiatorStep2, ReceiverStep2, Secret, PublicKey;
    assert Crypt(s.crypto, s.KeyA(), RC4_DISCARD + |s.Blob()|, []) == [];
    assert Crypt(s.crypto, s.KeyB(), RC4_DISCARD + |ReceiverBlob(s.stale, s.padD)|, []) == [];
  }

  // ----- Prefixes of a stream -----

  lemma OccursLonger(s: seq<byte>, k: nat, marker: seq<byte>, j: nat)
    requires k <= |s|
    ensures OccursAt(s[..k], marker, j) <==> OccursAt(s, marker, j) && j + |marker| <= k
  {
    if j + |marker| <= k {
      assert s[..k][j..j + |marker|] == s[j..j + |marker|];
    }
  }

  /** In a prefix the first marker is where it is in the whole stream, if the prefix reaches that far. */
  lemma MarkerInPrefix(s: seq<byte>, k: nat, marker: seq<byte>, at: nat, i: nat)
    requires k <= |s| && FirstAt(s, marker, at) && FirstAt(s[..k], marker, i)
    ensures i == at
  {
    OccursLonger(s, k, marker, i);
    if at < i {
      OccursLonger(s, k, marker, at);
    }
  }

  /** The beginning of an encrypted text decrypts to the beginning of the text. */
  lemma CryptPrefix(c: Crypto, key: seq<byte>, s: seq<byte>, m: nat)
    requires m <= |s|
    ensures Crypt(c, key, RC4_DISCARD, s[..m]) == Crypt(c, key, RC4_DISCARD, s)[..m]
  {
    CryptSlice(c, key, RC4_DISCARD, s, 0, m);
    assert s[0..m] == s[..m];
  }

  // ----- A handshake that is not complete -----

  lemma ShortReceiverBlob(stale: Stale, padD: seq<byte>, m: nat)
    requires |padD| <= MAX_PAD && m < |ReceiverBlob(stale, padD)|
    ensures InitiatorParse(ReceiverBlob(stale, padD)[..m]) == Err
  {
    var blob := ReceiverBlob(stale, padD);
    if m >= 14 {
      assert Number(blob[..m], 12) == Number(blob, 12) == |padD|;
    }
  }

  lemma ShortInitiatorBlob(offer: Field, padC: seq<byte>, ia: seq<byte>, m: nat)
    requires |padC| <= MAX_PAD && |ia| <= MAX_IA && m < |InitiatorBlob(offer, padC, ia)|
    ensures ReceiverPayload(InitiatorBlob(offer, padC, ia)[..m]) == Err
  {
    var blob := InitiatorBlob(offer, padC, ia);
    var n := 14 + |padC|;
    if m >= 14 {
      assert Number(blob[..m], 12) == Number(blob, 12) == |padC|;
    }
    if m >= n + 2 {
      assert blob[n] == BE16(|ia|)[0] && blob[n + 1] == BE16(|ia|)[1];
      assert Number(blob[..m], n) == Number(blob, n) == |ia|;
    }
  }

  /** As long as a byte of the receiver's handshake is missing the initiator accepts nothing. */
  lemma ShortForInitiator(s: Session, k: nat, i: nat, payload: seq<byte>)
    requires s.Sound() && s.NoEarlyMarker([], []) && k < |s.StreamB([])|
    ensures !InitiatorAccepts(s.crypto, s.infoHash, s.privA, s.StreamB([])[..k], i, payload)
  {
    hide Crypt, Secret, PublicKey, Marker, EncodeKey, Session.AfterKeyB, InitiatorParse, ReceiverBlob, DeriveKey;
    if k >= KEY_LENGTH {
      var stream, rest := s.StreamB([]), s.AfterKeyB([]);
      StreamKeys(s, [], []);
      BothSecrets(s);
      assert stream[..k][..KEY_LENGTH] == stream[..KEY_LENGTH];
      assert stream[..k][KEY_LENGTH..] == rest[..k - KEY_LENGTH];
      MarkerInPlace(s, []);
      var marker, m := Marker(s.crypto, s.KeyB()), k - KEY_LENGTH;
      assert FirstAt(rest, marker, |s.padB|);
      if FirstAt(rest[..m], marker, i) {
        MarkerInPrefix(rest, m, marker, |s.padB|, i);
        AfterMarkerB(s, []);
        var tail := rest[i..];
        assert rest[..m][i..] == tail[..m - i];
        CryptPrefix(s.crypto, s.KeyB(), tail, m - i);
        assert ReceiverBlob(s.stale, s.padD) + [] == ReceiverBlob(s.stale, s.padD);
        ShortReceiverBlob(s.stale, s.padD, m - i);
      }
    }
  }

  /** As long as a byte of the initiator's handshake is missing the receiver accepts nothing. */
  lemma ShortForReceiver(s: Session, candidates: seq<Hash>, k: nat, i: nat, rec: Received)
    requires s.Sound() && s.NoEarlyMarker([], []) && s.Distinguishes(candidates) && k < |s.StreamA([])|
    ensures !ReceiverAccepts(s.crypto, candidates, s.privB, s.StreamA([])[..k], i, rec)
  {
    hide Crypt, Secret, PublicKey, EncodeKey, Session.AfterKeyA, Req1, Req23, ReceiverPayload, InitiatorBlob, DeriveKey, MatchHash;
    if k >= KEY_LENGTH {
      var stream, rest := s.StreamA([]), s.AfterKeyA([]);
      StreamKeys(s, [], []);
      BothSecrets(s);
      assert stream[..k][..KEY_LENGTH] == stream[..KEY_LENGTH];
      assert stream[..k][KEY_LENGTH..] == rest[..k - KEY_LENGTH];
      AfterMarker(s, []);
      var marker, m := Req1(s.crypto, s.Shared()), k - KEY_LENGTH;
      assert FirstAt(rest, marker, |s.padA|);
      if FirstAt(rest[..m], marker, i) {
        MarkerInPrefix(rest, m, marker, |s.padA|, i);
        var tail := rest[i + HASH_LENGTH..];
        var short := rest[..m][i + HASH_LENGTH..];
        assert short == tail[..|short|];
        if |short| >= HASH_LENGTH {
          assert short[..HASH_LENGTH] == tail[..HASH_LENGTH];
          MatchesExactly(s, candidates);
          var enc := tail[HASH_LENGTH..];
          assert short[HASH_LENGTH..] == enc[..|short| - HASH_LENGTH];
          CryptPrefix(s.crypto, s.KeyA(), enc, |short| - HASH_LENGTH);
          assert s.Blob() + [] == s.Blob();
          assert |enc| == |s.Blob()|;
          ShortInitiatorBlob(s.offer, s.padC, s.ia, |short| - HASH_LENGTH);
        }
      }
    }
  }

  lemma PrefixKey(s: Session, k: nat)
    requires s.Sound()
    ensures k <= |s.StreamB([])| ==> (HasValidKey(s.StreamB([])[..k]) <==> k >= KEY_LENGTH)
    ensures k <= |s.StreamA([])| ==> (HasValidKey(s.StreamA([])[..k]) <==> k >= KEY_LENGTH)
    ensures KEY_LENGTH <= k <= |s.StreamB([])| ==> s.StreamB([])[..k][..KEY_LENGTH] == EncodeKey(PublicKey(s.privB))
    ensures KEY_LENGTH <= k <= |s.StreamA([])| ==> s.StreamA([])[..k][..KEY_LENGTH] == EncodeKey(PublicKey(s.privA))
  {
    hide PublicKey, EncodeKey, Session.AfterKeyA, Session.AfterKeyB;
    StreamKeys(s, [], []);
    KeyRoundTrip(PublicKey(s.privA));
    KeyRoundTrip(PublicKey(s.privB));
    if KEY_LENGTH <= k <= |s.StreamB([])| {
      assert s.StreamB([])[..k][..KEY_LENGTH] == s.StreamB([])[..KEY_LENGTH];
    }
    if KEY_LENGTH <= k <= |s.StreamA([])| {
      assert s.StreamA([])[..k][..KEY_LENGTH] == s.StreamA([])[..KEY_LENGTH];
    }
  }

  /** The stage a side is in after `k` bytes of the other's `after + KEY_LENGTH`. */
  function StageAt(k: nat, after: nat): nat {
    if k < KEY_LENGTH then 0 else if k < KEY_LENGTH + after then 1 else 2
  }

  /**
    This program's initiator, given the first `k` bytes of the receiver's
    handshake in any pieces: it has sent exactly what its stage allows and is done exactly when
    nothing is missing; before that its method has run out of input.
   */
  method InitiatorAt(s: Session, k: nat) returns (sent: seq<byte>, done: bool)
    requires s.Sound() && s.Own() && s.NoEarlyMarker([], []) && k <= |s.StreamB([])|
    ensures var l := LengthsOf(s);
            var st := State(StageAt(k, l.afterB), k, 0, 0);
            && (done <==> st.stageA == 2)
            && SentA(l, st) <= |s.StreamA([])| && sent == s.StreamA([])[..SentA(l, st)]
            && (!done <==> k < NeedA(l, st))
  {
    hide Crypt, Secret, PublicKey, EncodeKey, InitiatorStep2, ReceiverStep2, InitiatorAccepts;
    hide Session.AfterKeyA, Session.AfterKeyB, Session.NoEarlyMarker, HasValidKey;
    var w := new Wire(s.StreamB([])[..k]);
    StreamKeys(s, [], []);
    StreamParts(s);
    PrefixKey(s, k);
    BothSecrets(s);
    if k == |s.StreamB([])| {
      InitiatorAgrees(s, [], []);
      assert s.StreamB([])[..k] == s.StreamB([]);
    } else {
      forall i: nat, payload: seq<byte>
        ensures !InitiatorAccepts(s.crypto, s.infoHash, s.privA, s.StreamB([])[..k], i, payload)
      {
        ShortForInitiator(s, k, i, payload);
      }
    }
    var r := InitiateHandshake(s.crypto, w, s.infoHash, s.privA, s.padA, s.padC);
    sent, done := w.written, r.Ok?;
    assert s.StreamA([])[..KEY_LENGTH] == EncodeKey(PublicKey(s.privA));
    assert s.StreamA([])[..|s.StreamA([])|] == s.StreamA([]);
  }

  /** The receiver, likewise, with the first `k` bytes of the initiator's handshake. */
  method ReceiverAt(s: Session, candidates: seq<Hash>, k: nat) returns (sent: seq<byte>, done: bool)
    requires s.Sound() && s.NoEarlyMarker([], []) && k <= |s.StreamA([])|
    requires s.Distinguishes(candidates) && s.infoHash in candidates
    ensures var l := LengthsOf(s);
            var st := State(0, 0, StageAt(k, l.afterA), k);
            && (done <==> st.stageB == 2)
            && SentB(l, st) <= |s.StreamB([])| && sent == s.StreamB([])[..SentB(l, st)]
            && (!done <==> k < NeedB(l, st))
  {
    hide Crypt, Secret, PublicKey, EncodeKey, InitiatorStep2, ReceiverStep2, ReceiverAccepts;
    hide Session.AfterKeyA, Session.AfterKeyB, Session.NoEarlyMarker, Session.Distinguishes, HasValidKey;
    var w := new Wire(s.StreamA([])[..k]);
    StreamKeys(s, [], []);
    StreamParts(s);
    PrefixKey(s, k);
    BothSecrets(s);
    if k == |s.StreamA([])| {
      ReceiverAgrees(s, candidates, [], []);
      assert s.StreamA([])[..k] == s.StreamA([]);
    } else {
      forall i: nat, rec: Received
        ensures !ReceiverAccepts(s.crypto, candidates, s.privB, s.StreamA([])[..k], i, rec)
      {
        ShortForReceiver(s, candidates, k, i, rec);
      }
    }
    var r := ReceiveHandshake(s.crypto, w, candidates, s.privB, s.padB, s.stale, s.padD);
    sent, done := w.written, r.Ok?;
    if done {
      OnlyReceiverOutcome(s, candidates, [], Received(r.value.1, r.value.2, r.value.0.Unread()));
    }
    assert s.StreamB([])[..KEY_LENGTH] == EncodeKey(PublicKey(s.privB));
    assert s.StreamB([])[..|s.StreamB([])|] == s.StreamB([]);
  }

  /**
    In every interleaving of a session neither side is ahead of where its method
    is with the bytes it has received, and some side can go on until both are done.
   */
  lemma SessionProgress(s: Session, steps: seq<Step>) returns (step: Step)
    requires s.Sound() && Run(LengthsOf(s), steps)
    ensures var l, st := LengthsOf(s), After(steps);
            st.stageA <= StageAt(st.gotA, l.afterB) && st.stageB <= StageAt(st.gotB, l.afterA)
    ensures !Done(After(steps)) ==> Run(LengthsOf(s), steps + [step])
  {
    RunInv(LengthsOf(s), steps);
    step := AdvanceA;
    if !Done(After(steps)) {
      step := NoDeadlock(LengthsOf(s), steps);
    }
  }
}
