/** KRPC messages and compact node lists: what the DHT sends and how it reads it back. */
module Krpc {
  import opened Bytes
  import opened Bencode
  import opened BencodeRaw
  import opened DhtDecoder
  import opened NodeIds
  import opened RoutingSpec

  const KEY_A: bytes := [97]
  const KEY_E: bytes := [101]
  const KEY_Q: bytes := [113]
  const KEY_R: bytes := [114]
  const KEY_T: bytes := [116]
  const KEY_V: bytes := [118]
  const KEY_Y: bytes := [121]
  const KEY_ID: bytes := [105, 100]

  datatype ErrorPair = ErrorPair(code: int, text: bytes)

  /** A message; which of q, a, r and e matter is decided by its type y. */
  datatype Message = Message(
    t: bytes, y: bytes, q: bytes,
    a: Option<seq<Entry>>, r: Option<seq<Entry>>, e: Option<ErrorPair>,
    v: bytes)

  // ----- Writing -----

  function RawField(key: bytes, raw: bytes): bytes {
    PrintString(key) + raw
  }

  function TextField(key: bytes, value: bytes): bytes {
    PrintString(key) + PrintString(value)
  }

  function DictText(d: Option<seq<Entry>>): bytes {
    match d
    case None => [LETTER_D, LETTER_E]
    case Some(es) => Encode(Dict(es))
  }

  /** The fields after the ones that depend on the type. */
  function Trailer(m: Message): bytes {
    TextField(KEY_T, m.t) + TextField(KEY_V, m.v) + TextField(KEY_Y, m.y)
  }

  /** No bytes for an unknown type, or for an error message without its pair. */
  function Marshal(m: Message): Option<bytes> {
    if m.y == KEY_Q then
      Some([LETTER_D] + RawField(KEY_A, DictText(m.a)) + TextField(KEY_Q, m.q) + Trailer(m) + [LETTER_E])
    else if m.y == KEY_R then
      Some([LETTER_D] + RawField(KEY_R, DictText(m.r)) + Trailer(m) + [LETTER_E])
    else if m.y == KEY_E && m.e.Some? then
      var list := [LETTER_L, LETTER_I] + IntText(m.e.value.code) + [LETTER_E] + PrintString(m.e.value.text) + [LETTER_E];
      Some([LETTER_D] + RawField(KEY_E, list) + Trailer(m) + [LETTER_E])
    else None
  }

  // ----- Reading -----

  predicate HasNodeId(es: seq<Entry>) {
    match FindKey(es, KEY_ID)
    case None => false
    case Some(w) => w.Str? && |w.s| == ID_BYTES
  }

  function TextOf(es: seq<Entry>, key: bytes): Option<bytes> {
    match FindKey(es, key)
    case None => None
    case Some(w) => if w.Str? then Some(w.s) else None
  }

  function DictOf(es: seq<Entry>, key: bytes): Option<seq<Entry>> {
    match FindKey(es, key)
    case None => None
    case Some(w) => if w.Dict? && HasNodeId(w.entries) then Some(w.entries) else None
  }

  function PairOf(es: seq<Entry>): Option<ErrorPair> {
    match FindKey(es, KEY_E)
    case None => None
    case Some(w) =>
      if w.List? && |w.items| == 2 && w.items[0].Int? && w.items[1].Str?
      then Some(ErrorPair(w.items[0].i, w.items[1].s))
      else None
  }

  function ReadBody(es: seq<Entry>, t: bytes, y: bytes, v: bytes): Option<Message> {
    if y == KEY_Q then
      if TextOf(es, KEY_Q).Some? && DictOf(es, KEY_A).Some?
      then Some(Message(t, y, TextOf(es, KEY_Q).value, DictOf(es, KEY_A), None, None, v))
      else None
    else if y == KEY_R then
      if DictOf(es, KEY_R).Some? then Some(Message(t, y, [], None, DictOf(es, KEY_R), None, v)) else None
    else if y == KEY_E then
      if PairOf(es).Some? then Some(Message(t, y, [], None, None, PairOf(es), v)) else None
    else None
  }

  function ReadMessage(w: Value): Option<Message> {
    if !w.Dict? then None
    else
      var t, y, v := TextOf(w.entries, KEY_T), TextOf(w.entries, KEY_Y), TextOf(w.entries, KEY_V);
      if t.None? || y.None? then None
      else ReadBody(w.entries, t.value, y.value, if v.Some? then v.value else [])
  }

  /** How reading a packet ends: with a message, with an error, or by panicking. */
  datatype Reply = Decoded(message: Message) | Rejected | Crashed

  function Unmarshal(data: bytes): Reply {
    match ScanValue(data, |data|)
    case NoValue => Rejected
    case Panic => Crashed
    case Got(w, _) =>
      match ReadMessage(w)
      case None => Rejected
      case Some(m) => Decoded(m)
  }

  // ----- A message as a value -----

  function DictEntries(d: Option<seq<Entry>>): seq<Entry> {
    match d
    case None => []
    case Some(es) => es
  }

  /** The entries of a dictionary in the order they are written in. */
  function Ordered(d: Option<seq<Entry>>): seq<Entry> {
    SortEntries(NormalEntries(DictEntries(d)))
  }

  function TrailerEntries(m: Message): seq<Entry> {
    [Entry(KEY_T, Str(m.t)), Entry(KEY_V, Str(m.v)), Entry(KEY_Y, Str(m.y))]
  }

  function Envelope(m: Message): Value {
    if m.y == KEY_Q then
      Dict([Entry(KEY_A, Dict(Ordered(m.a))), Entry(KEY_Q, Str(m.q))] + TrailerEntries(m))
    else if m.y == KEY_R then
      Dict([Entry(KEY_R, Dict(Ordered(m.r)))] + TrailerEntries(m))
    else
      var pair := if m.e.Some? then m.e.value else ErrorPair(0, []);
      Dict([Entry(KEY_E, List([Int(pair.code), Str(pair.text)]))] + TrailerEntries(m))
  }

  ghost predicate FitsText(s: bytes) {
    |s| <= MAX_INT64
  }

  /** A message the process can hold: lengths and the error code fit 64 bits, keys are distinct. */
  ghost predicate WellFormedMessage(m: Message) {
    && FitsText(m.t) && FitsText(m.y) && FitsText(m.q) && FitsText(m.v)
    && WellFormed(Dict(DictEntries(m.a))) && WellFormed(Dict(DictEntries(m.r)))
    && (m.e.Some? ==> MIN_INT64 <= m.e.value.code <= MAX_INT64 && FitsText(m.e.value.text))
  }

  lemma PrintCons(e: Entry, es: seq<Entry>)
    ensures PrintEntries([e] + es) == PrintString(e.key) + Print(e.value) + PrintEntries(es)
  {
    assert ([e] + es)[1..] == es;
  }

  lemma TrailerPrinted(m: Message)
    ensures PrintEntries(TrailerEntries(m)) == Trailer(m)
  {
    hide PrintString, PrintEntries;
    var y, v, t := Entry(KEY_Y, Str(m.y)), Entry(KEY_V, Str(m.v)), Entry(KEY_T, Str(m.t));
    PrintCons(y, []);
    PrintCons(v, [y]);
    PrintCons(t, [v, y]);
    assert PrintEntries([]) == [] by { PrintNone(); }
    assert [y] + [] == [y] && [v] + [y] == [v, y] && [t] + [v, y] == TrailerEntries(m);
  }

  lemma PrintNone()
    ensures PrintEntries([]) == []
  {
  }

  lemma DictPrinted(d: Option<seq<Entry>>)
    ensures DictText(d) == Print(Dict(Ordered(d)))
  {
    if d.None? {
      PrintNone();
    }
  }

  lemma PairPrinted(code: int, text: bytes)
    ensures Print(List([Int(code), Str(text)]))
         == [LETTER_L, LETTER_I] + IntText(code) + [LETTER_E] + PrintString(text) + [LETTER_E]
  {
    hide PrintString, IntText;
    var vs := [Int(code), Str(text)];
    assert vs[1..] == [Str(text)] && vs[1..][1..] == [];
    assert PrintList(vs[1..]) == PrintString(text) + [];
    assert PrintList(vs) == Print(Int(code)) + PrintList(vs[1..]);
  }

  /** The pieces the marshaller writes are the bencoding of one dictionary. */
  lemma MarshalPrints(m: Message)
    requires Marshal(m).Some?
    ensures Marshal(m).value == Print(Envelope(m))
  {
    hide PrintString, PrintEntries, IntText, Ordered, DictText;
    TrailerPrinted(m);
    if m.y == KEY_Q {
      var q := Entry(KEY_Q, Str(m.q));
      var a := Entry(KEY_A, Dict(Ordered(m.a)));
      DictPrinted(m.a);
      PrintCons(q, TrailerEntries(m));
      PrintCons(a, [q] + TrailerEntries(m));
      assert [a] + ([q] + TrailerEntries(m)) == [a, q] + TrailerEntries(m);
    } else if m.y == KEY_R {
      DictPrinted(m.r);
      PrintCons(Entry(KEY_R, Dict(Ordered(m.r))), TrailerEntries(m));
    } else {
      PairPrinted(m.e.value.code, m.e.value.text);
      PrintCons(Entry(KEY_E, List([Int(m.e.value.code), Str(m.e.value.text)])), TrailerEntries(m));
    }
  }

  // ----- The envelope is well formed -----

  lemma WellFormedCons(e: Entry, es: seq<Entry>)
    requires FitsText(e.key) && WellFormed(e.value) && WellFormedEntries(es)
    ensures WellFormedEntries([e] + es)
  {
    assert ([e] + es)[1..] == es;
  }

  lemma TrailerWellFormed(m: Message)
    requires WellFormedMessage(m)
    ensures WellFormedEntries(TrailerEntries(m))
  {
    hide WellFormedEntries;
    var y, v, t := Entry(KEY_Y, Str(m.y)), Entry(KEY_V, Str(m.v)), Entry(KEY_T, Str(m.t));
    assert WellFormedEntries([]) by { NoEntriesWellFormed(); }
    WellFormedCons(y, []);
    assert [y] + [] == [y];
    WellFormedCons(v, [y]);
    assert [v] + [y] == [v, y];
    WellFormedCons(t, [v, y]);
    assert [t] + [v, y] == TrailerEntries(m);
  }

  lemma NoEntriesWellFormed()
    ensures WellFormedEntries([])
  {
  }

  lemma OrderedWellFormed(d: Option<seq<Entry>>)
    requires WellFormed(Dict(DictEntries(d)))
    ensures WellFormed(Dict(Ordered(d)))
  {
    NormalGood(Dict(DictEntries(d)));
  }

  lemma PairWellFormed(code: int, text: bytes)
    requires MIN_INT64 <= code <= MAX_INT64 && FitsText(text)
    ensures WellFormed(List([Int(code), Str(text)]))
  {
    var vs := [Int(code), Str(text)];
    assert vs[1..] == [Str(text)] && vs[1..][1..] == [];
    assert WellFormed(Str(text));
    assert WellFormedList(vs[1..]);
  }

  lemma EnvelopeKeys(m: Message)
    ensures DistinctKeys(Envelope(m).entries)
  {
    hide Ordered;
    assert |TrailerEntries(m)| == 3;
  }

  lemma EnvelopeWellFormed(m: Message)
    requires WellFormedMessage(m) && Marshal(m).Some?
    ensures WellFormed(Envelope(m))
  {
    hide WellFormedEntries, Ordered, DistinctKeys;
    EnvelopeKeys(m);
    TrailerWellFormed(m);
    if m.y == KEY_Q {
      QueryWellFormed(m);
    } else if m.y == KEY_R {
      OrderedWellFormed(m.r);
      WellFormedCons(Entry(KEY_R, Dict(Ordered(m.r))), TrailerEntries(m));
    } else {
      PairWellFormed(m.e.value.code, m.e.value.text);
      WellFormedCons(Entry(KEY_E, List([Int(m.e.value.code), Str(m.e.value.text)])), TrailerEntries(m));
    }
  }

  lemma QueryWellFormed(m: Message)
    requires WellFormedMessage(m) && m.y == KEY_Q
    ensures WellFormedEntries(Envelope(m).entries)
  {
    hide WellFormedEntries, Ordered, DistinctKeys;
    var q := Entry(KEY_Q, Str(m.q));
    var a := Entry(KEY_A, Dict(Ordered(m.a)));
    TrailerWellFormed(m);
    OrderedWellFormed(m.a);
    WellFormedCons(q, TrailerEntries(m));
    WellFormedCons(a, [q] + TrailerEntries(m));
    assert [a] + ([q] + TrailerEntries(m)) == [a, q] + TrailerEntries(m);
  }

  // ----- Round trip -----

  lemma FindCons(e: Entry, es: seq<Entry>, key: bytes)
    ensures FindKey([e] + es, key) == if e.key == key then Some(e.value) else FindKey(es, key)
  {
    assert ([e] + es)[1..] == es;
  }

  lemma TrailerFound(m: Message)
    ensures TextOf(TrailerEntries(m), KEY_T) == Some(m.t)
    ensures TextOf(TrailerEntries(m), KEY_V) == Some(m.v)
    ensures TextOf(TrailerEntries(m), KEY_Y) == Some(m.y)
  {
    var y, v, t := Entry(KEY_Y, Str(m.y)), Entry(KEY_V, Str(m.v)), Entry(KEY_T, Str(m.t));
    assert [y] + [] == [y] && [v] + [y] == [v, y] && [t] + [v, y] == TrailerEntries(m);
    FindCons(t, [v, y], KEY_T);
    FindCons(t, [v, y], KEY_V);
    FindCons(t, [v, y], KEY_Y);
    FindCons(v, [y], KEY_V);
    FindCons(v, [y], KEY_Y);
    FindCons(y, [], KEY_Y);
  }

  lemma OrderedFind(d: Option<seq<Entry>>)
    requires WellFormed(Dict(DictEntries(d)))
    ensures HasNodeId(Ordered(d)) <==> HasNodeId(DictEntries(d))
  {
    ChildNormal(Dict(DictEntries(d)), KEY_ID);
  }

  /** What a receiver can accept: a query or a response must carry a 20-byte node id. */
  predicate Acceptable(m: Message) {
    (m.y == KEY_Q ==> HasNodeId(DictEntries(m.a))) && (m.y == KEY_R ==> HasNodeId(DictEntries(m.r)))
  }

  /** What of a message travels: the fields of its type, dictionaries in key order. */
  function Carried(m: Message): Message {
    if m.y == KEY_Q then m.(a := Some(Ordered(m.a)), r := None, e := None)
    else if m.y == KEY_R then m.(q := [], a := None, r := Some(Ordered(m.r)), e := None)
    else m.(q := [], a := None, r := None)
  }

  lemma EnvelopeRead(m: Message)
    requires WellFormedMessage(m) && Marshal(m).Some?
    ensures ReadMessage(Envelope(m)) == if Acceptable(m) then Some(Carried(m)) else None
  {
    hide FindKey, Ordered, HasNodeId;
    TrailerFound(m);
    var tail := TrailerEntries(m);
    if m.y == KEY_Q {
      var q, a := Entry(KEY_Q, Str(m.q)), Entry(KEY_A, Dict(Ordered(m.a)));
      OrderedFind(m.a);
      assert [a] + ([q] + tail) == [a, q] + tail;
      FindCons(q, tail, KEY_T);
      FindCons(q, tail, KEY_V);
      FindCons(q, tail, KEY_Y);
      FindCons(q, tail, KEY_Q);
      FindCons(a, [q] + tail, KEY_T);
      FindCons(a, [q] + tail, KEY_V);
      FindCons(a, [q] + tail, KEY_Y);
      FindCons(a, [q] + tail, KEY_Q);
      FindCons(a, [q] + tail, KEY_A);
    } else {
      var first := Envelope(m).entries[0];
      OrderedFind(m.r);
      FindCons(first, tail, KEY_T);
      FindCons(first, tail, KEY_V);
      FindCons(first, tail, KEY_Y);
      FindCons(first, tail, first.key);
    }
  }

  /**
    What is sent is read back: an acceptable message comes out as what of it
    travels, whatever follows it in the datagram; any other is refused.
   */
  lemma MessageRoundTrip(m: Message, suffix: bytes)
    requires WellFormedMessage(m) && Marshal(m).Some? && |Marshal(m).value + suffix| <= MAX_INT64
    ensures Unmarshal(Marshal(m).value + suffix) == if Acceptable(m) then Decoded(Carried(m)) else Rejected
  {
    hide ScanValue, Print, ReadMessage, Envelope, Marshal, Carried;
    MarshalPrints(m);
    EnvelopeWellFormed(m);
    ScanPrinted(Envelope(m), suffix, |Marshal(m).value + suffix|);
    EnvelopeRead(m);
  }

  // ----- Compact node lists -----

  const COMPACT: nat := 26

  ghost predicate Addressed(info: NodeInfo) {
    |info.ip| == 4 && info.port < 0x1_0000
  }

  function Compact(info: NodeInfo): (r: bytes)
    requires Addressed(info)
    ensures |r| == COMPACT
  {
    info.id + info.ip + [info.port / 256, info.port % 256]
  }

  function CompactAll(nodes: seq<NodeInfo>): (r: bytes)
    requires forall i :: 0 <= i < |nodes| ==> Addressed(nodes[i])
    ensures |r| == COMPACT * |nodes|
  {
    if nodes == [] then [] else Compact(nodes[0]) + CompactAll(nodes[1..])
  }

  function FromCompact(chunk: bytes): (r: NodeInfo)
    requires |chunk| == COMPACT
    ensures Addressed(r)
  {
    var high: int := chunk[24];
    NodeInfo(chunk[..20], chunk[20..24], high * 256 + chunk[25])
  }

  predicate NoAddress(ip: bytes) {
    ip == [0, 0, 0, 0]
  }

  /** Entries without an address are dropped. */
  function DecodeCompact(data: bytes): (r: seq<NodeInfo>)
    requires |data| % COMPACT == 0
  {
    if data == [] then []
    else
      var info := FromCompact(data[..COMPACT]);
      (if NoAddress(info.ip) then [] else [info]) + DecodeCompact(data[COMPACT..])
  }

  function WithAddress(nodes: seq<NodeInfo>): seq<NodeInfo> {
    if nodes == [] then [] else (if NoAddress(nodes[0].ip) then [] else [nodes[0]]) + WithAddress(nodes[1..])
  }

  lemma CompactInverse(info: NodeInfo)
    requires Addressed(info)
    ensures FromCompact(Compact(info)) == info
  {
    var c := Compact(info);
    assert c[..20] == info.id && c[20..24] == info.ip;
  }

  /** The i-th node takes bytes 26 i to 26 i + 26: identifier, address and port, high byte first. */
  lemma {:induction false} CompactLayout(nodes: seq<NodeInfo>, i: nat)
    requires i < |nodes| && forall j :: 0 <= j < |nodes| ==> Addressed(nodes[j])
    ensures var part := CompactAll(nodes)[26 * i..26 * i + 26];
            && part[..20] == nodes[i].id && part[20..24] == nodes[i].ip
            && nodes[i].port == 256 * (part[24] as int) + part[25]
    decreases i
  {
    var all := CompactAll(nodes);
    if i > 0 {
      CompactLayout(nodes[1..], i - 1);
      assert all[26 * i..26 * i + 26] == all[26..][26 * (i - 1)..26 * (i - 1) + 26];
      assert all[26..] == CompactAll(nodes[1..]);
    } else {
      assert all[..26] == Compact(nodes[0]);
    }
  }

  lemma {:induction false} CompactRoundTrip(nodes: seq<NodeInfo>)
    requires forall i :: 0 <= i < |nodes| ==> Addressed(nodes[i])
    ensures |CompactAll(nodes)| % COMPACT == 0
    ensures DecodeCompact(CompactAll(nodes)) == WithAddress(nodes)
  {
    if nodes != [] {
      var all := CompactAll(nodes);
      CompactRoundTrip(nodes[1..]);
      CompactInverse(nodes[0]);
      assert all[..COMPACT] == Compact(nodes[0]) && all[COMPACT..] == CompactAll(nodes[1..]);
    }
  }

  lemma {:induction false} WithAddressShorter(nodes: seq<NodeInfo>)
    ensures |WithAddress(nodes)| <= |nodes|
    ensures WithAddress(nodes) == nodes <==> forall i :: 0 <= i < |nodes| ==> !NoAddress(nodes[i].ip)
  {
    if nodes != [] {
      WithAddressShorter(nodes[1..]);
      if NoAddress(nodes[0].ip) {
        assert |WithAddress(nodes)| < |nodes|;
      } else {
        assert nodes == [nodes[0]] + nodes[1..];
        assert (WithAddress(nodes) == nodes) == (WithAddress(nodes[1..]) == nodes[1..]) by {
          assert WithAddress(nodes)[1..] == WithAddress(nodes[1..]);
        }
      }
    }
  }

  /** A list is read back exactly when every entry has an address. */
  lemma CompactExact(nodes: seq<NodeInfo>)
    requires forall i :: 0 <= i < |nodes| ==> Addressed(nodes[i])
    ensures |CompactAll(nodes)| % COMPACT == 0
    ensures DecodeCompact(CompactAll(nodes)) == nodes <==> forall i :: 0 <= i < |nodes| ==> !NoAddress(nodes[i].ip)
  {
    CompactRoundTrip(nodes);
    WithAddressShorter(nodes);
  }

  /** The address bytes of entry `k` are not all zero. */
  predicate HasAddress(data: bytes, k: nat)
    requires COMPACT * (k + 1) <= |data|
  {
    !NoAddress(data[COMPACT * k + 20..COMPACT * k + 24])
  }

  ghost predicate AllAddressed(data: bytes) {
    forall k: nat :: COMPACT * (k + 1) <= |data| ==> HasAddress(data, k)
  }

  lemma AddressedUnfold(data: bytes)
    requires |data| >= COMPACT
    ensures AllAddressed(data) <==> !NoAddress(data[20..24]) && AllAddressed(data[COMPACT..])
  {
    var rest := data[COMPACT..];
    assert forall k: nat :: COMPACT * (k + 1) <= |rest| ==> HasAddress(rest, k) == HasAddress(data, k + 1) by {
      forall k: nat | COMPACT * (k + 1) <= |rest|
        ensures HasAddress(rest, k) == HasAddress(data, k + 1)
      {
        assert rest[COMPACT * k + 20..COMPACT * k + 24] == data[COMPACT * (k + 1) + 20..COMPACT * (k + 1) + 24];
      }
    }
    assert HasAddress(data, 0) <==> !NoAddress(data[20..24]);
    if AllAddressed(rest) && HasAddress(data, 0) {
      forall k: nat | COMPACT * (k + 1) <= |data|
        ensures HasAddress(data, k)
      {
        if k > 0 {
          assert HasAddress(rest, k - 1);
        }
      }
    }
  }

  /** Data is what encoding the decoded list gives exactly when every entry in it has an address. */
  lemma {:induction false} CompactBack(data: bytes)
    requires |data| % COMPACT == 0
    ensures forall i :: 0 <= i < |DecodeCompact(data)| ==> Addressed(DecodeCompact(data)[i])
    ensures CompactAll(DecodeCompact(data)) == data <==> AllAddressed(data)
    ensures COMPACT * |DecodeCompact(data)| == |data| <==> AllAddressed(data)
  {
    if data != [] {
      var rest := data[COMPACT..];
      CompactBack(rest);
      AddressedUnfold(data);
      var info := FromCompact(data[..COMPACT]);
      assert Compact(info) == data[..COMPACT] && info.ip == data[20..24];
      assert data == data[..COMPACT] + rest;
      hide Compact, FromCompact, AllAddressed;
      if !NoAddress(info.ip) {
        assert DecodeCompact(data)[1..] == DecodeCompact(rest);
      } else {
        DecodeShorter(rest);
      }
    }
  }

  lemma {:induction false} DecodeShorter(data: bytes)
    requires |data| % COMPACT == 0
    ensures COMPACT * |DecodeCompact(data)| <= |data|
  {
    if data != [] {
      DecodeShorter(data[COMPACT..]);
    }
  }

  lemma {:induction false} CompactAppend(nodes: seq<NodeInfo>, info: NodeInfo)
    requires forall i :: 0 <= i < |nodes| ==> Addressed(nodes[i])
    requires Addressed(info)
    ensures CompactAll(nodes + [info]) == CompactAll(nodes) + Compact(info)
  {
    if nodes == [] {
      assert nodes + [info] == [info] && [info][1..] == [];
    } else {
      assert (nodes + [info])[1..] == nodes[1..] + [info];
      CompactAppend(nodes[1..], info);
    }
  }

  /** The encoder fills a buffer of the final size, entry by entry. */
  method CompactNodes(nodes: seq<NodeInfo>) returns (out: array<byte>)
    requires forall i :: 0 <= i < |nodes| ==> Addressed(nodes[i])
    ensures fresh(out) && out[..] == CompactAll(nodes)
  {
    hide CompactAll, Compact;
    out := new byte[|nodes| * COMPACT];
    assert CompactAll([]) == [];
    for i := 0 to |nodes|
      invariant out[..COMPACT * i] == CompactAll(nodes[..i])
    {
      PutNode(out, COMPACT * i, nodes[i]);
      CompactAppend(nodes[..i], nodes[i]);
      assert nodes[..i + 1] == nodes[..i] + [nodes[i]];
      assert out[..COMPACT * (i + 1)] == out[..COMPACT * i] + out[COMPACT * i..COMPACT * i + COMPACT];
    }
    assert nodes[..|nodes|] == nodes && out[..] == out[..COMPACT * |nodes|];
  }

  method PutNode(out: array<byte>, off: nat, info: NodeInfo)
    requires Addressed(info) && off + COMPACT <= out.Length
    modifies out
    ensures out[off..off + COMPACT] == Compact(info)
    ensures out[..off] == old(out[..off])
  {
    var c := Compact(info);
    forall k | 0 <= k < COMPACT {
      out[off + k] := c[k];
    }
  }

  lemma {:induction false} DecodeAppend(data: bytes, chunk: bytes)
    requires |data| % COMPACT == 0 && |chunk| == COMPACT
    ensures DecodeCompact(data + chunk)
         == DecodeCompact(data) + (if NoAddress(FromCompact(chunk).ip) then [] else [FromCompact(chunk)])
  {
    hide DecodeCompact, FromCompact, NoAddress;
    var all := data + chunk;
    DecodeUnfold(data);
    DecodeUnfold(all);
    if data == [] {
      DecodeUnfold([]);
      assert all == chunk && chunk[..COMPACT] == chunk && chunk[COMPACT..] == [];
    } else {
      assert all[..COMPACT] == data[..COMPACT] && all[COMPACT..] == data[COMPACT..] + chunk;
      DecodeAppend(data[COMPACT..], chunk);
    }
  }

  lemma DecodeUnfold(data: bytes)
    requires |data| % COMPACT == 0
    ensures DecodeCompact(data) ==
            if data == [] then []
            else
              var info := FromCompact(data[..COMPACT]);
              (if NoAddress(info.ip) then [] else [info]) + DecodeCompact(data[COMPACT..])
  {
  }

  method DecodeCompactNodes(data: bytes) returns (r: Option<seq<NodeInfo>>)
    ensures r.Some? <==> |data| % COMPACT == 0
    ensures r.Some? ==> r.value == DecodeCompact(data)
  {
    hide DecodeCompact, FromCompact;
    if |data| % COMPACT != 0 {
      return None;
    }
    var nodes: seq<NodeInfo> := [];
    var i := 0;
    assert DecodeCompact([]) == [] by { DecodeNone(); }
    while i < |data|
      invariant 0 <= i <= |data| && i % COMPACT == 0 && nodes == DecodeCompact(data[..i])
    {
      var chunk := data[i..i + COMPACT];
      var info := FromCompact(chunk);
      DecodeAppend(data[..i], chunk);
      assert data[..i] + chunk == data[..i + COMPACT];
      if !NoAddress(info.ip) {
        nodes := nodes + [info];
      }
      i := i + COMPACT;
    }
    assert data[..i] == data;
    r := Some(nodes);
  }

  lemma DecodeNone()
    ensures DecodeCompact([]) == []
  {
  }
}
