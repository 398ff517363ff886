/** Which messages are read from a packet, in terms of the entries of its dictionary. */
module KrpcReads {
  import opened Bytes
  import opened Bencode
  import opened BencodeRaw
  import opened DhtDecoder
  import opened Krpc

  /** A name of ASCII letters as bytes. */
  function Name(s: string): (b: bytes)
    requires forall i :: 0 <= i < |s| ==> s[i] as int < 128
    ensures |b| == |s|
  {
    seq(|s|, i requires 0 <= i < |s| => s[i] as int)
  }

  /** Under `id` there is a string of 20 bytes. */
  ghost predicate CarriesId(es: seq<Entry>) {
    exists id: bytes :: |id| == 20 && Entry(Name("id"), Str(id)) in es
  }

  /** What is under `v`, if it is a string. */
  ghost predicate VersionIs(es: seq<Entry>, v: bytes) {
    if exists s: bytes :: Entry(Name("v"), Str(s)) in es then Entry(Name("v"), Str(v)) in es else v == []
  }

  ghost predicate ReadsQuery(es: seq<Entry>, m: Message) {
    && Entry(Name("q"), Str(m.q)) in es
    && m.a.Some? && Entry(Name("a"), Dict(m.a.value)) in es && CarriesId(m.a.value)
    && m.r.None? && m.e.None?
  }

  ghost predicate ReadsResponse(es: seq<Entry>, m: Message) {
    && m.r.Some? && Entry(Name("r"), Dict(m.r.value)) in es && CarriesId(m.r.value)
    && m.q == [] && m.a.None? && m.e.None?
  }

  ghost predicate ReadsError(es: seq<Entry>, m: Message) {
    && m.e.Some? && Entry(Name("e"), List([Int(m.e.value.code), Str(m.e.value.text)])) in es
    && m.q == [] && m.a.None? && m.r.None?
  }

  /** The message a dictionary with these entries stands for, in whatever order they come and whatever else is there. */
  ghost predicate Reads(es: seq<Entry>, m: Message) {
    && Entry(Name("t"), Str(m.t)) in es && Entry(Name("y"), Str(m.y)) in es && VersionIs(es, m.v)
    && if m.y == Name("q") then ReadsQuery(es, m)
       else if m.y == Name("r") then ReadsResponse(es, m)
       else m.y == Name("e") && ReadsError(es, m)
  }

  // ----- Looking up -----

  lemma FindIs(es: seq<Entry>, key: bytes, w: Value)
    requires DistinctKeys(es)
    ensures FindKey(es, key) == Some(w) <==> Entry(key, w) in es
  {
    hide FindKey, DistinctKeys;
    FindKeyIn(es, key);
  }

  lemma TextIs(es: seq<Entry>, key: bytes, s: bytes)
    requires DistinctKeys(es)
    ensures TextOf(es, key) == Some(s) <==> Entry(key, Str(s)) in es
  {
    hide FindKey, DistinctKeys;
    FindIs(es, key, Str(s));
  }

  lemma TextNone(es: seq<Entry>, key: bytes)
    requires DistinctKeys(es)
    ensures TextOf(es, key).None? <==> !(exists s: bytes :: Entry(key, Str(s)) in es)
  {
    hide TextOf, DistinctKeys;
    if TextOf(es, key).Some? {
      TextIs(es, key, TextOf(es, key).value);
    }
    if s: bytes :| Entry(key, Str(s)) in es {
      TextIs(es, key, s);
    }
  }

  lemma IdIs(es: seq<Entry>)
    requires DistinctKeys(es)
    ensures HasNodeId(es) <==> CarriesId(es)
  {
    assert Name("id") == KEY_ID;
    hide FindKey, DistinctKeys;
    if HasNodeId(es) {
      var w := FindKey(es, KEY_ID).value;
      FindIs(es, KEY_ID, Str(w.s));
    }
    if id: bytes :| |id| == 20 && Entry(Name("id"), Str(id)) in es {
      FindIs(es, KEY_ID, Str(id));
    }
  }

  lemma {:induction false} EntryWellFormed(es: seq<Entry>, e: Entry)
    requires WellFormedEntries(es) && e in es
    ensures WellFormed(e.value)
    decreases |es|
  {
    assert es == [es[0]] + es[1..];
    if e != es[0] {
      EntryWellFormed(es[1..], e);
    }
  }

  lemma DictIs(es: seq<Entry>, key: bytes, ds: seq<Entry>)
    requires WellFormed(Dict(es))
    ensures DictOf(es, key) == Some(ds) <==> Entry(key, Dict(ds)) in es && CarriesId(ds)
  {
    hide FindKey, HasNodeId, CarriesId;
    FindIs(es, key, Dict(ds));
    if Entry(key, Dict(ds)) in es {
      EntryWellFormed(es, Entry(key, Dict(ds)));
      IdIs(ds);
    }
    if DictOf(es, key) == Some(ds) {
      assert FindKey(es, key) == Some(Dict(ds));
    }
  }

  lemma PairIs(es: seq<Entry>, pair: ErrorPair)
    requires DistinctKeys(es)
    ensures PairOf(es) == Some(pair) <==> Entry(Name("e"), List([Int(pair.code), Str(pair.text)])) in es
  {
    assert Name("e") == KEY_E;
    hide FindKey, DistinctKeys;
    var w := List([Int(pair.code), Str(pair.text)]);
    FindIs(es, KEY_E, w);
    if PairOf(es) == Some(pair) {
      var l := FindKey(es, KEY_E).value;
      assert l.items == [Int(pair.code), Str(pair.text)];
    }
  }

  // ----- Reading -----

  lemma Names()
    ensures Name("a") == KEY_A && Name("e") == KEY_E && Name("q") == KEY_Q && Name("r") == KEY_R
    ensures Name("t") == KEY_T && Name("v") == KEY_V && Name("y") == KEY_Y
  {
  }

  lemma VersionRead(es: seq<Entry>, v: bytes)
    requires DistinctKeys(es)
    ensures VersionIs(es, v) <==> v == if TextOf(es, KEY_V).Some? then TextOf(es, KEY_V).value else []
  {
    hide TextOf, DistinctKeys;
    Names();
    TextNone(es, KEY_V);
    TextIs(es, KEY_V, v);
    if TextOf(es, KEY_V).Some? {
      TextIs(es, KEY_V, TextOf(es, KEY_V).value);
    }
  }

  lemma QueryRead(es: seq<Entry>, m: Message)
    requires WellFormed(Dict(es)) && m.y == KEY_Q
    ensures ReadBody(es, m.t, m.y, m.v) == Some(m) <==> ReadsQuery(es, m)
  {
    hide TextOf, DictOf, CarriesId, WellFormed;
    Names();
    assert DistinctKeys(es) by { KeysDistinct(es); }
    TextIs(es, KEY_Q, m.q);
    if m.a.Some? {
      DictIs(es, KEY_A, m.a.value);
    }
  }

  lemma KeysDistinct(es: seq<Entry>)
    requires WellFormed(Dict(es))
    ensures DistinctKeys(es)
  {
  }

  lemma ResponseRead(es: seq<Entry>, m: Message)
    requires WellFormed(Dict(es)) && m.y == KEY_R
    ensures ReadBody(es, m.t, m.y, m.v) == Some(m) <==> ReadsResponse(es, m)
  {
    hide DictOf, CarriesId, WellFormed;
    Names();
    if m.r.Some? {
      DictIs(es, KEY_R, m.r.value);
    }
  }

  lemma ErrorRead(es: seq<Entry>, m: Message)
    requires WellFormed(Dict(es)) && m.y == KEY_E
    ensures ReadBody(es, m.t, m.y, m.v) == Some(m) <==> ReadsError(es, m)
  {
    hide PairOf, WellFormed;
    Names();
    assert DistinctKeys(es) by { KeysDistinct(es); }
    if m.e.Some? {
      PairIs(es, m.e.value);
    }
  }

  lemma BodyRead(es: seq<Entry>, m: Message)
    requires WellFormed(Dict(es))
    ensures ReadBody(es, m.t, m.y, m.v) == Some(m) <==>
              if m.y == KEY_Q then ReadsQuery(es, m)
              else if m.y == KEY_R then ReadsResponse(es, m)
              else m.y == KEY_E && ReadsError(es, m)
  {
    hide ReadsQuery, ReadsResponse, ReadsError, WellFormed;
    if m.y == KEY_Q {
      QueryRead(es, m);
    } else if m.y == KEY_R {
      ResponseRead(es, m);
    } else if m.y == KEY_E {
      ErrorRead(es, m);
    }
  }

  lemma BodyKeeps(es: seq<Entry>, t: bytes, y: bytes, v: bytes)
    ensures ReadBody(es, t, y, v).Some? ==>
              var m := ReadBody(es, t, y, v).value; m.t == t && m.y == y && m.v == v
  {
  }

  lemma MessageRead(es: seq<Entry>, m: Message)
    requires WellFormed(Dict(es))
    ensures ReadMessage(Dict(es)) == Some(m) <==> Reads(es, m)
  {
    hide TextOf, ReadBody, VersionIs, ReadsQuery, ReadsResponse, ReadsError, WellFormed;
    Names();
    assert DistinctKeys(es) by { KeysDistinct(es); }
    TextIs(es, KEY_T, m.t);
    TextIs(es, KEY_Y, m.y);
    VersionRead(es, m.v);
    BodyRead(es, m);
    var t, y, v := TextOf(es, KEY_T), TextOf(es, KEY_Y), TextOf(es, KEY_V);
    if t.Some? && y.Some? {
      BodyKeeps(es, t.value, y.value, if v.Some? then v.value else []);
    }
  }

  /**
    A packet that starts with a dictionary, keys in any order, is decoded to a
    message exactly when its entries stand for that message. Whatever else it
    starts with is rejected.
   */
  lemma PacketRead(v: Value, suffix: bytes, m: Message)
    requires WellFormed(v) && |Print(v) + suffix| <= MAX_INT64
    ensures Unmarshal(Print(v) + suffix) == Decoded(m) <==> v.Dict? && Reads(v.entries, m)
    ensures Unmarshal(Print(v) + suffix) != Crashed
  {
    hide ScanValue, Print, ReadMessage, Reads, WellFormed;
    ScanPrinted(v, suffix, |Print(v) + suffix|);
    if v.Dict? {
      MessageRead(v.entries, m);
    }
    OnlyDicts(v);
  }

  lemma OnlyDicts(v: Value)
    ensures !v.Dict? ==> ReadMessage(v).None?
  {
  }

  /** It is rejected exactly when its entries stand for no message. */
  lemma PacketRejected(v: Value, suffix: bytes)
    requires WellFormed(v) && |Print(v) + suffix| <= MAX_INT64
    ensures Unmarshal(Print(v) + suffix) == Rejected <==> !(v.Dict? && exists m :: Reads(v.entries, m))
  {
    hide ScanValue, Print, Reads, WellFormed, Unmarshal;
    var r := Unmarshal(Print(v) + suffix);
    PacketRead(v, suffix, Message([], [], [], None, None, None, []));
    if r.Decoded? {
      PacketRead(v, suffix, r.message);
    }
    if v.Dict? {
      if m :| Reads(v.entries, m) {
        PacketRead(v, suffix, m);
      }
    }
  }

  // ----- Writing -----

  /** A dictionary as it travels: its keys in order, at every level. */
  function Travels(d: Option<seq<Entry>>): Value {
    Normal(Dict(if d.Some? then d.value else []))
  }

  /** The entries of the message that is written. */
  ghost predicate Written(m: Message, e: Entry) {
    || e == Entry(Name("t"), Str(m.t)) || e == Entry(Name("v"), Str(m.v)) || e == Entry(Name("y"), Str(m.y))
    || (m.y == Name("q") && (e == Entry(Name("q"), Str(m.q)) || e == Entry(Name("a"), Travels(m.a))))
    || (m.y == Name("r") && e == Entry(Name("r"), Travels(m.r)))
    || (m.y == Name("e") && m.e.Some? && e == Entry(Name("e"), List([Int(m.e.value.code), Str(m.e.value.text)])))
  }

  /** Only queries, responses and errors with their pair are written. */
  lemma MarshalsExactly(m: Message)
    ensures Marshal(m).Some? <==> m.y == Name("q") || m.y == Name("r") || (m.y == Name("e") && m.e.Some?)
  {
    Names();
    hide Trailer, DictText, IntText, PrintString;
  }

  lemma TravelsIs(d: Option<seq<Entry>>)
    ensures Dict(Ordered(d)) == Travels(d)
  {
  }

  lemma EnvelopeHas(m: Message, e: Entry)
    requires Marshal(m).Some?
    ensures e in Envelope(m).entries <==> Written(m, e)
  {
    hide Ordered, Travels, Marshal;
    MarshalsExactly(m);
    Names();
    TravelsIs(m.a);
    TravelsIs(m.r);
    TrailerHas(m, e);
  }

  lemma TrailerHas(m: Message, e: Entry)
    ensures e in TrailerEntries(m) <==>
              e == Entry(KEY_T, Str(m.t)) || e == Entry(KEY_V, Str(m.v)) || e == Entry(KEY_Y, Str(m.y))
  {
  }

  lemma EnvelopeSorted(m: Message)
    requires WellFormedMessage(m) && Marshal(m).Some?
    ensures Canonical(Envelope(m))
  {
    hide Ordered, Marshal, WellFormedMessage;
    var tail := TrailerEntries(m);
    TrailerCanonical(m);
    if m.y == KEY_Q {
      var q, a := Entry(KEY_Q, Str(m.q)), Entry(KEY_A, Dict(Ordered(m.a)));
      OrderedCanonical(m, m.a);
      CanonicalCons(q, tail);
      CanonicalCons(a, [q] + tail);
      assert [a] + ([q] + tail) == [a, q] + tail;
    } else {
      OrderedCanonical(m, m.r);
      PairCanonical(m);
      CanonicalCons(Envelope(m).entries[0], tail);
    }
    EnvelopeKeysSorted(m);
  }

  lemma CanonicalCons(e: Entry, es: seq<Entry>)
    requires Canonical(e.value) && CanonicalEntries(es)
    ensures CanonicalEntries([e] + es)
  {
    assert ([e] + es)[1..] == es;
  }

  lemma TrailerCanonical(m: Message)
    ensures CanonicalEntries(TrailerEntries(m))
  {
    var y, v, t := Entry(KEY_Y, Str(m.y)), Entry(KEY_V, Str(m.v)), Entry(KEY_T, Str(m.t));
    assert CanonicalEntries([]);
    CanonicalCons(y, []);
    CanonicalCons(v, [y] + []);
    CanonicalCons(t, [v] + ([y] + []));
    assert [t] + ([v] + ([y] + [])) == TrailerEntries(m);
  }

  lemma OrderedCanonical(m: Message, d: Option<seq<Entry>>)
    requires WellFormedMessage(m) && (d == m.a || d == m.r)
    ensures Canonical(Dict(Ordered(d)))
  {
    NormalGood(Dict(DictEntries(d)));
  }

  lemma PairCanonical(m: Message)
    ensures var pair := if m.e.Some? then m.e.value else ErrorPair(0, []);
            Canonical(List([Int(pair.code), Str(pair.text)]))
  {
    var pair := if m.e.Some? then m.e.value else ErrorPair(0, []);
    var vs := [Int(pair.code), Str(pair.text)];
    assert vs[1..] == [Str(pair.text)] && vs[1..][1..] == [];
    assert Canonical(Str(pair.text));
    assert CanonicalList(vs[1..]);
  }

  lemma EnvelopeKeysSorted(m: Message)
    ensures SortedKeys(Envelope(m).entries)
  {
    hide Ordered;
  }

  /**
    What is written is one dictionary with exactly the entries of the message's
    type, keys in order at every level, and it is read back as a message with
    the same fields.
   */
  lemma MarshalExact(m: Message, suffix: bytes)
    requires WellFormedMessage(m) && Marshal(m).Some? && |Marshal(m).value + suffix| <= MAX_INT64
    ensures var v := Envelope(m);
            && v.Dict? && Marshal(m).value == Print(v) && Canonical(v) && WellFormed(v)
            && (forall e :: e in v.entries <==> Written(m, e))
            && (forall c :: Unmarshal(Marshal(m).value + suffix) == Decoded(c) <==> Reads(v.entries, c))
  {
    hide Marshal, Print, WellFormed, Reads, Unmarshal, Written, WellFormedMessage;
    var v := Envelope(m);
    MarshalPrints(m);
    EnvelopeSorted(m);
    EnvelopeWellFormed(m);
    forall e
      ensures e in v.entries <==> Written(m, e)
    {
      EnvelopeHas(m, e);
    }
    forall c
      ensures Unmarshal(Marshal(m).value + suffix) == Decoded(c) <==> Reads(v.entries, c)
    {
      PacketRead(v, suffix, c);
    }
  }
}
