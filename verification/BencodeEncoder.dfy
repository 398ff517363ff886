/** The encoder as it runs: it appends to a buffer and sorts the keys of each dictionary on the way. */
module BencodeEncoder {
  import opened Bytes
  import opened Bencode

  lemma {:induction false} InsertNormal(e: Entry, es: seq<Entry>)
    ensures NormalEntries(InsertEntry(e, es)) == InsertEntry(Entry(e.key, Normal(e.value)), NormalEntries(es))
    decreases |es|
  {
    var n := Entry(e.key, Normal(e.value));
    if es == [] || Less(e.key, es[0].key) {
      assert ([e] + es)[1..] == es;
      assert NormalEntries([e] + es) == [n] + NormalEntries(es);
    } else {
      InsertNormal(e, es[1..]);
      var r := InsertEntry(e, es);
      assert r[1..] == InsertEntry(e, es[1..]);
      assert NormalEntries(es)[1..] == NormalEntries(es[1..]);
    }
  }

  /** Sorting looks at keys only, so it may be done before or after the values are brought into canonical form. */
  lemma {:induction false} SortNormal(es: seq<Entry>)
    ensures SortEntries(NormalEntries(es)) == NormalEntries(SortEntries(es))
  {
    if es != [] {
      SortNormal(es[1..]);
      InsertNormal(es[0], SortEntries(es[1..]));
      assert NormalEntries(es)[1..] == NormalEntries(es[1..]);
    }
  }

  lemma {:induction false} PrintListAppend(vs: seq<Value>, v: Value)
    ensures PrintList(vs + [v]) == PrintList(vs) + Print(v)
  {
    if vs == [] {
      assert ([] + [v])[1..] == [];
    } else {
      assert (vs + [v])[1..] == vs[1..] + [v];
      PrintListAppend(vs[1..], v);
    }
  }

  lemma {:induction false} PrintEntriesAppend(es: seq<Entry>, e: Entry)
    ensures PrintEntries(es + [e]) == PrintEntries(es) + PrintString(e.key) + Print(e.value)
  {
    if es == [] {
      assert ([] + [e])[1..] == [];
    } else {
      assert (es + [e])[1..] == es[1..] + [e];
      PrintEntriesAppend(es[1..], e);
    }
  }

  lemma {:induction false} NormalEntriesAt(es: seq<Entry>, k: nat)
    requires k < |es|
    ensures NormalEntries(es)[k] == Entry(es[k].key, Normal(es[k].value))
  {
    if k > 0 {
      NormalEntriesAt(es[1..], k - 1);
    }
  }

  method AppendValue(dst: bytes, v: Value) returns (out: bytes)
    ensures out == dst + Encode(v)
    decreases v, 1
  {
    match v
    case Str(s) =>
      out := dst + PrintString(s);
    case Int(i) =>
      out := dst + ([LETTER_I] + IntText(i) + [LETTER_E]);
    case List(items) =>
      out := AppendItems(dst + [LETTER_L], items);
      out := out + [LETTER_E];
    case Dict(es) =>
      SortNormal(es);
      out := AppendEntries(dst + [LETTER_D], es);
      out := out + [LETTER_E];
  }

  method AppendItems(dst: bytes, items: seq<Value>) returns (out: bytes)
    ensures out == dst + PrintList(NormalList(items))
    decreases items, 0
  {
    ghost var ns := NormalList(items);
    out := dst;
    var k := 0;
    while k < |items|
      invariant 0 <= k <= |items| && out == dst + PrintList(ns[..k])
    {
      out := AppendValue(out, items[k]);
      NormalListAt(items, k);
      assert ns[..k + 1] == ns[..k] + [ns[k]];
      PrintListAppend(ns[..k], ns[k]);
      k := k + 1;
    }
    assert ns[..k] == ns;
  }

  /** The entries in the order of their keys. */
  method AppendEntries(dst: bytes, es: seq<Entry>) returns (out: bytes)
    ensures out == dst + PrintEntries(NormalEntries(SortEntries(es)))
    decreases es, 0
  {
    hide Encode, PrintString, Print, NormalEntries, SortEntries, PrintEntries;
    var sorted := SortEntries(es);
    SortKeeps(es);
    ghost var ns := NormalEntries(sorted);
    out := dst;
    var k := 0;
    NoEntries();
    while k < |sorted|
      invariant 0 <= k <= |sorted| && out == dst + PrintEntries(ns[..k])
    {
      var e := sorted[k];
      assert e in es by {
        assert e in multiset(sorted) && e in multiset(es);
      }
      out := AppendValue(out + PrintString(e.key), e.value);
      EncodedEntry(sorted, k);
      assert ns[..k + 1] == ns[..k] + [ns[k]];
      PrintEntriesAppend(ns[..k], ns[k]);
      k := k + 1;
    }
    assert ns[..k] == ns;
  }

  lemma NoEntries()
    ensures PrintEntries([]) == []
  {
  }

  lemma EncodedEntry(es: seq<Entry>, k: nat)
    requires k < |es|
    ensures Encode(es[k].value) == Print(NormalEntries(es)[k].value) && NormalEntries(es)[k].key == es[k].key
  {
    NormalEntriesAt(es, k);
  }
}
