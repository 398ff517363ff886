/** Dictionaries whose text repeats a key or has its keys out of order. */
module BencodeKeys {
  import opened Bytes
  import opened Bencode
  import opened BencodeParse
  import opened BencodeRoundTrip
  import opened BencodeAccepts
  import opened DhtDecoder

  /** No key of the first `k` entries is smaller than the one before it. */
  ghost predicate OrderedTo(raw: seq<Entry>, k: nat)
    requires k <= |raw|
  {
    forall i :: 0 < i < k ==> !Less(raw[i].key, raw[i - 1].key)
  }

  /** `e` is the last of the first `k` entries with its key. */
  ghost predicate LastOf(raw: seq<Entry>, k: nat, e: Entry)
    requires k <= |raw|
  {
    exists i :: 0 <= i < k && raw[i] == e && forall j :: i < j < k ==> raw[j].key != e.key
  }

  /** Exactly the last entry of every key, once. */
  ghost predicate LastValues(raw: seq<Entry>, k: nat, es: seq<Entry>)
    requires k <= |raw|
  {
    DistinctKeys(es) && forall e :: e in es <==> LastOf(raw, k, e)
  }

  lemma LastOfNext(raw: seq<Entry>, k: nat, e: Entry)
    requires k < |raw|
    ensures LastOf(raw, k + 1, e) <==> e == raw[k] || (e.key != raw[k].key && LastOf(raw, k, e))
  {
    if LastOf(raw, k + 1, e) && e != raw[k] {
      var i :| 0 <= i < k + 1 && raw[i] == e && forall j :: i < j < k + 1 ==> raw[j].key != e.key;
      assert 0 <= i < k;
    }
    if e == raw[k] {
      assert 0 <= k < k + 1 && raw[k] == e;
    } else if e.key != raw[k].key && LastOf(raw, k, e) {
      var i :| 0 <= i < k && raw[i] == e && forall j :: i < j < k ==> raw[j].key != e.key;
      assert 0 <= i < k + 1 && raw[i] == e;
    }
  }

  lemma {:induction false} SetMembers(es: seq<Entry>, key: bytes, value: Value)
    requires DistinctKeys(es)
    ensures var r := SetEntry(es, key, value);
            && DistinctKeys(r)
            && forall e :: e in r <==> e == Entry(key, value) || (e.key != key && e in es)
    decreases |es|
  {
    if es != [] {
      var head, tail := es[0], es[1..];
      assert forall i, j :: 0 <= i < j < |tail| ==> tail[i] == es[i + 1] && tail[j] == es[j + 1];
      assert forall e :: e in es <==> e == head || e in tail;
      assert forall e :: e in tail ==> e.key != head.key;
      if head.key != key {
        SetMembers(tail, key, value);
        KeepsDistinct(head, SetEntry(tail, key, value));
      } else {
        KeepsDistinct(Entry(key, value), tail);
      }
    }
  }

  lemma KeepsDistinct(e: Entry, es: seq<Entry>)
    requires DistinctKeys(es) && forall x :: x in es ==> x.key != e.key
    ensures DistinctKeys([e] + es) && forall x :: x in [e] + es <==> x == e || x in es
  {
  }

  lemma ValueSet(raw: seq<Entry>, k: nat, es: seq<Entry>)
    requires k < |raw| && LastValues(raw, k, es)
    ensures LastValues(raw, k + 1, SetEntry(es, raw[k].key, raw[k].value))
  {
    hide SetEntry, LastOf, DistinctKeys;
    SetMembers(es, raw[k].key, raw[k].value);
    forall e
      ensures LastOf(raw, k + 1, e) <==> e == raw[k] || (e.key != raw[k].key && LastOf(raw, k, e))
    {
      LastOfNext(raw, k, e);
    }
    assert raw[k] == Entry(raw[k].key, raw[k].value);
  }

  // ----- The stream decoder -----

  lemma OrderTested(d: bytes, depth: nat, es: seq<Entry>, last: bytes, e: Entry, rest: bytes)
    requires StartsWithDigit(d)
    requires exists r :: ParseString(d) == Done(e.key, r) && ParseValue(r, depth + 1) == Done(e.value, rest)
    ensures ParseEntries(d, depth, es, last) ==
            if Less(e.key, last) then Fail(KeyOrder) else ParseEntries(rest, depth, SetEntry(es, e.key, e.value), e.key)
  {
    hide ParseString, ParseValue, SetEntry, Less;
    assert last == [] ==> !Less(e.key, last) by { NothingLess(e.key); }
  }

  ghost function LastKey(raw: seq<Entry>, k: nat): bytes
    requires k <= |raw|
  {
    if k == 0 then [] else raw[k - 1].key
  }

  lemma OrderNext(raw: seq<Entry>, k: nat)
    requires k < |raw| && OrderedTo(raw, k)
    ensures OrderedTo(raw, k + 1) <==> !Less(raw[k].key, LastKey(raw, k))
    ensures OrderedTo(raw, |raw|) ==> OrderedTo(raw, k + 1)
  {
    NothingLess(raw[k].key);
  }

  lemma EntryReads(raw: seq<Entry>, k: nat, depth: nat, es: seq<Entry>, suffix: bytes)
    requires k < |raw| && depth < MAX_DEPTH && AcceptedEntry(raw[k], depth)
    ensures ParseEntries(PrintEntries(raw[k..]) + [LETTER_E] + suffix, depth, es, LastKey(raw, k)) ==
            if Less(raw[k].key, LastKey(raw, k)) then Fail(KeyOrder)
            else ParseEntries(PrintEntries(raw[k + 1..]) + [LETTER_E] + suffix, depth,
                              SetEntry(es, raw[k].key, raw[k].value), raw[k].key)
  {
    hide ParseEntries, ParseString, ParseValue, PrintEntries, PrintString, Print, SetEntry, Less, Depth, StartsWithDigit;
    var e, after := raw[k], PrintEntries(raw[k + 1..]) + [LETTER_E] + suffix;
    EntryPrinted(raw, k, suffix);
    StringRoundTrip(e.key, Print(e.value) + after);
    ValueRoundTrip(e.value, depth + 1, after);
    OrderTested(PrintEntries(raw[k..]) + [LETTER_E] + suffix, depth, es, LastKey(raw, k), e, after);
  }

  /** From entry k on, `es` being what the first k have left. */
  lemma {:induction false} EntriesOrdered(raw: seq<Entry>, k: nat, depth: nat, es: seq<Entry>, suffix: bytes)
    requires k <= |raw| && depth < MAX_DEPTH && OrderedTo(raw, k) && LastValues(raw, k, es)
    requires forall i :: 0 <= i < |raw| ==> AcceptedEntry(raw[i], depth)
    ensures var r := ParseEntries(PrintEntries(raw[k..]) + [LETTER_E] + suffix, depth, es, LastKey(raw, k));
            if OrderedTo(raw, |raw|) then r.Done? && r.rest == suffix && LastValues(raw, |raw|, r.value)
            else r == Fail(KeyOrder)
    decreases |raw| - k
  {
    hide ParseEntries, PrintEntries, SetEntry, Less, AcceptedEntry, LastValues, OrderedTo;
    if k == |raw| {
      assert raw[k..] == [];
      PrintedEnd(es, depth, LastKey(raw, k), suffix);
    } else {
      EntryReads(raw, k, depth, es, suffix);
      OrderNext(raw, k);
      if !Less(raw[k].key, LastKey(raw, k)) {
        ValueSet(raw, k, es);
        EntriesOrdered(raw, k + 1, depth, SetEntry(es, raw[k].key, raw[k].value), suffix);
      }
    }
  }

  /**
    A dictionary's text is refused for its order exactly when some key is
    smaller than the one before it. Otherwise every key, repeated or not, has
    the value written last, and the keys come out in strictly increasing order.
   */
  lemma RepeatedKeys(raw: seq<Entry>, depth: nat, suffix: bytes)
    requires depth < MAX_DEPTH && forall i :: 0 <= i < |raw| ==> AcceptedEntry(raw[i], depth)
    ensures var r := ParseValue([LETTER_D] + PrintEntries(raw) + [LETTER_E] + suffix, depth);
            if OrderedTo(raw, |raw|) then
              r.Done? && r.rest == suffix && r.value.Dict? && SortedKeys(r.value.entries)
              && LastValues(raw, |raw|, r.value.entries)
            else r == Fail(KeyOrder)
  {
    hide ParseEntries, PrintEntries, AcceptedEntry, OrderedTo, LastValues, Less;
    var d := [LETTER_D] + PrintEntries(raw) + [LETTER_E] + suffix;
    assert d[1..] == PrintEntries(raw) + [LETTER_E] + suffix && raw[0..] == raw;
    StartOfRun(raw);
    EntriesOrdered(raw, 0, depth, [], suffix);
    ValueAccepted(d, depth);
  }

  lemma StartOfRun(raw: seq<Entry>)
    ensures OrderedTo(raw, 0) && LastValues(raw, 0, [])
  {
  }

  // ----- The DHT's decoder -----

  /** Keys come out in the order in which they first appear. */
  ghost predicate FirstSeen(raw: seq<Entry>, k: nat, es: seq<Entry>)
    requires k <= |raw|
  {
    forall a, b :: 0 <= a < b < |es| ==> Before(raw, k, es[a].key, es[b].key)
  }

  ghost predicate Before(raw: seq<Entry>, k: nat, p: bytes, q: bytes)
    requires k <= |raw|
  {
    exists i :: 0 <= i < k && raw[i].key == p && forall j :: 0 <= j <= i ==> raw[j].key != q
  }

  lemma {:induction false} SetKeys(es: seq<Entry>, key: bytes, value: Value)
    ensures var r := SetEntry(es, key, value);
            && |es| <= |r| <= |es| + 1 && (forall a :: 0 <= a < |es| ==> r[a].key == es[a].key)
            && (|r| == |es| + 1 ==> r[|es|].key == key && forall a :: 0 <= a < |es| ==> es[a].key != key)
    decreases |es|
  {
    if es != [] && es[0].key != key {
      SetKeys(es[1..], key, value);
    }
  }

  lemma FirstSeenNext(raw: seq<Entry>, k: nat, es: seq<Entry>)
    requires k < |raw| && LastValues(raw, k, es) && FirstSeen(raw, k, es)
    ensures FirstSeen(raw, k + 1, SetEntry(es, raw[k].key, raw[k].value))
  {
    hide SetEntry, LastValues;
    var r := SetEntry(es, raw[k].key, raw[k].value);
    SetKeys(es, raw[k].key, raw[k].value);
    forall a, b | 0 <= a < b < |r|
      ensures Before(raw, k + 1, r[a].key, r[b].key)
    {
      if b < |es| {
        assert Before(raw, k, es[a].key, es[b].key);
      } else {
        NewKey(raw, k, es, a);
      }
    }
  }

  lemma NewKey(raw: seq<Entry>, k: nat, es: seq<Entry>, a: nat)
    requires k < |raw| && LastValues(raw, k, es) && a < |es| && forall b :: 0 <= b < |es| ==> es[b].key != raw[k].key
    ensures Before(raw, k + 1, es[a].key, raw[k].key)
  {
    assert es[a] in es;
    var i :| 0 <= i < k && raw[i] == es[a];
    forall j | 0 <= j <= i
      ensures raw[j].key != raw[k].key
    {
      SeenKey(raw, k, j);
    }
  }

  /** A key that has been read has a last entry. */
  lemma SeenKey(raw: seq<Entry>, k: nat, j: nat)
    requires j < k <= |raw|
    ensures exists e :: LastOf(raw, k, e) && e.key == raw[j].key
    decreases k - j
  {
    if i :| j < i < k && raw[i].key == raw[j].key {
      SeenKey(raw, k, i);
    } else {
      assert LastOf(raw, k, raw[j]) by { assert 0 <= j < k && raw[j] == raw[j]; }
    }
  }

  lemma ScanReads(raw: seq<Entry>, k: nat, es: seq<Entry>, suffix: bytes, total: nat)
    requires k < |raw| && WellFormed(raw[k].value)
    requires |PrintEntries(raw[k..]) + [LETTER_E] + suffix| <= total <= MAX_INT64
    ensures ScanEntries(PrintEntries(raw[k..]) + [LETTER_E] + suffix, total, es) ==
            ScanEntries(PrintEntries(raw[k + 1..]) + [LETTER_E] + suffix, total, SetEntry(es, raw[k].key, raw[k].value))
  {
    hide ScanEntries, ScanValue, ScanString, SetEntry, PrintString, Print, PrintEntries, StartsWithDigit, WellFormed;
    var e, after := raw[k], PrintEntries(raw[k + 1..]) + [LETTER_E] + suffix;
    EntryPrinted(raw, k, suffix);
    ScanPrintedString(e.key, Print(e.value) + after, total);
    ScanPrinted(e.value, after, total);
    ScanEntryUnfold(PrintEntries(raw[k..]) + [LETTER_E] + suffix, total, es, e.key, Print(e.value) + after, e.value, after);
  }

  lemma ScanEnd(es: seq<Entry>, suffix: bytes, total: nat)
    ensures ScanEntries(PrintEntries([]) + [LETTER_E] + suffix, total, es) == Got(es, suffix)
  {
    var t := PrintEntries([]) + [LETTER_E] + suffix;
    assert t[1..] == suffix;
  }

  lemma ShorterRest(raw: seq<Entry>, k: nat, suffix: bytes)
    requires k < |raw|
    ensures |PrintEntries(raw[k + 1..]) + [LETTER_E] + suffix| <= |PrintEntries(raw[k..]) + [LETTER_E] + suffix|
  {
    hide PrintEntries;
    EntryPrinted(raw, k, suffix);
  }

  lemma {:induction false} EntriesScanned(raw: seq<Entry>, k: nat, es: seq<Entry>, suffix: bytes, total: nat)
    requires k <= |raw| && LastValues(raw, k, es) && FirstSeen(raw, k, es)
    requires forall i :: 0 <= i < |raw| ==> WellFormed(raw[i].value)
    requires |PrintEntries(raw[k..]) + [LETTER_E] + suffix| <= total <= MAX_INT64
    ensures var r := ScanEntries(PrintEntries(raw[k..]) + [LETTER_E] + suffix, total, es);
            r.Got? && r.rest == suffix && LastValues(raw, |raw|, r.value) && FirstSeen(raw, |raw|, r.value)
    decreases |raw| - k
  {
    hide ScanEntries, PrintEntries, SetEntry, LastValues, FirstSeen, WellFormed;
    if k == |raw| {
      assert raw[k..] == [];
      ScanEnd(es, suffix, total);
    } else {
      ScanReads(raw, k, es, suffix, total);
      ShorterRest(raw, k, suffix);
      ValueSet(raw, k, es);
      FirstSeenNext(raw, k, es);
      EntriesScanned(raw, k + 1, SetEntry(es, raw[k].key, raw[k].value), suffix, total);
    }
  }

  /** This decoder takes the keys in any order, keeps where each first stood, and the value written last. */
  lemma RepeatedKeysScanned(raw: seq<Entry>, suffix: bytes, total: nat)
    requires forall i :: 0 <= i < |raw| ==> WellFormed(raw[i].value)
    requires |[LETTER_D] + PrintEntries(raw) + [LETTER_E] + suffix| <= total <= MAX_INT64
    ensures var r := ScanValue([LETTER_D] + PrintEntries(raw) + [LETTER_E] + suffix, total);
            && r.Got? && r.rest == suffix && r.value.Dict?
            && LastValues(raw, |raw|, r.value.entries) && FirstSeen(raw, |raw|, r.value.entries)
  {
    hide ScanEntries, PrintEntries, LastValues, FirstSeen, WellFormed, OrderedTo;
    var t := [LETTER_D] + PrintEntries(raw) + [LETTER_E] + suffix;
    assert t[1..] == PrintEntries(raw) + [LETTER_E] + suffix && raw[0..] == raw;
    StartOfRun(raw);
    NoneSeen(raw);
    EntriesScanned(raw, 0, [], suffix, total);
  }

  lemma NoneSeen(raw: seq<Entry>)
    ensures FirstSeen(raw, 0, [])
  {
  }
}
