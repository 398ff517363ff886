/** Received packets that make the DHT's decoder panic. */
module DhtPanics {
  import opened Bytes
  import opened Bencode
  import opened BencodeParse
  import opened DhtDecoder

  /** A string header whose length, wrapped, is negative or runs past the largest position. */
  predicate Overlong(u: bytes, total: nat) {
    LengthHeader(u) && (AskedLength(u) < 0 || StringStart(u, total) + AskedLength(u) > MAX_INT64)
  }

  // ----- Where strings are read -----

  // `u` is what is left of the data when a string is read, in the course of
  // reading what `t` begins with.

  ghost predicate ValueReaches(t: bytes, total: nat, u: bytes)
    decreases |t|, 1
  {
    t != [] &&
    if IsDigit(t[0]) then u == t
    else if t[0] == LETTER_L then ItemsReach(t[1..], total, u)
    else t[0] == LETTER_D && EntriesReach(t[1..], total, u)
  }

  /** In an item, or in the items that follow one that has been read. */
  ghost predicate ItemsReach(t: bytes, total: nat, u: bytes)
    decreases |t|, 2
  {
    t != [] && t[0] != LETTER_E
    && (ValueReaches(t, total, u)
        || (ScanValue(t, total).Got? && ItemsReach(ScanValue(t, total).rest, total, u)))
  }

  /** A key, or in what follows a key that has been read. */
  ghost predicate EntriesReach(t: bytes, total: nat, u: bytes)
    decreases |t|, 2
  {
    t != [] && IsDigit(t[0])
    && (u == t || (ScanString(t, total).Got? && EntryReaches(ScanString(t, total).rest, total, u)))
  }

  ghost predicate EntryReaches(t: bytes, total: nat, u: bytes)
    decreases |t|, 3
  {
    ValueReaches(t, total, u) || (ScanValue(t, total).Got? && EntriesReach(ScanValue(t, total).rest, total, u))
  }

  // ----- Panics -----

  ghost predicate ValueMeets(t: bytes, total: nat) {
    exists u :: ValueReaches(t, total, u) && Overlong(u, total)
  }

  ghost predicate ItemsMeet(t: bytes, total: nat) {
    exists u :: ItemsReach(t, total, u) && Overlong(u, total)
  }

  ghost predicate EntriesMeet(t: bytes, total: nat) {
    exists u :: EntriesReach(t, total, u) && Overlong(u, total)
  }

  ghost predicate EntryMeets(t: bytes, total: nat) {
    exists u :: EntryReaches(t, total, u) && Overlong(u, total)
  }

  lemma ValueMeetsUnfold(t: bytes, total: nat)
    ensures ValueMeets(t, total) <==>
              t != [] &&
              if IsDigit(t[0]) then Overlong(t, total)
              else if t[0] == LETTER_L then ItemsMeet(t[1..], total)
              else t[0] == LETTER_D && EntriesMeet(t[1..], total)
  {
    hide ItemsReach, EntriesReach, Overlong;
    if t != [] && IsDigit(t[0]) {
      assert ValueReaches(t, total, t);
    } else if t != [] && t[0] == LETTER_L {
      assert forall u :: ValueReaches(t, total, u) <==> ItemsReach(t[1..], total, u);
    } else if t != [] && t[0] == LETTER_D {
      assert forall u :: ValueReaches(t, total, u) <==> EntriesReach(t[1..], total, u);
    }
  }

  lemma ItemsMeetUnfold(t: bytes, total: nat)
    ensures ItemsMeet(t, total) <==>
              t != [] && t[0] != LETTER_E
              && (ValueMeets(t, total) || (ScanValue(t, total).Got? && ItemsMeet(ScanValue(t, total).rest, total)))
  {
    hide ValueReaches, ScanValue, Overlong;
    if t != [] && t[0] != LETTER_E {
      assert forall u :: ItemsReach(t, total, u) <==>
        ValueReaches(t, total, u) || (ScanValue(t, total).Got? && ItemsReach(ScanValue(t, total).rest, total, u));
    }
  }

  lemma EntriesMeetUnfold(t: bytes, total: nat)
    ensures EntriesMeet(t, total) <==>
              t != [] && IsDigit(t[0])
              && (Overlong(t, total) || (ScanString(t, total).Got? && EntryMeets(ScanString(t, total).rest, total)))
  {
    hide EntryReaches, ScanString, Overlong;
    if t != [] && IsDigit(t[0]) {
      assert EntriesReach(t, total, t);
      assert forall u :: EntriesReach(t, total, u) <==>
        u == t || (ScanString(t, total).Got? && EntryReaches(ScanString(t, total).rest, total, u));
    }
  }

  lemma EntryMeetsUnfold(t: bytes, total: nat)
    ensures EntryMeets(t, total) <==>
              ValueMeets(t, total) || (ScanValue(t, total).Got? && EntriesMeet(ScanValue(t, total).rest, total))
  {
    hide ValueReaches, EntriesReach, ScanValue, Overlong;
    assert forall u :: EntryReaches(t, total, u) <==>
      ValueReaches(t, total, u) || (ScanValue(t, total).Got? && EntriesReach(ScanValue(t, total).rest, total, u));
  }

  /** On any data, reading a value panics exactly when it comes to read a string with an overlong header. */
  lemma {:induction false} ValuePanics(t: bytes, total: nat)
    requires |t| <= total <= MAX_INT64
    ensures ScanValue(t, total) == Panic <==> ValueMeets(t, total)
    decreases |t|, 1
  {
    hide ValueMeets, ItemsMeet, EntriesMeet, ScanString, ScanInt, ScanItems, ScanEntries, LengthHeader, AskedLength;
    ValueMeetsUnfold(t, total);
    if t != [] {
      if IsDigit(t[0]) {
        StringPanics(t, total);
      } else if t[0] == LETTER_L {
        ItemsPanic(t[1..], total);
      } else if t[0] == LETTER_D {
        EntriesPanic(t[1..], total, []);
      }
    }
  }

  lemma {:induction false} ItemsPanic(t: bytes, total: nat)
    requires |t| <= total <= MAX_INT64
    ensures ScanItems(t, total) == Panic <==> ItemsMeet(t, total)
    decreases |t|, 2
  {
    hide ValueMeets, ItemsMeet, ScanValue;
    ItemsMeetUnfold(t, total);
    if t != [] && t[0] != LETTER_E {
      ValuePanics(t, total);
      if ScanValue(t, total).Got? {
        ItemsPanic(ScanValue(t, total).rest, total);
      }
    }
  }

  lemma {:induction false} EntriesPanic(t: bytes, total: nat, es: seq<Entry>)
    requires |t| <= total <= MAX_INT64
    ensures ScanEntries(t, total, es) == Panic <==> EntriesMeet(t, total)
    decreases |t|, 2
  {
    hide EntriesMeet, EntryMeets, ScanString, ScanEntry, LengthHeader, AskedLength;
    EntriesMeetUnfold(t, total);
    if t != [] && IsDigit(t[0]) {
      StringPanics(t, total);
      if ScanString(t, total).Got? {
        EntryPanics(ScanString(t, total).rest, total, es, ScanString(t, total).value);
      }
    }
  }

  lemma {:induction false} EntryPanics(t: bytes, total: nat, es: seq<Entry>, key: bytes)
    requires |t| <= total <= MAX_INT64
    ensures ScanEntry(t, total, es, key) == Panic <==> EntryMeets(t, total)
    decreases |t|, 3
  {
    hide EntryMeets, ValueMeets, EntriesMeet, ScanValue, ScanEntries, SetEntry;
    EntryMeetsUnfold(t, total);
    ValuePanics(t, total);
    match ScanValue(t, total)
    case Got(v, r) => EntriesPanic(r, total, SetEntry(es, key, v));
    case _ =>
  }

  // ----- Positions -----

  predicate Suffix(u: bytes, t: bytes) {
    |u| <= |t| && u == t[|t| - |u|..]
  }

  lemma SuffixTrans(a: bytes, b: bytes, c: bytes)
    requires Suffix(a, b) && Suffix(b, c)
    ensures Suffix(a, c)
  {
  }

  lemma TailSuffix(t: bytes, k: nat)
    requires k <= |t|
    ensures Suffix(t[k..], t)
  {
  }

  lemma StringRest(t: bytes, total: nat)
    ensures ScanString(t, total).Got? ==> Suffix(ScanString(t, total).rest, t)
  {
    hide Wrap, NatValue, DigitRun, LengthHeader;
  }

  lemma IntRest(t: bytes)
    ensures ScanInt(t).Got? ==> Suffix(ScanInt(t).rest, t)
  {
    hide Wrap, NatValue, DigitRun;
  }

  /** What is left after a value is the end of the data. */
  lemma {:induction false} ValueRest(t: bytes, total: nat)
    ensures ScanValue(t, total).Got? ==> Suffix(ScanValue(t, total).rest, t)
    decreases |t|, 1
  {
    hide ScanString, ScanInt, ScanItems, ScanEntries, Suffix;
    if t != [] {
      TailSuffix(t, 1);
      var r := ScanValue(t, total);
      if IsDigit(t[0]) {
        StringRest(t, total);
      } else if t[0] == LETTER_I {
        IntRest(t[1..]);
        if r.Got? {
          SuffixTrans(r.rest, t[1..], t);
        }
      } else if t[0] == LETTER_L {
        ItemsRest(t[1..], total);
        if r.Got? {
          SuffixTrans(r.rest, t[1..], t);
        }
      } else if t[0] == LETTER_D {
        EntriesRest(t[1..], total, []);
        if r.Got? {
          SuffixTrans(r.rest, t[1..], t);
        }
      }
    }
  }

  lemma {:induction false} ItemsRest(t: bytes, total: nat)
    ensures ScanItems(t, total).Got? ==> Suffix(ScanItems(t, total).rest, t)
    decreases |t|, 2
  {
    hide ScanValue, Suffix;
    if t != [] {
      TailSuffix(t, 1);
      if t[0] != LETTER_E && ScanItems(t, total).Got? {
        var r := ScanValue(t, total).rest;
        ValueRest(t, total);
        ItemsRest(r, total);
        SuffixTrans(ScanItems(r, total).rest, r, t);
      }
    }
  }

  lemma {:induction false} EntriesRest(t: bytes, total: nat, es: seq<Entry>)
    ensures ScanEntries(t, total, es).Got? ==> Suffix(ScanEntries(t, total, es).rest, t)
    decreases |t|, 2
  {
    hide ScanString, ScanEntry, Suffix;
    if t != [] {
      TailSuffix(t, 1);
      if t[0] != LETTER_E && ScanEntries(t, total, es).Got? {
        var key, r := ScanString(t, total).value, ScanString(t, total).rest;
        StringRest(t, total);
        EntryRest(r, total, es, key);
        SuffixTrans(ScanEntry(r, total, es, key).rest, r, t);
      }
    }
  }

  lemma {:induction false} EntryRest(t: bytes, total: nat, es: seq<Entry>, key: bytes)
    ensures ScanEntry(t, total, es, key).Got? ==> Suffix(ScanEntry(t, total, es, key).rest, t)
    decreases |t|, 3
  {
    hide ScanValue, ScanEntries, SetEntry, Suffix;
    match ScanValue(t, total)
    case Got(v, r) =>
      var es' := SetEntry(es, key, v);
      ValueRest(t, total);
      EntriesRest(r, total, es');
      if ScanEntries(r, total, es').Got? {
        SuffixTrans(ScanEntries(r, total, es').rest, r, t);
      }
    case _ =>
  }

  lemma {:induction false} ValueReachesSuffix(t: bytes, total: nat, u: bytes)
    requires ValueReaches(t, total, u)
    ensures Suffix(u, t)
    decreases |t|, 1
  {
    hide ItemsReach, EntriesReach, Suffix;
    TailSuffix(t, 0);
    TailSuffix(t, 1);
    assert t[0..] == t;
    if !IsDigit(t[0]) {
      if t[0] == LETTER_L {
        ItemsReachSuffix(t[1..], total, u);
      } else {
        EntriesReachSuffix(t[1..], total, u);
      }
      SuffixTrans(u, t[1..], t);
    }
  }

  lemma {:induction false} ItemsReachSuffix(t: bytes, total: nat, u: bytes)
    requires ItemsReach(t, total, u)
    ensures Suffix(u, t)
    decreases |t|, 2
  {
    hide ValueReaches, ScanValue, Suffix;
    if ValueReaches(t, total, u) {
      ValueReachesSuffix(t, total, u);
    } else {
      var r := ScanValue(t, total).rest;
      ValueRest(t, total);
      ItemsReachSuffix(r, total, u);
      SuffixTrans(u, r, t);
    }
  }

  lemma {:induction false} EntriesReachSuffix(t: bytes, total: nat, u: bytes)
    requires EntriesReach(t, total, u)
    ensures Suffix(u, t)
    decreases |t|, 2
  {
    hide EntryReaches, ScanString, Suffix;
    TailSuffix(t, 0);
    assert t[0..] == t;
    if u != t {
      var r := ScanString(t, total).rest;
      StringRest(t, total);
      EntryReachesSuffix(r, total, u);
      SuffixTrans(u, r, t);
    }
  }

  lemma {:induction false} EntryReachesSuffix(t: bytes, total: nat, u: bytes)
    requires EntryReaches(t, total, u)
    ensures Suffix(u, t)
    decreases |t|, 3
  {
    hide ValueReaches, EntriesReach, ScanValue, Suffix;
    if ValueReaches(t, total, u) {
      ValueReachesSuffix(t, total, u);
    } else {
      var r := ScanValue(t, total).rest;
      ValueRest(t, total);
      EntriesReachSuffix(r, total, u);
      SuffixTrans(u, r, t);
    }
  }

  /** Decoding these data, a string is read at position `k`. */
  ghost predicate ReadsStringAt(data: bytes, k: nat)
    requires k <= |data|
  {
    ValueReaches(data, |data|, data[k..])
  }

  /**
    Decoding a packet panics exactly when it comes to read a string at a
    position where an overlong header stands.
   */
  lemma PacketPanics(data: bytes)
    requires |data| <= MAX_INT64
    ensures ScanValue(data, |data|) == Panic <==>
              exists k :: 0 <= k <= |data| && ReadsStringAt(data, k) && Overlong(data[k..], |data|)
  {
    hide ScanValue, ValueReaches, Overlong;
    ValuePanics(data, |data|);
    if ValueMeets(data, |data|) {
      var u :| ValueReaches(data, |data|, u) && Overlong(u, |data|);
      ValueReachesSuffix(data, |data|, u);
      assert ReadsStringAt(data, |data| - |u|);
    }
  }
}
