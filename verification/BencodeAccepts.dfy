/** What the stream decoder accepts at all, and which printed values are among it. */
module BencodeAccepts {
  import opened Bytes
  import opened Bencode
  import opened BencodeParse
  import opened BencodeRoundTrip

  // ----- Strings and numbers -----

  lemma {:induction false} DecimalFits(d: bytes, acc: nat)
    requires acc <= MAX_INT64
    ensures Decimal(d, acc).Done? ==> Decimal(d, acc).value <= MAX_INT64
  {
    if d != [] && IsDigit(d[0]) && acc <= (MAX_INT64 - DigitValue(d[0])) / 10 {
      DecimalFits(d[1..], acc * 10 + DigitValue(d[0]));
    }
  }

  lemma StringFits(d: bytes)
    ensures ParseString(d).Done? ==> |ParseString(d).value| <= MAX_INT64
  {
    if d != [] && IsDigit(d[0]) {
      DecimalFits(d[1..], DigitValue(d[0]));
    }
  }

  lemma {:induction false} FloatFits(d: bytes)
    ensures SkipFloat(d).Done? ==> SkipFloat(d).value == 0
  {
    if d != [] {
      FloatFits(d[1..]);
    }
  }

  lemma IntFits(d: bytes)
    ensures ParseInt(d).Done? ==> MIN_INT64 <= ParseInt(d).value <= MAX_INT64
  {
    hide DigitRun, SkipFloat;
    if d != [] {
      FloatFits(d[1..][DigitRun(d[1..])..]);
      FloatFits(d[DigitRun(d)..]);
    }
  }

  // ----- Containers -----

  /** What a value read at `depth` must be. */
  ghost predicate Accepted(v: Value, depth: nat) {
    WellFormed(v) && Canonical(v) && (depth + Depth(v) <= MAX_DEPTH || Depth(v) == 0)
  }

  ghost predicate AcceptedList(vs: seq<Value>, depth: nat) {
    WellFormedList(vs) && CanonicalList(vs) && depth + 1 + DepthList(vs) <= MAX_DEPTH
  }

  ghost predicate AcceptedEntry(e: Entry, depth: nat) {
    GoodEntry(e) && depth + 1 + Depth(e.value) <= MAX_DEPTH
  }

  /** The entries read so far, `last` being the latest key. */
  ghost predicate ReadSoFar(es: seq<Entry>, last: bytes, depth: nat) {
    && SortedKeys(es) && (forall i :: 0 <= i < |es| ==> AcceptedEntry(es[i], depth))
    && last == if es == [] then [] else es[|es| - 1].key
  }

  lemma {:induction false} EntriesGood(es: seq<Entry>, depth: nat)
    requires depth < MAX_DEPTH && forall i :: 0 <= i < |es| ==> AcceptedEntry(es[i], depth)
    ensures WellFormedEntries(es) && CanonicalEntries(es) && depth + 1 + DepthEntries(es) <= MAX_DEPTH
  {
    if es != [] {
      assert forall i :: 0 <= i < |es[1..]| ==> es[1..][i] == es[i + 1];
      EntriesGood(es[1..], depth);
      assert AcceptedEntry(es[0], depth);
    }
  }

  lemma {:induction false} SetLast(es: seq<Entry>, key: bytes, value: Value)
    requires es != [] && DistinctKeys(es) && es[|es| - 1].key == key
    ensures SetEntry(es, key, value) == es[..|es| - 1] + [Entry(key, value)]
  {
    if |es| > 1 {
      assert es[0].key != key;
      SetLast(es[1..], key, value);
      assert es[..|es| - 1] == [es[0]] + es[1..][..|es[1..]| - 1];
    }
  }

  /** An entry whose key passed the order test is appended or replaces the last one. */
  lemma EntryRead(es: seq<Entry>, last: bytes, depth: nat, key: bytes, value: Value)
    requires ReadSoFar(es, last, depth) && AcceptedEntry(Entry(key, value), depth)
    requires last == [] || !Less(key, last)
    ensures ReadSoFar(SetEntry(es, key, value), key, depth)
  {
    hide Less, SetEntry, AcceptedEntry;
    var e := Entry(key, value);
    SortedDistinct(es);
    assert last == [] ==> !Less(key, last) by { NothingLess(key); }
    LessTotal(last, key);
    if es == [] {
      SetFresh(es, key, value);
    } else if key == last {
      SetLast(es, key, value);
      var r := es[..|es| - 1] + [e];
      assert forall i :: 0 <= i < |es| ==> r[i].key == es[i].key;
    } else {
      forall k | 0 <= k < |es|
        ensures es[k].key != key
      {
        if k < |es| - 1 {
          SortedAll(es, k, |es| - 1);
          LessTrans(es[k].key, last, key);
        }
        LessTotal(es[k].key, key);
      }
      SetFresh(es, key, value);
    }
  }

  lemma NothingLess(key: bytes)
    ensures !Less(key, [])
  {
  }

  /** Whatever is accepted, on any input, is well formed, canonical and not nested too deep. */
  lemma {:induction false} ValueAccepted(d: bytes, depth: nat)
    ensures ParseValue(d, depth).Done? ==> Accepted(ParseValue(d, depth).value, depth)
    decreases |d|, 1
  {
    hide ParseString, ParseInt, ParseItems, ParseEntries;
    if d != [] {
      StringFits(d);
      IntFits(d[1..]);
      if depth < MAX_DEPTH {
        if d[0] == LETTER_L {
          ItemsAccepted(d[1..], depth);
        } else if d[0] == LETTER_D {
          EntriesAccepted(d[1..], depth, [], []);
        }
      }
    }
  }

  lemma {:induction false} ItemsAccepted(d: bytes, depth: nat)
    requires depth < MAX_DEPTH
    ensures ParseItems(d, depth).Done? ==> AcceptedList(ParseItems(d, depth).value, depth)
    decreases |d|, 2
  {
    hide ParseValue;
    if d != [] && d[0] != LETTER_E {
      ValueAccepted(d, depth + 1);
      var p := ParseValue(d, depth + 1);
      if p.Done? {
        ItemsAccepted(p.rest, depth);
        var q := ParseItems(p.rest, depth);
        if q.Done? {
          assert ([p.value] + q.value)[1..] == q.value;
        }
      }
    }
  }

  lemma {:induction false} EntriesAccepted(d: bytes, depth: nat, es: seq<Entry>, last: bytes)
    requires depth < MAX_DEPTH && ReadSoFar(es, last, depth)
    ensures ParseEntries(d, depth, es, last).Done? ==> Accepted(Dict(ParseEntries(d, depth, es, last).value), depth)
    decreases |d|, 2
  {
    hide ParseValue, ParseString, Less, SetEntry, ReadSoFar;
    if d == [] {
    } else if d[0] == LETTER_E {
      DictAccepted(es, last, depth);
    } else if IsDigit(d[0]) && ParseString(d).Done? {
      var key, r := ParseString(d).value, ParseString(d).rest;
      StringFits(d);
      ValueAccepted(r, depth + 1);
      var p := ParseValue(r, depth + 1);
      if p.Done? && (last == [] || !Less(key, last)) {
        EntryRead(es, last, depth, key, p.value);
        EntriesAccepted(p.rest, depth, SetEntry(es, key, p.value), key);
      }
    }
  }

  lemma DictAccepted(es: seq<Entry>, last: bytes, depth: nat)
    requires depth < MAX_DEPTH && ReadSoFar(es, last, depth)
    ensures Accepted(Dict(es), depth)
  {
    EntriesGood(es, depth);
    SortedDistinct(es);
  }

  // ----- Printed values -----

  /** A printed value is either read back or refused; it is never read as another one. */
  lemma {:induction false} ReadOrRefused(v: Value, depth: nat, suffix: bytes)
    requires WellFormed(v)
    ensures var r := ParseValue(Print(v) + suffix, depth); r.Fail? || r == Done(v, suffix)
    decreases v, 1
  {
    hide ParseString, ParseInt, ParseItems, ParseEntries, PrintString;
    var d := Print(v) + suffix;
    match v
    case Str(s) =>
      StringRoundTrip(s, suffix);
    case Int(i) =>
      assert d[1..] == IntText(i) + [LETTER_E] + suffix;
      IntRoundTrip(i, suffix);
    case List(items) =>
      assert d[1..] == PrintList(items) + [LETTER_E] + suffix;
      ItemsReadOrRefused(items, depth, suffix);
    case Dict(es) =>
      assert d[1..] == PrintEntries(es) + [LETTER_E] + suffix;
      assert es[0..] == es && es[..0] == [];
      EntriesReadOrRefused(es, 0, depth, [], suffix);
  }

  lemma {:induction false} ItemsReadOrRefused(vs: seq<Value>, depth: nat, suffix: bytes)
    requires WellFormedList(vs)
    ensures var r := ParseItems(PrintList(vs) + [LETTER_E] + suffix, depth); r.Fail? || r == Done(vs, suffix)
    decreases vs, 0
  {
    hide ParseValue, Print;
    var d := PrintList(vs) + [LETTER_E] + suffix;
    if vs == [] {
      assert d[1..] == suffix;
    } else {
      var after := PrintList(vs[1..]) + [LETTER_E] + suffix;
      assert d == Print(vs[0]) + after;
      ValueStarts(vs[0]);
      ReadOrRefused(vs[0], depth + 1, after);
      ItemsReadOrRefused(vs[1..], depth, suffix);
      assert vs == [vs[0]] + vs[1..];
    }
  }

  lemma PrintedEntryUnfold(d: bytes, depth: nat, es: seq<Entry>, last: bytes, key: bytes, r: bytes, v: Value, r': bytes)
    requires StartsWithDigit(d) && ParseString(d) == Done(key, r)
    requires ParseValue(r, depth + 1).Fail? || ParseValue(r, depth + 1) == Done(v, r')
    ensures var p := ParseEntries(d, depth, es, last); p.Fail? || p == ParseEntries(r', depth, SetEntry(es, key, v), key)
  {
  }

  lemma PrintedEnd(es: seq<Entry>, depth: nat, last: bytes, suffix: bytes)
    ensures ParseEntries(PrintEntries([]) + [LETTER_E] + suffix, depth, es, last) == Done(es, suffix)
  {
    var d := PrintEntries([]) + [LETTER_E] + suffix;
    assert d[1..] == suffix;
  }

  lemma {:induction false} EntriesReadOrRefused(es: seq<Entry>, k: nat, depth: nat, last: bytes, suffix: bytes)
    requires k <= |es| && DistinctKeys(es) && WellFormedEntries(es[k..])
    ensures var r := ParseEntries(PrintEntries(es[k..]) + [LETTER_E] + suffix, depth, es[..k], last);
            r.Fail? || r == Done(es, suffix)
    decreases es[k..], 0
  {
    hide ParseEntries, ParseValue, ParseString, SetEntry, Less, PrintString, Print, PrintEntries;
    if k == |es| {
      assert es[k..] == [] && es[..k] == es;
      PrintedEnd(es, depth, last, suffix);
    } else {
      assert es[k + 1..] == es[k..][1..] && es[k] == es[k..][0];
      var e := es[k];
      var after := PrintEntries(es[k + 1..]) + [LETTER_E] + suffix;
      var d := PrintEntries(es[k..]) + [LETTER_E] + suffix;
      EntryPrinted(es, k, suffix);
      StringRoundTrip(e.key, Print(e.value) + after);
      ReadOrRefused(e.value, depth + 1, after);
      SetFresh(es[..k], e.key, e.value);
      assert es[..k] + [Entry(e.key, e.value)] == es[..k + 1];
      PrintedEntryUnfold(d, depth, es[..k], last, e.key, Print(e.value) + after, e.value, after);
      EntriesReadOrRefused(es, k + 1, depth, e.key, suffix);
    }
  }

  /**
    A printed value is read back exactly when its keys are in order at every
    level and at most 50 containers are nested; otherwise it is refused.
   */
  lemma PrintedExactly(v: Value, suffix: bytes)
    requires WellFormed(v)
    ensures ParseValue(Print(v) + suffix, 0) == Done(v, suffix) <==> Canonical(v) && Depth(v) <= MAX_DEPTH
    ensures ParseValue(Print(v) + suffix, 0).Fail? <==> !(Canonical(v) && Depth(v) <= MAX_DEPTH)
  {
    hide ParseValue, Print, Canonical, WellFormed, Depth;
    ReadOrRefused(v, 0, suffix);
    ValueAccepted(Print(v) + suffix, 0);
    if Canonical(v) {
      ValueRoundTrip(v, 0, suffix);
    }
  }

  // ----- Leading zeros -----

  function ZeroDigits(k: nat): (r: bytes)
    ensures |r| == k && AllDigits(r)
  {
    seq(k, _ => ZERO)
  }

  lemma {:induction false} DecimalSkipsZeros(k: nat, d: bytes)
    ensures Decimal(ZeroDigits(k) + d, 0) == Decimal(d, 0)
  {
    if k == 0 {
      assert ZeroDigits(k) + d == d;
    } else {
      assert (ZeroDigits(k) + d)[1..] == ZeroDigits(k - 1) + d;
      DecimalSkipsZeros(k - 1, d);
    }
  }

  /** Any number of zeros before a length is read over. */
  lemma LeadingZerosRead(k: nat, s: bytes, suffix: bytes)
    requires |s| <= MAX_INT64
    ensures ParseString(ZeroDigits(k) + PrintString(s) + suffix) == Done(s, suffix)
    ensures StartsWithDigit(ZeroDigits(k) + PrintString(s) + suffix)
  {
    hide Decimal;
    var p := PrintString(s) + suffix;
    var d := ZeroDigits(k) + PrintString(s) + suffix;
    StringRoundTrip(s, suffix);
    assert d == ZeroDigits(k) + p;
    if k == 0 {
      assert d == p;
    } else {
      assert d[1..] == ZeroDigits(k - 1) + p;
      DecimalSkipsZeros(k - 1, p);
      DecimalFirst(p);
    }
  }

  lemma DecimalFirst(p: bytes)
    requires StartsWithDigit(p)
    ensures Decimal(p, 0) == Decimal(p[1..], DigitValue(p[0]))
  {
    hide IsDigit, DigitValue;
    DigitFits(p[0]);
  }

  lemma DigitFits(b: byte)
    requires IsDigit(b)
    ensures (MAX_INT64 - DigitValue(b)) / 10 >= 0
  {
  }
}
