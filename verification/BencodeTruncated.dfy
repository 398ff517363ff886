/** A text that stops in the middle of a value is reported as ending too early, wherever it stops. */
module BencodeTruncated {
  import opened Bytes
  import opened Bencode
  import opened BencodeParse
  import opened BencodeRoundTrip

  /** Two texts in a row, cut: in the first, or behind it in the second. */
  lemma CutBetween(d: bytes, a: bytes, b: bytes)
    requires d < a + b
    ensures d < a || (a <= d && d == a + d[|a|..] && d[|a|..] < b)
  {
    if |d| < |a| {
      assert d == (a + b)[..|d|] == a[..|d|];
    } else {
      assert d[..|a|] == (a + b)[..|d|][..|a|] == a;
      assert d[|a|..] == (a + b)[..|d|][|a|..] == b[..|d| - |a|];
    }
  }

  // ----- Strings and integers -----

  lemma {:induction false} CombineOfPrefix(acc: nat, a: bytes, b: bytes)
    requires AllDigits(a) && AllDigits(b)
    ensures AllDigits(a + b) && Combine(acc, a) <= Combine(acc, a + b)
    decreases |a|
  {
    if a == [] {
      assert a + b == b;
      CombineGrows(acc, b);
    } else {
      CombineOfPrefix(acc * 10 + DigitValue(a[0]), a[1..], b);
      assert (a + b)[1..] == a[1..] + b;
    }
  }

  lemma LengthTruncated(n: nat, d: bytes)
    requires n <= MAX_INT64 && d < Digits(n) + [COLON] && d != []
    ensures IsDigit(d[0]) && ParseString(d) == Fail(UnexpectedEOF)
  {
    hide Digits, Combine, Decimal;
    var ds := Digits(n);
    CutBetween(d, ds, [COLON]);
    assert |d| <= |ds| && d == ds[..|d|];
    var more := ds[|d|..];
    assert ds == d + more;
    assert AllDigits(d) && AllDigits(more);
    CombineOfPrefix(0, d, more);
    CombineDigits(n);
    CombineFirst(d);
    DecimalOfDigits(d[1..], [], DigitValue(d[0]));
    assert d[1..] + [] == d[1..];
  }

  lemma StringTruncated(s: bytes, d: bytes)
    requires |s| <= MAX_INT64 && d < PrintString(s) && d != []
    ensures IsDigit(d[0]) && ParseString(d) == Fail(UnexpectedEOF)
  {
    hide Digits, Combine, Decimal;
    var ds := Digits(|s|);
    CutBetween(d, ds + [COLON], s);
    if d < ds + [COLON] {
      hide ParseString;
      LengthTruncated(|s|, d);
    } else {
      var r := [COLON] + d[|ds| + 1..];
      assert d == ds + r && d[1..] == ds[1..] + r;
      CombineDigits(|s|);
      CombineFirst(ds);
      DecimalOfDigits(ds[1..], r, DigitValue(ds[0]));
      assert d[0] == ds[0];
    }
  }

  lemma DigitsTruncated(negative: bool, n: nat, d: bytes)
    requires d < Digits(n) + [LETTER_E]
    ensures ParseDigits(negative, negative, d) == Fail(UnexpectedEOF)
  {
    hide Digits;
    var ds := Digits(n);
    CutBetween(d, ds, [LETTER_E]);
    assert |d| <= |ds| && d == ds[..|d|];
    if d != [] {
      assert AllDigits(d);
      RunOfDigits(d, []);
      assert d + [] == d;
      assert IsDigit(d[0]);
    }
  }

  lemma IntTruncated(i: int, d: bytes)
    requires d < IntText(i) + [LETTER_E]
    ensures ParseInt(d) == Fail(UnexpectedEOF)
  {
    hide Digits, ParseDigits;
    if d != [] {
      if i < 0 {
        assert d[0] == MINUS && d[1..] < Digits(-i) + [LETTER_E] by {
          CutBetween(d, [MINUS], Digits(-i) + [LETTER_E]);
          assert IntText(i) + [LETTER_E] == [MINUS] + (Digits(-i) + [LETTER_E]);
        }
        DigitsTruncated(true, -i, d[1..]);
      } else {
        assert d[0] == (Digits(i) + [LETTER_E])[0] == Digits(i)[0] && IsDigit(Digits(i)[0]);
        DigitsTruncated(false, i, d);
      }
    }
  }

  // ----- Values -----

  /** Not nested too deep for the depth it is read at. */
  predicate Fits(v: Value, depth: nat) {
    depth + Depth(v) <= MAX_DEPTH || Depth(v) == 0
  }

  lemma Unmarked(d: bytes, mark: byte, body: bytes)
    requires d < [mark] + body && d != []
    ensures d[0] == mark && d[1..] < body
  {
    CutBetween(d, [mark], body);
  }

  /** Every proper part of an encoding, from its beginning, ends too early. */
  lemma {:induction false} ValueTruncated(v: Value, depth: nat, d: bytes)
    requires WellFormed(v) && Canonical(v) && Fits(v, depth) && d < Print(v)
    ensures ParseValue(d, depth) == Fail(UnexpectedEOF)
    decreases v, 1
  {
    hide ParseString, ParseInt, ParseItems, ParseEntries, PrintString, IntText, PrintList, PrintEntries;
    if d != [] {
      match v
      case Str(s) =>
        StringTruncated(s, d);
      case Int(i) =>
        assert Print(v) == [LETTER_I] + (IntText(i) + [LETTER_E]);
        Unmarked(d, LETTER_I, IntText(i) + [LETTER_E]);
        IntTruncated(i, d[1..]);
      case List(items) =>
        assert Print(v) == [LETTER_L] + (PrintList(items) + [LETTER_E]);
        Unmarked(d, LETTER_L, PrintList(items) + [LETTER_E]);
        ItemsTruncated(items, depth, d[1..]);
      case Dict(es) =>
        assert Print(v) == [LETTER_D] + (PrintEntries(es) + [LETTER_E]);
        Unmarked(d, LETTER_D, PrintEntries(es) + [LETTER_E]);
        assert es[0..] == es && es[..0] == [];
        EntriesTruncated(es, 0, depth, d[1..]);
    }
  }

  lemma {:induction false} ItemsTruncated(vs: seq<Value>, depth: nat, d: bytes)
    requires WellFormedList(vs) && CanonicalList(vs) && depth + 1 + DepthList(vs) <= MAX_DEPTH
    requires d < PrintList(vs) + [LETTER_E]
    ensures ParseItems(d, depth) == Fail(UnexpectedEOF)
    decreases vs, 0
  {
    hide ParseValue, Print, WellFormed, Canonical, Depth;
    if d != [] && vs != [] {
      var v, rest := vs[0], PrintList(vs[1..]) + [LETTER_E];
      assert PrintList(vs) + [LETTER_E] == Print(v) + rest;
      ValueStarts(v);
      assert d[0] == (Print(v) + rest)[0] == Print(v)[0];
      CutBetween(d, Print(v), rest);
      if d < Print(v) {
        ValueTruncated(v, depth + 1, d);
      } else {
        var after := d[|Print(v)|..];
        ValueRoundTrip(v, depth + 1, after);
        ItemsTruncated(vs[1..], depth, after);
      }
    }
  }

  /** From entry k on, with the first k already read. */
  lemma {:induction false} EntriesTruncated(es: seq<Entry>, k: nat, depth: nat, d: bytes)
    requires k <= |es| && SortedKeys(es) && WellFormedEntries(es[k..]) && CanonicalEntries(es[k..])
    requires depth + 1 + DepthEntries(es[k..]) <= MAX_DEPTH && d < PrintEntries(es[k..]) + [LETTER_E]
    ensures ParseEntries(d, depth, es[..k], if k == 0 then [] else es[k - 1].key) == Fail(UnexpectedEOF)
    decreases es[k..], 0
  {
    hide ParseEntries, ParseValue, ParseString, SetEntry, Less, PrintString, Print, PrintEntries, Depth, DepthEntries;
    var last := if k == 0 then [] else es[k - 1].key;
    if k == |es| {
      EndTruncated(es, d);
      NoEntries(depth, es[..k], last);
    } else if d == [] {
      NoEntries(depth, es[..k], last);
    } else {
      EntryAt(es, k);
      var e := es[k];
      var rest := PrintEntries(es[k + 1..]) + [LETTER_E];
      EntryCut(es, k);
      CutBetween(d, PrintString(e.key), Print(e.value) + rest);
      if d < PrintString(e.key) {
        StringTruncated(e.key, d);
        KeyFails(d, depth, es[..k], last);
      } else {
        var r := d[|PrintString(e.key)|..];
        StringRoundTrip(e.key, r);
        KeyAppended(es, k);
        EntryUnfold(d, depth, es[..k], last, e.key, r);
        CutBetween(r, Print(e.value), rest);
        if r < Print(e.value) {
          ValueTruncated(e.value, depth + 1, r);
        } else {
          var after := r[|Print(e.value)|..];
          ValueRoundTrip(e.value, depth + 1, after);
          EntriesTruncated(es, k + 1, depth, after);
        }
      }
    }
  }

  lemma EntryCut(es: seq<Entry>, k: nat)
    requires k < |es|
    ensures PrintEntries(es[k..]) + [LETTER_E]
         == PrintString(es[k].key) + (Print(es[k].value) + (PrintEntries(es[k + 1..]) + [LETTER_E]))
  {
    hide PrintString, Print;
    assert es[k..][1..] == es[k + 1..];
  }

  lemma NoEntries(depth: nat, es: seq<Entry>, last: bytes)
    ensures ParseEntries([], depth, es, last) == Fail(UnexpectedEOF)
  {
  }

  lemma EndTruncated(es: seq<Entry>, d: bytes)
    requires d < PrintEntries(es[|es|..]) + [LETTER_E]
    ensures d == []
  {
    assert |PrintEntries(es[|es|..]) + [LETTER_E]| == 1;
  }

  lemma KeyFails(d: bytes, depth: nat, es: seq<Entry>, last: bytes)
    requires d != [] && IsDigit(d[0]) && ParseString(d) == Fail(UnexpectedEOF)
    ensures ParseEntries(d, depth, es, last) == Fail(UnexpectedEOF)
  {
    hide ParseString, ParseEntry;
  }

  /** What `Marshal` wrote is read in full or found to end too early, never taken for something else. */
  lemma CutShort(v: Value, d: bytes)
    requires WellFormed(v) && Depth(v) <= MAX_DEPTH && d < Encode(v)
    ensures ParseValue(d, 0) == Fail(UnexpectedEOF)
  {
    hide ParseValue, Print;
    NormalGood(v);
    ValueTruncated(Normal(v), 0, d);
  }
}
