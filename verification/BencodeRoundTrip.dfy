/** Decoding an encoding gives the value back and leaves exactly what followed it. */
module BencodeRoundTrip {
  import opened Bytes
  import opened Arithmetic
  import opened Bencode
  import opened BencodeParse

  // ----- Numbers -----

  /** The decimal accumulation, first digit first. */
  function Combine(acc: nat, ds: bytes): nat
    requires AllDigits(ds)
    decreases |ds|
  {
    if ds == [] then acc else Combine(acc * 10 + DigitValue(ds[0]), ds[1..])
  }

  lemma {:induction false} CombineAppend(acc: nat, ds: bytes, x: byte)
    requires AllDigits(ds) && IsDigit(x)
    ensures Combine(acc, ds + [x]) == Combine(acc, ds) * 10 + DigitValue(x)
    decreases |ds|
  {
    if ds != [] {
      assert (ds + [x])[1..] == ds[1..] + [x];
      CombineAppend(acc * 10 + DigitValue(ds[0]), ds[1..], x);
    }
  }

  lemma {:induction false} CombineGrows(acc: nat, ds: bytes)
    requires AllDigits(ds)
    ensures acc <= Combine(acc, ds)
    decreases |ds|
  {
    if ds != [] {
      CombineGrows(acc * 10 + DigitValue(ds[0]), ds[1..]);
    }
  }

  lemma {:induction false} CombineDigits(n: nat)
    ensures Combine(0, Digits(n)) == n
  {
    if n >= 10 {
      CombineDigits(n / 10);
      CombineAppend(0, Digits(n / 10), ZERO + n % 10);
    }
  }

  lemma {:induction false} NatValueDigits(n: nat)
    ensures NatValue(Digits(n)) == n
  {
    var s := Digits(n);
    if n >= 10 {
      NatValueDigits(n / 10);
      assert s[..|s| - 1] == Digits(n / 10);
    } else {
      assert s[..0] == [];
    }
  }

  lemma {:induction false} NoLeadingZero(n: nat)
    ensures |Digits(n)| > 1 ==> Digits(n)[0] != ZERO
    ensures Digits(n)[0] == ZERO ==> n == 0
  {
    if n >= 10 {
      NoLeadingZero(n / 10);
    }
  }

  lemma {:induction false} DigitsLength(n: nat, k: nat)
    requires 1 <= k && n < Pow(10, k)
    ensures |Digits(n)| <= k
  {
    if n >= 10 {
      assert Pow(10, 1) == 10;
      assert n / 10 < Pow(10, k - 1);
      DigitsLength(n / 10, k - 1);
    }
  }

  lemma TenTo19()
    ensures Pow(10, 19) == 10000000000000000000
  {
    assert Pow(10, 3) == 1000;
    PowAdd(10, 3, 3);
    PowAdd(10, 6, 6);
    PowAdd(10, 12, 6);
    PowAdd(10, 18, 1);
    assert Pow(10, 1) == 10;
  }

  ghost predicate StartsWithDigit(s: bytes) {
    s != [] && IsDigit(s[0])
  }

  lemma {:induction false} DecimalOfDigits(ds: bytes, rest: bytes, acc: nat)
    requires AllDigits(ds) && !StartsWithDigit(rest)
    requires Combine(acc, ds) <= MAX_INT64
    ensures Decimal(ds + rest, acc) == Done(Combine(acc, ds), rest)
    decreases |ds|
  {
    if ds == [] {
      assert ds + rest == rest;
    } else {
      var next := acc * 10 + DigitValue(ds[0]);
      CombineGrows(next, ds[1..]);
      assert (ds + rest)[1..] == ds[1..] + rest;
      DecimalOfDigits(ds[1..], rest, next);
    }
  }

  /** A length-prefixed string is read back whatever follows it. */
  lemma StringRoundTrip(s: bytes, suffix: bytes)
    requires |s| <= MAX_INT64
    ensures ParseString(PrintString(s) + suffix) == Done(s, suffix)
    ensures StartsWithDigit(PrintString(s) + suffix)
  {
    hide Digits, Combine;
    var ds := Digits(|s|);
    var d := PrintString(s) + suffix;
    var rest := [COLON] + s + suffix;
    CombineDigits(|s|);
    CombineFirst(ds);
    assert d == ds + rest && d[1..] == ds[1..] + rest;
    DecimalOfDigits(ds[1..], rest, DigitValue(ds[0]));
    assert rest[1..1 + |s|] == s && rest[1 + |s|..] == suffix;
  }

  lemma CombineFirst(ds: bytes)
    requires AllDigits(ds) && ds != []
    ensures Combine(0, ds) == Combine(DigitValue(ds[0]), ds[1..])
  {
  }

  lemma {:induction false} RunOfDigits(ds: bytes, rest: bytes)
    requires AllDigits(ds) && !StartsWithDigit(rest)
    ensures DigitRun(ds + rest) == |ds|
    decreases |ds|
  {
    if ds == [] {
      assert ds + rest == rest;
    } else {
      assert (ds + rest)[1..] == ds[1..] + rest;
      RunOfDigits(ds[1..], rest);
    }
  }

  lemma DigitsRoundTrip(n: nat, negative: bool, suffix: bytes)
    requires if negative then n <= -MIN_INT64 else n <= MAX_INT64
    ensures ParseDigits(negative, negative, Digits(n) + [LETTER_E] + suffix) == Done(if negative then 0 - n else n, suffix)
  {
    var ds := Digits(n);
    var d := ds + [LETTER_E] + suffix;
    var rest := [LETTER_E] + suffix;
    assert d == ds + rest;
    RunOfDigits(ds, rest);
    NatValueDigits(n);
    NoLeadingZero(n);
    TenTo19();
    DigitsLength(n, 19);
    assert d[..|ds|] == ds && d[|ds| + 1..] == suffix;
  }

  lemma IntRoundTrip(i: int, suffix: bytes)
    requires MIN_INT64 <= i <= MAX_INT64
    ensures ParseInt(IntText(i) + [LETTER_E] + suffix) == Done(i, suffix)
  {
    var d := IntText(i) + [LETTER_E] + suffix;
    if i < 0 {
      assert d[1..] == Digits(-i) + [LETTER_E] + suffix;
      DigitsRoundTrip(-i, true, suffix);
    } else {
      DigitsRoundTrip(i, false, suffix);
    }
  }

  // ----- Values -----

  function Within<T>(fits: bool, value: T, rest: bytes): Parsed<T> {
    if fits then Done(value, rest) else Fail(TooDeep)
  }

  lemma {:induction false} SetFresh(es: seq<Entry>, key: bytes, value: Value)
    requires forall k :: 0 <= k < |es| ==> es[k].key != key
    ensures SetEntry(es, key, value) == es + [Entry(key, value)]
  {
    if es != [] {
      SetFresh(es[1..], key, value);
    }
  }

  /**
    A canonical value is read back, and exactly its encoding is consumed, if it
    is not nested too deep for the depth it is read at; otherwise the decoder
    reports that.
   */
  lemma {:induction false} ValueRoundTrip(v: Value, depth: nat, suffix: bytes)
    requires WellFormed(v) && Canonical(v)
    ensures ParseValue(Print(v) + suffix, depth) == Within(depth + Depth(v) <= MAX_DEPTH || Depth(v) == 0, v, suffix)
    decreases v, 1
  {
    var d := Print(v) + suffix;
    match v
    case Str(s) =>
      StringRoundTrip(s, suffix);
    case Int(i) =>
      assert d[1..] == IntText(i) + [LETTER_E] + suffix;
      IntRoundTrip(i, suffix);
    case List(items) =>
      assert d[1..] == PrintList(items) + [LETTER_E] + suffix;
      if depth < MAX_DEPTH {
        ItemsRoundTrip(items, depth, suffix);
      }
    case Dict(es) =>
      assert d[1..] == PrintEntries(es) + [LETTER_E] + suffix;
      if depth < MAX_DEPTH {
        EntriesRoundTrip(es, 0, depth, suffix);
        assert es[0..] == es && es[..0] == [];
      }
  }

  lemma {:induction false} ItemsRoundTrip(vs: seq<Value>, depth: nat, suffix: bytes)
    requires WellFormedList(vs) && CanonicalList(vs) && depth < MAX_DEPTH
    ensures ParseItems(PrintList(vs) + [LETTER_E] + suffix, depth) == Within(depth + 1 + DepthList(vs) <= MAX_DEPTH, vs, suffix)
    decreases vs, 0
  {
    var d := PrintList(vs) + [LETTER_E] + suffix;
    if vs == [] {
      assert d[1..] == suffix;
    } else {
      var after := PrintList(vs[1..]) + [LETTER_E] + suffix;
      assert d == Print(vs[0]) + after;
      ValueStarts(vs[0]);
      ValueRoundTrip(vs[0], depth + 1, after);
      ItemsRoundTrip(vs[1..], depth, suffix);
      assert vs == [vs[0]] + vs[1..];
    }
  }

  /** An encoding starts with a digit or one of three letters, never with the end marker. */
  lemma ValueStarts(v: Value)
    ensures Print(v)[0] != LETTER_E
  {
    if v.Str? {
      assert IsDigit(Digits(|v.s|)[0]);
    }
  }

  lemma EntryUnfold(d: bytes, depth: nat, es: seq<Entry>, last: bytes, key: bytes, r: bytes)
    requires StartsWithDigit(d) && ParseString(d) == Done(key, r) && (last == [] || !Less(key, last))
    ensures ParseEntries(d, depth, es, last) ==
      match ParseValue(r, depth + 1)
      case Fail(e) => Fail(e)
      case Done(v, r') => ParseEntries(r', depth, SetEntry(es, key, v), key)
  {
  }

  /** From entry k on, with the first k already read. */
  lemma {:induction false} EntriesRoundTrip(es: seq<Entry>, k: nat, depth: nat, suffix: bytes)
    requires k <= |es| && SortedKeys(es) && WellFormedEntries(es[k..]) && CanonicalEntries(es[k..]) && depth < MAX_DEPTH
    ensures ParseEntries(PrintEntries(es[k..]) + [LETTER_E] + suffix, depth, es[..k], if k == 0 then [] else es[k - 1].key)
         == Within(depth + 1 + DepthEntries(es[k..]) <= MAX_DEPTH, es, suffix)
    decreases es[k..], 0
  {
    hide ParseEntries, ParseValue, ParseString, SetEntry, Less, PrintString, Print, PrintEntries, Depth, DepthEntries;
    var last := if k == 0 then [] else es[k - 1].key;
    if k == |es| {
      EntriesEnd(es, depth, last, suffix);
    } else {
      EntryAt(es, k);
      var e := es[k];
      var after := PrintEntries(es[k + 1..]) + [LETTER_E] + suffix;
      var d := PrintEntries(es[k..]) + [LETTER_E] + suffix;
      EntryPrinted(es, k, suffix);
      StringRoundTrip(e.key, Print(e.value) + after);
      ValueRoundTrip(e.value, depth + 1, after);
      KeyAppended(es, k);
      EntryUnfold(d, depth, es[..k], last, e.key, Print(e.value) + after);
      EntriesRoundTrip(es, k + 1, depth, suffix);
      FitsBoth(depth, Depth(e.value), DepthEntries(es[k + 1..]));
    }
  }

  lemma EntriesEnd(es: seq<Entry>, depth: nat, last: bytes, suffix: bytes)
    requires depth < MAX_DEPTH
    ensures ParseEntries(PrintEntries(es[|es|..]) + [LETTER_E] + suffix, depth, es[..|es|], last)
         == Within(depth + 1 + DepthEntries(es[|es|..]) <= MAX_DEPTH, es, suffix)
  {
    var d := PrintEntries(es[|es|..]) + [LETTER_E] + suffix;
    assert d[1..] == suffix && es[..|es|] == es;
  }

  lemma EntryAt(es: seq<Entry>, k: nat)
    requires k < |es| && WellFormedEntries(es[k..]) && CanonicalEntries(es[k..])
    ensures WellFormedEntries(es[k + 1..]) && CanonicalEntries(es[k + 1..])
    ensures |es[k].key| <= MAX_INT64 && WellFormed(es[k].value) && Canonical(es[k].value)
    ensures DepthEntries(es[k..]) == Max(Depth(es[k].value), DepthEntries(es[k + 1..]))
    ensures es[k + 1..] == es[k..][1..] && es[k] == es[k..][0]
    ensures |es[k + 1..]| < |es[k..]|
  {
  }

  lemma EntryPrinted(es: seq<Entry>, k: nat, suffix: bytes)
    requires k < |es|
    ensures PrintEntries(es[k..]) + [LETTER_E] + suffix
         == PrintString(es[k].key) + (Print(es[k].value) + (PrintEntries(es[k + 1..]) + [LETTER_E] + suffix))
  {
    hide PrintString, Print;
    assert es[k..][1..] == es[k + 1..];
  }

  lemma KeyAppended(es: seq<Entry>, k: nat)
    requires k < |es| && SortedKeys(es)
    ensures SetEntry(es[..k], es[k].key, es[k].value) == es[..k + 1]
    ensures k > 0 ==> !Less(es[k].key, es[k - 1].key)
  {
    SortedDistinct(es);
    SetFresh(es[..k], es[k].key, es[k].value);
    assert es[..k] + [Entry(es[k].key, es[k].value)] == es[..k + 1];
    if k > 0 {
      assert Less(es[k - 1].key, es[k].key);
      LessTotal(es[k - 1].key, es[k].key);
    }
  }

  lemma FitsBoth(depth: nat, a: nat, b: nat)
    requires depth < MAX_DEPTH
    ensures depth + 1 + Max(a, b) <= MAX_DEPTH <==> depth + 1 + a <= MAX_DEPTH && depth + 1 + b <= MAX_DEPTH
    ensures depth + 1 + a <= MAX_DEPTH || a == 0 <==> depth + 1 + a <= MAX_DEPTH
  {
  }

  /**
    Decoding what `Marshal` wrote, whatever follows it: the value with its
    dictionary keys sorted if at most 50 containers are nested, an error
    otherwise.
   */
  lemma DecodeEncode(v: Value, suffix: bytes)
    requires WellFormed(v)
    ensures ParseValue(Encode(v) + suffix, 0)
         == if Depth(v) <= MAX_DEPTH then Done(Normal(v), suffix) else Fail(TooDeep)
  {
    NormalGood(v);
    ValueRoundTrip(Normal(v), 0, suffix);
  }

  /** Encoding once more what was decoded gives the same bytes. */
  lemma EncodeStable(v: Value)
    requires WellFormed(v)
    ensures Encode(Normal(v)) == Encode(v)
  {
    NormalGood(v);
    NormalFixed(Normal(v));
  }
}
