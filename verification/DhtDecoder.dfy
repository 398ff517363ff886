/** The DHT's own bencode decoder: a scanner over a byte slice, without depth limit or key order. */
module DhtDecoder {
  import opened Bytes
  import opened Bencode
  import opened BencodeParse
  import opened BencodeRoundTrip
  import opened BencodeAccepts

  /**
    `NoValue` stands for every reported error; `Panic` for a slice expression
    whose bounds are out of range, which ends the process.
   */
  datatype Scanned<+T> = Got(value: T, rest: bytes) | NoValue | Panic

  /** Go's wrap-around at 64 bits. */
  function Wrap(n: int): int {
    (n + 0x8000_0000_0000_0000) % 0x1_0000_0000_0000_0000 - 0x8000_0000_0000_0000
  }

  // In all functions below `t` is what is left of `total` bytes of data, so
  // that the scanner's position is `total - |t|`.

  /** The digits of a length, the colon behind them found and leading zeros refused. */
  predicate LengthHeader(t: bytes) {
    var k := DigitRun(t);
    k < |t| && t[k] == COLON && !(k > 1 && t[0] == ZERO)
  }

  /** The sum of position and length is compared with the size of the data, after it has wrapped. */
  function ScanString(t: bytes, total: nat): (r: Scanned<bytes>)
    ensures r.Got? ==> |r.rest| < |t|
  {
    if !LengthHeader(t) then NoValue
    else
      var k := DigitRun(t);
      var pos := total - |t| + k + 1;
      var n := Wrap(NatValue(t[..k]));
      var end := Wrap(pos + n);
      if end > total then NoValue
      else if !(0 <= pos <= end) then Panic
      else Got(t[k + 1..k + 1 + (end - pos)], t[k + 1 + (end - pos)..])
  }

  /** The digits of an integer; the sign, if any, is before `u`. */
  function ScanDigits(negative: bool, u: bytes): (r: Scanned<int>)
    ensures r.Got? ==> |r.rest| < |u|
    ensures !r.Panic?
  {
    if u == [] || u[0] == 0 || u[0] == LETTER_E then NoValue
    else if u[0] == ZERO then
      if |u| > 1 && u[1] == LETTER_E then Got(0, u[2..]) else NoValue
    else
      var k := DigitRun(u);
      if k == |u| || u[k] != LETTER_E then NoValue
      else
        var n := Wrap(NatValue(u[..k]));
        Got(if negative then Wrap(-n) else n, u[k + 1..])
  }

  /** `t` is what follows the letter i. */
  function ScanInt(t: bytes): (r: Scanned<int>)
    ensures r.Got? ==> |r.rest| < |t|
    ensures !r.Panic?
  {
    if t != [] && t[0] == MINUS then ScanDigits(true, t[1..]) else ScanDigits(false, t)
  }

  function ScanValue(t: bytes, total: nat): (r: Scanned<Value>)
    ensures r.Got? ==> |r.rest| < |t|
    decreases |t|, 1
  {
    if t == [] then NoValue
    else if IsDigit(t[0]) then
      match ScanString(t, total)
      case NoValue => NoValue
      case Panic => Panic
      case Got(s, r) => Got(Str(s), r)
    else if t[0] == LETTER_I then
      match ScanInt(t[1..])
      case NoValue => NoValue
      case Panic => Panic
      case Got(i, r) => Got(Int(i), r)
    else if t[0] == LETTER_L then
      match ScanItems(t[1..], total)
      case NoValue => NoValue
      case Panic => Panic
      case Got(vs, r) => Got(List(vs), r)
    else if t[0] == LETTER_D then
      match ScanEntries(t[1..], total, [])
      case NoValue => NoValue
      case Panic => Panic
      case Got(es, r) => Got(Dict(es), r)
    else NoValue
  }

  function ScanItems(t: bytes, total: nat): (r: Scanned<seq<Value>>)
    ensures r.Got? ==> |r.rest| < |t|
    decreases |t|, 2
  {
    if t == [] then NoValue
    else if t[0] == LETTER_E then Got([], t[1..])
    else
      match ScanValue(t, total)
      case NoValue => NoValue
      case Panic => Panic
      case Got(v, r) => Prepend(v, ScanItems(r, total))
  }

  function Prepend(v: Value, s: Scanned<seq<Value>>): Scanned<seq<Value>> {
    match s
    case NoValue => NoValue
    case Panic => Panic
    case Got(vs, r) => Got([v] + vs, r)
  }

  function ScanEntries(t: bytes, total: nat, es: seq<Entry>): (r: Scanned<seq<Entry>>)
    ensures r.Got? ==> |r.rest| < |t|
    decreases |t|, 2
  {
    if t == [] then NoValue
    else if t[0] == LETTER_E then Got(es, t[1..])
    else if !IsDigit(t[0]) then NoValue
    else
      match ScanString(t, total)
      case NoValue => NoValue
      case Panic => Panic
      case Got(key, r) => ScanEntry(r, total, es, key)
  }

  function ScanEntry(t: bytes, total: nat, es: seq<Entry>, key: bytes): (r: Scanned<seq<Entry>>)
    ensures r.Got? ==> |r.rest| < |t|
    decreases |t|, 3
  {
    match ScanValue(t, total)
    case NoValue => NoValue
    case Panic => Panic
    case Got(v, r) => ScanEntries(r, total, SetEntry(es, key, v))
  }

  // ----- Lengths -----

  lemma WrapNoop(n: int)
    ensures MIN_INT64 <= Wrap(n) <= MAX_INT64
    ensures Wrap(n) == n <==> MIN_INT64 <= n <= MAX_INT64
  {
  }

  /** Where the bytes of a string begin and how many the wrapped header asks for. */
  function StringStart(t: bytes, total: nat): int {
    total - |t| + DigitRun(t) + 1
  }

  function AskedLength(t: bytes): int {
    Wrap(NatValue(t[..DigitRun(t)]))
  }

  lemma OverflowWraps(pos: int, n: int)
    requires 0 <= pos <= MAX_INT64 && MIN_INT64 <= n <= MAX_INT64
    ensures pos + n > MAX_INT64 ==> Wrap(pos + n) < 0
    ensures pos + n <= MAX_INT64 ==> Wrap(pos + n) == pos + n
  {
  }

  /**
    On data of any size a process can hold, reading a string panics exactly
    when its header is accepted and the length, wrapped, is negative or runs
    past the largest position; otherwise it is refused exactly when the data is
    too short for it.
   */
  lemma StringPanics(t: bytes, total: nat)
    requires |t| <= total <= MAX_INT64
    ensures ScanString(t, total) == Panic <==>
              LengthHeader(t) && (AskedLength(t) < 0 || StringStart(t, total) + AskedLength(t) > MAX_INT64)
    ensures ScanString(t, total).Got? <==>
              LengthHeader(t) && 0 <= AskedLength(t) && StringStart(t, total) + AskedLength(t) <= total
  {
    hide Wrap, DigitRun, NatValue;
    if LengthHeader(t) {
      WrapNoop(NatValue(t[..DigitRun(t)]));
      OverflowWraps(StringStart(t, total), AskedLength(t));
    }
  }

  /** A length of 2^63 or a little more, with whatever follows the colon, is such a header. */
  lemma LongLengthPanics(m: nat, rest: bytes)
    requires m < 0x8000_0000_0000_0000
    requires var t := Digits(0x8000_0000_0000_0000 + m) + [COLON] + rest; |t| <= MAX_INT64
    ensures var t := Digits(0x8000_0000_0000_0000 + m) + [COLON] + rest;
            ScanString(t, |t|) == Panic && ScanValue(t, |t|) == Panic
  {
    hide Digits, NatValue, DigitRun, ScanString;
    var n := 0x8000_0000_0000_0000 + m;
    var ds := Digits(n);
    var t := ds + [COLON] + rest;
    HeaderOf(n, rest);
    StringPanics(t, |t|);
    assert t[0] == ds[0] && IsDigit(ds[0]);
  }

  lemma HeaderOf(n: nat, rest: bytes)
    ensures var t := Digits(n) + [COLON] + rest;
            && LengthHeader(t) && DigitRun(t) == |Digits(n)|
            && t[..|Digits(n)|] == Digits(n) && NatValue(t[..DigitRun(t)]) == n
  {
    hide Digits, NatValue, DigitRun;
    var ds := Digits(n);
    var t := ds + [COLON] + rest;
    assert t == ds + ([COLON] + rest);
    RunOfDigits(ds, [COLON] + rest);
    NoLeadingZero(n);
    NatValueDigits(n);
    assert t[..|ds|] == ds;
  }

  // ----- Scanning an encoding -----

  lemma ScanPrintedString(s: bytes, suffix: bytes, total: nat)
    requires |PrintString(s) + suffix| <= total <= MAX_INT64
    ensures ScanString(PrintString(s) + suffix, total) == Got(s, suffix)
    ensures StartsWithDigit(PrintString(s) + suffix)
  {
    hide Digits, Wrap, NatValue, DigitRun;
    var ds, t := Digits(|s|), PrintString(s) + suffix;
    assert t == ds + [COLON] + (s + suffix);
    HeaderOf(|s|, s + suffix);
    WrapNoop(|s|);
    OverflowWraps(StringStart(t, total), |s|);
    assert t[|ds| + 1..|ds| + 1 + |s|] == s && t[|ds| + 1 + |s|..] == suffix;
  }

  // ----- Integers -----

  lemma WrapNegated(n: int)
    ensures Wrap(-Wrap(n)) == Wrap(-n)
  {
    var m := 0x1_0000_0000_0000_0000;
    var h := 0x8000_0000_0000_0000;
    var q := (n + h) / m;
    assert Wrap(n) == n - q * m;
    SameModulo(-n + h, -q);
  }

  lemma SameModulo(x: int, k: int)
    ensures (x - k * 0x1_0000_0000_0000_0000) % 0x1_0000_0000_0000_0000 == x % 0x1_0000_0000_0000_0000
  {
  }

  lemma ScanPrintedDigits(n: nat, negative: bool, suffix: bytes)
    ensures ScanDigits(negative, Digits(n) + [LETTER_E] + suffix) == Got(Wrap(if negative then 0 - n else n), suffix)
  {
    var u := Digits(n) + [LETTER_E] + suffix;
    if n == 0 {
      assert u[2..] == suffix;
    } else {
      ScanPrintedPositive(n, negative, suffix);
    }
  }

  lemma ScanPrintedPositive(n: nat, negative: bool, suffix: bytes)
    requires n > 0
    ensures ScanDigits(negative, Digits(n) + [LETTER_E] + suffix) == Got(Wrap(if negative then 0 - n else n), suffix)
  {
    hide Digits, Wrap, NatValue, DigitRun;
    var ds := Digits(n);
    var u := ds + [LETTER_E] + suffix;
    NoLeadingZero(n);
    NatValueDigits(n);
    assert u == ds + ([LETTER_E] + suffix);
    RunOfDigits(ds, [LETTER_E] + suffix);
    assert u[..|ds|] == ds && u[|ds| + 1..] == suffix;
    WrapNegated(n);
  }

  /** The number written is read modulo 2^64, so it is read as written exactly when it fits 64 bits. */
  lemma ScanPrintedInt(i: int, suffix: bytes)
    ensures ScanInt(IntText(i) + [LETTER_E] + suffix) == Got(Wrap(i), suffix)
    ensures ScanInt(IntText(i) + [LETTER_E] + suffix) == Got(i, suffix) <==> MIN_INT64 <= i <= MAX_INT64
  {
    hide Digits, ScanDigits, Wrap;
    WrapNoop(i);
    var t := IntText(i) + [LETTER_E] + suffix;
    if i < 0 {
      assert t[1..] == Digits(-i) + [LETTER_E] + suffix;
      ScanPrintedDigits(-i, true, suffix);
    } else {
      assert IsDigit(Digits(i)[0]);
      ScanPrintedDigits(i, false, suffix);
    }
  }

  // ----- Values -----

  /** Every value, however deep and whatever the order of its keys, is read back; exactly its text is consumed. */
  lemma {:induction false} ScanPrinted(v: Value, suffix: bytes, total: nat)
    requires WellFormed(v) && |Print(v) + suffix| <= total <= MAX_INT64
    ensures ScanValue(Print(v) + suffix, total) == Got(v, suffix)
    decreases v, 1
  {
    hide ScanString, ScanInt, ScanItems, ScanEntries, PrintString;
    var t := Print(v) + suffix;
    match v
    case Str(s) =>
      ScanPrintedString(s, suffix, total);
    case Int(i) =>
      assert t[1..] == IntText(i) + [LETTER_E] + suffix;
      ScanPrintedInt(i, suffix);
    case List(items) =>
      assert t[1..] == PrintList(items) + [LETTER_E] + suffix;
      ScanPrintedList(items, suffix, total);
    case Dict(es) =>
      assert t[1..] == PrintEntries(es) + [LETTER_E] + suffix;
      assert es[0..] == es && es[..0] == [];
      ScanPrintedEntries(es, 0, suffix, total);
  }

  lemma {:induction false} ScanPrintedList(vs: seq<Value>, suffix: bytes, total: nat)
    requires WellFormedList(vs) && |PrintList(vs) + [LETTER_E] + suffix| <= total <= MAX_INT64
    ensures ScanItems(PrintList(vs) + [LETTER_E] + suffix, total) == Got(vs, suffix)
    decreases vs, 0
  {
    hide ScanValue, Print;
    var t := PrintList(vs) + [LETTER_E] + suffix;
    if vs == [] {
      assert t[1..] == suffix;
    } else {
      var rest := PrintList(vs[1..]) + [LETTER_E] + suffix;
      assert t == Print(vs[0]) + rest;
      ValueStarts(vs[0]);
      ScanPrinted(vs[0], rest, total);
      ScanPrintedList(vs[1..], suffix, total);
      assert vs == [vs[0]] + vs[1..];
    }
  }

  lemma ScanEntriesEnd(es: seq<Entry>, suffix: bytes, total: nat)
    ensures ScanEntries(PrintEntries(es[|es|..]) + [LETTER_E] + suffix, total, es[..|es|]) == Got(es, suffix)
  {
    var t := PrintEntries(es[|es|..]) + [LETTER_E] + suffix;
    assert t[1..] == suffix && es[..|es|] == es;
  }

  lemma ScanEntryUnfold(t: bytes, total: nat, es: seq<Entry>, key: bytes, r: bytes, v: Value, r': bytes)
    requires StartsWithDigit(t) && ScanString(t, total) == Got(key, r) && ScanValue(r, total) == Got(v, r')
    ensures ScanEntries(t, total, es) == ScanEntries(r', total, SetEntry(es, key, v))
  {
  }

  lemma {:induction false} ScanPrintedEntries(es: seq<Entry>, k: nat, suffix: bytes, total: nat)
    requires k <= |es| && DistinctKeys(es) && WellFormedEntries(es[k..])
    requires |PrintEntries(es[k..]) + [LETTER_E] + suffix| <= total <= MAX_INT64
    ensures ScanEntries(PrintEntries(es[k..]) + [LETTER_E] + suffix, total, es[..k]) == Got(es, suffix)
    decreases es[k..], 0
  {
    hide ScanEntries, ScanValue, ScanString, SetEntry, Less, PrintString, Print, PrintEntries;
    if k == |es| {
      ScanEntriesEnd(es, suffix, total);
    } else {
      assert es[k + 1..] == es[k..][1..] && es[k] == es[k..][0];
      var e := es[k];
      var after := PrintEntries(es[k + 1..]) + [LETTER_E] + suffix;
      var t := PrintEntries(es[k..]) + [LETTER_E] + suffix;
      EntryPrinted(es, k, suffix);
      ScanPrintedString(e.key, Print(e.value) + after, total);
      ScanPrinted(e.value, after, total);
      SetFresh(es[..k], e.key, e.value);
      assert es[..k] + [Entry(e.key, e.value)] == es[..k + 1];
      ScanEntryUnfold(t, total, es[..k], e.key, Print(e.value) + after, e.value, after);
      ScanPrintedEntries(es, k + 1, suffix, total);
    }
  }

  // ----- The two decoders -----

  /**
    On a printed value this decoder always returns the value; the stream
    decoder returns the same exactly when the keys are in order at every level
    and at most 50 containers are nested, and refuses it otherwise.
   */
  lemma DecodersAgreeExactly(v: Value, suffix: bytes)
    requires WellFormed(v) && |Print(v) + suffix| <= MAX_INT64
    ensures ScanValue(Print(v) + suffix, |Print(v) + suffix|) == Got(v, suffix)
    ensures ParseValue(Print(v) + suffix, 0) == Done(v, suffix) <==> Canonical(v) && Depth(v) <= MAX_DEPTH
    ensures ParseValue(Print(v) + suffix, 0).Fail? <==> !(Canonical(v) && Depth(v) <= MAX_DEPTH)
  {
    hide ScanValue, ParseValue, Print;
    ScanPrinted(v, suffix, |Print(v) + suffix|);
    PrintedExactly(v, suffix);
  }

  /**
    On what the encoder writes the two decoders agree, on value and on what is
    left, exactly as long as at most 50 containers are nested.
   */
  lemma DecodersAgree(v: Value, suffix: bytes)
    requires WellFormed(v) && |Encode(v) + suffix| <= MAX_INT64
    ensures ScanValue(Encode(v) + suffix, |Encode(v) + suffix|) == Got(Normal(v), suffix)
    ensures ParseValue(Encode(v) + suffix, 0) == Done(Normal(v), suffix) <==> Depth(v) <= MAX_DEPTH
  {
    hide ScanValue, ParseValue, Print;
    NormalGood(v);
    ScanPrinted(Normal(v), suffix, |Encode(v) + suffix|);
    DecodeEncode(v, suffix);
  }

  /** Zeros before the length of a string are read over by the stream decoder and refused by this one. */
  lemma LeadingZerosDiffer(k: nat, s: bytes, suffix: bytes)
    requires k > 0
    requires var t := ZeroDigits(k) + PrintString(s) + suffix; |t| <= MAX_INT64
    ensures var t := ZeroDigits(k) + PrintString(s) + suffix;
            ParseValue(t, 0) == Done(Str(s), suffix) && ScanValue(t, |t|) == NoValue
  {
    hide ParseString, Digits, DigitRun, NatValue;
    var ds, t := Digits(|s|), ZeroDigits(k) + PrintString(s) + suffix;
    LeadingZerosRead(k, s, suffix);
    var zs := ZeroDigits(k) + ds;
    assert AllDigits(zs);
    assert t == zs + ([COLON] + s + suffix);
    RunOfDigits(zs, [COLON] + s + suffix);
    assert t[0] == ZERO && !LengthHeader(t);
  }
}
