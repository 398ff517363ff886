/** Exactly which texts of strings and integers are read, and what happens when a text ends too early. */
module BencodeForms {
  import opened Bytes
  import opened Bencode
  import opened BencodeParse
  import opened BencodeRoundTrip
  import opened BencodeAccepts
  import opened DhtDecoder

  // ----- Strings -----

  /** Any digits that give the length, a colon, and the bytes. */
  ghost predicate StringForm(d: bytes, ds: bytes, s: bytes, rest: bytes) {
    && AllDigits(ds) && ds != [] && NatValue(ds) == |s| <= MAX_INT64 && d == ds + [COLON] + s + rest
  }

  lemma CutAt(d: bytes, k: nat)
    requires k < |d|
    ensures d == d[..k] + [d[k]] + d[k + 1..]
  {
  }

  lemma RunIsDigits(d: bytes, k: nat)
    requires k == DigitRun(d)
    ensures AllDigits(d[..k]) && (k == 0 && d != [] ==> !IsDigit(d[0]))
  {
  }

  lemma DigitsSplit(d: bytes, k: nat)
    requires k == DigitRun(d) && k < |d|
    ensures AllDigits(d[..k]) && d == d[..k] + [d[k]] + d[k + 1..] && (k == 0 ==> !IsDigit(d[0]))
  {
    hide *;
    CutAt(d, k);
    RunIsDigits(d, k);
  }

  lemma {:induction false} CombineIsValue(ds: bytes)
    requires AllDigits(ds)
    ensures Combine(0, ds) == NatValue(ds)
    decreases |ds|
  {
    if ds != [] {
      var n := |ds| - 1;
      CombineIsValue(ds[..n]);
      CombineAppend(0, ds[..n], ds[n]);
      assert ds == ds[..n] + [ds[n]];
    }
  }

  lemma {:induction false} DecimalReads(d: bytes, acc: nat)
    requires acc <= MAX_INT64 && Decimal(d, acc).Done?
    ensures var k, r := DigitRun(d), Decimal(d, acc);
            r.rest == d[k..] && r.value == Combine(acc, d[..k]) <= MAX_INT64
    decreases |d|
  {
    if d != [] && IsDigit(d[0]) {
      var next := acc * 10 + DigitValue(d[0]);
      assert next <= MAX_INT64 by { NoOverflow(acc, DigitValue(d[0])); }
      DecimalReads(d[1..], next);
      var k := DigitRun(d);
      assert d[..k][1..] == d[1..][..k - 1] && d[1..][k - 1..] == d[k..];
    }
  }

  lemma NoOverflow(acc: nat, x: nat)
    requires x < 10 && (MAX_INT64 - x) / 10 >= acc
    ensures acc * 10 + x <= MAX_INT64
  {
  }

  lemma DigitsBehind(c: byte, ds: bytes)
    requires IsDigit(c) && AllDigits(ds)
    ensures AllDigits([c] + ds) && NatValue([c] + ds) == Combine(DigitValue(c), ds)
  {
    hide IsDigit, NatValue, Combine, DigitValue;
    var all := [c] + ds;
    assert AllDigits(all);
    assert all[1..] == ds;
    CombineFirst(all);
    CombineIsValue(all);
  }

  lemma StringUnfold(d: bytes, s: bytes, rest: bytes) returns (r: bytes)
    requires ParseString(d) == Done(s, rest)
    ensures d != [] && IsDigit(d[0]) && r == [COLON] + s + rest
    ensures Decimal(d[1..], DigitValue(d[0])) == Done(|s|, r)
  {
    hide Decimal;
    r := Decimal(d[1..], DigitValue(d[0])).rest;
    assert r == [COLON] + r[1..];
  }

  lemma StringRead(d: bytes, s: bytes, rest: bytes) returns (ds: bytes)
    requires ParseString(d) == Done(s, rest)
    ensures StringForm(d, ds, s, rest)
  {
    hide ParseString, Decimal, Combine, NatValue, DigitRun, AllDigits;
    var r := StringUnfold(d, s, rest);
    DecimalReads(d[1..], DigitValue(d[0]));
    var k := DigitRun(d[1..]);
    var more := d[1..][..k];
    RunIsDigits(d[1..], k);
    DigitsBehind(d[0], more);
    ds := [d[0]] + more;
    assert d[1..] == more + r;
    assert d == [d[0]] + d[1..];
    assert d == ds + r;
  }

  lemma StringAccepted(d: bytes, ds: bytes, s: bytes, rest: bytes)
    requires StringForm(d, ds, s, rest)
    ensures ParseString(d) == Done(s, rest)
  {
    hide Combine, NatValue, Decimal;
    var r := [COLON] + s + rest;
    CombineFirst(ds);
    CombineIsValue(ds);
    assert d == ds + r && d[1..] == ds[1..] + r;
    DecimalOfDigits(ds[1..], r, DigitValue(ds[0]));
    assert r[1..1 + |s|] == s && r[1 + |s|..] == rest;
  }

  /** A string is read exactly from its length in digits, any zeros before it, a colon and its bytes. */
  lemma StringExact(d: bytes, s: bytes, rest: bytes)
    ensures ParseString(d) == Done(s, rest) <==> exists ds :: StringForm(d, ds, s, rest)
  {
    hide ParseString, StringForm;
    if ParseString(d) == Done(s, rest) {
      var ds := StringRead(d, s, rest);
    }
    if ds :| StringForm(d, ds, s, rest) {
      StringAccepted(d, ds, s, rest);
    }
  }

  // ----- Integers -----

  predicate Sign(b: bytes) {
    b == [] || b == [MINUS] || b == [PLUS]
  }

  /** A sign or none, digits without a superfluous zero, at most 24 characters, and a value of 64 bits. */
  ghost predicate IntForm(text: bytes, sign: bytes, ds: bytes, i: int) {
    && Sign(sign) && AllDigits(ds) && ds != [] && text == sign + ds
    && |text| <= 24 && (|ds| == 1 || ds[0] != ZERO)
    && i == (if sign == [MINUS] then 0 - NatValue(ds) else NatValue(ds)) && MIN_INT64 <= i <= MAX_INT64
  }

  /** A number that goes on like a floating-point one. */
  ghost predicate FloatForm(text: bytes, sign: bytes, ds: bytes, more: bytes) {
    && Sign(sign) && AllDigits(ds) && ds != [] && text == sign + ds + more
    && more != [] && (more[0] == DOT || more[0] == UPPER_E || more[0] == PLUS || more[0] == MINUS)
    && forall k :: 0 <= k < |more| ==> FloatChar(more[k]) && more[k] != LETTER_E
  }

  ghost predicate Spells(text: bytes, i: int) {
    || (exists sign, ds :: IntForm(text, sign, ds, i))
    || (i == 0 && exists sign, ds, more :: FloatForm(text, sign, ds, more))
  }

  lemma {:induction false} FloatRead(d: bytes) returns (more: bytes)
    requires SkipFloat(d).Done?
    ensures SkipFloat(d).value == 0 && d == more + [LETTER_E] + SkipFloat(d).rest
    ensures forall k :: 0 <= k < |more| ==> FloatChar(more[k]) && more[k] != LETTER_E
    decreases |d|
  {
    if d[0] == LETTER_E {
      more := [];
      assert d == [LETTER_E] + d[1..];
    } else {
      var m := FloatRead(d[1..]);
      more := [d[0]] + m;
      assert d == [d[0]] + d[1..];
    }
  }

  lemma {:induction false} FloatAccepted(more: bytes, rest: bytes)
    requires forall k :: 0 <= k < |more| ==> FloatChar(more[k]) && more[k] != LETTER_E
    ensures SkipFloat(more + [LETTER_E] + rest) == Done(0, rest)
    decreases |more|
  {
    var d := more + [LETTER_E] + rest;
    if more == [] {
      assert d[1..] == rest;
    } else {
      assert d[1..] == more[1..] + [LETTER_E] + rest;
      FloatAccepted(more[1..], rest);
    }
  }

  lemma FloatDigitsRead(sign: bytes, d: bytes, k: nat) returns (text: bytes)
    requires Sign(sign) && 0 < k < |d| && AllDigits(d[..k]) && d[k] != LETTER_E && SkipFloat(d[k..]).Done?
    requires d[k] == DOT || d[k] == UPPER_E || d[k] == PLUS || d[k] == MINUS
    ensures SkipFloat(d[k..]).value == 0
    ensures sign + d == text + [LETTER_E] + SkipFloat(d[k..]).rest && Spells(text, 0)
  {
    hide NatValue, SkipFloat, IntForm;
    var more := FloatRead(d[k..]);
    var ds := d[..k];
    text := sign + ds + more;
    assert d == ds + d[k..];
    assert more != [] && more[0] == d[k];
    assert FloatForm(text, sign, ds, more);
  }

  lemma DigitsRead(sign: bytes, d: bytes, i: int, rest: bytes) returns (text: bytes)
    requires Sign(sign) && ParseDigits(sign == [MINUS], sign != [], d) == Done(i, rest)
    ensures sign + d == text + [LETTER_E] + rest && Spells(text, i)
  {
    hide NatValue, DigitRun, SkipFloat, FloatForm;
    var k := DigitRun(d);
    DigitsSplit(d, k);
    var ds := d[..k];
    if d[k] == LETTER_E {
      text := sign + ds;
      assert IntForm(text, sign, ds, i);
    } else {
      text := FloatDigitsRead(sign, d, k);
    }
  }

  lemma IntRead(d: bytes, i: int, rest: bytes) returns (text: bytes)
    requires ParseInt(d) == Done(i, rest)
    ensures d == text + [LETTER_E] + rest && Spells(text, i)
  {
    hide ParseDigits, Spells;
    if d[0] == MINUS || d[0] == PLUS {
      text := DigitsRead([d[0]], d[1..], i, rest);
      assert d == [d[0]] + d[1..];
    } else {
      text := DigitsRead([], d, i, rest);
      assert [] + d == d;
    }
  }

  lemma SignedRest(sign: bytes, ds: bytes, tail: bytes)
    requires Sign(sign) && AllDigits(ds) && ds != []
    ensures ParseInt(sign + ds + tail) == ParseDigits(sign == [MINUS], sign != [], ds + tail)
  {
    hide ParseDigits;
    var d := sign + ds + tail;
    if sign == [] {
      assert d == ds + tail && IsDigit(d[0]);
    } else {
      assert d[0] == sign[0] && d[1..] == ds + tail;
    }
  }

  lemma RunIs(ds: bytes, rest: bytes)
    requires AllDigits(ds)
    ensures var u := ds + [LETTER_E] + rest;
            DigitRun(u) == |ds| < |u| && u[|ds|] == LETTER_E && u[..|ds|] == ds && u[|ds| + 1..] == rest
  {
    hide DigitRun, AllDigits;
    assert ds + [LETTER_E] + rest == ds + ([LETTER_E] + rest);
    RunOfDigits(ds, [LETTER_E] + rest);
  }

  lemma ParseDigitsAt(negative: bool, signed: bool, d: bytes, k: nat)
    requires k == DigitRun(d) < |d| && d[k] == LETTER_E && k > 0
    ensures AllDigits(d[..k])
    ensures ParseDigits(negative, signed, d) == IntOf(negative, signed, d[..k], d[k + 1..])
  {
    hide IntOf, SkipFloat;
  }

  lemma ParseDigitsIs(negative: bool, signed: bool, ds: bytes, rest: bytes)
    requires AllDigits(ds) && ds != []
    ensures ParseDigits(negative, signed, ds + [LETTER_E] + rest) == IntOf(negative, signed, ds, rest)
  {
    hide *;
    RunIs(ds, rest);
    ParseDigitsAt(negative, signed, ds + [LETTER_E] + rest, |ds|);
  }

  lemma IntFormAccepted(text: bytes, sign: bytes, ds: bytes, i: int, rest: bytes)
    requires IntForm(text, sign, ds, i)
    ensures ParseInt(text + [LETTER_E] + rest) == Done(i, rest)
  {
    hide NatValue, DigitRun, ParseInt, ParseDigits;
    var tail := [LETTER_E] + rest;
    assert text + [LETTER_E] + rest == sign + ds + tail;
    assert ds + tail == ds + [LETTER_E] + rest;
    SignedRest(sign, ds, tail);
    ParseDigitsIs(sign == [MINUS], sign != [], ds, rest);
  }

  lemma FloatFormAccepted(text: bytes, sign: bytes, ds: bytes, more: bytes, rest: bytes)
    requires FloatForm(text, sign, ds, more)
    ensures ParseInt(text + [LETTER_E] + rest) == Done(0, rest)
  {
    hide NatValue, DigitRun, SkipFloat;
    var tail := more + [LETTER_E] + rest;
    assert text + [LETTER_E] + rest == sign + ds + tail;
    SignedRest(sign, ds, tail);
    assert !StartsWithDigit(tail);
    RunOfDigits(ds, tail);
    assert (ds + tail)[|ds|..] == tail;
    FloatAccepted(more, rest);
  }

  /** An integer is read exactly from a text that spells it; texts in floating-point notation spell zero. */
  lemma IntExact(d: bytes, i: int, rest: bytes)
    ensures ParseInt(d) == Done(i, rest) <==> exists text :: d == text + [LETTER_E] + rest && Spells(text, i)
  {
    hide ParseInt;
    if ParseInt(d) == Done(i, rest) {
      var text := IntRead(d, i, rest);
    }
    if text :| d == text + [LETTER_E] + rest && Spells(text, i) {
      if sign, ds :| IntForm(text, sign, ds, i) {
        IntFormAccepted(text, sign, ds, i, rest);
      } else {
        var sign, ds, more :| FloatForm(text, sign, ds, more);
        FloatFormAccepted(text, sign, ds, more, rest);
      }
    }
  }

  /** The DHT's decoder reads digits without superfluous zeros, after a minus or not, modulo 2^64. */
  ghost predicate ScanForm(t: bytes, negative: bool, ds: bytes, i: int, rest: bytes) {
    && AllDigits(ds) && ds != [] && (|ds| == 1 || ds[0] != ZERO)
    && t == (if negative then [MINUS] else []) + ds + [LETTER_E] + rest
    && i == Wrap(if negative then 0 - NatValue(ds) else NatValue(ds))
  }

  lemma ScanDigitsRead(negative: bool, u: bytes, i: int, rest: bytes) returns (ds: bytes)
    requires ScanDigits(negative, u) == Got(i, rest)
    ensures AllDigits(ds) && ds != [] && (|ds| == 1 || ds[0] != ZERO) && u == ds + [LETTER_E] + rest
    ensures i == Wrap(if negative then 0 - NatValue(ds) else NatValue(ds))
  {
    if u[0] == ZERO {
      ds := [ZERO];
      assert ds[..0] == [] && NatValue(ds) == 0;
    } else {
      hide DigitRun, NatValue, Wrap;
      var k := DigitRun(u);
      DigitsSplit(u, k);
      ds := u[..k];
      WrapNegated(NatValue(ds));
    }
  }

  lemma ScanIntRead(t: bytes, i: int, rest: bytes) returns (negative: bool, ds: bytes)
    requires ScanInt(t) == Got(i, rest)
    ensures ScanForm(t, negative, ds, i, rest)
  {
    hide ScanDigits, NatValue, Wrap;
    negative := t != [] && t[0] == MINUS;
    var u := if negative then t[1..] else t;
    ds := ScanDigitsRead(negative, u, i, rest);
    assert t == (if negative then [MINUS] else []) + u;
  }

  lemma ScanDigitsAt(negative: bool, u: bytes, k: nat, ds: bytes)
    requires k == DigitRun(u) < |u| && u[k] == LETTER_E && k > 0 && u[0] != ZERO && AllDigits(ds) && u[..k] == ds
    ensures ScanDigits(negative, u) ==
            Got(if negative then Wrap(-Wrap(NatValue(ds))) else Wrap(NatValue(ds)), u[k + 1..])
  {
    hide NatValue, Wrap, DigitRun, AllDigits;
    assert IsDigit(u[0]);
  }

  lemma ScanZero(negative: bool, rest: bytes)
    ensures ScanDigits(negative, [ZERO] + [LETTER_E] + rest) == Got(0, rest)
    ensures AllDigits([ZERO]) && NatValue([ZERO]) == 0
  {
    var u := [ZERO] + [LETTER_E] + rest;
    assert u[2..] == rest;
    assert [ZERO][..0] == [];
  }

  lemma ScanDigitsAccepted(negative: bool, ds: bytes, rest: bytes)
    requires AllDigits(ds) && ds != [] && (|ds| == 1 || ds[0] != ZERO)
    ensures ScanDigits(negative, ds + [LETTER_E] + rest) ==
            Got(Wrap(if negative then 0 - NatValue(ds) else NatValue(ds)), rest)
  {
    hide AllDigits, NatValue, ScanDigits;
    if ds[0] == ZERO {
      assert ds == [ZERO];
      ScanZero(negative, rest);
    } else {
      hide *;
      RunIs(ds, rest);
      ScanDigitsAt(negative, ds + [LETTER_E] + rest, |ds|, ds);
      WrapNegated(NatValue(ds));
    }
  }

  lemma ScanIntAccepted(t: bytes, negative: bool, ds: bytes, i: int, rest: bytes)
    requires ScanForm(t, negative, ds, i, rest)
    ensures ScanInt(t) == Got(i, rest)
  {
    hide ScanDigits, NatValue, Wrap;
    var u := ds + [LETTER_E] + rest;
    if negative {
      assert t[1..] == u && t[0] == MINUS;
    } else {
      assert t == u && u[0] == ds[0] && IsDigit(ds[0]);
    }
    ScanDigitsAccepted(negative, ds, rest);
  }

  lemma ScanIntExact(t: bytes, i: int, rest: bytes)
    ensures ScanInt(t) == Got(i, rest) <==> exists negative, ds :: ScanForm(t, negative, ds, i, rest)
  {
    hide ScanInt, ScanForm;
    if ScanInt(t) == Got(i, rest) {
      var negative, ds := ScanIntRead(t, i, rest);
    }
    if negative, ds :| ScanForm(t, negative, ds, i, rest) {
      ScanIntAccepted(t, negative, ds, i, rest);
    }
  }

  /** Digits that give the length modulo 2^64, none of them a superfluous zero, a colon, and the bytes. */
  ghost predicate ScannedForm(t: bytes, ds: bytes, s: bytes, rest: bytes) {
    && AllDigits(ds) && (|ds| <= 1 || ds[0] != ZERO) && t == ds + [COLON] + s + rest
    && NatValue(ds) % 0x1_0000_0000_0000_0000 == |s|
  }

  lemma WrappedLength(pos: nat, n: nat, total: nat)
    requires pos <= total <= MAX_INT64
    ensures var end := Wrap(pos + Wrap(n));
            pos <= end <= total <==> pos + n % 0x1_0000_0000_0000_0000 <= total
    ensures var end := Wrap(pos + Wrap(n));
            pos <= end <= total ==> end - pos == n % 0x1_0000_0000_0000_0000
  {
  }

  lemma ScanStringRead(t: bytes, total: nat, s: bytes, rest: bytes) returns (ds: bytes)
    requires |t| <= total <= MAX_INT64 && ScanString(t, total) == Got(s, rest)
    ensures ScannedForm(t, ds, s, rest)
  {
    hide Wrap, NatValue, DigitRun;
    var k := DigitRun(t);
    DigitsSplit(t, k);
    ds := t[..k];
    WrappedLength(total - |t| + k + 1, NatValue(ds), total);
    assert t[k + 1..] == s + rest;
  }

  lemma ScanStringAt(t: bytes, total: nat, k: nat, n: nat)
    requires |t| <= total <= MAX_INT64 && k == DigitRun(t) < |t| && t[k] == COLON && (k <= 1 || t[0] != ZERO)
    requires AllDigits(t[..k]) && n == NatValue(t[..k]) % 0x1_0000_0000_0000_0000 && k + 1 + n <= |t|
    ensures ScanString(t, total) == Got(t[k + 1..k + 1 + n], t[k + 1 + n..])
  {
    hide Wrap, NatValue, DigitRun;
    WrappedLength(total - |t| + k + 1, NatValue(t[..k]), total);
  }

  lemma ScanStringAccepted(t: bytes, total: nat, ds: bytes, s: bytes, rest: bytes)
    requires |t| <= total <= MAX_INT64 && ScannedForm(t, ds, s, rest)
    ensures ScanString(t, total) == Got(s, rest)
  {
    hide NatValue, DigitRun, ScanString;
    var tail := [COLON] + s + rest;
    assert t == ds + tail;
    RunOfDigits(ds, tail);
    var k, n := |ds|, |s|;
    assert t[..k] == ds && t[k] == COLON;
    assert t[k + 1..k + 1 + n] == s && t[k + 1 + n..] == rest;
    ScanStringAt(t, total, k, n);
  }

  lemma ScanStringExact(t: bytes, total: nat, s: bytes, rest: bytes)
    requires |t| <= total <= MAX_INT64
    ensures ScanString(t, total) == Got(s, rest) <==> exists ds :: ScannedForm(t, ds, s, rest)
  {
    hide ScanString, ScannedForm;
    if ScanString(t, total) == Got(s, rest) {
      var ds := ScanStringRead(t, total, s, rest);
    }
    if ds :| ScannedForm(t, ds, s, rest) {
      ScanStringAccepted(t, total, ds, s, rest);
    }
  }
}
