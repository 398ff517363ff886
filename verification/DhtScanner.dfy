/** The DHT's scanner as it runs: a position moving over a byte slice. */
module DhtScanner {
  import opened Bytes
  import opened Bencode
  import opened BencodeParse
  import opened BencodeRoundTrip
  import opened DhtDecoder
  import opened DhtPanics

  /** How a call ends: with a value, with an error, or by panicking. */
  datatype Outcome<+T> = Read(value: T) | Refused | Panicked

  /** The call ends as specified; with a value it leaves what is specified. */
  ghost predicate Does<T>(r: Outcome<T>, rest: bytes, p: Scanned<T>) {
    match p
    case NoValue => r == Refused
    case Panic => r == Panicked
    case Got(v, rest') => r == Read(v) && rest == rest'
  }

  lemma WrapStep(n: int, d: int)
    ensures Wrap(Wrap(n) * 10 + d) == Wrap(n * 10 + d)
  {
    var m := 0x1_0000_0000_0000_0000;
    var h := 0x8000_0000_0000_0000;
    var q := (n + h) / m;
    assert Wrap(n) == n - q * m;
    SameModulo(n * 10 + d + h, q * 10);
  }

  lemma WrapAppend(ds: bytes, b: byte)
    requires AllDigits(ds) && IsDigit(b)
    ensures AllDigits(ds + [b])
    ensures Wrap(Wrap(NatValue(ds)) * 10 + DigitValue(b)) == Wrap(NatValue(ds + [b]))
  {
    hide Wrap;
    WrapStep(NatValue(ds), DigitValue(b));
    assert (ds + [b])[..|ds|] == ds;
  }

  lemma WrapNone()
    ensures Wrap(NatValue([])) == 0
  {
  }

  lemma RunIs(t: bytes, k: nat)
    requires k <= |t| && AllDigits(t[..k]) && (k == |t| || !IsDigit(t[k]))
    ensures DigitRun(t) == k
  {
    assert t == t[..k] + t[k..];
    RunOfDigits(t[..k], t[k..]);
  }

  function Map<S, T>(o: Outcome<S>, f: S -> T): Outcome<T> {
    match o
    case Read(x) => Read(f(x))
    case Refused => Refused
    case Panicked => Panicked
  }

  /** The number digits stand for, wrapping at 64 bits on the way. */
  method LengthOf(text: bytes) returns (length: int)
    requires AllDigits(text)
    ensures length == Wrap(NatValue(text))
  {
    hide Wrap, NatValue;
    length := 0;
    var i := 0;
    assert text[..0] == [];
    WrapNone();
    while i < |text|
      invariant 0 <= i <= |text| && length == Wrap(NatValue(text[..i]))
    {
      WrapAppend(text[..i], text[i]);
      length := Wrap(length * 10 + DigitValue(text[i]));
      assert text[..i + 1] == text[..i] + [text[i]];
      i := i + 1;
    }
    assert text[..i] == text;
  }

  class Scanner {
    const data: bytes
    var pos: nat

    ghost predicate Valid()
      reads this
    {
      pos <= |data|
    }

    ghost function Rest(): bytes
      reads this
      requires Valid()
    {
      data[pos..]
    }

    constructor (data: bytes)
      ensures Valid() && Rest() == data && this.data == data
    {
      this.data, pos := data, 0;
    }

    /** Zero stands for the end of the data, which a zero byte therefore also marks. */
    function Peek(): byte
      reads this
    {
      if pos >= |data| then 0 else data[pos]
    }

    method Advance()
      requires Valid()
      modifies this
      ensures Valid()
      ensures Rest() == if old(Rest()) == [] then [] else old(Rest())[1..]
    {
      if pos < |data| {
        pos := pos + 1;
      }
    }

    method ParseString() returns (r: Outcome<bytes>)
      requires Valid() && Rest() != [] && IsDigit(Rest()[0])
      modifies this
      ensures Valid()
      ensures Does(r, Rest(), ScanString(old(Rest()), |data|))
    {
      hide Wrap, NatValue, DigitRun;
      ghost var t := Rest();
      var start := pos;
      while true
        invariant Valid() && start <= pos && AllDigits(data[start..pos])
        decreases |data| - pos
      {
        var b := Peek();
        if !IsDigit(b) {
          break;
        }
        pos := pos + 1;
        assert data[start..pos] == data[start..pos - 1] + [b];
      }
      assert t[..pos - start] == data[start..pos];
      RunIs(t, pos - start);
      if Peek() != COLON {
        return Refused;
      }
      if pos > start + 1 && data[start] == ZERO {
        return Refused;
      }
      var length := LengthOf(data[start..pos]);
      pos := pos + 1;
      var end := Wrap(pos + length);
      if end > |data| {
        return Refused;
      }
      if !(pos <= end) {
        return Panicked;
      }
      var str := data[pos..end];
      ghost var k := pos - start - 1;
      assert str == t[k + 1..k + 1 + (end - pos)] && data[end..] == t[k + 1 + (end - pos)..];
      pos := end;
      r := Read(str);
    }

    method ParseDigits(negative: bool) returns (r: Outcome<int>)
      requires Valid()
      modifies this
      ensures Valid()
      ensures Does(r, Rest(), ScanDigits(negative, old(Rest())))
    {
      hide Wrap, NatValue, DigitRun;
      ghost var u := Rest();
      if Peek() == 0 || Peek() == LETTER_E {
        return Refused;
      }
      if Peek() == ZERO {
        Advance();
        if Peek() != LETTER_E {
          return Refused;
        }
        Advance();
        return Read(0);
      }
      r := ParseNumber(negative);
    }

    /** Digits up to the letter e, the value wrapping at 64 bits. */
    method ParseNumber(negative: bool) returns (r: Outcome<int>)
      requires Valid() && Rest() != [] && Rest()[0] != 0 && Rest()[0] != LETTER_E && Rest()[0] != ZERO
      modifies this
      ensures Valid()
      ensures Does(r, Rest(), ScanDigits(negative, old(Rest())))
    {
      hide Wrap, NatValue, DigitRun;
      ghost var u := Rest();
      var start, val := pos, 0;
      assert data[start..start] == [];
      WrapNone();
      while Peek() != LETTER_E
        invariant Valid() && start <= pos && AllDigits(data[start..pos])
        invariant val == Wrap(NatValue(data[start..pos]))
        decreases |data| - pos
      {
        var b := Peek();
        if !IsDigit(b) {
          assert u[..pos - start] == data[start..pos];
          RunIs(u, pos - start);
          return Refused;
        }
        WrapAppend(data[start..pos], b);
        val := Wrap(val * 10 + DigitValue(b));
        assert data[start..pos + 1] == data[start..pos] + [b];
        pos := pos + 1;
      }
      assert u[..pos - start] == data[start..pos];
      RunIs(u, pos - start);
      Advance();
      r := Read(if negative then Wrap(-val) else val);
    }

    method ParseInt() returns (r: Outcome<int>)
      requires Valid() && Rest() != []
      modifies this
      ensures Valid()
      ensures Does(r, Rest(), ScanInt(old(Rest())[1..]))
    {
      hide ScanDigits;
      Advance();
      if Peek() == MINUS {
        Advance();
        r := ParseDigits(true);
      } else {
        r := ParseDigits(false);
      }
    }

    method ParseValue() returns (r: Outcome<Value>)
      requires Valid()
      modifies this
      ensures Valid()
      ensures Does(r, Rest(), ScanValue(old(Rest()), |data|))
      decreases |Rest()|, 1
    {
      hide ScanString, ScanInt;
      var b := Peek();
      if IsDigit(b) {
        var s := ParseString();
        r := Map(s, x => Str(x));
      } else if b == LETTER_I {
        var i := ParseInt();
        r := Map(i, x => Int(x));
      } else if b == LETTER_L {
        var l := ParseList();
        r := Map(l, x => List(x));
      } else if b == LETTER_D {
        var d := ParseDict();
        r := Map(d, x => Dict(x));
      } else {
        r := Refused;
      }
    }

    method ParseList() returns (r: Outcome<seq<Value>>)
      requires Valid() && Rest() != []
      modifies this
      ensures Valid()
      ensures Does(r, Rest(), ScanItems(old(Rest())[1..], |data|))
      decreases |Rest()|, 0
    {
      hide ScanValue;
      Advance();
      ghost var t := Rest();
      var items: seq<Value> := [];
      assert ScanItems(t, |data|).Got? ==> items + ScanItems(t, |data|).value == ScanItems(t, |data|).value;
      while Peek() != LETTER_E
        invariant Valid() && |Rest()| <= |t| && ItemsSoFar(items, ScanItems(Rest(), |data|), ScanItems(t, |data|))
        decreases |Rest()|
      {
        if Peek() == 0 {
          ScanNul(Rest(), |data|);
          return Refused;
        }
        ghost var before := Rest();
        var v := ParseValue();
        if !v.Read? {
          return if v.Refused? then Refused else Panicked;
        }
        ItemRead(items, v.value, before, Rest(), |data|, ScanItems(t, |data|));
        items := items + [v.value];
      }
      assert items + [] == items;
      Advance();
      r := Read(items);
    }

    method ParseDict() returns (r: Outcome<seq<Entry>>)
      requires Valid() && Rest() != []
      modifies this
      ensures Valid()
      ensures Does(r, Rest(), ScanEntries(old(Rest())[1..], |data|, []))
      decreases |Rest()|, 0
    {
      hide ScanValue, ScanString, ScanEntries, SetEntry;
      Advance();
      ghost var t := Rest();
      var d: seq<Entry> := [];
      while Peek() != LETTER_E
        invariant Valid() && |Rest()| <= |t| && ScanEntries(Rest(), |data|, d) == ScanEntries(t, |data|, [])
        decreases |Rest()|
      {
        EntriesUnfold(Rest(), |data|, d);
        if !IsDigit(Peek()) {
          return Refused;
        }
        var key := ParseString();
        if !key.Read? {
          return if key.Refused? then Refused else Panicked;
        }
        var v := ParseValue();
        if !v.Read? {
          return if v.Refused? then Refused else Panicked;
        }
        d := SetEntry(d, key.value, v.value);
      }
      EntriesUnfold(Rest(), |data|, d);
      Advance();
      r := Read(d);
    }
  }

  /** What a list loop has read, put before what is still to come, is the whole result. */
  ghost predicate ItemsSoFar(items: seq<Value>, rest: Scanned<seq<Value>>, all: Scanned<seq<Value>>) {
    match rest
    case NoValue => all == NoValue
    case Panic => all == Panic
    case Got(vs, r) => all == Got(items + vs, r)
  }

  lemma EntriesUnfold(t: bytes, total: nat, es: seq<Entry>)
    ensures var r := ScanEntries(t, total, es);
            if t == [] then r == NoValue
            else if t[0] == LETTER_E then r == Got(es, t[1..])
            else if !IsDigit(t[0]) then r == NoValue
            else
              var k := ScanString(t, total);
              && (k.NoValue? ==> r == NoValue) && (k.Panic? ==> r == Panic)
              && (k.Got? ==>
                    var v := ScanValue(k.rest, total);
                    && (v.NoValue? ==> r == NoValue) && (v.Panic? ==> r == Panic)
                    && (v.Got? ==> r == ScanEntries(v.rest, total, SetEntry(es, k.value, v.value))))
  {
  }

  lemma ScanNul(t: bytes, total: nat)
    requires t == [] || t[0] == 0
    ensures ScanItems(t, total) == NoValue
  {
    if t != [] {
      assert ScanValue(t, total) == NoValue;
    }
  }

  lemma ItemRead(items: seq<Value>, v: Value, before: bytes, after: bytes, total: nat, all: Scanned<seq<Value>>)
    requires before != [] && before[0] != LETTER_E && ScanValue(before, total) == Got(v, after)
    requires ItemsSoFar(items, ScanItems(before, total), all)
    ensures ItemsSoFar(items + [v], ScanItems(after, total), all)
  {
    var r := ScanItems(after, total);
    assert ScanItems(before, total) == Prepend(v, r);
    if r.Got? {
      assert items + ([v] + r.value) == (items + [v]) + r.value;
    }
  }

  /** Decoding a packet: its first value, an error or a panic, whatever follows the value. */
  method Decode(data: bytes) returns (r: Outcome<Value>)
    ensures match ScanValue(data, |data|)
            case Got(v, _) => r == Read(v)
            case NoValue => r == Refused
            case Panic => r == Panicked
    ensures |data| <= MAX_INT64 ==>
              (r == Panicked <==>
                 exists k :: 0 <= k <= |data| && ReadsStringAt(data, k) && Overlong(data[k..], |data|))
  {
    hide ScanValue, ReadsStringAt, Overlong;
    if |data| <= MAX_INT64 {
      PacketPanics(data);
    }
    var s := new Scanner(data);
    r := s.ParseValue();
  }
}
