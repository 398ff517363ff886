/** The decoder as it runs: a buffered reader over a source that delivers arbitrary pieces. */
module BencodeDecoder {
  import opened Bytes
  import opened Bencode
  import opened BencodeParse

  datatype Result<+T> = Ok(value: T) | Err(error: Error)

  /** What a decoding step did: result and remaining input are those of the specification. */
  ghost predicate Does<T>(r: Result<T>, rest: bytes, spec: Parsed<T>) {
    match spec
    case Done(v, s) => r == Ok(v) && rest == s
    case Fail(e) => r == Err(e)
  }

  /** A dictionary under construction: its keys in the order of their first setting, and their values. */
  class DictVal {
    var keys: seq<bytes>
    var values: map<bytes, Value>

    constructor ()
      ensures Valid() && Entries() == []
    {
      keys, values := [], map[];
    }

    ghost predicate Valid()
      reads this
    {
      && (forall i, j :: 0 <= i < j < |keys| ==> keys[i] != keys[j])
      && (forall k :: k in keys <==> k in values)
    }

    ghost function Entries(): seq<Entry>
      reads this
      requires Valid()
    {
      EntriesOf(keys, values)
    }

    method Set(key: bytes, value: Value)
      requires Valid()
      modifies this
      ensures Valid() && Entries() == SetEntry(old(Entries()), key, value)
    {
      if key !in values {
        keys := keys + [key];
      }
      SetOnKeys(old(keys), old(values), key, value);
      values := values[key := value];
    }

    method Get(key: bytes) returns (r: Option<Value>)
      requires Valid()
      ensures r.Some? <==> exists e :: e in Entries() && e.key == key
      ensures r.Some? ==> Entry(key, r.value) in Entries()
    {
      if key in values {
        ghost var i :| 0 <= i < |keys| && keys[i] == key;
        assert Entries()[i] == Entry(key, values[key]);
        r := Some(values[key]);
      } else {
        r := None;
      }
    }

    method Reset()
      modifies this
      ensures Valid() && Entries() == []
    {
      keys, values := [], map[];
    }
  }

  function EntriesOf(keys: seq<bytes>, values: map<bytes, Value>): (es: seq<Entry>)
    requires forall k :: k in keys ==> k in values
    ensures |es| == |keys|
    ensures forall i :: 0 <= i < |keys| ==> es[i] == Entry(keys[i], values[keys[i]])
  {
    if keys == [] then [] else
      assert keys[0] in keys;
      [Entry(keys[0], values[keys[0]])] + EntriesOf(keys[1..], values)
  }

  /** Setting a key in the two-part dictionary is setting it in the list of entries. */
  lemma {:induction false} SetOnKeys(keys: seq<bytes>, values: map<bytes, Value>, key: bytes, value: Value)
    requires forall i, j :: 0 <= i < j < |keys| ==> keys[i] != keys[j]
    requires forall k :: k in keys ==> k in values
    ensures SetEntry(EntriesOf(keys, values), key, value)
         == EntriesOf(if key in keys then keys else keys + [key], values[key := value])
    decreases |keys|
  {
    var keys' := if key in keys then keys else keys + [key];
    var es, es' := EntriesOf(keys, values), EntriesOf(keys', values[key := value]);
    if keys != [] {
      assert keys[0] in keys;
      if keys[0] == key {
        assert es' == [Entry(key, value)] + es[1..];
      } else {
        SetOnKeys(keys[1..], values, key, value);
        assert es[1..] == EntriesOf(keys[1..], values);
        assert key in keys <==> key in keys[1..];
        assert keys'[1..] == if key in keys[1..] then keys[1..] else keys[1..] + [key];
        assert es' == [es[0]] + es'[1..];
      }
    }
  }

  class Reader {
    var source: bytes
    var buf: bytes
    var pos: nat

    constructor (source: bytes)
      ensures Valid() && Remaining() == source
    {
      this.source := source;
      buf, pos := [], 0;
    }

    ghost predicate Valid()
      reads this
    {
      pos <= |buf| <= 256
    }

    ghost function Remaining(): bytes
      reads this
      requires Valid()
    {
      buf[pos..] + source
    }

    /** One read from the source, of any size the buffer can take. */
    method Refill() returns (ok: bool)
      requires Valid() && pos == |buf|
      modifies this
      ensures Valid() && Remaining() == old(Remaining())
      ensures ok <==> Remaining() != []
      ensures ok ==> pos < |buf|
    {
      if source == [] {
        return false;
      }
      var n: nat :| 1 <= n <= 256 && n <= |source|;
      buf, pos := source[..n], 0;
      source := source[n..];
      ok := true;
    }

    method ReadByte() returns (b: byte, ok: bool)
      requires Valid()
      modifies this
      ensures Valid() && (ok <==> old(Remaining()) != [])
      ensures ok ==> b == old(Remaining())[0] && Remaining() == old(Remaining())[1..]
      ensures !ok ==> Remaining() == []
    {
      b, ok := 0, true;
      if pos >= |buf| {
        ok := Refill();
        if !ok {
          return;
        }
      }
      b := buf[pos];
      pos := pos + 1;
    }

    method PeekByte() returns (b: byte, ok: bool)
      requires Valid()
      modifies this
      ensures Valid() && Remaining() == old(Remaining())
      ensures ok <==> Remaining() != []
      ensures ok ==> b == Remaining()[0]
    {
      b, ok := 0, true;
      if pos >= |buf| {
        ok := Refill();
        if !ok {
          return;
        }
      }
      b := buf[pos];
    }

    /** Drains the buffer, then reads the rest from the source directly. */
    method ReadFull(n: nat) returns (r: Result<bytes>)
      requires Valid()
      modifies this
      ensures Valid()
      ensures if n <= |old(Remaining())|
        then r == Ok(old(Remaining())[..n]) && Remaining() == old(Remaining())[n..]
        else r == Err(UnexpectedEOF)
    {
      ghost var before := Remaining();
      var out: bytes := [];
      var left := n;
      if |buf| > pos {
        var toCopy := Min(|buf| - pos, n);
        out := buf[pos..pos + toCopy];
        pos := pos + toCopy;
        left := left - toCopy;
        assert before == out + Remaining();
        if left == 0 {
          assert out == before[..n] && Remaining() == before[n..];
          return Ok(out);
        }
      }
      assert before == out + source;
      if left > |source| {
        return Err(UnexpectedEOF);
      }
      assert out + source[..left] == before[..n] && source[left..] == before[n..];
      out := out + source[..left];
      source := source[left..];
      r := Ok(out);
    }

    method ReadDecimal() returns (r: Result<nat>)
      requires Valid() && Remaining() != [] && IsDigit(Remaining()[0])
      modifies this
      ensures Valid()
      ensures var d := old(Remaining()); Does(r, Remaining(), Decimal(d[1..], DigitValue(d[0])))
    {
      ghost var d := Remaining();
      var b, ok := ReadByte();
      var acc: nat := DigitValue(b);
      while true
        invariant Valid() && Decimal(d[1..], DigitValue(d[0])) == Decimal(Remaining(), acc)
        decreases |Remaining()|
      {
        ghost var rem := Remaining();
        b, ok := PeekByte();
        if !ok || !IsDigit(b) {
          break;
        }
        b, ok := ReadByte();
        if (MAX_INT64 - DigitValue(b)) / 10 < acc {
          return Err(Invalid);
        }
        acc := acc * 10 + DigitValue(b);
      }
      r := Ok(acc);
    }

    method DecodeString() returns (r: Result<bytes>)
      requires Valid() && Remaining() != [] && IsDigit(Remaining()[0])
      modifies this
      ensures Valid() && Does(r, Remaining(), ParseString(old(Remaining())))
    {
      var n := ReadDecimal();
      if n.Err? {
        return Err(n.error);
      }
      ghost var rest := Remaining();
      var b, ok := ReadByte();
      if !ok {
        return Err(UnexpectedEOF);
      }
      if b != COLON {
        return Err(Invalid);
      }
      r := ReadFull(n.value);
      assert n.value <= |rest| - 1 ==> rest[1..][..n.value] == rest[1..1 + n.value] && rest[1..][n.value..] == rest[1 + n.value..];
    }

    /** Skips a number in floating-point notation. */
    method SkipFloatBytes() returns (r: Result<int>)
      requires Valid()
      modifies this
      ensures Valid() && Does(r, Remaining(), SkipFloat(old(Remaining())))
    {
      ghost var d := Remaining();
      while true
        invariant Valid() && SkipFloat(Remaining()) == SkipFloat(d)
        decreases |Remaining()|
      {
        var b, ok := ReadByte();
        if !ok {
          return Err(UnexpectedEOF);
        }
        if b == LETTER_E {
          return Ok(0);
        }
        if !FloatChar(b) {
          return Err(Invalid);
        }
      }
    }

    /** Collects the digits of an integer; beyond 24 characters only their number is kept. */
    method DecodeDigits(negative: bool, signed: bool) returns (r: Result<int>)
      requires Valid()
      modifies this
      ensures Valid() && Does(r, Remaining(), ParseDigits(negative, signed, old(Remaining())))
    {
      ghost var d := Remaining();
      var b, ok := ReadByte();
      if !ok {
        return Err(UnexpectedEOF);
      }
      if !IsDigit(b) {
        return Err(Invalid);
      }
      var ds: bytes := [b];
      while true
        invariant Valid() && d == ds + Remaining() && AllDigits(ds) && |ds| > 0
        decreases |Remaining()|
      {
        b, ok := PeekByte();
        if !ok {
          RunSplit(d, ds, Remaining());
          return Err(UnexpectedEOF);
        }
        if !IsDigit(b) {
          break;
        }
        b, ok := ReadByte();
        ds := ds + [b];
      }
      ghost var rest := Remaining();
      RunSplit(d, ds, rest);
      assert d[|ds|..] == rest && d[|ds|] == b;
      if b == DOT || b == UPPER_E || b == PLUS || b == MINUS {
        r := SkipFloatBytes();
        return;
      }
      if b != LETTER_E {
        return Err(Invalid);
      }
      b, ok := ReadByte();
      assert d[..|ds|] == ds && d[|ds| + 1..] == rest[1..];
      if |ds| + (if signed then 1 else 0) > 24 || (|ds| > 1 && ds[0] == ZERO) {
        return Err(Invalid);
      }
      var n: int := NatValue(ds);
      var i := if negative then -n else n;
      r := if i < MIN_INT64 || i > MAX_INT64 then Err(IntOverflow) else Ok(i);
    }

    method DecodeInt() returns (r: Result<int>)
      requires Valid() && Remaining() != []
      modifies this
      ensures Valid() && Does(r, Remaining(), ParseInt(old(Remaining())[1..]))
    {
      var b, ok := ReadByte();
      b, ok := PeekByte();
      if !ok {
        return Err(UnexpectedEOF);
      }
      if b == MINUS || b == PLUS {
        var sign := b;
        b, ok := ReadByte();
        r := DecodeDigits(sign == MINUS, true);
      } else {
        r := DecodeDigits(false, false);
      }
    }

    method DecodeValue(depth: nat) returns (r: Result<Value>)
      requires Valid()
      modifies this
      ensures Valid() && Does(r, Remaining(), ParseValue(old(Remaining()), depth))
      decreases |Remaining()|, 1
    {
      var b, ok := PeekByte();
      if !ok {
        return Err(UnexpectedEOF);
      }
      if IsDigit(b) {
        var s := DecodeString();
        r := if s.Ok? then Ok(Str(s.value)) else Err(s.error);
      } else if b == LETTER_I {
        var i := DecodeInt();
        r := if i.Ok? then Ok(Int(i.value)) else Err(i.error);
      } else if b == LETTER_L {
        if depth >= MAX_DEPTH {
          return Err(TooDeep);
        }
        var l := DecodeList(depth);
        r := if l.Ok? then Ok(List(l.value)) else Err(l.error);
      } else if b == LETTER_D {
        if depth >= MAX_DEPTH {
          return Err(TooDeep);
        }
        var e := DecodeDict(depth);
        r := if e.Ok? then Ok(Dict(e.value)) else Err(e.error);
      } else {
        r := Err(Invalid);
      }
    }

    method DecodeList(depth: nat) returns (r: Result<seq<Value>>)
      requires Valid() && Remaining() != []
      modifies this
      ensures Valid() && Does(r, Remaining(), ParseItems(old(Remaining())[1..], depth))
      decreases |Remaining()|, 0
    {
      ghost var d := Remaining()[1..];
      var b, ok := ReadByte();
      var items: seq<Value> := [];
      PrefixedNone(ParseItems(d, depth));
      while true
        invariant Valid() && |Remaining()| <= |d|
        invariant ParseItems(d, depth) == Prefixed(items, ParseItems(Remaining(), depth))
        decreases |Remaining()|
      {
        b, ok := PeekByte();
        if !ok {
          return Err(UnexpectedEOF);
        }
        if b == LETTER_E {
          b, ok := ReadByte();
          assert items + [] == items;
          break;
        }
        ghost var rem := Remaining();
        var v := DecodeValue(depth + 1);
        ItemsUnfold(rem, depth);
        if v.Err? {
          return Err(v.error);
        }
        PrefixedTwice(items, v.value, ParseItems(Remaining(), depth));
        items := items + [v.value];
      }
      r := Ok(items);
    }

    method DecodeDict(depth: nat) returns (r: Result<seq<Entry>>)
      requires Valid() && Remaining() != []
      modifies this
      ensures Valid() && Does(r, Remaining(), ParseEntries(old(Remaining())[1..], depth, [], []))
      decreases |Remaining()|, 0
    {
      ghost var d := Remaining()[1..];
      var b, ok := ReadByte();
      var dict := new DictVal();
      var last: bytes := [];
      while true
        invariant Valid() && |Remaining()| <= |d|
        invariant fresh(dict) && dict.Valid()
        invariant ParseEntries(d, depth, [], []) == ParseEntries(Remaining(), depth, dict.Entries(), last)
        decreases |Remaining()|
      {
        b, ok := PeekByte();
        if !ok {
          return Err(UnexpectedEOF);
        }
        if b == LETTER_E {
          b, ok := ReadByte();
          break;
        }
        if !IsDigit(b) {
          return Err(KeyType);
        }
        var key := DecodeString();
        if key.Err? {
          return Err(key.error);
        }
        var v := DecodeValue(depth + 1);
        if v.Err? {
          return Err(v.error);
        }
        dict.Set(key.value, v.value);
        if last != [] && Less(key.value, last) {
          return Err(KeyOrder);
        }
        last := key.value;
      }
      r := Ok(EntriesOf(dict.keys, dict.values));
    }
  }

  lemma {:induction false} RunSplit(d: bytes, ds: bytes, rest: bytes)
    requires d == ds + rest && AllDigits(ds) && (rest == [] || !IsDigit(rest[0]))
    ensures DigitRun(d) == |ds|
  {
    assert forall j :: 0 <= j < |ds| ==> d[j] == ds[j];
    assert rest != [] ==> d[|ds|] == rest[0];
  }

  function Prefixed(items: seq<Value>, p: Parsed<seq<Value>>): Parsed<seq<Value>> {
    match p
    case Fail(e) => Fail(e)
    case Done(vs, r) => Done(items + vs, r)
  }

  lemma PrefixedNone(p: Parsed<seq<Value>>)
    ensures Prefixed([], p) == p
  {
    if p.Done? {
      assert [] + p.value == p.value;
    }
  }

  lemma PrefixedTwice(items: seq<Value>, v: Value, p: Parsed<seq<Value>>)
    ensures Prefixed(items, Prefixed([v], p)) == Prefixed(items + [v], p)
  {
    if p.Done? {
      assert items + ([v] + p.value) == items + [v] + p.value;
    }
  }

  lemma ItemsUnfold(d: bytes, depth: nat)
    requires d != [] && d[0] != LETTER_E
    ensures var p := ParseValue(d, depth + 1);
      && (p.Fail? ==> ParseItems(d, depth) == Fail(p.error))
      && (p.Done? ==> ParseItems(d, depth) == Prefixed([p.value], ParseItems(p.rest, depth)))
  {
  }
}
