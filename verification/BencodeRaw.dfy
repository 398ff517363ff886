/** Finding an encoded value inside encoded data without decoding it. */
module BencodeRaw {
  import opened Bytes
  import opened Bencode
  import opened BencodeParse
  import opened BencodeRoundTrip

  datatype Range = Range(start: nat, end: nat)

  // ----- Skipping; `t` is the data from the current position on -----

  /** The first position of byte b; the length of the data if there is none. */
  function IndexByte(t: bytes, b: byte): (i: nat)
    ensures i <= |t| && (i < |t| ==> t[i] == b) && forall j :: 0 <= j < i ==> t[j] != b
  {
    if t == [] || t[0] == b then 0 else 1 + IndexByte(t[1..], b)
  }

  function SkipString(t: bytes): (n: nat)
    ensures t != [] ==> n > 0
  {
    var c := IndexByte(t, COLON);
    if c == |t| || c == 0 || !AllDigits(t[..c]) then |t| else c + 1 + NatValue(t[..c])
  }

  function SkipInt(t: bytes): (n: nat)
    requires t != []
    ensures n > 0
  {
    var e := IndexByte(t[1..], LETTER_E);
    if e == |t| - 1 then |t| else e + 2
  }

  function SkipValue(t: bytes): (n: nat)
    ensures n > 0
    decreases |t|, 0
  {
    if t == [] then 1
    else if IsDigit(t[0]) then SkipString(t)
    else if t[0] == LETTER_I then SkipInt(t)
    else if t[0] == LETTER_L || t[0] == LETTER_D then 1 + SkipItems(t[1..])
    else 1
  }

  /** The rest of a container, up to and including its end marker. */
  function SkipItems(t: bytes): (n: nat)
    ensures n <= |t|
    decreases |t|, 1
  {
    if t == [] then 0
    else if t[0] == LETTER_E then 1
    else
      var n := SkipValue(t);
      if n >= |t| then |t| else n + SkipItems(t[n..])
  }

  // ----- The program's loops -----

  method RunSkipValue(data: bytes, pos: nat) returns (n: nat)
    requires pos <= |data|
    ensures n == SkipValue(data[pos..])
    decreases |data| - pos, 0
  {
    if pos == |data| {
      return 1;
    }
    var b := data[pos];
    if IsDigit(b) {
      n := SkipString(data[pos..]);
    } else if b == LETTER_I {
      n := SkipInt(data[pos..]);
    } else if b == LETTER_L || b == LETTER_D {
      n := RunSkipContainer(data, pos);
    } else {
      n := 1;
    }
  }

  method RunSkipContainer(data: bytes, pos: nat) returns (n: nat)
    requires pos < |data|
    ensures n == 1 + SkipItems(data[pos + 1..])
    decreases |data| - pos - 1, 1
  {
    var cur := pos + 1;
    while cur < |data|
      invariant pos + 1 <= cur
      invariant 1 + SkipItems(data[pos + 1..]) == if cur <= |data| then cur - pos + SkipItems(data[cur..]) else |data| - pos
      decreases |data| - cur
    {
      if data[cur] == LETTER_E {
        return cur - pos + 1;
      }
      var k := RunSkipValue(data, cur);
      assert k < |data| - cur ==> data[cur..][k..] == data[cur + k..];
      cur := cur + k;
    }
    n := |data| - pos;
  }

  // ----- Skipping over an encoding -----

  lemma {:induction false} FirstColon(ds: bytes, b: byte, rest: bytes)
    requires AllDigits(ds) && !IsDigit(b)
    ensures IndexByte(ds + [b] + rest, b) == |ds|
    decreases |ds|
  {
    var t := ds + [b] + rest;
    if ds != [] {
      assert t[1..] == ds[1..] + [b] + rest;
      FirstColon(ds[1..], b, rest);
    }
  }

  lemma SkipPrintedString(s: bytes, suffix: bytes)
    ensures SkipString(PrintString(s) + suffix) == |PrintString(s)|
  {
    hide Digits;
    var ds, t := Digits(|s|), PrintString(s) + suffix;
    assert t == ds + [COLON] + (s + suffix);
    FirstColon(ds, COLON, s + suffix);
    assert t[..|ds|] == ds;
    NatValueDigits(|s|);
  }

  lemma SkipPrintedInt(i: int, suffix: bytes)
    ensures SkipInt([LETTER_I] + IntText(i) + [LETTER_E] + suffix) == |IntText(i)| + 2
  {
    hide Digits;
    var t := [LETTER_I] + IntText(i) + [LETTER_E] + suffix;
    if i < 0 {
      assert t[1..][1..] == Digits(-i) + [LETTER_E] + suffix;
      FirstColon(Digits(-i), LETTER_E, suffix);
      assert IndexByte(t[1..], LETTER_E) == 1 + IndexByte(t[1..][1..], LETTER_E);
    } else {
      assert t[1..] == Digits(i) + [LETTER_E] + suffix;
      FirstColon(Digits(i), LETTER_E, suffix);
    }
  }

  /** Skipping an encoded value skips exactly its encoding, whatever follows. */
  lemma {:induction false} SkipPrinted(v: Value, suffix: bytes)
    ensures SkipValue(Print(v) + suffix) == |Print(v)|
    decreases v, 1
  {
    var t := Print(v) + suffix;
    match v
    case Str(s) =>
      SkipPrintedString(s, suffix);
      assert IsDigit(Digits(|s|)[0]);
    case Int(i) =>
      SkipPrintedInt(i, suffix);
    case List(items) =>
      assert t[1..] == PrintList(items) + [LETTER_E] + suffix;
      SkipPrintedList(items, suffix);
    case Dict(es) =>
      assert t[1..] == PrintEntries(es) + [LETTER_E] + suffix;
      SkipPrintedEntries(es, suffix);
  }

  lemma SkipOne(first: bytes, rest: bytes)
    requires first != [] && first[0] != LETTER_E && rest != [] && SkipValue(first + rest) == |first|
    ensures SkipItems(first + rest) == |first| + SkipItems(rest)
  {
    assert (first + rest)[|first|..] == rest;
  }

  lemma {:induction false} SkipPrintedList(vs: seq<Value>, suffix: bytes)
    ensures SkipItems(PrintList(vs) + [LETTER_E] + suffix) == |PrintList(vs)| + 1
    decreases vs, 0
  {
    if vs != [] {
      var rest := PrintList(vs[1..]) + [LETTER_E] + suffix;
      assert PrintList(vs) + [LETTER_E] + suffix == Print(vs[0]) + rest;
      SkipPrinted(vs[0], rest);
      ValueStarts(vs[0]);
      SkipOne(Print(vs[0]), rest);
      SkipPrintedList(vs[1..], suffix);
    }
  }

  lemma StringStarts(s: bytes)
    ensures PrintString(s) != [] && IsDigit(PrintString(s)[0])
  {
    assert IsDigit(Digits(|s|)[0]);
  }

  lemma SkipPrintedKey(s: bytes, suffix: bytes)
    ensures SkipValue(PrintString(s) + suffix) == |PrintString(s)|
  {
    hide PrintString;
    StringStarts(s);
    SkipPrintedString(s, suffix);
  }

  lemma {:induction false} SkipPrintedEntries(es: seq<Entry>, suffix: bytes)
    ensures SkipItems(PrintEntries(es) + [LETTER_E] + suffix) == |PrintEntries(es)| + 1
    decreases es, 0
  {
    if es != [] {
      hide PrintString, SkipItems, SkipValue, Print;
      var e := es[0];
      var rest := PrintEntries(es[1..]) + [LETTER_E] + suffix;
      assert PrintEntries(es) + [LETTER_E] + suffix == PrintString(e.key) + (Print(e.value) + rest);
      SkipPrintedKey(e.key, Print(e.value) + rest);
      StringStarts(e.key);
      SkipOne(PrintString(e.key), Print(e.value) + rest);
      SkipPrinted(e.value, rest);
      ValueStarts(e.value);
      SkipOne(Print(e.value), rest);
      SkipPrintedEntries(es[1..], suffix);
    }
  }

  // ----- Walking to a path -----

  /** `strconv.Atoi`. */
  function Atoi(s: bytes): Option<int> {
    var signed := s != [] && (s[0] == MINUS || s[0] == PLUS);
    var ds := if signed then s[1..] else s;
    if ds == [] || !AllDigits(ds) then None
    else
      var n: int := NatValue(ds);
      var i := if signed && s[0] == MINUS then -n else n;
      if i < MIN_INT64 || i > MAX_INT64 then None else Some(i)
  }

  /** The key at the front of the data; empty if there is no readable length. */
  function ExtractKey(t: bytes): Option<bytes> {
    var c := IndexByte(t, COLON);
    if c == |t| || c == 0 || !AllDigits(t[..c]) then Some([])
    else
      var n := NatValue(t[..c]);
      if c + 1 + n > |t| then None else Some(t[c + 1..c + 1 + n])
  }

  /** The item number `idx` of the list whose items start at `t`, `off` bytes into the data. */
  function WalkList(t: bytes, idx: int, off: nat): Option<Range>
    decreases |t|
  {
    if t == [] || t[0] == LETTER_E then None
    else
      var n := SkipValue(t);
      if idx == 0 then Some(Range(off, off + n))
      else if n >= |t| then None
      else WalkList(t[n..], idx - 1, off + n)
  }

  function WalkDict(t: bytes, key: bytes, off: nat): Option<Range>
    decreases |t|
  {
    if t == [] || t[0] == LETTER_E then None
    else
      var k := SkipString(t);
      if k > |t| || ExtractKey(t).None? then None
      else
        var n := SkipValue(t[k..]);
        if ExtractKey(t) == Some(key) then Some(Range(off + k, off + k + n))
        else if k + n >= |t| then None
        else WalkDict(t[k + n..], key, off + k + n)
  }

  function FindIn(t: bytes, segment: bytes, off: nat): Option<Range> {
    if t == [] then None
    else if t[0] == LETTER_L then
      match Atoi(segment)
      case None => None
      case Some(i) => WalkList(t[1..], i, off + 1)
    else if t[0] == LETTER_D then WalkDict(t[1..], segment, off + 1)
    else None
  }

  /** From the value at `pos` along the path. */
  function ExtractFrom(data: bytes, pos: nat, path: seq<bytes>): Option<Range>
    decreases |path|
  {
    if pos > |data| then None
    else if path == [] then Some(Range(pos, pos + SkipValue(data[pos..])))
    else
      match FindIn(data[pos..], path[0], pos)
      case None => None
      case Some(r) => if |path| == 1 then Some(r) else ExtractFrom(data, r.start, path[1..])
  }

  function ExtractRaw(data: bytes, path: seq<bytes>): Option<Range> {
    ExtractFrom(data, 0, path)
  }

  method RunWalkList(data: bytes, pos: nat, idx: int) returns (r: Option<Range>)
    requires pos < |data|
    ensures r == WalkList(data[pos + 1..], idx, pos + 1)
  {
    hide SkipValue;
    var cur, itemIdx := pos + 1, 0;
    while cur < |data| && data[cur] != LETTER_E
      invariant pos + 1 <= cur
      invariant WalkList(data[pos + 1..], idx, pos + 1)
             == if cur <= |data| then WalkList(data[cur..], idx - itemIdx, cur) else None
      decreases |data| - cur
    {
      var n := RunSkipValue(data, cur);
      if itemIdx == idx {
        return Some(Range(cur, cur + n));
      }
      assert n < |data| - cur ==> data[cur..][n..] == data[cur + n..];
      cur := cur + n;
      itemIdx := itemIdx + 1;
    }
    r := None;
  }

  method RunWalkDict(data: bytes, pos: nat, key: bytes) returns (r: Option<Range>)
    requires pos < |data|
    ensures r == WalkDict(data[pos + 1..], key, pos + 1)
  {
    hide SkipString, ExtractKey, SkipValue;
    var cur := pos + 1;
    while cur < |data| && data[cur] != LETTER_E
      invariant pos + 1 <= cur
      invariant WalkDict(data[pos + 1..], key, pos + 1)
             == if cur <= |data| then WalkDict(data[cur..], key, cur) else None
      decreases |data| - cur
    {
      var k := SkipString(data[cur..]);
      var stored := ExtractKey(data[cur..]);
      if cur + k > |data| || stored.None? {
        return None;
      }
      assert data[cur..][k..] == data[cur + k..];
      var n := RunSkipValue(data, cur + k);
      if stored == Some(key) {
        return Some(Range(cur + k, cur + k + n));
      }
      assert k + n < |data| - cur ==> data[cur..][k + n..] == data[cur + k + n..];
      cur := cur + k + n;
    }
    r := None;
  }

  method RunExtractRaw(data: bytes, path: seq<bytes>) returns (r: Option<Range>)
    ensures r == ExtractRaw(data, path)
  {
    var pos: nat, i: nat := 0, 0;
    while i < |path|
      invariant 0 <= i <= |path| && (i == |path| ==> path == [])
      invariant ExtractRaw(data, path) == ExtractFrom(data, pos, path[i..])
      decreases |path| - i
    {
      if pos >= |data| {
        return None;
      }
      assert path[i..][0] == path[i] && path[i..][1..] == path[i + 1..];
      var found: Option<Range> := None;
      if data[pos] == LETTER_L {
        assert data[pos..][1..] == data[pos + 1..];
        var idx := Atoi(path[i]);
        if idx.Some? {
          found := RunWalkList(data, pos, idx.value);
        }
      } else if data[pos] == LETTER_D {
        assert data[pos..][1..] == data[pos + 1..];
        found := RunWalkDict(data, pos, path[i]);
      }
      if found.None? || i == |path| - 1 {
        return found;
      }
      pos := found.value.start;
      i := i + 1;
    }
    var n := RunSkipValue(data, pos);
    r := Some(Range(pos, pos + n));
  }

  // ----- What a path means in a value -----

  function FindKey(es: seq<Entry>, key: bytes): Option<Value> {
    if es == [] then None else if es[0].key == key then Some(es[0].value) else FindKey(es[1..], key)
  }

  function Child(v: Value, segment: bytes): Option<Value> {
    match v
    case Str(_) => None
    case Int(_) => None
    case List(items) =>
      (match Atoi(segment)
       case None => None
       case Some(i) => if 0 <= i < |items| then Some(items[i]) else None)
    case Dict(es) => FindKey(es, segment)
  }

  function Lookup(v: Value, path: seq<bytes>): Option<Value>
    decreases |path|
  {
    if path == [] then Some(v)
    else
      match Child(v, path[0])
      case None => None
      case Some(w) => Lookup(w, path[1..])
  }

  /** `r` is where in the data `w` is encoded, if there is a value at all. */
  ghost predicate Locates(r: Option<Range>, data: bytes, w: Option<Value>) {
    match w
    case None => r.None?
    case Some(v) => r.Some? && r.value.start <= r.value.end <= |data| && data[r.value.start..r.value.end] == Print(v)
  }

  /** The same for a tail of the data that starts `off` bytes into it. */
  ghost predicate LocatesIn(r: Option<Range>, off: nat, t: bytes, w: Option<Value>) {
    match w
    case None => r.None?
    case Some(v) =>
      && r.Some? && off <= r.value.start <= r.value.end <= off + |t|
      && t[r.value.start - off..r.value.end - off] == Print(v)
  }

  lemma LocatesLater(r: Option<Range>, off: nat, first: bytes, t: bytes, w: Option<Value>)
    requires LocatesIn(r, off + |first|, t, w)
    ensures LocatesIn(r, off, first + t, w)
  {
    if w.Some? {
      assert (first + t)[r.value.start - off..r.value.end - off]
          == t[r.value.start - off - |first|..r.value.end - off - |first|];
    }
  }

  lemma WalkListStep(first: bytes, rest: bytes, idx: int, off: nat)
    requires first != [] && first[0] != LETTER_E && rest != [] && SkipValue(first + rest) == |first|
    ensures WalkList(first + rest, idx, off)
         == if idx == 0 then Some(Range(off, off + |first|)) else WalkList(rest, idx - 1, off + |first|)
  {
    hide SkipValue;
    assert (first + rest)[|first|..] == rest;
  }

  function ItemAt(vs: seq<Value>, idx: int): Option<Value> {
    if 0 <= idx < |vs| then Some(vs[idx]) else None
  }

  lemma WalkEnd(idx: int, key: bytes, off: nat, suffix: bytes)
    ensures WalkList([] + [LETTER_E] + suffix, idx, off).None?
    ensures WalkDict([] + [LETTER_E] + suffix, key, off).None?
  {
  }

  lemma {:induction false} WalkListPrinted(vs: seq<Value>, idx: int, off: nat, suffix: bytes)
    ensures LocatesIn(WalkList(PrintList(vs) + [LETTER_E] + suffix, idx, off), off, PrintList(vs) + [LETTER_E] + suffix,
                      ItemAt(vs, idx))
    decreases |vs|
  {
    hide Print, SkipValue, WalkList;
    if vs == [] {
      WalkEnd(idx, [], off, suffix);
    } else {
      var first, rest := Print(vs[0]), PrintList(vs[1..]) + [LETTER_E] + suffix;
      assert PrintList(vs) + [LETTER_E] + suffix == first + rest;
      SkipPrinted(vs[0], rest);
      ValueStarts(vs[0]);
      WalkListStep(first, rest, idx, off);
      if idx == 0 {
        assert (first + rest)[0..|first|] == first;
      } else {
        WalkListPrinted(vs[1..], idx - 1, off + |first|, suffix);
        LocatesLater(WalkList(rest, idx - 1, off + |first|), off, first, rest, ItemAt(vs[1..], idx - 1));
      }
    }
  }

  lemma KeyPrinted(key: bytes, suffix: bytes)
    ensures ExtractKey(PrintString(key) + suffix) == Some(key)
    ensures SkipString(PrintString(key) + suffix) == |PrintString(key)|
  {
    hide Digits;
    var ds, t := Digits(|key|), PrintString(key) + suffix;
    assert t == ds + [COLON] + (key + suffix);
    FirstColon(ds, COLON, key + suffix);
    assert t[..|ds|] == ds;
    NatValueDigits(|key|);
    assert t[|ds| + 1..|ds| + 1 + |key|] == key;
  }

  lemma WalkDictStep(k: bytes, val: bytes, rest: bytes, stored: bytes, key: bytes, off: nat)
    requires k != [] && k[0] != LETTER_E && rest != [] && val != []
    requires SkipString(k + (val + rest)) == |k| && ExtractKey(k + (val + rest)) == Some(stored)
    requires SkipValue(val + rest) == |val|
    ensures WalkDict(k + (val + rest), key, off) ==
      if stored == key then Some(Range(off + |k|, off + |k| + |val|)) else WalkDict(rest, key, off + |k| + |val|)
  {
    hide SkipValue, SkipString, ExtractKey;
    var t := k + (val + rest);
    assert t[|k|..] == val + rest;
    assert t[|k| + |val|..] == rest;
  }

  lemma {:induction false} WalkDictPrinted(es: seq<Entry>, key: bytes, off: nat, suffix: bytes)
    ensures LocatesIn(WalkDict(PrintEntries(es) + [LETTER_E] + suffix, key, off), off, PrintEntries(es) + [LETTER_E] + suffix,
                      FindKey(es, key))
    decreases |es|
  {
    hide Print, PrintString, SkipValue, SkipString, ExtractKey, WalkDict;
    if es == [] {
      WalkEnd(0, key, off, suffix);
    } else {
      var e := es[0];
      var k, val, rest := PrintString(e.key), Print(e.value), PrintEntries(es[1..]) + [LETTER_E] + suffix;
      assert PrintEntries(es) + [LETTER_E] + suffix == k + (val + rest);
      KeyPrinted(e.key, val + rest);
      StringStarts(e.key);
      SkipPrinted(e.value, rest);
      WalkDictStep(k, val, rest, e.key, key, off);
      if e.key == key {
        assert (k + (val + rest))[|k|..|k| + |val|] == val;
      } else {
        WalkDictPrinted(es[1..], key, off + |k| + |val|, suffix);
        LocatesLater(WalkDict(rest, key, off + |k| + |val|), off, k + val, rest, FindKey(es[1..], key));
        assert k + val + rest == k + (val + rest);
      }
    }
  }

  lemma FindPrinted(v: Value, segment: bytes, off: nat, suffix: bytes)
    ensures LocatesIn(FindIn(Print(v) + suffix, segment, off), off, Print(v) + suffix, Child(v, segment))
  {
    hide WalkList, WalkDict, Atoi;
    var t := Print(v) + suffix;
    match v
    case Str(s) =>
      StringStarts(s);
    case Int(_) =>
    case List(items) =>
      var rest := PrintList(items) + [LETTER_E] + suffix;
      assert t == [LETTER_L] + rest && t[1..] == rest;
      if Atoi(segment).Some? {
        var i := Atoi(segment).value;
        WalkListPrinted(items, i, off + 1, suffix);
        LocatesLater(WalkList(rest, i, off + 1), off, [LETTER_L], rest, Child(v, segment));
      }
    case Dict(es) =>
      var rest := PrintEntries(es) + [LETTER_E] + suffix;
      assert t == [LETTER_D] + rest && t[1..] == rest;
      WalkDictPrinted(es, segment, off + 1, suffix);
      LocatesLater(WalkDict(rest, segment, off + 1), off, [LETTER_D], rest, Child(v, segment));
  }

  lemma SliceOf(data: bytes, pos: nat, a: nat, b: nat)
    requires pos <= a <= b <= |data|
    ensures data[a..b] == data[pos..][a - pos..b - pos]
  {
  }

  lemma {:induction false} ExtractPrinted(data: bytes, pos: nat, v: Value, path: seq<bytes>, suffix: bytes)
    requires pos <= |data| && data[pos..] == Print(v) + suffix
    ensures Locates(ExtractFrom(data, pos, path), data, Lookup(v, path))
    decreases |path|
  {
    hide FindIn, Child, Print, SkipValue;
    if path == [] {
      SkipPrinted(v, suffix);
      assert data[pos..pos + |Print(v)|] == data[pos..][..|Print(v)|];
    } else {
      FindPrinted(v, path[0], pos, suffix);
      var c := Child(v, path[0]);
      if c.Some? {
        var r := FindIn(data[pos..], path[0], pos).value;
        SliceOf(data, pos, r.start, r.end);
        if |path| > 1 {
          assert data[r.start..] == Print(c.value) + data[r.end..];
          ExtractPrinted(data, r.start, c.value, path[1..], data[r.end..]);
        } else {
          assert path[1..] == [];
        }
      }
    }
  }

  // ----- Paths do not depend on the order of keys -----

  lemma {:induction false} FindKeyIn(es: seq<Entry>, key: bytes)
    requires DistinctKeys(es)
    ensures FindKey(es, key).None? ==> forall e :: e in es ==> e.key != key
    ensures FindKey(es, key).Some? ==> Entry(key, FindKey(es, key).value) in es
    ensures forall e :: e in es && e.key == key ==> FindKey(es, key) == Some(e.value)
    decreases |es|
  {
    if es != [] {
      FindKeyIn(es[1..], key);
      assert es == [es[0]] + es[1..];
      if es[0].key == key {
        forall e | e in es && e.key == key
          ensures e == es[0]
        {
          var i :| 0 <= i < |es| && es[i] == e;
        }
      }
    }
  }

  lemma {:induction false} FindKeyNormal(es: seq<Entry>, key: bytes)
    ensures FindKey(NormalEntries(es), key)
         == match FindKey(es, key) case None => None case Some(w) => Some(Normal(w))
    decreases |es|
  {
    if es != [] {
      FindKeyNormal(es[1..], key);
      assert NormalEntries(es)[1..] == NormalEntries(es[1..]);
    }
  }

  lemma SortedHas(es: seq<Entry>)
    ensures forall e :: e in SortEntries(es) <==> e in es
  {
    SortKeeps(es);
    forall e: Entry
      ensures e in SortEntries(es) <==> e in es
    {
      assert e in SortEntries(es) <==> e in multiset(SortEntries(es));
      assert e in es <==> e in multiset(es);
    }
  }

  lemma FindKeySorted(es: seq<Entry>, key: bytes)
    requires DistinctKeys(es)
    ensures FindKey(SortEntries(es), key) == FindKey(es, key)
  {
    hide FindKey, SortEntries;
    SortedHas(es);
    SortSorts(es);
    SortedDistinct(SortEntries(es));
    FindKeyIn(es, key);
    FindKeyIn(SortEntries(es), key);
  }

  lemma ChildNormal(v: Value, segment: bytes)
    requires WellFormed(v)
    ensures Child(Normal(v), segment) == match Child(v, segment) case None => None case Some(w) => Some(Normal(w))
  {
    hide Atoi;
    match v
    case Str(_) =>
    case Int(_) =>
    case List(items) =>
      match Atoi(segment) {
        case None =>
        case Some(i) =>
          if 0 <= i < |items| {
            NormalListAt(items, i);
          }
      }
    case Dict(es) =>
      FindKeyNormal(es, segment);
      FindKeySorted(NormalEntries(es), segment);
  }

  lemma {:induction false} ChildWellFormed(v: Value, segment: bytes)
    requires WellFormed(v) && Child(v, segment).Some?
    ensures WellFormed(Child(v, segment).value)
  {
    match v
    case List(items) =>
      ItemWellFormed(items, Atoi(segment).value);
    case Dict(es) =>
      EntryWellFormed(es, segment);
  }

  lemma {:induction false} ItemWellFormed(vs: seq<Value>, k: nat)
    requires k < |vs| && WellFormedList(vs)
    ensures WellFormed(vs[k])
  {
    if k > 0 {
      ItemWellFormed(vs[1..], k - 1);
    }
  }

  lemma {:induction false} EntryWellFormed(es: seq<Entry>, key: bytes)
    requires WellFormedEntries(es) && FindKey(es, key).Some?
    ensures WellFormed(FindKey(es, key).value)
  {
    if es[0].key != key {
      EntryWellFormed(es[1..], key);
    }
  }

  lemma {:induction false} LookupNormal(v: Value, path: seq<bytes>)
    requires WellFormed(v)
    ensures Lookup(Normal(v), path) == match Lookup(v, path) case None => None case Some(w) => Some(Normal(w))
    decreases |path|
  {
    if path != [] {
      hide Child;
      ChildNormal(v, path[0]);
      if Child(v, path[0]).Some? {
        ChildWellFormed(v, path[0]);
        LookupNormal(Child(v, path[0]).value, path[1..]);
      }
    }
  }

  /**
    Extraction from an encoded value finds exactly the bytes that the value at
    the path would be encoded to, and fails exactly if there is none.
   */
  lemma ExtractEncoded(v: Value, path: seq<bytes>, suffix: bytes)
    requires WellFormed(v)
    ensures var data := Encode(v) + suffix;
      match Lookup(v, path)
      case None => ExtractRaw(data, path).None?
      case Some(w) =>
        var r := ExtractRaw(data, path);
        r.Some? && r.value.start <= r.value.end <= |data| && data[r.value.start..r.value.end] == Encode(w)
  {
    hide Print, Lookup, ExtractFrom;
    var data := Encode(v) + suffix;
    assert data[0..] == data;
    ExtractPrinted(data, 0, Normal(v), path, suffix);
    LookupNormal(v, path);
  }
}
