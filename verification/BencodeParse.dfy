/** What the stream decoder makes of the bytes in front of it. */
module BencodeParse {
  import opened Bytes
  import opened Bencode

  datatype Error = UnexpectedEOF | Invalid | IntOverflow | KeyOrder | KeyType | TooDeep

  datatype Parsed<+T> = Done(value: T, rest: bytes) | Fail(error: Error)

  // ----- Numbers -----

  /** The leading digits, and what follows them. */
  function DigitRun(d: bytes): (k: nat)
    ensures k <= |d|
    ensures forall j :: 0 <= j < k ==> IsDigit(d[j])
    ensures k < |d| ==> !IsDigit(d[k])
  {
    if d == [] || !IsDigit(d[0]) then 0 else 1 + DigitRun(d[1..])
  }

  /** The number a run of digits stands for. */
  function NatValue(s: bytes): nat
    requires AllDigits(s)
  {
    if s == [] then 0 else NatValue(s[..|s| - 1]) * 10 + DigitValue(s[|s| - 1])
  }

  /** The accumulation stops with an error as soon as the next digit would not fit. */
  function Decimal(d: bytes, acc: nat): (r: Parsed<nat>)
    ensures r.Done? ==> |r.rest| <= |d|
  {
    if d == [] || !IsDigit(d[0]) then Done(acc, d)
    else if (MAX_INT64 - DigitValue(d[0])) / 10 < acc then Fail(Invalid)
    else Decimal(d[1..], acc * 10 + DigitValue(d[0]))
  }

  function ParseString(d: bytes): (r: Parsed<bytes>)
    ensures r.Done? ==> |r.rest| < |d|
  {
    if d == [] || !IsDigit(d[0]) then Fail(Invalid)
    else
      match Decimal(d[1..], DigitValue(d[0]))
      case Fail(e) => Fail(e)
      case Done(n, r) =>
        if r == [] then Fail(UnexpectedEOF)
        else if r[0] != COLON then Fail(Invalid)
        else if |r| - 1 < n then Fail(UnexpectedEOF)
        else Done(r[1..1 + n], r[1 + n..])
  }

  predicate FloatChar(b: byte) {
    IsDigit(b) || b == DOT || b == UPPER_E || b == LETTER_E || b == PLUS || b == MINUS
  }

  /** A number in floating-point notation is skipped and read as zero. */
  function SkipFloat(d: bytes): (r: Parsed<int>)
    ensures r.Done? ==> |r.rest| < |d|
  {
    if d == [] then Fail(UnexpectedEOF)
    else if d[0] == LETTER_E then Done(0, d[1..])
    else if FloatChar(d[0]) then SkipFloat(d[1..])
    else Fail(Invalid)
  }

  /** A sign and digits, once they are known to be terminated properly. */
  function IntOf(negative: bool, signed: bool, ds: bytes, rest: bytes): (r: Parsed<int>)
    requires AllDigits(ds)
    ensures r.Done? ==> r.rest == rest
  {
    if |ds| + (if signed then 1 else 0) > 24 then Fail(Invalid)
    else if |ds| > 1 && ds[0] == ZERO then Fail(Invalid)
    else
      var n: int := NatValue(ds);
      var i := if negative then -n else n;
      if i < MIN_INT64 || i > MAX_INT64 then Fail(IntOverflow) else Done(i, rest)
  }

  /** The digits of an integer and its end; `d` is what follows the sign. */
  function ParseDigits(negative: bool, signed: bool, d: bytes): (r: Parsed<int>)
    ensures r.Done? ==> |r.rest| < |d|
  {
    if d == [] then Fail(UnexpectedEOF)
    else if !IsDigit(d[0]) then Fail(Invalid)
    else
      var k := DigitRun(d);
      if k == |d| then Fail(UnexpectedEOF)
      else if d[k] == DOT || d[k] == UPPER_E || d[k] == PLUS || d[k] == MINUS then SkipFloat(d[k..])
      else if d[k] != LETTER_E then Fail(Invalid)
      else IntOf(negative, signed, d[..k], d[k + 1..])
  }

  /** `d` is what follows the letter i. */
  function ParseInt(d: bytes): (r: Parsed<int>)
    ensures r.Done? ==> |r.rest| < |d|
  {
    if d == [] then Fail(UnexpectedEOF)
    else if d[0] == MINUS || d[0] == PLUS then ParseDigits(d[0] == MINUS, true, d[1..])
    else ParseDigits(false, false, d)
  }

  // ----- Values -----

  /** `DictVal.Set`: replaces the value of a known key, appends a new one. */
  function SetEntry(es: seq<Entry>, key: bytes, value: Value): seq<Entry> {
    if es == [] then [Entry(key, value)]
    else if es[0].key == key then [Entry(key, value)] + es[1..]
    else [es[0]] + SetEntry(es[1..], key, value)
  }

  function ParseValue(d: bytes, depth: nat): (r: Parsed<Value>)
    ensures r.Done? ==> |r.rest| < |d|
    decreases |d|, 1
  {
    if d == [] then Fail(UnexpectedEOF)
    else if IsDigit(d[0]) then
      match ParseString(d)
      case Fail(e) => Fail(e)
      case Done(s, r) => Done(Str(s), r)
    else if d[0] == LETTER_I then
      match ParseInt(d[1..])
      case Fail(e) => Fail(e)
      case Done(i, r) => Done(Int(i), r)
    else if d[0] == LETTER_L then
      if depth >= MAX_DEPTH then Fail(TooDeep)
      else
        match ParseItems(d[1..], depth)
        case Fail(e) => Fail(e)
        case Done(vs, r) => Done(List(vs), r)
    else if d[0] == LETTER_D then
      if depth >= MAX_DEPTH then Fail(TooDeep)
      else
        match ParseEntries(d[1..], depth, [], [])
        case Fail(e) => Fail(e)
        case Done(es, r) => Done(Dict(es), r)
    else Fail(Invalid)
  }

  function ParseItems(d: bytes, depth: nat): (r: Parsed<seq<Value>>)
    ensures r.Done? ==> |r.rest| < |d|
    decreases |d|, 2
  {
    if d == [] then Fail(UnexpectedEOF)
    else if d[0] == LETTER_E then Done([], d[1..])
    else
      match ParseValue(d, depth + 1)
      case Fail(e) => Fail(e)
      case Done(v, r) =>
        match ParseItems(r, depth)
        case Fail(e) => Fail(e)
        case Done(vs, r') => Done([v] + vs, r')
  }

  /** `es` and `last` are the entries and the key read so far; an empty last key is not compared. */
  function ParseEntries(d: bytes, depth: nat, es: seq<Entry>, last: bytes): (r: Parsed<seq<Entry>>)
    ensures r.Done? ==> |r.rest| < |d|
    decreases |d|, 2
  {
    if d == [] then Fail(UnexpectedEOF)
    else if d[0] == LETTER_E then Done(es, d[1..])
    else if !IsDigit(d[0]) then Fail(KeyType)
    else
      match ParseString(d)
      case Fail(e) => Fail(e)
      case Done(key, r) => ParseEntry(r, depth, es, last, key)
  }

  /** The value of `key` and the entries after it. */
  function ParseEntry(d: bytes, depth: nat, es: seq<Entry>, last: bytes, key: bytes): (r: Parsed<seq<Entry>>)
    ensures r.Done? ==> |r.rest| < |d|
    decreases |d|, 3
  {
    match ParseValue(d, depth + 1)
    case Fail(e) => Fail(e)
    case Done(v, r) =>
      if last != [] && Less(key, last) then Fail(KeyOrder)
      else ParseEntries(r, depth, SetEntry(es, key, v), key)
  }
}
