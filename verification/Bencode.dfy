/** Bencode values, their canonical form and their encoding. */
module Bencode {
  import opened Bytes

  const MAX_INT64: int := 0x7FFF_FFFF_FFFF_FFFF
  const MIN_INT64: int := -0x8000_0000_0000_0000
  const MAX_DEPTH: nat := 50

  const COLON: byte := 58
  const MINUS: byte := 45
  const PLUS: byte := 43
  const DOT: byte := 46
  const ZERO: byte := 48
  const NINE: byte := 57
  const UPPER_E: byte := 69
  const LETTER_D: byte := 100
  const LETTER_E: byte := 101
  const LETTER_I: byte := 105
  const LETTER_L: byte := 108

  /** A dictionary lists its entries in the order in which its keys were first set. */
  datatype Value =
    | Str(s: bytes)
    | Int(i: int)
    | List(items: seq<Value>)
    | Dict(entries: seq<Entry>)

  datatype Entry = Entry(key: bytes, value: Value)

  predicate IsDigit(b: byte) {
    ZERO <= b <= NINE
  }

  predicate AllDigits(s: bytes) {
    forall k :: 0 <= k < |s| ==> IsDigit(s[k])
  }

  function DigitValue(b: byte): nat
    requires IsDigit(b)
  {
    b - ZERO
  }

  // ----- Well-formed and canonical values -----

  ghost predicate DistinctKeys(es: seq<Entry>) {
    forall i, j :: 0 <= i < j < |es| ==> es[i].key != es[j].key
  }

  ghost predicate WellFormed(v: Value)
    decreases v, 1
  {
    match v
    case Str(s) => |s| <= MAX_INT64
    case Int(i) => MIN_INT64 <= i <= MAX_INT64
    case List(items) => WellFormedList(items)
    case Dict(es) => DistinctKeys(es) && WellFormedEntries(es)
  }

  ghost predicate WellFormedList(vs: seq<Value>)
    decreases vs, 0
  {
    vs == [] || (WellFormed(vs[0]) && WellFormedList(vs[1..]))
  }

  ghost predicate WellFormedEntries(es: seq<Entry>)
    decreases es, 0
  {
    es == [] || (|es[0].key| <= MAX_INT64 && WellFormed(es[0].value) && WellFormedEntries(es[1..]))
  }

  ghost predicate SortedKeys(es: seq<Entry>) {
    forall i :: 0 < i < |es| ==> Less(es[i - 1].key, es[i].key)
  }

  /** Every dictionary in the value lists its keys in strictly increasing order. */
  ghost predicate Canonical(v: Value)
    decreases v, 1
  {
    match v
    case Str(_) => true
    case Int(_) => true
    case List(items) => CanonicalList(items)
    case Dict(es) => SortedKeys(es) && CanonicalEntries(es)
  }

  ghost predicate CanonicalList(vs: seq<Value>)
    decreases vs, 0
  {
    vs == [] || (Canonical(vs[0]) && CanonicalList(vs[1..]))
  }

  ghost predicate CanonicalEntries(es: seq<Entry>)
    decreases es, 0
  {
    es == [] || (Canonical(es[0].value) && CanonicalEntries(es[1..]))
  }

  /** How deep lists and dictionaries are nested. */
  function Depth(v: Value): nat
    decreases v, 1
  {
    match v
    case Str(_) => 0
    case Int(_) => 0
    case List(items) => 1 + DepthList(items)
    case Dict(es) => 1 + DepthEntries(es)
  }

  function DepthList(vs: seq<Value>): nat
    decreases vs, 0
  {
    if vs == [] then 0 else Max(Depth(vs[0]), DepthList(vs[1..]))
  }

  function DepthEntries(es: seq<Entry>): nat
    decreases es, 0
  {
    if es == [] then 0 else Max(Depth(es[0].value), DepthEntries(es[1..]))
  }

  // ----- Sorting -----

  function InsertEntry(e: Entry, es: seq<Entry>): seq<Entry> {
    if es == [] || Less(e.key, es[0].key) then [e] + es else [es[0]] + InsertEntry(e, es[1..])
  }

  function SortEntries(es: seq<Entry>): seq<Entry> {
    if es == [] then [] else InsertEntry(es[0], SortEntries(es[1..]))
  }

  /** The value with the keys of every dictionary in it sorted. */
  function Normal(v: Value): Value
    decreases v, 1
  {
    match v
    case Str(_) => v
    case Int(_) => v
    case List(items) => List(NormalList(items))
    case Dict(es) => Dict(SortEntries(NormalEntries(es)))
  }

  function NormalList(vs: seq<Value>): (r: seq<Value>)
    ensures |r| == |vs|
    decreases vs, 0
  {
    if vs == [] then [] else [Normal(vs[0])] + NormalList(vs[1..])
  }

  function NormalEntries(es: seq<Entry>): (r: seq<Entry>)
    ensures |r| == |es|
    ensures forall k :: 0 <= k < |es| ==> r[k].key == es[k].key
    decreases es, 0
  {
    if es == [] then [] else [Entry(es[0].key, Normal(es[0].value))] + NormalEntries(es[1..])
  }

  lemma {:induction false} NormalListAt(vs: seq<Value>, k: nat)
    requires k < |vs|
    ensures NormalList(vs)[k] == Normal(vs[k])
  {
    if k > 0 {
      NormalListAt(vs[1..], k - 1);
    }
  }

  // ----- Encoding -----

  /** Decimal digits, most significant first. */
  function Digits(n: nat): (s: bytes)
    ensures |s| > 0 && AllDigits(s)
  {
    if n < 10 then [ZERO + n] else Digits(n / 10) + [ZERO + n % 10]
  }

  function IntText(i: int): bytes {
    if i < 0 then [MINUS] + Digits(-i) else Digits(i)
  }

  function PrintString(s: bytes): bytes {
    Digits(|s|) + [COLON] + s
  }

  /** The encoding of a canonical value. */
  function Print(v: Value): (r: bytes)
    ensures |r| > 0
    decreases v, 1
  {
    match v
    case Str(s) => PrintString(s)
    case Int(i) => [LETTER_I] + IntText(i) + [LETTER_E]
    case List(items) => [LETTER_L] + PrintList(items) + [LETTER_E]
    case Dict(es) => [LETTER_D] + PrintEntries(es) + [LETTER_E]
  }

  function PrintList(vs: seq<Value>): bytes
    decreases vs, 0
  {
    if vs == [] then [] else Print(vs[0]) + PrintList(vs[1..])
  }

  function PrintEntries(es: seq<Entry>): bytes
    decreases es, 0
  {
    if es == [] then [] else PrintString(es[0].key) + Print(es[0].value) + PrintEntries(es[1..])
  }

  /** What `Marshal` produces. */
  function Encode(v: Value): bytes {
    Print(Normal(v))
  }

  // ----- The order of keys -----

  lemma {:induction false} SortedAll(es: seq<Entry>, i: nat, j: nat)
    requires SortedKeys(es) && i < j < |es|
    ensures Less(es[i].key, es[j].key)
  {
    if i < j - 1 {
      SortedAll(es, i, j - 1);
      LessTrans(es[i].key, es[j - 1].key, es[j].key);
    }
  }

  lemma SortedDistinct(es: seq<Entry>)
    requires SortedKeys(es)
    ensures DistinctKeys(es)
  {
    forall i, j | 0 <= i < j < |es|
      ensures es[i].key != es[j].key
    {
      SortedAll(es, i, j);
      LessTotal(es[i].key, es[j].key);
    }
  }

  // ----- Sorting is a permutation that sorts -----

  lemma {:induction false} InsertKeeps(e: Entry, es: seq<Entry>)
    ensures multiset(InsertEntry(e, es)) == multiset(es) + multiset{e}
    ensures |InsertEntry(e, es)| == |es| + 1
  {
    if es != [] && !Less(e.key, es[0].key) {
      InsertKeeps(e, es[1..]);
      assert es == [es[0]] + es[1..];
    }
  }

  lemma {:induction false} SortKeeps(es: seq<Entry>)
    ensures multiset(SortEntries(es)) == multiset(es)
    ensures |SortEntries(es)| == |es|
  {
    if es != [] {
      SortKeeps(es[1..]);
      InsertKeeps(es[0], SortEntries(es[1..]));
      assert es == [es[0]] + es[1..];
    }
  }

  lemma {:induction false} InsertSorts(e: Entry, es: seq<Entry>)
    requires SortedKeys(es) && forall k :: 0 <= k < |es| ==> es[k].key != e.key
    ensures SortedKeys(InsertEntry(e, es))
    ensures InsertEntry(e, es)[0] == e || (es != [] && InsertEntry(e, es)[0] == es[0])
  {
    if es != [] && !Less(e.key, es[0].key) {
      LessTotal(e.key, es[0].key);
      assert forall i :: 0 < i < |es[1..]| ==> es[1..][i - 1] == es[i] && es[1..][i] == es[i + 1];
      InsertSorts(e, es[1..]);
      var r := InsertEntry(e, es);
      assert r[1..] == InsertEntry(e, es[1..]);
      forall i | 0 < i < |r|
        ensures Less(r[i - 1].key, r[i].key)
      {
        if i > 1 {
          assert r[i - 1] == r[1..][i - 2] && r[i] == r[1..][i - 1];
        }
      }
    }
  }

  /** Sorting entries with distinct keys puts them in strictly increasing order. */
  lemma {:induction false} SortSorts(es: seq<Entry>)
    requires DistinctKeys(es)
    ensures SortedKeys(SortEntries(es))
  {
    if es != [] {
      SortSorts(es[1..]);
      SortKeeps(es[1..]);
      forall k | 0 <= k < |SortEntries(es[1..])|
        ensures SortEntries(es[1..])[k].key != es[0].key
      {
        var x := SortEntries(es[1..])[k];
        assert x in multiset(SortEntries(es[1..]));
        assert x in multiset(es[1..]);
        var j :| 0 <= j < |es[1..]| && es[1..][j] == x;
        assert es[j + 1] == x;
      }
      InsertSorts(es[0], SortEntries(es[1..]));
    }
  }

  // ----- The canonical form -----

  ghost predicate GoodEntry(e: Entry) {
    |e.key| <= MAX_INT64 && WellFormed(e.value) && Canonical(e.value)
  }

  lemma {:induction false} InsertGood(e: Entry, es: seq<Entry>)
    requires GoodEntry(e) && WellFormedEntries(es) && CanonicalEntries(es)
    ensures WellFormedEntries(InsertEntry(e, es)) && CanonicalEntries(InsertEntry(e, es))
    ensures DepthEntries(InsertEntry(e, es)) == Max(Depth(e.value), DepthEntries(es))
  {
    var r := InsertEntry(e, es);
    if es == [] || Less(e.key, es[0].key) {
      assert r[1..] == es;
    } else {
      InsertGood(e, es[1..]);
      assert r[1..] == InsertEntry(e, es[1..]);
    }
  }

  lemma {:induction false} SortGood(es: seq<Entry>)
    requires WellFormedEntries(es) && CanonicalEntries(es)
    ensures WellFormedEntries(SortEntries(es)) && CanonicalEntries(SortEntries(es))
    ensures DepthEntries(SortEntries(es)) == DepthEntries(es)
  {
    if es != [] {
      SortGood(es[1..]);
      InsertGood(es[0], SortEntries(es[1..]));
    }
  }

  /** The canonical form is well formed, canonical and as deep as the value itself. */
  lemma {:induction false} NormalGood(v: Value)
    requires WellFormed(v)
    ensures WellFormed(Normal(v)) && Canonical(Normal(v)) && Depth(Normal(v)) == Depth(v)
    decreases v, 1
  {
    match v
    case Str(_) =>
    case Int(_) =>
    case List(items) =>
      NormalListGood(items);
    case Dict(es) =>
      var ns := NormalEntries(es);
      NormalEntriesGood(es);
      assert DistinctKeys(ns);
      SortGood(ns);
      SortSorts(ns);
      SortedDistinct(SortEntries(ns));
  }

  lemma {:induction false} NormalListGood(vs: seq<Value>)
    requires WellFormedList(vs)
    ensures WellFormedList(NormalList(vs)) && CanonicalList(NormalList(vs)) && DepthList(NormalList(vs)) == DepthList(vs)
    decreases vs, 0
  {
    if vs != [] {
      NormalGood(vs[0]);
      NormalListGood(vs[1..]);
      assert NormalList(vs)[1..] == NormalList(vs[1..]);
    }
  }

  lemma {:induction false} NormalEntriesGood(es: seq<Entry>)
    requires WellFormedEntries(es)
    ensures WellFormedEntries(NormalEntries(es)) && CanonicalEntries(NormalEntries(es))
    ensures DepthEntries(NormalEntries(es)) == DepthEntries(es)
    decreases es, 0
  {
    if es != [] {
      NormalGood(es[0].value);
      NormalEntriesGood(es[1..]);
      assert NormalEntries(es)[1..] == NormalEntries(es[1..]);
    }
  }

  lemma {:induction false} SortSorted(es: seq<Entry>)
    requires SortedKeys(es)
    ensures SortEntries(es) == es
  {
    if es != [] {
      assert forall i :: 0 < i < |es[1..]| ==> es[1..][i - 1] == es[i] && es[1..][i] == es[i + 1];
      SortSorted(es[1..]);
      if |es| > 1 {
        assert Less(es[0].key, es[1].key) && es[1..][0] == es[1];
      }
      assert es == [es[0]] + es[1..];
    }
  }

  /** The canonical form of a canonical value is that value. */
  lemma {:induction false} NormalFixed(v: Value)
    requires Canonical(v)
    ensures Normal(v) == v
    decreases v, 1
  {
    match v
    case Str(_) =>
    case Int(_) =>
    case List(items) =>
      NormalListFixed(items);
    case Dict(es) =>
      NormalEntriesFixed(es);
      SortSorted(es);
  }

  lemma {:induction false} NormalListFixed(vs: seq<Value>)
    requires CanonicalList(vs)
    ensures NormalList(vs) == vs
    decreases vs, 0
  {
    if vs != [] {
      NormalFixed(vs[0]);
      NormalListFixed(vs[1..]);
    }
  }

  lemma {:induction false} NormalEntriesFixed(es: seq<Entry>)
    requires CanonicalEntries(es)
    ensures NormalEntries(es) == es
    decreases es, 0
  {
    if es != [] {
      NormalFixed(es[0].value);
      NormalEntriesFixed(es[1..]);
    }
  }
}
