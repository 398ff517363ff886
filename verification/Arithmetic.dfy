/** Exclusive or on bytes and the arithmetic behind the key exchange. */
module Arithmetic {
  import opened Bytes

  // ----- Exclusive or -----

  function Xor(a: nat, b: nat): nat {
    if a == 0 && b == 0 then 0 else (a + b) % 2 + 2 * Xor(a / 2, b / 2)
  }

  lemma XorHalves(a: nat, b: nat)
    ensures Xor(a, b) / 2 == Xor(a / 2, b / 2)
    ensures Xor(a, b) % 2 == (a + b) % 2
  {
  }

  lemma {:induction false} XorCancels(a: nat, b: nat)
    ensures Xor(Xor(a, b), b) == a
    decreases a + b
  {
    if a + b > 0 {
      hide Xor;
      var x := Xor(a, b);
      XorHalves(a, b);
      XorHalves(x, b);
      XorCancels(a / 2, b / 2);
      SameParity(a, b, x);
    }
  }

  lemma SameParity(a: nat, b: nat, x: nat)
    requires x % 2 == (a + b) % 2
    ensures (x + b) % 2 == a % 2
  {
  }

  function TwoTo(k: nat): nat {
    if k == 0 then 1 else 2 * TwoTo(k - 1)
  }

  lemma {:induction false} XorBound(a: nat, b: nat, k: nat)
    requires a < TwoTo(k) && b < TwoTo(k)
    ensures Xor(a, b) < TwoTo(k)
  {
    if k > 0 && (a != 0 || b != 0) {
      XorBound(a / 2, b / 2, k - 1);
    }
  }

  function XorByte(a: byte, b: byte): byte {
    assert TwoTo(3) == 8;
    assert TwoTo(6) == 64;
    XorBound(a, b, 8);
    Xor(a, b)
  }

  lemma XorByteCancels(a: byte, b: byte)
    ensures XorByte(XorByte(a, b), b) == a
  {
    XorCancels(a, b);
  }

  // ----- Powers -----

  function Pow(b: nat, e: nat): nat {
    if e == 0 then 1 else b * Pow(b, e - 1)
  }

  lemma {:induction false} PowAdd(b: nat, d: nat, e: nat)
    ensures Pow(b, d + e) == Pow(b, d) * Pow(b, e)
  {
    if d > 0 {
      PowAdd(b, d - 1, e);
      assert Pow(b, d + e) == b * Pow(b, d - 1 + e);
      TimesAssoc(b, Pow(b, d - 1), Pow(b, e));
    }
  }

  lemma TimesAssoc(a: int, b: int, c: int)
    ensures a * (b * c) == (a * b) * c
  {
  }

  lemma {:induction false} PowPow(b: nat, d: nat, e: nat)
    ensures Pow(Pow(b, d), e) == Pow(b, d * e)
  {
    if e > 0 {
      PowPow(b, d, e - 1);
      PowAdd(b, d, d * (e - 1));
      assert d + d * (e - 1) == d * e;
    }
  }

  lemma ModUnique(x: int, m: int, q: int, r: int)
    requires m > 0 && x == m * q + r && 0 <= r < m
    ensures x % m == r
  {
    var q', r' := x / m, x % m;
    assert x == m * q' + r';
    assert m * (q - q') == r' - r;
    TimesAtLeast(m, q - q');
    TimesAtLeast(m, q' - q);
    assert m * (q' - q) == r - r';
  }

  lemma TimesAtLeast(m: int, k: int)
    requires m > 0
    ensures k >= 1 ==> m * k >= m
  {
  }

  lemma ModTimes(x: nat, y: nat, m: nat)
    requires m > 0
    ensures (x * y) % m == ((x % m) * (y % m)) % m
  {
    var a, b := x / m, y / m;
    var r, s := x % m, y % m;
    var k := (r * s) / m;
    assert x == m * a + r && y == m * b + s;
    assert r * s == m * k + (r * s) % m;
    calc {
      x * y;
      (m * a + r) * (m * b + s);
      m * (a * (m * b) + a * s + r * b) + r * s;
      m * (a * (m * b) + a * s + r * b + k) + (r * s) % m;
    }
    ModUnique(x * y, m, a * (m * b) + a * s + r * b + k, (r * s) % m);
  }

  lemma {:induction false} PowMod(x: nat, e: nat, m: nat)
    requires m > 0
    ensures Pow(x % m, e) % m == Pow(x, e) % m
  {
    if e > 0 {
      PowMod(x, e - 1, m);
      var y, p, q := x % m, Pow(x, e - 1), Pow(x % m, e - 1);
      ModTimes(x, p, m);
      ModTimes(y, q, m);
      ModSmall(y, m);
    }
  }

  lemma ModSmall(y: nat, m: nat)
    requires y < m
    ensures y % m == y
  {
  }

  /** `big.Int.Exp(x, e, m)`. */
  function ModExp(x: nat, e: nat, m: nat): nat
    requires m > 0
  {
    Pow(x, e) % m
  }

  /** Both sides of a key exchange compute the same secret. */
  lemma ExchangeCommutes(g: nat, a: nat, b: nat, m: nat)
    requires m > 0
    ensures ModExp(ModExp(g, a, m), b, m) == ModExp(ModExp(g, b, m), a, m)
  {
    PowMod(Pow(g, a), b, m);
    PowMod(Pow(g, b), a, m);
    PowPow(g, a, b);
    PowPow(g, b, a);
    assert a * b == b * a;
  }

  // ----- Big-endian numbers -----

  /** `big.Int.Bytes`: as few bytes as possible. */
  function MinimalBytes(x: nat): seq<byte> {
    if x == 0 then [] else MinimalBytes(x / 256) + [x % 256]
  }

  /** `big.Int.SetBytes`. */
  function FromBytes(s: seq<byte>): nat {
    if s == [] then 0 else FromBytes(s[..|s| - 1]) * 256 + s[|s| - 1]
  }

  function Zeros(n: nat): seq<byte> {
    seq(n, _ => 0)
  }

  lemma {:induction false} MinimalRoundTrip(x: nat)
    ensures FromBytes(MinimalBytes(x)) == x
  {
    if x != 0 {
      MinimalRoundTrip(x / 256);
      var s := MinimalBytes(x);
      assert s[..|s| - 1] == MinimalBytes(x / 256);
    }
  }

  lemma {:induction false} MinimalLength(x: nat, n: nat)
    requires x < Pow(256, n)
    ensures |MinimalBytes(x)| <= n
  {
    if x != 0 {
      assert n > 0;
      assert x / 256 < Pow(256, n - 1);
      MinimalLength(x / 256, n - 1);
    }
  }

  lemma {:induction false} LeadingZeros(n: nat, s: seq<byte>)
    ensures FromBytes(Zeros(n) + s) == FromBytes(s)
    decreases |s| + n
  {
    if s == [] {
      if n > 0 {
        LeadingZeros(n - 1, []);
        assert (Zeros(n) + s)[..n - 1] == Zeros(n - 1) + [];
      }
    } else {
      var m := |s| - 1;
      assert (Zeros(n) + s)[..n + m] == Zeros(n) + s[..m];
      LeadingZeros(n, s[..m]);
    }
  }
}
