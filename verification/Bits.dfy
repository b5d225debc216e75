/**
 Bit sequences, least significant bit first, and the natural numbers they denote.

 The C++ sources assemble integers with shifts and `|`. Wherever the operands of such a `|` have
 no bit in common it is the sum of the two, and the model writes it as `OrAt`, whose precondition
 is exactly that disjointness.
 */
module Bits {

  function Pow2(n: nat): (r: nat)
    ensures r > 0
  {
    if n == 0 then 1 else 2 * Pow2(n - 1)
  }

  /** `a | (b << k)` for an `a` that has no bit at position k or above. */
  function OrAt(a: nat, b: nat, k: nat): nat
    requires a < Pow2(k)
  {
    a + b * Pow2(k)
  }

  /** The n low bits of v. */
  function ToBits(v: nat, n: nat): (bs: seq<bool>)
    ensures |bs| == n
  {
    if n == 0 then [] else [v % 2 == 1] + ToBits(v / 2, n - 1)
  }

  /** The number a bit sequence denotes. */
  function Value(bs: seq<bool>): nat
  {
    if bs == [] then 0 else (if bs[0] then 1 else 0) + 2 * Value(bs[1..])
  }

  function Zeros(n: nat): (bs: seq<bool>)
    ensures |bs| == n
  {
    seq(n, _ => false)
  }

  // ----- powers of two

  lemma {:induction false} Pow2Add(a: nat, b: nat)
    ensures Pow2(a + b) == Pow2(a) * Pow2(b)
  {
    if a > 0 {
      Pow2Add(a - 1, b);
      Double(Pow2(a - 1), Pow2(b));
    }
  }

  lemma Double(x: nat, y: nat)
    ensures (2 * x) * y == 2 * (x * y)
  {
  }

  lemma {:induction false} Pow2Monotone(a: nat, b: nat)
    requires a <= b
    ensures Pow2(a) <= Pow2(b)
  {
    if a < b { Pow2Monotone(a, b - 1); }
  }

  lemma Pow2Constants()
    ensures Pow2(1) == 2 && Pow2(2) == 4 && Pow2(3) == 8 && Pow2(4) == 16 && Pow2(5) == 32 && Pow2(6) == 64
    ensures Pow2(8) == 0x100 && Pow2(16) == 0x1_0000 && Pow2(32) == 0x1_0000_0000
    ensures Pow2(64) == 0x1_0000_0000_0000_0000
  {
    assert Pow2(6) == 2 * 2 * 2 * 2 * 2 * 2;
    assert Pow2(8) == 0x100;
    Pow2Add(8, 8);
    Pow2Add(16, 16);
    Pow2Add(32, 32);
  }

  // ----- division

  lemma MulGap(x: int, y: int, d: nat)
    requires x < y
    ensures x * d + d <= y * d
  {
    assert (y - x - 1) * d >= 0;
  }

  lemma ModSmall(v: nat, m: nat)
    requires v < m
    ensures v % m == v
  {
  }

  lemma DivModUnique(v: nat, d: nat, q: nat, r: nat)
    requires d > 0 && r < d && v == q * d + r
    ensures v / d == q && v % d == r
  {
    var q' := v / d;
    if q < q' { MulGap(q, q', d); }
    if q' < q { MulGap(q', q, d); }
  }

  lemma Assoc(x: nat, y: nat, z: nat)
    ensures (x * y) * z == x * (y * z)
  {
  }

  /** Scaling dividend and divisor together. */
  lemma DivModScale(x: nat, m: nat, p: nat)
    requires m > 0 && p > 0
    ensures m * p > 0 && (x * p) % (m * p) == (x % m) * p && (x * p) / (m * p) == x / m
  {
    var q, r := x / m, x % m;
    MulGap(0, m, p);
    MulGap(r, m, p);
    assert x * p == (q * m) * p + r * p;
    Assoc(q, m, p);
    DivModUnique(x * p, m * p, q, r * p);
  }

  /** Dividing twice, and dividing a remainder. */
  lemma DivModTwice(x: nat, d: nat, r: nat)
    requires d > 0 && r > 0
    ensures r * d > 0 && x / (r * d) == (x / d) / r && (x % (r * d)) / d == (x / d) % r
  {
    var y, b := x / d, x % d;
    var q, a := y / r, y % r;
    assert y == q * r + a;
    assert x == y * d + b;
    DivModDigits(x, y, q, a, b, d, r);
  }

  lemma DivModDigits(x: nat, y: nat, q: nat, a: nat, b: nat, d: nat, r: nat)
    requires a < r && b < d && y == q * r + a && x == y * d + b
    ensures r * d > 0 && x / (r * d) == q && (x % (r * d)) / d == a
  {
    MulGap(0, r, d);
    MulGap(a, r, d);
    RegroupDigits(q, r, a, d);
    DivModUnique(x, r * d, q, a * d + b);
    DivModUnique(a * d + b, d, a, b);
  }

  lemma RegroupDigits(q: nat, r: nat, a: nat, d: nat)
    ensures (q * r + a) * d == q * (r * d) + a * d
  {
  }

  /** Halving commutes with taking a remainder modulo a power of two. */
  lemma HalveMod(v: nat, p: nat)
    requires p > 0
    ensures v % (2 * p) == v % 2 + 2 * ((v / 2) % p)
    ensures v / (2 * p) == (v / 2) / p
  {
    var q, r := (v / 2) / p, (v / 2) % p;
    assert v / 2 == q * p + r;
    assert v == q * (2 * p) + (v % 2 + 2 * r);
    DivModUnique(v, 2 * p, q, v % 2 + 2 * r);
  }

  // ----- ToBits and Value

  lemma {:induction false} ValueBound(bs: seq<bool>)
    ensures Value(bs) < Pow2(|bs|)
  {
    if bs != [] { ValueBound(bs[1..]); }
  }

  /** Writing n bits of v and reading them back reduces v modulo 2^n. */
  lemma {:induction false} ValueToBits(v: nat, n: nat)
    ensures Value(ToBits(v, n)) == v % Pow2(n)
  {
    if n > 0 {
      ValueToBits(v / 2, n - 1);
      HalveMod(v, Pow2(n - 1));
      assert ToBits(v, n)[1..] == ToBits(v / 2, n - 1);
    }
  }

  lemma {:induction false} ToBitsValue(bs: seq<bool>)
    ensures ToBits(Value(bs), |bs|) == bs
  {
    if bs != [] {
      ToBitsValue(bs[1..]);
      assert Value(bs) / 2 == Value(bs[1..]);
    }
  }

  lemma {:induction false} ValueAppend(a: seq<bool>, b: seq<bool>)
    ensures Value(a + b) == Value(a) + Pow2(|a|) * Value(b)
  {
    if a == [] {
      assert a + b == b;
    } else {
      ValueAppend(a[1..], b);
      assert (a + b)[1..] == a[1..] + b;
      assert 2 * (Pow2(|a| - 1) * Value(b)) == Pow2(|a|) * Value(b);
    }
  }

  /** The low a bits of v, then the bits of the quotient. */
  lemma {:induction false} ToBitsSplit(v: nat, a: nat, b: nat, q: nat)
    requires q == v / Pow2(a)
    ensures ToBits(v, a + b) == ToBits(v, a) + ToBits(q, b)
  {
    if a == 0 {
      assert q == v;
    } else {
      assert q == (v / 2) / Pow2(a - 1) by { HalveMod(v, Pow2(a - 1)); }
      ToBitsSplit(v / 2, a - 1, b, q);
      var head := [v % 2 == 1];
      assert head + (ToBits(v / 2, a - 1) + ToBits(q, b)) == (head + ToBits(v / 2, a - 1)) + ToBits(q, b);
    }
  }

  lemma {:induction false} ValueZeros(n: nat)
    ensures Value(Zeros(n)) == 0
  {
    if n > 0 {
      assert Zeros(n)[1..] == Zeros(n - 1);
      ValueZeros(n - 1);
    }
  }

  lemma ValueZeroExtend(bs: seq<bool>, n: nat)
    ensures Value(bs + Zeros(n)) == Value(bs)
  {
    ValueAppend(bs, Zeros(n));
    ValueZeros(n);
  }

  /** Dropping the high bits of a sequence reduces its value modulo a power of two. */
  lemma ValuePrefix(bs: seq<bool>, n: nat)
    requires n <= |bs|
    ensures Value(bs[..n]) == Value(bs) % Pow2(n)
    ensures Value(bs[n..]) == Value(bs) / Pow2(n)
  {
    var lo, hi := Value(bs[..n]), Value(bs[n..]);
    assert Value(bs) == lo + Pow2(n) * hi by {
      ValueAppend(bs[..n], bs[n..]);
      assert bs[..n] + bs[n..] == bs;
    }
    assert lo < Pow2(n) by { ValueBound(bs[..n]); }
    Commute(Pow2(n), hi);
    DivModUnique(Value(bs), Pow2(n), hi, lo);
  }

  lemma Commute(a: nat, b: nat)
    ensures a * b == b * a
  {
  }

  /** Appending one bit on the high side. */
  lemma {:induction false} ValueSnoc(bs: seq<bool>, b: bool)
    ensures Value(bs + [b]) == Value(bs) + (if b then Pow2(|bs|) else 0)
  {
    if bs != [] {
      ValueSnoc(bs[1..], b);
      assert (bs + [b])[1..] == bs[1..] + [b];
    }
  }
}
