/** Powers of two, remainders and the bitwise "and" of naturals. */
module Bits {
  function Pow2(n: nat): (p: nat)
    ensures p > 0
  {
    if n == 0 then 1 else 2 * Pow2(n - 1)
  }

  /** The program's `&` on non-negative integers. */
  function And(a: nat, b: nat): nat {
    if a == 0 || b == 0 then 0
    else 2 * And(a / 2, b / 2) + (if a % 2 == 1 && b % 2 == 1 then 1 else 0)
  }

  /** Bit `k` of the conjunction is set exactly when both operands have it. */
  lemma {:induction false} AndByBits(a: nat, b: nat, k: nat)
    ensures And(a, b) / Pow2(k) % 2 == 1 <==> a / Pow2(k) % 2 == 1 && b / Pow2(k) % 2 == 1
  {
    if k > 0 {
      HalfThenShift(a, k);
      HalfThenShift(b, k);
      HalfThenShift(And(a, b), k);
      AndByBits(a / 2, b / 2, k - 1);
      AndHalves(a, b);
    }
  }

  lemma AndHalves(a: nat, b: nat)
    ensures And(a, b) / 2 == And(a / 2, b / 2)
  {
  }

  lemma HalfThenShift(a: nat, k: nat)
    requires k > 0
    ensures a / Pow2(k) == a / 2 / Pow2(k - 1)
  {
    var p, q := Pow2(k - 1), a / Pow2(k);
    var r := a % Pow2(k);
    assert a == 2 * (p * q) + r by {
      assert a == Pow2(k) * q + r;
      assert Pow2(k) * q == 2 * (p * q);
    }
    QuotientIsUnique(a / 2, p, q, r / 2);
  }

  lemma {:induction false} Pow2Adds(m: nat, n: nat)
    ensures Pow2(m + n) == Pow2(m) * Pow2(n)
  {
    if m > 0 {
      Pow2Adds(m - 1, n);
      assert Pow2(m) * Pow2(n) == 2 * (Pow2(m - 1) * Pow2(n));
    }
  }

  lemma ProductAtLeast(p: nat, d: int)
    requires p > 0
    ensures d >= 1 ==> p * d >= p
    ensures d <= -1 ==> p * d + p <= 0
  {
  }

  lemma QuotientIsUnique(x: nat, p: nat, q: int, s: nat)
    requires x == p * q + s && s < p
    ensures x % p == s && x / p == q
  {
    var d := x / p - q;
    assert p * d == s - x % p by {
      assert x == p * (x / p) + x % p;
      assert p * d == p * (x / p) - p * q;
    }
    ProductAtLeast(p, d);
  }

  lemma AddMultiple(x: nat, p: nat, q: nat)
    requires p > 0
    ensures (x + p * q) % p == x % p
  {
    assert x + p * q == p * (x / p + q) + x % p by {
      assert x == p * (x / p) + x % p;
      assert p * (x / p + q) == p * (x / p) + p * q;
    }
    QuotientIsUnique(x + p * q, p, x / p + q, x % p);
  }

  lemma Regroup(g: int, a: int, b: int)
    ensures g * (a * b) == a * (g * b)
    ensures (a * b) * g == a * (b * g)
  {
  }

  lemma ModOfMod(x: nat, a: nat, b: nat)
    requires a > 0 && b > 0
    ensures a * b > 0 && x % (a * b) % a == x % a
  {
    ProductAtLeast(a, b);
    var c := a * b;
    var q, r := x / c, x % c;
    assert x == r + a * (b * q) by {
      assert x == c * q + r;
      Regroup(q, a, b);
    }
    AddMultiple(r, a, b * q);
  }

  /** A remainder modulo a larger power of two keeps the smaller remainder. */
  lemma ModMod(x: nat, m: nat, n: nat)
    requires m <= n
    ensures x % Pow2(n) % Pow2(m) == x % Pow2(m)
  {
    Pow2Adds(m, n - m);
    hide Pow2;
    ModOfMod(x, Pow2(m), Pow2(n - m));
  }

  lemma HalfOfRemainder(a: nat, k: nat)
    requires k > 0
    ensures (a % Pow2(k)) / 2 == (a / 2) % Pow2(k - 1)
    ensures (a % Pow2(k)) % 2 == a % 2
  {
    var p, q, r := Pow2(k - 1), a / Pow2(k), a % Pow2(k);
    assert a == 2 * (p * q) + r by {
      assert a == Pow2(k) * q + r;
      assert Pow2(k) * q == 2 * (p * q);
    }
    QuotientIsUnique(a / 2, p, q, r / 2);
  }

  /** A mask below `2^k` sees only the low `k` bits. */
  lemma {:induction false} AndSeesLowBits(a: nat, mask: nat, k: nat)
    requires mask < Pow2(k)
    ensures And(a, mask) == And(a % Pow2(k), mask)
  {
    if k > 0 && a != 0 && mask != 0 {
      HalfOfRemainder(a, k);
      AndSeesLowBits(a / 2, mask / 2, k - 1);
      if a % Pow2(k) == 0 {
        assert a % 2 == 0 && (a / 2) % Pow2(k - 1) == 0;
        assert And(0, mask / 2) == 0;
      }
    }
  }

  lemma AndOdd(a: nat, p: nat)
    requires p > 0
    ensures And(a, 2 * p - 1) == 2 * And(a / 2, p - 1) + a % 2
  {
    assert (2 * p - 1) / 2 == p - 1 && (2 * p - 1) % 2 == 1;
  }

  lemma HalfAndBit(r: nat)
    ensures r == 2 * (r / 2) + r % 2
  {
  }

  /** The all-ones mask is the remainder. */
  lemma {:induction false} AndAllOnes(a: nat, k: nat)
    ensures And(a, Pow2(k) - 1) == a % Pow2(k)
  {
    if k > 0 {
      var p := Pow2(k - 1);
      assert Pow2(k) == 2 * p;
      hide Pow2, And;
      HalfOfRemainder(a, k);
      AndAllOnes(a / 2, k - 1);
      AndOdd(a, p);
      HalfAndBit(a % Pow2(k));
    }
  }

  lemma Pow2Doubles(n: nat)
    ensures Pow2(n + 1) == 2 * Pow2(n)
  {
  }

  lemma Pow2Of32()
    ensures Pow2(16) == 0x1_0000 && Pow2(32) == 0x1_0000_0000
  {
    assert Pow2(4) == 16;
    hide Pow2;
    Pow2Adds(4, 4);
    Pow2Adds(8, 8);
    Pow2Adds(16, 16);
  }

  lemma Pow2Values()
    ensures Pow2(47) == 0x8000_0000_0000 && Pow2(48) == 0x1_0000_0000_0000
    ensures Pow2(49) == 0x2_0000_0000_0000 && Pow2(50) == 0x4_0000_0000_0000
    ensures Pow2(64) == 0x1_0000_0000_0000_0000
  {
    hide Pow2;
    Pow2Of32();
    Pow2Adds(32, 16);
    Pow2Adds(32, 32);
    Pow2Doubles(47);
    Pow2Doubles(48);
    Pow2Doubles(49);
  }
}
