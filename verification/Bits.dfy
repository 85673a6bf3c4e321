/** The bitwise operators of C on unsigned values, and the masks the UTF-8 writers use. */
module Bits {
  function And(a: nat, b: nat): nat {
    if a == 0 || b == 0 then 0 else 2 * And(a / 2, b / 2) + (a % 2) * (b % 2)
  }

  function Or(a: nat, b: nat): nat {
    if a == 0 then b else if b == 0 then a
    else 2 * Or(a / 2, b / 2) + (if a % 2 == 1 || b % 2 == 1 then 1 else 0)
  }

  function Pow2(k: nat): (r: nat)
    ensures r > 0
  {
    if k == 0 then 1 else 2 * Pow2(k - 1)
  }

  function ShiftRight(a: nat, k: nat): nat {
    if k == 0 then a else ShiftRight(a / 2, k - 1)
  }

  function ShiftLeft(a: nat, k: nat): nat
    decreases k
  {
    if k == 0 then a else ShiftLeft(2 * a, k - 1)
  }

  /** A mask of k low ones keeps the remainder modulo 2^k. */
  lemma {:induction false} AndLowMask(a: nat, k: nat, m: nat)
    requires m == Pow2(k)
    ensures And(a, m - 1) == a % m
  {
    if k > 0 {
      var n := Pow2(k - 1);
      AndLowMask(a / 2, k - 1, n);
      AndOdd(a, n - 1);
      ModTwice(a, n);
    }
  }

  lemma AndOdd(a: nat, n: nat)
    ensures And(a, 2 * n + 1) == 2 * And(a / 2, n) + a % 2
  {
    assert (2 * n + 1) / 2 == n;
  }

  lemma ModTwice(a: nat, m: nat)
    requires m > 0
    ensures a % (2 * m) == 2 * ((a / 2) % m) + a % 2
  {
    var h := a / 2;
    var q, r := h / m, h % m;
    assert h == m * q + r;
    assert (2 * m) * q == 2 * (m * q);
    DivModUnique(a, 2 * m, q, 2 * r + a % 2);
  }

  lemma DivModUnique(a: nat, m: nat, q: nat, r: nat)
    requires m > 0 && r < m && a == m * q + r
    ensures a / m == q && a % m == r
  {
    if a / m > q {
      MulAtLeast(m, a / m, q);
    } else if a / m < q {
      MulAtLeast(m, q, a / m);
    }
  }

  lemma MulAtLeast(m: nat, x: nat, y: nat)
    requires x > y
    ensures m * x >= m * y + m
  {
    var d := x - y - 1;
    assert m * d >= 0;
    assert m * x == m * (y + 1 + d) == m * y + m + m * d;
  }

  /** A value below m = 2^k is joined to a multiple of m without carries. */
  lemma {:induction false} OrDisjoint(low: nat, high: nat, k: nat, m: nat)
    requires low < m == Pow2(k)
    ensures Or(low, high * m) == Or(high * m, low) == low + high * m
  {
    hide Or;
    OrSymmetric(low, high * m);
    if k == 0 {
      OrZero(high * m);
    } else {
      var n := Pow2(k - 1);
      assert high * m == 2 * (high * n);
      OrDisjoint(low / 2, high, k - 1, n);
      OrEven(low, high * n);
    }
  }

  lemma OrZero(h: nat)
    ensures Or(0, h) == h
  {
  }

  lemma OrEven(low: nat, h: nat)
    ensures Or(low, 2 * h) == 2 * Or(low / 2, h) + low % 2
  {
  }

  lemma {:induction false} OrSymmetric(a: nat, b: nat)
    ensures Or(a, b) == Or(b, a)
  {
    if a > 0 && b > 0 {
      OrSymmetric(a / 2, b / 2);
    }
  }

  /** `(c | 2m) & (3m - 1)` with m = 2^k: the low k bits below the mark 10. */
  lemma {:induction false} TrailMask(c: nat, k: nat, m: nat)
    requires m == Pow2(k)
    ensures And(Or(c, 2 * m), 3 * m - 1) == 2 * m + c % m
  {
    if k == 0 {
      AndTwo(c);
    } else {
      var n := Pow2(k - 1);
      TrailMask(c / 2, k - 1, n);
      TrailStep(c, 2 * n, 3 * n - 1);
      ModTwice(c, n);
    }
  }

  lemma AndTwo(c: nat)
    ensures And(Or(c, 2), 2) == 2
  {
    var y := Or(c, 2);
    assert y / 2 == Or(c / 2, 1);
    assert (c / 2) % 2 <= 1 && Or(c / 2, 1) % 2 == 1;
    AndOdd(y / 2, 0);
    assert And(y, 2) == 2 * And(y / 2, 1) + (y % 2) * 0;
  }

  lemma TrailStep(c: nat, m: nat, n: nat)
    requires m > 0
    ensures And(Or(c, 2 * m), 2 * n + 1) == 2 * And(Or(c / 2, m), n) + c % 2
  {
    hide *;
    OrEven(c, m);
    AndOdd(Or(c, 2 * m), n);
  }

  lemma SmallPowers()
    ensures Pow2(3) == 8 && Pow2(4) == 16 && Pow2(5) == 32 && Pow2(6) == 64
    ensures Pow2(7) == 128 && Pow2(8) == 256 && Pow2(10) == 1024
  {
    assert Pow2(3) == 2 * Pow2(2) && Pow2(5) == 2 * Pow2(4) && Pow2(7) == 2 * Pow2(6) && Pow2(9) == 2 * Pow2(8);
  }
}
