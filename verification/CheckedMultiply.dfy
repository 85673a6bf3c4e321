/** Multiplication of fixed-width integers that reports overflow instead of wrapping around. */
module CheckedMultiply {
  import Bits

  datatype IntType = Signed(bits: nat) | Unsigned(bits: nat) {
    function Max(): int
      requires bits > 1
    {
      if Signed? then Bits.Pow2(bits - 1) - 1 else Bits.Pow2(bits) - 1
    }

    function Min(): int
      requires bits > 1
    {
      var half: int := Bits.Pow2(bits - 1);
      if Signed? then -half else 0
    }

    predicate Holds(x: int)
      requires bits > 1
    {
      Min() <= x <= Max()
    }
  }

  function Abs(x: int): (r: int)
    ensures r >= 0
  {
    if x < 0 then -x else x
  }

  /** Division that drops the fraction, as the machine does it. */
  function Quotient(a: int, b: int): int
    requires b != 0
  {
    var q := Abs(a) / Abs(b);
    if (a < 0) == (b < 0) then q else -q
  }

  lemma QuotientBound(m: nat, x: nat, y: nat)
    requires x > 0
    ensures m / x < y <==> m < x * y
  {
    var q, r := m / x, m % x;
    assert m == x * q + r;
    assert x * (q + 1) == x * q + x;
    if q < y {
      Monotone(x, q + 1, y);
    } else {
      Monotone(x, y, q);
    }
  }

  lemma Monotone(x: nat, p: nat, q: nat)
    requires p <= q
    ensures x * p <= x * q
  {
    var d := q - p;
    assert x * d >= 0;
    assert x * q == x * (p + d) == x * p + x * d;
  }

  lemma AbsProduct(a: int, b: int)
    ensures a * b == if (a < 0) == (b < 0) then Abs(a) * Abs(b) else -(Abs(a) * Abs(b))
  {
  }

  /** Both operands on the same side of zero: the quotient test against the maximum is exact. */
  lemma SameSign(t: IntType, a: int, b: int)
    requires t.bits > 1 && a != 0 && b != 0 && (a < 0) == (b < 0)
    ensures Quotient(t.Max(), Abs(a)) < Abs(b) <==> !t.Holds(a * b)
  {
    AbsProduct(a, b);
    Scaled(Abs(a), Abs(b));
    QuotientBound(t.Max(), Abs(a), Abs(b));
  }

  /** Operands on different sides: the same against the minimum. */
  lemma OtherSign(t: IntType, a: int, b: int)
    requires t.bits > 1 && t.Signed? && a != 0 && b != 0 && (a < 0) != (b < 0)
    ensures Quotient(t.Min(), Abs(a)) > -Abs(b) <==> !t.Holds(a * b)
  {
    AbsProduct(a, b);
    Scaled(Abs(a), Abs(b));
    QuotientBound(-t.Min(), Abs(a), Abs(b));
  }

  /** The test by division: whether the product of two values leaves the type. */
  method OverflowCheck(t: IntType, a: int, b: int) returns (overflows: bool)
    requires t.bits > 1 && t.Holds(a) && t.Holds(b) && a != 0 && b != 0
    requires t.Signed? ==> a != t.Min() && b != t.Min()
    ensures overflows <==> !t.Holds(a * b)
  {
    if t.Unsigned? {
      SameSign(t, a, b);
      return Quotient(t.Max(), a) < b;
    }
    if (a > 0) == (b > 0) {
      SameSign(t, a, b);
      return Quotient(t.Max(), Abs(a)) < Abs(b);
    }
    OtherSign(t, a, b);
    return Quotient(t.Min(), Abs(a)) > -Abs(b);
  }

  /** True, with the product, exactly when the type holds the product; otherwise a stays as it was. */
  method Multiply(t: IntType, a: int, b: int) returns (ok: bool, r: int)
    requires t.bits > 1 && t.Holds(a) && t.Holds(b)
    ensures ok <==> t.Holds(a * b)
    ensures r == if ok then a * b else a
  {
    if a == 0 || b == 0 || a == 1 || b == 1 {
      TrivialProduct(t, a, b);
      return true, a * b;
    }
    if a == t.Min() || b == t.Min() {
      MinimumOverflows(t, a, b);
      return false, a;
    }
    var overflows := OverflowCheck(t, a, b);
    if overflows {
      return false, a;
    }
    return true, a * b;
  }

  lemma TrivialProduct(t: IntType, a: int, b: int)
    requires t.bits > 1 && t.Holds(a) && t.Holds(b) && (a == 0 || b == 0 || a == 1 || b == 1)
    ensures t.Holds(a * b)
  {
    assert a == 1 ==> a * b == b;
    assert b == 1 ==> a * b == a;
    assert a == 0 || b == 0 ==> a * b == 0;
  }

  /** The minimum times anything but 0 and 1 leaves the type. */
  lemma MinimumOverflows(t: IntType, a: int, b: int)
    requires t.bits > 1 && t.Holds(a) && t.Holds(b) && a != 0 && b != 0 && a != 1 && b != 1
    requires a == t.Min() || b == t.Min()
    ensures !t.Holds(a * b)
  {
    var m, x := -t.Min(), if a == t.Min() then b else a;
    assert a * b == -(m * x);
    if x < 0 {
      Scaled(m, -x);
      assert m * -x == -(m * x);
    } else {
      Doubled(m, x);
    }
  }

  lemma Doubled(m: nat, x: nat)
    requires x >= 2
    ensures m * x >= 2 * m
  {
    var y := x - 2;
    assert m * y >= 0;
    assert m * x == m * (2 + y) == m * 2 + m * y;
  }

  lemma Scaled(m: nat, x: nat)
    requires x >= 1
    ensures m * x >= m
  {
    assert m * x == m + m * (x - 1) && m * (x - 1) >= 0;
  }
}
