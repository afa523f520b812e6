/**
 * The number theory `Rational::gcd` and `Rational::normalize` rely on
 * (biginteger.cpp:375-388, 412-420): Euclid's gcd on naturals, that it is
 * the greatest common divisor, and that a fraction divided through by it is
 * the unique reduced form of its value.
 */
module Divisors {
  import opened Limbs

  ghost predicate Divides(d: int, n: int) {
    exists k :: n == d * k
  }

  function Abs(x: int): nat {
    if x < 0 then -x else x
  }

  /** Euclid's algorithm on naturals: the reference `Rational::gcd` is checked against. */
  function Gcd(a: nat, b: nat): nat
    decreases b
  {
    if b == 0 then a else Gcd(b, a % b)
  }

  /** Gcd(a, b) divides both a and b. */
  lemma {:induction false} GcdDivides(a: nat, b: nat)
    ensures Divides(Gcd(a, b), a) && Divides(Gcd(a, b), b)
    decreases b
  {
    var g := Gcd(a, b);
    if b == 0 {
      assert a == g * 1 && b == g * 0;
    } else {
      GcdDivides(b, a % b);
      var k1 :| b == g * k1;
      var k2 :| a % b == g * k2;
      assert a == b * (a / b) + a % b;
      assert a == g * (k1 * (a / b) + k2);
    }
  }

  /** Every common divisor of a and b divides Gcd(a, b). */
  lemma {:induction false} GcdGreatest(a: nat, b: nat, d: int)
    requires Divides(d, a) && Divides(d, b)
    ensures Divides(d, Gcd(a, b))
    decreases b
  {
    if b != 0 {
      var ka :| a == d * ka;
      var kb :| b == d * kb;
      assert a % b == a - b * (a / b);
      assert a % b == d * (ka - kb * (a / b));
      GcdGreatest(b, a % b, d);
    }
  }

  /** The gcd is zero only when both arguments are. */
  lemma {:induction false} GcdPositive(a: nat, b: nat)
    requires a != 0 || b != 0
    ensures Gcd(a, b) > 0
    decreases b
  {
    if b != 0 {
      GcdPositive(b, a % b);
    }
  }

  /** Scaling both arguments by k > 0 scales the remainder by k. */
  lemma ModScale(k: nat, a: nat, b: nat)
    requires k > 0 && b > 0
    ensures k * b > 0 && (k * a) % (k * b) == k * (a % b)
  {
    var q, r := a / b, a % b;
    assert a == b * q + r;
    assert k * a == q * (k * b) + k * r;
    MulMonotone(k, r, b - 1);
    DivMod(k * a, k * b, q, k * r);
  }

  /** Scaling both arguments by k > 0 scales their gcd by k. */
  lemma {:induction false} GcdScale(k: nat, a: nat, b: nat)
    requires k > 0
    ensures Gcd(k * a, k * b) == k * Gcd(a, b)
    decreases b
  {
    if b != 0 {
      ModScale(k, a, b);
      GcdScale(k, b, a % b);
    }
  }

  /** (g * k) / g == k. */
  lemma ExactQuotient(g: int, k: int)
    requires g > 0
    ensures (g * k) / g == k && (g * k) % g == 0
  {
    DivMod(g * k, g, k, 0);
  }

  /**
   * Dividing a and b by their gcd leaves coprime numbers that have the
   * same ratio.
   */
  lemma ReducedCoprime(a: nat, b: nat)
    requires a != 0 || b != 0
    ensures Gcd(a, b) > 0 && a % Gcd(a, b) == 0 && b % Gcd(a, b) == 0
    ensures Gcd(a / Gcd(a, b), b / Gcd(a, b)) == 1
  {
    var g := Gcd(a, b);
    GcdPositive(a, b);
    GcdDivides(a, b);
    var ka :| a == g * ka;
    var kb :| b == g * kb;
    ExactQuotient(g, ka);
    ExactQuotient(g, kb);
    if ka < 0 {
      MulMonotone(g, ka, -1);
    }
    if kb < 0 {
      MulMonotone(g, kb, -1);
    }
    GcdScale(g, ka, kb);
    assert g * 1 == g * Gcd(ka, kb);
  }

  /** Positive numbers that divide each other are equal. */
  lemma MutualDivisors(b: int, d: int)
    requires b > 0 && d > 0 && Divides(b, d) && Divides(d, b)
    ensures b == d
  {
    var k :| d == b * k;
    var m :| b == d * m;
    assert b * 1 == b * (k * m);
    assert k * m == 1;
    if k <= 0 {
      MulMonotone(b, k, 0);
    }
    if m <= 0 {
      MulMonotone(d, m, 0);
    }
    if k > 1 {
      MulMonotone(m, 1, k);
    }
    if m > 1 {
      MulMonotone(k, 1, m);
    }
  }

  /** When a/b is in lowest terms and a/b == c/d, b divides d. */
  lemma DenominatorDivides(a: nat, b: nat, c: nat, d: nat)
    requires b > 0 && d > 0 && Gcd(a, b) == 1 && a * d == c * b
    ensures Divides(b, d)
  {
    assert a * d == b * c;
    assert d * b == b * d;
    GcdGreatest(d * a, d * b, b);
    GcdScale(d, a, b);
  }

  /** Equal cross products with positive denominators have equal absolute cross products. */
  lemma AbsCross(a: int, b: int, c: int, d: int)
    requires b > 0 && d > 0 && a * d == c * b
    ensures Abs(a) * d == Abs(c) * b
  {
    if a < 0 {
      assert Abs(a) * d == -(a * d);
      MulMonotone(d, a, -1);
      assert c * b < 0;
      if c >= 0 {
        MulMonotone(b, 0, c);
      }
      assert Abs(c) * b == -(c * b);
    } else {
      if c < 0 {
        MulMonotone(b, c, -1);
        MulMonotone(d, 0, a);
      }
    }
  }

  /**
   * A fraction in lowest terms with a positive denominator is the only one
   * of its value: equal cross products force equal numerators and
   * denominators.
   */
  lemma ReducedUnique(a: int, b: int, c: int, d: int)
    requires b > 0 && d > 0 && Gcd(Abs(a), b) == 1 && Gcd(Abs(c), d) == 1
    requires a * d == c * b
    ensures a == c && b == d
  {
    AbsCross(a, b, c, d);
    DenominatorDivides(Abs(a), b, Abs(c), d);
    DenominatorDivides(Abs(c), d, Abs(a), b);
    MutualDivisors(b, d);
  }
}
