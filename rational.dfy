/**
 * `Rational` of biginteger.cpp: a numerator and a denominator, both
 * BigIntegers.  Every operation that builds a new fraction ends in
 * `normalize`, which makes the denominator positive and divides both
 * parts by Euclid's gcd, so a rational is kept in lowest terms and `==`
 * can compare the parts.  Like BigInteger, a Rational is a value that
 * C++ copies on assignment; the compound assignments are methods that
 * return the new value.
 */
module Rationals {
  import opened Limbs
  import opened BigIntegers
  import BigIntegerArith
  import BigIntegerMul
  import BigIntegerDiv
  import BigIntegerText
  import Divisors

  datatype Rational = Rational(numerator: BigInteger, denominator: BigInteger)

  /** `BigInteger(1)`. */
  function One(): BigInteger {
    BigInteger([1], Positive)
  }

  /** The number n/d. */
  ghost function Fraction(n: int, d: int): real
    requires d != 0
  {
    (n as real) / (d as real)
  }

  /** The number a rational stands for. */
  ghost function Value(r: Rational): real
    requires Val(r.denominator) != 0
  {
    Fraction(Val(r.numerator), Val(r.denominator))
  }

  /**
   * What `normalize` leaves: canonical parts, a positive denominator and
   * no common factor.
   */
  ghost predicate Valid(r: Rational) {
    Canonical(r.numerator) && Canonical(r.denominator) && Val(r.denominator) > 0 &&
    Divisors.Gcd(Divisors.Abs(Val(r.numerator)), Val(r.denominator)) == 1
  }

  // ------------------------------------------------------- fractions as reals

  /** Two fractions are equal exactly when their cross products are. */
  lemma SameValue(a: int, b: int, c: int, d: int)
    requires b != 0 && d != 0
    ensures a * d == c * b <==> Fraction(a, b) == Fraction(c, d)
  {
    var x, y, z, w := a as real, b as real, c as real, d as real;
    assert x / y * (y * w) == x * w;
    assert z / w * (y * w) == z * y;
    assert (a * d) as real == x * w && (c * b) as real == z * y;
  }

  /** With positive denominators, one fraction is below another exactly when its cross product is. */
  lemma LessValue(a: int, b: int, c: int, d: int)
    requires b > 0 && d > 0
    ensures a * d < c * b <==> Fraction(a, b) < Fraction(c, d)
  {
    var x, y, z, w := a as real, b as real, c as real, d as real;
    assert x / y * (y * w) == x * w;
    assert z / w * (y * w) == z * y;
    assert (a * d) as real == x * w && (c * b) as real == z * y;
  }

  lemma NegatedValue(a: int, b: int)
    requires b != 0
    ensures Fraction(-a, b) == -Fraction(a, b)
  {
    var x, y := a as real, b as real;
    assert (-a) as real == -x;
    assert (-x) / y == -(x / y);
  }

  lemma SumValue(a: int, b: int, c: int, d: int, n: int, m: int)
    requires b != 0 && d != 0 && n == a * d + b * c && m == b * d
    ensures m != 0
    ensures Fraction(a, b) + Fraction(c, d) == Fraction(n, m)
  {
    var x, y, z, w := a as real, b as real, c as real, d as real;
    assert (a * d + b * c) as real == x * w + y * z;
    assert (b * d) as real == y * w;
    assert x / y + z / w == (x * w + y * z) / (y * w);
  }

  lemma DifferenceValue(a: int, b: int, c: int, d: int, n: int, m: int)
    requires b != 0 && d != 0 && n == a * d - b * c && m == b * d
    ensures m != 0
    ensures Fraction(a, b) - Fraction(c, d) == Fraction(n, m)
  {
    var x, y, z, w := a as real, b as real, c as real, d as real;
    assert (a * d - b * c) as real == x * w - y * z;
    assert (b * d) as real == y * w;
    assert x / y - z / w == (x * w - y * z) / (y * w);
  }

  lemma ProductValue(a: int, b: int, c: int, d: int, n: int, m: int)
    requires b != 0 && d != 0 && n == a * c && m == b * d
    ensures m != 0
    ensures Fraction(a, b) * Fraction(c, d) == Fraction(n, m)
  {
    var x, y, z, w := a as real, b as real, c as real, d as real;
    assert (a * c) as real == x * z;
    assert (b * d) as real == y * w;
    assert x / y * (z / w) == (x * z) / (y * w);
  }

  lemma QuotientValue(a: int, b: int, c: int, d: int, n: int, m: int)
    requires b != 0 && c != 0 && d != 0 && n == a * d && m == b * c
    ensures m != 0
    ensures Fraction(a, b) / Fraction(c, d) == Fraction(n, m)
  {
    var x, y, z, w := a as real, b as real, c as real, d as real;
    assert (a * d) as real == x * w;
    assert (b * c) as real == y * z;
    assert x / y / (z / w) == (x * w) / (y * z);
  }

  // ------------------------------------------------------------ gcd

  /**
   * `Rational::gcd`: makes both arguments non-negative, then runs Euclid's
   * loop `a, b := b, a % b` while b > 0.  The result is the gcd of the
   * absolute values.
   */
  method Gcd(a0: BigInteger, b0: BigInteger) returns (g: BigInteger)
    requires Normalized(a0.digits) && Normalized(b0.digits)
    ensures Canonical(g) && g.sign == Positive
    ensures Val(g) == Divisors.Gcd(Divisors.Abs(Val(a0)), Divisors.Abs(Val(b0)))
  {
    ghost var target := Divisors.Gcd(Divisors.Abs(Val(a0)), Divisors.Abs(Val(b0)));
    var a, b := a0, b0;
    if a.sign == Negative {
      a := Invert(a);
    }
    if b.sign == Negative {
      b := Invert(b);
    }
    MagBounds(a0.digits);
    MagBounds(b0.digits);
    assert Mag(a.digits) == Divisors.Abs(Val(a0)) && Mag(b.digits) == Divisors.Abs(Val(b0));
    var positive := AboveZero(b);
    while positive
      invariant Normalized(a.digits) && Normalized(b.digits) && a.sign == Positive && b.sign == Positive
      invariant positive <==> Mag(b.digits) > 0
      invariant 0 <= Mag(a.digits) && 0 <= Mag(b.digits)
      invariant Divisors.Gcd(Mag(a.digits), Mag(b.digits)) == target
      decreases Mag(b.digits)
    {
      var tmp := a;
      a := b;
      MagZero(b.digits);
      var q, rem := BigIntegerDiv.Division(tmp, b);
      MagBounds(q.digits);
      MagBounds(rem.digits);
      DivMod(Mag(tmp.digits), Mag(b.digits), Mag(q.digits), Mag(rem.digits));
      b := rem;
      MagBounds(a.digits);
      positive := AboveZero(b);
    }
    MagBounds(a.digits);
    MagZero(a.digits);
    g := a;
  }

  /** `b > 0` on a non-negative b: BigInteger's `operator>` against `BigInteger(0)`. */
  method AboveZero(b: BigInteger) returns (r: bool)
    requires Normalized(b.digits) && b.sign == Positive
    ensures r <==> Mag(b.digits) > 0
  {
    MagSingle(0);
    MagZero(b.digits);
    r := BigIntegers.Greater(b, Zero());
  }

  // ------------------------------------------------------------ normalize

  /** A quotient that leaves no remainder multiplies back. */
  lemma ExactQuot(x: int, g: int)
    requires g > 0 && Divisors.Abs(x) % g == 0
    ensures BigIntegerDiv.Quot(x, g) * g == x
    ensures Divisors.Abs(BigIntegerDiv.Quot(x, g)) == Divisors.Abs(x) / g
  {
    var m := Divisors.Abs(x) / g;
    assert Divisors.Abs(x) == g * m;
  }

  /** Dividing both parts, sign-flipped or not, by the same g keeps the ratio. */
  lemma ScaledRatio(n: int, d: int, s: int, g: int, n1: int, d1: int)
    requires g > 0 && (s == 1 || s == -1) && n1 * g == s * n && d1 * g == s * d
    ensures n1 * d == n * d1
  {
    assert (n1 * d) * g == (n1 * g) * d == s * n * d;
    assert (n * d1) * g == n * (d1 * g) == s * n * d;
    if n1 * d < n * d1 {
      MulMonotone(g, n1 * d + 1, n * d1);
    } else if n1 * d > n * d1 {
      MulMonotone(g, n * d1 + 1, n1 * d);
    }
  }

  /**
   * `normalize`: a negative denominator flips the signs of both parts, and
   * both are then divided by their gcd.  The result is canonical and
   * coprime with a non-negative denominator and the same ratio; when the
   * denominator was not zero it is a valid rational of the same value.
   * `division` asserts a non-zero divisor, so both parts cannot be zero.
   */
  method Normalize(self: Rational) returns (r: Rational)
    requires Normalized(self.numerator.digits) && Normalized(self.denominator.digits)
    requires Val(self.numerator) != 0 || Val(self.denominator) != 0
    ensures Canonical(r.numerator) && Canonical(r.denominator) && Val(r.denominator) >= 0
    ensures Divisors.Gcd(Divisors.Abs(Val(r.numerator)), Val(r.denominator)) == 1
    ensures Val(r.numerator) * Val(self.denominator) == Val(self.numerator) * Val(r.denominator)
    ensures Val(self.denominator) != 0 ==> Valid(r) && Value(r) == Value(self)
  {
    var numerator, denominator := self.numerator, self.denominator;
    var s := 1;
    if denominator.sign == Negative {
      denominator := Invert(denominator);
      numerator := Invert(numerator);
      s := -1;
    }
    MagBounds(denominator.digits);
    var divider := Gcd(numerator, denominator);
    assert Val(numerator) == s * Val(self.numerator) && Val(denominator) == s * Val(self.denominator);
    Divisors.ReducedCoprime(Divisors.Abs(Val(numerator)), Val(denominator));
    MagZero(divider.digits);
    numerator := BigIntegerDiv.DivAssign(numerator, divider);
    denominator := BigIntegerDiv.DivAssign(denominator, divider);
    r := Rational(numerator, denominator);
    DividedThrough(Val(self.numerator), Val(self.denominator), s, Val(divider), Val(r.numerator), Val(r.denominator));
  }

  /** The arithmetic of `normalize`: n/d, sign-flipped by s and divided through by the gcd g. */
  lemma DividedThrough(n: int, d: int, s: int, g: int, n1: int, d1: int)
    requires (s == 1 || s == -1) && s * d >= 0 && (n != 0 || d != 0)
    requires g == Divisors.Gcd(Divisors.Abs(s * n), s * d)
    requires g != 0 && n1 == BigIntegerDiv.Quot(s * n, g) && d1 == BigIntegerDiv.Quot(s * d, g)
    ensures d1 >= 0 && Divisors.Gcd(Divisors.Abs(n1), d1) == 1 && n1 * d == n * d1
    ensures d != 0 ==> d1 > 0 && Fraction(n1, d1) == Fraction(n, d)
  {
    Divisors.ReducedCoprime(Divisors.Abs(s * n), s * d);
    ExactQuot(s * n, g);
    ExactQuot(s * d, g);
    ScaledRatio(n, d, s, g, n1, d1);
    if d != 0 {
      SameValue(n1, d1, n, d);
    }
  }

  // ------------------------------------------------------------ constructors

  /** `Rational(const BigInteger& n)`: n over 1, an integer-valued rational. */
  method FromBigInteger(n: BigInteger) returns (r: Rational)
    ensures r.numerator == n && r.denominator == One()
    ensures Val(r.denominator) == 1 && Value(r) == Val(n) as real
    ensures Canonical(n) ==> Valid(r)
  {
    r := Rational(n, One());
    MagSingle(1);
    assert Divisors.Gcd(Divisors.Abs(Val(n)), 1) == Divisors.Gcd(1, 0);
  }

  /** `Rational(int n)`: the BigInteger of the 32-bit int n, over 1. */
  method FromInt(n: int) returns (r: Rational)
    requires -0x8000_0000 <= n < 0x8000_0000
    ensures Valid(r) && Value(r) == n as real && r.denominator == One()
  {
    var b := FromInt64(n);
    r := FromBigInteger(b);
  }

  // ------------------------------------------------------------ negation

  /**
   * Unary `operator-` as written: it flips the numerator's sign with
   * `invert`, which turns the numerator of zero into a Negative zero that
   * is not `BigInteger(0)` (`NegativeZeroRational`).
   */
  method NegateAsWritten(self: Rational) returns (r: Rational)
    ensures r.denominator == self.denominator
    ensures r.numerator.digits == self.numerator.digits && r.numerator.sign != self.numerator.sign
    ensures Val(self.denominator) != 0 ==> Value(r) == -Value(self)
    ensures Valid(self) && Val(self.numerator) != 0 ==> Valid(r)
  {
    r := self.(numerator := Invert(self.numerator));
    if Val(self.denominator) != 0 {
      NegatedValue(Val(self.numerator), Val(self.denominator));
    }
    if Valid(self) && Val(self.numerator) != 0 {
      MagZero(self.numerator.digits);
      NegatedValid(self, r.numerator);
    }
  }

  /** Replacing a valid rational's numerator by a canonical negation of it keeps it valid. */
  lemma NegatedValid(self: Rational, n: BigInteger)
    requires Valid(self) && Canonical(n) && Val(n) == -Val(self.numerator)
    ensures Valid(self.(numerator := n))
  {
    assert Divisors.Abs(Val(n)) == Divisors.Abs(Val(self.numerator));
  }

  /**
   * -Rational(0) as written: it is Negative, so it compares below
   * Rational(0), is not `==` to it and prints as "-0", though both stand
   * for the number 0.
   */
  method NegativeZeroRational() returns (neg: Rational, lt: bool, eq: bool, s: seq<char>)
    ensures neg.numerator == BigInteger([0], Negative) && !Valid(neg)
    ensures Val(neg.denominator) == 1 && Value(neg) == 0.0
    ensures lt && !eq && s == "-0"
  {
    var zero := FromInt(0);
    MagSingle(0);
    CanonicalSign(zero.numerator);
    neg := NegateAsWritten(zero);
    lt := Less(neg, zero);
    eq := Equal(neg, zero);
    s := ToString(neg);
    assert BigIntegerText.Body([0]) == "0";
  }

  /**
   * Unary `operator-`, with the numerator negated by BigInteger's
   * `operator-` (which leaves zero as it is): the negation of the value,
   * still in lowest terms.
   */
  method Negate(self: Rational) returns (r: Rational)
    requires Valid(self)
    ensures Valid(r) && Value(r) == -Value(self)
  {
    var n := BigIntegers.Negate(self.numerator);
    r := self.(numerator := n);
    NegatedValid(self, n);
    NegatedValue(Val(self.numerator), Val(self.denominator));
  }

  // ------------------------------------------------------------ arithmetic

  /** `operator+=` (and `operator+` on a copy): cross-multiply, add, normalize. */
  method AddAssign(self: Rational, other: Rational) returns (r: Rational)
    requires Valid(self) && Valid(other)
    ensures Valid(r) && Value(r) == Value(self) + Value(other)
  {
    var left := BigIntegerMul.Multiply(self.numerator, other.denominator);
    var right := BigIntegerMul.Multiply(self.denominator, other.numerator);
    var numerator := BigIntegerArith.AddAssign(left, right);
    var denominator := BigIntegerMul.Multiply(self.denominator, other.denominator);
    var t := Rational(numerator, denominator);
    SumValue(Val(self.numerator), Val(self.denominator), Val(other.numerator), Val(other.denominator), Val(numerator), Val(denominator));
    assert Value(t) == Value(self) + Value(other);
    r := Normalize(t);
  }

  /** `operator-=` (and binary `operator-` on a copy): cross-multiply, subtract, normalize. */
  method SubAssign(self: Rational, other: Rational) returns (r: Rational)
    requires Valid(self) && Valid(other)
    ensures Valid(r) && Value(r) == Value(self) - Value(other)
  {
    var left := BigIntegerMul.Multiply(self.numerator, other.denominator);
    var right := BigIntegerMul.Multiply(self.denominator, other.numerator);
    var numerator := BigIntegerArith.SubAssign(left, right);
    var denominator := BigIntegerMul.Multiply(self.denominator, other.denominator);
    var t := Rational(numerator, denominator);
    DifferenceValue(Val(self.numerator), Val(self.denominator), Val(other.numerator), Val(other.denominator), Val(numerator), Val(denominator));
    assert Value(t) == Value(self) - Value(other);
    r := Normalize(t);
  }

  /** `operator*=` (and `operator*` on a copy): multiply the parts, normalize. */
  method MulAssign(self: Rational, other: Rational) returns (r: Rational)
    requires Valid(self) && Valid(other)
    ensures Valid(r) && Value(r) == Value(self) * Value(other)
  {
    var numerator := BigIntegerMul.Multiply(self.numerator, other.numerator);
    var denominator := BigIntegerMul.Multiply(self.denominator, other.denominator);
    var t := Rational(numerator, denominator);
    ProductValue(Val(self.numerator), Val(self.denominator), Val(other.numerator), Val(other.denominator), Val(numerator), Val(denominator));
    assert Value(t) == Value(self) * Value(other);
    r := Normalize(t);
  }

  /**
   * `operator/=` (and `operator/` on a copy): multiply by the flipped
   * divisor, normalize.  The divisor must not be zero.  Both parts of the
   * divisor are read as they were on entry, also when it is the same
   * object; `DivSelfAsWritten` is what the source does in that case.
   */
  method DivAssign(self: Rational, other: Rational) returns (r: Rational)
    requires Valid(self) && Valid(other) && Val(other.numerator) != 0
    ensures Valid(r) && Value(r) == Value(self) / Value(other)
  {
    var numerator := BigIntegerMul.Multiply(self.numerator, other.denominator);
    var denominator := BigIntegerMul.Multiply(self.denominator, other.numerator);
    var t := Rational(numerator, denominator);
    QuotientValue(Val(self.numerator), Val(self.denominator), Val(other.numerator), Val(other.denominator), Val(numerator), Val(denominator));
    assert Value(t) == Value(self) / Value(other);
    r := Normalize(t);
  }

  /**
   * `x /= x` as written, with `other` the same object as `*this`: the
   * second line reads `other.numerator_` after the first has replaced it
   * by p·q, so the denominator becomes q·(p·q) and the result is 1/q
   * rather than 1.  A zero numerator would give `0 /= 0`, which fails
   * the divisor assert, so p must be nonzero here too.
   */
  method DivSelfAsWritten(self: Rational) returns (r: Rational)
    requires Valid(self) && Val(self.numerator) != 0
    ensures Valid(r) && Value(r) == Fraction(1, Val(self.denominator))
  {
    var numerator := BigIntegerMul.Multiply(self.numerator, self.denominator);
    var denominator := BigIntegerMul.Multiply(self.denominator, numerator);
    var p, q := Val(self.numerator), Val(self.denominator);
    assert Val(denominator) == q * (p * q) != 0;
    assert (p * q) * q == 1 * (q * (p * q));
    SameValue(p * q, q * (p * q), 1, q);
    r := Normalize(Rational(numerator, denominator));
  }

  /**
   * `Rational x = Rational(1); x /= Rational(2); x /= x;` leaves 1/2 as
   * written, where dividing a nonzero value by itself gives 1.
   */
  method SelfDivisionKeepsHalf() returns (x: Rational, r: Rational)
    ensures Valid(x) && Value(x) == 0.5
    ensures Valid(r) && Value(r) == 0.5 && Value(x) / Value(x) == 1.0
  {
    var one := FromInt(1);
    var two := FromInt(2);
    MagSingle(2);
    x := DivAssign(one, two);
    var half := Rational(One(), BigInteger([2], Positive));
    MagSingle(1);
    assert Divisors.Gcd(1, 2) == 1;
    assert Value(half) == 0.5;
    EqualIsValue(x, half);
    MagSingle(0);
    r := DivSelfAsWritten(x);
  }

  // ------------------------------------------------------------ comparison

  /** The sign of a fraction with a positive denominator is the numerator's. */
  lemma ValueSign(r: Rational)
    requires Valid(r)
    ensures r.numerator.sign == Negative <==> Value(r) < 0.0
  {
    CanonicalSign(r.numerator);
    LessValue(Val(r.numerator), Val(r.denominator), 0, 1);
  }

  /**
   * `operator<`: differing signs put the Negative one first; otherwise the
   * cross products are compared.
   */
  method Less(a: Rational, b: Rational) returns (r: bool)
    requires Normalized(a.numerator.digits) && Normalized(a.denominator.digits)
    requires Normalized(b.numerator.digits) && Normalized(b.denominator.digits)
    ensures Valid(a) && Valid(b) ==> (r <==> Value(a) < Value(b))
    ensures a.numerator.sign != b.numerator.sign ==> (r <==> a.numerator.sign == Negative)
  {
    if a.numerator.sign != b.numerator.sign {
      if Valid(a) && Valid(b) {
        ValueSign(a);
        ValueSign(b);
      }
      return a.numerator.sign == Negative;
    }
    var x := BigIntegerMul.Multiply(a.numerator, b.denominator);
    var y := BigIntegerMul.Multiply(b.numerator, a.denominator);
    r := BigIntegers.Less(x, y);
    if Valid(a) && Valid(b) {
      LessValue(Val(a.numerator), Val(a.denominator), Val(b.numerator), Val(b.denominator));
    }
  }

  /** `operator>`: `b < a`. */
  method Greater(a: Rational, b: Rational) returns (r: bool)
    requires Normalized(a.numerator.digits) && Normalized(a.denominator.digits)
    requires Normalized(b.numerator.digits) && Normalized(b.denominator.digits)
    ensures Valid(a) && Valid(b) ==> (r <==> Value(a) > Value(b))
  {
    r := Less(b, a);
  }

  /** `operator<=`: `!(a > b)`. */
  method LessEq(a: Rational, b: Rational) returns (r: bool)
    requires Normalized(a.numerator.digits) && Normalized(a.denominator.digits)
    requires Normalized(b.numerator.digits) && Normalized(b.denominator.digits)
    ensures Valid(a) && Valid(b) ==> (r <==> Value(a) <= Value(b))
  {
    var gt := Greater(a, b);
    r := !gt;
  }

  /** `operator>=`: `!(a < b)`. */
  method GreaterEq(a: Rational, b: Rational) returns (r: bool)
    requires Normalized(a.numerator.digits) && Normalized(a.denominator.digits)
    requires Normalized(b.numerator.digits) && Normalized(b.denominator.digits)
    ensures Valid(a) && Valid(b) ==> (r <==> Value(a) >= Value(b))
  {
    var lt := Less(a, b);
    r := !lt;
  }

  /**
   * `operator==`: same sign, then equal numerators and equal denominators.
   * On rationals in lowest terms this is equality of the numbers.
   */
  method Equal(a: Rational, b: Rational) returns (r: bool)
    ensures r <==> a == b
    ensures Valid(a) && Valid(b) ==> (r <==> Value(a) == Value(b))
  {
    if a.numerator.sign != b.numerator.sign {
      r := false;
    } else {
      var n := BigIntegers.Equal(a.numerator, b.numerator);
      var d := BigIntegers.Equal(a.denominator, b.denominator);
      r := n && d;
    }
    if Valid(a) && Valid(b) {
      EqualIsValue(a, b);
    }
  }

  /** Rationals in lowest terms are equal exactly when their values are. */
  lemma EqualIsValue(a: Rational, b: Rational)
    requires Valid(a) && Valid(b)
    ensures a == b <==> Value(a) == Value(b)
  {
    if Value(a) == Value(b) {
      SameValue(Val(a.numerator), Val(a.denominator), Val(b.numerator), Val(b.denominator));
      Divisors.ReducedUnique(Val(a.numerator), Val(a.denominator), Val(b.numerator), Val(b.denominator));
      EqualIsValueEquality(a.numerator, b.numerator);
      EqualIsValueEquality(a.denominator, b.denominator);
    }
  }

  /** `operator!=`: `!(a == b)`. */
  method NotEqual(a: Rational, b: Rational) returns (r: bool)
    ensures r <==> a != b
    ensures Valid(a) && Valid(b) ==> (r <==> Value(a) != Value(b))
  {
    var eq := Equal(a, b);
    r := !eq;
  }

  // ------------------------------------------------------------ text

  /** What `toString` prints: "0" for a zero numerator, "n" over 1, "n/d" otherwise. */
  function Rendering(r: Rational): seq<char>
    requires InRange(r.numerator.digits) && |r.numerator.digits| >= 1
    requires InRange(r.denominator.digits) && |r.denominator.digits| >= 1
  {
    if r.numerator == Zero() then "0"
    else if r.denominator == One() then BigIntegerText.Text(r.numerator)
    else BigIntegerText.Text(r.numerator) + "/" + BigIntegerText.Text(r.denominator)
  }

  /** `toString`. */
  method ToString(r: Rational) returns (s: seq<char>)
    requires InRange(r.numerator.digits) && |r.numerator.digits| >= 1
    requires InRange(r.denominator.digits) && |r.denominator.digits| >= 1
    ensures s == Rendering(r)
  {
    var isZero := BigIntegers.Equal(r.numerator, Zero());
    if isZero {
      return "0";
    }
    s := BigIntegerText.ToString(r.numerator);
    var isOne := BigIntegers.Equal(r.denominator, One());
    if !isOne {
      var d := BigIntegerText.ToString(r.denominator);
      s := s + "/" + d;
    }
  }

  /** A decimal has no '/', so the one `toString` puts between the parts is where they split. */
  lemma NoSlash(t: seq<char>)
    requires BigIntegerText.IsDecimal(t)
    ensures forall k | 0 <= k < |t| :: t[k] != '/'
  {
  }

  /** Printed zero is "0", and only zero is printed so. */
  lemma RenderingZero(r: Rational)
    requires Valid(r)
    ensures Rendering(r) == "0" <==> Value(r) == 0.0
  {
    CanonicalSign(r.numerator);
    SameValue(Val(r.numerator), Val(r.denominator), 0, 1);
    if r.numerator != Zero() && r.denominator == One() {
      BigIntegerText.TextRoundTrip(r.numerator);
    }
  }

  /**
   * `toString` round trip: the text up to the first '/' (or all of it)
   * parses back to the numerator, and the text after it to the
   * denominator, which is printed only when it is not 1.
   */
  lemma RenderingParses(r: Rational)
    requires Valid(r) && r.numerator != Zero()
    ensures var t, s := BigIntegerText.Text(r.numerator), Rendering(r);
      |t| <= |s| && s[..|t|] == t && BigIntegerText.IsDecimal(t) && BigIntegerText.FromText(t) == r.numerator &&
      (forall k | 0 <= k < |t| :: s[k] != '/') &&
      (r.denominator == One() <==> |s| == |t|) &&
      (|s| > |t| ==> s[|t|] == '/' && BigIntegerText.IsDecimal(s[|t| + 1..]) && BigIntegerText.FromText(s[|t| + 1..]) == r.denominator)
  {
    var t, s := BigIntegerText.Text(r.numerator), Rendering(r);
    BigIntegerText.TextRoundTrip(r.numerator);
    NoSlash(t);
    if r.denominator != One() {
      BigIntegerText.TextRoundTrip(r.denominator);
      assert s[|t| + 1..] == BigIntegerText.Text(r.denominator);
    }
  }
}
