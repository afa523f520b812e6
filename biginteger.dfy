/**
 * `BigInteger` of biginteger.cpp: a sign and a little-endian vector of
 * base-10^9 limbs.  The class is a value type (copied on assignment), so it
 * is a datatype here and every operation returns the new value.
 *
 * Every `BigInteger` keeps its limbs in [0, BASE) (`InRange`); the arithmetic
 * operations also keep them normalized, and give zero the sign Positive
 * (`Canonical`).
 */
module BigIntegers {
  import opened Limbs

  datatype Sign = Positive | Negative

  datatype BigInteger = BigInteger(digits: seq<int>, sign: Sign)

  const INT64_MIN: int := -0x8000_0000_0000_0000
  const INT64_MAX: int := 0x7fff_ffff_ffff_ffff

  /** The integer zero, as `BigInteger(0)` builds it. */
  function Zero(): BigInteger {
    BigInteger([0], Positive)
  }

  function SignFactor(s: Sign): int {
    if s == Negative then -1 else 1
  }

  /** The integer a BigInteger stands for. */
  ghost function Val(b: BigInteger): int {
    SignFactor(b.sign) * Mag(b.digits)
  }

  /** The representation the arithmetic produces: normalized limbs, and zero is Positive. */
  ghost predicate Canonical(b: BigInteger) {
    Normalized(b.digits) && (b.digits == [0] ==> b.sign == Positive)
  }

  /** A canonical BigInteger is Negative exactly when its value is negative. */
  lemma CanonicalSign(b: BigInteger)
    requires Canonical(b)
    ensures b.sign == Negative <==> Val(b) < 0
    ensures b == Zero() <==> Val(b) == 0
  {
    MagZero(b.digits);
    MagBounds(b.digits);
  }

  /** `signum`: Negative exactly for negative arguments. */
  function Signum(x: int): (s: Sign)
    ensures s == Negative <==> x < 0
  {
    if x < 0 then Negative else Positive
  }

  /** `invert`: flips the sign and keeps the limbs. */
  function Invert(b: BigInteger): (r: BigInteger)
    ensures r.digits == b.digits && r.sign != b.sign
    ensures Val(r) == -Val(b)
  {
    b.(sign := if b.sign == Positive then Negative else Positive)
  }

  /**
   * `BigInteger(int64_t n)`: the limbs of |n| from the least significant one
   * up (`[0]` for zero), Negative exactly when n < 0.  `std::abs(INT64_MIN)`
   * overflows, so INT64_MIN is outside the constructor's domain.
   */
  method FromInt64(n: int) returns (b: BigInteger)
    requires INT64_MIN < n <= INT64_MAX
    ensures Canonical(b) && Val(b) == n
    ensures b.sign == Negative <==> n < 0
  {
    var sign := Signum(n);
    var m := if n < 0 then -n else n;
    var digits := if m == 0 then [0] else [];
    while m > 0
      invariant m >= 0 && InRange(digits)
      invariant Mag(digits) + Pow(|digits|) * m == if n < 0 then -n else n
      invariant m == 0 ==> Normalized(digits)
    {
      PushLimb(digits, m);
      digits := digits + [m % BASE];
      m := m / BASE;
    }
    MagSingle(0);
    b := BigInteger(digits, sign);
  }

  /** Moving the low limb of m into the vector keeps Mag(digits) + BASE^|digits| * m. */
  lemma PushLimb(digits: seq<int>, m: int)
    requires m >= 0
    ensures Mag(digits + [m % BASE]) + Pow(|digits| + 1) * (m / BASE) == Mag(digits) + Pow(|digits|) * m
  {
    MagSnoc(digits, m % BASE);
    var p, q, d := Pow(|digits|), m / BASE, m % BASE;
    assert m == BASE * q + d;
    assert Pow(|digits| + 1) == BASE * p;
    LimbSplit(p, q, d);
  }

  lemma LimbSplit(p: int, q: int, d: int)
    ensures d * p + (BASE * p) * q == p * (BASE * q + d)
  {
  }

  /**
   * `comparePositive(a, b, strictly)`: longer vectors are larger; vectors
   * of one length compare at their most significant differing limb; equal
   * vectors give `!strictly`.  On normalized vectors that is |a| < |b|, or
   * |a| <= |b| when not strict.
   */
  method ComparePositive(a: seq<int>, b: seq<int>, strictly: bool) returns (r: bool)
    ensures Normalized(a) && Normalized(b) ==> (r <==> if strictly then Mag(a) < Mag(b) else Mag(a) <= Mag(b))
  {
    if |a| != |b| {
      if Normalized(a) && Normalized(b) {
        if |a| < |b| { LengthOrder(a, b); } else { LengthOrder(b, a); }
      }
      return |a| < |b|;
    }
    var i := |a|;
    while i > 0
      invariant 0 <= i <= |a|
      invariant forall j | i <= j < |a| :: a[j] == b[j]
    {
      if a[i - 1] != b[i - 1] {
        if Normalized(a) && Normalized(b) {
          if a[i - 1] < b[i - 1] { LexOrder(a, b, i - 1); } else { LexOrder(b, a, i - 1); }
        }
        return a[i - 1] < b[i - 1];
      }
      i := i - 1;
    }
    assert a == b;
    return !strictly;
  }

  /** `operator<`: negatives first; positives by magnitude; negatives by reversed magnitude. */
  method Less(a: BigInteger, b: BigInteger) returns (r: bool)
    ensures Canonical(a) && Canonical(b) ==> (r <==> Val(a) < Val(b))
  {
    if a.sign != b.sign {
      if Canonical(a) && Canonical(b) {
        CanonicalSign(a);
        CanonicalSign(b);
      }
      return a.sign == Negative;
    }
    if a.sign == Negative {
      var le := ComparePositive(a.digits, b.digits, false);
      r := !le;
    } else {
      r := ComparePositive(a.digits, b.digits, true);
    }
  }

  /** `operator>`: `b < a`. */
  method Greater(a: BigInteger, b: BigInteger) returns (r: bool)
    ensures Canonical(a) && Canonical(b) ==> (r <==> Val(a) > Val(b))
  {
    r := Less(b, a);
  }

  /** `operator<=`: `!(a > b)`. */
  method LessEq(a: BigInteger, b: BigInteger) returns (r: bool)
    ensures Canonical(a) && Canonical(b) ==> (r <==> Val(a) <= Val(b))
  {
    var gt := Greater(a, b);
    r := !gt;
  }

  /** `operator>=`: `!(a < b)`. */
  method GreaterEq(a: BigInteger, b: BigInteger) returns (r: bool)
    ensures Canonical(a) && Canonical(b) ==> (r <==> Val(a) >= Val(b))
  {
    var lt := Less(a, b);
    r := !lt;
  }

  /** `operator==`: same sign, same number of limbs, same limbs from the top down. */
  method Equal(a: BigInteger, b: BigInteger) returns (r: bool)
    ensures r <==> a == b
  {
    if a.sign != b.sign {
      return false;
    }
    if |a.digits| != |b.digits| {
      return false;
    }
    var i := |a.digits|;
    while i > 0
      invariant 0 <= i <= |a.digits|
      invariant forall j | i <= j < |a.digits| :: a.digits[j] == b.digits[j]
    {
      if a.digits[i - 1] != b.digits[i - 1] {
        return false;
      }
      i := i - 1;
    }
    assert a.digits == b.digits;
    return true;
  }

  /** On canonical values, `==` is equality of the integers they stand for. */
  lemma EqualIsValueEquality(a: BigInteger, b: BigInteger)
    requires Canonical(a) && Canonical(b)
    ensures a == b <==> Val(a) == Val(b)
  {
    if Val(a) == Val(b) {
      CanonicalSign(a);
      CanonicalSign(b);
      if Val(a) == 0 {
        assert a == Zero() && b == Zero();
      } else {
        assert a.sign == b.sign;
        assert Mag(a.digits) == Mag(b.digits);
        MagInjective(a.digits, b.digits);
      }
    }
  }

  /** `operator-()`: zero is returned as it is; anything else with the sign flipped. */
  method Negate(b: BigInteger) returns (r: BigInteger)
    ensures Val(r) == -Val(b)
    ensures Canonical(b) ==> Canonical(r)
  {
    var isZero := Equal(b, Zero());
    if isZero {
      MagSingle(0);
      return b;
    }
    r := Invert(b);
  }

  /**
   * `clearZeros`: drops zero limbs from the top while more than one limb is
   * left.  The value is unchanged and the result is normalized.
   */
  method ClearZeros(v: seq<int>) returns (r: seq<int>)
    ensures |r| <= |v| && r == v[..|r|] && (|v| >= 1 ==> |r| >= 1)
    ensures forall j | |r| <= j < |v| :: v[j] == 0
    ensures |r| <= 1 || r[|r| - 1] != 0
    ensures Mag(r) == Mag(v)
    ensures InRange(v) && |v| >= 1 ==> Normalized(r)
  {
    r := v;
    assert v[..|v|] == v;
    while |r| > 1 && r[|r| - 1] == 0
      invariant |r| <= |v| && r == v[..|r|] && (|v| >= 1 ==> |r| >= 1)
      invariant forall j | |r| <= j < |v| :: v[j] == 0
      invariant Mag(r) == Mag(v)
    {
      MagPrefixStep(r, |r| - 1);
      assert r[..|r|] == r;
      r := r[..|r| - 1];
    }
  }

  /** `clearZeros()` on a BigInteger's own limbs. */
  method ClearZerosOf(b: BigInteger) returns (r: BigInteger)
    ensures r.sign == b.sign && Mag(r.digits) == Mag(b.digits) && Val(r) == Val(b)
    ensures InRange(b.digits) && |b.digits| >= 1 ==> Normalized(r.digits)
  {
    var d := ClearZeros(b.digits);
    r := b.(digits := d);
  }

  /**
   * `multiplyBase`: appends a limb and moves every limb one place up, except
   * limb 0, which keeps its old value (`[0]` from no limbs).  Its one caller
   * overwrites limb 0 next, which makes the pair `cur * BASE + limb`
   * (`ShiftedValue`).
   */
  method MultiplyBase(b: BigInteger) returns (r: BigInteger)
    ensures r.sign == b.sign && |r.digits| == |b.digits| + 1 && r.digits[1..] == b.digits
    ensures r.digits[0] == if |b.digits| == 0 then 0 else b.digits[0]
    ensures Mag(r.digits) == r.digits[0] + BASE * Mag(b.digits)
  {
    var d := b.digits + [0];
    var i := |d|;
    while i > 1
      invariant 1 <= i <= |d| && |d| == |b.digits| + 1
      invariant forall k | 0 <= k < i :: d[k] == (b.digits + [0])[k]
      invariant forall k | i <= k < |d| :: d[k] == b.digits[k - 1]
    {
      d := d[i - 1 := d[i - 2]];
      i := i - 1;
    }
    r := b.(digits := d);
    assert r.digits[1..] == b.digits;
  }
}
