/**
 * Long division of biginteger.cpp (`division`, `/=`, `%=`): the dividend's
 * limbs are brought down one at a time from the top into a running
 * remainder, and each quotient limb is found by binary search over
 * [0, BASE] as the largest x with divisor * x <= remainder.
 */
module BigIntegerDiv {
  import opened Limbs
  import opened BigIntegers
  import opened BigIntegerArith
  import opened BigIntegerMul

  /** `b * mid <= cur`, with `mid` converted by `BigInteger(int64_t)`. */
  method FitsBelow(b: BigInteger, cur: BigInteger, mid: int) returns (le: bool)
    requires Canonical(b) && b.sign == Positive && Canonical(cur) && cur.sign == Positive
    requires 0 <= mid <= BASE
    ensures le <==> Mag(b.digits) * mid <= Mag(cur.digits)
  {
    var m := FromInt64(mid);
    var product := Multiply(b, m);
    le := LessEq(product, cur);
  }

  /**
   * The binary search of `division`: the largest x in [0, BASE] with
   * b * x <= cur.
   */
  method QuotientDigit(b: BigInteger, cur: BigInteger) returns (x: int)
    requires Canonical(b) && b.sign == Positive && Canonical(cur) && cur.sign == Positive
    ensures 0 <= x <= BASE && Mag(b.digits) * x <= Mag(cur.digits)
    ensures x == BASE || Mag(cur.digits) < Mag(b.digits) * (x + 1)
  {
    ghost var mb, v := Mag(b.digits), Mag(cur.digits);
    MagBounds(cur.digits);
    x := 0;
    var left, right := 0, BASE;
    while left <= right
      invariant 0 <= left <= right + 1 <= BASE + 1
      invariant 0 <= x <= BASE && ((left == 0 && x == 0) || left == x + 1)
      invariant mb * x <= v
      invariant right < BASE ==> v < mb * (right + 1)
      decreases right - left + 1
    {
      var mid := (left + right) / 2;
      var le := FitsBelow(b, cur, mid);
      if le {
        x := mid;
        left := mid + 1;
      } else {
        right := mid - 1;
      }
    }
  }

  /** The value of a suffix: limb i - 1 below BASE times the suffix from i. */
  lemma SuffixStep(s: seq<int>, i: nat)
    requires 1 <= i <= |s|
    ensures Mag(s[i - 1..]) == s[i - 1] + BASE * Mag(s[i..])
  {
    assert s[i - 1..][1..] == s[i..];
  }

  /**
   * Bringing down a limb: with the running remainder c below the divisor,
   * d + BASE * c is below BASE * divisor, so the digit found is below BASE
   * and leaves a remainder below the divisor.
   */
  lemma DigitBound(d: int, c: int, mb: int, x: int)
    requires 0 <= d < BASE && 0 <= c < mb
    requires mb * x <= d + BASE * c && (x == BASE || d + BASE * c < mb * (x + 1))
    ensures x < BASE && 0 <= d + BASE * c - mb * x < mb
  {
    MulMonotone(BASE, c, mb - 1);
    assert mb * BASE == BASE * (mb - 1) + BASE;
    assert mb * (x + 1) == mb * x + mb;
  }

  /** The long-division invariant after limb i - 1: dividend suffix = divisor * quotient suffix + remainder. */
  lemma QuotientArith(d: int, c: int, mb: int, x: int, q: int, high: int)
    requires high == mb * q + c
    ensures d + BASE * high == mb * (x + BASE * q) + (d + BASE * c - mb * x)
  {
    assert BASE * high == BASE * (mb * q) + BASE * c;
    assert mb * (x + BASE * q) == mb * x + BASE * (mb * q);
  }

  /** `multiplyBase`, limb 0 set to d, `clearZeros`: the remainder becomes d + BASE * cur. */
  method BringDown(cur0: BigInteger, d: int) returns (cur: BigInteger)
    requires cur0.sign == Positive && InRange(cur0.digits) && 0 <= d < BASE
    ensures Canonical(cur) && cur.sign == Positive
    ensures Mag(cur.digits) == d + BASE * Mag(cur0.digits)
  {
    var shifted := MultiplyBase(cur0);
    var brought := shifted.(digits := shifted.digits[0 := d]);
    assert brought.digits == [d] + cur0.digits;
    MagAppend([d], cur0.digits);
    MagSingle(d);
    cur := ClearZerosOf(brought);
  }

  /** `cur -= b * x` where b * x <= cur: the difference, still Positive. */
  method SubtractMultiple(cur0: BigInteger, b: BigInteger, x: int) returns (cur: BigInteger)
    requires Canonical(b) && b.sign == Positive && Canonical(cur0) && cur0.sign == Positive
    requires 0 <= x < BASE && Mag(b.digits) * x <= Mag(cur0.digits)
    ensures Canonical(cur) && cur.sign == Positive
    ensures Mag(cur.digits) == Mag(cur0.digits) - Mag(b.digits) * x
  {
    var m := FromInt64(x);
    var product := Multiply(b, m);
    cur := SubAssign(cur0, product);
    CanonicalSign(cur);
  }

  /**
   * One step of the long division: limb i - 1 of the dividend brought into
   * the remainder, the digit x found by binary search, and `cur -= b * x`.
   */
  method DivisionStep(a: seq<int>, i: nat, b: BigInteger, cur0: BigInteger) returns (x: int, cur: BigInteger)
    requires 1 <= i <= |a| && InRange(a) && Canonical(b) && b.sign == Positive
    requires cur0.sign == Positive && InRange(cur0.digits) && Mag(cur0.digits) < Mag(b.digits)
    ensures 0 <= x < BASE && Canonical(cur) && cur.sign == Positive
    ensures Mag(cur.digits) < Mag(b.digits)
    ensures Mag(cur.digits) == a[i - 1] + BASE * Mag(cur0.digits) - Mag(b.digits) * x
  {
    var brought := BringDown(cur0, a[i - 1]);
    MagBounds(cur0.digits);
    x := QuotientDigit(b, brought);
    DigitBound(a[i - 1], Mag(cur0.digits), Mag(b.digits), x);
    cur := SubtractMultiple(brought, b, x);
  }

  /** C++ integer division: the quotient truncated toward zero. */
  ghost function Quot(x: int, y: int): int
    requires y != 0
  {
    var m := (if x < 0 then -x else x) / (if y < 0 then -y else y);
    if (x < 0) == (y < 0) then m else -m
  }

  /** C++ integer remainder: what is left after the truncated quotient; it has the dividend's sign. */
  ghost function Rem(x: int, y: int): int
    requires y != 0
  {
    x - y * Quot(x, y)
  }

  /**
   * `division`: the quotient, truncated toward zero, with the multiply sign
   * (Positive when it is zero), and the remainder, which takes the
   * dividend's sign even when it is zero (`NegativeZeroRemainder`).
   */
  method Division(self: BigInteger, other: BigInteger) returns (q: BigInteger, rem: BigInteger)
    requires Normalized(self.digits) && Normalized(other.digits) && other.digits != [0]
    ensures Canonical(q) && Normalized(rem.digits) && rem.sign == self.sign
    ensures Mag(self.digits) == Mag(q.digits) * Mag(other.digits) + Mag(rem.digits)
    ensures Mag(rem.digits) < Mag(other.digits)
    ensures q.sign == if q.digits == [0] then Positive else SignForMultiply(self, other)
    ensures Val(other) != 0 && Val(q) == Quot(Val(self), Val(other)) && Val(rem) == Rem(Val(self), Val(other))
  {
    var signForRemains := self.sign;
    var signForResult := SignForMultiply(self, other);
    var b := other.(sign := Positive);
    MagZero(other.digits);
    MagBounds(other.digits);
    var digits, cur := LongDivision(self.digits, b);
    var cleared := ClearZeros(digits);
    q := BigInteger(cleared, Positive);
    var isZero := Equal(q, Zero());
    q := q.(sign := if isZero then Positive else signForResult);
    rem := cur.(sign := signForRemains);
    DivisionValue(self, other, q, rem);
  }

  /**
   * The loop of `division`, from the top limb of the dividend down: the
   * quotient limbs and the final remainder.
   */
  method LongDivision(a: seq<int>, b: BigInteger) returns (digits: seq<int>, cur: BigInteger)
    requires InRange(a) && |a| >= 1 && Canonical(b) && b.sign == Positive && Mag(b.digits) > 0
    ensures |digits| == |a| && InRange(digits)
    ensures Canonical(cur) && cur.sign == Positive && Mag(cur.digits) < Mag(b.digits)
    ensures Mag(a) == Mag(b.digits) * Mag(digits) + Mag(cur.digits)
  {
    digits := seq(|a|, _ => 0);
    cur := BigInteger([], Positive);
    var i := |a|;
    while i > 0
      invariant 0 <= i <= |a| && |digits| == |a| && InRange(digits)
      invariant cur.sign == Positive && InRange(cur.digits) && (i < |a| ==> Canonical(cur))
      invariant Mag(cur.digits) < Mag(b.digits)
      invariant Mag(a[i..]) == Mag(b.digits) * Mag(digits[i..]) + Mag(cur.digits)
    {
      var x, next := DivisionStep(a, i, b, cur);
      DivisionInvariant(a, digits, i, x, Mag(b.digits), Mag(cur.digits));
      InRangeUpdate(digits, i - 1, x);
      digits := digits[i - 1 := x];
      cur := next;
      i := i - 1;
    }
    assert a[0..] == a && digits[0..] == digits;
  }

  /** Writing quotient limb i - 1 keeps dividend suffix = divisor * quotient suffix + remainder. */
  lemma DivisionInvariant(a: seq<int>, digits: seq<int>, i: nat, x: int, mb: int, c: int)
    requires 1 <= i <= |a| == |digits|
    requires Mag(a[i..]) == mb * Mag(digits[i..]) + c
    ensures Mag(a[i - 1..]) == mb * Mag(digits[i - 1 := x][i - 1..]) + (a[i - 1] + BASE * c - mb * x)
  {
    SuffixStep(a, i);
    SuffixStep(digits[i - 1 := x], i);
    assert digits[i - 1 := x][i..] == digits[i..];
    QuotientArith(a[i - 1], c, mb, x, Mag(digits[i..]), Mag(a[i..]));
  }

  /** The values of `division`'s results are C++'s truncated quotient and remainder. */
  lemma DivisionValue(a: BigInteger, b: BigInteger, q: BigInteger, rem: BigInteger)
    requires Normalized(a.digits) && Normalized(b.digits) && Normalized(q.digits) && Normalized(rem.digits)
    requires b.digits != [0] && rem.sign == a.sign
    requires Mag(a.digits) == Mag(q.digits) * Mag(b.digits) + Mag(rem.digits) && Mag(rem.digits) < Mag(b.digits)
    requires q.sign == if q.digits == [0] then Positive else SignForMultiply(a, b)
    ensures Val(b) != 0 && Val(q) == Quot(Val(a), Val(b)) && Val(rem) == Rem(Val(a), Val(b))
  {
    MagBounds(rem.digits);
    MagBounds(q.digits);
    QuotientSign(a, b, q, Mag(rem.digits));
    SignedQuot(SignFactor(a.sign), Mag(a.digits), SignFactor(b.sign), Mag(b.digits),
               SignFactor(q.sign), Mag(q.digits), Mag(rem.digits));
  }

  /** A nonzero quotient has the sign Negative exactly when the operands' signs differ. */
  lemma QuotientSign(a: BigInteger, b: BigInteger, q: BigInteger, mr: int)
    requires Normalized(a.digits) && Normalized(b.digits) && Normalized(q.digits) && b.digits != [0]
    requires Mag(a.digits) == Mag(q.digits) * Mag(b.digits) + mr && mr >= 0
    requires q.sign == if q.digits == [0] then Positive else SignForMultiply(a, b)
    ensures Mag(q.digits) != 0 ==> (q.sign == Negative <==> a.sign != b.sign)
  {
    MagZero(q.digits);
    if Mag(q.digits) != 0 {
      MagZero(a.digits);
      MagZero(b.digits);
      MagBounds(q.digits);
      MagBounds(b.digits);
      MulMonotone(Mag(b.digits), 1, Mag(q.digits));
    }
  }

  /** On magnitudes with signs ±1, the truncated quotient is the magnitude quotient, negated when the signs differ. */
  lemma QuotSigned(fa: int, ma: int, fb: int, mb: int)
    requires (fa == 1 || fa == -1) && (fb == 1 || fb == -1) && ma >= 0 && mb > 0
    ensures Quot(fa * ma, fb * mb) == if fa == fb then ma / mb else -(ma / mb)
  {
    assert (if fa * ma < 0 then -(fa * ma) else fa * ma) == ma;
    assert (if fb * mb < 0 then -(fb * mb) else fb * mb) == mb;
    if ma == 0 {
      assert ma / mb == 0;
    }
  }

  /**
   * The integer core of `division`: magnitudes with ma = mq * mb + mr and
   * mr < mb, the quotient signed by the multiply rule and the remainder by
   * the dividend, are C++'s truncated quotient and remainder.
   */
  lemma SignedQuot(fa: int, ma: int, fb: int, mb: int, fq: int, mq: int, mr: int)
    requires (fa == 1 || fa == -1) && (fb == 1 || fb == -1) && (fq == 1 || fq == -1)
    requires ma == mq * mb + mr && 0 <= mr < mb && 0 <= mq
    requires mq != 0 ==> (fq == -1 <==> fa != fb)
    ensures fb * mb != 0 && fq * mq == Quot(fa * ma, fb * mb) && fa * mr == Rem(fa * ma, fb * mb)
  {
    DivMod(ma, mb, mq, mr);
    QuotSigned(fa, ma, fb, mb);
    assert fq * mq == if fa == fb then mq else -mq;
    RemSigned(fa, ma, fb, mb, fq, mq, mr);
  }

  /** x - y * q is the signed remainder, for x = fa * ma, y = fb * mb and q = fq * mq. */
  lemma RemSigned(fa: int, ma: int, fb: int, mb: int, fq: int, mq: int, mr: int)
    requires (fa == 1 || fa == -1) && (fb == 1 || fb == -1) && (fq == 1 || fq == -1)
    requires ma == mq * mb + mr
    requires mq != 0 ==> (fq == -1 <==> fa != fb)
    ensures fa * ma - (fb * mb) * (fq * mq) == fa * mr
  {
    var p := mq * mb;
    assert (fb * mb) * (fq * mq) == (fb * fq) * p;
    if mq != 0 {
      assert fb * fq == fa;
    } else {
      assert p == 0;
    }
  }

  /** `operator/=`: the quotient of `division`, C++'s quotient truncated toward zero. */
  method DivAssign(self: BigInteger, other: BigInteger) returns (r: BigInteger)
    requires Normalized(self.digits) && Normalized(other.digits) && other.digits != [0]
    ensures Canonical(r) && Mag(other.digits) > 0 && Mag(r.digits) == Mag(self.digits) / Mag(other.digits)
    ensures Val(other) != 0 && Val(r) == Quot(Val(self), Val(other))
  {
    var rem;
    r, rem := Division(self, other);
    MagBounds(rem.digits);
    DivMod(Mag(self.digits), Mag(other.digits), Mag(r.digits), Mag(rem.digits));
  }

  /**
   * `operator%=`, with a zero remainder made Positive: the remainder of
   * `division` is given the dividend's sign even when it is zero
   * (`NegativeZeroRemainder`), which this corrects.  Its value is C++'s
   * remainder, which has the dividend's sign.
   */
  method ModAssign(self: BigInteger, other: BigInteger) returns (r: BigInteger)
    requires Normalized(self.digits) && Normalized(other.digits) && other.digits != [0]
    ensures Canonical(r) && Mag(other.digits) > 0 && Mag(r.digits) == Mag(self.digits) % Mag(other.digits)
    ensures r.digits != [0] ==> r.sign == self.sign
    ensures Val(other) != 0 && Val(r) == Rem(Val(self), Val(other))
  {
    var q, rem := Division(self, other);
    r := rem.(sign := if rem.digits == [0] then Positive else rem.sign);
    MagBounds(rem.digits);
    DivMod(Mag(self.digits), Mag(other.digits), Mag(q.digits), Mag(rem.digits));
    MagZero(rem.digits);
  }

  /** -6 % 3: `division` leaves the remainder 0 with the sign Negative, a zero that is not `BigInteger(0)`. */
  method NegativeZeroRemainder() returns (rem: BigInteger)
    ensures rem == BigInteger([0], Negative) && rem != Zero() && !Canonical(rem)
  {
    var a := FromInt64(-6);
    var b := FromInt64(3);
    MagZero(b.digits);
    assert Mag(a.digits) == 6 && Mag(b.digits) == 3;
    var q;
    q, rem := Division(a, b);
    MagBounds(rem.digits);
    DivMod(6, 3, Mag(q.digits), Mag(rem.digits));
    MagZero(rem.digits);
  }
}
