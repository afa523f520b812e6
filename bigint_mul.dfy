/**
 * Schoolbook multiplication of biginteger.cpp (`operator*=` and
 * `getSignForMultiply`): for every limb a[i] of the left factor, one row of
 * a[i] * other added into the result at limb i with a carry.
 */
module BigIntegerMul {
  import opened Limbs
  import opened BigIntegers

  /**
   * `getSignForMultiply`: Negative when the signs differ, but Positive
   * whenever either factor is (structurally) the zero `BigInteger(0)`.  On
   * canonical factors that is the sign of the product of the values.
   */
  function SignForMultiply(a: BigInteger, b: BigInteger): (s: Sign)
    ensures s == Negative <==> a.sign != b.sign && a != Zero() && b != Zero()
    ensures Canonical(a) && Canonical(b) ==> (s == Negative <==> Val(a) * Val(b) < 0)
  {
    SignRule(a, b);
    var sign := if a.sign != b.sign then Negative else Positive;
    if a == Zero() || b == Zero() then Positive else sign
  }

  /**
   * The rule `getSignForMultiply` applies: for canonical factors, "signs
   * differ and neither is zero" holds exactly when the product is negative.
   */
  lemma SignRule(a: BigInteger, b: BigInteger)
    ensures Canonical(a) && Canonical(b) ==>
              (a.sign != b.sign && a != Zero() && b != Zero() <==> Val(a) * Val(b) < 0)
  {
    if Canonical(a) && Canonical(b) {
      CanonicalSign(a);
      CanonicalSign(b);
      if Val(a) < 0 && Val(b) > 0 {
        assert Val(a) * Val(b) < 0;
      } else if Val(a) > 0 && Val(b) < 0 {
        assert Val(a) * Val(b) < 0;
      } else if Val(a) < 0 && Val(b) < 0 {
        assert (-Val(a)) * (-Val(b)) > 0;
      } else if Val(a) > 0 && Val(b) > 0 {
        assert Val(a) * Val(b) > 0;
      }
    }
  }

  /** A vector of zero limbs is worth 0. */
  lemma {:induction false} MagZeros(n: nat)
    ensures Mag(seq(n, _ => 0)) == 0
  {
    if n > 0 {
      assert seq(n, _ => 0)[1..] == seq(n - 1, _ => 0);
      MagZeros(n - 1);
    }
  }

  /** BASE^m < BASE^n only when m < n. */
  lemma PowOrder(m: nat, n: nat)
    ensures Pow(m) < Pow(n) ==> m < n
  {
    if n <= m {
      PowMonotone(n, m);
    }
  }

  /** A column of a row: res[k] + x * y + carry with limbs in range leaves a carry below BASE. */
  lemma ColumnBound(r: int, x: int, y: int, carry: int)
    requires 0 <= r < BASE && 0 <= x < BASE && 0 <= y < BASE && 0 <= carry < BASE
    ensures 0 <= r + x * y + carry && (r + x * y + carry) / BASE < BASE
  {
    MulMonotone(x, y, BASE - 1);
    MulMonotone(BASE - 1, x, BASE - 1);
    assert x * y <= (BASE - 1) * (BASE - 1);
  }

  /**
   * The integer identity behind one column of a row: writing cur % BASE at
   * limb k and carrying cur / BASE keeps `Mag(res) + carry * BASE^k` equal to
   * the old value plus x * BASE^i times the limbs of `other` used so far.
   */
  lemma RowArith(m: int, m2: int, r: int, cur: int, x: int, y: int, carry: int,
                 p: int, pi: int, pj: int, lo: int, lo2: int, m0: int)
    requires m2 == m + (cur % BASE - r) * p
    requires cur == r + x * y + carry
    requires p == pi * pj && lo2 == lo + y * pj
    requires m + carry * p == m0 + x * pi * lo
    ensures m2 + (cur / BASE) * (BASE * p) == m0 + x * pi * lo2
  {
    assert cur == (cur / BASE) * BASE + cur % BASE;
    assert (cur / BASE) * (BASE * p) == ((cur / BASE) * BASE) * p;
    assert m2 + (cur / BASE) * (BASE * p) == m + (cur - r) * p;
    assert (cur - r) * p == (x * y) * p + carry * p;
    assert x * pi * lo2 == x * pi * lo + (x * y) * (pi * pj);
  }

  /** One column of a row, stated on the limb vector. */
  lemma RowColumn(res: seq<int>, res0: seq<int>, i: nat, j: nat, x: int, b: seq<int>, carry: int, cur: int)
    requires i + j < |res| && cur == res[i + j] + x * LimbAt(b, j) + carry
    requires Mag(res) + carry * Pow(i + j) == Mag(res0) + x * Pow(i) * Mag(Low(b, j))
    ensures Mag(res[i + j := cur % BASE]) + (cur / BASE) * Pow(i + j + 1)
         == Mag(res0) + x * Pow(i) * Mag(Low(b, j + 1))
  {
    MagUpdate(res, i + j, cur % BASE);
    LowStep(b, j);
    PowAdd(i, j);
    RowArith(Mag(res), Mag(res[i + j := cur % BASE]), res[i + j], cur, x, LimbAt(b, j), carry,
             Pow(i + j), Pow(i), Pow(j), Mag(Low(b, j)), Mag(Low(b, j + 1)), Mag(res0));
  }

  /**
   * The inner loop of `operator*=`: adds x * other into `res` from limb i
   * up, column by column with a carry, continuing past the top of `other`
   * while a carry is left.  The result vector is long enough for the row.
   */
  method AddRow(res0: seq<int>, x: int, b: seq<int>, i: nat) returns (res: seq<int>)
    requires InRange(res0) && InRange(b) && 0 <= x < BASE && i + |b| <= |res0|
    requires Mag(res0) + x * Pow(i) * Mag(b) < Pow(|res0|)
    ensures |res| == |res0| && InRange(res)
    ensures Mag(res) == Mag(res0) + x * Pow(i) * Mag(b)
  {
    res := res0;
    var carry := 0;
    var j := 0;
    while j < |b| || carry != 0
      invariant |res| == |res0| && InRange(res) && 0 <= carry < BASE && i + j <= |res|
      invariant Mag(res) + carry * Pow(i + j) == Mag(res0) + x * Pow(i) * Mag(Low(b, j))
      decreases |res| - (i + j)
    {
      if j >= |b| {
        LowAll(b, j);
        MagBounds(res);
        MulMonotone(Pow(i + j), 1, carry);
        PowOrder(i + j, |res|);
      }
      var cur := res[i + j] + x * LimbAt(b, j) + carry;
      ColumnBound(res[i + j], x, LimbAt(b, j), carry);
      RowColumn(res, res0, i, j, x, b, carry, cur);
      InRangeUpdate(res, i + j, cur % BASE);
      res := res[i + j := cur % BASE];
      carry := cur / BASE;
      j := j + 1;
    }
    LowAll(b, j);
  }

  /** Row i fits: the product of the low i + 1 limbs with `other` is below BASE^(|a| + |b|). */
  lemma RowFits(a: seq<int>, b: seq<int>, i: nat)
    requires InRange(a) && InRange(b) && i < |a|
    ensures Mag(Low(a, i)) * Mag(b) + a[i] * Pow(i) * Mag(b) == Mag(Low(a, i + 1)) * Mag(b)
    ensures Mag(Low(a, i + 1)) * Mag(b) < Pow(|a| + |b|)
  {
    LowStep(a, i);
    LowBounds(a, i + 1);
    MagBounds(b);
    var lo, lo2, mb, p := Mag(Low(a, i)), Mag(Low(a, i + 1)), Mag(b), Pow(i);
    assert lo2 == lo + a[i] * p;
    Distribute(lo, a[i] * p, mb);
    MulStrict(lo2, mb, Pow(i + 1), Pow(|b|));
    PowAdd(i + 1, |b|);
    PowMonotone(i + 1 + |b|, |a| + |b|);
  }

  lemma Distribute(x: int, y: int, z: int)
    ensures (x + y) * z == x * z + y * z
  {
  }

  /** The sign rule makes the value of the product the product of the values. */
  lemma ProductValue(a: BigInteger, b: BigInteger, r: BigInteger)
    requires Normalized(a.digits) && Normalized(b.digits) && Normalized(r.digits)
    requires r.sign == SignForMultiply(a, b) && Mag(r.digits) == Mag(a.digits) * Mag(b.digits)
    ensures Val(r) == Val(a) * Val(b)
    ensures Canonical(a) && Canonical(b) ==> Canonical(r)
  {
    var ma, mb := Mag(a.digits), Mag(b.digits);
    var fa, fb := SignFactor(a.sign), SignFactor(b.sign);
    SignedProduct(fa, ma, fb, mb);
    MagZero(a.digits);
    MagZero(b.digits);
    if ma == 0 || mb == 0 {
      MagZero(r.digits);
    } else {
      assert r.sign == Negative <==> a.sign != b.sign;
    }
  }

  lemma SignedProduct(fa: int, ma: int, fb: int, mb: int)
    requires (fa == 1 || fa == -1) && (fb == 1 || fb == -1)
    ensures (fa * ma) * (fb * mb) == (fa * fb) * (ma * mb)
    ensures ma == 0 || mb == 0 ==> ma * mb == 0
  {
  }

  /**
   * `operator*=`: the product, with the sign of `getSignForMultiply` and the
   * leading zero limbs cleared.
   */
  method Multiply(self: BigInteger, other: BigInteger) returns (r: BigInteger)
    requires Normalized(self.digits) && Normalized(other.digits)
    ensures Normalized(r.digits) && Mag(r.digits) == Mag(self.digits) * Mag(other.digits)
    ensures r.sign == SignForMultiply(self, other)
    ensures Val(r) == Val(self) * Val(other)
    ensures Canonical(self) && Canonical(other) ==> Canonical(r)
  {
    var sign := SignForMultiply(self, other);
    var a, b := self.digits, other.digits;
    var res := seq(|a| + |b|, _ => 0);
    MagZeros(|a| + |b|);
    var i := 0;
    while i < |a|
      invariant i <= |a| && |res| == |a| + |b| && InRange(res)
      invariant Mag(res) == Mag(Low(a, i)) * Mag(b)
    {
      RowFits(a, b, i);
      res := AddRow(res, a[i], b, i);
      i := i + 1;
    }
    LowAll(a, i);
    var cleared := ClearZeros(res);
    r := BigInteger(cleared, sign);
    ProductValue(self, other, r);
  }
}
