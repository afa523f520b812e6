/**
 * Addition and subtraction of biginteger.cpp: the carry loop of
 * `increaseForPositive`, the borrow loop of `decreaseForPositive`, and the
 * sign dispatch of `decrease`, `+=`, `-=` and `++`.
 */
module BigIntegerArith {
  import opened Wrappers
  import opened Limbs
  import opened BigIntegers

  function Max(a: int, b: int): int {
    if a < b then b else a
  }

  /** The integer identity behind one column of the carry and borrow loops. */
  lemma ColumnArith(m: int, p: int, s: int, next: int, x: int, y: int, c: int, lx: int, ly: int)
    requires s + next * BASE == x + y + c && m + c * p == lx + ly
    ensures (m + s * p) + next * (BASE * p) == (lx + x * p) + (ly + y * p)
  {
    assert s * p + next * (BASE * p) == (s + next * BASE) * p;
    assert (x + y + c) * p == x * p + y * p + c * p;
  }

  /** One column of the carry loop keeps `digits[..i] + carry * BASE^i` equal to the low limbs' sum. */
  lemma AddColumn(d: seq<int>, i: nat, sum: int, carry: int, next: int, my: seq<int>, other: seq<int>)
    requires i < |d| && d[i] == LimbAt(my, i)
    requires sum + next * BASE == d[i] + LimbAt(other, i) + carry
    requires Mag(d[..i]) + carry * Pow(i) == Mag(Low(my, i)) + Mag(Low(other, i))
    ensures Mag(d[i := sum][..i + 1]) + next * Pow(i + 1) == Mag(Low(my, i + 1)) + Mag(Low(other, i + 1))
  {
    assert d[i := sum][..i + 1] == d[..i] + [sum];
    MagSnoc(d[..i], sum);
    LowStep(my, i);
    LowStep(other, i);
    assert Pow(i + 1) == BASE * Pow(i);
    ColumnArith(Mag(d[..i]), Pow(i), sum, next, d[i], LimbAt(other, i), carry, Mag(Low(my, i)), Mag(Low(other, i)));
  }

  /** The untouched limbs above i carry the same weight in the result as in the operand. */
  lemma Rejoin(digits: seq<int>, my: seq<int>, i: nat)
    requires |digits| == Max(|my|, i)
    requires forall k | i <= k < |digits| :: digits[k] == my[k]
    ensures i <= |digits|
    ensures Mag(digits) - Mag(digits[..i]) == Mag(my) - Mag(Low(my, i))
  {
    if i < |my| {
      MagSplit(digits, i);
      MagSplit(my, i);
      assert digits[i..] == my[i..];
    } else {
      PrefixWhole(digits, i);
      if i == |my| {
        PrefixWhole(my, i);
      }
    }
  }

  /**
   * `increaseForPositive`, with the limb of `other` above its top read as 0:
   * adds the magnitudes, limb by limb with a carry, growing the vector when
   * the carry leaves the top.  The sign is left as it is.
   */
  method IncreaseForPositive(self: BigInteger, other: seq<int>) returns (r: BigInteger)
    requires InRange(self.digits) && InRange(other)
    ensures r.sign == self.sign && InRange(r.digits)
    ensures Mag(r.digits) == Mag(self.digits) + Mag(other)
    ensures Normalized(self.digits) && Normalized(other) ==> Normalized(r.digits)
  {
    var digits := CarryColumns(self.digits, other);
    r := BigInteger(digits, self.sign);
    if Normalized(self.digits) && Normalized(other) {
      SumNormalized(self.digits, other, digits);
    }
  }

  /**
   * The carry loop of `increaseForPositive`: column i becomes
   * digits0[i] + other[i] + carry, less BASE with a new carry when it
   * reaches BASE, appending a limb whenever the column is past the top.
   * The result is as long as the longer operand, or longer only when the
   * sum reaches BASE^(|digits| - 1).
   */
  method CarryColumns(digits0: seq<int>, other: seq<int>) returns (digits: seq<int>)
    requires InRange(digits0) && InRange(other)
    ensures InRange(digits) && Mag(digits) == Mag(digits0) + Mag(other)
    ensures |digits| >= |digits0| && |digits| >= |other|
    ensures |digits| == |digits0| || |digits| == |other| || Mag(digits0) + Mag(other) >= Pow(|digits| - 1)
  {
    ghost var n := Max(|digits0|, |other|);
    ghost var total := Mag(digits0) + Mag(other);
    digits := digits0;
    var carry := 0;
    var i := 0;
    while i < |other| || carry != 0
      invariant i <= n + 1 && (carry == 0 || carry == 1) && (i > n ==> carry == 0)
      invariant |digits| == Max(|digits0|, i) && InRange(digits)
      invariant forall k | i <= k < |digits| :: digits[k] == digits0[k]
      invariant Mag(digits[..i]) + carry * Pow(i) == Mag(Low(digits0, i)) + Mag(Low(other, i))
      invariant i > |other| ==> total >= Pow(i - 1)
      decreases n + 1 - i
    {
      if i == |digits| {
        assert (digits + [0])[..i] == digits[..i];
        InRangeSnoc(digits, 0);
        digits := digits + [0];
      }
      var sum := digits[i] + LimbAt(other, i) + carry;
      var next := 0;
      if sum >= BASE {
        sum := sum - BASE;
        next := 1;
      }
      if i >= |other| {
        CarryBound(digits, i, digits0, other);
      }
      AddColumn(digits, i, sum, carry, next, digits0, other);
      InRangeUpdate(digits, i, sum);
      digits := digits[i := sum];
      carry := next;
      i := i + 1;
    }
    Rejoin(digits, digits0, i);
    LowAll(other, i);
  }

  /** A carry still pending past the top of `other` means the sum reaches BASE^i. */
  lemma CarryBound(d: seq<int>, i: nat, my: seq<int>, other: seq<int>)
    requires i <= |d| && InRange(d) && InRange(my) && InRange(other) && |other| <= i
    requires Mag(d[..i]) + Pow(i) == Mag(Low(my, i)) + Mag(Low(other, i))
    ensures Mag(my) + Mag(other) >= Pow(i)
  {
    LowBounds(my, i);
    LowBounds(other, i);
    MagBounds(d[..i]);
  }

  /** The sum's top limb is nonzero, by the length bound `CarryColumns` gives. */
  lemma SumNormalized(my: seq<int>, other: seq<int>, digits: seq<int>)
    requires Normalized(my) && Normalized(other) && InRange(digits)
    requires Mag(digits) == Mag(my) + Mag(other) && |digits| >= |my|
    requires |digits| == |my| || |digits| == |other| || Mag(my) + Mag(other) >= Pow(|digits| - 1)
    ensures Normalized(digits)
  {
    if |digits| > 1 {
      assert Pow(|digits| - 1) <= Mag(digits) by {
        if |digits| == |my| {
          NormalizedLower(my);
          MagBounds(other);
        } else if |digits| == |other| {
          NormalizedLower(other);
          MagBounds(my);
        }
      }
      TopNonzero(digits);
    }
  }

  /**
   * `increaseForPositive` as written: it reads `other_digits[i]` for every
   * column the carry reaches, also past the last limb of `other`.  `None`
   * stands for that out-of-bounds read; it happens exactly when the low
   * |other| limbs overflow BASE^|other|.  This is for an `other` that is a
   * vector of its own: for `x += x` the two are one vector, `push_back`
   * grows both, and no read goes past the end.
   */
  method IncreaseForPositiveAsWritten(self: BigInteger, other: seq<int>) returns (r: Option<BigInteger>)
    requires InRange(self.digits) && InRange(other)
    ensures r.None? <==> Mag(Low(self.digits, |other|)) + Mag(other) >= Pow(|other|)
    ensures r.Some? ==> r.value.sign == self.sign && Mag(r.value.digits) == Mag(self.digits) + Mag(other)
  {
    ghost var my := self.digits;
    var digits := self.digits;
    var carry := 0;
    var i := 0;
    while i < |other| || carry != 0
      invariant i <= |other| && (carry == 0 || carry == 1)
      invariant |digits| == Max(|my|, i) && InRange(digits)
      invariant forall k | i <= k < |digits| :: digits[k] == my[k]
      invariant Mag(digits[..i]) + carry * Pow(i) == Mag(Low(my, i)) + Mag(Low(other, i))
      decreases |other| + 1 - i
    {
      if i == |digits| {
        assert (digits + [0])[..i] == digits[..i];
        InRangeSnoc(digits, 0);
        digits := digits + [0];
      }
      if i >= |other| {
        LowAll(other, i);
        MagBounds(digits[..i]);
        return None;
      }
      var sum := digits[i] + other[i] + carry;
      var next := 0;
      if sum >= BASE {
        sum := sum - BASE;
        next := 1;
      }
      AddColumn(digits, i, sum, carry, next, my, other);
      InRangeUpdate(digits, i, sum);
      digits := digits[i := sum];
      carry := next;
      i := i + 1;
    }
    LowAll(other, i);
    MagBounds(digits[..i]);
    Rejoin(digits, my, i);
    r := Some(BigInteger(digits, self.sign));
  }

  /** 999999999 + 1: the carry out of the only limb of `other` reads `other_digits[1]`. */
  method IncreaseCarryPastEnd() returns (r: Option<BigInteger>)
    ensures r.None?
  {
    MagSingle(999_999_999);
    MagSingle(1);
    assert Low([999_999_999], 1) == [999_999_999];
    r := IncreaseForPositiveAsWritten(BigInteger([999_999_999], Positive), [1]);
  }

  /**
   * One column of the borrow loop keeps `digits[..i] + other's low limbs ==
   * my[..i] + carry * BASE^i`, and leaves no borrow after the top limb of `my`.
   */
  lemma SubColumn(d: seq<int>, i: nat, diff: int, carry: int, next: int, my: seq<int>, other: seq<int>)
    requires i < |d| && i < |my|
    requires diff == my[i] - carry - LimbAt(other, i) + next * BASE
    requires Mag(d[..i]) + Mag(Low(other, i)) == Mag(my[..i]) + carry * Pow(i)
    ensures Mag(d[i := diff][..i + 1]) + Mag(Low(other, i + 1)) == Mag(my[..i + 1]) + next * Pow(i + 1)
  {
    assert d[i := diff][..i + 1] == d[..i] + [diff];
    MagSnoc(d[..i], diff);
    LowStep(other, i);
    MagPrefixStep(my, i);
    assert Pow(i + 1) == BASE * Pow(i);
    BorrowArith(Mag(d[..i]), Pow(i), diff, next, my[i], LimbAt(other, i), carry, Mag(my[..i]), Mag(Low(other, i)));
  }

  /** The arithmetic of one borrow column, on the column's values alone. */
  lemma BorrowArith(m: int, p: int, s: int, next: int, x: int, y: int, c: int, lx: int, ly: int)
    requires s == x - c - y + next * BASE && m + ly == lx + c * p
    ensures (m + s * p) + (ly + y * p) == (lx + x * p) + next * (BASE * p)
  {
    assert s * p == x * p - c * p - y * p + next * (BASE * p);
  }

  /** After the top limb of `my`, a smaller `other` leaves no borrow. */
  lemma LastBorrow(d: seq<int>, my: seq<int>, other: seq<int>, n: nat, carry: int)
    requires n == |my| <= |d| && |other| <= n && Mag(other) <= Mag(my) && (carry == 0 || carry == 1)
    requires InRange(d[..n]) && Mag(d[..n]) + Mag(Low(other, n)) == Mag(my[..n]) + carry * Pow(n)
    ensures carry == 0
  {
    LowAll(other, n);
    PrefixWhole(my, n);
    MagBounds(d[..n]);
    BorrowSettles(Mag(d[..n]), Mag(other), Mag(my), carry, Pow(n));
  }

  /** After the last column the limbs hold exactly |my| - |other|. */
  lemma BorrowDone(digits: seq<int>, my: seq<int>, other: seq<int>, n: nat)
    requires n == |my| == |digits| && |other| <= n && InRange(digits[..n])
    requires Mag(digits[..n]) + Mag(Low(other, n)) == Mag(my[..n])
    ensures InRange(digits) && Mag(digits) == Mag(my) - Mag(other)
  {
    PrefixWhole(digits, n);
    LowAll(other, n);
    PrefixWhole(my, n);
  }

  /** Once every limb of `my` is used, a smaller `other` leaves no borrow. */
  lemma BorrowSettles(d: int, o: int, m: int, carry: int, p: int)
    requires d + o == m + carry * p && 0 <= d < p && o <= m && (carry == 0 || carry == 1)
    ensures carry == 0
  {
  }

  /** `all_zero`: every limb is 0. */
  method AllZero(v: seq<int>) returns (b: bool)
    ensures b <==> forall k | 0 <= k < |v| :: v[k] == 0
  {
    b := true;
    for k := 0 to |v|
      invariant b <==> forall t | 0 <= t < k :: v[t] == 0
    {
      if v[k] != 0 {
        b := false;
        break;
      }
    }
  }

  /**
   * `decreaseForPositive(my, other)`: |my| - |other| by a borrow loop written
   * into this BigInteger's limbs, then `clearZeros`, and the sign Positive
   * when the difference is zero.  Its callers pass this BigInteger's own
   * limbs as one of the two operands and the smaller magnitude as `other`;
   * each limb is read before it is overwritten, so the aliasing is harmless.
   */
  method DecreaseForPositive(self: BigInteger, my: seq<int>, other: seq<int>) returns (r: BigInteger)
    requires self.digits == my || self.digits == other
    requires Normalized(my) && Normalized(other) && Mag(other) <= Mag(my)
    ensures Normalized(r.digits) && Mag(r.digits) == Mag(my) - Mag(other)
    ensures r.sign == if Mag(my) == Mag(other) then Positive else self.sign
  {
    if |my| < |other| {
      LengthOrder(my, other);
    }
    var digits := BorrowColumns(self.digits, my, other);
    var cleared := ClearZeros(digits);
    var allZero := AllZero(cleared);
    MagZero(cleared);
    if allZero {
      assert cleared[|cleared| - 1] == 0;
      assert cleared == [0];
    }
    r := BigInteger(cleared, if allZero then Positive else self.sign);
  }

  /**
   * The borrow loop of `decreaseForPositive`: column i of the result is
   * my[i] - borrow - other[i], plus BASE with a new borrow when negative,
   * written over the limbs `digits0` (resized when shorter).
   */
  method BorrowColumns(digits0: seq<int>, my: seq<int>, other: seq<int>) returns (digits: seq<int>)
    requires |digits0| <= |my| && |other| <= |my|
    requires InRange(my) && InRange(other) && Mag(other) <= Mag(my)
    ensures |digits| == |my| && InRange(digits) && Mag(digits) == Mag(my) - Mag(other)
  {
    digits := digits0;
    var carry := 0;
    var i := 0;
    while i < |my| || carry != 0
      invariant i <= |my| && (carry == 0 || carry == 1) && (i == |my| ==> carry == 0)
      invariant |digits| == Max(|digits0|, i) && InRange(digits[..i])
      invariant Mag(digits[..i]) + Mag(Low(other, i)) == Mag(my[..i]) + carry * Pow(i)
      decreases |my| - i
    {
      if |digits| <= i {
        assert (digits + seq(i + 1 - |digits|, _ => 0))[..i] == digits[..i];
        digits := digits + seq(i + 1 - |digits|, _ => 0);
      }
      var diff := my[i] - carry - LimbAt(other, i);
      var next := 0;
      if diff < 0 {
        diff := diff + BASE;
        next := 1;
      }
      SubColumn(digits, i, diff, carry, next, my, other);
      InRangePrefixStep(digits, i, diff);
      digits := digits[i := diff];
      carry := next;
      i := i + 1;
      if i == |my| {
        LastBorrow(digits, my, other, i, carry);
      }
    }
    BorrowDone(digits, my, other, i);
  }

  /**
   * `decrease(other)`: subtracts |other| from |this| keeping this sign, or,
   * when |other| is larger, flips the sign and computes |other| - |this|.
   */
  method Decrease(self: BigInteger, other: seq<int>) returns (r: BigInteger)
    requires Normalized(self.digits) && Normalized(other)
    ensures Canonical(r)
    ensures Val(r) == Val(self) - SignFactor(self.sign) * Mag(other)
  {
    var less := ComparePositive(self.digits, other, true);
    if less {
      var inv := Invert(self);
      r := DecreaseForPositive(inv, other, inv.digits);
    } else {
      r := DecreaseForPositive(self, self.digits, other);
    }
    MagZero(r.digits);
  }

  /** `operator+=`: the sum; adds magnitudes for equal signs, subtracts them otherwise. */
  method AddAssign(self: BigInteger, other: BigInteger) returns (r: BigInteger)
    requires Normalized(self.digits) && Normalized(other.digits)
    ensures Val(r) == Val(self) + Val(other) && Normalized(r.digits)
    ensures Canonical(self) && Canonical(other) ==> Canonical(r)
  {
    if self.sign == other.sign {
      r := IncreaseForPositive(self, other.digits);
      SameSignSum(self, other, r);
    } else {
      r := Decrease(self, other.digits);
    }
  }

  /** `operator-=`: the difference; subtracts magnitudes for equal signs, adds them otherwise. */
  method SubAssign(self: BigInteger, other: BigInteger) returns (r: BigInteger)
    requires Normalized(self.digits) && Normalized(other.digits)
    ensures Val(r) == Val(self) - Val(other) && Normalized(r.digits)
    ensures Canonical(self) && Canonical(other) ==> Canonical(r)
  {
    if self.sign == other.sign {
      r := Decrease(self, other.digits);
    } else {
      r := IncreaseForPositive(self, other.digits);
      SameSignSum(self, Invert(other), r);
    }
  }

  /** Adding magnitudes under the common sign adds the values, and keeps zero canonical. */
  lemma SameSignSum(self: BigInteger, other: BigInteger, r: BigInteger)
    requires Normalized(self.digits) && Normalized(other.digits) && Normalized(r.digits)
    requires self.sign == other.sign && r.sign == self.sign
    requires Mag(r.digits) == Mag(self.digits) + Mag(other.digits)
    ensures Val(r) == Val(self) + Val(other)
    ensures Canonical(self) ==> Canonical(r)
  {
    MagBounds(self.digits);
    MagBounds(other.digits);
    MagZero(self.digits);
    MagZero(r.digits);
  }

  /** Prefix `operator++`: adds one. */
  method Increment(self: BigInteger) returns (r: BigInteger)
    requires Normalized(self.digits)
    ensures Val(r) == Val(self) + 1 && Normalized(r.digits)
    ensures Canonical(self) ==> Canonical(r)
  {
    var one := FromInt64(1);
    r := AddAssign(self, one);
  }
}
