/**
 * Magnitudes of biginteger.cpp: little-endian limbs in base 10^9
 * (`BigInteger::base`, biginteger.h:25).  `Mag` is the value of a limb
 * vector; a normalized vector has every limb in range, at least one limb and
 * no leading zero limb.
 */
module Limbs {
  const BASE: int := 1_000_000_000
  /** Decimal digits per limb (`BigInteger::len`). */
  const LEN: nat := 9

  /** BASE^n. */
  function Pow(n: nat): (r: int)
    ensures r >= 1
  {
    if n == 0 then 1 else BASE * Pow(n - 1)
  }

  ghost predicate InRange(s: seq<int>) {
    forall i | 0 <= i < |s| :: 0 <= s[i] < BASE
  }

  /** What `clearZeros` leaves: at least one limb, in range, no leading zero limb. */
  ghost predicate Normalized(s: seq<int>) {
    |s| >= 1 && InRange(s) && (|s| == 1 || s[|s| - 1] != 0)
  }

  /** Σ s[i] * BASE^i. */
  ghost function Mag(s: seq<int>): int {
    if |s| == 0 then 0 else s[0] + BASE * Mag(s[1..])
  }

  lemma {:induction false} PowAdd(m: nat, n: nat)
    ensures Pow(m + n) == Pow(m) * Pow(n)
  {
    if m > 0 {
      PowAdd(m - 1, n);
      calc {
        Pow(m + n);
        BASE * Pow(m - 1 + n);
        BASE * (Pow(m - 1) * Pow(n));
        (BASE * Pow(m - 1)) * Pow(n);
      }
    }
  }

  lemma {:induction false} PowMonotone(m: nat, n: nat)
    requires m <= n
    ensures Pow(m) <= Pow(n)
  {
    if m < n {
      PowMonotone(m, n - 1);
    }
  }

  /** Concatenation: the second vector's limbs sit |s| places higher. */
  lemma {:induction false} MagAppend(s: seq<int>, t: seq<int>)
    ensures Mag(s + t) == Mag(s) + Pow(|s|) * Mag(t)
  {
    if |s| > 0 {
      assert (s + t)[1..] == s[1..] + t;
      MagAppend(s[1..], t);
      calc {
        Mag(s + t);
        s[0] + BASE * Mag(s[1..] + t);
        s[0] + BASE * (Mag(s[1..]) + Pow(|s| - 1) * Mag(t));
        s[0] + BASE * Mag(s[1..]) + (BASE * Pow(|s| - 1)) * Mag(t);
      }
    } else {
      assert s + t == t;
    }
  }

  lemma MagSingle(x: int)
    ensures Mag([x]) == x
  {
    assert [x][1..] == [];
  }

  lemma MagSnoc(s: seq<int>, x: int)
    ensures Mag(s + [x]) == Mag(s) + x * Pow(|s|)
  {
    MagAppend(s, [x]);
    MagSingle(x);
  }

  /** a * b <= a * c for a >= 0 and b <= c. */
  lemma MulMonotone(a: int, b: int, c: int)
    requires a >= 0 && b <= c
    ensures a * b <= a * c
  {
  }

  /** Any quotient and remainder with 0 <= mr < mb are the Euclidean ones. */
  lemma DivMod(ma: int, mb: int, mq: int, mr: int)
    requires ma == mq * mb + mr && 0 <= mr < mb
    ensures mq == ma / mb && mr == ma % mb
  {
    var q', r' := ma / mb, ma % mb;
    assert ma == q' * mb + r';
    assert (mq - q') * mb == r' - mr;
    if mq > q' {
      MulMonotone(mb, 1, mq - q');
    } else if mq < q' {
      MulMonotone(mb, 1, q' - mq);
    }
  }

  lemma MagSplit(s: seq<int>, i: nat)
    requires i <= |s|
    ensures Mag(s) == Mag(s[..i]) + Pow(i) * Mag(s[i..])
  {
    assert s == s[..i] + s[i..];
    MagAppend(s[..i], s[i..]);
  }

  /** The value of one prefix limb more. */
  lemma MagPrefixStep(s: seq<int>, i: nat)
    requires i < |s|
    ensures Mag(s[..i + 1]) == Mag(s[..i]) + s[i] * Pow(i)
  {
    assert s[..i + 1] == s[..i] + [s[i]];
    MagSnoc(s[..i], s[i]);
  }

  lemma {:induction false} MagBounds(s: seq<int>)
    requires InRange(s)
    ensures 0 <= Mag(s) < Pow(|s|)
  {
    if |s| > 0 {
      MagBounds(s[1..]);
      assert Mag(s[1..]) <= Pow(|s| - 1) - 1;
      assert BASE * Mag(s[1..]) <= BASE * Pow(|s| - 1) - BASE;
    }
  }

  /** Replacing limb i by x changes the value by (x - s[i]) * BASE^i. */
  lemma {:induction false} MagUpdate(s: seq<int>, i: nat, x: int)
    requires i < |s|
    ensures Mag(s[i := x]) == Mag(s) + (x - s[i]) * Pow(i)
  {
    if i > 0 {
      assert s[i := x][1..] == s[1..][i - 1 := x];
      MagUpdate(s[1..], i - 1, x);
      calc {
        Mag(s[i := x]);
        s[0] + BASE * Mag(s[1..][i - 1 := x]);
        s[0] + BASE * (Mag(s[1..]) + (x - s[i]) * Pow(i - 1));
        s[0] + BASE * Mag(s[1..]) + (x - s[i]) * (BASE * Pow(i - 1));
      }
    } else {
      assert s[i := x][1..] == s[1..];
    }
  }

  /** A normalized vector of n limbs is below BASE^n, and at least BASE^(n-1) when n > 1. */
  lemma NormalizedLower(s: seq<int>)
    requires Normalized(s)
    ensures Mag(s) < Pow(|s|)
    ensures |s| > 1 ==> Pow(|s| - 1) <= Mag(s)
  {
    MagBounds(s);
    if |s| > 1 {
      var n := |s| - 1;
      MagSplit(s, n);
      MagBounds(s[..n]);
      assert s[n..] == [s[n]];
      MagSingle(s[n]);
      MulMonotone(Pow(n), 1, s[n]);
    }
  }

  /** Conversely, limbs in range whose value reaches BASE^(n-1) have a nonzero top limb. */
  lemma TopNonzero(s: seq<int>)
    requires InRange(s) && |s| >= 1 && Pow(|s| - 1) <= Mag(s)
    ensures Normalized(s)
  {
    if |s| > 1 {
      var n := |s| - 1;
      MagSplit(s, n);
      MagBounds(s[..n]);
      assert s[n..] == [s[n]];
      MagSingle(s[n]);
    }
  }

  /** Normalized vectors of different lengths: the shorter one is smaller. */
  lemma LengthOrder(a: seq<int>, b: seq<int>)
    requires Normalized(a) && Normalized(b) && |a| < |b|
    ensures Mag(a) < Mag(b)
  {
    NormalizedLower(a);
    NormalizedLower(b);
    PowMonotone(|a|, |b| - 1);
  }

  /**
   * Vectors of one length whose highest differing limb is i compare as
   * that limb does.
   */
  lemma LexOrder(a: seq<int>, b: seq<int>, i: nat)
    requires InRange(a) && InRange(b) && |a| == |b| && i < |a| && a[i] < b[i]
    requires forall j | i < j < |a| :: a[j] == b[j]
    ensures Mag(a) < Mag(b)
  {
    MagSplit(a, i + 1);
    MagSplit(b, i + 1);
    assert a[i + 1..] == b[i + 1..];
    LexLow(a, b, i);
  }

  /** The prefix part of LexOrder: the prefixes up to limb i compare as limb i does. */
  lemma LexLow(a: seq<int>, b: seq<int>, i: nat)
    requires InRange(a) && InRange(b) && i < |a| && i < |b| && a[i] < b[i]
    ensures Mag(a[..i + 1]) < Mag(b[..i + 1])
  {
    MagPrefixStep(a, i);
    MagPrefixStep(b, i);
    MagBounds(a[..i]);
    MagBounds(b[..i]);
    MulMonotone(Pow(i), a[i] + 1, b[i]);
    assert (a[i] + 1) * Pow(i) == a[i] * Pow(i) + Pow(i);
  }

  /** Normalized vectors are determined by their value. */
  lemma {:induction false} MagInjective(a: seq<int>, b: seq<int>)
    requires Normalized(a) && Normalized(b) && Mag(a) == Mag(b)
    ensures a == b
  {
    if |a| < |b| {
      LengthOrder(a, b);
    } else if |b| < |a| {
      LengthOrder(b, a);
    } else if |a| > 1 {
      MagBounds(a[1..]);
      MagBounds(b[1..]);
      assert a[0] == Mag(a) % BASE && b[0] == Mag(b) % BASE;
      assert Mag(a[1..]) == Mag(b[1..]);
      assert a[1..][|a| - 2] == a[|a| - 1];
      assert b[1..][|b| - 2] == b[|b| - 1];
      MagInjective(a[1..], b[1..]);
      assert a == [a[0]] + a[1..];
      assert b == [b[0]] + b[1..];
    } else {
      assert a[1..] == [] && b[1..] == [];
    }
  }

  /** A normalized vector is zero exactly when it is the single limb 0. */
  lemma MagZero(s: seq<int>)
    requires Normalized(s)
    ensures Mag(s) == 0 <==> s == [0]
  {
    NormalizedLower(s);
    if |s| == 1 {
      assert Mag(s) == s[0] + BASE * Mag(s[1..]);
      assert s[1..] == [];
    }
  }

  /** Limb i of s, or 0 above its top: how the carry loops read a shorter operand. */
  function LimbAt(s: seq<int>, i: nat): int {
    if i < |s| then s[i] else 0
  }

  /** The low i limbs of s, or all of s when it has fewer. */
  function Low(s: seq<int>, i: nat): seq<int> {
    if i <= |s| then s[..i] else s
  }

  /** Taking one limb more adds that limb (or nothing, above the top). */
  lemma LowStep(s: seq<int>, i: nat)
    ensures Mag(Low(s, i + 1)) == Mag(Low(s, i)) + LimbAt(s, i) * Pow(i)
  {
    if i < |s| {
      MagPrefixStep(s, i);
    } else if i == |s| {
      assert s[..i] == s;
    }
  }

  /** The low limbs are worth less than BASE^i and no more than the whole vector. */
  lemma LowBounds(s: seq<int>, i: nat)
    requires InRange(s)
    ensures 0 <= Mag(Low(s, i)) <= Mag(s) && Mag(Low(s, i)) < Pow(i)
  {
    if i <= |s| {
      MagBounds(s[..i]);
      MagSplit(s, i);
      MagBounds(s[i..]);
      MulMonotone(Pow(i), 0, Mag(s[i..]));
    } else {
      MagBounds(s);
      PowMonotone(|s|, i);
    }
  }

  /** x * y < xs * ys for 0 <= x < xs and 0 <= y < ys. */
  lemma MulStrict(x: int, y: int, xs: int, ys: int)
    requires 0 <= x < xs && 0 <= y < ys
    ensures 0 <= x * y < xs * ys
  {
    MulMonotone(x, y, ys);
    MulMonotone(ys, x, xs);
    if x == 0 {
    } else {
      assert x * y <= x * ys;
    }
  }

  lemma InRangeUpdate(s: seq<int>, i: nat, x: int)
    requires InRange(s) && i < |s| && 0 <= x < BASE
    ensures InRange(s[i := x])
  {
  }

  lemma InRangeSnoc(s: seq<int>, x: int)
    requires InRange(s) && 0 <= x < BASE
    ensures InRange(s + [x])
  {
  }

  lemma InRangePrefixStep(s: seq<int>, i: nat, x: int)
    requires i < |s| && InRange(s[..i]) && 0 <= x < BASE
    ensures InRange(s[i := x][..i + 1])
  {
    assert s[i := x][..i + 1] == s[..i] + [x];
  }

  lemma LowAll(s: seq<int>, n: nat)
    requires |s| <= n
    ensures Low(s, n) == s
  {
  }

  lemma PrefixWhole(s: seq<int>, n: nat)
    requires n == |s|
    ensures s[..n] == s
  {
  }
}
