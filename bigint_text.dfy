/**
 * Decimal text of biginteger.cpp: the string constructor, which cuts the
 * digits into chunks of LEN from the right, and `toString`, which prints the
 * top limb as it is and every lower limb zero-padded to LEN digits.
 *
 * Digit strings are read through index ranges s[lo..hi] of the whole
 * string, the way the constructor walks `str` with an index.
 */
module BigIntegerText {
  import opened Limbs
  import opened BigIntegers

  predicate IsDigit(c: char) {
    '0' <= c <= '9'
  }

  /** Every character of s[lo..hi] is a decimal digit. */
  predicate DigitsIn(s: seq<char>, lo: nat, hi: nat)
    requires lo <= hi <= |s|
  {
    forall k | lo <= k < hi :: IsDigit(s[k])
  }

  predicate AllDigits(s: seq<char>) {
    forall k | 0 <= k < |s| :: IsDigit(s[k])
  }

  function DigitValue(c: char): int {
    c as int - '0' as int
  }

  function DigitChar(d: int): (c: char)
    requires 0 <= d < 10
    ensures IsDigit(c) && DigitValue(c) == d
  {
    (d + '0' as int) as char
  }

  /** 10^n. */
  function Pow10(n: nat): (r: int)
    ensures r >= 1
  {
    if n == 0 then 1 else 10 * Pow10(n - 1)
  }

  /** The value of the decimal digits s[lo..hi], most significant first. */
  function DigitsValue(s: seq<char>, lo: nat, hi: nat): int
    requires lo <= hi <= |s|
    decreases hi
  {
    if hi == lo then 0 else DigitsValue(s, lo, hi - 1) * 10 + DigitValue(s[hi - 1])
  }

  /** `std::stoi` on a string of decimal digits. */
  function Stoi(s: seq<char>): int {
    DigitsValue(s, 0, |s|)
  }

  /** `std::to_string` on a non-negative value: its digits, without leading zeros. */
  function ToDecimal(n: nat): (s: seq<char>)
    ensures 1 <= |s| && AllDigits(s)
  {
    if n < 10 then [DigitChar(n)] else ToDecimal(n / 10) + [DigitChar(n % 10)]
  }

  function Zeros(k: nat): (s: seq<char>)
    ensures |s| == k && forall i | 0 <= i < k :: s[i] == '0'
  {
    seq(k, _ => '0')
  }

  /** `std::reverse`. */
  function Reversed(s: seq<char>): (r: seq<char>)
    ensures |r| == |s| && forall k | 0 <= k < |s| :: r[k] == s[|s| - 1 - k]
  {
    seq(|s|, k requires 0 <= k < |s| => s[|s| - 1 - k])
  }

  /** A limb below the top, as `toString` prints it: `to_string`, left-padded with '0' to LEN digits. */
  function Padded(x: int): (s: seq<char>)
    requires 0 <= x < BASE
    ensures |s| == LEN && AllDigits(s)
  {
    var t := ToDecimal(x);
    Pow10Base();
    DecimalLength(x, LEN);
    Zeros(LEN - |t|) + t
  }

  /** The limbs ds[lo..hi] printed from the highest down, each padded. */
  function LowerText(ds: seq<int>, lo: nat, hi: nat): (s: seq<char>)
    requires lo <= hi <= |ds| && InRange(ds)
    ensures AllDigits(s)
    decreases hi - lo
  {
    if hi == lo then [] else LowerText(ds, lo + 1, hi) + Padded(ds[lo])
  }

  /** The digits `toString` prints for the limbs ds: the top limb as it is, then the lower ones padded. */
  function Body(ds: seq<int>): (s: seq<char>)
    requires InRange(ds) && |ds| >= 1
    ensures |s| >= 1 && AllDigits(s)
  {
    ToDecimal(ds[|ds| - 1]) + LowerText(ds, 0, |ds| - 1)
  }

  /** What `toString` prints: '-' when Negative, then the digits. */
  function Text(b: BigInteger): seq<char>
    requires InRange(b.digits) && |b.digits| >= 1
  {
    (if b.sign == Negative then "-" else "") + Body(b.digits)
  }

  /**
   * The limbs the string constructor makes of s[lo..hi]: chunks of LEN
   * digits from the right. The width is written as the literal 9 (LEN):
   * the solver handles `hi - 9` far better than `hi - LEN`.
   */
  function Chunks(s: seq<char>, lo: nat, hi: nat): seq<int>
    requires lo <= hi <= |s|
    decreases hi
  {
    if hi == lo then []
    else if hi - lo <= 9 then [DigitsValue(s, lo, hi)]
    else [DigitsValue(s, hi - 9, hi)] + Chunks(s, lo, hi - 9)
  }

  /** An optional '-' followed by at least one decimal digit. */
  predicate IsDecimal(s: seq<char>) {
    |s| >= 1 && if s[0] == '-' then |s| >= 2 && DigitsIn(s, 1, |s|) else DigitsIn(s, 0, |s|)
  }

  /** Where the digits start: after the '-' if there is one. */
  function Start(s: seq<char>): (i: nat)
    requires |s| >= 1
    ensures i <= 1 && (i == 1 <==> s[0] == '-')
  {
    if s[0] == '-' then 1 else 0
  }

  /** The BigInteger the string constructor builds. */
  function FromText(s: seq<char>): BigInteger
    requires IsDecimal(s)
  {
    BigInteger(Chunks(s, Start(s), |s|), if s[0] == '-' then Negative else Positive)
  }

  /** A decimal with no leading zero and no "-0": what `toString` prints for canonical values. */
  predicate CanonicalDecimal(s: seq<char>) {
    IsDecimal(s) && (s[Start(s)] != '0' || |s| == Start(s) + 1) && s != "-0"
  }

  // ------------------------------------------------------- digit values

  lemma Pow10Base()
    ensures Pow10(LEN) == BASE
  {
    assert Pow10(3) == 1000;
    assert Pow10(6) == 1000 * Pow10(3) by {
      assert Pow10(6) == 10 * (10 * (10 * Pow10(3)));
    }
    assert Pow10(9) == 10 * (10 * (10 * Pow10(6)));
  }

  lemma {:induction false} Pow10Monotone(m: nat, n: nat)
    requires m <= n
    ensures Pow10(m) <= Pow10(n)
    decreases n
  {
    if m < n {
      Pow10Monotone(m, n - 1);
    }
  }

  /** Equal digits at the same positions have the same value. */
  lemma {:induction false} ValueSame(a: seq<char>, alo: nat, ahi: nat, b: seq<char>, blo: nat, bhi: nat)
    requires alo <= ahi <= |a| && blo <= bhi <= |b| && ahi - alo == bhi - blo
    requires forall k | alo <= k < ahi :: a[k] == b[k - alo + blo]
    ensures DigitsValue(a, alo, ahi) == DigitsValue(b, blo, bhi)
    decreases ahi
  {
    if ahi > alo {
      ValueSame(a, alo, ahi - 1, b, blo, bhi - 1);
    }
  }

  /** The value of a range is the value of its slice. */
  lemma ValueSlice(s: seq<char>, lo: nat, hi: nat)
    requires lo <= hi <= |s|
    ensures DigitsValue(s, lo, hi) == Stoi(s[lo..hi])
  {
    ValueSame(s, lo, hi, s[lo..hi], 0, hi - lo);
  }

  /** Appending digit d to a split value: the integer identity behind `ValueSplit`. */
  lemma SplitStep(l: int, p: int, r: int, d: int, q: int)
    requires q == 10 * p
    ensures (l * p + r) * 10 + d == l * q + (r * 10 + d)
  {
    assert (l * p) * 10 == l * (10 * p);
  }

  /** Digits side by side: the left part is worth 10^(hi - mid) times more. */
  lemma {:induction false} ValueSplit(s: seq<char>, lo: nat, mid: nat, hi: nat)
    requires lo <= mid <= hi <= |s|
    ensures DigitsValue(s, lo, hi) == DigitsValue(s, lo, mid) * Pow10(hi - mid) + DigitsValue(s, mid, hi)
    decreases hi
  {
    if hi > mid {
      ValueSplit(s, lo, mid, hi - 1);
      var e := hi - 1 - mid;
      assert hi - mid == e + 1;
      SplitStep(DigitsValue(s, lo, mid), Pow10(e), DigitsValue(s, mid, hi - 1), DigitValue(s[hi - 1]), Pow10(hi - mid));
    }
  }

  /** One more digit: the bound grows tenfold. */
  lemma BoundStep(w: int, d: int, p: int, q: int)
    requires 0 <= w < p && 0 <= d < 10 && q == 10 * p
    ensures 0 <= w * 10 + d < q
  {
  }

  lemma {:induction false} ValueBounds(s: seq<char>, lo: nat, hi: nat)
    requires lo <= hi <= |s| && DigitsIn(s, lo, hi)
    ensures 0 <= DigitsValue(s, lo, hi) < Pow10(hi - lo)
    decreases hi
  {
    if hi > lo {
      ValueBounds(s, lo, hi - 1);
      var e := hi - 1 - lo;
      assert hi - lo == e + 1;
      BoundStep(DigitsValue(s, lo, hi - 1), DigitValue(s[hi - 1]), Pow10(e), Pow10(hi - lo));
    }
  }

  /** A leading digit other than '0' makes the value at least 10^(length - 1). */
  lemma {:induction false} ValueLeading(s: seq<char>, lo: nat, hi: nat)
    requires lo < hi <= |s| && DigitsIn(s, lo, hi) && s[lo] != '0'
    ensures DigitsValue(s, lo, hi) >= Pow10(hi - lo - 1)
    decreases hi
  {
    if hi - lo > 1 {
      ValueLeading(s, lo, hi - 1);
      var e := hi - 1 - lo - 1;
      assert hi - lo - 1 == e + 1;
      assert Pow10(e + 1) == 10 * Pow10(e);
    } else {
      assert DigitsValue(s, lo, lo) == 0;
    }
  }

  /** Only zeros are worth 0. */
  lemma {:induction false} ValueZeros(s: seq<char>, lo: nat, hi: nat)
    requires lo <= hi <= |s| && forall k | lo <= k < hi :: s[k] == '0'
    ensures DigitsValue(s, lo, hi) == 0
    decreases hi
  {
    if hi > lo {
      ValueZeros(s, lo, hi - 1);
    }
  }

  /** Reading w * 10 + d back: the quotient by 10 and the last digit. */
  lemma DivStep(w: int, d: int)
    requires 0 <= d < 10
    ensures (w * 10 + d) / 10 == w && (w * 10 + d) % 10 == d
  {
  }

  /** `stoi(to_string(n)) == n`. */
  lemma {:induction false} StoiToDecimal(n: nat)
    ensures Stoi(ToDecimal(n)) == n
  {
    if n >= 10 {
      var p := ToDecimal(n / 10);
      var t := ToDecimal(n);
      assert t == p + [DigitChar(n % 10)];
      ValueSame(t, 0, |p|, p, 0, |p|);
      StoiToDecimal(n / 10);
    }
  }

  /** `to_string(stoi(s)) == s` on a range of digits without a leading zero. */
  lemma {:induction false} ToDecimalValue(s: seq<char>, lo: nat, hi: nat)
    requires lo < hi <= |s| && DigitsIn(s, lo, hi) && (s[lo] != '0' || hi - lo == 1)
    ensures DigitsValue(s, lo, hi) >= 0 && ToDecimal(DigitsValue(s, lo, hi)) == s[lo..hi]
    decreases hi
  {
    ValueBounds(s, lo, hi);
    if hi - lo == 1 {
      assert DigitsValue(s, lo, lo) == 0;
      assert s[lo..hi] == [s[lo]];
      DigitRoundTrip(s[lo]);
    } else {
      var w, c := DigitsValue(s, lo, hi - 1), s[hi - 1];
      ValueLeading(s, lo, hi - 1);
      ValueBounds(s, lo, hi - 1);
      DigitRoundTrip(c);
      var d := DigitValue(c);
      calc {
        ToDecimal(DigitsValue(s, lo, hi));
        ToDecimal(w * 10 + d);
        { ToDecimalSnoc(w, d); }
        ToDecimal(w) + [DigitChar(d)];
        { ToDecimalValue(s, lo, hi - 1); }
        s[lo..hi - 1] + [c];
        { SliceSnoc(s, lo, hi); }
        s[lo..hi];
      }
    }
  }

  lemma SliceSnoc(s: seq<char>, lo: nat, hi: nat)
    requires lo < hi <= |s|
    ensures s[lo..hi] == s[lo..hi - 1] + [s[hi - 1]]
  {
  }

  lemma DigitRoundTrip(c: char)
    requires IsDigit(c)
    ensures 0 <= DigitValue(c) < 10 && DigitChar(DigitValue(c)) == c
  {
  }

  /** Printing a number with one more digit appends that digit. */
  lemma ToDecimalSnoc(w: int, d: int)
    requires w >= 1 && 0 <= d < 10
    ensures ToDecimal(w * 10 + d) == ToDecimal(w) + [DigitChar(d)]
  {
    DivStep(w, d);
  }

  /** A value below 10^k has at most k digits. */
  lemma {:induction false} DecimalLength(n: nat, k: nat)
    requires n < Pow10(k) && k >= 1
    ensures |ToDecimal(n)| <= k
  {
    assert Pow10(1) == 10;
    if n >= 10 {
      assert Pow10(k) == 10 * Pow10(k - 1);
      DecimalLength(n / 10, k - 1);
    }
  }

  /** A leading '0' adds nothing to the value. */
  lemma LeadingZero(s: seq<char>, lo: nat, hi: nat)
    requires lo < hi <= |s| && s[lo] == '0'
    ensures DigitsValue(s, lo, hi) == DigitsValue(s, lo + 1, hi)
  {
    ValueSplit(s, lo, lo + 1, hi);
    ValueZeros(s, lo, lo + 1);
    ZeroTimes(Pow10(hi - (lo + 1)));
  }

  lemma ZeroTimes(p: int)
    ensures 0 * p == 0
  {
  }

  /** Leading zeros: a range of digits is its value printed, padded to the range's length. */
  lemma {:induction false} StripZeros(s: seq<char>, lo: nat, hi: nat)
    requires lo < hi <= |s| && DigitsIn(s, lo, hi)
    ensures DigitsValue(s, lo, hi) >= 0 && |ToDecimal(DigitsValue(s, lo, hi))| <= hi - lo
    ensures Zeros(hi - lo - |ToDecimal(DigitsValue(s, lo, hi))|) + ToDecimal(DigitsValue(s, lo, hi)) == s[lo..hi]
    decreases hi - lo
  {
    if s[lo] != '0' || hi - lo == 1 {
      ToDecimalValue(s, lo, hi);
      assert Zeros(0) + s[lo..hi] == s[lo..hi];
    } else {
      LeadingZero(s, lo, hi);
      StripZeros(s, lo + 1, hi);
      var t := ToDecimal(DigitsValue(s, lo, hi));
      var k := hi - (lo + 1) - |t|;
      assert Zeros(k + 1) == ['0'] + Zeros(k);
      assert s[lo..hi] == [s[lo]] + s[lo + 1..hi];
    }
  }

  /** A padded limb reads back as the limb. */
  lemma PaddedValue(x: int)
    requires 0 <= x < BASE
    ensures Stoi(Padded(x)) == x
  {
    var t := ToDecimal(x);
    var p := Padded(x);
    var z := LEN - |t|;
    assert p == Zeros(z) + t;
    ValueZeros(p, 0, z);
    ValueSplit(p, 0, z, LEN);
    ZeroTimes(Pow10(LEN - z));
    ValueSame(p, z, LEN, t, 0, |t|);
    StoiToDecimal(x);
  }

  /** At most LEN digits fit in a limb. */
  lemma ChunkBound(s: seq<char>, lo: nat, hi: nat)
    requires lo <= hi <= |s| && hi - lo <= LEN && DigitsIn(s, lo, hi)
    ensures 0 <= DigitsValue(s, lo, hi) < BASE
  {
    ValueBounds(s, lo, hi);
    Pow10Monotone(hi - lo, LEN);
    Pow10Base();
  }

  /** LEN digits read as a limb print back padded as themselves. */
  lemma PaddedStoi(s: seq<char>, lo: nat, hi: nat)
    requires lo <= hi <= |s| && hi - lo == LEN && DigitsIn(s, lo, hi)
    ensures 0 <= DigitsValue(s, lo, hi) < BASE && Padded(DigitsValue(s, lo, hi)) == s[lo..hi]
  {
    ChunkBound(s, lo, hi);
    StripZeros(s, lo, hi);
  }

  // ---------------------------------------------------------------- chunks

  /** The last LEN digits of a range are its lowest limb. */
  lemma ValueChunk(s: seq<char>, lo: nat, hi: nat)
    requires lo + LEN <= hi <= |s|
    ensures DigitsValue(s, lo, hi) == DigitsValue(s, hi - LEN, hi) + BASE * DigitsValue(s, lo, hi - LEN)
  {
    var m := hi - LEN;
    ValueSplit(s, lo, m, hi);
    var a, p := DigitsValue(s, lo, m), Pow10(hi - m);
    Pow10Base();
    assert p == BASE;
    assert a * p == BASE * a;
  }

  /** Every chunk is a limb. */
  lemma {:induction false} ChunksInRange(s: seq<char>, lo: nat, hi: nat)
    requires lo <= hi <= |s| && DigitsIn(s, lo, hi)
    ensures InRange(Chunks(s, lo, hi))
    decreases hi
  {
    if hi == lo {
    } else if hi - lo <= LEN {
      ChunkBound(s, lo, hi);
    } else {
      ChunksInRange(s, lo, hi - LEN);
      ChunkBound(s, hi - LEN, hi);
      InRangeCons(DigitsValue(s, hi - LEN, hi), Chunks(s, lo, hi - LEN));
    }
  }

  /**
   * The value of the limbs c[i..], read by index; the same as `Mag(c[i..])`
   * (`HornerMag`) but with no slice of c in it.
   */
  ghost function Horner(c: seq<int>, i: nat): int
    decreases |c| - i
  {
    if i >= |c| then 0 else c[i] + BASE * Horner(c, i + 1)
  }

  lemma {:induction false} HornerMag(c: seq<int>, i: nat)
    requires i <= |c|
    ensures Horner(c, i) == Mag(c[i..])
    decreases |c| - i
  {
    if i < |c| {
      HornerMag(c, i + 1);
      assert c[i..][1..] == c[i + 1..];
    }
  }

  lemma {:induction false} HornerShift(x: int, c: seq<int>, i: nat)
    requires i <= |c|
    ensures Horner([x] + c, i + 1) == Horner(c, i)
    decreases |c| - i
  {
    if i < |c| {
      HornerShift(x, c, i + 1);
      assert ([x] + c)[i + 1] == c[i];
    }
  }

  /** The value of the chunks is the value of the digits. */
  lemma {:induction false} ChunksHorner(s: seq<char>, lo: nat, hi: nat)
    requires lo <= hi <= |s|
    ensures Horner(Chunks(s, lo, hi), 0) == DigitsValue(s, lo, hi)
    decreases hi
  {
    if hi == lo {
    } else if hi - lo <= LEN {
      assert Horner([DigitsValue(s, lo, hi)], 1) == 0;
    } else {
      var x, c := DigitsValue(s, hi - LEN, hi), Chunks(s, lo, hi - LEN);
      assert Chunks(s, lo, hi) == [x] + c;
      ChunksHorner(s, lo, hi - LEN);
      HornerShift(x, c, 0);
      ValueChunk(s, lo, hi);
    }
  }

  lemma InRangeCons(x: int, c: seq<int>)
    requires 0 <= x < BASE && InRange(c)
    ensures InRange([x] + c)
  {
  }

  /** Chunking a range holding what `toString` prints of the limbs ds[j..k + 1] gives back those limbs. */
  lemma {:induction false} ChunksOfText(s: seq<char>, lo: nat, hi: nat, ds: seq<int>, j: nat, k: nat)
    requires lo <= hi <= |s| && j <= k < |ds| && InRange(ds)
    requires s[lo..hi] == ToDecimal(ds[k]) + LowerText(ds, j, k)
    ensures |Chunks(s, lo, hi)| == k + 1 - j
    ensures forall m | 0 <= m < k + 1 - j :: Chunks(s, lo, hi)[m] == ds[j + m]
    decreases k - j
  {
    if j == k {
      assert s[lo..hi] == ToDecimal(ds[k]);
      TopChunk(s, lo, hi, ds[k]);
    } else {
      var head := ToDecimal(ds[k]) + LowerText(ds, j + 1, k);
      assert s[lo..hi] == head + Padded(ds[j]);
      var mid := lo + |head|;
      PaddedSuffix(s, lo, mid, hi, head, ds[j]);
      ChunksOfText(s, lo, mid, ds, j + 1, k);
      LowChunk(s, lo, mid, hi);
    }
  }

  /** A range holding `to_string` of a limb is one chunk, that limb. */
  lemma TopChunk(s: seq<char>, lo: nat, hi: nat, x: int)
    requires lo <= hi <= |s| && 0 <= x < BASE
    requires s[lo..hi] == ToDecimal(x)
    ensures Chunks(s, lo, hi) == [x]
  {
    Pow10Base();
    DecimalLength(x, LEN);
    ValueSlice(s, lo, hi);
    StoiToDecimal(x);
  }

  /** A range ending in a padded limb: the limb is its last LEN digits, the rest comes before. */
  lemma PaddedSuffix(s: seq<char>, lo: nat, mid: nat, hi: nat, head: seq<char>, x: int)
    requires lo <= hi <= |s| && 0 <= x < BASE && mid == lo + |head|
    requires s[lo..hi] == head + Padded(x)
    ensures mid + LEN == hi && s[lo..mid] == head && DigitsValue(s, mid, hi) == x
  {
    var p := Padded(x);
    assert s[lo..mid] == head by {
      assert s[lo..mid] == s[lo..hi][..|head|];
    }
    assert s[mid..hi] == p by {
      assert s[mid..hi] == s[lo..hi][|head|..];
    }
    ValueSlice(s, mid, hi);
    PaddedValue(x);
  }

  /** Printing skips a limb put in front of the vector when the range moves up by one. */
  lemma {:induction false} LowerTextShift(x: int, t: seq<int>, lo: nat, hi: nat)
    requires lo <= hi <= |t| && 0 <= x < BASE && InRange(t)
    ensures InRange([x] + t) && LowerText([x] + t, lo + 1, hi + 1) == LowerText(t, lo, hi)
    decreases hi - lo
  {
    assert InRange([x] + t);
    if lo < hi {
      LowerTextShift(x, t, lo + 1, hi);
      assert ([x] + t)[lo + 1] == t[lo];
    }
  }

  /** Chunks of a range of digits without leading zeros are normalized limbs. */
  lemma {:induction false} ChunksTop(s: seq<char>, lo: nat, hi: nat)
    requires lo < hi <= |s| && DigitsIn(s, lo, hi) && (s[lo] != '0' || hi - lo == 1)
    ensures var c := Chunks(s, lo, hi);
      Normalized(c) && (s[lo] != '0' ==> c[|c| - 1] != 0)
    decreases hi
  {
    ChunksInRange(s, lo, hi);
    if hi - lo <= LEN {
      if s[lo] != '0' {
        ValueLeading(s, lo, hi);
      }
    } else {
      var mid := hi - LEN;
      var ch := Chunks(s, lo, mid);
      var c := [DigitsValue(s, mid, hi)] + ch;
      assert Chunks(s, lo, hi) == c;
      ChunksTop(s, lo, mid);
      assert c[|c| - 1] == ch[|ch| - 1];
    }
  }

  /** Printing a limb put below the others appends it, padded, to the text. */
  lemma TextCons(x: int, ch: seq<int>)
    requires 0 <= x < BASE && InRange(ch) && |ch| >= 1
    ensures InRange([x] + ch) && Body([x] + ch) == Body(ch) + Padded(x)
  {
    var c := [x] + ch;
    var k := |ch| - 1;
    assert c[k + 1] == ch[k];
    LowerTextShift(x, ch, 0, k);
    assert LowerText(c, 0, k + 1) == LowerText(ch, 0, k) + Padded(x);
  }

  /** Printing the chunks of a range of digits without leading zeros gives the range back. */
  lemma {:induction false} TextOfChunks(s: seq<char>, lo: nat, hi: nat)
    requires lo < hi <= |s| && DigitsIn(s, lo, hi) && (s[lo] != '0' || hi - lo == 1)
    ensures var c := Chunks(s, lo, hi);
      InRange(c) && |c| >= 1 && Body(c) == s[lo..hi]
    decreases hi
  {
    ChunksInRange(s, lo, hi);
    if hi - lo <= LEN {
      ToDecimalValue(s, lo, hi);
    } else {
      var mid := hi - LEN;
      var ch := Chunks(s, lo, mid);
      var x := DigitsValue(s, mid, hi);
      assert Chunks(s, lo, hi) == [x] + ch;
      TextOfChunks(s, lo, mid);
      PaddedStoi(s, mid, hi);
      TextCons(x, ch);
      assert s[lo..hi] == s[lo..mid] + s[mid..hi];
    }
  }

  // ---------------------------------------------------------- round trips

  /** The shape of what `toString` prints: a decimal whose sign and digits are those of b. */
  lemma TextShape(b: BigInteger)
    requires InRange(b.digits) && |b.digits| >= 1
    ensures var t := Text(b);
      IsDecimal(t) && (t[0] == '-' <==> b.sign == Negative) &&
      Start(t) == (if b.sign == Negative then 1 else 0) && t[Start(t)..] == Body(b.digits)
  {
    var body := Body(b.digits);
    var t := Text(b);
    if b.sign == Negative {
      assert t == ['-'] + body;
      assert t[1..] == body;
    } else {
      assert t == body;
    }
  }

  /** A decimal whose sign and digits are those of b is what `toString` prints for b. */
  lemma TextOfParts(b: BigInteger, s: seq<char>)
    requires InRange(b.digits) && |b.digits| >= 1 && |s| >= 1
    requires (s[0] == '-' <==> b.sign == Negative) && s[Start(s)..] == Body(b.digits)
    ensures Text(b) == s
  {
    if s[0] == '-' {
      assert s == ['-'] + s[1..];
    } else {
      assert s == s[0..];
    }
  }

  /** The string constructor reads back what `toString` prints. */
  lemma TextRoundTrip(b: BigInteger)
    requires InRange(b.digits) && |b.digits| >= 1
    ensures IsDecimal(Text(b)) && FromText(Text(b)) == b
  {
    TextShape(b);
    var t := Text(b);
    var n, start := |b.digits|, Start(t);
    assert t[start..|t|] == Body(b.digits);
    ChunksOfText(t, start, |t|, b.digits, 0, n - 1);
    assert Chunks(t, start, |t|) == b.digits;
  }

  /** A canonical decimal reads as a canonical BigInteger. */
  lemma ParseCanonical(s: seq<char>)
    requires CanonicalDecimal(s)
    ensures Canonical(FromText(s))
  {
    var start, size := Start(s), |s|;
    ChunksTop(s, start, size);
    var c := Chunks(s, start, size);
    assert s[0] == '-' && s[1] == '0' && size == 2 ==> s == "-0";
    assert c == [0] ==> c[|c| - 1] == 0;
  }

  /** `toString` prints back a canonical decimal the string constructor read. */
  lemma ParseRoundTrip(s: seq<char>)
    requires CanonicalDecimal(s)
    ensures Canonical(FromText(s)) && Text(FromText(s)) == s
  {
    ParseCanonical(s);
    var start, size := Start(s), |s|;
    TextOfChunks(s, start, size);
    assert s[start..] == s[start..size];
    TextOfParts(FromText(s), s);
  }

  /** The value the string constructor reads: the digits' value, negated after a '-'. */
  lemma FromTextValue(s: seq<char>)
    requires IsDecimal(s)
    ensures InRange(FromText(s).digits) && |FromText(s).digits| >= 1
    ensures Val(FromText(s)) == if s[0] == '-' then -DigitsValue(s, 1, |s|) else DigitsValue(s, 0, |s|)
  {
    var start, size := Start(s), |s|;
    ChunksInRange(s, start, size);
    ChunksHorner(s, start, size);
    var b := FromText(s);
    HornerMag(b.digits, 0);
    assert b.digits[0..] == b.digits;
    assert Val(b) == SignFactor(b.sign) * Mag(b.digits);
    SignedMag(SignFactor(b.sign), Mag(b.digits));
  }

  lemma SignedMag(f: int, m: int)
    ensures f == 1 ==> f * m == m
    ensures f == -1 ==> f * m == -m
  {
  }

  // ---------------------------------------------------------------- methods

  /**
   * `BigInteger(str, size)` with size = |str|: a leading '-' makes it
   * Negative; the digits are collected from the right into `tmp_str`
   * (reversed), and each time LEN are collected, or the first digit is
   * reached, the chunk is turned around and its value appended as a limb.
   */
  method Parse(str: seq<char>) returns (b: BigInteger)
    requires IsDecimal(str)
    ensures b == FromText(str)
    ensures Val(b) == if str[0] == '-' then -DigitsValue(str, 1, |str|) else DigitsValue(str, 0, |str|)
  {
    var sign := Positive;
    var stop := 0;
    if str[0] == '-' {
      sign := Negative;
      stop := 1;
    }
    var digits := ReadLimbs(str, stop);
    b := BigInteger(digits, sign);
    FromTextValue(str);
  }

  /**
   * The loop of the string constructor: str[stop..] is walked from the
   * right, each digit pushed onto `tmp_str`, and a limb made of it each
   * time it holds LEN digits or the first digit has been pushed.
   */
  method ReadLimbs(str: seq<char>, stop: nat) returns (digits: seq<int>)
    requires stop <= |str|
    ensures digits == Chunks(str, stop, |str|)
  {
    var size := |str|;
    digits := [];
    var tmp: seq<char> := [];
    var i := size;
    ghost var end := size;
    while i > stop
      invariant stop <= i <= end <= size && end == i + |tmp| && |tmp| < LEN
      invariant forall k | 0 <= k < |tmp| :: tmp[k] == str[end - 1 - k]
      invariant i == stop ==> tmp == []
      invariant (size - end) % 9 == 0 || end == stop
      invariant digits == Chunks(str, end, size)
    {
      ghost var prev := tmp;
      tmp := tmp + [str[i - 1]];
      TmpStep(str, end, i, prev, tmp);
      if |tmp| >= LEN || i == stop + 1 {
        digits := PushChunk(str, i - 1, end, tmp, digits);
        ChunksSnoc(str, i - 1, end, size);
        tmp := [];
        end := i - 1;
      }
      i := i - 1;
    }
  }

  /** Pushing str[i - 1] onto `tmp_str` keeps it the digits below `end`, backwards. */
  lemma TmpStep(str: seq<char>, end: nat, i: nat, prev: seq<char>, tmp: seq<char>)
    requires 1 <= i && end == i + |prev| <= |str| && tmp == prev + [str[i - 1]]
    requires forall k | 0 <= k < |prev| :: prev[k] == str[end - 1 - k]
    ensures forall k | 0 <= k < |tmp| :: tmp[k] == str[end - 1 - k]
  {
  }

  /**
   * The body of the `if` in the string constructor's loop: `tmp_str`,
   * holding str[lo..hi] backwards, is turned around and its value
   * appended to the limbs.
   */
  method PushChunk(str: seq<char>, lo: nat, ghost hi: nat, tmp: seq<char>, digits: seq<int>)
    returns (digits': seq<int>)
    requires lo <= hi <= |str| && hi - lo == |tmp|
    requires forall k | 0 <= k < |tmp| :: tmp[k] == str[hi - 1 - k]
    ensures digits' == digits + [DigitsValue(str, lo, hi)]
  {
    var chunk := Reversed(tmp);
    ReversedChunk(str, lo, hi, tmp, chunk);
    digits' := digits + [Stoi(chunk)];
  }

  lemma ConcatAssoc<T>(a: seq<T>, b: seq<T>, c: seq<T>)
    ensures a + (b + c) == (a + b) + c
  {
  }

  /** The turned-around `tmp_str` reads as the digits it was collected from. */
  lemma ReversedChunk(str: seq<char>, lo: nat, hi: nat, tmp: seq<char>, chunk: seq<char>)
    requires lo <= hi <= |str| && hi - lo == |tmp|
    requires forall k | 0 <= k < |tmp| :: tmp[k] == str[hi - 1 - k]
    requires chunk == Reversed(tmp)
    ensures Stoi(chunk) == DigitsValue(str, lo, hi)
  {
    ValueSame(chunk, 0, |chunk|, str, lo, hi);
  }

  /**
   * Chunks are cut from the right, so when the digits above mid make whole
   * chunks, the digits below it (at most LEN of them) are the last chunk.
   */
  lemma {:induction false} ChunksSnoc(s: seq<char>, lo: nat, mid: nat, hi: nat)
    requires lo < mid <= hi <= |s| && mid - lo <= LEN && (hi - mid) % 9 == 0
    ensures Chunks(s, lo, hi) == Chunks(s, mid, hi) + [DigitsValue(s, lo, mid)]
    decreases hi
  {
    if hi == mid {
      assert Chunks(s, mid, hi) == [];
    } else {
      ChunksSnoc(s, lo, mid, hi - 9);
      var x := DigitsValue(s, hi - 9, hi);
      assert Chunks(s, lo, hi) == [x] + Chunks(s, lo, hi - 9);
      assert Chunks(s, mid, hi) == [x] + Chunks(s, mid, hi - 9);
      ConcatAssoc([x], Chunks(s, mid, hi - 9), [DigitsValue(s, lo, mid)]);
    }
  }

  /** A longer range gives its last LEN digits as its lowest chunk. */
  lemma LowChunk(s: seq<char>, lo: nat, mid: nat, hi: nat)
    requires lo < mid && mid + LEN == hi <= |s|
    ensures Chunks(s, lo, hi) == [DigitsValue(s, mid, hi)] + Chunks(s, lo, mid)
  {
  }

  /** One step of `toString`'s loop: `to_string` of the limb, left-padded with '0' to LEN digits. */
  method AppendPadded(r: seq<char>, x: int) returns (r': seq<char>)
    requires 0 <= x < BASE
    ensures r' == r + Padded(x)
  {
    var tmp := ToDecimal(x);
    Pow10Base();
    DecimalLength(x, LEN);
    r' := r + Zeros(LEN - |tmp|) + tmp;
    ConcatAssoc(r, Zeros(LEN - |tmp|), tmp);
  }

  /**
   * `toString`: '-' when Negative, `to_string` of the top limb, then from
   * the next limb down each one zero-padded to LEN digits.
   */
  method ToString(b: BigInteger) returns (r: seq<char>)
    requires InRange(b.digits) && |b.digits| >= 1
    ensures r == Text(b)
    ensures IsDecimal(r) && FromText(r) == b
  {
    var n := |b.digits|;
    r := [];
    if b.sign == Negative {
      r := r + "-";
    }
    ghost var sign := r;
    r := r + ToDecimal(b.digits[n - 1]);
    ghost var head := r;
    var i := n;
    while i > 1
      invariant 1 <= i <= n
      invariant r == head + LowerText(b.digits, i - 1, n - 1)
    {
      r := AppendPadded(r, b.digits[i - 2]);
      ConcatAssoc(head, LowerText(b.digits, i - 1, n - 1), Padded(b.digits[i - 2]));
      i := i - 1;
    }
    ConcatAssoc(sign, ToDecimal(b.digits[n - 1]), LowerText(b.digits, 0, n - 1));
    TextRoundTrip(b);
  }
}
