/** The multiprecision floating format of libbench/mp.c: LEN digits in base RADIX, a sign and
    an exponent, with truncating addition, subtraction and multiplication.
  */
module Multiprecision {

  const LEN := 10
  const RADIX := 65536
  const ZEROEXP := -32768

  /** One more than the largest accumulator (a 64-bit unsigned long). */
  const ACCMOD := 0x1_0000_0000_0000_0000

  /** Digit d[0] is the least significant. */
  datatype Number = Number(sign: int, expt: int, d: seq<nat>)

  const ZERO := Number(1, ZEROEXP, [0, 0, 0, 0, 0, 0, 0, 0, 0, 0])

  // LO and HI of an accumulator (libbench/mp.c:13-14)
  function Lo(r: nat): nat { r % RADIX }

  function Hi(r: nat): nat { r / RADIX }

  /** libbench/mp.c:15-16, in wrap-around arithmetic */
  function HiSigned(r: nat): nat {
    ((r + RADIX / 2 * RADIX) % ACCMOD / RADIX - RADIX / 2) % ACCMOD
  }

  /** The accumulator that stands for a signed number. */
  function Wrap(v: int): nat { v % ACCMOD }

  predicate Digits(d: seq<nat>) {
    forall i :: 0 <= i < |d| ==> d[i] < RADIX
  }

  predicate WellFormed(a: Number) {
    |a.d| == LEN && Digits(a.d) && (a.sign == 1 || a.sign == -1)
  }

  /** The canonical zero (of either sign), or a number with a nonzero top digit. */
  predicate Normalised(a: Number) {
    WellFormed(a) && (a.d[LEN - 1] != 0 || (a.d == ZERO.d && a.expt == ZEROEXP))
  }

  /** ... whose exponent has not reached the one reserved for zero. */
  predicate Normal(a: Number) {
    Normalised(a) && (a.d[LEN - 1] != 0 ==> a.expt > ZEROEXP)
  }

  // ----- digits and their value -----

  function RadixPower(k: nat): (n: nat)
    ensures n > 0
  {
    if k == 0 then 1 else RADIX * RadixPower(k - 1)
  }

  /** v moved up by k digits. */
  function Shift(v: int, k: nat): int { v * RadixPower(k) }

  lemma {:induction false} ShiftShift(v: int, j: nat, k: nat)
    ensures Shift(Shift(v, j), k) == Shift(v, j + k)
  {
    if k > 0 {
      ShiftShift(v, j, k - 1);
      ShiftStep(Shift(v, j), k - 1);
      ShiftStep(v, j + k - 1);
      hide Shift;
    }
  }

  lemma ShiftStep(v: int, k: nat)
    ensures Shift(v, k + 1) == RADIX * Shift(v, k)
    ensures Shift(RADIX * v, k) == Shift(v, k + 1)
  {
    var p := RadixPower(k);
    assert v * (RADIX * p) == RADIX * (v * p) == RADIX * v * p;
  }

  lemma ShiftZero(v: int)
    ensures Shift(v, 0) == v
  {}

  lemma ShiftAdd(v: int, w: int, k: nat)
    ensures Shift(v + w, k) == Shift(v, k) + Shift(w, k)
    ensures Shift(v - w, k) == Shift(v, k) - Shift(w, k)
    ensures Shift(0, k) == 0
  {}

  lemma ShiftMonotone(v: int, w: int, k: nat)
    requires v <= w
    ensures Shift(v, k) <= Shift(w, k)
    ensures v < w ==> Shift(v, k) < Shift(w, k)
  {}

  lemma ShiftMul(v: int, w: int, k: nat)
    ensures Shift(v * w, k) == v * Shift(w, k)
  {
    var p := RadixPower(k);
    assert v * w * p == v * (w * p);
  }

  /** The number that a sequence of digits writes. */
  function Mantissa(d: seq<nat>): int {
    if d == [] then 0
    else Mantissa(d[..|d| - 1]) + Shift(d[|d| - 1], |d| - 1)
  }

  lemma MantissaEmpty(d: seq<nat>)
    ensures Mantissa(d[..0]) == 0
  {}

  lemma MantissaLast(d: seq<nat>, k: nat)
    requires k < |d|
    ensures Mantissa(d[..k + 1]) == Mantissa(d[..k]) + Shift(d[k], k)
  {
    hide Shift;
    assert d[..k + 1][..k] == d[..k];
  }

  lemma {:induction false} MantissaBound(d: seq<nat>)
    requires Digits(d)
    ensures 0 <= Mantissa(d) < Shift(1, |d|)
  {
    if d == [] {
      ShiftZero(1);
    } else {
      hide Mantissa, Shift;
      var n := |d| - 1;
      MantissaBound(d[..n]);
      MantissaLast(d, n);
      assert d[..n + 1] == d;
      ShiftMonotone(d[n] + 1, RADIX, n);
      ShiftAdd(d[n], 1, n);
      ShiftStep(1, n);
      ShiftMonotone(0, d[n], n);
      ShiftAdd(0, 0, n);
    }
  }

  /** Low digits and high digits. */
  lemma {:induction false} MantissaSplit(d: seq<nat>, k: nat)
    requires k <= |d|
    ensures Mantissa(d) == Mantissa(d[..k]) + Shift(Mantissa(d[k..]), k)
    decreases |d| - k
  {
    hide Mantissa, Shift;
    if k == |d| {
      MantissaEmpty(d[k..]);
      ShiftAdd(0, 0, k);
      assert d[..k] == d && d[k..] == d[k..][..0];
    } else {
      var n := |d| - 1;
      var high := d[k..];
      MantissaSplit(d[..n], k);
      assert d[..n][..k] == d[..k] && d[..n][k..] == high[..n - k];
      MantissaLast(high, n - k);
      assert high[..n - k + 1] == high && high[n - k] == d[n];
      MantissaLast(d, n);
      assert d[..n + 1] == d;
      ShiftAdd(Mantissa(high[..n - k]), Shift(d[n], n - k), k);
      ShiftShift(d[n], n - k, k);
    }
  }

  /** Dropping k low digits divides by RADIX^k and rounds down. */
  lemma MantissaDrop(d: seq<nat>, k: nat)
    requires Digits(d) && k <= |d|
    ensures Shift(Mantissa(d[k..]), k) <= Mantissa(d) < Shift(Mantissa(d[k..]) + 1, k)
  {
    hide Mantissa, Shift;
    MantissaSplit(d, k);
    MantissaBound(d[..k]);
    ShiftAdd(Mantissa(d[k..]), 1, k);
  }

  lemma {:induction false} MantissaZeros(d: seq<nat>)
    requires forall i :: 0 <= i < |d| ==> d[i] == 0
    ensures Mantissa(d) == 0
  {
    if d != [] {
      MantissaZeros(d[..|d| - 1]);
      ShiftAdd(0, 0, |d| - 1);
      hide Shift;
    }
  }

  // ----- comparison -----

  lemma CompareAt(a: seq<nat>, b: seq<nat>, i: nat)
    requires |a| == |b| && Digits(a) && Digits(b) && i < |a|
    requires (forall q :: i < q < |a| ==> a[q] == b[q]) && a[i] < b[i]
    ensures Mantissa(a) < Mantissa(b)
  {
    hide Mantissa, Shift;
    assert a[i + 1..] == b[i + 1..];
    MantissaSplit(a, i + 1);
    MantissaSplit(b, i + 1);
    MantissaLast(a, i);
    MantissaLast(b, i);
    MantissaBound(a[..i]);
    MantissaBound(b[..i]);
    ShiftMonotone(a[i] + 1, b[i], i);
    ShiftAdd(a[i], 1, i);
  }

  /** abscmp(a, b) > 0 */
  predicate Larger(a: Number, b: Number) {
    a.expt > b.expt || (a.expt == b.expt && Mantissa(a.d) > Mantissa(b.d))
  }

  /** libbench/mp.c:108-120: the comparison of exponents and then digits orders the magnitudes of
      normal numbers. */
  method AbsCmp(a: Number, b: Number) returns (c: int)
    requires WellFormed(a) && WellFormed(b)
    ensures c == 1 || c == -1 || c == 0
    ensures c == 1 <==> Larger(a, b)
    ensures c == -1 <==> Larger(b, a)
    ensures c == 0 <==> a.expt == b.expt && a.d == b.d
    ensures Normal(a) && Normal(b) ==>
              && (c == 1 <==> Magnitude(a) > Magnitude(b))
              && (c == 0 <==> Magnitude(a) == Magnitude(b))
  {
    c := CompareDigits(a, b);
    hide Mantissa, Normal, Magnitude;
    if Normal(a) && Normal(b) {
      if c == 1 {
        MagnitudeOrder(a, b);
      } else if c == -1 {
        MagnitudeOrder(b, a);
      } else {
        SameMagnitude(a, b);
      }
    }
  }

  /** The comparison itself, for numbers that need not be normalised. */
  method CompareDigits(a: Number, b: Number) returns (c: int)
    requires WellFormed(a) && WellFormed(b)
    ensures c == 1 || c == -1 || c == 0
    ensures c == 1 <==> Larger(a, b)
    ensures c == -1 <==> Larger(b, a)
    ensures c == 0 <==> a.expt == b.expt && a.d == b.d
  {
    hide Mantissa, Shift;
    if a.expt > b.expt { return 1; }
    if a.expt < b.expt { return -1; }
    var i := LEN - 1;
    while i >= 0
      invariant -1 <= i < LEN && forall q :: i < q < LEN ==> a.d[q] == b.d[q]
    {
      if a.d[i] > b.d[i] {
        CompareAt(b.d, a.d, i);
        return 1;
      }
      if a.d[i] < b.d[i] {
        CompareAt(a.d, b.d, i);
        return -1;
      }
      i := i - 1;
    }
    assert a.d == b.d;
    return 0;
  }

  // ----- normalisation -----

  /** c is the number v * RADIX^(e - l), which has n digits, cut to its first LEN digits. */
  predicate PackedAt(c: Number, v: int, e: int, s: int, l: nat, n: nat) {
    && 1 <= n <= l
    && Shift(1, n - 1) <= v < Shift(1, n)
    && WellFormed(c) && c.d[LEN - 1] != 0
    && c.sign == s && c.expt == e - l + n
    && (n >= LEN ==> Shift(Mantissa(c.d), n - LEN) <= v < Shift(Mantissa(c.d) + 1, n - LEN))
    && (n <= LEN ==> Mantissa(c.d) == Shift(v, LEN - n))
  }

  ghost predicate Packed(c: Number, v: int, e: int, s: int, l: nat) {
    if v == 0 then c == ZERO else exists n: nat :: PackedAt(c, v, e, s, l, n)
  }

  lemma PackedIntro(c: Number, v: int, e: int, s: int, l: nat, n: nat)
    requires PackedAt(c, v, e, s, l, n)
    ensures Packed(c, v, e, s, l)
  {
    ShiftMonotone(0, 1, n - 1);
    ShiftAdd(0, 0, n - 1);
    hide Shift;
  }

  /** The digits above n are zero and digit n - 1 is not. */
  lemma LeadingDigit(d: seq<nat>, n: nat)
    requires Digits(d) && 1 <= n <= |d| && d[n - 1] != 0 && forall q :: n <= q < |d| ==> d[q] == 0
    ensures Mantissa(d) == Mantissa(d[..n])
    ensures Shift(1, n - 1) <= Mantissa(d) < Shift(1, n)
  {
    hide Mantissa, Shift;
    MantissaSplit(d, n);
    MantissaZeros(d[n..]);
    ShiftAdd(0, 0, n);
    MantissaBound(d[..n]);
    MantissaLast(d, n - 1);
    MantissaBound(d[..n - 1]);
    ShiftMonotone(1, d[n - 1], n - 1);
  }

  lemma PackCut(d: seq<nat>, c: Number, e: int, s: int, n: nat)
    requires Digits(d) && LEN <= n <= |d| && d[n - 1] != 0 && (forall q :: n <= q < |d| ==> d[q] == 0)
    requires (s == 1 || s == -1) && c == Number(s, e - |d| + n, d[n - LEN..n])
    ensures PackedAt(c, Mantissa(d), e, s, |d|, n)
  {
    hide Mantissa, Shift;
    LeadingDigit(d, n);
    MantissaDrop(d[..n], n - LEN);
    assert d[..n][n - LEN..] == c.d;
    ShiftZero(Mantissa(d));
    ShiftZero(Mantissa(c.d));
    ShiftZero(Mantissa(c.d) + 1);
  }

  lemma PackFill(d: seq<nat>, c: Number, e: int, s: int, n: nat)
    requires Digits(d) && 1 <= n < LEN && n <= |d| && d[n - 1] != 0 && (forall q :: n <= q < |d| ==> d[q] == 0)
    requires (s == 1 || s == -1) && WellFormed(c) && c.sign == s && c.expt == e - |d| + n
    requires forall j :: 0 <= j < LEN ==> c.d[j] == if j < LEN - n then 0 else d[j - (LEN - n)]
    ensures PackedAt(c, Mantissa(d), e, s, |d|, n)
  {
    hide Mantissa, Shift;
    LeadingDigit(d, n);
    MantissaSplit(c.d, LEN - n);
    MantissaZeros(c.d[..LEN - n]);
    assert c.d[LEN - n..] == d[..n];
  }

  lemma PackedZero(e: int, s: int, l: nat)
    ensures Packed(ZERO, 0, e, s, l)
  {}

  /** The first LEN digits below n, or all of them on top of zeros (libbench/mp.c:94-102). */
  method LeadingDigits(d: array<nat>, n: nat) returns (ad: array<nat>)
    requires 1 <= n <= d.Length
    ensures fresh(ad) && ad.Length == LEN
    ensures n >= LEN ==> ad[..] == d[n - LEN..n]
    ensures n < LEN ==> forall q :: 0 <= q < LEN ==> ad[q] == if q < LEN - n then 0 else d[q - (LEN - n)]
  {
    ad := new nat[LEN];
    var i, j := n - 1, LEN - 1;
    if i >= LEN - 1 {
      while j >= 0
        invariant -1 <= j < LEN && i == n - 1 - (LEN - 1 - j)
        invariant forall q :: j < q < LEN ==> ad[q] == d[q + (n - LEN)]
      {
        ad[j] := d[i];
        i, j := i - 1, j - 1;
      }
    } else {
      while i >= 0
        invariant -1 <= i <= j < LEN && i == n - 1 - (LEN - 1 - j)
        invariant forall q :: j < q < LEN ==> ad[q] == d[q - (LEN - n)]
      {
        ad[j] := d[i];
        i, j := i - 1, j - 1;
      }
      while j >= 0
        invariant -1 <= j < LEN - n
        invariant forall q :: j < q < LEN ==> ad[q] == if q < LEN - n then 0 else d[q - (LEN - n)]
      {
        ad[j] := 0;
        j := j - 1;
      }
    }
  }

  /** libbench/mp.c:79-104 */
  method Pack(d: array<nat>, e: int, s: int, l: nat) returns (c: Number)
    requires d.Length == l && Digits(d[..]) && (s == 1 || s == -1)
    ensures Packed(c, Mantissa(d[..]), e, s, l)
  {
    hide Mantissa, PackedAt, Packed, Shift;
    var i, e' := l - 1, e;
    while i >= 0 && d[i] == 0
      invariant -1 <= i < l && e' == e - (l - 1 - i)
      invariant forall q :: i < q < l ==> d[q] == 0
    {
      i, e' := i - 1, e' - 1;
    }
    if i < 0 {
      MantissaZeros(d[..]);
      PackedZero(e, s, l);
      return ZERO;
    }
    var n := i + 1;
    var ad := LeadingDigits(d, n);
    c := Number(s, e', ad[..]);
    if n >= LEN {
      PackCut(d[..], c, e, s, n);
    } else {
      PackFill(d[..], c, e, s, n);
    }
    PackedIntro(c, Mantissa(d[..]), e, s, l, n);
  }

  // ----- addition and subtraction of magnitudes -----

  /** The mantissa of b after its k low digits fall away. */
  function Aligned(b: Number, k: nat): int {
    if k >= |b.d| then 0 else Mantissa(b.d[k..])
  }

  /** The digit of b that meets digit i of the larger operand. */
  function AlignedDigit(b: Number, k: nat, i: nat): nat {
    if i + k < |b.d| then b.d[i + k] else 0
  }

  /** The value of the first i aligned digits. */
  function AlignedPrefix(b: Number, k: nat, i: nat): int {
    if i == 0 then 0 else AlignedPrefix(b, k, i - 1) + Shift(AlignedDigit(b, k, i - 1), i - 1)
  }

  lemma {:induction false} AlignedPrefixInside(b: Number, k: nat, i: nat)
    requires k + i <= |b.d|
    ensures AlignedPrefix(b, k, i) == Mantissa(b.d[k..k + i])
  {
    hide Shift, Mantissa;
    var s := b.d[k..k + i];
    if i > 0 {
      AlignedPrefixInside(b, k, i - 1);
      assert s[i - 1] == b.d[k + (i - 1)] == AlignedDigit(b, k, i - 1);
      MantissaLast(s, i - 1);
      assert s[..i - 1] == b.d[k..k + (i - 1)] && s[..i] == s;
    } else {
      MantissaEmpty(s);
      assert s[..0] == s;
    }
  }

  lemma {:induction false} AlignedPrefixAll(b: Number, k: nat, i: nat)
    requires i + k >= |b.d|
    ensures AlignedPrefix(b, k, i) == Aligned(b, k)
  {
    hide Shift;
    if k <= |b.d| && i == |b.d| - k {
      AlignedPrefixInside(b, k, i);
      assert b.d[k..k + i] == b.d[k..];
      MantissaEmpty(b.d[k..]);
      assert k == |b.d| ==> b.d[k..] == b.d[k..][..0];
    } else if i > 0 {
      AlignedPrefixAll(b, k, i - 1);
      ShiftAdd(0, 0, i - 1);
    }
  }

  /** One digit of a sum with carry r. */
  lemma CarryDigit(i: nat, sum: int, r: int, x: int, y: int, low: int, high: int)
    requires sum == low + RADIX * high && sum == r + x + y
    ensures Shift(low, i) + Shift(high, i + 1) == Shift(r, i) + Shift(x, i) + Shift(y, i)
  {
    ShiftStep(high, i);
    ShiftAdd(low, RADIX * high, i);
    ShiftAdd(r, x, i);
    ShiftAdd(r + x, y, i);
    hide Shift;
  }

  /** The next digit is stored above those below i. */
  method StoreDigit(d: array<nat>, i: nat, v: nat)
    requires i < d.Length && v < RADIX && Digits(d[..])
    modifies d
    ensures Digits(d[..]) && Mantissa(d[..i + 1]) == old(Mantissa(d[..i])) + Shift(v, i)
  {
    hide Mantissa, Shift;
    ghost var before := d[..i];
    d[i] := v;
    MantissaLast(d[..], i);
    assert d[..][..i + 1] == d[..i + 1] && d[..][..i] == before;
  }

  /** The carry of a sum of two digits is at most 1. */
  lemma SumDigit(r: nat, x: nat, y: nat)
    requires r <= 1 && x < RADIX && y < RADIX
    ensures var v := r + x + y; v == Lo(v) + RADIX * Hi(v) && Lo(v) < RADIX && Hi(v) <= 1
  {}

  /** libbench/mp.c:128-146 */
  method AddMag0(s: int, a: Number, b: Number) returns (c: Number)
    requires WellFormed(a) && WellFormed(b) && a.expt >= b.expt && (s == 1 || s == -1)
    ensures Packed(c, Mantissa(a.d) + Aligned(b, a.expt - b.expt), a.expt + 1, s * a.sign, LEN + 1)
  {
    hide Mantissa, Shift, Packed, Lo, Hi, Aligned, RadixPower;
    ghost var k := a.expt - b.expt;
    var d := new nat[LEN + 1](_ => 0);
    var r, ia, ib := 0, 0, a.expt - b.expt;
    MantissaEmpty(a.d);
    MantissaEmpty(d[..]);
    ShiftAdd(0, 0, 0);
    while ib < LEN
      invariant 0 <= ia <= LEN && ib == k + ia && 0 <= r <= 1 && Digits(d[..])
      invariant ia > 0 ==> ib <= LEN
      invariant Mantissa(d[..ia]) + Shift(r, ia) == Mantissa(a.d[..ia]) + AlignedPrefix(b, k, ia)
      decreases LEN - ia
    {
      ghost var r0 := r;
      r := r + a.d[ia] + b.d[ib];
      SumDigit(r0, a.d[ia], b.d[ib]);
      CarryDigit(ia, r, r0, a.d[ia], b.d[ib], Lo(r), Hi(r));
      MantissaLast(a.d, ia);
      StoreDigit(d, ia, Lo(r));
      r := Hi(r);
      ia, ib := ia + 1, ib + 1;
    }
    while ia < LEN
      invariant 0 <= ia <= LEN && k + ia >= LEN && 0 <= r <= 1 && Digits(d[..])
      invariant Mantissa(d[..ia]) + Shift(r, ia) == Mantissa(a.d[..ia]) + AlignedPrefix(b, k, ia)
    {
      ghost var r0 := r;
      r := r + a.d[ia];
      SumDigit(r0, a.d[ia], 0);
      CarryDigit(ia, r, r0, a.d[ia], 0, Lo(r), Hi(r));
      MantissaLast(a.d, ia);
      StoreDigit(d, ia, Lo(r));
      r := Hi(r);
      ia := ia + 1;
    }
    LoSmall(r);
    StoreDigit(d, ia, Lo(r));
    assert d[..ia + 1] == d[..] && a.d[..LEN] == a.d;
    AlignedPrefixAll(b, k, LEN);
    c := Pack(d, a.expt + 1, s * a.sign, LEN + 1);
  }

  /** One digit of a difference in wrap-around arithmetic: the borrow is a floor division. */
  lemma BorrowDigit(borrow: int, x: nat, y: nat)
    requires -1 <= borrow <= 0 && x < RADIX && y < RADIX
    ensures var v := borrow + x - y;
            && (Wrap(borrow) + x - y) % ACCMOD == Wrap(v)
            && Lo(Wrap(v)) == v % RADIX
            && HiSigned(Wrap(v)) == Wrap(v / RADIX)
            && -1 <= v / RADIX <= 0
  {
    var v := borrow + x - y;
    if v >= 0 {
      assert Wrap(v) == v;
    } else {
      assert Wrap(v) == ACCMOD + v;
    }
  }

  /** What LEN digits show of a difference whose last borrow is lost. */
  function Borrowed(v: int): int { if v >= 0 then v else v + Shift(1, LEN) }

  /** libbench/mp.c:154-172 */
  method SubMag0(s: int, a: Number, b: Number) returns (c: Number)
    requires WellFormed(a) && WellFormed(b) && a.expt >= b.expt && (s == 1 || s == -1)
    ensures Packed(c, Borrowed(Mantissa(a.d) - Aligned(b, a.expt - b.expt)), a.expt, s * a.sign, LEN)
  {
    hide Mantissa, Shift, Packed, HiSigned, Wrap, Lo, Borrowed;
    ghost var k := a.expt - b.expt;
    var d := new nat[LEN](_ => 0);
    var r, ia, ib := 0, 0, a.expt - b.expt;
    ghost var borrow := 0;
    WrapZero();
    MantissaEmpty(a.d);
    MantissaEmpty(d[..]);
    ShiftAdd(0, 0, 0);
    while ib < LEN
      invariant 0 <= ia <= LEN && ib == k + ia && Digits(d[..])
      invariant ia > 0 ==> ib <= LEN
      invariant -1 <= borrow <= 0 && r == Wrap(borrow)
      invariant Mantissa(d[..ia]) + Shift(borrow, ia) == Mantissa(a.d[..ia]) - AlignedPrefix(b, k, ia)
      decreases LEN - ia
    {
      BorrowDigit(borrow, a.d[ia], b.d[ib]);
      var v := (r + a.d[ia] - b.d[ib]) % ACCMOD;
      ghost var next := (borrow + a.d[ia] - b.d[ib]) / RADIX;
      BorrowValue(ia, borrow, a.d[ia], b.d[ib], Lo(v), next);
      MantissaLast(a.d, ia);
      StoreDigit(d, ia, Lo(v));
      r, borrow := HiSigned(v), next;
      ia, ib := ia + 1, ib + 1;
    }
    while ia < LEN
      invariant 0 <= ia <= LEN && k + ia >= LEN && Digits(d[..])
      invariant -1 <= borrow <= 0 && r == Wrap(borrow)
      invariant Mantissa(d[..ia]) + Shift(borrow, ia) == Mantissa(a.d[..ia]) - AlignedPrefix(b, k, ia)
    {
      BorrowDigit(borrow, a.d[ia], 0);
      var v := (r + a.d[ia]) % ACCMOD;
      ghost var next := (borrow + a.d[ia]) / RADIX;
      BorrowValue(ia, borrow, a.d[ia], 0, Lo(v), next);
      MantissaLast(a.d, ia);
      StoreDigit(d, ia, Lo(v));
      r, borrow := HiSigned(v), next;
      ia := ia + 1;
    }
    AlignedPrefixAll(b, k, LEN);
    assert a.d[..LEN] == a.d && d[..LEN] == d[..];
    FinalBorrow(Mantissa(d[..]), borrow, Mantissa(a.d) - Aligned(b, k), d[..]);
    c := Pack(d, a.expt, s * a.sign, LEN);
  }

  lemma WrapZero()
    ensures Wrap(0) == 0
  {}

  lemma BorrowValue(i: nat, borrow: int, x: nat, y: nat, low: int, next: int)
    requires borrow + x - y == low + RADIX * next
    ensures Shift(low, i) + Shift(next, i + 1) == Shift(borrow, i) + Shift(x, i) - Shift(y, i)
  {
    ShiftStep(next, i);
    ShiftAdd(low, RADIX * next, i);
    ShiftAdd(borrow, x, i);
    ShiftAdd(borrow + x, y, i);
    hide Shift;
  }

  /** The larger magnitude stays above the aligned smaller one. */
  lemma AlignedBelow(a: Number, b: Number, k: nat)
    requires WellFormed(a) && WellFormed(b)
    requires k == 0 ==> Mantissa(a.d) >= Mantissa(b.d)
    requires k > 0 ==> Mantissa(a.d) >= Shift(1, LEN - 1)
    ensures Mantissa(a.d) >= Aligned(b, k) >= 0
  {
    hide Mantissa, Shift;
    MantissaBound(a.d);
    if k == 0 {
      assert b.d[0..] == b.d;
      MantissaBound(b.d);
    } else if k < LEN {
      MantissaBound(b.d[k..]);
      ShiftGrows(LEN - k, LEN - 1);
    }
  }

  lemma {:induction false} ShiftGrows(j: nat, k: nat)
    requires j <= k
    ensures Shift(1, j) <= Shift(1, k)
  {
    if j < k {
      ShiftGrows(j, k - 1);
      ShiftStep(1, k - 1);
      ShiftMonotone(0, 1, k - 1);
      ShiftAdd(0, 0, k - 1);
    }
    hide Shift;
  }

  lemma FinalBorrow(m: int, borrow: int, v: int, d: seq<nat>)
    requires Digits(d) && |d| == LEN && m == Mantissa(d) && -1 <= borrow <= 0
    requires m + Shift(borrow, LEN) == v
    ensures m == Borrowed(v)
  {
    hide Mantissa, Shift;
    MantissaBound(d);
    ShiftAdd(0, 1, LEN);
  }

  // ----- multiplication -----

  /** One digit of a row: the accumulator never reaches 2^32. */
  lemma RowDigit(k: nat, r: nat, x: nat, y: nat, z: nat)
    requires r < RADIX && x < RADIX && y < RADIX && z < RADIX
    ensures var v := r + x * y + z;
            && 0 <= v < 0x1_0000_0000 && Hi(v) < RADIX
            && Shift(Lo(v), k) + Shift(Hi(v), k + 1) == Shift(r, k) + Shift(x * y, k) + Shift(z, k)
  {
    hide Shift;
    var v := r + x * y + z;
    RowBound(x, y);
    CarryDigit(k, v, r, x * y, z, Lo(v), Hi(v));
  }

  lemma RowBound(x: nat, y: nat)
    requires x < RADIX && y < RADIX
    ensures 0 <= x * y <= (RADIX - 1) * (RADIX - 1)
  {
    var m := RADIX - 1;
    hide RADIX;
    Product(0, x, y);
    Product(x, m, y);
    Product(y, m, m);
    assert m * y == y * m;
  }

  lemma Product(a: int, b: int, c: int)
    requires a <= b && c >= 0
    ensures a * c <= b * c
  {}

  /** libbench/mp.c:199-210, one row: d grows by x times b, moved up by i digits. */
  method MulRow(d: array<nat>, b: Number, i: nat, x: nat)
    requires WellFormed(b) && d.Length == 2 * LEN && Digits(d[..]) && i < LEN && x < RADIX
    requires forall q :: i + LEN <= q < 2 * LEN ==> d[q] == 0
    modifies d
    ensures Digits(d[..])
    ensures forall q :: i + LEN + 1 <= q < 2 * LEN ==> d[q] == 0
    ensures Mantissa(d[..]) == old(Mantissa(d[..])) + Shift(x * Mantissa(b.d), i)
  {
    hide Mantissa, Shift, Lo, Hi;
    ghost var d0 := d[..];
    var r, j, k := 0, 0, i;
    MantissaEmpty(b.d);
    ShiftAdd(0, 0, i);
    assert x * 0 == 0;
    while j < LEN
      invariant 0 <= j <= LEN && k == i + j && 0 <= r < RADIX && Digits(d[..])
      invariant forall q :: k <= q < 2 * LEN ==> d[q] == d0[q]
      invariant Mantissa(d[..k]) + Shift(r, k) == Mantissa(d0[..k]) + Shift(x * Mantissa(b.d[..j]), i)
    {
      RowDigit(k, r, x, b.d[j], d[k]);
      var v := r + x * b.d[j] + d[k];
      RowProduct(x, b.d, i, j);
      MantissaLast(d0, k);
      ghost var before := d[..k];
      LoSmall(v);
      d[k] := Lo(v);
      MantissaLast(d[..], k);
      assert d[..][..k + 1] == d[..k + 1] && d[..][..k] == before;
      r := Hi(v);
      j, k := j + 1, k + 1;
    }
    ghost var before := d[..k];
    MantissaLast(d0, k);
    ShiftAdd(0, 0, k);
    LoSmall(r);
    d[k] := Lo(r);
    MantissaLast(d[..], k);
    assert d[..][..k + 1] == d[..k + 1] && d[..][..k] == before && b.d[..LEN] == b.d;
    MantissaSplit(d0, k + 1);
    MantissaSplit(d[..], k + 1);
    assert d0[k + 1..] == d[..][k + 1..];
  }

  lemma LoSmall(r: nat)
    ensures Lo(r) < RADIX && (r < RADIX ==> Lo(r) == r)
  {}

  lemma RowProduct(x: nat, b: seq<nat>, i: nat, j: nat)
    requires j < |b|
    ensures Shift(x * Mantissa(b[..j + 1]), i) == Shift(x * Mantissa(b[..j]), i) + Shift(x * b[j], i + j)
  {
    hide Mantissa, Shift;
    MantissaLast(b, j);
    var m, p := Mantissa(b[..j]), Shift(b[j], j);
    assert x * (m + p) == x * m + x * p;
    ShiftAdd(x * m, x * p, i);
    ShiftMul(x, b[j], j);
    ShiftShift(x * b[j], j, i);
  }

  /** libbench/mp.c:190-213 */
  method Mul(a: Number, b: Number) returns (c: Number)
    requires WellFormed(a) && WellFormed(b)
    ensures Packed(c, Mantissa(a.d) * Mantissa(b.d), a.expt + b.expt, a.sign * b.sign, 2 * LEN)
    ensures Normal(a) && Normal(b) ==> ProductOfMagnitudes(c, a, b)
  {
    hide Mantissa, Shift, Packed, ProductOfMagnitudes, Normal;
    var d := new nat[2 * LEN](_ => 0);
    MantissaZeros(d[..]);
    MantissaEmpty(a.d);
    var i := 0;
    while i < LEN
      invariant 0 <= i <= LEN && Digits(d[..])
      invariant forall q :: i + LEN <= q < 2 * LEN ==> d[q] == 0
      invariant Mantissa(d[..]) == Mantissa(a.d[..i]) * Mantissa(b.d)
    {
      RowOfProduct(a.d, Mantissa(b.d), i);
      if a.d[i] != 0 {
        MulRow(d, b, i, a.d[i]);
      }
      i := i + 1;
    }
    assert a.d[..LEN] == a.d;
    c := Pack(d, a.expt + b.expt, a.sign * b.sign, 2 * LEN);
    if Normal(a) && Normal(b) {
      ProductAccuracy(c, a, b);
    }
  }

  lemma RowOfProduct(a: seq<nat>, m: int, i: nat)
    requires i < |a|
    ensures Mantissa(a[..i + 1]) * m == Mantissa(a[..i]) * m + Shift(a[i] * m, i)
    ensures a[i] == 0 ==> Shift(a[i] * m, i) == 0
  {
    hide Mantissa, Shift;
    MantissaLast(a, i);
    var p, q := Mantissa(a[..i]), Shift(a[i], i);
    assert (p + q) * m == p * m + q * m;
    ShiftMul(m, a[i], i);
    assert m * a[i] == a[i] * m && m * q == q * m;
    ShiftAdd(0, 0, i);
  }

  // ----- the numbers that are represented -----

  /** RADIX^k */
  function Power(k: int): real {
    if k >= 0 then RadixPower(k) as real else 1.0 / RadixPower(-k) as real
  }

  /** v * RADIX^k */
  function Scaled(v: int, k: int): real { v as real * Power(k) }

  function Magnitude(a: Number): real { Scaled(Mantissa(a.d), a.expt - LEN) }

  function Value(a: Number): real { if a.sign == 1 then Magnitude(a) else -Magnitude(a) }

  /** One unit in the last place. */
  function Ulp(a: Number): real { Scaled(1, a.expt - LEN) }

  function Distance(x: real, y: real): real { if x < y then y - x else x - y }

  lemma PowerStep(k: int)
    ensures Power(k + 1) == RADIX as real * Power(k)
  {
    if k < 0 {
      assert RadixPower(-k) == RADIX * RadixPower(-k - 1);
      ReciprocalStep(RadixPower(-k - 1));
    }
  }

  lemma ReciprocalStep(p: nat)
    requires p > 0
    ensures 1.0 / p as real == RADIX as real * (1.0 / (RADIX * p) as real)
  {
    var x := p as real;
    assert (RADIX * p) as real == RADIX as real * x;
    assert 1.0 / x == RADIX as real / (RADIX as real * x);
  }

  lemma PowerUnfold(k: nat)
    ensures Power(k) == RadixPower(k) as real
    ensures k > 0 ==> Power(-(k as int)) == 1.0 / RadixPower(k) as real
    ensures k > 0 ==> RadixPower(k) == RADIX * RadixPower(k - 1)
    ensures RadixPower(0) == 1
  {}

  lemma {:induction false} PowerShift(j: int, k: nat)
    ensures Power(j + k) == RadixPower(k) as real * Power(j)
  {
    hide *;
    PowerUnfold(k);
    if k > 0 {
      PowerShift(j, k - 1);
      PowerStep(j + k - 1);
      ProductToReal(RADIX, RadixPower(k - 1), Power(j));
    }
  }

  lemma PowerPositive(k: int)
    ensures Power(k) > 0.0
  {}

  lemma ScaledShift(v: int, m: nat, k: int)
    ensures Scaled(Shift(v, m), k) == Scaled(v, k + m)
  {
    PowerShift(k, m);
    hide Power, RadixPower;
    ProductToReal(v, RadixPower(m), Power(k));
  }

  lemma ProductToReal(v: int, p: int, x: real)
    ensures (v * p) as real * x == v as real * (p as real * x)
  {
    assert (v * p) as real == v as real * p as real;
  }

  lemma ScaledOrder(v: int, w: int, k: int)
    requires v < w
    ensures Scaled(v, k) < Scaled(w, k)
  {
    PowerPositive(k);
    hide Power;
  }

  lemma ScaledAdd(v: int, w: int, k: int)
    ensures Scaled(v + w, k) == Scaled(v, k) + Scaled(w, k)
    ensures Scaled(v - w, k) == Scaled(v, k) - Scaled(w, k)
    ensures Scaled(0, k) == 0.0
  {
    hide Power;
    var (x, y, p) := (v as real, w as real, Power(k));
    assert (x + y) * p == x * p + y * p && (x - y) * p == x * p - y * p;
  }

  lemma PowerAdd(j: int, k: int)
    ensures Power(j) * Power(k) == Power(j + k)
  {
    hide *;
    if k >= 0 {
      PowerUnfold(k);
      PowerShift(j, k);
      ProductComm(Power(j), RadixPower(k) as real);
    } else {
      PowerUnfold(-k);
      PowerShift(j + k, -k);
      ReciprocalCancels(RadixPower(-k), Power(j + k));
    }
  }

  lemma ProductComm(x: real, y: real)
    ensures x * y == y * x
  {}

  lemma ReciprocalCancels(p: nat, x: real)
    requires p > 0
    ensures p as real * x * (1.0 / p as real) == x
  {
    var y := p as real;
    assert y * x * (1.0 / y) == x * (y / y);
  }

  lemma ScaledMul(v: int, w: int, j: int, k: int)
    ensures Scaled(v, j) * Scaled(w, k) == Scaled(v * w, j + k)
  {
    PowerAdd(j, k);
    hide Power;
    var (x, y, p, q) := (v as real, w as real, Power(j), Power(k));
    assert (x * p) * (y * q) == (x * y) * (p * q);
    assert (v * w) as real == x * y;
  }

  /** A packed number is the exact one cut to LEN digits. */
  lemma PackedValue(c: Number, v: int, e: int, s: int, l: nat)
    requires v >= 0 && Packed(c, v, e, s, l)
    ensures Normalised(c) && (v != 0 ==> c.sign == s)
    ensures Magnitude(c) <= Scaled(v, e - l)
    ensures v >= Shift(1, LEN - 1) ==> Scaled(v + 1, e - l) <= Magnitude(c) + Ulp(c)
    ensures v < Shift(1, LEN) || l <= LEN ==> Magnitude(c) == Scaled(v, e - l)
    ensures v == 0 ==> c == ZERO && Magnitude(c) == 0.0
  {
    if v == 0 {
      MantissaZeros(ZERO.d);
      ScaledAdd(0, 0, ZEROEXP - LEN);
      ScaledAdd(0, 0, e - l);
      ShiftMonotone(0, 1, LEN - 1);
      ShiftAdd(0, 0, LEN - 1);
      hide Shift;
    } else {
      var n :| PackedAt(c, v, e, s, l, n);
      PackedAtValue(c, v, e, s, l, n);
    }
  }

  lemma PackedAtValue(c: Number, v: int, e: int, s: int, l: nat, n: nat)
    requires v > 0 && PackedAt(c, v, e, s, l, n)
    ensures Normalised(c) && c.sign == s
    ensures Magnitude(c) <= Scaled(v, e - l)
    ensures v >= Shift(1, LEN - 1) ==> Scaled(v + 1, e - l) <= Magnitude(c) + Ulp(c)
    ensures v < Shift(1, LEN) || l <= LEN ==> Magnitude(c) == Scaled(v, e - l)
  {
    hide Shift, Mantissa, Scaled;
    var m, u := Mantissa(c.d), e - l;
    if n >= LEN {
      ScaledShift(m, n - LEN, u);
      ScaledShift(m + 1, n - LEN, u);
      ScaledAdd(m, 1, c.expt - LEN);
      if Shift(m, n - LEN) < v { ScaledOrder(Shift(m, n - LEN), v, u); }
      if v + 1 < Shift(m + 1, n - LEN) { ScaledOrder(v + 1, Shift(m + 1, n - LEN), u); }
    } else {
      ShiftGrows(n, LEN - 1);
    }
    if n <= LEN {
      ScaledShift(v, LEN - n, c.expt - LEN);
    } else {
      ShiftGrows(LEN, n - 1);
    }
  }

  /** Alignment rounds the smaller operand down to a unit of the larger one. */
  lemma AlignedValue(a: Number, b: Number)
    requires WellFormed(b) && a.expt >= b.expt
    ensures var t := Aligned(b, a.expt - b.expt);
            && t >= 0
            && Scaled(t, a.expt - LEN) <= Magnitude(b) < Scaled(t + 1, a.expt - LEN)
            && (a.expt == b.expt ==> Scaled(t, a.expt - LEN) == Magnitude(b))
  {
    hide Shift, Mantissa, Scaled;
    var k, u := a.expt - b.expt, b.expt - LEN;
    var t, m := Aligned(b, k), Mantissa(b.d);
    MantissaBound(b.d);
    if k < LEN {
      MantissaDrop(b.d, k);
      MantissaBound(b.d[k..]);
      if k == 0 {
        assert b.d[0..] == b.d;
      }
    } else {
      ShiftGrows(LEN, k);
      ShiftAdd(0, 0, k);
    }
    ScaledShift(t, k, u);
    ScaledShift(t + 1, k, u);
    if Shift(t, k) < m { ScaledOrder(Shift(t, k), m, u); }
    ScaledOrder(m, Shift(t + 1, k), u);
  }

  /** Magnitudes are added with an error below one unit in the last place of the sum. */
  predicate SumOfMagnitudes(c: Number, a: Number, b: Number, sign: int) {
    && Normalised(c) && (c.sign == sign || c == ZERO)
    && Magnitude(c) <= Magnitude(a) + Magnitude(b) < Magnitude(c) + Ulp(c)
  }

  /** Magnitudes are subtracted with an error below one unit of the larger operand, and none
      when the exponents agree. */
  predicate DifferenceOfMagnitudes(c: Number, a: Number, b: Number, sign: int) {
    && Normalised(c) && (c.sign == sign || c == ZERO)
    && Magnitude(a) - Magnitude(b) <= Magnitude(c) < Magnitude(a) - Magnitude(b) + Ulp(a)
    && (a.expt == b.expt ==> Magnitude(c) == Magnitude(a) - Magnitude(b))
  }

  /** |a| >= |b| as AbsCmp decides it. */
  predicate AbsAtLeast(a: Number, b: Number) {
    a.expt > b.expt || (a.expt == b.expt && Mantissa(a.d) >= Mantissa(b.d))
  }

  lemma NormalMantissa(a: Number)
    requires Normal(a)
    ensures if a.d[LEN - 1] == 0 then Mantissa(a.d) == 0 && a.expt == ZEROEXP
            else Mantissa(a.d) >= Shift(1, LEN - 1) && a.expt > ZEROEXP
  {
    hide Shift, Mantissa;
    if a.d[LEN - 1] == 0 {
      MantissaZeros(a.d);
    } else {
      MantissaLast(a.d, LEN - 1);
      assert a.d[..LEN] == a.d;
      MantissaBound(a.d[..LEN - 1]);
      ShiftMonotone(1, a.d[LEN - 1], LEN - 1);
    }
  }

  lemma AlignedSame(b: Number)
    requires WellFormed(b)
    ensures Aligned(b, 0) == Mantissa(b.d)
  {
    hide Mantissa;
    assert b.d[0..] == b.d;
  }

  lemma SumAccuracy(c: Number, a: Number, b: Number, sign: int)
    requires Normal(a) && Normal(b) && AbsAtLeast(a, b)
    requires Packed(c, Mantissa(a.d) + Aligned(b, a.expt - b.expt), a.expt + 1, sign, LEN + 1)
    ensures SumOfMagnitudes(c, a, b, sign)
  {
    hide Shift, Mantissa, Scaled, Packed, Aligned;
    NormalMantissa(a);
    NormalMantissa(b);
    AlignedValue(a, b);
    var t := Aligned(b, a.expt - b.expt);
    var v, u := Mantissa(a.d) + t, a.expt - LEN;
    MantissaBound(a.d);
    PackedValue(c, v, a.expt + 1, sign, LEN + 1);
    ScaledAdd(Mantissa(a.d), t, u);
    ScaledAdd(Mantissa(a.d), t + 1, u);
    assert Mantissa(a.d) + (t + 1) == v + 1;
    if a.d[LEN - 1] == 0 {
      AlignedSame(b);
      ScaledAdd(0, 0, u);
      ScaledOrder(0, 1, c.expt - LEN);
      ScaledAdd(0, 0, c.expt - LEN);
    }
  }

  lemma DifferenceAccuracy(c: Number, a: Number, b: Number, sign: int)
    requires Normal(a) && Normal(b) && AbsAtLeast(a, b)
    requires Packed(c, Borrowed(Mantissa(a.d) - Aligned(b, a.expt - b.expt)), a.expt, sign, LEN)
    ensures DifferenceOfMagnitudes(c, a, b, sign)
  {
    hide Shift, Mantissa, Scaled, Packed, Aligned;
    NormalMantissa(a);
    NormalMantissa(b);
    AlignedValue(a, b);
    AlignedBelow(a, b, a.expt - b.expt);
    var t, u := Aligned(b, a.expt - b.expt), a.expt - LEN;
    PackedValue(c, Mantissa(a.d) - t, a.expt, sign, LEN);
    ScaledAdd(Mantissa(a.d), t, u);
    ScaledAdd(t, 1, u);
  }

  lemma SameMagnitude(a: Number, b: Number)
    requires a.expt == b.expt && a.d == b.d
    ensures Magnitude(a) == Magnitude(b)
  {}

  /** On normal numbers the comparison of exponents and mantissas is that of the magnitudes. */
  lemma MagnitudeOrder(a: Number, b: Number)
    requires Normal(a) && Normal(b) && Larger(a, b)
    ensures Magnitude(a) > Magnitude(b)
  {
    hide Shift, Mantissa, Scaled;
    NormalMantissa(a);
    NormalMantissa(b);
    if a.expt == b.expt {
      ScaledOrder(Mantissa(b.d), Mantissa(a.d), a.expt - LEN);
    } else {
      var k := a.expt - b.expt;
      MantissaBound(b.d);
      ShiftGrows(LEN, LEN - 1 + k);
      ShiftShift(1, LEN - 1, k);
      ShiftMonotone(Shift(1, LEN - 1), Mantissa(a.d), k);
      ScaledOrder(Mantissa(b.d), Shift(Mantissa(a.d), k), b.expt - LEN);
      ScaledShift(Mantissa(a.d), k, b.expt - LEN);
    }
  }

  /** What addmag0 and submag0 leave in c, for a.expt >= b.expt and the sign given. */
  ghost predicate MagnitudesAdded(c: Number, a: Number, b: Number, sign: int)
    requires a.expt >= b.expt
  {
    Packed(c, Mantissa(a.d) + Aligned(b, a.expt - b.expt), a.expt + 1, sign, LEN + 1)
  }

  ghost predicate MagnitudesSubtracted(c: Number, a: Number, b: Number, sign: int)
    requires a.expt >= b.expt
  {
    Packed(c, Borrowed(Mantissa(a.d) - Aligned(b, a.expt - b.expt)), a.expt, sign, LEN)
  }

  /** libbench/mp.c:148-151 */
  method AddMag(s: int, a: Number, b: Number) returns (c: Number)
    requires WellFormed(a) && WellFormed(b) && (s == 1 || s == -1)
    ensures if Larger(a, b) then MagnitudesAdded(c, a, b, a.sign) else MagnitudesAdded(c, b, a, s * b.sign)
    ensures Normal(a) && Normal(b) && s * b.sign == a.sign ==>
              SumOfMagnitudes(c, a, b, a.sign) || SumOfMagnitudes(c, b, a, a.sign)
  {
    hide Mantissa, Packed, SumOfMagnitudes, Shift, Aligned, Digits;
    var cmp := AbsCmp(a, b);
    if cmp > 0 {
      c := AddMag0(1, a, b);
      if Normal(a) && Normal(b) {
        SumAccuracy(c, a, b, a.sign);
      }
    } else {
      c := AddMag0(s, b, a);
      if Normal(a) && Normal(b) {
        SumAccuracy(c, b, a, s * b.sign);
      }
    }
  }

  /** libbench/mp.c:174-177 */
  method SubMag(s: int, a: Number, b: Number) returns (c: Number)
    requires WellFormed(a) && WellFormed(b) && (s == 1 || s == -1)
    ensures if Larger(a, b) then MagnitudesSubtracted(c, a, b, a.sign) else MagnitudesSubtracted(c, b, a, s * b.sign)
    ensures Normal(a) && Normal(b) ==>
              || (AbsAtLeast(a, b) && DifferenceOfMagnitudes(c, a, b, a.sign))
              || (AbsAtLeast(b, a) && DifferenceOfMagnitudes(c, b, a, s * b.sign))
  {
    hide Mantissa, Packed, DifferenceOfMagnitudes, Shift, Aligned, Digits, Borrowed;
    var cmp := AbsCmp(a, b);
    if cmp > 0 {
      c := SubMag0(1, a, b);
      if Normal(a) && Normal(b) {
        DifferenceAccuracy(c, a, b, a.sign);
      }
    } else {
      c := SubMag0(s, b, a);
      if Normal(a) && Normal(b) {
        DifferenceAccuracy(c, b, a, s * b.sign);
      }
    }
  }

  /** What a sum or difference promises: with effective signs alike the exact result cut to LEN
      digits, otherwise an error below one unit of the operand with the larger exponent and no
      error when the exponents agree. */
  predicate Accurate(c: Number, exact: real, a: Number, b: Number, alike: bool) {
    && Normalised(c)
    && (alike ==> Magnitude(c) <= Distance(exact, 0.0) < Magnitude(c) + Ulp(c))
    && Distance(Value(c), exact) < (if alike then Ulp(c) else if a.expt >= b.expt then Ulp(a) else Ulp(b))
    && (!alike && a.expt == b.expt ==> Value(c) == exact)
  }

  lemma SumIsAccurate(c: Number, a: Number, b: Number, x: Number, y: Number, exact: real, sign: int)
    requires WellFormed(a) && WellFormed(b) && ((x == a && y == b) || (x == b && y == a))
    requires SumOfMagnitudes(c, x, y, sign) && (sign == 1 || sign == -1)
    requires exact == if sign == 1 then Magnitude(a) + Magnitude(b) else -(Magnitude(a) + Magnitude(b))
    ensures Accurate(c, exact, a, b, true)
  {
    MagnitudeNonNegative(a);
    MagnitudeNonNegative(b);
    MagnitudeZero();
    hide Scaled, Magnitude, Ulp;
  }

  lemma DifferenceIsAccurate(c: Number, a: Number, b: Number, x: Number, y: Number, exact: real, sign: int)
    requires (x == a && y == b) || (x == b && y == a)
    requires DifferenceOfMagnitudes(c, x, y, sign) && AbsAtLeast(x, y) && (sign == 1 || sign == -1)
    requires exact == if sign == 1 then Magnitude(x) - Magnitude(y) else -(Magnitude(x) - Magnitude(y))
    ensures Accurate(c, exact, a, b, false)
  {
    MagnitudeZero();
    hide Scaled, Magnitude;
  }

  lemma MagnitudeNonNegative(a: Number)
    requires WellFormed(a)
    ensures Magnitude(a) >= 0.0
  {
    hide Scaled, Mantissa;
    MantissaBound(a.d);
    ScaledAdd(0, 0, a.expt - LEN);
    if Mantissa(a.d) > 0 { ScaledOrder(0, Mantissa(a.d), a.expt - LEN); }
  }

  lemma MagnitudeZero()
    ensures Magnitude(ZERO) == 0.0
  {
    MantissaZeros(ZERO.d);
    ScaledAdd(0, 0, ZEROEXP - LEN);
    hide *;
  }

  /** libbench/mp.c:262-265 */
  function Negated(a: Number): Number { a.(sign := -a.sign) }

  /** What add leaves in c, for operands that need not be normalised. */
  ghost predicate Added(c: Number, a: Number, b: Number) {
    if a.sign == b.sign then
      if Larger(a, b) then MagnitudesAdded(c, a, b, a.sign) else MagnitudesAdded(c, b, a, b.sign)
    else
      if Larger(a, b) then MagnitudesSubtracted(c, a, b, a.sign) else MagnitudesSubtracted(c, b, a, b.sign)
  }

  lemma AddedAccurate(c: Number, a: Number, b: Number)
    requires Normal(a) && Normal(b) && Added(c, a, b)
    ensures Accurate(c, Value(a) + Value(b), a, b, a.sign == b.sign)
  {
    hide Magnitude, Accurate, SumOfMagnitudes, DifferenceOfMagnitudes, Packed, Mantissa, Aligned, Borrowed;
    var (x, y) := if Larger(a, b) then (a, b) else (b, a);
    if a.sign == b.sign {
      SumAccuracy(c, x, y, x.sign);
      SumIsAccurate(c, a, b, x, y, Value(a) + Value(b), x.sign);
    } else {
      DifferenceAccuracy(c, x, y, x.sign);
      DifferenceIsAccurate(c, a, b, x, y, Value(a) + Value(b), x.sign);
    }
  }

  lemma NegatedAccurate(c: Number, exact: real, a: Number, b: Number, alike: bool)
    ensures Accurate(c, exact, a, Negated(b), alike) <==> Accurate(c, exact, a, b, alike)
    ensures WellFormed(b) ==> WellFormed(Negated(b)) && Value(Negated(b)) == -Value(b)
    ensures Normal(b) ==> Normal(Negated(b))
  {
    hide Scaled, Mantissa;
  }

  /** libbench/mp.c:180-183 */
  method Add(a: Number, b: Number) returns (c: Number)
    requires WellFormed(a) && WellFormed(b)
    ensures Added(c, a, b)
    ensures Normal(a) && Normal(b) ==> Accurate(c, Value(a) + Value(b), a, b, a.sign == b.sign)
  {
    hide Magnitude, Accurate, SumOfMagnitudes, DifferenceOfMagnitudes, AbsAtLeast, MagnitudesAdded, MagnitudesSubtracted, Larger, Normal;
    if a.sign == b.sign {
      c := AddMag(1, a, b);
    } else {
      c := SubMag(1, a, b);
    }
    if Normal(a) && Normal(b) {
      AddedAccurate(c, a, b);
    }
  }

  lemma NegatedMagnitudes(c: Number, a: Number, b: Number, sign: int)
    ensures Larger(a, Negated(b)) <==> Larger(a, b)
    ensures a.expt >= b.expt ==> (MagnitudesAdded(c, a, Negated(b), sign) <==> MagnitudesAdded(c, a, b, sign))
    ensures b.expt >= a.expt ==> (MagnitudesAdded(c, Negated(b), a, sign) <==> MagnitudesAdded(c, b, a, sign))
    ensures a.expt >= b.expt ==> (MagnitudesSubtracted(c, a, Negated(b), sign) <==> MagnitudesSubtracted(c, a, b, sign))
    ensures b.expt >= a.expt ==> (MagnitudesSubtracted(c, Negated(b), a, sign) <==> MagnitudesSubtracted(c, b, a, sign))
  {
    hide Packed, Mantissa, Borrowed;
  }

  /** libbench/mp.c:185-188: the sum with -b. */
  method Sub(a: Number, b: Number) returns (c: Number)
    requires WellFormed(a) && WellFormed(b)
    ensures Added(c, a, Negated(b))
    ensures Normal(a) && Normal(b) ==> Accurate(c, Value(a) - Value(b), a, b, a.sign != b.sign)
  {
    hide Magnitude, Accurate, SumOfMagnitudes, DifferenceOfMagnitudes, AbsAtLeast, Normal, Mantissa, MagnitudesAdded, MagnitudesSubtracted;
    if a.sign == b.sign {
      c := SubMag(-1, a, b);
    } else {
      c := AddMag(-1, a, b);
    }
    NegatedMagnitudes(c, a, b, a.sign);
    NegatedMagnitudes(c, a, b, -b.sign);
    assert -1 * b.sign == -b.sign == Negated(b).sign;
    if Normal(a) && Normal(b) {
      NegatedAccurate(c, Value(a) - Value(b), a, b, a.sign != b.sign);
      AddedAccurate(c, a, Negated(b));
    }
  }

  /** A product is the exact one cut to LEN digits. */
  predicate ProductOfMagnitudes(c: Number, a: Number, b: Number) {
    && Normalised(c) && (c == ZERO || c.sign == a.sign * b.sign)
    && Magnitude(c) <= Magnitude(a) * Magnitude(b) < Magnitude(c) + Ulp(c)
  }

  lemma ProductAccuracy(c: Number, a: Number, b: Number)
    requires Normal(a) && Normal(b)
    requires Packed(c, Mantissa(a.d) * Mantissa(b.d), a.expt + b.expt, a.sign * b.sign, 2 * LEN)
    ensures ProductOfMagnitudes(c, a, b)
  {
    hide Shift, Mantissa, Scaled, Packed, ProductOfMagnitudes;
    NormalMantissa(a);
    NormalMantissa(b);
    var m, n := Mantissa(a.d), Mantissa(b.d);
    ScaledMul(m, n, a.expt - LEN, b.expt - LEN);
    MantissaBound(a.d);
    MantissaBound(b.d);
    ProductBound(m, n);
    if m * n != 0 {
      ShiftMonotone(0, 1, LEN - 1);
      ShiftAdd(0, 0, LEN - 1);
      ProductAtLeast(m, n, Shift(1, LEN - 1));
    }
    PackedProduct(c, a, b, m * n);
  }

  lemma PackedProduct(c: Number, a: Number, b: Number, v: int)
    requires WellFormed(a) && WellFormed(b) && (v == 0 || v >= Shift(1, LEN - 1)) && v >= 0
    requires Packed(c, v, a.expt + b.expt, a.sign * b.sign, 2 * LEN)
    requires Magnitude(a) * Magnitude(b) == Scaled(v, a.expt + b.expt - 2 * LEN)
    ensures ProductOfMagnitudes(c, a, b)
  {
    var u := a.expt + b.expt - 2 * LEN;
    hide Shift, Mantissa, Scaled, Packed, Magnitude;
    PackedValue(c, v, a.expt + b.expt, a.sign * b.sign, 2 * LEN);
    ScaledOrder(v, v + 1, u);
    if v == 0 {
      ScaledOrder(0, 1, c.expt - LEN);
      ScaledAdd(0, 0, c.expt - LEN);
      ScaledAdd(0, 0, u);
    }
  }

  lemma ProductBound(m: int, n: int)
    requires m >= 0 && n >= 0
    ensures m * n >= 0 && (m * n == 0 <==> m == 0 || n == 0)
  {}

  lemma ProductAtLeast(m: int, n: int, k: int)
    requires m >= k >= 0 && n >= 1
    ensures m * n >= k
  {
    Product(1, n, m);
  }

  // ----- the zero that is not canonical -----

  /** libbench/mp.c:69-77; zero comes out with exponent 1, not ZEROEXP. */
  function FromShort(x: int): Number
    requires -RADIX < x < RADIX
  {
    Number(if x < 0 then -1 else 1, 1, [0, 0, 0, 0, 0, 0, 0, 0, 0, if x < 0 then -x else x])
  }

  /** It represents x. */
  lemma FromShortValue(x: int)
    requires -RADIX < x < RADIX
    ensures WellFormed(FromShort(x)) && Value(FromShort(x)) == x as real
    ensures x != 0 ==> Normal(FromShort(x))
  {
    var (a, m) := (FromShort(x), if x < 0 then -x else x);
    MantissaLast(a.d, 9);
    MantissaZeros(a.d[..9]);
    assert a.d[..10] == a.d;
    hide Shift, Mantissa, Power, Scaled;
    ScaledShift(m, 9, -9);
    ScaledUnit(m);
  }

  lemma ScaledUnit(m: int)
    ensures Scaled(m, 0) == m as real
  {
    assert RadixPower(0) == 1;
  }

  predicate IsZero(z: Number) { z.d == ZERO.d }

  /** No nonzero digit of b falls away when b is aligned to the exponent e. */
  predicate KeepsDigits(b: Number, e: int) {
    b.expt >= e || Mantissa(b.d) == Shift(Aligned(b, e - b.expt), e - b.expt)
  }

  /** A zero with the larger exponent: b of the same sign is cut to its aligned digits. */
  lemma ZeroCuts(z: Number, b: Number, c: Number, sign: int)
    requires Normal(b) && b.d[LEN - 1] != 0 && IsZero(z) && b.expt < z.expt
    requires MagnitudesAdded(c, z, b, sign)
    ensures c.sign == sign || Magnitude(c) == 0.0
    ensures Magnitude(c) == Magnitude(b) <==> KeepsDigits(b, z.expt)
    ensures b.expt <= z.expt - LEN ==> c == ZERO
  {
    hide Shift, Mantissa, Scaled, Packed;
    var k, u := z.expt - b.expt, b.expt - LEN;
    var t, m := Aligned(b, k), Mantissa(b.d);
    MantissaZeros(z.d);
    NormalMantissa(b);
    AlignedBound(b, k);
    PackedValue(c, t, z.expt + 1, sign, LEN + 1);
    ScaledShift(t, k, u);
    if Shift(t, k) < m { ScaledOrder(Shift(t, k), m, u); }
    if m < Shift(t, k) { ScaledOrder(m, Shift(t, k), u); }
  }

  lemma AlignedBound(b: Number, k: nat)
    requires WellFormed(b)
    ensures 0 <= Aligned(b, k) < Shift(1, LEN)
  {
    hide Shift, Mantissa;
    if k < LEN {
      MantissaBound(b.d[k..]);
      ShiftGrows(LEN - k, LEN);
    } else {
      ShiftMonotone(0, 1, LEN);
      ShiftAdd(0, 0, LEN);
    }
  }

  lemma BorrowedBound(t: int)
    requires 0 <= t < Shift(1, LEN)
    ensures 0 <= Borrowed(0 - t)
  {
    hide Shift;
  }

  /** ... and b of the other sign is subtracted from nothing: the sign of the zero stays. */
  lemma ZeroBorrows(z: Number, b: Number, c: Number, sign: int)
    requires Normal(b) && IsZero(z) && b.expt < z.expt
    requires MagnitudesSubtracted(c, z, b, sign)
    ensures WellFormed(c) && (c.sign == sign || Magnitude(c) == 0.0)
  {
    var k := z.expt - b.expt;
    MantissaZeros(z.d);
    hide Shift, Mantissa, Scaled, Packed, Aligned, Borrowed, Magnitude;
    AlignedBound(b, k);
    BorrowedBound(Aligned(b, k));
    PackedValue(c, Borrowed(0 - Aligned(b, k)), z.expt, sign, LEN);
  }

  /** A zero with an exponent that is not larger changes nothing. */
  lemma ZeroNeutral(z: Number, b: Number, c: Number)
    requires Normal(b) && b.d[LEN - 1] != 0 && IsZero(z) && b.expt >= z.expt
    requires MagnitudesAdded(c, b, z, b.sign) || MagnitudesSubtracted(c, b, z, b.sign)
    ensures Value(c) == Value(b)
  {
    hide Shift, Mantissa, Scaled, Packed;
    NormalMantissa(b);
    MantissaBound(b.d);
    var k := b.expt - z.expt;
    if k < LEN {
      MantissaZeros(z.d[k..]);
    }
    ShiftMonotone(0, 1, LEN - 1);
    ShiftAdd(0, 0, LEN - 1);
    if MagnitudesAdded(c, b, z, b.sign) {
      PackedValue(c, Mantissa(b.d), b.expt + 1, b.sign, LEN + 1);
    } else {
      PackedValue(c, Mantissa(b.d), b.expt, b.sign, LEN);
    }
  }

  lemma NonzeroPositive(b: Number)
    requires Normal(b) && b.d[LEN - 1] != 0
    ensures Magnitude(b) > 0.0 && Mantissa(b.d) > 0
  {
    hide Shift, Mantissa, Scaled;
    NormalMantissa(b);
    ShiftMonotone(0, 1, LEN - 1);
    ShiftAdd(0, 0, LEN - 1);
    ScaledOrder(0, Mantissa(b.d), b.expt - LEN);
    ScaledAdd(0, 0, b.expt - LEN);
  }

  /** Adding a zero of any sign and exponent to a number, on either side: exact if and only if the
      exponent of the zero is not the larger one, or the signs agree and no digit falls away. */
  lemma ZeroAdded(z: Number, b: Number, c: Number)
    requires WellFormed(z) && IsZero(z) && Normal(b) && b.d[LEN - 1] != 0
    requires Added(c, z, b) || Added(c, b, z)
    ensures Value(c) == Value(b) <==> b.expt >= z.expt || (b.sign == z.sign && KeepsDigits(b, z.expt))
  {
    NonzeroPositive(b);
    MantissaZeros(z.d);
    hide Mantissa, Magnitude, MagnitudesAdded, MagnitudesSubtracted, KeepsDigits;
    if b.expt >= z.expt {
      ZeroNeutral(z, b, c);
    } else if b.sign == z.sign {
      ZeroCuts(z, b, c, z.sign);
    } else {
      ZeroBorrows(z, b, c, z.sign);
      MagnitudeNonNegative(c);
    }
  }

  lemma FromShortFacts(b: Number)
    ensures var z := FromShort(0);
            && WellFormed(z) && WellFormed(Negated(z)) && IsZero(z) && IsZero(Negated(z))
            && z.expt == Negated(z).expt == 1 && z.sign == 1 && Negated(z).sign == -1
    ensures var nb := Negated(b); nb.d == b.d && nb.expt == b.expt && nb.sign == -b.sign
    ensures KeepsDigits(Negated(b), 1) <==> KeepsDigits(b, 1)
  {
    hide Mantissa, Shift;
  }

  /** The zero of FromShort, in sums and differences. */
  lemma FromShortZero(b: Number, c: Number)
    requires Normal(b) && b.d[LEN - 1] != 0
    ensures Added(c, FromShort(0), b) || Added(c, b, FromShort(0)) ==>
              (Value(c) == Value(b) <==> b.expt >= 1 || (b.sign == 1 && KeepsDigits(b, 1)))
    ensures Added(c, FromShort(0), Negated(b)) ==>
              (Value(c) == -Value(b) <==> b.expt >= 1 || (b.sign == -1 && KeepsDigits(b, 1)))
    ensures Added(c, b, Negated(FromShort(0))) ==>
              (Value(c) == Value(b) <==> b.expt >= 1 || (b.sign == -1 && KeepsDigits(b, 1)))
  {
    FromShortFacts(b);
    NegatedAccurate(c, 0.0, b, b, true);
    var z := FromShort(0);
    assert b.sign == 1 || b.sign == -1;
    hide Value, Added, FromShort, Negated, IsZero, KeepsDigits, Normal, WellFormed, Accurate;
    if Added(c, z, b) || Added(c, b, z) { ZeroAdded(z, b, c); }
    if Added(c, z, Negated(b)) { ZeroAdded(z, Negated(b), c); }
    if Added(c, b, Negated(z)) { ZeroAdded(Negated(z), b, c); }
  }

  const MINUS_HALF := Number(-1, 0, [0, 0, 0, 0, 0, 0, 0, 0, 0, 32768])

  lemma MinusHalfDigits()
    ensures Normal(MINUS_HALF)
    ensures Mantissa(MINUS_HALF.d) == Shift(32768, 9) && Aligned(MINUS_HALF, 1) == Shift(32768, 8)
    ensures Mantissa(FromShort(0).d) == 0 && !Larger(MINUS_HALF, FromShort(0)) && Larger(FromShort(0), MINUS_HALF)
  {
    var d := MINUS_HALF.d;
    hide Shift, Mantissa;
    MantissaZeros(FromShort(0).d);
    MantissaLast(d, 9);
    MantissaZeros(d[..9]);
    MantissaLast(d[1..], 8);
    MantissaZeros(d[1..][..8]);
    assert d[..10] == d && d[1..][..9] == d[1..];
  }

  /** 0 + (-1/2) comes out as 65535.5 although no digit of -1/2 falls away. */
  lemma FromShortMinusHalf(c: Number)
    requires Added(c, FromShort(0), MINUS_HALF)
    ensures Normal(MINUS_HALF) && KeepsDigits(MINUS_HALF, 1)
    ensures Value(MINUS_HALF) == -0.5 && Value(c) == 65535.5
  {
    MinusHalfDigits();
    var h, w := 32768, RADIX * RADIX - 32768;
    assert MagnitudesSubtracted(c, FromShort(0), MINUS_HALF, 1);
    MinusHalfKept();
    hide Shift, Mantissa, Scaled, Packed, Aligned, KeepsDigits, Normal;
    ScaledShift(h, 9, -10);
    LastDigit(h);
    MinusHalfBorrowed(h, w);
    PackedValue(c, Shift(w, 8), 1, 1, LEN);
    ScaledShift(w, 8, -9);
    LastDigit(w);
  }

  lemma MinusHalfKept()
    ensures KeepsDigits(MINUS_HALF, 1)
  {
    MinusHalfDigits();
    hide Shift, Mantissa, Aligned;
    ShiftShift(32768, 8, 1);
  }

  lemma MinusHalfBorrowed(h: int, w: int)
    requires h == 32768 && w == RADIX * RADIX - h
    ensures Borrowed(0 - Shift(h, 8)) == Shift(w, 8) > 0
  {
    hide Shift;
    RadixSquare(8);
    ShiftAdd(RADIX * RADIX, h, 8);
    ShiftMonotone(0, h, 8);
    ShiftMonotone(0, w, 8);
    ShiftAdd(0, 0, 8);
  }

  lemma RadixSquare(k: nat)
    ensures Shift(RADIX * RADIX, k) == Shift(1, k + 2)
  {
    ShiftStep(RADIX, k);
    ShiftStep(1, k + 1);
  }

  lemma LastDigit(v: int)
    ensures Scaled(v, -1) == v as real / 65536.0
  {
    assert RadixPower(1) == RADIX * RadixPower(0) == RADIX;
  }
}
