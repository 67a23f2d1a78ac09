/** With exact tables RFHT_F and RFHT_T of benchees/bloodworth/b-fht.c are Hartley transforms, up to
    the order of their output or input.
  */
module HartleySum {
  import opened ComplexNumbers
  import opened DiscreteFourier
  import opened Roots
  import opened Arithmetic
  import opened RadixTwo
  import opened QuarterTurns
  import opened RealSamples
  import opened Hartley

  /** Cosine plus sine. */
  function CasOf(z: C): real { z.re + z.im }

  /** The Hartley sum: every sample times cosine plus sine of its angle. */
  function HartleyAt(w: C, s: seq<real>, k: int): real { CasOf(Dft(|s|, w, Cells(Real(s)), k)) }

  ghost predicate ExactTable(t: Trig, e: nat -> C) {
    ExactSines(t.sine, t.sq, e) && t.sqrt2 == 2.0 * t.sq
  }

  // ----- the coefficients -----

  lemma {:induction false} LogOfPower(k: nat)
    ensures Log2(Pow2(k)) == k
  {
    if k > 0 {
      LogOfPower(k - 1);
      assert Pow2(k) / 2 == Pow2(k - 1);
    }
  }

  lemma StepExact(t: Trig, e: nat -> C, k: nat)
    requires ExactTable(t, e)
    ensures Step(t, Pow2(k)) == e(2 * Pow2(k))
  {
    LogOfPower(k);
    assert Pow2(k + 1) == 2 * Pow2(k);
    hide ExactSines, Log2, Pow2, Unit, Times;
    ExactRoot(t.sine, t.sq, e, k + 1);
  }

  /** The coefficient of index i is the i-th power of the root. */
  lemma CoefExact(t: Trig, e: nat -> C, k: nat, h: nat, i: nat)
    requires ExactTable(t, e) && k >= 2 && h == Pow2(k) && i < h
    ensures h % 4 == 0 && Coef(t, h, i) == Pow(e(2 * h), i)
  {
    var q := Pow2(k - 2);
    assert Pow2(k - 1) == 2 * q && h == 4 * q;
    StepExact(t, e, k);
    hide Pow2, Step;
    CoefPowers(t, e, h, q, i);
  }

  /** Coef for h = 4 q. */
  lemma CoefTable(t: Trig, h: nat, q: nat, w: C, i: nat)
    requires h == 4 * q && q >= 1 && i < h && Step(t, h) == w
    ensures Coef(t, h, i) ==
            if i == 0 then ONE
            else if i < q then Pow(w, i)
            else if i == q then C(t.sq, t.sq)
            else if i < 2 * q then Mirrored(Pow(w, 2 * q - i))
            else if i == 2 * q then QUARTER
            else if i < 3 * q then Opposed(Mirrored(Pow(w, i - 2 * q)))
            else if i == 3 * q then Opposed(C(t.sq, t.sq))
            else Opposed(Pow(w, 4 * q - i))
  {
    assert h / 4 == q;
    hide Pow, Step, Mirrored, Opposed;
  }

  lemma ExactRoots(t: Trig, e: nat -> C)
    requires ExactTable(t, e)
    ensures RootFamily(e) && e(4) == QUARTER && e(8) == C(t.sq, t.sq)
  {
    hide RootFamily, ExactSines;
    ExactTurns(t.sine, t.sq, e);
  }

  lemma CoefPowers(t: Trig, e: nat -> C, h: nat, q: nat, i: nat)
    requires ExactTable(t, e) && h == 4 * q && q >= 1 && i < h && Step(t, h) == e(2 * h)
    ensures Coef(t, h, i) == Pow(e(2 * h), i)
  {
    hide *;
    ExactRoots(t, e);
    var w := e(2 * h);
    CoefTable(t, h, q, w, i);
    EighthPower(e, q, 2 * h);
    if i == 0 {
      PowAtZero(w);
    } else if q < i < 2 * q {
      InQuadrant(w, q, 2 * q - i);
    } else if 2 * q < i < 3 * q {
      InQuadrant(w, q, i - 2 * q);
    } else if i >= 3 * q {
      InQuadrant(w, q, 4 * q - i);
    }
  }

  // ----- sums -----

  lemma {:induction false} CasSum(n: nat, f: int -> C, g: int -> C)
    requires forall i :: 0 <= i < n ==> CasOf(f(i)) == CasOf(g(i))
    ensures CasOf(Sum(n, f)) == CasOf(Sum(n, g))
  {
    if n > 0 {
      CasSum(n - 1, f, g);
    }
  }

  lemma {:induction false} SumReverse(n: nat, f: int -> C, g: int -> C)
    requires forall i :: 0 <= i < n ==> g(i) == f(n - 1 - i)
    ensures Sum(n, g) == Sum(n, f)
  {
    if n > 0 {
      var rest := i => f(1 + i);
      SumReverse(n - 1, rest, g);
      SumSplit(1, n - 1, f, rest);
      AddComm(Sum(n - 1, rest), f(0));
      assert Sum(1, f) == Add(ZERO, f(0)) == f(0);
    }
  }

  /** A sum in which every index and its partner change places. */
  lemma SumPartner(h: nat, f: int -> C, g: int -> C)
    requires h >= 1 && forall i :: 0 <= i < h ==> g(i) == f(Partner(h, i))
    ensures Sum(h, g) == Sum(h, f)
  {
    hide *;
    var f1, g1 := i => f(1 + i), i => g(1 + i);
    SumSplit(1, h - 1, f, f1);
    SumSplit(1, h - 1, g, g1);
    PartnersReversed(h, f, g, f1, g1);
    SumReverse(h - 1, f1, g1);
    SumOne(f);
    SumOne(g);
  }

  lemma PartnersReversed(h: nat, f: int -> C, g: int -> C, f1: int -> C, g1: int -> C)
    requires h >= 1 && forall i :: 0 <= i < h ==> g(i) == f(Partner(h, i))
    requires forall i :: f1(i) == f(1 + i) && g1(i) == g(1 + i)
    ensures g(0) == f(0) && forall i :: 0 <= i < h - 1 ==> g1(i) == f1(h - 1 - 1 - i)
  {
    assert g(0) == f(Partner(h, 0));
    forall i | 0 <= i < h - 1
      ensures g1(i) == f1(h - 1 - 1 - i)
    {
      var j := 1 + i;
      assert g(j) == f(Partner(h, j));
      assert Partner(h, j) == 1 + (h - 1 - 1 - i);
    }
  }

  lemma SumOne(f: int -> C)
    ensures Sum(1, f) == f(0)
  {
    assert Sum(0, f) == ZERO;
  }

  /** Cosine plus sine of a rotated number. */
  lemma CasTurned(a: C, z: C)
    ensures CasOf(Mul(a, z)) == Combine(a, CasOf(z), CasOf(Conj(z)))
  {}

  // ----- decimation in frequency -----

  /** The terms of the right half, before the indices are paired and after it. */
  lemma RotatedTerm(a: C, d: real, z: C)
    ensures CasOf(Add(Scale(Times(a.re, d), z), Scale(Times(a.im, d), Conj(z)))) == CasOf(Mul(Mul(C(d, 0.0), a), z))
  {
    var (c, s, x, y) := (a.re, a.im, z.re, z.im);
    ScaleReal(d, a);
    assert Mul(C(d, 0.0), a) == C(d * c, d * s);
    RotatedProducts(c, s, d, x, y);
  }

  lemma ScaleReal(d: real, a: C)
    ensures Mul(C(d, 0.0), a) == Scale(d, a)
  {}

  lemma RotatedProducts(c: real, s: real, d: real, x: real, y: real)
    ensures (c * d) * x + (s * d) * x + ((c * d) * y - (s * d) * y) == (d * c) * x - (d * s) * y + ((d * c) * y + (d * s) * x)
  {}

  lemma SplitTerm(a: C, d: real, d': real, z: C)
    ensures Mul(C(Combine(a, d, d'), 0.0), z) == Add(Scale(Times(a.re, d), z), Scale(Times(a.im, d'), z))
  {
    ScaleReal(a.re * d + a.im * d', z);
    RealDistribute(z.re, a.re * d, a.im * d');
    RealDistribute(z.im, a.re * d, a.im * d');
  }

  lemma PartnerPower(w: C, h: nat, i: int)
    requires Unit(w) && Pow(w, h) == MINUS_ONE && 0 <= i < h
    ensures 0 <= Partner(h, i) < h && Partner(h, Partner(h, i)) == i
    ensures Pow(w, Partner(h, i)).im == Pow(w, i).im
  {
    if i > 0 {
      PowAdd(w, h, -i);
      PowConj(w, i);
      MulMinusOne(Conj(Pow(w, i)));
      hide Unit, Pow, Mul;
    }
  }

  lemma PartnerTwiddle(w: C, h: nat, i: int, m: int)
    requires Unit(w) && Pow(w, h) == ONE && 0 <= i < h
    ensures Twiddle(w, Partner(h, i), m) == Conj(Twiddle(w, i, m))
  {
    hide *;
    TwiddleConj(w, i, m);
    TwiddleIsPow(w, i, m);
    TwiddleIsPow(w, -i, m);
    PowConj(w, i * m);
    NegatedFactor(i, m);
    PartnerIs(h, i);
    TwiddlePeriodic(h, w, -i, 1, m);
  }

  lemma NegatedFactor(i: int, m: int)
    ensures -i * m == -(i * m)
  {}

  lemma PartnerRange(h: nat, i: int)
    requires 0 <= i < h
    ensures 0 <= Partner(h, i) < h
  {}

  lemma PartnerIs(h: nat, i: int)
    ensures Partner(h, i) == if i == 0 then -i else -i + h * 1
  {}

  /** Term i, split into the part of its own difference and that of its partner's. */
  lemma RightTerm(a: C, d: real, d': real, v: C, hi: C, z: C)
    requires v == C(Combine(a, d, d'), 0.0) && hi == Mul(C(d, 0.0), a)
    ensures Mul(v, z) == Add(Scale(Times(a.re, d), z), Scale(Times(a.im, d'), z))
    ensures CasOf(Add(Scale(Times(a.re, d), z), Scale(Times(a.im, d), Conj(z)))) == CasOf(Mul(hi, z))
  {
    hide *;
    SplitTerm(a, d, d', z);
    RotatedTerm(a, d, z);
  }

  /** The partner's part is this index's part of the partner. */
  lemma PartnerTerm(w: C, h: nat, d: int -> real, f2: int -> C, i: int, m: int)
    requires Unit(w) && h >= 1 && Pow(w, h) == MINUS_ONE && 0 <= i < h
    requires forall i :: 0 <= i < h ==> f2(i) == Scale(Times(Pow(w, i).im, d(Partner(h, i))), Twiddle(Pow(w, 2), i, m))
    ensures f2(Partner(h, i)) == Scale(Times(Pow(w, i).im, d(i)), Conj(Twiddle(Pow(w, 2), i, m)))
  {
    hide *;
    var j := Partner(h, i);
    PartnerPower(w, h, i);
    assert f2(j) == Scale(Times(Pow(w, j).im, d(Partner(h, j))), Twiddle(Pow(w, 2), j, m));
    UnitPow(w, 2);
    HalfTurnSquared(h, w);
    PartnerTwiddle(Pow(w, 2), h, i, m);
  }

  lemma PairedSums(h: nat, f1: int -> C, f2: int -> C, g2: int -> C, l: int -> C, r: int -> C)
    requires h >= 1
    requires forall i :: 0 <= i < h ==> l(i) == Add(f1(i), f2(i)) && g2(i) == f2(Partner(h, i))
    requires forall i :: 0 <= i < h ==> CasOf(Add(f1(i), g2(i))) == CasOf(r(i))
    ensures CasOf(Sum(h, l)) == CasOf(Sum(h, r))
  {
    hide *;
    var k := i => Add(f1(i), g2(i));
    SumAdd(h, f1, f2, l);
    SumPartner(h, f2, g2);
    SumAdd(h, f1, g2, k);
    CasSum(h, k, r);
  }

  /** The right half of a stage has the Hartley sum of the odd frequencies. */
  lemma RightHalf(w: C, h: nat, d: int -> real, v: int -> C, hi: int -> C, m: int)
    requires Unit(w) && h >= 1 && Pow(w, h) == MINUS_ONE
    requires forall i :: 0 <= i < h ==> v(i) == C(Combine(Pow(w, i), d(i), d(Partner(h, i))), 0.0)
    requires forall i :: 0 <= i < h ==> hi(i) == Mul(C(d(i), 0.0), Pow(w, i))
    ensures CasOf(Dft(h, Pow(w, 2), v, m)) == CasOf(Dft(h, Pow(w, 2), hi, m))
  {
    hide *;
    var z := i => Twiddle(Pow(w, 2), i, m);
    var f1, f2 := i => Scale(Times(Pow(w, i).re, d(i)), z(i)), i => Scale(Times(Pow(w, i).im, d(Partner(h, i))), z(i));
    var g2, l, r := i => f2(Partner(h, i)), i => Mul(v(i), z(i)), i => Mul(hi(i), z(i));
    forall i | 0 <= i < h
      ensures l(i) == Add(f1(i), f2(i)) && CasOf(Add(f1(i), g2(i))) == CasOf(r(i))
    {
      RightTerm(Pow(w, i), d(i), d(Partner(h, i)), v(i), hi(i), z(i));
      PartnerTerm(w, h, d, f2, i, m);
      assert g2(i) == f2(Partner(h, i)) && l(i) == Mul(v(i), z(i)) && r(i) == Mul(hi(i), z(i));
    }
    PairedSums(h, f1, f2, g2, l, r);
    DftTerms(h, Pow(w, 2), v, m, l);
    DftTerms(h, Pow(w, 2), hi, m, r);
  }

  /** The halves after a stage in frequency have the even and the odd frequencies. */
  lemma StageHalves(t: Trig, e: nat -> C, k: nat, s: seq<real>, h: nat, m: int)
    requires ExactTable(t, e) && k >= 2 && h == Pow2(k) && |s| == 2 * h
    ensures var u := StageF(t, s, h);
            && HartleyAt(e(h), u[..h], m) == HartleyAt(e(2 * h), s, 2 * m)
            && HartleyAt(e(h), u[h..], m) == HartleyAt(e(2 * h), s, 2 * m + 1)
  {
    hide *;
    ExactRoots(t, e);
    AtLeastOne(k);
    var u, w := StageF(t, s, h), e(2 * h);
    OmegaForward(e, h);
    OmegaForward(e, 2 * h);
    OmegaPrimitive(e, 2 * h, 1);
    OmegaHalves(e, h, 1);
    var d := i => if 0 <= i < h then s[i] - s[h + i] else 0.0;
    var x, lo, right, hi := Cells(Real(s)), Cells(Real(u[..h])), Cells(Real(u[h..])), i => Mul(C(d(i), 0.0), Pow(w, i));
    forall i | 0 <= i < h
      ensures lo(i) == Add(x(i), x(h + i)) && hi(i) == Mul(Sub(x(i), x(h + i)), Pow(w, i))
      ensures right(i) == C(Combine(Pow(w, i), d(i), d(Partner(h, i))), 0.0)
    {
      StageCells(t, e, k, s, h, i);
      RealCells(s, i);
      RealCells(s, h + i);
      RealCells(u[..h], i);
      RealCells(u[h..], i);
      RealSumDifference(s[i], s[h + i]);
    }
    DftFrequency(h, w, x, lo, hi, m);
    RightHalf(w, h, d, right, hi, m);
    HartleyIs(e(h), u[..h], m);
    HartleyIs(e(h), u[h..], m);
    HartleyIs(w, s, 2 * m);
    HartleyIs(w, s, 2 * m + 1);
  }

  lemma AtLeastOne(k: nat)
    ensures Pow2(k) >= 1
  {}

  lemma HartleyIs(w: C, s: seq<real>, k: int)
    ensures HartleyAt(w, s, k) == CasOf(Dft(|s|, w, Cells(Real(s)), k))
  {}

  lemma RealSumDifference(a: real, b: real)
    ensures Add(C(a, 0.0), C(b, 0.0)) == C(a + b, 0.0) && Sub(C(a, 0.0), C(b, 0.0)) == C(a - b, 0.0)
  {}

  lemma StageCells(t: Trig, e: nat -> C, k: nat, s: seq<real>, h: nat, i: nat)
    requires ExactTable(t, e) && k >= 2 && h == Pow2(k) && |s| == 2 * h && i < h
    ensures 0 <= Partner(h, i) < h
    ensures var (u, j) := (StageF(t, s, h), Partner(h, i));
            u[i] == s[i] + s[h + i] && u[h + i] == Combine(Pow(e(2 * h), i), s[i] - s[h + i], s[j] - s[h + j])
  {
    hide *;
    CoefExact(t, e, k, h, i);
    StageFAt(t, s, h, i);
  }

  lemma StageFAt(t: Trig, s: seq<real>, h: nat, i: nat)
    requires |s| == 2 * h && i < h
    ensures 0 <= Partner(h, i) < h
    ensures var (u, j) := (StageF(t, s, h), Partner(h, i));
            u[i] == s[i] + s[h + i] && u[h + i] == Combine(Coef(t, h, i), s[i] - s[h + i], s[j] - s[h + j])
  {
    hide Coef, Combine;
  }

  // ----- four samples -----

  lemma {:induction false} PowQuarter(n: nat)
    ensures Pow(QUARTER, n) == if n % 4 == 0 then ONE else if n % 4 == 1 then QUARTER else if n % 4 == 2 then MINUS_ONE else C(0.0, -1.0)
  {
    hide Mul;
    if n > 0 {
      PowQuarter(n - 1);
      PowLast(QUARTER, n);
      MulComm(Pow(QUARTER, n - 1), QUARTER);
      TimesQuarter(Pow(QUARTER, n - 1));
    } else {
      PowAtZero(QUARTER);
    }
    hide Pow;
  }

  /** On quarters of a turn cosine plus sine is 1, 1, -1, -1. */
  lemma CasTerm(d: real, n: nat)
    ensures CasOf(Mul(C(d, 0.0), Pow(QUARTER, n))) == if n % 4 < 2 then d else -d
  {
    PowQuarter(n);
    ScaleReal(d, Pow(QUARTER, n));
    hide Mul, Pow;
  }

  lemma CasOfFourTerms(f: int -> C)
    ensures CasOf(Sum(4, f)) == CasOf(f(0)) + CasOf(f(1)) + CasOf(f(2)) + CasOf(f(3))
  {
    SumOne(f);
    assert Sum(2, f) == Add(Sum(1, f), f(1)) && Sum(3, f) == Add(Sum(2, f), f(2)) && Sum(4, f) == Add(Sum(3, f), f(3));
    hide Sum;
  }

  lemma HartleyOfFour(s: seq<real>, k: nat)
    requires |s| == 4 && k < 4
    ensures HartleyAt(QUARTER, s, k) ==
            if k == 0 then s[0] + s[1] + s[2] + s[3]
            else if k == 1 then s[0] + s[1] - s[2] - s[3]
            else if k == 2 then s[0] - s[1] + s[2] - s[3]
            else s[0] - s[1] - s[2] + s[3]
  {
    hide *;
    var f := j => Mul(Cells(Real(s))(j), Twiddle(QUARTER, j, k));
    forall j | 0 <= j < 4
      ensures CasOf(f(j)) == if (j * k) % 4 < 2 then s[j] else -s[j]
    {
      NonNegative(j, k);
      RealCells(s, j);
      TwiddleIsPow(QUARTER, j, k);
      CasTerm(s[j], j * k);
    }
    DftTerms(4, QUARTER, Cells(Real(s)), k, f);
    HartleyIs(QUARTER, s, k);
    CasOfFourTerms(f);
    assert 0 * k == 0 && 1 * k == k && 2 * k == k + k && 3 * k == k + k + k;
  }

  lemma NonNegative(j: int, k: int)
    requires j >= 0 && k >= 0
    ensures j * k >= 0
  {}

  lemma SmallPowers()
    ensures Pow2(0) == 1 && Pow2(1) == 2 && Pow2(2) == 4
  {}

  lemma ReverseOfFour()
    ensures Reverse(2, 0) == 0 && Reverse(2, 1) == 2 && Reverse(2, 2) == 1 && Reverse(2, 3) == 3
  {
    SmallPowers();
    assert Reverse(1, 0) == 0 && Reverse(1, 1) == 1;
  }

  lemma FrequencyOfFour(t: Trig, e: nat -> C, s: seq<real>, p: nat)
    requires ExactTable(t, e) && |s| == 4 && Size(4) && p < 4
    ensures FhtF(t, s)[p] == HartleyAt(e(4), s, Reverse(2, p))
  {
    hide *;
    ReverseOfFour();
    ExactRoots(t, e);
    FourIs(t, s);
    HartleyOfFour(s, Reverse(2, p));
  }

  /** One stage, given the transforms of the halves after it. */
  lemma FrequencyNext(t: Trig, e: nat -> C, k: nat, s: seq<real>, h: nat, p: nat, a: seq<real>, b: seq<real>)
    requires ExactTable(t, e) && k >= 2 && h == Pow2(k) && |s| == 2 * h && p < |s| && |a| == |b| == h
    requires p < h ==> a[p] == HartleyAt(e(h), StageF(t, s, h)[..h], Reverse(k, p))
    requires p >= h ==> b[p - h] == HartleyAt(e(h), StageF(t, s, h)[h..], Reverse(k, p - h))
    ensures (a + b)[p] == HartleyAt(e(2 * h), s, Reverse(k + 1, p))
  {
    hide *;
    LengthIs(k + 1);
    ReverseHalves(k + 1, p);
    StageHalves(t, e, k, s, h, Reverse(k, if p < h then p else p - h));
  }

  /** RFHT_F computes the Hartley sums of its input and leaves them in bit-reversed order. */
  lemma {:induction false} FrequencyIsHartley(t: Trig, e: nat -> C, k: nat, s: seq<real>, p: nat)
    requires ExactTable(t, e) && k >= 2 && |s| == Pow2(k) && p < |s|
    ensures Size(|s|) && FhtF(t, s)[p] == HartleyAt(e(|s|), s, Reverse(k, p))
    decreases k
  {
    hide *;
    SizeOf(k);
    if k == 2 {
      SmallPowers();
      FrequencyOfFour(t, e, s, p);
    } else {
      var h := Pow2(k - 1);
      LengthIs(k);
      SizeOf(k - 1);
      FhtFStep(t, s, h);
      var u := StageF(t, s, h);
      if p < h {
        FrequencyIsHartley(t, e, k - 1, u[..h], p);
      } else {
        FrequencyIsHartley(t, e, k - 1, u[h..], p - h);
      }
      FrequencyNext(t, e, k - 1, s, h, p, FhtF(t, u[..h]), FhtF(t, u[h..]));
    }
  }

  lemma SizeOf(k: nat)
    requires k >= 2
    ensures Size(Pow2(k))
  {}

  lemma LengthIs(k: nat)
    requires k >= 3
    ensures Pow2(k) == 2 * Pow2(k - 1) && Pow2(k) != 4 && Pow2(k - 1) >= 4
  {
    Pow2Monotone(2, k - 1);
    SmallPowers();
  }

  lemma FourIs(t: Trig, s: seq<real>)
    requires |s| == 4 && Size(4)
    ensures FhtF(t, s) == [s[0] + s[2] + (s[1] + s[3]), s[0] + s[2] - (s[1] + s[3]), s[0] - s[2] + (s[1] - s[3]), s[0] - s[2] - (s[1] - s[3])]
    ensures FhtT(t, s) == [s[0] + s[1] + (s[2] + s[3]), s[0] - s[1] + (s[2] - s[3]), s[0] + s[1] - (s[2] + s[3]), s[0] - s[1] - (s[2] - s[3])]
  {}

  // ----- decimation in time -----

  /** The samples at even places, or at odd ones. */
  function Alternate(x: seq<real>, odd: int): (r: seq<real>)
    requires |x| % 2 == 0 && 0 <= odd < 2
    ensures |r| == |x| / 2
  {
    seq(|x| / 2, i requires 0 <= i < |x| / 2 => x[2 * i + odd])
  }

  lemma AlternateAt(x: seq<real>, odd: int, i: nat)
    requires |x| % 2 == 0 && 0 <= odd < 2 && 2 * i + 1 < |x|
    ensures Alternate(x, odd)[i] == x[2 * i + odd]
  {}

  /** The halves of the bit-reversed input are the even and the odd samples in bit-reversed order. */
  lemma ShuffledHalves(x: seq<real>, k: nat, h: nat)
    requires k >= 1 && |x| == Pow2(k) == 2 * h && h == Pow2(k - 1)
    ensures |x| % 2 == 0 && |Alternate(x, 0)| == |Alternate(x, 1)| == h
    ensures Shuffled(x, k) == Shuffled(Alternate(x, 0), k - 1) + Shuffled(Alternate(x, 1), k - 1)
  {
    hide Pow2, Reverse, Alternate;
    var (y, a, b) := (Shuffled(x, k), Shuffled(Alternate(x, 0), k - 1), Shuffled(Alternate(x, 1), k - 1));
    forall p: nat | p < |x|
      ensures y[p] == (a + b)[p]
    {
      ReverseHalves(k, p);
      ReverseBound(k, p);
      ReverseBound(k - 1, if p < h then p else p - h);
      AlternateAt(x, if p < h then 0 else 1, Reverse(k - 1, if p < h then p else p - h));
    }
  }

  /** Frequencies j and j + h from those of the even and the odd samples. */
  lemma HartleyTime(t: Trig, e: nat -> C, k: nat, x: seq<real>, h: nat, j: nat)
    requires ExactTable(t, e) && k >= 2 && h == Pow2(k) && |x| == 2 * h && j < h
    ensures 0 <= Partner(h, j) < h && |x| % 2 == 0
    ensures var (a, b) := (HartleyAt(e(h), Alternate(x, 0), j),
                           Combine(Pow(e(2 * h), j), HartleyAt(e(h), Alternate(x, 1), j), HartleyAt(e(h), Alternate(x, 1), Partner(h, j))));
            HartleyAt(e(2 * h), x, j) == a + b && HartleyAt(e(2 * h), x, j + h) == a - b
  {
    hide *;
    ExactRoots(t, e);
    AtLeastOne(k);
    PartnerRange(h, j);
    var w := e(2 * h);
    OmegaForward(e, h);
    OmegaForward(e, 2 * h);
    OmegaPrimitive(e, 2 * h, 1);
    OmegaPrimitive(e, h, 1);
    PrimitiveIsUnit(h, e(h));
    OmegaHalves(e, h, 1);
    var (even, odd, y) := (Cells(Real(Alternate(x, 0))), Cells(Real(Alternate(x, 1))), Cells(Real(x)));
    forall i | 0 <= i < h
      ensures even(i) == y(2 * i) && odd(i) == y(2 * i + 1)
    {
      AlternateAt(x, 0, i);
      AlternateAt(x, 1, i);
      RealCells(Alternate(x, 0), i);
      RealCells(Alternate(x, 1), i);
      RealCells(x, 2 * i);
      RealCells(x, 2 * i + 1);
    }
    Butterfly(h, w, y, even, odd, j);
    var z := Dft(h, e(h), odd, j);
    CasTurned(Pow(w, j), z);
    CasAdd(Dft(h, e(h), even, j), Mul(Pow(w, j), z));
    PartnerFrequency(e(h), h, Alternate(x, 1), j);
    HartleyIs(w, x, j);
    HartleyIs(w, x, j + h);
    HartleyIs(e(h), Alternate(x, 0), j);
    HartleyIs(e(h), Alternate(x, 1), j);
  }

  lemma CasAdd(a: C, b: C)
    ensures CasOf(Add(a, b)) == CasOf(a) + CasOf(b) && CasOf(Sub(a, b)) == CasOf(a) - CasOf(b)
  {}

  lemma PartnerFrequency(w: C, h: nat, s: seq<real>, j: nat)
    requires Unit(w) && Pow(w, h) == ONE && |s| == h && j < h
    ensures HartleyAt(w, s, Partner(h, j)) == CasOf(Conj(Dft(h, w, Cells(Real(s)), j)))
  {
    hide *;
    forall i | 0 <= i < h
      ensures Cells(Real(s))(i).im == 0.0
    {
      RealCells(s, i);
    }
    DftConj(h, w, Cells(Real(s)), j);
    DftPeriodic(h, w, Cells(Real(s)), 0);
    PartnerIs(h, j);
    HartleyIs(w, s, Partner(h, j));
  }

  lemma TimeOfFour(t: Trig, e: nat -> C, x: seq<real>, j: nat)
    requires ExactTable(t, e) && |x| == 4 == Pow2(2) && Size(4) && j < 4
    ensures FhtT(t, Shuffled(x, 2))[j] == HartleyAt(e(4), x, j)
  {
    hide *;
    ExactRoots(t, e);
    ShuffledFour(x);
    FourIs(t, Shuffled(x, 2));
    HartleyOfFour(x, j);
  }

  /** One stage, given the transforms of the even and the odd samples. */
  lemma TimeNext(t: Trig, e: nat -> C, k: nat, x: seq<real>, h: nat, j: nat, i: nat, a: seq<real>, b: seq<real>)
    requires ExactTable(t, e) && k >= 2 && h == Pow2(k) && |x| == 2 * h && j < 2 * h && i == (if j < h then j else j - h)
    requires |x| % 2 == 0 && |a| == |b| == h && 0 <= Partner(h, i) < h
    requires a[i] == HartleyAt(e(h), Alternate(x, 0), i) && b[i] == HartleyAt(e(h), Alternate(x, 1), i)
    requires b[Partner(h, i)] == HartleyAt(e(h), Alternate(x, 1), Partner(h, i))
    ensures StageT(t, a + b, h)[j] == HartleyAt(e(2 * h), x, j)
  {
    hide *;
    HartleyTime(t, e, k, x, h, i);
    TimeCells(t, e, k, a + b, h, j, i);
  }

  /** RFHT_T computes the Hartley sums of samples that are given in bit-reversed order. */
  lemma {:induction false} TimeIsHartley(t: Trig, e: nat -> C, k: nat, x: seq<real>, j: nat)
    requires ExactTable(t, e) && k >= 2 && |x| == Pow2(k) && j < |x|
    ensures Size(|x|) && FhtT(t, Shuffled(x, k))[j] == HartleyAt(e(|x|), x, j)
    decreases k
  {
    hide *;
    SizeOf(k);
    if k == 2 {
      SmallPowers();
      TimeOfFour(t, e, x, j);
    } else {
      var h := Pow2(k - 1);
      LengthIs(k);
      SizeOf(k - 1);
      ShuffledHalves(x, k, h);
      var (a, b) := (Shuffled(Alternate(x, 0), k - 1), Shuffled(Alternate(x, 1), k - 1));
      FhtTStep(t, Shuffled(x, k), h, a, b);
      var i := if j < h then j else j - h;
      PartnerRange(h, i);
      TimeIsHartley(t, e, k - 1, Alternate(x, 0), i);
      TimeIsHartley(t, e, k - 1, Alternate(x, 1), i);
      TimeIsHartley(t, e, k - 1, Alternate(x, 1), Partner(h, i));
      TimeNext(t, e, k - 1, x, h, j, i, FhtT(t, a), FhtT(t, b));
    }
  }

  lemma TimeCells(t: Trig, e: nat -> C, k: nat, s: seq<real>, h: nat, j: nat, i: nat)
    requires ExactTable(t, e) && k >= 2 && h == Pow2(k) && |s| == 2 * h && j < 2 * h && i == if j < h then j else j - h
    ensures 0 <= Partner(h, i) < h
    ensures var b := Combine(Pow(e(2 * h), i), s[h + i], s[h + Partner(h, i)]);
            StageT(t, s, h)[j] == if j < h then s[i] + b else s[i] - b
  {
    hide *;
    CoefExact(t, e, k, h, i);
    StageTAt(t, s, h, j, i);
  }

  lemma StageTAt(t: Trig, s: seq<real>, h: nat, j: nat, i: nat)
    requires |s| == 2 * h && j < 2 * h && i == if j < h then j else j - h
    ensures 0 <= Partner(h, i) < h
    ensures var b := Combine(Coef(t, h, i), s[h + i], s[h + Partner(h, i)]);
            StageT(t, s, h)[j] == if j < h then s[i] + b else s[i] - b
  {
    hide Coef, Combine;
  }

  lemma ShuffledFour(x: seq<real>)
    requires |x| == 4 == Pow2(2)
    ensures Shuffled(x, 2) == [x[0], x[2], x[1], x[3]]
  {
    ReverseOfFour();
    hide Reverse, Pow2;
  }
}
