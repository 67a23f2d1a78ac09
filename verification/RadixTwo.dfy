/** The radix-2 transform between its stages: what every cell holds after a number of stages of
    decimation in time, and one step of decimation in frequency.
  */
module RadixTwo {
  import opened ComplexNumbers
  import opened DiscreteFourier
  import opened Roots
  import opened Arithmetic

  // ----- the state of an array between two stages -----

  /** Every stride-th sample, from an offset. */
  function Samples(x: int -> C, offset: int, stride: int): int -> C {
    m => x(offset + stride * m)
  }

  lemma SamplesAt(x: int -> C, offset: int, stride: int, m: int)
    ensures Samples(x, offset, stride)(m) == x(offset + stride * m)
  {}

  /** The value of cell p after t of K stages: cell p lies in a block of 2^t cells that holds
      the transform of every 2^(K-t)-th sample from a bit-reversed offset. */
  function BlockDft(e: nat -> C, sign: int, K: nat, x: seq<C>, t: nat, p: nat): C
    requires t <= K
  {
    var s := Pow2(t);
    Dft(s, Omega(e, s, sign), Samples(Cells(x), Reverse(K - t, Quotient(p, s)), Pow2(K - t)), p % s)
  }

  /** BlockDft, given the block and the place in it. */
  lemma BlockDftAt(e: nat -> C, sign: int, K: nat, x: seq<C>, t: nat, c: nat, r: nat, p: nat)
    requires t <= K && r < Pow2(t) && p == Pow2(t) * c + r
    ensures BlockDft(e, sign, K, x, t, p)
         == Dft(Pow2(t), Omega(e, Pow2(t), sign), Samples(Cells(x), Reverse(K - t, c), Pow2(K - t)), r)
  {
    hide Dft, Samples, Cells, Omega, Reverse, Pow2;
    DivModUnique(p, Pow2(t), c, r);
  }

  lemma EvenOddSamples(K: nat, t: nat, x: int -> C, c: nat, even: int -> C, odd: int -> C, all: int -> C, m: int)
    requires t < K
    requires even == Samples(x, Reverse(K - t, 2 * c), Pow2(K - t))
    requires odd == Samples(x, Reverse(K - t, 2 * c + 1), Pow2(K - t))
    requires all == Samples(x, Reverse(K - t - 1, c), Pow2(K - t - 1))
    ensures even(m) == all(2 * m) && odd(m) == all(2 * m + 1)
  {
    hide *;
    var (off, d) := (Reverse(K - t - 1, c), Pow2(K - t - 1));
    ReverseStep(K - t, 2 * c);
    ReverseStep(K - t, 2 * c + 1);
    assert (2 * c) / 2 == c && (2 * c + 1) / 2 == c;
    Pow2Double(K - t - 1);
    SamplesAt(x, off, d, 2 * m);
    SamplesAt(x, off, d, 2 * m + 1);
    SamplesAt(x, off, 2 * d, m);
    SamplesAt(x, off + d, 2 * d, m);
    assert 2 * d * m == d * (2 * m);
    assert d + 2 * d * m == d * (2 * m + 1);
  }

  /** One butterfly takes cells p and p + 2^t of a block from stage t to stage t + 1. */
  lemma StageStep(e: nat -> C, sign: int, K: nat, x: seq<C>, t: nat, c: nat, r: nat, p: nat)
    requires RootFamily(e) && t < K && r < Pow2(t) && p == 2 * Pow2(t) * c + r
    ensures var s := Pow2(t);
            var a := BlockDft(e, sign, K, x, t, p);
            var b := Mul(Pow(Omega(e, 2 * s, sign), r), BlockDft(e, sign, K, x, t, p + s));
            && BlockDft(e, sign, K, x, t + 1, p) == Add(a, b)
            && BlockDft(e, sign, K, x, t + 1, p + s) == Sub(a, b)
  {
    hide *;
    var s, w := Pow2(t), Omega(e, 2 * Pow2(t), sign);
    Pow2Double(t);
    assert p == s * (2 * c) + r && p + s == s * (2 * c + 1) + r;
    BlockDftAt(e, sign, K, x, t, 2 * c, r, p);
    BlockDftAt(e, sign, K, x, t, 2 * c + 1, r, p + s);
    BlockDftAt(e, sign, K, x, t + 1, c, r, p);
    BlockDftAt(e, sign, K, x, t + 1, c, r + s, p + s);
    OmegaPrimitive(e, 2 * s, sign);
    OmegaHalves(e, s, sign);
    var even, odd := Samples(Cells(x), Reverse(K - t, 2 * c), Pow2(K - t)), Samples(Cells(x), Reverse(K - t, 2 * c + 1), Pow2(K - t));
    var all := Samples(Cells(x), Reverse(K - t - 1, c), Pow2(K - t - 1));
    forall m | 0 <= m < s
      ensures even(m) == all(2 * m) && odd(m) == all(2 * m + 1)
    {
      EvenOddSamples(K, t, Cells(x), c, even, odd, all, m);
    }
    Butterfly(s, w, all, even, odd, r);
  }

  lemma Pow2Double(t: nat)
    ensures Pow2(t + 1) == 2 * Pow2(t)
  {}

  lemma FirstStage(e: nat -> C, sign: int, K: nat, x: seq<C>, p: nat)
    requires p < Pow2(K) == |x|
    ensures Reverse(K, p) < |x| && BlockDft(e, sign, K, x, 0, p) == x[Reverse(K, p)]
  {
    ReverseBound(K, p);
    var w := Omega(e, 1, sign);
    var y := Samples(Cells(x), Reverse(K, p), Pow2(K));
    assert Pow2(0) == 1 && p / 1 == p && p % 1 == 0;
    SamplesAt(Cells(x), Reverse(K, p), Pow2(K), 0);
    assert y(0) == x[Reverse(K, p)];
    TwiddleOne(w, 0);
    MulOne(y(0));
    hide Mul, Twiddle;
    assert Dft(1, w, y, 0) == Add(ZERO, Mul(y(0), Twiddle(w, 0, 0)));
  }

  lemma LastStage(e: nat -> C, sign: int, K: nat, x: seq<C>, p: nat)
    requires p < Pow2(K) == |x|
    ensures BlockDft(e, sign, K, x, K, p) == Dft(|x|, Omega(e, |x|, sign), Cells(x), p)
  {
    hide Dft, Mul, Cells, Omega;
    BlockDftAt(e, sign, K, x, K, 0, p, p);
    var y := Samples(Cells(x), Reverse(0, 0), Pow2(0));
    forall m | 0 <= m < |x|
      ensures y(m) == Cells(x)(m)
    {
      SamplesAt(Cells(x), 0, 1, m);
    }
    DftExt(|x|, Omega(e, |x|, sign), y, Cells(x), p);
  }

  // ----- decimation in frequency -----

  lemma UnitMinusOne()
    ensures Unit(MINUS_ONE)
  {
    MulMinusOne(Conj(MINUS_ONE));
    hide Mul;
  }

  lemma MinusOnePower(m: int)
    ensures Pow(MINUS_ONE, 2 * m) == ONE && Pow(MINUS_ONE, 2 * m + 1) == MINUS_ONE
  {
    hide *;
    MinusOneSquared();
    UnitMinusOne();
    PowMul(MINUS_ONE, 2, m);
    PowOne(m);
    PowStep(MINUS_ONE, 2 * m);
    MulOne(MINUS_ONE);
  }

  /** Half a circle further on, even frequencies stay and odd ones change sign. */
  lemma HalfTurnTwiddle(h: nat, w: C, i: int, m: int)
    requires Unit(w) && Pow(w, h) == MINUS_ONE
    ensures Twiddle(w, h + i, 2 * m) == Twiddle(Pow(w, 2), i, m)
    ensures Twiddle(w, i, 2 * m) == Twiddle(Pow(w, 2), i, m)
    ensures Twiddle(w, i, 2 * m + 1) == Mul(Pow(w, i), Twiddle(Pow(w, 2), i, m))
    ensures Twiddle(w, h + i, 2 * m + 1) == Neg(Mul(Pow(w, i), Twiddle(Pow(w, 2), i, m)))
  {
    hide *;
    var t := Twiddle(Pow(w, 2), i, m);
    TwiddlePow(w, 2, i, m);
    TwiddleIsPow(w, 2 * i, m);
    TwiddleIsPow(w, i, 2 * m);
    TwiddleIsPow(w, i, 2 * m + 1);
    TwiddleIsPow(w, h, 2 * m);
    TwiddleIsPow(w, h, 2 * m + 1);
    ProductOfThree(i, 2, m);
    assert i * 2 == 2 * i && i * (2 * m + 1) == i + i * (2 * m);
    PowAdd(w, i, i * (2 * m));
    TwiddleAdd(w, h, i, 2 * m);
    TwiddleAdd(w, h, i, 2 * m + 1);
    PowMul(w, h, 2 * m);
    PowMul(w, h, 2 * m + 1);
    MinusOnePower(m);
    MulOne(t);
    MulMinusOne(Mul(Pow(w, i), t));
  }

  lemma FrequencyTerms(a: C, b: C, p: C, t: C)
    ensures Add(Mul(a, t), Mul(b, t)) == Mul(Add(a, b), t)
    ensures Add(Mul(a, Mul(p, t)), Mul(b, Neg(Mul(p, t)))) == Mul(Mul(Sub(a, b), p), t)
  {
    MulAdd(t, a, b);
    MulAssoc(Sub(a, b), p, t);
    MulSub(Mul(p, t), a, b);
    NegSub(a, b, Mul(p, t));
    hide Mul;
  }

  lemma NegSub(a: C, b: C, t: C)
    ensures Add(Mul(a, t), Mul(b, Neg(t))) == Sub(Mul(a, t), Mul(b, t))
  {}

  /** Even frequencies from the sums of the two halves, odd ones from their rotated differences. */
  lemma DftFrequency(h: nat, w: C, x: int -> C, lo: int -> C, hi: int -> C, m: int)
    requires Unit(w) && Pow(w, h) == MINUS_ONE
    requires forall i :: 0 <= i < h ==> lo(i) == Add(x(i), x(h + i)) && hi(i) == Mul(Sub(x(i), x(h + i)), Pow(w, i))
    ensures Dft(2 * h, w, x, 2 * m) == Dft(h, Pow(w, 2), lo, m)
    ensures Dft(2 * h, w, x, 2 * m + 1) == Dft(h, Pow(w, 2), hi, m)
  {
    hide *;
    DftHalves(h, w, x, lo, 2 * m, m);
    DftHalves(h, w, x, hi, 2 * m + 1, m);
  }

  /** The two terms that meet in the halves. */
  lemma HalvesTerm(h: nat, w: C, a: C, b: C, y: C, k: int, m: int, i: int)
    requires Unit(w) && Pow(w, h) == MINUS_ONE && (k == 2 * m || k == 2 * m + 1)
    requires y == if k == 2 * m then Add(a, b) else Mul(Sub(a, b), Pow(w, i))
    ensures Mul(y, Twiddle(Pow(w, 2), i, m)) == Add(Mul(a, Twiddle(w, i, k)), Mul(b, Twiddle(w, h + i, k)))
  {
    hide *;
    HalfTurnTwiddle(h, w, i, m);
    FrequencyTerms(a, b, Pow(w, i), Twiddle(Pow(w, 2), i, m));
  }

  lemma DftHalves(h: nat, w: C, x: int -> C, y: int -> C, k: int, m: int)
    requires Unit(w) && Pow(w, h) == MINUS_ONE && (k == 2 * m || k == 2 * m + 1)
    requires forall i :: 0 <= i < h ==>
      y(i) == if k == 2 * m then Add(x(i), x(h + i)) else Mul(Sub(x(i), x(h + i)), Pow(w, i))
    ensures Dft(2 * h, w, x, k) == Dft(h, Pow(w, 2), y, m)
  {
    hide *;
    var terms := j => Mul(x(j), Twiddle(w, j, k));
    var upper, both := i => terms(h + i), i => Mul(y(i), Twiddle(Pow(w, 2), i, m));
    forall i | 0 <= i < h
      ensures both(i) == Add(terms(i), upper(i))
    {
      HalvesTerm(h, w, x(i), x(h + i), y(i), k, m, i);
    }
    HalvesSum(h, w, x, y, k, m, terms, upper, both);
  }

  lemma HalvesSum(h: nat, w: C, x: int -> C, y: int -> C, k: int, m: int, terms: int -> C, upper: int -> C, both: int -> C)
    requires forall j :: 0 <= j < 2 * h ==> terms(j) == Mul(x(j), Twiddle(w, j, k))
    requires forall i :: 0 <= i < h ==> upper(i) == terms(h + i) && both(i) == Mul(y(i), Twiddle(Pow(w, 2), i, m))
    requires forall i :: 0 <= i < h ==> both(i) == Add(terms(i), upper(i))
    ensures Dft(2 * h, w, x, k) == Dft(h, Pow(w, 2), y, m)
  {
    hide *;
    SumSplit(h, h, terms, upper);
    SumAdd(h, terms, upper, both);
    DftTerms(2 * h, w, x, k, terms);
    DftTerms(h, Pow(w, 2), y, m, both);
  }
}
