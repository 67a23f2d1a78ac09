/** The discrete Fourier transform over exact complex numbers: decimation in time,
    inversion, and the convolution theorem.
  */
module DiscreteFourier {
  import opened ComplexNumbers

  ghost predicate PrimitiveRoot(w: C, n: nat) {
    && Unit(w)
    && Pow(w, n) == ONE
    && forall d :: 0 < d < n ==> Pow(w, d) != ONE
  }

  // ----- twiddle factors -----

  function Twiddle(w: C, j: int, k: int): C { Pow(w, j * k) }

  lemma TwiddleAdd(w: C, a: int, b: int, k: int)
    requires Unit(w)
    ensures Twiddle(w, a + b, k) == Mul(Twiddle(w, a, k), Twiddle(w, b, k))
  {
    hide Mul, Unit, Pow;
    var p, q := a * k, b * k;
    assert (a + b) * k == p + q;
    PowAdd(w, p, q);
  }

  lemma TwiddleComm(w: C, a: int, b: int)
    ensures Twiddle(w, a, b) == Twiddle(w, b, a)
  {}

  lemma TwiddleConj(w: C, j: int, k: int)
    ensures Twiddle(Conj(w), j, k) == Twiddle(w, -j, k)
  {
    hide Mul, Pow;
    PowConj(w, j * k);
    assert -(j * k) == (-j) * k;
  }

  lemma TwiddlePow(w: C, c: int, j: int, k: int)
    requires Unit(w)
    ensures Twiddle(Pow(w, c), j, k) == Twiddle(w, c * j, k)
  {
    hide *;
    TwiddleIsPow(Pow(w, c), j, k);
    TwiddleIsPow(w, c * j, k);
    PowMul(w, c, j * k);
    ProductOfThree(c, j, k);
  }

  lemma TwiddleIsPow(w: C, j: int, k: int)
    ensures Twiddle(w, j, k) == Pow(w, j * k)
  {}

  lemma ProductOfThree(a: int, b: int, c: int)
    ensures a * (b * c) == (a * b) * c
  {}

  lemma TwiddleOne(w: C, k: int)
    ensures Twiddle(w, 1, k) == Pow(w, k)
    ensures Twiddle(w, 0, k) == ONE
  {}

  lemma TwiddlePeriodic(n: nat, w: C, j: int, t: int, k: int)
    requires Unit(w) && Pow(w, n) == ONE
    ensures Twiddle(w, j + n * t, k) == Twiddle(w, j, k)
  {
    hide Mul, Unit, Pow;
    TwiddleAdd(w, j, n * t, k);
    PowMul(w, n, t * k);
    assert n * (t * k) == n * t * k;
    PowOne(t * k);
    MulOne(Twiddle(w, j, k));
  }

  // ----- the transform -----

  /** The samples of s as a function that vanishes outside s. */
  function Cells(s: seq<C>): int -> C {
    i => if 0 <= i < |s| then s[i] else ZERO
  }

  /** x(0) + x(1) w^k + ... + x(n - 1) w^((n - 1) k) */
  function Dft(n: nat, w: C, x: int -> C, k: int): C {
    Sum(n, j => Mul(x(j), Twiddle(w, j, k)))
  }

  lemma DftTerms(n: nat, w: C, x: int -> C, k: int, terms: int -> C)
    requires forall j :: 0 <= j < n ==> terms(j) == Mul(x(j), Twiddle(w, j, k))
    ensures Dft(n, w, x, k) == Sum(n, terms)
  {
    hide Mul, Twiddle, Sum;
    SumExt(n, j => Mul(x(j), Twiddle(w, j, k)), terms);
  }

  lemma DftExt(n: nat, w: C, x: int -> C, y: int -> C, k: int)
    requires forall j :: 0 <= j < n ==> x(j) == y(j)
    ensures Dft(n, w, x, k) == Dft(n, w, y, k)
  {
    hide *;
    DftTerms(n, w, x, k, j => Mul(y(j), Twiddle(w, j, k)));
    DftTerms(n, w, y, k, j => Mul(y(j), Twiddle(w, j, k)));
  }

  lemma DftPeriodic(n: nat, w: C, x: int -> C, k: int)
    requires Unit(w) && Pow(w, n) == ONE
    ensures Dft(n, w, x, k + n) == Dft(n, w, x, k)
  {
    hide *;
    var terms := j => Mul(x(j), Twiddle(w, j, k));
    forall j | 0 <= j < n
      ensures terms(j) == Mul(x(j), Twiddle(w, j, k + n))
    {
      TwiddlePeriodic(n, w, k, 1, j);
      TwiddleComm(w, j, k + n);
      TwiddleComm(w, j, k);
    }
    DftTerms(n, w, x, k + n, terms);
    DftTerms(n, w, x, k, terms);
  }

  // ----- decimation in time -----

  lemma DftEvenOdd(s: nat, w: C, x: int -> C, even: int -> C, odd: int -> C, k: int)
    requires Unit(w)
    requires forall j :: 0 <= j < s ==> even(j) == x(2 * j) && odd(j) == x(2 * j + 1)
    ensures Dft(2 * s, w, x, k)
         == Add(Dft(s, Pow(w, 2), even, k), Mul(Pow(w, k), Dft(s, Pow(w, 2), odd, k)))
  {
    hide *;
    var w2 := Pow(w, 2);
    var terms := j => Mul(x(j), Twiddle(w, j, k));
    var evens, odds := j => Mul(even(j), Twiddle(w2, j, k)), j => Mul(odd(j), Twiddle(w2, j, k));
    var twisted := j => Mul(Pow(w, k), odds(j));
    forall j | 0 <= j < s
      ensures evens(j) == terms(2 * j) && twisted(j) == terms(2 * j + 1)
    {
      TwiddlePow(w, 2, j, k);
      TwiddleAdd(w, 2 * j, 1, k);
      TwiddleOne(w, k);
      MulAssoc(odd(j), Twiddle(w2, j, k), Pow(w, k));
      MulComm(Pow(w, k), odds(j));
    }
    SumEvenOdd(s, terms, evens, twisted);
    SumMul(s, Pow(w, k), odds, twisted);
    DftTerms(2 * s, w, x, k, terms);
    DftTerms(s, w2, even, k, evens);
    DftTerms(s, w2, odd, k, odds);
  }

  /** The butterfly: the two halves of a transform of length 2s from two transforms of length s. */
  lemma Butterfly(s: nat, w: C, x: int -> C, even: int -> C, odd: int -> C, k: int)
    requires Unit(w) && Pow(w, s) == MINUS_ONE
    requires forall j :: 0 <= j < s ==> even(j) == x(2 * j) && odd(j) == x(2 * j + 1)
    ensures var w2 := Pow(w, 2);
            var (a, b) := (Dft(s, w2, even, k), Mul(Pow(w, k), Dft(s, w2, odd, k)));
            Dft(2 * s, w, x, k) == Add(a, b) && Dft(2 * s, w, x, k + s) == Sub(a, b)
  {
    hide *;
    var w2 := Pow(w, 2);
    DftEvenOdd(s, w, x, even, odd, k);
    DftEvenOdd(s, w, x, even, odd, k + s);
    UnitPow(w, 2);
    HalfTurnSquared(s, w);
    DftPeriodic(s, w2, even, k);
    DftPeriodic(s, w2, odd, k);
    PowAdd(w, k, s);
    MulMinusOne(Pow(w, k));
    SubtractHalfTurn(Dft(s, w2, even, k), Pow(w, k), Dft(s, w2, odd, k));
  }

  lemma HalfTurnSquared(s: nat, w: C)
    requires Unit(w) && Pow(w, s) == MINUS_ONE
    ensures Pow(Pow(w, 2), s) == ONE
  {
    hide *;
    PowMul(w, 2, s);
    PowMul(w, s, 2);
    assert 2 * s == s * 2;
    MinusOneSquared();
  }

  lemma MinusOneSquared()
    ensures Pow(MINUS_ONE, 2) == ONE
  {
    assert Pow(MINUS_ONE, 1) == MINUS_ONE;
  }

  lemma SubtractHalfTurn(a: C, p: C, b: C)
    ensures Add(a, Mul(Neg(p), b)) == Sub(a, Mul(p, b))
  {}

  // ----- orthogonality and inversion -----

  lemma {:induction false} GeometricSum(n: nat, r: C, f: int -> C)
    requires forall k :: 0 <= k < n ==> f(k) == Pow(r, k)
    ensures Mul(Sub(r, ONE), Sum(n, f)) == Sub(Pow(r, n), ONE)
  {
    hide *;
    if n == 0 {
      GeometricBase(r, f);
    } else {
      GeometricSum(n - 1, r, f);
      GeometricStep(r, Sum(n - 1, f), Pow(r, n - 1));
      SumLast(n, f);
      PowLast(r, n);
    }
  }

  lemma GeometricBase(r: C, f: int -> C)
    ensures Mul(Sub(r, ONE), Sum(0, f)) == Sub(Pow(r, 0), ONE)
  {
    MulZero(Sub(r, ONE));
    hide Mul;
  }

  lemma GeometricStep(r: C, s: C, p: C)
    requires Mul(Sub(r, ONE), s) == Sub(p, ONE)
    ensures Mul(Sub(r, ONE), Add(s, p)) == Sub(Mul(p, r), ONE)
  {
    MulAdd(Sub(r, ONE), s, p);
    MulSub(p, r, ONE);
    MulComm(Sub(r, ONE), p);
    MulOne(p);
    hide Mul;
  }

  lemma PrimitiveConj(n: nat, w: C)
    requires PrimitiveRoot(w, n)
    ensures PrimitiveRoot(Conj(w), n)
  {
    MulComm(w, Conj(w));
    forall d: nat
      ensures Pow(Conj(w), d) == ONE <==> Pow(w, d) == ONE
    {
      PowConj(w, d);
    }
  }

  lemma PrimitiveNoPower(n: nat, w: C, d: int)
    requires PrimitiveRoot(w, n) && -(n as int) < d < n && d != 0
    ensures Pow(w, d) != ONE
  {
    if d < 0 {
      PrimitiveConj(n, w);
      PowConj(w, -d);
    }
  }

  lemma Orthogonality(n: nat, w: C, d: int, f: int -> C)
    requires PrimitiveRoot(w, n) && -(n as int) < d < n
    requires forall k :: 0 <= k < n ==> f(k) == Twiddle(w, d, k)
    ensures Sum(n, f) == if d == 0 then C(n as real, 0.0) else ZERO
  {
    hide Mul, Unit, Pow, Sum;
    if d == 0 {
      forall k | 0 <= k < n ensures f(k) == ONE { TwiddleOne(w, k); }
      SumOnes(n, f);
    } else {
      var r := Pow(w, d);
      forall k | 0 <= k < n
        ensures f(k) == Pow(r, k)
      {
        PowMul(w, d, k);
      }
      GeometricSum(n, r, f);
      PowMul(w, d, n);
      PowMul(w, n, d);
      PowOne(d);
      assert d * n == n * d;
      PrimitiveNoPower(n, w, d);
      NoZeroDivisors(Sub(r, ONE), Sum(n, f));
    }
  }

  lemma PrimitiveIsUnit(n: nat, w: C)
    requires PrimitiveRoot(w, n)
    ensures Unit(w) && Pow(w, n) == ONE
  {}

  /** The transform by the conjugate root undoes the transform, up to the factor n. */
  lemma Inversion(n: nat, w: C, x: int -> C, X: int -> C, j: int)
    requires PrimitiveRoot(w, n) && 0 <= j < n
    requires forall k :: 0 <= k < n ==> X(k) == Dft(n, w, x, k)
    ensures Dft(n, Conj(w), X, j) == Scale(n as real, x(j))
  {
    hide *;
    var f := (k: int, m: int) => Mul(x(m), Twiddle(w, m - j, k));
    var rows, columns := k => Mul(X(k), Twiddle(Conj(w), k, j)), m => Sum(n, k => f(k, m));
    forall k | 0 <= k < n
      ensures rows(k) == Sum(n, m => f(k, m))
    {
      InversionRow(n, w, x, k, j, m => f(k, m));
    }
    SumSwap(n, n, f, rows, columns);
    forall m | 0 <= m < n
      ensures columns(m) == if m == j then Scale(n as real, x(j)) else ZERO
    {
      InversionColumn(n, w, x(m), m, j, k => f(k, m));
    }
    SumSingle(n, j, columns);
    DftTerms(n, Conj(w), X, j, rows);
  }

  lemma InversionRow(n: nat, w: C, x: int -> C, k: int, j: int, row: int -> C)
    requires PrimitiveRoot(w, n)
    requires forall m :: 0 <= m < n ==> row(m) == Mul(x(m), Twiddle(w, m - j, k))
    ensures Mul(Dft(n, w, x, k), Twiddle(Conj(w), k, j)) == Sum(n, row)
  {
    hide *;
    PrimitiveIsUnit(n, w);
    var q := Twiddle(Conj(w), k, j);
    var terms := m => Mul(x(m), Twiddle(w, m, k));
    TwiddleComm(Conj(w), k, j);
    TwiddleConj(w, j, k);
    forall m | 0 <= m < n
      ensures row(m) == Mul(q, terms(m))
    {
      TwiddleAdd(w, m, -j, k);
      assert m + -j == m - j;
      MulAssoc(x(m), Twiddle(w, m, k), q);
      MulComm(q, terms(m));
    }
    SumMul(n, q, terms, row);
    MulComm(q, Sum(n, terms));
    DftTerms(n, w, x, k, terms);
  }

  lemma InversionColumn(n: nat, w: C, a: C, m: int, j: int, column: int -> C)
    requires PrimitiveRoot(w, n) && 0 <= m < n && 0 <= j < n
    requires forall k :: 0 <= k < n ==> column(k) == Mul(a, Twiddle(w, m - j, k))
    ensures Sum(n, column) == if m == j then Scale(n as real, a) else ZERO
  {
    hide *;
    var powers := k => Twiddle(w, m - j, k);
    SumMul(n, a, powers, column);
    Orthogonality(n, w, m - j, powers);
    MulReal(a, n as real);
    MulZero(a);
  }

  lemma MulReal(a: C, r: real)
    ensures Mul(a, C(r, 0.0)) == Scale(r, a)
  {}

  // ----- circular convolution -----

  /** p - j on the circle of n points. */
  function Lag(n: nat, p: int, j: int): int
    requires n > 0
  {
    (p - j) % n
  }

  /** Entry p of the circular convolution of length n. */
  function Convolution(n: nat, b: int -> C, y: int -> C, p: int): C
    requires n > 0
  {
    Sum(n, j => Mul(b(j), y(Lag(n, p, j))))
  }

  lemma ConvolutionTerms(n: nat, b: int -> C, y: int -> C, p: int, terms: int -> C)
    requires n > 0
    requires forall j :: 0 <= j < n ==> terms(j) == Mul(b(j), y(Lag(n, p, j)))
    ensures Convolution(n, b, y, p) == Sum(n, terms)
  {
    hide Mul, Sum;
    SumExt(n, j => Mul(b(j), y(Lag(n, p, j))), terms);
  }

  lemma SumRotate(n: nat, j: nat, g: int -> C, h: int -> C)
    requires j < n
    requires forall p :: 0 <= p < n ==> h(p) == g(Lag(n, p, j))
    ensures Sum(n, h) == Sum(n, g)
  {
    hide *;
    var low, high := i => g(i), i => g(n - j + i);
    forall i | 0 <= i < j
      ensures h(i) == high(i)
    {
      LagUnique(n, i, j);
    }
    forall i | 0 <= i < n - j
      ensures h(j + i) == low(i)
    {
      LagUnique(n, j + i, j);
    }
    SumSplit(j, n - j, h, low);
    SumSplit(n - j, j, g, high);
    SumExt(j, h, high);
    SumExt(n - j, low, g);
    AddComm(Sum(j, high), Sum(n - j, low));
  }

  lemma AddComm(a: C, b: C)
    ensures Add(a, b) == Add(b, a)
  {}

  lemma LagUnique(n: nat, p: int, j: int)
    requires 0 <= p < n && 0 <= j < n
    ensures Lag(n, p, j) == if p < j then p - j + n else p - j
  {}

  lemma ConvolutionTheorem(n: nat, w: C, b: int -> C, y: int -> C, conv: int -> C, k: int)
    requires n > 0 && Unit(w) && Pow(w, n) == ONE
    requires forall p :: 0 <= p < n ==> conv(p) == Convolution(n, b, y, p)
    ensures Dft(n, w, conv, k) == Mul(Dft(n, w, b, k), Dft(n, w, y, k))
  {
    hide *;
    var f := (p: int, j: int) => Mul(Twiddle(w, p, k), Mul(b(j), y(Lag(n, p, j))));
    var rows, columns := p => Mul(conv(p), Twiddle(w, p, k)), j => Sum(n, p => f(p, j));
    forall p | 0 <= p < n
      ensures rows(p) == Sum(n, j => f(p, j))
    {
      var terms := j => Mul(b(j), y(Lag(n, p, j)));
      ConvolutionTerms(n, b, y, p, terms);
      SumMul(n, Twiddle(w, p, k), terms, j => f(p, j));
      MulComm(Twiddle(w, p, k), Sum(n, terms));
    }
    SumSwap(n, n, f, rows, columns);
    var Y := Dft(n, w, y, k);
    var terms := j => Mul(b(j), Twiddle(w, j, k));
    forall j | 0 <= j < n
      ensures columns(j) == Mul(Y, terms(j))
    {
      ConvolutionColumn(n, w, b(j), y, j, k, p => f(p, j));
    }
    SumMul(n, Y, terms, columns);
    DftTerms(n, w, b, k, terms);
    DftTerms(n, w, conv, k, rows);
    MulComm(Y, Dft(n, w, b, k));
  }

  lemma ConvolutionColumn(n: nat, w: C, a: C, y: int -> C, j: int, k: int, column: int -> C)
    requires n > 0 && Unit(w) && Pow(w, n) == ONE && 0 <= j < n
    requires forall p :: 0 <= p < n ==> column(p) == Mul(Twiddle(w, p, k), Mul(a, y(Lag(n, p, j))))
    ensures Sum(n, column) == Mul(Dft(n, w, y, k), Mul(a, Twiddle(w, j, k)))
  {
    hide *;
    var terms := q => Mul(y(q), Twiddle(w, q, k));
    var rotated := p => terms(Lag(n, p, j));
    var c := Mul(a, Twiddle(w, j, k));
    forall p | 0 <= p < n
      ensures column(p) == Mul(c, rotated(p))
    {
      var q := Lag(n, p, j);
      LagUnique(n, p, j);
      TwiddleRotate(n, w, p, q, j, k);
      ConvolutionFactor(a, y(q), Twiddle(w, j, k), Twiddle(w, q, k));
    }
    SumMul(n, c, rotated, column);
    SumRotate(n, j, terms, rotated);
    DftTerms(n, w, y, k, terms);
    MulComm(c, Sum(n, terms));
  }

  lemma TwiddleRotate(n: nat, w: C, p: int, q: int, j: int, k: int)
    requires Unit(w) && Pow(w, n) == ONE && (q + j == p || q + j == p + n)
    ensures Twiddle(w, p, k) == Mul(Twiddle(w, q, k), Twiddle(w, j, k))
  {
    hide *;
    if q + j == p + n {
      TwiddlePeriodic(n, w, p, 1, k);
    }
    TwiddleAdd(w, q, j, k);
  }

  lemma ConvolutionFactor(a: C, b: C, p: C, q: C)
    ensures Mul(Mul(q, p), Mul(a, b)) == Mul(Mul(a, p), Mul(b, q))
  {
    hide *;
    MulComm(q, p);
    MulComm(Mul(p, q), Mul(a, b));
    MulMiddleSwap(a, b, p, q);
  }
}
