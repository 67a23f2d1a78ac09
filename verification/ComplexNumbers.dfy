/** Exact complex numbers, their integer powers, and finite sums.

    The reference transform of libbench/mp.c keeps a complex number as a pair of
    multiprecision cells; here it is a pair of exact reals.
  */
module ComplexNumbers {

  datatype C = C(re: real, im: real)

  const ZERO := C(0.0, 0.0)
  const ONE := C(1.0, 0.0)
  const MINUS_ONE := C(-1.0, 0.0)

  function Add(a: C, b: C): C { C(a.re + b.re, a.im + b.im) }

  function Sub(a: C, b: C): C { C(a.re - b.re, a.im - b.im) }

  function Neg(a: C): C { C(-a.re, -a.im) }

  function Mul(a: C, b: C): C { C(a.re * b.re - a.im * b.im, a.re * b.im + a.im * b.re) }

  function Conj(a: C): C { C(a.re, -a.im) }

  function Scale(r: real, a: C): C { C(r * a.re, r * a.im) }

  /** On the unit circle: the conjugate is the inverse. */
  predicate Unit(a: C) { Mul(a, Conj(a)) == ONE }

  lemma MulComm(a: C, b: C)
    ensures Mul(a, b) == Mul(b, a)
  {}

  lemma MulAssoc(a: C, b: C, c: C)
    ensures Mul(Mul(a, b), c) == Mul(a, Mul(b, c))
  {}

  lemma MulOne(a: C)
    ensures Mul(a, ONE) == a && Mul(ONE, a) == a
  {}

  lemma MulZero(a: C)
    ensures Mul(a, ZERO) == ZERO && Mul(ZERO, a) == ZERO
  {}

  lemma MulMinusOne(a: C)
    ensures Mul(a, MINUS_ONE) == Neg(a) && Mul(MINUS_ONE, a) == Neg(a)
  {}

  lemma MulAdd(a: C, b: C, c: C)
    ensures Mul(a, Add(b, c)) == Add(Mul(a, b), Mul(a, c))
    ensures Mul(Add(b, c), a) == Add(Mul(b, a), Mul(c, a))
  {}

  lemma MulSub(a: C, b: C, c: C)
    ensures Mul(a, Sub(b, c)) == Sub(Mul(a, b), Mul(a, c))
    ensures Mul(Sub(b, c), a) == Sub(Mul(b, a), Mul(c, a))
  {}

  lemma ConjMul(a: C, b: C)
    ensures Conj(Mul(a, b)) == Mul(Conj(a), Conj(b))
  {}

  lemma ScaleMulLeft(r: real, a: C, b: C)
    ensures Mul(Scale(r, a), b) == Scale(r, Mul(a, b))
  {
    var (p, q, s, t) := (a.re, a.im, b.re, b.im);
    RealFactor(r, p, s, q, t);
    RealFactor(r, p, t, q, s);
  }

  lemma ScaleMul(r: real, a: C, b: C)
    ensures Mul(Scale(r, a), b) == Scale(r, Mul(a, b))
    ensures Mul(a, Scale(r, b)) == Scale(r, Mul(a, b))
  {
    hide Mul, Scale;
    ScaleMulLeft(r, a, b);
    ScaleMulLeft(r, b, a);
    MulComm(Scale(r, b), a);
    MulComm(b, a);
  }

  lemma RealFactor(r: real, p: real, s: real, q: real, t: real)
    ensures (r * p) * s - (r * q) * t == r * (p * s - q * t) && (r * p) * s + (r * q) * t == r * (p * s + q * t)
  {
    RealAssoc(r, p, s);
    RealAssoc(r, q, t);
    RealDistribute(r, p * s, q * t);
  }

  lemma RealAssoc(r: real, p: real, s: real)
    ensures (r * p) * s == r * (p * s) && p * (r * s) == r * (p * s)
  {}

  lemma RealDistribute(r: real, x: real, y: real)
    ensures r * (x - y) == r * x - r * y && r * (x + y) == r * x + r * y
  {}

  function Times(x: real, y: real): real { x * y }

  /** The squared modulus. */
  function Norm(a: C): real { Times(a.re, a.re) + Times(a.im, a.im) }

  lemma NormIs(a: C)
    ensures Norm(a) == a.re * a.re + a.im * a.im
  {}

  lemma NormMul(a: C, b: C)
    ensures Norm(Mul(a, b)) == Times(Norm(a), Norm(b))
  {
    var (p, q, s, t) := (a.re, a.im, b.re, b.im);
    assert (p * s - q * t) * (p * s - q * t) + (p * t + q * s) * (p * t + q * s)
        == (p * p + q * q) * (s * s + t * t);
  }

  lemma NormZero()
    ensures Norm(ZERO) == 0.0
  {}

  lemma ProductPositive(x: real, y: real)
    requires (x > 0.0 && y > 0.0) || (x < 0.0 && y < 0.0)
    ensures Times(x, y) > 0.0
  {}

  lemma NormPositive(a: C)
    requires a != ZERO
    ensures Norm(a) > 0.0
  {
    assert Times(0.0, 0.0) == 0.0;
    hide Times;
    if a.re != 0.0 {
      ProductPositive(a.re, a.re);
    }
    if a.im != 0.0 {
      ProductPositive(a.im, a.im);
    }
  }

  /** There are no zero divisors. */
  lemma NoZeroDivisors(a: C, b: C)
    requires Mul(a, b) == ZERO
    ensures a == ZERO || b == ZERO
  {
    hide Mul, Norm, Times;
    NormMul(a, b);
    NormZero();
    if a != ZERO && b != ZERO {
      NormPositive(a);
      NormPositive(b);
      ProductPositive(Norm(a), Norm(b));
      assert false;
    }
  }

  lemma MulMiddleSwap(a: C, b: C, c: C, d: C)
    ensures Mul(Mul(a, b), Mul(c, d)) == Mul(Mul(a, c), Mul(b, d))
  {
    hide Mul;
    MulAssoc(Mul(a, b), c, d);
    MulAssoc(a, b, c);
    MulComm(b, c);
    MulAssoc(a, c, b);
    MulAssoc(Mul(a, c), b, d);
  }

  // ----- integer powers on the unit circle -----

  /** The k-th power; a negative power is a power of the conjugate. */
  function Pow(w: C, k: int): C
    decreases if k < 0 then -k else k
  {
    if k == 0 then ONE
    else if k > 0 then Mul(Pow(w, k - 1), w)
    else Mul(Pow(w, k + 1), Conj(w))
  }

  lemma PowAtZero(w: C)
    ensures Pow(w, 0) == ONE
  {}

  lemma PowAtOne(w: C)
    ensures Pow(w, 1) == w
  {
    MulOne(w);
    hide Mul;
    PowAtZero(w);
  }

  lemma PowStep(w: C, k: int)
    requires Unit(w)
    ensures Pow(w, k + 1) == Mul(Pow(w, k), w)
    ensures Pow(w, k - 1) == Mul(Pow(w, k), Conj(w))
  {
    hide Mul;
    MulComm(w, Conj(w));
    if k < 0 {
      MulAssoc(Pow(w, k + 1), Conj(w), w);
      MulOne(Pow(w, k + 1));
    } else if k > 0 {
      MulAssoc(Pow(w, k - 1), w, Conj(w));
      MulOne(Pow(w, k - 1));
    } else {
      MulOne(w);
      MulOne(Conj(w));
    }
  }

  lemma PowLast(w: C, k: int)
    requires k > 0
    ensures Pow(w, k) == Mul(Pow(w, k - 1), w)
  {}

  lemma {:induction false} PowAdd(w: C, a: int, b: int)
    requires Unit(w)
    ensures Pow(w, a + b) == Mul(Pow(w, a), Pow(w, b))
    decreases if b < 0 then -b else b
  {
    hide Mul;
    if b == 0 {
      MulOne(Pow(w, a));
    } else if b > 0 {
      PowAdd(w, a, b - 1);
      PowStep(w, a + b - 1);
      MulAssoc(Pow(w, a), Pow(w, b - 1), w);
    } else {
      PowAdd(w, a, b + 1);
      PowStep(w, a + b + 1);
      MulAssoc(Pow(w, a), Pow(w, b + 1), Conj(w));
    }
  }

  lemma {:induction false} PowConj(w: C, k: int)
    ensures Pow(Conj(w), k) == Pow(w, -k)
    ensures Conj(Pow(w, k)) == Pow(w, -k)
    decreases if k < 0 then -k else k
  {
    hide Mul;
    if k > 0 {
      PowConj(w, k - 1);
      ConjMul(Pow(w, k - 1), w);
    } else if k < 0 {
      PowConj(w, k + 1);
      ConjMul(Pow(w, k + 1), Conj(w));
    }
  }

  lemma UnitPow(w: C, k: int)
    requires Unit(w)
    ensures Unit(Pow(w, k))
  {
    hide Mul;
    PowConj(w, k);
    PowAdd(w, k, -k);
  }

  lemma {:induction false} PowMul(w: C, a: int, b: int)
    requires Unit(w)
    ensures Pow(Pow(w, a), b) == Pow(w, a * b)
    decreases if b < 0 then -b else b
  {
    hide Mul, Unit, Conj;
    if b > 0 {
      PowMul(w, a, b - 1);
      var p := a * (b - 1);
      assert p + a == a * b;
      PowAdd(w, p, a);
    } else if b < 0 {
      PowMul(w, a, b + 1);
      PowConj(w, a);
      var p := a * (b + 1);
      assert p - a == a * b;
      PowAdd(w, p, -a);
    }
  }

  lemma {:induction false} PowOne(k: int)
    ensures Pow(ONE, k) == ONE
    decreases if k < 0 then -k else k
  {
    hide Mul;
    MulOne(ONE);
    if k > 0 {
      PowOne(k - 1);
    } else if k < 0 {
      PowOne(k + 1);
    }
  }

  lemma PowPeriodic(n: nat, w: C, r: int, t: int)
    requires Unit(w) && Pow(w, n) == ONE
    ensures Pow(w, r + n * t) == Pow(w, r)
  {
    hide *;
    PowMul(w, n, t);
    PowOne(t);
    PowAdd(w, r, n * t);
    MulOne(Pow(w, r));
  }

  // ----- finite sums -----

  /** f(0) + ... + f(n - 1) */
  function Sum(n: nat, f: int -> C): C {
    if n == 0 then ZERO else Add(Sum(n - 1, f), f(n - 1))
  }

  lemma SumLast(n: nat, f: int -> C)
    requires n > 0
    ensures Sum(n, f) == Add(Sum(n - 1, f), f(n - 1))
  {}

  lemma {:induction false} SumExt(n: nat, f: int -> C, g: int -> C)
    requires forall i :: 0 <= i < n ==> f(i) == g(i)
    ensures Sum(n, f) == Sum(n, g)
  {
    if n > 0 {
      SumExt(n - 1, f, g);
    }
  }

  lemma {:induction false} SumAdd(n: nat, f: int -> C, g: int -> C, h: int -> C)
    requires forall i :: 0 <= i < n ==> h(i) == Add(f(i), g(i))
    ensures Sum(n, h) == Add(Sum(n, f), Sum(n, g))
  {
    if n > 0 {
      SumAdd(n - 1, f, g, h);
    }
  }

  lemma {:induction false} SumMul(n: nat, a: C, f: int -> C, h: int -> C)
    requires forall i :: 0 <= i < n ==> h(i) == Mul(a, f(i))
    ensures Sum(n, h) == Mul(a, Sum(n, f))
  {
    hide Mul;
    if n == 0 {
      MulZero(a);
    } else {
      SumMul(n - 1, a, f, h);
      MulAdd(a, Sum(n - 1, f), f(n - 1));
    }
  }

  lemma {:induction false} SumZero(n: nat, f: int -> C)
    requires forall i :: 0 <= i < n ==> f(i) == ZERO
    ensures Sum(n, f) == ZERO
  {
    if n > 0 {
      SumZero(n - 1, f);
    }
  }

  /** A sum with at most one nonzero term. */
  lemma {:induction false} SumSingle(n: nat, p: nat, f: int -> C)
    requires p < n
    requires forall i :: 0 <= i < n && i != p ==> f(i) == ZERO
    ensures Sum(n, f) == f(p)
  {
    if p == n - 1 {
      SumZero(n - 1, f);
    } else {
      SumSingle(n - 1, p, f);
    }
  }

  lemma {:induction false} SumOnes(n: nat, f: int -> C)
    requires forall i :: 0 <= i < n ==> f(i) == ONE
    ensures Sum(n, f) == C(n as real, 0.0)
  {
    if n > 0 {
      SumOnes(n - 1, f);
    }
  }

  lemma {:induction false} SumSplit(m: nat, n: nat, f: int -> C, g: int -> C)
    requires forall i :: 0 <= i < n ==> g(i) == f(m + i)
    ensures Sum(m + n, f) == Add(Sum(m, f), Sum(n, g))
  {
    if n > 0 {
      SumSplit(m, n - 1, f, g);
    }
  }

  /** A sum of 2n terms splits into its even and its odd terms. */
  lemma {:induction false} SumEvenOdd(n: nat, f: int -> C, even: int -> C, odd: int -> C)
    requires forall i :: 0 <= i < n ==> even(i) == f(2 * i) && odd(i) == f(2 * i + 1)
    ensures Sum(2 * n, f) == Add(Sum(n, even), Sum(n, odd))
  {
    hide Add;
    if n == 0 {
      AddZero();
    } else {
      SumEvenOdd(n - 1, f, even, odd);
      SumLastTwo(2 * n, f);
      assert even(n - 1) == f(2 * n - 2) && odd(n - 1) == f(2 * n - 1);
      AddSwap(Sum(n - 1, even), Sum(n - 1, odd), even(n - 1), odd(n - 1));
    }
  }

  lemma AddZero()
    ensures Add(ZERO, ZERO) == ZERO
  {}

  lemma AddSwap(a: C, b: C, c: C, d: C)
    ensures Add(Add(a, b), Add(c, d)) == Add(Add(a, c), Add(b, d))
  {}

  lemma SumLastTwo(m: nat, f: int -> C)
    requires m >= 2
    ensures Sum(m, f) == Add(Sum(m - 2, f), Add(f(m - 2), f(m - 1)))
  {}

  /** The order of summation can be exchanged. */
  lemma {:induction false} SumSwap(m: nat, n: nat, f: (int, int) -> C, rows: int -> C, columns: int -> C)
    requires forall i :: 0 <= i < m ==> rows(i) == Sum(n, j => f(i, j))
    requires forall j :: 0 <= j < n ==> columns(j) == Sum(m, i => f(i, j))
    ensures Sum(m, rows) == Sum(n, columns)
  {
    if m == 0 {
      SumZero(n, columns);
    } else {
      var shorter := j => Sum(m - 1, i => f(i, j));
      SumSwap(m - 1, n, f, rows, shorter);
      SumAdd(n, shorter, j => f(m - 1, j), columns);
    }
  }
}
