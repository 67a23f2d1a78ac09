/** Fourier transforms of real samples. */
module RealSamples {
  import opened ComplexNumbers
  import opened DiscreteFourier

  function Real(x: seq<real>): (r: seq<C>)
    ensures |r| == |x|
  {
    seq(|x|, i requires 0 <= i < |x| => C(x[i], 0.0))
  }

  lemma RealCells(x: seq<real>, i: int)
    ensures Cells(Real(x))(i).im == 0.0
    ensures 0 <= i < |x| ==> Cells(Real(x))(i) == C(x[i], 0.0)
  {}

  lemma {:induction false} SumConj(n: nat, f: int -> C, g: int -> C)
    requires forall i :: 0 <= i < n ==> g(i) == Conj(f(i))
    ensures Sum(n, g) == Conj(Sum(n, f))
  {
    if n > 0 {
      SumConj(n - 1, f, g);
    }
  }

  lemma RealTimes(a: C, t: C)
    requires a.im == 0.0
    ensures Mul(a, Conj(t)) == Conj(Mul(a, t))
  {
    assert Conj(a) == a;
    ConjMul(a, t);
    hide Mul;
  }

  /** The frequencies n - k and k of real samples are conjugate. */
  lemma DftConj(n: nat, w: C, x: int -> C, k: int)
    requires Unit(w) && Pow(w, n) == ONE && forall j :: 0 <= j < n ==> x(j).im == 0.0
    ensures Dft(n, w, x, n - k) == Conj(Dft(n, w, x, k))
  {
    hide *;
    DftPeriodic(n, w, x, -k);
    assert -k + n == n - k;
    var f, g := j => Mul(x(j), Twiddle(w, j, k)), j => Mul(x(j), Twiddle(w, j, -k));
    forall j | 0 <= j < n
      ensures g(j) == Conj(f(j))
    {
      TwiddleIsPow(w, j, k);
      TwiddleIsPow(w, j, -k);
      NegatedProduct(j, k);
      PowConj(w, j * k);
      RealTimes(x(j), Twiddle(w, j, k));
    }
    SumConj(n, f, g);
    DftTerms(n, w, x, k, f);
    DftTerms(n, w, x, -k, g);
  }

  lemma NegatedProduct(j: int, k: int)
    ensures j * -k == -(j * k)
  {}

  lemma DftRealAtZero(n: nat, w: C, x: int -> C)
    requires Unit(w) && Pow(w, n) == ONE && forall j :: 0 <= j < n ==> x(j).im == 0.0
    ensures Dft(n, w, x, 0).im == 0.0
  {
    DftConj(n, w, x, 0);
    DftPeriodic(n, w, x, 0);
    hide Dft;
  }
}
