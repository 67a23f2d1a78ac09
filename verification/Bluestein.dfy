/** The algebra of Bluestein's algorithm: a transform of any length as a circular convolution
    of a longer length (libbench/mp.c:468-547).
  */
module Bluestein {
  import opened ComplexNumbers
  import opened DiscreteFourier
  import opened Roots

  /** exp(2*pi*i*k^2/(2n)) */
  function Chirp(e: nat -> C, n: nat, k: int): C { Pow(e(2 * n), k * k) }

  /** The chirp wrapped around a circle of nb points. */
  function Kernel(e: nat -> C, n: nat, nb: nat): int -> C {
    p => KernelCell(e, n, nb, p)
  }

  function KernelCell(e: nat -> C, n: nat, nb: nat, p: int): C {
    if 0 <= p < n then Chirp(e, n, p) else if nb - n < p < nb then Chirp(e, n, nb - p) else ZERO
  }

  /** The samples times the conjugate chirp, padded with zeros. */
  function Modulated(e: nat -> C, n: nat, x: int -> C): int -> C {
    j => if 0 <= j < n then Mul(Conj(Chirp(e, n, j)), x(j)) else ZERO
  }

  lemma ChirpPeriodic(e: nat -> C, n: nat, k: int, r: int, t: int)
    requires RootFamily(e) && n >= 1 && r + 2 * n * t == k * k
    ensures Pow(e(2 * n), r) == Chirp(e, n, k)
  {
    FamilyPrimitive(e, 2 * n);
    PrimitiveIsUnit(2 * n, e(2 * n));
    hide Mul, RootFamily, PrimitiveRoot, Pow, Unit;
    PowPeriodic(2 * n, e(2 * n), r, t);
  }

  /** The exponents -k^2, -j^2 and (k - j)^2 combine to -2jk. */
  lemma ChirpProduct(e: nat -> C, n: nat, k: int, j: int)
    requires RootFamily(e) && n >= 1
    ensures Mul(Mul(Conj(Chirp(e, n, k)), Conj(Chirp(e, n, j))), Chirp(e, n, k - j)) == Twiddle(Conj(e(n)), j, k)
  {
    hide RootFamily, PrimitiveRoot, Mul, Unit, Pow, Conj;
    var w := e(2 * n);
    FamilyPrimitive(e, 2 * n);
    PrimitiveIsUnit(2 * n, w);
    FamilyPower(e, n, 2, 2 * n);
    PowConj(w, k * k);
    PowConj(w, j * j);
    PowAdd(w, -(k * k), -(j * j));
    var d := (k - j) * (k - j);
    PowAdd(w, -(k * k) - j * j, d);
    assert -(k * k) - j * j + d == 2 * -(j * k);
    PowMul(w, 2, -(j * k));
    PowConj(e(n), j * k);
  }

  lemma KernelAt(e: nat -> C, n: nat, nb: nat, k: int, j: int)
    requires 2 * n <= nb && 0 <= k < n && 0 <= j < n
    ensures Kernel(e, n, nb)(Lag(nb, k, j)) == Chirp(e, n, k - j)
  {
    LagUnique(nb, k, j);
    var d := k - j;
    assert d * d == (-d) * (-d);
  }

  lemma BluesteinTerm(e: nat -> C, n: nat, nb: nat, a: C, k: int, j: int)
    requires RootFamily(e) && n >= 1 && 2 * n <= nb && 0 <= k < n && 0 <= j < n
    ensures Mul(Conj(Chirp(e, n, k)), Mul(Mul(Conj(Chirp(e, n, j)), a), Kernel(e, n, nb)(Lag(nb, k, j))))
         == Mul(a, Twiddle(Conj(e(n)), j, k))
  {
    hide *;
    KernelAt(e, n, nb, k, j);
    ChirpProduct(e, n, k, j);
    RegroupFour(Conj(Chirp(e, n, k)), Conj(Chirp(e, n, j)), a, Chirp(e, n, k - j));
  }

  lemma RegroupFour(p: C, q: C, a: C, r: C)
    ensures Mul(p, Mul(Mul(q, a), r)) == Mul(a, Mul(Mul(p, q), r))
  {
    hide *;
    MulAssoc(p, Mul(q, a), r);
    MulAssoc(p, q, a);
    MulComm(Mul(p, q), a);
    MulAssoc(a, Mul(p, q), r);
  }

  /** Bluestein's identity: entry k of the transform is entry k of the convolution of the
      modulated samples with the kernel, times the conjugate chirp. */
  lemma BluesteinIdentity(e: nat -> C, n: nat, nb: nat, x: int -> C, k: int)
    requires RootFamily(e) && n >= 1 && 2 * n <= nb && 0 <= k < n
    ensures Mul(Conj(Chirp(e, n, k)), Convolution(nb, Modulated(e, n, x), Kernel(e, n, nb), k))
         == Dft(n, Conj(e(n)), x, k)
  {
    var b, y := Modulated(e, n, x), Kernel(e, n, nb);
    hide RootFamily, Mul, Conj, Chirp, Kernel, Twiddle, Dft, Sum, Convolution, Lag;
    var c := Conj(Chirp(e, n, k));
    var terms, tail := j => Mul(b(j), y(Lag(nb, k, j))), j => Mul(b(n + j), y(Lag(nb, k, n + j)));
    ConvolutionTerms(nb, b, y, k, terms);
    SumSplit(n, nb - n, terms, tail);
    forall j | 0 <= j < nb - n
      ensures tail(j) == ZERO
    {
      MulZero(y(Lag(nb, k, n + j)));
    }
    SumZero(nb - n, tail);
    AddZeroRight(Sum(n, terms));
    var wanted := j => Mul(x(j), Twiddle(Conj(e(n)), j, k));
    forall j | 0 <= j < n
      ensures wanted(j) == Mul(c, terms(j))
    {
      BluesteinTerm(e, n, nb, x(j), k, j);
    }
    SumMul(n, c, terms, wanted);
    DftTerms(n, Conj(e(n)), x, k, wanted);
  }

  lemma AddZeroRight(a: C)
    ensures Add(a, ZERO) == a
  {}

  /** What the algorithm computes from the transforms B and Y of the two factors. */
  lemma BluesteinResult(e: nat -> C, n: nat, nb: nat, x: int -> C, B: int -> C, k: int)
    requires RootFamily(e) && n >= 1 && 2 * n <= nb && 0 <= k < n
    requires forall q :: 0 <= q < nb ==>
      B(q) == Mul(Dft(nb, Conj(e(nb)), Modulated(e, n, x), q), Dft(nb, Conj(e(nb)), Kernel(e, n, nb), q))
    ensures Mul(Conj(Chirp(e, n, k)), Dft(nb, e(nb), B, k)) == Scale(nb as real, Dft(n, Conj(e(n)), x, k))
  {
    hide *;
    var w := Conj(e(nb));
    FamilyPrimitive(e, nb);
    PrimitiveConj(nb, e(nb));
    PrimitiveIsUnit(nb, w);
    ConjConj(e(nb));
    var b, y := Modulated(e, n, x), Kernel(e, n, nb);
    var conv := p => if 0 <= p < nb then Convolution(nb, b, y, p) else ZERO;
    forall q | 0 <= q < nb
      ensures B(q) == Dft(nb, w, conv, q)
    {
      ConvolutionTheorem(nb, w, b, y, conv, q);
    }
    Inversion(nb, w, conv, B, k);
    BluesteinIdentity(e, n, nb, x, k);
    ScaleMul(nb as real, Conj(Chirp(e, n, k)), conv(k));
  }

  lemma ConjConj(a: C)
    ensures Conj(Conj(a)) == a
  {}
}
