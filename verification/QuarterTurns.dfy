/** Points of the unit circle from the first eighth of a turn, and the sine tables of
    benchees/bloodworth that give them.
  */
module QuarterTurns {
  import opened ComplexNumbers
  import opened DiscreteFourier
  import opened Roots
  import opened Arithmetic

  /** Cosine and sine change places. */
  function Mirrored(a: C): C { C(a.im, a.re) }

  function Opposed(a: C): C { C(-a.re, a.im) }

  /** The imaginary unit. */
  const QUARTER := C(0.0, 1.0)

  /** The other quadrants, for the root w of a whole turn in 8 q steps. */
  lemma QuadrantPowers(w: C, q: nat, j: int)
    requires Unit(w) && Pow(w, 2 * q) == QUARTER
    ensures Pow(w, 2 * q - j) == Mirrored(Pow(w, j))
    ensures Pow(w, 4 * q - j) == Opposed(Pow(w, j))
    ensures Pow(w, 2 * q + j) == Opposed(Mirrored(Pow(w, j)))
  {
    hide *;
    PowAdd(w, 2 * q, -j);
    PowAdd(w, 2 * q, 2 * q - j);
    PowAdd(w, 2 * q, j);
    assert 2 * q + (2 * q - j) == 4 * q - j;
    PowConj(w, j);
    TimesQuarter(Pow(w, j));
    TimesQuarter(Conj(Pow(w, j)));
    TimesQuarter(Pow(w, 2 * q - j));
    Reflections(Pow(w, j));
  }

  lemma InQuadrant(w: C, q: nat, j: int)
    requires Unit(w) && Pow(w, 2 * q) == QUARTER
    ensures forall i :: i == 2 * q - j ==> Pow(w, i) == Mirrored(Pow(w, j))
    ensures forall i :: i == 4 * q - j ==> Pow(w, i) == Opposed(Pow(w, j))
    ensures forall i :: i == 2 * q + j ==> Pow(w, i) == Opposed(Mirrored(Pow(w, j)))
  {
    hide *;
    QuadrantPowers(w, q, j);
  }

  lemma TimesQuarter(a: C)
    ensures Mul(QUARTER, a) == C(-a.im, a.re)
  {}

  lemma Reflections(a: C)
    ensures C(-Conj(a).im, Conj(a).re) == Mirrored(a)
    ensures C(-Mirrored(a).im, Mirrored(a).re) == Opposed(a)
    ensures C(-a.im, a.re) == Opposed(Mirrored(a))
  {}

  /** SineTable: 1 - 2 sine(k + 1)^2 and sine(k) are the cosine and the sine of a turn in 2^k steps. */
  ghost predicate SineLaw(sine: nat -> real, e: nat -> C, k: nat) {
    e(Pow2(k)) == C(1.0 - 2.0 * Times(sine(k + 1), sine(k + 1)), sine(k))
  }

  /** Exact tables for the roots e, whose turn goes from 1 towards the imaginary unit; sq is MY_SQRT2
      of quad2fft.c and MY_SQRT_2 of b-fht.c. */
  ghost predicate ExactSines(sine: nat -> real, sq: real, e: nat -> C) {
    && RootFamily(e) && e(4) == QUARTER && e(8) == C(sq, sq)
    && forall k: nat :: SineLaw(sine, e, k)
  }

  lemma ExactTurns(sine: nat -> real, sq: real, e: nat -> C)
    requires ExactSines(sine, sq, e)
    ensures RootFamily(e) && e(4) == QUARTER && e(8) == C(sq, sq)
  {
    hide RootFamily, SineLaw;
  }

  lemma ExactRoot(sine: nat -> real, sq: real, e: nat -> C, k: nat)
    requires ExactSines(sine, sq, e)
    ensures e(Pow2(k)) == C(1.0 - 2.0 * Times(sine(k + 1), sine(k + 1)), sine(k))
    ensures Unit(e(Pow2(k)))
  {
    hide Pow2;
    assert SineLaw(sine, e, k);
    hide SineLaw, Unit;
    FamilyPrimitive(e, Pow2(k));
    PrimitiveIsUnit(Pow2(k), e(Pow2(k)));
  }

  /** The root of 8 q steps reaches an eighth of a turn in q steps and a quarter in 2 q. */
  lemma EighthPower(e: nat -> C, q: nat, n: nat)
    requires RootFamily(e) && q >= 1 && n == 8 * q
    ensures Unit(e(n)) && Pow(e(n), q) == e(8) && Pow(e(n), 2 * q) == e(4) && Pow(e(n), 4 * q) == e(2)
  {
    hide *;
    FamilyPrimitive(e, n);
    PrimitiveIsUnit(n, e(n));
    FamilyPower(e, 8, q, n);
    FamilyPower(e, 4, 2 * q, n);
    FamilyPower(e, 2, 4 * q, n);
  }
}
