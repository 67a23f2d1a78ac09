/** The complex roots of unity that the tables of a transform hold. */
module Roots {
  import opened ComplexNumbers
  import opened DiscreteFourier

  ghost predicate PrimitiveLaw(e: nat -> C, n: nat) {
    1 <= n ==> PrimitiveRoot(e(n), n)
  }

  ghost predicate PowerLaw(e: nat -> C, n: nat, k: nat, m: nat) {
    1 <= n && 1 <= k && m == n * k ==> Pow(e(m), k) == e(n)
  }

  /** What is used of exp(2*pi*i/n): a primitive n-th root on the unit circle for every n,
      with exp(2*pi*i/(n*k)) a k-th root of exp(2*pi*i/n). */
  ghost predicate RootFamily(e: nat -> C) {
    && e(2) == MINUS_ONE
    && (forall n: nat :: PrimitiveLaw(e, n))
    && (forall n: nat, k: nat, m: nat :: PowerLaw(e, n, k, m))
  }

  /** exp(sign * 2*pi*i/n) */
  function Omega(e: nat -> C, n: nat, sign: int): C {
    if sign == 1 then e(n) else Conj(e(n))
  }

  lemma OmegaForward(e: nat -> C, n: nat)
    ensures Omega(e, n, 1) == e(n)
  {}

  lemma FamilyPrimitive(e: nat -> C, n: nat)
    requires RootFamily(e) && n >= 1
    ensures PrimitiveRoot(e(n), n)
  {
    hide PrimitiveRoot;
    assert PrimitiveLaw(e, n);
  }

  lemma FamilyPower(e: nat -> C, n: nat, k: nat, m: nat)
    requires RootFamily(e) && n >= 1 && k >= 1 && m == n * k
    ensures Pow(e(m), k) == e(n)
  {
    hide Pow;
    assert PowerLaw(e, n, k, m);
  }

  lemma OmegaPrimitive(e: nat -> C, n: nat, sign: int)
    requires RootFamily(e) && n >= 1
    ensures PrimitiveRoot(Omega(e, n, sign), n)
    ensures Unit(Omega(e, n, sign))
  {
    hide RootFamily, PrimitiveRoot, Unit;
    FamilyPrimitive(e, n);
    PrimitiveConj(n, e(n));
    PrimitiveIsUnit(n, Omega(e, n, sign));
  }

  lemma OmegaHalves(e: nat -> C, s: nat, sign: int)
    requires RootFamily(e) && s >= 1
    ensures Pow(Omega(e, 2 * s, sign), 2) == Omega(e, s, sign)
    ensures Pow(Omega(e, 2 * s, sign), s) == MINUS_ONE
  {
    hide RootFamily, Pow, Mul, Conj;
    FamilyPower(e, s, 2, 2 * s);
    FamilyPower(e, 2, s, 2 * s);
    FamilyHalfTurn(e);
    ConjPow(e(2 * s), 2);
    ConjPow(e(2 * s), s);
  }

  lemma ConjPow(w: C, k: int)
    ensures Pow(Conj(w), k) == Conj(Pow(w, k))
  {
    hide *;
    PowConj(w, k);
  }

  lemma FamilyHalfTurn(e: nat -> C)
    requires RootFamily(e)
    ensures e(2) == MINUS_ONE == Conj(e(2))
  {}
}
