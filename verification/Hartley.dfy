/** The recursive fast Hartley transforms of benchees/bloodworth/b-fht.c: decimation in frequency,
    RFHT_F, and decimation in time, RFHT_T, over exact reals.
  */
module Hartley {
  import opened ComplexNumbers
  import opened Arithmetic
  import opened Frames
  import opened Scaling
  import opened Quadrants
  import opened QuarterTurns

  /** SineTable, MY_SQRT_2 and MY_SQRT2: entry x + 1 is the sine of half the angle of entry x, sq is
      the sine and cosine of an eighth of a turn, and sqrt2 twice as much. */
  datatype Trig = Trig(sine: nat -> real, sq: real, sqrt2: real)

  ghost predicate HalfAngleLaw(t: Trig, x: nat) {
    Times(t.sine(x), t.sine(x)) == 4.0 * (Times(t.sine(x + 1), t.sine(x + 1)) * (1.0 - Times(t.sine(x + 1), t.sine(x + 1))))
  }

  ghost predicate ExactTrig(t: Trig) {
    && 2.0 * Times(t.sq, t.sq) == 1.0 && t.sqrt2 == 2.0 * t.sq
    && forall x: nat :: HalfAngleLaw(t, x)
  }

  /** Log2 (b-fht.c:118-122) */
  function Log2(num: nat): int { if num == 0 then 0 else LastBit(num) }

  function LastBit(num: nat): int { if num == 0 then -1 else 1 + LastBit(num / 2) }

  lemma LastBitNatural(num: nat)
    requires num > 0
    ensures LastBit(num) >= 0
  {
    if num >= 2 { LastBitNatural(num / 2); }
  }

  /** The step of the trigonometric recurrence: the rotation (1 + Cos0, Sin0). */
  function Step(t: Trig, h: nat): C {
    var x := Log2(h) + 1;
    if x < 0 then ONE else
      C(1.0 - 2.0 * Times(t.sine(x + 1), t.sine(x + 1)), t.sine(x))
  }

  lemma NormIsUnit(a: C)
    ensures Norm(a) == 1.0 <==> Unit(a)
  {}

  lemma StepIsUnit(t: Trig, h: nat)
    requires ExactTrig(t)
    ensures Unit(Step(t, h))
  {
    var x := Log2(h) + 1;
    if x >= 0 {
      assert HalfAngleLaw(t, x);
      StepSquare(t.sine(x), t.sine(x + 1));
      NormIsUnit(Step(t, h));
    } else {
      NormIsUnit(ONE);
    }
  }

  lemma StepSquare(p: real, q: real)
    requires Times(p, p) == 4.0 * (Times(q, q) * (1.0 - Times(q, q)))
    ensures Norm(C(1.0 - 2.0 * Times(q, q), p)) == 1.0
  {
    var u := q * q;
    assert (1.0 - 2.0 * u) * (1.0 - 2.0 * u) == 1.0 - 4.0 * u + 4.0 * (u * u);
    assert u * (1.0 - u) == u - u * u;
  }

  // ----- one stage -----

  /** The index that goes with i in a half of h cells. */
  function Partner(h: nat, i: int): int { if i == 0 then 0 else h - i }

  /** The coefficients of index i: those that the loop and the special cases use. */
  function Coef(t: Trig, h: nat, i: int): C {
    var (q, w) := (h / 4, Step(t, h));
    if i == 0 then ONE
    else if i < q then Pow(w, i)
    else if i == q then C(t.sq, t.sq)
    else if i < 2 * q then Mirrored(Pow(w, 2 * q - i))
    else if i == 2 * q then C(0.0, 1.0)
    else if i < 3 * q then Opposed(Mirrored(Pow(w, i - 2 * q)))
    else if i == 3 * q then Opposed(C(t.sq, t.sq))
    else Opposed(Pow(w, h - i))
  }

  lemma CoefUnit(t: Trig, h: nat, i: int)
    requires ExactTrig(t) && h % 4 == 0 && 0 <= i < h
    ensures Norm(Coef(t, h, i)) == 1.0
  {
    hide Pow, Norm, Mirrored, Opposed, Step, Unit, ExactTrig;
    var (q, w) := (h / 4, Step(t, h));
    StepIsUnit(t, h);
    SqUnit(t);
    ConstantsUnit();
    if 0 < i < q {
      PowSquare(w, i);
    } else if q < i < 2 * q {
      PowSquare(w, 2 * q - i);
      MirroredSquare(Pow(w, 2 * q - i));
    } else if 2 * q < i < 3 * q {
      PowSquare(w, i - 2 * q);
      MirroredSquare(Pow(w, i - 2 * q));
      OpposedSquare(Mirrored(Pow(w, i - 2 * q)));
    } else if i == 3 * q {
      OpposedSquare(C(t.sq, t.sq));
    } else if 3 * q < i {
      PowSquare(w, h - i);
      OpposedSquare(Pow(w, h - i));
    }
  }

  lemma PowSquare(w: C, k: int)
    requires Unit(w)
    ensures Norm(Pow(w, k)) == 1.0
  {
    hide *;
    UnitPow(w, k);
    NormIsUnit(Pow(w, k));
  }

  lemma SqUnit(t: Trig)
    requires ExactTrig(t)
    ensures Norm(C(t.sq, t.sq)) == 1.0
  {}

  lemma MirroredSquare(a: C)
    ensures Norm(Mirrored(a)) == Norm(a)
  {}

  lemma OpposedSquare(a: C)
    ensures Norm(Opposed(a)) == Norm(a)
  {}

  lemma ConstantsUnit()
    ensures Norm(ONE) == 1.0 && Norm(C(0.0, 1.0)) == 1.0
  {
    TimesConstants();
    hide Times;
  }

  lemma TimesConstants()
    ensures Times(1.0, 1.0) == 1.0 && Times(0.0, 0.0) == 0.0
  {}

  /** The partner has the opposite cosine and the same sine. */
  lemma CoefPartner(t: Trig, h: nat, i: int)
    requires h % 4 == 0 && 0 < i < h
    ensures Coef(t, h, Partner(h, i)) == Opposed(Coef(t, h, i))
  {
    hide Pow, Step;
  }

  function Combine(a: C, x: real, y: real): real { Times(a.re, x) + Times(a.im, y) }

  /** The cells of a stage of decimation in frequency (b-fht.c:168-195): sums on the left, rotated
      differences on the right. */
  function Difference(s: seq<real>, h: nat, i: int): real
    requires |s| == 2 * h && 0 <= i < h
  {
    s[i] - s[h + i]
  }

  function StageF(t: Trig, s: seq<real>, h: nat): (r: seq<real>)
    requires |s| == 2 * h
    ensures |r| == 2 * h
  {
    seq(2 * h, k requires 0 <= k < 2 * h => CellF(t, s, h, k))
  }

  function CellF(t: Trig, s: seq<real>, h: nat, k: int): real
    requires |s| == 2 * h && 0 <= k < 2 * h
  {
    if k < h then s[k] + s[h + k]
    else Combine(Coef(t, h, k - h), Difference(s, h, k - h), Difference(s, h, Partner(h, k - h)))
  }

  /** The rotated right half of a stage of decimation in time (b-fht.c:200-224). */
  function Cas(t: Trig, s: seq<real>, h: nat, i: int): real
    requires |s| == 2 * h && 0 <= i < h
  {
    Combine(Coef(t, h, i), s[h + i], s[h + Partner(h, i)])
  }

  function CellT(t: Trig, s: seq<real>, h: nat, k: int): real
    requires |s| == 2 * h && 0 <= k < 2 * h
  {
    if k < h then s[k] + Cas(t, s, h, k) else s[k - h] - Cas(t, s, h, k - h)
  }

  function StageT(t: Trig, s: seq<real>, h: nat): (r: seq<real>)
    requires |s| == 2 * h
    ensures |r| == 2 * h
  {
    seq(2 * h, k requires 0 <= k < 2 * h => CellT(t, s, h, k))
  }

  lemma RotateProducts(c: real, s: real, x: real, y: real)
    ensures c * (c * x + s * y) + s * (-c * y + s * x) == (c * c + s * s) * x
  {
    RealDistribute(c, c * x, s * y);
    RealDistribute(s, s * x, c * y);
    RealAssoc(c, c, x);
    RealAssoc(s, s, x);
    RealAssoc(c, s, y);
    RealDistribute(x, c * c, s * s);
  }

  /** A rotation and its transposed reflection. */
  lemma RotateBack(a: C, x: real, y: real)
    requires Norm(a) == 1.0
    ensures Combine(a, Combine(a, x, y), Combine(Opposed(a), y, x)) == x
  {
    var (c, s) := (a.re, a.im);
    NormIs(a);
    hide Norm;
    RotateProducts(c, s, x, y);
  }

  lemma CombineScale(a: C, r: real, x: real, y: real)
    ensures Combine(a, Times(r, x), Times(r, y)) == Times(r, Combine(a, x, y))
  {
    assert a.re * (r * x) + a.im * (r * y) == r * (a.re * x + a.im * y);
  }

  lemma RotateFirst(x: real)
    ensures Combine(ONE, x, x) == x
  {}

  /** One stage in time undoes one stage in frequency up to the factor 2. */
  lemma CasUndoes(t: Trig, s: seq<real>, u: seq<real>, r: real, h: nat, i: int)
    requires ExactTrig(t) && h % 4 == 0 && |s| == 2 * h && 0 <= i < h
    requires Scaled(r, StageF(t, s, h), u)
    ensures Cas(t, u, h, i) == Times(r, Difference(s, h, i))
  {
    hide Coef, Difference, Combine, Norm, ExactTrig, Times, StageF;
    var (a, p) := (Coef(t, h, i), Partner(h, i));
    var (x, y) := (Difference(s, h, i), Difference(s, h, p));
    CoefUnit(t, h, i);
    StageFRight(t, s, h, i);
    assert u[h + i] == Times(r, Combine(a, x, y));
    if i == 0 {
      CoefFirst(t, h);
      RotateFirst(x);
      CombineScale(a, r, Combine(a, x, y), Combine(a, x, y));
    } else {
      CoefPartner(t, h, i);
      StageFRight(t, s, h, p);
      assert u[h + p] == Times(r, Combine(Opposed(a), y, x));
      CombineScale(a, r, Combine(a, x, y), Combine(Opposed(a), y, x));
      RotateBack(a, x, y);
    }
  }

  lemma StageFRight(t: Trig, s: seq<real>, h: nat, i: int)
    requires |s| == 2 * h && 0 <= i < h
    ensures StageF(t, s, h)[h + i] == Combine(Coef(t, h, i), Difference(s, h, i), Difference(s, h, Partner(h, i)))
  {
    hide Coef, Difference, Combine;
  }

  lemma CoefFirst(t: Trig, h: nat)
    ensures Coef(t, h, 0) == ONE
  {}

  lemma StageUndoes(t: Trig, s: seq<real>, u: seq<real>, r: real, h: nat)
    requires ExactTrig(t) && h % 4 == 0 && |s| == 2 * h
    requires Scaled(r, StageF(t, s, h), u)
    ensures |u| == 2 * h && Scaled(2.0 * r, s, StageT(t, u, h))
  {
    ScaledLength(r, StageF(t, s, h), u);
    hide Times, Cas, ExactTrig, Coef, Combine, Scaled;
    forall k | 0 <= k < 2 * h
      ensures CellT(t, u, h, k) == Times(2.0 * r, s[k])
    {
      StageCell(t, s, u, r, h, k);
    }
    ScaledIntro(2.0 * r, s, StageT(t, u, h));
  }

  lemma ScaledLength(r: real, s: seq<real>, u: seq<real>)
    requires Scaled(r, s, u)
    ensures |u| == |s|
  {}

  lemma ScaledIntro(r: real, s: seq<real>, u: seq<real>)
    requires |u| == |s| && forall i :: 0 <= i < |s| ==> u[i] == Times(r, s[i])
    ensures Scaled(r, s, u)
  {}

  lemma StageCell(t: Trig, s: seq<real>, u: seq<real>, r: real, h: nat, k: nat)
    requires ExactTrig(t) && h % 4 == 0 && |s| == 2 * h && k < 2 * h
    requires Scaled(r, StageF(t, s, h), u)
    ensures |u| == 2 * h && CellT(t, u, h, k) == Times(2.0 * r, s[k])
  {
    hide Times, Cas, ExactTrig, Coef, Combine;
    var i := if k < h then k else k - h;
    assert |u| == 2 * h;
    CasUndoes(t, s, u, r, h, i);
    assert StageF(t, s, h)[i] == s[i] + s[h + i];
    assert u[i] == Times(r, s[i] + s[h + i]);
    TimesSum(r, s[i], s[h + i]);
  }

  // ----- the recursions -----

  /** A power of two that is at least 4. */
  ghost predicate Size(n: nat) { exists k: nat :: k >= 2 && n == Pow2(k) }

  lemma Halves(n: nat)
    requires Size(n) && n != 4
    ensures n % 2 == 0 && Size(n / 2) && n >= 8 && n % 8 == 0
  {
    var k: nat :| k >= 2 && n == Pow2(k);
    EightTimes(k);
    hide Pow2;
    assert n / 2 == Pow2(k - 1);
  }

  lemma EightTimes(k: nat)
    requires k >= 2
    ensures Pow2(2) == 4 && Pow2(0) == 1
    ensures k >= 3 ==> Pow2(k) % 8 == 0 && Pow2(k) >= 8 && Pow2(k) == 2 * Pow2(k - 1)
  {
    assert Pow2(0) == 1 && Pow2(1) == 2 && Pow2(2) == 4;
    if k >= 3 {
      var q := Pow2(k - 3);
      assert Pow2(k - 2) == 2 * q && Pow2(k - 1) == 4 * q && Pow2(k) == 8 * q;
      hide Pow2;
    }
  }

  lemma SmallestSize(n: nat)
    requires Size(n)
    ensures n >= 4
  {
    var k: nat :| k >= 2 && n == Pow2(k);
    Pow2Monotone(2, k);
    assert Pow2(0) == 1 && Pow2(1) == 2 && Pow2(2) == 4;
  }

  /** The hard-coded transform of four cells (b-fht.c:155-166). */
  function Four(s: seq<real>): (r: seq<real>)
    requires |s| == 4
    ensures |r| == 4
  {
    [s[0] + s[2] + (s[1] + s[3]), s[0] + s[2] - (s[1] + s[3]), s[0] - s[2] + (s[1] - s[3]), s[0] - s[2] - (s[1] - s[3])]
  }

  function FhtF(t: Trig, s: seq<real>): (r: seq<real>)
    requires Size(|s|)
    ensures |r| == |s|
    decreases |s|
  {
    if |s| == 4 then Four(s)
    else
      Halves(|s|);
      var h := |s| / 2;
      var u := StageF(t, s, h);
      FhtF(t, u[..h]) + FhtF(t, u[h..])
  }

  /** The hard-coded transform of eight cells (b-fht.c:234-270). */
  function Eight(t: Trig, s: seq<real>): (r: seq<real>)
    requires |s| == 8
    ensures |r| == 8
  {
    var (d01, s01, d23, s23) := (s[0] - s[1], s[0] + s[1], s[2] - s[3], s[2] + s[3]);
    var (s45, s67) := (s[4] + s[5], s[6] + s[7]);
    var (d45, d67) := (Times(s[4] - s[5], t.sqrt2), Times(s[6] - s[7], t.sqrt2));
    [s01 + s23 + (s45 + s67), d01 + d23 + d45, s01 - s23 + (s45 - s67), d01 - d23 + d67,
     s01 + s23 - (s45 + s67), d01 + d23 - d45, s01 - s23 - (s45 - s67), d01 - d23 - d67]
  }

  /** Four cells in time. */
  function FourT(s: seq<real>): (r: seq<real>)
    requires |s| == 4
    ensures |r| == 4
  {
    var (d01, s01, d23, s23) := (s[0] - s[1], s[0] + s[1], s[2] - s[3], s[2] + s[3]);
    [s01 + s23, d01 + d23, s01 - s23, d01 - d23]
  }

  function FhtT(t: Trig, s: seq<real>): (r: seq<real>)
    requires Size(|s|)
    ensures |r| == |s|
    decreases |s|
  {
    if |s| == 4 then FourT(s)
    else
      Halves(|s|);
      var h := |s| / 2;
      StageT(t, FhtT(t, s[..h]) + FhtT(t, s[h..]), h)
  }

  lemma SizeFour()
    ensures Size(4)
  {
    assert Pow2(0) == 1 && Pow2(1) == 2 && Pow2(2) == 4;
  }

  lemma CoefsOfFour(t: Trig)
    ensures Coef(t, 4, 0) == ONE && Coef(t, 4, 1) == C(t.sq, t.sq)
    ensures Coef(t, 4, 2) == C(0.0, 1.0) && Coef(t, 4, 3) == C(-t.sq, t.sq)
  {
    hide Pow, Step;
  }

  lemma CasOfFour(t: Trig, p: real, q: real)
    requires ExactTrig(t)
    ensures Combine(C(t.sq, t.sq), p + q, p - q) == Times(p, t.sqrt2)
    ensures Combine(C(-t.sq, t.sq), p - q, p + q) == Times(q, t.sqrt2)
    ensures Combine(ONE, p, p) == p && Combine(C(0.0, 1.0), p, p) == p
  {
    assert t.sq * (p + q) + t.sq * (p - q) == p * (2.0 * t.sq);
    assert -t.sq * (p - q) + t.sq * (p + q) == q * (2.0 * t.sq);
  }

  /** The hard-coded case of eight is one more step of the recursion. */
  lemma EightIsStage(t: Trig, s: seq<real>)
    requires ExactTrig(t) && |s| == 8
    ensures Eight(t, s) == StageT(t, FourT(s[..4]) + FourT(s[4..]), 4)
  {
    var u := FourT(s[..4]) + FourT(s[4..]);
    CoefsOfFour(t);
    CasOfFour(t, s[4] - s[5], s[6] - s[7]);
    CasOfFour(t, s[4] + s[5] + (s[6] + s[7]), 0.0);
    CasOfFour(t, s[4] + s[5] - (s[6] + s[7]), 0.0);
    hide Coef, Combine, Times, ExactTrig;
    assert Cas(t, u, 4, 0) == s[4] + s[5] + (s[6] + s[7]);
    assert Cas(t, u, 4, 1) == Times(s[4] - s[5], t.sqrt2);
    assert Cas(t, u, 4, 2) == s[4] + s[5] - (s[6] + s[7]);
    assert Cas(t, u, 4, 3) == Times(s[6] - s[7], t.sqrt2);
    hide Cas;
    assert u == [s[0] + s[1] + (s[2] + s[3]), s[0] - s[1] + (s[2] - s[3]), s[0] + s[1] - (s[2] + s[3]), s[0] - s[1] - (s[2] - s[3])] + u[4..];
    var r := StageT(t, u, 4);
    assert forall k :: 0 <= k < 8 ==> r[k] == CellT(t, u, 4, k);
    assert Eight(t, s) == r;
  }

  lemma EightIsFhtT(t: Trig, s: seq<real>)
    requires ExactTrig(t) && |s| == 8 && Size(8)
    ensures FhtT(t, s) == Eight(t, s)
  {
    SizeFour();
    EightIsStage(t, s);
  }

  lemma FourUndoes(s: seq<real>)
    requires |s| == 4
    ensures Scaled(4.0, s, FourT(Four(s)))
  {}

  lemma Rescale(n: nat, h: nat)
    requires n == 2 * h
    ensures 2.0 * (h as real) == n as real
  {}

  /** The decimation in time undoes the decimation in frequency, up to the length. */
  lemma {:induction false} RoundTrip(t: Trig, s: seq<real>)
    requires ExactTrig(t) && Size(|s|)
    ensures Scaled(|s| as real, s, FhtT(t, FhtF(t, s)))
    decreases |s|
  {
    hide *;
    if |s| == 4 {
      FourUndoes(s);
      FhtOfFour(t, s);
    } else {
      Halves(|s|);
      var h := |s| / 2;
      var u := StageF(t, s, h);
      var (a, b) := (FhtF(t, u[..h]), FhtF(t, u[h..]));
      RoundTrip(t, u[..h]);
      RoundTrip(t, u[h..]);
      HalvesScaled(h as real, u, h, FhtT(t, a), FhtT(t, b));
      StageUndoes(t, s, FhtT(t, a) + FhtT(t, b), h as real, h);
      Rescale(|s|, h);
      FhtFStep(t, s, h);
      FhtTStep(t, a + b, h, a, b);
    }
  }

  lemma FhtOfFour(t: Trig, s: seq<real>)
    requires |s| == 4 && Size(4)
    ensures FhtF(t, s) == Four(s) && FhtT(t, Four(s)) == FourT(Four(s))
  {}

  lemma FhtFStep(t: Trig, s: seq<real>, h: nat)
    requires Size(|s|) && Size(h) && |s| == 2 * h && |s| != 4
    ensures FhtF(t, s) == FhtF(t, StageF(t, s, h)[..h]) + FhtF(t, StageF(t, s, h)[h..])
  {
    hide StageF;
  }

  lemma FhtTStep(t: Trig, s: seq<real>, h: nat, a: seq<real>, b: seq<real>)
    requires Size(|s|) && Size(h) && |s| == 2 * h && |s| != 4 && s == a + b && |a| == |b| == h
    ensures FhtT(t, s) == StageT(t, FhtT(t, a) + FhtT(t, b), h)
  {
    assert s[..h] == a && s[h..] == b;
  }

  lemma HalvesScaled(r: real, u: seq<real>, h: nat, a: seq<real>, b: seq<real>)
    requires |u| == 2 * h && Scaled(r, u[..h], a) && Scaled(r, u[h..], b)
    ensures Scaled(r, u, a + b)
  {
    hide Times;
    forall i | 0 <= i < 2 * h
      ensures (a + b)[i] == Times(r, u[i])
    {
      if i < h {
        assert u[..h][i] == u[i];
      } else {
        assert u[h..][i - h] == u[i];
      }
    }
  }

  // ----- the stages in place -----

  /** The cells of index i in both halves are those of r for the indices that are done, and those of
      s for the others. */
  ghost predicate Part(u: seq<real>, s: seq<real>, r: seq<real>, h: nat, done: set<int>) {
    && |u| == |s| == |r| == 2 * h
    && forall i :: 0 <= i < h ==>
         && u[i] == (if i in done then r[i] else s[i])
         && u[h + i] == (if i in done then r[h + i] else s[h + i])
  }

  lemma PartBegins(s: seq<real>, r: seq<real>, h: nat)
    requires |s| == |r| == 2 * h
    ensures Part(s, s, r, h, {})
  {}

  lemma PartEnds(u: seq<real>, s: seq<real>, r: seq<real>, h: nat, done: set<int>)
    requires Part(u, s, r, h, done) && forall i :: 0 <= i < h ==> i in done
    ensures u == r
  {
    forall k | 0 <= k < 2 * h
      ensures u[k] == r[k]
    {
      var i := if k < h then k else k - h;
      assert u[i] == r[i] && u[h + i] == r[h + i];
    }
  }

  /** The four cells of a pair of indices are stored. */
  method StorePair(data: array<real>, start: nat, h: nat, n1: nat, n2: nat, l1: real, l2: real, r1: real, r2: real,
                   ghost s: seq<real>, ghost r: seq<real>, ghost done: set<int>)
    requires start + 2 * h <= data.Length && n1 < h && n2 < h
    requires Part(data[start..start + 2 * h], s, r, h, done)
    requires l1 == r[n1] && l2 == r[n2] && r1 == r[h + n1] && r2 == r[h + n2]
    modifies data
    ensures Part(data[start..start + 2 * h], s, r, h, done + {n1, n2})
    ensures Framed(old(data[..]), data[..], start, 2 * h)
  {
    ghost var u := data[start..start + 2 * h];
    data[start + n1] := l1;
    data[start + n2] := l2;
    data[start + h + n1] := r1;
    data[start + h + n2] := r2;
    ghost var v := data[start..start + 2 * h];
    forall i | 0 <= i < h
      ensures v[i] == if i in done + {n1, n2} then r[i] else s[i]
      ensures v[h + i] == if i in done + {n1, n2} then r[h + i] else s[h + i]
    {
      assert v[i] == data[start + i] && v[h + i] == data[start + (h + i)];
    }
  }

  lemma CombineIs(c: real, sn: real, x: real, y: real)
    ensures Combine(C(c, sn), x, y) == Times(x, c) + Times(y, sn)
    ensures Combine(Opposed(C(c, sn)), y, x) == Times(x, sn) - Times(y, c)
  {}

  /** What a stage in frequency stores for a pair of indices. */
  lemma FrequencyPair(t: Trig, s: seq<real>, h: nat, n1: nat, n2: nat, c: real, sn: real)
    requires |s| == 2 * h && h % 4 == 0 && 0 < n1 < h && n2 == h - n1 && Coef(t, h, n1) == C(c, sn)
    ensures var r := StageF(t, s, h);
            var (d1, d2) := (s[n1] - s[h + n1], s[n2] - s[h + n2]);
            && r[n1] == s[n1] + s[h + n1] && r[n2] == s[n2] + s[h + n2]
            && r[h + n1] == Times(d1, c) + Times(d2, sn) && r[h + n2] == Times(d1, sn) - Times(d2, c)
  {
    hide Coef, Combine, Opposed, Times;
    CoefPartner(t, h, n1);
    var (d1, d2) := (s[n1] - s[h + n1], s[n2] - s[h + n2]);
    CombineIs(c, sn, d1, d2);
    assert CellF(t, s, h, h + n1) == Combine(C(c, sn), d1, d2);
    assert CellF(t, s, h, h + n2) == Combine(Opposed(C(c, sn)), d2, d1);
  }

  lemma TimePair(t: Trig, s: seq<real>, h: nat, n1: nat, n2: nat, c: real, sn: real)
    requires |s| == 2 * h && h % 4 == 0 && 0 < n1 < h && n2 == h - n1 && Coef(t, h, n1) == C(c, sn)
    ensures var r := StageT(t, s, h);
            var (cas1, cas2) := (Times(s[h + n1], c) + Times(s[h + n2], sn), Times(s[h + n1], sn) - Times(s[h + n2], c));
            && r[n1] == s[n1] + cas1 && r[n2] == s[n2] + cas2 && r[h + n1] == s[n1] - cas1 && r[h + n2] == s[n2] - cas2
  {
    hide Coef, Combine, Opposed, Times;
    CoefPartner(t, h, n1);
    CombineIs(c, sn, s[h + n1], s[h + n2]);
    assert Cas(t, s, h, n1) == Combine(C(c, sn), s[h + n1], s[h + n2]);
    assert Cas(t, s, h, n2) == Combine(Opposed(C(c, sn)), s[h + n2], s[h + n1]);
  }

  /** The cells that are not done yet are still those of s. */
  lemma StillOld(data: array<real>, start: nat, h: nat, s: seq<real>, r: seq<real>, done: set<int>, i: nat)
    requires start + 2 * h <= data.Length && i < h && i !in done
    requires Part(data[start..start + 2 * h], s, r, h, done)
    ensures |s| == 2 * h && data[start + i] == s[i] && data[start + h + i] == s[h + i]
  {
    var u := data[start..start + 2 * h];
    assert u[i] == data[start + i] && u[h + i] == data[start + (h + i)];
  }

  /** FHT_F2Butterfly (b-fht.c:133-143) */
  method ButterflyF(data: array<real>, start: nat, h: nat, n1: nat, n2: nat, c: real, sn: real, ghost t: Trig, ghost s: seq<real>, ghost done: set<int>)
    requires start + 2 * h <= data.Length && h % 4 == 0 && 0 < n1 < h && n2 == h - n1 && n1 != n2
    requires |s| == 2 * h && Part(data[start..start + 2 * h], s, StageF(t, s, h), h, done) && n1 !in done && n2 !in done
    requires Coef(t, h, n1) == C(c, sn)
    modifies data
    ensures Part(data[start..start + 2 * h], s, StageF(t, s, h), h, done + {n1, n2})
    ensures Framed(old(data[..]), data[..], start, 2 * h)
  {
    hide Coef, Part, StageF, Framed, Times;
    FrequencyPair(t, s, h, n1, n2, c, sn);
    StillOld(data, start, h, s, StageF(t, s, h), done, n1);
    StillOld(data, start, h, s, StageF(t, s, h), done, n2);
    var d1, d2 := data[start + n1], data[start + n2];
    var temp1, temp2 := data[start + h + n1], data[start + h + n2];
    var l1, l2 := d1 + temp1, d2 + temp2;
    d1, d2 := d1 - temp1, d2 - temp2;
    StorePair(data, start, h, n1, n2, l1, l2, Times(d1, c) + Times(d2, sn), Times(d1, sn) - Times(d2, c), s, StageF(t, s, h), done);
  }

  /** FHT_T2Butterfly (b-fht.c:200-216) */
  method ButterflyT(data: array<real>, start: nat, h: nat, n1: nat, n2: nat, c: real, sn: real, ghost t: Trig, ghost s: seq<real>, ghost done: set<int>)
    requires start + 2 * h <= data.Length && h % 4 == 0 && 0 < n1 < h && n2 == h - n1 && n1 != n2
    requires |s| == 2 * h && Part(data[start..start + 2 * h], s, StageT(t, s, h), h, done) && n1 !in done && n2 !in done
    requires Coef(t, h, n1) == C(c, sn)
    modifies data
    ensures Part(data[start..start + 2 * h], s, StageT(t, s, h), h, done + {n1, n2})
    ensures Framed(old(data[..]), data[..], start, 2 * h)
  {
    hide Coef, Part, StageT, Framed, Times;
    TimePair(t, s, h, n1, n2, c, sn);
    StillOld(data, start, h, s, StageT(t, s, h), done, n1);
    StillOld(data, start, h, s, StageT(t, s, h), done, n2);
    var rx, ri := data[start + h + n1], data[start + h + n2];
    var cas1, lx := Times(rx, c) + Times(ri, sn), data[start + n1];
    var cas2, li := Times(rx, sn) - Times(ri, c), data[start + n2];
    StorePair(data, start, h, n1, n2, lx + cas1, li + cas2, lx - cas1, li - cas2, s, StageT(t, s, h), done);
  }

  /** A point that is its own partner: index 0, and h / 2 with a sine of 1. */
  lemma OwnPartner(t: Trig, h: nat, i: int, x: real)
    requires h % 4 == 0 && h > 0 && (i == 0 || i == h / 2)
    ensures Partner(h, i) == i && Combine(Coef(t, h, i), x, x) == x
  {
    hide Pow, Step;
  }

  /** Sum and difference at such a point (b-fht.c:168-172, 219-224). */
  method OwnPair(data: array<real>, start: nat, h: nat, i: nat, ghost t: Trig, ghost frequency: bool, ghost s: seq<real>, ghost r: seq<real>, ghost done: set<int>)
    requires start + 2 * h <= data.Length && h % 4 == 0 && h > 0 && (i == 0 || i == h / 2)
    requires |s| == 2 * h && Part(data[start..start + 2 * h], s, r, h, done) && i !in done
    requires r == if frequency then StageF(t, s, h) else StageT(t, s, h)
    modifies data
    ensures Part(data[start..start + 2 * h], s, r, h, done + {i})
    ensures Framed(old(data[..]), data[..], start, 2 * h)
  {
    hide Coef, Part, StageF, StageT, Framed;
    OwnCells(t, s, h, i);
    StillOld(data, start, h, s, r, done, i);
    var t1, t2 := data[start + i], data[start + h + i];
    StorePair(data, start, h, i, i, t1 + t2, t1 + t2, t1 - t2, t1 - t2, s, r, done);
    assert done + {i, i} == done + {i};
  }

  lemma OwnCells(t: Trig, s: seq<real>, h: nat, i: nat)
    requires |s| == 2 * h && h % 4 == 0 && h > 0 && (i == 0 || i == h / 2)
    ensures StageF(t, s, h)[i] == s[i] + s[h + i] && StageF(t, s, h)[h + i] == s[i] - s[h + i]
    ensures StageT(t, s, h)[i] == s[i] + s[h + i] && StageT(t, s, h)[h + i] == s[i] - s[h + i]
  {
    OwnPartner(t, h, i, s[i] - s[h + i]);
    OwnPartner(t, h, i, s[h + i]);
    hide Coef, Combine;
  }

  lemma CoefInTurn(t: Trig, h: nat, x: int)
    requires h % 4 == 0 && 1 <= x < h / 4
    ensures Coef(t, h, x) == Pow(Step(t, h), x) && Coef(t, h, h / 2 - x) == Mirrored(Pow(Step(t, h), x))
  {
    hide Pow, Step;
  }

  lemma CoefAtQuarter(t: Trig, h: nat)
    requires h % 4 == 0 && h > 0
    ensures Coef(t, h, h / 4) == C(t.sq, t.sq)
  {
    hide Pow, Step;
  }

  /** NextTrigPow (b-fht.c:125-130): adding w (rho - 1) to w multiplies it by rho. */
  lemma NextTrigPow(w: C, rho: C)
    ensures Add(Mul(w, Sub(rho, ONE)), w) == Mul(w, rho)
  {}

  /** The loop of a stage (b-fht.c:174-191, 278-296). */
  method Turns(data: array<real>, start: nat, h: nat, t: Trig, frequency: bool, ghost s: seq<real>, ghost r: seq<real>)
    requires start + 2 * h <= data.Length && h % 4 == 0 && h > 0 && |s| == 2 * h
    requires r == if frequency then StageF(t, s, h) else StageT(t, s, h)
    requires Part(data[start..start + 2 * h], s, r, h, Turned(h, 1))
    modifies data
    ensures Part(data[start..start + 2 * h], s, r, h, Turned(h, h / 4 + 1))
    ensures Framed(old(data[..]), data[..], start, 2 * h)
  {
    hide Part, StageF, StageT, Coef, Framed, Turned, Turn, Pow, Step, Mul, Add, Sub;
    ghost var was := data[..];
    FramedSame(was, start, 2 * h);
    var rho := Step(t, h);
    var step := Sub(rho, ONE);
    var w := Add(ONE, step);
    FirstPower(rho);
    var q := h / 4;
    for x := 1 to q
      invariant w == Pow(rho, x)
      invariant Part(data[start..start + 2 * h], s, r, h, Turned(h, x)) && Framed(was, data[..], start, 2 * h)
    {
      NextTurn(h, x);
      CoefInTurn(t, h, x);
      Pair(data, start, h, x, h - x, w.re, w.im, t, frequency, s, r, Turned(h, x), was);
      MirroredIs(w);
      TurnDisjoint(h, x);
      Pair(data, start, h, h / 2 - x, h / 2 + x, w.im, w.re, t, frequency, s, r, Turned(h, x) + {x, h - x}, was);
      NextTrigPow(w, rho);
      PowLast(rho, x + 1);
      w := Add(Mul(w, step), w);
    }
    CoefAtQuarter(t, h);
    NextTurn(h, q);
    Pair(data, start, h, q, h - q, t.sq, t.sq, t, frequency, s, r, Turned(h, q), was);
    assert h / 2 - q == q && h / 2 + q == h - q;
    assert Turned(h, q) + {q, h - q} + {q, h - q} == Turned(h, q) + {q, h - q};
  }

  lemma FirstPower(rho: C)
    ensures Add(ONE, Sub(rho, ONE)) == Pow(rho, 1)
  {
    assert Pow(rho, 0) == ONE;
    MulOne(rho);
  }

  lemma MirroredIs(w: C)
    ensures Mirrored(w) == C(w.im, w.re)
  {}

  /** One butterfly of either kind. */
  method Pair(data: array<real>, start: nat, h: nat, n1: nat, n2: nat, c: real, sn: real, ghost t: Trig, frequency: bool,
              ghost s: seq<real>, ghost r: seq<real>, ghost done: set<int>, ghost was: seq<real>)
    requires start + 2 * h <= data.Length && h % 4 == 0 && 0 < n1 < h && n2 == h - n1 && n1 != n2
    requires |s| == 2 * h && r == if frequency then StageF(t, s, h) else StageT(t, s, h)
    requires Part(data[start..start + 2 * h], s, r, h, done) && n1 !in done && n2 !in done
    requires Coef(t, h, n1) == C(c, sn) && Framed(was, data[..], start, 2 * h)
    modifies data
    ensures Part(data[start..start + 2 * h], s, r, h, done + {n1, n2})
    ensures Framed(was, data[..], start, 2 * h)
  {
    hide Part, StageF, StageT, Coef, Framed;
    ghost var before := data[..];
    if frequency {
      ButterflyF(data, start, h, n1, n2, c, sn, t, s, done);
    } else {
      ButterflyT(data, start, h, n1, n2, c, sn, t, s, done);
    }
    FramedTwice(was, before, data[..], start, 2 * h);
  }

  // ----- the recursive routines -----

  /** The special points and the loop of RFHT_F, before the recursion (b-fht.c:168-191). */
  method FrequencyStage(data: array<real>, start: nat, h: nat, t: Trig)
    requires start + 2 * h <= data.Length && h % 4 == 0 && h > 0
    modifies data
    ensures data[start..start + 2 * h] == StageF(t, old(data[start..start + 2 * h]), h)
    ensures Framed(old(data[..]), data[..], start, 2 * h)
  {
    ghost var s := data[start..start + 2 * h];
    ghost var r := StageF(t, s, h);
    Stage(data, start, h, t, true, s, r);
  }

  /** A whole stage of either kind. RFHT_T comes to the point h / 2 last; no other index reads or
      writes its cells. */
  method Stage(data: array<real>, start: nat, h: nat, t: Trig, frequency: bool, ghost s: seq<real>, ghost r: seq<real>)
    requires start + 2 * h <= data.Length && h % 4 == 0 && h > 0 && s == data[start..start + 2 * h]
    requires r == if frequency then StageF(t, s, h) else StageT(t, s, h)
    modifies data
    ensures data[start..start + 2 * h] == r
    ensures Framed(old(data[..]), data[..], start, 2 * h)
  {
    hide Part, StageF, StageT, Framed, Turned;
    ghost var was := data[..];
    PartBegins(s, r, h);
    OwnPair(data, start, h, 0, t, frequency, s, r, {});
    ghost var u := data[..];
    assert h / 2 !in {} + {0};
    OwnPair(data, start, h, h / 2, t, frequency, s, r, {} + {0});
    FramedTwice(was, u, data[..], start, 2 * h);
    ghost var v := data[..];
    FirstTurn(h);
    assert {} + {0} + {h / 2} == Turned(h, 1);
    Turns(data, start, h, t, frequency, s, r);
    FramedTwice(was, v, data[..], start, 2 * h);
    LastTurn(h, h / 4 + 1);
    PartEnds(data[start..start + 2 * h], s, r, h, Turned(h, h / 4 + 1));
  }

  /** The case of four cells (b-fht.c:155-166). */
  method RfhtFour(data: array<real>, start: nat)
    requires start + 4 <= data.Length
    modifies data
    ensures data[start..start + 4] == Four(old(data[start..start + 4]))
    ensures Framed(old(data[..]), data[..], start, 4)
  {
    ghost var s := data[start..start + 4];
    assert forall i :: 0 <= i < 4 ==> s[i] == data[start + i];
    var d0, d1, d2, d3 := data[start], data[start + 1], data[start + 2], data[start + 3];
    var d02, d13 := d0 + d2, d1 + d3;
    data[start], data[start + 1] := d02 + d13, d02 - d13;
    d02, d13 := d0 - d2, d1 - d3;
    data[start + 2], data[start + 3] := d02 + d13, d02 - d13;
    assert data[start..start + 4] == [data[start], data[start + 1], data[start + 2], data[start + 3]];
  }

  /** benchees/bloodworth/b-fht.c:145-195 */
  method RfhtF(data: array<real>, start: nat, len: nat, t: Trig)
    requires start + len <= data.Length && Size(len)
    modifies data
    ensures data[start..start + len] == FhtF(t, old(data[start..start + len]))
    ensures Framed(old(data[..]), data[..], start, len)
    decreases len
  {
    hide FhtF, StageF, Framed, Size;
    ghost var a := data[..];
    if len == 4 {
      RfhtFour(data, start);
      FhtOfFour(t, a[start..start + 4]);
      ViewOf(a, start, len);
      return;
    }
    Halves(len);
    var h := len / 2;
    FrequencyStage(data, start, h, t);
    ghost var b := data[..];
    RfhtF(data, start, h, t);
    ghost var c := data[..];
    Views(data, start, h);
    RfhtF(data, start + h, h, t);
    Views(data, start, h);
    FrequencyComposed(t, a, b, c, data[..], start, h);
  }

  lemma FrequencyComposed(t: Trig, a: seq<real>, b: seq<real>, c: seq<real>, d: seq<real>, start: nat, h: nat)
    requires start + 2 * h <= |a| == |b| == |c| == |d| && Size(h) && Size(2 * h) && 2 * h != 4
    requires b[start..start + 2 * h] == StageF(t, a[start..start + 2 * h], h) && Framed(a, b, start, 2 * h)
    requires c[start..start + h] == FhtF(t, b[start..start + h]) && Framed(b, c, start, h)
    requires d[start + h..start + 2 * h] == FhtF(t, c[start + h..start + 2 * h]) && Framed(c, d, start + h, h)
    ensures d[start..start + 2 * h] == FhtF(t, a[start..start + 2 * h]) && Framed(a, d, start, 2 * h)
  {
    hide FhtF, StageF, Framed, Size;
    SliceJoin(b, start, h);
    FramedSlices(b, c, start, h, start + h, start + 2 * h);
    FramedSlices(c, d, start + h, h, start, start + h);
    SliceJoin(d, start, h);
    FhtFStep(t, a[start..start + 2 * h], h);
    FramedWider(b, c, start, h, start, 2 * h);
    FramedWider(c, d, start + h, h, start, 2 * h);
    FramedChain(a, b, c, d, start, 2 * h);
  }

  lemma EightRead(data: array<real>, start: nat)
    requires start + 8 <= data.Length
    ensures data[start..start + 8] == [data[start], data[start + 1], data[start + 2], data[start + 3],
                                       data[start + 4], data[start + 5], data[start + 6], data[start + 7]]
  {}

  method StoreEight(data: array<real>, start: nat, v: seq<real>)
    requires start + 8 <= data.Length && |v| == 8
    modifies data
    ensures data[start..start + 8] == v
    ensures Framed(old(data[..]), data[..], start, 8)
  {
    for k := 0 to 8
      invariant forall i :: 0 <= i < data.Length ==> data[i] == if start <= i < start + k then v[i - start] else old(data[i])
    {
      data[start + k] := v[k];
    }
  }

  /** The case of eight cells (b-fht.c:234-270). */
  method RfhtEight(data: array<real>, start: nat, t: Trig)
    requires start + 8 <= data.Length
    modifies data
    ensures data[start..start + 8] == Eight(t, old(data[start..start + 8]))
    ensures Framed(old(data[..]), data[..], start, 8)
  {
    hide Times, Framed;
    EightRead(data, start);
    var d01, s01 := data[start] - data[start + 1], data[start] + data[start + 1];
    var d23, s23 := data[start + 2] - data[start + 3], data[start + 2] + data[start + 3];
    var ds0123, ss0123, dd0123, sd0123 := s01 - s23, s01 + s23, d01 - d23, d01 + d23;
    var s45, s67 := data[start + 4] + data[start + 5], data[start + 6] + data[start + 7];
    var d45, d67 := data[start + 4] - data[start + 5], data[start + 6] - data[start + 7];
    var ds4567, ss4567 := s45 - s67, s45 + s67;
    d45, d67 := Times(d45, t.sqrt2), Times(d67, t.sqrt2);
    StoreEight(data, start, [ss0123 + ss4567, sd0123 + d45, ds0123 + ds4567, dd0123 + d67,
                             ss0123 - ss4567, sd0123 - d45, ds0123 - ds4567, dd0123 - d67]);
  }

  /** benchees/bloodworth/b-fht.c:227-300 */
  method RfhtT(data: array<real>, start: nat, len: nat, t: Trig)
    requires start + len <= data.Length && Size(len) && len >= 8 && ExactTrig(t)
    modifies data
    ensures data[start..start + len] == FhtT(t, old(data[start..start + len]))
    ensures Framed(old(data[..]), data[..], start, len)
    decreases len
  {
    hide FhtT, StageT, Framed, Size, ExactTrig, Eight;
    ghost var a := data[..];
    if len == 8 {
      RfhtEight(data, start, t);
      EightIsFhtT(t, a[start..start + 8]);
      ViewOf(a, start, len);
      return;
    }
    Halves(len);
    var h := len / 2;
    AtLeastEight(h, len);
    RfhtT(data, start, h, t);
    ghost var b := data[..];
    Views(data, start, h);
    RfhtT(data, start + h, h, t);
    ghost var c := data[..];
    Views(data, start, h);
    Stage(data, start, h, t, false, data[start..start + 2 * h], StageT(t, data[start..start + 2 * h], h));
    Views(data, start, h);
    TimeComposed(t, a, b, c, data[..], start, h);
  }

  lemma TimeComposed(t: Trig, a: seq<real>, b: seq<real>, c: seq<real>, d: seq<real>, start: nat, h: nat)
    requires start + 2 * h <= |a| == |b| == |c| == |d| && Size(h) && Size(2 * h) && 2 * h != 4
    requires b[start..start + h] == FhtT(t, a[start..start + h]) && Framed(a, b, start, h)
    requires c[start + h..start + 2 * h] == FhtT(t, b[start + h..start + 2 * h]) && Framed(b, c, start + h, h)
    requires d[start..start + 2 * h] == StageT(t, c[start..start + 2 * h], h) && Framed(c, d, start, 2 * h)
    ensures d[start..start + 2 * h] == FhtT(t, a[start..start + 2 * h]) && Framed(a, d, start, 2 * h)
  {
    hide FhtT, StageT, Framed, Size;
    SliceJoin(a, start, h);
    FramedSlices(a, b, start, h, start + h, start + 2 * h);
    FramedSlices(b, c, start + h, h, start, start + h);
    SliceJoin(c, start, h);
    FhtTStep(t, a[start..start + 2 * h], h, a[start..start + h], a[start + h..start + 2 * h]);
    FramedWider(a, b, start, h, start, 2 * h);
    FramedWider(b, c, start + h, h, start, 2 * h);
    FramedChain(a, b, c, d, start, 2 * h);
  }

  lemma AtLeastEight(h: nat, len: nat)
    requires Size(len) && len >= 8 && len != 8 && len == 2 * h && Size(h)
    ensures h >= 8
  {
    SmallestSize(h);
    if h != 4 { Halves(h); }
  }

  /** Both routines, one after the other: every cell comes back, times the length. */
  method ThereAndBack(data: array<real>, len: nat, t: Trig)
    requires data.Length == len && Size(len) && len >= 8 && ExactTrig(t)
    modifies data
    ensures Scaled(len as real, old(data[..]), data[..])
  {
    hide FhtT, FhtF, Framed, Size, ExactTrig, Scaled;
    ghost var s := data[..];
    assert s == data[0..0 + len];
    RfhtF(data, 0, len, t);
    RfhtT(data, 0, len, t);
    RoundTrip(t, s);
    assert data[0..0 + len] == data[..];
  }
}
