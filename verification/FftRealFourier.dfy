/** With exact cosines do_fft of benchees/fftreal/FFTReal.cc computes the Fourier transform of real
    samples: first the real parts of the frequencies up to the middle, then the imaginary parts of
    those between.
  */
module FftRealFourier {
  import opened ComplexNumbers
  import opened DiscreteFourier
  import opened Roots
  import opened Arithmetic
  import opened RadixTwo
  import opened QuarterTurns
  import opened RealSamples
  import opened FftReal

  ghost predicate RotationLaw(rot: Rotations, e: nat -> C, p: nat, i: int) {
    p >= 2 && 0 < i < Pow2(p - 1) ==> rot(p, i) == Pow(e(Pow2(p + 1)), i)
  }

  /** The rotations are powers of the roots e, whose turn goes from 1 towards the imaginary unit. */
  ghost predicate ExactRotations(rot: Rotations, e: nat -> C) {
    RootFamily(e) && e(4) == QUARTER && forall p: nat, i: int :: RotationLaw(rot, e, p, i)
  }

  // ----- one block of a pass -----

  /** Coefficient j of a transform X of length n in the order of FFTReal. */
  function Packed(n: nat, X: int -> C, j: int): real {
    if j <= n / 2 then X(j).re else X(j - n / 2).im
  }

  /** A and B are the transforms of the even and the odd samples of a block, X that of the block. */
  ghost predicate Combined(w: C, h: nat, A: int -> C, B: int -> C, X: int -> C) {
    forall r :: 0 <= r < 2 * h ==> CombinedAt(w, h, A, B, X, r)
  }

  predicate CombinedAt(w: C, h: nat, A: int -> C, B: int -> C, X: int -> C, r: int) {
    X(r) == Add(A(r), Mul(Pow(w, r), B(r))) && X(2 * h + r) == Sub(A(r), Mul(Pow(w, r), B(r)))
  }

  /** The transform of real samples at the other end of the spectrum. */
  ghost predicate Symmetric(n: nat, X: int -> C) {
    X(0).im == 0.0 && forall r :: 0 < r < n ==> Mirrors(n, X, r)
  }

  predicate Mirrors(n: nat, X: int -> C, r: int) { X(n - r) == Conj(X(r)) }

  lemma MiddleReal(h: nat, X: int -> C)
    requires h >= 1 && Symmetric(2 * h, X)
    ensures X(h).im == 0.0 && X(0).im == 0.0
  {
    assert Mirrors(2 * h, X, h);
  }

  /** What index i of the first quarter contributes, before a pass and after it. */
  lemma QuarterCells(w: C, h: nat, A: int -> C, B: int -> C, X: int -> C, a: C, i: int)
    requires 0 < i < h && Combined(w, h, A, B, X) && Symmetric(4 * h, X) && a == Pow(w, i)
    ensures var (v, s) := (Turned(a, B(i).re, B(i).im), TurnedSide(a, B(i).re, B(i).im));
            && X(i).re == A(i).re + v && X(2 * h - i).re == A(i).re - v
            && X(i).im == s + A(i).im && X(2 * h - i).im == s - A(i).im
  {
    var (v, s) := (Turned(a, B(i).re, B(i).im), TurnedSide(a, B(i).re, B(i).im));
    TurnedIs(a, B(i));
    hide Pow, Turned, TurnedSide, Mul;
    assert CombinedAt(w, h, A, B, X, i);
    var r := 2 * h + i;
    assert Mirrors(4 * h, X, r);
    assert 4 * h - r == 2 * h - i;
  }

  lemma TurnedIs(a: C, b: C)
    ensures Mul(a, b) == C(Turned(a, b.re, b.im), TurnedSide(a, b.re, b.im))
  {}

  lemma EndCells(w: C, h: nat, A: int -> C, B: int -> C, X: int -> C)
    requires h >= 1 && Combined(w, h, A, B, X) && Pow(w, h) == QUARTER
    requires A(0).im == B(0).im == A(h).im == B(h).im == 0.0
    ensures X(0).re == A(0).re + B(0).re && X(2 * h).re == A(0).re - B(0).re
    ensures X(h).re == A(h).re && X(h).im == B(h).re
  {
    PowAtZero(w);
    MulOne(B(0));
    TimesQuarter(B(h));
    hide Pow, Mul;
    assert CombinedAt(w, h, A, B, X, 0) && CombinedAt(w, h, A, B, X, h);
  }

  /** The cells of a block that holds the packed transforms A and B of length 2 h. */
  ghost predicate Holds(h: nat, s: seq<real>, A: int -> C, B: int -> C)
    requires |s| == 4 * h
  {
    && (forall i {:trigger s[i]} :: 0 <= i < 2 * h ==> s[i] == Packed(2 * h, A, i))
    && (forall i {:trigger s[i]} :: 2 * h <= i < 4 * h ==> s[i] == Packed(2 * h, B, i - 2 * h))
  }

  lemma HoldsQuarter(h: nat, s: seq<real>, A: int -> C, B: int -> C, i: int)
    requires |s| == 4 * h && Holds(h, s, A, B) && 0 < i < h
    ensures s[i] == A(i).re && s[h + i] == A(i).im && s[2 * h + i] == B(i).re && s[3 * h + i] == B(i).im
  {}

  lemma HoldsEnds(h: nat, s: seq<real>, A: int -> C, B: int -> C)
    requires |s| == 4 * h && Holds(h, s, A, B) && h >= 1
    ensures s[0] == A(0).re && s[h] == A(h).re && s[2 * h] == B(0).re && s[3 * h] == B(h).re
  {}

  lemma UpEnds(rot: int -> C, w: C, h: nat, s: seq<real>, A: int -> C, B: int -> C, X: int -> C)
    requires h >= 1 && |s| == 4 * h && Holds(h, s, A, B) && Pow(w, h) == QUARTER
    requires Combined(w, h, A, B, X) && Symmetric(2 * h, A) && Symmetric(2 * h, B)
    ensures UpCell(rot, h, s, 0) == X(0).re && UpCell(rot, h, s, 2 * h) == X(2 * h).re
    ensures UpCell(rot, h, s, h) == X(h).re && UpCell(rot, h, s, 3 * h) == X(h).im
  {
    hide *;
    MiddleReal(h, A);
    MiddleReal(h, B);
    HoldsEnds(h, s, A, B);
    Ends(rot, h, s);
    EndCells(w, h, A, B, X);
  }

  lemma UpQuarter(rot: int -> C, w: C, h: nat, s: seq<real>, A: int -> C, B: int -> C, X: int -> C, i: int)
    requires 0 < i < h && |s| == 4 * h && Holds(h, s, A, B) && rot(i) == Pow(w, i)
    requires Combined(w, h, A, B, X) && Symmetric(4 * h, X)
    ensures UpCell(rot, h, s, i) == X(i).re && UpCell(rot, h, s, 2 * h - i) == X(2 * h - i).re
    ensures UpCell(rot, h, s, 2 * h + i) == X(i).im && UpCell(rot, h, s, 4 * h - i) == X(2 * h - i).im
  {
    hide *;
    HoldsQuarter(h, s, A, B, i);
    UpCells(rot, h, s, i);
    QuarterCells(w, h, A, B, X, rot(i), i);
  }

  /** A pass takes the packed transforms of the halves of a block to that of the block. */
  lemma UpCellPacked(rot: int -> C, w: C, h: nat, s: seq<real>, A: int -> C, B: int -> C, X: int -> C, j: int)
    requires h >= 1 && |s| == 4 * h && 0 <= j < 4 * h && Holds(h, s, A, B)
    requires Combined(w, h, A, B, X) && Symmetric(4 * h, X) && Symmetric(2 * h, A) && Symmetric(2 * h, B)
    requires Pow(w, h) == QUARTER && forall i {:trigger rot(i)} :: 0 < i < h ==> rot(i) == Pow(w, i)
    ensures UpCell(rot, h, s, j) == Packed(4 * h, X, j)
  {
    var n := 2 * h;
    hide UpCell, Holds, Combined, Symmetric, Pow;
    UpEnds(rot, w, h, s, A, B, X);
    if 0 < j < h {
      UpQuarter(rot, w, h, s, A, B, X, j);
    } else if h < j < n {
      UpQuarter(rot, w, h, s, A, B, X, n - j);
      assert n - (n - j) == j;
    } else if n < j < n + h {
      UpQuarter(rot, w, h, s, A, B, X, j - n);
    } else if j > n + h {
      UpQuarter(rot, w, h, s, A, B, X, 2 * n - j);
      assert 4 * h - (2 * n - j) == j && n - (2 * n - j) == j - n;
    }
  }

  // ----- the levels -----

  /** The transform that block c of length 2^t holds. */
  ghost function BlockOf(e: nat -> C, bits: nat, x: seq<real>, t: nat, c: nat): int -> C
    requires t <= bits
  {
    r => Dft(Pow2(t), e(Pow2(t)), Samples(Cells(Real(x)), Reverse(bits - t, c), Pow2(bits - t)), r)
  }

  lemma BlockOfAt(e: nat -> C, bits: nat, x: seq<real>, t: nat, c: nat, r: int)
    requires t <= bits
    ensures BlockOf(e, bits, x, t, c)(r)
         == Dft(Pow2(t), e(Pow2(t)), Samples(Cells(Real(x)), Reverse(bits - t, c), Pow2(bits - t)), r)
  {}

  /** The cells of the radix-2 transform are those transforms. */
  lemma BlockIsDft(e: nat -> C, bits: nat, x: seq<real>, t: nat, c: nat, r: nat)
    requires t <= bits && r < Pow2(t)
    ensures BlockOf(e, bits, x, t, c)(r) == BlockDft(e, 1, bits, Real(x), t, Pow2(t) * c + r)
  {
    hide BlockDft, Dft, Samples, Cells, Reverse, Pow2, Real;
    BlockDftAt(e, 1, bits, Real(x), t, c, r, Pow2(t) * c + r);
  }

  lemma RealSample(x: seq<real>, offset: int, stride: int, j: int)
    ensures Samples(Cells(Real(x)), offset, stride)(j).im == 0.0
  {
    RealCells(x, offset + stride * j);
    SamplesAt(Cells(Real(x)), offset, stride, j);
    hide *;
  }

  lemma BlockRealAt(e: nat -> C, bits: nat, x: seq<real>, t: nat, c: nat, r: int)
    requires RootFamily(e) && t <= bits
    ensures BlockOf(e, bits, x, t, c)(Pow2(t) - r) == Conj(BlockOf(e, bits, x, t, c)(r))
    ensures BlockOf(e, bits, x, t, c)(0).im == 0.0
  {
    hide *;
    var n, y := Pow2(t), Samples(Cells(Real(x)), Reverse(bits - t, c), Pow2(bits - t));
    FamilyPrimitive(e, n);
    PrimitiveIsUnit(n, e(n));
    forall j | 0 <= j < n
      ensures y(j).im == 0.0
    {
      RealSample(x, Reverse(bits - t, c), Pow2(bits - t), j);
    }
    BlockOfAt(e, bits, x, t, c, 0);
    BlockOfAt(e, bits, x, t, c, r);
    BlockOfAt(e, bits, x, t, c, n - r);
    DftRealAtZero(n, e(n), y);
    DftConj(n, e(n), y, r);
  }

  lemma BlockSymmetric(e: nat -> C, bits: nat, x: seq<real>, t: nat, c: nat)
    requires RootFamily(e) && t <= bits
    ensures Symmetric(Pow2(t), BlockOf(e, bits, x, t, c))
  {
    hide RootFamily, Pow2, BlockOf, Conj;
    BlockRealAt(e, bits, x, t, c, 0);
    forall r | 0 < r < Pow2(t)
      ensures Mirrors(Pow2(t), BlockOf(e, bits, x, t, c), r)
    {
      BlockRealAt(e, bits, x, t, c, r);
    }
  }

  lemma BlockCombinedAt(e: nat -> C, bits: nat, x: seq<real>, t: nat, c: nat, r: nat)
    requires RootFamily(e) && t < bits && r < Pow2(t)
    ensures var (A, B, X) := (BlockOf(e, bits, x, t, 2 * c), BlockOf(e, bits, x, t, 2 * c + 1), BlockOf(e, bits, x, t + 1, c));
            && X(r) == Add(A(r), Mul(Pow(e(Pow2(t + 1)), r), B(r)))
            && X(Pow2(t) + r) == Sub(A(r), Mul(Pow(e(Pow2(t + 1)), r), B(r)))
  {
    var h := Pow2(t);
    Pow2Double(t);
    hide *;
    assert h * (2 * c) == 2 * h * c && h * (2 * c + 1) == 2 * h * c + h;
    BlockIsDft(e, bits, x, t, 2 * c, r);
    BlockIsDft(e, bits, x, t, 2 * c + 1, r);
    BlockIsDft(e, bits, x, t + 1, c, r);
    BlockIsDft(e, bits, x, t + 1, c, h + r);
    OmegaForward(e, 2 * h);
    StageStep(e, 1, bits, Real(x), t, c, r, 2 * h * c + r);
  }

  lemma BlocksAt(e: nat -> C, bits: nat, x: seq<real>, t: nat, c: nat, h: nat, w: C, r: nat)
    requires RootFamily(e) && t < bits && Pow2(t) == 2 * h && w == e(Pow2(t + 1)) && r < 2 * h
    ensures CombinedAt(w, h, BlockOf(e, bits, x, t, 2 * c), BlockOf(e, bits, x, t, 2 * c + 1), BlockOf(e, bits, x, t + 1, c), r)
  {
    hide RootFamily, Pow, Pow2, BlockOf, Add, Sub, Mul;
    BlockCombinedAt(e, bits, x, t, c, r);
  }

  lemma BlockCombined(e: nat -> C, bits: nat, x: seq<real>, t: nat, c: nat, h: nat)
    requires RootFamily(e) && t < bits && Pow2(t) == 2 * h
    ensures Combined(e(Pow2(t + 1)), h, BlockOf(e, bits, x, t, 2 * c), BlockOf(e, bits, x, t, 2 * c + 1), BlockOf(e, bits, x, t + 1, c))
  {
    hide RootFamily, Pow2, BlockOf, CombinedAt;
    var (A, B, X) := (BlockOf(e, bits, x, t, 2 * c), BlockOf(e, bits, x, t, 2 * c + 1), BlockOf(e, bits, x, t + 1, c));
    var w := e(Pow2(t + 1));
    forall r | 0 <= r < 2 * h
      ensures CombinedAt(w, h, A, B, X, r)
    {
      BlocksAt(e, bits, x, t, c, h, w, r);
    }
  }

  /** After the passes up to level t every block of 2^t cells holds its transform. */
  ghost predicate LevelHolds(e: nat -> C, bits: nat, x: seq<real>, s: seq<real>, t: nat)
    requires t <= bits
  {
    forall c: nat, j: nat, p: nat {:trigger CellOf(t, c, j, p)} :: CellOf(t, c, j, p) && p < |s| ==>
      s[p] == Packed(Pow2(t), BlockOf(e, bits, x, t, c), j)
  }

  predicate CellOf(t: nat, c: nat, j: nat, p: nat) { j < Pow2(t) && p == Pow2(t) * c + j }

  lemma CellOfFour(c: nat, j: nat, p: nat)
    requires CellOf(2, c, j, p)
    ensures j < 4 && p == 4 * c + j
  {
    SmallLengths();
    hide Pow2;
  }

  lemma CellOfWhole(bits: nat, j: nat)
    requires j < Pow2(bits)
    ensures CellOf(bits, 0, j, j)
  {}

  lemma LevelStarts(e: nat -> C, bits: nat, x: seq<real>)
    requires RootFamily(e) && e(4) == QUARTER && bits >= 2 && |x| == Pow2(bits)
    ensures LevelHolds(e, bits, x, First(x, bits), 2)
  {
    hide RootFamily, Pow2, First, Packed, BlockOf, QUARTER, CellOf;
    SmallLengths();
    forall c: nat, j: nat, p: nat {:trigger CellOf(2, c, j, p)} | CellOf(2, c, j, p) && p < |x|
      ensures First(x, bits)[p] == Packed(4, BlockOf(e, bits, x, 2, c), j)
    {
      CellOfFour(c, j, p);
      FirstPacked(e, bits, x, c, j);
    }
  }

  lemma FirstPacked(e: nat -> C, bits: nat, x: seq<real>, c: nat, j: nat)
    requires RootFamily(e) && e(4) == QUARTER && bits >= 2 && |x| == Pow2(bits) && j < 4 && 4 * c + j < |x|
    ensures First(x, bits)[4 * c + j] == Packed(4, BlockOf(e, bits, x, 2, c), j)
  {
    hide RootFamily, Pow2, First, BlockOf, Shuffled, QUARTER;
    Pow2Four(bits);
    FourFits(|x|, c, j);
    FirstBlock(x, bits, 4 * c, j);
    var b := Shuffled(x, bits)[4 * c..4 * c + 4];
    BlockOfFour(e, bits, x, c);
    hide Real;
  }

  lemma FourFits(n: nat, c: nat, j: nat)
    requires n % 4 == 0 && j < 4 && 4 * c + j < n
    ensures 4 * c + 4 <= n && (4 * c) % 4 == 0
  {}

  /** The transform of a single sample. */
  lemma BlockOfOne(e: nat -> C, bits: nat, x: seq<real>, p: nat)
    requires |x| == Pow2(bits) && p < |x|
    ensures BlockOf(e, bits, x, 0, p)(0) == C(Shuffled(x, bits)[p], 0.0)
  {
    assert Pow2(0) == 1;
    BlockIsDft(e, bits, x, 0, p, 0);
    hide BlockOf, BlockDft, Pow2, Reverse;
    FirstStage(e, 1, bits, Real(x), p);
  }

  lemma RealSum(a: real, b: real, w: C)
    ensures Pow(w, 0) == ONE
    ensures Add(C(a, 0.0), Mul(ONE, C(b, 0.0))) == C(a + b, 0.0)
    ensures Sub(C(a, 0.0), Mul(ONE, C(b, 0.0))) == C(a - b, 0.0)
  {
    MulOne(C(b, 0.0));
    hide Mul;
  }

  lemma QuarterSum(a: real, b: real)
    ensures Add(C(a, 0.0), Mul(QUARTER, C(b, 0.0))) == C(a, b)
  {
    TimesQuarter(C(b, 0.0));
    hide Mul;
  }

  lemma BlockOfTwo(e: nat -> C, bits: nat, x: seq<real>, c: nat)
    requires RootFamily(e) && bits >= 1 && |x| == Pow2(bits) && 2 * c + 1 < |x|
    ensures var (X, y) := (BlockOf(e, bits, x, 1, c), Shuffled(x, bits));
            X(0) == C(y[2 * c] + y[2 * c + 1], 0.0) && X(1) == C(y[2 * c] - y[2 * c + 1], 0.0)
  {
    hide *;
    SmallLengths();
    var y := Shuffled(x, bits);
    BlockCombinedAt(e, bits, x, 0, c, 0);
    BlockOfOne(e, bits, x, 2 * c);
    BlockOfOne(e, bits, x, 2 * c + 1);
    RealSum(y[2 * c], y[2 * c + 1], e(Pow2(0 + 1)));
  }

  lemma BlockOfFour(e: nat -> C, bits: nat, x: seq<real>, c: nat)
    requires RootFamily(e) && e(4) == QUARTER && bits >= 2 && |x| == Pow2(bits) && 4 * c + 4 <= |x|
    ensures var (X, b) := (BlockOf(e, bits, x, 2, c), Shuffled(x, bits)[4 * c..4 * c + 4]);
            && X(0).re == b[0] + b[1] + (b[2] + b[3]) && X(2).re == b[0] + b[1] - (b[2] + b[3])
            && X(1) == C(b[0] - b[1], b[2] - b[3])
  {
    hide *;
    SmallLengths();
    var y := Shuffled(x, bits);
    var (b0, b1, b2, b3) := (y[4 * c], y[4 * c + 1], y[4 * c + 2], y[4 * c + 3]);
    BlockCombinedAt(e, bits, x, 1, c, 0);
    BlockCombinedAt(e, bits, x, 1, c, 1);
    BlockOfTwo(e, bits, x, 2 * c);
    BlockOfTwo(e, bits, x, 2 * c + 1);
    RealSum(b0 + b1, b2 + b3, e(Pow2(1 + 1)));
    PowAtOne(e(4));
    QuarterSum(b0 - b1, b2 - b3);
  }

  lemma BlockCell(s: seq<real>, w: nat, c: nat, j: nat)
    requires w > 0 && |s| % w == 0 && j < w && w * c + j < |s|
    ensures (w * c + j) % w == j && w * c + w <= |s| && BlockAt(s, w, w * c + j) == s[w * c..w * c + w]
  {
    DivModUnique(w * c + j, w, c, j);
    BlockBound(|s|, w, w * c + j);
  }

  /** The block of a level before a pass. */
  lemma BlockHolds(e: nat -> C, bits: nat, x: seq<real>, s: seq<real>, t: nat, h: nat, c: nat, b: nat)
    requires t <= bits && Pow2(t) == 2 * h && LevelHolds(e, bits, x, s, t) && b == 4 * h * c && b + 4 * h <= |s|
    ensures Holds(h, s[b..b + 4 * h], BlockOf(e, bits, x, t, 2 * c), BlockOf(e, bits, x, t, 2 * c + 1))
  {
    hide Pow2, BlockOf, Packed;
    var n := 2 * h;
    assert n * (2 * c) == b && n * (2 * c + 1) == b + n;
    forall p | b <= p < b + 2 * h
      ensures s[p] == Packed(n, BlockOf(e, bits, x, t, 2 * c), p - b)
    {
      assert CellOf(t, 2 * c, p - b, p);
    }
    forall p | b + 2 * h <= p < b + 4 * h
      ensures s[p] == Packed(n, BlockOf(e, bits, x, t, 2 * c + 1), p - b - 2 * h)
    {
      assert CellOf(t, 2 * c + 1, p - b - 2 * h, p);
    }
    hide LevelHolds, CellOf;
    ShiftedCells(s, b, h, BlockOf(e, bits, x, t, 2 * c), BlockOf(e, bits, x, t, 2 * c + 1));
  }

  lemma ShiftedCells(s: seq<real>, b: nat, h: nat, A: int -> C, B: int -> C)
    requires b + 4 * h <= |s|
    requires forall p :: b <= p < b + 2 * h ==> s[p] == Packed(2 * h, A, p - b)
    requires forall p :: b + 2 * h <= p < b + 4 * h ==> s[p] == Packed(2 * h, B, p - b - 2 * h)
    ensures Holds(h, s[b..b + 4 * h], A, B)
  {
    hide Packed;
    var u := s[b..b + 4 * h];
    forall i {:trigger u[i]} | 0 <= i < 4 * h
      ensures u[i] == if i < 2 * h then Packed(2 * h, A, i) else Packed(2 * h, B, i - 2 * h)
    {
      var p := b + i;
      assert u[i] == s[p] && p - b == i && p - b - 2 * h == i - 2 * h;
    }
  }

  lemma QuarterPower(e: nat -> C, h: nat)
    requires RootFamily(e) && h >= 1
    ensures Pow(e(4 * h), h) == e(4)
  {
    hide *;
    FamilyPower(e, 4, h, 4 * h);
  }

  lemma PassExact(rot: Rotations, e: nat -> C, t: nat)
    requires ExactRotations(rot, e) && t >= 2
    ensures forall i {:trigger Pass(rot, t)(i)} :: 0 < i < Pow2(t - 1) ==> Pass(rot, t)(i) == Pow(e(Pow2(t + 1)), i)
  {
    hide Pow2, RootFamily, Pow;
    forall i {:trigger Pass(rot, t)(i)} | 0 < i < Pow2(t - 1)
      ensures Pass(rot, t)(i) == Pow(e(Pow2(t + 1)), i)
    {
      assert RotationLaw(rot, e, t, i);
    }
  }

  /** Cell j of block c after a pass. */
  lemma PassCell(a: int -> C, h: nat, s: seq<real>, c: nat, j: nat, b: nat)
    requires h >= 1 && |s| % (4 * h) == 0 && j < 4 * h && b == 4 * h * c && b + j < |s|
    ensures b + 4 * h <= |s| && Up(a, h, s)[b + j] == UpCell(a, h, s[b..b + 4 * h], j)
  {
    hide Up, UpCell, BlockAt;
    BlockCell(s, 4 * h, c, j);
    UpIndex(a, h, s, b + j);
  }

  lemma PassWidths(t: nat, h: nat)
    requires t >= 2 && h == H(t)
    ensures Pow2(t) == 2 * h && Pow2(t + 1) == 4 * h && h == Pow2(t - 1)
  {}

  lemma BlockUp(rot: Rotations, e: nat -> C, bits: nat, x: seq<real>, s: seq<real>, t: nat, h: nat, c: nat, j: nat)
    requires ExactRotations(rot, e) && RootFamily(e) && e(4) == QUARTER && 2 <= t < bits && h >= 1 && h == H(t)
    requires |s| == 4 * h && Holds(h, s, BlockOf(e, bits, x, t, 2 * c), BlockOf(e, bits, x, t, 2 * c + 1)) && j < 4 * h
    ensures UpCell(Pass(rot, t), h, s, j) == Packed(4 * h, BlockOf(e, bits, x, t + 1, c), j)
  {
    hide *;
    PassWidths(t, h);
    PassExact(rot, e, t);
    BlockCombined(e, bits, x, t, c, h);
    BlockSymmetric(e, bits, x, t + 1, c);
    BlockSymmetric(e, bits, x, t, 2 * c);
    BlockSymmetric(e, bits, x, t, 2 * c + 1);
    QuarterPower(e, h);
    UpCellPacked(Pass(rot, t), e(4 * h), h, s, BlockOf(e, bits, x, t, 2 * c),
                 BlockOf(e, bits, x, t, 2 * c + 1), BlockOf(e, bits, x, t + 1, c), j);
  }

  lemma PassHolds(rot: Rotations, e: nat -> C, bits: nat, x: seq<real>, s: seq<real>, t: nat, h: nat, c: nat, j: nat, b: nat)
    requires ExactRotations(rot, e) && 2 <= t < bits && |x| == |s| == Pow2(bits) && LevelHolds(e, bits, x, s, t)
    requires h >= 1 && h == H(t) && |s| % (4 * h) == 0 && j < 4 * h && b == 4 * h * c && b + j < |s|
    ensures Up(Pass(rot, t), h, s)[b + j] == Packed(4 * h, BlockOf(e, bits, x, t + 1, c), j)
  {
    hide *;
    ExactFamily(rot, e);
    PassWidths(t, h);
    PassCell(Pass(rot, t), h, s, c, j, b);
    BlockHolds(e, bits, x, s, t, h, c, b);
    BlockUp(rot, e, bits, x, s[b..b + 4 * h], t, h, c, j);
  }

  lemma PassHoldsAt(rot: Rotations, e: nat -> C, bits: nat, x: seq<real>, s: seq<real>, t: nat, c: nat, j: nat, p: nat)
    requires ExactRotations(rot, e) && 2 <= t < bits && |x| == |s| == Pow2(bits) && LevelHolds(e, bits, x, s, t)
    requires H(t) >= 1 && |s| % (4 * H(t)) == 0 && CellOf(t + 1, c, j, p) && p < |s|
    ensures Up(Pass(rot, t), H(t), s)[p] == Packed(Pow2(t + 1), BlockOf(e, bits, x, t + 1, c), j)
  {
    LevelWidth(t + 1);
    var h := H(t);
    hide ExactRotations, LevelHolds, Up, Packed, BlockOf, Pow2;
    PassHolds(rot, e, bits, x, s, t, h, c, j, 4 * h * c);
  }

  lemma NextLevel(rot: Rotations, e: nat -> C, bits: nat, x: seq<real>, t: nat)
    requires ExactRotations(rot, e) && 2 <= t < bits && |x| == Pow2(bits) && LevelHolds(e, bits, x, Level(rot, x, bits, t), t)
    ensures LevelHolds(e, bits, x, Level(rot, x, bits, t + 1), t + 1)
  {
    var s, u := Level(rot, x, bits, t), Level(rot, x, bits, t + 1);
    LevelStep(rot, x, bits, x, t);
    hide ExactRotations, Packed, BlockOf, Up, Pow2, Level, CellOf, H, Back, Down;
    forall c: nat, j: nat, p: nat {:trigger CellOf(t + 1, c, j, p)} | CellOf(t + 1, c, j, p) && p < |u|
      ensures u[p] == Packed(Pow2(t + 1), BlockOf(e, bits, x, t + 1, c), j)
    {
      PassHoldsAt(rot, e, bits, x, s, t, c, j, p);
    }
  }

  lemma ExactFamily(rot: Rotations, e: nat -> C)
    requires ExactRotations(rot, e)
    ensures RootFamily(e) && e(4) == QUARTER
  {
    hide RotationLaw, RootFamily;
  }

  lemma {:induction false} LevelIsFourier(rot: Rotations, e: nat -> C, bits: nat, x: seq<real>, t: nat)
    requires ExactRotations(rot, e) && 2 <= t <= bits && |x| == Pow2(bits)
    ensures LevelHolds(e, bits, x, Level(rot, x, bits, t), t)
    decreases t
  {
    hide *;
    ExactFamily(rot, e);
    if t == 2 {
      LevelStarts(e, bits, x);
      LevelBegins(rot, x, bits);
    } else {
      LevelIsFourier(rot, e, bits, x, t - 1);
      NextLevel(rot, e, bits, x, t - 1);
    }
  }

  lemma LevelWidth(t: nat)
    requires t >= 2
    ensures Pow2(t) == 4 * H(t - 1)
  {
    assert Pow2(t) == 2 * Pow2(t - 1);
  }

  lemma PackedSame(n: nat, X: int -> C, Y: int -> C, j: nat)
    requires X(j) == Y(j) && (j > n / 2 ==> X(j - n / 2) == Y(j - n / 2))
    ensures Packed(n, X, j) == Packed(n, Y, j)
  {}

  lemma LevelCell(e: nat -> C, bits: nat, x: seq<real>, s: seq<real>, j: nat)
    requires LevelHolds(e, bits, x, s, bits) && j < |s| && |s| == Pow2(bits)
    ensures s[j] == Packed(Pow2(bits), BlockOf(e, bits, x, bits, 0), j)
  {
    hide Packed, BlockOf, CellOf, Pow2;
    CellOfWhole(bits, j);
  }

  /** do_fft is the Fourier transform, for every power of two. */
  lemma ForwardIsFourier(rot: Rotations, e: nat -> C, bits: nat, x: seq<real>, j: nat)
    requires ExactRotations(rot, e) && |x| == Pow2(bits) && j < |x|
    ensures Forward(rot, x, bits)[j] == Packed(|x|, k => Dft(|x|, e(|x|), Cells(Real(x)), k), j)
  {
    hide *;
    ExactFamily(rot, e);
    var X := k => Dft(|x|, e(|x|), Cells(Real(x)), k);
    WholeBlock(e, bits, x, j);
    if j > |x| / 2 { WholeBlock(e, bits, x, j - |x| / 2); }
    PackedSame(|x|, BlockOf(e, bits, x, bits, 0), X, j);
    if bits >= 2 {
      LevelIsFourier(rot, e, bits, x, bits);
      LevelCell(e, bits, x, Level(rot, x, bits, bits), j);
      ForwardLong(rot, x, bits);
    } else {
      ForwardShort(rot, e, bits, x, j);
    }
  }

  lemma ForwardLong(rot: Rotations, x: seq<real>, bits: nat)
    requires bits >= 2 && |x| == Pow2(bits)
    ensures Forward(rot, x, bits) == Level(rot, x, bits, bits)
  {
    hide Level, Pow2;
  }

  lemma WholeBlock(e: nat -> C, bits: nat, x: seq<real>, k: nat)
    requires |x| == Pow2(bits) && k < |x|
    ensures BlockOf(e, bits, x, bits, 0)(k) == Dft(|x|, e(|x|), Cells(Real(x)), k)
  {
    hide *;
    BlockIsDft(e, bits, x, bits, 0, k);
    RadixTwo.LastStage(e, 1, bits, Real(x), k);
    OmegaForward(e, |x|);
  }

  /** Lengths one and two. */
  lemma ForwardShort(rot: Rotations, e: nat -> C, bits: nat, x: seq<real>, j: nat)
    requires RootFamily(e) && bits < 2 && |x| == Pow2(bits) && j < |x|
    ensures Forward(rot, x, bits)[j] == Packed(|x|, BlockOf(e, bits, x, bits, 0), j)
  {
    hide *;
    SmallLengths();
    ForwardSmall(rot, x, bits);
    ShuffledShort(x, bits);
    if bits == 0 {
      BlockOfOne(e, bits, x, 0);
    } else {
      BlockOfTwo(e, bits, x, 0);
    }
    PackedFirst(|x|, BlockOf(e, bits, x, bits, 0), j);
  }

  lemma PackedFirst(n: nat, X: int -> C, j: nat)
    requires j <= n / 2
    ensures Packed(n, X, j) == X(j).re
  {}

  lemma ShuffledShort(x: seq<real>, bits: nat)
    requires bits < 2 && |x| == Pow2(bits)
    ensures Shuffled(x, bits) == x
  {
    SmallLengths();
    if bits == 1 {
      assert Reverse(1, 0) == 0 && Reverse(1, 1) == 1;
    }
  }

  // ----- the table -----

  ghost predicate CosineIs(cosine: (nat, int) -> real, e: nat -> C, p: nat, i: int) {
    p >= 3 && 0 < i < Pow2(p - 1) ==> cosine(p, i) == Pow(e(Pow2(p + 1)), i).re
  }

  /** The cosines that the table holds, and half the square root of two. */
  ghost predicate ExactTable(cosine: (nat, int) -> real, sqrt2Half: real, e: nat -> C) {
    && RootFamily(e) && e(4) == QUARTER && e(8) == C(sqrt2Half, sqrt2Half)
    && forall p: nat, i: int :: CosineIs(cosine, e, p, i)
  }

  /** Read forwards for the cosine and backwards for the sine, the table gives exact rotations. */
  lemma TableIsExact(cosine: (nat, int) -> real, sqrt2Half: real, e: nat -> C)
    requires ExactTable(cosine, sqrt2Half, e)
    ensures ExactRotations(Rot(cosine, sqrt2Half), e)
  {
    assert RootFamily(e);
    hide RootFamily, Pow, Pow2, CosineIs;
    forall p: nat, i: int
      ensures RotationLaw(Rot(cosine, sqrt2Half), e, p, i)
    {
      if p == 2 {
        SmallLengths();
        EighthTurn(e);
      } else if p >= 3 && 0 < i < Pow2(p - 1) {
        assert CosineIs(cosine, e, p, i) && CosineIs(cosine, e, p, Pow2(p - 1) - i);
        CosineIsAt(cosine, e, p, i);
        CosineIsAt(cosine, e, p, Pow2(p - 1) - i);
        SineFromTable(e, p, i);
      }
    }
  }

  lemma CosineIsAt(cosine: (nat, int) -> real, e: nat -> C, p: nat, i: int)
    requires CosineIs(cosine, e, p, i) && p >= 3 && 0 < i < Pow2(p - 1)
    ensures cosine(p, i) == Pow(e(Pow2(p + 1)), i).re
  {}

  lemma EighthTurn(e: nat -> C)
    ensures Pow2(3) == 8 && Pow(e(8), 1) == e(8)
  {
    PowAtOne(e(8));
    assert Pow2(2) == 4;
  }

  lemma SineFromTable(e: nat -> C, p: nat, i: int)
    requires RootFamily(e) && e(4) == QUARTER && p >= 3 && 0 < i < Pow2(p - 1)
    ensures var w := e(Pow2(p + 1)); Pow(w, Pow2(p - 1) - i).re == Pow(w, i).im
  {
    var q := Pow2(p - 2);
    assert Pow2(p - 1) == 2 * q && Pow2(p) == 4 * q && Pow2(p + 1) == 8 * q;
    hide RootFamily, Pow, Pow2, Unit;
    EighthPower(e, q, 8 * q);
    QuadrantPowers(e(8 * q), q, i);
  }
}
