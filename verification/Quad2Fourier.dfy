/** With exact tables the transforms of benchees/bloodworth/quad2fft.c are Fourier transforms, up to
    the order of their input or output.
  */
module Quad2Fourier {
  import opened ComplexNumbers
  import opened DiscreteFourier
  import opened Roots
  import opened Arithmetic
  import opened RadixTwo
  import opened QuarterTurns
  import opened Frames
  import opened Quad2Fft
  import opened BitReversal

  // ----- the butterflies -----

  /** Sr Pr and Pi of a call, before the direction. */
  function FactorOf(sq: real, f: Factor<C>): C {
    match f
    case First => ONE
    case Quadrant(image, p) =>
      if image == 0 then p
      else if image == 1 then Opposed(p)
      else if image == 2 then Mirrored(p)
      else Opposed(Mirrored(p))
    case Eighth(negative) => if negative then Opposed(C(sq, sq)) else C(sq, sq)
    case Quarter => QUARTER
  }

  /** Si is 1 forwards and -1 backwards. */
  function Directed(dir: int, a: C): C { if dir == 1 then a else Conj(a) }

  /** quad2fft.c:284-317 */
  function TimeButterfly(dir: int, sq: real, f: Factor<C>, left: C, right: C): (C, C) {
    var t := Mul(right, Directed(dir, FactorOf(sq, f)));
    (Add(left, t), Sub(left, t))
  }

  /** quad2fft.c:140-166 */
  function FrequencyButterfly(dir: int, sq: real, f: Factor<C>, left: C, right: C): (C, C) {
    (Add(left, right), Mul(Sub(left, right), Directed(dir, FactorOf(sq, f))))
  }

  /** quad2fft.c:125-130, with the table entries of stage k. */
  function NextTrigPow(sine: nat -> real, k: nat, p: C): C {
    Add(Mul(p, C(-2.0 * Times(sine(k + 1), sine(k + 1)), sine(k))), p)
  }

  function TimeOps(sine: nat -> real, sq: real, dir: int): Ops<C, C> {
    Ops(ONE, (k, p) => NextTrigPow(sine, k, p), (f, a, b) => TimeButterfly(dir, sq, f, a, b))
  }

  function FrequencyOps(sine: nat -> real, sq: real, dir: int): Ops<C, C> {
    Ops(ONE, (k, p) => NextTrigPow(sine, k, p), (f, a, b) => FrequencyButterfly(dir, sq, f, a, b))
  }

  /** Both kinds go through the powers in the same way. */
  ghost predicate Advances(ops: Ops<C, C>, sine: nat -> real) {
    ops.one == ONE && forall k: nat, p :: ops.next(k, p) == NextTrigPow(sine, k, p)
  }

  // ----- the factor of every offset -----

  lemma NextIsTimes(p: C, w: C)
    ensures Add(Mul(p, C(w.re - 1.0, w.im)), p) == Mul(p, w)
  {
    var v := C(w.re - 1.0, w.im);
    MulAdd(p, v, ONE);
    MulOne(p);
    assert Add(v, ONE) == w;
    hide Mul;
  }

  lemma {:induction false} PowerIs(ops: Ops<C, C>, sine: nat -> real, sq: real, e: nat -> C, k: nat, b: nat)
    requires ExactSines(sine, sq, e) && Advances(ops, sine)
    ensures PowerAt(ops, k, b) == Pow(e(Pow2(k)), b)
  {
    hide ExactSines, Pow2, Mul, Add, Unit, Times;
    ExactRoot(sine, sq, e, k);
    if b > 0 {
      PowerIs(ops, sine, sq, e, k, b - 1);
      NextIsTimes(PowerAt(ops, k, b - 1), e(Pow2(k)));
    }
  }

  lemma WidthsOf(k: nat)
    requires k >= 1
    ensures Pow2(k) == 2 * Pow2(k - 1)
    ensures k < 3 ==> Pow2(k - 1) == k
    ensures k >= 3 ==> Pow2(k - 1) == 4 * Pow2(k - 3) && Pow2(k - 3) >= 1
  {
    assert Pow2(0) == 1 && Pow2(1) == 2;
  }

  /** Every offset is multiplied by its power of the root. */
  lemma FactorIs(ops: Ops<C, C>, sine: nat -> real, sq: real, e: nat -> C, k: nat, w: nat, o: nat)
    requires ExactSines(sine, sq, e) && Advances(ops, sine) && k >= 1 && w == Pow2(k - 1) && o < w
    ensures FactorOf(sq, FactorAt(ops, k, w, o)) == Pow(e(2 * w), o)
  {
    WidthsOf(k);
    hide *;
    if k < 3 {
      ShortFactor(ops, sine, sq, e, k, w, o);
    } else {
      LongFactor(ops, sine, sq, e, k, w, o, Pow2(k - 3));
    }
  }

  lemma ShortTable(ops: Ops<C, C>, k: nat, w: nat, o: nat)
    requires (w == 1 || w == 2) && o < w
    ensures FactorAt(ops, k, w, o) == if o == 0 then First else Quarter
  {
    hide PowerAt;
    assert w / 2 == w - 1 && w / 4 == 0;
  }

  /** What the cases of FactorOf come to. */
  lemma FactorCases(sq: real, p: C)
    ensures FactorOf(sq, First) == ONE && FactorOf(sq, Quarter) == QUARTER
    ensures FactorOf(sq, Eighth(false)) == C(sq, sq) && FactorOf(sq, Eighth(true)) == Opposed(C(sq, sq))
    ensures FactorOf(sq, Quadrant(0, p)) == p && FactorOf(sq, Quadrant(1, p)) == Opposed(p)
    ensures FactorOf(sq, Quadrant(2, p)) == Mirrored(p) && FactorOf(sq, Quadrant(3, p)) == Opposed(Mirrored(p))
  {
    hide Opposed, Mirrored;
  }

  lemma ShortFactor(ops: Ops<C, C>, sine: nat -> real, sq: real, e: nat -> C, k: nat, w: nat, o: nat)
    requires ExactSines(sine, sq, e) && (w == 1 || w == 2) && o < w
    ensures FactorOf(sq, FactorAt(ops, k, w, o)) == Pow(e(2 * w), o)
  {
    hide *;
    ExactTurns(sine, sq, e);
    ShortTable(ops, k, w, o);
    FactorCases(sq, e(4));
    PowAtZero(e(2 * w));
    PowAtOne(e(4));
  }

  /** FactorAt for w = 4 q. */
  lemma FactorTable(ops: Ops<C, C>, k: nat, w: nat, o: nat, q: nat)
    requires w == 4 * q && q >= 1 && o < w
    ensures FactorAt(ops, k, w, o) ==
            if o == 0 then First
            else if o < q then Quadrant(0, PowerAt(ops, k, o))
            else if o == q then Eighth(false)
            else if o < 2 * q then Quadrant(2, PowerAt(ops, k, 2 * q - o))
            else if o == 2 * q then Quarter
            else if o < 3 * q then Quadrant(3, PowerAt(ops, k, o - 2 * q))
            else if o == 3 * q then Eighth(true)
            else Quadrant(1, PowerAt(ops, k, w - o))
  {
    hide PowerAt;
    assert w / 2 == 2 * q && w / 4 == q;
  }

  lemma LongFactor(ops: Ops<C, C>, sine: nat -> real, sq: real, e: nat -> C, k: nat, w: nat, o: nat, q: nat)
    requires ExactSines(sine, sq, e) && Advances(ops, sine) && Pow2(k) == 2 * w && w == 4 * q && q >= 1 && o < w
    ensures FactorOf(sq, FactorAt(ops, k, w, o)) == Pow(e(2 * w), o)
  {
    hide *;
    FactorTable(ops, k, w, o, q);
    ExactTurns(sine, sq, e);
    var r := e(2 * w);
    EighthPower(e, q, 2 * w);
    var j := if o < q then o else if o < 2 * q then 2 * q - o else if o < 3 * q then o - 2 * q else 4 * q - o;
    PowerIs(ops, sine, sq, e, k, j);
    FactorCases(sq, Pow(r, j));
    if o == 0 {
      PowAtZero(r);
    } else if o >= q {
      InQuadrant(r, q, j);
    }
  }

  lemma DirectedPow(e: nat -> C, n: nat, dir: int, o: nat)
    ensures Directed(dir, Pow(e(n), o)) == Pow(Omega(e, n, dir), o)
  {
    hide Pow;
    ConjPow(e(n), o);
  }

  // ----- decimation in time -----

  /** The cell with offset r in block c of 2 w cells. */
  predicate InBlock(w: nat, c: nat, r: nat, p: nat) { p == 2 * w * c + r }

  lemma StageStepIn(e: nat -> C, sign: int, K: nat, x: seq<C>, t: nat, c: nat, r: nat, p: nat)
    requires RootFamily(e) && t < K && r < Pow2(t) && InBlock(Pow2(t), c, r, p)
    ensures var s := Pow2(t);
            var a := BlockDft(e, sign, K, x, t, p);
            var b := Mul(Pow(Omega(e, 2 * s, sign), r), BlockDft(e, sign, K, x, t, p + s));
            && BlockDft(e, sign, K, x, t + 1, p) == Add(a, b)
            && BlockDft(e, sign, K, x, t + 1, p + s) == Sub(a, b)
  {
    hide RootFamily, BlockDft, Mul, Pow, Omega, Add, Sub, Pow2;
    StageStep(e, sign, K, x, t, c, r, p);
  }

  /** Cell p of a stage belongs to the pair with offset r in block c, as its upper or its lower cell. */
  lemma PairOf(n: nat, w: nat, p: nat) returns (c: nat, r: nat, left: nat, upper: bool)
    requires w > 0 && n % (2 * w) == 0 && p < n
    ensures r == p % w && r < w && InBlock(w, c, r, left) && left + w < n
    ensures upper == ((p / w) % 2 != 0) && p == if upper then left + w else left
  {
    InPair(n, w, p);
    DivMod(p, w);
    var q := p / w;
    c, r, upper := q / 2, p % w, q % 2 != 0;
    left := if upper then p - w else p;
    assert w * (2 * c) == 2 * w * c;
    if upper {
      assert q == 2 * c + 1 && w * (2 * c + 1) == w * (2 * c) + w;
    } else {
      assert q == 2 * c;
    }
  }

  /** Cell p after a stage. */
  lemma PairCell(ops: Ops<C, C>, t: nat, u: seq<C>, w: nat, p: nat, r: nat, left: nat, upper: bool)
    requires t >= 1 && w == Pow2(t - 1) && |u| % Pow2(t) == 0 && left + w < |u|
    requires w > 0 && r == p % w && upper == ((p / w) % 2 != 0) && p == if upper then left + w else left
    ensures var b := ops.butterfly(FactorAt(ops, t, w, r), u[left], u[left + w]);
            Stage(ops, t, u)[p] == if upper then b.1 else b.0
  {
    StageAt(ops, t, u, p);
    hide Stage, FactorAt, Pow2;
  }

  /** The factor that the butterfly of offset o uses. */
  lemma FactorUsed(sine: nat -> real, sq: real, e: nat -> C, dir: int, t: nat, w: nat, o: nat)
    requires ExactSines(sine, sq, e) && t >= 1 && w == Pow2(t - 1) && o < w
    ensures Directed(dir, FactorOf(sq, FactorAt(TimeOps(sine, sq, dir), t, w, o))) == Pow(Omega(e, 2 * w, dir), o)
    ensures Directed(dir, FactorOf(sq, FactorAt(FrequencyOps(sine, sq, dir), t, w, o))) == Pow(Omega(e, 2 * w, dir), o)
  {
    assert Advances(TimeOps(sine, sq, dir), sine) && Advances(FrequencyOps(sine, sq, dir), sine);
    hide *;
    FactorIs(TimeOps(sine, sq, dir), sine, sq, e, t, w, o);
    FactorIs(FrequencyOps(sine, sq, dir), sine, sq, e, t, w, o);
    DirectedPow(e, 2 * w, dir, o);
  }

  /** Cell p after a stage in time. */
  lemma TimeCell(sine: nat -> real, sq: real, e: nat -> C, dir: int, u: seq<C>, t: nat, w: nat, p: nat, r: nat, left: nat, upper: bool)
    requires ExactSines(sine, sq, e) && t >= 1 && w == Pow2(t - 1) && |u| % Pow2(t) == 0 && left + w < |u|
    requires w > 0 && r == p % w && upper == ((p / w) % 2 != 0) && p == if upper then left + w else left
    ensures var b := Mul(u[left + w], Pow(Omega(e, 2 * w, dir), r));
            Stage(TimeOps(sine, sq, dir), t, u)[p] == if upper then Sub(u[left], b) else Add(u[left], b)
  {
    PairCell(TimeOps(sine, sq, dir), t, u, w, p, r, left, upper);
    FactorUsed(sine, sq, e, dir, t, w, r);
    hide ExactSines, Pow2, Mul, Add, Sub, Pow, FactorAt, FactorOf, Directed, Stage, Omega;
  }

  /** A stage of the routine is a stage of the transform. */
  lemma StageIsBlockDft(sine: nat -> real, sq: real, e: nat -> C, dir: int, K: nat, x: seq<C>, u: seq<C>, t: nat, p: nat)
    requires ExactSines(sine, sq, e) && 1 <= t <= K && |x| == |u| == Pow2(K) && |u| % Pow2(t) == 0 && p < |u|
    requires forall q: nat :: q < |u| ==> u[q] == BlockDft(e, dir, K, x, t - 1, q)
    ensures Stage(TimeOps(sine, sq, dir), t, u)[p] == BlockDft(e, dir, K, x, t, p)
  {
    hide *;
    ExactTurns(sine, sq, e);
    WidthOf(t);
    var w := Pow2(t - 1);
    var c, r, left, upper := PairOf(|u|, w, p);
    TimeCell(sine, sq, e, dir, u, t, w, p, r, left, upper);
    StageStepIn(e, dir, K, x, t - 1, c, r, left);
    MulComm(u[left + w], Pow(Omega(e, 2 * w, dir), r));
  }

  lemma ShuffledIs(x: seq<C>, K: nat, p: nat)
    requires |x| == Pow2(K) && p < |x|
    ensures Reverse(K, p) < |x| && Shuffled(x, K)[p] == x[Reverse(K, p)]
  {
    hide Reverse, Pow2;
    ReverseBound(K, p);
  }

  lemma {:induction false} IterateIsBlockDft(sine: nat -> real, sq: real, e: nat -> C, dir: int, K: nat, x: seq<C>, t: nat, p: nat)
    requires ExactSines(sine, sq, e) && t <= K && |x| == Pow2(K) && p < |x|
    ensures |x| % Pow2(t) == 0
    ensures IterateT(TimeOps(sine, sq, dir), t, Shuffled(x, K))[p] == BlockDft(e, dir, K, x, t, p)
    decreases t
  {
    hide *;
    PowerDivides(t, K);
    var (ops, y) := (TimeOps(sine, sq, dir), Shuffled(x, K));
    if t == 0 {
      IterateNone(ops, y);
      ShuffledIs(x, K, p);
      FirstStage(e, dir, K, x, p);
    } else {
      PowerDivides(t - 1, K);
      IterateStep(ops, t, y);
      var u := IterateT(ops, t - 1, y);
      forall q: nat | q < |u|
        ensures u[q] == BlockDft(e, dir, K, x, t - 1, q)
      {
        IterateIsBlockDft(sine, sq, e, dir, K, x, t - 1, q);
      }
      StageIsBlockDft(sine, sq, e, dir, K, x, u, t, p);
    }
  }

  /** The transforms in time, of input in bit-reversed order, for every cutoff. */
  lemma TimeIsFourier(sine: nat -> real, sq: real, e: nat -> C, dir: int, K: nat, cutoff: nat, x: seq<C>, p: nat)
    requires ExactSines(sine, sq, e) && |x| == Pow2(K) && cutoff >= 1 && p < |x|
    ensures RecurseT(TimeOps(sine, sq, dir), K, cutoff, Shuffled(x, K))[p] == Dft(|x|, Omega(e, |x|, dir), Cells(x), p)
  {
    hide *;
    RecursionIsIterationT(TimeOps(sine, sq, dir), K, cutoff, Shuffled(x, K));
    IterateIsBlockDft(sine, sq, e, dir, K, x, K, p);
    RadixTwo.LastStage(e, dir, K, x, p);
  }

  // ----- decimation in frequency -----

  lemma TopStage(h: nat, i: nat)
    requires i < h
    ensures i % h == i && i / h == 0 && (h + i) % h == i && (h + i) / h == 1
  {
    DivModUnique(i, h, 0, i);
    DivModUnique(h + i, h, 1, i);
  }

  /** The widest stage in frequency: sums on the left, rotated differences on the right. */
  lemma FrequencyCell(sine: nat -> real, sq: real, e: nat -> C, dir: int, k: nat, x: seq<C>, h: nat, i: nat)
    requires ExactSines(sine, sq, e) && k >= 1 && |x| == Pow2(k) && h == Pow2(k - 1) && i < h
    ensures |x| == 2 * h && |x| % Pow2(k) == 0
    ensures var u := Stage(FrequencyOps(sine, sq, dir), k, x);
            u[i] == Add(x[i], x[h + i]) && u[h + i] == Mul(Sub(x[i], x[h + i]), Pow(Omega(e, 2 * h, dir), i))
  {
    WidthOf(k);
    PowerDivides(k, k);
    TopStage(h, i);
    var ops := FrequencyOps(sine, sq, dir);
    PairCell(ops, k, x, h, i, i, i, false);
    PairCell(ops, k, x, h, h + i, i, i, true);
    FactorUsed(sine, sq, e, dir, k, h, i);
    hide ExactSines, Pow2, Mul, Add, Sub, Pow, FactorAt, FactorOf, Directed, Stage, Omega;
  }

  lemma CellsOf(x: seq<C>, i: nat)
    requires i < |x|
    ensures Cells(x)(i) == x[i]
  {}

  /** The halves after the widest stage have the even and the odd frequencies. */
  lemma HalvesOfStage(sine: nat -> real, sq: real, e: nat -> C, dir: int, k: nat, x: seq<C>, h: nat, m: int)
    requires ExactSines(sine, sq, e) && k >= 1 && |x| == Pow2(k) && h == Pow2(k - 1)
    ensures |x| == 2 * h && h >= 1 && |x| % Pow2(k) == 0
    ensures var u := Stage(FrequencyOps(sine, sq, dir), k, x);
            && Dft(h, Omega(e, h, dir), Cells(u[..h]), m) == Dft(2 * h, Omega(e, 2 * h, dir), Cells(x), 2 * m)
            && Dft(h, Omega(e, h, dir), Cells(u[h..]), m) == Dft(2 * h, Omega(e, 2 * h, dir), Cells(x), 2 * m + 1)
  {
    hide *;
    ExactTurns(sine, sq, e);
    WidthOf(k);
    PowerDivides(k, k);
    var u, w := Stage(FrequencyOps(sine, sq, dir), k, x), Omega(e, 2 * h, dir);
    OmegaPrimitive(e, 2 * h, dir);
    OmegaHalves(e, h, dir);
    var (lo, hi, y) := (Cells(u[..h]), Cells(u[h..]), Cells(x));
    forall i | 0 <= i < h
      ensures lo(i) == Add(y(i), y(h + i)) && hi(i) == Mul(Sub(y(i), y(h + i)), Pow(w, i))
    {
      FrequencyCell(sine, sq, e, dir, k, x, h, i);
      CellsOf(u[..h], i);
      CellsOf(u[h..], i);
      CellsOf(x, i);
      CellsOf(x, h + i);
    }
    DftFrequency(h, w, y, lo, hi, m);
  }

  lemma {:induction false} IterateIsDft(sine: nat -> real, sq: real, e: nat -> C, dir: int, k: nat, x: seq<C>, p: nat)
    requires ExactSines(sine, sq, e) && |x| == Pow2(k) && p < |x|
    ensures |x| % Pow2(k) == 0
    ensures IterateF(FrequencyOps(sine, sq, dir), k, x)[p] == Dft(|x|, Omega(e, |x|, dir), Cells(x), Reverse(k, p))
    decreases k
  {
    hide *;
    PowerDivides(k, k);
    var ops := FrequencyOps(sine, sq, dir);
    if k == 0 {
      IterateOne(sine, sq, e, dir, x);
    } else {
      var h := Pow2(k - 1);
      WidthOf(k);
      IterateStep(ops, k, x);
      var u := Stage(ops, k, x);
      PowerDivides(k - 1, k - 1);
      IterateSplits(ops, k - 1, u[..h], u[h..]);
      assert u == u[..h] + u[h..];
      ReverseHalves(k, p);
      if p < h {
        IterateIsDft(sine, sq, e, dir, k - 1, u[..h], p);
        HalvesOfStage(sine, sq, e, dir, k, x, h, Reverse(k - 1, p));
      } else {
        IterateIsDft(sine, sq, e, dir, k - 1, u[h..], p - h);
        HalvesOfStage(sine, sq, e, dir, k, x, h, Reverse(k - 1, p - h));
      }
    }
  }

  lemma IterateOne(sine: nat -> real, sq: real, e: nat -> C, dir: int, x: seq<C>)
    requires |x| == Pow2(0)
    ensures |x| == 1 && IterateF(FrequencyOps(sine, sq, dir), 0, x)[0] == Dft(1, Omega(e, 1, dir), Cells(x), Reverse(0, 0))
  {
    hide FrequencyOps;
    FirstStage(e, dir, 0, x, 0);
    RadixTwo.LastStage(e, dir, 0, x, 0);
    hide BlockDft, Dft;
  }

  /** The transforms in frequency, which leave the result in bit-reversed order, for every cutoff. */
  lemma FrequencyIsFourier(sine: nat -> real, sq: real, e: nat -> C, dir: int, K: nat, cutoff: nat, x: seq<C>, p: nat)
    requires ExactSines(sine, sq, e) && |x| == Pow2(K) && cutoff >= 1 && p < |x|
    ensures RecurseF(FrequencyOps(sine, sq, dir), K, cutoff, x)[p] == Dft(|x|, Omega(e, |x|, dir), Cells(x), Reverse(K, p))
  {
    hide *;
    RecursionIsIterationF(FrequencyOps(sine, sq, dir), K, cutoff, x);
    IterateIsDft(sine, sq, e, dir, K, x, p);
  }

  // ----- the transforms that a user calls -----

  /** The reversed counter of FFTReOrder (quad2fft.c:644-646). */
  method NextBySubtraction(ghost K: nat, n: nat, ghost i: nat, j: nat) returns (next: nat)
    requires n == Pow2(K) && i < n && j == Reverse(K, i)
    ensures i + 1 < n ==> next == Reverse(K, i + 1)
  {
    var k := n / 2;
    next := j;
    ghost var q: nat, h: nat := K, i;
    while k <= next && k >= 1
      invariant 0 <= q <= K && k == (if q > 0 then Pow2(q - 1) else 0)
      invariant h < Pow2(q) && next == Reverse(q, h)
      invariant i + 1 < n ==> h + 1 < Pow2(q) && Reverse(K, i + 1) == Reverse(q, h + 1)
      decreases q
    {
      SubtractStep(q, h);
      next, k := next - k, k / 2;
      q, h := q - 1, h / 2;
    }
    if q > 0 { SubtractStep(q, h); }
    next := next + k;
  }

  /** The top bit of the reversal of h is the bottom bit of h. */
  lemma SubtractStep(q: nat, h: nat)
    requires q > 0 && h < Pow2(q)
    ensures var m := Pow2(q - 1);
            && h / 2 < m && m / 2 == (if q > 1 then Pow2(q - 2) else 0)
            && if Reverse(q, h) >= m
               then Reverse(q - 1, h / 2) == Reverse(q, h) - m
                    && (h + 1 < Pow2(q) ==> h / 2 + 1 < m && Reverse(q, h + 1) == Reverse(q - 1, h / 2 + 1))
               else Reverse(q, h + 1) == m + Reverse(q, h)
  {
    ReverseBound(q - 1, h / 2);
    ReverseStep(q, h);
    ReverseStep(q, h + 1);
    assert if h % 2 == 1 then (h + 1) / 2 == h / 2 + 1 else (h + 1) / 2 == h / 2;
    hide Reverse;
  }

  /** quad2fft.c:628-648 */
  method ReOrder(data: array<C>, ghost K: nat)
    requires data.Length == Pow2(K)
    modifies data
    ensures data[..] == Shuffled(old(data[..]), K)
  {
    ghost var rev, s := ReversalOf(K), data[..];
    ExchangeStart(rev, s);
    ReverseZero(K);
    hide Pow2, Exchanged, Reverse;
    var xedni := 0;
    for index := 0 to data.Length
      invariant index < data.Length ==> xedni == Reverse(K, index)
      invariant Exchanged(rev, s, data[..], index)
    {
      ExchangeStep(rev, s, data[..], index);
      ghost var t := data[..];
      if xedni > index {
        data[xedni], data[index] := data[index], data[xedni];
        assert data[..] == t[index := t[xedni]][xedni := t[index]];
      }
      xedni := NextBySubtraction(K, data.Length, index, xedni);
    }
    AllExchanged(rev, s, data[..], K);
  }

  lemma AllExchanged(rev: seq<nat>, s: seq<C>, t: seq<C>, K: nat)
    requires |s| == Pow2(K) && Involution(rev, |s|) && Exchanged(rev, s, t, |s|)
    requires forall p :: 0 <= p < Pow2(K) ==> rev[p] == Reverse(K, p)
    ensures t == Shuffled(s, K)
  {
    hide Reverse, Pow2;
  }

  /** Bloodworth_Q2_FwdFFT (quad2fft.c:733-739): the Fourier transform, for every power of two and
      every cutoff. */
  method FwdFft(data: array<C>, ghost K: nat, log2: nat, cutoff: nat, sine: nat -> real, sq: real, ghost e: nat -> C)
    requires data.Length == Pow2(K) && log2 == K && cutoff >= 1 && ExactSines(sine, sq, e)
    modifies data
    ensures forall p :: 0 <= p < data.Length ==> data[p] == Dft(data.Length, Omega(e, data.Length, 1), Cells(old(data[..])), p)
  {
    OrderedFft(data, K, log2, cutoff, sine, sq, 1, e);
  }

  /** The reordering and the transform in time that both directions share. */
  method OrderedFft(data: array<C>, ghost K: nat, log2: nat, cutoff: nat, sine: nat -> real, sq: real, dir: int, ghost e: nat -> C)
    requires data.Length == Pow2(K) && log2 == K && cutoff >= 1 && ExactSines(sine, sq, e)
    modifies data
    ensures forall p :: 0 <= p < data.Length ==> data[p] == Dft(data.Length, Omega(e, data.Length, dir), Cells(old(data[..])), p)
  {
    hide Pow2, ExactSines, RecurseT, Dft, Omega, Framed, Shuffled;
    ghost var x := data[..];
    var n := data.Length;
    ReOrder(data, K);
    assert data[0..0 + n] == data[..];
    Rfft2T(data, 0, n, K, log2, cutoff, TimeOps(sine, sq, dir));
    assert data[0..0 + n] == data[..];
    forall p | 0 <= p < n
      ensures data[..][p] == Dft(n, Omega(e, n, dir), Cells(x), p)
    {
      TimeIsFourier(sine, sq, e, dir, K, cutoff, x, p);
    }
  }

  /** Bloodworth_Q2_RevFFT (quad2fft.c:744-751) */
  method RevFft(data: array<C>, ghost K: nat, log2: nat, cutoff: nat, sine: nat -> real, sq: real, ghost e: nat -> C)
    requires data.Length == Pow2(K) && log2 == K && cutoff >= 1 && ExactSines(sine, sq, e)
    modifies data
    ensures data.Length > 0
    ensures forall p :: 0 <= p < data.Length ==>
              data[p] == Scale(1.0 / data.Length as real, Dft(data.Length, Omega(e, data.Length, -1), Cells(old(data[..])), p))
  {
    hide *;
    WidthPositive(K);
    var inv := 1.0 / data.Length as real;
    OrderedFft(data, K, log2, cutoff, sine, sq, -1, e);
    ScaleAll(data, inv);
  }

  lemma WidthPositive(K: nat)
    ensures Pow2(K) > 0
  {}

  method ScaleAll(data: array<C>, inv: real)
    modifies data
    ensures forall p :: 0 <= p < data.Length ==> data[p] == Scale(inv, old(data[p]))
  {
    hide Scale;
    for x := 0 to data.Length
      invariant forall p :: 0 <= p < data.Length ==> data[p] == if p < x then Scale(inv, old(data[p])) else old(data[p])
    {
      data[x] := Scale(inv, data[x]);
    }
  }

  lemma ScaleBack(n: nat, a: C)
    requires n > 0
    ensures Scale(1.0 / n as real, Scale(n as real, a)) == a
  {
    ReciprocalCancels(n as real, a.re);
    ReciprocalCancels(n as real, a.im);
  }

  lemma ReciprocalCancels(n: real, x: real)
    requires n != 0.0
    ensures (1.0 / n) * (n * x) == x
  {
    assert (1.0 / n) * n == 1.0;
    RealAssoc(1.0 / n, n, x);
  }

  /** The reverse transform undoes the forward one. */
  method ThereAndBack(data: array<C>, ghost K: nat, log2: nat, cutoff: nat, sine: nat -> real, sq: real, ghost e: nat -> C)
    requires data.Length == Pow2(K) && log2 == K && cutoff >= 1 && ExactSines(sine, sq, e)
    modifies data
    ensures data[..] == old(data[..])
  {
    assert RootFamily(e);
    hide Pow2, ExactSines, RootFamily, Dft, Omega, Scale, Cells;
    ghost var x, n := data[..], data.Length;
    FwdFft(data, K, log2, cutoff, sine, sq, e);
    ghost var X := data[..];
    RevFft(data, K, log2, cutoff, sine, sq, e);
    forall p | 0 <= p < n
      ensures data[..][p] == x[p]
    {
      Inverted(e, n, x, X, p);
    }
  }

  lemma Inverted(e: nat -> C, n: nat, x: seq<C>, X: seq<C>, p: nat)
    requires RootFamily(e) && n == |x| == |X| && p < n
    requires forall k :: 0 <= k < n ==> X[k] == Dft(n, Omega(e, n, 1), Cells(x), k)
    ensures Scale(1.0 / n as real, Dft(n, Omega(e, n, -1), Cells(X), p)) == x[p]
  {
    forall k | 0 <= k < n
      ensures Cells(X)(k) == X[k]
    {}
    CellsOf(x, p);
    hide RootFamily, Dft, Scale, Cells, PrimitiveRoot;
    FamilyPrimitive(e, n);
    Inversion(n, e(n), Cells(x), Cells(X), p);
    ScaleBack(n, x[p]);
  }
}
