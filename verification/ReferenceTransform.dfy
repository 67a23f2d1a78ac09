/** The reference transform of libbench/mp.c: the cached table of roots of unity, the
    in-place radix-2 transform, Bluestein's algorithm for the other lengths, and their
    dispatch.  One array cell holds one complex number (a pair of cells in the source).
  */
module ReferenceTransform {
  import opened ComplexNumbers
  import opened DiscreteFourier
  import opened Roots
  import opened Bluestein
  import opened RadixTwo
  import opened BitReversal
  import opened Arithmetic

  // ----- the bit-reversal permutation -----

  /** libbench/mp.c:429-442 */
  method BitReverse(ghost K: nat, n: nat, a: array<C>)
    requires n == Pow2(K) == a.Length
    modifies a
    ensures forall p: nat :: p < n ==> Reverse(K, p) < n && a[p] == old(a[Reverse(K, p)])
  {
    ghost var rev, s := ReversalOf(K), a[..];
    hide Pow2, Exchanged, Reverse;
    var i, j := 0, 0;
    ReverseZero(K);
    ExchangeStart(rev, s);
    while i < n - 1
      invariant 0 <= i < n && j == Reverse(K, i)
      invariant Exchanged(rev, s, a[..], i)
    {
      ExchangeStep(rev, s, a[..], i);
      assert a[..][i] == a[i] && a[..][j] == a[j];
      if i < j {
        ghost var t := a[..];
        a[i], a[j] := a[j], a[i];
        assert a[..] == t[i := t[j]][j := t[i]];
      }
      j := NextReversed(K, n, i, j);
      i := i + 1;
    }
    ExchangeEnd(rev, s, a[..]);
  }

  // ----- index classes of the butterfly loops -----

  /** Cell p has been rewritten when the loops stand at column j, cell k. */
  predicate Rewritten(i: nat, j: nat, k: nat, p: nat)
    requires i > 0
  {
    p % i < j || (p % i == j && p < k)
  }

  /** Between k and k + 2i, column j of a stage holds the cells k and k + i only. */
  lemma ColumnCells(i: nat, j: nat, c: nat, p: nat)
    requires j < i && j + 2 * i * c <= p < j + 2 * i * c + 2 * i
    ensures p % i == j <==> p == j + 2 * i * c || p == j + 2 * i * c + i
  {
    var k := j + 2 * i * c;
    var d := p - k;
    assert i * (2 * c) == 2 * i * c;
    if d + j < i {
      DivModUnique(p, i, 2 * c, d + j);
    } else if d + j < 2 * i {
      assert i * (2 * c + 1) == 2 * i * c + i;
      DivModUnique(p, i, 2 * c + 1, d + j - i);
    } else {
      assert i * (2 * c + 2) == 2 * i * c + 2 * i;
      DivModUnique(p, i, 2 * c + 2, d + j - 2 * i);
    }
  }

  lemma RewrittenStep(i: nat, j: nat, c: nat, k: nat, p: nat)
    requires j < i && k == j + 2 * i * c
    ensures Rewritten(i, j, k + 2 * i, p) <==> Rewritten(i, j, k, p) || p == k || p == k + i
    ensures !Rewritten(i, j, k, k) && !Rewritten(i, j, k, k + i)
  {
    ColumnCells(i, j, c, k);
    ColumnCells(i, j, c, k + i);
    if k <= p < k + 2 * i {
      ColumnCells(i, j, c, p);
    }
  }

  lemma BlockFits(K: nat, t: nat, j: nat, c: nat)
    requires t < K && j < Pow2(t) && j + 2 * Pow2(t) * c < Pow2(K)
    ensures j + 2 * Pow2(t) * c + Pow2(t) < Pow2(K)
  {
    Pow2Add(t + 1, K - t - 1);
    Pow2Double(t);
    hide Pow2;
    PairFits(Pow2(t), Pow2(K - t - 1), j, c);
  }

  lemma PairFits(i: nat, b: nat, j: nat, c: nat)
    requires j < i && j + 2 * i * c < 2 * i * b
    ensures j + 2 * i * c + i < 2 * i * b
  {
    if b <= c {
      MulMonotone(b, c, 2 * i);
    } else {
      MulMonotone(c + 1, b, 2 * i);
    }
  }

  // ----- the transforms -----

  /** The table of roots: entry q holds exp(2*pi*i/n)^(2^q) for every 2^q < n. */
  ghost predicate TableFor(e: nat -> C, n: nat, w: seq<C>) {
    forall q: nat :: Pow2(q) < n ==> q < |w| && w[q] == Pow(e(n), Pow2(q))
  }

  function Abs(m: int): nat { if m < 0 then -m else m }

  lemma AbsIs(m: int)
    ensures Abs(m) == if m > 0 then m else -m
  {}

  lemma OmegaPow(e: nat -> C, n: nat, sign: int, j: int)
    requires sign == 1 || sign == -1
    ensures Pow(Omega(e, n, sign), j) == Pow(e(n), sign * j)
  {
    hide Pow, Mul;
    PowConj(e(n), j);
  }

  /** Raising to the power m0 by its bits: one more bit moves from m to the low part. */
  /** What the bits from k on are worth. */
  function HighBits(k: nat, m: nat): nat { Pow2(k) * m }

  lemma NoHighBits(k: nat, m: nat)
    ensures HighBits(k, 0) == 0 && HighBits(0, m) == m
  {}

  lemma BitStep(m0: nat, k: nat, m: nat, low: nat, n: nat)
    requires m0 == low + HighBits(k, m) && m > 0
    requires m0 < n || (m0 == n && !IsPow2(n))
    ensures m % 2 == 1 ==> Pow2(k) < n
    ensures m0 == (if m % 2 == 1 then low + Pow2(k) else low) + HighBits(k + 1, m / 2)
  {
    Pow2Double(k);
    hide Pow2, IsPow2;
    BitSplit(Pow2(k), m);
    var _ := PowerOfTwoTest(n);
  }

  lemma PowerStep(w: C, b: nat, low: nat)
    requires Unit(w)
    ensures Pow(w, low + b) == Mul(Pow(w, b), Pow(w, low))
    ensures Pow(w, -(low + b)) == Mul(Conj(Pow(w, b)), Pow(w, -(low as int)))
  {
    hide *;
    PowAdd(w, b, low);
    PowAdd(w, -(b as int), -(low as int));
    PowConj(w, b);
  }

  lemma Pow2AtZero()
    ensures Pow2(0) == 1
  {}

  lemma BitSplit(d: nat, m: nat)
    requires d > 0 && m > 0
    ensures d * m == 2 * d * (m / 2) + (if m % 2 == 1 then d else 0)
    ensures d * m >= d
  {
    var h := m / 2;
    assert m == 2 * h + m % 2;
    assert d * (2 * h) == 2 * d * h;
    if m % 2 == 1 {
      assert d * (2 * h + 1) == 2 * d * h + d;
    }
    MulMonotone(1, m, d);
  }

  /** The whole array has passed t stages. */
  ghost predicate AtStage(e: nat -> C, sign: int, K: nat, x: seq<C>, y: seq<C>, t: nat) {
    && t <= K && |y| == Pow2(K)
    && forall p: nat :: p < |y| ==> y[p] == BlockDft(e, sign, K, x, t, p)
  }

  /** The loops of stage t + 1 stand at column j, cell k. */
  ghost predicate InStage(e: nat -> C, sign: int, K: nat, x: seq<C>, y: seq<C>, t: nat, j: nat, k: nat) {
    && t < K && |y| == Pow2(K)
    && forall p: nat :: p < |y| ==>
         y[p] == BlockDft(e, sign, K, x, if Rewritten(Pow2(t), j, k, p) then t + 1 else t, p)
  }

  lemma StageBegin(e: nat -> C, sign: int, K: nat, x: seq<C>, y: seq<C>, t: nat)
    requires t < K && AtStage(e, sign, K, x, y, t)
    ensures InStage(e, sign, K, x, y, t, 0, 0)
  {
    hide BlockDft, Pow2;
    forall p: nat ensures !Rewritten(Pow2(t), 0, 0, p) { DivMod(p, Pow2(t)); }
  }

  lemma ColumnBegin(e: nat -> C, sign: int, K: nat, x: seq<C>, y: seq<C>, t: nat, j: nat)
    requires j < Pow2(t) && InStage(e, sign, K, x, y, t, j, 0)
    ensures InStage(e, sign, K, x, y, t, j, j)
  {
    hide BlockDft, Pow2;
    forall p: nat
      ensures Rewritten(Pow2(t), j, j, p) <==> Rewritten(Pow2(t), j, 0, p)
    {
      if p < j { DivModUnique(p, Pow2(t), 0, p); }
    }
  }

  lemma ColumnEnd(e: nat -> C, sign: int, K: nat, x: seq<C>, y: seq<C>, t: nat, j: nat, k: nat)
    requires InStage(e, sign, K, x, y, t, j, k) && |y| <= k
    ensures InStage(e, sign, K, x, y, t, j + 1, 0)
  {
    hide BlockDft, Pow2;
    forall p: nat | p < |y|
      ensures Rewritten(Pow2(t), j, k, p) <==> Rewritten(Pow2(t), j + 1, 0, p)
    {}
  }

  lemma StageEnd(e: nat -> C, sign: int, K: nat, x: seq<C>, y: seq<C>, t: nat)
    requires InStage(e, sign, K, x, y, t, Pow2(t), 0)
    ensures AtStage(e, sign, K, x, y, t + 1)
  {
    hide BlockDft, Pow2;
    forall p: nat ensures Rewritten(Pow2(t), Pow2(t), 0, p) { DivMod(p, Pow2(t)); }
  }

  /** The loop body of a stage rewrites cells k and k + i and advances the loop. */
  lemma ButterflyCells(e: nat -> C, sign: int, K: nat, x: seq<C>, y: seq<C>, t: nat, c: nat, j: nat, k: nat)
    requires RootFamily(e) && j < Pow2(t) && k == j + 2 * Pow2(t) * c && k + Pow2(t) < |y|
    requires InStage(e, sign, K, x, y, t, j, k)
    ensures var i := Pow2(t);
            var (u, v) := (y[k], Mul(y[k + i], Pow(Omega(e, 2 * i, sign), j)));
            InStage(e, sign, K, x, y[k := Add(u, v)][k + i := Sub(u, v)], t, j, k + 2 * i)
  {
    hide RootFamily, BlockDft, Pow2, Mul, Pow, Add, Sub, Omega, Rewritten;
    var i := Pow2(t);
    StageStep(e, sign, K, x, t, c, j, k);
    MulComm(y[k + i], Pow(Omega(e, 2 * i, sign), j));
    forall p: nat | p < |y|
      ensures Rewritten(i, j, k + 2 * i, p) <==> Rewritten(i, j, k, p) || p == k || p == k + i
      ensures !Rewritten(i, j, k, k) && !Rewritten(i, j, k, k + i)
    {
      RewrittenStep(i, j, c, k, p);
    }
  }

  lemma TableStart(e: nat -> C, n: nat, w: seq<C>, k: nat)
    requires n <= Pow2(k) && |w| == k
    requires forall q: nat :: q < k ==> w[q] == Pow(e(n), Pow2(q))
    ensures TableFor(e, n, w)
  {
    hide Pow2, Pow;
    forall q: nat | Pow2(q) < n
      ensures q < k
    {
      if k <= q { Pow2Monotone(k, q); }
    }
  }

  lemma TableEntry(e: nat -> C, n: nat, w: seq<C>, q: nat)
    requires TableFor(e, n, w) && Pow2(q) < n
    ensures q < |w| && w[q] == Pow(e(n), Pow2(q))
  {}

  /** y is the transform of x, of the given sign. */
  ghost predicate IsTransform(e: nat -> C, sign: int, x: seq<C>, y: seq<C>) {
    |y| == |x| && forall k :: 0 <= k < |x| ==> y[k] == Dft(|x|, Omega(e, |x|, sign), Cells(x), k)
  }

  lemma BitReversedIsFirstStage(e: nat -> C, sign: int, K: nat, x: seq<C>, y: seq<C>)
    requires |x| == |y| == Pow2(K)
    requires forall p: nat :: p < |x| ==> Reverse(K, p) < |x| && y[p] == x[Reverse(K, p)]
    ensures AtStage(e, sign, K, x, y, 0)
  {
    hide BlockDft, Pow2, Reverse;
    forall p: nat | p < |y|
      ensures y[p] == BlockDft(e, sign, K, x, 0, p)
    {
      FirstStage(e, sign, K, x, p);
    }
  }

  lemma LastStageIsTransform(e: nat -> C, sign: int, K: nat, x: seq<C>, y: seq<C>)
    requires |x| == Pow2(K) && AtStage(e, sign, K, x, y, K)
    ensures IsTransform(e, sign, x, y)
  {
    hide BlockDft, Pow2, Dft, Omega, Cells;
    forall p | 0 <= p < |y|
      ensures y[p] == Dft(|x|, Omega(e, |x|, sign), Cells(x), p)
    {
      LastStage(e, sign, K, x, p);
    }
  }

  // ----- the lengths of Bluestein's algorithm -----

  /** h is the least power of two that is at least x. */
  predicate IsNextPow2(h: nat, x: nat) {
    IsPow2(h) && x <= h && (h == 1 || h < 2 * x)
  }

  lemma IsNextIsPow2(h: nat, x: nat)
    requires IsNextPow2(h, x)
    ensures IsPow2(h) && x <= h
  {}

  lemma NextPow2Unique(g: nat, h: nat, x: nat)
    requires IsNextPow2(g, x) && IsNextPow2(h, x)
    ensures g == h
  {
    var j := PowerOfTwoTest(g);
    var k := PowerOfTwoTest(h);
    if j < k {
      Pow2Monotone(j + 1, k);
    } else if k < j {
      Pow2Monotone(k + 1, j);
    }
  }

  lemma DoubleNotPow2(n: nat)
    requires n >= 1 && !IsPow2(n)
    ensures !IsPow2(2 * n)
  {
    if IsPow2(2 * n) {
      var k := PowerOfTwoTest(2 * n);
      assert n == Pow2(k - 1);
      var _ := PowerOfTwoTest(n);
    }
  }

  lemma NextSquare(k: int, ksq: int, m: int)
    requires ksq + m == (k - 1) * (k - 1)
    ensures ksq + 2 * k - 1 + m == k * k
  {}

  lemma NextMultiple(n: int, t: int)
    ensures n * (t + 1) == n * t + n
  {}

  lemma KernelTransform(e: nat -> C, n: nat, nb: nat, kernel: seq<C>, y: seq<C>)
    requires 2 * n <= nb == |kernel| && IsTransform(e, -1, kernel, y)
    requires forall q :: 0 <= q < nb ==> kernel[q] == KernelCell(e, n, nb, q)
    ensures forall q :: 0 <= q < |y| ==> y[q] == Dft(|y|, Conj(e(|y|)), Kernel(e, n, |y|), q)
  {
    hide KernelCell, Dft;
    forall q | 0 <= q < |y|
      ensures y[q] == Dft(|y|, Conj(e(|y|)), Kernel(e, n, |y|), q)
    {
      DftExt(nb, Conj(e(nb)), Cells(kernel), Kernel(e, n, nb), q);
    }
  }

  /** From the arrays of the algorithm to Bluestein's identity. */
  lemma BluesteinArrays(e: nat -> C, n: nat, nb: nat, x: seq<C>, modulated: seq<C>, B: seq<C>, Y: seq<C>,
                        product: seq<C>, z: seq<C>)
    requires RootFamily(e) && n == |x| >= 1 && 2 * n <= nb == |modulated| == |Y| == |product|
    requires forall q :: 0 <= q < nb ==> modulated[q] == if q < n then Mul(Conj(Chirp(e, n, q)), x[q]) else ZERO
    requires IsTransform(e, -1, modulated, B)
    requires forall q :: 0 <= q < nb ==> Y[q] == Dft(nb, Conj(e(nb)), Kernel(e, n, nb), q)
    requires forall q :: 0 <= q < nb ==> product[q] == Mul(B[q], Y[q])
    requires IsTransform(e, 1, product, z)
    ensures forall k :: 0 <= k < n ==>
      Mul(Conj(Chirp(e, n, k)), z[k]) == Scale(nb as real, Dft(n, Omega(e, n, -1), Cells(x), k))
  {
    hide RootFamily, Mul, Conj, Chirp, Dft, Kernel, Scale;
    forall q | 0 <= q < nb
      ensures Cells(product)(q)
           == Mul(Dft(nb, Conj(e(nb)), Modulated(e, n, Cells(x)), q), Dft(nb, Conj(e(nb)), Kernel(e, n, nb), q))
    {
      DftExt(nb, Conj(e(nb)), Cells(modulated), Modulated(e, n, Cells(x)), q);
    }
    forall k | 0 <= k < n
      ensures Mul(Conj(Chirp(e, n, k)), z[k]) == Scale(nb as real, Dft(n, Omega(e, n, -1), Cells(x), k))
    {
      BluesteinResult(e, n, nb, Cells(x), Cells(product), k);
    }
  }

  lemma ScaleInverse(nb: nat, a: C)
    requires nb >= 1
    ensures Scale(1.0 / nb as real, Scale(nb as real, a)) == a
  {}

  lemma TransformIntro(e: nat -> C, sign: int, x: seq<C>, y: seq<C>, X: int -> C)
    requires |y| == |x| && forall k :: 0 <= k < |x| ==> y[k] == X(k) == Dft(|x|, Omega(e, |x|, sign), Cells(x), k)
    ensures IsTransform(e, sign, x, y)
  {}

  // ----- the opposite sign -----

  function Swap(a: C): C { C(a.im, a.re) }

  lemma SwapMul(a: C, b: C)
    ensures Swap(Mul(a, b)) == Mul(Swap(a), Conj(b))
  {}

  lemma {:induction false} SwapSum(n: nat, f: int -> C, g: int -> C)
    requires forall j :: 0 <= j < n ==> g(j) == Swap(f(j))
    ensures Sum(n, g) == Swap(Sum(n, f))
  {
    if n > 0 {
      SwapSum(n - 1, f, g);
    }
  }

  /** Exchanging real and imaginary parts before and after turns the sign of the transform. */
  lemma DftSwap(n: nat, w: C, x: int -> C, y: int -> C, k: int)
    requires forall j :: 0 <= j < n ==> y(j) == Swap(x(j))
    ensures Dft(n, Conj(w), y, k) == Swap(Dft(n, w, x, k))
  {
    hide *;
    var f, g := j => Mul(x(j), Twiddle(w, j, k)), j => Mul(y(j), Twiddle(Conj(w), j, k));
    forall j | 0 <= j < n
      ensures g(j) == Swap(f(j))
    {
      SwapMul(x(j), Twiddle(w, j, k));
      TwiddleConjugate(w, j, k);
    }
    SwapSum(n, f, g);
    DftTerms(n, w, x, k, f);
    DftTerms(n, Conj(w), y, k, g);
  }

  lemma TwiddleConjugate(w: C, j: int, k: int)
    ensures Twiddle(Conj(w), j, k) == Conj(Twiddle(w, j, k))
  {
    hide Pow;
    ConjPow(w, j * k);
  }

  lemma SwappedTransform(e: nat -> C, x: seq<C>, y: seq<C>, z: seq<C>, u: seq<C>)
    requires |y| == |x| && forall k :: 0 <= k < |x| ==> y[k] == Swap(x[k])
    requires IsTransform(e, -1, y, z)
    requires |u| == |z| && forall k :: 0 <= k < |z| ==> u[k] == Swap(z[k])
    ensures IsTransform(e, 1, x, u)
  {
    hide Dft;
    forall k | 0 <= k < |x|
      ensures u[k] == Dft(|x|, Omega(e, |x|, 1), Cells(x), k)
    {
      DftSwap(|x|, e(|x|), Cells(x), Cells(y), k);
      assert Swap(Swap(u[k])) == u[k];
    }
  }

  /** A transform followed by the transform of the opposite sign multiplies by the length. */
  lemma TransformInverse(e: nat -> C, sign: int, x: seq<C>, y: seq<C>, z: seq<C>)
    requires RootFamily(e) && |x| >= 1 && (sign == 1 || sign == -1)
    requires IsTransform(e, sign, x, y) && IsTransform(e, -sign, y, z)
    ensures |z| == |x| && forall k :: 0 <= k < |x| ==> z[k] == Scale(|x| as real, x[k])
  {
    var n := |x|;
    OmegaPrimitive(e, n, sign);
    assert Omega(e, n, -sign) == Conj(Omega(e, n, sign)) by { ConjConj(e(n)); }
    hide RootFamily, PrimitiveRoot, Unit, Dft, Omega, Scale;
    forall k | 0 <= k < n
      ensures z[k] == Scale(n as real, x[k])
    {
      Inversion(n, Omega(e, n, sign), Cells(x), Cells(y), k);
    }
  }

  class Transformer {
    /** exp(2*pi*i/n), exactly */
    const e: nat -> C

    // the static caches of the source
    var cachedN: int
    var w: seq<C>
    var bluesteinN: int
    var bluesteinW: seq<C>
    var bluesteinY: seq<C>

    ghost predicate Valid()
      reads this
    {
      && RootFamily(e)
      && (cachedN >= 1 ==> TableFor(e, cachedN, w))
      && (bluesteinN >= 1 ==> BluesteinTables(bluesteinN, bluesteinW, bluesteinY))
    }

    ghost predicate BluesteinTables(n: nat, ws: seq<C>, ys: seq<C>)
    {
      && |ws| == n
      && IsNextPow2(|ys|, 2 * n)
      && (forall k :: 0 <= k < n ==> ws[k] == Chirp(e, n, k))
      && (forall q :: 0 <= q < |ys| ==> ys[q] == Dft(|ys|, Conj(e(|ys|)), Kernel(e, n, |ys|), q))
    }

    constructor (e: nat -> C)
      requires RootFamily(e)
      ensures Valid() && this.e == e
    {
      this.e := e;
      cachedN, w := -1, [];
      bluesteinN, bluesteinW, bluesteinY := -1, [], [];
    }

    /** The table of libbench/mp.c:404-413, rebuilt when it is for another n. */
    method FillTable(n: nat)
      requires Valid() && n >= 1
      modifies this`cachedN, this`w
      ensures Valid() && TableFor(e, n, w)
    {
      hide RootFamily, TableFor, BluesteinTables, Pow, Pow2;
      if n != cachedN {
        var table := [];
        var j, k := 1, 0;
        Pow2AtZero();
        while j < n
          invariant 0 < j == Pow2(k) && |table| == k
          invariant forall q: nat :: q < k ==> table[q] == Pow(e(n), Pow2(q))
          decreases n - j
        {
          table := table + [Pow(e(n), j)];
          Pow2Double(k);
          j, k := j + j, k + 1;
        }
        TableStart(e, n, table, k);
        w, cachedN := table, n;
      }
    }

    /** libbench/mp.c:402-427 */
    method CexpBuiltin(m: int, n: nat) returns (r: C)
      requires Valid() && n >= 1
      requires Abs(m) < n || (Abs(m) == n && !IsPow2(n))
      modifies this`cachedN, this`w
      ensures Valid()
      ensures r == Pow(e(n), m)
    {
      RootOfValid(n);
      AbsIs(m);
      hide *;
      FillTable(n);
      r := ONE;
      var k, m' := 0, Abs(m);
      ghost var low := 0;
      PowAtZero(e(n));
      NoHighBits(0, m');
      while m' > 0
        invariant 0 <= low && 0 <= m' && 0 <= k && Abs(m) == low + HighBits(k, m')
        invariant r == Pow(e(n), if m > 0 then low else -low)
        invariant TableFor(e, n, w) && Valid()
      {
        BitStep(Abs(m), k, m', low, n);
        if m' % 2 == 1 {
          TableEntry(e, n, w, k);
          PowerStep(e(n), Pow2(k), low);
          r := Mul(if m > 0 then w[k] else Conj(w[k]), r);
          low := low + Pow2(k);
        }
        k, m' := k + 1, m' / 2;
      }
      NoHighBits(k, 0);
    }

    lemma RootOfValid(n: nat)
      requires Valid() && n >= 1
      ensures Unit(e(n))
    {
      FamilyPrimitive(e, n);
      PrimitiveIsUnit(n, e(n));
    }

    /** One butterfly (libbench/mp.c:456-462). */
    method ApplyButterfly(a: array<C>, k: nat, i: nat, wr: C)
      requires i > 0 && k + i < a.Length
      modifies a
      ensures a[..] == old(var (u, v) := (a[k], Mul(a[k + i], wr)); a[..][k := Add(u, v)][k + i := Sub(u, v)])
    {
      hide Mul, Add, Sub;
      var u, v := a[k], Mul(a[k + i], wr);
      a[k], a[k + i] := Add(u, v), Sub(u, v);
    }

    /** The two inner loops of libbench/mp.c:450-464. */
    method Stage(ghost K: nat, ghost t: nat, i: nat, ghost x: seq<C>, a: array<C>, sign: int)
      requires Valid() && t < K && i == Pow2(t) && (sign == 1 || sign == -1)
      requires AtStage(e, sign, K, x, a[..], t)
      modifies this`cachedN, this`w, a
      ensures Valid()
      ensures AtStage(e, sign, K, x, a[..], t + 1)
    {
      hide RootFamily, AtStage, BlockDft, Rewritten, Pow2, Mul, Pow, Add, Sub, Omega, BluesteinTables, TableFor;
      StageBegin(e, sign, K, x, a[..], t);
      var j := 0;
      while j < i
        invariant 0 <= j <= i
        invariant Valid()
        invariant InStage(e, sign, K, x, a[..], t, j, 0)
      {
        var wr := CexpBuiltin(sign * j, 2 * i);
        OmegaPow(e, 2 * i, sign, j);
        ColumnBegin(e, sign, K, x, a[..], t, j);
        var k := j;
        ghost var c := 0;
        while k < a.Length
          invariant 0 <= c && k == j + 2 * i * c
          invariant Valid()
          invariant InStage(e, sign, K, x, a[..], t, j, k)
          decreases a.Length - k
        {
          BlockFits(K, t, j, c);
          ButterflyCells(e, sign, K, x, a[..], t, c, j, k);
          ApplyButterfly(a, k, i, wr);
          k, c := k + 2 * i, c + 1;
        }
        ColumnEnd(e, sign, K, x, a[..], t, j, k);
        j := j + 1;
      }
      StageEnd(e, sign, K, x, a[..], t);
    }

    /** libbench/mp.c:444-466: the transform of every power-of-two length, in place. */
    method Fft0(n: nat, a: array<C>, sign: int)
      requires Valid() && IsPow2(n) && a.Length == n && (sign == 1 || sign == -1)
      modifies this`cachedN, this`w, a
      ensures Valid()
      ensures IsTransform(e, sign, old(a[..]), a[..])
    {
      hide RootFamily, AtStage, TableFor, BluesteinTables, IsPow2, Pow2, Omega, Dft;
      ghost var K := PowerOfTwoTest(n);
      ghost var x := a[..];
      BitReverse(K, n, a);
      BitReversedIsFirstStage(e, sign, K, x, a[..]);
      var i := 1;
      ghost var t := 0;
      Pow2AtZero();
      while i < n
        invariant t <= K && i == Pow2(t)
        invariant Valid()
        invariant AtStage(e, sign, K, x, a[..], t)
        decreases n - i
      {
        if t == K { assert false; }
        Stage(K, t, i, x, a, sign);
        Pow2Double(t);
        i, t := 2 * i, t + 1;
      }
      if t < K { Pow2Monotone(t + 1, K); Pow2Double(t); }
      LastStageIsTransform(e, sign, K, x, a[..]);
    }

    /** libbench/mp.c:469-479: the running square stays within 0..2n, and only its residue matters. */
    method BluesteinSequence(n: nat, a: array<C>)
      requires Valid() && n >= 1 && !IsPow2(n) && a.Length == n
      modifies this`cachedN, this`w, a
      ensures Valid()
      ensures forall k :: 0 <= k < n ==> a[k] == Chirp(e, n, k)
    {
      hide RootFamily, TableFor, BluesteinTables, IsPow2, Chirp, Pow;
      var ksq, n2 := 1, 2 * n;
      ghost var t := 0;
      DoubleNotPow2(n);
      for k := 0 to n
        invariant 0 <= ksq <= n2 && ksq + n2 * t == (k - 1) * (k - 1)
        invariant Valid()
        invariant forall q :: 0 <= q < k ==> a[q] == Chirp(e, n, q)
      {
        NextSquare(k, ksq, n2 * t);
        ksq := ksq + 2 * k - 1;
        while ksq > n2
          invariant 0 <= ksq && ksq + n2 * t == k * k
          invariant Valid()
          invariant forall q :: 0 <= q < k ==> a[q] == Chirp(e, n, q)
        {
          NextMultiple(n2, t);
          ksq, t := ksq - n2, t + 1;
        }
        a[k] := CexpBuiltin(ksq, n2);
        ChirpPeriodic(e, n, k, ksq, t);
      }
    }

    /** libbench/mp.c:504-526: the chirp and the transform of its kernel, kept for the next call. */
    method FillBluesteinTables(n: nat, nb: nat)
      requires Valid() && n >= 1 && !IsPow2(n) && IsNextPow2(nb, 2 * n)
      modifies this
      ensures Valid()
      ensures bluesteinN == n && |bluesteinY| == nb
    {
      hide RootFamily, TableFor, IsPow2, Chirp, Dft, IsNextPow2, Omega;
      IsNextIsPow2(nb, 2 * n);
      if bluesteinN != n {
        var ws := new C[n];
        BluesteinSequence(n, ws);
        var y := new C[nb](_ => ZERO);
        for i := 0 to n
          invariant Valid()
          invariant forall q :: 0 <= q < n ==> ws[q] == Chirp(e, n, q)
          invariant forall q :: 0 <= q < nb ==> y[q] == if q < i then Chirp(e, n, q) else ZERO
        {
          y[i] := ws[i];
        }
        for i := 1 to n
          invariant Valid()
          invariant forall q :: 0 <= q < n ==> ws[q] == Chirp(e, n, q)
          invariant forall q :: 0 <= q < nb ==>
            y[q] == if q < n || nb - i < q then KernelCell(e, n, nb, q) else ZERO
        {
          y[nb - i] := ws[i];
          assert KernelCell(e, n, nb, nb - i) == Chirp(e, n, i);
        }
        ghost var kernel := y[..];
        Fft0(nb, y, -1);
        KernelTransform(e, n, nb, kernel, y[..]);
        bluesteinN, bluesteinW, bluesteinY := n, ws[..], y[..];
      } else {
        NextPow2Unique(nb, |bluesteinY|, 2 * n);
      }
    }

    /** libbench/mp.c:530-531 */
    method Modulate(n: nat, a: array<C>, b: array<C>)
      requires a != b && n == a.Length == |bluesteinW| <= b.Length
      requires forall q :: 0 <= q < n ==> bluesteinW[q] == Chirp(e, n, q)
      requires forall q :: 0 <= q < b.Length ==> b[q] == ZERO
      modifies b
      ensures forall q :: 0 <= q < b.Length ==> b[q] == if q < n then Mul(Conj(Chirp(e, n, q)), a[q]) else ZERO
    {
      hide Mul, Conj, Chirp;
      for i := 0 to n
        invariant forall q :: 0 <= q < b.Length ==> b[q] == if q < i then Mul(Conj(Chirp(e, n, q)), a[q]) else ZERO
      {
        b[i] := Mul(Conj(bluesteinW[i]), a[i]);
      }
    }

    /** libbench/mp.c:536-537 */
    method MultiplyByKernel(b: array<C>)
      requires |bluesteinY| == b.Length
      modifies b
      ensures forall q :: 0 <= q < b.Length ==> b[q] == Mul(old(b[q]), bluesteinY[q])
    {
      hide Mul;
      for i := 0 to b.Length
        invariant forall q :: 0 <= q < b.Length ==> b[q] == if q < i then Mul(old(b[q]), bluesteinY[q]) else old(b[q])
      {
        b[i] := Mul(b[i], bluesteinY[i]);
      }
    }

    /** libbench/mp.c:540-544 */
    method Demodulate(n: nat, nb: nat, a: array<C>, b: array<C>, ghost X: int -> C)
      requires a != b && n == a.Length == |bluesteinW| <= b.Length == nb
      requires forall q :: 0 <= q < n ==> Mul(Conj(bluesteinW[q]), b[q]) == Scale(nb as real, X(q))
      modifies a
      ensures forall q :: 0 <= q < n ==> a[q] == X(q)
    {
      hide Mul, Conj, Scale;
      if n == 0 { return; }
      var nbinv := 1.0 / nb as real;
      for i := 0 to n
        invariant forall q :: 0 <= q < i ==> a[q] == X(q)
      {
        a[i] := Scale(nbinv, Mul(Conj(bluesteinW[i]), b[i]));
        ScaleInverse(nb, X(i));
      }
    }

    /** libbench/mp.c:493-547: the forward transform of every other length. */
    method BluesteinFft(n: nat, a: array<C>)
      requires Valid() && n >= 1 && !IsPow2(n) && a.Length == n
      modifies this, a
      ensures Valid()
      ensures IsTransform(e, -1, old(a[..]), a[..])
    {
      var nb := Pow2AtLeast(2 * n);
      ghost var x := a[..];
      FillBluesteinTables(n, nb);
      hide *;
      IsNextIsPow2(nb, 2 * n);
      var b := new C[nb](_ => ZERO);
      Modulate(n, a, b);
      ghost var modulated := b[..];
      Fft0(nb, b, -1);
      ghost var B := b[..];
      MultiplyByKernel(b);
      ghost var product := b[..];
      Fft0(nb, b, 1);
      BluesteinArrays(e, n, nb, x, modulated, B, bluesteinY, product, b[..]);
      ghost var X := k => Dft(n, Omega(e, n, -1), Cells(x), k);
      Demodulate(n, nb, a, b, X);
      TransformIntro(e, -1, x, a[..], X);
    }

    /** libbench/mp.c:560-569: the transform of every length and either sign, in place. */
    method Fft1(n: nat, a: array<C>, sign: int)
      requires Valid() && n >= 1 && a.Length == n && (sign == 1 || sign == -1)
      modifies this, a
      ensures Valid()
      ensures IsTransform(e, sign, old(a[..]), a[..])
    {
      hide RootFamily, TableFor, BluesteinTables, IsPow2, Dft, Omega;
      if IsPow2(n) {
        Fft0(n, a, sign);
      } else {
        ghost var x := a[..];
        if sign == 1 {
          SwapRi(n, a);
        }
        ghost var y := a[..];
        BluesteinFft(n, a);
        ghost var z := a[..];
        if sign == 1 {
          SwapRi(n, a);
          SwappedTransform(e, x, y, z, a[..]);
        }
      }
    }
  }

  /** libbench/mp.c:481-487 */
  method Pow2AtLeast(x: nat) returns (h: nat)
    ensures IsNextPow2(h, x)
  {
    h := 1;
    ghost var k := 0;
    while h < x
      invariant h == Pow2(k) && (h == 1 || h < 2 * x)
      decreases x - h
    {
      h, k := 2 * h, k + 1;
    }
    var _ := PowerOfTwoTest(h);
  }

  /** libbench/mp.c:549-558 */
  method SwapRi(n: nat, a: array<C>)
    requires a.Length == n
    modifies a
    ensures forall k :: 0 <= k < n ==> a[k] == Swap(old(a[k]))
  {
    for i := 0 to n
      invariant forall k :: 0 <= k < n ==> a[k] == if k < i then Swap(old(a[k])) else old(a[k])
    {
      a[i] := C(a[i].im, a[i].re);
    }
  }
}
