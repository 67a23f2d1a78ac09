/** The real transform of benchees/fftreal/FFTReal.cc and its inverse, over exact reals. */
module FftReal {
  import opened ComplexNumbers
  import opened Arithmetic
  import opened Frames
  import opened Scaling

  // ----- the passes -----

  /** The cosine and the sine that pass p uses for index i. */
  type Rotations = (nat, int) -> C

  ghost predicate UnitRotations(rot: Rotations) {
    forall p: nat, i: int :: Norm(rot(p, i)) == 1.0
  }

  /** Half the number of coefficients of pass p. */
  function H(p: nat): nat
    requires p >= 1
  {
    Pow2(p - 1)
  }

  function Turned(a: C, x: real, y: real): real { Times(x, a.re) - Times(y, a.im) }

  function TurnedSide(a: C, x: real, y: real): real { Times(x, a.im) + Times(y, a.re) }

  /** Coefficient j of a block of 4 h cells after a pass of do_fft, from the block before it
      (FFTReal.cc:153-164, 187-209). */
  function UpCell(a: int -> C, h: nat, s: seq<real>, j: int): real
    requires |s| == 4 * h && 0 <= j < 4 * h
  {
    var n := 2 * h;
    if j == 0 then s[0] + s[n]
    else if j == n then s[0] - s[n]
    else if j == h || j == n + h then s[j]
    else if j < h then s[j] + Turned(a(j), s[n + j], s[n + h + j])
    else if j < n then s[n - j] - Turned(a(n - j), s[n + (n - j)], s[n + h + (n - j)])
    else if j < n + h then TurnedSide(a(j - n), s[j], s[h + j]) + s[h + (j - n)]
    else TurnedSide(a(2 * n - j), s[n + (2 * n - j)], s[n + h + (2 * n - j)]) - s[h + (2 * n - j)]
  }

  /** The same for a pass of do_ifft (FFTReal.cc:325-346, 372-384). */
  function DownCell(a: int -> C, h: nat, s: seq<real>, j: int): real
    requires |s| == 4 * h && 0 <= j < 4 * h
  {
    var n := 2 * h;
    if j == 0 then s[0] + s[n]
    else if j == n then s[0] - s[n]
    else if j == h || j == n + h then 2.0 * s[j]
    else if j < h then s[j] + s[n - j]
    else if j < n then s[n + (j - h)] - s[2 * n - (j - h)]
    else if j < n + h then
      var i := j - n;
      Times(s[i] - s[n - i], a(i).re) + Times(s[n + i] + s[2 * n - i], a(i).im)
    else
      var i := j - n - h;
      Times(s[n + i] + s[2 * n - i], a(i).re) - Times(s[i] - s[n - i], a(i).im)
  }

  lemma TimesTwice(r: real, x: real)
    ensures Times(2.0 * r, x) == 2.0 * Times(r, x)
  {}

  /** Turning there and back. */
  lemma TurnBack(a: C, r: real, x: real, y: real)
    requires Norm(a) == 1.0
    ensures Times(Times(2.0 * r, Turned(a, x, y)), a.re) + Times(Times(2.0 * r, TurnedSide(a, x, y)), a.im) == Times(2.0 * r, x)
    ensures Times(Times(2.0 * r, TurnedSide(a, x, y)), a.re) - Times(Times(2.0 * r, Turned(a, x, y)), a.im) == Times(2.0 * r, y)
  {
    var (c, s, q) := (a.re, a.im, 2.0 * r);
    NormIs(a);
    hide Norm;
    TurnBackProducts(c, s, x, y);
    Regroup(q, x * c - y * s, x * s + y * c, c, s);
  }

  lemma TurnBackProducts(c: real, s: real, x: real, y: real)
    requires c * c + s * s == 1.0
    ensures (x * c - y * s) * c + (x * s + y * c) * s == x
    ensures (x * s + y * c) * c - (x * c - y * s) * s == y
  {
    assert (x * c - y * s) * c + (x * s + y * c) * s == x * (c * c + s * s);
    assert (x * s + y * c) * c - (x * c - y * s) * s == y * (c * c + s * s);
  }

  lemma Regroup(q: real, v: real, w: real, c: real, s: real)
    ensures (q * v) * c + (q * w) * s == q * (v * c + w * s)
    ensures (q * w) * c - (q * v) * s == q * (w * c - v * s)
  {}

  lemma UpCells(a: int -> C, h: nat, s: seq<real>, i: int)
    requires |s| == 4 * h && 0 < i < h
    ensures var (n, v, w) := (2 * h, Turned(a(i), s[2 * h + i], s[3 * h + i]), TurnedSide(a(i), s[2 * h + i], s[3 * h + i]));
            && UpCell(a, h, s, i) == s[i] + v && UpCell(a, h, s, n - i) == s[i] - v
            && UpCell(a, h, s, n + i) == w + s[h + i] && UpCell(a, h, s, 2 * n - i) == w - s[h + i]
  {
    hide Turned, TurnedSide;
  }

  lemma DownCells(a: int -> C, h: nat, s: seq<real>, i: int)
    requires |s| == 4 * h && 0 < i < h
    ensures var (n, vr, vi) := (2 * h, s[i] - s[2 * h - i], s[2 * h + i] + s[4 * h - i]);
            && DownCell(a, h, s, i) == s[i] + s[n - i] && DownCell(a, h, s, h + i) == s[n + i] - s[2 * n - i]
            && DownCell(a, h, s, n + i) == Times(vr, a(i).re) + Times(vi, a(i).im)
            && DownCell(a, h, s, n + h + i) == Times(vi, a(i).re) - Times(vr, a(i).im)
  {
    hide Times;
  }

  lemma Ends(a: int -> C, h: nat, s: seq<real>)
    requires |s| == 4 * h && h >= 1
    ensures UpCell(a, h, s, 0) == DownCell(a, h, s, 0) == s[0] + s[2 * h]
    ensures UpCell(a, h, s, 2 * h) == DownCell(a, h, s, 2 * h) == s[0] - s[2 * h]
    ensures UpCell(a, h, s, h) == s[h] && DownCell(a, h, s, h) == 2.0 * s[h]
    ensures UpCell(a, h, s, 3 * h) == s[3 * h] && DownCell(a, h, s, 3 * h) == 2.0 * s[3 * h]
  {}

  /** A block after a pass up and a pass down is twice the block. */
  lemma DownUndoesUp(a: int -> C, h: nat, s: seq<real>, u: seq<real>, r: real, j: nat)
    requires h >= 1 && |s| == |u| == 4 * h && j < 4 * h
    requires forall i :: Norm(a(i)) == 1.0
    requires forall k :: 0 <= k < 4 * h ==> u[k] == Times(r, UpCell(a, h, s, k))
    ensures DownCell(a, h, u, j) == Times(2.0 * r, s[j])
  {
    var n := 2 * h;
    hide Times, Norm, Turned, TurnedSide, UpCell, DownCell;
    Ends(a, h, s);
    Ends(a, h, u);
    if j == 0 || j == n {
      TimesSum(r, s[0], s[n]);
    } else if j == h || j == n + h {
      TimesTwice(r, s[j]);
    } else {
      var i := if j < h then j else if j < n then j - h else if j < n + h then j - n else j - n - h;
      UpCells(a, h, s, i);
      DownCells(a, h, u, i);
      InnerUndone(a(i), h, s, u, r, i);
    }
  }

  lemma InnerUndone(a: C, h: nat, s: seq<real>, u: seq<real>, r: real, i: int)
    requires |s| == |u| == 4 * h && 0 < i < h && Norm(a) == 1.0
    requires var (n, v, w) := (2 * h, Turned(a, s[2 * h + i], s[3 * h + i]), TurnedSide(a, s[2 * h + i], s[3 * h + i]));
             && u[i] == Times(r, s[i] + v) && u[n - i] == Times(r, s[i] - v)
             && u[n + i] == Times(r, w + s[h + i]) && u[2 * n - i] == Times(r, w - s[h + i])
    ensures var (n, vr, vi) := (2 * h, u[i] - u[2 * h - i], u[2 * h + i] + u[4 * h - i]);
            && u[i] + u[n - i] == Times(2.0 * r, s[i]) && u[n + i] - u[2 * n - i] == Times(2.0 * r, s[h + i])
            && Times(vr, a.re) + Times(vi, a.im) == Times(2.0 * r, s[n + i])
            && Times(vi, a.re) - Times(vr, a.im) == Times(2.0 * r, s[n + h + i])
  {
    hide Times, Norm, Turned, TurnedSide;
    BackInPlace(a, r, s[i], s[h + i], s[2 * h + i], s[3 * h + i]);
    TimesSum(r, s[i], Turned(a, s[2 * h + i], s[3 * h + i]));
    TimesSum(r, TurnedSide(a, s[2 * h + i], s[3 * h + i]), s[h + i]);
  }

  lemma BackInPlace(a: C, r: real, p: real, q: real, x: real, y: real)
    requires Norm(a) == 1.0
    ensures var (v, w) := (Turned(a, x, y), TurnedSide(a, x, y));
            var (vr, vi) := (Times(r, p + v) - Times(r, p - v), Times(r, w + q) + Times(r, w - q));
            && Times(vr, a.re) + Times(vi, a.im) == Times(2.0 * r, x)
            && Times(vi, a.re) - Times(vr, a.im) == Times(2.0 * r, y)
  {
    TurnBack(a, r, x, y);
    TimesSum(r, p, Turned(a, x, y));
    TimesSum(r, TurnedSide(a, x, y), q);
    hide Times, Norm, Turned, TurnedSide;
  }

  // ----- whole arrays -----

  /** The block of w cells that holds cell k. */
  function BlockAt(s: seq<real>, w: nat, k: int): (r: seq<real>)
    requires w > 0 && |s| % w == 0 && 0 <= k < |s|
    ensures |r| == w && 0 <= k % w < w && r[k % w] == s[k]
  {
    BlockBound(|s|, w, k);
    s[k - k % w..k - k % w + w]
  }

  lemma BlockBound(n: nat, w: nat, k: int)
    requires w > 0 && n % w == 0 && 0 <= k < n
    ensures 0 <= k % w < w && 0 <= k - k % w && k - k % w + w <= n
  {
    DivMod(k, w);
    DivMod(n, w);
    QuotientNonNegative(k, w);
    MulMonotone(0, k / w, w);
    if k / w < n / w {
      MulMonotone(k / w + 1, n / w, w);
    } else {
      MulMonotone(n / w, k / w, w);
    }
  }

  function Up(a: int -> C, h: nat, s: seq<real>): (r: seq<real>)
    requires h >= 1 && |s| % (4 * h) == 0
    ensures |r| == |s|
  {
    seq(|s|, k requires 0 <= k < |s| => UpCell(a, h, BlockAt(s, 4 * h, k), k % (4 * h)))
  }

  function Down(a: int -> C, h: nat, s: seq<real>): (r: seq<real>)
    requires h >= 1 && |s| % (4 * h) == 0
    ensures |r| == |s|
  {
    seq(|s|, k requires 0 <= k < |s| => DownCell(a, h, BlockAt(s, 4 * h, k), k % (4 * h)))
  }

  /** A pass down undoes a pass up, up to the factor 2. */
  lemma DownUp(a: int -> C, h: nat, s: seq<real>, u: seq<real>, r: real)
    requires h >= 1 && |s| % (4 * h) == 0 && forall i :: Norm(a(i)) == 1.0
    requires Scaled(r, Up(a, h, s), u)
    ensures Scaled(2.0 * r, s, Down(a, h, u))
  {
    var w := 4 * h;
    forall k | 0 <= k < |s|
      ensures Down(a, h, u)[k] == Times(2.0 * r, s[k])
    {
      BlockBound(|s|, w, k);
      var (b, j) := (k - k % w, k % w);
      BlockScaled(a, h, s, u, r, k);
      hide Times, Norm, UpCell, DownCell;
      DownUndoesUp(a, h, BlockAt(s, w, k), BlockAt(u, w, k), r, j);
    }
  }

  lemma ScaledAt(r: real, s: seq<real>, u: seq<real>, i: nat)
    requires Scaled(r, s, u) && i < |s|
    ensures |u| == |s| && u[i] == Times(r, s[i])
  {}

  lemma BlockScaled(a: int -> C, h: nat, s: seq<real>, u: seq<real>, r: real, k: nat)
    requires h >= 1 && |s| % (4 * h) == 0 && k < |s|
    requires Scaled(r, Up(a, h, s), u)
    ensures var w := 4 * h;
            forall j :: 0 <= j < w ==> BlockAt(u, w, k)[j] == Times(r, UpCell(a, h, BlockAt(s, w, k), j))
  {
    hide *;
    var w := 4 * h;
    BlockBound(|s|, w, k);
    var b := k - k % w;
    forall j | 0 <= j < w
      ensures |u| == |s| && BlockAt(u, w, k)[j] == Times(r, UpCell(a, h, BlockAt(s, w, k), j))
    {
      ScaledAt(r, Up(a, h, s), u, b + j);
      BlockIndex(u, w, k, j);
      BlockIndex(s, w, k, j);
      UpIndex(a, h, s, b + j);
    }
  }

  lemma UpIndex(a: int -> C, h: nat, s: seq<real>, k: nat)
    requires h >= 1 && |s| % (4 * h) == 0 && k < |s|
    ensures 0 <= k % (4 * h) < 4 * h && Up(a, h, s)[k] == UpCell(a, h, BlockAt(s, 4 * h, k), k % (4 * h))
    ensures Down(a, h, s)[k] == DownCell(a, h, BlockAt(s, 4 * h, k), k % (4 * h))
  {
    BlockBound(|s|, 4 * h, k);
  }

  /** Cell j of the block of k, which is also the block of that cell. */
  lemma BlockIndex(s: seq<real>, w: nat, k: nat, j: nat)
    requires w > 0 && |s| % w == 0 && k < |s| && j < w
    ensures 0 <= k - k % w && k - k % w + w <= |s|
    ensures var m := k - k % w + j;
            BlockAt(s, w, k)[j] == s[m] && m % w == j && BlockAt(s, w, m) == BlockAt(s, w, k)
  {
    BlockBound(|s|, w, k);
    SameBlock(w, k, k - k % w + j);
    assert (k - k % w + j) % w == j;
  }

  lemma SameBlock(w: nat, k: nat, m: nat)
    requires w > 0 && k - k % w <= m < k - k % w + w
    ensures m - m % w == k - k % w
  {
    DivMod(k, w);
    DivModUnique(m, w, k / w, m - (k - k % w));
  }

  // ----- the first two passes and the last two -----

  lemma Pow2Four(bits: nat)
    requires bits >= 2
    ensures Pow2(bits) % 4 == 0 && Pow2(2) == 4
  {
    assert Pow2(0) == 1 && Pow2(1) == 2 && Pow2(2) == 4;
    PowerDivides(2, bits);
  }

  function FirstCell(b: seq<real>, j: int): real
    requires |b| == 4 && 0 <= j < 4
  {
    if j == 0 then b[0] + b[1] + (b[2] + b[3])
    else if j == 1 then b[0] - b[1]
    else if j == 2 then b[0] + b[1] - (b[2] + b[3])
    else b[2] - b[3]
  }

  function LastCell(b: seq<real>, j: int): real
    requires |b| == 4 && 0 <= j < 4
  {
    if j == 0 then b[0] + b[2] + b[1] * 2.0
    else if j == 1 then b[0] + b[2] - b[1] * 2.0
    else if j == 2 then b[0] - b[2] + b[3] * 2.0
    else b[0] - b[2] - b[3] * 2.0
  }

  function First(x: seq<real>, bits: nat): (r: seq<real>)
    requires bits >= 2 && |x| == Pow2(bits)
    ensures |r| == |x|
  {
    Pow2Four(bits);
    seq(|x|, k requires 0 <= k < |x| => FirstCell(BlockAt(Shuffled(x, bits), 4, k), k % 4))
  }

  function Last(s: seq<real>, bits: nat): (r: seq<real>)
    requires bits >= 2 && |s| == Pow2(bits)
    ensures |r| == |s|
  {
    Pow2Four(bits);
    seq(|s|, m requires 0 <= m < |s| =>
      (ReverseBound(bits, m); LastCell(BlockAt(s, 4, Reverse(bits, m)), Reverse(bits, m) % 4)))
  }

  lemma LastUndoesFirst(b: seq<real>, u: seq<real>, r: real, j: nat)
    requires |b| == |u| == 4 && j < 4
    requires forall k :: 0 <= k < 4 ==> u[k] == Times(r, FirstCell(b, k))
    ensures LastCell(u, j) == Times(4.0 * r, b[j])
  {
    assert u[0] == Times(r, FirstCell(b, 0)) && u[1] == Times(r, FirstCell(b, 1)) && u[2] == Times(r, FirstCell(b, 2)) && u[3] == Times(r, FirstCell(b, 3));
    FourTimes(r, b[0], b[1], b[2], b[3]);
    hide Times;
  }

  lemma FourTimes(r: real, p: real, q: real, x: real, y: real)
    ensures Times(r, p + q + (x + y)) + Times(r, p + q - (x + y)) + Times(r, p - q) * 2.0 == Times(4.0 * r, p)
    ensures Times(r, p + q + (x + y)) + Times(r, p + q - (x + y)) - Times(r, p - q) * 2.0 == Times(4.0 * r, q)
    ensures Times(r, p + q + (x + y)) - Times(r, p + q - (x + y)) + Times(r, x - y) * 2.0 == Times(4.0 * r, x)
    ensures Times(r, p + q + (x + y)) - Times(r, p + q - (x + y)) - Times(r, x - y) * 2.0 == Times(4.0 * r, y)
  {
    var (a, b, c, d) := (r * p, r * q, r * x, r * y);
    assert r * (p + q + (x + y)) == a + b + c + d && r * (p + q - (x + y)) == a + b - c - d;
    assert r * (p - q) == a - b && r * (x - y) == c - d;
  }

  lemma LastFirst(x: seq<real>, bits: nat, u: seq<real>, r: real)
    requires bits >= 2 && |x| == Pow2(bits) && Scaled(r, First(x, bits), u)
    ensures Scaled(4.0 * r, x, Last(u, bits))
  {
    forall m | 0 <= m < |x|
      ensures Last(u, bits)[m] == Times(4.0 * r, x[m])
    {
      LastFirstCell(x, bits, u, r, m);
    }
  }

  lemma ShuffledBack(x: seq<real>, bits: nat, m: nat)
    requires |x| == Pow2(bits) && m < |x| && Reverse(bits, m) < |x| && Reverse(bits, Reverse(bits, m)) == m
    ensures Shuffled(x, bits)[Reverse(bits, m)] == x[m]
  {
    hide Reverse, Pow2;
  }

  lemma LastFirstCell(x: seq<real>, bits: nat, u: seq<real>, r: real, m: nat)
    requires bits >= 2 && |x| == Pow2(bits) && m < |x| && Scaled(r, First(x, bits), u)
    ensures |u| == |x| && Last(u, bits)[m] == Times(4.0 * r, x[m])
  {
    hide *;
    ReverseBound(bits, m);
    ReverseInvolution(bits, m);
    Pow2Four(bits);
    var (k, y) := (Reverse(bits, m), Shuffled(x, bits));
    ScaledAt(r, First(x, bits), u, m);
    BlockBound(|x|, 4, k);
    var b := k - k % 4;
    forall j | 0 <= j < 4
      ensures BlockAt(u, 4, k)[j] == Times(r, FirstCell(BlockAt(y, 4, k), j))
    {
      BlockIndex(u, 4, k, j);
      BlockIndex(y, 4, k, j);
      FirstIndex(x, bits, b + j);
      ScaledAt(r, First(x, bits), u, b + j);
    }
    LastUndoesFirst(BlockAt(y, 4, k), BlockAt(u, 4, k), r, k % 4);
    assert BlockAt(y, 4, k)[k % 4] == y[k];
    LastIndex(u, bits, m);
    ShuffledBack(x, bits, m);
  }

  // ----- the transforms -----

  lemma WidthDivides(bits: nat, p: nat)
    requires 2 <= p < bits
    ensures Pow2(p - 1) >= 1 && Pow2(bits) % (4 * Pow2(p - 1)) == 0 && 4 * Pow2(p - 1) == Pow2(p + 1)
  {
    assert Pow2(p + 1) == 2 * Pow2(p) && Pow2(p) == 2 * Pow2(p - 1);
    PowerDivides(p + 1, bits);
  }

  function Pass(rot: Rotations, p: nat): int -> C { i => rot(p, i) }

  /** The coefficients of the transforms of length 2^p. */
  function Level(rot: Rotations, x: seq<real>, bits: nat, p: nat): (r: seq<real>)
    requires 2 <= p <= bits && |x| == Pow2(bits)
    ensures |r| == |x|
  {
    if p == 2 then First(x, bits)
    else
      WidthDivides(bits, p - 1);
      Up(Pass(rot, p - 1), H(p - 1), Level(rot, x, bits, p - 1))
  }

  /** What the inverse has when it is back at the transforms of length 2^p. */
  function Back(rot: Rotations, f: seq<real>, bits: nat, p: nat): (r: seq<real>)
    requires 2 <= p <= bits && |f| == Pow2(bits)
    ensures |r| == |f|
    decreases bits - p
  {
    if p == bits then f
    else
      WidthDivides(bits, p);
      Down(Pass(rot, p), H(p), Back(rot, f, bits, p + 1))
  }

  function Forward(rot: Rotations, x: seq<real>, bits: nat): (r: seq<real>)
    requires |x| == Pow2(bits)
    ensures |r| == |x|
  {
    if bits == 0 then x
    else if bits == 1 then assert Pow2(0) == 1; [x[0] + x[1], x[0] - x[1]]
    else Level(rot, x, bits, bits)
  }

  function Inverse(rot: Rotations, f: seq<real>, bits: nat): (r: seq<real>)
    requires |f| == Pow2(bits)
    ensures |r| == |f|
  {
    if bits == 0 then f
    else if bits == 1 then assert Pow2(0) == 1; [f[0] + f[1], f[0] - f[1]]
    else Last(Back(rot, f, bits, 2), bits)
  }

  lemma {:induction false} BackAtLevel(rot: Rotations, x: seq<real>, bits: nat, p: nat)
    requires UnitRotations(rot) && 2 <= p <= bits && |x| == Pow2(bits)
    ensures Scaled(Pow2(bits - p) as real, Level(rot, x, bits, p), Back(rot, Level(rot, x, bits, bits), bits, p))
    decreases bits - p
  {
    hide *;
    var f := Level(rot, x, bits, bits);
    if p == bits {
      TimesOne(f);
      Unchanged(rot, f, bits);
    } else {
      BackAtLevel(rot, x, bits, p + 1);
      WidthDivides(bits, p);
      LevelStep(rot, x, bits, f, p);
      PassUnit(rot, p);
      DownUp(Pass(rot, p), H(p), Level(rot, x, bits, p), Back(rot, f, bits, p + 1), Pow2(bits - (p + 1)) as real);
    }
  }

  lemma Unchanged(rot: Rotations, f: seq<real>, bits: nat)
    requires bits >= 2 && |f| == Pow2(bits)
    ensures Back(rot, f, bits, bits) == f && bits - bits == 0
  {}

  lemma PassUnit(rot: Rotations, p: nat)
    requires UnitRotations(rot)
    ensures forall i :: Norm(Pass(rot, p)(i)) == 1.0
  {}

  lemma LevelStep(rot: Rotations, x: seq<real>, bits: nat, f: seq<real>, p: nat)
    requires 2 <= p < bits && |x| == |f| == Pow2(bits)
    ensures H(p) >= 1 && Pow2(bits) % (4 * H(p)) == 0
    ensures Level(rot, x, bits, p + 1) == Up(Pass(rot, p), H(p), Level(rot, x, bits, p))
    ensures Back(rot, f, bits, p) == Down(Pass(rot, p), H(p), Back(rot, f, bits, p + 1))
    ensures 2.0 * (Pow2(bits - (p + 1)) as real) == Pow2(bits - p) as real
  {
    WidthDivides(bits, p);
    hide Up, Down, First, Pass;
    assert Pow2(bits - p) == 2 * Pow2(bits - (p + 1));
  }

  lemma TimesOne(s: seq<real>)
    ensures Scaled(Pow2(0) as real, s, s)
  {}

  /** The inverse undoes the transform, up to the length. */
  lemma RoundTrip(rot: Rotations, x: seq<real>, bits: nat)
    requires UnitRotations(rot) && |x| == Pow2(bits)
    ensures Scaled(|x| as real, x, Inverse(rot, Forward(rot, x, bits), bits))
  {
    hide *;
    if bits >= 2 {
      BackAtLevel(rot, x, bits, 2);
      InGeneral(rot, x, bits);
      LastFirst(x, bits, Back(rot, Level(rot, x, bits, bits), bits, 2), Pow2(bits - 2) as real);
      FourPow2(bits);
      InGeneral(rot, Level(rot, x, bits, bits), bits);
    } else {
      SmallRoundTrip(rot, x, bits);
    }
  }

  lemma InGeneral(rot: Rotations, x: seq<real>, bits: nat)
    requires bits >= 2 && |x| == Pow2(bits)
    ensures Forward(rot, x, bits) == Level(rot, x, bits, bits)
    ensures Inverse(rot, x, bits) == Last(Back(rot, x, bits, 2), bits)
    ensures Level(rot, x, bits, 2) == First(x, bits)
  {
    hide Last, Back, First, Up, Pow2;
  }

  lemma SmallRoundTrip(rot: Rotations, x: seq<real>, bits: nat)
    requires bits < 2 && |x| == Pow2(bits)
    ensures Scaled(|x| as real, x, Inverse(rot, Forward(rot, x, bits), bits))
  {
    assert Pow2(0) == 1 && Pow2(1) == 2;
    hide Level, Back, Last, First, Pow2;
    var y := Inverse(rot, Forward(rot, x, bits), bits);
    if bits == 0 {
      assert y == x && |x| as real == 1.0;
      assert y[0] == Times(1.0, x[0]);
    } else {
      assert y == [x[0] + x[1] + (x[0] - x[1]), x[0] + x[1] - (x[0] - x[1])] && |x| as real == 2.0;
      assert y[0] == Times(2.0, x[0]) && y[1] == Times(2.0, x[1]);
    }
  }

  lemma FourPow2(bits: nat)
    requires bits >= 2
    ensures 4.0 * (Pow2(bits - 2) as real) == Pow2(bits) as real
  {
    assert Pow2(bits) == 2 * Pow2(bits - 1) && Pow2(bits - 1) == 2 * Pow2(bits - 2);
  }

  // ----- the tables -----

  /** BitReversedLUT::BitReversedLUT (FFTReal.cc:500-523) */
  method BitReversedLut(bits: nat) returns (ptr: array<nat>)
    ensures fresh(ptr) && ptr.Length == Pow2(bits)
    ensures forall i :: 0 <= i < ptr.Length ==> ptr[i] == Reverse(bits, i)
  {
    var length := Pow2(bits);
    ptr := new nat[length];
    var brIndex := 0;
    ReverseZero(bits);
    ptr[0] := 0;
    for cnt := 1 to length
      invariant brIndex == Reverse(bits, cnt - 1)
      invariant forall i :: 0 <= i < cnt ==> ptr[i] == Reverse(bits, i)
    {
      brIndex := NextReversed(bits, length, cnt - 1, brIndex);
      ptr[cnt] := brIndex;
    }
  }

  /** get_ptr: where the cosines of a level begin in the table (FFTReal.h:77-80). */
  function LevelAt(level: nat): int
    requires level >= 1
  {
    Pow2(level - 1) - 4
  }

  lemma LevelRange(level: nat)
    requires level >= 3
    ensures LevelAt(level) >= 0 && LevelAt(level) + Pow2(level - 1) == LevelAt(level + 1)
  {
    assert Pow2(0) == 1 && Pow2(1) == 2 && Pow2(2) == 4;
    Pow2Monotone(2, level - 1);
  }

  lemma LevelFits(level: nat, bits: nat)
    requires 3 <= level < bits
    ensures 0 <= LevelAt(level) && LevelAt(level) + Pow2(level - 1) <= LevelAt(bits)
  {
    LevelRange(level);
    Pow2Monotone(level, bits - 1);
  }

  function TableSize(bits: nat): nat {
    if bits > 3 then LevelFits(3, bits); LevelAt(bits) else 0
  }

  /** The cosines of one level. */
  ghost predicate LevelFilled(table: seq<real>, level: nat, cosine: (nat, int) -> real)
    requires level >= 3
  {
    && 0 <= LevelAt(level) && LevelAt(level) + Pow2(level - 1) <= |table|
    && forall i :: 0 <= i < Pow2(level - 1) ==> table[LevelAt(level) + i] == cosine(level, i)
  }

  /** The cosines of all the levels that are used. */
  ghost predicate IsTable(table: seq<real>, bits: nat, cosine: (nat, int) -> real) {
    && |table| == TableSize(bits)
    && forall level :: 3 <= level < bits ==> LevelFilled(table, level, cosine)
  }

  method FillLevel(ptr: array<real>, level: nat, cosine: (nat, int) -> real)
    requires level >= 3 && 0 <= LevelAt(level) && LevelAt(level) + Pow2(level - 1) <= ptr.Length
    modifies ptr
    ensures LevelFilled(ptr[..], level, cosine)
    ensures forall k :: 0 <= k < LevelAt(level) ==> ptr[k] == old(ptr[k])
  {
    hide LevelAt, Pow2;
    var levelLen, levelPtr := Pow2(level - 1), LevelAt(level);
    for i := 0 to levelLen
      invariant forall k :: 0 <= k < i ==> ptr[levelPtr + k] == cosine(level, k)
      invariant forall k :: 0 <= k < levelPtr ==> ptr[k] == old(ptr[k])
    {
      ptr[levelPtr + i] := cosine(level, i);
    }
  }

  lemma LevelStays(s: seq<real>, t: seq<real>, l: nat, level: nat, cosine: (nat, int) -> real)
    requires 3 <= l < level && LevelFilled(s, l, cosine) && |s| == |t| && LevelAt(level) <= |s|
    requires forall k :: 0 <= k < LevelAt(level) ==> t[k] == s[k]
    ensures LevelFilled(t, l, cosine)
  {
    LevelFits(l, level);
    hide LevelAt, Pow2;
  }

  /** TrigoLUT::TrigoLUT (FFTReal.cc:547-570), with the cosine of i pi / 2^level as a parameter. */
  method TrigoLut(bits: nat, cosine: (nat, int) -> real) returns (ptr: array<real>)
    ensures fresh(ptr) && IsTable(ptr[..], bits, cosine)
  {
    hide LevelFilled, LevelAt;
    ptr := new real[TableSize(bits)];
    TableLength(bits);
    if bits > 3 {
      for level := 3 to bits
        invariant forall l :: 3 <= l < level ==> LevelFilled(ptr[..], l, cosine)
      {
        LevelFits(level, bits);
        ghost var before := ptr[..];
        FillLevel(ptr, level, cosine);
        forall l | 3 <= l < level ensures LevelFilled(ptr[..], l, cosine) { LevelStays(before, ptr[..], l, level, cosine); }
      }
    }
  }

  lemma TableLength(bits: nat)
    ensures bits > 3 ==> TableSize(bits) == LevelAt(bits)
  {}

  /** The cosines of pass p at i and at h - i, which is the sine at i, have squares that add up to 1. */
  ghost predicate CosineLaw(cosine: (nat, int) -> real, p: nat, i: nat) {
    p >= 1 && 1 <= i < Pow2(p - 1) ==> Norm(C(cosine(p, i), cosine(p, Pow2(p - 1) - i))) == 1.0
  }

  ghost predicate ExactCosines(cosine: (nat, int) -> real, sqrt2Half: real) {
    && (forall p: nat, i: nat :: CosineLaw(cosine, p, i))
    && Norm(C(sqrt2Half, sqrt2Half)) == 1.0
  }

  /** The rotations that the passes use. */
  function Rot(cosine: (nat, int) -> real, sqrt2Half: real): Rotations {
    (p: nat, i: int) =>
      if p == 2 then C(sqrt2Half, sqrt2Half)
      else if p >= 1 && 1 <= i < Pow2(p - 1) then C(cosine(p, i), cosine(p, Pow2(p - 1) - i))
      else ONE
  }

  lemma RotIsUnit(cosine: (nat, int) -> real, sqrt2Half: real)
    requires ExactCosines(cosine, sqrt2Half)
    ensures UnitRotations(Rot(cosine, sqrt2Half))
  {
    hide Norm, Pow2, Times, Mul;
    NormOne();
    forall p: nat, i: int
      ensures Norm(Rot(cosine, sqrt2Half)(p, i)) == 1.0
    {
      if p >= 1 && 1 <= i < Pow2(p - 1) { assert CosineLaw(cosine, p, i); }
    }
  }

  lemma NormOne()
    ensures Norm(ONE) == 1.0
  {
    assert Times(1.0, 1.0) == 1.0 && Times(0.0, 0.0) == 0.0;
    hide Times;
  }

  // ----- the passes in place -----

  /** The turn of the inner loop that stores cell j of a block: 0 for the four special cells. */
  function UpTurn(h: nat, j: int): int {
    if j == h || j == 3 * h then 0
    else if j <= h then j else if j <= 2 * h then 2 * h - j else if j <= 3 * h then j - 2 * h else 4 * h - j
  }

  function DownTurn(h: nat, j: int): int {
    if j < h then j else if j < 2 * h then j - h else if j < 3 * h then j - 2 * h else j - 3 * h
  }

  ghost predicate UpDone(u: seq<real>, ci: nat, a: int -> C, h: nat, s: seq<real>, i: int)
    requires |s| == 4 * h && ci + 4 * h <= |u|
  {
    forall j :: 0 <= j < 4 * h && UpTurn(h, j) < i ==> u[ci + j] == UpCell(a, h, s, j)
  }

  ghost predicate DownDone(u: seq<real>, ci: nat, a: int -> C, h: nat, s: seq<real>, i: int)
    requires |s| == 4 * h && ci + 4 * h <= |u|
  {
    forall j :: 0 <= j < 4 * h && DownTurn(h, j) < i ==> u[ci + j] == DownCell(a, h, s, j)
  }

  /** Four cells of a block are stored. */
  method StoreFour(df: array<real>, ci: nat, n: nat, j1: nat, j2: nat, j3: nat, j4: nat, v1: real, v2: real, v3: real, v4: real)
    requires ci + n <= df.Length && j1 < n && j2 < n && j3 < n && j4 < n
    requires j1 != j2 && j1 != j3 && j1 != j4 && j2 != j3 && j2 != j4 && j3 != j4
    modifies df
    ensures df[ci + j1] == v1 && df[ci + j2] == v2 && df[ci + j3] == v3 && df[ci + j4] == v4
    ensures forall k :: 0 <= k < df.Length && k != ci + j1 && k != ci + j2 && k != ci + j3 && k != ci + j4 ==> df[k] == old(df[k])
    ensures Framed(old(df[..]), df[..], ci, n)
  {
    df[ci + j1] := v1;
    df[ci + j2] := v2;
    df[ci + j3] := v3;
    df[ci + j4] := v4;
  }

  lemma SliceCell(sf: array<real>, ci: nat, n: nat, j: nat)
    requires ci + n <= sf.Length && j < n
    ensures sf[ci..ci + n][j] == sf[ci + j]
  {}

  /** One turn of the inner loop (FFTReal.cc:196-209). */
  method UpFour(sf: array<real>, df: array<real>, ci: nat, h: nat, i: nat, c: real, sn: real, ghost a: int -> C, ghost was: seq<real>)
    requires sf != df && ci + 4 * h <= sf.Length == df.Length && 0 < i < h && a(i) == C(c, sn)
    requires UpDone(df[..], ci, a, h, sf[ci..ci + 4 * h], i) && Framed(was, df[..], ci, 4 * h)
    modifies df
    ensures UpDone(df[..], ci, a, h, sf[ci..ci + 4 * h], i + 1) && Framed(was, df[..], ci, 4 * h)
  {
    hide UpCell, Times, UpDone;
    var n := 2 * h;
    ghost var s, u := sf[ci..ci + 4 * h], df[..];
    UpCells(a, h, s, i);
    SliceCell(sf, ci, 4 * h, i);
    SliceCell(sf, ci, 4 * h, h + i);
    SliceCell(sf, ci, 4 * h, 2 * h + i);
    SliceCell(sf, ci, 4 * h, 3 * h + i);
    var v := Times(sf[ci + n + i], c) - Times(sf[ci + n + h + i], sn);
    var w := Times(sf[ci + n + i], sn) + Times(sf[ci + n + h + i], c);
    StoreFour(df, ci, 4 * h, i, n - i, n + i, 2 * n - i, sf[ci + i] + v, sf[ci + i] - v, w + sf[ci + h + i], w - sf[ci + h + i]);
    UpTurnDone(u, df[..], ci, a, h, s, i);
  }

  /** The four special cells of a block (FFTReal.cc:187-191). */
  method UpEnds(sf: array<real>, df: array<real>, ci: nat, h: nat, ghost a: int -> C)
    requires sf != df && ci + 4 * h <= sf.Length == df.Length && h >= 1
    modifies df
    ensures UpDone(df[..], ci, a, h, sf[ci..ci + 4 * h], 1) && Framed(old(df[..]), df[..], ci, 4 * h)
  {
    hide UpCell;
    var n := 2 * h;
    ghost var s := sf[ci..ci + 4 * h];
    Ends(a, h, s);
    SliceCell(sf, ci, 4 * h, h);
    SliceCell(sf, ci, 4 * h, 2 * h);
    SliceCell(sf, ci, 4 * h, 3 * h);
    StoreFour(df, ci, 4 * h, 0, n, h, n + h, sf[ci] + sf[ci + n], sf[ci] - sf[ci + n], sf[ci + h], sf[ci + n + h]);
  }

  /** One block of a pass of do_fft; cosine and sine are read from the table (FFTReal.cc:181-209). */
  method UpBlock(sf: array<real>, df: array<real>, ci: nat, h: nat, table: seq<real>, at: int, ghost a: int -> C)
    requires sf != df && ci + 4 * h <= sf.Length == df.Length && h >= 1
    requires 0 <= at && at + h <= |table| && forall i :: 0 < i < h ==> a(i) == C(table[at + i], table[at + (h - i)])
    modifies df
    ensures UpDone(df[..], ci, a, h, sf[ci..ci + 4 * h], h)
    ensures Framed(old(df[..]), df[..], ci, 4 * h)
  {
    hide UpDone, Framed;
    UpEnds(sf, df, ci, h, a);
    for i := 1 to h
      invariant sf[ci..ci + 4 * h] == old(sf[ci..ci + 4 * h])
      invariant UpDone(df[..], ci, a, h, sf[ci..ci + 4 * h], i) && Framed(old(df[..]), df[..], ci, 4 * h)
    {
      UpFour(sf, df, ci, h, i, table[at + i], table[at + (h - i)], a, old(df[..]));
    }
  }

  lemma UpTurnDone(u: seq<real>, v: seq<real>, ci: nat, a: int -> C, h: nat, s: seq<real>, i: nat)
    requires |s| == 4 * h && ci + 4 * h <= |u| == |v| && 0 < i < h && UpDone(u, ci, a, h, s, i)
    requires forall k :: 0 <= k < |v| && k != ci + i && k != ci + (2 * h - i) && k != ci + (2 * h + i) && k != ci + (4 * h - i) ==> v[k] == u[k]
    requires v[ci + i] == UpCell(a, h, s, i) && v[ci + (2 * h - i)] == UpCell(a, h, s, 2 * h - i)
    requires v[ci + (2 * h + i)] == UpCell(a, h, s, 2 * h + i) && v[ci + (4 * h - i)] == UpCell(a, h, s, 4 * h - i)
    ensures UpDone(v, ci, a, h, s, i + 1)
  {
    hide UpCell;
  }

  /** One turn of the inner loop (FFTReal.cc:334-346). */
  method DownFour(sf: array<real>, df: array<real>, ci: nat, h: nat, i: nat, c: real, sn: real, ghost a: int -> C, ghost was: seq<real>)
    requires sf != df && ci + 4 * h <= sf.Length == df.Length && 0 < i < h && a(i) == C(c, sn)
    requires DownDone(df[..], ci, a, h, sf[ci..ci + 4 * h], i) && Framed(was, df[..], ci, 4 * h)
    modifies df
    ensures DownDone(df[..], ci, a, h, sf[ci..ci + 4 * h], i + 1) && Framed(was, df[..], ci, 4 * h)
  {
    hide DownCell, Times, DownDone;
    var n := 2 * h;
    ghost var s, u := sf[ci..ci + 4 * h], df[..];
    DownCells(a, h, s, i);
    SliceCell(sf, ci, 4 * h, i);
    SliceCell(sf, ci, 4 * h, 2 * h - i);
    SliceCell(sf, ci, 4 * h, 2 * h + i);
    SliceCell(sf, ci, 4 * h, 4 * h - i);
    var vr := sf[ci + i] - sf[ci + (n - i)];
    var vi := sf[ci + (n + i)] + sf[ci + (2 * n - i)];
    StoreFour(df, ci, 4 * h, i, h + i, n + i, n + h + i, sf[ci + i] + sf[ci + (n - i)], sf[ci + (n + i)] - sf[ci + (2 * n - i)],
              Times(vr, c) + Times(vi, sn), Times(vi, c) - Times(vr, sn));
    DownTurnDone(u, df[..], ci, a, h, s, i);
  }

  method DownEnds(sf: array<real>, df: array<real>, ci: nat, h: nat, ghost a: int -> C)
    requires sf != df && ci + 4 * h <= sf.Length == df.Length && h >= 1
    modifies df
    ensures DownDone(df[..], ci, a, h, sf[ci..ci + 4 * h], 1) && Framed(old(df[..]), df[..], ci, 4 * h)
  {
    hide DownCell;
    var n := 2 * h;
    ghost var s := sf[ci..ci + 4 * h];
    Ends(a, h, s);
    SliceCell(sf, ci, 4 * h, h);
    SliceCell(sf, ci, 4 * h, 2 * h);
    SliceCell(sf, ci, 4 * h, 3 * h);
    StoreFour(df, ci, 4 * h, 0, n, h, n + h, sf[ci] + sf[ci + n], sf[ci] - sf[ci + n], sf[ci + h] * 2.0, sf[ci + n + h] * 2.0);
  }

  /** One block of a pass of do_ifft (FFTReal.cc:319-346). */
  method DownBlock(sf: array<real>, df: array<real>, ci: nat, h: nat, table: seq<real>, at: int, ghost a: int -> C)
    requires sf != df && ci + 4 * h <= sf.Length == df.Length && h >= 1
    requires 0 <= at && at + h <= |table| && forall i :: 0 < i < h ==> a(i) == C(table[at + i], table[at + (h - i)])
    modifies df
    ensures DownDone(df[..], ci, a, h, sf[ci..ci + 4 * h], h)
    ensures Framed(old(df[..]), df[..], ci, 4 * h)
  {
    hide DownDone, Framed;
    DownEnds(sf, df, ci, h, a);
    for i := 1 to h
      invariant sf[ci..ci + 4 * h] == old(sf[ci..ci + 4 * h])
      invariant DownDone(df[..], ci, a, h, sf[ci..ci + 4 * h], i) && Framed(old(df[..]), df[..], ci, 4 * h)
    {
      DownFour(sf, df, ci, h, i, table[at + i], table[at + (h - i)], a, old(df[..]));
    }
  }

  lemma DownTurnDone(u: seq<real>, v: seq<real>, ci: nat, a: int -> C, h: nat, s: seq<real>, i: nat)
    requires |s| == 4 * h && ci + 4 * h <= |u| == |v| && 0 < i < h && DownDone(u, ci, a, h, s, i)
    requires forall k :: 0 <= k < |v| && k != ci + i && k != ci + (h + i) && k != ci + (2 * h + i) && k != ci + (3 * h + i) ==> v[k] == u[k]
    requires v[ci + i] == DownCell(a, h, s, i) && v[ci + (h + i)] == DownCell(a, h, s, h + i)
    requires v[ci + (2 * h + i)] == DownCell(a, h, s, 2 * h + i) && v[ci + (3 * h + i)] == DownCell(a, h, s, 3 * h + i)
    ensures DownDone(v, ci, a, h, s, i + 1)
  {
    hide DownCell;
  }

  lemma UpBlockDone(u: seq<real>, ci: nat, a: int -> C, h: nat, s: seq<real>, j: nat)
    requires h >= 1 && |s| % (4 * h) == 0 && ci % (4 * h) == 0 && ci + 4 * h <= |s| == |u| && j < 4 * h
    requires UpDone(u, ci, a, h, s[ci..ci + 4 * h], h)
    ensures u[ci + j] == Up(a, h, s)[ci + j]
  {
    hide UpCell, DownCell, BlockAt, Up, Down;
    assert UpTurn(h, j) < h;
    hide UpTurn;
    BlockIndex(s, 4 * h, ci, j);
    BlockIs(s, 4 * h, ci);
    UpIndex(a, h, s, ci + j);
  }

  lemma DownBlockDone(u: seq<real>, ci: nat, a: int -> C, h: nat, s: seq<real>, j: nat)
    requires h >= 1 && |s| % (4 * h) == 0 && ci % (4 * h) == 0 && ci + 4 * h <= |s| == |u| && j < 4 * h
    requires DownDone(u, ci, a, h, s[ci..ci + 4 * h], h)
    ensures u[ci + j] == Down(a, h, s)[ci + j]
  {
    hide UpCell, DownCell, BlockAt, Up, Down;
    assert DownTurn(h, j) < h;
    hide DownTurn;
    BlockIndex(s, 4 * h, ci, j);
    BlockIs(s, 4 * h, ci);
    UpIndex(a, h, s, ci + j);
  }

  lemma BlockIs(s: seq<real>, w: nat, ci: nat)
    requires w > 0 && |s| % w == 0 && ci % w == 0 && ci + w <= |s|
    ensures BlockAt(s, w, ci) == s[ci..ci + w]
  {}

  lemma NextBlock(n: nat, w: nat, ci: nat)
    requires w > 0 && n % w == 0 && ci % w == 0 && ci < n
    ensures ci + w <= n && (ci + w) % w == 0
  {
    BlockBound(n, w, ci);
    DivMod(ci, w);
    DivModUnique(ci + w, w, ci / w + 1, 0);
  }

  /** Cells before ci are those of r. */
  ghost predicate Before(u: seq<real>, r: seq<real>, ci: int) {
    |u| == |r| && forall k :: 0 <= k < ci && k < |u| ==> u[k] == r[k]
  }

  lemma BeforeGrows(was: seq<real>, now: seq<real>, r: seq<real>, ci: nat, w: nat)
    requires Before(was, r, ci) && Framed(was, now, ci, w)
    requires ci + w <= |now| && forall k :: ci <= k < ci + w ==> now[k] == r[k]
    ensures Before(now, r, ci + w)
  {
  }

  lemma BeforeAll(u: seq<real>, r: seq<real>, ci: int)
    requires Before(u, r, ci) && ci >= |u|
    ensures u == r
  {}

  /** One pass of do_fft (FFTReal.cc:174-213). */
  method UpPass(sf: array<real>, df: array<real>, h: nat, table: seq<real>, at: int, ghost a: int -> C)
    requires sf != df && sf.Length == df.Length && h >= 1 && sf.Length % (4 * h) == 0
    requires 0 <= at && at + h <= |table| && forall i :: 0 < i < h ==> a(i) == C(table[at + i], table[at + (h - i)])
    modifies df
    ensures df[..] == Up(a, h, sf[..])
  {
    hide Up, UpDone, Framed, Before;
    ghost var s := sf[..];
    var coefIndex := 0;
    BeforeNothing(df[..], Up(a, h, s));
    while coefIndex < sf.Length
      invariant coefIndex <= sf.Length && coefIndex % (4 * h) == 0 && sf[..] == s
      invariant Before(df[..], Up(a, h, s), coefIndex)
    {
      NextBlock(sf.Length, 4 * h, coefIndex);
      ghost var was := df[..];
      UpBlock(sf, df, coefIndex, h, table, at, a);
      assert sf[coefIndex..coefIndex + 4 * h] == s[coefIndex..coefIndex + 4 * h];
      forall k | coefIndex <= k < coefIndex + 4 * h
        ensures df[..][k] == Up(a, h, s)[k]
      {
        UpBlockDone(df[..], coefIndex, a, h, s, k - coefIndex);
      }
      BeforeGrows(was, df[..], Up(a, h, s), coefIndex, 4 * h);
      coefIndex := coefIndex + 4 * h;
    }
    BeforeAll(df[..], Up(a, h, s), coefIndex);
  }

  lemma BeforeNothing(u: seq<real>, r: seq<real>)
    requires |u| == |r|
    ensures Before(u, r, 0)
  {}

  /** One pass of do_ifft (FFTReal.cc:312-350). */
  method DownPass(sf: array<real>, df: array<real>, h: nat, table: seq<real>, at: int, ghost a: int -> C)
    requires sf != df && sf.Length == df.Length && h >= 1 && sf.Length % (4 * h) == 0
    requires 0 <= at && at + h <= |table| && forall i :: 0 < i < h ==> a(i) == C(table[at + i], table[at + (h - i)])
    modifies df
    ensures df[..] == Down(a, h, sf[..])
  {
    hide Down, DownDone, Framed, Before;
    ghost var s := sf[..];
    var coefIndex := 0;
    BeforeNothing(df[..], Down(a, h, s));
    while coefIndex < sf.Length
      invariant coefIndex <= sf.Length && coefIndex % (4 * h) == 0 && sf[..] == s
      invariant Before(df[..], Down(a, h, s), coefIndex)
    {
      NextBlock(sf.Length, 4 * h, coefIndex);
      ghost var was := df[..];
      DownBlock(sf, df, coefIndex, h, table, at, a);
      assert sf[coefIndex..coefIndex + 4 * h] == s[coefIndex..coefIndex + 4 * h];
      forall k | coefIndex <= k < coefIndex + 4 * h
        ensures df[..][k] == Down(a, h, s)[k]
      {
        DownBlockDone(df[..], coefIndex, a, h, s, k - coefIndex);
      }
      BeforeGrows(was, df[..], Down(a, h, s), coefIndex, 4 * h);
      coefIndex := coefIndex + 4 * h;
    }
    BeforeAll(df[..], Down(a, h, s), coefIndex);
  }

  lemma EighthTurn(sq: real, x: real, y: real)
    ensures Turned(C(sq, sq), x, y) == Times(x - y, sq)
    ensures TurnedSide(C(sq, sq), x, y) == Times(x + y, sq)
    ensures Times(x, sq) + Times(y, sq) == Times(x + y, sq)
    ensures Times(y, sq) - Times(x, sq) == Times(y - x, sq)
  {}

  /** A block of the third pass (FFTReal.cc:151-164). */
  method ThirdBlock(df: array<real>, sf: array<real>, ci: nat, sqrt2Half: real, ghost a: int -> C)
    requires sf != df && ci + 8 <= sf.Length == df.Length && a(1) == C(sqrt2Half, sqrt2Half)
    modifies sf
    ensures UpDone(sf[..], ci, a, 2, df[ci..ci + 8], 2)
    ensures Framed(old(sf[..]), sf[..], ci, 8)
  {
    hide UpCell, Times, UpDone, Turned, TurnedSide;
    UpEnds(df, sf, ci, 2, a);
    ghost var s, u := df[ci..ci + 8], sf[..];
    UpCells(a, 2, s, 1);
    SliceCell(df, ci, 8, 1);
    SliceCell(df, ci, 8, 3);
    SliceCell(df, ci, 8, 5);
    SliceCell(df, ci, 8, 7);
    EighthTurn(sqrt2Half, s[5], s[7]);
    var v := Times(df[ci + 5] - df[ci + 7], sqrt2Half);
    var w := Times(df[ci + 5] + df[ci + 7], sqrt2Half);
    StoreFour(sf, ci, 8, 1, 3, 5, 7, df[ci + 1] + v, df[ci + 1] - v, w + df[ci + 3], w - df[ci + 3]);
    UpTurnDone(u, sf[..], ci, a, 2, s, 1);
  }

  /** A block of the antepenultimate pass (FFTReal.cc:372-384). */
  method AntepenultimateBlock(sf: array<real>, df: array<real>, ci: nat, sqrt2Half: real, ghost a: int -> C)
    requires sf != df && ci + 8 <= sf.Length == df.Length && a(1) == C(sqrt2Half, sqrt2Half)
    modifies df
    ensures DownDone(df[..], ci, a, 2, sf[ci..ci + 8], 2)
    ensures Framed(old(df[..]), df[..], ci, 8)
  {
    hide DownCell, Times, DownDone;
    DownEnds(sf, df, ci, 2, a);
    ghost var s, u := sf[ci..ci + 8], df[..];
    DownCells(a, 2, s, 1);
    SliceCell(sf, ci, 8, 1);
    SliceCell(sf, ci, 8, 3);
    SliceCell(sf, ci, 8, 5);
    SliceCell(sf, ci, 8, 7);
    var vr := sf[ci + 1] - sf[ci + 3];
    var vi := sf[ci + 5] + sf[ci + 7];
    EighthTurn(sqrt2Half, vr, vi);
    StoreFour(df, ci, 8, 1, 3, 5, 7, sf[ci + 1] + sf[ci + 3], sf[ci + 5] - sf[ci + 7], Times(vr + vi, sqrt2Half), Times(vi - vr, sqrt2Half));
    DownTurnDone(u, df[..], ci, a, 2, s, 1);
  }

  /** FFTReal.cc:145-169 */
  method ThirdPass(df: array<real>, sf: array<real>, sqrt2Half: real, ghost a: int -> C)
    requires sf != df && sf.Length == df.Length && sf.Length % 8 == 0 && a(1) == C(sqrt2Half, sqrt2Half)
    modifies sf
    ensures sf[..] == Up(a, 2, df[..])
  {
    hide Up, UpDone, Framed, Before;
    ghost var s := df[..];
    var coefIndex := 0;
    BeforeNothing(sf[..], Up(a, 2, s));
    while coefIndex < sf.Length
      invariant coefIndex <= sf.Length && coefIndex % 8 == 0 && df[..] == s
      invariant Before(sf[..], Up(a, 2, s), coefIndex)
    {
      ghost var was := sf[..];
      ThirdBlock(df, sf, coefIndex, sqrt2Half, a);
      assert df[coefIndex..coefIndex + 8] == s[coefIndex..coefIndex + 8];
      forall k | coefIndex <= k < coefIndex + 8
        ensures sf[..][k] == Up(a, 2, s)[k]
      {
        UpBlockDone(sf[..], coefIndex, a, 2, s, k - coefIndex);
      }
      BeforeGrows(was, sf[..], Up(a, 2, s), coefIndex, 8);
      coefIndex := coefIndex + 8;
    }
    BeforeAll(sf[..], Up(a, 2, s), coefIndex);
  }

  /** FFTReal.cc:366-389 */
  method AntepenultimatePass(sf: array<real>, df: array<real>, sqrt2Half: real, ghost a: int -> C)
    requires sf != df && sf.Length == df.Length && sf.Length % 8 == 0 && a(1) == C(sqrt2Half, sqrt2Half)
    modifies df
    ensures df[..] == Down(a, 2, sf[..])
  {
    hide Down, DownDone, Framed, Before;
    ghost var s := sf[..];
    var coefIndex := 0;
    BeforeNothing(df[..], Down(a, 2, s));
    while coefIndex < sf.Length
      invariant coefIndex <= sf.Length && coefIndex % 8 == 0 && sf[..] == s
      invariant Before(df[..], Down(a, 2, s), coefIndex)
    {
      ghost var was := df[..];
      AntepenultimateBlock(sf, df, coefIndex, sqrt2Half, a);
      assert sf[coefIndex..coefIndex + 8] == s[coefIndex..coefIndex + 8];
      forall k | coefIndex <= k < coefIndex + 8
        ensures df[..][k] == Down(a, 2, s)[k]
      {
        DownBlockDone(df[..], coefIndex, a, 2, s, k - coefIndex);
      }
      BeforeGrows(was, df[..], Down(a, 2, s), coefIndex, 8);
      coefIndex := coefIndex + 8;
    }
    BeforeAll(df[..], Down(a, 2, s), coefIndex);
  }

  ghost predicate IsReversal(lut: seq<nat>, bits: nat) {
    |lut| == Pow2(bits) && forall i :: 0 <= i < |lut| ==> lut[i] == Reverse(bits, i) < Pow2(bits)
  }

  lemma FirstBlock(x: seq<real>, bits: nat, ci: nat, j: nat)
    requires bits >= 2 && |x| == Pow2(bits) && ci % 4 == 0 && ci + 4 <= |x| && j < 4
    ensures First(x, bits)[ci + j] == FirstCell(Shuffled(x, bits)[ci..ci + 4], j)
  {
    hide Pow2, FirstCell, BlockAt, First, Shuffled;
    Pow2Four(bits);
    BlockIndex(Shuffled(x, bits), 4, ci, j);
    BlockIs(Shuffled(x, bits), 4, ci);
    FirstIndex(x, bits, ci + j);
  }

  lemma FirstIndex(x: seq<real>, bits: nat, k: nat)
    requires bits >= 2 && |x| == Pow2(bits) && k < |x|
    ensures |x| % 4 == 0 && First(x, bits)[k] == FirstCell(BlockAt(Shuffled(x, bits), 4, k), k % 4)
  {
    Pow2Four(bits);
    hide FirstCell, BlockAt, Shuffled, Pow2;
  }

  /** First and second pass at once (FFTReal.cc:119-143). */
  method FirstPasses(x: array<real>, df: array<real>, bits: nat, lut: seq<nat>)
    requires x != df && bits >= 2 && x.Length == df.Length == Pow2(bits) && IsReversal(lut, bits)
    modifies df
    ensures df[..] == First(x[..], bits)
  {
    hide First, Before, Framed, Pow2, Reverse, FirstCell;
    Pow2Four(bits);
    ghost var s := x[..];
    ghost var r := First(s, bits);
    var coefIndex := 0;
    BeforeNothing(df[..], r);
    while coefIndex < df.Length
      invariant coefIndex <= df.Length && coefIndex % 4 == 0 && x[..] == s
      invariant Before(df[..], r, coefIndex)
    {
      ghost var was := df[..];
      FirstFour(x, df, bits, lut, coefIndex);
      BeforeGrows(was, df[..], r, coefIndex, 4);
      coefIndex := coefIndex + 4;
    }
    BeforeAll(df[..], r, coefIndex);
  }

  method FirstFour(x: array<real>, df: array<real>, bits: nat, lut: seq<nat>, ci: nat)
    requires x != df && bits >= 2 && x.Length == df.Length == Pow2(bits) && IsReversal(lut, bits)
    requires ci % 4 == 0 && ci + 4 <= df.Length
    modifies df
    ensures forall k :: ci <= k < ci + 4 ==> df[k] == First(x[..], bits)[k]
    ensures Framed(old(df[..]), df[..], ci, 4)
  {
    hide Pow2, Reverse, First, IsReversal, Framed;
    FirstCells(x[..], bits, lut, ci);
    var (r0, r1, r2, r3) := (lut[ci], lut[ci + 1], lut[ci + 2], lut[ci + 3]);
    var sf0, sf2 := x[r0] + x[r1], x[r2] + x[r3];
    StoreFour(df, ci, 4, 1, 3, 0, 2, x[r0] - x[r1], x[r2] - x[r3], sf0 + sf2, sf0 - sf2);
  }

  lemma FirstCells(x: seq<real>, bits: nat, lut: seq<nat>, ci: nat)
    requires bits >= 2 && |x| == Pow2(bits) && IsReversal(lut, bits) && ci % 4 == 0 && ci + 4 <= |x|
    ensures lut[ci] < |x| && lut[ci + 1] < |x| && lut[ci + 2] < |x| && lut[ci + 3] < |x| && |lut| == |x|
    ensures var (r, b0, b1, b2, b3) := (First(x, bits), x[lut[ci]], x[lut[ci + 1]], x[lut[ci + 2]], x[lut[ci + 3]]);
            && r[ci] == b0 + b1 + (b2 + b3) && r[ci + 1] == b0 - b1
            && r[ci + 2] == b0 + b1 - (b2 + b3) && r[ci + 3] == b2 - b3
  {
    hide Pow2, Reverse, First, FirstCell, Shuffled;
    FirstBlock(x, bits, ci, 0);
    FirstBlock(x, bits, ci, 1);
    FirstBlock(x, bits, ci, 2);
    FirstBlock(x, bits, ci, 3);
    ShuffledFour(x, bits, lut, ci);
    FirstCellValues(Shuffled(x, bits)[ci..ci + 4]);
  }

  lemma ShuffledAt(x: seq<real>, bits: nat, lut: seq<nat>, i: nat)
    requires |x| == Pow2(bits) && IsReversal(lut, bits) && i < |x|
    ensures |lut| == |x| && lut[i] < |x| && Shuffled(x, bits)[i] == x[lut[i]]
  {
    hide Pow2, Reverse;
  }

  lemma ShuffledFour(x: seq<real>, bits: nat, lut: seq<nat>, ci: nat)
    requires |x| == Pow2(bits) && IsReversal(lut, bits) && ci + 4 <= |x|
    ensures |lut| == |x| && lut[ci] < |x| && lut[ci + 1] < |x| && lut[ci + 2] < |x| && lut[ci + 3] < |x|
    ensures var b := Shuffled(x, bits)[ci..ci + 4];
            b[0] == x[lut[ci]] && b[1] == x[lut[ci + 1]] && b[2] == x[lut[ci + 2]] && b[3] == x[lut[ci + 3]]
  {
    hide Pow2, Reverse, Shuffled;
    ShuffledAt(x, bits, lut, ci);
    ShuffledAt(x, bits, lut, ci + 1);
    ShuffledAt(x, bits, lut, ci + 2);
    ShuffledAt(x, bits, lut, ci + 3);
    hide IsReversal;
  }

  lemma FirstCellValues(b: seq<real>)
    requires |b| == 4
    ensures FirstCell(b, 0) == b[0] + b[1] + (b[2] + b[3]) && FirstCell(b, 1) == b[0] - b[1]
    ensures FirstCell(b, 2) == b[0] + b[1] - (b[2] + b[3]) && FirstCell(b, 3) == b[2] - b[3]
  {}

  /** The cells of x that come from the cells of s before ci are in place. */
  ghost predicate Scattered(u: seq<real>, s: seq<real>, bits: nat, ci: nat)
    requires bits >= 2 && |u| == |s| == Pow2(bits)
  {
    forall m :: 0 <= m < |u| && Reverse(bits, m) < ci ==> u[m] == Last(s, bits)[m]
  }

  lemma LastBlock(s: seq<real>, bits: nat, ci: nat, j: nat)
    requires bits >= 2 && |s| == Pow2(bits) && ci % 4 == 0 && ci + 4 <= |s| && j < 4
    ensures Reverse(bits, ci + j) < |s| && Last(s, bits)[Reverse(bits, ci + j)] == LastCell(s[ci..ci + 4], j)
  {
    hide Pow2, LastCell, BlockAt, Reverse, Last;
    ReverseBound(bits, ci + j);
    ReverseInvolution(bits, ci + j);
    Pow2Four(bits);
    BlockIndex(s, 4, ci, j);
    BlockIs(s, 4, ci);
    LastIndex(s, bits, Reverse(bits, ci + j));
  }

  lemma LastIndex(s: seq<real>, bits: nat, m: nat)
    requires bits >= 2 && |s| == Pow2(bits) && m < |s| && Reverse(bits, m) < |s|
    ensures |s| % 4 == 0 && Last(s, bits)[m] == LastCell(BlockAt(s, 4, Reverse(bits, m)), Reverse(bits, m) % 4)
  {
    Pow2Four(bits);
    hide LastCell, BlockAt, Reverse, Pow2;
  }

  /** Half of a turn of the last loop (FFTReal.cc:398-408): four cells go to their places. */
  method LastFour(df: array<real>, x: array<real>, bits: nat, lut: seq<nat>, ci: nat)
    requires x != df && bits >= 2 && x.Length == df.Length == Pow2(bits) && IsReversal(lut, bits)
    requires ci % 4 == 0 && ci + 4 <= df.Length && Scattered(x[..], df[..], bits, ci)
    modifies x
    ensures Scattered(x[..], df[..], bits, ci + 4)
  {
    hide Pow2, Reverse, Last;
    ghost var s, u := df[..], x[..];
    var b0, b2, b1, b3 := df[ci] + df[ci + 2], df[ci] - df[ci + 2], df[ci + 1] * 2.0, df[ci + 3] * 2.0;
    ghost var b := s[ci..ci + 4];
    assert b[0] == df[ci] && b[1] == df[ci + 1] && b[2] == df[ci + 2] && b[3] == df[ci + 3];
    LastBlock(s, bits, ci, 0);
    LastBlock(s, bits, ci, 1);
    LastBlock(s, bits, ci, 2);
    LastBlock(s, bits, ci, 3);
    DistinctFour(bits, ci);
    x[lut[ci]] := b0 + b1;
    x[lut[ci + 1]] := b0 - b1;
    x[lut[ci + 2]] := b2 + b3;
    x[lut[ci + 3]] := b2 - b3;
    forall m | 0 <= m < x.Length && Reverse(bits, m) < ci + 4
      ensures x[..][m] == Last(s, bits)[m]
    {
      ReverseInvolution(bits, m);
    }
  }

  lemma DistinctFour(bits: nat, ci: nat)
    requires ci + 4 <= Pow2(bits)
    ensures var (a, b, c, d) := (Reverse(bits, ci), Reverse(bits, ci + 1), Reverse(bits, ci + 2), Reverse(bits, ci + 3));
            a != b && a != c && a != d && b != c && b != d && c != d
  {
    ReverseInvolution(bits, ci);
    ReverseInvolution(bits, ci + 1);
    ReverseInvolution(bits, ci + 2);
    ReverseInvolution(bits, ci + 3);
    hide Reverse;
  }

  /** Penultimate and last pass at once (FFTReal.cc:391-426). */
  method LastPasses(df: array<real>, x: array<real>, bits: nat, lut: seq<nat>)
    requires x != df && bits >= 3 && x.Length == df.Length == Pow2(bits) && IsReversal(lut, bits)
    modifies x
    ensures x[..] == Last(df[..], bits)
  {
    hide Pow2, Scattered, Last, IsReversal, Reverse;
    LengthEight(bits);
    ghost var s := df[..];
    ScatteredNothing(x[..], s, bits);
    var coefIndex := 0;
    while coefIndex < df.Length
      invariant coefIndex <= df.Length && coefIndex % 8 == 0 && df[..] == s
      invariant Scattered(x[..], s, bits, coefIndex)
    {
      NextBlock(df.Length, 8, coefIndex);
      Fours(coefIndex);
      LastFour(df, x, bits, lut, coefIndex);
      LastFour(df, x, bits, lut, coefIndex + 4);
      coefIndex := coefIndex + 8;
    }
    ScatteredAll(x[..], s, bits);
  }

  lemma Fours(ci: nat)
    requires ci % 8 == 0
    ensures ci % 4 == 0 && (ci + 4) % 4 == 0
  {
    DivModUnique(ci, 4, 2 * (ci / 8), 0);
    DivModUnique(ci + 4, 4, 2 * (ci / 8) + 1, 0);
  }

  lemma LengthEight(bits: nat)
    requires bits >= 3
    ensures Pow2(bits) % 8 == 0 && Pow2(bits) % 4 == 0
  {
    assert Pow2(0) == 1 && Pow2(1) == 2 && Pow2(2) == 4 && Pow2(3) == 8;
    PowerDivides(3, bits);
  }

  lemma ScatteredNothing(u: seq<real>, s: seq<real>, bits: nat)
    requires bits >= 2 && |u| == |s| == Pow2(bits)
    ensures Scattered(u, s, bits, 0)
  {}

  lemma ScatteredAll(u: seq<real>, s: seq<real>, bits: nat)
    requires bits >= 2 && |u| == |s| == Pow2(bits) && Scattered(u, s, bits, |u|)
    ensures u == Last(s, bits)
  {
    hide Last, Reverse, Pow2;
    forall m | 0 <= m < |u|
      ensures u[m] == Last(s, bits)[m]
    {
      ReverseBound(bits, m);
    }
  }

  // ----- the transform object -----

  lemma TableRotations(table: seq<real>, bits: nat, cosine: (nat, int) -> real, sqrt2Half: real, p: nat)
    requires 3 <= p < bits && IsTable(table, bits, cosine)
    ensures var (at, h, a) := (LevelAt(p), H(p), Pass(Rot(cosine, sqrt2Half), p));
            && h >= 1 && 0 <= at && at + h <= |table|
            && forall i :: 0 < i < h ==> a(i) == C(table[at + i], table[at + (h - i)])
  {
    assert LevelFilled(table, p, cosine);
    hide LevelAt, Pow2;
  }

  lemma EighthRotation(cosine: (nat, int) -> real, sqrt2Half: real)
    ensures H(2) == 2 && Pass(Rot(cosine, sqrt2Half), 2)(1) == C(sqrt2Half, sqrt2Half)
  {
    assert Pow2(0) == 1 && Pow2(1) == 2;
  }

  /** The case of four samples (FFTReal.cc:231-242). */
  method FftOfFour(f: array<real>, x: array<real>)
    requires f.Length == x.Length == 4 && f != x
    modifies f
    ensures f[..] == [x[0] + x[2] + (x[1] + x[3]), x[0] - x[2], x[0] + x[2] - (x[1] + x[3]), x[1] - x[3]]
  {
    hide *;
    f[1] := x[0] - x[2];
    f[3] := x[1] - x[3];
    var b0, b2 := x[0] + x[2], x[1] + x[3];
    f[0] := b0 + b2;
    f[2] := b0 - b2;
    assert f[..] == [f[0], f[1], f[2], f[3]];
  }

  /** The case of four coefficients (FFTReal.cc:436-446). */
  method IfftOfFour(f: array<real>, x: array<real>)
    requires f.Length == x.Length == 4 && f != x
    modifies x
    ensures x[..] == [f[0] + f[2] + f[1] * 2.0, f[0] - f[2] + f[3] * 2.0, f[0] + f[2] - f[1] * 2.0, f[0] - f[2] - f[3] * 2.0]
  {
    hide *;
    var b0, b2 := f[0] + f[2], f[0] - f[2];
    x[0] := b0 + f[1] * 2.0;
    x[2] := b0 - f[1] * 2.0;
    x[1] := b2 + f[3] * 2.0;
    x[3] := b2 - f[3] * 2.0;
    assert x[..] == [x[0], x[1], x[2], x[3]];
  }

  class Transform {
    const length: nat
    const nbrBits: nat
    const bitRevLut: seq<nat>
    const trigoLut: seq<real>
    const sqrt2Half: real
    const buffer: array<real>
    ghost const cosine: (nat, int) -> real

    /** FFTReal::FFTReal (FFTReal.cc:43-57). The number of bits is a parameter; the source computes
        it with logarithms. The buffer is empty where the source has none. */
    constructor (length: nat, bits: nat, cosine: (nat, int) -> real, sqrt2Half: real)
      requires length == Pow2(bits)
      ensures Valid() && this.length == length && this.nbrBits == bits && this.cosine == cosine && this.sqrt2Half == sqrt2Half
      ensures fresh(buffer)
    {
      var lut := BitReversedLut(bits);
      var table := TrigoLut(bits, cosine);
      this.length, this.nbrBits, this.bitRevLut, this.trigoLut, this.sqrt2Half := length, bits, lut[..], table[..], sqrt2Half;
      this.buffer := new real[if bits > 2 then length else 0];
      this.cosine := cosine;
      new;
      forall i | 0 <= i < |bitRevLut| ensures Reverse(bits, i) < Pow2(bits) { ReverseBound(bits, i); }
    }

    ghost predicate Valid() {
      && length == Pow2(nbrBits)
      && IsReversal(bitRevLut, nbrBits) && IsTable(trigoLut, nbrBits, cosine)
      && buffer.Length == if nbrBits > 2 then length else 0
    }

    ghost function Rotation(): Rotations { Rot(cosine, sqrt2Half) }

    /** FFTReal.cc:86-256 */
    method DoFft(f: array<real>, x: array<real>)
      requires Valid() && f.Length == x.Length == length && f != x && f != buffer && x != buffer
      modifies f, buffer
      ensures f[..] == Forward(Rotation(), x[..], nbrBits)
    {
      hide IsReversal, IsTable, First, Up, Pow2, Rot;
      if nbrBits > 2 {
        GeneralFft(f, x);
      } else {
        SmallFft(f, x);
      }
    }

    /** The general case: the passes go back and forth between f and the buffer, and the last one
        ends in f (FFTReal.cc:95-223). */
    method GeneralFft(f: array<real>, x: array<real>)
      requires Valid() && f.Length == x.Length == length && f != x && f != buffer && x != buffer && nbrBits > 2
      modifies f, buffer
      ensures f[..] == Level(Rotation(), x[..], nbrBits, nbrBits)
    {
      hide IsReversal, IsTable, First, Up, Pow2, Rot, Level, LevelAt, Pass, H;
      var df, sf := if nbrBits % 2 == 1 then buffer else f, if nbrBits % 2 == 1 then f else buffer;
      ghost var rot, in_ := Rotation(), x[..];
      LengthEight(nbrBits);
      FirstPasses(x, df, nbrBits, bitRevLut);
      EighthRotation(cosine, sqrt2Half);
      LevelBegins(rot, in_, nbrBits);
      LevelStep(rot, in_, nbrBits, in_, 2);
      ThirdPass(df, sf, sqrt2Half, Pass(rot, 2));
      NextPasses(sf, df, f, in_);
    }

    /** FFTReal.cc:171-221 */
    method NextPasses(sf0: array<real>, df0: array<real>, f: array<real>, ghost in_: seq<real>)
      requires Valid() && nbrBits > 2 && |in_| == length && sf0.Length == df0.Length == length && sf0 != df0
      requires sf0 == f || df0 == f
      requires sf0 == f <==> nbrBits % 2 == 1
      requires sf0[..] == Level(Rotation(), in_, nbrBits, 3)
      modifies sf0, df0
      ensures f[..] == Level(Rotation(), in_, nbrBits, nbrBits)
    {
      hide IsReversal, IsTable, Level, Pow2, Rot;
      var sf, df := sf0, df0;
      for pass := 3 to nbrBits
        invariant (sf == sf0 && df == df0) || (sf == df0 && df == sf0)
        invariant sf == f <==> (nbrBits - pass) % 2 == 0
        invariant sf[..] == Level(Rotation(), in_, nbrBits, pass)
      {
        NextPass(sf, df, pass, in_);
        df, sf := sf, df;
      }
    }

    /** FFTReal.cc:174-213 */
    method NextPass(sf: array<real>, df: array<real>, pass: nat, ghost in_: seq<real>)
      requires Valid() && 3 <= pass < nbrBits && |in_| == length && sf.Length == df.Length == length && sf != df
      requires sf[..] == Level(Rotation(), in_, nbrBits, pass)
      modifies df
      ensures df[..] == Level(Rotation(), in_, nbrBits, pass + 1)
    {
      hide IsReversal, IsTable, First, Up, Pow2, Rot, Level, LevelAt, Pass, H;
      LevelStep(Rotation(), in_, nbrBits, in_, pass);
      TableRotations(trigoLut, nbrBits, cosine, sqrt2Half, pass);
      UpPass(sf, df, H(pass), trigoLut, LevelAt(pass), Pass(Rotation(), pass));
    }

    /** The special cases (FFTReal.cc:231-255). */
    method SmallFft(f: array<real>, x: array<real>)
      requires Valid() && f.Length == x.Length == length && f != x && nbrBits <= 2
      modifies f
      ensures f[..] == Forward(Rotation(), x[..], nbrBits)
    {
      hide *;
      LengthIs();
      SmallLengths();
      ForwardSmall(Rotation(), x[..], nbrBits);
      if nbrBits == 2 {
        FftOfFour(f, x);
      } else if nbrBits == 1 {
        f[0] := x[0] + x[1];
        f[1] := x[0] - x[1];
        assert f[..] == [f[0], f[1]];
      } else {
        f[0] := x[0];
        assert f[..] == [f[0]];
      }
    }

    /** FFTReal.cc:275-460: f is only read. */
    method DoIfft(f: array<real>, x: array<real>)
      requires Valid() && f.Length == x.Length == length && f != x && f != buffer && x != buffer
      modifies x, buffer
      ensures x[..] == Inverse(Rotation(), f[..], nbrBits)
    {
      hide IsReversal, IsTable, Last, Down, Pow2, Rot;
      if nbrBits > 2 {
        GeneralIfft(f, x);
      } else {
        SmallIfft(f, x);
      }
    }

    /** The general case: the first pass reads f; the passes then go back and forth between the
        buffer and x, and the last one, which scatters into x, reads the buffer
        (FFTReal.cc:285-428). */
    method GeneralIfft(f: array<real>, x: array<real>)
      requires Valid() && f.Length == x.Length == length && f != x && f != buffer && x != buffer && nbrBits > 2
      modifies x, buffer
      ensures x[..] == Last(Back(Rotation(), f[..], nbrBits, 2), nbrBits)
    {
      hide IsReversal, IsTable, Last, Down, Pow2, Rot, Back, LevelAt, Pass, H;
      var sf := f;
      var df, dfTemp := if nbrBits % 2 == 1 then buffer else x, if nbrBits % 2 == 1 then x else buffer;
      ghost var rot, in_ := Rotation(), f[..];
      BackBegins(rot, in_, nbrBits);
      LengthEight(nbrBits);
      var pass := nbrBits - 1;
      while pass >= 3
        invariant 2 <= pass <= nbrBits - 1 && f[..] == in_
        invariant df == if pass % 2 == 0 then buffer else x
        invariant dfTemp == if (nbrBits - 1) % 2 == 0 then x else buffer
        invariant sf == if pass == nbrBits - 1 then f else if pass % 2 == 0 then x else buffer
        invariant sf[..] == Back(rot, in_, nbrBits, pass + 1)
      {
        PreviousPass(sf, df, pass, in_);
        if pass < nbrBits - 1 {
          df, sf := sf, df;
        } else {
          sf := df;
          df := dfTemp;
        }
        pass := pass - 1;
      }
      EighthRotation(cosine, sqrt2Half);
      LevelStep(rot, in_, nbrBits, in_, 2);
      AntepenultimatePass(sf, df, sqrt2Half, Pass(rot, 2));
      LastPasses(df, x, nbrBits, bitRevLut);
    }

    /** FFTReal.cc:312-350 */
    method PreviousPass(sf: array<real>, df: array<real>, pass: nat, ghost in_: seq<real>)
      requires Valid() && 3 <= pass < nbrBits && |in_| == length && sf.Length == df.Length == length && sf != df
      requires sf[..] == Back(Rotation(), in_, nbrBits, pass + 1)
      modifies df
      ensures df[..] == Back(Rotation(), in_, nbrBits, pass)
    {
      hide IsReversal, IsTable, Last, Down, Pow2, Rot, Back, LevelAt, Pass, H;
      LevelStep(Rotation(), in_, nbrBits, in_, pass);
      TableRotations(trigoLut, nbrBits, cosine, sqrt2Half, pass);
      DownPass(sf, df, H(pass), trigoLut, LevelAt(pass), Pass(Rotation(), pass));
    }

    /** The special cases (FFTReal.cc:436-459). */
    method SmallIfft(f: array<real>, x: array<real>)
      requires Valid() && f.Length == x.Length == length && f != x && nbrBits <= 2
      modifies x
      ensures x[..] == Inverse(Rotation(), f[..], nbrBits)
    {
      hide *;
      LengthIs();
      SmallLengths();
      InverseSmall(Rotation(), f[..], nbrBits);
      if nbrBits == 2 {
        IfftOfFour(f, x);
      } else if nbrBits == 1 {
        x[0] := f[0] + f[1];
        x[1] := f[0] - f[1];
        assert x[..] == [x[0], x[1]];
      } else {
        x[0] := f[0];
        assert x[..] == [x[0]];
      }
    }

    /** The transform and then its inverse, which may go back into x: every sample comes back, times
        the length. */
    method ThereAndBack(x: array<real>, f: array<real>, y: array<real>)
      requires Valid() && ExactCosines(cosine, sqrt2Half)
      requires x.Length == f.Length == y.Length == length && f != x && f != y
      requires x != buffer && f != buffer && y != buffer
      modifies f, y, buffer
      ensures Scaled(length as real, old(x[..]), y[..])
    {
      hide Valid, Forward, Inverse, Scaled;
      ghost var s := x[..];
      DoFft(f, x);
      DoIfft(f, y);
      RotIsUnit(cosine, sqrt2Half);
      LengthIs();
      RoundTrip(Rotation(), s, nbrBits);
    }

    lemma LengthIs()
      requires Valid()
      ensures length == Pow2(nbrBits)
    {}
  }

  lemma LevelBegins(rot: Rotations, x: seq<real>, bits: nat)
    requires bits >= 2 && |x| == Pow2(bits)
    ensures Level(rot, x, bits, 2) == First(x, bits)
  {}

  lemma BackBegins(rot: Rotations, f: seq<real>, bits: nat)
    requires bits >= 2 && |f| == Pow2(bits)
    ensures Back(rot, f, bits, bits) == f
  {}

  lemma SmallLengths()
    ensures Pow2(0) == 1 && Pow2(1) == 2 && Pow2(2) == 4
  {}

  lemma ReverseOfTwo()
    ensures Reverse(2, 0) == 0 && Reverse(2, 1) == 2 && Reverse(2, 2) == 1 && Reverse(2, 3) == 3
  {
    assert Pow2(0) == 1 && Pow2(1) == 2;
    assert Reverse(1, 0) == 0 && Reverse(1, 1) == 1;
  }

  /** The transforms of at most four samples. */
  lemma ForwardSmall(rot: Rotations, x: seq<real>, bits: nat)
    requires bits <= 2 && |x| == Pow2(bits)
    ensures bits == 0 ==> |x| == 1 && Forward(rot, x, bits) == [x[0]]
    ensures bits == 1 ==> |x| == 2 && Forward(rot, x, bits) == [x[0] + x[1], x[0] - x[1]]
    ensures bits == 2 ==> |x| == 4 && Forward(rot, x, bits) == [x[0] + x[2] + (x[1] + x[3]), x[0] - x[2], x[0] + x[2] - (x[1] + x[3]), x[1] - x[3]]
  {
    SmallLengths();
    if bits == 2 {
      FirstOfFour(x);
      LevelBegins(rot, x, 2);
      hide First, Level, Pow2;
    }
  }

  lemma FirstOfFour(x: seq<real>)
    requires |x| == 4 == Pow2(2)
    ensures First(x, 2) == [x[0] + x[2] + (x[1] + x[3]), x[0] - x[2], x[0] + x[2] - (x[1] + x[3]), x[1] - x[3]]
  {
    hide First, FirstCell, Shuffled;
    ReverseOfTwo();
    var lut: seq<nat> := [0, 2, 1, 3];
    assert IsReversal(lut, 2);
    hide Reverse, Pow2, IsReversal;
    FirstCells(x, 2, lut, 0);
  }

  lemma InverseSmall(rot: Rotations, s: seq<real>, bits: nat)
    requires bits <= 2 && |s| == Pow2(bits)
    ensures bits == 0 ==> |s| == 1 && Inverse(rot, s, bits) == [s[0]]
    ensures bits == 1 ==> |s| == 2 && Inverse(rot, s, bits) == [s[0] + s[1], s[0] - s[1]]
    ensures bits == 2 ==> |s| == 4 && Inverse(rot, s, bits) == [s[0] + s[2] + s[1] * 2.0, s[0] - s[2] + s[3] * 2.0, s[0] + s[2] - s[1] * 2.0, s[0] - s[2] - s[3] * 2.0]
  {
    SmallLengths();
    if bits == 2 {
      LastOfFour(s);
      BackBegins(rot, s, 2);
      hide Last, Back, Pow2;
    }
  }

  lemma LastOfFour(s: seq<real>)
    requires |s| == 4 == Pow2(2)
    ensures Last(s, 2) == [s[0] + s[2] + s[1] * 2.0, s[0] - s[2] + s[3] * 2.0, s[0] + s[2] - s[1] * 2.0, s[0] - s[2] - s[3] * 2.0]
  {
    hide Last, LastCell;
    ReverseOfTwo();
    LastBlock(s, 2, 0, 0);
    LastBlock(s, 2, 0, 1);
    LastBlock(s, 2, 0, 2);
    LastBlock(s, 2, 0, 3);
    hide Reverse, Pow2;
    assert s[0..4] == s;
    LastCells(s);
  }

  lemma LastCells(b: seq<real>)
    requires |b| == 4
    ensures LastCell(b, 0) == b[0] + b[2] + b[1] * 2.0 && LastCell(b, 1) == b[0] + b[2] - b[1] * 2.0
    ensures LastCell(b, 2) == b[0] - b[2] + b[3] * 2.0 && LastCell(b, 3) == b[0] - b[2] - b[3] * 2.0
  {}
}
