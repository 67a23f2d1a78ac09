/** The recursive and the iterative transforms of benchees/bloodworth/quad2fft.c do the same
    operations on the same operands. The arithmetic is left uninterpreted: the result is about every
    type of cell, rounding included.
  */
module Quad2Fft {
  import opened Arithmetic
  import opened Frames
  import opened Quadrants

  /** The signs and the twiddle factor of a butterfly, as the calls name them. */
  datatype Factor<Power> =
    | First
    | Quadrant(image: int, power: Power)
    | Eighth(negative: bool)
    | Quarter

  /** The butterfly macro for one direction (quad2fft.c:140-168 or 284-317), the power of the loop
      at its start, and NextTrigPow with the table entries of stage k. */
  datatype Ops<!Cell, !Power> = Ops(one: Power, next: (nat, Power) -> Power,
                                    butterfly: (Factor<Power>, Cell, Cell) -> (Cell, Cell))

  /** Pow_r and Pow_i in turn b of the loop of stage k. */
  function PowerAt<Cell, Power>(ops: Ops<Cell, Power>, k: nat, b: nat): Power {
    if b == 0 then ops.one else ops.next(k, PowerAt(ops, k, b - 1))
  }

  /** The factor for offset o below w = Step2 = 2^(k - 1). */
  function FactorAt<Cell, Power>(ops: Ops<Cell, Power>, k: nat, w: nat, o: int): Factor<Power> {
    var (step4, step8) := (w / 2, w / 4);
    if o <= 0 then First
    else if o == step4 then Quarter
    else if o < step8 then Quadrant(0, PowerAt(ops, k, o))
    else if o == step8 then Eighth(false)
    else if o < step4 then Quadrant(2, PowerAt(ops, k, step4 - o))
    else if o < step4 + step8 then Quadrant(3, PowerAt(ops, k, o - step4))
    else if o == w - step8 then Eighth(true)
    else if o < w then Quadrant(1, PowerAt(ops, k, w - o))
    else First
  }

  lemma WidthOf(k: nat)
    requires k >= 1
    ensures Pow2(k - 1) >= 1 && Pow2(k) == 2 * Pow2(k - 1)
  {}

  lemma InPair(n: nat, w: nat, i: nat)
    requires w > 0 && n % (2 * w) == 0 && i < n
    ensures 0 <= i % w < w && 0 <= i / w
    ensures (i / w) % 2 == 0 ==> i + w < n
    ensures (i / w) % 2 == 1 ==> i >= w
  {
    DivMod(i, w);
    QuotientNonNegative(i, w);
    var (q, m) := (i / w, n / (2 * w));
    DivMod(n, 2 * w);
    assert n == w * (2 * m) by {
      assert 2 * w * m == w * (2 * m);
    }
    if q >= 2 * m {
      MulMonotone(2 * m, q, w);
    }
    if q % 2 == 0 {
      MulMonotone(q + 2, 2 * m, w);
    } else {
      MulMonotone(1, q, w);
    }
  }

  /** Cell i after a stage: rows of w cells are combined two by two. */
  function StageCell<Cell, Power>(ops: Ops<Cell, Power>, k: nat, w: nat, s: seq<Cell>, i: int): Cell
    requires w > 0 && |s| % (2 * w) == 0 && 0 <= i < |s|
  {
    InPair(|s|, w, i);
    var f := FactorAt(ops, k, w, i % w);
    if (i / w) % 2 == 0 then ops.butterfly(f, s[i], s[i + w]).0 else ops.butterfly(f, s[i - w], s[i]).1
  }

  /** Stage k on a whole array. */
  function Stage<Cell, Power>(ops: Ops<Cell, Power>, k: nat, s: seq<Cell>): (r: seq<Cell>)
    requires k >= 1 && |s| % Pow2(k) == 0
    ensures |r| == |s|
  {
    WidthOf(k);
    seq(|s|, i requires 0 <= i < |s| => StageCell(ops, k, Pow2(k - 1), s, i))
  }

  lemma StageAt<Cell, Power>(ops: Ops<Cell, Power>, k: nat, s: seq<Cell>, i: nat)
    requires k >= 1 && |s| % Pow2(k) == 0 && i < |s|
    ensures Pow2(k - 1) >= 1 && |s| % (2 * Pow2(k - 1)) == 0
    ensures Stage(ops, k, s)[i] == StageCell(ops, k, Pow2(k - 1), s, i)
  {
    WidthOf(k);
    hide StageCell;
  }

  // ----- a stage splits -----

  lemma ShiftedIndex(w: nat, n: nat, i: nat)
    requires w > 0 && n % (2 * w) == 0
    ensures (n + i) % w == i % w && ((n + i) / w) % 2 == (i / w) % 2
  {
    var (m, q) := (n / (2 * w), i / w);
    DivMod(n, 2 * w);
    DivMod(i, w);
    assert n + i == w * (2 * m + q) + i % w by {
      assert 2 * w * m == w * (2 * m);
      assert w * (2 * m + q) == w * (2 * m) + w * q;
    }
    DivModUnique(n + i, w, 2 * m + q, i % w);
  }

  lemma MultipleSum(a: nat, b: nat, d: nat)
    requires d > 0 && a % d == 0 && b % d == 0
    ensures (a + b) % d == 0
  {
    DivMod(a, d);
    DivMod(b, d);
    assert a + b == d * (a / d + b / d) + 0;
    DivModUnique(a + b, d, a / d + b / d, 0);
  }

  /** A stage of an array is the stage of its halves: no butterfly crosses. */
  lemma StageSplits<Cell, Power>(ops: Ops<Cell, Power>, k: nat, s: seq<Cell>, t: seq<Cell>)
    requires k >= 1 && |s| % Pow2(k) == 0 && |t| % Pow2(k) == 0
    ensures |s + t| % Pow2(k) == 0
    ensures Stage(ops, k, s + t) == Stage(ops, k, s) + Stage(ops, k, t)
  {
    MultipleSum(|s|, |t|, Pow2(k));
    forall i: nat | i < |s + t|
      ensures Stage(ops, k, s + t)[i] == (Stage(ops, k, s) + Stage(ops, k, t))[i]
    {
      StageSplitsAt(ops, k, s, t, i);
    }
  }

  lemma StageSplitsAt<Cell, Power>(ops: Ops<Cell, Power>, k: nat, s: seq<Cell>, t: seq<Cell>, i: nat)
    requires k >= 1 && |s| % Pow2(k) == 0 && |t| % Pow2(k) == 0 && |s + t| % Pow2(k) == 0 && i < |s + t|
    ensures Stage(ops, k, s + t)[i] == (Stage(ops, k, s) + Stage(ops, k, t))[i]
  {
    hide Stage, FactorAt, Pow2;
    var w := Pow2(k - 1);
    StageAt(ops, k, s + t, i);
    WidthOf(k);
    if i < |s| {
      StageAt(ops, k, s, i);
      InPair(|s|, w, i);
    } else {
      StageAt(ops, k, t, i - |s|);
      InPair(|t|, w, i - |s|);
      ShiftedIndex(w, |s|, i - |s|);
    }
  }

  // ----- the iterative transforms -----

  lemma LowerStage(n: nat, k: nat)
    requires k >= 1 && n % Pow2(k) == 0
    ensures n % Pow2(k - 1) == 0
  {
    WidthOf(k);
    var w := Pow2(k - 1);
    DivMod(n, 2 * w);
    var m := n / (2 * w);
    assert 2 * w * m == w * (2 * m) + 0;
    DivModUnique(n, w, 2 * m, 0);
  }

  /** FFT2_F: the stages from the widest to the narrowest. */
  function IterateF<Cell, Power>(ops: Ops<Cell, Power>, k: nat, s: seq<Cell>): (r: seq<Cell>)
    requires |s| % Pow2(k) == 0
    ensures |r| == |s|
    decreases k
  {
    if k == 0 then s else
      LowerStage(|s|, k);
      IterateF(ops, k - 1, Stage(ops, k, s))
  }

  /** FFT2_T: the stages from the narrowest to the widest. */
  function IterateT<Cell, Power>(ops: Ops<Cell, Power>, k: nat, s: seq<Cell>): (r: seq<Cell>)
    requires |s| % Pow2(k) == 0
    ensures |r| == |s|
    decreases k
  {
    if k == 0 then s else
      LowerStage(|s|, k);
      Stage(ops, k, IterateT(ops, k - 1, s))
  }

  lemma {:induction false} IterateSplits<Cell, Power>(ops: Ops<Cell, Power>, k: nat, s: seq<Cell>, t: seq<Cell>)
    requires |s| % Pow2(k) == 0 && |t| % Pow2(k) == 0
    ensures |s + t| % Pow2(k) == 0
    ensures IterateF(ops, k, s + t) == IterateF(ops, k, s) + IterateF(ops, k, t)
    ensures IterateT(ops, k, s + t) == IterateT(ops, k, s) + IterateT(ops, k, t)
    decreases k
  {
    MultipleSum(|s|, |t|, Pow2(k));
    if k > 0 {
      hide Stage, Pow2;
      LowerStage(|s|, k);
      LowerStage(|t|, k);
      LowerStage(|s + t|, k);
      StageSplits(ops, k, s, t);
      IterateSplits(ops, k - 1, Stage(ops, k, s), Stage(ops, k, t));
      IterateSplits(ops, k - 1, s, t);
      StageSplits(ops, k, IterateT(ops, k - 1, s), IterateT(ops, k - 1, t));
    }
  }

  // ----- the recursive transforms -----

  lemma HalfLength(n: nat)
    requires n >= 1
    ensures Pow2(n) / 2 == Pow2(n - 1) && Pow2(n) == 2 * Pow2(n - 1) && Pow2(n) % Pow2(n) == 0 && Pow2(n) % Pow2(n - 1) == 0
  {
    PowerDivides(n, n);
    PowerDivides(n - 1, n);
  }

  /** RFFT2_F: up to the cutoff the iterative transform, above it a stage and then the halves. */
  function RecurseF<Cell, Power>(ops: Ops<Cell, Power>, n: nat, cutoff: nat, s: seq<Cell>): (r: seq<Cell>)
    requires |s| == Pow2(n) && cutoff >= 1
    ensures |r| == |s|
    decreases n
  {
    PowerDivides(n, n);
    if |s| <= cutoff then IterateF(ops, n, s)
    else if n == 0 then s
    else
      HalfLength(n);
      var (u, h) := (Stage(ops, n, s), |s| / 2);
      if |s| >= 4 then RecurseF(ops, n - 1, cutoff, u[..h]) + RecurseF(ops, n - 1, cutoff, u[h..]) else u
  }

  /** RFFT2_T */
  function RecurseT<Cell, Power>(ops: Ops<Cell, Power>, n: nat, cutoff: nat, s: seq<Cell>): (r: seq<Cell>)
    requires |s| == Pow2(n) && cutoff >= 1
    ensures |r| == |s|
    decreases n
  {
    PowerDivides(n, n);
    if |s| <= cutoff then IterateT(ops, n, s)
    else if n == 0 then s
    else
      HalfLength(n);
      var h := |s| / 2;
      var u := if h >= 2 then RecurseT(ops, n - 1, cutoff, s[..h]) + RecurseT(ops, n - 1, cutoff, s[h..]) else s;
      Stage(ops, n, u)
  }

  lemma ShortPowers(n: nat)
    ensures Pow2(n) < 4 ==> n <= 1
    ensures Pow2(0) == 1 && Pow2(1) == 2
  {
    if n >= 2 { Pow2Monotone(2, n); assert Pow2(2) == 2 * Pow2(1); }
  }

  /** Whatever the cutoff, recursion and iteration compute the same, in frequency ... */
  lemma {:induction false} RecursionIsIterationF<Cell, Power>(ops: Ops<Cell, Power>, n: nat, cutoff: nat, s: seq<Cell>)
    requires |s| == Pow2(n) && cutoff >= 1
    ensures |s| % Pow2(n) == 0 && RecurseF(ops, n, cutoff, s) == IterateF(ops, n, s)
    decreases n
  {
    hide *;
    PowerDivides(n, n);
    ShortPowers(n);
    RecurseUnfold(ops, n, cutoff, s);
    if |s| > cutoff {
      HalfLength(n);
      IterateStep(ops, n, s);
      var (u, h) := (Stage(ops, n, s), |s| / 2);
      if |s| >= 4 {
        RecursionIsIterationF(ops, n - 1, cutoff, u[..h]);
        RecursionIsIterationF(ops, n - 1, cutoff, u[h..]);
        IterateSplits(ops, n - 1, u[..h], u[h..]);
        assert u == u[..h] + u[h..];
      } else {
        IterateNone(ops, u);
      }
    }
  }

  /** ... and in time. */
  lemma {:induction false} RecursionIsIterationT<Cell, Power>(ops: Ops<Cell, Power>, n: nat, cutoff: nat, s: seq<Cell>)
    requires |s| == Pow2(n) && cutoff >= 1
    ensures |s| % Pow2(n) == 0 && RecurseT(ops, n, cutoff, s) == IterateT(ops, n, s)
    decreases n
  {
    hide *;
    PowerDivides(n, n);
    ShortPowers(n);
    RecurseUnfold(ops, n, cutoff, s);
    if |s| > cutoff {
      HalfLength(n);
      IterateStep(ops, n, s);
      var h := |s| / 2;
      if h >= 2 {
        RecursionIsIterationT(ops, n - 1, cutoff, s[..h]);
        RecursionIsIterationT(ops, n - 1, cutoff, s[h..]);
        IterateSplits(ops, n - 1, s[..h], s[h..]);
        assert s == s[..h] + s[h..];
      } else {
        IterateNone(ops, s);
      }
    }
  }

  // ----- the transforms in place -----

  /** The cells with an offset in done, or with offset o and an index below left, are those of r;
      the others are those of s. */
  ghost predicate Part<Cell>(u: seq<Cell>, s: seq<Cell>, r: seq<Cell>, w: nat, done: set<int>, o: int, left: int) {
    && w > 0 && |u| == |s| == |r|
    && forall i :: 0 <= i < |u| ==> u[i] == if i % w in done || (i % w == o && i < left) then r[i] else s[i]
  }

  lemma PartStarts<Cell>(s: seq<Cell>, r: seq<Cell>, w: nat)
    requires w > 0 && |s| == |r|
    ensures Part(s, s, r, w, {}, -1, 0)
  {}

  lemma LoopStarts<Cell>(u: seq<Cell>, s: seq<Cell>, r: seq<Cell>, w: nat, done: set<int>, o: int)
    requires Part(u, s, r, w, done, -1, 0) && 0 <= o < w
    ensures Part(u, s, r, w, done, o, o)
  {
    forall i | 0 <= i < o
      ensures i % w == i
    {
      DivModUnique(i, w, 0, i);
    }
  }

  lemma LoopEnds<Cell>(u: seq<Cell>, s: seq<Cell>, r: seq<Cell>, w: nat, done: set<int>, o: int, left: int)
    requires Part(u, s, r, w, done, o, left) && left >= |u|
    ensures Part(u, s, r, w, done + {o}, -1, 0)
  {}

  lemma PartEnds<Cell>(u: seq<Cell>, s: seq<Cell>, r: seq<Cell>, w: nat, done: set<int>)
    requires Part(u, s, r, w, done, -1, 0) && forall o :: 0 <= o < w ==> o in done
    ensures u == r
  {
    forall i | 0 <= i < |u|
      ensures u[i] == r[i]
    {
      DivMod(i, w);
    }
  }

  /** The next pair of cells with this offset. */
  lemma NextPair(n: nat, w: nat, o: nat, left: nat)
    requires w > 0 && n % (2 * w) == 0 && left < n && left % w == o && (left / w) % 2 == 0
    ensures left + w < n
    ensures (left + w) % w == o && ((left + w) / w) % 2 == 1
    ensures (left + 2 * w) % w == o && ((left + 2 * w) / w) % 2 == 0
    ensures forall i :: left <= i < left + 2 * w && i % w == o ==> i == left || i == left + w
  {
    InPair(n, w, left);
    DivMod(left, w);
    DivModUnique(left + w, w, left / w + 1, o);
    DivModUnique(left + 2 * w, w, left / w + 2, o);
    forall i | left <= i < left + 2 * w && i % w == o
      ensures i == left || i == left + w
    {
      DivMod(i, w);
      var (p, q) := (i / w, left / w);
      assert i - left == w * (p - q);
      if p - q < 0 { MulMonotone(p - q, -1, w); }
      if p - q >= 2 { MulMonotone(2, p - q, w); }
    }
  }

  lemma PairStored<Cell>(u: seq<Cell>, v: seq<Cell>, s: seq<Cell>, r: seq<Cell>, w: nat, done: set<int>, o: nat, left: nat)
    requires Part(u, s, r, w, done, o, left) && |u| % (2 * w) == 0 && left < |u|
    requires left % w == o && (left / w) % 2 == 0 && left + w < |u| && o !in done
    requires |v| == |u| && v[left] == r[left] && v[left + w] == r[left + w]
    requires forall i :: 0 <= i < |v| && i != left && i != left + w ==> v[i] == u[i]
    ensures Part(v, s, r, w, done, o, left + 2 * w)
  {
    NextPair(|u|, w, o, left);
    forall i | 0 <= i < |v|
      ensures v[i] == if i % w in done || (i % w == o && i < left + 2 * w) then r[i] else s[i]
    {
      if left <= i < left + 2 * w && i % w == o {
        assert i == left || i == left + w;
      }
    }
  }

  /** The two cells that a butterfly of the stage stores. */
  lemma StagePair<Cell, Power>(ops: Ops<Cell, Power>, k: nat, w: nat, s: seq<Cell>, o: nat, left: nat)
    requires k >= 1 && w == Pow2(k - 1) && |s| % Pow2(k) == 0 && left < |s| && w > 0 && |s| % (2 * w) == 0
    requires left % w == o && (left / w) % 2 == 0
    ensures left + w < |s|
    ensures var b := ops.butterfly(FactorAt(ops, k, w, o), s[left], s[left + w]);
            Stage(ops, k, s)[left] == b.0 && Stage(ops, k, s)[left + w] == b.1
  {
    NextPair(|s|, w, o, left);
    StageAt(ops, k, s, left);
    StageAt(ops, k, s, left + w);
    hide Stage, FactorAt, Pow2;
  }

  /** FFT2_FButterflyLoop and FFT2_TButterflyLoop (quad2fft.c:140-156, 284-302): all the butterflies
      with the offset ndx; for a single block it is the butterfly of the recursive routines. */
  method ButterflyLoop<Cell, Power>(data: array<Cell>, start: nat, len: nat, w: nat, ndx: nat, f: Factor<Power>,
                                    ops: Ops<Cell, Power>, ghost k: nat, ghost s: seq<Cell>, ghost done: set<int>, ghost was: seq<Cell>)
    requires start + len <= data.Length && k >= 1 && w == Pow2(k - 1) && |s| == len && len % Pow2(k) == 0
    requires ndx < w && f == FactorAt(ops, k, w, ndx) && ndx !in done
    requires Part(data[start..start + len], s, Stage(ops, k, s), w, done, -1, 0) && Framed(was, data[..], start, len)
    modifies data
    ensures Part(data[start..start + len], s, Stage(ops, k, s), w, done + {ndx}, -1, 0) && Framed(was, data[..], start, len)
  {
    hide Part, Stage, FactorAt, Framed, Pow2;
    WidthOf(k);
    ghost var r := Stage(ops, k, s);
    LoopStarts(data[start..start + len], s, r, w, done, ndx);
    FirstLeft(ndx, w);
    var left := ndx;
    while left < len
      invariant left % w == ndx && (left / w) % 2 == 0
      invariant Part(data[start..start + len], s, r, w, done, ndx, left) && Framed(was, data[..], start, len)
      decreases len + 2 * w - left
    {
      NextPair(len, w, ndx, left);
      StagePair(ops, k, w, s, ndx, left);
      OneButterfly(data, start, len, w, left, f, ops, s, r, done, ndx, was);
      left := left + 2 * w;
    }
    LoopEnds(data[start..start + len], s, r, w, done, ndx, left);
  }

  lemma FirstLeft(o: nat, w: nat)
    requires o < w
    ensures o % w == o && (o / w) % 2 == 0
  {
    DivModUnique(o, w, 0, o);
  }

  method OneButterfly<Cell, Power>(data: array<Cell>, start: nat, len: nat, w: nat, left: nat, f: Factor<Power>, ops: Ops<Cell, Power>,
                                   ghost s: seq<Cell>, ghost r: seq<Cell>, ghost done: set<int>, ghost o: nat, ghost was: seq<Cell>)
    requires start + len <= data.Length && |s| == |r| == len && w > 0 && len % (2 * w) == 0
    requires left % w == o && (left / w) % 2 == 0 && left + w < len && o !in done
    requires Part(data[start..start + len], s, r, w, done, o, left) && Framed(was, data[..], start, len)
    requires var b := ops.butterfly(f, s[left], s[left + w]); b.0 == r[left] && b.1 == r[left + w]
    modifies data
    ensures Part(data[start..start + len], s, r, w, done, o, left + 2 * w) && Framed(was, data[..], start, len)
  {
    ghost var u := data[start..start + len];
    NextPair(len, w, o, left);
    assert u[left] == s[left] && u[left + w] == s[left + w];
    hide Part;
    assert data[start + left] == u[left] && data[start + (left + w)] == u[left + w];
    var (l, r') := ops.butterfly(f, data[start + left], data[start + (left + w)]);
    data[start + left] := l;
    data[start + (left + w)] := r';
    PairStored(u, data[start..start + len], s, r, w, done, o, left);
  }

  /** One stage: the four quadrants of the loop, the two eighths and the quarter
      (quad2fft.c:186-217, 336-367; 235-266, 393-417 for a single block). */
  method OneStage<Cell, Power>(data: array<Cell>, start: nat, len: nat, step: nat, ghost k: nat, powers: nat, ops: Ops<Cell, Power>)
    requires start + len <= data.Length && k >= 1 && step == Pow2(k) && len % step == 0 && powers == k
    modifies data
    ensures data[start..start + len] == Stage(ops, k, old(data[start..start + len]))
    ensures Framed(old(data[..]), data[..], start, len)
  {
    hide Part, Stage, FactorAt, Framed, Pow2, PowerAt, Covered;
    ghost var s, was := data[start..start + len], data[..];
    ghost var r := Stage(ops, k, s);
    StageWidths(k);
    var step2, step4, step8 := step / 2, step / 4, step / 8;
    PartStarts(s, r, step2);
    FramedSame(was, start, len);
    FactorsOfStage(ops, k, step2);
    ButterflyLoop(data, start, len, step2, 0, First, ops, k, s, {}, was);
    var power := ops.one;
    PowerStart(ops, k);
    ghost var done: set<int> := {0};
    assert {} + {0} == done;
    DoneStarts(step2);
    var b := 1;
    while b < step8
      invariant 1 <= b && (step8 > 0 ==> b <= step8) && (step8 == 0 ==> b == 1)
      invariant power == PowerAt(ops, k, b - 1)
      invariant done == Covered(step2, b)
      invariant Part(data[start..start + len], s, r, step2, done, -1, 0) && Framed(was, data[..], start, len)
    {
      PowerNext(ops, k, b);
      power := ops.next(powers, power);
      done := FourQuadrants(data, start, len, step2, b, power, ops, k, s, done, was);
      b := b + 1;
    }
    if step8 > 0 {
      CoveredEighths(step2);
      ButterflyLoop(data, start, len, step2, step8, Eighth(false), ops, k, s, done, was);
      ButterflyLoop(data, start, len, step2, step2 - step8, Eighth(true), ops, k, s, done + {step8}, was);
      done := done + {step8} + {step2 - step8};
    }
    if step4 > 0 {
      CoveredQuarter(step2, done);
      ButterflyLoop(data, start, len, step2, step4, Quarter, ops, k, s, done, was);
      done := done + {step4};
    }
    CoveredAll(step2, done);
    PartEnds(data[start..start + len], s, r, step2, done);
  }

  /** Turn b of the loop (quad2fft.c:200-208). */
  method FourQuadrants<Cell, Power>(data: array<Cell>, start: nat, len: nat, step2: nat, b: nat, power: Power, ops: Ops<Cell, Power>,
                                    ghost k: nat, ghost s: seq<Cell>, ghost done: set<int>, ghost was: seq<Cell>)
    returns (ghost next: set<int>)
    requires start + len <= data.Length && k >= 1 && step2 == Pow2(k - 1) && |s| == len && len % Pow2(k) == 0
    requires step2 % 4 == 0 && 1 <= b < step2 / 4 && power == PowerAt(ops, k, b) && done == Covered(step2, b)
    requires Part(data[start..start + len], s, Stage(ops, k, s), step2, done, -1, 0) && Framed(was, data[..], start, len)
    modifies data
    ensures next == Covered(step2, b + 1)
    ensures Part(data[start..start + len], s, Stage(ops, k, s), step2, next, -1, 0) && Framed(was, data[..], start, len)
  {
    hide Part, Stage, FactorAt, Framed, Pow2, PowerAt, Covered;
    var step4 := step2 / 2;
    FactorsOfTurn(ops, k, step2, b);
    CoveredStep(step2, b);
    ButterflyLoop(data, start, len, step2, b, Quadrant(0, power), ops, k, s, done, was);
    ButterflyLoop(data, start, len, step2, step2 - b, Quadrant(1, power), ops, k, s, done + {b}, was);
    ButterflyLoop(data, start, len, step2, step4 - b, Quadrant(2, power), ops, k, s, done + {b} + {step2 - b}, was);
    ButterflyLoop(data, start, len, step2, step4 + b, Quadrant(3, power), ops, k, s, done + {b} + {step2 - b} + {step4 - b}, was);
    next := done + {b} + {step2 - b} + {step4 - b} + {step4 + b};
  }

  lemma StageWidths(k: nat)
    requires k >= 1
    ensures Pow2(k) / 2 == Pow2(k - 1) >= 1
    ensures Pow2(k) / 4 == Pow2(k - 1) / 2 && Pow2(k) / 8 == Pow2(k - 1) / 4
    ensures var w := Pow2(k - 1); w == 1 || w == 2 || w % 4 == 0
  {
    WidthOf(k);
    if k >= 3 {
      assert Pow2(k - 1) == 2 * Pow2(k - 2) && Pow2(k - 2) == 2 * Pow2(k - 3);
    } else {
      assert Pow2(0) == 1 && Pow2(1) == 2;
    }
  }

  lemma PowerStart<Cell, Power>(ops: Ops<Cell, Power>, k: nat)
    ensures PowerAt(ops, k, 0) == ops.one
  {}

  lemma PowerNext<Cell, Power>(ops: Ops<Cell, Power>, k: nat, b: nat)
    requires b >= 1
    ensures PowerAt(ops, k, b) == ops.next(k, PowerAt(ops, k, b - 1))
  {}

  lemma FactorsOfStage<Cell, Power>(ops: Ops<Cell, Power>, k: nat, w: nat)
    requires w == 1 || w == 2 || (w > 0 && w % 4 == 0)
    ensures FactorAt(ops, k, w, 0) == First
    ensures w > 1 ==> FactorAt(ops, k, w, w / 2) == Quarter
    ensures w >= 4 ==> FactorAt(ops, k, w, w / 4) == Eighth(false) && FactorAt(ops, k, w, w - w / 4) == Eighth(true)
  {}

  lemma FactorsOfTurn<Cell, Power>(ops: Ops<Cell, Power>, k: nat, w: nat, b: nat)
    requires w % 4 == 0 && 1 <= b < w / 4
    ensures var p := PowerAt(ops, k, b);
            && FactorAt(ops, k, w, b) == Quadrant(0, p) && FactorAt(ops, k, w, w - b) == Quadrant(1, p)
            && FactorAt(ops, k, w, w / 2 - b) == Quadrant(2, p) && FactorAt(ops, k, w, w / 2 + b) == Quadrant(3, p)
  {
    hide PowerAt;
  }

  /** The offsets that are done before turn b, without the quarter, which comes last. */
  ghost function Covered(w: nat, b: int): set<int> {
    if w < 4 then {0} else Turned(w, b) - {w / 2}
  }

  lemma DoneStarts(w: nat)
    requires w == 1 || w == 2 || (w > 0 && w % 4 == 0)
    ensures Covered(w, 1) == {0}
  {
    if w >= 4 { FirstTurn(w); }
  }

  /** Each turn handles four new offsets. */
  lemma CoveredStep(w: nat, b: nat)
    requires w % 4 == 0 && 1 <= b < w / 4
    ensures var c := Covered(w, b);
            && b !in c && w - b !in c + {b} && w / 2 - b !in c + {b} + {w - b} && w / 2 + b !in c + {b} + {w - b} + {w / 2 - b}
            && c + {b} + {w - b} + {w / 2 - b} + {w / 2 + b} == Covered(w, b + 1)
  {
    NextTurn(w, b);
    TurnDisjoint(w, b);
  }

  lemma CoveredEighths(w: nat)
    requires w >= 4 && w % 4 == 0
    ensures w / 4 !in Covered(w, w / 4) && w - w / 4 !in Covered(w, w / 4) + {w / 4}
  {
    NextTurn(w, w / 4);
  }

  lemma CoveredQuarter(w: nat, done: set<int>)
    requires w == 2 || (w > 0 && w % 4 == 0)
    requires done == if w >= 4 then Covered(w, w / 4) + {w / 4} + {w - w / 4} else {0}
    ensures w / 2 !in done
  {}

  lemma CoveredAll(w: nat, done: set<int>)
    requires w == 1 || w == 2 || (w > 0 && w % 4 == 0)
    requires done == (if w >= 4 then Covered(w, w / 4) + {w / 4} + {w - w / 4} else {0}) + (if w >= 2 then {w / 2} else {})
    ensures forall o :: 0 <= o < w ==> o in done
  {
    if w >= 4 {
      NextTurn(w, w / 4);
      LastTurn(w, w / 4 + 1);
    }
  }

  lemma StepDivides(n: nat, k: nat)
    requires k <= n
    ensures Pow2(n) % Pow2(k) == 0
  {
    PowerDivides(k, n);
  }

  /** FFT2_F (quad2fft.c:170-220): iterative, in frequency. */
  method Fft2F<Cell, Power>(data: array<Cell>, start: nat, len: nat, ghost n: nat, log2: nat, ops: Ops<Cell, Power>)
    requires start + len <= data.Length && len == Pow2(n) && log2 == n
    modifies data
    ensures len % Pow2(n) == 0 && data[start..start + len] == IterateF(ops, n, old(data[start..start + len]))
    ensures Framed(old(data[..]), data[..], start, len)
  {
    hide Stage, IterateF, Framed, Pow2;
    StepDivides(n, n);
    ghost var s, was := data[start..start + len], data[..];
    FramedSame(was, start, len);
    var step, l2 := len, log2;
    ghost var k := n;
    while step > 1
      invariant 0 <= k <= n && step == Pow2(k) && l2 == k && len % Pow2(k) == 0
      invariant IterateF(ops, k, data[start..start + len]) == IterateF(ops, n, s)
      invariant Framed(was, data[..], start, len)
      decreases k
    {
      PositiveStage(k);
      IterateStep(ops, k, data[start..start + len]);
      ghost var t := data[..];
      OneStage(data, start, len, step, k, l2, ops);
      FramedTwice(was, t, data[..], start, len);
      StageWidths(k);
      k := k - 1;
      l2 := l2 - 1;
      step := step / 2;
    }
    LastStage(k);
    IterateNone(ops, data[start..start + len]);
  }

  lemma PositiveStage(k: nat)
    requires Pow2(k) > 1
    ensures k >= 1
  {}

  lemma LastStage(k: nat)
    requires Pow2(k) <= 1
    ensures k == 0
  {}

  lemma IterateNone<Cell, Power>(ops: Ops<Cell, Power>, s: seq<Cell>)
    ensures |s| % Pow2(0) == 0 && IterateF(ops, 0, s) == s && IterateT(ops, 0, s) == s
  {}

  lemma IterateStep<Cell, Power>(ops: Ops<Cell, Power>, k: nat, s: seq<Cell>)
    requires k >= 1 && |s| % Pow2(k) == 0
    ensures |s| % Pow2(k - 1) == 0
    ensures IterateF(ops, k, s) == IterateF(ops, k - 1, Stage(ops, k, s))
    ensures IterateT(ops, k, s) == Stage(ops, k, IterateT(ops, k - 1, s))
  {
    LowerStage(|s|, k);
    hide Stage, Pow2;
  }

  /** FFT2_T, RevFFT2_T and FwdFFT2_T (quad2fft.c:320-369, 426-475, 528-577): iterative, in time. */
  method Fft2T<Cell, Power>(data: array<Cell>, start: nat, len: nat, ghost n: nat, ops: Ops<Cell, Power>)
    requires start + len <= data.Length && len == Pow2(n)
    modifies data
    ensures len % Pow2(n) == 0 && data[start..start + len] == IterateT(ops, n, old(data[start..start + len]))
    ensures Framed(old(data[..]), data[..], start, len)
  {
    hide Stage, IterateT, Framed, Pow2;
    StepDivides(n, n);
    ghost var s, was := data[start..start + len], data[..];
    FramedSame(was, start, len);
    IterateNone(ops, s);
    FirstPower();
    var step, trigIndex := 1, 1;
    ghost var k := 0;
    while step < len
      invariant 0 <= k <= n && step == Pow2(k) && trigIndex == k + 1 && len % Pow2(k) == 0
      invariant data[start..start + len] == IterateT(ops, k, s)
      invariant Framed(was, data[..], start, len)
      decreases n - k
    {
      MoreStages(k, n);
      StepDivides(n, k + 1);
      IterateStep(ops, k + 1, s);
      StageWidths(k + 1);
      WidthOf(k + 1);
      step := step * 2;
      ghost var t := data[..];
      OneStage(data, start, len, step, k + 1, trigIndex, ops);
      FramedTwice(was, t, data[..], start, len);
      k, trigIndex := k + 1, trigIndex + 1;
    }
    AllStages(k, n);
  }

  lemma FirstPower()
    ensures Pow2(0) == 1
  {}

  lemma MoreStages(k: nat, n: nat)
    requires k <= n && Pow2(k) < Pow2(n)
    ensures k < n
  {}

  lemma AllStages(k: nat, n: nat)
    requires k <= n && Pow2(k) >= Pow2(n)
    ensures k == n
  {
    if k < n { Pow2Monotone(k + 1, n); }
  }

  /** RFFT2_F (quad2fft.c:223-273): recursive, in frequency. */
  method Rfft2F<Cell, Power>(data: array<Cell>, start: nat, len: nat, ghost n: nat, log2: nat, cutoff: nat, ops: Ops<Cell, Power>)
    requires start + len <= data.Length && len == Pow2(n) && log2 == n && cutoff >= 1
    modifies data
    ensures data[start..start + len] == RecurseF(ops, n, cutoff, old(data[start..start + len]))
    ensures Framed(old(data[..]), data[..], start, len)
    decreases n
  {
    hide Stage, IterateF, RecurseF, Framed, Pow2;
    ghost var a := data[..];
    StepDivides(n, n);
    ViewOf(a, start, len);
    RecurseUnfold(ops, n, cutoff, a[start..start + len]);
    if len <= cutoff {
      Fft2F(data, start, len, n, log2, ops);
      return;
    }
    FirstPower();
    LengthAbove(n);
    HalfLength(n);
    var len2 := len / 2;
    OneStage(data, start, len, len, n, log2, ops);
    ghost var b := data[..];
    if len >= 4 {
      Rfft2F(data, start, len2, n - 1, log2 - 1, cutoff, ops);
      ghost var c := data[..];
      Views(data, start, len2);
      Rfft2F(data, start + len2, len2, n - 1, log2 - 1, cutoff, ops);
      Views(data, start, len2);
      HalvesDone(b, c, data[..], start, len2);
      FramedWider(b, c, start, len2, start, len);
      FramedWider(c, data[..], start + len2, len2, start, len);
      FramedChain(a, b, c, data[..], start, len);
    }
  }

  lemma LengthAbove(n: nat)
    requires Pow2(n) > 1
    ensures n >= 1
  {}

  /** The halves are worked on one after the other. */
  lemma HalvesDone<Cell>(b: seq<Cell>, c: seq<Cell>, d: seq<Cell>, start: nat, h: nat)
    requires start + 2 * h <= |b| && Framed(b, c, start, h) && Framed(c, d, start + h, h)
    ensures |b| == |c| == |d|
    ensures c[start + h..start + 2 * h] == b[start..start + 2 * h][h..] && b[start..start + h] == b[start..start + 2 * h][..h]
    ensures d[start..start + 2 * h] == c[start..start + h] + d[start + h..start + 2 * h]
  {
    FramedSlices(b, c, start, h, start + h, start + 2 * h);
    FramedSlices(c, d, start + h, h, start, start + h);
    SliceJoin(b, start, h);
    SliceJoin(d, start, h);
  }

  lemma RecurseUnfold<Cell, Power>(ops: Ops<Cell, Power>, n: nat, cutoff: nat, s: seq<Cell>)
    requires |s| == Pow2(n) && cutoff >= 1
    ensures |s| % Pow2(n) == 0
    ensures |s| <= cutoff ==> RecurseF(ops, n, cutoff, s) == IterateF(ops, n, s) && RecurseT(ops, n, cutoff, s) == IterateT(ops, n, s)
    ensures |s| > cutoff && n >= 1 ==> |s| / 2 == Pow2(n - 1) && |s| == 2 * Pow2(n - 1)
    ensures |s| > cutoff && n >= 1 ==>
              var (u, h) := (Stage(ops, n, s), |s| / 2);
              RecurseF(ops, n, cutoff, s) == if |s| >= 4 then RecurseF(ops, n - 1, cutoff, u[..h]) + RecurseF(ops, n - 1, cutoff, u[h..]) else u
    ensures |s| > cutoff && n >= 1 ==>
              var h := |s| / 2;
              RecurseT(ops, n, cutoff, s)
              == Stage(ops, n, if h >= 2 then RecurseT(ops, n - 1, cutoff, s[..h]) + RecurseT(ops, n - 1, cutoff, s[h..]) else s)
  {
    PowerDivides(n, n);
    if n >= 1 { HalfLength(n); }
    hide Stage, IterateF, IterateT, Pow2;
  }

  /** RFFT2_T, RevRFFT2_T and FwdRFFT2_T (quad2fft.c:372-418, 478-524, 580-626): recursive, in time. */
  method Rfft2T<Cell, Power>(data: array<Cell>, start: nat, len: nat, ghost n: nat, log2: nat, cutoff: nat, ops: Ops<Cell, Power>)
    requires start + len <= data.Length && len == Pow2(n) && log2 == n && cutoff >= 1
    modifies data
    ensures data[start..start + len] == RecurseT(ops, n, cutoff, old(data[start..start + len]))
    ensures Framed(old(data[..]), data[..], start, len)
    decreases n
  {
    hide Stage, IterateT, RecurseT, Framed, Pow2;
    ghost var a := data[..];
    StepDivides(n, n);
    ViewOf(a, start, len);
    RecurseUnfold(ops, n, cutoff, a[start..start + len]);
    if len <= cutoff {
      Fft2T(data, start, len, n, ops);
      return;
    }
    FirstPower();
    LengthAbove(n);
    HalfLength(n);
    var len2 := len / 2;
    ghost var c := a;
    FramedSame(a, start, len);
    if len2 >= 2 {
      Views(data, start, len2);
      Rfft2T(data, start, len2, n - 1, log2 - 1, cutoff, ops);
      ghost var b := data[..];
      Views(data, start, len2);
      Rfft2T(data, start + len2, len2, n - 1, log2 - 1, cutoff, ops);
      c := data[..];
      Views(data, start, len2);
      HalvesDone(a, b, c, start, len2);
      FramedWider(a, b, start, len2, start, len);
      FramedWider(b, c, start + len2, len2, start, len);
      FramedTwice(a, b, c, start, len);
    }
    OneStage(data, start, len, len, n, log2, ops);
    FramedTwice(a, c, data[..], start, len);
  }

  /** The recursive routines leave in the array what the iterative ones would. */
  method BothWays<Cell, Power>(recursive: array<Cell>, iterative: array<Cell>, ghost n: nat, log2: nat, cutoff: nat, time: bool, ops: Ops<Cell, Power>)
    requires recursive != iterative && recursive[..] == iterative[..] && recursive.Length == Pow2(n) && log2 == n && cutoff >= 1
    modifies recursive, iterative
    ensures recursive[..] == iterative[..]
  {
    hide Stage, IterateF, IterateT, RecurseF, RecurseT, Framed, Pow2;
    ghost var s := recursive[..];
    var len := recursive.Length;
    assert recursive[0..0 + len] == s == iterative[0..0 + len];
    RecursionIsIterationF(ops, n, cutoff, s);
    RecursionIsIterationT(ops, n, cutoff, s);
    if time {
      Rfft2T(recursive, 0, len, n, log2, cutoff, ops);
      Fft2T(iterative, 0, len, n, ops);
    } else {
      Rfft2F(recursive, 0, len, n, log2, cutoff, ops);
      Fft2F(iterative, 0, len, n, log2, ops);
    }
    assert recursive[0..0 + len] == recursive[..] && iterative[0..0 + len] == iterative[..];
  }
}
