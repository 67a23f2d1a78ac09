/** Quotients, remainders, powers of two and bit reversal. */
module Arithmetic {

  lemma MulMonotone(a: int, b: int, c: int)
    requires a <= b && 0 <= c
    ensures c * a <= c * b
  {}

  /** Quotient and remainder are the only q and r with p == d * q + r and 0 <= r < d. */
  lemma DivModUnique(p: int, d: int, q: int, r: int)
    requires 0 <= r < d && p == d * q + r
    ensures p / d == q && p % d == r
  {
    var q', r' := p / d, p % d;
    assert p == d * q' + r';
    assert d * (q' - q) == r - r';
    if q' > q {
      MulMonotone(1, q' - q, d);
    } else if q' < q {
      MulMonotone(q' - q, -1, d);
    }
  }

  lemma DivMod(p: int, d: int)
    requires 0 < d
    ensures p == d * (p / d) + p % d && 0 <= p % d < d
  {}

  lemma QuotientNonNegative(p: nat, d: nat)
    requires 0 < d
    ensures 0 <= p / d <= p
  {
    DivMod(p, d);
    if p / d < 0 {
      MulMonotone(p / d, -1, d);
    } else {
      MulMonotone(1, d, p / d);
    }
  }

  function Quotient(p: nat, d: nat): nat
    requires 0 < d
  {
    QuotientNonNegative(p, d);
    p / d
  }

  function Pow2(k: nat): (n: nat)
    ensures n >= 1
  {
    if k == 0 then 1 else 2 * Pow2(k - 1)
  }

  lemma {:induction false} Pow2Add(a: nat, b: nat)
    ensures Pow2(a + b) == Pow2(a) * Pow2(b)
  {
    if b > 0 {
      Pow2Add(a, b - 1);
      assert 2 * (Pow2(a) * Pow2(b - 1)) == Pow2(a) * (2 * Pow2(b - 1));
    }
  }

  lemma {:induction false} Pow2Monotone(a: nat, b: nat)
    requires a <= b
    ensures Pow2(a) <= Pow2(b)
  {
    if a < b {
      Pow2Monotone(a, b - 1);
    }
  }

  lemma PowerDivides(a: nat, k: nat)
    requires a <= k
    ensures Pow2(k) % Pow2(a) == 0
  {
    Pow2Add(a, k - a);
    DivModUnique(Pow2(k), Pow2(a), Pow2(k - a), 0);
  }

  lemma {:induction false} Pow2Exceeds(k: nat)
    ensures k < Pow2(k)
  {
    if k > 0 {
      Pow2Exceeds(k - 1);
    }
  }

  predicate IsPow2(n: nat) {
    n > 0 && BitAnd(n, n - 1) == 0
  }

  /** The bitwise and of two numbers. */
  function BitAnd(a: nat, b: nat): nat {
    if a == 0 || b == 0 then 0
    else 2 * BitAnd(a / 2, b / 2) + if a % 2 == 1 && b % 2 == 1 then 1 else 0
  }

  lemma {:induction false} BitAndSelf(a: nat)
    ensures BitAnd(a, a) == a
  {
    if a > 0 {
      BitAndSelf(a / 2);
    }
  }

  /** The test n & (n - 1) == 0 of libbench/pow2.c:3-6 finds exactly the powers of two. */
  lemma {:induction false} PowerOfTwoTest(n: nat) returns (k: nat)
    ensures IsPow2(n) ==> n == Pow2(k)
    ensures (exists j: nat :: n == Pow2(j)) ==> IsPow2(n)
  {
    k := 0;
    if n % 2 == 1 {
      BitAndSelf(n / 2);
      assert n > 1 ==> (n - 1) / 2 == n / 2;
      forall j: nat | n == Pow2(j) ensures n == 1 {}
    } else if n > 0 {
      k := PowerOfTwoTest(n / 2);
      assert (n - 1) / 2 == n / 2 - 1;
      k := k + 1;
      forall j: nat | n == Pow2(j) ensures IsPow2(n) {
        assert n / 2 == Pow2(j - 1);
      }
    }
  }

  // ----- bit reversal -----

  /** The number whose k bits are the low k bits of i in the opposite order. */
  function Reverse(k: nat, i: nat): nat {
    if k == 0 then 0 else (if i % 2 == 1 then Pow2(k - 1) else 0) + Reverse(k - 1, i / 2)
  }

  lemma {:induction false} ReverseZero(k: nat)
    ensures Reverse(k, 0) == 0
  {
    if k > 0 {
      ReverseZero(k - 1);
    }
  }

  lemma {:induction false} ReverseBound(k: nat, i: nat)
    ensures Reverse(k, i) < Pow2(k)
  {
    if k > 0 {
      ReverseBound(k - 1, i / 2);
    }
  }

  /** The cells of x in bit-reversed order. */
  function Shuffled<T>(x: seq<T>, bits: nat): (r: seq<T>)
    requires |x| == Pow2(bits)
    ensures |r| == |x|
  {
    seq(|x|, k requires 0 <= k < |x| => (ReverseBound(bits, k); x[Reverse(bits, k)]))
  }

  /** Reversal seen from the other end: the top bit becomes the bottom bit. */
  lemma {:induction false} ReverseTop(k: nat, b: nat, r: nat)
    requires b < 2 && r < Pow2(k)
    ensures Reverse(k + 1, (if b == 1 then Pow2(k) else 0) + r) == 2 * Reverse(k, r) + b
  {
    var i := (if b == 1 then Pow2(k) else 0) + r;
    if k == 0 {
      assert r == 0 && i == b;
      ReverseStep(1, i);
    } else {
      var h := if b == 1 then Pow2(k - 1) else 0;
      assert i % 2 == r % 2 && i / 2 == h + r / 2;
      ReverseTop(k - 1, b, r / 2);
      ReverseStep(k + 1, i);
      ReverseStep(k, r);
    }
  }

  lemma ReverseStep(k: nat, i: nat)
    requires k > 0
    ensures Reverse(k, i) == (if i % 2 == 1 then Pow2(k - 1) else 0) + Reverse(k - 1, i / 2)
  {}

  /** Even places come from the lower half and odd ones from the upper half. */
  lemma ReverseHalves(k: nat, p: nat)
    requires k >= 1 && p < Pow2(k)
    ensures var h := Pow2(k - 1);
            if p < h then Reverse(k, p) == 2 * Reverse(k - 1, p) else Reverse(k, p) == 2 * Reverse(k - 1, p - h) + 1
  {
    var h := Pow2(k - 1);
    assert Pow2(k) == 2 * h;
    hide Reverse, Pow2;
    if p < h {
      ReverseTop(k - 1, 0, p);
    } else {
      ReverseTop(k - 1, 1, p - h);
    }
  }

  /** Reversing the bits twice gives the number back. */
  lemma {:induction false} ReverseInvolution(k: nat, i: nat)
    requires i < Pow2(k)
    ensures Reverse(k, Reverse(k, i)) == i
  {
    if k > 0 {
      ReverseInvolution(k - 1, i / 2);
      ReverseBound(k - 1, i / 2);
      ReverseStep(k, i);
      ReverseTop(k - 1, i % 2, Reverse(k - 1, i / 2));
    }
  }

  // Bit m (a power of two) of j, and j with that bit flipped.
  predicate BitSet(j: nat, m: nat)
    requires m > 0
  {
    (j / m) % 2 == 1
  }

  function FlipBit(j: nat, m: nat): int
    requires m > 0
  {
    if BitSet(j, m) then j - m else j + m
  }

  lemma BitOfSmall(j: nat, m: nat)
    requires 0 < m && j < 2 * m
    ensures BitSet(j, m) <==> m <= j
  {
    DivModUnique(j, m, if j < m then 0 else 1, if j < m then j else j - m);
  }

  /** One flip of the counter: either it completes the carry or the carry moves one bit down. */
  lemma CounterStep(q: nat, i: nat, j: nat)
    requires 0 < q && i + 1 < Pow2(q) && j == Reverse(q, i)
    ensures var (m, h) := (Pow2(q - 1), i / 2);
            var next := FlipBit(j, m);
            && 0 <= next
            && (BitSet(next, m) ==> next == Reverse(q, i + 1))
            && (!BitSet(next, m) ==>
                  next == Reverse(q - 1, h) && h + 1 < m && Reverse(q, i + 1) == Reverse(q - 1, h + 1))
  {
    var m, h := Pow2(q - 1), i / 2;
    ReverseBound(q - 1, h);
    BitOfSmall(j, m);
    BitOfSmall(FlipBit(j, m), m);
    ReverseStep(q, i + 1);
    if i % 2 == 1 {
      assert (i + 1) / 2 == h + 1 && (i + 1) % 2 == 0;
    } else {
      assert (i + 1) / 2 == h && (i + 1) % 2 == 1;
    }
  }

  lemma PowerZero()
    ensures Pow2(0) == 1
  {}

  lemma HalfPower(q: nat)
    requires q > 0
    ensures Pow2(q) / 2 == Pow2(q - 1) > 0
  {}

  /** The bit-reversed counter (libbench/mp.c:439-440): from the reversal of i to that of i + 1. */
  method NextReversed(ghost k: nat, n: nat, ghost i: nat, j: nat) returns (next: nat)
    requires n == Pow2(k) && i + 1 < n && j == Reverse(k, i)
    ensures next == Reverse(k, i + 1)
  {
    PowerZero();
    hide Reverse, Pow2, BitSet;
    var m := n;
    next := j;
    ghost var q: nat, h: nat := k, i;
    var stop := false;
    while !stop
      invariant 0 <= q <= k && 0 <= h && 0 <= next && m == Pow2(q)
      invariant !stop ==> h + 1 < Pow2(q) && next == Reverse(q, h) && Reverse(k, i + 1) == Reverse(q, h + 1)
      invariant stop ==> next == Reverse(k, i + 1)
      decreases !stop, q
    {
      if q == 0 {
        assert false;
      }
      HalfPower(q);
      CounterStep(q, h, next);
      m := m / 2;
      next := FlipBit(next, m);
      stop := BitSet(next, m);
      q, h := q - 1, h / 2;
    }
  }
}
