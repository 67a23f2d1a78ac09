/** The unpacked Hermitian format of libbench/copy-h2c-unpacked.c and libbench/copy-c2h-unpacked.c:
    of an array of any rank whose transform is real, only the first half of the last dimension is
    kept. The sizes of all dimensions but the last are pre; the cells are a matrix with one row
    for each index into pre.
  */
module Hermitian {
  import opened Arithmetic
  import opened ComplexNumbers
  import opened Matrices

  // ----- indices -----

  predicate Positive(n: seq<nat>) { forall i :: 0 <= i < |n| ==> n[i] > 0 }

  function Product(n: seq<nat>): nat {
    if n == [] then 1 else Area(Product(n[..|n| - 1]), n[|n| - 1])
  }

  /** -k on the circle of n points. */
  function Negative(n: nat, k: int): int { if k == 0 then 0 else n - k }

  /** The row-major index of a tuple. */
  function Flat(n: seq<nat>, index: seq<nat>): nat
    requires |index| == |n|
  {
    if n == [] then 0
    else
      var last := |n| - 1;
      var r := Flat(n[..last], index[..last]);
      AtNatural(n[last], r, index[last]);
      At(n[last], r, index[last])
  }

  lemma AtNatural(w: nat, r: nat, c: nat)
    ensures At(w, r, c) >= 0
  {
    MulMonotone(0, r, w);
  }

  predicate InRange(n: seq<nat>, index: seq<nat>) {
    |index| == |n| && forall i :: 0 <= i < |n| ==> index[i] < n[i]
  }

  /** The tuple of the negatives. */
  function Negated(n: seq<nat>, index: seq<nat>): (r: seq<nat>)
    requires InRange(n, index)
    ensures InRange(n, r)
  {
    seq(|n|, i requires 0 <= i < |n| => Negative(n[i], index[i]))
  }

  /** The row-major index of the negated tuple, from the row-major index of the tuple. */
  function Mirror(n: seq<nat>, b: nat): int
    requires Positive(n)
  {
    if n == [] then 0
    else
      var w := n[|n| - 1];
      At(w, Mirror(n[..|n| - 1], Quotient(b, w)), Negative(w, b % w))
  }

  lemma QuotientOf(w: nat, r: nat, c: nat)
    requires c < w && At(w, r, c) >= 0
    ensures Quotient(At(w, r, c), w) == r && At(w, r, c) % w == c
  {
    DivModUnique(At(w, r, c), w, r, c);
  }

  lemma {:induction false} MirrorStep(n: seq<nat>, w: nat, b: nat, k: nat)
    requires Positive(n) && k < w && At(w, b, k) >= 0
    ensures Positive(n + [w]) && Mirror(n + [w], At(w, b, k)) == At(w, Mirror(n, b), Negative(w, k))
  {
    hide At;
    QuotientOf(w, b, k);
    assert (n + [w])[..|n|] == n;
  }

  /** What Mirror is: the index of the negated tuple. */
  lemma {:induction false} MirrorIsNegated(n: seq<nat>, index: seq<nat>)
    requires Positive(n) && InRange(n, index)
    ensures Mirror(n, Flat(n, index)) == Flat(n, Negated(n, index))
  {
    if n != [] {
      var last := |n| - 1;
      MirrorIsNegated(n[..last], index[..last]);
      hide At;
      assert Negated(n, index)[..last] == Negated(n[..last], index[..last]);
      QuotientOf(n[last], Flat(n[..last], index[..last]), index[last]);
    }
  }

  lemma {:induction false} MirrorInRange(n: seq<nat>, b: nat)
    requires Positive(n) && b < Product(n)
    ensures 0 <= Mirror(n, b) < Product(n)
  {
    if n != [] {
      var (pre, w) := (n[..|n| - 1], n[|n| - 1]);
      hide Area, At;
      var r, c := AtCovers(Product(pre), w, b);
      QuotientOf(w, r, c);
      MirrorInRange(pre, r);
      AtBound(Product(pre), w, Mirror(pre, r), Negative(w, c));
    }
  }

  /** Negating twice gives the index back. */
  lemma {:induction false} MirrorTwice(n: seq<nat>, b: nat)
    requires Positive(n) && b < Product(n)
    ensures 0 <= Mirror(n, b) && Mirror(n, Mirror(n, b)) == b
  {
    MirrorInRange(n, b);
    if n != [] {
      var (pre, w) := (n[..|n| - 1], n[|n| - 1]);
      hide Area, At;
      var r, c := AtCovers(Product(pre), w, b);
      QuotientOf(w, r, c);
      MirrorInRange(pre, r);
      MirrorTwice(pre, r);
      QuotientOf(w, Mirror(pre, r), Negative(w, c));
    }
  }

  lemma {:induction false} ProductFirst(x: nat, n: seq<nat>)
    ensures Product([x] + n) == Area(x, Product(n))
  {
    if n != [] {
      var last := |n| - 1;
      ProductFirst(x, n[..last]);
      assert ([x] + n)[..|n|] == [x] + n[..last];
      AreaAssoc(x, Product(n[..last]), n[last]);
    } else {
      assert Product([]) == 1 && ([x] + n)[..0] == [];
    }
  }

  lemma AreaAssoc(x: nat, y: nat, z: nat)
    ensures Area(Area(x, y), z) == Area(x, Area(y, z))
  {}

  lemma {:induction false} ProductPositive(n: seq<nat>)
    requires Positive(n)
    ensures Product(n) > 0
  {
    if n != [] {
      ProductPositive(n[..|n| - 1]);
      MulMonotone(1, Product(n[..|n| - 1]), n[|n| - 1]);
    }
  }

  // ----- the half array -----

  /** The number of cells that are kept of a row of n. */
  function Half(n: nat): nat { 1 + n / 2 }

  /** The cell (b, k) of the whole array, from the half array in, where mb is the mirror of b. */
  function Expanded(half: seq<C>, n: nat, b: int, mb: int, k: int, sign: real): C {
    if 2 * k <= n then Signed(-sign, Entry(half, Half(n), b, k)) else Signed(sign, Entry(half, Half(n), mb, n - k))
  }

  function Signed(r: real, a: C): C { C(a.re, r * a.im) }

  /** The rows b that have the index nb in front of q more cells. */
  predicate Under(b: nat, q: nat, nb: int) { q > 0 && b / q == nb }

  /** The rows of out under nb are those of the whole array; the others are the old ones. */
  ghost predicate RowsExpanded(half: seq<C>, old_: seq<C>, out: seq<C>, pre: seq<nat>, n: nat, q: nat, nb: int, sign: real)
    requires Positive(pre)
  {
    && |out| == |old_|
    && forall b: nat, k: nat {:trigger Entry(out, n, b, k)} :: b < Product(pre) && k < n ==>
         Entry(out, n, b, k) == if Under(b, q, nb) then Expanded(half, n, b, Mirror(pre, b), k, sign) else Entry(old_, n, b, k)
  }

  method SetCell(data: array<C>, ghost rows: nat, w: nat, j: nat, k: nat, v: C)
    requires data.Length == Area(rows, w) && j < rows && k < w
    modifies data
    ensures forall r, c {:trigger Entry(data[..], w, r, c)} :: 0 <= r < rows && 0 <= c < w ==>
      Entry(data[..], w, r, c) == if r == j && c == k then v else old(Entry(data[..], w, r, c))
  {
    hide Area, At;
    AtBound(rows, w, j, k);
    data[At(w, j, k)] := v;
    forall r, c | 0 <= r < rows && 0 <= c < w
      ensures At(w, r, c) == At(w, j, k) ==> r == j && c == k
    {
      if At(w, r, c) == At(w, j, k) { AtUnique(w, r, c, j, k); }
    }
  }

  method GetCell(data: array<C>, ghost rows: nat, w: nat, j: nat, k: nat) returns (v: C)
    requires data.Length == Area(rows, w) && j < rows && k < w
    ensures v == Entry(data[..], w, j, k)
  {
    hide Area, At;
    AtBound(rows, w, j, k);
    v := data[At(w, j, k)];
  }

  /** The case of rank 1: libbench/copy-h2c-unpacked.c:15-30. */
  method CpRow(input: array<C>, out: array<C>, ghost rows: nat, n0: nat, nb: nat, mnb: nat, sign: real)
    requires input != out && input.Length == Area(rows, Half(n0)) && out.Length == Area(rows, n0)
    requires nb < rows && mnb < rows
    modifies out
    ensures forall b, k {:trigger Entry(out[..], n0, b, k)} :: 0 <= b < rows && 0 <= k < n0 ==>
      Entry(out[..], n0, b, k) == if b == nb then Expanded(input[..], n0, nb, mnb, k, sign) else old(Entry(out[..], n0, b, k))
  {
    hide Area, Entry;
    var ld := 1 + n0 / 2;
    for k0 := 0 to n0
      invariant input[..] == old(input[..])
      invariant forall b, k {:trigger Entry(out[..], n0, b, k)} :: 0 <= b < rows && 0 <= k < n0 ==>
        Entry(out[..], n0, b, k) == if b == nb && k < k0 then Expanded(input[..], n0, nb, mnb, k, sign) else old(Entry(out[..], n0, b, k))
    {
      var a;
      if 2 * k0 <= n0 {
        a := GetCell(input, rows, ld, nb, k0);
        a := C(a.re, -sign * a.im);
      } else {
        a := GetCell(input, rows, ld, mnb, n0 - k0);
        a := C(a.re, sign * a.im);
      }
      SetCell(out, rows, n0, nb, k0, a);
    }
  }

  /** libbench/copy-h2c-unpacked.c:8-40. The first dimensions, done, have been fixed: nb is the
      index into them and mnb that of the negated tuple; n are the dimensions that remain. */
  method Cp(input: array<C>, out: array<C>, n: seq<nat>, nb: nat, mnb: nat, sign: real, ghost done: seq<nat>, ghost pre: seq<nat>)
    requires |n| >= 1 && Positive(n) && Positive(done) && Positive(pre)
    requires pre == done + n[..|n| - 1]
    requires input != out && input.Length == Area(Product(pre), Half(n[|n| - 1])) && out.Length == Area(Product(pre), n[|n| - 1])
    requires nb < Product(done) && mnb == Mirror(done, nb)
    modifies out
    ensures RowsExpanded(input[..], old(out[..]), out[..], pre, n[|n| - 1], Product(n[..|n| - 1]), nb, sign)
    decreases |n|
  {
    hide Area, Product, Positive, Entry, Expanded, Mirror, Half, RowsExpanded, Under;
    if |n| == 1 {
      assert n[..0] == [] && done + [] == done == pre;
      MirrorInRange(pre, nb);
      CpRow(input, out, Product(pre), n[0], nb, mnb, sign);
      OneRowExpanded(input[..], old(out[..]), out[..], pre, n[0], nb, mnb, sign);
    } else {
      var ni := n[0];
      ghost var q := Product(n[1..|n| - 1]);
      ghost var last := n[|n| - 1];
      RestShape(n, done, pre);
      NoChild(input[..], out[..], pre, last, q, ni, nb, sign);
      Child(done, ni, nb, 0);
      Cp(input, out, n[1..], nb * ni, mnb * ni, sign, done + [ni], pre);
      NextChild(input[..], old(out[..]), old(out[..]), out[..], pre, last, q, ni, nb, 0, sign);
      for ki := 1 to ni
        invariant input[..] == old(input[..])
        invariant ChildrenExpanded(input[..], old(out[..]), out[..], pre, last, q, ni, nb, ki, sign)
      {
        ghost var t := out[..];
        Child(done, ni, nb, ki);
        Cp(input, out, n[1..], nb * ni + ki, mnb * ni + (ni - ki), sign, done + [ni], pre);
        NextChild(input[..], old(out[..]), t, out[..], pre, last, q, ni, nb, ki, sign);
      }
      AllChildren(input[..], old(out[..]), out[..], pre, last, q, ni, nb, sign);
    }
  }

  lemma RestShape(n: seq<nat>, done: seq<nat>, pre: seq<nat>)
    requires |n| >= 2 && Positive(n) && Positive(done) && pre == done + n[..|n| - 1]
    ensures n[0] > 0 && Positive(n[1..]) && Positive(done + [n[0]]) && Positive(n[1..|n| - 1])
    ensures pre == done + [n[0]] + n[1..][..|n[1..]| - 1] && n[1..][..|n[1..]| - 1] == n[1..|n| - 1]
    ensures n[1..][|n[1..]| - 1] == n[|n| - 1]
    ensures Product(n[1..|n| - 1]) > 0
    ensures Product(n[..|n| - 1]) == Area(n[0], Product(n[1..|n| - 1]))
  {
    hide Product, Area;
    assert n[..|n| - 1] == [n[0]] + n[1..|n| - 1];
    ProductFirst(n[0], n[1..|n| - 1]);
    ProductPositive(n[1..|n| - 1]);
  }

  /** The index that is passed on, and its mirror. */
  lemma Child(done: seq<nat>, ni: nat, nb: nat, ki: nat)
    requires Positive(done) && nb < Product(done) && ki < ni
    ensures Positive(done + [ni]) && 0 <= nb * ni + ki < Product(done + [ni])
    ensures Mirror(done + [ni], nb * ni + ki) == Mirror(done, nb) * ni + Negative(ni, ki)
    ensures Mirror(done + [ni], nb * ni + ki) >= 0
  {
    assert At(ni, nb, ki) == nb * ni + ki && At(ni, Mirror(done, nb), Negative(ni, ki)) == Mirror(done, nb) * ni + Negative(ni, ki);
    hide At, Mirror, Negative, Area;
    AtBound(Product(done), ni, nb, ki);
    assert (done + [ni])[..|done|] == done;
    MirrorStep(done, ni, nb, ki);
    MirrorInRange(done + [ni], At(ni, nb, ki));
  }

  /** Like RowsExpanded, for the first ki of the ni indices under nb. */
  ghost predicate ChildrenExpanded(half: seq<C>, old_: seq<C>, out: seq<C>, pre: seq<nat>, n: nat, q: nat, ni: nat, nb: nat, ki: nat, sign: real)
    requires Positive(pre)
  {
    && |out| == |old_|
    && forall b: nat, k: nat {:trigger Entry(out, n, b, k)} :: b < Product(pre) && k < n ==>
         Entry(out, n, b, k) == if AmongChildren(b, q, ni, nb, ki) then Expanded(half, n, b, Mirror(pre, b), k, sign) else Entry(old_, n, b, k)
  }

  predicate AmongChildren(b: nat, q: nat, ni: nat, nb: nat, ki: nat) {
    q > 0 && nb * ni <= b / q < nb * ni + ki
  }

  lemma NoChild(half: seq<C>, s: seq<C>, pre: seq<nat>, n: nat, q: nat, ni: nat, nb: nat, sign: real)
    requires Positive(pre)
    ensures ChildrenExpanded(half, s, s, pre, n, q, ni, nb, 0, sign)
  {
    hide Entry, Expanded, Mirror, Product, Positive;
  }

  lemma NextChild(half: seq<C>, s: seq<C>, t: seq<C>, u: seq<C>, pre: seq<nat>, n: nat, q: nat, ni: nat, nb: nat, ki: nat, sign: real)
    requires Positive(pre) && q > 0
    requires ChildrenExpanded(half, s, t, pre, n, q, ni, nb, ki, sign)
    requires RowsExpanded(half, t, u, pre, n, q, nb * ni + ki, sign)
    ensures ChildrenExpanded(half, s, u, pre, n, q, ni, nb, ki + 1, sign)
  {
    hide Entry, Expanded, Mirror, Product, Positive;
  }

  lemma AllChildren(half: seq<C>, s: seq<C>, t: seq<C>, pre: seq<nat>, n: nat, q: nat, ni: nat, nb: nat, sign: real)
    requires Positive(pre) && q > 0 && ni > 0
    requires ChildrenExpanded(half, s, t, pre, n, q, ni, nb, ni, sign)
    ensures RowsExpanded(half, s, t, pre, n, Area(ni, q), nb, sign)
  {
    hide Entry, Expanded, Mirror, Product, Positive, AmongChildren, Under, Area;
    forall b: nat
      ensures AmongChildren(b, q, ni, nb, ni) <==> Under(b, Area(ni, q), nb)
    {
      UnderChildren(b, q, ni, nb);
    }
  }

  lemma UnderChildren(b: nat, q: nat, ni: nat, nb: nat)
    requires q > 0 && ni > 0
    ensures AmongChildren(b, q, ni, nb, ni) <==> Under(b, Area(ni, q), nb)
  {
    QuotientTwice(b, q, ni);
    hide Area;
    var d := b / q;
    DivMod(d, ni);
    if nb * ni <= d < nb * ni + ni {
      DivModUnique(d, ni, nb, d - nb * ni);
    }
  }

  lemma WithinArea(q: nat, ni: nat, u: nat, v: nat, r: nat)
    requires v < ni && r < q
    ensures 0 <= q * v + r < Area(ni, q)
    ensures q * (ni * u + v) + r == Area(ni, q) * u + (q * v + r)
  {
    MulMonotone(0, v, q);
    MulMonotone(v + 1, ni, q);
    assert q * (ni * u) == (ni * q) * u;
    assert q * (ni * u + v) == q * (ni * u) + q * v;
  }

  lemma QuotientTwice(b: nat, q: nat, ni: nat)
    requires q > 0 && ni > 0
    ensures Area(ni, q) > 0 && b / Area(ni, q) == (b / q) / ni
  {
    hide Area;
    var d, r := b / q, b % q;
    var u, v := d / ni, d % ni;
    DivMod(b, q);
    DivMod(d, ni);
    WithinArea(q, ni, u, v, r);
    DivModUnique(b, Area(ni, q), u, q * v + r);
  }

  lemma OneRowExpanded(half: seq<C>, s: seq<C>, t: seq<C>, pre: seq<nat>, n: nat, nb: nat, mnb: nat, sign: real)
    requires Positive(pre) && mnb == Mirror(pre, nb) && |s| == |t|
    requires forall b, k {:trigger Entry(t, n, b, k)} :: 0 <= b < Product(pre) && 0 <= k < n ==>
      Entry(t, n, b, k) == if b == nb then Expanded(half, n, nb, mnb, k, sign) else Entry(s, n, b, k)
    ensures RowsExpanded(half, s, t, pre, n, Product([]), nb, sign)
  {
    hide Entry, Expanded, Mirror, Positive;
    assert Product([]) == 1;
    assert forall b: nat :: Under(b, 1, nb) <==> b == nb;
    hide Product, Under;
  }

  /** The whole array that a half array stands for. */
  ghost predicate IsExpansion(half: seq<C>, out: seq<C>, pre: seq<nat>, n: nat, sign: real)
    requires Positive(pre)
  {
    forall b: nat, k: nat {:trigger Entry(out, n, b, k)} :: b < Product(pre) && k < n ==>
      Entry(out, n, b, k) == Expanded(half, n, b, Mirror(pre, b), k, sign)
  }

  /** libbench/copy-h2c-unpacked.c:42-51 */
  method CopyH2cUnpacked(pout: array<C>, out: array<C>, n: seq<nat>, sign: real)
    requires |n| >= 1 && Positive(n) && pout != out
    requires pout.Length == Area(Product(n[..|n| - 1]), Half(n[|n| - 1])) && out.Length == Product(n)
    modifies out
    ensures IsExpansion(pout[..], out[..], n[..|n| - 1], n[|n| - 1], sign)
  {
    ghost var pre := n[..|n| - 1];
    assert [] + pre == pre && Product([]) == 1;
    Cp(pout, out, n, 0, 0, sign, [], pre);
    WholeExpanded(pout[..], old(out[..]), out[..], pre, n[|n| - 1], sign);
  }

  lemma WholeExpanded(half: seq<C>, s: seq<C>, t: seq<C>, pre: seq<nat>, n: nat, sign: real)
    requires Positive(pre) && RowsExpanded(half, s, t, pre, n, Product(pre), 0, sign)
    ensures IsExpansion(half, t, pre, n, sign)
  {
    hide Entry, Expanded, Mirror, Positive, Product, Under;
    ProductPositive(pre);
    forall b: nat | b < Product(pre)
      ensures Under(b, Product(pre), 0)
    {
      UnderRoot(b, Product(pre));
    }
  }

  lemma UnderRoot(b: nat, q: nat)
    requires b < q
    ensures Under(b, q, 0)
  {
    DivModUnique(b, q, 0, b);
  }

  /** half holds the first half of each row of the whole array. */
  ghost predicate IsPacking(whole: seq<C>, half: seq<C>, rows: nat, n: nat, sign: real) {
    forall b: nat, k: nat {:trigger Entry(half, Half(n), b, k)} :: b < rows && k < Half(n) ==>
      Entry(half, Half(n), b, k) == Signed(-sign, Entry(whole, n, b, k))
  }

  /** libbench/copy-c2h-unpacked.c:8-32 */
  method CopyC2hUnpacked(pin: array<C>, input: array<C>, n: seq<nat>, sign: real)
    requires |n| >= 1 && Positive(n) && pin != input
    requires pin.Length == Area(Product(n[..|n| - 1]), Half(n[|n| - 1])) && input.Length == Product(n)
    modifies pin
    ensures IsPacking(input[..], pin[..], Product(n[..|n| - 1]), n[|n| - 1], sign)
  {
    hide Area, Entry, Half;
    var last := n[|n| - 1];
    var ld := Half(last);
    HalfFits(last);
    var n0 := 1;
    for k0 := 0 to |n| - 1
      invariant n0 == Product(n[..k0])
    {
      assert n[..k0 + 1][..k0] == n[..k0];
      n0 := n0 * n[k0];
      AreaIs(Product(n[..k0]), n[k0]);
    }
    hide Product;
    for k0 := 0 to n0
      invariant input[..] == old(input[..])
      invariant forall b: nat, k: nat {:trigger Entry(pin[..], ld, b, k)} :: b < k0 && k < ld ==>
        Entry(pin[..], ld, b, k) == Signed(-sign, Entry(input[..], last, b, k))
    {
      for k := 0 to ld
        invariant input[..] == old(input[..])
        invariant forall b: nat, j: nat {:trigger Entry(pin[..], ld, b, j)} :: (b < k0 && j < ld) || (b == k0 && j < k) ==>
          Entry(pin[..], ld, b, j) == Signed(-sign, Entry(input[..], last, b, j))
      {
        var a := CellOfWhole(input, n, k0, k);
        SetCell(pin, n0, ld, k0, k, C(a.re, -sign * a.im));
      }
    }
  }

  lemma AreaIs(x: nat, y: nat)
    ensures Area(x, y) == x * y
  {}

  /** Half a row is not longer than the row, unless the row has a single cell. */
  lemma HalfFits(n: nat)
    requires n > 0
    ensures Half(n) <= n
  {}

  method CellOfWhole(input: array<C>, n: seq<nat>, r: nat, c: nat) returns (v: C)
    requires |n| >= 1 && input.Length == Product(n) && r < Product(n[..|n| - 1]) && c < n[|n| - 1]
    ensures v == Entry(input[..], n[|n| - 1], r, c)
  {
    v := GetCell(input, Product(n[..|n| - 1]), n[|n| - 1], r, c);
  }

  // ----- the round trip -----

  /** The value at the negated index is the conjugate of the value at the index. */
  ghost predicate IsHermitian(whole: seq<C>, pre: seq<nat>, n: nat)
    requires Positive(pre)
  {
    forall b: nat, k: nat {:trigger Entry(whole, n, b, k)} :: b < Product(pre) && k < n ==>
      Entry(whole, n, Mirror(pre, b), Negative(n, k)) == Conj(Entry(whole, n, b, k))
  }

  lemma SignTwice(sign: real, a: C)
    requires sign == 1.0 || sign == -1.0
    ensures Signed(-sign, Signed(-sign, a)) == a && Signed(sign, Signed(-sign, a)) == Conj(a)
  {}

  /** The same for the part of the array that is not kept. */
  ghost predicate RestIsHermitian(whole: seq<C>, pre: seq<nat>, n: nat)
    requires Positive(pre)
  {
    forall b: nat, k: nat {:trigger Entry(whole, n, b, k)} :: b < Product(pre) && k < n && 2 * k > n ==>
      Entry(whole, n, Mirror(pre, b), n - k) == Conj(Entry(whole, n, b, k))
  }

  /** Expanding what was packed restores an array if and only if the part that is not kept is
      Hermitian. */
  lemma RoundTrip(whole: seq<C>, half: seq<C>, out: seq<C>, pre: seq<nat>, n: nat, sign: real)
    requires Positive(pre) && n > 0 && (sign == 1.0 || sign == -1.0)
    requires |whole| == |out| == Area(Product(pre), n)
    requires IsPacking(whole, half, Product(pre), n, sign) && IsExpansion(half, out, pre, n, sign)
    ensures out == whole <==> RestIsHermitian(whole, pre, n)
  {
    hide *;
    if RestIsHermitian(whole, pre, n) {
      forall r, c | 0 <= r < Product(pre) && 0 <= c < n
        ensures Entry(out, n, r, c) == Entry(whole, n, r, c)
      {
        RestoredCell(whole, half, out, pre, n, sign, r, c);
      }
      SameEntries(out, whole, Product(pre), n);
    }
    if out == whole {
      RestoredIsHermitian(whole, half, pre, n, sign);
    }
  }

  lemma RestoredCell(whole: seq<C>, half: seq<C>, out: seq<C>, pre: seq<nat>, n: nat, sign: real, b: nat, k: nat)
    requires Positive(pre) && n > 0 && (sign == 1.0 || sign == -1.0) && b < Product(pre) && k < n
    requires IsPacking(whole, half, Product(pre), n, sign) && IsExpansion(half, out, pre, n, sign)
    requires RestIsHermitian(whole, pre, n)
    ensures Entry(out, n, b, k) == Entry(whole, n, b, k)
  {
    hide Area, Entry, Mirror, Product, Positive, Signed, Half, Expanded, IsPacking, Conj;
    RoundTripCell(whole, half, pre, n, sign, b, k);
  }

  lemma RestoredIsHermitian(whole: seq<C>, half: seq<C>, pre: seq<nat>, n: nat, sign: real)
    requires Positive(pre) && n > 0 && (sign == 1.0 || sign == -1.0)
    requires IsPacking(whole, half, Product(pre), n, sign) && IsExpansion(half, whole, pre, n, sign)
    ensures RestIsHermitian(whole, pre, n)
  {
    hide Area, Entry, Mirror, Product, Positive, Signed, Half, Expanded, IsPacking, Conj;
    forall b: nat, k: nat | b < Product(pre) && k < n && 2 * k > n
      ensures Entry(whole, n, Mirror(pre, b), n - k) == Conj(Entry(whole, n, b, k))
    {
      RoundTripCell(whole, half, pre, n, sign, b, k);
    }
  }

  /** In particular every Hermitian array is restored. */
  lemma HermitianRoundTrip(whole: seq<C>, half: seq<C>, out: seq<C>, pre: seq<nat>, n: nat, sign: real)
    requires Positive(pre) && n > 0 && (sign == 1.0 || sign == -1.0)
    requires |whole| == |out| == Area(Product(pre), n)
    requires IsPacking(whole, half, Product(pre), n, sign) && IsExpansion(half, out, pre, n, sign)
    requires IsHermitian(whole, pre, n)
    ensures out == whole
  {
    hide Area, Entry, Mirror, Product, Positive, Conj, IsPacking, IsExpansion;
    RoundTrip(whole, half, out, pre, n, sign);
  }

  lemma ConjTwice(a: C, b: C)
    ensures Conj(a) == b <==> a == Conj(b)
  {}

  lemma RoundTripCell(whole: seq<C>, half: seq<C>, pre: seq<nat>, n: nat, sign: real, b: nat, k: nat)
    requires Positive(pre) && n > 0 && (sign == 1.0 || sign == -1.0) && b < Product(pre) && k < n
    requires IsPacking(whole, half, Product(pre), n, sign)
    ensures Expanded(half, n, b, Mirror(pre, b), k, sign) == Entry(whole, n, b, k) <==>
            (2 * k > n ==> Entry(whole, n, Mirror(pre, b), n - k) == Conj(Entry(whole, n, b, k)))
  {
    MirrorInRange(pre, b);
    var mb := Mirror(pre, b);
    hide Area, Entry, Mirror, Product, Positive, Signed, Conj;
    if 2 * k <= n {
      assert Entry(half, Half(n), b, k) == Signed(-sign, Entry(whole, n, b, k));
      SignTwice(sign, Entry(whole, n, b, k));
    } else {
      assert Entry(half, Half(n), mb, n - k) == Signed(-sign, Entry(whole, n, mb, n - k));
      SignTwice(sign, Entry(whole, n, mb, n - k));
      ConjTwice(Entry(whole, n, mb, n - k), Entry(whole, n, b, k));
    }
  }

  /** Packing what was expanded restores every half array. */
  lemma PackExpanded(half: seq<C>, whole: seq<C>, packed: seq<C>, pre: seq<nat>, n: nat, sign: real)
    requires Positive(pre) && n > 0 && (sign == 1.0 || sign == -1.0)
    requires |half| == |packed| == Area(Product(pre), Half(n))
    requires IsExpansion(half, whole, pre, n, sign) && IsPacking(whole, packed, Product(pre), n, sign)
    ensures packed == half
  {
    hide Area, Entry, Mirror, Product, Positive, Signed;
    forall b, k | 0 <= b < Product(pre) && 0 <= k < Half(n)
      ensures Entry(packed, Half(n), b, k) == Entry(half, Half(n), b, k)
    {
      assert Entry(whole, n, b, k) == Signed(-sign, Entry(half, Half(n), b, k));
      SignTwice(sign, Entry(half, Half(n), b, k));
    }
    SameEntries(packed, half, Product(pre), Half(n));
  }

  // ----- the cells, part by part -----

  /** Packing keeps the real part and multiplies the imaginary one by the opposite of the sign; for the
      forward sign, -1, it keeps the cell. */
  lemma PackedParts(whole: seq<C>, half: seq<C>, rows: nat, n: nat, sign: real, b: nat, k: nat)
    requires IsPacking(whole, half, rows, n, sign) && b < rows && k <= n / 2
    ensures var (x, z) := (Entry(half, n / 2 + 1, b, k), Entry(whole, n, b, k));
            && x.re == z.re
            && (sign == -1.0 ==> x == z) && (sign == 1.0 ==> x.re == z.re && x.im == 0.0 - z.im)
            && x.im == Times(0.0 - sign, z.im)
  {
    hide Entry;
    assert Half(n) == n / 2 + 1;
  }

  /** Expanding undoes that on the first half of a row; the rest comes from the mirror image, with the
      imaginary part multiplied by the sign itself. */
  lemma ExpandedParts(half: seq<C>, n: nat, b: int, mb: int, k: int, sign: real)
    ensures var (x, z) := (Expanded(half, n, b, mb, k, sign), Entry(half, n / 2 + 1, b, k));
            2 * k <= n ==> x.re == z.re && x.im == Times(0.0 - sign, z.im) && (sign == -1.0 ==> x == z)
    ensures var (x, z) := (Expanded(half, n, b, mb, k, sign), Entry(half, n / 2 + 1, mb, n - k));
            2 * k > n ==> x.re == z.re && x.im == Times(sign, z.im) && (sign == -1.0 ==> x.im == 0.0 - z.im)
  {
    hide Entry;
    assert Half(n) == n / 2 + 1;
  }
}
