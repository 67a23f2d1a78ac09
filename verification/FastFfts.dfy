/** In-place matrix transposition and the six-step transform of
    benchees/ransom/ransom/fastffts.c. A pointer into a matrix is the row and the column that it
    points at; a raw cell is a complex number.
  */
module FastFfts {
  import opened ComplexNumbers
  import opened DiscreteFourier
  import opened Roots
  import opened Arithmetic
  import opened Matrices

  // ----- cells -----

  /** Two cells change places. */
  method SwapCells(data: array<C>, ghost rows: nat, w: nat, r1: nat, c1: nat, r2: nat, c2: nat)
    requires data.Length == Area(rows, w) && r1 < rows && r2 < rows && c1 < w && c2 < w
    modifies data
    ensures Exchanged(old(data[..]), data[..], rows, w, r1, c1, r2, c2, 1)
  {
    hide Area, At, Exchanged, Entry;
    AtBound(rows, w, r1, c1);
    AtBound(rows, w, r2, c2);
    ghost var s := data[..];
    data[At(w, r1, c1)], data[At(w, r2, c2)] := data[At(w, r2, c2)], data[At(w, r1, c1)];
    CellsExchanged(s, data[..], rows, w, r1, c1, r2, c2);
  }

  lemma CellsExchanged(s: seq<C>, t: seq<C>, rows: nat, w: nat, r1: nat, c1: nat, r2: nat, c2: nat)
    requires |s| == Area(rows, w) && r1 < rows && r2 < rows && c1 < w && c2 < w
    requires 0 <= At(w, r1, c1) < |s| && 0 <= At(w, r2, c2) < |s|
    requires t == s[At(w, r1, c1) := s[At(w, r2, c2)]][At(w, r2, c2) := s[At(w, r1, c1)]]
    ensures Exchanged(s, t, rows, w, r1, c1, r2, c2, 1)
  {
    hide Area, At;
    forall r, c | 0 <= r < rows && 0 <= c < w
      ensures (At(w, r, c) == At(w, r1, c1) ==> r == r1 && c == c1)
           && (At(w, r, c) == At(w, r2, c2) ==> r == r2 && c == c2)
    {
      if At(w, r, c) == At(w, r1, c1) { AtUnique(w, r, c, r1, c1); }
      if At(w, r, c) == At(w, r2, c2) { AtUnique(w, r, c, r2, c2); }
    }
    CellsRead(s, t, rows, w, r1, c1, r2, c2);
  }

  lemma CellsRead(s: seq<C>, t: seq<C>, rows: nat, w: nat, r1: int, c1: int, r2: int, c2: int)
    requires forall r, c :: 0 <= r < rows && 0 <= c < w ==>
      Entry(t, w, r, c) == (
        if r == r1 && c == c1 then Entry(s, w, r2, c2)
        else if r == r2 && c == c2 then Entry(s, w, r1, c1)
        else Entry(s, w, r, c))
    ensures Exchanged(s, t, rows, w, r1, c1, r2, c2, 1)
  {
    hide Entry;
  }

  method CopyCell(d: array<C>, ghost dRows: nat, nd: nat, r1: nat, c1: nat, s: array<C>, ghost sRows: nat, ns: nat, r2: nat, c2: nat)
    requires d != s && d.Length == Area(dRows, nd) && s.Length == Area(sRows, ns)
    requires r1 < dRows && r2 < sRows && c1 < nd && c2 < ns
    modifies d
    ensures forall r, c :: 0 <= r < dRows && 0 <= c < nd ==>
      Entry(d[..], nd, r, c) == if r == r1 && c == c1 then Entry(s[..], ns, r2, c2) else old(Entry(d[..], nd, r, c))
  {
    hide Area, At;
    AtBound(dRows, nd, r1, c1);
    AtBound(sRows, ns, r2, c2);
    d[At(nd, r1, c1)] := s[At(ns, r2, c2)];
    forall r, c | 0 <= r < dRows && 0 <= c < nd
      ensures At(nd, r, c) == At(nd, r1, c1) ==> r == r1 && c == c1
    {
      if At(nd, r, c) == At(nd, r1, c1) { AtUnique(nd, r, c, r1, c1); }
    }
  }

  // ----- blocks -----

  predicate In(r: int, c: int, row: int, col: int, b: int) {
    row <= r < row + b && col <= c < col + b
  }

  /** t is s with the b x b block at (row, col) transposed. */
  ghost predicate Transposed(s: seq<C>, t: seq<C>, rows: nat, w: nat, row: int, col: int, b: int) {
    forall r, c {:trigger Entry(t, w, r, c)} :: 0 <= r < rows && 0 <= c < w ==>
      Entry(t, w, r, c) == if In(r, c, row, col, b) then Entry(s, w, row + (c - col), col + (r - row)) else Entry(s, w, r, c)
  }

  /** t is s with the blocks at (r1, c1) and (r2, c2) transposed and exchanged. */
  ghost predicate Exchanged(s: seq<C>, t: seq<C>, rows: nat, w: nat, r1: int, c1: int, r2: int, c2: int, b: int) {
    forall r, c {:trigger Entry(t, w, r, c)} :: 0 <= r < rows && 0 <= c < w ==>
      Entry(t, w, r, c) == (
        if In(r, c, r1, c1, b) then Entry(s, w, r2 + (c - c1), c2 + (r - r1))
        else if In(r, c, r2, c2, b) then Entry(s, w, r1 + (c - c2), c1 + (r - r2))
        else Entry(s, w, r, c))
  }

  /** What a transposition by blocks of b has done: all of rows and columns before j, and the
      columns (and rows) before k of the next b. */
  predicate Done(x: int, y: int, j: int, b: int, k: int) {
    var (low, high) := if x < y then (x, y) else (y, x);
    low < j || (low < j + b && high < k)
  }

  ghost predicate Partly(s: seq<C>, t: seq<C>, rows: nat, w: nat, row: int, col: int, n: int, j: int, b: int, k: int) {
    forall r, c {:trigger Entry(t, w, r, c)} :: 0 <= r < rows && 0 <= c < w ==>
      Entry(t, w, r, c) ==
        if In(r, c, row, col, n) && Done(r - row, c - col, j, b, k)
        then Entry(s, w, row + (c - col), col + (r - row)) else Entry(s, w, r, c)
  }

  lemma NothingDone(s: seq<C>, rows: nat, w: nat, row: int, col: int, n: int, b: int)
    ensures Partly(s, s, rows, w, row, col, n, 0, b, 0)
  {
    hide Entry;
  }

  lemma RowDone(s: seq<C>, t: seq<C>, rows: nat, w: nat, row: int, col: int, n: int, j: int, b: int)
    requires b >= 0 && Partly(s, t, rows, w, row, col, n, j, b, n)
    ensures Partly(s, t, rows, w, row, col, n, j + b, b, 0)
  {
    hide Entry;
  }

  lemma AllDone(s: seq<C>, t: seq<C>, rows: nat, w: nat, row: int, col: int, n: int, b: int)
    requires Partly(s, t, rows, w, row, col, n, n, b, 0)
    ensures Transposed(s, t, rows, w, row, col, n)
  {
    hide Entry;
  }

  lemma DiagonalDone(s: seq<C>, t: seq<C>, u: seq<C>, rows: nat, w: nat, row: int, col: int, n: int, j: int, b: int)
    requires 0 <= row && row + n <= rows && 0 <= col && col + n <= w && 0 <= j <= j + b <= n
    requires Partly(s, t, rows, w, row, col, n, j, b, 0)
    requires Transposed(t, u, rows, w, row + j, col + j, b)
    ensures Partly(s, u, rows, w, row, col, n, j, b, j + b)
  {
    hide Entry;
  }

  lemma PairDone(s: seq<C>, t: seq<C>, u: seq<C>, rows: nat, w: nat, row: int, col: int, n: int, j: int, b: int, k: int)
    requires 0 <= row && row + n <= rows && 0 <= col && col + n <= w && 0 <= j < j + b <= k < k + b <= n
    requires Partly(s, t, rows, w, row, col, n, j, b, k)
    requires Exchanged(t, u, rows, w, row + j, col + k, row + k, col + j, b)
    ensures Partly(s, u, rows, w, row, col, n, j, b, k + b)
  {
    hide Entry;
  }

  /** benchees/ransom/ransom/fastffts.c:386-397 */
  method TransposeBlock(data: array<C>, ghost rows: nat, row: nat, col: nat, b: nat, w: nat)
    requires data.Length == Area(rows, w) && row + b <= rows && col + b <= w
    modifies data
    ensures Transposed(old(data[..]), data[..], rows, w, row, col, b)
  {
    hide *;
    NothingDone(data[..], rows, w, row, col, b, 1);
    for j := 0 to b
      invariant Partly(old(data[..]), data[..], rows, w, row, col, b, j, 1, 0)
    {
      DiagonalCell(old(data[..]), data[..], rows, w, row, col, b, j);
      for k := j + 1 to b
        invariant Partly(old(data[..]), data[..], rows, w, row, col, b, j, 1, k)
      {
        ghost var t := data[..];
        SwapCells(data, rows, w, row + j, col + k, row + k, col + j);
        PairDone(old(data[..]), t, data[..], rows, w, row, col, b, j, 1, k);
      }
      RowDone(old(data[..]), data[..], rows, w, row, col, b, j, 1);
    }
    AllDone(old(data[..]), data[..], rows, w, row, col, b, 1);
  }

  lemma DiagonalCell(s: seq<C>, t: seq<C>, rows: nat, w: nat, row: int, col: int, n: int, j: int)
    requires Partly(s, t, rows, w, row, col, n, j, 1, 0)
    ensures Partly(s, t, rows, w, row, col, n, j, 1, j + 1)
  {
    hide Entry;
  }

  /** Cells of the block at (row, col) before (j, k). */
  predicate Before(r: int, c: int, row: int, col: int, b: int, j: int, k: int) {
    In(r, c, row, col, b) && (r < row + j || (r == row + j && c < col + k))
  }

  ghost predicate PartlyExchanged(s: seq<C>, t: seq<C>, rows: nat, w: nat, r1: int, c1: int, r2: int, c2: int, b: int, j: int, k: int) {
    forall r, c {:trigger Entry(t, w, r, c)} :: 0 <= r < rows && 0 <= c < w ==>
      Entry(t, w, r, c) == (
        if Before(r2 + (c - c1), c2 + (r - r1), r2, c2, b, j, k) then Entry(s, w, r2 + (c - c1), c2 + (r - r1))
        else if Before(r, c, r2, c2, b, j, k) then Entry(s, w, r1 + (c - c2), c1 + (r - r2))
        else Entry(s, w, r, c))
  }

  /** benchees/ransom/ransom/fastffts.c:372-383 */
  method Transpose2Blocks(data: array<C>, ghost rows: nat, r1: nat, c1: nat, r2: nat, c2: nat, b: nat, w: nat)
    requires data.Length == Area(rows, w) && r1 + b <= rows && r2 + b <= rows && c1 + b <= w && c2 + b <= w
    requires r1 + b <= r2 || r2 + b <= r1
    modifies data
    ensures Exchanged(old(data[..]), data[..], rows, w, r1, c1, r2, c2, b)
  {
    hide *;
    ExchangeBegins(data[..], rows, w, r1, c1, r2, c2, b);
    for j := 0 to b
      invariant PartlyExchanged(old(data[..]), data[..], rows, w, r1, c1, r2, c2, b, j, 0)
    {
      for k := 0 to b
        invariant PartlyExchanged(old(data[..]), data[..], rows, w, r1, c1, r2, c2, b, j, k)
      {
        ghost var t := data[..];
        SwapCells(data, rows, w, r2 + j, c2 + k, r1 + k, c1 + j);
        ExchangeStep(old(data[..]), t, data[..], rows, w, r1, c1, r2, c2, b, j, k);
      }
      ExchangeRow(old(data[..]), data[..], rows, w, r1, c1, r2, c2, b, j);
    }
    ExchangeEnds(old(data[..]), data[..], rows, w, r1, c1, r2, c2, b);
  }

  lemma ExchangeBegins(s: seq<C>, rows: nat, w: nat, r1: int, c1: int, r2: int, c2: int, b: int)
    ensures PartlyExchanged(s, s, rows, w, r1, c1, r2, c2, b, 0, 0)
  {
    hide Entry;
  }

  lemma ExchangeStep(s: seq<C>, t: seq<C>, u: seq<C>, rows: nat, w: nat, r1: int, c1: int, r2: int, c2: int, b: int, j: int, k: int)
    requires 0 <= r1 && 0 <= c1 && 0 <= r2 && 0 <= c2 && r1 + b <= rows && r2 + b <= rows && c1 + b <= w && c2 + b <= w
    requires r1 + b <= r2 || r2 + b <= r1
    requires 0 <= j < b && 0 <= k < b
    requires PartlyExchanged(s, t, rows, w, r1, c1, r2, c2, b, j, k)
    requires Exchanged(t, u, rows, w, r2 + j, c2 + k, r1 + k, c1 + j, 1)
    ensures PartlyExchanged(s, u, rows, w, r1, c1, r2, c2, b, j, k + 1)
  {
    hide Entry;
  }

  lemma ExchangeRow(s: seq<C>, t: seq<C>, rows: nat, w: nat, r1: int, c1: int, r2: int, c2: int, b: int, j: int)
    requires PartlyExchanged(s, t, rows, w, r1, c1, r2, c2, b, j, b)
    ensures PartlyExchanged(s, t, rows, w, r1, c1, r2, c2, b, j + 1, 0)
  {
    hide Entry;
  }

  lemma ExchangeEnds(s: seq<C>, t: seq<C>, rows: nat, w: nat, r1: int, c1: int, r2: int, c2: int, b: int)
    requires PartlyExchanged(s, t, rows, w, r1, c1, r2, c2, b, b, 0)
    ensures Exchanged(s, t, rows, w, r1, c1, r2, c2, b)
  {
    hide Entry;
  }

  /** t is d with the b x b block at (dr, dc) copied from the block of s at (sr, sc). */
  ghost predicate BlockCopied(d: seq<C>, t: seq<C>, dRows: nat, nd: nat, dr: int, dc: int, s: seq<C>, ns: nat, sr: int, sc: int, b: int) {
    forall r, c {:trigger Entry(t, nd, r, c)} :: 0 <= r < dRows && 0 <= c < nd ==>
      Entry(t, nd, r, c) == if In(r, c, dr, dc, b) then Entry(s, ns, sr + (r - dr), sc + (c - dc)) else Entry(d, nd, r, c)
  }

  /** benchees/ransom/ransom/fastffts.c:357-368 */
  method MoveBlock(d: array<C>, ghost dRows: nat, dr: nat, dc: nat, s: array<C>, ghost sRows: nat, sr: nat, sc: nat, b: nat, nd: nat, ns: nat)
    requires d != s && d.Length == Area(dRows, nd) && s.Length == Area(sRows, ns)
    requires dr + b <= dRows && dc + b <= nd && sr + b <= sRows && sc + b <= ns
    modifies d
    ensures BlockCopied(old(d[..]), d[..], dRows, nd, dr, dc, s[..], ns, sr, sc, b)
  {
    hide Entry, Area;
    for j := 0 to b
      invariant s[..] == old(s[..])
      invariant forall r, c {:trigger Entry(d[..], nd, r, c)} :: 0 <= r < dRows && 0 <= c < nd ==>
        Entry(d[..], nd, r, c) == if In(r, c, dr, dc, b) && r < dr + j then Entry(s[..], ns, sr + (r - dr), sc + (c - dc)) else old(Entry(d[..], nd, r, c))
    {
      for k := 0 to b
        invariant s[..] == old(s[..])
        invariant forall r, c {:trigger Entry(d[..], nd, r, c)} :: 0 <= r < dRows && 0 <= c < nd ==>
          Entry(d[..], nd, r, c) == if In(r, c, dr, dc, b) && (r < dr + j || (r == dr + j && c < dc + k)) then Entry(s[..], ns, sr + (r - dr), sc + (c - dc)) else old(Entry(d[..], nd, r, c))
      {
        CopyCell(d, dRows, nd, dr + j, dc + k, s, sRows, ns, sr + j, sc + k);
      }
    }
  }

  // ----- a square in blocks -----

  /** The cache sizes that the tuning constants of fastffts.h stand for, in cells. */
  datatype Cache = Cache(burst: nat, block: nat, threshold: nat)

  /** The block sizes that are used divide n1. */
  predicate Divides(cache: Cache, n1: nat) {
    n1 > cache.burst && n1 > cache.block ==>
      cache.burst > 0 && n1 % cache.burst == 0 && cache.block > 0 && n1 % cache.block == 0
  }

  lemma NextBlock(n: nat, b: nat, j: nat)
    requires b > 0 && n % b == 0 && j % b == 0 && j < n
    ensures j + b <= n && (j + b) % b == 0
  {
    DivMod(n, b);
    DivMod(j, b);
    if n / b <= j / b {
      MulMonotone(n / b, j / b, b);
    } else {
      MulMonotone(j / b + 1, n / b, b);
    }
    DivModUnique(j + b, b, j / b + 1, 0);
  }

  /** Blocks in place: fastffts.c:411-415 */
  method TransposeInBlocks(data: array<C>, ghost rows: nat, row: nat, col: nat, n1: nat, n2: nat, b: nat)
    requires data.Length == Area(rows, n2) && row + n1 <= rows && col + n1 <= n2
    requires b > 0 && n1 % b == 0
    modifies data
    ensures Transposed(old(data[..]), data[..], rows, n2, row, col, n1)
  {
    hide Entry, Partly, Transposed, Exchanged, Area;
    ghost var s := data[..];
    NothingDone(s, rows, n2, row, col, n1, b);
    var j := 0;
    while j < n1
      invariant j <= n1 && j % b == 0 && Partly(s, data[..], rows, n2, row, col, n1, j, b, 0)
    {
      NextBlock(n1, b, j);
      ghost var t := data[..];
      TransposeBlock(data, rows, row + j, col + j, b, n2);
      DiagonalDone(s, t, data[..], rows, n2, row, col, n1, j, b);
      var k := j + b;
      while k < n1
        invariant j + b <= k <= n1 && k % b == 0 && Partly(s, data[..], rows, n2, row, col, n1, j, b, k)
      {
        NextBlock(n1, b, k);
        ghost var u := data[..];
        Transpose2Blocks(data, rows, row + j, col + k, row + k, col + j, b, n2);
        PairDone(s, u, data[..], rows, n2, row, col, n1, j, b, k);
        k := k + b;
      }
      RowDone(s, data[..], rows, n2, row, col, n1, j, b);
      j := j + b;
    }
    AllDone(s, data[..], rows, n2, row, col, n1, b);
  }

  /** One diagonal block by way of a copy: fastffts.c:423-425. */
  method TransposeCopied(data: array<C>, ghost rows: nat, row: nat, col: nat, b: nat, w: nat, tmp1: array<C>)
    requires data.Length == Area(rows, w) && row + b <= rows && col + b <= w
    requires tmp1 != data && tmp1.Length == Area(b, b)
    modifies data, tmp1
    ensures Transposed(old(data[..]), data[..], rows, w, row, col, b)
  {
    hide Entry, BlockCopied, Transposed, Area;
    ghost var s, t0 := data[..], tmp1[..];
    MoveBlock(tmp1, b, 0, 0, data, rows, row, col, b, b, w);
    ghost var t1 := tmp1[..];
    TransposeBlock(tmp1, b, 0, 0, b, b);
    ghost var t2 := tmp1[..];
    MoveBlock(data, rows, row, col, tmp1, b, 0, 0, b, w, b);
    CopiedTransposed(s, data[..], rows, w, row, col, b, t0, t1, t2);
  }

  lemma CopiedTransposed(s: seq<C>, t: seq<C>, rows: nat, w: nat, row: nat, col: nat, b: nat, t0: seq<C>, t1: seq<C>, t2: seq<C>)
    requires row + b <= rows && col + b <= w
    requires BlockCopied(t0, t1, b, b, 0, 0, s, w, row, col, b)
    requires Transposed(t1, t2, b, b, 0, 0, b)
    requires BlockCopied(s, t, rows, w, row, col, t2, b, 0, 0, b)
    ensures Transposed(s, t, rows, w, row, col, b)
  {
    hide Entry;
  }

  /** Two blocks by way of copies: fastffts.c:428-435. */
  method ExchangeCopied(data: array<C>, ghost rows: nat, r1: nat, c1: nat, r2: nat, c2: nat, b: nat, w: nat, tmp1: array<C>, tmp2: array<C>)
    requires data.Length == Area(rows, w) && r1 + b <= rows && r2 + b <= rows && c1 + b <= w && c2 + b <= w
    requires r1 + b <= r2
    requires tmp1 != data && tmp2 != data && tmp1 != tmp2 && tmp1.Length == Area(b, b) == tmp2.Length
    modifies data, tmp1, tmp2
    ensures Exchanged(old(data[..]), data[..], rows, w, r1, c1, r2, c2, b)
  {
    hide Entry, BlockCopied, Transposed, Exchanged, Area;
    ghost var s, p0, q0 := data[..], tmp1[..], tmp2[..];
    MoveBlock(tmp1, b, 0, 0, data, rows, r1, c1, b, b, w);
    ghost var p1 := tmp1[..];
    TransposeBlock(tmp1, b, 0, 0, b, b);
    ghost var p2 := tmp1[..];
    MoveBlock(tmp2, b, 0, 0, data, rows, r2, c2, b, b, w);
    ghost var q1 := tmp2[..];
    TransposeBlock(tmp2, b, 0, 0, b, b);
    ghost var q2 := tmp2[..];
    MoveBlock(data, rows, r1, c1, tmp2, b, 0, 0, b, w, b);
    ghost var t := data[..];
    MoveBlock(data, rows, r2, c2, tmp1, b, 0, 0, b, w, b);
    CopiedExchanged(s, t, data[..], rows, w, r1, c1, r2, c2, b, p0, p1, p2, q0, q1, q2);
  }

  lemma CopiedExchanged(s: seq<C>, t: seq<C>, u: seq<C>, rows: nat, w: nat, r1: nat, c1: nat, r2: nat, c2: nat, b: nat,
                        p0: seq<C>, p1: seq<C>, p2: seq<C>, q0: seq<C>, q1: seq<C>, q2: seq<C>)
    requires r1 + b <= rows && r2 + b <= rows && c1 + b <= w && c2 + b <= w && r1 + b <= r2
    requires BlockCopied(p0, p1, b, b, 0, 0, s, w, r1, c1, b) && Transposed(p1, p2, b, b, 0, 0, b)
    requires BlockCopied(q0, q1, b, b, 0, 0, s, w, r2, c2, b) && Transposed(q1, q2, b, b, 0, 0, b)
    requires BlockCopied(s, t, rows, w, r1, c1, q2, b, 0, 0, b) && BlockCopied(t, u, rows, w, r2, c2, p2, b, 0, 0, b)
    ensures Exchanged(s, u, rows, w, r1, c1, r2, c2, b)
  {
    hide Entry;
  }

  /** fastffts.c:417-440 */
  method TransposeInCopies(data: array<C>, ghost rows: nat, row: nat, col: nat, n1: nat, n2: nat, b: nat)
    requires data.Length == Area(rows, n2) && row + n1 <= rows && col + n1 <= n2
    requires b > 0 && n1 % b == 0
    modifies data
    ensures Transposed(old(data[..]), data[..], rows, n2, row, col, n1)
  {
    hide Entry, Partly, Transposed, Exchanged, Area;
    ghost var s := data[..];
    NothingDone(s, rows, n2, row, col, n1, b);
    var tmp1, tmp2 := new C[Area(b, b)], new C[Area(b, b)];
    var j := 0;
    while j < n1
      invariant j <= n1 && j % b == 0 && Partly(s, data[..], rows, n2, row, col, n1, j, b, 0)
    {
      NextBlock(n1, b, j);
      ghost var t := data[..];
      TransposeCopied(data, rows, row + j, col + j, b, n2, tmp1);
      DiagonalDone(s, t, data[..], rows, n2, row, col, n1, j, b);
      var k := j + b;
      while k < n1
        invariant j + b <= k <= n1 && k % b == 0 && Partly(s, data[..], rows, n2, row, col, n1, j, b, k)
      {
        NextBlock(n1, b, k);
        ghost var u := data[..];
        ExchangeCopied(data, rows, row + j, col + k, row + k, col + j, b, n2, tmp1, tmp2);
        PairDone(s, u, data[..], rows, n2, row, col, n1, j, b, k);
        k := k + b;
      }
      RowDone(s, data[..], rows, n2, row, col, n1, j, b);
      j := j + b;
    }
    AllDone(s, data[..], rows, n2, row, col, n1, b);
  }

  /** benchees/ransom/ransom/fastffts.c:400-442: the square of side n1 at (row, col) in a matrix
      of width n2; whichever way the cache sizes choose, the result is the same. */
  method TransposeSquare(data: array<C>, ghost rows: nat, row: nat, col: nat, n1: nat, n2: nat, cache: Cache)
    requires data.Length == Area(rows, n2) && row + n1 <= rows && col + n1 <= n2
    requires Divides(cache, n1)
    modifies data
    ensures Transposed(old(data[..]), data[..], rows, n2, row, col, n1)
  {
    hide Entry, Transposed, Area;
    if n1 <= cache.burst || n1 <= cache.block {
      TransposeBlock(data, rows, row, col, n1, n2);
    } else if n1 * n2 <= cache.threshold {
      TransposeInBlocks(data, rows, row, col, n1, n2, cache.burst);
    } else {
      TransposeInCopies(data, rows, row, col, n1, n2, cache.block);
    }
  }

  // ----- the permutation of the rows -----

  /** The two permutations of 2h rows. */
  datatype Direction = WideToTall | TallToWide

  /** The row that comes to row m (fastffts.c:469, 516). */
  function Source(dir: Direction, h: nat, m: int): int {
    match dir
    case WideToTall => if m < h then 2 * m else 2 * (m - h) + 1
    case TallToWide => if m % 2 == 1 then m / 2 + h else m / 2
  }

  function Opposite(dir: Direction): Direction { if dir.WideToTall? then TallToWide else WideToTall }

  /** Each permutation undoes the other. */
  lemma SourceInverse(dir: Direction, h: nat, m: int)
    requires 0 <= m < 2 * h
    ensures 0 <= Source(dir, h, m) < 2 * h
    ensures Source(Opposite(dir), h, Source(dir, h, m)) == m
  {}

  /** benchees/ransom/ransom/fastffts.c:566-575: n cells from s + sp to d + dp. */
  method MoveRaw(d: array<C>, dp: nat, s: array<C>, sp: nat, n: nat)
    requires dp + n <= d.Length && sp + n <= s.Length && (d != s || dp + n <= sp || sp + n <= dp)
    modifies d
    ensures d[..] == old(d[..dp] + s[sp..sp + n] + d[dp + n..])
  {
    ghost var was, row := d[..], s[sp..sp + n];
    for i := 0 to n
      invariant forall k {:trigger d[k]} :: 0 <= k < d.Length ==> d[k] == if dp <= k < dp + i then row[k - dp] else was[k]
      invariant d != s ==> s[..] == old(s[..])
    {
      assert s[sp + i] == row[i];
      d[dp + i] := s[sp + i];
    }
    RangeReplaced(was, d[..], dp, row);
  }

  lemma RangeReplaced(was: seq<C>, now: seq<C>, dp: nat, row: seq<C>)
    requires |now| == |was| && dp + |row| <= |was|
    requires forall k {:trigger now[k]} :: 0 <= k < |now| ==> now[k] == if dp <= k < dp + |row| then row[k - dp] else was[k]
    ensures now == was[..dp] + row + was[dp + |row|..]
  {}

  /** Row o of t is the row in x, the other rows are those of s. */
  ghost predicate RowReplaced(s: seq<C>, t: seq<C>, rows: nat, w: nat, o: int, x: int -> C) {
    && |t| == |s|
    && forall r, c {:trigger Entry(t, w, r, c)} :: 0 <= r < rows && 0 <= c < w ==>
         Entry(t, w, r, c) == if r == o then x(c) else Entry(s, w, r, c)
  }

  lemma RowMoved(s: seq<C>, t: seq<C>, rows: nat, w: nat, o: int, row: seq<C>, x: int -> C)
    requires |s| == Area(rows, w) && 0 <= o < rows && |row| == w
    requires 0 <= At(w, o, 0) && At(w, o, 0) + w <= |s|
    requires t == s[..At(w, o, 0)] + row + s[At(w, o, 0) + w..]
    requires forall c :: 0 <= c < w ==> x(c) == row[c]
    ensures RowReplaced(s, t, rows, w, o, x)
  {
    forall r, c | 0 <= r < rows && 0 <= c < w
      ensures Entry(t, w, r, c) == if r == o then x(c) else Entry(s, w, r, c)
    {
      var i := At(w, r, c);
      AtBound(rows, w, r, c);
      hide Area;
      assert i == At(w, r, 0) + c && At(w, o, 0) + w == At(w, o + 1, 0);
      hide At;
      if r < o {
        AtOrder(w, r + 1, o);
        AtNext(w, r);
      } else if r > o {
        AtOrder(w, o + 1, r);
      }
    }
  }

  lemma AtNext(w: nat, r: int)
    ensures At(w, r + 1, 0) == At(w, r, 0) + w
  {}

  lemma AtOrder(w: nat, r: int, r': int)
    requires r <= r'
    ensures At(w, r, 0) <= At(w, r', 0)
  {
    MulMonotone(r, r', w);
  }

  lemma AtColumn(w: nat, r: int, c: int)
    ensures At(w, r, c) == At(w, r, 0) + c
  {}

  lemma RowBound(rows: nat, w: nat, r: int)
    requires 0 <= r < rows
    ensures 0 <= At(w, r, 0) && At(w, r, 0) + w <= Area(rows, w)
  {
    MulMonotone(0, r, w);
    MulMonotone(r + 1, rows, w);
  }

  lemma RowEntries(s: seq<C>, rows: nat, w: nat, m: nat)
    requires |s| == Area(rows, w) && m < rows && 0 <= At(w, m, 0) && At(w, m, 0) + w <= |s|
    ensures forall c :: 0 <= c < w ==> Entry(s, w, m, c) == s[At(w, m, 0)..At(w, m, 0) + w][c]
  {
    hide Area, At;
    forall c | 0 <= c < w
      ensures Entry(s, w, m, c) == s[At(w, m, 0)..At(w, m, 0) + w][c]
    {
      AtColumn(w, m, c);
      AtBound(rows, w, m, c);
    }
  }

  /** Row o takes the contents of row m. */
  method MoveRow(data: array<C>, ghost rows: nat, w: nat, o: nat, m: nat)
    requires data.Length == Area(rows, w) && o < rows && m < rows && o != m
    modifies data
    ensures RowReplaced(old(data[..]), data[..], rows, w, o, c => old(Entry(data[..], w, m, c)))
  {
    hide *;
    RowBound(rows, w, o);
    RowBound(rows, w, m);
    AtNext(w, o);
    AtNext(w, m);
    AtOrder(w, if o < m then o + 1 else m + 1, if o < m then m else o);
    MoveRaw(data, At(w, o, 0), data, At(w, m, 0), w);
    ghost var s := old(data[..]);
    ghost var row := s[At(w, m, 0)..At(w, m, 0) + w];
    RowEntries(s, rows, w, m);
    hide Entry;
    RowMoved(s, data[..], rows, w, o, row, c => old(Entry(data[..], w, m, c)));
  }

  /** The row m in d. */
  method SaveRow(d: array<C>, data: array<C>, ghost rows: nat, w: nat, m: nat)
    requires d != data && data.Length == Area(rows, w) && m < rows && d.Length == w
    modifies d
    ensures forall c :: 0 <= c < w ==> d[c] == Entry(data[..], w, m, c)
  {
    hide Area, At;
    RowBound(rows, w, m);
    MoveRaw(d, 0, data, At(w, m, 0), w);
    forall c | 0 <= c < w
      ensures d[c] == Entry(data[..], w, m, c)
    {
      AtColumn(w, m, c);
      AtBound(rows, w, m, c);
      assert d[..][c] == d[c];
    }
  }

  method RestoreRow(data: array<C>, ghost rows: nat, w: nat, o: nat, d: array<C>, ghost x: int -> C)
    requires d != data && data.Length == Area(rows, w) && o < rows && d.Length == w
    requires forall c :: 0 <= c < w ==> d[c] == x(c)
    modifies data
    ensures RowReplaced(old(data[..]), data[..], rows, w, o, x)
  {
    hide Area, At, RowReplaced;
    RowBound(rows, w, o);
    MoveRaw(data, At(w, o, 0), d, 0, w);
    RowMoved(old(data[..]), data[..], rows, w, o, d[..], x);
  }

  /** The rows in v come from their sources in s, the others are still those of s. */
  ghost predicate RowsMoved(s: seq<C>, t: seq<C>, dir: Direction, h: nat, v: set<int>) {
    && |t| == |s|
    && forall r, c {:trigger Entry(t, h, r, c)} :: 0 <= r < 2 * h && 0 <= c < h ==>
         Entry(t, h, r, c) == Entry(s, h, if r in v then Source(dir, h, r) else r, c)
  }

  /** The rows that are marked in r. */
  ghost function Marked(r: array<bool>): (v: set<int>)
    reads r
    ensures forall m :: m in v <==> 0 <= m < r.Length && r[m]
  {
    set m | 0 <= m < r.Length && r[m]
  }

  ghost function Unmarked(r: array<bool>): (v: set<int>)
    reads r
    ensures forall m :: m in v <==> 0 <= m < r.Length && !r[m]
  {
    set m | 0 <= m < r.Length && !r[m]
  }

  /** Whole cycles are marked. */
  ghost predicate Closed(dir: Direction, h: nat, v: set<int>) {
    forall m :: m in v ==> 0 <= m < 2 * h && Source(Opposite(dir), h, m) in v
  }

  /** The rows of a cycle are marked from j to o; row o waits for its contents. */
  ghost predicate Path(dir: Direction, h: nat, v: set<int>, j: int, o: int) {
    && j in v && o in v
    && forall m :: m in v ==> 0 <= m < 2 * h && (m == j || Source(Opposite(dir), h, m) in v)
  }

  ghost predicate Hole(s: seq<C>, t: seq<C>, dir: Direction, h: nat, v: set<int>, o: int) {
    && |t| == |s|
    && forall r, c {:trigger Entry(t, h, r, c)} :: 0 <= r < 2 * h && 0 <= c < h && r != o ==>
         Entry(t, h, r, c) == Entry(s, h, if r in v then Source(dir, h, r) else r, c)
  }

  lemma PathBegins(s: seq<C>, t: seq<C>, dir: Direction, h: nat, v: set<int>, j: int)
    requires RowsMoved(s, t, dir, h, v) && Closed(dir, h, v) && 0 <= j < 2 * h && j !in v
    ensures Path(dir, h, v + {j}, j, j) && Hole(s, t, dir, h, v + {j}, j)
    ensures Source(dir, h, j) == j || Source(dir, h, j) !in v + {j}
    ensures forall c :: 0 <= c < h ==> Entry(t, h, j, c) == Entry(s, h, j, c)
  {
    hide Entry, Source;
    SourceInverse(dir, h, j);
  }

  lemma PathContinues(s: seq<C>, t: seq<C>, u: seq<C>, dir: Direction, h: nat, v: set<int>, j: int, o: int, x: int -> C)
    requires Path(dir, h, v, j, o) && Hole(s, t, dir, h, v, o) && 0 <= o < 2 * h
    requires Source(dir, h, o) !in v
    requires RowReplaced(t, u, 2 * h, h, o, x)
    requires forall c :: 0 <= c < h ==> x(c) == Entry(t, h, Source(dir, h, o), c)
    ensures var m := Source(dir, h, o);
            && 0 <= m < 2 * h
            && Path(dir, h, v + {m}, j, m) && Hole(s, u, dir, h, v + {m}, m)
            && (Source(dir, h, m) == j || Source(dir, h, m) !in v + {m})
  {
    hide Entry, Source;
    SourceInverse(dir, h, o);
    SourceInverse(dir, h, Source(dir, h, o));
  }

  lemma PathEnds(s: seq<C>, t: seq<C>, u: seq<C>, dir: Direction, h: nat, v: set<int>, j: int, o: int, x: int -> C)
    requires Path(dir, h, v, j, o) && Hole(s, t, dir, h, v, o) && 0 <= o < 2 * h
    requires Source(dir, h, o) == j
    requires RowReplaced(t, u, 2 * h, h, o, x)
    requires forall c :: 0 <= c < h ==> x(c) == Entry(s, h, j, c)
    ensures RowsMoved(s, u, dir, h, v) && Closed(dir, h, v)
  {
    hide Entry, Source;
    SourceInverse(dir, h, o);
  }

  /** The first and the last row stay where they are. */
  lemma EndsFixed(dir: Direction, h: nat, o: int)
    requires 0 <= o < 2 * h && h >= 1
    ensures Source(dir, h, o) == 0 <==> o == 0
    ensures Source(dir, h, o) == 2 * h - 1 <==> o == 2 * h - 1
  {}

  /** The body of the outer loop: the cycle of row j is moved, each row of it once. */
  method FollowCycle(data: array<C>, r: array<bool>, d: array<C>, dir: Direction, h: nat, j: nat, ghost s: seq<C>)
    requires data.Length == Area(2 * h, h) == |s| && r.Length == 2 * h && d.Length == h && d != data
    requires 0 < j < 2 * h - 1 && !r[j] && !r[0] && !r[2 * h - 1]
    requires Closed(dir, h, Marked(r)) && RowsMoved(s, data[..], dir, h, Marked(r))
    modifies data, r, d
    ensures Closed(dir, h, Marked(r)) && RowsMoved(s, data[..], dir, h, Marked(r))
    ensures old(Marked(r)) + {j} <= Marked(r) && !r[0] && !r[2 * h - 1]
  {
    hide Entry, Area, Source, RowsMoved, Closed, RowReplaced, Path, Hole;
    var o, m := j, j;
    PathBegins(s, data[..], dir, h, Marked(r), j);
    SaveRow(d, data, 2 * h, h, m);
    r[m] := true;
    assert Marked(r) == old(Marked(r)) + {j};
    SourceInverse(dir, h, m);
    EndsFixed(dir, h, m);
    m := Source(dir, h, m);
    while m != j
      invariant 0 <= o < 2 * h && 0 < m < 2 * h - 1 && m == Source(dir, h, o)
      invariant m == j || !r[m]
      invariant !r[0] && !r[2 * h - 1] && old(Marked(r)) + {j} <= Marked(r)
      invariant Path(dir, h, Marked(r), j, o) && Hole(s, data[..], dir, h, Marked(r), o)
      invariant o in Marked(r)
      invariant forall c :: 0 <= c < h ==> d[c] == Entry(s, h, j, c)
      decreases Unmarked(r)
    {
      ghost var v, t, before := Marked(r), data[..], Unmarked(r);
      r[m] := true;
      assert m !in Unmarked(r) && m in before;
      MoveRow(data, 2 * h, h, o, m);
      PathContinues(s, t, data[..], dir, h, v, j, o, c => Entry(t, h, m, c));
      assert Marked(r) == v + {m};
      SourceInverse(dir, h, m);
      EndsFixed(dir, h, m);
      o := m;
      m := Source(dir, h, m);
    }
    ghost var t := data[..];
    RestoreRow(data, 2 * h, h, o, d, c => Entry(s, h, j, c));
    PathEnds(s, t, data[..], dir, h, Marked(r), j, o, c => Entry(s, h, j, c));
  }

  /** Row m of t is the row of s that belongs there. */
  ghost predicate RowsPermuted(s: seq<C>, t: seq<C>, dir: Direction, h: nat) {
    && |t| == |s|
    && forall r, c {:trigger Entry(t, h, r, c)} :: 0 <= r < 2 * h && 0 <= c < h ==>
         Entry(t, h, r, c) == Entry(s, h, Source(dir, h, r), c)
  }

  lemma AllMoved(s: seq<C>, t: seq<C>, dir: Direction, h: nat, v: set<int>)
    requires h >= 1 && RowsMoved(s, t, dir, h, v) && forall m :: 0 < m < 2 * h - 1 ==> m in v
    ensures RowsPermuted(s, t, dir, h)
  {
    hide Entry, Source;
    EndsFixed(dir, h, 0);
    EndsFixed(dir, h, 2 * h - 1);
  }

  /** permutewidetotall and permutetalltowide: 2h rows of h cells. */
  method PermuteRows(data: array<C>, dir: Direction, h: nat)
    requires h >= 1 && data.Length == Area(2 * h, h)
    modifies data
    ensures RowsPermuted(old(data[..]), data[..], dir, h)
  {
    hide Entry, Area, Source, RowsMoved, RowsPermuted;
    ghost var s := data[..];
    RowsUnmoved(s, dir, h);
    if 2 * h < 4 {
      AllMoved(s, s, dir, h, {});
      return;
    }
    var d, r := new C[h], new bool[2 * h](_ => false);
    assert Marked(r) == {};
    var j := 1;
    while j < 2 * h - 1
      invariant 1 <= j < 2 * h && (j < 2 * h - 1 ==> !r[j]) && !r[0] && !r[2 * h - 1]
      invariant forall m :: 0 < m < j ==> m in Marked(r)
      invariant Closed(dir, h, Marked(r)) && RowsMoved(s, data[..], dir, h, Marked(r))
    {
      FollowCycle(data, r, d, dir, h, j, s);
      while r[j]
        invariant 1 <= j < 2 * h
        invariant forall m :: 0 < m < j ==> m in Marked(r)
        decreases 2 * h - j
      {
        j := j + 1;
      }
    }
    AllMoved(s, data[..], dir, h, Marked(r));
  }

  lemma RowsUnmoved(s: seq<C>, dir: Direction, h: nat)
    ensures RowsMoved(s, s, dir, h, {})
  {}

  /** The row permutations are mutually inverse. */
  lemma RowsRestored(s: seq<C>, t: seq<C>, u: seq<C>, dir: Direction, h: nat)
    requires |s| == Area(2 * h, h) && RowsPermuted(s, t, dir, h) && RowsPermuted(t, u, Opposite(dir), h)
    ensures u == s
  {
    hide Entry, Area, Source;
    forall r, c | 0 <= r < 2 * h && 0 <= c < h
      ensures Entry(u, h, r, c) == Entry(s, h, r, c)
    {
      SourceInverse(Opposite(dir), h, r);
    }
    SameEntries(u, s, 2 * h, h);
  }

  // ----- the transpose of a matrix -----

  /** t, of n2 rows and n1 columns, is the transpose of s, of n1 rows and n2 columns. */
  ghost predicate IsTranspose(s: seq<C>, t: seq<C>, n1: nat, n2: nat) {
    && |t| == |s|
    && forall j, k {:trigger Entry(t, n1, k, j)} :: 0 <= j < n1 && 0 <= k < n2 ==> Entry(t, n1, k, j) == Entry(s, n2, j, k)
  }

  lemma SquareIsTranspose(s: seq<C>, t: seq<C>, n: nat)
    requires |t| == |s| && Transposed(s, t, n, n, 0, 0, n)
    ensures IsTranspose(s, t, n, n)
  {
    hide Entry;
  }

  /** The same cells seen as rows of half the width. */
  lemma HalfRows(s: seq<C>, h: nat, r: int, half: int, c: int)
    requires half == 0 || half == 1
    ensures Entry(s, 2 * h, r, half * h + c) == Entry(s, h, 2 * r + half, c)
  {
    assert At(2 * h, r, half * h + c) == At(h, 2 * r + half, c);
  }

  lemma HalfArea(h: nat)
    ensures Area(h, 2 * h) == Area(2 * h, h)
  {}

  lemma SquaresTransposed(s: seq<C>, t: seq<C>, u: seq<C>, h: nat, r: int, half: int, c: int)
    requires Transposed(s, t, h, 2 * h, 0, 0, h) && Transposed(t, u, h, 2 * h, 0, h, h)
    requires 0 <= r < h && 0 <= c < h && (half == 0 || half == 1)
    ensures Entry(u, 2 * h, r, half * h + c) == Entry(s, 2 * h, c, half * h + r)
  {
    hide Entry;
  }

  lemma WideIsTranspose(s: seq<C>, t: seq<C>, u: seq<C>, v: seq<C>, h: nat)
    requires |s| == |v| && Transposed(s, t, h, 2 * h, 0, 0, h) && Transposed(t, u, h, 2 * h, 0, h, h)
    requires RowsPermuted(u, v, WideToTall, h)
    ensures IsTranspose(s, v, h, 2 * h)
  {
    hide Entry, Transposed, Source;
    forall j, k | 0 <= j < h && 0 <= k < 2 * h
      ensures Entry(v, h, k, j) == Entry(s, 2 * h, j, k)
    {
      var half := if k < h then 0 else 1;
      WideSource(h, k);
      HalfRows(u, h, k - half * h, half, j);
      SquaresTransposed(s, t, u, h, k - half * h, half, j);
    }
  }

  lemma WideSource(h: nat, k: int)
    ensures Source(WideToTall, h, k) == if k < h then 2 * k else 2 * (k - h) + 1
  {}

  lemma TallIsTranspose(s: seq<C>, t: seq<C>, u: seq<C>, v: seq<C>, h: nat)
    requires |s| == |v| && RowsPermuted(s, t, TallToWide, h)
    requires Transposed(t, u, h, 2 * h, 0, 0, h) && Transposed(u, v, h, 2 * h, 0, h, h)
    ensures IsTranspose(s, v, 2 * h, h)
  {
    hide Entry, Transposed, Source;
    forall j, k | 0 <= j < 2 * h && 0 <= k < h
      ensures Entry(v, 2 * h, k, j) == Entry(s, h, j, k)
    {
      var half := if j < h then 0 else 1;
      var c := j - half * h;
      SquaresTransposed(t, u, v, h, k, half, c);
      HalfRows(t, h, c, half, k);
      TallSource(h, c, half);
    }
  }

  lemma TallSource(h: nat, c: int, half: int)
    requires half == 0 || half == 1
    ensures Source(TallToWide, h, 2 * c + half) == c + half * h
  {}

  /** benchees/ransom/ransom/fastffts.c:540-561 */
  method Transpose(data: array<C>, n1: nat, n2: nat, cache: Cache)
    requires n1 >= 1 && n2 >= 1 && (n1 == n2 || n2 == 2 * n1 || n1 == 2 * n2)
    requires data.Length == Area(n1, n2) && Divides(cache, if n1 <= n2 then n1 else n2)
    modifies data
    ensures IsTranspose(old(data[..]), data[..], n1, n2)
  {
    hide Entry, Area, Transposed, RowsPermuted, IsTranspose, Divides;
    ghost var s := data[..];
    if n1 == n2 {
      TransposeSquare(data, n1, 0, 0, n1, n1, cache);
      SquareIsTranspose(s, data[..], n1);
    } else if n2 == 2 * n1 {
      TransposeSquare(data, n1, 0, 0, n1, n2, cache);
      ghost var t := data[..];
      TransposeSquare(data, n1, 0, n1, n1, n2, cache);
      ghost var u := data[..];
      HalfArea(n1);
      PermuteRows(data, WideToTall, n1);
      WideIsTranspose(s, t, u, data[..], n1);
    } else {
      HalfArea(n2);
      PermuteRows(data, TallToWide, n2);
      ghost var t := data[..];
      TransposeSquare(data, n2, 0, 0, n2, n1, cache);
      ghost var u := data[..];
      TransposeSquare(data, n2, 0, n2, n2, n1, cache);
      TallIsTranspose(s, t, u, data[..], n2);
    }
  }

  /** Transposing back restores the matrix. */
  lemma TransposeTwice(s: seq<C>, t: seq<C>, u: seq<C>, n1: nat, n2: nat)
    requires |s| == Area(n1, n2) && IsTranspose(s, t, n1, n2) && IsTranspose(t, u, n2, n1)
    ensures u == s
  {
    hide Entry, Area;
    forall r, c | 0 <= r < n1 && 0 <= c < n2
      ensures Entry(u, n2, r, c) == Entry(s, n2, r, c)
    {
      assert Entry(u, n2, r, c) == Entry(t, n1, c, r);
    }
    SameEntries(u, s, n1, n2);
  }

  // ----- six steps -----

  /** Row r of a matrix. */
  function Row(s: seq<C>, w: nat, r: int): int -> C { c => Entry(s, w, r, c) }

  /** What is used of tablesplitfftraw and scramble: together they transform a row of w cells. */
  ghost predicate TransformsRows(e: nat -> C, fft: (int, seq<C>) -> seq<C>, sign: int, w: nat) {
    forall row :: |row| == w ==> RowLaw(e, fft, sign, row)
  }

  /** ... for every power of two. */
  ghost predicate TransformsPowers(e: nat -> C, fft: (int, seq<C>) -> seq<C>, sign: int) {
    forall k: nat :: TransformsRows(e, fft, sign, Pow2(k))
  }

  ghost predicate RowLaw(e: nat -> C, fft: (int, seq<C>) -> seq<C>, sign: int, row: seq<C>) {
    && |fft(sign, row)| == |row|
    && forall p :: 0 <= p < |row| ==> fft(sign, row)[p] == Dft(|row|, Omega(e, |row|, sign), Cells(row), p)
  }

  /** t holds the transforms of the rows of s. */
  ghost predicate RowsTransformed(e: nat -> C, s: seq<C>, t: seq<C>, rows: nat, w: nat, sign: int) {
    && |t| == |s|
    && forall r, p {:trigger Entry(t, w, r, p)} :: 0 <= r < rows && 0 <= p < w ==>
         Entry(t, w, r, p) == Dft(w, Omega(e, w, sign), Row(s, w, r), p)
  }

  lemma TransformedRow(e: nat -> C, fft: (int, seq<C>) -> seq<C>, sign: int, s: seq<C>, rows: nat, w: nat, r: int, row: seq<C>, p: int)
    requires TransformsRows(e, fft, sign, w) && |s| == Area(rows, w) && 0 <= r < rows && 0 <= p < w
    requires 0 <= At(w, r, 0) && At(w, r, 0) + w <= |s|
    requires row == s[At(w, r, 0)..At(w, r, 0) + w]
    ensures |fft(sign, row)| == w
    ensures fft(sign, row)[p] == Dft(w, Omega(e, w, sign), Row(s, w, r), p)
  {
    hide Area, At, Dft, Omega;
    assert RowLaw(e, fft, sign, row);
    forall c | 0 <= c < w
      ensures Cells(row)(c) == Row(s, w, r)(c)
    {
      AtColumn(w, r, c);
      AtBound(rows, w, r, c);
    }
    DftExt(w, Omega(e, w, sign), Cells(row), Row(s, w, r), p);
  }

  method TransformRow(data: array<C>, ghost rows: nat, w: nat, k: nat, isign: int, ghost e: nat -> C, fft: (int, seq<C>) -> seq<C>)
    requires data.Length == Area(rows, w) && k < rows && w >= 1 && TransformsRows(e, fft, isign, w)
    modifies data
    ensures RowReplaced(old(data[..]), data[..], rows, w, k, p => Dft(w, Omega(e, w, isign), Row(old(data[..]), w, k), p))
  {
    hide Area, At, Dft, Omega, RowReplaced, Row, TransformsRows;
    RowBound(rows, w, k);
    ghost var s := data[..];
    var row := data[At(w, k, 0)..At(w, k, 0) + w];
    forall p | 0 <= p < w
      ensures |fft(isign, row)| == w && fft(isign, row)[p] == Dft(w, Omega(e, w, isign), Row(s, w, k), p)
    {
      TransformedRow(e, fft, isign, s, rows, w, k, row, p);
    }
    TransformedRow(e, fft, isign, s, rows, w, k, row, 0);
    var out := fft(isign, row);
    var base := At(w, k, 0);
    forall c | 0 <= c < w {
      data[base + c] := out[c];
    }
    assert data[..] == s[..base] + out + s[base + w..];
    RowMoved(s, data[..], rows, w, k, out, p => Dft(w, Omega(e, w, isign), Row(s, w, k), p));
  }

  /** Steps 2 and 5: one transform for each row (fastffts.c:40-45, 73-78). */
  method TransformRows(data: array<C>, rows: nat, w: nat, isign: int, ghost e: nat -> C, fft: (int, seq<C>) -> seq<C>)
    requires data.Length == Area(rows, w) && w >= 1 && TransformsRows(e, fft, isign, w)
    modifies data
    ensures RowsTransformed(e, old(data[..]), data[..], rows, w, isign)
  {
    hide Area, Dft, Omega, Entry, TransformsRows, Row, RowReplaced;
    ghost var s := data[..];
    for k := 0 to rows
      invariant |data[..]| == |s|
      invariant forall r, p {:trigger Entry(data[..], w, r, p)} :: 0 <= r < rows && 0 <= p < w ==>
        Entry(data[..], w, r, p) == if r < k then Dft(w, Omega(e, w, isign), Row(s, w, r), p) else Entry(s, w, r, p)
    {
      ghost var t := data[..];
      TransformRow(data, rows, w, k, isign, e, fft);
      NextRowTransformed(e, s, t, data[..], rows, w, k, isign);
    }
  }

  lemma NextRowTransformed(e: nat -> C, s: seq<C>, t: seq<C>, u: seq<C>, rows: nat, w: nat, k: int, sign: int)
    requires 0 <= k < rows
    requires forall r, p {:trigger Entry(t, w, r, p)} :: 0 <= r < rows && 0 <= p < w ==>
      Entry(t, w, r, p) == if r < k then Dft(w, Omega(e, w, sign), Row(s, w, r), p) else Entry(s, w, r, p)
    requires RowReplaced(t, u, rows, w, k, p => Dft(w, Omega(e, w, sign), Row(t, w, k), p))
    ensures |u| == |t|
    ensures forall r, p {:trigger Entry(u, w, r, p)} :: 0 <= r < rows && 0 <= p < w ==>
      Entry(u, w, r, p) == if r < k + 1 then Dft(w, Omega(e, w, sign), Row(s, w, r), p) else Entry(s, w, r, p)
  {
    hide Dft, Omega, Entry;
    forall p | 0 <= p < w
      ensures Dft(w, Omega(e, w, sign), Row(t, w, k), p) == Dft(w, Omega(e, w, sign), Row(s, w, k), p)
    {
      DftExt(w, Omega(e, w, sign), Row(t, w, k), Row(s, w, k), p);
    }
  }

  /** Entry (p, k) of t is that of s times w^(p k). */
  ghost predicate Twisted(w: C, s: seq<C>, t: seq<C>, n1: nat, n2: nat) {
    && |t| == |s|
    && forall p, k {:trigger Entry(t, n2, p, k)} :: 0 <= p < n1 && 0 <= k < n2 ==>
         Entry(t, n2, p, k) == Mul(Entry(s, n2, p, k), Twiddle(w, p, k))
  }

  method MultiplyCell(data: array<C>, ghost rows: nat, w: nat, j: nat, k: nat, factor: C)
    requires data.Length == Area(rows, w) && j < rows && k < w
    modifies data
    ensures forall r, c {:trigger Entry(data[..], w, r, c)} :: 0 <= r < rows && 0 <= c < w ==>
      Entry(data[..], w, r, c) == if r == j && c == k then Mul(old(Entry(data[..], w, j, k)), factor) else old(Entry(data[..], w, r, c))
  {
    hide Area, At, Mul;
    AtBound(rows, w, j, k);
    data[At(w, j, k)] := Mul(data[At(w, j, k)], factor);
    forall r, c | 0 <= r < rows && 0 <= c < w
      ensures At(w, r, c) == At(w, j, k) ==> r == j && c == k
    {
      if At(w, r, c) == At(w, j, k) { AtUnique(w, r, c, j, k); }
    }
  }

  /** The recurrence for the factors: adding w (rho - 1) to w multiplies it by rho. */
  lemma FactorStep(w: C, j: int, k: int, rho: C)
    requires Unit(w) && rho == Pow(w, j)
    ensures Add(Mul(Twiddle(w, j, k), Sub(rho, ONE)), Twiddle(w, j, k)) == Twiddle(w, j, k + 1)
  {
    hide *;
    var f := Twiddle(w, j, k);
    MulSub(f, rho, ONE);
    MulOne(f);
    SubAdd(Mul(f, rho), f);
    TwiddleComm(w, j, k);
    TwiddleComm(w, j, k + 1);
    TwiddleComm(w, j, 1);
    TwiddleAdd(w, k, 1, j);
    TwiddleOne(w, j);
  }

  lemma SubAdd(a: C, b: C)
    ensures Add(Sub(a, b), b) == a
    ensures Add(b, Sub(a, b)) == a
  {}

  /** Row and column 0 have the factor 1. */
  lemma FactorOne(w: C, p: int, k: int, a: C)
    requires p == 0 || k == 0
    ensures Mul(a, Twiddle(w, p, k)) == a
  {
    MulOne(a);
  }

  /** Step 4 (fastffts.c:54-69): row j is multiplied by the powers of rho = w^j, by the recurrence
      that adds w (rho - 1); -2 sin(theta/2)^2 is the real part of rho - 1. */
  method MultiplyFactors(data: array<C>, n1: nat, n2: nat, w: C)
    requires data.Length == Area(n1, n2) && n1 >= 1 && n2 >= 1 && Unit(w)
    modifies data
    ensures Twisted(w, old(data[..]), data[..], n1, n2)
  {
    hide Area, Entry, Mul, Unit, Twiddle, Pow, Sub, Add;
    ghost var s := data[..];
    forall p: int, k: int, a: C | p == 0 || k == 0 ensures Mul(a, Twiddle(w, p, k)) == a { FactorOne(w, p, k, a); }
    for j := 1 to n1
      invariant forall p, k {:trigger Entry(data[..], n2, p, k)} :: 0 <= p < n1 && 0 <= k < n2 ==>
        Entry(data[..], n2, p, k) == if p < j then Mul(Entry(s, n2, p, k), Twiddle(w, p, k)) else Entry(s, n2, p, k)
    {
      var rho := Pow(w, j);
      var step := Sub(rho, ONE);
      var factor := Add(ONE, step);
      SubAdd(rho, ONE);
      TwiddleComm(w, j, 1);
      TwiddleOne(w, j);
      for k := 1 to n2
        invariant factor == Twiddle(w, j, k)
        invariant forall p, q {:trigger Entry(data[..], n2, p, q)} :: 0 <= p < n1 && 0 <= q < n2 ==>
          Entry(data[..], n2, p, q) == if p < j || (p == j && q < k) then Mul(Entry(s, n2, p, q), Twiddle(w, p, q)) else Entry(s, n2, p, q)
      {
        MultiplyCell(data, n1, n2, j, k, factor);
        FactorStep(w, j, k, rho);
        factor := Add(Mul(factor, step), factor);
      }
    }
  }

  /** A sum over all the cells, row by row. */
  lemma {:induction false} SumRows(n1: nat, n2: nat, f: int -> C, rows: int -> C)
    requires forall j :: 0 <= j < n1 ==> rows(j) == Sum(n2, k => f(At(n2, j, k)))
    ensures Sum(Area(n1, n2), f) == Sum(n1, rows)
  {
    hide *;
    if n1 == 0 {
      NoRows(n2, f, rows);
    } else {
      SumRows(n1 - 1, n2, f, rows);
      var m := Area(n1 - 1, n2);
      var last, row := k => f(m + k), k => f(At(n2, n1 - 1, k));
      forall k | 0 <= k < n2
        ensures last(k) == row(k)
      {
        LastRowAt(n1, n2, k);
      }
      SumExt(n2, last, row);
      AreaStep(n1, n2);
      SumSplit(m, n2, f, last);
      SumLast(n1, rows);
    }
  }

  lemma NoRows(n2: nat, f: int -> C, rows: int -> C)
    ensures Sum(Area(0, n2), f) == Sum(0, rows)
  {}

  lemma LastRowAt(n1: nat, n2: nat, k: int)
    requires n1 > 0
    ensures At(n2, n1 - 1, k) == Area(n1 - 1, n2) + k
  {}

  lemma AreaStep(n1: nat, n2: nat)
    requires n1 > 0
    ensures Area(n1, n2) == Area(n1 - 1, n2) + n2
  {}

  lemma IndexProduct(n1: nat, n2: nat, j: int, k: int, p: int, q: int)
    ensures At(n2, j, k) * At(n1, q, p) == p * k + n1 * k * q + n2 * j * p + Area(n1, n2) * (j * q)
  {
    var (u, v) := (j * n2, q * n1);
    assert (u + k) * (v + p) == u * v + u * p + k * v + k * p;
    FourFactors(n1, n2, j, q);
    assert k * v == n1 * k * q && u * p == n2 * j * p;
  }

  lemma FourFactors(n1: int, n2: int, j: int, q: int)
    ensures (j * n2) * (q * n1) == n1 * n2 * (j * q)
  {
    var m := n1 * n2;
    assert (j * n2) * (q * n1) == j * (n2 * (q * n1));
    assert n2 * (q * n1) == q * m;
    assert j * (q * m) == m * (j * q);
  }

  /** The twiddle factor of a whole transform is the product of the three that the steps use. */
  lemma FactorSplits(n1: nat, n2: nat, w: C, j: int, k: int, p: int, q: int)
    requires Unit(w) && Pow(w, Area(n1, n2)) == ONE
    ensures Twiddle(w, At(n2, j, k), At(n1, q, p))
         == Mul(Mul(Twiddle(w, p, k), Twiddle(Pow(w, n1), k, q)), Twiddle(Pow(w, n2), j, p))
  {
    var nn := Area(n1, n2);
    var (a, b, c, t) := (p * k, n1 * k * q, n2 * j * p, j * q);
    IndexProduct(n1, n2, j, k, p, q);
    hide *;
    TwiddleIsPow(w, At(n2, j, k), At(n1, q, p));
    TwiddlePow(w, n1, k, q);
    TwiddlePow(w, n2, j, p);
    TwiddleIsPow(w, p, k);
    TwiddleIsPow(w, n1 * k, q);
    TwiddleIsPow(w, n2 * j, p);
    PowPeriodic(nn, w, a + b + c, t);
    PowAdd(w, a + b, c);
    PowAdd(w, a, b);
  }

  function Column(x: int -> C, n2: nat, k: int): int -> C { j => x(At(n2, j, k)) }

  /** The transform of length n1 n2 from transforms of the columns, the factors, and transforms
      of the rows. */
  lemma Recombine(n1: nat, n2: nat, w: C, x: int -> C, y: int -> C, p: int, q: int)
    requires Unit(w) && Pow(w, Area(n1, n2)) == ONE
    requires forall k :: 0 <= k < n2 ==> y(k) == Mul(Dft(n1, Pow(w, n2), Column(x, n2, k), p), Twiddle(w, p, k))
    ensures Dft(n2, Pow(w, n1), y, q) == Dft(Area(n1, n2), w, x, At(n1, q, p))
  {
    hide *;
    var X := At(n1, q, p);
    var f := i => Mul(x(i), Twiddle(w, i, X));
    DftTerms(Area(n1, n2), w, x, X, f);
    var g := (j: int, k: int) => f(At(n2, j, k));
    var rows, columns := j => Sum(n2, k => g(j, k)), k => Sum(n1, j => g(j, k));
    forall j | 0 <= j < n1
      ensures rows(j) == Sum(n2, k => f(At(n2, j, k)))
    {
      SumExt(n2, k => g(j, k), k => f(At(n2, j, k)));
    }
    SumRows(n1, n2, f, rows);
    SumSwap(n1, n2, g, rows, columns);
    var terms := k => Mul(y(k), Twiddle(Pow(w, n1), k, q));
    forall k | 0 <= k < n2
      ensures columns(k) == terms(k)
    {
      RecombineColumn(n1, n2, w, x, k, p, q, j => g(j, k));
    }
    SumExt(n2, columns, terms);
    DftTerms(n2, Pow(w, n1), y, q, terms);
  }

  lemma RecombineColumn(n1: nat, n2: nat, w: C, x: int -> C, k: int, p: int, q: int, column: int -> C)
    requires Unit(w) && Pow(w, Area(n1, n2)) == ONE
    requires forall j :: 0 <= j < n1 ==> column(j) == Mul(x(At(n2, j, k)), Twiddle(w, At(n2, j, k), At(n1, q, p)))
    ensures Sum(n1, column)
         == Mul(Mul(Dft(n1, Pow(w, n2), Column(x, n2, k), p), Twiddle(w, p, k)), Twiddle(Pow(w, n1), k, q))
  {
    hide *;
    var c := Mul(Twiddle(w, p, k), Twiddle(Pow(w, n1), k, q));
    var terms := j => Mul(x(At(n2, j, k)), Twiddle(Pow(w, n2), j, p));
    forall j | 0 <= j < n1
      ensures column(j) == Mul(c, terms(j))
    {
      FactorSplits(n1, n2, w, j, k, p, q);
      var (a, t) := (x(At(n2, j, k)), Twiddle(Pow(w, n2), j, p));
      MulAssoc(a, c, t);
      MulComm(a, c);
      MulAssoc(c, a, t);
    }
    SumMul(n1, c, terms, column);
    ColumnTerms(x, n2, k);
    DftTerms(n1, Pow(w, n2), Column(x, n2, k), p, terms);
    var d := Dft(n1, Pow(w, n2), Column(x, n2, k), p);
    MulComm(c, d);
    MulAssoc(d, Twiddle(w, p, k), Twiddle(Pow(w, n1), k, q));
  }

  lemma ColumnTerms(x: int -> C, n2: nat, k: int)
    ensures forall j :: Column(x, n2, k)(j) == x(At(n2, j, k))
  {}

  /** The roots of the two row lengths are powers of the root of the whole length. */
  lemma OmegaFactor(e: nat -> C, n1: nat, n2: nat, sign: int)
    requires RootFamily(e) && n1 >= 1 && n2 >= 1
    ensures var w := Omega(e, Area(n1, n2), sign);
            && Unit(w) && Pow(w, Area(n1, n2)) == ONE
            && Pow(w, n2) == Omega(e, n1, sign) && Pow(w, n1) == Omega(e, n2, sign)
  {
    var nn := Area(n1, n2);
    assert nn == n1 * n2 == n2 * n1;
    MulMonotone(1, n1, n2);
    hide RootFamily, Pow, Mul, Conj, Unit, PrimitiveRoot;
    OmegaPrimitive(e, nn, sign);
    PrimitiveIsUnit(nn, Omega(e, nn, sign));
    FamilyPower(e, n1, n2, nn);
    FamilyPower(e, n2, n1, nn);
    ConjPow(e(nn), n2);
    ConjPow(e(nn), n1);
  }

  /** The states between the six steps. */
  lemma SixSteps(e: nat -> C, s: seq<C>, t1: seq<C>, t2: seq<C>, t3: seq<C>, t4: seq<C>, t5: seq<C>, t6: seq<C>,
                 n1: nat, n2: nat, sign: int, p: int, q: int)
    requires RootFamily(e) && |s| == Area(n1, n2)
    requires IsTranspose(s, t1, n1, n2) && RowsTransformed(e, t1, t2, n2, n1, sign)
    requires IsTranspose(t2, t3, n2, n1) && Twisted(Omega(e, Area(n1, n2), sign), t3, t4, n1, n2)
    requires RowsTransformed(e, t4, t5, n1, n2, sign) && IsTranspose(t5, t6, n1, n2)
    requires 0 <= p < n1 && 0 <= q < n2
    ensures Entry(t6, n1, q, p) == Dft(Area(n1, n2), Omega(e, Area(n1, n2), sign), Cells(s), At(n1, q, p))
  {
    hide RootFamily, Unit, Pow, Mul, Dft, Omega, Twiddle, Area, Entry, At, Column, Cells, Row;
    var w := Omega(e, Area(n1, n2), sign);
    var y := Row(t4, n2, p);
    OmegaFactor(e, n1, n2, sign);
    assert Entry(t6, n1, q, p) == Dft(n2, Pow(w, n1), y, q);
    forall k | 0 <= k < n2
      ensures y(k) == Mul(Dft(n1, Pow(w, n2), Column(Cells(s), n2, k), p), Twiddle(w, p, k))
    {
      RowEntry(t4, n2, p, k);
      assert Entry(t4, n2, p, k) == Mul(Entry(t3, n2, p, k), Twiddle(w, p, k));
      assert Entry(t3, n2, p, k) == Entry(t2, n1, k, p);
      ColumnOfTranspose(s, t1, n1, n2, k);
      DftExt(n1, Pow(w, n2), Row(t1, n1, k), Column(Cells(s), n2, k), p);
    }
    Recombine(n1, n2, w, Cells(s), y, p, q);
  }

  lemma RowEntry(s: seq<C>, w: nat, r: int, c: int)
    ensures Row(s, w, r)(c) == Entry(s, w, r, c)
  {}

  lemma ColumnOfTranspose(s: seq<C>, t: seq<C>, n1: nat, n2: nat, k: int)
    requires IsTranspose(s, t, n1, n2) && 0 <= k < n2
    ensures forall j :: 0 <= j < n1 ==> Row(t, n1, k)(j) == Column(Cells(s), n2, k)(j)
  {
    hide At;
    forall j | 0 <= j < n1
      ensures Entry(t, n1, k, j) == Cells(s)(At(n2, j, k))
    {
      assert Entry(t, n1, k, j) == Entry(s, n2, j, k);
    }
  }

  /** The block sizes divide every larger power of two. */
  ghost predicate CacheFits(cache: Cache) {
    forall a: nat :: Divides(cache, Pow2(a))
  }

  lemma FitsPower(cache: Cache, a: nat)
    requires CacheFits(cache)
    ensures Divides(cache, Pow2(a))
  {}

  /** So they do when they are powers of two themselves. */
  lemma PowersFit(cache: Cache, a: nat, b: nat)
    requires cache.burst == Pow2(a) && cache.block == Pow2(b)
    ensures CacheFits(cache)
  {
    hide Pow2;
    forall k: nat
      ensures Divides(cache, Pow2(k))
    {
      if Pow2(k) > cache.burst && Pow2(k) > cache.block {
        if k < a { Pow2Monotone(k, a); }
        if k < b { Pow2Monotone(k, b); }
        PowerDivides(a, k);
        PowerDivides(b, k);
      }
    }
  }

  lemma TransformOfOne(w: C, x: int -> C)
    ensures Dft(1, w, x, 0) == x(0)
  {
    MulOne(x(0));
    hide Mul;
    assert Sum(1, j => Mul(x(j), Twiddle(w, j, 0))) == Add(Sum(0, j => Mul(x(j), Twiddle(w, j, 0))), x(0));
  }

  /** benchees/ransom/ransom/fastffts.c:3-83: the whole transform, for every power of two. */
  method TableSixStepFft(data: array<C>, ghost k: nat, isign: int, e: nat -> C, fft: (int, seq<C>) -> seq<C>, cache: Cache)
    requires data.Length == Pow2(k)
    requires RootFamily(e) && TransformsPowers(e, fft, isign) && CacheFits(cache)
    modifies data
    ensures forall i :: 0 <= i < data.Length ==> data[i] == Dft(data.Length, Omega(e, data.Length, isign), Cells(old(data[..])), i)
  {
    hide Pow2, RootFamily, TransformsRows, Dft, Omega, Area, IsTranspose, RowsTransformed, Twisted, Unit, CacheFits, Divides;
    var nn := data.Length;
    if nn < 2 {
      TransformOfOne(Omega(e, nn, isign), Cells(data[..]));
      return;
    }
    var n1, n2 := Factors(nn, k);
    FitsPower(cache, k / 2);
    assert TransformsRows(e, fft, isign, Pow2(k / 2)) && TransformsRows(e, fft, isign, Pow2(k - k / 2));
    AreaComm(n1, n2);
    ghost var s := data[..];
    Transpose(data, n1, n2, cache);
    ghost var t1 := data[..];
    TransformRows(data, n2, n1, isign, e, fft);
    ghost var t2 := data[..];
    Transpose(data, n2, n1, cache);
    ghost var t3 := data[..];
    OmegaFactor(e, n1, n2, isign);
    MultiplyFactors(data, n1, n2, Omega(e, nn, isign));
    ghost var t4 := data[..];
    TransformRows(data, n1, n2, isign, e, fft);
    ghost var t5 := data[..];
    Transpose(data, n1, n2, cache);
    forall i | 0 <= i < nn
      ensures data[..][i] == Dft(nn, Omega(e, nn, isign), Cells(s), i)
    {
      var q, p := AtCovers(n2, n1, i);
      SixSteps(e, s, t1, t2, t3, t4, t5, data[..], n1, n2, isign, p, q);
    }
  }

  lemma AreaComm(n1: nat, n2: nat)
    ensures Area(n1, n2) == Area(n2, n1)
  {}

  lemma Pow2Injective(a: nat, b: nat)
    requires a <= b && Pow2(a) >= Pow2(b)
    ensures a == b
  {
    if a < b {
      Pow2Monotone(a + 1, b);
    }
  }

  /** fastffts.c:23-28: the shape always meets the precondition of the transposition. */
  method Factors(nn: nat, ghost k: nat) returns (n1: nat, n2: nat)
    requires nn == Pow2(k)
    ensures n1 >= 1 && Area(n1, n2) == nn && (n2 == n1 || n2 == 2 * n1)
    ensures n1 == Pow2(k / 2) && n2 == Pow2(k - k / 2)
  {
    n1, n2 := 1, 0;
    while n1 < nn
      invariant n2 <= k && n1 == Pow2(n2)
      decreases nn - n1
    {
      if n2 == k { assert false; }
      n1, n2 := 2 * n1, n2 + 1;
      Pow2Monotone(n2, k);
    }
    Pow2Injective(n2, k);
    n1 := n2 / 2;
    n2 := n2 - n1;
    Pow2Add(n1, n2);
    n1, n2 := Pow2(n1), Pow2(n2);
  }
}
