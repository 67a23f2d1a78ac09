/** Row-major matrices of complex numbers in flat arrays. */
module Matrices {
  import opened ComplexNumbers
  import opened Arithmetic

  function At(w: nat, r: int, c: int): int { r * w + c }

  function Area(rows: nat, w: nat): nat { rows * w }

  /** The entry in row r and column c of a matrix of width w. */
  function Entry(s: seq<C>, w: nat, r: int, c: int): C {
    if 0 <= At(w, r, c) < |s| then s[At(w, r, c)] else ZERO
  }

  lemma AtBound(rows: nat, w: nat, r: int, c: int)
    requires 0 <= r < rows && 0 <= c < w
    ensures 0 <= At(w, r, c) < Area(rows, w)
  {
    MulMonotone(0, r, w);
    MulMonotone(r, rows - 1, w);
  }

  lemma AtUnique(w: nat, r: int, c: int, r': int, c': int)
    requires 0 <= c < w && 0 <= c' < w && At(w, r, c) == At(w, r', c')
    ensures r == r' && c == c'
  {
    DivModUnique(At(w, r, c), w, r, c);
    DivModUnique(At(w, r', c'), w, r', c');
  }

  lemma AtCovers(rows: nat, w: nat, i: nat) returns (r: nat, c: nat)
    requires i < Area(rows, w)
    ensures r < rows && c < w && i == At(w, r, c)
  {
    DivMod(i, w);
    QuotientNonNegative(i, w);
    r, c := i / w, i % w;
    if r >= rows {
      MulMonotone(rows, r, w);
    }
  }

  /** Matrices of one shape with the same entries are the same array. */
  lemma SameEntries(s: seq<C>, t: seq<C>, rows: nat, w: nat)
    requires |s| == |t| == Area(rows, w)
    requires forall r, c :: 0 <= r < rows && 0 <= c < w ==> Entry(s, w, r, c) == Entry(t, w, r, c)
    ensures s == t
  {
    hide Area, At;
    forall i | 0 <= i < |s|
      ensures s[i] == t[i]
    {
      var r, c := AtCovers(rows, w, i);
      assert Entry(s, w, r, c) == Entry(t, w, r, c);
    }
  }
}
