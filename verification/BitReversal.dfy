/** The bit-reversal permutation as a sequence of exchanges. */
module BitReversal {
  import opened Arithmetic

  /** An involution on the cells of an array of n cells. */
  ghost predicate Involution(rev: seq<nat>, n: nat) {
    |rev| == n && forall p :: 0 <= p < n ==> rev[p] < n && rev[rev[p]] == p
  }

  ghost function ReversalOf(K: nat): (rev: seq<nat>)
    ensures Involution(rev, Pow2(K)) && forall p :: 0 <= p < Pow2(K) ==> rev[p] == Reverse(K, p)
  {
    var rev := seq(Pow2(K), p requires 0 <= p < Pow2(K) => Reverse(K, p));
    assert Involution(rev, Pow2(K)) by {
      forall p: nat | p < Pow2(K)
        ensures Reverse(K, p) < Pow2(K) && Reverse(K, Reverse(K, p)) == p
      {
        ReverseBound(K, p);
        ReverseInvolution(K, p);
      }
    }
    rev
  }

  /** The cells after every pair {p, rev[p]} with a member below i has been exchanged. */
  ghost predicate Exchanged<T>(rev: seq<nat>, s: seq<T>, t: seq<T>, i: int)
    requires Involution(rev, |s|)
  {
    |t| == |s| && forall p :: 0 <= p < |s| ==> t[p] == if p < i || rev[p] < i then s[rev[p]] else s[p]
  }

  lemma ExchangeStep<T>(rev: seq<nat>, s: seq<T>, t: seq<T>, i: nat)
    requires i < |s| && Involution(rev, |s|) && Exchanged(rev, s, t, i)
    ensures Exchanged(rev, s, if i < rev[i] then t[i := t[rev[i]]][rev[i] := t[i]] else t, i + 1)
  {}

  lemma ExchangeStart<T>(rev: seq<nat>, s: seq<T>)
    requires Involution(rev, |s|)
    ensures Exchanged(rev, s, s, 0)
  {}

  lemma ExchangeEnd<T>(rev: seq<nat>, s: seq<T>, t: seq<T>)
    requires |s| > 0 && Involution(rev, |s|) && Exchanged(rev, s, t, |s| - 1)
    ensures |t| == |s| && forall p :: 0 <= p < |s| ==> t[p] == s[rev[p]]
  {}
}
