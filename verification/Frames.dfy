/** Arrays of which only a part has changed. */
module Frames {

  /** The cells outside [start, start + n) are as before. */
  ghost predicate Framed<T>(was: seq<T>, now: seq<T>, start: nat, n: nat) {
    && |was| == |now| && start + n <= |now|
    && forall k :: 0 <= k < |now| && !(start <= k < start + n) ==> now[k] == was[k]
  }

  lemma FramedTwice<T>(a: seq<T>, b: seq<T>, c: seq<T>, start: nat, n: nat)
    requires Framed(a, b, start, n) && Framed(b, c, start, n)
    ensures Framed(a, c, start, n)
  {}

  lemma FramedSame<T>(a: seq<T>, start: nat, n: nat)
    requires start + n <= |a|
    ensures Framed(a, a, start, n)
  {}

  lemma FramedSlices<T>(a: seq<T>, b: seq<T>, start: nat, n: nat, i: nat, j: nat)
    requires Framed(a, b, start, n) && i <= j <= |a| && (j <= start || start + n <= i)
    ensures |b| == |a| && b[i..j] == a[i..j]
  {}

  lemma FramedWider<T>(a: seq<T>, b: seq<T>, start: nat, n: nat, start': nat, n': nat)
    requires Framed(a, b, start, n) && start' <= start && start + n <= start' + n' <= |a|
    ensures Framed(a, b, start', n')
  {}

  lemma FramedChain<T>(a: seq<T>, b: seq<T>, c: seq<T>, d: seq<T>, start: nat, n: nat)
    requires Framed(a, b, start, n) && Framed(b, c, start, n) && Framed(c, d, start, n)
    ensures Framed(a, d, start, n)
  {
    FramedTwice(a, b, c, start, n);
    FramedTwice(a, c, d, start, n);
  }

  lemma SliceJoin<T>(a: seq<T>, start: nat, h: nat)
    requires start + 2 * h <= |a|
    ensures a[start..start + 2 * h] == a[start..start + h] + a[start + h..start + 2 * h]
    ensures a[start..start + 2 * h][..h] == a[start..start + h] && a[start..start + 2 * h][h..] == a[start + h..start + 2 * h]
  {}

  lemma Views<T>(data: array<T>, start: nat, h: nat)
    requires start + 2 * h <= data.Length
    ensures data[..][start..start + h] == data[start..start + h] && data[..][start + h..start + 2 * h] == data[start + h..start + 2 * h]
    ensures data[..][start..start + 2 * h] == data[start..start + 2 * h]
  {}

  lemma ViewOf<T>(a: seq<T>, start: nat, n: nat)
    requires start + n <= |a|
    ensures |a[start..start + n]| == n
  {}
}
