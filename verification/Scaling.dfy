/** Samples that come back multiplied by one factor. */
module Scaling {
  import opened ComplexNumbers

  ghost predicate Scaled(r: real, s: seq<real>, u: seq<real>) {
    |u| == |s| && forall i :: 0 <= i < |s| ==> u[i] == Times(r, s[i])
  }

  lemma TimesSum(r: real, x: real, y: real)
    ensures Times(r, x + y) + Times(r, x - y) == Times(2.0 * r, x)
    ensures Times(r, x + y) - Times(r, x - y) == Times(2.0 * r, y)
    ensures Times(r, y + x) - Times(r, y - x) == Times(2.0 * r, x)
  {}
}
