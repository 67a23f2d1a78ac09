/** Searching in strings. */
module Strings {
  import opened Options

  /** The first position of c in s. */
  function Index(s: string, c: char): Option<nat> {
    if s == [] then None
    else if s[0] == c then Some(0)
    else match Index(s[1..], c) case None => None case Some(i) => Some(i + 1)
  }

  lemma {:induction false} IndexFirst(s: string, c: char, t: string)
    requires c !in s
    ensures Index(s + [c] + t, c) == Some(|s|)
  {
    if s != [] {
      IndexFirst(s[1..], c, t);
      assert (s + [c] + t)[1..] == s[1..] + [c] + t;
    }
  }

  lemma {:induction false} IndexBound(s: string, c: char)
    ensures match Index(s, c)
            case None => c !in s
            case Some(i) => i < |s| && s[i] == c && c !in s[..i]
  {
    if s != [] && s[0] != c {
      IndexBound(s[1..], c);
      if Index(s[1..], c).Some? {
        var i := Index(s[1..], c).value;
        assert s[..i + 1] == [s[0]] + s[1..][..i];
      }
    }
  }
}
