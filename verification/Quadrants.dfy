/** The schedule of benchees/bloodworth: a loop to an eighth of a turn that handles an offset and its
    mirror images in the other quadrants together (b-fht.c:181-192, quad2fft.c:200-217).
  */
module Quadrants {

  /** The distance to the nearest of 0, h / 2 and h: the turn of the loop that meets the index. */
  function Turn(h: nat, i: int): int {
    var q := h / 4;
    if i <= q then i else if i <= 2 * q then 2 * q - i else if i <= 3 * q then i - 2 * q else h - i
  }

  ghost function Turned(h: nat, x: int): (r: set<int>)
    ensures forall i :: i in r <==> 0 <= i < h && Turn(h, i) < x
  {
    set i | 0 <= i < h && Turn(h, i) < x
  }

  /** Each turn meets four new indices, the last one two. */
  lemma NextTurn(h: nat, x: int)
    requires h % 4 == 0 && 1 <= x <= h / 4
    ensures var q := h / 4;
            Turned(h, x + 1) == Turned(h, x) + {x, h - x} + {2 * q - x, 2 * q + x}
    ensures x !in Turned(h, x) && h - x !in Turned(h, x)
  {}

  lemma FirstTurn(h: nat)
    requires h % 4 == 0 && h > 0
    ensures Turned(h, 1) == {0, h / 2}
  {}

  lemma LastTurn(h: nat, x: int)
    requires h % 4 == 0 && h > 0 && x == h / 4 + 1
    ensures forall i :: 0 <= i < h ==> i in Turned(h, x)
  {}

  lemma TurnDisjoint(h: nat, x: int)
    requires h % 4 == 0 && 1 <= x < h / 4
    ensures h / 2 - x !in Turned(h, x) + {x, h - x} && h / 2 + x !in Turned(h, x) + {x, h - x}
    ensures h - (h / 2 - x) == h / 2 + x
  {}
}
