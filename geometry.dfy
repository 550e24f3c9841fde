/** Cells of the grid are identified by their column `i` and row `j`. */
module Geometry {
  import opened JsCollections
  datatype Coord = Coord(i: int, j: int)

  /** The four orthogonal neighbours, named as the grid is drawn (row `j` grows downwards). */
  function Up(c: Coord): Coord { Coord(c.i, c.j - 1) }
  function Down(c: Coord): Coord { Coord(c.i, c.j + 1) }
  function Left(c: Coord): Coord { Coord(c.i - 1, c.j) }
  function Right(c: Coord): Coord { Coord(c.i + 1, c.j) }

  /** `b` is one of the four cells that share a side with `a`. */
  predicate Adjacent(a: Coord, b: Coord) {
    b == Up(a) || b == Down(a) || b == Left(a) || b == Right(a)
  }

  /** Position of neighbour `n` of `c` in the order up, down, left, right. */
  function Direction(c: Coord, n: Coord): int {
    if n == Up(c) then 0
    else if n == Down(c) then 1
    else if n == Left(c) then 2
    else 3
  }

  /** Adjacent cells are one step apart, along one axis (a stand-alone fact about `Adjacent`). */
  lemma AdjacentIsOneStep(a: Coord, b: Coord)
    ensures Adjacent(a, b) <==> Abs(a.i - b.i) + Abs(a.j - b.j) == 1
  {
  }

  function Abs(x: int): int { if x < 0 then -x else x }

  /**
   * The integer part of the heuristic: the Manhattan distance between two
   * cells. It stands alone: the A* score is a parameter of the step, so
   * nothing in the search uses it.
   */
  function Manhattan(a: Coord, b: Coord): (d: nat)
    ensures d == 0 <==> a == b
    ensures d == Abs(b.i - a.i) + Abs(b.j - a.j)
  {
    Abs(a.i - b.i) + Abs(a.j - b.j)
  }

  /** One step to a neighbour moves exactly one unit closer to, or further from, any goal (a stand-alone fact). */
  lemma ManhattanAdjacent(a: Coord, b: Coord, goal: Coord)
    requires Adjacent(a, b)
    ensures Manhattan(b, goal) == Manhattan(a, goal) + 1 || Manhattan(b, goal) + 1 == Manhattan(a, goal)
  {
  }

  /** The cells of `s` are neighbours of `c` listed in the order up, down, left, right. */
  predicate InDirectionOrder(c: Coord, s: seq<Coord>) {
    forall k :: 0 <= k < |s| - 1 ==> Direction(c, s[k]) < Direction(c, s[k + 1])
  }

  /** The neighbours of `c` whose flag is set, in the order up, down, left, right. */
  function Kept(c: Coord, up: bool, down: bool, left: bool, right: bool): (ns: seq<Coord>)
    ensures |ns| <= 4
    ensures forall n :: n in ns <==>
      (up && n == Up(c)) || (down && n == Down(c)) || (left && n == Left(c)) || (right && n == Right(c))
    ensures InDirectionOrder(c, ns)
  {
    (if up then [Up(c)] else []) + (if down then [Down(c)] else []) +
    (if left then [Left(c)] else []) + (if right then [Right(c)] else [])
  }

  /** Listed in direction order, the neighbours are all different and never out of order. */
  lemma {:induction false} DirectionOrderDistinct(c: Coord, s: seq<Coord>)
    requires InDirectionOrder(c, s)
    ensures forall a, b :: 0 <= a < b < |s| ==> Direction(c, s[a]) < Direction(c, s[b])
    ensures Distinct(s)
  {
    if |s| > 1 {
      DirectionOrderDistinct(c, s[1..]);
      forall a, b | 0 <= a < b < |s| ensures Direction(c, s[a]) < Direction(c, s[b]) {
        if a > 0 {
          assert s[a] == s[1..][a - 1] && s[b] == s[1..][b - 1];
        } else if b > 1 {
          assert s[1] == s[1..][0] && s[b] == s[1..][b - 1];
        }
      }
    }
  }
}
