/** Axial hexagonal coordinates and the six unit directions (hex_tools.py). */
module Hex {

  /** A board cell, the axial pair (q, r). */
  datatype Cell = Cell(q: int, r: int)

  /** The six directions, in the order of `hex_directions`. */
  const Directions: seq<Cell> :=
    [Cell(-1, 0), Cell(0, 1), Cell(1, 1), Cell(1, 0), Cell(0, -1), Cell(-1, -1)]

  /** A direction index Python accepts for a six-element list (negative indices count
      from the end). */
  predicate ValidDirection(d: int)
  {
    -6 <= d < 6
  }

  /** `hex_direction`: the vector at list position `d`. */
  function Direction(d: int): (v: Cell)
    requires ValidDirection(d)
    ensures v in Directions
    ensures 0 <= d ==> v == Directions[d]
    ensures d < 0 ==> v == Directions[d + 6]
  {
    Directions[if d < 0 then d + 6 else d]
  }

  /** `neighbor`: the cell one step from `h` in direction `d`. */
  function Neighbor(h: Cell, d: int): (n: Cell)
    requires ValidDirection(d)
    ensures Adjacent(h, n)
  {
    var v := Direction(d);
    Cell(h.q + v.q, h.r + v.r)
  }

  /** Hex adjacency stated independently of the direction table: the coordinate
      differences are at most one and do not cancel (which also rules out the
      cell itself). */
  predicate Adjacent(a: Cell, b: Cell)
  {
    var dq := b.q - a.q;
    var dr := b.r - a.r;
    -1 <= dq <= 1 && -1 <= dr <= 1 && dq + dr != 0
  }

  /** Every adjacent cell is reached by one of the six directions. */
  lemma AdjacentIsNeighbor(a: Cell, b: Cell)
    requires Adjacent(a, b)
    ensures exists d :: 0 <= d < 6 && Neighbor(a, d) == b
  {
    var dq, dr := b.q - a.q, b.r - a.r;
    var d := if dq == -1 && dr == 0 then 0
             else if dq == 0 && dr == 1 then 1
             else if dq == 1 && dr == 1 then 2
             else if dq == 1 && dr == 0 then 3
             else if dq == 0 && dr == -1 then 4
             else 5;
    assert Neighbor(a, d) == b;
  }

  /** Directions d and (d + 3) mod 6 are opposite, so stepping back returns home. */
  lemma NeighborOpposite(h: Cell, d: int)
    requires 0 <= d < 6
    ensures Neighbor(Neighbor(h, d), (d + 3) % 6) == h
  {
    assert Directions[(d + 3) % 6] == Cell(-Directions[d].q, -Directions[d].r);
  }

  /** The six neighbours of a cell are pairwise distinct and differ from the cell. */
  lemma NeighborsDistinct(h: Cell, d1: int, d2: int)
    requires 0 <= d1 < 6 && 0 <= d2 < 6
    ensures Neighbor(h, d1) != h
    ensures d1 != d2 ==> Neighbor(h, d1) != Neighbor(h, d2)
  {
    assert Directions[d1] != Cell(0, 0);
    assert d1 != d2 ==> Directions[d1] != Directions[d2];
  }
}
