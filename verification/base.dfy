/** The part of a game state shared by both games (gamestate.py): the record itself,
    the sets derived from the grid at construction, and the Zobrist signature of a grid. */
module Base {
  import opened Util
  import opened Hex
  import opened Board
  import opened Bits

  /** A Dodo action moves a checker from `src` to `dst`; a Gopher action places a stone. */
  datatype Action = Step(src: Cell, dst: Cell) | Place(at: Cell)

  datatype Variant = DodoGame | GopherGame

  /** One game state. `legals` is computed once at construction and never refreshed by
      `play`/`undo`; `emptyCells` and `isEmpty` are only maintained by Gopher. */
  datatype State = State(
    variant: Variant,
    topo: Topology,
    grid: map<Cell, int>,
    turn: int,
    opponent: int,
    rCells: set<Cell>,
    bCells: set<Cell>,
    emptyCells: set<Cell>,
    hash: nat,
    isEmpty: bool,
    legals: seq<Action>)

  predicate IsPlayer(p: int)
  {
    p == R || p == B
  }

  /** `R if player == B else B`. */
  function Opponent(p: int): (o: int)
    ensures IsPlayer(o)
    ensures IsPlayer(p) ==> o != p
  {
    if p == B then R else B
  }

  /** Grid lookup; the source raises KeyError off the board, where no well-formed
      state ever looks. */
  function At(grid: map<Cell, int>, c: Cell): int
  {
    if c in grid then grid[c] else 0
  }

  /** Neighbour-table lookup, empty off the board. */
  function Lookup(m: map<Cell, seq<Cell>>, c: Cell): seq<Cell>
  {
    if c in m then m[c] else []
  }

  function CellsOf(grid: map<Cell, int>, p: int): set<Cell>
  {
    set c | c in grid && grid[c] == p
  }

  /** The elements of a set in the order of `order` (the stand-in for Python's set
      iteration order). */
  function Members(order: seq<Cell>, s: set<Cell>): (m: seq<Cell>)
    ensures forall c :: c in m <==> c in order && c in s
    ensures NoDup(order) ==> NoDup(m)
  {
    if |order| == 0 then []
    else
      var rest := Members(order[1..], s);
      assert NoDup(order) ==> NoDup(order[1..]) && order[0] !in order[1..];
      if order[0] in s then [order[0]] + rest else rest
  }

  /** The base constructor: turn, opponent and the three occupancy sets derived from
      the grid. The variant supplies `isEmpty` and the legal list. */
  function NewState(variant: Variant, topo: Topology, grid: map<Cell, int>, turn: int,
                    hash: nat, isEmpty: bool, legals: seq<Action>): (s: State)
    ensures s.grid == grid && s.turn == turn && s.topo == topo && s.hash == hash
    ensures s.opponent == Opponent(turn) && IsPlayer(s.opponent)
    ensures IsPlayer(turn) ==> s.opponent != turn
    ensures s.rCells !! s.bCells && s.rCells !! s.emptyCells && s.bCells !! s.emptyCells
    ensures (forall c :: c in grid ==> grid[c] in {0, R, B}) ==>
              s.rCells + s.bCells + s.emptyCells == grid.Keys
    ensures forall c :: c in s.rCells <==> c in grid && grid[c] == R
    ensures forall c :: c in s.bCells <==> c in grid && grid[c] == B
  {
    State(variant, topo, grid, turn, Opponent(turn), CellsOf(grid, R), CellsOf(grid, B),
          CellsOf(grid, 0), hash, isEmpty, legals)
  }

  /** The grid covers exactly the board and holds only 0, R and B. */
  ghost predicate GridOk(s: State)
  {
    && TopologyOk(s.topo)
    && s.grid.Keys == s.topo.cells
    && (forall c :: c in s.grid ==> s.grid[c] in {0, R, B})
  }

  /** Grid well-formedness survives any change that keeps the topology, the cells and
      the range of values. */
  lemma GridOkFrame(s: State, s': State)
    requires GridOk(s) && s'.topo == s.topo && s'.grid.Keys == s.grid.Keys
    requires forall c :: c in s'.grid ==> s'.grid[c] in {0, R, B}
    ensures GridOk(s')
  {
  }

  /** The player-cell sets agree with the grid. */
  predicate SetsAgree(s: State)
  {
    s.rCells == CellsOf(s.grid, R) && s.bCells == CellsOf(s.grid, B)
  }

  function PlayerCells(s: State, p: int): set<Cell>
  {
    if p == R then s.rCells else s.bCells
  }

  // ----------------------------------------------------------- zobrist

  /** The key of cell c for player p: red's key for R, blue's for B, nothing for
      an empty cell or a cell without keys. */
  function Key(t: Topology, c: Cell, p: int): nat
  {
    if c !in t.keys then 0
    else if p == R then t.keys[c].r
    else if p == B then t.keys[c].b
    else 0
  }

  /** What cell c contributes to the from-scratch hash of a grid: its occupant's key,
      nothing when empty. */
  function Contribution(t: Topology, grid: map<Cell, int>, c: Cell): nat
  {
    Key(t, c, At(grid, c))
  }

  /** The from-scratch Zobrist signature of a grid: the XOR of every occupied cell's key. */
  function Sig(t: Topology, grid: map<Cell, int>, order: seq<Cell>): nat
  {
    if |order| == 0 then 0
    else Xor(Sig(t, grid, order[..|order| - 1]), Contribution(t, grid, order[|order| - 1]))
  }

  /** The corrected start hash of a listed grid is its Zobrist signature: building a
      board from the referee's list starts the incremental hash with no drift. */
  lemma {:induction false} StartHashIsSig(t: Topology, grid: map<Cell, int>, order: seq<Cell>)
    requires forall i :: 0 <= i < |order| ==> order[i] in grid && order[i] in t.keys
    ensures Listed(t.keys, GridToState(order, grid))
    ensures StartHash(t.keys, GridToState(order, grid)) == Sig(t, grid, order)
  {
    var s := GridToState(order, grid);
    if |order| > 0 {
      var init := order[..|order| - 1];
      StartHashIsSig(t, grid, init);
      assert s[..|s| - 1] == GridToState(init, grid);
    }
  }

  /** Writing a cell outside `order` leaves the signature unchanged. */
  lemma {:induction false} SigUpdateOutside(t: Topology, grid: map<Cell, int>, order: seq<Cell>, c: Cell, x: int)
    requires c !in order
    ensures Sig(t, grid[c := x], order) == Sig(t, grid, order)
  {
    if |order| > 0 {
      SigUpdateOutside(t, grid, order[..|order| - 1], c, x);
      assert At(grid[c := x], order[|order| - 1]) == At(grid, order[|order| - 1]);
    }
  }

  /** Writing one cell of `order` changes the signature by that cell's old and new
      contributions. */
  lemma {:induction false} SigUpdate(t: Topology, grid: map<Cell, int>, order: seq<Cell>, c: Cell, x: int)
    requires NoDup(order) && c in order
    ensures Sig(t, grid[c := x], order) ==
      Xor(Xor(Sig(t, grid, order), Contribution(t, grid, c)), Contribution(t, grid[c := x], c))
  {
    var g' := grid[c := x];
    var n := |order|;
    var init := order[..n - 1];
    var last := order[n - 1];
    assert order == init + [last];
    if c == last {
      SigUpdateOutside(t, grid, init, c, x);
      XorUndo(Sig(t, grid, init), Contribution(t, grid, c));
    } else {
      SigUpdate(t, grid, init, c, x);
      assert At(g', last) == At(grid, last);
      XorMoveLast(Sig(t, grid, init), Contribution(t, grid, c), Contribution(t, g', c),
                  Contribution(t, grid, last));
    }
  }

  /** The mover's key in both games' `move`: the red key when the mover is R, the blue
      key otherwise. */
  function MoverKey(t: Topology, c: Cell, turn: int): nat
  {
    if c !in t.keys then 0 else if turn == R then t.keys[c].r else t.keys[c].b
  }

  /** The Zobrist drift of a state: its stored hash xor the from-scratch signature of its
      grid. A correct incremental hash keeps it fixed up to the turn key. */
  function Drift(s: State): nat
  {
    Xor(s.hash, Sig(s.topo, s.grid, s.topo.order))
  }

  /** One more move flips the parity, and xoring the turn key twice cancels. */
  lemma DriftParity(d: nat, t: nat, n: nat, m: nat, d1: nat, x: nat)
    requires n == m + 1 && d1 == Xor(d, t)
    requires x == (if m % 2 == 0 then d1 else Xor(d1, t))
    ensures x == (if n % 2 == 0 then d else Xor(d, t))
  {
    XorUndo(d, t);
  }
}
