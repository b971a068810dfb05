/** Gopher (gopher.py): a stone goes on an empty cell that touches exactly one opponent
    stone and none of the player's own; a player with no placement left loses. */
module Gopher {
  import opened Util
  import opened Hex
  import opened Board
  import opened Bits
  import opened Base

  /** The cell red's first stone is put on when the board is empty. */
  function Corner(t: Topology): Cell
  {
    Cell(0, t.size - 1)
  }

  /** `empty_grid`: no cell holds a stone (the cells are visited in `order`). */
  function EmptyGrid(grid: map<Cell, int>, order: seq<Cell>): bool
  {
    if |order| == 0 then true
    else if At(grid, order[0]) != 0 then false
    else EmptyGrid(grid, order[1..])
  }

  lemma {:induction false} EmptyGridIff(grid: map<Cell, int>, order: seq<Cell>)
    ensures EmptyGrid(grid, order) <==> forall c :: c in order ==> At(grid, c) == 0
  {
    if |order| > 0 {
      EmptyGridIff(grid, order[1..]);
      assert order == [order[0]] + order[1..];
    }
  }

  // ------------------------------------------------------------ legal moves

  /** The innermost loop of `generate_legal_actions`: walking the neighbours `ns` of a
      candidate cell, the candidate is rejected at an opponent stone other than `box` or
      at a stone of the player's own. */
  function ValidSpot(grid: map<Cell, int>, box: Cell, p: int, o: int, ns: seq<Cell>): bool
  {
    if |ns| == 0 then true
    else if At(grid, ns[0]) == o && ns[0] != box then false
    else if At(grid, ns[0]) == p then false
    else ValidSpot(grid, box, p, o, ns[1..])
  }

  /** The candidates around one opponent stone `box`: its empty neighbours that pass the
      check, in neighbour-list order. */
  function SpotsAround(grid: map<Cell, int>, nbrs: map<Cell, seq<Cell>>, box: Cell, p: int, o: int,
                       ns: seq<Cell>): seq<Action>
  {
    if |ns| == 0 then []
    else
      (if At(grid, ns[0]) == 0 && ValidSpot(grid, box, p, o, Lookup(nbrs, ns[0]))
       then [Place(ns[0])] else [])
      + SpotsAround(grid, nbrs, box, p, o, ns[1..])
  }

  /** The outer loop: the candidates around every opponent stone in turn. */
  function PlacesFrom(grid: map<Cell, int>, nbrs: map<Cell, seq<Cell>>, p: int, o: int,
                      boxes: seq<Cell>): seq<Action>
  {
    if |boxes| == 0 then []
    else SpotsAround(grid, nbrs, boxes[0], p, o, Lookup(nbrs, boxes[0]))
         + PlacesFrom(grid, nbrs, p, o, boxes[1..])
  }

  /** `generate_legal_actions(player)`: red's first stone goes on the corner when the
      board is flagged empty; otherwise the opponent's stones are visited in board order. */
  function Legals(s: State, p: int): seq<Action>
  {
    if p == R && s.isEmpty then [Place(Corner(s.topo))]
    else PlacesFrom(s.grid, s.topo.nbrs, p, Opponent(p),
                    Members(s.topo.order, PlayerCells(s, Opponent(p))))
  }

  lemma {:induction false} ValidSpotIff(grid: map<Cell, int>, box: Cell, p: int, o: int, ns: seq<Cell>)
    ensures ValidSpot(grid, box, p, o, ns) <==>
      forall x :: x in ns ==> (At(grid, x) == o ==> x == box) && At(grid, x) != p
  {
    if |ns| > 0 {
      ValidSpotIff(grid, box, p, o, ns[1..]);
      assert ns == [ns[0]] + ns[1..];
    }
  }

  lemma {:induction false} SpotsAroundMembers(grid: map<Cell, int>, nbrs: map<Cell, seq<Cell>>, box: Cell,
                                              p: int, o: int, ns: seq<Cell>, a: Action)
    ensures a in SpotsAround(grid, nbrs, box, p, o, ns) <==>
      a.Place? && a.at in ns && At(grid, a.at) == 0 && ValidSpot(grid, box, p, o, Lookup(nbrs, a.at))
  {
    if |ns| > 0 {
      SpotsAroundMembers(grid, nbrs, box, p, o, ns[1..], a);
      assert ns == [ns[0]] + ns[1..];
    }
  }

  lemma {:induction false} PlacesFromMembers(grid: map<Cell, int>, nbrs: map<Cell, seq<Cell>>, p: int, o: int,
                                             boxes: seq<Cell>, a: Action)
    ensures a in PlacesFrom(grid, nbrs, p, o, boxes) <==>
      a.Place? && At(grid, a.at) == 0 &&
      exists box :: box in boxes && a.at in Lookup(nbrs, box) && ValidSpot(grid, box, p, o, Lookup(nbrs, a.at))
  {
    if |boxes| > 0 {
      PlacesFromMembers(grid, nbrs, p, o, boxes[1..], a);
      SpotsAroundMembers(grid, nbrs, boxes[0], p, o, Lookup(nbrs, boxes[0]), a);
      assert boxes == [boxes[0]] + boxes[1..];
    }
  }

  lemma {:induction false} SpotsAroundNoDup(grid: map<Cell, int>, nbrs: map<Cell, seq<Cell>>, box: Cell,
                                            p: int, o: int, ns: seq<Cell>)
    requires NoDup(ns)
    ensures NoDup(SpotsAround(grid, nbrs, box, p, o, ns))
  {
    if |ns| > 0 {
      SpotsAroundNoDup(grid, nbrs, box, p, o, ns[1..]);
      SpotsAroundMembers(grid, nbrs, box, p, o, ns[1..], Place(ns[0]));
    }
  }

  /** A candidate that passes the check for `b0` has no other opponent neighbour. */
  lemma UniqueBox(grid: map<Cell, int>, nbrs: map<Cell, seq<Cell>>, p: int, o: int, n: Cell, b0: Cell, b: Cell)
    requires ValidSpot(grid, b0, p, o, Lookup(nbrs, n))
    requires b in Lookup(nbrs, n) && At(grid, b) == o
    ensures b == b0
  {
    ValidSpotIff(grid, b0, p, o, Lookup(nbrs, n));
  }

  /** No cell is reached from two different opponent stones, since passing the check
      for one stone means having no other opponent neighbour. */
  lemma {:induction false} PlacesFromNoDup(grid: map<Cell, int>, nbrs: map<Cell, seq<Cell>>, p: int, o: int,
                                           boxes: seq<Cell>)
    requires NoDup(boxes)
    requires forall b :: b in boxes ==> NoDup(Lookup(nbrs, b)) && At(grid, b) == o
    requires forall b, n :: b in boxes && n in Lookup(nbrs, b) ==> b in Lookup(nbrs, n)
    ensures NoDup(PlacesFrom(grid, nbrs, p, o, boxes))
  {
    if |boxes| > 0 {
      var b0 := boxes[0];
      var head := SpotsAround(grid, nbrs, b0, p, o, Lookup(nbrs, b0));
      var rest := PlacesFrom(grid, nbrs, p, o, boxes[1..]);
      SpotsAroundNoDup(grid, nbrs, b0, p, o, Lookup(nbrs, b0));
      PlacesFromNoDup(grid, nbrs, p, o, boxes[1..]);
      forall i, j | 0 <= i < |head| && 0 <= j < |rest|
        ensures head[i] != rest[j]
      {
        SpotsAroundMembers(grid, nbrs, b0, p, o, Lookup(nbrs, b0), head[i]);
        PlacesFromMembers(grid, nbrs, p, o, boxes[1..], rest[j]);
        if head[i] == rest[j] {
          var n := head[i].at;
          var b :| b in boxes[1..] && n in Lookup(nbrs, b) && ValidSpot(grid, b, p, o, Lookup(nbrs, n));
          UniqueBox(grid, nbrs, p, o, n, b0, b);
          assert false;
        }
      }
      NoDupConcat(head, rest);
    }
  }

  // ---------------------------------------------------------------- validity

  /** No stone anywhere on the board. */
  predicate Bare(s: State)
  {
    forall c :: c in s.grid ==> s.grid[c] == 0
  }

  /** A well-formed Gopher state: the grid covers the board with 0, R and B, the three
      cell sets agree with it, and an `is_empty` flag is only set on an empty grid. */
  ghost predicate Valid(s: State)
  {
    && GridOk(s)
    && SetsAgree(s)
    && s.emptyCells == CellsOf(s.grid, 0)
    && (s.isEmpty ==> Bare(s))
  }

  /** On the board, the all-directions table lists the adjacent on-board cells without
      repeats, and adjacency through it is symmetric. */
  lemma NbrsFacts(t: Topology, c: Cell)
    requires TopologyOk(t) && c in t.cells
    ensures NoDup(Lookup(t.nbrs, c))
    ensures forall n :: n in Lookup(t.nbrs, c) <==> n in t.cells && Adjacent(c, n)
    ensures forall n :: n in Lookup(t.nbrs, c) ==> c in Lookup(t.nbrs, n)
  {
    TableFacts(t.nbrs, t.size, c);
  }

  lemma TableFacts(m: map<Cell, seq<Cell>>, size: int, c: Cell)
    requires NeighborTable(m, size, AllDirs) && OnBoard(size, c)
    ensures NoDup(Lookup(m, c))
    ensures forall n :: n in Lookup(m, c) <==> OnBoard(size, n) && Adjacent(c, n)
    ensures forall n :: n in Lookup(m, c) ==> c in Lookup(m, n)
  {
    var ns := m[c];
    DirsValid();
    AllNbrsCore(size, c);
    forall n | n in ns ensures c in Lookup(m, n)
    {
      assert m[n] == NeighborList(size, n, AllDirs);
    }
  }

  lemma AllNbrsCore(size: int, c: Cell)
    requires OnBoard(size, c)
    ensures NoDup(NeighborList(size, c, AllDirs))
    ensures forall n :: n in NeighborList(size, c, AllDirs) <==> OnBoard(size, n) && Adjacent(c, n)
    ensures forall n :: n in NeighborList(size, c, AllDirs) ==> c in NeighborList(size, n, AllDirs)
  {
    assert forall i :: 0 <= i < |AllDirs| ==> AllDirs[i] == i;
    NeighborListNoDup(size, c, AllDirs);
    forall n ensures n in NeighborList(size, c, AllDirs) <==> OnBoard(size, n) && Adjacent(c, n)
    {
      AllNeighborsAreAdjacent(size, c, n);
    }
    forall n | n in NeighborList(size, c, AllDirs) ensures c in NeighborList(size, n, AllDirs)
    {
      AllNeighborsSymmetric(size, c, n);
    }
  }

  /** A player's cell set holds exactly the cells showing that player. */
  lemma PlayerCellsIff(s: State, p: int, c: Cell)
    requires SetsAgree(s) && IsPlayer(p)
    ensures c in PlayerCells(s, p) <==> At(s.grid, c) == p
  {
  }

  /** The opponent stones the generator visits, with what the no-repeat argument needs. */
  lemma BoxFacts(s: State, p: int)
    requires Valid(s) && IsPlayer(p)
    ensures var boxes := Members(s.topo.order, PlayerCells(s, Opponent(p)));
      && NoDup(boxes)
      && (forall b :: b in boxes ==> NoDup(Lookup(s.topo.nbrs, b)) && At(s.grid, b) == Opponent(p))
      && (forall b, n :: b in boxes && n in Lookup(s.topo.nbrs, b) ==> b in Lookup(s.topo.nbrs, n))
  {
    var boxes := Members(s.topo.order, PlayerCells(s, Opponent(p)));
    forall b | b in boxes
      ensures NoDup(Lookup(s.topo.nbrs, b)) && At(s.grid, b) == Opponent(p)
      ensures forall n :: n in Lookup(s.topo.nbrs, b) ==> b in Lookup(s.topo.nbrs, n)
    {
      PlayerCellsIff(s, Opponent(p), b);
      NbrsFacts(s.topo, b);
    }
  }

  /** The legal list has no repeated cell. */
  lemma LegalsNoDup(s: State, p: int)
    requires Valid(s) && IsPlayer(p)
    ensures NoDup(Legals(s, p))
  {
    if !(p == R && s.isEmpty) {
      BoxFacts(s, p);
      PlacesFromNoDup(s.grid, s.topo.nbrs, p, Opponent(p),
                      Members(s.topo.order, PlayerCells(s, Opponent(p))));
    }
  }

  /** The legality rule in terms of the neighbour table: n is legal for p exactly when it
      is an empty board cell, no neighbour holds p, and exactly one neighbour holds the
      opponent. */
  lemma LegalIff(s: State, p: int, n: Cell)
    requires Valid(s) && IsPlayer(p) && !(p == R && s.isEmpty)
    ensures Place(n) in Legals(s, p) <==>
      n in s.topo.cells && At(s.grid, n) == 0 &&
      (forall x :: x in Lookup(s.topo.nbrs, n) ==> At(s.grid, x) != p) &&
      exists b :: b in Lookup(s.topo.nbrs, n) && At(s.grid, b) == Opponent(p) &&
        forall x :: x in Lookup(s.topo.nbrs, n) && At(s.grid, x) == Opponent(p) ==> x == b
  {
    var o := Opponent(p);
    var t := s.topo;
    var boxes := Members(t.order, PlayerCells(s, o));
    PlacesFromMembers(s.grid, t.nbrs, p, o, boxes, Place(n));
    if Place(n) in Legals(s, p) {
      var box :| box in boxes && n in Lookup(t.nbrs, box) && ValidSpot(s.grid, box, p, o, Lookup(t.nbrs, n));
      PlayerCellsIff(s, o, box);
      NbrsFacts(t, box);
      ValidSpotIff(s.grid, box, p, o, Lookup(t.nbrs, n));
    }
    if n in t.cells && At(s.grid, n) == 0 &&
       (forall x :: x in Lookup(t.nbrs, n) ==> At(s.grid, x) != p) &&
       exists b :: b in Lookup(t.nbrs, n) && At(s.grid, b) == o &&
         forall x :: x in Lookup(t.nbrs, n) && At(s.grid, x) == o ==> x == b
    {
      var b :| b in Lookup(t.nbrs, n) && At(s.grid, b) == o &&
         forall x :: x in Lookup(t.nbrs, n) && At(s.grid, x) == o ==> x == b;
      NbrsFacts(t, n);
      PlayerCellsIff(s, o, b);
      assert b in boxes;
      ValidSpotIff(s.grid, b, p, o, Lookup(t.nbrs, n));
    }
  }

  /** The rule of Gopher on the hex board itself: n is legal for p exactly when it is an
      empty board cell with no adjacent stone of p and exactly one adjacent stone of the
      opponent. */
  lemma LegalRule(s: State, p: int, n: Cell)
    requires Valid(s) && IsPlayer(p) && !(p == R && s.isEmpty)
    ensures Place(n) in Legals(s, p) <==>
      OnBoard(s.topo.size, n) && At(s.grid, n) == 0 &&
      (forall x :: Adjacent(n, x) ==> At(s.grid, x) != p) &&
      exists b :: Adjacent(n, b) && At(s.grid, b) == Opponent(p) &&
        forall x :: Adjacent(n, x) && At(s.grid, x) == Opponent(p) ==> x == b
  {
    LegalIff(s, p, n);
    if n in s.topo.cells {
      NbrsFacts(s.topo, n);
      forall x | Adjacent(n, x) && x !in s.topo.cells ensures At(s.grid, x) == 0 {}
    }
  }

  /** On the opening position red's only move is the corner, an empty board cell, and
      blue has none. */
  lemma Opening(s: State)
    requires Valid(s) && s.isEmpty
    ensures Legals(s, R) == [Place(Corner(s.topo))]
    ensures OnBoard(s.topo.size, Corner(s.topo)) && At(s.grid, Corner(s.topo)) == 0
    ensures Legals(s, B) == []
  {
    NoStoneNoPlace(s, B);
  }

  /** Without any stone on the board, no placement is generated unless red is on the
      opening; in particular a cleared flag on an empty grid leaves both sides without
      a move. */
  lemma NoStoneNoPlace(s: State, p: int)
    requires Valid(s) && IsPlayer(p) && !(p == R && s.isEmpty)
    requires Bare(s)
    ensures Legals(s, p) == []
  {
    var boxes := Members(s.topo.order, PlayerCells(s, Opponent(p)));
    if |boxes| > 0 {
      PlayerCellsIff(s, Opponent(p), boxes[0]);
      assert false;
    }
  }

  /** Facts about a legal placement used by play, undo and move. */
  lemma LegalFacts(s: State, p: int, a: Action)
    requires Valid(s) && IsPlayer(p) && a in Legals(s, p)
    ensures a.Place? && a.at in s.grid && s.grid[a.at] == 0 && a.at in s.topo.order
    ensures a.at in s.emptyCells && a.at !in s.rCells && a.at !in s.bCells
  {
    LegalTarget(s, p, a);
    EmptyCellFacts(s, a.at);
  }

  /** A legal placement targets an empty board cell. */
  lemma LegalTarget(s: State, p: int, a: Action)
    requires Valid(s) && IsPlayer(p) && a in Legals(s, p)
    ensures a.Place? && a.at in s.topo.cells && At(s.grid, a.at) == 0
  {
    if p == R && s.isEmpty {
      assert a == Place(Corner(s.topo));
      CornerEmpty(s);
    } else {
      var o := Opponent(p);
      PlacementTarget(s, p, a, Members(s.topo.order, PlayerCells(s, o)));
    }
  }

  lemma PlacementTarget(s: State, p: int, a: Action, boxes: seq<Cell>)
    requires Valid(s) && IsPlayer(p)
    requires boxes == Members(s.topo.order, PlayerCells(s, Opponent(p)))
    requires a in PlacesFrom(s.grid, s.topo.nbrs, p, Opponent(p), boxes)
    ensures a.Place? && a.at in s.topo.cells && At(s.grid, a.at) == 0
  {
    var o := Opponent(p);
    PlacesFromMembers(s.grid, s.topo.nbrs, p, o, boxes, a);
    var box :| box in boxes && a.at in Lookup(s.topo.nbrs, box) &&
               ValidSpot(s.grid, box, p, o, Lookup(s.topo.nbrs, a.at));
    PlayerCellsIff(s, o, box);
    NbrsFacts(s.topo, box);
  }

  /** On a grid flagged empty the corner is an empty board cell. */
  lemma CornerEmpty(s: State)
    requires Valid(s) && s.isEmpty
    ensures Corner(s.topo) in s.topo.cells && At(s.grid, Corner(s.topo)) == 0
  {
    assert OnBoard(s.topo.size, Corner(s.topo));
  }

  lemma EmptyCellFacts(s: State, c: Cell)
    requires SetsAgree(s) && s.emptyCells == CellsOf(s.grid, 0)
    requires c in s.grid && s.grid[c] == 0
    ensures c in s.emptyCells && c !in s.rCells && c !in s.bCells
  {
  }

  // -------------------------------------------------------------------- move

  /** The constructor of `GameStateGopher`: the base fields, the `is_empty` flag from a
      scan of the grid, and the legal list of the side to move. */
  function Make(t: Topology, grid: map<Cell, int>, turn: int, hash: nat): (s: State)
    ensures s.variant == GopherGame && s.topo == t && s.grid == grid && s.turn == turn
    ensures s.hash == hash && SetsAgree(s) && s.emptyCells == CellsOf(grid, 0)
    ensures s.isEmpty <==> forall c :: c in t.order ==> At(grid, c) == 0
    ensures s.legals == Legals(s, turn)
  {
    EmptyGridIff(grid, t.order);
    var s0 := NewState(GopherGame, t, grid, turn, hash, EmptyGrid(grid, t.order), []);
    s0.(legals := Legals(s0, turn))
  }

  /** `move`: a new state with the stone placed, the turn passed and the hash updated
      incrementally. */
  function Move(s: State, a: Action): State
    requires a.Place?
  {
    var grid := s.grid[a.at := s.turn];
    var hash := Xor(Xor(s.hash, MoverKey(s.topo, a.at, s.turn)), s.topo.turnKey);
    Make(s.topo, grid, Opponent(s.turn), hash)
  }

  // ---------------------------------------------------------- play / undo

  /** `play`: the stone placed in place; the `is_empty` flag is cleared. */
  function Play(s: State, a: Action, p: int): State
    requires a.Place?
  {
    var grid := s.grid[a.at := p];
    if p == R then s.(isEmpty := false, grid := grid, rCells := s.rCells + {a.at},
                      emptyCells := s.emptyCells - {a.at})
    else s.(isEmpty := false, grid := grid, bCells := s.bCells + {a.at},
            emptyCells := s.emptyCells - {a.at})
  }

  /** `undo`: the stone taken back in place; the `is_empty` flag is left as it is. */
  function Undo(s: State, a: Action, p: int): State
    requires a.Place?
  {
    var grid := s.grid[a.at := 0];
    if p == R then s.(grid := grid, rCells := s.rCells - {a.at}, emptyCells := s.emptyCells + {a.at})
    else s.(grid := grid, bCells := s.bCells - {a.at}, emptyCells := s.emptyCells + {a.at})
  }

  /** `evaluate`: the player's mobility minus the opponent's, seen from `player`. */
  function Evaluate(s: State, legals: seq<Action>, p: int): int
  {
    if p == s.turn then |legals| - |Legals(s, s.opponent)| else |Legals(s, s.turn)| - |legals|
  }

  // ------------------------------------------------------------ properties

  /** For a legal placement, `undo` after `play` restores everything but the `is_empty`
      flag, which stays cleared. */
  lemma PlayUndo(s: State, a: Action, p: int)
    requires Valid(s) && IsPlayer(p) && a in Legals(s, p)
    ensures a.Place? && Undo(Play(s, a, p), a, p) == s.(isEmpty := false)
  {
    LegalFacts(s, p, a);
    PlaceRoundTrip(s, a, p);
  }

  lemma PlaceRoundTrip(s: State, a: Action, p: int)
    requires a.Place? && a.at in s.grid && s.grid[a.at] == 0
    requires a.at in s.emptyCells && a.at !in s.rCells && a.at !in s.bCells
    ensures Undo(Play(s, a, p), a, p) == s.(isEmpty := false)
  {
    assert s.grid[a.at := p][a.at := 0] == s.grid;
  }

  /** `play` of a legal placement keeps the state well formed and fills exactly one
      empty cell. */
  lemma PlayKeepsValid(s: State, a: Action, p: int)
    requires Valid(s) && IsPlayer(p) && a in Legals(s, p)
    ensures a.Place? && Valid(Play(s, a, p))
    ensures |Play(s, a, p).emptyCells| == |s.emptyCells| - 1
  {
    LegalFacts(s, p, a);
    PlaceValid(s, a, p);
  }

  lemma PlaceValid(s: State, a: Action, p: int)
    requires Valid(s) && IsPlayer(p) && a.Place? && a.at in s.grid && s.grid[a.at] == 0
    ensures Valid(Play(s, a, p))
    ensures |Play(s, a, p).emptyCells| == |s.emptyCells| - 1
  {
    PlaceGridOk(s, a, p);
    PlaceSetsAgree(s, a, p);
  }

  lemma PlaceGridOk(s: State, a: Action, p: int)
    requires GridOk(s) && IsPlayer(p) && a.Place? && a.at in s.grid
    ensures GridOk(Play(s, a, p))
  {
    PlaceKeepsGrid(s, a, p);
    GridOkFrame(s, Play(s, a, p));
  }

  lemma PlaceKeepsGrid(s: State, a: Action, p: int)
    requires a.Place? && IsPlayer(p) && a.at in s.grid
    requires forall c :: c in s.grid ==> s.grid[c] in {0, R, B}
    ensures Play(s, a, p).grid.Keys == s.grid.Keys && Play(s, a, p).topo == s.topo
    ensures forall c :: c in Play(s, a, p).grid ==> Play(s, a, p).grid[c] in {0, R, B}
  {
  }

  lemma PlaceSetsAgree(s: State, a: Action, p: int)
    requires SetsAgree(s) && s.emptyCells == CellsOf(s.grid, 0)
    requires IsPlayer(p) && a.Place? && a.at in s.grid && s.grid[a.at] == 0
    ensures SetsAgree(Play(s, a, p)) && Play(s, a, p).emptyCells == CellsOf(Play(s, a, p).grid, 0)
    ensures |Play(s, a, p).emptyCells| == |s.emptyCells| - 1
  {
    PlaceKeepsSets(s.grid, a.at, p, s.emptyCells);
    PlaceKeepsSets(s.grid, a.at, p, PlayerCells(s, p));
    PlaceKeepsOther(s.grid, a.at, p, Opponent(p));
  }

  lemma PlaceKeepsSets(grid: map<Cell, int>, c: Cell, p: int, cs: set<Cell>)
    requires IsPlayer(p) && c in grid && grid[c] == 0
    ensures cs == CellsOf(grid, 0) ==> CellsOf(grid[c := p], 0) == cs - {c} && |cs - {c}| == |cs| - 1
    ensures cs == CellsOf(grid, p) ==> CellsOf(grid[c := p], p) == cs + {c}
  {
    forall x ensures x in CellsOf(grid[c := p], 0) <==> x in CellsOf(grid, 0) - {c} {}
    forall x ensures x in CellsOf(grid[c := p], p) <==> x in CellsOf(grid, p) + {c} {}
  }

  lemma PlaceKeepsOther(grid: map<Cell, int>, c: Cell, p: int, o: int)
    requires o != p && o != 0 && c in grid && grid[c] == 0
    ensures CellsOf(grid[c := p], o) == CellsOf(grid, o)
  {
    forall x ensures x in CellsOf(grid[c := p], o) <==> x in CellsOf(grid, o) {}
  }

  /** `move` of a legal placement yields the grid and cell sets `play` would, in a
      well-formed state whose turn has passed to the opponent. */
  lemma MoveIsPlay(s: State, a: Action)
    requires Valid(s) && IsPlayer(s.turn) && a in Legals(s, s.turn)
    ensures a.Place?
    ensures Move(s, a).grid == Play(s, a, s.turn).grid
    ensures Move(s, a).rCells == Play(s, a, s.turn).rCells
    ensures Move(s, a).bCells == Play(s, a, s.turn).bCells
    ensures Move(s, a).emptyCells == Play(s, a, s.turn).emptyCells
    ensures Move(s, a).turn == Opponent(s.turn) && Move(s, a).turn != s.turn
    ensures !Move(s, a).isEmpty && Valid(Move(s, a))
  {
    LegalFacts(s, s.turn, a);
    PlayKeepsValid(s, a, s.turn);
  }

  /** Each `move` changes the drift by exactly the turn key. */
  lemma MoveDrift(s: State, a: Action)
    requires Valid(s) && IsPlayer(s.turn) && a in Legals(s, s.turn)
    ensures a.Place? && Drift(Move(s, a)) == Xor(Drift(s), s.topo.turnKey)
  {
    LegalFacts(s, s.turn, a);
    PlaceDrift(s.topo, s.grid, s.hash, a.at, s.turn);
  }

  lemma PlaceDrift(t: Topology, grid: map<Cell, int>, h: nat, c: Cell, p: int)
    requires NoDup(t.order) && c in t.order && At(grid, c) == 0 && IsPlayer(p)
    ensures
      var k := MoverKey(t, c, p);
      Xor(Xor(Xor(h, k), t.turnKey), Sig(t, grid[c := p], t.order)) ==
      Xor(Xor(h, Sig(t, grid, t.order)), t.turnKey)
  {
    var k := MoverKey(t, c, p);
    var S := Sig(t, grid, t.order);
    SigUpdate(t, grid, t.order, c, p);
    assert Contribution(t, grid, c) == 0;
    assert Contribution(t, grid[c := p], c) == k;
    XorZero(S);
    XorSwapLast(h, k, t.turnKey);
    XorCancelCommon(Xor(h, t.turnKey), S, k);
    XorSwapLast(h, t.turnKey, S);
  }

  /** Replaying a sequence of moves, each legal for the side to move; `None` at the first
      illegal one. */
  function Replay(s: State, acts: seq<Action>): Option<State>
    decreases |acts|
  {
    if |acts| == 0 then Some(s)
    else if acts[0] in Legals(s, s.turn) && acts[0].Place? then Replay(Move(s, acts[0]), acts[1..])
    else None
  }

  /** After any legal move sequence the state is well formed, the topology unchanged,
      one empty cell is filled per move, and the drift has changed by the turn key once
      per move. */
  lemma {:induction false} ReplayFacts(s: State, acts: seq<Action>)
    requires Valid(s) && IsPlayer(s.turn)
    ensures Replay(s, acts).Some? ==>
      var u := Replay(s, acts).value;
      && u.topo == s.topo
      && |u.emptyCells| + |acts| == |s.emptyCells|
      && Drift(u) == (if |acts| % 2 == 0 then Drift(s) else Xor(Drift(s), s.topo.turnKey))
    decreases |acts|
  {
    if |acts| > 0 && acts[0] in Legals(s, s.turn) && acts[0].Place? {
      var s' := Move(s, acts[0]);
      var rest := acts[1..];
      assert Replay(s, acts) == Replay(s', rest);
      MoveDrift(s, acts[0]);
      MoveIsPlay(s, acts[0]);
      PlayKeepsValid(s, acts[0], s.turn);
      ReplayFacts(s', rest);
      var r := Replay(s', rest);
      if r.Some? {
        assert s'.topo == s.topo;
        DriftParity(Drift(s), s.topo.turnKey, |acts|, |rest|, Drift(s'), Drift(r.value));
      }
    } else if |acts| > 0 {
      assert Replay(s, acts) == None;
    }
  }

  /** Path independence: any two legal move sequences that reach the same grid reach the
      same hash. Unlike Dodo no parity condition is needed, since the number of moves is
      the number of cells filled. */
  lemma PathIndependent(s: State, acts1: seq<Action>, acts2: seq<Action>)
    requires Valid(s) && IsPlayer(s.turn)
    requires Replay(s, acts1).Some? && Replay(s, acts2).Some?
    requires Replay(s, acts1).value.grid == Replay(s, acts2).value.grid
    ensures |acts1| == |acts2|
    ensures Replay(s, acts1).value.hash == Replay(s, acts2).value.hash
  {
    ReplayFacts(s, acts1);
    ReplayFacts(s, acts2);
    ReplayValid(s, acts1);
    ReplayValid(s, acts2);
    var t1 := Replay(s, acts1).value;
    var t2 := Replay(s, acts2).value;
    XorInjective(t1.hash, t2.hash, Sig(t1.topo, t1.grid, t1.topo.order));
  }

  /** Every state reached by legal moves is well formed. */
  lemma {:induction false} ReplayValid(s: State, acts: seq<Action>)
    requires Valid(s) && IsPlayer(s.turn)
    ensures Replay(s, acts).Some? ==> Valid(Replay(s, acts).value)
    decreases |acts|
  {
    if |acts| > 0 && acts[0] in Legals(s, s.turn) && acts[0].Place? {
      MoveIsPlay(s, acts[0]);
      ReplayValid(Move(s, acts[0]), acts[1..]);
    }
  }

  /** The heuristic is always the mobility balance seen from the side to move, whichever
      player it is asked for; its sign is the opposite of Dodo's. */
  lemma EvaluateTurnView(s: State, p: int)
    requires p == s.turn || p == s.opponent
    ensures Evaluate(s, Legals(s, p), p) == |Legals(s, s.turn)| - |Legals(s, s.opponent)|
  {
  }
}
