/** Dodo (dodo.py): a checker steps forward, from its owner's point of view, into an
    empty neighbouring cell; a player with no step left wins. */
module Dodo {
  import opened Util
  import opened Hex
  import opened Board
  import opened Bits
  import opened Base

  /** The neighbour table of a player's point of view: red's for R, blue's otherwise. */
  function Pov(t: Topology, p: int): map<Cell, seq<Cell>>
  {
    if p == R then t.rPov else t.bPov
  }

  function PovDirs(p: int): (d: seq<int>)
    ensures |d| == 3 && NoDup(d) && forall i :: 0 <= i < 3 ==> 0 <= d[i] < 6
  {
    if p == R then RedDirs else BlueDirs
  }

  /** On the board, a point-of-view table lists the neighbours in that player's three
      forward directions. */
  lemma PovLookup(t: Topology, p: int, c: Cell)
    requires TopologyOk(t) && c in t.cells
    ensures Lookup(Pov(t, p), c) == NeighborList(t.size, c, PovDirs(p))
    ensures NoDup(Lookup(Pov(t, p), c))
  {
    NeighborListNoDup(t.size, c, PovDirs(p));
  }

  // ------------------------------------------------------------ legal moves

  /** The steps from `c` into the empty cells of `ns`, in list order. */
  function StepsFrom(grid: map<Cell, int>, c: Cell, ns: seq<Cell>): seq<Action>
  {
    if |ns| == 0 then []
    else (if At(grid, ns[0]) == 0 then [Step(c, ns[0])] else []) + StepsFrom(grid, c, ns[1..])
  }

  /** The comprehension of `generate_legal_actions`: for each cell in turn, its steps. */
  function LegalsFrom(grid: map<Cell, int>, pov: map<Cell, seq<Cell>>, cells: seq<Cell>): seq<Action>
  {
    if |cells| == 0 then []
    else StepsFrom(grid, cells[0], Lookup(pov, cells[0])) + LegalsFrom(grid, pov, cells[1..])
  }

  /** `generate_legal_actions(player)`; the player's cells are visited in board order. */
  function Legals(s: State, p: int): seq<Action>
  {
    LegalsFrom(s.grid, Pov(s.topo, p), Members(s.topo.order, PlayerCells(s, p)))
  }

  lemma {:induction false} StepsFromMembers(grid: map<Cell, int>, c: Cell, ns: seq<Cell>, a: Action)
    ensures a in StepsFrom(grid, c, ns) <==> a.Step? && a.src == c && a.dst in ns && At(grid, a.dst) == 0
  {
    if |ns| > 0 {
      StepsFromMembers(grid, c, ns[1..], a);
      assert ns == [ns[0]] + ns[1..];
    }
  }

  lemma {:induction false} LegalsFromMembers(grid: map<Cell, int>, pov: map<Cell, seq<Cell>>,
                                             cells: seq<Cell>, a: Action)
    ensures a in LegalsFrom(grid, pov, cells) <==>
      a.Step? && a.src in cells && a.dst in Lookup(pov, a.src) && At(grid, a.dst) == 0
  {
    if |cells| > 0 {
      LegalsFromMembers(grid, pov, cells[1..], a);
      StepsFromMembers(grid, cells[0], Lookup(pov, cells[0]), a);
      assert cells == [cells[0]] + cells[1..];
    }
  }

  lemma {:induction false} StepsFromNoDup(grid: map<Cell, int>, c: Cell, ns: seq<Cell>)
    requires NoDup(ns)
    ensures NoDup(StepsFrom(grid, c, ns))
  {
    if |ns| > 0 {
      StepsFromNoDup(grid, c, ns[1..]);
      StepsFromMembers(grid, c, ns[1..], Step(c, ns[0]));
    }
  }

  lemma {:induction false} LegalsFromNoDup(grid: map<Cell, int>, pov: map<Cell, seq<Cell>>, cells: seq<Cell>)
    requires NoDup(cells)
    requires forall c :: c in cells ==> NoDup(Lookup(pov, c))
    ensures NoDup(LegalsFrom(grid, pov, cells))
  {
    if |cells| > 0 {
      var head := StepsFrom(grid, cells[0], Lookup(pov, cells[0]));
      var rest := LegalsFrom(grid, pov, cells[1..]);
      StepsFromNoDup(grid, cells[0], Lookup(pov, cells[0]));
      LegalsFromNoDup(grid, pov, cells[1..]);
      forall i, j | 0 <= i < |head| && 0 <= j < |rest|
        ensures head[i] != rest[j]
      {
        StepsFromMembers(grid, cells[0], Lookup(pov, cells[0]), head[i]);
        LegalsFromMembers(grid, pov, cells[1..], rest[j]);
      }
      NoDupConcat(head, rest);
    }
  }

  /** A well-formed state: the grid covers the board with 0, R and B, and the player-cell
      sets agree with it. */
  ghost predicate Valid(s: State)
  {
    GridOk(s) && SetsAgree(s)
  }

  /** The legality characterisation: (c, n) is legal for p exactly when c holds one of p's
      checkers, n is in p's point-of-view neighbour list of c, and n is empty. */
  lemma LegalIff(s: State, p: int, c: Cell, n: Cell)
    requires Valid(s)
    ensures Step(c, n) in Legals(s, p) <==>
      c in PlayerCells(s, p) && n in Lookup(Pov(s.topo, p), c) && At(s.grid, n) == 0
  {
    LegalsFromMembers(s.grid, Pov(s.topo, p), Members(s.topo.order, PlayerCells(s, p)), Step(c, n));
  }

  /** The same characterisation in board terms: n is one step from c in one of p's
      forward directions, on the board and empty. */
  lemma LegalGeometry(s: State, p: int, c: Cell, n: Cell)
    requires Valid(s)
    ensures Step(c, n) in Legals(s, p) <==>
      c in PlayerCells(s, p) && At(s.grid, n) == 0 && OnBoard(s.topo.size, n) &&
      exists k :: 0 <= k < 3 && n == Neighbor(c, PovDirs(p)[k])
  {
    LegalIff(s, p, c, n);
    if c in PlayerCells(s, p) {
      PovLookup(s.topo, p, c);
    }
  }

  /** The legal list has no repeated action. */
  lemma LegalsNoDup(s: State, p: int)
    requires Valid(s)
    ensures NoDup(Legals(s, p))
  {
    var t := s.topo;
    var cells := Members(t.order, PlayerCells(s, p));
    forall c | c in cells
      ensures NoDup(Lookup(Pov(t, p), c))
    {
      PovLookup(t, p, c);
    }
    LegalsFromNoDup(s.grid, Pov(t, p), cells);
  }

  /** Facts about a legal step used by play, undo and move. */
  lemma LegalFacts(s: State, p: int, a: Action)
    requires Valid(s) && IsPlayer(p) && a in Legals(s, p)
    ensures a.Step? && a.src != a.dst
    ensures a.src in s.grid && a.dst in s.grid
    ensures s.grid[a.src] == p && s.grid[a.dst] == 0
    ensures a.src in s.topo.order && a.dst in s.topo.order
    ensures OnBoard(s.topo.size, a.src) && OnBoard(s.topo.size, a.dst)
    ensures a.src in PlayerCells(s, p) && a.dst !in PlayerCells(s, p)
    ensures a.dst in NeighborList(s.topo.size, a.src, PovDirs(p))
  {
    LegalsFromMembers(s.grid, Pov(s.topo, p), Members(s.topo.order, PlayerCells(s, p)), a);
    PovLookup(s.topo, p, a.src);
    assert Adjacent(a.src, a.dst);
  }

  // --------------------------------------------------------------- move

  /** The constructor of `GameStateDodo`: the base fields, `is_empty` always false, and
      the legal list of the side to move. */
  function Make(t: Topology, grid: map<Cell, int>, turn: int, hash: nat): (s: State)
    ensures s.variant == DodoGame && s.topo == t && s.grid == grid && s.turn == turn
    ensures s.hash == hash && !s.isEmpty && SetsAgree(s)
    ensures s.legals == Legals(s, turn)
  {
    var s0 := NewState(DodoGame, t, grid, turn, hash, false, []);
    s0.(legals := Legals(s0, turn))
  }

  /** `move`: a new state with the checker moved, the turn passed and the hash updated
      incrementally. */
  function Move(s: State, a: Action): State
    requires a.Step?
  {
    var grid := s.grid[a.src := 0][a.dst := s.turn];
    var hash := Xor(Xor(Xor(s.hash, MoverKey(s.topo, a.src, s.turn)),
                        MoverKey(s.topo, a.dst, s.turn)), s.topo.turnKey);
    Make(s.topo, grid, Opponent(s.turn), hash)
  }

  // ---------------------------------------------------------- play / undo

  /** `play`: the step made in place; only the mover's cell set changes. */
  function Play(s: State, a: Action, p: int): State
    requires a.Step?
  {
    var grid := s.grid[a.src := 0][a.dst := p];
    if p == R then s.(grid := grid, rCells := (s.rCells + {a.dst}) - {a.src})
    else s.(grid := grid, bCells := (s.bCells + {a.dst}) - {a.src})
  }

  /** `undo`: the step taken back in place. */
  function Undo(s: State, a: Action, p: int): State
    requires a.Step?
  {
    var grid := s.grid[a.src := p][a.dst := 0];
    if p == R then s.(grid := grid, rCells := (s.rCells + {a.src}) - {a.dst})
    else s.(grid := grid, bCells := (s.bCells + {a.src}) - {a.dst})
  }

  /** `evaluate`: the opponent's mobility minus the player's (fewer moves is better in
      Dodo), seen from `player`. */
  function Evaluate(s: State, legals: seq<Action>, p: int): int
  {
    if p == s.turn then |Legals(s, s.opponent)| - |legals| else |legals| - |Legals(s, s.turn)|
  }

  // ------------------------------------------------------------ properties

  /** For a legal step, `undo` after `play` restores the state exactly. */
  lemma PlayUndo(s: State, a: Action, p: int)
    requires Valid(s) && IsPlayer(p) && a in Legals(s, p)
    ensures a.Step? && Undo(Play(s, a, p), a, p) == s
  {
    LegalFacts(s, p, a);
    StepRoundTrip(s, a, p);
  }

  lemma StepRoundTrip(s: State, a: Action, p: int)
    requires a.Step? && a.src != a.dst && a.src in s.grid && a.dst in s.grid
    requires s.grid[a.src] == p && s.grid[a.dst] == 0
    requires a.src in PlayerCells(s, p) && a.dst !in PlayerCells(s, p)
    ensures Undo(Play(s, a, p), a, p) == s
  {
    assert s.grid[a.src := 0][a.dst := p][a.src := p][a.dst := 0] == s.grid;
  }

  /** `play` of a legal step keeps the grid well formed and the cell sets in agreement with
      it, and every side keeps its number of checkers. */
  lemma PlayKeepsValid(s: State, a: Action, p: int)
    requires Valid(s) && IsPlayer(p) && a in Legals(s, p)
    ensures a.Step? && Valid(Play(s, a, p))
    ensures |Play(s, a, p).rCells| == |s.rCells| && |Play(s, a, p).bCells| == |s.bCells|
  {
    LegalFacts(s, p, a);
    StepKeepsGrid(s, a, p);
    StepKeepsSets(s, a, p);
  }

  lemma StepKeepsGrid(s: State, a: Action, p: int)
    requires a.Step? && IsPlayer(p) && a.src in s.grid && a.dst in s.grid
    requires forall c :: c in s.grid ==> s.grid[c] in {0, R, B}
    ensures Play(s, a, p).grid.Keys == s.grid.Keys
    ensures forall c :: c in Play(s, a, p).grid ==> Play(s, a, p).grid[c] in {0, R, B}
    ensures Play(s, a, p).topo == s.topo
  {
  }

  lemma StepKeepsSets(s: State, a: Action, p: int)
    requires a.Step? && IsPlayer(p) && a.src != a.dst && a.src in s.grid && a.dst in s.grid
    requires s.grid[a.src] == p && s.grid[a.dst] == 0
    requires SetsAgree(s)
    ensures SetsAgree(Play(s, a, p))
    ensures |Play(s, a, p).rCells| == |s.rCells| && |Play(s, a, p).bCells| == |s.bCells|
  {
    var g := s.grid[a.src := 0][a.dst := p];
    var cs := PlayerCells(s, p);
    MoverCellsAfterStep(s.grid, a.src, a.dst, p, cs);
    OtherCellsAfterStep(s.grid, a.src, a.dst, p, Opponent(p));
  }

  lemma MoverCellsAfterStep(grid: map<Cell, int>, src: Cell, dst: Cell, p: int, cs: set<Cell>)
    requires src != dst && p != 0 && src in grid && dst in grid && grid[src] == p && grid[dst] == 0
    requires cs == CellsOf(grid, p)
    ensures CellsOf(grid[src := 0][dst := p], p) == (cs + {dst}) - {src}
    ensures |(cs + {dst}) - {src}| == |cs|
  {
    var cs' := (cs + {dst}) - {src};
    assert cs' == (cs - {src}) + {dst};
    forall c ensures c in CellsOf(grid[src := 0][dst := p], p) <==> c in cs' {}
  }

  lemma OtherCellsAfterStep(grid: map<Cell, int>, src: Cell, dst: Cell, p: int, o: int)
    requires o != p && o != 0 && src in grid && dst in grid && grid[src] == p && grid[dst] == 0
    ensures CellsOf(grid[src := 0][dst := p], o) == CellsOf(grid, o)
  {
    forall c ensures c in CellsOf(grid[src := 0][dst := p], o) <==> c in CellsOf(grid, o) {}
  }

  /** A red step raises q + r of the moved checker; a blue step lowers it. */
  lemma LegalDirection(s: State, p: int, a: Action)
    requires Valid(s) && IsPlayer(p) && a in Legals(s, p)
    ensures a.Step?
    ensures p == R ==> a.dst.q + a.dst.r > a.src.q + a.src.r
    ensures p == B ==> a.dst.q + a.dst.r < a.src.q + a.src.r
  {
    LegalFacts(s, p, a);
    PovForward(s.topo.size, p, a.src, a.dst);
  }

  lemma PovForward(size: int, p: int, c: Cell, n: Cell)
    requires n in NeighborList(size, c, PovDirs(p))
    ensures p == R ==> n.q + n.r > c.q + c.r
    ensures p != R ==> n.q + n.r < c.q + c.r
  {
    var k :| 0 <= k < 3 && n == Neighbor(c, PovDirs(p)[k]);
    var v := Direction(PovDirs(p)[k]);
    assert n == Cell(c.q + v.q, c.r + v.r);
    if p == R {
      assert v == Cell(0, 1) || v == Cell(1, 1) || v == Cell(1, 0);
    } else {
      assert v == Cell(-1, 0) || v == Cell(0, -1) || v == Cell(-1, -1);
    }
  }

  /** `move` of a legal step yields the grid and cell sets `play` would, in a new state
      whose turn has passed to the opponent. */
  lemma MoveIsPlay(s: State, a: Action)
    requires Valid(s) && IsPlayer(s.turn) && a in Legals(s, s.turn)
    ensures a.Step?
    ensures Move(s, a).grid == Play(s, a, s.turn).grid
    ensures Move(s, a).rCells == Play(s, a, s.turn).rCells
    ensures Move(s, a).bCells == Play(s, a, s.turn).bCells
    ensures Move(s, a).turn == Opponent(s.turn) && Move(s, a).turn != s.turn
    ensures Valid(Move(s, a))
  {
    PlayKeepsValid(s, a, s.turn);
  }

  /** Each `move` changes the drift by exactly the turn key. */
  lemma MoveDrift(s: State, a: Action)
    requires Valid(s) && IsPlayer(s.turn) && a in Legals(s, s.turn)
    ensures a.Step? && Drift(Move(s, a)) == Xor(Drift(s), s.topo.turnKey)
  {
    LegalFacts(s, s.turn, a);
    var t := s.topo;
    var g1 := s.grid[a.src := 0];
    var g2 := g1[a.dst := s.turn];
    var ks := MoverKey(t, a.src, s.turn);
    var kd := MoverKey(t, a.dst, s.turn);
    var S := Sig(t, s.grid, t.order);
    SigUpdate(t, s.grid, t.order, a.src, 0);
    SigUpdate(t, g1, t.order, a.dst, s.turn);
    assert Contribution(t, s.grid, a.src) == ks;
    assert Contribution(t, g1, a.src) == 0;
    assert Contribution(t, g1, a.dst) == 0;
    assert Contribution(t, g2, a.dst) == kd;
    XorZero(Xor(S, ks));
    XorZero(Xor(Xor(S, ks), 0));
    assert Sig(t, g2, t.order) == Xor(Xor(S, ks), kd);
    XorMoveLast(s.hash, ks, kd, t.turnKey);
    XorCancelPair(Xor(s.hash, t.turnKey), S, ks, kd);
    XorSwapLast(s.hash, t.turnKey, S);
  }

  /** Replaying a sequence of moves, each legal for the side to move; `None` at the first
      illegal one. */
  function Replay(s: State, acts: seq<Action>): Option<State>
    decreases |acts|
  {
    if |acts| == 0 then Some(s)
    else if acts[0] in Legals(s, s.turn) && acts[0].Step? then Replay(Move(s, acts[0]), acts[1..])
    else None
  }

  /** After any legal move sequence the drift has changed by the turn key once per move,
      so it depends only on the parity of the number of moves. */
  lemma {:induction false} ReplayDrift(s: State, acts: seq<Action>)
    requires Valid(s) && IsPlayer(s.turn)
    ensures Replay(s, acts).Some? ==>
      Replay(s, acts).value.topo == s.topo &&
      Drift(Replay(s, acts).value) ==
        (if |acts| % 2 == 0 then Drift(s) else Xor(Drift(s), s.topo.turnKey))
    decreases |acts|
  {
    if |acts| > 0 && acts[0] in Legals(s, s.turn) && acts[0].Step? {
      var s' := Move(s, acts[0]);
      var rest := acts[1..];
      assert Replay(s, acts) == Replay(s', rest);
      MoveDrift(s, acts[0]);
      MoveIsPlay(s, acts[0]);
      ReplayDrift(s', rest);
      var r := Replay(s', rest);
      if r.Some? {
        assert s'.topo == s.topo;
        DriftParity(Drift(s), s.topo.turnKey, |acts|, |rest|, Drift(s'), Drift(r.value));
      }
    } else if |acts| > 0 {
      assert Replay(s, acts) == None;
    }
  }

  /** Path independence: two legal move sequences of the same parity that reach the same
      grid reach the same hash. */
  lemma PathIndependent(s: State, acts1: seq<Action>, acts2: seq<Action>)
    requires Valid(s) && IsPlayer(s.turn)
    requires Replay(s, acts1).Some? && Replay(s, acts2).Some?
    requires Replay(s, acts1).value.grid == Replay(s, acts2).value.grid
    requires |acts1| % 2 == |acts2| % 2
    ensures Replay(s, acts1).value.hash == Replay(s, acts2).value.hash
  {
    ReplayDrift(s, acts1);
    ReplayDrift(s, acts2);
    var t1 := Replay(s, acts1).value;
    var t2 := Replay(s, acts2).value;
    XorInjective(t1.hash, t2.hash, Sig(t1.topo, t1.grid, t1.topo.order));
  }

  /** The heuristic is always the mobility balance seen from the side to move, whichever
      player it is asked for. */
  lemma EvaluateTurnView(s: State, p: int)
    requires p == s.turn || p == s.opponent
    ensures Evaluate(s, Legals(s, p), p) == |Legals(s, s.opponent)| - |Legals(s, s.turn)|
  {
  }

  // ------------------------------------------------------------- potential

  /** How far a checker still can travel: red towards larger q + r, blue towards smaller. */
  function Weight(t: Topology, c: Cell, v: int): nat
  {
    var n := t.size - 1;
    if v == R && 2 * n - (c.q + c.r) >= 0 then 2 * n - (c.q + c.r)
    else if v == B && c.q + c.r + 2 * n >= 0 then c.q + c.r + 2 * n
    else 0
  }

  /** The total travel left on a grid, over the cells of `order`. */
  function Potential(t: Topology, grid: map<Cell, int>, order: seq<Cell>): nat
  {
    if |order| == 0 then 0
    else Potential(t, grid, order[..|order| - 1]) + Weight(t, order[|order| - 1], At(grid, order[|order| - 1]))
  }

  lemma {:induction false} PotentialUpdateOutside(t: Topology, grid: map<Cell, int>, order: seq<Cell>, c: Cell, x: int)
    requires c !in order
    ensures Potential(t, grid[c := x], order) == Potential(t, grid, order)
  {
    if |order| > 0 {
      PotentialUpdateOutside(t, grid, order[..|order| - 1], c, x);
      assert At(grid[c := x], order[|order| - 1]) == At(grid, order[|order| - 1]);
    }
  }

  /** Writing one cell changes the potential by that cell's old and new weights. */
  lemma {:induction false} PotentialUpdate(t: Topology, grid: map<Cell, int>, order: seq<Cell>, c: Cell, x: int)
    requires NoDup(order) && c in order
    ensures Potential(t, grid[c := x], order) ==
      Potential(t, grid, order) - Weight(t, c, At(grid, c)) + Weight(t, c, x)
  {
    var n := |order|;
    var init := order[..n - 1];
    var last := order[n - 1];
    assert order == init + [last];
    if c == last {
      PotentialUpdateOutside(t, grid, init, c, x);
    } else {
      PotentialUpdate(t, grid, init, c, x);
      assert At(grid[c := x], last) == At(grid, last);
    }
  }

  /** Every legal half-move strictly lowers the potential, which bounds any game. */
  lemma PlayLowersPotential(s: State, a: Action, p: int)
    requires Valid(s) && IsPlayer(p) && a in Legals(s, p)
    ensures a.Step?
    ensures Potential(s.topo, Play(s, a, p).grid, s.topo.order) < Potential(s.topo, s.grid, s.topo.order)
  {
    LegalFacts(s, p, a);
    LegalDirection(s, p, a);
    StepLowersPotential(s.topo, s.grid, s.topo.order, a.src, a.dst, p);
  }

  lemma StepLowersPotential(t: Topology, grid: map<Cell, int>, order: seq<Cell>, src: Cell, dst: Cell, p: int)
    requires NoDup(order) && src in order && dst in order && src != dst
    requires OnBoard(t.size, src) && OnBoard(t.size, dst)
    requires At(grid, src) == p && At(grid, dst) == 0
    requires p == R ==> dst.q + dst.r > src.q + src.r
    requires p == B ==> dst.q + dst.r < src.q + src.r
    requires IsPlayer(p)
    ensures Potential(t, grid[src := 0][dst := p], order) < Potential(t, grid, order)
  {
    var g1 := grid[src := 0];
    PotentialUpdate(t, grid, order, src, 0);
    PotentialUpdate(t, g1, order, dst, p);
  }
}
