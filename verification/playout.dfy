/** The playouts of dodo.py and gopher.py (`simulate_game`): starting with `turn`, the
    two sides move alternately in place, each drawing at random from its legal actions, or
    in an improved playout from the best of them by a depth-1 alpha-beta search, until the
    side to move has none. The position is then put back as it was. */
module Playout {
  import opened Util
  import opened Base
  import opened GameState
  import opened Search
  import Dodo
  import Gopher

  // ------------------------------------------------------------ the game played

  /** The side making half-move k: `turn` first, then alternately. `play` never changes
      `turn`, so both sides are read off the starting position. */
  function Mover(s: State, k: nat): int
  {
    if Even(k) then s.turn else s.opponent
  }

  /** The position after `moves` have been played in place from s. */
  function Replayed(s: State, moves: seq<Action>): State
    decreases |moves|
  {
    if |moves| == 0 then s
    else
      var n := |moves| - 1;
      Play(Replayed(s, moves[..n]), moves[n], Mover(s, n))
  }

  /** The two sides alternate: `turn` opens, `opponent` answers, and consecutive
      half-moves belong to different players. */
  lemma MoverAlternates(s: State, k: nat)
    requires IsPlayer(s.turn) && s.opponent == Opponent(s.turn)
    ensures Mover(s, 0) == s.turn && Mover(s, 1) == s.opponent
    ensures Mover(s, k + 1) != Mover(s, k) && IsPlayer(Mover(s, k))
  {
  }

  /** Every half-move of `moves` is legal for its side in the position it is played in. */
  predicate LegalGame(s: State, moves: seq<Action>)
    decreases |moves|
  {
    || |moves| == 0
    || (var n := |moves| - 1;
        && LegalGame(s, moves[..n])
        && moves[n] in Legals(Replayed(s, moves[..n]), Mover(s, n)))
  }

  /** The actions a half-move draws from, stated with the minimax reference: all legal
      actions, or, in an improved playout with a choice to make, those whose child has
      the depth-1 minimax value of the position, in their legal order. */
  function Pool(cur: State, mover: int, improved: bool): seq<Action>
  {
    var legals := Legals(cur, mover);
    if !improved || |legals| <= 1 then legals
    else Attaining(legals, ChildValues(cur, 1, mover, legals), Minimax(cur, 1, mover))
  }

  /** Every half-move of `moves` was drawn from its pool. */
  predicate Drawn(s: State, improved: bool, moves: seq<Action>)
    decreases |moves|
  {
    || |moves| == 0
    || (var n := |moves| - 1;
        && Drawn(s, improved, moves[..n])
        && moves[n] in Pool(Replayed(s, moves[..n]), Mover(s, n), improved))
  }

  /** One more half-move extends the replay, the legality and the drawing record. */
  lemma Extend(s: State, improved: bool, moves: seq<Action>, a: Action)
    ensures Replayed(s, moves + [a]) == Play(Replayed(s, moves), a, Mover(s, |moves|))
    ensures LegalGame(s, moves + [a]) <==>
      LegalGame(s, moves) && a in Legals(Replayed(s, moves), Mover(s, |moves|))
    ensures Drawn(s, improved, moves + [a]) <==>
      Drawn(s, improved, moves) && a in Pool(Replayed(s, moves), Mover(s, |moves|), improved)
  {
    assert (moves + [a])[..|moves|] == moves;
  }

  /** The first half-move of a legal game is legal in the starting position. */
  lemma {:induction false} FirstMoveLegal(s: State, moves: seq<Action>)
    requires LegalGame(s, moves) && |moves| > 0
    ensures moves[0] in Legals(s, Mover(s, 0))
    decreases |moves|
  {
    var n := |moves| - 1;
    if n > 0 {
      FirstMoveLegal(s, moves[..n]);
    }
  }

  /** `random.choice`: the draw r picks one element. */
  function Choice<T>(xs: seq<T>, r: nat): (x: T)
    requires |xs| > 0
    ensures x in xs
  {
    xs[r % |xs|]
  }

  // ------------------------------------------------------------- one half-move

  /** The optimal actions are legal, and there is at least one. */
  lemma OptimalPool(cur: State, mover: int)
    requires |Legals(cur, mover)| > 0
    ensures var legals := Legals(cur, mover);
      var r := Attaining(legals, ChildValues(cur, 1, mover, legals), Minimax(cur, 1, mover));
      |r| > 0 && forall a :: a in r ==> a in legals
  {
    var legals := Legals(cur, mover);
    var vs := ChildValues(cur, 1, mover, legals);
    var x := Minimax(cur, 1, mover);
    MinimaxOptimal(cur, 1, mover);
    var k :| 0 <= k < |vs| && vs[k] == x;
    AttainingMembers(legals, vs, x);
    assert legals[k] in Attaining(legals, vs, x);
  }

  /** The pool of one half-move, computed as the source does: the legal list itself, or
      the actions `alphabeta_actions_v1` returns at depth 1 with the full window. It is the
      reference pool, non-empty and legal, and the search leaves the position as it was. */
  method Candidates(cur: State, mover: int, improved: bool) returns (pool: seq<Action>, after: State)
    requires Valid(cur) && !cur.isEmpty && (mover == cur.turn || mover == cur.opponent)
    requires |Legals(cur, mover)| > 0
    ensures pool == Pool(cur, mover, improved)
    ensures |pool| > 0 && forall a :: a in pool ==> a in Legals(cur, mover)
    ensures after == cur
  {
    var legals := Legals(cur, mover);
    if !improved {
      return legals, cur;
    }
    var best;
    best, pool, after := AlphaBetaActions(cur, 1, mover, NegInf, PosInf, legals);
    if |legals| != 1 {
      DepthOneOptimal(cur, mover, NegInf, PosInf);
      OptimalPool(cur, mover);
    }
  }

  // ------------------------------------------------------------------ Dodo

  /** What the Dodo playout knows after `moves`: the position is their replay, legal and
      drawn from the pools, only the grid and the cell sets have changed, and every
      half-move has used up potential. */
  ghost predicate DodoRun(s: State, improved: bool, cur: State, moves: seq<Action>)
  {
    && Valid(cur) && cur.variant == DodoGame
    && cur == Replayed(s, moves)
    && cur == s.(grid := cur.grid, rCells := cur.rCells, bCells := cur.bCells)
    && LegalGame(s, moves) && Drawn(s, improved, moves)
    && Dodo.Potential(cur.topo, cur.grid, cur.topo.order) + |moves| <=
       Dodo.Potential(s.topo, s.grid, s.topo.order)
  }

  lemma DodoRunStart(s: State, improved: bool)
    requires Valid(s) && s.variant == DodoGame
    ensures DodoRun(s, improved, s, [])
  {
  }

  /** A half-move keeps the record and strictly lowers the potential. */
  lemma DodoRunStep(s: State, improved: bool, cur: State, moves: seq<Action>, a: Action)
    requires DodoRun(s, improved, cur, moves)
    requires a in Legals(cur, Mover(s, |moves|)) && a in Pool(cur, Mover(s, |moves|), improved)
    ensures DodoRun(s, improved, Play(cur, a, Mover(s, |moves|)), moves + [a])
    ensures Dodo.Potential(cur.topo, Play(cur, a, Mover(s, |moves|)).grid, cur.topo.order) <
            Dodo.Potential(cur.topo, cur.grid, cur.topo.order)
  {
    var p := Mover(s, |moves|);
    Extend(s, improved, moves, a);
    Dodo.PlayKeepsValid(cur, a, p);
    Dodo.PlayLowersPotential(cur, a, p);
  }

  /** One Dodo half-move: draw from the pool and play it in place. */
  method DodoHalfMove(s: State, improved: bool, draw: nat -> nat, cur: State, length: nat,
                     ghost moves: seq<Action>)
    returns (next: State, ghost moves': seq<Action>)
    requires DodoRun(s, improved, cur, moves) && length == |moves|
    requires |Legals(cur, Mover(s, length))| > 0
    ensures DodoRun(s, improved, next, moves') && |moves'| == |moves| + 1
    ensures Dodo.Potential(next.topo, next.grid, next.topo.order) <
            Dodo.Potential(cur.topo, cur.grid, cur.topo.order)
  {
    var mover := Mover(s, length);
    var pool, after := Candidates(cur, mover, improved);
    var a := Choice(pool, draw(length));
    DodoRunStep(s, improved, after, moves, a);
    next := Play(after, a, mover);
    moves' := moves + [a];
  }

  /** When the side to move is stuck, the playout's results are what `simulate_game`
      promises. */
  lemma DodoFinish(s: State, improved: bool, cur: State, moves: seq<Action>)
    requires Valid(s) && DodoRun(s, improved, cur, moves)
    ensures |moves| <= Dodo.Potential(s.topo, s.grid, s.topo.order)
    ensures cur.(grid := s.grid, rCells := s.rCells, bCells := s.bCells) == s
  {
  }

  /** Dodo's `simulate_game`: the moves played form a legal game, each drawn from its pool;
      the winner is the side that has no legal action when it is to move; the length is
      the number of half-moves, bounded by the starting potential; and the position is
      restored exactly. */
  method SimulateDodo(s: State, improved: bool, draw: nat -> nat)
    returns (winner: int, length: nat, restored: State, ghost moves: seq<Action>)
    requires Valid(s) && s.variant == DodoGame
    ensures |moves| == length && LegalGame(s, moves) && Drawn(s, improved, moves)
    ensures Legals(Replayed(s, moves), Mover(s, length)) == [] && winner == Mover(s, length)
    ensures length <= Dodo.Potential(s.topo, s.grid, s.topo.order)
    ensures restored == s
  {
    var cur := s;
    length := 0;
    moves := [];
    DodoRunStart(s, improved);
    while true
      invariant DodoRun(s, improved, cur, moves) && length == |moves|
      decreases Dodo.Potential(cur.topo, cur.grid, cur.topo.order)
    {
      if |Legals(cur, Mover(s, length))| == 0 {
        winner := Mover(s, length);
        break;
      }
      cur, moves := DodoHalfMove(s, improved, draw, cur, length, moves);
      length := length + 1;
    }
    DodoFinish(s, improved, cur, moves);
    restored := cur.(grid := s.grid, rCells := s.rCells, bCells := s.bCells);
  }

  // ---------------------------------------------------------------- Gopher

  /** The Gopher playout starts from the position with its `is_empty` flag cleared. */
  function Cleared(s: State): State
  {
    s.(isEmpty := false)
  }

  /** What the Gopher playout knows after `moves`: the position is their replay from the
      cleared position, legal and drawn from the pools, only the grid and the three cell
      sets have changed, and every half-move has filled an empty cell. */
  ghost predicate GopherRun(s: State, improved: bool, cur: State, moves: seq<Action>)
  {
    && Valid(cur) && cur.variant == GopherGame
    && cur == Replayed(Cleared(s), moves)
    && cur == s.(grid := cur.grid, rCells := cur.rCells, bCells := cur.bCells,
                 emptyCells := cur.emptyCells, isEmpty := false)
    && LegalGame(Cleared(s), moves) && Drawn(Cleared(s), improved, moves)
    && |cur.emptyCells| + |moves| == |s.emptyCells|
  }

  lemma GopherRunStart(s: State, improved: bool)
    requires Valid(s) && s.variant == GopherGame
    ensures GopherRun(s, improved, Cleared(s), [])
  {
    var c := Cleared(s);
    assert Gopher.Valid(c) by {
      assert GridOk(c) && SetsAgree(c) && c.emptyCells == CellsOf(c.grid, 0);
    }
    assert c == s.(grid := c.grid, rCells := c.rCells, bCells := c.bCells,
                   emptyCells := c.emptyCells, isEmpty := false);
    assert Replayed(c, []) == c && LegalGame(c, []) && Drawn(c, improved, []);
  }

  /** A half-move keeps the record and fills one empty cell. */
  lemma GopherRunStep(s: State, improved: bool, cur: State, moves: seq<Action>, a: Action)
    requires GopherRun(s, improved, cur, moves)
    requires a in Legals(cur, Mover(s, |moves|)) && a in Pool(cur, Mover(s, |moves|), improved)
    ensures GopherRun(s, improved, Play(cur, a, Mover(s, |moves|)), moves + [a])
    ensures |Play(cur, a, Mover(s, |moves|)).emptyCells| < |cur.emptyCells|
  {
    var p := Mover(s, |moves|);
    assert Mover(Cleared(s), |moves|) == p;
    Extend(Cleared(s), improved, moves, a);
    Gopher.PlayKeepsValid(cur, a, p);
  }

  /** On a grid without stones the cleared flag leaves red, and so the side to move, no
      placement. */
  lemma GopherBareBoard(s: State)
    requires Valid(s) && s.variant == GopherGame
    requires Gopher.Bare(s)
    ensures Legals(Cleared(s), s.turn) == []
  {
    Gopher.NoStoneNoPlace(Cleared(s), s.turn);
  }

  /** So no game played from a bare board has a first half-move. */
  lemma BareBoardNoMoves(s: State, moves: seq<Action>)
    requires Valid(s) && s.variant == GopherGame
    requires Gopher.Bare(s)
    requires LegalGame(Cleared(s), moves)
    ensures moves == []
  {
    if moves != [] {
      GopherBareBoard(s);
      FirstMoveLegal(Cleared(s), moves);
      assert false;
    }
  }

  /** One Gopher half-move: draw from the pool and play it in place. */
  method GopherHalfMove(s: State, improved: bool, draw: nat -> nat, cur: State, length: nat,
                     ghost moves: seq<Action>)
    returns (next: State, ghost moves': seq<Action>)
    requires GopherRun(s, improved, cur, moves) && length == |moves|
    requires |Legals(cur, Mover(s, length))| > 0
    ensures GopherRun(s, improved, next, moves') && |moves'| == |moves| + 1
    ensures |next.emptyCells| < |cur.emptyCells|
  {
    var mover := Mover(s, length);
    var pool, after := Candidates(cur, mover, improved);
    var a := Choice(pool, draw(length));
    GopherRunStep(s, improved, after, moves, a);
    next := Play(after, a, mover);
    moves' := moves + [a];
  }

  /** When the side to move is stuck, the playout's results are what `simulate_game`
      promises. */
  lemma GopherFinish(s: State, improved: bool, cur: State, moves: seq<Action>,
                     winner: int, length: nat, restored: State)
    requires Valid(s) && s.variant == GopherGame && GopherRun(s, improved, cur, moves)
    requires length == |moves| && Legals(cur, Mover(s, length)) == []
    requires winner == Mover(s, length + 1)
    requires restored == cur.(grid := s.grid, rCells := s.rCells, bCells := s.bCells,
                              emptyCells := s.emptyCells, isEmpty := s.isEmpty)
    ensures |moves| == length && LegalGame(Cleared(s), moves) && Drawn(Cleared(s), improved, moves)
    ensures Legals(Replayed(Cleared(s), moves), Mover(s, length)) == []
    ensures winner == Mover(s, length + 1) && winner != Mover(s, length)
    ensures length <= |s.emptyCells|
    ensures Gopher.Bare(s) ==> length == 0 && winner == s.opponent
    ensures restored == s
  {
    MoverAlternates(s, length);
    if Gopher.Bare(s) {
      BareBoardNoMoves(s, moves);
    }
  }

  /** Gopher's `simulate_game`: the moves played form a legal game from the cleared
      position, each drawn from its pool; the winner is the other side of the one that has
      no legal action when it is to move; every half-move fills an empty cell, so the
      length is at most the number of empty cells; and grid, cell sets and `is_empty` are
      restored. Clearing `is_empty` first means a bare board is lost at once by the side to
      move. */
  method SimulateGopher(s: State, improved: bool, draw: nat -> nat)
    returns (winner: int, length: nat, restored: State, ghost moves: seq<Action>)
    requires Valid(s) && s.variant == GopherGame
    ensures |moves| == length && LegalGame(Cleared(s), moves) && Drawn(Cleared(s), improved, moves)
    ensures Legals(Replayed(Cleared(s), moves), Mover(s, length)) == []
    ensures winner == Mover(s, length + 1) && winner != Mover(s, length)
    ensures length <= |s.emptyCells|
    ensures Gopher.Bare(s) ==> length == 0 && winner == s.opponent
    ensures restored == s
  {
    var cur := Cleared(s);
    length := 0;
    moves := [];
    GopherRunStart(s, improved);
    while true
      invariant GopherRun(s, improved, cur, moves) && length == |moves|
      decreases |cur.emptyCells|
    {
      if |Legals(cur, Mover(s, length))| == 0 {
        break;
      }
      cur, moves := GopherHalfMove(s, improved, draw, cur, length, moves);
      length := length + 1;
    }
    winner := Mover(s, length + 1);
    restored := cur.(grid := s.grid, rCells := s.rCells, bCells := s.bCells,
                     emptyCells := s.emptyCells, isEmpty := s.isEmpty);
    GopherFinish(s, improved, cur, moves, winner, length, restored);
  }

  // ---------------------------------------------------------------- dispatch

  /** `moves` is a whole playout from s: every half-move legal and drawn from its pool,
      and the side to move at the end stuck. Gopher's playout starts from the position with
      `is_empty` cleared. */
  ghost predicate PlayedOut(s: State, improved: bool, moves: seq<Action>)
  {
    var s0 := if s.variant == DodoGame then s else Cleared(s);
    && LegalGame(s0, moves) && Drawn(s0, improved, moves)
    && Legals(Replayed(s0, moves), Mover(s, |moves|)) == []
  }

  /** `simulate_game` on a state of either game: the winner is a player, read off the
      half-move count as each variant rules, the length counts the half-moves of a whole
      playout `moves`, and the state is handed back unchanged. */
  method Simulate(s: State, improved: bool, draw: nat -> nat)
    returns (winner: int, length: nat, restored: State, ghost moves: seq<Action>)
    requires Valid(s)
    ensures IsPlayer(winner)
    ensures winner == (if s.variant == DodoGame then Mover(s, length) else Mover(s, length + 1))
    ensures |moves| == length && PlayedOut(s, improved, moves)
    ensures restored == s
  {
    if s.variant == DodoGame {
      winner, length, restored, moves := SimulateDodo(s, improved, draw);
    } else {
      winner, length, restored, moves := SimulateGopher(s, improved, draw);
    }
    MoverAlternates(s, length);
    MoverAlternates(s, length + 1);
  }

}
