/** The game-independent layer (gamestate.py): dispatch to the variant, the terminal
    test, and the alpha-beta search that both playouts use. */
module GameState {
  import opened Util
  import opened Hex
  import opened Board
  import opened Base
  import Dodo
  import Gopher

  // --------------------------------------------------------------- dispatch

  /** A well-formed state of either game whose side to move is a player facing the other
      player. A Dodo state never carries the `is_empty` flag (`empty_grid` is constantly
      false there). */
  ghost predicate Valid(s: State)
  {
    && IsPlayer(s.turn) && s.opponent == Opponent(s.turn)
    && (if s.variant == DodoGame then Dodo.Valid(s) && !s.isEmpty else Gopher.Valid(s))
  }

  function Legals(s: State, p: int): seq<Action>
  {
    if s.variant == DodoGame then Dodo.Legals(s, p) else Gopher.Legals(s, p)
  }

  /** `play`; an action of the other game's shape leaves the state alone. */
  function Play(s: State, a: Action, p: int): State
  {
    if s.variant == DodoGame then (if a.Step? then Dodo.Play(s, a, p) else s)
    else (if a.Place? then Gopher.Play(s, a, p) else s)
  }

  function Undo(s: State, a: Action, p: int): State
  {
    if s.variant == DodoGame then (if a.Step? then Dodo.Undo(s, a, p) else s)
    else (if a.Place? then Gopher.Undo(s, a, p) else s)
  }

  function Evaluate(s: State, legals: seq<Action>, p: int): int
  {
    if s.variant == DodoGame then Dodo.Evaluate(s, legals, p) else Gopher.Evaluate(s, legals, p)
  }

  function Move(s: State, a: Action): State
  {
    if s.variant == DodoGame then (if a.Step? then Dodo.Move(s, a) else s)
    else (if a.Place? then Gopher.Move(s, a) else s)
  }

  /** `is_game_over`: the legal list stored at construction is empty. */
  predicate IsGameOver(s: State)
  {
    |s.legals| == 0
  }

  /** A state built by a constructor is over exactly when its side to move has no legal
      action. */
  lemma GameOverIff(v: Variant, t: Topology, grid: map<Cell, int>, turn: int, hash: nat)
    ensures var s := if v == DodoGame then Dodo.Make(t, grid, turn, hash) else Gopher.Make(t, grid, turn, hash);
      IsGameOver(s) <==> Legals(s, s.turn) == []
  {
  }

  /** `play` and `undo` never refresh the stored legal list, so `is_game_over` keeps
      answering for the position the state was built on. */
  lemma PlayKeepsLegalList(s: State, a: Action, p: int)
    ensures Play(s, a, p).legals == s.legals && Undo(s, a, p).legals == s.legals
    ensures IsGameOver(Play(s, a, p)) == IsGameOver(s)
  {
  }

  /** A state as the constructors build it: well formed, with the stored legal list being
      that of the side to move. Every search-tree node holds one. */
  ghost predicate Built(s: State)
  {
    Valid(s) && s.legals == Legals(s, s.turn)
  }

  /** `move` of a stored legal action builds a state of the same game with the turn passed
      to the opponent; the stored legal list never repeats an action. */
  lemma MoveKeepsBuilt(s: State, a: Action)
    requires Built(s) && a in s.legals
    ensures Built(Move(s, a)) && Move(s, a).variant == s.variant
    ensures Move(s, a).turn == s.opponent && Move(s, a).opponent == s.turn
  {
    if s.variant == DodoGame {
      DodoMoveBuilt(s, a);
    } else {
      GopherMoveBuilt(s, a);
    }
  }

  lemma DodoMoveBuilt(s: State, a: Action)
    requires Built(s) && a in s.legals && s.variant == DodoGame
    ensures a.Step? && Move(s, a) == Dodo.Move(s, a)
    ensures Built(Move(s, a)) && Move(s, a).variant == s.variant
    ensures Move(s, a).turn == s.opponent && Move(s, a).opponent == s.turn
  {
    Dodo.MoveIsPlay(s, a);
    var m := Dodo.Move(s, a);
    assert Valid(m);
    assert m.legals == Dodo.Legals(m, m.turn);
  }

  lemma GopherMoveBuilt(s: State, a: Action)
    requires Built(s) && a in s.legals && s.variant == GopherGame
    ensures a.Place? && Move(s, a) == Gopher.Move(s, a)
    ensures Built(Move(s, a)) && Move(s, a).variant == s.variant
    ensures Move(s, a).turn == s.opponent && Move(s, a).opponent == s.turn
  {
    Gopher.MoveIsPlay(s, a);
    var m := Gopher.Move(s, a);
    assert Valid(m);
    assert m.legals == Gopher.Legals(m, m.turn);
  }

  lemma BuiltNoDup(s: State)
    requires Built(s)
    ensures NoDup(s.legals)
  {
    if s.variant == DodoGame {
      Dodo.LegalsNoDup(s, s.turn);
    } else {
      Gopher.LegalsNoDup(s, s.turn);
    }
  }

  // ------------------------------------------------------ play/undo bracket

  /** What `undo` after `play` gives back: the state itself, or, in Gopher, the state with
      its `is_empty` flag cleared. */
  predicate Restored(s: State, u: State)
  {
    u == s || u == s.(isEmpty := false)
  }

  /** A legal `play` from a restored state is the `play` from the state itself, keeps the
      state well formed and leaves the flag cleared. */
  lemma PlayRestored(s: State, cur: State, a: Action, p: int)
    requires Valid(s) && IsPlayer(p) && a in Legals(s, p) && Restored(s, cur)
    ensures Play(cur, a, p) == Play(s, a, p)
    ensures Valid(Play(s, a, p)) && !Play(s, a, p).isEmpty
    ensures Play(s, a, p).turn == s.turn && Play(s, a, p).opponent == s.opponent
    ensures Restored(s, Undo(Play(s, a, p), a, p))
  {
    if s.variant == DodoGame {
      Dodo.PlayKeepsValid(s, a, p);
      Dodo.PlayUndo(s, a, p);
    } else {
      Gopher.PlayKeepsValid(s, a, p);
      Gopher.PlayUndo(s, a, p);
    }
  }

  // ------------------------------------------------------------- alpha-beta

  /** `alphabeta`: a fail-soft search of `depth` plies in which `player` maximises when it
      is the state's `turn` and minimises otherwise. The state is mutated by `play` and
      restored by `undo` around every child; the second component is the state the
      search leaves behind. */
  function AlphaBeta(s: State, depth: nat, player: int, a: Ext, b: Ext): (int, State)
    decreases depth, 2
  {
    var legals := Legals(s, player);
    if |legals| == 0 then (if player == s.turn then 10000 else -10000, s)
    else if depth == 0 then (Evaluate(s, legals, player), s)
    else if player == s.turn then
      var r := MaxLoop(s, depth, player, a, b, legals, 0, NegInf);
      (r.0.v, r.1)
    else
      var r := MinLoop(s, depth, player, a, b, legals, 0, PosInf);
      (r.0.v, r.1)
  }

  /** The maximiser's loop from the `i`-th legal action on, with the best value so far. */
  function MaxLoop(cur: State, depth: nat, player: int, a: Ext, b: Ext, legals: seq<Action>,
                   i: nat, best: Ext): (r: (Ext, State))
    requires depth >= 1 && i <= |legals|
    ensures best != PosInf && (i < |legals| || best.Fin?) ==> r.0.Fin?
    decreases depth, 1, |legals| - i
  {
    if i == |legals| then (best, cur)
    else
      var child := AlphaBeta(Play(cur, legals[i], player), depth - 1, cur.opponent, a, b);
      var cur' := Undo(child.1, legals[i], player);
      var best' := Max(best, Fin(child.0));
      var a' := Max(a, best');
      if Le(b, a') then (best', cur')
      else MaxLoop(cur', depth, player, a', b, legals, i + 1, best')
  }

  /** The minimiser's loop, the mirror image. */
  function MinLoop(cur: State, depth: nat, player: int, a: Ext, b: Ext, legals: seq<Action>,
                   i: nat, best: Ext): (r: (Ext, State))
    requires depth >= 1 && i <= |legals|
    ensures best != NegInf && (i < |legals| || best.Fin?) ==> r.0.Fin?
    decreases depth, 1, |legals| - i
  {
    if i == |legals| then (best, cur)
    else
      var child := AlphaBeta(Play(cur, legals[i], player), depth - 1, cur.turn, a, b);
      var cur' := Undo(child.1, legals[i], player);
      var best' := Min(best, Fin(child.0));
      var b' := Min(b, best');
      if Le(b', a) then (best', cur')
      else MinLoop(cur', depth, player, a, b', legals, i + 1, best')
  }

  // -------------------------------------------- the same search without mutation

  /** Alpha-beta with every child searched on `play` of the original state. */
  function PureAB(s: State, depth: nat, player: int, a: Ext, b: Ext): int
    decreases depth, 2
  {
    var legals := Legals(s, player);
    if |legals| == 0 then (if player == s.turn then 10000 else -10000)
    else if depth == 0 then Evaluate(s, legals, player)
    else if player == s.turn then PureMax(s, depth, player, a, b, legals, 0, NegInf).v
    else PureMin(s, depth, player, a, b, legals, 0, PosInf).v
  }

  function PureMax(s: State, depth: nat, player: int, a: Ext, b: Ext, legals: seq<Action>,
                   i: nat, best: Ext): (r: Ext)
    requires depth >= 1 && i <= |legals|
    ensures best != PosInf && (i < |legals| || best.Fin?) ==> r.Fin?
    decreases depth, 1, |legals| - i
  {
    if i == |legals| then best
    else
      var v := PureAB(Play(s, legals[i], player), depth - 1, s.opponent, a, b);
      var best' := Max(best, Fin(v));
      var a' := Max(a, best');
      if Le(b, a') then best'
      else PureMax(s, depth, player, a', b, legals, i + 1, best')
  }

  function PureMin(s: State, depth: nat, player: int, a: Ext, b: Ext, legals: seq<Action>,
                   i: nat, best: Ext): (r: Ext)
    requires depth >= 1 && i <= |legals|
    ensures best != NegInf && (i < |legals| || best.Fin?) ==> r.Fin?
    decreases depth, 1, |legals| - i
  {
    if i == |legals| then best
    else
      var v := PureAB(Play(s, legals[i], player), depth - 1, s.turn, a, b);
      var best' := Min(best, Fin(v));
      var b' := Min(b, best');
      if Le(b', a) then best'
      else PureMin(s, depth, player, a, b', legals, i + 1, best')
  }

  /** Because every child is bracketed by `play`/`undo`, the search computes the value
      of the search without mutation and leaves the state as it found it (up to the
      Gopher `is_empty` flag). */
  lemma {:induction false} AlphaBetaThreads(s: State, depth: nat, player: int, a: Ext, b: Ext)
    requires Valid(s) && (player == s.turn || player == s.opponent)
    ensures AlphaBeta(s, depth, player, a, b).0 == PureAB(s, depth, player, a, b)
    ensures Restored(s, AlphaBeta(s, depth, player, a, b).1)
    decreases depth, 2
  {
    if |Legals(s, player)| > 0 && depth > 0 {
      if player == s.turn {
        MaxThreads(s, depth, player, a, b);
      } else {
        MinThreads(s, depth, player, a, b);
      }
    }
  }

  /** The maximising branch of `AlphaBetaThreads`. */
  lemma MaxThreads(s: State, depth: nat, player: int, a: Ext, b: Ext)
    requires Valid(s) && player == s.turn && |Legals(s, player)| > 0 && depth > 0
    ensures AlphaBeta(s, depth, player, a, b).0 == PureAB(s, depth, player, a, b)
    ensures Restored(s, AlphaBeta(s, depth, player, a, b).1)
    decreases depth, 1
  {
    var legals := Legals(s, player);
    MaxLoopThreads(s, s, depth, depth - 1, player, a, b, legals, 0, NegInf);
  }

  /** The minimising branch of `AlphaBetaThreads`. */
  lemma MinThreads(s: State, depth: nat, player: int, a: Ext, b: Ext)
    requires Valid(s) && player == s.opponent && player != s.turn && |Legals(s, player)| > 0 && depth > 0
    ensures AlphaBeta(s, depth, player, a, b).0 == PureAB(s, depth, player, a, b)
    ensures Restored(s, AlphaBeta(s, depth, player, a, b).1)
    decreases depth, 1
  {
    var legals := Legals(s, player);
    MinLoopThreads(s, s, depth, depth - 1, player, a, b, legals, 0, PosInf);
  }

  /** One iteration of the maximiser's loop, unfolded. */
  lemma PureMaxUnfold(s: State, depth: nat, d: nat, player: int, a: Ext, b: Ext, legals: seq<Action>,
                      i: nat, best: Ext, v: int)
    requires depth == d + 1 && i < |legals| && player == s.turn
    requires v == PureAB(Play(s, legals[i], player), d, s.opponent, a, b)
    ensures var best' := Max(best, Fin(v));
      PureMax(s, depth, player, a, b, legals, i, best) ==
        if Le(b, Max(a, best')) then best' else PureMax(s, depth, player, Max(a, best'), b, legals, i + 1, best')
  {
  }

  /** One iteration of the minimiser's loop, unfolded. */
  lemma PureMinUnfold(s: State, depth: nat, d: nat, player: int, a: Ext, b: Ext, legals: seq<Action>,
                      i: nat, best: Ext, v: int)
    requires depth == d + 1 && i < |legals| && player != s.turn
    requires v == PureAB(Play(s, legals[i], player), d, s.turn, a, b)
    ensures var best' := Min(best, Fin(v));
      PureMin(s, depth, player, a, b, legals, i, best) ==
        if Le(Min(b, best'), a) then best' else PureMin(s, depth, player, a, Min(b, best'), legals, i + 1, best')
  {
  }

  /** One iteration of the mutating maximiser's loop, unfolded. */
  lemma MaxLoopUnfold(cur: State, depth: nat, d: nat, player: int, a: Ext, b: Ext, legals: seq<Action>,
                      i: nat, best: Ext)
    requires depth == d + 1 && i < |legals|
    ensures var child := AlphaBeta(Play(cur, legals[i], player), d, cur.opponent, a, b);
      var cur' := Undo(child.1, legals[i], player);
      var best' := Max(best, Fin(child.0));
      MaxLoop(cur, depth, player, a, b, legals, i, best) ==
        if Le(b, Max(a, best')) then (best', cur') else MaxLoop(cur', depth, player, Max(a, best'), b, legals, i + 1, best')
  {
  }

  /** One iteration of the mutating minimiser's loop, unfolded. */
  lemma MinLoopUnfold(cur: State, depth: nat, d: nat, player: int, a: Ext, b: Ext, legals: seq<Action>,
                      i: nat, best: Ext)
    requires depth == d + 1 && i < |legals|
    ensures var child := AlphaBeta(Play(cur, legals[i], player), d, cur.turn, a, b);
      var cur' := Undo(child.1, legals[i], player);
      var best' := Min(best, Fin(child.0));
      MinLoop(cur, depth, player, a, b, legals, i, best) ==
        if Le(Min(b, best'), a) then (best', cur') else MinLoop(cur', depth, player, a, Min(b, best'), legals, i + 1, best')
  {
  }

  /** One child of either loop: `play` from a restored state, search `d` plies, `undo`.
      The search computes the mutation-free value and the state comes back restored. */
  lemma ChildThreads(s: State, cur: State, d: nat, player: int, next: int, a: Ext, b: Ext, l: Action)
    requires Valid(s) && Restored(s, cur) && IsPlayer(player) && l in Legals(s, player)
    requires next == s.turn || next == s.opponent
    ensures var child := AlphaBeta(Play(cur, l, player), d, next, a, b);
      && child.0 == PureAB(Play(s, l, player), d, next, a, b)
      && Restored(s, Undo(child.1, l, player))
    decreases d + 1, 0
  {
    PlayRestored(s, cur, l, player);
    SettledThreads(Play(s, l, player), d, next, a, b);
  }

  /** On a state without the Gopher `is_empty` flag the search leaves the state exactly
      as it found it. */
  lemma SettledThreads(s: State, depth: nat, player: int, a: Ext, b: Ext)
    requires Valid(s) && !s.isEmpty && (player == s.turn || player == s.opponent)
    ensures AlphaBeta(s, depth, player, a, b).0 == PureAB(s, depth, player, a, b)
    ensures AlphaBeta(s, depth, player, a, b).1 == s
    decreases depth, 3
  {
    AlphaBetaThreads(s, depth, player, a, b);
  }

  lemma {:induction false} MaxLoopThreads(s: State, cur: State, depth: nat, d: nat, player: int, a: Ext, b: Ext,
                                          legals: seq<Action>, i: nat, best: Ext)
    requires Valid(s) && Restored(s, cur) && player == s.turn
    requires depth == d + 1 && i <= |legals|
    requires legals == Legals(s, player)
    ensures MaxLoop(cur, depth, player, a, b, legals, i, best).0 == PureMax(s, depth, player, a, b, legals, i, best)
    ensures Restored(s, MaxLoop(cur, depth, player, a, b, legals, i, best).1)
    decreases depth, 1, |legals| - i
  {
    if i < |legals| {
      var l := legals[i];
      ChildThreads(s, cur, d, player, s.opponent, a, b, l);
      var child := AlphaBeta(Play(cur, l, player), d, cur.opponent, a, b);
      var cur' := Undo(child.1, l, player);
      var best' := Max(best, Fin(child.0));
      var a' := Max(a, best');
      MaxLoopUnfold(cur, depth, d, player, a, b, legals, i, best);
      PureMaxUnfold(s, depth, d, player, a, b, legals, i, best, child.0);
      if !Le(b, a') {
        MaxLoopThreads(s, cur', depth, d, player, a', b, legals, i + 1, best');
      }
    }
  }

  lemma {:induction false} MinLoopThreads(s: State, cur: State, depth: nat, d: nat, player: int, a: Ext, b: Ext,
                                          legals: seq<Action>, i: nat, best: Ext)
    requires Valid(s) && Restored(s, cur) && player == s.opponent
    requires depth == d + 1 && i <= |legals|
    requires legals == Legals(s, player)
    ensures MinLoop(cur, depth, player, a, b, legals, i, best).0 == PureMin(s, depth, player, a, b, legals, i, best)
    ensures Restored(s, MinLoop(cur, depth, player, a, b, legals, i, best).1)
    decreases depth, 1, |legals| - i
  {
    if i < |legals| {
      var l := legals[i];
      ChildThreads(s, cur, d, player, s.turn, a, b, l);
      var child := AlphaBeta(Play(cur, l, player), d, cur.turn, a, b);
      var cur' := Undo(child.1, l, player);
      var best' := Min(best, Fin(child.0));
      var b' := Min(b, best');
      MinLoopUnfold(cur, depth, d, player, a, b, legals, i, best);
      PureMinUnfold(s, depth, d, player, a, b, legals, i, best, child.0);
      if !Le(b', a) {
        MinLoopThreads(s, cur', depth, d, player, a, b', legals, i + 1, best');
      }
    }
  }
}
