/** What the alpha-beta search of gamestate.py computes: a depth-limited minimax
    reference, the fail-soft bracket that relates the two, and the action-selection
    search `alphabeta_actions_v1` that the improved playouts use. */
module Search {
  import opened Util
  import opened Base
  import opened GameState

  // ---------------------------------------------------------- minimax reference

  /** The side that moves below a search node of `player` in `s`. */
  function Next(s: State, player: int): int
  {
    if player == s.turn then s.opponent else s.turn
  }

  /** The depth-limited minimax value: the same leaves as `alphabeta` (a side without
      moves scores 10000 for `turn`, -10000 for the other, the heuristic at depth 0),
      maximised over the children when `player` is `turn` and minimised otherwise. */
  function Minimax(s: State, depth: nat, player: int): int
    decreases depth, 1
  {
    var legals := Legals(s, player);
    if |legals| == 0 then (if player == s.turn then 10000 else -10000)
    else if depth == 0 then Evaluate(s, legals, player)
    else if player == s.turn then MaxOf(ChildValues(s, depth, player, legals))
    else MinOf(ChildValues(s, depth, player, legals))
  }

  /** The minimax values of the children reached by `legals`, in order. */
  function ChildValues(s: State, depth: nat, player: int, legals: seq<Action>): (vs: seq<int>)
    requires depth >= 1
    ensures |vs| == |legals|
    decreases depth, 0
  {
    seq(|legals|, k requires 0 <= k < |legals| =>
      Minimax(Play(s, legals[k], player), depth - 1, Next(s, player)))
  }

  /** The minimax value of an inner node is the best child value for its side: no child
      beats it and some child attains it. */
  lemma MinimaxOptimal(s: State, depth: nat, player: int)
    requires depth >= 1 && |Legals(s, player)| > 0
    ensures var vs := ChildValues(s, depth, player, Legals(s, player));
      forall k :: 0 <= k < |vs| ==>
        if player == s.turn then vs[k] <= Minimax(s, depth, player) else Minimax(s, depth, player) <= vs[k]
    ensures var vs := ChildValues(s, depth, player, Legals(s, player));
      exists k :: 0 <= k < |vs| && vs[k] == Minimax(s, depth, player)
  {
    var vs := ChildValues(s, depth, player, Legals(s, player));
    var m := Minimax(s, depth, player);
    MinimaxInner(s, depth, player);
    var j: nat;
    if player == s.turn {
      j := MaxAt(vs);
    } else {
      j := MinAt(vs);
    }
    assert 0 <= j < |vs| && vs[j] == m;
  }

  /** Above the leaves, `Minimax` is the extremum of the child values for its side. */
  lemma MinimaxInner(s: State, depth: nat, player: int)
    requires depth >= 1 && |Legals(s, player)| > 0
    ensures var vs := ChildValues(s, depth, player, Legals(s, player));
      Minimax(s, depth, player) == if player == s.turn then MaxOf(vs) else MinOf(vs)
  {
  }

  /** A position where `MaxOf` is attained. */
  lemma MaxAt(vs: seq<int>) returns (j: nat)
    requires |vs| > 0
    ensures j < |vs| && vs[j] == MaxOf(vs)
  {
    j :| 0 <= j < |vs| && vs[j] == MaxOf(vs);
  }

  /** A position where `MinOf` is attained. */
  lemma MinAt(vs: seq<int>) returns (j: nat)
    requires |vs| > 0
    ensures j < |vs| && vs[j] == MinOf(vs)
  {
    j :| 0 <= j < |vs| && vs[j] == MinOf(vs);
  }

  /** The k-th child value is the minimax value of the child that `legals[k]` reaches. */
  lemma ChildValueAt(s: State, depth: nat, d: nat, player: int, legals: seq<Action>, k: nat)
    requires depth == d + 1 && k < |legals|
    ensures ChildValues(s, depth, player, legals)[k] ==
      Minimax(Play(s, legals[k], player), d, Next(s, player))
  {
  }

  // ------------------------------------------------------- extended extrema

  /** The maximum of a sequence, `-inf` when it is empty. */
  function Top(vs: seq<int>): (t: Ext)
    ensures t.Fin? <==> |vs| > 0
    ensures |vs| == 0 ==> t == NegInf
  {
    if |vs| == 0 then NegInf else Max(Fin(vs[0]), Top(vs[1..]))
  }

  /** The minimum of a sequence, `+inf` when it is empty. */
  function Bottom(vs: seq<int>): (t: Ext)
    ensures t.Fin? <==> |vs| > 0
    ensures |vs| == 0 ==> t == PosInf
  {
    if |vs| == 0 then PosInf else Min(Fin(vs[0]), Bottom(vs[1..]))
  }

  /** `Top` bounds every element and is one of them. */
  lemma {:induction false} TopBounds(vs: seq<int>)
    ensures forall k :: 0 <= k < |vs| ==> Le(Fin(vs[k]), Top(vs))
    ensures |vs| > 0 ==> exists k :: 0 <= k < |vs| && Top(vs) == Fin(vs[k])
  {
    if |vs| > 0 {
      TopBounds(vs[1..]);
      assert forall k :: 1 <= k < |vs| ==> vs[1..][k - 1] == vs[k];
      forall k | 0 <= k < |vs| ensures Le(Fin(vs[k]), Top(vs)) {
        if k > 0 { LeTrans(Fin(vs[k]), Top(vs[1..]), Top(vs)); }
      }
      if |vs| > 1 && Top(vs) != Fin(vs[0]) {
        var k :| 0 <= k < |vs[1..]| && Top(vs[1..]) == Fin(vs[1..][k]);
        assert Top(vs) == Fin(vs[k + 1]);
      }
    }
  }

  /** `Bottom` is below every element and is one of them. */
  lemma {:induction false} BottomBounds(vs: seq<int>)
    ensures forall k :: 0 <= k < |vs| ==> Le(Bottom(vs), Fin(vs[k]))
    ensures |vs| > 0 ==> exists k :: 0 <= k < |vs| && Bottom(vs) == Fin(vs[k])
  {
    if |vs| > 0 {
      BottomBounds(vs[1..]);
      assert forall k :: 1 <= k < |vs| ==> vs[1..][k - 1] == vs[k];
      forall k | 0 <= k < |vs| ensures Le(Bottom(vs), Fin(vs[k])) {
        if k > 0 { LeTrans(Bottom(vs), Bottom(vs[1..]), Fin(vs[k])); }
      }
      if Bottom(vs) == Fin(vs[0]) {
        assert 0 <= 0 < |vs| && Bottom(vs) == Fin(vs[0]);
      } else {
        assert Bottom(vs) == Bottom(vs[1..]) && |vs| > 1;
        var k :| 0 <= k < |vs[1..]| && Bottom(vs[1..]) == Fin(vs[1..][k]);
        assert Bottom(vs) == Fin(vs[k + 1]);
      }
    }
  }

  lemma TopIsMaxOf(vs: seq<int>)
    requires |vs| > 0
    ensures Top(vs) == Fin(MaxOf(vs))
  {
    TopBounds(vs);
    var k :| 0 <= k < |vs| && Top(vs) == Fin(vs[k]);
    var j :| 0 <= j < |vs| && vs[j] == MaxOf(vs);
    assert Le(Fin(vs[j]), Top(vs));
  }

  lemma BottomIsMinOf(vs: seq<int>)
    requires |vs| > 0
    ensures Bottom(vs) == Fin(MinOf(vs))
  {
    BottomBounds(vs);
    var k :| 0 <= k < |vs| && Bottom(vs) == Fin(vs[k]);
    var j :| 0 <= j < |vs| && vs[j] == MinOf(vs);
    assert Le(Bottom(vs), Fin(vs[j]));
  }

  // ---------------------------------------------------------- fail-soft bracket

  /** The fail-soft contract of a search with window (a, b) that returned v for a
      node whose true value is m: a fail-low v bounds m from above, a fail-high v
      bounds it from below, and a v strictly inside the window is exact. */
  predicate FailSoft(v: Ext, m: Ext, a: Ext, b: Ext)
  {
    && (Le(v, a) ==> Le(m, v))
    && (Le(b, v) ==> Le(v, m))
    && (!Le(v, a) && !Le(b, v) ==> m == v)
  }

  /** One more child in a maximising loop: the running best keeps the bracket on the
      running true maximum, and the raised alpha is the old alpha raised by the new best. */
  lemma MaxCompose(best: Ext, m: Ext, a0: Ext, a: Ext, b: Ext, f: Ext, mf: Ext)
    requires a == Max(a0, best) && !Le(b, a)
    requires FailSoft(best, m, a0, b) && FailSoft(f, mf, a, b)
    ensures FailSoft(Max(best, f), Max(m, mf), a0, b)
    ensures Max(a, Max(best, f)) == Max(a0, Max(best, f))
  {
    LeTotal(best, f);
    LeTotal(m, mf);
    LeTotal(a0, best);
    LeTotal(b, a0);
    LeTotal(f, a);
    LeTotal(b, f);
  }

  /** The mirror image for a minimising loop. */
  lemma MinCompose(best: Ext, m: Ext, a: Ext, b0: Ext, b: Ext, f: Ext, mf: Ext)
    requires b == Min(b0, best) && !Le(b, a)
    requires FailSoft(best, m, a, b0) && FailSoft(f, mf, a, b)
    ensures FailSoft(Min(best, f), Min(m, mf), a, b0)
    ensures Min(b, Min(best, f)) == Min(b0, Min(best, f))
  {
    LeTotal(best, f);
    LeTotal(m, mf);
    LeTotal(b0, best);
    LeTotal(b0, a);
    LeTotal(f, b);
    LeTotal(a, f);
  }

  /** After a beta cut-off the remaining children can only raise the true maximum, and a
      fail-high bracket survives that. */
  lemma CutHigh(v: Ext, m: Ext, m': Ext, a0: Ext, b: Ext)
    requires FailSoft(v, m, a0, b) && Le(b, v) && !Le(b, a0) && Le(m, m')
    ensures FailSoft(v, m', a0, b)
  {
    LeTotal(v, a0);
    LeTotal(b, v);
  }

  /** After an alpha cut-off the remaining children can only lower the true minimum. */
  lemma CutLow(v: Ext, m: Ext, m': Ext, a: Ext, b0: Ext)
    requires FailSoft(v, m, a, b0) && Le(v, a) && !Le(b0, a) && Le(m', m)
    ensures FailSoft(v, m', a, b0)
  {
    LeTotal(v, a);
    LeTotal(b0, v);
  }

  // ------------------------------------------------------ soundness of the search

  /** Alpha-beta without mutation brackets the minimax value: for any non-empty window
      (a, b), its result is fail-soft with respect to `Minimax`. */
  lemma {:induction false} PureSound(s: State, depth: nat, player: int, a: Ext, b: Ext)
    requires !Le(b, a)
    ensures FailSoft(Fin(PureAB(s, depth, player, a, b)), Fin(Minimax(s, depth, player)), a, b)
    decreases depth, 2
  {
    var legals := Legals(s, player);
    if |legals| > 0 && depth > 0 {
      var vs := ChildValues(s, depth, player, legals);
      assert vs[0..] == vs;
      if player == s.turn {
        PureMaxSound(s, depth, depth - 1, player, a, a, b, legals, 0, NegInf, NegInf);
        TopIsMaxOf(vs);
        assert PureAB(s, depth, player, a, b) == PureMax(s, depth, player, a, b, legals, 0, NegInf).v;
        assert Minimax(s, depth, player) == MaxOf(vs);
      } else {
        PureMinSound(s, depth, depth - 1, player, a, b, b, legals, 0, PosInf, PosInf);
        BottomIsMinOf(vs);
        assert PureAB(s, depth, player, a, b) == PureMin(s, depth, player, a, b, legals, 0, PosInf).v;
        assert Minimax(s, depth, player) == MinOf(vs);
      }
    }
  }

  /** One child of the maximiser's loop, on values alone: the new best keeps the bracket
      on the running maximum, a cut-off keeps it on any larger maximum, and the raised
      alpha is the original alpha raised by the new best. */
  lemma MaxLoopStep(best: Ext, m: Ext, a0: Ext, a: Ext, b: Ext, f: Ext, mf: Ext, t: Ext)
    requires a == Max(a0, best) && !Le(b, a)
    requires FailSoft(best, m, a0, b) && FailSoft(f, mf, a, b)
    ensures Max(a, Max(best, f)) == Max(a0, Max(best, f))
    ensures FailSoft(Max(best, f), Max(m, mf), a0, b)
    ensures Le(b, Max(a, Max(best, f))) ==> FailSoft(Max(best, f), Max(m, Max(mf, t)), a0, b)
    ensures Max(m, Max(mf, t)) == Max(Max(m, mf), t)
  {
    MaxCompose(best, m, a0, a, b, f, mf);
    MaxAssoc(m, mf, t);
    var a' := Max(a, Max(best, f));
    if Le(b, a') {
      LeTotal(b, a0);
      if Le(b, a0) { LeTrans(b, a0, a); }
      CutHigh(Max(best, f), Max(m, mf), Max(Max(m, mf), t), a0, b);
    }
  }

  /** The mirror image for the minimiser's loop. */
  lemma MinLoopStep(best: Ext, m: Ext, a: Ext, b0: Ext, b: Ext, f: Ext, mf: Ext, t: Ext)
    requires b == Min(b0, best) && !Le(b, a)
    requires FailSoft(best, m, a, b0) && FailSoft(f, mf, a, b)
    ensures Min(b, Min(best, f)) == Min(b0, Min(best, f))
    ensures FailSoft(Min(best, f), Min(m, mf), a, b0)
    ensures Le(Min(b, Min(best, f)), a) ==> FailSoft(Min(best, f), Min(m, Min(mf, t)), a, b0)
    ensures Min(m, Min(mf, t)) == Min(Min(m, mf), t)
  {
    MinCompose(best, m, a, b0, b, f, mf);
    MinAssoc(m, mf, t);
    var b' := Min(b, Min(best, f));
    if Le(b', a) {
      LeTotal(b0, a);
      if Le(b0, a) { LeTrans(b, b0, a); }
      CutLow(Min(best, f), Min(m, mf), Min(Min(m, mf), t), a, b0);
    }
  }

  /** Peeling the first value off a suffix. */
  lemma TopStep(vs: seq<int>, i: nat)
    requires i < |vs|
    ensures Top(vs[i..]) == Max(Fin(vs[i]), Top(vs[i + 1..]))
  {
    assert vs[i..][1..] == vs[i + 1..];
  }

  lemma BottomStep(vs: seq<int>, i: nat)
    requires i < |vs|
    ensures Bottom(vs[i..]) == Min(Fin(vs[i]), Bottom(vs[i + 1..]))
  {
    assert vs[i..][1..] == vs[i + 1..];
  }

  /** Child `i` searched with window (a, b) is fail-soft for the i-th child value. */
  lemma {:induction false} ChildSound(s: State, depth: nat, d: nat, player: int, a: Ext, b: Ext,
                                      legals: seq<Action>, i: nat)
    requires depth == d + 1 && i < |legals| && !Le(b, a)
    ensures FailSoft(Fin(PureAB(Play(s, legals[i], player), d, Next(s, player), a, b)),
                     Fin(ChildValues(s, depth, player, legals)[i]), a, b)
    decreases depth, 0
  {
    ChildValueAt(s, depth, d, player, legals, i);
    PureSound(Play(s, legals[i], player), d, Next(s, player), a, b);
  }

  /** The maximiser's loop from child `i` on: if the running best is fail-soft for the
      true maximum m of the children before `i`, the loop's result is fail-soft for the
      maximum over all children. */
  lemma {:induction false} PureMaxSound(s: State, depth: nat, d: nat, player: int, a0: Ext, a: Ext, b: Ext,
                                        legals: seq<Action>, i: nat, best: Ext, m: Ext)
    requires depth == d + 1 && i <= |legals| && player == s.turn
    requires a == Max(a0, best) && !Le(b, a) && FailSoft(best, m, a0, b)
    ensures FailSoft(PureMax(s, depth, player, a, b, legals, i, best),
                     Max(m, Top(ChildValues(s, depth, player, legals)[i..])), a0, b)
    decreases depth, 1, |legals| - i, 1
  {
    var vs := ChildValues(s, depth, player, legals);
    if i == |legals| {
      assert vs[i..] == [];
      LeTotal(m, NegInf);
    } else {
      var v := PureAB(Play(s, legals[i], player), d, s.opponent, a, b);
      var mi := vs[i];
      ChildSound(s, depth, d, player, a, b, legals, i);
      PureMaxUnfold(s, depth, d, player, a, b, legals, i, best, v);
      TopStep(vs, i);
      var best' := Max(best, Fin(v));
      var a' := Max(a, best');
      MaxLoopStep(best, m, a0, a, b, Fin(v), Fin(mi), Top(vs[i + 1..]));
      if !Le(b, a') {
        PureMaxSound(s, depth, d, player, a0, a', b, legals, i + 1, best', Max(m, Fin(mi)));
      }
    }
  }

  /** The minimiser's loop, the mirror image. */
  lemma {:induction false} PureMinSound(s: State, depth: nat, d: nat, player: int, a: Ext, b0: Ext, b: Ext,
                                        legals: seq<Action>, i: nat, best: Ext, m: Ext)
    requires depth == d + 1 && i <= |legals| && player != s.turn
    requires b == Min(b0, best) && !Le(b, a) && FailSoft(best, m, a, b0)
    ensures FailSoft(PureMin(s, depth, player, a, b, legals, i, best),
                     Min(m, Bottom(ChildValues(s, depth, player, legals)[i..])), a, b0)
    decreases depth, 1, |legals| - i, 1
  {
    var vs := ChildValues(s, depth, player, legals);
    if i == |legals| {
      assert vs[i..] == [];
      LeTotal(m, PosInf);
    } else {
      var v := PureAB(Play(s, legals[i], player), d, s.turn, a, b);
      var mi := vs[i];
      ChildSound(s, depth, d, player, a, b, legals, i);
      PureMinUnfold(s, depth, d, player, a, b, legals, i, best, v);
      BottomStep(vs, i);
      var best' := Min(best, Fin(v));
      var b' := Min(b, best');
      MinLoopStep(best, m, a, b0, b, Fin(v), Fin(mi), Bottom(vs[i + 1..]));
      if !Le(b', a) {
        PureMinSound(s, depth, d, player, a, b0, b', legals, i + 1, best', Min(m, Fin(mi)));
      }
    }
  }

  /** `alphabeta` on a well-formed state is fail-soft with respect to minimax for any
      non-empty window, and leaves the state restored. */
  lemma AlphaBetaFailSoft(s: State, depth: nat, player: int, a: Ext, b: Ext)
    requires Valid(s) && (player == s.turn || player == s.opponent) && !Le(b, a)
    ensures FailSoft(Fin(AlphaBeta(s, depth, player, a, b).0), Fin(Minimax(s, depth, player)), a, b)
    ensures Restored(s, AlphaBeta(s, depth, player, a, b).1)
  {
    AlphaBetaThreads(s, depth, player, a, b);
    PureSound(s, depth, player, a, b);
  }

  /** With the full window (-inf, +inf) that the playouts use, `alphabeta` is exactly the
      minimax value. */
  lemma AlphaBetaIsMinimax(s: State, depth: nat, player: int)
    requires Valid(s) && (player == s.turn || player == s.opponent)
    ensures AlphaBeta(s, depth, player, NegInf, PosInf).0 == Minimax(s, depth, player)
  {
    AlphaBetaFailSoft(s, depth, player, NegInf, PosInf);
  }

  // -------------------------------------------------------- action selection

  /** The window bound `alphabeta_actions_v1` passes to the next child after the values
      `prev`: the maximiser raises alpha to the best value so far, the minimiser lowers
      beta to it; the other bound stays as given. */
  function NarrowA(s: State, player: int, a: Ext, prev: seq<int>): Ext
  {
    if player == s.turn then Max(a, Top(prev)) else a
  }

  function NarrowB(s: State, player: int, b: Ext, prev: seq<int>): Ext
  {
    if player == s.turn then b else Min(b, Bottom(prev))
  }

  /** The best of a list of child values for the side of `player`. */
  function Best(s: State, player: int, vs: seq<int>): Ext
  {
    if player == s.turn then Top(vs) else Bottom(vs)
  }

  /** The values `alphabeta_actions_v1` gives the children reached by `legals[..n]`: each
      child is searched with the window narrowed by the values before it, and no child is
      skipped. */
  function ActionValues(s: State, d: nat, player: int, a: Ext, b: Ext, legals: seq<Action>,
                        n: nat): (vs: seq<int>)
    requires n <= |legals|
    ensures |vs| == n
  {
    if n == 0 then []
    else
      var prev := ActionValues(s, d, player, a, b, legals, n - 1);
      prev + [PureAB(Play(s, legals[n - 1], player), d, Next(s, player),
                     NarrowA(s, player, a, prev), NarrowB(s, player, b, prev))]
  }

  /** One more searched child extends the list of values at the end. */
  lemma ActionValuesSnoc(s: State, d: nat, player: int, a: Ext, b: Ext, legals: seq<Action>,
                         i: nat, done: seq<int>, v: int)
    requires i < |legals| && done == ActionValues(s, d, player, a, b, legals, i)
    requires v == PureAB(Play(s, legals[i], player), d, Next(s, player),
                         NarrowA(s, player, a, done), NarrowB(s, player, b, done))
    ensures ActionValues(s, d, player, a, b, legals, i + 1) == done + [v]
  {
  }

  /** `r` is `l` with some elements left out, the rest in their original order. */
  predicate SubList<T(==)>(r: seq<T>, l: seq<T>)
    decreases |l|
  {
    if |r| == 0 then true
    else if |l| == 0 then false
    else if r[|r| - 1] == l[|l| - 1] then SubList(r[..|r| - 1], l[..|l| - 1])
    else SubList(r, l[..|l| - 1])
  }

  /** A sub-list stays one when the longer list grows at the end. */
  lemma {:induction false} SubListExtend<T>(r: seq<T>, l: seq<T>, x: T)
    requires SubList(r, l)
    ensures SubList(r, l + [x])
    decreases |l|, 1
  {
    assert (l + [x])[..|l|] == l;
    if |r| > 0 && r[|r| - 1] == x {
      SubListDrop(r, l);
    }
  }

  /** Growing both lists by the same element keeps a sub-list. */
  lemma SubListKeep<T>(r: seq<T>, l: seq<T>, x: T)
    requires SubList(r, l)
    ensures SubList(r + [x], l + [x])
  {
    assert (r + [x])[..|r|] == r;
    assert (l + [x])[..|l|] == l;
  }

  /** Dropping the last element of a sub-list keeps it a sub-list. */
  lemma {:induction false} SubListDrop<T>(r: seq<T>, l: seq<T>)
    requires |r| > 0 && SubList(r, l)
    ensures SubList(r[..|r| - 1], l)
    decreases |l|, 0
  {
    var n := |l|;
    if r[|r| - 1] != l[n - 1] {
      SubListDrop(r, l[..n - 1]);
      SubListExtend(r[..|r| - 1], l[..n - 1], l[n - 1]);
      assert l[..n - 1] + [l[n - 1]] == l;
    } else {
      SubListExtend(r[..|r| - 1], l[..n - 1], l[n - 1]);
      assert l[..n - 1] + [l[n - 1]] == l;
    }
  }

  /** The actions whose value is x, in their order in `legals`. */
  function Attaining(legals: seq<Action>, vs: seq<int>, x: int): (r: seq<Action>)
    requires |vs| == |legals|
    ensures |r| <= |legals|
    decreases |legals|
  {
    if |legals| == 0 then []
    else
      var n := |legals| - 1;
      Attaining(legals[..n], vs[..n], x) + (if vs[n] == x then [legals[n]] else [])
  }

  /** The attaining actions are exactly those whose value is x. */
  lemma {:induction false} AttainingMembers(legals: seq<Action>, vs: seq<int>, x: int)
    requires |vs| == |legals|
    ensures forall k :: 0 <= k < |legals| && vs[k] == x ==> legals[k] in Attaining(legals, vs, x)
    ensures forall c :: c in Attaining(legals, vs, x) ==>
      exists k :: 0 <= k < |legals| && legals[k] == c && vs[k] == x
    decreases |legals|
  {
    if |legals| > 0 {
      var n := |legals| - 1;
      var r' := Attaining(legals[..n], vs[..n], x);
      AttainingMembers(legals[..n], vs[..n], x);
      assert forall k :: 0 <= k < n ==> legals[..n][k] == legals[k] && vs[..n][k] == vs[k];
      assert Attaining(legals, vs, x) == r' + (if vs[n] == x then [legals[n]] else []);
    }
  }

  /** The attaining actions keep their order in `legals`. */
  lemma {:induction false} AttainingSubList(legals: seq<Action>, vs: seq<int>, x: int)
    requires |vs| == |legals|
    ensures SubList(Attaining(legals, vs, x), legals)
    decreases |legals|
  {
    if |legals| > 0 {
      var n := |legals| - 1;
      var r' := Attaining(legals[..n], vs[..n], x);
      AttainingSubList(legals[..n], vs[..n], x);
      assert legals[..n] + [legals[n]] == legals;
      if vs[n] == x {
        assert Attaining(legals, vs, x) == r' + [legals[n]];
        SubListKeep(r', legals[..n], legals[n]);
      } else {
        assert Attaining(legals, vs, x) == r';
        SubListExtend(r', legals[..n], legals[n]);
      }
    }
  }

  /** No action attains a value that no child has. */
  lemma AttainingNone(legals: seq<Action>, vs: seq<int>, x: int)
    requires |vs| == |legals| && forall k :: 0 <= k < |vs| ==> vs[k] != x
    ensures Attaining(legals, vs, x) == []
  {
    AttainingMembers(legals, vs, x);
  }

  /** Adding one more child extends the attaining actions by it exactly when it attains. */
  lemma AttainingSnoc(legals: seq<Action>, vs: seq<int>, l: Action, v: int, x: int)
    requires |vs| == |legals|
    ensures Attaining(legals + [l], vs + [v], x) ==
      Attaining(legals, vs, x) + (if v == x then [l] else [])
  {
    assert (legals + [l])[..|legals|] == legals;
    assert (vs + [v])[..|vs|] == vs;
  }

  /** The running maximum grows by one value at a time. */
  lemma {:induction false} TopSnoc(vs: seq<int>, v: int)
    ensures Top(vs + [v]) == Max(Top(vs), Fin(v))
  {
    if |vs| > 0 {
      assert (vs + [v])[1..] == vs[1..] + [v];
      TopSnoc(vs[1..], v);
      MaxAssoc(Fin(vs[0]), Top(vs[1..]), Fin(v));
    }
  }

  /** The running minimum, likewise. */
  lemma {:induction false} BottomSnoc(vs: seq<int>, v: int)
    ensures Bottom(vs + [v]) == Min(Bottom(vs), Fin(v))
  {
    if |vs| > 0 {
      assert (vs + [v])[1..] == vs[1..] + [v];
      BottomSnoc(vs[1..], v);
      MinAssoc(Fin(vs[0]), Bottom(vs[1..]), Fin(v));
    }
  }

  /** One child of the action search: `play`, `alphabeta` one ply shallower, `undo`. From a
      restored state it yields the mutation-free value and leaves the state restored. */
  lemma ChildSearch(s: State, cur: State, l: Action, player: int, d: nat, a: Ext, b: Ext)
    requires Valid(s) && Restored(s, cur) && (player == s.turn || player == s.opponent)
    requires l in Legals(s, player)
    ensures var child := AlphaBeta(Play(cur, l, player), d, Next(cur, player), a, b);
      && child.0 == PureAB(Play(s, l, player), d, Next(s, player), a, b)
      && Restored(s, Undo(child.1, l, player))
  {
    PlayRestored(s, cur, l, player);
    var s1 := Play(s, l, player);
    assert Play(cur, l, player) == s1 && Next(cur, player) == Next(s, player);
    SettledThreads(s1, d, Next(s, player), a, b);
  }

  /** The maximiser's bookkeeping for one more child value v: a strictly better value
      restarts the list, an equal one joins it. */
  lemma MaxRecord(legals: seq<Action>, done: seq<int>, best: Ext, chosen: seq<Action>, i: nat, v: int)
    requires i < |legals| && |done| == i && best == Top(done)
    requires chosen == (if i == 0 then [] else Attaining(legals[..i], done, best.v))
    ensures var best' := if !Le(Fin(v), best) then Fin(v) else best;
      var chosen' := if !Le(Fin(v), best) then [legals[i]]
                     else if best == Fin(v) then chosen + [legals[i]] else chosen;
      && best' == Top(done + [v]) && best' == Max(best, Fin(v))
      && chosen' == Attaining(legals[..i + 1], done + [v], best'.v)
  {
    var l := legals[i];
    TopSnoc(done, v);
    assert legals[..i + 1] == legals[..i] + [l];
    if i == 0 {
      AttainingSnoc([], [], l, v, v);
    } else if !Le(Fin(v), best) {
      TopBounds(done);
      forall k | 0 <= k < |done| ensures done[k] != v { LeTotal(Fin(done[k]), best); }
      AttainingNone(legals[..i], done, v);
      AttainingSnoc(legals[..i], done, l, v, v);
    } else {
      AttainingSnoc(legals[..i], done, l, v, best.v);
    }
  }

  /** The minimiser's bookkeeping, the mirror image. */
  lemma MinRecord(legals: seq<Action>, done: seq<int>, best: Ext, chosen: seq<Action>, i: nat, v: int)
    requires i < |legals| && |done| == i && best == Bottom(done)
    requires chosen == (if i == 0 then [] else Attaining(legals[..i], done, best.v))
    ensures var best' := if !Le(best, Fin(v)) then Fin(v) else best;
      var chosen' := if !Le(best, Fin(v)) then [legals[i]]
                     else if best == Fin(v) then chosen + [legals[i]] else chosen;
      && best' == Bottom(done + [v]) && best' == Min(best, Fin(v))
      && chosen' == Attaining(legals[..i + 1], done + [v], best'.v)
  {
    var l := legals[i];
    BottomSnoc(done, v);
    assert legals[..i + 1] == legals[..i] + [l];
    if i == 0 {
      AttainingSnoc([], [], l, v, v);
    } else if !Le(best, Fin(v)) {
      BottomBounds(done);
      forall k | 0 <= k < |done| ensures done[k] != v { LeTotal(best, Fin(done[k])); }
      AttainingNone(legals[..i], done, v);
      AttainingSnoc(legals[..i], done, l, v, v);
    } else {
      AttainingSnoc(legals[..i], done, l, v, best.v);
    }
  }

  /** What the loop of `alphabeta_actions_v1` knows after i children searched at depth d:
      their values, the narrowed window, the best value and the actions that attain it. */
  ghost predicate Book(s: State, d: nat, player: int, a: Ext, b: Ext, legals: seq<Action>, i: nat,
                       alpha: Ext, beta: Ext, best: Ext, chosen: seq<Action>, done: seq<int>)
  {
    && i <= |legals|
    && done == ActionValues(s, d, player, a, b, legals, i)
    && alpha == NarrowA(s, player, a, done) && beta == NarrowB(s, player, b, done)
    && best == Best(s, player, done)
    && chosen == (if i == 0 then [] else Attaining(legals[..i], done, best.v))
  }

  /** Whether v beats the best value so far for the side of `player` (strictly: a tie
      joins the list instead). */
  predicate Beats(s: State, player: int, v: int, best: Ext)
  {
    if player == s.turn then !Le(Fin(v), best) else !Le(best, Fin(v))
  }

  /** Recording the value of child i keeps the bookkeeping. */
  lemma BookStep(s: State, d: nat, player: int, a: Ext, b: Ext, legals: seq<Action>, i: nat,
                 alpha: Ext, beta: Ext, best: Ext, chosen: seq<Action>, done: seq<int>, v: int)
    requires Book(s, d, player, a, b, legals, i, alpha, beta, best, chosen, done) && i < |legals|
    requires v == PureAB(Play(s, legals[i], player), d, Next(s, player), alpha, beta)
    ensures var best' := if Beats(s, player, v, best) then Fin(v) else best;
      var chosen' := if Beats(s, player, v, best) then [legals[i]]
                     else if best == Fin(v) then chosen + [legals[i]] else chosen;
      var alpha' := if player == s.turn then Max(alpha, best') else alpha;
      var beta' := if player == s.turn then beta else Min(beta, best');
      Book(s, d, player, a, b, legals, i + 1, alpha', beta', best', chosen', done + [v])
  {
    ActionValuesSnoc(s, d, player, a, b, legals, i, done, v);
    if player == s.turn {
      MaxBook(s, d, player, a, b, legals, i, alpha, beta, best, chosen, done, v);
    } else {
      MinBook(s, d, player, a, b, legals, i, alpha, beta, best, chosen, done, v);
    }
  }

  /** `BookStep` for the maximiser, once the values are known to grow by v. */
  lemma MaxBook(s: State, d: nat, player: int, a: Ext, b: Ext, legals: seq<Action>, i: nat,
                alpha: Ext, beta: Ext, best: Ext, chosen: seq<Action>, done: seq<int>, v: int)
    requires Book(s, d, player, a, b, legals, i, alpha, beta, best, chosen, done) && i < |legals|
    requires player == s.turn && ActionValues(s, d, player, a, b, legals, i + 1) == done + [v]
    ensures var best' := if !Le(Fin(v), best) then Fin(v) else best;
      var chosen' := if !Le(Fin(v), best) then [legals[i]]
                     else if best == Fin(v) then chosen + [legals[i]] else chosen;
      Book(s, d, player, a, b, legals, i + 1, Max(alpha, best'), beta, best', chosen', done + [v])
  {
    MaxRecord(legals, done, best, chosen, i, v);
    LeTotal(best, Fin(v));
    MaxAssoc(a, best, Max(best, Fin(v)));
  }

  /** `BookStep` for the minimiser. */
  lemma MinBook(s: State, d: nat, player: int, a: Ext, b: Ext, legals: seq<Action>, i: nat,
                alpha: Ext, beta: Ext, best: Ext, chosen: seq<Action>, done: seq<int>, v: int)
    requires Book(s, d, player, a, b, legals, i, alpha, beta, best, chosen, done) && i < |legals|
    requires player != s.turn && ActionValues(s, d, player, a, b, legals, i + 1) == done + [v]
    ensures var best' := if !Le(best, Fin(v)) then Fin(v) else best;
      var chosen' := if !Le(best, Fin(v)) then [legals[i]]
                     else if best == Fin(v) then chosen + [legals[i]] else chosen;
      Book(s, d, player, a, b, legals, i + 1, alpha, Min(beta, best'), best', chosen', done + [v])
  {
    MinRecord(legals, done, best, chosen, i, v);
    LeTotal(best, Fin(v));
    MinAssoc(b, best, Min(best, Fin(v)));
  }

  /** One child of the loop: `play`, search at the child depth d, `undo`, record. */
  method ActionStep(s: State, d: nat, player: int, a: Ext, b: Ext, legals: seq<Action>, i: nat,
                    alpha: Ext, beta: Ext, best: Ext, chosen: seq<Action>, after: State, ghost done: seq<int>)
    returns (alpha': Ext, beta': Ext, best': Ext, chosen': seq<Action>, after': State, ghost done': seq<int>)
    requires Valid(s) && (player == s.turn || player == s.opponent) && legals == Legals(s, player)
    requires Restored(s, after) && i < |legals|
    requires Book(s, d, player, a, b, legals, i, alpha, beta, best, chosen, done)
    ensures Restored(s, after')
    ensures Book(s, d, player, a, b, legals, i + 1, alpha', beta', best', chosen', done')
  {
    var l := legals[i];
    ChildSearch(s, after, l, player, d, alpha, beta);
    var child := AlphaBeta(Play(after, l, player), d, Next(after, player), alpha, beta);
    after' := Undo(child.1, l, player);
    var v := child.0;
    BookStep(s, d, player, a, b, legals, i, alpha, beta, best, chosen, done, v);
    best' := best;
    chosen' := chosen;
    if Beats(s, player, v, best) {
      best' := Fin(v);
      chosen' := [l];
    } else if best == Fin(v) {
      chosen' := chosen + [l];
    }
    if player == s.turn {
      alpha', beta' := Max(alpha, best'), beta;
    } else {
      alpha', beta' := alpha, Min(beta, best');
    }
    done' := done + [v];
  }

  /** `alphabeta_actions_v1`: with a single action, that action list itself and an
      infinite value; otherwise every child is searched, the value is the best child value
      for the side of `player`, and the chosen actions are those that attain it, in order. */
  method AlphaBetaActions(s: State, depth: nat, player: int, a: Ext, b: Ext, legals: seq<Action>)
    returns (best: Ext, chosen: seq<Action>, after: State)
    requires Valid(s) && (player == s.turn || player == s.opponent) && depth >= 1
    requires legals == Legals(s, player)
    ensures |legals| == 1 ==>
      best == (if player == s.turn then NegInf else PosInf) && chosen == legals && after == s
    ensures |legals| != 1 ==>
      var vs := ActionValues(s, depth - 1, player, a, b, legals, |legals|);
      && best == Best(s, player, vs)
      && chosen == (if |legals| == 0 then [] else Attaining(legals, vs, best.v))
    ensures Restored(s, after)
  {
    if |legals| == 1 {
      best := if player == s.turn then NegInf else PosInf;
      chosen, after := legals, s;
    } else {
      best, chosen, after := ActionLoop(s, depth, player, a, b, legals);
    }
  }

  /** The loop of `alphabeta_actions_v1` over every child, each searched one ply shallower. */
  method ActionLoop(s: State, depth: nat, player: int, a: Ext, b: Ext, legals: seq<Action>)
    returns (best: Ext, chosen: seq<Action>, after: State)
    requires Valid(s) && (player == s.turn || player == s.opponent) && depth >= 1
    requires legals == Legals(s, player)
    ensures var vs := ActionValues(s, depth - 1, player, a, b, legals, |legals|);
      && best == Best(s, player, vs)
      && chosen == (if |legals| == 0 then [] else Attaining(legals, vs, best.v))
    ensures Restored(s, after)
  {
    best := if player == s.turn then NegInf else PosInf;
    after := s;
    chosen := [];
    var alpha, beta := a, b;
    var i := 0;
    ghost var done: seq<int> := [];
    var d: nat := depth - 1;
    BookStart(s, d, player, a, b, legals);
    while i < |legals|
      invariant Restored(s, after)
      invariant Book(s, d, player, a, b, legals, i, alpha, beta, best, chosen, done)
      decreases |legals| - i
    {
      alpha, beta, best, chosen, after, done :=
        ActionStep(s, d, player, a, b, legals, i, alpha, beta, best, chosen, after, done);
      i := i + 1;
    }
    BookFinish(s, d, player, a, b, legals, i, alpha, beta, best, chosen, done);
    ShallowerValues(s, depth, d, player, a, b, legals);
  }

  lemma BookStart(s: State, d: nat, player: int, a: Ext, b: Ext, legals: seq<Action>)
    ensures Book(s, d, player, a, b, legals, 0, a, b, if player == s.turn then NegInf else PosInf, [], [])
  {
    LeTotal(a, NegInf);
    LeTotal(b, PosInf);
  }

  lemma BookFinish(s: State, d: nat, player: int, a: Ext, b: Ext, legals: seq<Action>, i: nat,
                   alpha: Ext, beta: Ext, best: Ext, chosen: seq<Action>, done: seq<int>)
    requires Book(s, d, player, a, b, legals, i, alpha, beta, best, chosen, done) && i >= |legals|
    ensures var vs := ActionValues(s, d, player, a, b, legals, |legals|);
      && best == Best(s, player, vs)
      && chosen == (if |legals| == 0 then [] else Attaining(legals, vs, best.v))
  {
    assert legals[..i] == legals;
  }

  lemma ShallowerValues(s: State, depth: nat, d: nat, player: int, a: Ext, b: Ext, legals: seq<Action>)
    requires depth == d + 1
    ensures ActionValues(s, depth - 1, player, a, b, legals, |legals|) == ActionValues(s, d, player, a, b, legals, |legals|)
  {
  }

  // ------------------------------------------------ what the chosen actions are

  /** At depth 0 the search does not look at its window: it is the minimax value. */
  lemma LeafValue(c: State, player: int, a: Ext, b: Ext)
    ensures PureAB(c, 0, player, a, b) == Minimax(c, 0, player)
  {
  }

  /** At depth 1, the depth the playouts use, the action values are exactly the children's
      minimax values. */
  lemma {:induction false} DepthOneValues(s: State, player: int, a: Ext, b: Ext, legals: seq<Action>, n: nat)
    requires n <= |legals|
    ensures ActionValues(s, 0, player, a, b, legals, n) == ChildValues(s, 1, player, legals)[..n]
  {
    if n > 0 {
      DepthOneValues(s, player, a, b, legals, n - 1);
      var prev := ActionValues(s, 0, player, a, b, legals, n - 1);
      LeafValue(Play(s, legals[n - 1], player), Next(s, player), NarrowA(s, player, a, prev), NarrowB(s, player, b, prev));
      ChildValueAt(s, 1, 0, player, legals, n - 1);
      TakeSnoc(ChildValues(s, 1, player, legals), n);
    }
  }

  /** So at depth 1 the best value is the node's minimax value and the chosen actions are
      exactly the optimal ones. */
  lemma DepthOneOptimal(s: State, player: int, a: Ext, b: Ext)
    requires |Legals(s, player)| > 0
    ensures var legals := Legals(s, player);
      var vs := ActionValues(s, 0, player, a, b, legals, |legals|);
      && vs == ChildValues(s, 1, player, legals)
      && Best(s, player, vs) == Fin(Minimax(s, 1, player))
  {
    var legals := Legals(s, player);
    var cv := ChildValues(s, 1, player, legals);
    DepthOneValues(s, player, a, b, legals, |legals|);
    assert cv[..|legals|] == cv;
    if player == s.turn {
      TopIsMaxOf(cv);
      assert Minimax(s, 1, player) == MaxOf(cv);
    } else {
      BottomIsMinOf(cv);
      assert Minimax(s, 1, player) == MinOf(cv);
    }
  }
}
