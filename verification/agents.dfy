/** The engines of agents.py: the search trees an engine keeps, advancing them on an
    observed action, recognising the opponent's move on the referee's board, and choosing a
    move from the visits of every tree. The search itself is `Mcts.PerformIterations`; the
    process pool of root parallelisation is replaced by taking the trees as they come back
    from their searches. */
module Agents {
  import opened Util
  import opened Hex
  import opened Board
  import opened Base
  import opened GameState
  import opened Mcts
  import Dodo
  import Gopher

  // --------------------------------------------------------------- searchers

  /** One MCTSearcher: an arena and the index of its root. */
  datatype Searcher = Searcher(tree: seq<Node>, root: nat)

  /** A searcher whose arena keeps the tree invariant and whose root is in it. */
  ghost predicate Sound(sr: Searcher)
  {
    Inv(sr.tree) && sr.root < |sr.tree|
  }

  /** A searcher as `generate_mctsearcher` builds it on s: one unvisited root without
      parent or children, every legal action untried. */
  predicate Fresh(sr: Searcher, s: State)
  {
    && |sr.tree| == 1 && sr.root == 0
    && sr.tree[0].state == s && sr.tree[0].parent == None && sr.tree[0].children == []
    && sr.tree[0].n == 0 && sr.tree[0].q == 0
    && multiset(sr.tree[0].untried) == multiset(s.legals)
  }

  /** `generate_mctsearcher`. */
  function FreshSearcher(s: State, draw: nat -> nat): (sr: Searcher)
    ensures Fresh(sr, s)
  {
    Searcher([NewNode(s, None, None, draw)], 0)
  }

  /** n fresh searchers; searcher k shuffles with `draws(k)`. */
  function FreshSearchers(s: State, n: nat, draws: nat -> nat -> nat): (ss: seq<Searcher>)
    ensures |ss| == n && forall k :: 0 <= k < n ==> Fresh(ss[k], s)
  {
    if n == 0 then [] else FreshSearchers(s, n - 1, draws) + [FreshSearcher(s, draws(n - 1))]
  }

  /** `generate_mctsearchers`: four trees under root parallelisation, one otherwise. */
  function GenerateSearchers(s: State, parallel: bool, draws: nat -> nat -> nat): (ss: seq<Searcher>)
    ensures |ss| == (if parallel then 4 else 1)
    ensures forall k :: 0 <= k < |ss| ==> Fresh(ss[k], s)
  {
    FreshSearchers(s, if parallel then 4 else 1, draws)
  }

  /** A fresh searcher on a position a constructor built is sound. */
  lemma FreshSound(sr: Searcher, s: State)
    requires Fresh(sr, s) && Built(s)
    ensures Sound(sr)
  {
    assert BooksAt(sr.tree, 0);
  }

  // ------------------------------------------------------------------ update

  /** The listed child c was reached by action a. */
  predicate Reached(t: seq<Node>, c: nat, a: Action)
  {
    c < |t| && t[c].parentAction == Some(a)
  }

  /** The scan of the root's children in `update`; it has no `break`, so the last child
      reached by a is the one kept. The position of that child, or -1 when there is none. */
  function LastReached(t: seq<Node>, cs: seq<nat>, a: Action): (k: int)
    ensures -1 <= k < |cs|
    ensures k >= 0 ==> Reached(t, cs[k], a)
    ensures forall j :: k < j < |cs| ==> !Reached(t, cs[j], a)
  {
    if |cs| == 0 then -1
    else if Reached(t, cs[|cs| - 1], a) then |cs| - 1
    else
      var k := LastReached(t, cs[..|cs| - 1], a);
      assert forall j :: k < j < |cs| - 1 ==> cs[..|cs| - 1][j] == cs[j];
      k
  }

  /** `update` on one tree. An action still untried at the root gives a new root on the
      position it leads to, whose parent is the old root (the old root keeps the action in
      its untried list and does not list the new root as a child). An action of an
      explored child makes that child the root and cuts its parent link. Any other action
      leaves the tree as it is. */
  function Update(sr: Searcher, a: Action, draw: nat -> nat): (r: Searcher)
    requires sr.root < |sr.tree|
    ensures r.root < |r.tree| && |sr.tree| <= |r.tree|
    ensures var v := sr.tree[sr.root];
      a in v.untried ==>
        && |r.tree| == |sr.tree| + 1 && r.tree[..|sr.tree|] == sr.tree && r.root == |sr.tree|
        && r.tree[r.root].state == Move(v.state, a)
        && r.tree[r.root].parent == Some(sr.root) && r.tree[r.root].parentAction == Some(a)
        && r.tree[r.root].children == [] && r.tree[r.root].n == 0 && r.tree[r.root].q == 0
    ensures var v := sr.tree[sr.root];
      a !in v.untried && (exists k :: 0 <= k < |v.children| && Reached(sr.tree, v.children[k], a)) ==>
        && |r.tree| == |sr.tree| && r.root in v.children && Reached(sr.tree, r.root, a)
        && r.tree[r.root] == sr.tree[r.root].(parent := None)
        && (forall j :: 0 <= j < |sr.tree| && j != r.root ==> r.tree[j] == sr.tree[j])
    ensures var v := sr.tree[sr.root];
      a !in v.untried && (forall k :: 0 <= k < |v.children| ==> !Reached(sr.tree, v.children[k], a)) ==>
        r == sr
  {
    var v := sr.tree[sr.root];
    if a in v.untried then
      Searcher(sr.tree + [NewNode(Move(v.state, a), Some(sr.root), Some(a), draw)], |sr.tree|)
    else
      var k := LastReached(sr.tree, v.children, a);
      if k < 0 then sr
      else
        var c := v.children[k];
        Searcher(sr.tree[c := sr.tree[c].(parent := None)], c)
  }

  /** A new leaf whose parent is in the arena keeps the tree invariant. */
  lemma GraftKeepsInv(t: seq<Node>, leaf: Node)
    requires Inv(t) && Built(leaf.state)
    requires leaf.parent.Some? ==> leaf.parent.value < |t|
    requires leaf.children == [] && 0 <= leaf.q <= leaf.n
    requires multiset(leaf.untried) == multiset(leaf.state.legals)
    ensures Inv(t + [leaf])
  {
    GraftKeepsLinked(t, leaf);
    GraftKeepsBuilt(t, leaf);
    GraftKeepsBooks(t, leaf);
    GraftKeepsScores(t, leaf);
  }

  lemma GraftKeepsLinked(t: seq<Node>, leaf: Node)
    requires Linked(t) && leaf.children == []
    requires leaf.parent.Some? ==> leaf.parent.value < |t|
    ensures Linked(t + [leaf])
  {
    var t' := t + [leaf];
    forall j, k | 0 <= j < |t'| && 0 <= k < |t'[j].children|
      ensures ChildOf(t', j, t'[j].children[k])
    {
      assert t'[j] == t[j];
      var c := t[j].children[k];
      assert ChildOf(t, j, c);
      assert t'[c] == t[c];
    }
  }

  lemma GraftKeepsBuilt(t: seq<Node>, leaf: Node)
    requires StatesBuilt(t) && Built(leaf.state)
    ensures StatesBuilt(t + [leaf])
  {
    var t' := t + [leaf];
    forall j | 0 <= j < |t'| ensures Built(t'[j].state) {
      if j < |t| {
        assert t'[j] == t[j];
      }
    }
  }

  lemma GraftKeepsScores(t: seq<Node>, leaf: Node)
    requires Scores(t) && 0 <= leaf.q <= leaf.n
    ensures Scores(t + [leaf])
  {
    var t' := t + [leaf];
    forall j | 0 <= j < |t'| ensures 0 <= t'[j].q <= t'[j].n {
      if j < |t| {
        assert t'[j] == t[j];
      }
    }
  }

  lemma GraftKeepsBooks(t: seq<Node>, leaf: Node)
    requires Linked(t) && Books(t) && leaf.children == []
    requires multiset(leaf.untried) == multiset(leaf.state.legals)
    ensures Books(t + [leaf])
  {
    var t' := t + [leaf];
    forall c | 0 <= c < |t| ensures t'[c].parentAction == t[c].parentAction {
      assert t'[c] == t[c];
    }
    forall j | 0 <= j < |t'| ensures BooksAt(t', j) {
      if j < |t| {
        assert t'[j] == t[j];
        assert BooksAt(t, j);
        ChildrenFrame(t, t', j);
      } else {
        assert t'[j] == leaf;
      }
    }
  }

  /** Cutting a node's parent link keeps the tree invariant. */
  lemma DetachKeepsInv(t: seq<Node>, c: nat)
    requires Inv(t) && c < |t|
    ensures Inv(t[c := t[c].(parent := None)])
  {
    var t' := t[c := t[c].(parent := None)];
    assert forall j :: 0 <= j < |t| ==> t'[j] == t[j].(parent := t'[j].parent);
    assert Linked(t') by {
      forall j, k | 0 <= j < |t'| && 0 <= k < |t'[j].children|
        ensures ChildOf(t', j, t'[j].children[k])
      {
        assert ChildOf(t, j, t[j].children[k]);
      }
    }
    assert StatesBuilt(t');
    assert Scores(t');
    forall j | 0 <= j < |t'| ensures BooksAt(t', j) {
      assert BooksAt(t, j);
      ChildrenFrame(t, t', j);
    }
  }

  /** `update` keeps a searcher sound. */
  lemma UpdateKeepsSound(sr: Searcher, a: Action, draw: nat -> nat)
    requires Sound(sr)
    ensures Sound(Update(sr, a, draw))
  {
    var v := sr.tree[sr.root];
    if a in v.untried {
      assert a in multiset(v.untried);
      assert BooksAt(sr.tree, sr.root);
      assert a in v.state.legals by {
        assert a in multiset(v.state.legals);
      }
      MoveKeepsBuilt(v.state, a);
      GraftKeepsInv(sr.tree, NewNode(Move(v.state, a), Some(sr.root), Some(a), draw));
    } else {
      var k := LastReached(sr.tree, v.children, a);
      if k >= 0 {
        DetachKeepsInv(sr.tree, v.children[k]);
      }
    }
  }

  /** The actions of children that all carry one are read off position by position. */
  lemma {:induction false} ActionsOfAt(t: seq<Node>, cs: seq<nat>)
    requires forall k :: 0 <= k < |cs| ==> cs[k] < |t| && t[cs[k]].parentAction.Some?
    ensures |ActionsOf(t, cs)| == |cs|
    ensures forall k :: 0 <= k < |cs| ==> ActionsOf(t, cs)[k] == t[cs[k]].parentAction.value
  {
    if |cs| > 0 {
      ActionsOfAt(t, cs[..|cs| - 1]);
    }
  }

  /** In a sound tree the children of a node carry their actions, and a child reached by a
      is the only one. */
  lemma ChildActions(t: seq<Node>, i: nat)
    requires Inv(t) && i < |t|
    ensures forall k :: 0 <= k < |t[i].children| ==> Reached(t, t[i].children[k], t[t[i].children[k]].parentAction.value)
    ensures forall a :: a in ActionsOf(t, t[i].children) <==>
      exists k :: 0 <= k < |t[i].children| && Reached(t, t[i].children[k], a)
    ensures forall a, k, j ::
      (0 <= k < |t[i].children| && 0 <= j < |t[i].children| &&
       Reached(t, t[i].children[k], a) && Reached(t, t[i].children[j], a)) ==> k == j
  {
    var cs := t[i].children;
    forall k | 0 <= k < |cs| ensures cs[k] < |t| && t[cs[k]].parentAction.Some? {
      assert ChildOf(t, i, cs[k]);
    }
    ActionsOfAt(t, cs);
    BooksPartition(t, i);
    var acts := ActionsOf(t, cs);
    forall a, k, j | 0 <= k < |cs| && 0 <= j < |cs| && Reached(t, cs[k], a) && Reached(t, cs[j], a)
      ensures k == j
    {
      assert acts[k] == a && acts[j] == a;
    }
    forall a | a in acts ensures exists k :: 0 <= k < |cs| && Reached(t, cs[k], a) {
      var k :| 0 <= k < |acts| && acts[k] == a;
      assert Reached(t, cs[k], a);
    }
    forall a | exists k :: 0 <= k < |cs| && Reached(t, cs[k], a) ensures a in acts {
      var k :| 0 <= k < |cs| && Reached(t, cs[k], a);
      assert acts[k] == a;
    }
  }

  /** Following a legal action: whichever case applies, the new root is a different node
      holding the position the action leads to, reached by that action. */
  lemma UpdateFollows(sr: Searcher, a: Action, draw: nat -> nat)
    requires Sound(sr) && a in sr.tree[sr.root].state.legals
    ensures var r := Update(sr, a, draw);
      && r.root != sr.root
      && r.tree[r.root].state == Move(sr.tree[sr.root].state, a)
      && r.tree[r.root].parentAction == Some(a)
  {
    var t := sr.tree;
    var v := t[sr.root];
    if a !in v.untried {
      BooksPartition(t, sr.root);
      ChildActions(t, sr.root);
      var k :| 0 <= k < |v.children| && Reached(t, v.children[k], a);
      var r := Update(sr, a, draw);
      assert r.root == v.children[k];
      assert ChildOf(t, sr.root, v.children[k]);
    }
  }

  // -------------------------------------------------------------- has_played

  /** The test `has_played` applies to each stored legal action on the referee's grid: in
      Dodo the step's source is now empty and its target holds the opponent, in Gopher the
      placement's cell holds the opponent. */
  predicate Seen(v: Variant, grid: map<Cell, int>, opponent: int, a: Action)
  {
    if v == DodoGame then a.Step? && At(grid, a.src) == 0 && At(grid, a.dst) == opponent
    else a.Place? && At(grid, a.at) == opponent
  }

  /** What `has_played` answers when no stored action fits. */
  function Sentinel(v: Variant): Action
  {
    if v == DodoGame then Step(Cell(-10, -10), Cell(10, 10)) else Place(Cell(-10, -10))
  }

  /** The loop of `has_played`: the position of the first listed action that fits, or
      the length of the list when none does. */
  function FirstSeen(v: Variant, grid: map<Cell, int>, opponent: int, legals: seq<Action>): (k: nat)
    ensures k <= |legals|
    ensures k < |legals| ==> Seen(v, grid, opponent, legals[k])
    ensures forall j :: 0 <= j < k ==> !Seen(v, grid, opponent, legals[j])
  {
    if |legals| == 0 then 0
    else if Seen(v, grid, opponent, legals[0]) then 0
    else
      var k := FirstSeen(v, grid, opponent, legals[1..]);
      assert forall j :: 1 <= j < k + 1 ==> legals[1..][j - 1] == legals[j];
      k + 1
  }

  /** The answer of the loop: the first action that fits, else the sentinel. */
  function Scan(v: Variant, grid: map<Cell, int>, opponent: int, legals: seq<Action>): (a: Action)
  {
    var k := FirstSeen(v, grid, opponent, legals);
    if k < |legals| then legals[k] else Sentinel(v)
  }

  /** `EngineDodo.has_played` and `EngineGopher.has_played`: the referee's board is read
      into a grid, and the stored legal actions of the first tree's root are scanned. */
  function HasPlayed(ss: seq<Searcher>, board: seq<(Cell, int)>, opponent: int): (a: Action)
    requires |ss| > 0 && ss[0].root < |ss[0].tree|
  {
    var s := ss[0].tree[ss[0].root].state;
    Scan(s.variant, StateToDict(s.topo.size, board), opponent, s.legals)
  }

  /** When the opponent is to move at the root and the referee's grid is the root position
      after one of its legal actions, `has_played` recovers exactly that action: no other
      stored action fits the grid, because only the cells the action touched changed. */
  lemma HasPlayedDetects(ss: seq<Searcher>, board: seq<(Cell, int)>, opponent: int, a0: Action)
    requires |ss| > 0 && Sound(ss[0])
    requires var s := ss[0].tree[ss[0].root].state;
      opponent == s.turn && a0 in s.legals && StateToDict(s.topo.size, board) == Move(s, a0).grid
    ensures HasPlayed(ss, board, opponent) == a0
  {
    var s := ss[0].tree[ss[0].root].state;
    assert Built(s);
    ScanDetects(s, a0);
  }

  lemma ScanDetects(s: State, a0: Action)
    requires Built(s) && a0 in s.legals
    ensures Scan(s.variant, Move(s, a0).grid, s.turn, s.legals) == a0
  {
    var g := Move(s, a0).grid;
    if s.variant == DodoGame {
      DodoSeenOnly(s, a0);
    } else {
      GopherSeenOnly(s, a0);
    }
    ScanUnique(s.variant, g, s.turn, s.legals, a0);
  }

  /** An action that fits and is the only listed one that does is what the scan answers. */
  lemma ScanUnique(v: Variant, grid: map<Cell, int>, opponent: int, legals: seq<Action>, a0: Action)
    requires a0 in legals && Seen(v, grid, opponent, a0)
    requires forall b :: b in legals && Seen(v, grid, opponent, b) ==> b == a0
    ensures Scan(v, grid, opponent, legals) == a0
  {
    var k := FirstSeen(v, grid, opponent, legals);
    var i :| 0 <= i < |legals| && legals[i] == a0;
    assert k <= i;
  }

  /** After a Dodo step only the step itself fits: its source is the one cell the mover
      left and its target the one cell it entered. */
  lemma DodoSeenOnly(s: State, a0: Action)
    requires Built(s) && a0 in s.legals && s.variant == DodoGame
    ensures Seen(s.variant, Move(s, a0).grid, s.turn, a0)
    ensures forall b :: b in s.legals && Seen(s.variant, Move(s, a0).grid, s.turn, b) ==> b == a0
  {
    var p := s.turn;
    assert Dodo.Valid(s) && IsPlayer(p) && s.legals == Dodo.Legals(s, p);
    Dodo.LegalFacts(s, p, a0);
    var g := s.grid[a0.src := 0][a0.dst := p];
    assert Move(s, a0).grid == g;
    forall b | b in s.legals && Seen(DodoGame, g, p, b) ensures b == a0 {
      Dodo.LegalFacts(s, p, b);
      StepTrace(s.grid, a0, b, p);
    }
  }

  /** A step found on the grid after a0 was played, among steps that start on a mover's
      checker and end on an empty cell before, is a0. */
  lemma StepTrace(grid: map<Cell, int>, a0: Action, b: Action, p: int)
    requires p != 0 && a0.Step? && b.Step? && a0.src != a0.dst
    requires At(grid, b.src) == p && At(grid, b.dst) == 0
    requires At(grid[a0.src := 0][a0.dst := p], b.src) == 0
    requires At(grid[a0.src := 0][a0.dst := p], b.dst) == p
    ensures b == a0
  {
  }

  /** After a Gopher placement only the placement fits: its cell is the one cell that
      gained a stone. */
  lemma GopherSeenOnly(s: State, a0: Action)
    requires Built(s) && a0 in s.legals && s.variant == GopherGame
    ensures Seen(s.variant, Move(s, a0).grid, s.turn, a0)
    ensures forall b :: b in s.legals && Seen(s.variant, Move(s, a0).grid, s.turn, b) ==> b == a0
  {
    var p := s.turn;
    assert Gopher.Valid(s) && IsPlayer(p) && s.legals == Gopher.Legals(s, p);
    Gopher.LegalFacts(s, p, a0);
    var g := s.grid[a0.at := p];
    assert Move(s, a0).grid == g;
    forall b | b in s.legals && Seen(GopherGame, g, p, b) ensures b == a0 {
      Gopher.LegalFacts(s, p, b);
      PlaceTrace(s.grid, a0, b, p);
    }
  }

  /** A placement found on the grid after a0 was played, among placements on cells empty
      before, is a0. */
  lemma PlaceTrace(grid: map<Cell, int>, a0: Action, b: Action, p: int)
    requires p != 0 && a0.Place? && b.Place?
    requires At(grid, b.at) == 0 && At(grid[a0.at := p], b.at) == p
    ensures b == a0
  {
  }

  // ------------------------------------------------------------- aggregation

  /** The `root_visits` dictionary, entries in insertion order (the order Python's `dict`
      keeps and `max` scans). */
  type Tally = seq<(Action, int)>

  /** Whether a is a key of the dictionary. */
  predicate HasKey(tally: Tally, a: Action)
  {
    exists k :: 0 <= k < |tally| && tally[k].0 == a
  }

  /** No key is listed twice, as in a dictionary. */
  predicate Distinct(tally: Tally)
  {
    forall i, j :: 0 <= i < j < |tally| ==> tally[i].0 != tally[j].0
  }

  /** `root_visits[a]` of the `defaultdict(int)`: 0 for an absent key. */
  function Get(tally: Tally, a: Action): int
  {
    if |tally| == 0 then 0 else if tally[0].0 == a then tally[0].1 else Get(tally[1..], a)
  }

  /** `root_visits[a] += n`: an existing entry keeps its place, and a key not yet present
      is appended at the end. */
  function Bump(tally: Tally, a: Action, n: int): (r: Tally)
    ensures |tally| <= |r| && forall k :: 0 <= k < |tally| ==> r[k].0 == tally[k].0
    ensures HasKey(tally, a) ==> |r| == |tally|
    ensures !HasKey(tally, a) ==> |r| == |tally| + 1 && r[|tally|].0 == a
  {
    if |tally| == 0 then [(a, n)]
    else if tally[0].0 == a then [(a, tally[0].1 + n)] + tally[1..]
    else
      var r1 := Bump(tally[1..], a, n);
      assert forall k :: 1 <= k < |tally| ==> tally[1..][k - 1] == tally[k];
      assert HasKey(tally, a) ==> HasKey(tally[1..], a);
      assert HasKey(tally[1..], a) ==> HasKey(tally, a);
      [tally[0]] + r1
  }

  /** Bumping adds n to the value under a and nothing elsewhere. */
  lemma {:induction false} BumpGet(tally: Tally, a: Action, n: int)
    ensures forall x :: Get(Bump(tally, a, n), x) == Get(tally, x) + (if x == a then n else 0)
  {
    if |tally| > 0 && tally[0].0 != a {
      BumpGet(tally[1..], a, n);
      assert Bump(tally, a, n)[1..] == Bump(tally[1..], a, n);
    }
  }

  /** Bumping adds a to the keys and keeps them distinct. */
  lemma BumpKeys(tally: Tally, a: Action, n: int)
    ensures forall x :: HasKey(Bump(tally, a, n), x) <==> HasKey(tally, x) || x == a
    ensures Distinct(tally) ==> Distinct(Bump(tally, a, n))
  {
    var r := Bump(tally, a, n);
    forall x ensures HasKey(r, x) <==> HasKey(tally, x) || x == a {
      if HasKey(r, x) {
        var k :| 0 <= k < |r| && r[k].0 == x;
        if k < |tally| {
          assert tally[k].0 == x;
        }
      }
      if HasKey(tally, x) {
        var k :| 0 <= k < |tally| && tally[k].0 == x;
        assert r[k].0 == x;
      }
      if x == a && HasKey(tally, a) {
        var k :| 0 <= k < |tally| && tally[k].0 == a;
        assert r[k].0 == a;
      }
      if x == a && !HasKey(tally, a) {
        assert r[|tally|].0 == a;
      }
    }
  }

  /** The visits of the listed children reached by a. */
  function ChildVisits(t: seq<Node>, cs: seq<nat>, a: Action): int
  {
    if |cs| == 0 then 0
    else (if Reached(t, cs[0], a) then t[cs[0]].n else 0) + ChildVisits(t, cs[1..], a)
  }

  /** Some listed child was reached by a. */
  predicate HasChild(t: seq<Node>, cs: seq<nat>, a: Action)
  {
    exists k :: 0 <= k < |cs| && Reached(t, cs[k], a)
  }

  /** `root_visits[child.parent_action] += child.N` for one child. */
  function AddChild(tally: Tally, t: seq<Node>, c: nat): (r: Tally)
    ensures forall x :: Get(r, x) == Get(tally, x) + (if Reached(t, c, x) then t[c].n else 0)
    ensures forall x :: HasKey(r, x) <==> HasKey(tally, x) || Reached(t, c, x)
    ensures Distinct(tally) ==> Distinct(r)
  {
    if c < |t| && t[c].parentAction.Some? then
      var a := t[c].parentAction.value;
      BumpGet(tally, a, t[c].n);
      BumpKeys(tally, a, t[c].n);
      Bump(tally, a, t[c].n)
    else tally
  }

  /** The inner loop of the aggregation: every listed child adds its visits under its
      action. */
  function AddChildren(tally: Tally, t: seq<Node>, cs: seq<nat>): (r: Tally)
    ensures forall x :: Get(r, x) == Get(tally, x) + ChildVisits(t, cs, x)
    ensures forall x :: HasKey(r, x) <==> HasKey(tally, x) || HasChild(t, cs, x)
    ensures Distinct(tally) ==> Distinct(r)
    decreases |cs|
  {
    if |cs| == 0 then tally
    else
      var r := AddChildren(AddChild(tally, t, cs[0]), t, cs[1..]);
      HasChildCons(t, cs);
      r
  }

  lemma HasChildCons(t: seq<Node>, cs: seq<nat>)
    requires |cs| > 0
    ensures forall x :: HasChild(t, cs, x) <==> Reached(t, cs[0], x) || HasChild(t, cs[1..], x)
  {
    forall x | HasChild(t, cs, x) && !Reached(t, cs[0], x) ensures HasChild(t, cs[1..], x) {
      var k :| 0 <= k < |cs| && Reached(t, cs[k], x);
      assert cs[1..][k - 1] == cs[k];
    }
    forall x | HasChild(t, cs[1..], x) ensures HasChild(t, cs, x) {
      var k :| 0 <= k < |cs[1..]| && Reached(t, cs[1..][k], x);
      assert cs[k + 1] == cs[1..][k];
    }
  }

  /** Every searcher's root is in its arena. */
  predicate Rooted(ss: seq<Searcher>)
  {
    forall k :: 0 <= k < |ss| ==> ss[k].root < |ss[k].tree|
  }

  function RootChildren(sr: Searcher): seq<nat>
    requires sr.root < |sr.tree|
  {
    sr.tree[sr.root].children
  }

  /** The reference total: the visits of the root children reached by a, summed over the
      trees. */
  function RootVisits(ss: seq<Searcher>, a: Action): int
    requires Rooted(ss)
  {
    if |ss| == 0 then 0 else ChildVisits(ss[0].tree, RootChildren(ss[0]), a) + RootVisits(ss[1..], a)
  }

  /** Some tree has a root child reached by a. */
  predicate Explored(ss: seq<Searcher>, a: Action)
    requires Rooted(ss)
  {
    exists k :: 0 <= k < |ss| && HasChild(ss[k].tree, RootChildren(ss[k]), a)
  }

  /** The outer loop of the aggregation, over the trees in order. */
  function Aggregate(tally: Tally, ss: seq<Searcher>): (r: Tally)
    requires Rooted(ss)
    ensures forall x :: Get(r, x) == Get(tally, x) + RootVisits(ss, x)
    ensures forall x :: HasKey(r, x) <==> HasKey(tally, x) || Explored(ss, x)
    ensures Distinct(tally) ==> Distinct(r)
    decreases |ss|
  {
    if |ss| == 0 then tally
    else
      var r := Aggregate(AddChildren(tally, ss[0].tree, RootChildren(ss[0])), ss[1..]);
      ExploredCons(ss);
      r
  }

  lemma ExploredCons(ss: seq<Searcher>)
    requires Rooted(ss) && |ss| > 0
    ensures Rooted(ss[1..])
    ensures forall x :: Explored(ss, x) <==>
      HasChild(ss[0].tree, RootChildren(ss[0]), x) || Explored(ss[1..], x)
  {
    assert forall k :: 1 <= k < |ss| ==> ss[1..][k - 1] == ss[k];
    forall x | Explored(ss, x) && !HasChild(ss[0].tree, RootChildren(ss[0]), x)
      ensures Explored(ss[1..], x)
    {
      var k :| 0 <= k < |ss| && HasChild(ss[k].tree, RootChildren(ss[k]), x);
      assert ss[1..][k - 1] == ss[k];
    }
    forall x | Explored(ss[1..], x) ensures Explored(ss, x) {
      var k :| 0 <= k < |ss[1..]| && HasChild(ss[1..][k].tree, RootChildren(ss[1..][k]), x);
      assert ss[k + 1] == ss[1..][k];
    }
  }

  /** The values of the dictionary, in insertion order. */
  function Values(tally: Tally): (vs: seq<int>)
    ensures |vs| == |tally| && forall k :: 0 <= k < |tally| ==> vs[k] == tally[k].1
  {
    if |tally| == 0 then []
    else
      var vs := Values(tally[..|tally| - 1]);
      assert forall k :: 0 <= k < |tally| - 1 ==> tally[..|tally| - 1][k] == tally[k];
      vs + [tally[|tally| - 1].1]
  }

  /** `max(root_visits, key=root_visits.get)`: the first key in insertion order with the
      largest value. None where the source's `assert len(root_visits) > 0` fails. */
  function Best(tally: Tally): (r: Option<Action>)
    ensures r.None? <==> |tally| == 0
  {
    if |tally| == 0 then None else Some(tally[Argmax(Values(tally))].0)
  }

  /** With distinct keys, `Get` reads an entry's own value. */
  lemma {:induction false} GetAt(tally: Tally, k: nat)
    requires Distinct(tally) && k < |tally|
    ensures Get(tally, tally[k].0) == tally[k].1
  {
    if k > 0 {
      assert tally[0].0 != tally[k].0;
      assert tally[1..][k - 1] == tally[k];
      GetAt(tally[1..], k - 1);
    }
  }

  /** With distinct keys, `Get` reads every entry's own value. */
  lemma GetAll(tally: Tally)
    requires Distinct(tally)
    ensures forall j :: 0 <= j < |tally| ==> Get(tally, tally[j].0) == tally[j].1
  {
    forall j | 0 <= j < |tally| ensures Get(tally, tally[j].0) == tally[j].1 {
      GetAt(tally, j);
    }
  }

  /** On distinct keys the chosen key holds the largest value, and every key before it a
      smaller one. */
  lemma BestIsMost(tally: Tally)
    requires Distinct(tally) && |tally| > 0
    ensures HasKey(tally, Best(tally).value)
    ensures forall j :: 0 <= j < |tally| ==> Get(tally, tally[j].0) <= Get(tally, Best(tally).value)
    ensures forall k :: 0 <= k < |tally| && tally[k].0 == Best(tally).value ==>
      forall j :: 0 <= j < k ==> Get(tally, tally[j].0) < Get(tally, Best(tally).value)
  {
    var vs := Values(tally);
    var k := Argmax(vs);
    GetAll(tally);
    assert forall k' :: 0 <= k' < |tally| && tally[k'].0 == tally[k].0 ==> k' == k;
  }

  /** The aggregation and selection of `return_best_move`, after the searches: the
      visits of the root children of every tree are summed per action, the action with
      the most is chosen, and every tree is advanced on it with `update` (tree k drawing
      from `draws(k)`). None where the source fails its assertion. */
  function ReturnBestMove(ss: seq<Searcher>, draws: nat -> nat -> nat): (r: Option<(Action, seq<Searcher>)>)
    requires Rooted(ss)
    ensures r.Some? ==> |r.value.1| == |ss|
  {
    match Best(Aggregate([], ss))
    case None => None
    case Some(a) => Some((a, Advance(ss, a, draws)))
  }

  /** `update` applied to every tree. */
  function Advance(ss: seq<Searcher>, a: Action, draws: nat -> nat -> nat): (r: seq<Searcher>)
    requires Rooted(ss)
    ensures |r| == |ss| && Rooted(r)
    ensures forall k :: 0 <= k < |ss| ==> r[k] == Update(ss[k], a, draws(k))
  {
    if |ss| == 0 then []
    else
      var r := Advance(ss[..|ss| - 1], a, draws) + [Update(ss[|ss| - 1], a, draws(|ss| - 1))];
      assert forall k :: 0 <= k < |ss| - 1 ==> ss[..|ss| - 1][k] == ss[k];
      r
  }

  /** The choice is sound: the move fails exactly when no tree has a root child reached by
      an action, and otherwise the chosen action has a root child somewhere and at least
      the total visits of every other action. */
  lemma ReturnBestMoveMost(ss: seq<Searcher>, draws: nat -> nat -> nat)
    requires Rooted(ss)
    ensures ReturnBestMove(ss, draws).None? <==> forall x :: !Explored(ss, x)
    ensures ReturnBestMove(ss, draws).Some? ==>
      var a := ReturnBestMove(ss, draws).value.0;
      Explored(ss, a) && forall x :: Explored(ss, x) ==> RootVisits(ss, x) <= RootVisits(ss, a)
  {
    var tally := Aggregate([], ss);
    assert Distinct(tally);
    if |tally| == 0 {
      forall x ensures !Explored(ss, x) {
        assert !HasKey(tally, x);
      }
    } else {
      BestIsMost(tally);
      var a := Best(tally).value;
      forall x | Explored(ss, x) ensures RootVisits(ss, x) <= RootVisits(ss, a) {
        assert HasKey(tally, x);
        var j :| 0 <= j < |tally| && tally[j].0 == x;
      }
    }
  }
}
