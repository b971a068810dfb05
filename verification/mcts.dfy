/** The Monte-Carlo tree search of mcts.py. Nodes live in an arena — a sequence indexed by
    node number — so a node's parent and children are indices into it. Randomness is an
    oracle `draw` from positions to naturals, the UCT choice of `best_child` is an oracle
    `select`, and the class-wide transposition cache is passed in and handed back. */
module Mcts {
  import opened Util
  import opened Base
  import opened GameState
  import Playout

  // ------------------------------------------------------------------ argmax

  /** `argmax`: the first index attaining the maximum (Python's `max` keeps the first of
      equal keys, as does `np.argmax`). */
  function Argmax(xs: seq<int>): (k: nat)
    requires |xs| > 0
    ensures k < |xs|
    ensures forall j :: 0 <= j < |xs| ==> xs[j] <= xs[k]
    ensures forall j :: 0 <= j < k ==> xs[j] < xs[k]
  {
    if |xs| == 1 then 0
    else
      var k' := Argmax(xs[..|xs| - 1]);
      if xs[|xs| - 1] > xs[k'] then |xs| - 1 else k'
  }

  /** The first maximal index is the only index that is maximal with nothing as large
      before it. */
  lemma ArgmaxUnique(xs: seq<int>, k: nat)
    requires k < |xs|
    requires forall j :: 0 <= j < |xs| ==> xs[j] <= xs[k]
    requires forall j :: 0 <= j < k ==> xs[j] < xs[k]
    ensures k == Argmax(xs)
  {
    var m := Argmax(xs);
  }

  // ----------------------------------------------------------------- shuffle

  /** Exchange of two positions. */
  function Swap<T>(xs: seq<T>, i: nat, j: nat): (r: seq<T>)
    requires i < |xs| && j < |xs|
    ensures |r| == |xs| && r[i] == xs[j] && r[j] == xs[i]
    ensures forall k :: 0 <= k < |xs| && k != i && k != j ==> r[k] == xs[k]
    ensures multiset(r) == multiset(xs)
  {
    xs[i := xs[j]][j := xs[i]]
  }

  /** The first n positions of `random.shuffle`'s Fisher-Yates pass, which walks from the
      back: position n - 1 is exchanged with a position at or below it chosen by the
      oracle, then the rest are shuffled. */
  function ShuffleDown<T>(xs: seq<T>, n: nat, draw: nat -> nat): (r: seq<T>)
    requires n <= |xs|
    ensures |r| == |xs| && multiset(r) == multiset(xs)
    decreases n
  {
    if n <= 1 then xs
    else ShuffleDown(Swap(xs, n - 1, draw(n - 1) % n), n - 1, draw)
  }

  /** `random.shuffle`: a permutation of its input. */
  function Shuffle<T>(xs: seq<T>, draw: nat -> nat): (r: seq<T>)
    ensures |r| == |xs| && multiset(r) == multiset(xs)
  {
    ShuffleDown(xs, |xs|, draw)
  }

  /** A permutation of a repeat-free list has the same members and no repeats either. */
  lemma PermutationNoDup<T>(xs: seq<T>, ys: seq<T>)
    requires multiset(xs) == multiset(ys) && NoDup(xs)
    ensures NoDup(ys) && forall y :: y in ys <==> y in xs
  {
    forall y ensures y in ys <==> y in xs {
      assert y in ys <==> y in multiset(ys);
      assert y in xs <==> y in multiset(xs);
    }
    forall i, j | 0 <= i < j < |ys| ensures ys[i] != ys[j] {
      if ys[i] == ys[j] {
        var y := ys[i];
        assert multiset(ys) == multiset(ys[..j]) + multiset(ys[j..]) by {
          assert ys == ys[..j] + ys[j..];
        }
        assert y in ys[..j] && y in ys[j..];
        assert multiset(ys)[y] >= 2;
        CountAtMostOne(xs, y);
      }
    }
  }

  /** A repeat-free list holds every value at most once. */
  lemma {:induction false} CountAtMostOne<T>(xs: seq<T>, y: T)
    requires NoDup(xs)
    ensures multiset(xs)[y] <= 1
  {
    if |xs| > 0 {
      var init := xs[..|xs| - 1];
      assert xs == init + [xs[|xs| - 1]];
      assert NoDup(init);
      CountAtMostOne(init, y);
      if xs[|xs| - 1] == y {
        assert y !in init;
        assert multiset(init)[y] == 0;
      }
    }
  }

  // -------------------------------------------------------------------- nodes

  /** One `MonteCarloTreeSearchNode`. The player, the exploration constant and the
      improved-playout flag are the same for every node of a tree and are passed where
      needed instead. */
  datatype Node = Node(
    state: State,
    parent: Option<nat>,
    parentAction: Option<Action>,
    children: seq<nat>,
    n: int,
    q: int,
    untried: seq<Action>)

  /** `initialize_actions`: a shuffled copy of the state's stored legal list. */
  function InitializeActions(s: State, draw: nat -> nat): (r: seq<Action>)
    ensures multiset(r) == multiset(s.legals)
  {
    Shuffle(s.legals, draw)
  }

  /** The constructor: no children, no visits, every legal action untried. */
  function NewNode(s: State, parent: Option<nat>, action: Option<Action>, draw: nat -> nat): (r: Node)
    ensures r.state == s && r.parent == parent && r.parentAction == action
    ensures r.children == [] && r.n == 0 && r.q == 0
    ensures multiset(r.untried) == multiset(s.legals)
  {
    Node(s, parent, action, [], 0, 0, InitializeActions(s, draw))
  }

  /** `is_fully_expanded`. */
  predicate IsFullyExpanded(v: Node)
  {
    |v.untried| == 0
  }

  /** `is_terminal_node`. */
  predicate IsTerminal(v: Node)
  {
    IsGameOver(v.state)
  }

  // ------------------------------------------------------------ tree invariant

  /** The actions that led to the listed children, in order. */
  function ActionsOf(t: seq<Node>, cs: seq<nat>): (r: seq<Action>)
    ensures |r| <= |cs|
  {
    if |cs| == 0 then []
    else
      var c := cs[|cs| - 1];
      ActionsOf(t, cs[..|cs| - 1]) +
        (if c < |t| && t[c].parentAction.Some? then [t[c].parentAction.value] else [])
  }

  /** c is a genuine child of i: a later node reached from i's state by its action. */
  ghost predicate ChildOf(t: seq<Node>, i: nat, c: nat)
    requires i < |t|
  {
    && i < c < |t|
    && t[c].parentAction.Some?
    && t[c].state == Move(t[i].state, t[c].parentAction.value)
  }

  /** Parents come before their nodes and children after theirs, in the arena. */
  ghost predicate Linked(t: seq<Node>)
  {
    && ParentsBefore(t)
    && (forall i, k :: 0 <= i < |t| && 0 <= k < |t[i].children| ==> ChildOf(t, i, t[i].children[k]))
  }

  /** Every node holds a constructor-built state. */
  ghost predicate StatesBuilt(t: seq<Node>)
  {
    forall i :: 0 <= i < |t| ==> Built(t[i].state)
  }

  /** The untried actions and the children's actions together are the legal list, each
      action once. */
  ghost predicate Books(t: seq<Node>)
  {
    forall i :: 0 <= i < |t| ==> BooksAt(t, i)
  }

  ghost predicate BooksAt(t: seq<Node>, i: nat)
    requires i < |t|
  {
    multiset(t[i].untried) + multiset(ActionsOf(t, t[i].children)) == multiset(t[i].state.legals)
  }

  /** Wins never exceed visits. */
  ghost predicate Scores(t: seq<Node>)
  {
    forall i :: 0 <= i < |t| ==> 0 <= t[i].q <= t[i].n
  }

  ghost predicate Inv(t: seq<Node>)
  {
    Linked(t) && StatesBuilt(t) && Books(t) && Scores(t)
  }

  /** What the bookkeeping means: untried actions and children's actions never overlap,
      and together they are exactly the legal actions. */
  lemma BooksPartition(t: seq<Node>, i: nat)
    requires Inv(t) && i < |t|
    ensures NoDup(t[i].untried) && NoDup(ActionsOf(t, t[i].children))
    ensures forall a :: a in t[i].untried ==> a !in ActionsOf(t, t[i].children)
    ensures forall a :: a in t[i].state.legals <==> a in t[i].untried || a in ActionsOf(t, t[i].children)
  {
    BuiltNoDup(t[i].state);
    assert BooksAt(t, i);
    SplitPermutation(t[i].untried, ActionsOf(t, t[i].children), t[i].state.legals);
  }

  /** Two lists that together are a permutation of a repeat-free list are repeat-free,
      disjoint, and together hold exactly its members. */
  lemma SplitPermutation<T>(u: seq<T>, ca: seq<T>, l: seq<T>)
    requires multiset(u) + multiset(ca) == multiset(l) && NoDup(l)
    ensures NoDup(u) && NoDup(ca)
    ensures forall a :: a in u ==> a !in ca
    ensures forall a :: a in l <==> a in u || a in ca
  {
    assert multiset(u + ca) == multiset(l);
    PermutationNoDup(l, u + ca);
    assert NoDup(u) by {
      forall x, y | 0 <= x < y < |u| ensures u[x] != u[y] {
        assert (u + ca)[x] == u[x] && (u + ca)[y] == u[y];
      }
    }
    assert NoDup(ca) by {
      forall x, y | 0 <= x < y < |ca| ensures ca[x] != ca[y] {
        assert (u + ca)[|u| + x] == ca[x] && (u + ca)[|u| + y] == ca[y];
      }
    }
    forall x, y | 0 <= x < |u| && 0 <= y < |ca| ensures u[x] != ca[y] {
      assert (u + ca)[x] == u[x] && (u + ca)[|u| + y] == ca[y];
    }
    forall a ensures a in l <==> a in u || a in ca {
      assert a in u + ca <==> a in u || a in ca;
    }
  }

  /** A node with nothing left to try and a legal action has a child. */
  lemma ExpandedHasChildren(t: seq<Node>, i: nat)
    requires Inv(t) && i < |t| && IsFullyExpanded(t[i]) && !IsTerminal(t[i])
    ensures |t[i].children| > 0
  {
    var l := t[i].state.legals;
    assert l[0] in multiset(l);
    assert BooksAt(t, i);
    assert l[0] in multiset(ActionsOf(t, t[i].children));
  }

  /** The children's actions depend only on the children's own action fields. */
  lemma {:induction false} ActionsOfFrame(t: seq<Node>, t': seq<Node>, cs: seq<nat>)
    requires forall k :: 0 <= k < |cs| ==> cs[k] < |t| && cs[k] < |t'|
    requires forall k :: 0 <= k < |cs| ==> t'[cs[k]].parentAction == t[cs[k]].parentAction
    ensures ActionsOf(t', cs) == ActionsOf(t, cs)
  {
    if |cs| > 0 {
      ActionsOfFrame(t, t', cs[..|cs| - 1]);
    }
  }

  // ------------------------------------------------------------------ expand

  /** `expand`: the last untried action is popped, and a child on the state it leads to is
      appended to the arena and to the node's children. Returns the grown arena and the
      child's index. */
  function Expand(t: seq<Node>, i: nat, draw: nat -> nat): (r: (seq<Node>, nat))
    requires i < |t| && |t[i].untried| > 0
    ensures |r.0| == |t| + 1 && r.1 == |t|
  {
    var v := t[i];
    var a := v.untried[|v.untried| - 1];
    var child := NewNode(Move(v.state, a), Some(i), Some(a), draw);
    (t[i := v.(untried := v.untried[..|v.untried| - 1], children := v.children + [|t|])] + [child], |t|)
  }

  /** What `expand` does to the tree: the popped action is the last untried one; the child
      is fresh, hangs under the node by that action on the moved state, and comes last in
      the node's children; nothing else changes. */
  lemma ExpandEffect(t: seq<Node>, i: nat, draw: nat -> nat)
    requires i < |t| && |t[i].untried| > 0
    ensures var (t', c) := Expand(t, i, draw);
      var a := t[i].untried[|t[i].untried| - 1];
      && t[i].untried == t'[i].untried + [a]
      && t'[i].children == t[i].children + [c]
      && t'[c].parent == Some(i) && t'[c].parentAction == Some(a)
      && t'[c].state == Move(t[i].state, a)
      && t'[c].n == 0 && t'[c].q == 0 && t'[c].children == []
      && multiset(t'[c].untried) == multiset(t'[c].state.legals)
      && t'[i].state == t[i].state && t'[i].n == t[i].n && t'[i].q == t[i].q
      && t'[i].parent == t[i].parent && t'[i].parentAction == t[i].parentAction
      && (forall j :: 0 <= j < |t| && j != i ==> t'[j] == t[j])
  {
  }

  /** `expand` keeps the tree invariant. */
  lemma ExpandKeepsInv(t: seq<Node>, i: nat, draw: nat -> nat)
    requires Inv(t) && i < |t| && |t[i].untried| > 0
    ensures Inv(Expand(t, i, draw).0)
  {
    var t' := Expand(t, i, draw).0;
    ExpandKeepsLinked(t, i, draw);
    ExpandKeepsBuilt(t, i, draw);
    ExpandKeepsBooks(t, i, draw);
    ExpandKeepsScores(t, i, draw);
    assert Linked(t') && StatesBuilt(t') && Books(t') && Scores(t');
  }

  lemma ExpandKeepsScores(t: seq<Node>, i: nat, draw: nat -> nat)
    requires Scores(t) && i < |t| && |t[i].untried| > 0
    ensures Scores(Expand(t, i, draw).0)
  {
    ExpandEffect(t, i, draw);
  }

  lemma ExpandKeepsLinked(t: seq<Node>, i: nat, draw: nat -> nat)
    requires Linked(t) && i < |t| && |t[i].untried| > 0
    ensures Linked(Expand(t, i, draw).0)
  {
    var t' := Expand(t, i, draw).0;
    ExpandEffect(t, i, draw);
    forall j, k | 0 <= j < |t'| && 0 <= k < |t'[j].children|
      ensures ChildOf(t', j, t'[j].children[k])
    {
      if j != i && j < |t| {
        assert ChildOf(t, j, t[j].children[k]);
      } else if j == i && k < |t[i].children| {
        assert t'[j].children[k] == t[i].children[k];
        assert ChildOf(t, i, t[i].children[k]);
      }
    }
  }

  /** The popped action is a stored legal action of the node. */
  lemma PoppedIsLegal(t: seq<Node>, i: nat)
    requires Books(t) && i < |t| && |t[i].untried| > 0
    ensures t[i].untried[|t[i].untried| - 1] in t[i].state.legals
  {
    var a := t[i].untried[|t[i].untried| - 1];
    assert a in multiset(t[i].untried);
    assert BooksAt(t, i);
    assert a in multiset(t[i].state.legals);
  }

  lemma ExpandKeepsBuilt(t: seq<Node>, i: nat, draw: nat -> nat)
    requires StatesBuilt(t) && Books(t) && i < |t| && |t[i].untried| > 0
    ensures StatesBuilt(Expand(t, i, draw).0)
  {
    var v := t[i];
    var a := v.untried[|v.untried| - 1];
    var t1 := t[i := v.(untried := v.untried[..|v.untried| - 1], children := v.children + [|t|])];
    var child := NewNode(Move(v.state, a), Some(i), Some(a), draw);
    assert Expand(t, i, draw).0 == t1 + [child];
    PoppedIsLegal(t, i);
    MoveKeepsBuilt(v.state, a);
    BuiltUpdate(t, i, t1[i]);
    BuiltSnoc(t1, child);
  }

  /** Replacing a node by one on the same state keeps every state built. */
  lemma BuiltUpdate(t: seq<Node>, i: nat, v: Node)
    requires StatesBuilt(t) && i < |t| && v.state == t[i].state
    ensures StatesBuilt(t[i := v])
  {
    var t' := t[i := v];
    forall j | 0 <= j < |t'| ensures Built(t'[j].state) {
      assert t'[j].state == t[j].state;
    }
  }

  /** Appending a node on a built state keeps every state built. */
  lemma BuiltSnoc(t: seq<Node>, v: Node)
    requires StatesBuilt(t) && Built(v.state)
    ensures StatesBuilt(t + [v])
  {
    forall j | 0 <= j < |t| + 1 ensures Built((t + [v])[j].state) {
      if j < |t| {
        assert (t + [v])[j] == t[j];
      } else {
        assert (t + [v])[j] == v;
      }
    }
  }

  lemma ExpandKeepsBooks(t: seq<Node>, i: nat, draw: nat -> nat)
    requires Linked(t) && Books(t) && i < |t| && |t[i].untried| > 0
    ensures Books(Expand(t, i, draw).0)
  {
    var t' := Expand(t, i, draw).0;
    forall j | 0 <= j < |t'| ensures BooksAt(t', j) {
      if j == |t| {
        ExpandBooksNew(t, i, draw);
      } else {
        assert BooksAt(t, j);
        ExpandBooksOld(t, i, draw, j);
      }
    }
  }

  /** The new child starts with every legal action untried. */
  lemma ExpandBooksNew(t: seq<Node>, i: nat, draw: nat -> nat)
    requires i < |t| && |t[i].untried| > 0
    ensures BooksAt(Expand(t, i, draw).0, |t|)
  {
    var v := t[i];
    var a := v.untried[|v.untried| - 1];
    var child := NewNode(Move(v.state, a), Some(i), Some(a), draw);
    assert Expand(t, i, draw).0[|t|] == child;
  }

  /** An old node keeps its bookkeeping; at the expanded node the popped action moves over
      to the children. */
  lemma ExpandBooksOld(t: seq<Node>, i: nat, draw: nat -> nat, j: nat)
    requires Linked(t) && i < |t| && |t[i].untried| > 0 && j < |t| && BooksAt(t, j)
    ensures BooksAt(Expand(t, i, draw).0, j)
  {
    var v := t[i];
    var a := v.untried[|v.untried| - 1];
    var t1 := t[i := v.(untried := v.untried[..|v.untried| - 1], children := v.children + [|t|])];
    var child := NewNode(Move(v.state, a), Some(i), Some(a), draw);
    var t' := t1 + [child];
    assert Expand(t, i, draw).0 == t';
    ChildrenFrame(t, t', j);
    if j == i {
      ExpandBooksHere(t, t', i, a);
    } else {
      assert t'[j] == t[j];
    }
  }

  /** The actions of a node's children are read the same in an arena that keeps the
      existing nodes' actions. */
  lemma ChildrenFrame(t: seq<Node>, t': seq<Node>, j: nat)
    requires Linked(t) && j < |t| <= |t'|
    requires forall c :: 0 <= c < |t| ==> t'[c].parentAction == t[c].parentAction
    ensures ActionsOf(t', t[j].children) == ActionsOf(t, t[j].children)
  {
    forall k | 0 <= k < |t[j].children| ensures t[j].children[k] < |t| {
      assert ChildOf(t, j, t[j].children[k]);
    }
    ActionsOfFrame(t, t', t[j].children);
  }

  /** At the expanded node the popped action moves from the untried list to the children's
      actions. */
  lemma ExpandBooksHere(t: seq<Node>, t': seq<Node>, i: nat, a: Action)
    requires i < |t| < |t'| && |t[i].untried| > 0 && a == t[i].untried[|t[i].untried| - 1]
    requires t'[i].untried == t[i].untried[..|t[i].untried| - 1]
    requires t'[i].children == t[i].children + [|t|] && t'[|t|].parentAction == Some(a)
    requires ActionsOf(t', t[i].children) == ActionsOf(t, t[i].children)
    ensures multiset(t'[i].untried) + multiset(ActionsOf(t', t'[i].children))
            == multiset(t[i].untried) + multiset(ActionsOf(t, t[i].children))
  {
    ActionsOfSnoc(t', t[i].children, |t|);
    assert t[i].untried == t'[i].untried + [a];
    MultisetShift(t'[i].untried, ActionsOf(t, t[i].children), a);
  }

  /** The actions of one more child are the actions so far and that child's action. */
  lemma ActionsOfSnoc(t: seq<Node>, cs: seq<nat>, c: nat)
    requires c < |t| && t[c].parentAction.Some?
    ensures ActionsOf(t, cs + [c]) == ActionsOf(t, cs) + [t[c].parentAction.value]
  {
    assert (cs + [c])[..|cs|] == cs;
  }

  /** Moving an element from the end of one list to the end of another keeps the union. */
  lemma MultisetShift<T>(u: seq<T>, xs: seq<T>, a: T)
    ensures multiset(u) + multiset(xs + [a]) == multiset(u + [a]) + multiset(xs)
  {
  }

  // ----------------------------------------------------------- backpropagate

  /** Every parent link points to an earlier node, so following links ends. */
  ghost predicate ParentsBefore(t: seq<Node>)
  {
    forall j :: 0 <= j < |t| && t[j].parent.Some? ==> t[j].parent.value < j
  }

  /** The node and its ancestors, nearest first, following parent links. */
  function Ancestors(t: seq<Node>, i: nat): (path: seq<nat>)
    requires i < |t| && ParentsBefore(t)
    ensures |path| > 0 && path[0] == i
    ensures forall k :: 0 <= k < |path| ==> path[k] <= i
    decreases i
  {
    if t[i].parent.Some? then [i] + Ancestors(t, t[i].parent.value) else [i]
  }

  /** `backpropagate(r, v)`: the node gains v visits and r wins, and its parent is
      credited from the other side, `v - r` wins. */
  function Backpropagate(t: seq<Node>, i: nat, reward: int, visits: int): (r: seq<Node>)
    requires i < |t| && ParentsBefore(t)
    ensures |r| == |t|
    ensures forall j :: 0 <= j < |t| ==> r[j] == t[j].(n := r[j].n, q := r[j].q)
    decreases i
  {
    var t1 := Credit(t, i, reward, visits);
    if t[i].parent.Some? then Backpropagate(t1, t[i].parent.value, visits - reward, visits) else t1
  }

  /** One node's share of a backpropagation. */
  function Credit(t: seq<Node>, i: nat, reward: int, visits: int): (r: seq<Node>)
    requires i < |t|
    ensures |r| == |t| && r[i].n == t[i].n + visits && r[i].q == t[i].q + reward
    ensures forall j :: 0 <= j < |t| && j != i ==> r[j] == t[j]
    ensures forall j :: 0 <= j < |t| ==> r[j].parent == t[j].parent
  {
    t[i := t[i].(n := t[i].n + visits, q := t[i].q + reward)]
  }

  /** Crediting a node keeps the parent links, hence the ancestor paths. */
  lemma CreditKeepsAncestors(t: seq<Node>, i: nat, reward: int, visits: int, p: nat)
    requires i < |t| && ParentsBefore(t) && p < |t|
    ensures ParentsBefore(Credit(t, i, reward, visits))
    ensures Ancestors(Credit(t, i, reward, visits), p) == Ancestors(t, p)
  {
    AncestorsFrame(t, Credit(t, i, reward, visits), p);
  }

  /** The k-th node up the ancestor path gains v visits, and r wins when k is even,
      v - r when it is odd. */
  lemma {:induction false} BackpropagateOnPath(t: seq<Node>, i: nat, reward: int, visits: int, k: nat)
    requires i < |t| && ParentsBefore(t) && k < |Ancestors(t, i)|
    ensures var r := Backpropagate(t, i, reward, visits);
      var j := Ancestors(t, i)[k];
      && r[j].n == t[j].n + visits
      && r[j].q == t[j].q + (if Even(k) then reward else visits - reward)
    decreases i
  {
    var t1 := Credit(t, i, reward, visits);
    if t[i].parent.Some? {
      var p := t[i].parent.value;
      CreditKeepsAncestors(t, i, reward, visits, p);
      assert Ancestors(t, i) == [i] + Ancestors(t1, p);
      if k == 0 {
        BackpropagateOffPath(t1, p, visits - reward, visits, i);
      } else {
        var j := Ancestors(t, i)[k];
        assert j == Ancestors(t1, p)[k - 1] && j < i;
        assert t1[j] == t[j];
        BackpropagateOnPath(t1, p, visits - reward, visits, k - 1);
      }
    }
  }

  /** A node off the ancestor path is left alone. */
  lemma {:induction false} BackpropagateOffPath(t: seq<Node>, i: nat, reward: int, visits: int, j: nat)
    requires i < |t| && ParentsBefore(t) && j < |t| && j !in Ancestors(t, i)
    ensures Backpropagate(t, i, reward, visits)[j] == t[j]
    decreases i
  {
    var t1 := Credit(t, i, reward, visits);
    if t[i].parent.Some? {
      var p := t[i].parent.value;
      CreditKeepsAncestors(t, i, reward, visits, p);
      assert Ancestors(t, i) == [i] + Ancestors(t, p);
      BackpropagateOffPath(t1, p, visits - reward, visits, j);
    }
  }

  /** Along the ancestor path, visits grow by v everywhere and wins by r, v - r, r, …
      alternately; every other node is untouched. */
  lemma BackpropagateAlternates(t: seq<Node>, i: nat, reward: int, visits: int)
    requires i < |t| && ParentsBefore(t)
    ensures var r := Backpropagate(t, i, reward, visits);
      var path := Ancestors(t, i);
      && (forall k :: 0 <= k < |path| ==>
            r[path[k]].n == t[path[k]].n + visits &&
            r[path[k]].q == t[path[k]].q + (if Even(k) then reward else visits - reward))
      && (forall j :: 0 <= j < |t| && j !in path ==> r[j] == t[j])
  {
    forall k | 0 <= k < |Ancestors(t, i)| {
      BackpropagateOnPath(t, i, reward, visits, k);
    }
    forall j | 0 <= j < |t| && j !in Ancestors(t, i) {
      BackpropagateOffPath(t, i, reward, visits, j);
    }
  }

  /** The ancestor path reads only the parent links. */
  lemma {:induction false} AncestorsFrame(t: seq<Node>, t': seq<Node>, i: nat)
    requires i < |t| && ParentsBefore(t)
    requires |t'| == |t| && forall j :: 0 <= j < |t| ==> t'[j].parent == t[j].parent
    ensures ParentsBefore(t') && Ancestors(t', i) == Ancestors(t, i)
    decreases i
  {
    if t[i].parent.Some? {
      AncestorsFrame(t, t', t[i].parent.value);
    }
  }

  /** Backpropagation changes only counts, so everything but the scores is kept; with a
      reward between 0 and the visits, the scores are kept too. */
  lemma BackpropagateKeepsInv(t: seq<Node>, i: nat, reward: int, visits: int)
    requires Inv(t) && i < |t| && 0 <= reward <= visits
    ensures Inv(Backpropagate(t, i, reward, visits))
  {
    var r := Backpropagate(t, i, reward, visits);
    var path := Ancestors(t, i);
    ShapeKeepsInv(t, r);
    forall j | 0 <= j < |r| ensures 0 <= r[j].q <= r[j].n {
      if j in path {
        var k :| 0 <= k < |path| && path[k] == j;
        BackpropagateOnPath(t, i, reward, visits, k);
      } else {
        BackpropagateOffPath(t, i, reward, visits, j);
      }
    }
  }

  /** A change of counts alone keeps links, states and bookkeeping. */
  lemma ShapeKeepsInv(t: seq<Node>, r: seq<Node>)
    requires Inv(t) && |r| == |t|
    requires forall j :: 0 <= j < |t| ==> r[j] == t[j].(n := r[j].n, q := r[j].q)
    ensures Linked(r) && StatesBuilt(r) && Books(r)
  {
    assert forall j :: 0 <= j < |t| ==>
      r[j].state == t[j].state && r[j].parent == t[j].parent && r[j].children == t[j].children &&
      r[j].parentAction == t[j].parentAction && r[j].untried == t[j].untried;
    assert Linked(r) by {
      forall j, k | 0 <= j < |r| && 0 <= k < |r[j].children|
        ensures ChildOf(r, j, r[j].children[k])
      {
        assert ChildOf(t, j, t[j].children[k]);
      }
    }
    forall j | 0 <= j < |r| ensures BooksAt(r, j) {
      assert BooksAt(t, j);
      ChildrenFrame(t, r, j);
    }
  }

  // ------------------------------------------------------------ visit counts

  /** Every listed child's parent link points back to the node that lists it. */
  ghost predicate LinkedBack(t: seq<Node>)
  {
    forall i, k :: 0 <= i < |t| && 0 <= k < |t[i].children| ==>
      t[i].children[k] < |t| && t[t[i].children[k]].parent == Some(i)
  }

  /** The visits of the listed children, added up. */
  function VisitTotal(t: seq<Node>, cs: seq<nat>): int
  {
    if |cs| == 0 then 0
    else VisitTotal(t, cs[..|cs| - 1]) + (if cs[|cs| - 1] < |t| then t[cs[|cs| - 1]].n else 0)
  }

  /** Every node has at least as many visits as its children together, each child listed
      once and pointing back to its parent. */
  ghost predicate VisitsCovered(t: seq<Node>)
  {
    && LinkedBack(t)
    && forall i :: 0 <= i < |t| ==> NoDup(t[i].children) && VisitTotal(t, t[i].children) <= t[i].n
  }

  /** When the listed children keep their visits except x, which gains v, the total gains
      v exactly when x is listed. */
  lemma {:induction false} VisitTotalShift(t: seq<Node>, r: seq<Node>, cs: seq<nat>, x: nat, v: int)
    requires NoDup(cs)
    requires forall c :: c in cs ==> c < |t| && c < |r| && r[c].n == t[c].n + (if c == x then v else 0)
    ensures VisitTotal(r, cs) == VisitTotal(t, cs) + (if x in cs then v else 0)
    decreases |cs|
  {
    if |cs| > 0 {
      var init := cs[..|cs| - 1];
      assert forall j :: 0 <= j < |init| ==> init[j] == cs[j];
      assert forall c :: c in init ==> c in cs;
      assert cs == init + [cs[|cs| - 1]];
      VisitTotalShift(t, r, init, x, v);
    }
  }

  /** Going up the ancestor path, the nodes strictly decrease. */
  lemma {:induction false} AncestorsDecrease(t: seq<Node>, i: nat)
    requires i < |t| && ParentsBefore(t)
    ensures forall a, b :: 0 <= a < b < |Ancestors(t, i)| ==> Ancestors(t, i)[b] < Ancestors(t, i)[a]
    decreases i
  {
    if t[i].parent.Some? {
      var p := t[i].parent.value;
      AncestorsDecrease(t, p);
      var path := Ancestors(t, i);
      var up := Ancestors(t, p);
      assert path == [i] + up && p < i;
      assert forall a, b :: 0 <= a < b < |up| ==> up[b] < up[a];
      forall a, b | 0 <= a < b < |path| ensures path[b] < path[a] {
        assert path[b] == up[b - 1];
        if a > 0 {
          assert path[a] == up[a - 1];
        }
      }
    }
  }

  /** On the ancestor path, a node with a parent is followed by that parent. */
  lemma {:induction false} AncestorsNext(t: seq<Node>, i: nat, k: nat)
    requires i < |t| && ParentsBefore(t)
    requires k < |Ancestors(t, i)| && t[Ancestors(t, i)[k]].parent.Some?
    ensures k + 1 < |Ancestors(t, i)|
    ensures Ancestors(t, i)[k + 1] == t[Ancestors(t, i)[k]].parent.value
    decreases i
  {
    if k > 0 {
      assert t[i].parent.Some?;
      AncestorsNext(t, t[i].parent.value, k - 1);
    }
  }

  /** `expand` adds a child with no visits, listed once under its parent and pointing back
      to it, so the visit counts stay covered. */
  lemma ExpandKeepsCovered(t: seq<Node>, i: nat, draw: nat -> nat)
    requires VisitsCovered(t) && i < |t| && |t[i].untried| > 0
    ensures VisitsCovered(Expand(t, i, draw).0)
  {
    var t' := Expand(t, i, draw).0;
    ExpandKeepsLinkedBack(t, i, draw);
    forall j | 0 <= j < |t'| ensures NoDup(t'[j].children) && VisitTotal(t', t'[j].children) <= t'[j].n {
      if j < |t| {
        ExpandCoversAt(t, i, draw, j);
      }
    }
  }

  lemma ExpandKeepsLinkedBack(t: seq<Node>, i: nat, draw: nat -> nat)
    requires LinkedBack(t) && i < |t| && |t[i].untried| > 0
    ensures LinkedBack(Expand(t, i, draw).0)
  {
    var t' := Expand(t, i, draw).0;
    ExpandEffect(t, i, draw);
    forall j, k | 0 <= j < |t'| && 0 <= k < |t'[j].children|
      ensures t'[j].children[k] < |t'| && t'[t'[j].children[k]].parent == Some(j)
    {
      if j < |t| && k < |t[j].children| {
        assert t'[j].children[k] == t[j].children[k];
        var d := t[j].children[k];
        assert d < |t| && t[d].parent == Some(j);
      }
    }
  }

  /** An old node keeps its visits and its children's total; the expanded node's new child
      comes with none. */
  lemma ExpandCoversAt(t: seq<Node>, i: nat, draw: nat -> nat, j: nat)
    requires VisitsCovered(t) && i < |t| && |t[i].untried| > 0 && j < |t|
    ensures var t' := Expand(t, i, draw).0;
      NoDup(t'[j].children) && VisitTotal(t', t'[j].children) <= t'[j].n
  {
    var (t', c) := Expand(t, i, draw);
    ExpandEffect(t, i, draw);
    var cs := t[j].children;
    assert forall d :: d in cs ==> d < |t|;
    VisitTotalShift(t, t', cs, c, 0);
    if j == i {
      var cs' := cs + [c];
      assert t'[i].children == cs' && cs'[..|cs|] == cs;
      assert forall a :: 0 <= a < |cs| ==> cs'[a] == cs[a] && cs[a] < c;
    }
  }

  /** The node just below j on the ancestor path of i, or |t| when j is not on that path
      past its start. */
  ghost function Below(t: seq<Node>, i: nat, j: nat): nat
    requires i < |t| && ParentsBefore(t)
  {
    var path := Ancestors(t, i);
    if exists m :: 0 < m < |path| && path[m] == j then
      var m :| 0 < m < |path| && path[m] == j; path[m - 1]
    else |t|
  }

  /** A child of j lies on the ancestor path of i exactly when it is the node just below j
      there. */
  lemma BelowChild(t: seq<Node>, i: nat, j: nat, c: nat)
    requires i < |t| && ParentsBefore(t) && c < |t| && t[c].parent == Some(j)
    ensures c in Ancestors(t, i) <==> c == Below(t, i, j)
  {
    var path := Ancestors(t, i);
    if c in path {
      var kc :| 0 <= kc < |path| && path[kc] == c;
      AncestorsNext(t, i, kc);
      AncestorsDecrease(t, i);
      var m :| 0 < m < |path| && path[m] == j && Below(t, i, j) == path[m - 1];
      assert m == kc + 1;
    }
  }

  /** For one node: backpropagation adds v visits to the node if it is on the path, and to
      at most one of its children, the one just below it there. */
  lemma BackpropagateCoversAt(t: seq<Node>, i: nat, reward: int, visits: int, j: nat)
    requires ParentsBefore(t) && i < |t| && VisitsCovered(t) && visits >= 0 && j < |t|
    ensures var r := Backpropagate(t, i, reward, visits);
      VisitTotal(r, r[j].children) <= r[j].n
  {
    var r := Backpropagate(t, i, reward, visits);
    var path := Ancestors(t, i);
    BackpropagateAlternates(t, i, reward, visits);
    var cs := t[j].children;
    var x := Below(t, i, j);
    forall c | c in cs
      ensures c < |t| && c < |r| && r[c].n == t[c].n + (if c == x then visits else 0)
    {
      var k :| 0 <= k < |cs| && cs[k] == c;
      assert c < |t| && t[c].parent == Some(j);
      BelowChild(t, i, j, c);
      if c in path {
        var kc :| 0 <= kc < |path| && path[kc] == c;
      }
    }
    VisitTotalShift(t, r, cs, x, visits);
    if j in path {
      var kj :| 0 <= kj < |path| && path[kj] == j;
    } else {
      assert x !in cs;
    }
  }

  /** Backpropagation adds the same visits to a node and all its ancestors, so every node
      keeps at least as many visits as its children together. */
  lemma BackpropagateKeepsCovered(t: seq<Node>, i: nat, reward: int, visits: int)
    requires ParentsBefore(t) && i < |t| && VisitsCovered(t) && visits >= 0
    ensures VisitsCovered(Backpropagate(t, i, reward, visits))
  {
    var r := Backpropagate(t, i, reward, visits);
    assert forall j :: 0 <= j < |t| ==> r[j].children == t[j].children && r[j].parent == t[j].parent;
    forall j | 0 <= j < |r| ensures VisitTotal(r, r[j].children) <= r[j].n {
      BackpropagateCoversAt(t, i, reward, visits, j);
    }
  }

  // ----------------------------------------------------------------- rollout

  /** A transposition-cache entry `[nb_visits, nb_victories]`. */
  datatype Entry = Entry(visits: int, wins: int)

  type Cache = map<nat, Entry>

  /** Every entry has between 0 and `visits` wins. */
  ghost predicate CacheOk(cache: Cache)
  {
    forall h :: h in cache ==> 0 <= cache[h].wins <= cache[h].visits
  }

  /** The cache half of `rollout`: the entry for h gains one visit and the reward, or is
      created as one visit with the reward. The totals returned are those of the updated
      entry; no other entry changes. */
  function CacheUpdate(cache: Cache, h: nat, reward: int): (r: (Cache, int, int))
    ensures h in r.0 && r.0.Keys == cache.Keys + {h}
    ensures r.1 == r.0[h].wins && r.2 == r.0[h].visits
    ensures forall g :: g in cache && g != h ==> r.0[g] == cache[g]
  {
    if h in cache then
      var e := cache[h];
      (cache[h := Entry(e.visits + 1, e.wins + reward)], reward + e.wins, 1 + e.visits)
    else
      (cache[h := Entry(1, reward)], reward, 1)
  }

  /** The entry gains exactly one visit and the reward, against the entry before (or an
      empty one), and a reward of 0 or 1 keeps every entry sound and the returned wins
      within the returned visits. */
  lemma CacheUpdateSound(cache: Cache, h: nat, reward: int)
    requires CacheOk(cache) && 0 <= reward <= 1
    ensures var (c', wins, visits) := CacheUpdate(cache, h, reward);
      var old_ := if h in cache then cache[h] else Entry(0, 0);
      && CacheOk(c')
      && visits == old_.visits + 1 && wins == old_.wins + reward
      && 0 <= wins <= visits && 1 <= visits
  {
  }

  /** `rollout`: a playout from the node's state; the reward is 1 exactly when the winner
      is not the side to move there (the node is credited to the side that moved into it),
      and it is merged with the cache entry of the state's hash. The length is that of a
      whole playout `moves` from the state. */
  method Rollout(s: State, improved: bool, draw: nat -> nat, cache: Cache)
    returns (wins: int, visits: int, length: nat, cache': Cache, ghost winner: int,
             ghost moves: seq<Action>)
    requires Valid(s) && CacheOk(cache)
    ensures IsPlayer(winner)
    ensures |moves| == length && Playout.PlayedOut(s, improved, moves)
    ensures winner == (if s.variant == DodoGame then Playout.Mover(s, length)
                       else Playout.Mover(s, length + 1))
    ensures var before := if s.hash in cache then cache[s.hash] else Entry(0, 0);
      && visits == before.visits + 1
      && wins == before.wins + (if winner != s.turn then 1 else 0)
    ensures CacheOk(cache') && cache'.Keys == cache.Keys + {s.hash}
    ensures cache'[s.hash] == Entry(visits, wins)
    ensures forall g :: g in cache && g != s.hash ==> cache'[g] == cache[g]
    ensures 0 <= wins <= visits
  {
    var w, restored;
    w, length, restored, moves := Playout.Simulate(s, improved, draw);
    winner := w;
    var reward := if w != s.turn then 1 else 0;
    CacheUpdateSound(cache, s.hash, reward);
    var r := CacheUpdate(cache, s.hash, reward);
    cache', wins, visits := r.0, r.1, r.2;
  }

  // ------------------------------------------------------------- selection

  /** The visit counts of the listed children. */
  function Visits(t: seq<Node>, cs: seq<nat>): (ns: seq<int>)
    ensures |ns| == |cs|
    ensures forall k :: 0 <= k < |cs| && cs[k] < |t| ==> ns[k] == t[cs[k]].n
  {
    seq(|cs|, k requires 0 <= k < |cs| => if cs[k] < |t| then t[cs[k]].n else 0)
  }

  /** `best_final_child`: the first most visited child. */
  function BestFinalChild(t: seq<Node>, i: nat): (c: nat)
    requires i < |t| && |t[i].children| > 0
    requires forall k :: 0 <= k < |t[i].children| ==> t[i].children[k] < |t|
    ensures c in t[i].children
    ensures forall d :: d in t[i].children ==> t[d].n <= t[c].n
  {
    var cs := t[i].children;
    var k := Argmax(Visits(t, cs));
    assert forall d :: d in cs ==> exists j :: 0 <= j < |cs| && cs[j] == d && Visits(t, cs)[j] == t[d].n;
    cs[k]
  }

  /** The index of the chosen child is the first among the children with that many visits. */
  lemma BestFinalChildFirst(t: seq<Node>, i: nat)
    requires i < |t| && |t[i].children| > 0
    requires forall k :: 0 <= k < |t[i].children| ==> t[i].children[k] < |t|
    ensures var cs := t[i].children; var k := Argmax(Visits(t, cs));
      && BestFinalChild(t, i) == cs[k]
      && forall j :: 0 <= j < k ==> t[cs[j]].n < t[cs[k]].n
  {
  }

  /** `x > e` for a visit count against a float that may be minus infinity. */
  predicate Above(x: int, e: Ext)
  {
    e == NegInf || (e.Fin? && x > e.v)
  }

  function Smaller(x: int, y: int): int
  {
    if x < y then x else y
  }

  /** After the first i counts: `first` is the largest, held at position jf; `second` is
      held at another position js, and no two distinct positions both exceed it. */
  ghost predicate TopTwo(ns: seq<int>, i: nat, first: Ext, second: Ext, jf: nat, js: nat)
  {
    && i <= |ns|
    && (i == 0 ==> first == NegInf)
    && (i > 0 ==> jf < i && first == Fin(ns[jf]))
    && (forall j :: 0 <= j < i ==> Le(Fin(ns[j]), first))
    && (i <= 1 ==> second == NegInf)
    && (i >= 2 ==> js < i && js != jf && second == Fin(ns[js]))
    && Le(second, first)
    && (forall j, k :: 0 <= j < i && 0 <= k < i && j != k ==> Le(Fin(Smaller(ns[j], ns[k])), second))
  }

  /** A count above the largest so far becomes the largest, the old largest the second. */
  lemma TopTwoNewFirst(ns: seq<int>, i: nat, first: Ext, second: Ext, jf: nat, js: nat)
    requires TopTwo(ns, i, first, second, jf, js) && i < |ns| && Above(ns[i], first)
    ensures TopTwo(ns, i + 1, Fin(ns[i]), first, i, jf)
  {
    forall j, k | 0 <= j < i + 1 && 0 <= k < i + 1 && j != k
      ensures Le(Fin(Smaller(ns[j], ns[k])), first)
    {
      if j < i {
        assert Le(Fin(ns[j]), first);
      } else {
        assert Le(Fin(ns[k]), first);
      }
    }
  }

  /** A count above the second but not the largest becomes the second. */
  lemma TopTwoNewSecond(ns: seq<int>, i: nat, first: Ext, second: Ext, jf: nat, js: nat)
    requires TopTwo(ns, i, first, second, jf, js) && i < |ns|
    requires !Above(ns[i], first) && Above(ns[i], second)
    ensures TopTwo(ns, i + 1, first, Fin(ns[i]), jf, i)
  {
    forall j, k | 0 <= j < i + 1 && 0 <= k < i + 1 && j != k
      ensures Le(Fin(Smaller(ns[j], ns[k])), Fin(ns[i]))
    {
      if j < i && k < i {
        assert Le(Fin(Smaller(ns[j], ns[k])), second);
      }
    }
  }

  /** A count above neither changes nothing. */
  lemma TopTwoKeep(ns: seq<int>, i: nat, first: Ext, second: Ext, jf: nat, js: nat)
    requires TopTwo(ns, i, first, second, jf, js) && i < |ns|
    requires !Above(ns[i], first) && !Above(ns[i], second)
    ensures TopTwo(ns, i + 1, first, second, jf, js)
  {
    forall j, k | 0 <= j < i + 1 && 0 <= k < i + 1 && j != k
      ensures Le(Fin(Smaller(ns[j], ns[k])), second)
    {
      if j < i && k < i {
        assert Le(Fin(Smaller(ns[j], ns[k])), second);
      }
    }
  }

  /** `get_two_most_visited` over a list of visit counts: the largest and the second
      largest, counting repeats, with minus infinity for what is missing. */
  method TwoMostVisited(ns: seq<int>) returns (first: Ext, second: Ext)
    ensures |ns| == 0 ==> first == NegInf
    ensures |ns| > 0 ==> first == Fin(MaxOf(ns))
    ensures |ns| <= 1 ==> second == NegInf
    ensures Le(second, first)
    ensures |ns| >= 2 ==> exists j, k :: 0 <= j < |ns| && 0 <= k < |ns| && j != k &&
                                        Fin(ns[j]) == first && Fin(ns[k]) == second
    ensures forall j, k :: 0 <= j < |ns| && 0 <= k < |ns| && j != k ==>
              Le(Fin(Smaller(ns[j], ns[k])), second)
  {
    first, second := NegInf, NegInf;
    ghost var jf: nat, js: nat := 0, 0;
    for i := 0 to |ns|
      invariant TopTwo(ns, i, first, second, jf, js)
    {
      if Above(ns[i], first) {
        TopTwoNewFirst(ns, i, first, second, jf, js);
        second, js := first, jf;
        first, jf := Fin(ns[i]), i;
      } else if Above(ns[i], second) {
        TopTwoNewSecond(ns, i, first, second, jf, js);
        second, js := Fin(ns[i]), i;
      } else {
        TopTwoKeep(ns, i, first, second, jf, js);
      }
    }
    if |ns| > 0 {
      var m := MaxOf(ns);
      var im :| 0 <= im < |ns| && ns[im] == m;
      assert Le(Fin(ns[im]), first);
    }
  }

  // ------------------------------------------------------------- tree policy

  /** A walk down from `root` through children links, every node but the last fully
      expanded and not terminal: the nodes `_tree_policy` passes through. */
  ghost predicate PolicyPath(t: seq<Node>, root: nat, path: seq<nat>)
  {
    && |path| > 0 && path[0] == root
    && (forall k :: 0 <= k < |path| ==> path[k] < |t|)
    && (forall k :: 0 < k < |path| ==> path[k] in t[path[k - 1]].children)
    && (forall k :: 0 <= k < |path| - 1 ==> IsFullyExpanded(t[path[k]]) && !IsTerminal(t[path[k]]))
  }

  /** Descending from the last node of a policy path, when it is fully expanded and not
      terminal, to one of its children extends the path to a later node. */
  lemma PolicyPathStep(t: seq<Node>, root: nat, path: seq<nat>, next: nat)
    requires Linked(t) && PolicyPath(t, root, path)
    requires var last := path[|path| - 1]; IsFullyExpanded(t[last]) && !IsTerminal(t[last])
    requires next in t[path[|path| - 1]].children
    ensures PolicyPath(t, root, path + [next]) && path[|path| - 1] < next < |t|
  {
    var last := path[|path| - 1];
    var k :| 0 <= k < |t[last].children| && t[last].children[k] == next;
    assert ChildOf(t, last, next);
    var p' := path + [next];
    forall k | 0 <= k < |p'| ensures p'[k] < |t| {
      if k < |path| {
        assert p'[k] == path[k];
      }
    }
    forall k | 0 < k < |p'| ensures p'[k] in t[p'[k - 1]].children {
      if k < |path| {
        assert p'[k] == path[k] && p'[k - 1] == path[k - 1];
      }
    }
    forall k | 0 <= k < |p'| - 1 ensures IsFullyExpanded(t[p'[k]]) && !IsTerminal(t[p'[k]]) {
      assert p'[k] == path[k];
    }
  }

  /** `_tree_policy`: from the root, descend through fully expanded, non-terminal nodes by
      the UCT choice (`select` picks a child position); expand the first node that still has
      untried actions, or stop at a terminal node. Returns the arena and the node to roll out
      from. */
  method TreePolicy(t: seq<Node>, root: nat, select: (seq<Node>, nat) -> nat, draw: nat -> nat)
    returns (t': seq<Node>, v: nat, ghost path: seq<nat>)
    requires Inv(t) && root < |t|
    ensures Inv(t') && v < |t'|
    ensures PolicyPath(t, root, path)
    ensures var last := path[|path| - 1];
      || (&& !IsTerminal(t[last]) && !IsFullyExpanded(t[last])
          && t' == Expand(t, last, draw).0 && v == |t| && t'[v].parent == Some(last))
      || (IsTerminal(t[last]) && t' == t && v == last)
  {
    var cur := root;
    path := [root];
    while !IsTerminal(t[cur])
      invariant cur < |t| && PolicyPath(t, root, path) && path[|path| - 1] == cur
      decreases |t| - cur
    {
      if !IsFullyExpanded(t[cur]) {
        ExpandKeepsInv(t, cur, draw);
        ExpandEffect(t, cur, draw);
        t', v := Expand(t, cur, draw).0, |t|;
        return;
      }
      ExpandedHasChildren(t, cur);
      var cs := t[cur].children;
      var next := cs[select(t, cur) % |cs|];
      PolicyPathStep(t, root, path, next);
      path := path + [next];
      cur := next;
    }
    t', v := t, cur;
  }

  // ------------------------------------------------------- perform_iterations

  /** The mean game length `perform_iterations` reports: the truncated mean, but never
      below 4. */
  function MeanLength(total: nat, count: nat): (m: int)
    requires count >= 1
    ensures m >= 4 && m >= total / count
    ensures m == 4 || m == total / count
  {
    if total / count > 4 then total / count else 4
  }

  /** The arena may only grow, and the nodes already in it keep their states. */
  ghost predicate StatesKept(t: seq<Node>, t': seq<Node>)
  {
    |t| <= |t'| && forall j :: 0 <= j < |t| ==> t'[j].state == t[j].state
  }

  lemma ExpandKeepsStates(t: seq<Node>, i: nat, draw: nat -> nat)
    requires i < |t| && |t[i].untried| > 0
    ensures StatesKept(t, Expand(t, i, draw).0)
  {
    ExpandEffect(t, i, draw);
  }

  lemma BackpropagateKeepsStates(t: seq<Node>, i: nat, reward: int, visits: int)
    requires i < |t| && ParentsBefore(t)
    ensures StatesKept(t, Backpropagate(t, i, reward, visits))
  {
  }

  /** One iteration: tree policy, rollout, backpropagation. The tree policy reads the even
      positions of `draw` and the playout the odd ones, so the two draw independently, as
      successive values of one random stream do. `rolled` is the node the playout `moves`
      started from, and their number is the length returned. The states already in the
      arena are kept. */
  method Iterate(t: seq<Node>, root: nat, cache: Cache, improved: bool,
                 select: (seq<Node>, nat) -> nat, draw: nat -> nat)
    returns (t': seq<Node>, cache': Cache, length: nat, ghost rolled: nat, ghost moves: seq<Action>)
    requires Inv(t) && root < |t| && CacheOk(cache)
    ensures Inv(t') && CacheOk(cache') && |t| <= |t'| <= |t| + 1
    ensures VisitsCovered(t) ==> VisitsCovered(t')
    ensures StatesKept(t, t')
    ensures rolled < |t'| && |moves| == length && Playout.PlayedOut(t'[rolled].state, improved, moves)
  {
    var treeDraw := (k: nat) => draw(2 * k);
    var playDraw := (k: nat) => draw(2 * k + 1);
    var t1, v, path := TreePolicy(t, root, select, treeDraw);
    assert Built(t1[v].state);
    var wins, visits;
    ghost var winner;
    wins, visits, length, cache', winner, moves := Rollout(t1[v].state, improved, playDraw, cache);
    BackpropagateKeepsInv(t1, v, wins, visits);
    BackpropagateKeepsStates(t1, v, wins, visits);
    ghost var last := path[|path| - 1];
    if t1 != t {
      ExpandKeepsStates(t, last, treeDraw);
    }
    if VisitsCovered(t) {
      if t1 != t {
        ExpandKeepsCovered(t, last, treeDraw);
      }
      BackpropagateKeepsCovered(t1, v, wins, visits);
    }
    t' := Backpropagate(t1, v, wins, visits);
    rolled := v;
  }


  /** The k-th game length is the number of half-moves of `games[k]`, a whole playout from
      `starts[k]`: the record without its last game satisfies this, and the last game is
      such a playout. */
  ghost predicate Playouts(improved: bool, lengths: seq<nat>, starts: seq<State>, games: seq<seq<Action>>)
    decreases |lengths|
  {
    && |starts| == |games| == |lengths|
    && (|lengths| == 0 ||
        var n := |lengths| - 1;
        && Playouts(improved, lengths[..n], starts[..n], games[..n])
        && |games[n]| == lengths[n] && Playout.PlayedOut(starts[n], improved, games[n]))
  }

  /** One more playout extends the record. */
  lemma PlayoutsSnoc(improved: bool, lengths: seq<nat>, starts: seq<State>, games: seq<seq<Action>>,
                     length: nat, start: State, moves: seq<Action>)
    requires Playouts(improved, lengths, starts, games)
    requires |moves| == length && Playout.PlayedOut(start, improved, moves)
    ensures Playouts(improved, lengths + [length], starts + [start], games + [moves])
  {
    assert (lengths + [length])[..|lengths|] == lengths;
    assert (starts + [start])[..|lengths|] == starts;
    assert (games + [moves])[..|lengths|] == games;
  }

  /** Node `rolled[k]` of the arena holds the state `starts[k]`. */
  ghost predicate RolledFrom(t: seq<Node>, rolled: seq<nat>, starts: seq<State>)
  {
    |rolled| == |starts| && forall k :: 0 <= k < |rolled| ==> rolled[k] < |t| && t[rolled[k]].state == starts[k]
  }

  /** The nodes rolled out from keep their states while the arena keeps its states, and one
      more node extends the record. */
  lemma RolledFromSnoc(t: seq<Node>, t': seq<Node>, rolled: seq<nat>, starts: seq<State>, from: nat)
    requires RolledFrom(t, rolled, starts) && StatesKept(t, t') && from < |t'|
    ensures RolledFrom(t', rolled + [from], starts + [t'[from].state])
  {
    var r', s' := rolled + [from], starts + [t'[from].state];
    forall k | 0 <= k < |r'| ensures r'[k] < |t'| && t'[r'[k]].state == s'[k] {
      if k < |rolled| {
        assert r'[k] == rolled[k] && s'[k] == starts[k];
        assert t'[rolled[k]].state == t[rolled[k]].state;
      }
    }
  }

  /** The game lengths added up. */
  function Total(xs: seq<nat>): nat
  {
    if |xs| == 0 then 0 else Total(xs[..|xs| - 1]) + xs[|xs| - 1]
  }

  /** Appending a length adds it to the total. */
  lemma TotalSnoc(xs: seq<nat>, x: nat)
    ensures Total(xs + [x]) == Total(xs) + x
  {
    assert (xs + [x])[..|xs|] == xs;
  }

  /** The loop of `perform_iterations`, with the wall clock replaced by an iteration budget
      and the every-200-simulations early stop by an oracle `stop`. Iteration k draws its
      randomness from `draws(k)`. The tree and the cache stay sound, the tree only grows,
      and a tree whose nodes cover their children's visits still does. `lengths` are the
      game lengths of the iterations run, at most the budget and all of it unless `stop`
      fired; the k-th is the number of half-moves of the playout `games[k]` from
      `starts[k]`, the state of node `rolled[k]`. The counters are their total and one more
      than their number. */
  method RunIterations(t: seq<Node>, root: nat, cache: Cache, improved: bool, budget: nat,
                       stop: nat -> bool, select: (seq<Node>, nat) -> nat,
                       draws: nat -> nat -> nat)
    returns (t': seq<Node>, cache': Cache, lengthCount: nat, simulationCount: nat,
             ghost lengths: seq<nat>, ghost rolled: seq<nat>, ghost starts: seq<State>,
             ghost games: seq<seq<Action>>)
    requires Inv(t) && root < |t| && CacheOk(cache)
    ensures Inv(t') && CacheOk(cache') && |t| <= |t'|
    ensures VisitsCovered(t) ==> VisitsCovered(t')
    ensures |lengths| <= budget
    ensures |lengths| < budget ==> (|lengths| + 1) % 200 == 0 && stop(|lengths| + 1)
    ensures Playouts(improved, lengths, starts, games) && RolledFrom(t', rolled, starts)
    ensures lengthCount == Total(lengths) && simulationCount == |lengths| + 1
  {
    t', cache' := t, cache;
    lengths, rolled, starts, games := [], [], [], [];
    lengthCount, simulationCount := 0, 1;
    var k := 0;
    var stopped := false;
    while k < budget && !stopped
      invariant Inv(t') && CacheOk(cache') && StatesKept(t, t') && root < |t'|
      invariant VisitsCovered(t) ==> VisitsCovered(t')
      invariant k == |lengths| <= budget && simulationCount == k + 1
      invariant lengthCount == Total(lengths)
      invariant Playouts(improved, lengths, starts, games) && RolledFrom(t', rolled, starts)
      invariant stopped ==> simulationCount % 200 == 0 && stop(simulationCount)
    {
      var length;
      ghost var from, moves;
      ghost var before := t';
      t', cache', length, from, moves := Iterate(t', root, cache', improved, select, draws(k));
      TotalSnoc(lengths, length);
      PlayoutsSnoc(improved, lengths, starts, games, length, t'[from].state, moves);
      RolledFromSnoc(before, t', rolled, starts, from);
      lengths, rolled, starts, games :=
        lengths + [length], rolled + [from], starts + [t'[from].state], games + [moves];
      lengthCount := lengthCount + length;
      simulationCount := simulationCount + 1;
      k := k + 1;
      stopped := simulationCount % 200 == 0 && stop(simulationCount);
    }
  }

  /** `perform_iterations`: the loop, then the mean game length, the total of the lengths
      over one more than their number (the simulation counter starts at 1), and at least 4.
      The tree, cache, coverage and playout facts are those of the loop. */
  method PerformIterations(t: seq<Node>, root: nat, cache: Cache, improved: bool, budget: nat,
                           stop: nat -> bool, select: (seq<Node>, nat) -> nat,
                           draws: nat -> nat -> nat)
    returns (t': seq<Node>, cache': Cache, mean: int, ghost lengths: seq<nat>,
             ghost rolled: seq<nat>, ghost starts: seq<State>, ghost games: seq<seq<Action>>)
    requires Inv(t) && root < |t| && CacheOk(cache)
    ensures Inv(t') && CacheOk(cache') && |t| <= |t'|
    ensures VisitsCovered(t) ==> VisitsCovered(t')
    ensures |lengths| <= budget
    ensures |lengths| < budget ==> (|lengths| + 1) % 200 == 0 && stop(|lengths| + 1)
    ensures Playouts(improved, lengths, starts, games) && RolledFrom(t', rolled, starts)
    ensures mean == MeanLength(Total(lengths), |lengths| + 1) && mean >= 4
  {
    var lengthCount, simulationCount;
    t', cache', lengthCount, simulationCount, lengths, rolled, starts, games :=
      RunIterations(t, root, cache, improved, budget, stop, select, draws);
    mean := MeanLength(lengthCount, simulationCount);
  }
}
