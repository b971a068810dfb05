/** Board topology for one match (board_utils.py): the hexagon of cells, the
    per-perspective neighbour tables, the Zobrist keys, the start hash and the
    conversion of the referee's list of (cell, player) pairs into a grid. */
module Board {
  import opened Util
  import opened Hex
  import opened Bits

  /** Occupant tags of `types_constants.py`: 0 is an empty cell. */
  const R: int := 1
  const B: int := 2

  /** Red's perspective uses directions 1, 2, 3; blue's uses 0, 4, 5. */
  const RedDirs: seq<int> := [1, 2, 3]
  const BlueDirs: seq<int> := [0, 4, 5]
  const AllDirs: seq<int> := [0, 1, 2, 3, 4, 5]

  /** The Zobrist key pair of one cell: one key for red, one for blue. */
  datatype ZKey = ZKey(r: nat, b: nat)

  // ---------------------------------------------------------------- cells

  /** Membership in the hexagon of side `size`, stated by its three bounds. */
  predicate OnBoard(size: int, c: Cell)
  {
    var n := size - 1;
    -n <= c.q <= n && -n <= c.r <= n && -n <= c.q - c.r <= n
  }

  function BoardCells(size: int): set<Cell>
  {
    set q, r | -(size - 1) <= q <= size - 1 && -(size - 1) <= r <= size - 1
                && -(size - 1) <= q - r <= size - 1 :: Cell(q, r)
  }

  lemma BoardCellsIsOnBoard(size: int, c: Cell)
    ensures c in BoardCells(size) <==> OnBoard(size, c)
  {
    if OnBoard(size, c) {
      assert c == Cell(c.q, c.r);
    }
  }

  function Lo(n: int, r: int): int { if -n > r - n then -n else r - n }
  function Hi(n: int, r: int): int { if n < r + n then n else r + n }

  /** The cells (q1, r) .. (q2, r) of one row, in increasing q. */
  function Row(r: int, q1: int, q2: int): (s: seq<Cell>)
    decreases q2 - q1 + 1
    ensures |s| == if q2 < q1 then 0 else q2 - q1 + 1
  {
    if q2 < q1 then [] else Row(r, q1, q2 - 1) + [Cell(q2, r)]
  }

  lemma {:induction false} RowMembers(r: int, q1: int, q2: int, c: Cell)
    ensures c in Row(r, q1, q2) <==> c.r == r && q1 <= c.q <= q2
    decreases q2 - q1 + 1
  {
    if q2 >= q1 {
      RowMembers(r, q1, q2 - 1, c);
    }
  }

  /** Rows n, n - 1, ..., r of the hexagon, in the order `generate_cells` visits them. */
  function Rows(n: int, r: int): (s: seq<Cell>)
    decreases n - r + 1
  {
    if r > n then [] else Rows(n, r + 1) + Row(r, Lo(n, r), Hi(n, r))
  }

  lemma {:induction false} RowsMembers(n: int, r: int, c: Cell)
    ensures c in Rows(n, r) <==> r <= c.r <= n && Lo(n, c.r) <= c.q <= Hi(n, c.r)
    decreases n - r + 1
  {
    if r <= n {
      RowsMembers(n, r + 1, c);
      RowMembers(r, Lo(n, r), Hi(n, r), c);
    }
  }

  /** The board's cells in enumeration order. */
  function Enumerate(size: int): seq<Cell>
  {
    Rows(size - 1, -(size - 1))
  }

  lemma EnumerateMembers(size: int, c: Cell)
    ensures c in Enumerate(size) <==> OnBoard(size, c)
  {
    RowsMembers(size - 1, -(size - 1), c);
  }

  lemma {:induction false} RowNoDup(r: int, q1: int, q2: int)
    ensures NoDup(Row(r, q1, q2))
    decreases q2 - q1 + 1
  {
    if q2 >= q1 {
      RowNoDup(r, q1, q2 - 1);
      RowMembers(r, q1, q2 - 1, Cell(q2, r));
    }
  }

  lemma {:induction false} RowsNoDup(n: int, r: int)
    ensures NoDup(Rows(n, r))
    decreases n - r + 1
  {
    if r <= n {
      RowsNoDup(n, r + 1);
      RowNoDup(r, Lo(n, r), Hi(n, r));
      var a, b := Rows(n, r + 1), Row(r, Lo(n, r), Hi(n, r));
      forall i, j | 0 <= i < j < |a + b|
        ensures (a + b)[i] != (a + b)[j]
      {
        if i < |a| && j >= |a| {
          RowsMembers(n, r + 1, (a + b)[i]);
          RowMembers(r, Lo(n, r), Hi(n, r), (a + b)[j]);
          assert (a + b)[i] in a && (a + b)[j] in b;
        }
      }
    }
  }

  /** The width of row r: 2n - r + 1 cells for 0 <= r, 2n + r + 1 for r < 0. */
  lemma RowWidth(n: int, r: int)
    requires 0 <= n && -n <= r <= n
    ensures |Row(r, Lo(n, r), Hi(n, r))| == if r >= 0 then 2 * n - r + 1 else 2 * n + r + 1
  {
  }

  lemma UpperStep(n: int, m: int)
    ensures 2 * (m + 1) * (n + 1) + (m + 1) * m == 2 * m * (n + 1) + m * (m - 1) + 2 * (n + m + 1)
  {
  }

  lemma LowerStep(n: int, k: int)
    ensures 2 * k * (2 * n + 1) - k * (k + 1) == 2 * (k - 1) * (2 * n + 1) - (k - 1) * k + 2 * (2 * n + 1 - k)
  {
  }

  lemma TotalIdentity(n: int)
    ensures 2 * (n + 1) * (n + 1) + (n + 1) * n + 2 * n * (2 * n + 1) - n * (n + 1) == 2 * (3 * n * n + 3 * n + 1)
  {
  }

  lemma {:induction false} RowsLenUpper(n: int, r: int)
    requires 0 <= r <= n + 1
    ensures 2 * |Rows(n, r)| == 2 * (n - r + 1) * (n + 1) + (n - r + 1) * (n - r)
    decreases n - r + 1
  {
    if r <= n {
      RowsLenUpper(n, r + 1);
      RowWidth(n, r);
      assert |Rows(n, r)| == |Rows(n, r + 1)| + (2 * n - r + 1);
      UpperStep(n, n - r);
    }
  }

  lemma {:induction false} RowsLenLower(n: int, r: int)
    requires 0 <= n && -n <= r <= 0
    ensures 2 * |Rows(n, r)| == 2 * (n + 1) * (n + 1) + (n + 1) * n + 2 * (-r) * (2 * n + 1) - (-r) * (-r + 1)
    decreases -r
  {
    if r == 0 {
      RowsLenUpper(n, 0);
    } else {
      RowsLenLower(n, r + 1);
      RowWidth(n, r);
      assert |Rows(n, r)| == |Rows(n, r + 1)| + (2 * n + r + 1);
      LowerStep(n, -r);
    }
  }

  /** The hexagon of side s has 3s^2 - 3s + 1 cells. */
  lemma EnumerateLength(size: int)
    requires size >= 1
    ensures |Enumerate(size)| == 3 * size * size - 3 * size + 1
  {
    var n := size - 1;
    RowsLenLower(n, -n);
    TotalIdentity(n);
  }

  lemma {:induction false} NoDupCard<T>(s: seq<T>)
    requires NoDup(s)
    ensures |set x | x in s| == |s|
  {
    if |s| > 0 {
      var t := s[..|s| - 1];
      assert NoDup(t);
      NoDupCard(t);
      assert (set x | x in s) == (set x | x in t) + {s[|s| - 1]};
      assert s[|s| - 1] !in t;
    }
  }

  /** `generate_cells`: the nested range loops of the source. */
  method GenerateCells(size: int) returns (cells: set<Cell>)
    ensures forall c :: c in cells <==> OnBoard(size, c)
    ensures cells == BoardCells(size)
    ensures size >= 1 ==> |cells| == 3 * size * size - 3 * size + 1
    ensures size < 1 ==> cells == {}
  {
    cells := {};
    var n := size - 1;
    ghost var seen: seq<Cell> := [];
    var r := n;
    while r >= -n
      invariant r <= n
      invariant n >= 0 ==> r >= -n - 1
      invariant n < 0 ==> r == n
      invariant seen == Rows(n, r + 1)
      invariant forall x :: x in cells <==> x in seen
    {
      var q1 := if -n > r - n then -n else r - n;
      var q2 := if n < r + n then n else r + n;
      var q := q1;
      while q <= q2
        invariant q1 <= q
        invariant q2 >= q1 ==> q <= q2 + 1
        invariant seen == Rows(n, r + 1) + Row(r, q1, q - 1)
        invariant forall x :: x in cells <==> x in seen
      {
        cells := cells + {Cell(q, r)};
        seen := seen + [Cell(q, r)];
        q := q + 1;
      }
      assert seen == Rows(n, r);
      r := r - 1;
    }
    assert seen == Enumerate(size);
    EnumerateSet(size);
    assert cells == set x | x in Enumerate(size);
  }

  /** The set of enumerated cells is the board, with 3s^2 - 3s + 1 elements. */
  lemma EnumerateSet(size: int)
    ensures forall c :: c in (set x | x in Enumerate(size)) <==> OnBoard(size, c)
    ensures (set x | x in Enumerate(size)) == BoardCells(size)
    ensures size >= 1 ==> |set x | x in Enumerate(size)| == 3 * size * size - 3 * size + 1
    ensures size < 1 ==> (set x | x in Enumerate(size)) == {}
  {
    var cells := set x | x in Enumerate(size);
    forall c
      ensures c in cells <==> OnBoard(size, c)
      ensures c in cells <==> c in BoardCells(size)
    {
      EnumerateMembers(size, c);
      BoardCellsIsOnBoard(size, c);
    }
    if size >= 1 {
      RowsNoDup(size - 1, -(size - 1));
      NoDupCard(Enumerate(size));
      EnumerateLength(size);
    }
  }

  // ------------------------------------------------------------ neighbours

  predicate ValidDirs(dirs: seq<int>)
  {
    forall i :: 0 <= i < |dirs| ==> ValidDirection(dirs[i])
  }

  lemma DirsValid()
    ensures ValidDirs(RedDirs) && ValidDirs(BlueDirs) && ValidDirs(AllDirs)
  {
  }

  /** The on-board neighbours of `c` in the listed directions, in list order. */
  function NeighborList(size: int, c: Cell, dirs: seq<int>): (ns: seq<Cell>)
    requires ValidDirs(dirs)
    ensures |ns| <= |dirs|
    ensures forall x :: x in ns <==>
      exists k :: 0 <= k < |dirs| && x == Neighbor(c, dirs[k]) && OnBoard(size, x)
  {
    if |dirs| == 0 then []
    else
      var n := Neighbor(c, dirs[0]);
      var rest := NeighborList(size, c, dirs[1..]);
      assert forall k :: 1 <= k < |dirs| ==> dirs[k] == dirs[1..][k - 1];
      (if OnBoard(size, n) then [n] else []) + rest
  }

  /** `generate_neighbors`: one list per board cell. */
  function GenerateNeighbors(size: int, dirs: seq<int>): (m: map<Cell, seq<Cell>>)
    requires ValidDirs(dirs)
    ensures m.Keys == BoardCells(size)
    ensures forall c :: c in m ==> m[c] == NeighborList(size, c, dirs)
  {
    map c | c in BoardCells(size) :: NeighborList(size, c, dirs)
  }

  /** With distinct directions from 0..5 a neighbour list has no repeats. */
  lemma {:induction false} NeighborListNoDup(size: int, c: Cell, dirs: seq<int>)
    requires forall i :: 0 <= i < |dirs| ==> 0 <= dirs[i] < 6
    requires NoDup(dirs)
    ensures NoDup(NeighborList(size, c, dirs))
  {
    if |dirs| > 0 {
      var rest := NeighborList(size, c, dirs[1..]);
      NeighborListNoDup(size, c, dirs[1..]);
      var n := Neighbor(c, dirs[0]);
      assert n !in rest by {
        if n in rest {
          var k :| 0 <= k < |dirs[1..]| && n == Neighbor(c, dirs[1..][k]) && OnBoard(size, n);
          assert dirs[0] != dirs[k + 1];
          NeighborsDistinct(c, dirs[0], dirs[1..][k]);
        }
      }
      var ns := NeighborList(size, c, dirs);
      assert ns == (if OnBoard(size, n) then [n] else []) + rest;
      if OnBoard(size, n) {
        forall i, j | 0 <= i < j < |ns| ensures ns[i] != ns[j]
        {
          if i == 0 { assert ns[j] in rest; }
          else { assert ns[i] == rest[i - 1] && ns[j] == rest[j - 1]; }
        }
      }
    }
  }

  /** The omnidirectional table is hex adjacency restricted to the board. */
  lemma AllNeighborsAreAdjacent(size: int, a: Cell, b: Cell)
    ensures b in NeighborList(size, a, AllDirs) <==> OnBoard(size, b) && Adjacent(a, b)
  {
    if OnBoard(size, b) && Adjacent(a, b) {
      AdjacentIsNeighbor(a, b);
      var d :| 0 <= d < 6 && Neighbor(a, d) == b;
      assert AllDirs[d] == d;
    }
  }

  /** The omnidirectional neighbour relation is symmetric. */
  lemma AllNeighborsSymmetric(size: int, a: Cell, b: Cell)
    requires OnBoard(size, a)
    requires b in NeighborList(size, a, AllDirs)
    ensures a in NeighborList(size, b, AllDirs)
  {
    AllNeighborsAreAdjacent(size, a, b);
    assert Adjacent(b, a);
    AllNeighborsAreAdjacent(size, b, a);
  }

  /** The red and blue views are mutual inverses: b is a red-view neighbour of a exactly
      when a is a blue-view neighbour of b. */
  lemma PovInverse(size: int, a: Cell, b: Cell)
    requires OnBoard(size, a) && OnBoard(size, b)
    ensures b in NeighborList(size, a, RedDirs) <==> a in NeighborList(size, b, BlueDirs)
  {
    var rb := b in NeighborList(size, a, RedDirs);
    var ba := a in NeighborList(size, b, BlueDirs);
    if rb { RedToBlue(size, a, b); }
    if ba { BlueToRed(size, a, b); }
    assert rb == ba;
  }

  lemma RedToBlue(size: int, a: Cell, b: Cell)
    requires OnBoard(size, a)
    requires b in NeighborList(size, a, RedDirs)
    ensures a in NeighborList(size, b, BlueDirs)
  {
    var k :| 0 <= k < 3 && b == Neighbor(a, RedDirs[k]);
    var j := if k == 0 then 1 else if k == 1 then 2 else 0;
    InNeighborList(size, b, BlueDirs, j, a);
  }

  lemma BlueToRed(size: int, a: Cell, b: Cell)
    requires OnBoard(size, b)
    requires a in NeighborList(size, b, BlueDirs)
    ensures b in NeighborList(size, a, RedDirs)
  {
    var k :| 0 <= k < 3 && a == Neighbor(b, BlueDirs[k]);
    var j := if k == 0 then 2 else if k == 1 then 0 else 1;
    InNeighborList(size, a, RedDirs, j, b);
  }

  /** A witness direction puts an on-board cell into a neighbour list. */
  lemma InNeighborList(size: int, c: Cell, dirs: seq<int>, j: int, x: Cell)
    requires ValidDirs(dirs) && 0 <= j < |dirs|
    requires x == Neighbor(c, dirs[j]) && OnBoard(size, x)
    ensures x in NeighborList(size, c, dirs)
  {
  }

  // --------------------------------------------------------- zobrist keys

  /** All 2 * |cells| + 1 keys (both keys of every cell, and the turn key) differ. */
  predicate DistinctKeys(keys: map<Cell, ZKey>, turnKey: nat)
  {
    && (forall c :: c in keys ==>
          keys[c].r != keys[c].b && keys[c].r != turnKey && keys[c].b != turnKey)
    && (forall c1, c2 :: c1 in keys && c2 in keys && c1 != c2 ==>
          keys[c1].r != keys[c2].r && keys[c1].r != keys[c2].b && keys[c1].b != keys[c2].b)
  }

  /** `generate_unique_key`: draw from the random stream until the value is unused.
      `None` when the stream is exhausted first. */
  method UniqueKey(used: set<nat>, draws: seq<nat>, pos: nat) returns (key: Option<nat>, next: nat)
    requires pos <= |draws|
    ensures pos <= next <= |draws|
    ensures forall i :: pos <= i < next - 1 ==> draws[i] in used
    ensures key.Some? ==> next > pos && key.value == draws[next - 1] && key.value !in used
    ensures key.None? ==> next == |draws| && forall i :: pos <= i < |draws| ==> draws[i] in used
  {
    var i := pos;
    while i < |draws| && draws[i] in used
      invariant pos <= i <= |draws|
      invariant forall j :: pos <= j < i ==> draws[j] in used
    {
      i := i + 1;
    }
    if i == |draws| {
      return None, i;
    }
    return Some(draws[i]), i + 1;
  }

  /** `generate_zobrist_keys`: a red and a blue key per cell (in `cells` order), then the
      turn key, each one fresh. The random source is the stream `draws`. */
  method GenerateZobristKeys(cells: seq<Cell>, draws: seq<nat>)
    returns (res: Option<(map<Cell, ZKey>, nat)>)
    requires NoDup(cells)
    ensures res.Some? ==> res.value.0.Keys == set c | c in cells
    ensures res.Some? ==> DistinctKeys(res.value.0, res.value.1)
    ensures res.Some? ==> res.value.1 in draws
    ensures res.Some? ==>
      forall c :: c in res.value.0 ==> res.value.0[c].r in draws && res.value.0[c].b in draws
  {
    var keys: map<Cell, ZKey> := map[];
    var used: set<nat> := {};
    var pos := 0;
    var i := 0;
    while i < |cells|
      invariant 0 <= i <= |cells| && pos <= |draws|
      invariant keys.Keys == set c | c in cells[..i]
      invariant forall c :: c in keys ==> keys[c].r in used && keys[c].b in used && keys[c].r != keys[c].b
      invariant forall c1, c2 :: c1 in keys && c2 in keys && c1 != c2 ==>
          keys[c1].r != keys[c2].r && keys[c1].r != keys[c2].b && keys[c1].b != keys[c2].b
      invariant forall k :: k in used ==> k in draws
    {
      var kr, kb;
      kr, pos := UniqueKey(used, draws, pos);
      if kr.None? { return None; }
      used := used + {kr.value};
      kb, pos := UniqueKey(used, draws, pos);
      if kb.None? { return None; }
      used := used + {kb.value};
      assert cells[i] !in keys by {
        assert forall j :: 0 <= j < i ==> cells[..i][j] != cells[i];
      }
      keys := keys[cells[i] := ZKey(kr.value, kb.value)];
      assert cells[..i + 1] == cells[..i] + [cells[i]];
      i := i + 1;
    }
    var kt;
    kt, pos := UniqueKey(used, draws, pos);
    if kt.None? { return None; }
    assert cells[..|cells|] == cells;
    return Some((keys, kt.value));
  }

  // ------------------------------------------------------------ start hash

  /** The key a listed (cell, player) pair contributes in `compute_start_hash`: red's key
      for R, blue's key for anything else (including an empty cell). */
  function ListedKey(keys: map<Cell, ZKey>, e: (Cell, int)): nat
    requires e.0 in keys
  {
    if e.1 == R then keys[e.0].r else keys[e.0].b
  }

  predicate Listed(keys: map<Cell, ZKey>, state: seq<(Cell, int)>)
  {
    forall i :: 0 <= i < |state| ==> state[i].0 in keys
  }

  /** `compute_start_hash`, as written: the XOR of the listed keys. */
  function ComputeStartHash(keys: map<Cell, ZKey>, state: seq<(Cell, int)>): nat
    requires Listed(keys, state)
  {
    if |state| == 0 then 0
    else Xor(ComputeStartHash(keys, state[..|state| - 1]), ListedKey(keys, state[|state| - 1]))
  }

  /** Removing the entry at position i takes its key out of the XOR. */
  lemma {:induction false} StartHashRemove(keys: map<Cell, ZKey>, state: seq<(Cell, int)>, i: nat)
    requires Listed(keys, state) && i < |state|
    ensures Listed(keys, state[..i] + state[i + 1..])
    ensures ComputeStartHash(keys, state) ==
            Xor(ComputeStartHash(keys, state[..i] + state[i + 1..]), ListedKey(keys, state[i]))
    decreases |state|
  {
    var rest := state[..i] + state[i + 1..];
    if i == |state| - 1 {
      assert rest == state[..|state| - 1];
    } else {
      var init := state[..|state| - 1];
      StartHashRemove(keys, init, i);
      assert init[..i] + init[i + 1..] == rest[..|rest| - 1];
      assert rest[|rest| - 1] == state[|state| - 1];
      XorSwapLast(ComputeStartHash(keys, init[..i] + init[i + 1..]), ListedKey(keys, state[i]),
                  ListedKey(keys, state[|state| - 1]));
    }
  }

  lemma MultisetRemoveAt<T>(s: seq<T>, i: nat)
    requires i < |s|
    ensures multiset(s[..i] + s[i + 1..]) == multiset(s) - multiset{s[i]}
  {
    assert s == s[..i] + [s[i]] + s[i + 1..];
  }

  /** The start hash does not depend on the order of the list. */
  lemma {:induction false} StartHashOrderFree(keys: map<Cell, ZKey>, s1: seq<(Cell, int)>, s2: seq<(Cell, int)>)
    requires Listed(keys, s1) && Listed(keys, s2)
    requires multiset(s1) == multiset(s2)
    ensures ComputeStartHash(keys, s1) == ComputeStartHash(keys, s2)
    decreases |s1|
  {
    if |s1| == 0 {
      assert |multiset(s2)| == 0;
    } else {
      var n := |s1| - 1;
      var last := s1[n];
      assert last in multiset(s2);
      var i :| 0 <= i < |s2| && s2[i] == last;
      StartHashRemove(keys, s2, i);
      var rest := s2[..i] + s2[i + 1..];
      MultisetRemoveAt(s2, i);
      MultisetRemoveAt(s1, n);
      assert s1[..n] + s1[n + 1..] == s1[..n];
      StartHashOrderFree(keys, s1[..n], rest);
    }
  }

  /** The key a listed pair is meant to contribute: red's key for R, blue's for B, and
      nothing for an empty cell, so that the start hash is the Zobrist signature. */
  function IntendedKey(keys: map<Cell, ZKey>, e: (Cell, int)): nat
    requires e.0 in keys
  {
    if e.1 == R then keys[e.0].r else if e.1 == B then keys[e.0].b else 0
  }

  /** The start hash with empty cells contributing nothing; the model builds boards with it. */
  function StartHash(keys: map<Cell, ZKey>, state: seq<(Cell, int)>): nat
    requires Listed(keys, state)
  {
    if |state| == 0 then 0
    else Xor(StartHash(keys, state[..|state| - 1]), IntendedKey(keys, state[|state| - 1]))
  }

  /** As written, an all-empty one-cell board does not hash to 0: its empty cell
      contributes blue's key, so it hashes like a board with a blue stone there. */
  lemma EmptyCellCountedAsBlue()
    ensures var keys := map[Cell(0, 0) := ZKey(1, 2)];
            ComputeStartHash(keys, [(Cell(0, 0), 0)]) == 2
            && ComputeStartHash(keys, [(Cell(0, 0), 0)]) == ComputeStartHash(keys, [(Cell(0, 0), B)])
            && StartHash(keys, [(Cell(0, 0), 0)]) == 0
            && StartHash(keys, [(Cell(0, 0), B)]) == 2
  {
    var keys := map[Cell(0, 0) := ZKey(1, 2)];
    assert [(Cell(0, 0), 0)][..0] == [];
    assert [(Cell(0, 0), B)][..0] == [];
    XorZero(2);
  }

  /** The corrected hash tells an empty cell from a blue one: listing a cell as B
      instead of empty changes the hash by exactly that cell's blue key. */
  lemma StartHashEmptyVsBlue(keys: map<Cell, ZKey>, state: seq<(Cell, int)>, c: Cell)
    requires Listed(keys, state) && c in keys
    ensures StartHash(keys, state + [(c, B)]) == Xor(StartHash(keys, state + [(c, 0)]), keys[c].b)
  {
    var s0 := state + [(c, 0)];
    var s1 := state + [(c, B)];
    assert s0[..|s0| - 1] == state && s1[..|s1| - 1] == state;
    XorZero(StartHash(keys, state));
  }

  /** The key `compute_start_hash` adds beyond the intended one: blue's key for a cell
      listed with neither R nor B, such as an empty cell. */
  function StrayKey(keys: map<Cell, ZKey>, e: (Cell, int)): nat
    requires e.0 in keys
  {
    if e.1 != R && e.1 != B then keys[e.0].b else 0
  }

  /** The stray keys of a listing, xored together. */
  function StrayHash(keys: map<Cell, ZKey>, state: seq<(Cell, int)>): nat
    requires Listed(keys, state)
  {
    if |state| == 0 then 0
    else Xor(StrayHash(keys, state[..|state| - 1]), StrayKey(keys, state[|state| - 1]))
  }

  /** The hash as written is the corrected hash xored with the blue keys of the cells
      listed empty; the two agree on a listing of stones only. */
  lemma {:induction false} ComputeIsStartHashPlusStray(keys: map<Cell, ZKey>, state: seq<(Cell, int)>)
    requires Listed(keys, state)
    ensures ComputeStartHash(keys, state) == Xor(StartHash(keys, state), StrayHash(keys, state))
    ensures (forall i :: 0 <= i < |state| ==> state[i].1 in {R, B}) ==>
      ComputeStartHash(keys, state) == StartHash(keys, state)
    decreases |state|
  {
    if |state| == 0 {
      XorZero(0);
    } else {
      var init := state[..|state| - 1];
      var e := state[|state| - 1];
      ComputeIsStartHashPlusStray(keys, init);
      if e.1 == R || e.1 == B {
        XorZero(IntendedKey(keys, e));
      } else {
        XorZero(StrayKey(keys, e));
      }
      assert ListedKey(keys, e) == Xor(IntendedKey(keys, e), StrayKey(keys, e));
      XorRegroup(StartHash(keys, init), StrayHash(keys, init), IntendedKey(keys, e), StrayKey(keys, e));
      if forall i :: 0 <= i < |state| ==> state[i].1 in {R, B} {
        assert forall i :: 0 <= i < |init| ==> init[i] == state[i];
        assert StrayKey(keys, e) == 0;
        XorZero(StrayHash(keys, init));
        XorZero(StartHash(keys, state));
      }
    }
  }

  // ---------------------------------------------------------- state_to_dict

  /** `state_to_dict`: every board cell, mapped to R if (cell, R) is listed, else to B if
      (cell, B) is listed, else to 0. */
  function StateToDict(size: int, state: seq<(Cell, int)>): (grid: map<Cell, int>)
    ensures grid.Keys == BoardCells(size)
  {
    map c | c in BoardCells(size) ::
      if (c, R) in state then R else if (c, B) in state then B else 0
  }

  /** Reading a grid back: a board cell's occupant is R exactly when (cell, R) is listed,
      B exactly when (cell, B) is listed but (cell, R) is not, and 0 otherwise. */
  lemma StateToDictReads(size: int, state: seq<(Cell, int)>, c: Cell)
    requires OnBoard(size, c)
    ensures c in StateToDict(size, state)
    ensures StateToDict(size, state)[c] == R <==> (c, R) in state
    ensures StateToDict(size, state)[c] == B <==> (c, R) !in state && (c, B) in state
    ensures StateToDict(size, state)[c] == 0 <==> (c, R) !in state && (c, B) !in state
  {
    BoardCellsIsOnBoard(size, c);
  }

  /** Entries for cells off the board are ignored. */
  lemma StateToDictIgnoresOffBoard(size: int, state: seq<(Cell, int)>, c: Cell, p: int)
    requires !OnBoard(size, c)
    ensures StateToDict(size, state + [(c, p)]) == StateToDict(size, state)
  {
    forall x | x in BoardCells(size)
      ensures (x, R) in state + [(c, p)] <==> (x, R) in state
      ensures (x, B) in state + [(c, p)] <==> (x, B) in state
    {
      BoardCellsIsOnBoard(size, x);
    }
  }

  /** The referee's list for a grid: one entry per cell of `order`. */
  function GridToState(order: seq<Cell>, grid: map<Cell, int>): (s: seq<(Cell, int)>)
    requires forall i :: 0 <= i < |order| ==> order[i] in grid
    ensures |s| == |order|
    ensures forall i :: 0 <= i < |s| ==> s[i] == (order[i], grid[order[i]])
  {
    if |order| == 0 then [] else GridToState(order[..|order| - 1], grid) + [(order[|order| - 1], grid[order[|order| - 1]])]
  }

  /** Listing a board grid and converting it back gives the same grid. */
  lemma StateToDictRoundTrip(size: int, grid: map<Cell, int>)
    requires grid.Keys == BoardCells(size)
    requires forall c :: c in grid ==> grid[c] in {0, R, B}
    ensures forall i :: 0 <= i < |Enumerate(size)| ==> Enumerate(size)[i] in grid
    ensures StateToDict(size, GridToState(Enumerate(size), grid)) == grid
  {
    var order := Enumerate(size);
    forall i | 0 <= i < |order| ensures order[i] in grid
    {
      EnumerateMembers(size, order[i]);
      BoardCellsIsOnBoard(size, order[i]);
    }
    var s := GridToState(order, grid);
    var g := StateToDict(size, s);
    forall c | c in grid
      ensures g[c] == grid[c]
    {
      BoardCellsIsOnBoard(size, c);
      EnumerateMembers(size, c);
      var i :| 0 <= i < |order| && order[i] == c;
      assert s[i] == (c, grid[c]);
      forall p | (c, p) in s ensures p == grid[c]
      {
        var j :| 0 <= j < |s| && s[j] == (c, p);
      }
    }
  }

  // ------------------------------------------------------------- topology

  /** Everything `BoardUtils.__init__` precomputes for one match. */
  datatype Topology = Topology(
    size: int,
    cells: set<Cell>,
    order: seq<Cell>,
    rPov: map<Cell, seq<Cell>>,
    bPov: map<Cell, seq<Cell>>,
    nbrs: map<Cell, seq<Cell>>,
    keys: map<Cell, ZKey>,
    turnKey: nat)

  /** A neighbour table over the board of side `size` for the given directions. */
  ghost predicate NeighborTable(m: map<Cell, seq<Cell>>, size: int, dirs: seq<int>)
    requires ValidDirs(dirs)
  {
    && (forall c :: c in m <==> OnBoard(size, c))
    && (forall c :: c in m ==> m[c] == NeighborList(size, c, dirs))
  }

  /** What `BoardUtils.__init__` establishes, stated pointwise. */
  ghost predicate TopologyOk(t: Topology)
  {
    && t.size >= 1
    && (forall c :: c in t.cells <==> OnBoard(t.size, c))
    && NoDup(t.order)
    && (forall c :: c in t.order <==> c in t.cells)
    && NeighborTable(t.rPov, t.size, RedDirs)
    && NeighborTable(t.bPov, t.size, BlueDirs)
    && NeighborTable(t.nbrs, t.size, AllDirs)
    && t.keys.Keys == t.cells
    && DistinctKeys(t.keys, t.turnKey)
  }

  /** The tables `generate_neighbors` builds are neighbour tables. */
  lemma GenerateNeighborsIsTable(size: int, dirs: seq<int>)
    requires ValidDirs(dirs)
    ensures NeighborTable(GenerateNeighbors(size, dirs), size, dirs)
  {
    forall c ensures c in GenerateNeighbors(size, dirs) <==> OnBoard(size, c)
    {
      BoardCellsIsOnBoard(size, c);
    }
  }

  /** `BoardUtils.__init__`: the topology and the start hash of the referee's state.
      The start hash kept is the corrected one; the stored `compute_start_hash` is it
      xored with the stray keys. `None` only when the random stream runs out before all
      keys are drawn. */
  method MakeBoard(size: int, state: seq<(Cell, int)>, draws: seq<nat>)
    returns (res: Option<(Topology, nat)>)
    requires size >= 1
    requires forall i :: 0 <= i < |state| ==> OnBoard(size, state[i].0)
    ensures res.Some? ==> TopologyOk(res.value.0)
    ensures res.Some? ==> Listed(res.value.0.keys, state)
    ensures res.Some? ==> res.value.1 == StartHash(res.value.0.keys, state)
    ensures res.Some? ==>
      ComputeStartHash(res.value.0.keys, state) == Xor(res.value.1, StrayHash(res.value.0.keys, state))
  {
    var cells := GenerateCells(size);
    var order := Enumerate(size);
    RowsNoDup(size - 1, -(size - 1));
    var zk := GenerateZobristKeys(order, draws);
    if zk.None? { return None; }
    var (keys, turnKey) := zk.value;
    var t := Topology(size, cells, order, GenerateNeighbors(size, RedDirs),
                      GenerateNeighbors(size, BlueDirs), GenerateNeighbors(size, AllDirs),
                      keys, turnKey);
    BuiltTopologyOk(t);
    forall i | 0 <= i < |state| ensures state[i].0 in keys
    {
      assert state[i].0 in t.cells;
    }
    ComputeIsStartHashPlusStray(keys, state);
    return Some((t, StartHash(keys, state)));
  }

  /** The pieces `BoardUtils.__init__` computes form a well-formed topology. */
  lemma BuiltTopologyOk(t: Topology)
    requires t.size >= 1
    requires forall c :: c in t.cells <==> OnBoard(t.size, c)
    requires t.order == Enumerate(t.size)
    requires t.rPov == GenerateNeighbors(t.size, RedDirs)
    requires t.bPov == GenerateNeighbors(t.size, BlueDirs)
    requires t.nbrs == GenerateNeighbors(t.size, AllDirs)
    requires t.keys.Keys == set c | c in t.order
    requires DistinctKeys(t.keys, t.turnKey)
    ensures TopologyOk(t)
  {
    RowsNoDup(t.size - 1, -(t.size - 1));
    forall c ensures c in t.order <==> c in t.cells
    {
      EnumerateMembers(t.size, c);
    }
    assert t.keys.Keys == t.cells;
    GenerateNeighborsIsTable(t.size, RedDirs);
    GenerateNeighborsIsTable(t.size, BlueDirs);
    GenerateNeighborsIsTable(t.size, AllDirs);
  }
}
