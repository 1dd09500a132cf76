/**
 * `spawn_new_tile`: the empty cells of a board, and writing one new tile.
 *
 * The random choices (which empty cell, and whether the tile is a 2 or a 4)
 * are explicit `SpawnChoice` values, so every property below holds for every
 * choice the random source could make.
 */
module Spawning {
  import opened LineRules
  import opened Grid

  /** The cell (row, column) at flat index m. */
  function CellAt(m: nat): (c: (nat, nat))
    requires m < 16
    ensures c.0 < 4 && c.1 < 4 && FlatIndex(c) == m
  {
    (m / 4, m % 4)
  }

  function FlatIndex(c: (nat, nat)): nat
  {
    4 * c.0 + c.1
  }

  /** The empty cells among the first n cells in row-major order, as (row, column) pairs. */
  function EmptyBefore(g: Board, n: nat): seq<(nat, nat)>
    requires n <= 16
  {
    if n == 0 then []
    else EmptyBefore(g, n - 1) + (if g[n - 1] == 0 then [CellAt(n - 1)] else [])
  }

  /** One step of the row-major scan: cell (i, j) is listed after the cells before it, when empty. */
  lemma EmptyBeforeStep(g: Board, i: nat, j: nat)
    requires i < 4 && j < 4
    ensures EmptyBefore(g, 4 * i + j + 1) == EmptyBefore(g, 4 * i + j) + (if g[4 * i + j] == 0 then [(i, j)] else [])
  {
    var c := CellAt(4 * i + j);
    assert c == (i, j);
  }

  /** The `positions` vector of `spawn_new_tile`: every empty cell, in row-major order. */
  function EmptyCells(g: Board): seq<(nat, nat)>
  {
    EmptyBefore(g, |g|)
  }

  /** Each listed cell is on the board, before n, and empty. */
  lemma {:induction false} EmptyBeforeSound(g: Board, n: nat)
    requires n <= 16
    ensures forall k :: 0 <= k < |EmptyBefore(g, n)| ==>
      var c := EmptyBefore(g, n)[k]; c.0 < 4 && c.1 < 4 && FlatIndex(c) < n && g[FlatIndex(c)] == 0
  {
    if n > 0 {
      EmptyBeforeSound(g, n - 1);
    }
  }

  /** The list is strictly increasing in row-major order, so no cell appears twice. */
  lemma {:induction false} EmptyBeforeSorted(g: Board, n: nat)
    requires n <= 16
    ensures forall k, l :: 0 <= k < l < |EmptyBefore(g, n)| ==>
      FlatIndex(EmptyBefore(g, n)[k]) < FlatIndex(EmptyBefore(g, n)[l])
  {
    if n > 0 {
      EmptyBeforeSorted(g, n - 1);
      EmptyBeforeSound(g, n - 1);
    }
  }

  /** Every empty cell before n is listed. */
  lemma {:induction false} EmptyBeforeComplete(g: Board, n: nat)
    requires n <= 16
    ensures forall m :: 0 <= m < n && g[m] == 0 ==> CellAt(m) in EmptyBefore(g, n)
  {
    if n > 0 {
      EmptyBeforeComplete(g, n - 1);
    }
  }

  /** The listed cells and the tiles before n together number n. */
  lemma {:induction false} EmptyBeforeCount(g: Board, n: nat)
    requires n <= 16
    ensures |EmptyBefore(g, n)| + Count(g[..n]) == n
  {
    if n > 0 {
      EmptyBeforeCount(g, n - 1);
      assert g[..n][..n - 1] == g[..n - 1];
    } else {
      assert g[..0] == [];
    }
  }

  /**
   * `EmptyCells` lists every empty cell exactly once, in row-major order,
   * and nothing else; there are as many of them as the board has empty cells.
   */
  lemma EmptyCellsSpec(g: Board)
    ensures forall k :: 0 <= k < |EmptyCells(g)| ==>
      EmptyCells(g)[k].0 < 4 && EmptyCells(g)[k].1 < 4 && g[FlatIndex(EmptyCells(g)[k])] == 0
    ensures forall k, l :: 0 <= k < l < |EmptyCells(g)| ==>
      FlatIndex(EmptyCells(g)[k]) < FlatIndex(EmptyCells(g)[l])
    ensures forall i: nat, j: nat :: i < 4 && j < 4 && g[4 * i + j] == 0 ==> (i, j) in EmptyCells(g)
    ensures |EmptyCells(g)| + Count(g) == 16
  {
    EmptyBeforeSound(g, |g|);
    EmptyBeforeSorted(g, |g|);
    EmptyBeforeComplete(g, |g|);
    EmptyBeforeCount(g, |g|);
    assert g[..16] == g;
    forall i: nat, j: nat | i < 4 && j < 4 && g[4 * i + j] == 0
      ensures (i, j) in EmptyCells(g)
    {
      assert CellAt(4 * i + j) == (i, j);
    }
  }

  /** A board with fewer than 16 tiles has an empty cell to spawn into. */
  lemma HasEmptyCell(g: Board)
    requires Count(g) < 16
    ensures |EmptyCells(g)| > 0
  {
    EmptyBeforeCount(g, |g|);
    assert g[..16] == g;
  }

  /** A choice the random source of `spawn_new_tile` can make on board g. */
  datatype SpawnChoice = SpawnChoice(toChange: nat, prob: nat)

  /** `gen_range(0..length_positions)` and `gen_range(1..=10)`; nothing is drawn without an empty cell. */
  predicate ValidChoice(g: Board, c: SpawnChoice)
  {
    1 <= c.prob <= 10 && (|EmptyCells(g)| == 0 || c.toChange < |EmptyCells(g)|)
  }

  /** The tile written: 2 when `prob > 1`, 4 when `prob == 1`. */
  function SpawnValue(c: SpawnChoice): nat
  {
    if c.prob > 1 then 2 else 4
  }

  /** `spawn_new_tile`: write the new tile into the chosen empty cell, if there is one. */
  function Spawn(g: Board, c: SpawnChoice): Board
    requires ValidChoice(g, c)
  {
    var positions := EmptyCells(g);
    EmptyCellsSpec(g);
    if |positions| == 0 then g
    else g[FlatIndex(positions[c.toChange]) := SpawnValue(c)]
  }

  /** With no empty cell the grid is unchanged. */
  lemma SpawnOnFullBoard(g: Board, c: SpawnChoice)
    requires ValidChoice(g, c) && Count(g) == 16
    ensures Spawn(g, c) == g
  {
    EmptyCellsSpec(g);
  }

  /**
   * Otherwise only the `toChange`-th empty cell in row-major order changes; it
   * was empty and becomes 2 (when `prob > 1`) or 4 (when `prob == 1`); the
   * board total grows by that tile and the tile count by one.
   */
  lemma SpawnOneCell(g: Board, c: SpawnChoice)
    requires ValidChoice(g, c) && |EmptyCells(g)| > 0
    ensures var (i, j) := EmptyCells(g)[c.toChange];
      && i < 4 && j < 4 && g[4 * i + j] == 0
      && Spawn(g, c)[4 * i + j] == (if c.prob > 1 then 2 else 4)
      && forall m :: 0 <= m < 16 && m != 4 * i + j ==> Spawn(g, c)[m] == g[m]
    ensures Sum(Spawn(g, c)) == Sum(g) + SpawnValue(c)
    ensures Count(Spawn(g, c)) == Count(g) + 1
  {
    EmptyCellsSpec(g);
    var m := FlatIndex(EmptyCells(g)[c.toChange]);
    SumUpdate(g, m, SpawnValue(c));
  }

  /** On a grid with no tile, one spawn picks among 16 cells and the next among the 15 left. */
  lemma ChoicesOnEmpty(g: Board, c1: SpawnChoice, c2: SpawnChoice)
    requires Count(g) == 0
    ensures ValidChoice(g, c1) <==> 1 <= c1.prob <= 10 && c1.toChange < 16
    ensures ValidChoice(g, c1) ==>
      (ValidChoice(Spawn(g, c1), c2) <==> 1 <= c2.prob <= 10 && c2.toChange < 15)
  {
    EmptyCellsSpec(g);
    if ValidChoice(g, c1) {
      SpawnOneCell(g, c1);
      EmptyCellsSpec(Spawn(g, c1));
    }
  }
}
