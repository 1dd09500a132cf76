/**
 * The search's `heuristic`: a weighted score of a board built from the
 * largest tile's position, the empty cells, and three sums over the pairs
 * of horizontally and vertically adjacent cells.
 */
module Scoring {
  import opened LineRules
  import opened Grid
  import opened GameUtils

  /** `(a - b).abs()` on the widened values. */
  function AbsDiff(a: nat, b: nat): nat
  {
    if a >= b then a - b else b - a
  }

  /** `a.checked_sub(b).unwrap_or(0)`: the difference, or 0 where it would be negative. */
  function SatSub(a: nat, b: nat): nat
  {
    if a >= b then a - b else 0
  }

  /** The three pair sums of the heuristic, kept together. */
  datatype Score = Score(smooth: nat, mono: nat, merges: nat)

  const NoScore := Score(0, 0, 0)

  function Plus(a: Score, b: Score): Score
  {
    Score(a.smooth + b.smooth, a.mono + b.mono, a.merges + b.merges)
  }

  /**
   * What one pair of neighbours contributes, with `a` the left/upper cell
   * and `b` its right/lower neighbour: the gap between them when both hold a
   * tile; the drop from `a` to `b` when `a` holds a tile; one merge when they
   * hold the same tile.
   */
  function PairScore(a: nat, b: nat): Score
  {
    Score(if a != 0 && b != 0 then AbsDiff(a, b) else 0,
          if a != 0 then SatSub(a, b) else 0,
          if a != 0 && a == b then 1 else 0)
  }

  /** The pair of cell m with its right neighbour; nothing in the last column. */
  function Across(g: Board, m: nat): Score
    requires m < 16
  {
    if m % 4 < 3 then PairScore(g[m], g[m + 1]) else NoScore
  }

  /** The pair of cell m with the neighbour below it; nothing in the last row. */
  function Below(g: Board, m: nat): Score
    requires m < 16
  {
    if m < 12 then PairScore(g[m], g[m + 4]) else NoScore
  }

  /** What the inner loop adds at cell m. */
  function CellScore(g: Board, m: nat): Score
    requires m < 16
  {
    Plus(Across(g, m), Below(g, m))
  }

  /** The scores of the first n cells in row-major order. */
  function ScoreUpTo(g: Board, n: nat): Score
    requires n <= 16
  {
    if n == 0 then NoScore else Plus(ScoreUpTo(g, n - 1), CellScore(g, n - 1))
  }

  /** All three pair sums of a board. */
  function Pairs(g: Board): Score
  {
    ScoreUpTo(g, |g|)
  }

  /** The largest value of s, 0 for an empty sequence (`max().unwrap_or(0)`). */
  function MaxTile(s: seq<nat>): (m: nat)
    ensures forall k :: 0 <= k < |s| ==> s[k] <= m
    ensures |s| > 0 ==> m in s
    ensures |s| == 0 ==> m == 0
  {
    if |s| == 0 then 0
    else
      var m := MaxTile(s[..|s| - 1]);
      assert s == s[..|s| - 1] + [s[|s| - 1]];
      if s[|s| - 1] > m then s[|s| - 1] else m
  }

  /** The number of empty cells. */
  function EmptyCount(g: Board): nat
  {
    CountBound(g);
    |g| - Count(g)
  }

  /** 1 when one of the four corners holds the largest tile, else 0. */
  function Corner(g: Board): nat
  {
    var m := MaxTile(g);
    if Cell(g, 0, 0) == m || Cell(g, 0, 3) == m || Cell(g, 3, 0) == m || Cell(g, 3, 3) == m then 1 else 0
  }

  /** The value `heuristic` returns. */
  function HeuristicValue(g: Board): nat
  {
    var p := Pairs(g);
    25 * Corner(g) + EmptyCount(g) + 2 * p.merges + 2 * p.mono + 2 * p.smooth
  }

  // ---------------------------------------------------------------------
  // Properties of the score
  // ---------------------------------------------------------------------

  /** The number of neighbour pairs whose left/upper cell is among the first n cells. */
  function PairSlots(n: nat): nat
    requires n <= 16
  {
    if n == 0 then 0
    else PairSlots(n - 1) + (if (n - 1) % 4 < 3 then 1 else 0) + (if n - 1 < 12 then 1 else 0)
  }

  /** A cell's right-hand pair adds at most one merge, and none in the last column. */
  lemma AcrossMerges(g: Board, m: nat)
    requires m < 16
    ensures Across(g, m).merges <= if m % 4 < 3 then 1 else 0
  {
  }

  /** A cell's lower pair adds at most one merge, and none in the last row. */
  lemma BelowMerges(g: Board, m: nat)
    requires m < 16
    ensures Below(g, m).merges <= if m < 12 then 1 else 0
  {
  }

  lemma PairSlotsStep(m: nat)
    requires m < 16
    ensures PairSlots(m + 1) == PairSlots(m) + (if m % 4 < 3 then 1 else 0) + (if m < 12 then 1 else 0)
  {
  }

  /** Each pair adds at most one merge. */
  lemma {:induction false} MergesUpTo(g: Board, n: nat)
    requires n <= 16
    ensures ScoreUpTo(g, n).merges <= PairSlots(n)
  {
    if n > 0 {
      var m := n - 1;
      MergesUpTo(g, m);
      AcrossMerges(g, m);
      BelowMerges(g, m);
      assert ScoreUpTo(g, n).merges == ScoreUpTo(g, m).merges + Across(g, m).merges + Below(g, m).merges;
      PairSlotsStep(m);
    }
  }

  /** The 4x4 grid has 24 neighbour pairs: 12 across and 12 down. */
  lemma PairSlotsTotal()
    ensures PairSlots(16) == 24
  {
    assert PairSlots(4) == 7;
    assert PairSlots(8) == 14;
    assert PairSlots(12) == 21;
  }

  /** A board has at most 24 merges, one per neighbour pair. */
  lemma MergesBound(g: Board)
    ensures Pairs(g).merges <= 24
  {
    MergesUpTo(g, 16);
    PairSlotsTotal();
  }

  /**
   * The corner bonus is 0 or 1, the 4x4 grid has 24 neighbour pairs so at
   * most 24 merges, and every term is non-negative, so the score is at least
   * the number of empty cells.
   */
  lemma HeuristicBounds(g: Board)
    ensures Corner(g) <= 1
    ensures Pairs(g).merges <= 24
    ensures HeuristicValue(g) >= EmptyCount(g) + 25 * Corner(g)
  {
    MergesBound(g);
  }

  /** A cell without a tile scores nothing with either neighbour. */
  lemma EmptyCellScore(g: Board, m: nat, p: Part)
    requires m < 16 && g[m] == 0
    ensures Get(CellScore(g, m), p) == 0
  {
    assert Across(g, m) == NoScore && Below(g, m) == NoScore;
  }

  /** No pair of an all-empty board scores anything. */
  lemma {:induction false} ZeroScoreUpTo(g: Board, n: nat, p: Part)
    requires n <= 16
    requires forall m :: 0 <= m < 16 ==> g[m] == 0
    ensures Get(ScoreUpTo(g, n), p) == 0
  {
    if n > 0 {
      ZeroScoreUpTo(g, n - 1, p);
      EmptyCellScore(g, n - 1, p);
    }
  }

  lemma PartsZero(s: Score)
    requires Get(s, SmoothPart) == 0 && Get(s, MonoPart) == 0 && Get(s, MergesPart) == 0
    ensures s == NoScore
  {
  }

  /** The pair sums of an all-empty board are all 0. */
  lemma EmptyPairs(g: Board, n: nat)
    requires n <= 16
    requires forall m :: 0 <= m < 16 ==> g[m] == 0
    ensures ScoreUpTo(g, n) == NoScore
  {
    ZeroScoreUpTo(g, n, SmoothPart);
    ZeroScoreUpTo(g, n, MonoPart);
    ZeroScoreUpTo(g, n, MergesPart);
    PartsZero(ScoreUpTo(g, n));
  }

  /**
   * The all-empty board scores 41: its largest tile 0 sits in every corner
   * (25) and all 16 cells are empty.
   */
  lemma AllEmptyHeuristic(g: Board)
    requires forall m :: 0 <= m < 16 ==> g[m] == 0
    ensures HeuristicValue(g) == 41
  {
    EmptyPairs(g, |g|);
    Sum16(g);
    assert EmptyCount(g) == 16;
    assert MaxTile(g) == 0;
    assert Corner(g) == 1;
  }

  /** The board mirrored in its main diagonal: cell (i, j) holds the tile of cell (j, i). */
  function Transpose(g: Board): Board
  {
    seq(16, m requires 0 <= m < 16 => g[4 * (m % 4) + m / 4])
  }

  lemma TransposeAt(g: Board, i: nat, j: nat)
    requires i < 4 && j < 4
    ensures Transpose(g)[4 * i + j] == g[4 * j + i]
  {
    DivMod4(i, j);
  }

  /** Mirroring turns the right-hand pair of (i, j) into the lower pair of (j, i) and back. */
  lemma CellTranspose(g: Board, i: nat, j: nat)
    requires i < 4 && j < 4
    ensures Across(Transpose(g), 4 * i + j) == Below(g, 4 * j + i)
    ensures Below(Transpose(g), 4 * i + j) == Across(g, 4 * j + i)
  {
    DivMod4(i, j);
    TransposeAt(g, i, j);
    if j < 3 {
      TransposeAt(g, i, j + 1);
    }
    if i < 3 {
      TransposeAt(g, i + 1, j);
    }
  }

  /** One of the three pair sums. */
  datatype Part = SmoothPart | MonoPart | MergesPart

  function Get(s: Score, p: Part): nat
  {
    match p
    case SmoothPart => s.smooth
    case MonoPart => s.mono
    case MergesPart => s.merges
  }

  /** Part p of each cell's right-hand pair, as a board of values. */
  function AcrossValues(g: Board, p: Part): Board
  {
    seq(16, m requires 0 <= m < 16 => Get(Across(g, m), p))
  }

  /** Part p of each cell's lower pair, as a board of values. */
  function BelowValues(g: Board, p: Part): Board
  {
    seq(16, m requires 0 <= m < 16 => Get(Below(g, m), p))
  }

  /** Part p of the scores of the first n cells adds up the first n right-hand and lower pair values. */
  lemma {:induction false} ScoreUpToValues(g: Board, p: Part, n: nat)
    requires n <= 16
    ensures Get(ScoreUpTo(g, n), p) == Sum(AcrossValues(g, p)[..n]) + Sum(BelowValues(g, p)[..n])
  {
    var av, bv := AcrossValues(g, p), BelowValues(g, p);
    if n > 0 {
      ScoreUpToValues(g, p, n - 1);
      assert av[..n][..n - 1] == av[..n - 1];
      assert bv[..n][..n - 1] == bv[..n - 1];
    }
  }

  /** The tile total and the tile count of a board do not change when it is mirrored. */
  lemma TransposeTotals(b: Board)
    ensures Sum(Transpose(b)) == Sum(b)
    ensures Count(Transpose(b)) == Count(b)
  {
    Sum16(b);
    Sum16(Transpose(b));
  }

  /** Mirroring exchanges the right-hand pair values with the lower ones. */
  lemma TransposeValues(g: Board, p: Part)
    ensures AcrossValues(Transpose(g), p) == Transpose(BelowValues(g, p))
    ensures BelowValues(Transpose(g), p) == Transpose(AcrossValues(g, p))
  {
    var t := Transpose(g);
    forall m | 0 <= m < 16
      ensures AcrossValues(t, p)[m] == Transpose(BelowValues(g, p))[m]
      ensures BelowValues(t, p)[m] == Transpose(AcrossValues(g, p))[m]
    {
      var i, j := m / 4, m % 4;
      CellTranspose(g, i, j);
      TransposeAt(BelowValues(g, p), i, j);
      TransposeAt(AcrossValues(g, p), i, j);
    }
  }

  /** Part p of the pair sums adds up the right-hand and the lower pair values. */
  lemma PairsValues(g: Board, p: Part)
    ensures Get(Pairs(g), p) == Sum(AcrossValues(g, p)) + Sum(BelowValues(g, p))
  {
    ScoreUpToValues(g, p, 16);
    assert AcrossValues(g, p)[..16] == AcrossValues(g, p);
    assert BelowValues(g, p)[..16] == BelowValues(g, p);
  }

  /** Part p of the pair sums does not change when the board is mirrored in its diagonal. */
  lemma TransposePairs(g: Board, p: Part)
    ensures Get(Pairs(Transpose(g)), p) == Get(Pairs(g), p)
  {
    PairsValues(g, p);
    PairsValues(Transpose(g), p);
    TransposeValues(g, p);
    TransposeTotals(AcrossValues(g, p));
    TransposeTotals(BelowValues(g, p));
  }

  /** Two sequences holding the same values have the same largest value. */
  lemma MaxTileSameValues(s: seq<nat>, t: seq<nat>)
    requires forall x :: x in s <==> x in t
    ensures MaxTile(s) == MaxTile(t)
  {
    var a, b := MaxTile(s), MaxTile(t);
    if |s| > 0 {
      assert s[0] in t;
    }
    if |t| > 0 {
      assert t[0] in s;
    }
    if |s| > 0 {
      var k :| 0 <= k < |t| && t[k] == a;
      var l :| 0 <= l < |s| && s[l] == b;
    }
  }

  /** Mirroring keeps the largest tile, and a corner holds it before exactly when one does after. */
  lemma TransposeCorner(g: Board)
    ensures MaxTile(Transpose(g)) == MaxTile(g)
    ensures Corner(Transpose(g)) == Corner(g)
  {
    var t := Transpose(g);
    forall x
      ensures x in g <==> x in t
    {
      if x in g {
        var m :| 0 <= m < 16 && g[m] == x;
        DivMod4(m / 4, m % 4);
        TransposeAt(g, m % 4, m / 4);
      }
    }
    MaxTileSameValues(g, t);
    TransposeAt(g, 0, 3);
    TransposeAt(g, 3, 0);
  }

  /**
   * Mirroring the board in its diagonal does not change the score: it maps
   * corners to corners, keeps the tiles and the empty cells, and exchanges
   * the horizontal pairs with the vertical ones.
   */
  lemma TransposeHeuristic(g: Board)
    ensures HeuristicValue(Transpose(g)) == HeuristicValue(g)
  {
    TransposePairs(g, SmoothPart);
    TransposePairs(g, MonoPart);
    TransposePairs(g, MergesPart);
    TransposeTotals(g);
    TransposeCorner(g);
  }

  // ---------------------------------------------------------------------
  // The computation on the grid
  // ---------------------------------------------------------------------

  /** The number of empty cells, counted on the grid. */
  method CountEmpty(board: GameBoard) returns (n: nat)
    requires board.Valid()
    ensures n == EmptyCount(board.cells)
  {
    ghost var g := board.cells;
    n := 0;
    ghost var seen: seq<nat> := [];
    for i := 0 to 4
      invariant seen == g[..4 * i]
      invariant n == |seen| - Count(seen)
    {
      for j := 0 to 4
        invariant seen == g[..4 * i + j]
        invariant n == |seen| - Count(seen)
      {
        CountBound(seen);
        assert g[..4 * i + j + 1] == seen + [g[4 * i + j]];
        if board.grid[i, j] == 0 {
          n := n + 1;
        }
        seen := seen + [g[4 * i + j]];
      }
    }
    assert seen == g;
  }

  /** One step of the row-major scan: the sums grow by the pairs of cell n. */
  lemma ScoreStep(g: Board, n: nat, smooth: nat, mono: nat, merges: nat, smooth1: nat, mono1: nat, merges1: nat)
    requires n < 16 && Score(smooth, mono, merges) == ScoreUpTo(g, n)
    requires smooth1 == smooth + Across(g, n).smooth + Below(g, n).smooth
    requires mono1 == mono + Across(g, n).mono + Below(g, n).mono
    requires merges1 == merges + Across(g, n).merges + Below(g, n).merges
    ensures Score(smooth1, mono1, merges1) == ScoreUpTo(g, n + 1)
  {
  }

  /** The right-hand pair of cell (i, j), term by term. */
  lemma AcrossParts(g: Board, i: nat, j: nat)
    requires i < 4 && j < 4
    ensures Across(g, 4 * i + j).smooth ==
      if j < 3 && Cell(g, i, j) != 0 && Cell(g, i, j + 1) != 0 then AbsDiff(Cell(g, i, j), Cell(g, i, j + 1)) else 0
    ensures Across(g, 4 * i + j).mono == if j < 3 && Cell(g, i, j) != 0 then SatSub(Cell(g, i, j), Cell(g, i, j + 1)) else 0
    ensures Across(g, 4 * i + j).merges == if j < 3 && Cell(g, i, j) == Cell(g, i, j + 1) && Cell(g, i, j) != 0 then 1 else 0
  {
    DivMod4(i, j);
  }

  /** The lower pair of cell (i, j), term by term. */
  lemma BelowParts(g: Board, i: nat, j: nat)
    requires i < 4 && j < 4
    ensures Below(g, 4 * i + j).smooth ==
      if i < 3 && Cell(g, i, j) != 0 && Cell(g, i + 1, j) != 0 then AbsDiff(Cell(g, i, j), Cell(g, i + 1, j)) else 0
    ensures Below(g, 4 * i + j).mono == if i < 3 && Cell(g, i, j) != 0 then SatSub(Cell(g, i, j), Cell(g, i + 1, j)) else 0
    ensures Below(g, 4 * i + j).merges == if i < 3 && Cell(g, i, j) == Cell(g, i + 1, j) && Cell(g, i, j) != 0 then 1 else 0
  {
  }

  /**
   * One iteration of the inner loop of `heuristic` at cell (i, j): the
   * running sums grow by the cell's pairs with its right and lower neighbours.
   */
  method AddPairs(board: GameBoard, i: nat, j: nat, smooth0: nat, mono0: nat, merges0: nat)
    returns (smoothness: nat, monotonicity: nat, merges: nat)
    requires board.Valid() && i < 4 && j < 4
    ensures smoothness == smooth0 + Across(board.cells, 4 * i + j).smooth + Below(board.cells, 4 * i + j).smooth
    ensures monotonicity == mono0 + Across(board.cells, 4 * i + j).mono + Below(board.cells, 4 * i + j).mono
    ensures merges == merges0 + Across(board.cells, 4 * i + j).merges + Below(board.cells, 4 * i + j).merges
  {
    ghost var g := board.cells;
    AcrossParts(g, i, j);
    BelowParts(g, i, j);
    smoothness, monotonicity, merges := smooth0, mono0, merges0;
    var value := board.grid[i, j];
    assert value == Cell(g, i, j);
    if j < 3 {
      var right := board.grid[i, j + 1];
      assert right == Cell(g, i, j + 1);
      if value != 0 && right != 0 {
        smoothness := smoothness + AbsDiff(value, right);
      }
    }
    if i < 3 {
      var down := board.grid[i + 1, j];
      assert down == Cell(g, i + 1, j);
      if value != 0 && down != 0 {
        smoothness := smoothness + AbsDiff(value, down);
      }
    }
    assert smoothness == smooth0 + Across(g, 4 * i + j).smooth + Below(g, 4 * i + j).smooth;
    if value != 0 {
      if j < 3 {
        monotonicity := monotonicity + SatSub(value, board.grid[i, j + 1]);
      }
      if i < 3 {
        monotonicity := monotonicity + SatSub(value, board.grid[i + 1, j]);
      }
    }
    assert monotonicity == mono0 + Across(g, 4 * i + j).mono + Below(g, 4 * i + j).mono;
    if i < 3 && value == board.grid[i + 1, j] && value != 0 {
      merges := merges + 1;
    }
    if j < 3 && value == board.grid[i, j + 1] && value != 0 {
      merges := merges + 1;
    }
    assert merges == merges0 + Across(g, 4 * i + j).merges + Below(g, 4 * i + j).merges;
  }

  /**
   * `heuristic`: the largest tile and the empty cells of the flattened grid,
   * then one pass over the cells adding each cell's pairs with its right and
   * lower neighbours.
   */
  method Heuristic(board: GameBoard) returns (h: nat)
    requires board.Valid()
    ensures h == HeuristicValue(board.cells)
  {
    ghost var g := board.cells;
    var maxTile := MaxTile(board.Snapshot());
    var emptyCells := CountEmpty(board);
    var smoothness: nat, monotonicity: nat, merges: nat := 0, 0, 0;
    ghost var n := 0;
    for i := 0 to 4
      invariant g == board.cells
      invariant n == 4 * i
      invariant Score(smoothness, monotonicity, merges) == ScoreUpTo(g, n)
    {
      for j := 0 to 4
        invariant g == board.cells
        invariant n == 4 * i + j
        invariant Score(smoothness, monotonicity, merges) == ScoreUpTo(g, n)
      {
        ghost var s0, m0, g0 := smoothness, monotonicity, merges;
        smoothness, monotonicity, merges := AddPairs(board, i, j, smoothness, monotonicity, merges);
        ScoreStep(g, n, s0, m0, g0, smoothness, monotonicity, merges);
        n := n + 1;
      }
    }
    var corner := 0;
    assert board.grid[0, 0] == Cell(g, 0, 0) && board.grid[0, 3] == Cell(g, 0, 3);
    assert board.grid[3, 0] == Cell(g, 3, 0) && board.grid[3, 3] == Cell(g, 3, 3);
    if board.grid[0, 0] == maxTile || board.grid[0, 3] == maxTile
       || board.grid[3, 0] == maxTile || board.grid[3, 3] == maxTile {
      corner := 1;
    }
    h := 25 * corner + emptyCells + 2 * merges + 2 * monotonicity + 2 * smoothness;
  }
}
