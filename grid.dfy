/**
 * Configurations of the 4x4 board as values: cells, directions, and the four
 * lines a move works on.
 */
module Grid {
  import opened LineRules

  /** A configuration: the 16 cells in row-major order, cell (i, j) at index 4 * i + j; 0 is empty. */
  type Board = g: seq<nat> | |g| == 16
    witness [0, 0, 0, 0, 0, 0, 0, 0, 0, 0, 0, 0, 0, 0, 0, 0]

  /** The board with every cell empty, as `GameBoard::new` starts it. */
  const EmptyBoard: Board := Zeros(16)

  function Cell(g: Board, i: nat, j: nat): nat
    requires i < 4 && j < 4
  {
    g[4 * i + j]
  }

  // ---------------------------------------------------------------------
  // Goal test
  // ---------------------------------------------------------------------

  /** `is_goal`: some tile of the flattened grid equals `goal`. */
  predicate IsGoal(g: Board, goal: nat)
  {
    goal in g
  }

  /** The goal test holds exactly when some cell (i, j) of the grid holds `goal`. */
  lemma IsGoalCharacterization(g: Board, goal: nat)
    ensures IsGoal(g, goal) <==> exists i: nat, j: nat :: i < 4 && j < 4 && Cell(g, i, j) == goal
  {
    if IsGoal(g, goal) {
      var m :| 0 <= m < 16 && g[m] == goal;
      assert Cell(g, m / 4, m % 4) == goal;
    }
  }

  // ---------------------------------------------------------------------
  // Directions
  // ---------------------------------------------------------------------

  datatype Dir = Up | Left | Down | Right

  /** POSSIBLE_MOVES, in the order the source tries them. */
  const PossibleMoves: seq<Dir> := [Up, Left, Down, Right]

  /** The dispatch of `make_move`: any other string is not a direction. */
  function ParseDir(s: string): Option<Dir>
  {
    if s == "left" then Some(Left)
    else if s == "right" then Some(Right)
    else if s == "down" then Some(Down)
    else if s == "up" then Some(Up)
    else None
  }

  /** The name in POSSIBLE_MOVES of a direction; `make_move` recognises it as that direction. */
  function DirName(d: Dir): (s: string)
    ensures ParseDir(s) == Some(d)
  {
    match d
    case Up => assert "up" != "left" && "up" != "right" && "up" != "down"; "up"
    case Left => "left"
    case Down => assert "down" != "left" && "down" != "right"; "down"
    case Right => assert "right" != "left"; "right"
  }

  /** The four names are the only strings `make_move` accepts. */
  lemma ParseDirOnlyNames(s: string)
    ensures ParseDir(s).Some? <==> s in {"left", "right", "down", "up"}
    ensures ParseDir(s).Some? ==> DirName(ParseDir(s).value) == s
  {
  }

  // ---------------------------------------------------------------------
  // Lines: each move works on four independent lines
  // ---------------------------------------------------------------------

  /** Row of position p of line k: rows for Left/Right, columns for Up/Down; position 0 is the edge moved to. */
  function LineRow(d: Dir, k: nat, p: nat): (r: nat)
    requires k < 4 && p < 4
    ensures r < 4
  {
    match d
    case Left => k
    case Right => k
    case Up => p
    case Down => 3 - p
  }

  function LineCol(d: Dir, k: nat, p: nat): (c: nat)
    requires k < 4 && p < 4
    ensures c < 4
  {
    match d
    case Left => p
    case Right => 3 - p
    case Up => k
    case Down => k
  }

  function LineIndex(d: Dir, k: nat, p: nat): (m: nat)
    requires k < 4 && p < 4
    ensures m < 16
  {
    4 * LineRow(d, k, p) + LineCol(d, k, p)
  }

  /** Line k of the board for direction d, read in the direction the tiles travel. */
  function Line(g: Board, d: Dir, k: nat): (l: seq<nat>)
    requires k < 4
    ensures |l| == 4
  {
    seq(4, p requires 0 <= p < 4 => g[LineIndex(d, k, p)])
  }

  /** Position p of line k is the cell at `LineIndex(d, k, p)`. */
  lemma LineAt(g: Board, d: Dir, k: nat, p: nat)
    requires k < 4 && p < 4
    ensures LineIndex(d, k, p) < 16
    ensures Line(g, d, k)[p] == g[LineIndex(d, k, p)]
  {
  }

  function Lines(g: Board, d: Dir): seq<seq<nat>>
  {
    seq(4, k requires 0 <= k < 4 => Line(g, d, k))
  }

  /** The line through cell index m, for direction d. */
  function LineOfCell(d: Dir, m: nat): nat
    requires m < 16
  {
    match d
    case Left => m / 4
    case Right => m / 4
    case Up => m % 4
    case Down => m % 4
  }

  /** The position of cell index m within its line. */
  function PosOfCell(d: Dir, m: nat): nat
    requires m < 16
  {
    match d
    case Left => m % 4
    case Right => 3 - m % 4
    case Up => m / 4
    case Down => 3 - m / 4
  }

  predicate IsLineSet(ls: seq<seq<nat>>)
  {
    |ls| == 4 && forall k :: 0 <= k < 4 ==> |ls[k]| == 4
  }

  /** The board whose lines for direction d are ls. */
  function Assemble(d: Dir, ls: seq<seq<nat>>): Board
    requires IsLineSet(ls)
  {
    seq(16, m requires 0 <= m < 16 => ls[LineOfCell(d, m)][PosOfCell(d, m)])
  }

  /** Row and column of the flat index 4 * r + c. */
  lemma DivMod4(r: nat, c: nat)
    requires c < 4
    ensures (4 * r + c) / 4 == r && (4 * r + c) % 4 == c
  {
  }

  lemma CellOfLine(d: Dir, k: nat, p: nat)
    requires k < 4 && p < 4
    ensures LineIndex(d, k, p) < 16
    ensures LineOfCell(d, LineIndex(d, k, p)) == k && PosOfCell(d, LineIndex(d, k, p)) == p
  {
    DivMod4(LineRow(d, k, p), LineCol(d, k, p));
  }

  lemma LineOfCellInverse(d: Dir, m: nat)
    requires m < 16
    ensures LineOfCell(d, m) < 4 && PosOfCell(d, m) < 4
    ensures LineIndex(d, LineOfCell(d, m), PosOfCell(d, m)) == m
  {
  }

  /** Reading back the lines of an assembled board gives the lines it was assembled from. */
  lemma AssembleLines(d: Dir, ls: seq<seq<nat>>)
    requires IsLineSet(ls)
    ensures Lines(Assemble(d, ls), d) == ls
    ensures forall k :: 0 <= k < 4 ==> Line(Assemble(d, ls), d, k) == ls[k]
  {
    var g := Assemble(d, ls);
    forall k, p | 0 <= k < 4 && 0 <= p < 4
      ensures Line(g, d, k)[p] == ls[k][p]
    {
      CellOfLine(d, k, p);
      LineAt(g, d, k, p);
    }
    forall k | 0 <= k < 4
      ensures Line(g, d, k) == ls[k]
    {
      assert forall p :: 0 <= p < 4 ==> Line(g, d, k)[p] == ls[k][p];
    }
  }

  /** A board is assembled from its own lines, whatever the direction. */
  lemma LinesAssemble(g: Board, d: Dir)
    ensures IsLineSet(Lines(g, d)) && Assemble(d, Lines(g, d)) == g
  {
    forall m | 0 <= m < 16
      ensures Assemble(d, Lines(g, d))[m] == g[m]
    {
      LineOfCellInverse(d, m);
      LineAt(g, d, LineOfCell(d, m), PosOfCell(d, m));
    }
  }

  /** Writing one cell of line k changes that position of line k and no other line. */
  lemma LineUpdate(g: Board, d: Dir, k: nat, p: nat, v: nat)
    requires k < 4 && p < 4
    ensures LineIndex(d, k, p) < 16
    ensures Line(g[LineIndex(d, k, p) := v], d, k) == Line(g, d, k)[p := v]
    ensures forall k' :: 0 <= k' < 4 && k' != k ==> Line(g[LineIndex(d, k, p) := v], d, k') == Line(g, d, k')
  {
    CellOfLine(d, k, p);
    var h: Board := g[LineIndex(d, k, p) := v];
    forall q | 0 <= q < 4
      ensures Line(h, d, k)[q] == Line(g, d, k)[p := v][q]
    {
      CellOfLine(d, k, q);
      LineAt(h, d, k, q);
      LineAt(g, d, k, q);
    }
    forall k', q | 0 <= k' < 4 && k' != k && 0 <= q < 4
      ensures Line(h, d, k')[q] == Line(g, d, k')[q]
    {
      CellOfLine(d, k', q);
      LineAt(h, d, k', q);
      LineAt(g, d, k', q);
    }
  }

  /** A board is determined by its lines in any one direction. */
  lemma LinesDetermine(g: Board, d: Dir, ls: seq<seq<nat>>)
    requires IsLineSet(ls)
    requires forall k :: 0 <= k < 4 ==> Line(g, d, k) == ls[k]
    ensures g == Assemble(d, ls)
  {
    LinesAssemble(g, d);
    assert Lines(g, d) == ls;
  }

  // ---------------------------------------------------------------------
  // Sums and counts over the whole board
  // ---------------------------------------------------------------------

  /** 1 for a tile, 0 for an empty cell. */
  function Ind(x: nat): nat
  {
    if x != 0 then 1 else 0
  }

  lemma Sum4(l: seq<nat>)
    requires |l| == 4
    ensures Sum(l) == l[0] + l[1] + l[2] + l[3]
    ensures Count(l) == Ind(l[0]) + Ind(l[1]) + Ind(l[2]) + Ind(l[3])
  {
    var a, b, c := l[..1], l[..2], l[..3];
    assert a[..0] == [];
    assert Sum(a) == l[0] && Count(a) == Ind(l[0]);
    assert b[..1] == a;
    assert Sum(b) == Sum(a) + l[1] && Count(b) == Count(a) + Ind(l[1]);
    assert c[..2] == b;
    assert Sum(c) == Sum(b) + l[2] && Count(c) == Count(b) + Ind(l[2]);
    assert l[..3] == c;
  }

  lemma Sum16(g: Board)
    ensures Sum(g) == g[0] + g[1] + g[2] + g[3] + g[4] + g[5] + g[6] + g[7]
                    + g[8] + g[9] + g[10] + g[11] + g[12] + g[13] + g[14] + g[15]
    ensures Count(g) == Ind(g[0]) + Ind(g[1]) + Ind(g[2]) + Ind(g[3]) + Ind(g[4]) + Ind(g[5])
                      + Ind(g[6]) + Ind(g[7]) + Ind(g[8]) + Ind(g[9]) + Ind(g[10]) + Ind(g[11])
                      + Ind(g[12]) + Ind(g[13]) + Ind(g[14]) + Ind(g[15])
  {
    var r0, r1, r2, r3 := g[..4], g[4..8], g[8..12], g[12..];
    assert g == r0 + r1 + r2 + r3;
    SumAppend(r0 + r1 + r2, r3);
    SumAppend(r0 + r1, r2);
    SumAppend(r0, r1);
    Sum4(r0);
    Sum4(r1);
    Sum4(r2);
    Sum4(r3);
  }

  function RowTotal(g: Board, k: nat): nat
    requires k < 4
  {
    g[4 * k] + g[4 * k + 1] + g[4 * k + 2] + g[4 * k + 3]
  }

  function ColTotal(g: Board, k: nat): nat
    requires k < 4
  {
    g[k] + g[k + 4] + g[k + 8] + g[k + 12]
  }

  function RowTiles(g: Board, k: nat): nat
    requires k < 4
  {
    Ind(g[4 * k]) + Ind(g[4 * k + 1]) + Ind(g[4 * k + 2]) + Ind(g[4 * k + 3])
  }

  function ColTiles(g: Board, k: nat): nat
    requires k < 4
  {
    Ind(g[k]) + Ind(g[k + 4]) + Ind(g[k + 8]) + Ind(g[k + 12])
  }

  /** A line's total and tile count, cell by cell. */
  lemma LineTotals(g: Board, d: Dir, k: nat)
    requires k < 4
    ensures Sum(Line(g, d, k)) == g[LineIndex(d, k, 0)] + g[LineIndex(d, k, 1)] + g[LineIndex(d, k, 2)] + g[LineIndex(d, k, 3)]
    ensures Count(Line(g, d, k)) == Ind(g[LineIndex(d, k, 0)]) + Ind(g[LineIndex(d, k, 1)])
                                  + Ind(g[LineIndex(d, k, 2)]) + Ind(g[LineIndex(d, k, 3)])
  {
    var l := Line(g, d, k);
    LineAt(g, d, k, 0);
    LineAt(g, d, k, 1);
    LineAt(g, d, k, 2);
    LineAt(g, d, k, 3);
    Sum4(l);
  }

  /** Where the four positions of a line k lie on the grid, direction by direction. */
  lemma LineIndices(d: Dir, k: nat)
    requires k < 4
    ensures d.Left? ==> (LineIndex(d, k, 0) == 4 * k && LineIndex(d, k, 1) == 4 * k + 1
                         && LineIndex(d, k, 2) == 4 * k + 2 && LineIndex(d, k, 3) == 4 * k + 3)
    ensures d.Right? ==> (LineIndex(d, k, 0) == 4 * k + 3 && LineIndex(d, k, 1) == 4 * k + 2
                          && LineIndex(d, k, 2) == 4 * k + 1 && LineIndex(d, k, 3) == 4 * k)
    ensures d.Up? ==> (LineIndex(d, k, 0) == k && LineIndex(d, k, 1) == k + 4
                       && LineIndex(d, k, 2) == k + 8 && LineIndex(d, k, 3) == k + 12)
    ensures d.Down? ==> (LineIndex(d, k, 0) == k + 12 && LineIndex(d, k, 1) == k + 8
                         && LineIndex(d, k, 2) == k + 4 && LineIndex(d, k, 3) == k)
  {
  }

  /** The cells of a horizontal line are those of row k. */
  lemma RowCellsTotal(g: Board, d: Dir, k: nat)
    requires k < 4 && (d.Left? || d.Right?)
    ensures g[LineIndex(d, k, 0)] + g[LineIndex(d, k, 1)] + g[LineIndex(d, k, 2)] + g[LineIndex(d, k, 3)] == RowTotal(g, k)
  {
    LineIndices(d, k);
  }

  lemma RowCellsTiles(g: Board, d: Dir, k: nat)
    requires k < 4 && (d.Left? || d.Right?)
    ensures Ind(g[LineIndex(d, k, 0)]) + Ind(g[LineIndex(d, k, 1)]) + Ind(g[LineIndex(d, k, 2)]) + Ind(g[LineIndex(d, k, 3)])
            == RowTiles(g, k)
  {
    LineIndices(d, k);
  }

  /** The cells of a vertical line are those of column k. */
  lemma ColCellsTotal(g: Board, d: Dir, k: nat)
    requires k < 4 && (d.Up? || d.Down?)
    ensures g[LineIndex(d, k, 0)] + g[LineIndex(d, k, 1)] + g[LineIndex(d, k, 2)] + g[LineIndex(d, k, 3)] == ColTotal(g, k)
  {
    LineIndices(d, k);
    var c0, c1, c2, c3 := g[k], g[k + 4], g[k + 8], g[k + 12];
    assert ColTotal(g, k) == c0 + c1 + c2 + c3;
    if d.Up? {
      assert g[LineIndex(d, k, 0)] == c0 && g[LineIndex(d, k, 1)] == c1 && g[LineIndex(d, k, 2)] == c2 && g[LineIndex(d, k, 3)] == c3;
    } else {
      assert g[LineIndex(d, k, 0)] == c3 && g[LineIndex(d, k, 1)] == c2 && g[LineIndex(d, k, 2)] == c1 && g[LineIndex(d, k, 3)] == c0;
    }
  }

  lemma ColCellsTiles(g: Board, d: Dir, k: nat)
    requires k < 4 && (d.Up? || d.Down?)
    ensures Ind(g[LineIndex(d, k, 0)]) + Ind(g[LineIndex(d, k, 1)]) + Ind(g[LineIndex(d, k, 2)]) + Ind(g[LineIndex(d, k, 3)])
            == ColTiles(g, k)
  {
    LineIndices(d, k);
  }

  /** A line's total and tile count are those of row k (Left, Right) or column k (Up, Down). */
  lemma LineSum(g: Board, d: Dir, k: nat)
    requires k < 4
    ensures Sum(Line(g, d, k)) == if d.Left? || d.Right? then RowTotal(g, k) else ColTotal(g, k)
    ensures Count(Line(g, d, k)) == if d.Left? || d.Right? then RowTiles(g, k) else ColTiles(g, k)
  {
    LineTotals(g, d, k);
    if d.Left? || d.Right? {
      RowCellsTotal(g, d, k);
      RowCellsTiles(g, d, k);
    } else {
      ColCellsTotal(g, d, k);
      ColCellsTiles(g, d, k);
    }
  }

  /** The board total and tile count are those of its four lines, in every direction. */
  lemma LinesPartition(g: Board, d: Dir)
    ensures Sum(g) == Sum(Line(g, d, 0)) + Sum(Line(g, d, 1)) + Sum(Line(g, d, 2)) + Sum(Line(g, d, 3))
    ensures Count(g) == Count(Line(g, d, 0)) + Count(Line(g, d, 1)) + Count(Line(g, d, 2)) + Count(Line(g, d, 3))
  {
    Sum16(g);
    LineSum(g, d, 0);
    LineSum(g, d, 1);
    LineSum(g, d, 2);
    LineSum(g, d, 3);
  }

  /** A line with an empty cell leaves the board with an empty cell. */
  lemma LineGapIsBoardGap(g: Board, d: Dir, k: nat)
    requires k < 4 && Count(Line(g, d, k)) < 4
    ensures Count(g) < 16
  {
    assert Count(Line(g, d, 0)) < 4 || Count(Line(g, d, 1)) < 4 || Count(Line(g, d, 2)) < 4 || Count(Line(g, d, 3)) < 4 by {
      if k == 0 {
      } else if k == 1 {
      } else if k == 2 {
      } else {
      }
    }
    CountBound(Line(g, d, 0));
    CountBound(Line(g, d, 1));
    CountBound(Line(g, d, 2));
    CountBound(Line(g, d, 3));
    LinesPartition(g, d);
  }

  /** Every cell of the empty board is empty. */
  lemma EmptyBoardCells()
    ensures forall m :: 0 <= m < 16 ==> EmptyBoard[m] == 0
  {
  }

  /** The empty grid holds no tile and has total 0. */
  lemma EmptyBoardTotals()
    ensures Sum(EmptyBoard) == 0 && Count(EmptyBoard) == 0
  {
    Sum16(EmptyBoard);
  }
}
