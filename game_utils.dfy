/**
 * `GameBoard`: the 4x4 grid as a mutable object, moved in place.
 *
 * The four `move_left/right/up/down` loops are mirror and transpose images
 * of one another: each walks the cells of one line after another through a
 * direction-dependent index map (a row left to right, a row right to left,
 * a column top to bottom, a column bottom to top).  Here they are one set of
 * loops over positions 0..3 of line k, reaching cell
 * `(LineRow(d, k, p), LineCol(d, k, p))` of the grid.
 */
module GameUtils {
  import opened LineRules
  import opened LineSteps
  import opened Grid
  import opened Spawning
  import opened Moves

  class GameBoard {
    /** The 4x4 array of tiles (0 for an empty cell). */
    const grid: array2<nat>
    /** The tiles as a board value, row by row. */
    ghost var cells: Board

    ghost predicate Valid()
      reads this, grid
    {
      && grid.Length0 == 4 && grid.Length1 == 4
      && forall i, j :: 0 <= i < 4 && 0 <= j < 4 ==> grid[i, j] == cells[4 * i + j]
    }

    /** A board holding the cells of b (a `clone` of the board whose value is b). */
    constructor FromBoard(b: Board)
      ensures Valid() && fresh(grid)
      ensures cells == b
    {
      grid := new nat[4, 4]((i: nat, j: nat) requires i < 4 && j < 4 => b[4 * i + j]);
      cells := b;
    }

    /** A board whose array is a copy of `src`, a 4x4 array holding the tiles b. */
    constructor FromGrid(src: array2<nat>, ghost b: Board)
      requires src.Length0 == 4 && src.Length1 == 4
      requires forall i, j :: 0 <= i < 4 && 0 <= j < 4 ==> src[i, j] == b[4 * i + j]
      ensures Valid() && fresh(grid)
      ensures cells == b
    {
      grid := new nat[4, 4]((i: nat, j: nat) reads src requires i < 4 && j < 4 => src[i, j]);
      cells := b;
    }

    /** `GameBoard::new`: an all-empty grid, then two spawns. */
    constructor New(c1: SpawnChoice, c2: SpawnChoice)
      requires NewChoices(c1, c2)
      ensures Valid() && fresh(grid)
      ensures cells == NewBoard(c1, c2)
    {
      grid := new nat[4, 4]((i: nat, j: nat) => 0);
      cells := EmptyBoard;
      new;
      EmptyBoardCells();
      EmptyBoardTotals();
      ChoicesOnEmpty(cells, c1, c2);
      SpawnNewTile(c1);
      SpawnNewTile(c2);
    }

    /** `copy`: a new board with its own grid holding the same cells. */
    method Copy() returns (c: GameBoard)
      requires Valid()
      ensures fresh(c) && fresh(c.grid) && c.Valid()
      ensures c.cells == cells
    {
      c := new GameBoard.FromGrid(grid, cells);
    }

    /** `is_goal`: some cell of the grid holds `goal`. */
    predicate HasGoal(goal: nat)
      reads this, grid
      requires Valid()
      ensures HasGoal(goal) <==> IsGoal(cells, goal)
    {
      IsGoalCharacterization(cells, goal);
      assert forall i: nat, j: nat :: i < 4 && j < 4 ==> Cell(cells, i, j) == grid[i, j];
      exists i: nat, j: nat :: i < 4 && j < 4 && grid[i, j] == goal
    }

    /** The tiles of the grid as a value, row by row (what a `clone` stored in a set or map holds). */
    function Snapshot(): (b: Board)
      reads this, grid
      requires Valid()
      ensures b == cells
    {
      var s := seq(16, m requires 0 <= m < 16 reads this, grid => grid[CellAt(m).0, CellAt(m).1]);
      assert forall m :: 0 <= m < 16 ==> s[m] == cells[FlatIndex(CellAt(m))];
      s
    }

    /** Position p of line k, read from the grid. */
    function ReadAt(d: Dir, k: nat, p: nat): (v: nat)
      reads this, grid
      requires Valid() && k < 4 && p < 4
      ensures v == Line(cells, d, k)[p]
    {
      LineAt(cells, d, k, p);
      grid[LineRow(d, k, p), LineCol(d, k, p)]
    }

    method SetCell(r: nat, c: nat, v: nat)
      modifies this, grid
      requires Valid() && r < 4 && c < 4
      ensures Valid()
      ensures cells == old(cells)[4 * r + c := v]
    {
      grid[r, c] := v;
      cells := cells[4 * r + c := v];
    }

    /** Write position p of line k; no other line changes. */
    method WriteAt(d: Dir, k: nat, p: nat, v: nat)
      modifies this, grid
      requires Valid() && k < 4 && p < 4
      ensures Valid()
      ensures Line(cells, d, k) == old(Line(cells, d, k))[p := v]
      ensures forall k' :: 0 <= k' < 4 && k' != k ==> Line(cells, d, k') == old(Line(cells, d, k'))
    {
      ghost var g := cells;
      SetCell(LineRow(d, k, p), LineCol(d, k, p), v);
      LineUpdate(g, d, k, p, v);
    }

    /**
     * One iteration of the compaction loop, at position i of line k: a tile
     * with an empty cell before it is moved to `target`, its own cell emptied.
     */
    method CompactCell(d: Dir, k: nat, ghost l0: seq<nat>, i: nat, target: nat) returns (next: nat, shifted: bool)
      modifies this, grid
      requires Valid() && k < 4 && i < 4 && |l0| == 4
      requires target == Count(l0[..i])
      requires Line(cells, d, k) == Compact(l0[..i]) + l0[i..]
      ensures Valid()
      ensures next == Count(l0[..i + 1])
      ensures Line(cells, d, k) == Compact(l0[..i + 1]) + l0[i + 1..]
      ensures shifted == (l0[i] != 0 && Count(l0[..i]) < i)
      ensures forall k' :: 0 <= k' < 4 && k' != k ==> Line(cells, d, k') == old(Line(cells, d, k'))
    {
      var x := ReadAt(d, k, i);
      CompactLineStep(l0, i);
      next, shifted := target, false;
      if x != 0 {
        if target != i {
          WriteAt(d, k, target, x);
          WriteAt(d, k, i, 0);
          shifted := true;
        }
        next := target + 1;
      }
    }

    /**
     * The compaction loop of a move on line k: a `target` index follows the
     * tiles, and every tile with an empty cell before it is moved to `target`.
     * `shifted` is raised exactly when a tile moved.
     */
    method CompactInPlace(d: Dir, k: nat) returns (shifted: bool)
      modifies this, grid
      requires Valid() && k < 4
      ensures Valid()
      ensures Line(cells, d, k) == Compact(old(Line(cells, d, k)))
      ensures shifted == (Compact(old(Line(cells, d, k))) != old(Line(cells, d, k)))
      ensures forall k' :: 0 <= k' < 4 && k' != k ==> Line(cells, d, k') == old(Line(cells, d, k'))
    {
      ghost var g0 := cells;
      ghost var l0 := Line(g0, d, k);
      shifted := false;
      var target := 0;
      var i := 0;
      while i < 4
        invariant Valid() && i <= 4
        invariant target == Count(l0[..i])
        invariant Line(cells, d, k) == Compact(l0[..i]) + l0[i..]
        invariant shifted == (Compact(l0[..i]) != l0[..i])
        invariant forall k' :: 0 <= k' < 4 && k' != k ==> Line(cells, d, k') == Line(g0, d, k')
      {
        var s;
        target, s := CompactCell(d, k, l0, i, target);
        CompactStepMoved(l0, i);
        shifted := shifted || s;
        i := i + 1;
      }
      assert l0[..4] == l0;
    }

    /** Double the tile at position i of line k and empty position i + 1. */
    method MergePairAt(d: Dir, k: nat, i: nat)
      modifies this, grid
      requires Valid() && k < 4 && i < 3
      ensures Valid()
      ensures Line(cells, d, k) == old(Line(cells, d, k))[i := 2 * old(Line(cells, d, k))[i]][i + 1 := 0]
      ensures forall k' :: 0 <= k' < 4 && k' != k ==> Line(cells, d, k') == old(Line(cells, d, k'))
    {
      var a := ReadAt(d, k, i);
      WriteAt(d, k, i, 2 * a);
      WriteAt(d, k, i + 1, 0);
    }

    /**
     * The merge loop of one pass on line k: scan for the first two equal
     * neighbouring tiles, double the first, empty the second, and stop.
     */
    method MergeFirstInPlace(d: Dir, k: nat) returns (merged: bool)
      modifies this, grid
      requires Valid() && k < 4
      ensures Valid()
      ensures Line(cells, d, k) == MergeFirst(old(Line(cells, d, k)))
      ensures merged == HasPair(old(Line(cells, d, k)))
      ensures forall k' :: 0 <= k' < 4 && k' != k ==> Line(cells, d, k') == old(Line(cells, d, k'))
    {
      ghost var g0 := cells;
      ghost var l0 := Line(g0, d, k);
      merged := false;
      var i := 0;
      while i < 3
        invariant Valid() && i <= 3
        invariant cells == g0
        invariant forall q :: 0 <= q < i ==> !IsPair(l0, q)
      {
        var a := ReadAt(d, k, i);
        var b := ReadAt(d, k, i + 1);
        if a != 0 && a == b {
          MergePairAt(d, k, i);
          MergeAt(l0, i);
          merged := true;
          break;
        }
        i := i + 1;
      }
      if !merged {
        MergeNone(l0);
      }
    }

    /** All the loops of a move on line k: compact, then three merge-and-compact passes. */
    method SlideLineInPlace(d: Dir, k: nat) returns (moved: bool)
      modifies this, grid
      requires Valid() && k < 4
      ensures Valid()
      ensures Line(cells, d, k) == SlideLine(old(Line(cells, d, k)))
      ensures moved == SlideMoved(old(Line(cells, d, k)))
      ensures forall k' :: 0 <= k' < 4 && k' != k ==> Line(cells, d, k') == old(Line(cells, d, k'))
    {
      ghost var g0 := cells;
      ghost var l0 := Line(g0, d, k);
      moved := CompactInPlace(d, k);
      var pass := 0;
      while pass < 3
        invariant Valid() && pass <= 3
        invariant Line(cells, d, k) == Slide(l0, pass).line
        invariant moved == Slide(l0, pass).moved
        invariant forall k' :: 0 <= k' < 4 && k' != k ==> Line(cells, d, k') == Line(g0, d, k')
      {
        var merged := MergeFirstInPlace(d, k);
        var shifted := CompactInPlace(d, k);
        moved := moved || merged || shifted;
        pass := pass + 1;
      }
    }

    /** The slide-and-merge phase of `move_<d>`: every line in turn; `moved` is raised by any of them. */
    method SlideAll(d: Dir) returns (moved: bool)
      modifies this, grid
      requires Valid()
      ensures Valid()
      ensures cells == SlideBoard(old(cells), d)
      ensures moved == Moved(old(cells), d)
    {
      ghost var g0 := cells;
      moved := false;
      var k := 0;
      while k < 4
        invariant Valid() && k <= 4
        invariant forall k' :: 0 <= k' < k ==> Line(cells, d, k') == SlideLine(Line(g0, d, k'))
        invariant forall k' :: k <= k' < 4 ==> Line(cells, d, k') == Line(g0, d, k')
        invariant moved == MovedUpTo(g0, d, k)
      {
        var m := SlideLineInPlace(d, k);
        moved := moved || m;
        k := k + 1;
      }
      SlideLoopsResult(cells, g0, d, moved, k);
    }

    /** `move_left/right/up/down`: slide and merge, then spawn one tile if anything moved. */
    method Move(d: Dir, c: SpawnChoice) returns (moved: bool)
      modifies this, grid
      requires Valid() && ValidChoice(SlideBoard(cells, d), c)
      ensures Valid()
      ensures moved == Moved(old(cells), d)
      ensures cells == MoveResult(old(cells), d, c)
    {
      moved := SlideAll(d);
      if moved {
        SpawnNewTile(c);
      }
    }

    /** `make_move`: dispatch on the direction's name; any other string is refused. */
    method MakeMove(direction: string, c: SpawnChoice) returns (success: bool)
      modifies this, grid
      requires Valid()
      requires ParseDir(direction).Some? ==> ValidChoice(SlideBoard(cells, ParseDir(direction).value), c)
      ensures Valid()
      ensures (success, cells) == ApplyMove(old(cells), direction, c)
    {
      if direction == "left" {
        success := Move(Left, c);
      } else if direction == "right" {
        success := Move(Right, c);
      } else if direction == "down" {
        success := Move(Down, c);
      } else if direction == "up" {
        success := Move(Up, c);
      } else {
        success := false;
      }
    }

    /**
     * `spawn_new_tile`: list the empty cells row by row into `positions`,
     * then write a 2 (when `prob > 1`) or a 4 into the `toChange`-th one.
     */
    method SpawnNewTile(c: SpawnChoice)
      modifies this, grid
      requires Valid() && ValidChoice(cells, c)
      ensures Valid()
      ensures cells == Spawn(old(cells), c)
    {
      var positions: seq<(nat, nat)> := [];
      var i := 0;
      while i < 4
        invariant i <= 4 && Valid() && cells == old(cells)
        invariant positions == EmptyBefore(cells, 4 * i)
      {
        var j := 0;
        while j < 4
          invariant j <= 4 && Valid() && cells == old(cells)
          invariant positions == EmptyBefore(cells, 4 * i + j)
        {
          EmptyBeforeStep(cells, i, j);
          if grid[i, j] == 0 {
            positions := positions + [(i, j)];
          }
          j := j + 1;
        }
        i := i + 1;
      }
      assert positions == EmptyCells(cells);
      EmptyCellsSpec(cells);
      if |positions| > 0 {
        var (row, col) := positions[c.toChange];
        if c.prob > 1 {
          SetCell(row, col, 2);
        } else {
          SetCell(row, col, 4);
        }
      }
    }

    /** One iteration of `get_possible_new_states`: move a copy of the board in direction d. */
    method MovedCopy(d: Dir, c: SpawnChoice) returns (copy: GameBoard, success: bool)
      requires Valid() && ValidChoice(SlideBoard(cells, d), c)
      ensures fresh(copy) && fresh(copy.grid) && copy.Valid()
      ensures success == Moved(cells, d) && copy.cells == MoveResult(cells, d, c)
    {
      copy := Copy();
      success := copy.MakeMove(DirName(d), c);
      ApplyMoveByName(cells, d, c);
    }

    /** Each board of `states` is valid and holds the matching value of `boards`. */
    static ghost predicate AllValid(states: seq<GameBoard>, boards: seq<Board>)
      reads set i | 0 <= i < |states| :: states[i]
      reads set i | 0 <= i < |states| :: states[i].grid
    {
      |states| == |boards| && forall i :: 0 <= i < |states| ==> states[i].Valid() && states[i].cells == boards[i]
    }

    static lemma AllValidSnoc(states: seq<GameBoard>, boards: seq<Board>, b: GameBoard)
      requires AllValid(states, boards) && b.Valid()
      ensures AllValid(states + [b], boards + [b.cells])
    {
      var s, t := states + [b], boards + [b.cells];
      forall i | 0 <= i < |s|
        ensures s[i].Valid() && s[i].cells == t[i]
      {
        if i < |states| {
          assert s[i] == states[i] && t[i] == boards[i];
        }
      }
    }

    /**
     * The body of the loop of `get_possible_new_states` for direction n of
     * `PossibleMoves`: move a copy of the board and append it to `states`
     * when the move succeeded.
     */
    method AddMovedCopy(cs: seq<SpawnChoice>, n: nat, states: seq<GameBoard>) returns (states': seq<GameBoard>, success: bool)
      requires Valid() && ValidChoices(cells, cs) && n < 4
      requires AllValid(states, NewStatesUpTo(cells, cs, n))
      ensures success == Moved(cells, PossibleMoves[n])
      ensures AllValid(states', NewStatesUpTo(cells, cs, n + 1))
      ensures |states'| == |states| + (if success then 1 else 0)
      ensures forall i :: 0 <= i < |states| ==> states'[i] == states[i]
      ensures forall i :: |states| <= i < |states'| ==> fresh(states'[i]) && fresh(states'[i].grid)
    {
      var d := PossibleMoves[n];
      assert ValidChoice(SlideBoard(cells, d), cs[n]);
      var copy;
      copy, success := MovedCopy(d, cs[n]);
      NewStatesStep(cells, cs, n);
      if success {
        AllValidSnoc(states, NewStatesUpTo(cells, cs, n), copy);
        states' := states + [copy];
      } else {
        states' := states;
      }
    }

    /**
     * `get_possible_new_states`: for each direction of `PossibleMoves`, move
     * a copy of the board and keep the copies whose move succeeded.
     */
    method GetPossibleNewStates(cs: seq<SpawnChoice>) returns (states: seq<GameBoard>)
      requires Valid() && ValidChoices(cells, cs)
      ensures |states| == |PossibleNewStates(cells, cs)|
      ensures forall i :: 0 <= i < |states| ==> fresh(states[i]) && fresh(states[i].grid)
      ensures AllValid(states, PossibleNewStates(cells, cs))
    {
      states := [];
      var n := 0;
      while n < 4
        invariant n <= 4
        invariant AllValid(states, NewStatesUpTo(cells, cs, n))
        invariant forall i :: 0 <= i < |states| ==> fresh(states[i]) && fresh(states[i].grid)
      {
        var success;
        states, success := AddMovedCopy(cs, n, states);
        n := n + 1;
      }
    }
  }
}
