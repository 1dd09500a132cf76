/**
 * The transition rule of a move: slide and merge every line, then spawn one
 * tile if anything moved; and the successors `get_possible_new_states` and
 * the start board `GameBoard::new` build from it.
 */
module Moves {
  import opened LineRules
  import opened Grid
  import opened Spawning

  /** Every line of g for direction d, slid and merged. */
  function SlidLines(g: Board, d: Dir): (ls: seq<seq<nat>>)
    ensures IsLineSet(ls)
  {
    seq(4, k requires 0 <= k < 4 => SlideLine(Line(g, d, k)))
  }

  /** The grid after the loops of `move_left/right/up/down`, before the spawn. */
  function SlideBoard(g: Board, d: Dir): Board
  {
    Assemble(d, SlidLines(g, d))
  }

  /** The `moved` flag after the loops over the first n lines. */
  predicate MovedUpTo(g: Board, d: Dir, n: nat)
    requires n <= 4
  {
    n > 0 && (MovedUpTo(g, d, n - 1) || SlideMoved(Line(g, d, n - 1)))
  }

  /**
   * The flag a move raises: some line changed. It is raised exactly when the
   * slid grid differs from g (`MovedIffChanged`).
   */
  predicate Moved(g: Board, d: Dir)
  {
    MovedUpTo(g, d, 4)
  }

  /** None of the first n directions of `PossibleMoves` moves g. */
  predicate NoneMoved(g: Board, n: nat)
    requires n <= 4
  {
    n == 0 || (NoneMoved(g, n - 1) && !Moved(g, PossibleMoves[n - 1]))
  }

  /** None of the four directions of `PossibleMoves` moves anything. */
  predicate Stuck(g: Board)
  {
    NoneMoved(g, 4)
  }

  /** Each line of the slid board is the slid line. */
  lemma SlideBoardLines(g: Board, d: Dir)
    ensures forall k :: 0 <= k < 4 ==> Line(SlideBoard(g, d), d, k) == SlideLine(Line(g, d, k))
  {
    AssembleLines(d, SlidLines(g, d));
  }

  /** The slide-and-merge phase keeps the board total and never adds a tile. */
  lemma SlideBoardTotals(g: Board, d: Dir)
    ensures Sum(SlideBoard(g, d)) == Sum(g)
    ensures Count(SlideBoard(g, d)) <= Count(g)
  {
    var s := SlideBoard(g, d);
    AssembleLines(d, SlidLines(g, d));
    SlideLineConserves(Line(g, d, 0));
    SlideLineConserves(Line(g, d, 1));
    SlideLineConserves(Line(g, d, 2));
    SlideLineConserves(Line(g, d, 3));
    LinesPartition(g, d);
    LinesPartition(s, d);
  }

  /** After the slide every line keeps its total and ends compacted, with no neighbouring equal tiles. */
  lemma SlideBoardShape(g: Board, d: Dir)
    ensures forall k :: 0 <= k < 4 ==> Sum(Line(SlideBoard(g, d), d, k)) == Sum(Line(g, d, k))
    ensures forall k :: 0 <= k < 4 ==>
      IsCompacted(Line(SlideBoard(g, d), d, k)) && !HasPair(Line(SlideBoard(g, d), d, k))
  {
    var s := SlideBoard(g, d);
    SlideBoardLines(g, d);
    forall k | 0 <= k < 4
      ensures Sum(Line(s, d, k)) == Sum(Line(g, d, k))
      ensures IsCompacted(Line(s, d, k)) && !HasPair(Line(s, d, k))
    {
      SlideLineConserves(Line(g, d, k));
      SlideLineNoPair(Line(g, d, k));
    }
  }

  /** A board whose every line is the slid line of g is the slid board of g. */
  lemma SlidLinesBoard(b: Board, g: Board, d: Dir)
    requires forall k :: 0 <= k < 4 ==> Line(b, d, k) == SlideLine(Line(g, d, k))
    ensures b == SlideBoard(g, d)
  {
    LinesDetermine(b, d, SlidLines(g, d));
  }

  /** Two sequences differ on a prefix one longer exactly when they differ on the shorter one or at its end. */
  lemma PrefixStep<T>(a: seq<T>, b: seq<T>, n: nat)
    requires n < |a| && n < |b|
    ensures a[..n + 1] != b[..n + 1] <==> a[..n] != b[..n] || a[n] != b[n]
  {
    assert a[..n + 1] == a[..n] + [a[n]];
    assert b[..n + 1] == b[..n] + [b[n]];
    if a[..n + 1] == b[..n + 1] {
      assert a[..n + 1][..n] == a[..n] && b[..n + 1][..n] == b[..n];
      assert a[..n + 1][n] == a[n] && b[..n + 1][n] == b[n];
    }
  }

  /** After n lines the flag is raised exactly when one of those lines changed. */
  lemma {:induction false} MovedUpToChanged(g: Board, d: Dir, n: nat)
    requires n <= 4
    ensures MovedUpTo(g, d, n) <==> SlidLines(g, d)[..n] != Lines(g, d)[..n]
  {
    if n > 0 {
      MovedUpToChanged(g, d, n - 1);
      SlideMovedIffChanged(Line(g, d, n - 1));
      PrefixStep(SlidLines(g, d), Lines(g, d), n - 1);
    }
  }

  /** The slid board equals the board exactly when every line is left as it was. */
  lemma SlideBoardFixed(g: Board, d: Dir)
    ensures SlideBoard(g, d) == g <==> SlidLines(g, d) == Lines(g, d)
  {
    LinesAssemble(g, d);
    AssembleLines(d, SlidLines(g, d));
  }

  /** After all four lines the flag is raised exactly when some line changed. */
  lemma MovedAllLines(g: Board, d: Dir)
    ensures MovedUpTo(g, d, 4) <==> SlidLines(g, d) != Lines(g, d)
  {
    MovedUpToChanged(g, d, 4);
    var s, l := SlidLines(g, d), Lines(g, d);
    assert s[..4] == s && l[..4] == l;
  }

  /** The flag the loops compute is raised exactly when the grid changed. */
  lemma MovedIffChanged(g: Board, d: Dir)
    ensures Moved(g, d) <==> SlideBoard(g, d) != g
  {
    MovedAllLines(g, d);
    SlideBoardFixed(g, d);
  }

  /**
   * What the loops of a move leave behind once all n == 4 lines are done:
   * the slid board, and the flag raised exactly when it differs from g.
   */
  lemma SlideLoopsResult(b: Board, g: Board, d: Dir, moved: bool, n: nat)
    requires n == 4
    requires forall k :: 0 <= k < n ==> Line(b, d, k) == SlideLine(Line(g, d, k))
    requires moved == MovedUpTo(g, d, n)
    ensures b == SlideBoard(g, d)
    ensures moved == Moved(g, d)
  {
    SlidLinesBoard(b, g, d);
    MovedIffChanged(g, d);
  }

  /** Sliding twice in the same direction: the second slide changes nothing and reports no move. */
  lemma SlideBoardIdempotent(g: Board, d: Dir)
    ensures SlideBoard(SlideBoard(g, d), d) == SlideBoard(g, d)
    ensures !Moved(SlideBoard(g, d), d)
  {
    var s := SlideBoard(g, d);
    AssembleLines(d, SlidLines(g, d));
    forall k | 0 <= k < 4
      ensures SlidLines(s, d)[k] == Lines(s, d)[k]
    {
      SlideLineIdempotent(Line(g, d, k));
    }
    SlideBoardFixed(s, d);
    MovedIffChanged(s, d);
  }

  // ---------------------------------------------------------------------
  // A whole move
  // ---------------------------------------------------------------------

  /** The grid after `move_<d>`: slid and merged, plus one spawned tile when the flag is raised. */
  function MoveResult(g: Board, d: Dir, c: SpawnChoice): Board
    requires ValidChoice(SlideBoard(g, d), c)
  {
    if Moved(g, d) then Spawn(SlideBoard(g, d), c) else SlideBoard(g, d)
  }

  /** A line the slide changed ends with an empty cell. */
  lemma ChangedLineHasGap(g: Board, d: Dir, k: nat)
    requires k < 4 && SlidLines(g, d)[k] != Lines(g, d)[k]
    ensures Count(Line(SlideBoard(g, d), d, k)) < 4
  {
    var l := Line(g, d, k);
    SlideMovedIffChanged(l);
    SlideMovedLeavesGap(l);
    AssembleLines(d, SlidLines(g, d));
  }

  /** After a move that raised the flag, the slid board has an empty cell. */
  lemma MovedLeavesEmptyCell(g: Board, d: Dir)
    requires Moved(g, d)
    ensures Count(SlideBoard(g, d)) < 16
  {
    MovedAllLines(g, d);
    var k :| 0 <= k < 4 && SlidLines(g, d)[k] != Lines(g, d)[k];
    ChangedLineHasGap(g, d, k);
    LineGapIsBoardGap(SlideBoard(g, d), d, k);
  }

  /** A move that reports false changes nothing and spawns nothing. */
  lemma NotMovedUnchanged(g: Board, d: Dir, c: SpawnChoice)
    requires ValidChoice(SlideBoard(g, d), c) && !Moved(g, d)
    ensures MoveResult(g, d, c) == g
  {
    MovedIffChanged(g, d);
  }

  /**
   * A move that reports true spawns exactly one tile into a cell that was
   * empty after sliding, so the board total rises by exactly 2 or 4 and the
   * result differs from the board moved.
   */
  lemma MovedSpawnsOne(g: Board, d: Dir, c: SpawnChoice)
    requires ValidChoice(SlideBoard(g, d), c) && Moved(g, d)
    ensures Sum(MoveResult(g, d, c)) == Sum(g) + SpawnValue(c)
    ensures SpawnValue(c) == 2 || SpawnValue(c) == 4
    ensures Count(MoveResult(g, d, c)) == Count(SlideBoard(g, d)) + 1
    ensures MoveResult(g, d, c) != g
  {
    var s := SlideBoard(g, d);
    MovedLeavesEmptyCell(g, d);
    HasEmptyCell(s);
    SlideBoardTotals(g, d);
    SpawnOneCell(s, c);
  }

  /** The outcome of `make_move(direction)`: the flag, and the grid afterwards. */
  function ApplyMove(g: Board, direction: string, c: SpawnChoice): (r: (bool, Board))
    requires ParseDir(direction).Some? ==> ValidChoice(SlideBoard(g, ParseDir(direction).value), c)
    ensures ParseDir(direction).None? ==> r == (false, g)
    ensures r.0 <==> r.1 != g
  {
    match ParseDir(direction)
    case None => (false, g)
    case Some(d) =>
      if Moved(g, d) then
        MovedSpawnsOne(g, d, c);
        (true, MoveResult(g, d, c))
      else
        NotMovedUnchanged(g, d, c);
        (false, MoveResult(g, d, c))
  }

  /** `make_move` called with the name of direction d. */
  lemma ApplyMoveByName(g: Board, d: Dir, c: SpawnChoice)
    requires ValidChoice(SlideBoard(g, d), c)
    ensures ApplyMove(g, DirName(d), c) == (Moved(g, d), MoveResult(g, d, c))
  {
  }

  // ---------------------------------------------------------------------
  // get_possible_new_states and new
  // ---------------------------------------------------------------------

  /** One valid choice per direction of `PossibleMoves`. */
  predicate ValidChoices(g: Board, cs: seq<SpawnChoice>)
  {
    |cs| == 4 && forall i :: 0 <= i < 4 ==> ValidChoice(SlideBoard(g, PossibleMoves[i]), cs[i])
  }

  /** The boards pushed for the first n directions of `PossibleMoves`: only the moves that succeeded. */
  function NewStatesUpTo(g: Board, cs: seq<SpawnChoice>, n: nat): seq<Board>
    requires ValidChoices(g, cs) && n <= 4
  {
    if n == 0 then []
    else
      var d := PossibleMoves[n - 1];
      NewStatesUpTo(g, cs, n - 1) + (if Moved(g, d) then [MoveResult(g, d, cs[n - 1])] else [])
  }

  function PossibleNewStates(g: Board, cs: seq<SpawnChoice>): seq<Board>
    requires ValidChoices(g, cs)
  {
    NewStatesUpTo(g, cs, |cs|)
  }

  /** One more direction of `get_possible_new_states`: the move's board is kept exactly when `make_move` succeeds. */
  lemma NewStatesStep(g: Board, cs: seq<SpawnChoice>, n: nat)
    requires ValidChoices(g, cs) && n < 4
    ensures NewStatesUpTo(g, cs, n + 1)
            == NewStatesUpTo(g, cs, n) + (if Moved(g, PossibleMoves[n]) then [MoveResult(g, PossibleMoves[n], cs[n])] else [])
  {
  }

  /** The tile total of h is larger than g's by a spawned 2 or 4. */
  predicate GrowsBySpawn(g: Board, h: Board)
  {
    Sum(h) == Sum(g) + 2 || Sum(h) == Sum(g) + 4
  }

  predicate AllGrowBySpawn(g: Board, hs: seq<Board>)
  {
    forall k :: 0 <= k < |hs| ==> GrowsBySpawn(g, hs[k])
  }

  /** The positions of the raised flags, in increasing order. */
  function TrueIndices(flags: seq<bool>): (ix: seq<nat>)
    ensures |ix| <= |flags|
    ensures forall k :: 0 <= k < |ix| ==> ix[k] < |flags| && flags[ix[k]]
    ensures forall j, k :: 0 <= j < k < |ix| ==> ix[j] < ix[k]
    ensures forall i :: 0 <= i < |flags| && flags[i] ==> i in ix
  {
    if flags == [] then []
    else TrueIndices(flags[..|flags| - 1]) + (if flags[|flags| - 1] then [|flags| - 1] else [])
  }

  /** The values whose flag is raised, in their order. */
  function Kept<T>(flags: seq<bool>, vals: seq<T>): seq<T>
    requires |flags| == |vals|
  {
    if flags == [] then []
    else Kept(flags[..|flags| - 1], vals[..|vals| - 1]) + (if flags[|flags| - 1] then [vals[|vals| - 1]] else [])
  }

  /** Keeping from one more position adds that position's value when its flag is raised. */
  lemma KeptSnoc<T>(flags: seq<bool>, vals: seq<T>, n: nat)
    requires |flags| == |vals| && n < |flags|
    ensures Kept(flags[..n + 1], vals[..n + 1]) == Kept(flags[..n], vals[..n]) + (if flags[n] then [vals[n]] else [])
  {
    assert flags[..n + 1][..n] == flags[..n] && vals[..n + 1][..n] == vals[..n];
  }

  /** The k-th value kept is the value at the k-th raised flag. */
  lemma {:induction false} KeptAt<T>(flags: seq<bool>, vals: seq<T>)
    requires |flags| == |vals|
    ensures |Kept(flags, vals)| == |TrueIndices(flags)|
    ensures forall k :: 0 <= k < |Kept(flags, vals)| ==> Kept(flags, vals)[k] == vals[TrueIndices(flags)[k]]
  {
    if flags != [] {
      var n := |flags| - 1;
      var fp, vp := flags[..n], vals[..n];
      KeptAt(fp, vp);
      var prev, ix := Kept(fp, vp), TrueIndices(fp);
      var all, alli := Kept(flags, vals), TrueIndices(flags);
      assert all == prev + (if flags[n] then [vals[n]] else []);
      assert alli == ix + (if flags[n] then [n] else []);
      forall k | 0 <= k < |all|
        ensures all[k] == vals[alli[k]]
      {
        if k < |prev| {
          assert all[k] == prev[k] && alli[k] == ix[k] && vp[ix[k]] == vals[ix[k]];
        }
      }
    }
  }

  /** For each direction of `PossibleMoves`, whether it moves g. */
  function MovedFlags(g: Board): seq<bool>
  {
    seq(4, i requires 0 <= i < 4 => Moved(g, PossibleMoves[i]))
  }

  /** For each direction of `PossibleMoves`, the board its move leaves with its draw. */
  function MoveResults(g: Board, cs: seq<SpawnChoice>): seq<Board>
    requires ValidChoices(g, cs)
  {
    seq(4, i requires 0 <= i < 4 => MoveResult(g, PossibleMoves[i], cs[i]))
  }

  /** The indices i < n of `PossibleMoves` whose direction moves g, in increasing order. */
  function MovedIndices(g: Board, n: nat): seq<nat>
    requires n <= 4
  {
    TrueIndices(MovedFlags(g)[..n])
  }

  /** The boards pushed for the first n directions are the move results whose move succeeded. */
  lemma {:induction false} NewStatesKept(g: Board, cs: seq<SpawnChoice>, n: nat)
    requires ValidChoices(g, cs) && n <= 4
    ensures NewStatesUpTo(g, cs, n) == Kept(MovedFlags(g)[..n], MoveResults(g, cs)[..n])
  {
    if n > 0 {
      NewStatesKept(g, cs, n - 1);
      NewStatesStep(g, cs, n - 1);
      KeptSnoc(MovedFlags(g), MoveResults(g, cs), n - 1);
    }
  }

  /** The k-th of the first n directions that move g is a direction below n that moves g, and they come in increasing order. */
  lemma MovedIndicesSpec(g: Board, n: nat)
    requires n <= 4
    ensures forall k :: 0 <= k < |MovedIndices(g, n)| ==>
      MovedIndices(g, n)[k] < n && Moved(g, PossibleMoves[MovedIndices(g, n)[k]])
    ensures forall j, k :: 0 <= j < k < |MovedIndices(g, n)| ==> MovedIndices(g, n)[j] < MovedIndices(g, n)[k]
    ensures forall i :: 0 <= i < n && Moved(g, PossibleMoves[i]) ==> i in MovedIndices(g, n)
  {
    var fs := MovedFlags(g)[..n];
    assert forall i :: 0 <= i < n ==> fs[i] == Moved(g, PossibleMoves[i]);
  }

  /** One board per direction that moves g, in the order of `PossibleMoves`, each one spawn larger. */
  lemma {:induction false} NewStatesUpToSpec(g: Board, cs: seq<SpawnChoice>, n: nat)
    requires ValidChoices(g, cs) && n <= 4
    ensures |NewStatesUpTo(g, cs, n)| == |MovedIndices(g, n)| <= n
    ensures forall k :: 0 <= k < |NewStatesUpTo(g, cs, n)| ==>
      MovedIndices(g, n)[k] < n &&
      NewStatesUpTo(g, cs, n)[k] == MoveResult(g, PossibleMoves[MovedIndices(g, n)[k]], cs[MovedIndices(g, n)[k]])
    ensures AllGrowBySpawn(g, NewStatesUpTo(g, cs, n))
  {
    var fs, vs := MovedFlags(g)[..n], MoveResults(g, cs)[..n];
    var ix := TrueIndices(fs);
    NewStatesKept(g, cs, n);
    KeptAt(fs, vs);
    MovedIndicesSpec(g, n);
    forall k | 0 <= k < |ix|
      ensures ix[k] < n && NewStatesUpTo(g, cs, n)[k] == MoveResult(g, PossibleMoves[ix[k]], cs[ix[k]])
      ensures GrowsBySpawn(g, NewStatesUpTo(g, cs, n)[k])
    {
      var i := ix[k];
      assert vs[i] == MoveResult(g, PossibleMoves[i], cs[i]);
      MovedSpawnsOne(g, PossibleMoves[i], cs[i]);
    }
  }

  /** No board is pushed exactly when none of the directions tried moves g. */
  lemma {:induction false} NewStatesUpToEmpty(g: Board, cs: seq<SpawnChoice>, n: nat)
    requires ValidChoices(g, cs) && n <= 4
    ensures |NewStatesUpTo(g, cs, n)| == 0 <==> NoneMoved(g, n)
  {
    if n > 0 {
      NewStatesUpToEmpty(g, cs, n - 1);
    }
  }

  /**
   * `get_possible_new_states` yields one board per direction of
   * `POSSIBLE_MOVES` that moves g, in that order: the k-th board is the
   * result of the k-th such move with its draw. Each has a total larger by
   * the spawned tile (so none is g itself), and there are none exactly
   * when no direction moves.
   */
  lemma PossibleNewStatesSpec(g: Board, cs: seq<SpawnChoice>)
    requires ValidChoices(g, cs)
    ensures |PossibleNewStates(g, cs)| == |MovedIndices(g, 4)| <= 4
    ensures forall k :: 0 <= k < |PossibleNewStates(g, cs)| ==>
      PossibleNewStates(g, cs)[k] == MoveResult(g, PossibleMoves[MovedIndices(g, 4)[k]], cs[MovedIndices(g, 4)[k]])
    ensures forall k :: 0 <= k < |PossibleNewStates(g, cs)| ==>
      GrowsBySpawn(g, PossibleNewStates(g, cs)[k]) && PossibleNewStates(g, cs)[k] != g
    ensures |PossibleNewStates(g, cs)| == 0 <==> Stuck(g)
  {
    NewStatesUpToSpec(g, cs, 4);
    NewStatesUpToEmpty(g, cs, 4);
  }

  /** The grid of `GameBoard::new`: two tiles spawned onto the empty grid. */
  function NewBoard(c1: SpawnChoice, c2: SpawnChoice): Board
    requires NewChoices(c1, c2)
  {
    NewBoardChoices(c1, c2);
    Spawn(Spawn(EmptyBoard, c1), c2)
  }

  /** The choices the random source can make for the two spawns of a new game: 16 free cells, then 15. */
  predicate NewChoices(c1: SpawnChoice, c2: SpawnChoice)
  {
    1 <= c1.prob <= 10 && c1.toChange < 16 && 1 <= c2.prob <= 10 && c2.toChange < 15
  }

  /** These are exactly the valid choices for two spawns onto the empty grid. */
  lemma NewBoardChoices(c1: SpawnChoice, c2: SpawnChoice)
    ensures NewChoices(c1, c2) <==> ValidChoice(EmptyBoard, c1) && ValidChoice(Spawn(EmptyBoard, c1), c2)
  {
    EmptyBoardTotals();
    ChoicesOnEmpty(EmptyBoard, c1, c2);
  }

  /** Two spawns onto an empty grid leave exactly two tiles, each a 2 or a 4. */
  lemma TwoSpawns(g: Board, c1: SpawnChoice, c2: SpawnChoice)
    requires forall m :: 0 <= m < 16 ==> g[m] == 0
    requires Count(g) == 0
    requires ValidChoice(g, c1) && ValidChoice(Spawn(g, c1), c2)
    ensures Count(Spawn(Spawn(g, c1), c2)) == 2
    ensures forall m :: 0 <= m < 16 ==> Spawn(Spawn(g, c1), c2)[m] in {0, 2, 4}
  {
    var g1 := Spawn(g, c1);
    HasEmptyCell(g);
    SpawnOneCell(g, c1);
    HasEmptyCell(g1);
    SpawnOneCell(g1, c2);
  }

  /** A new board has exactly two tiles, each a 2 or a 4. */
  lemma NewBoardTiles(c1: SpawnChoice, c2: SpawnChoice)
    requires NewChoices(c1, c2)
    ensures Count(NewBoard(c1, c2)) == 2
    ensures forall m :: 0 <= m < 16 ==> NewBoard(c1, c2)[m] in {0, 2, 4}
  {
    EmptyBoardTotals();
    NewBoardChoices(c1, c2);
    TwoSpawns(EmptyBoard, c1, c2);
  }
}
