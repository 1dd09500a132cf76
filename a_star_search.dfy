/**
 * `a_star_search` and `reconstruct_path`: a best-first search over boards,
 * where an entry's priority is the heuristic plus the moves made.
 */
module AStarSearch {
  import opened LineRules
  import opened Grid
  import opened Moves
  import opened GameUtils
  import opened Scoring
  import opened SearchRules

  /**
   * How a search ends: a path to a board holding the goal tile, an empty
   * open set, or the step bound reached first.
   */
  datatype Outcome = Found(path: seq<(Board, string)>) | Exhausted | OutOfFuel

  /**
   * The loop over `POSSIBLE_MOVES` for the board `current` reached in
   * `moves` moves: each direction is tried on a fresh copy; a successful
   * move whose board is not closed is pushed with cost
   * `heuristic + moves + 1` and linked to `current`.
   */
  method Expand(
    current: Board, moves: nat, closed: set<Board>,
    open0: seq<QueueItem>, links0: map<Board, Link>, rng: Chooser)
    returns (open: seq<QueueItem>, links: map<Board, Link>)
    ensures open == open0 + Pushed(Successors(current, rng, 4), moves, closed)
    ensures links == Linked(links0, current, Successors(current, rng, 4), closed)
  {
    open, links := open0, links0;
    for n := 0 to 4
      invariant open == open0 + Pushed(Successors(current, rng, n), moves, closed)
      invariant links == Linked(links0, current, Successors(current, rng, n), closed)
    {
      var d := PossibleMoves[n];
      var direction := DirName(d);
      var neighbor := new GameBoard.FromBoard(current);
      var ok := neighbor.MakeMove(direction, Draw(rng, current, d));
      if ok {
        var cost := Heuristic(neighbor);
        var b := neighbor.Snapshot();
        EntryFromCost(b, moves, cost);
        SuccessorsStep(current, rng, n, ok, b);
        ExpandStep(Successors(current, rng, n), Successors(current, rng, n + 1), current, direction, moves, closed,
          open0, links0, open, links, ok, b);
        if b !in closed {
          open := open + [QueueItem(cost + moves + 1, moves + 1, b)];
          links := links[b := Link(current, direction)];
        }
      } else {
        SuccessorsStep(current, rng, n, ok, current);
        ExpandStep(Successors(current, rng, n), Successors(current, rng, n + 1), current, direction, moves, closed,
          open0, links0, open, links, ok, current);
      }
    }
  }

  /**
   * `reconstruct_path`: walk the parent links back from `current`,
   * collecting each board with the move that reached it, then reverse.
   */
  method ReconstructPath(cameFrom: map<Board, Link>, current: Board) returns (path: seq<(Board, string)>)
    requires Decreasing(cameFrom)
    ensures path == PathTo(cameFrom, current)
  {
    var pushed: seq<(Board, string)> := [];
    var state := current;
    while state in cameFrom
      invariant PathTo(cameFrom, current) == PathTo(cameFrom, state) + Reversed(pushed)
      decreases Sum(state)
    {
      var link := cameFrom[state];
      PathToStep(cameFrom, state, pushed);
      pushed := pushed + [(state, link.dir)];
      state := link.parent;
    }
    path := Reversed(pushed);
  }

  /**
   * What holds before each pop: the search invariant; before the first pop
   * only the start entry; after it, a start holding the goal has been found
   * and a start no move changes has left nothing to pop.
   */
  ghost predicate LoopInv(
    open: seq<QueueItem>, closed: set<Board>, links: map<Board, Link>,
    start: Board, goal: nat, fuel: nat, f: nat)
  {
    && SearchInv(open, closed, links, start, goal)
    && f <= fuel
    && (f == fuel ==> open == [QueueItem(0, 0, start)] && closed == {} && links == map[])
    && (f < fuel ==> !IsGoal(start, goal))
    && (f < fuel && Stuck(start) ==> open == [])
  }

  lemma LoopInit(start: Board, goal: nat, fuel: nat)
    ensures LoopInv([QueueItem(0, 0, start)], {}, map[], start, goal, fuel, fuel)
  {
    InitialInv(start, goal);
  }

  /** A pop whose board holds the goal: the path to it is a path from the start, empty when the start holds the goal. */
  lemma LoopFound(
    open: seq<QueueItem>, closed: set<Board>, links: map<Board, Link>,
    start: Board, goal: nat, fuel: nat, f: nat, k: nat)
    requires LoopInv(open, closed, links, start, goal, fuel, f)
    requires k < |open| && IsGoal(open[k].board, goal)
    ensures Decreasing(links)
    ensures IsPathFrom(start, PathTo(links, open[k].board))
    ensures IsGoal(PathEnd(start, PathTo(links, open[k].board)), goal)
    ensures IsGoal(start, goal) ==> PathTo(links, open[k].board) == []
  {
    assert ItemOk(open[k], links, start);
    PathFromStart(links, closed, start, goal, open[k].board);
  }

  /** A pop whose board is already closed. */
  lemma LoopSkip(
    open: seq<QueueItem>, closed: set<Board>, links: map<Board, Link>,
    start: Board, goal: nat, fuel: nat, f: nat, k: nat)
    requires LoopInv(open, closed, links, start, goal, fuel, f) && f > 0
    requires k < |open| && !IsGoal(open[k].board, goal) && open[k].board in closed
    ensures LoopInv(open[..k] + open[k + 1..], closed, links, start, goal, fuel, f - 1)
  {
    SkipKeepsInv(open, closed, links, start, goal, k);
  }

  /** A pop that closes its board and pushes and links its neighbours. */
  lemma LoopExpand(
    open: seq<QueueItem>, closed: set<Board>, links: map<Board, Link>,
    start: Board, goal: nat, fuel: nat, f: nat, k: nat, rng: Chooser)
    requires LoopInv(open, closed, links, start, goal, fuel, f) && f > 0
    requires k < |open| && !IsGoal(open[k].board, goal) && open[k].board !in closed
    ensures var b, closed' := open[k].board, closed + {open[k].board};
      LoopInv(
        open[..k] + open[k + 1..] + Pushed(Successors(b, rng, 4), open[k].moves, closed'),
        closed', Linked(links, b, Successors(b, rng, 4), closed'),
        start, goal, fuel, f - 1)
  {
    var b := open[k].board;
    var closed' := closed + {b};
    var rest := open[..k] + open[k + 1..];
    var ns := Successors(b, rng, 4);
    CloseKeepsInv(open, closed, links, start, goal, k);
    SuccessorsAreOutcomes(b, rng, 4);
    ExpandKeepsInv(rest, closed', links, start, goal, b, open[k].moves, ns);
    if f == fuel && Stuck(start) {
      StuckHasNoSuccessors(b, rng, 4);
    }
  }

  /** The open set, closed set and `came_from` after one pass of the loop are `Pop` of the state before it. */
  lemma PassIsPop(s: SearchState, k: nat, rng: Chooser, open: seq<QueueItem>, closed: set<Board>, links: map<Board, Link>)
    requires k < |s.open|
    requires s.open[k].board in s.closed ==>
      open == s.open[..k] + s.open[k + 1..] && closed == s.closed && links == s.links
    requires s.open[k].board !in s.closed ==>
      && closed == s.closed + {s.open[k].board}
      && open == s.open[..k] + s.open[k + 1..] + Pushed(Successors(s.open[k].board, rng, 4), s.open[k].moves, closed)
      && links == Linked(s.links, s.open[k].board, Successors(s.open[k].board, rng, 4), closed)
    ensures SearchState(open, closed, links) == Pop(s, k, SearchNeighbours(rng))
  {
  }

  /** When the loop stops: an empty open set unless fuel ran out, and a stuck start leaves it empty. */
  lemma LoopExit(
    open: seq<QueueItem>, closed: set<Board>, links: map<Board, Link>,
    start: Board, goal: nat, fuel: nat, f: nat)
    requires LoopInv(open, closed, links, start, goal, fuel, f)
    requires !(f > 0 && |open| > 0)
    ensures fuel > 0 ==> !IsGoal(start, goal)
    ensures fuel > 0 && Stuck(start) ==> |open| == 0
  {
  }

  /**
   * `a_star_search` from `start` for a tile `goal`, with the random source
   * `rng` and at most `fuel` pops. A found path runs from the start by
   * successful moves to a goal board; a start holding the goal is found at
   * once with the empty path; a start no move changes exhausts the open set.
   * `states` and `picks` record the run: the state before each pop and the
   * entry popped, one pop of the loop apart (`RunExpandsOnce` and
   * `RunKeepsInv` hold of every run). The search stops in the last state:
   * with nothing to pop, with the fuel spent, or on popping a goal board,
   * whose path it returns.
   */
  method Search(start: Board, goal: nat, rng: Chooser, fuel: nat)
    returns (r: Outcome, ghost states: seq<SearchState>, ghost picks: seq<nat>)
    ensures r.Found? ==> IsPathFrom(start, r.path) && IsGoal(PathEnd(start, r.path), goal)
    ensures fuel > 0 && IsGoal(start, goal) ==> r == Found([])
    ensures fuel > 0 && !IsGoal(start, goal) && Stuck(start) ==> r == Exhausted
    ensures IsRun(states, picks, start, goal, SearchNeighbours(rng)) && |picks| <= fuel
    ensures r == Exhausted ==> states[|picks|].open == []
    ensures r == OutOfFuel ==> |picks| == fuel && states[|picks|].open != []
    ensures r.Found? ==>
      var s := states[|picks|];
      exists k :: 0 <= k < |s.open| && IsHeapTop(s.open, k) && IsGoal(s.open[k].board, goal) && Decreasing(s.links) &&
        r.path == PathTo(s.links, s.open[k].board)
  {
    var open := [QueueItem(0, 0, start)];
    var closed: set<Board> := {};
    var cameFrom: map<Board, Link> := map[];
    ghost var succ := SearchNeighbours(rng);
    states, picks := [Initial(start)], [];
    var f: nat := fuel;
    LoopInit(start, goal, fuel);
    while f > 0 && |open| > 0
      invariant LoopInv(open, closed, cameFrom, start, goal, fuel, f)
      invariant IsRun(states, picks, start, goal, succ)
      invariant states[|picks|] == SearchState(open, closed, cameFrom)
      invariant |picks| == fuel - f
      decreases f
    {
      ghost var w := TopIndex(open);
      var k :| 0 <= k < |open| && IsHeapTop(open, k);
      var item := open[k];
      var current := item.board;
      var board := new GameBoard.FromBoard(current);
      var isGoal := board.HasGoal(goal);
      if isGoal {
        LoopFound(open, closed, cameFrom, start, goal, fuel, f, k);
        var path := ReconstructPath(cameFrom, current);
        return Found(path), states, picks;
      }
      ghost var s := SearchState(open, closed, cameFrom);
      RunSnoc(states, picks, start, goal, succ, k);
      if current in closed {
        LoopSkip(open, closed, cameFrom, start, goal, fuel, f, k);
        open := open[..k] + open[k + 1..];
      } else {
        LoopExpand(open, closed, cameFrom, start, goal, fuel, f, k, rng);
        open := open[..k] + open[k + 1..];
        closed := closed + {current};
        open, cameFrom := Expand(current, item.moves, closed, open, cameFrom, rng);
      }
      PassIsPop(s, k, rng, open, closed, cameFrom);
      states, picks := states + [Pop(s, k, succ)], picks + [k];
      f := f - 1;
    }
    LoopExit(open, closed, cameFrom, start, goal, fuel, f);
    if |open| == 0 {
      r := Exhausted;
    } else {
      r := OutOfFuel;
    }
  }
}
