/**
 * The rules of the search as values: how open-set entries are ordered,
 * what one expansion pushes and links, the invariant the search keeps, and
 * the path that following the parent links produces.
 */
module SearchRules {
  import opened LineRules
  import opened Grid
  import opened Spawning
  import opened Moves
  import opened Scoring

  // ---------------------------------------------------------------------
  // Open-set entries and their order
  // ---------------------------------------------------------------------

  datatype Ordering = Less | Equal | Greater

  /** `a.cmp(&b)` on unsigned integers. */
  function CompareNat(a: nat, b: nat): (o: Ordering)
    ensures o == Less <==> a < b
    ensures o == Equal <==> a == b
    ensures o == Greater <==> a > b
  {
    if a < b then Less else if a == b then Equal else Greater
  }

  /** An open-set entry: its priority, the moves made to reach the board, and the board. */
  datatype QueueItem = QueueItem(cost: nat, moves: nat, board: Board)

  /** `PartialEq for QueueItem`: two entries are equal when their costs are, whatever their boards. */
  predicate QueueEq(a: QueueItem, b: QueueItem)
  {
    a.cost == b.cost
  }

  /**
   * `Ord for QueueItem` (and `PartialOrd`, which wraps it in `Some`):
   * `other.cost.cmp(&self.cost)`, so the cheaper entry is the greater one.
   */
  function QueueCmp(a: QueueItem, b: QueueItem): (o: Ordering)
    ensures o == Greater <==> a.cost < b.cost
    ensures o == Less <==> a.cost > b.cost
    ensures o == Equal <==> QueueEq(a, b)
  {
    CompareNat(b.cost, a.cost)
  }

  /**
   * The order of `Reverse(item)` in the heap: `Reverse` flips `QueueCmp`
   * again, so the heap compares entries by plain cost.
   */
  function HeapCmp(a: QueueItem, b: QueueItem): (o: Ordering)
    ensures o == CompareNat(a.cost, b.cost)
  {
    QueueCmp(b, a)
  }

  /** `BinaryHeap::pop` returns a greatest element of the heap's order. */
  predicate IsHeapTop(open: seq<QueueItem>, k: nat)
  {
    k < |open| && forall i :: 0 <= i < |open| ==> HeapCmp(open[i], open[k]) != Greater
  }

  /** The entry popped first is one of largest cost: the double reversal makes the heap a max-heap on cost. */
  lemma HeapTopIsMaxCost(open: seq<QueueItem>, k: nat)
    requires k < |open|
    ensures IsHeapTop(open, k) <==> forall i :: 0 <= i < |open| ==> open[i].cost <= open[k].cost
  {
  }

  /** The order looks only at costs: the moves and the board play no part. */
  lemma OrderIgnoresBoards(a: QueueItem, b: QueueItem, a': QueueItem, b': QueueItem)
    requires a.cost == a'.cost && b.cost == b'.cost
    ensures QueueCmp(a, b) == QueueCmp(a', b') && HeapCmp(a, b) == HeapCmp(a', b')
    ensures QueueEq(a, b) == QueueEq(a', b')
  {
  }

  /** An index of largest cost, so a non-empty heap always has something to pop. */
  function TopIndex(open: seq<QueueItem>): (k: nat)
    requires |open| > 0
    ensures IsHeapTop(open, k)
  {
    if |open| == 1 then 0
    else
      var k := TopIndex(open[..|open| - 1]);
      assert forall i :: 0 <= i < |open| - 1 ==> open[..|open| - 1][i] == open[i];
      if open[|open| - 1].cost > open[k].cost then |open| - 1 else k
  }

  // ---------------------------------------------------------------------
  // Expansion
  // ---------------------------------------------------------------------

  /** A parent link of `came_from`: the board a board was reached from, and the move's name. */
  datatype Link = Link(parent: Board, dir: string)

  /** The random source of `make_move`: raw draws for a move of board g in direction d. */
  type Chooser = (Board, Dir) -> SpawnChoice

  /**
   * The spawn choice used when board g is moved in direction d: the raw draw,
   * brought into the ranges `gen_range` promises. Every valid choice is drawn
   * as itself, so every outcome the game can produce is some `Draw`.
   */
  function Draw(rng: Chooser, g: Board, d: Dir): (c: SpawnChoice)
    ensures ValidChoice(SlideBoard(g, d), c)
    ensures ValidChoice(SlideBoard(g, d), rng(g, d)) ==> c == rng(g, d)
  {
    var raw := rng(g, d);
    var n := |EmptyCells(SlideBoard(g, d))|;
    SpawnChoice(if n == 0 then raw.toChange else raw.toChange % n, if 1 <= raw.prob <= 10 then raw.prob else 10)
  }

  /** Moving p by `make_move(dir)` with spawn choice c succeeds and leaves b. */
  predicate OutcomeWith(p: Board, dir: string, c: SpawnChoice, b: Board)
  {
    && ParseDir(dir).Some?
    && ValidChoice(SlideBoard(p, ParseDir(dir).value), c)
    && ApplyMove(p, dir, c) == (true, b)
  }

  /** b is what a successful `make_move(dir)` on p can leave behind, for some draw of the random source. */
  ghost predicate IsMoveOutcome(p: Board, dir: string, b: Board)
  {
    exists c {:trigger OutcomeWith(p, dir, c, b)} :: OutcomeWith(p, dir, c, b)
  }

  /** A board reached by a successful move has a strictly larger tile total. */
  lemma OutcomeGrows(p: Board, dir: string, b: Board)
    requires IsMoveOutcome(p, dir, b)
    ensures Sum(p) < Sum(b)
  {
    var c :| OutcomeWith(p, dir, c, b);
    MovedSpawnsOne(p, ParseDir(dir).value, c);
  }

  /**
   * The neighbours one expansion of g makes, for the first n directions of
   * `POSSIBLE_MOVES`: the boards of the moves that succeeded, with the
   * move's name.
   */
  function Successors(g: Board, rng: Chooser, n: nat): seq<(Board, string)>
    requires n <= 4
  {
    if n == 0 then []
    else
      var d := PossibleMoves[n - 1];
      var r := ApplyMove(g, DirName(d), Draw(rng, g, d));
      Successors(g, rng, n - 1) + (if r.0 then [(r.1, DirName(d))] else [])
  }

  /** Every neighbour is an outcome of its move. */
  lemma {:induction false} SuccessorsAreOutcomes(g: Board, rng: Chooser, n: nat)
    requires n <= 4
    ensures forall k :: 0 <= k < |Successors(g, rng, n)| ==>
      IsMoveOutcome(g, Successors(g, rng, n)[k].1, Successors(g, rng, n)[k].0)
  {
    if n > 0 {
      SuccessorsAreOutcomes(g, rng, n - 1);
      var d := PossibleMoves[n - 1];
      var c := Draw(rng, g, d);
      if ApplyMove(g, DirName(d), c).0 {
        assert OutcomeWith(g, DirName(d), c, ApplyMove(g, DirName(d), c).1);
      }
    }
  }

  /** A board no direction moves has no neighbours. */
  lemma {:induction false} StuckHasNoSuccessors(g: Board, rng: Chooser, n: nat)
    requires n <= 4 && NoneMoved(g, n)
    ensures Successors(g, rng, n) == []
  {
    if n > 0 {
      StuckHasNoSuccessors(g, rng, n - 1);
      var d := PossibleMoves[n - 1];
      NotMovedUnchanged(g, d, Draw(rng, g, d));
    }
  }

  /** For each direction of `PossibleMoves`, the neighbour its move gives with its draw, and the move's name. */
  function MoveNeighbours(g: Board, rng: Chooser): seq<(Board, string)>
  {
    seq(4, i requires 0 <= i < 4 =>
      (MoveResult(g, PossibleMoves[i], Draw(rng, g, PossibleMoves[i])), DirName(PossibleMoves[i])))
  }

  /** One more direction of an expansion: its neighbour is kept exactly when the move succeeds. */
  lemma SuccessorsMoveStep(g: Board, rng: Chooser, n: nat)
    requires n < 4
    ensures Successors(g, rng, n + 1) == Successors(g, rng, n) +
      (if Moved(g, PossibleMoves[n]) then [(MoveResult(g, PossibleMoves[n], Draw(rng, g, PossibleMoves[n])), DirName(PossibleMoves[n]))] else [])
  {
    ApplyMoveByName(g, PossibleMoves[n], Draw(rng, g, PossibleMoves[n]));
  }

  /** The neighbours of the first n directions are the candidates whose move succeeded. */
  lemma {:induction false} SuccessorsKept(g: Board, rng: Chooser, n: nat)
    requires n <= 4
    ensures Successors(g, rng, n) == Kept(MovedFlags(g)[..n], MoveNeighbours(g, rng)[..n])
  {
    if n > 0 {
      SuccessorsKept(g, rng, n - 1);
      SuccessorsMoveStep(g, rng, n - 1);
      KeptSnoc(MovedFlags(g), MoveNeighbours(g, rng), n - 1);
    }
  }

  /**
   * One expansion's neighbours are exactly one per direction of
   * `POSSIBLE_MOVES` whose `make_move` succeeds, in that order: the k-th
   * neighbour is the k-th such move's board with its draw, named by it.
   */
  lemma {:induction false} SuccessorsSpec(g: Board, rng: Chooser, n: nat)
    requires n <= 4
    ensures |Successors(g, rng, n)| == |MovedIndices(g, n)|
    ensures forall k :: 0 <= k < |Successors(g, rng, n)| ==>
      MovedIndices(g, n)[k] < n &&
      Successors(g, rng, n)[k] == MoveNeighbours(g, rng)[MovedIndices(g, n)[k]]
  {
    var fs, vs := MovedFlags(g)[..n], MoveNeighbours(g, rng)[..n];
    SuccessorsKept(g, rng, n);
    KeptAt(fs, vs);
    forall k | 0 <= k < |Successors(g, rng, n)|
      ensures MovedIndices(g, n)[k] < n && Successors(g, rng, n)[k] == MoveNeighbours(g, rng)[MovedIndices(g, n)[k]]
    {
      var i := TrueIndices(fs)[k];
      assert vs[i] == MoveNeighbours(g, rng)[i];
    }
  }

  /** Every direction whose move succeeds gives a neighbour: its board with its draw, under its name. */
  lemma {:induction false} MovesAreSuccessors(g: Board, rng: Chooser, n: nat)
    requires n <= 4
    ensures forall i :: 0 <= i < n && Moved(g, PossibleMoves[i]) ==>
      (MoveResult(g, PossibleMoves[i], Draw(rng, g, PossibleMoves[i])), DirName(PossibleMoves[i])) in Successors(g, rng, n)
  {
    SuccessorsSpec(g, rng, n);
    MovedIndicesSpec(g, n);
    var ix, ns := MovedIndices(g, n), Successors(g, rng, n);
    forall i | 0 <= i < n && Moved(g, PossibleMoves[i])
      ensures (MoveResult(g, PossibleMoves[i], Draw(rng, g, PossibleMoves[i])), DirName(PossibleMoves[i])) in ns
    {
      var k :| 0 <= k < |ix| && ix[k] == i;
      assert ns[k] == MoveNeighbours(g, rng)[i];
    }
  }

  /**
   * The entries pushed for the neighbours ns of a board reached in `moves`
   * moves: the neighbours not yet closed, costed by the heuristic plus the
   * moves made plus one.
   */
  function Pushed(ns: seq<(Board, string)>, moves: nat, closed: set<Board>): seq<QueueItem>
  {
    if ns == [] then []
    else
      var b := ns[|ns| - 1].0;
      Pushed(ns[..|ns| - 1], moves, closed)
        + (if b !in closed then [Entry(b, moves)] else [])
  }

  /** The entry pushed for a neighbour b of a board reached in `moves` moves. */
  function Entry(b: Board, moves: nat): (it: QueueItem)
    ensures it.board == b && it.moves == moves + 1
  {
    QueueItem(HeuristicValue(b) + moves + 1, moves + 1, b)
  }

  /** The entry built from a cost the loop computed as `heuristic(&neighbor)`. */
  lemma EntryFromCost(b: Board, moves: nat, h: nat)
    requires h == HeuristicValue(b)
    ensures Entry(b, moves) == QueueItem(h + moves + 1, moves + 1, b)
  {
  }

  /** Every pushed entry is the entry of a neighbour not yet closed. */
  lemma {:induction false} PushedFromNeighbours(ns: seq<(Board, string)>, moves: nat, closed: set<Board>)
    ensures forall it :: it in Pushed(ns, moves, closed) ==>
      exists k :: 0 <= k < |ns| && ns[k].0 !in closed && it == Entry(ns[k].0, moves)
  {
    if ns != [] {
      var init, b := ns[..|ns| - 1], ns[|ns| - 1].0;
      PushedFromNeighbours(init, moves, closed);
      var prev := Pushed(init, moves, closed);
      assert Pushed(ns, moves, closed) == prev + (if b !in closed then [Entry(b, moves)] else []);
      forall it | it in Pushed(ns, moves, closed)
        ensures exists k :: 0 <= k < |ns| && ns[k].0 !in closed && it == Entry(ns[k].0, moves)
      {
        if it in prev {
          var k :| 0 <= k < |init| && init[k].0 !in closed && it == Entry(init[k].0, moves);
          assert ns[k] == init[k];
        } else {
          assert ns[|ns| - 1].0 == b;
        }
      }
    }
  }

  /** Every neighbour not yet closed has its entry pushed. */
  lemma {:induction false} NeighboursPushed(ns: seq<(Board, string)>, moves: nat, closed: set<Board>)
    ensures forall k :: 0 <= k < |ns| && ns[k].0 !in closed ==> Entry(ns[k].0, moves) in Pushed(ns, moves, closed)
  {
    if ns != [] {
      var init, b := ns[..|ns| - 1], ns[|ns| - 1].0;
      NeighboursPushed(init, moves, closed);
      var prev, all := Pushed(init, moves, closed), Pushed(ns, moves, closed);
      assert all == prev + (if b !in closed then [Entry(b, moves)] else []);
      forall k | 0 <= k < |ns| && ns[k].0 !in closed
        ensures Entry(ns[k].0, moves) in all
      {
        if k < |init| {
          assert init[k] == ns[k] && Entry(init[k].0, moves) in prev;
        } else {
          assert ns[k].0 == b;
        }
      }
    }
  }

  /**
   * The entries pushed for neighbours ns of a board reached in `moves`
   * moves are exactly the entries of the not yet closed neighbours: each
   * with `moves + 1` moves and cost `heuristic(&neighbor) + moves + 1`.
   */
  lemma PushedEntries(ns: seq<(Board, string)>, moves: nat, closed: set<Board>)
    ensures forall it :: it in Pushed(ns, moves, closed) <==>
      exists k :: 0 <= k < |ns| && ns[k].0 !in closed && it == Entry(ns[k].0, moves)
  {
    PushedFromNeighbours(ns, moves, closed);
    NeighboursPushed(ns, moves, closed);
  }

  /** `came_from` after the same pushes: each pushed neighbour (re)linked to its parent g. */
  function Linked(links: map<Board, Link>, g: Board, ns: seq<(Board, string)>, closed: set<Board>): map<Board, Link>
  {
    if ns == [] then links
    else
      var m := Linked(links, g, ns[..|ns| - 1], closed);
      var (b, dir) := ns[|ns| - 1];
      if b !in closed then m[b := Link(g, dir)] else m
  }

  // ---------------------------------------------------------------------
  // The invariant of the search
  // ---------------------------------------------------------------------

  /** The link of b leads from its parent by a successful move, and the parent has been expanded. */
  ghost predicate LinkOk(l: Link, b: Board, closed: set<Board>, start: Board)
  {
    IsMoveOutcome(l.parent, l.dir, b) && l.parent in closed && Sum(b) > Sum(start)
  }

  ghost predicate LinksOk(links: map<Board, Link>, closed: set<Board>, start: Board)
  {
    start !in links && forall b :: b in links ==> LinkOk(links[b], b, closed, start)
  }

  /** Every closed board is the start or has a link, and none of them is a goal. */
  predicate ClosedOk(closed: set<Board>, links: map<Board, Link>, start: Board, goal: nat)
  {
    forall b :: b in closed ==> (b == start || b in links) && !IsGoal(b, goal)
  }

  /**
   * An entry is the start entry `(0, 0, start)`, or was pushed after a move:
   * its board has a link, and its cost is the heuristic plus its moves.
   */
  predicate ItemOk(it: QueueItem, links: map<Board, Link>, start: Board)
  {
    || (it.board == start && it.moves == 0 && it.cost == 0)
    || (it.board in links && it.moves > 0 && it.cost == HeuristicValue(it.board) + it.moves)
  }

  predicate OpenOk(open: seq<QueueItem>, links: map<Board, Link>, start: Board)
  {
    forall i :: 0 <= i < |open| ==> ItemOk(open[i], links, start)
  }

  ghost predicate SearchInv(open: seq<QueueItem>, closed: set<Board>, links: map<Board, Link>, start: Board, goal: nat)
  {
    LinksOk(links, closed, start) && ClosedOk(closed, links, start, goal) && OpenOk(open, links, start)
  }

  /** The state before the first pop. */
  lemma InitialInv(start: Board, goal: nat)
    ensures SearchInv([QueueItem(0, 0, start)], {}, map[], start, goal)
  {
  }

  /** Closing more boards keeps every link. */
  lemma LinksOkMoreClosed(links: map<Board, Link>, closed: set<Board>, closed': set<Board>, start: Board)
    requires LinksOk(links, closed, start) && closed <= closed'
    ensures LinksOk(links, closed', start)
  {
    forall b | b in links
      ensures LinkOk(links[b], b, closed', start)
    {
      assert LinkOk(links[b], b, closed, start);
    }
  }

  /** Removing entry k keeps every other entry's bookkeeping. */
  lemma OpenOkRemove(open: seq<QueueItem>, links: map<Board, Link>, start: Board, k: nat)
    requires OpenOk(open, links, start) && k < |open|
    ensures OpenOk(open[..k] + open[k + 1..], links, start)
  {
    var rest := open[..k] + open[k + 1..];
    forall i | 0 <= i < |rest|
      ensures ItemOk(rest[i], links, start)
    {
      if i < k {
        assert rest[i] == open[i];
      } else {
        assert rest[i] == open[i + 1];
      }
    }
  }

  /** Popping an entry and closing its board keeps the invariant, when the board is not a goal. */
  lemma CloseKeepsInv(open: seq<QueueItem>, closed: set<Board>, links: map<Board, Link>, start: Board, goal: nat, k: nat)
    requires SearchInv(open, closed, links, start, goal) && k < |open|
    requires !IsGoal(open[k].board, goal)
    ensures SearchInv(open[..k] + open[k + 1..], closed + {open[k].board}, links, start, goal)
  {
    LinksOkMoreClosed(links, closed, closed + {open[k].board}, start);
    OpenOkRemove(open, links, start, k);
    assert ItemOk(open[k], links, start);
  }

  /** Popping an entry whose board is already closed keeps the invariant. */
  lemma SkipKeepsInv(open: seq<QueueItem>, closed: set<Board>, links: map<Board, Link>, start: Board, goal: nat, k: nat)
    requires SearchInv(open, closed, links, start, goal) && k < |open|
    ensures SearchInv(open[..k] + open[k + 1..], closed, links, start, goal)
  {
    OpenOkRemove(open, links, start, k);
  }

  /** A new link from a closed board g, by one of its moves, keeps every link. */
  lemma LinksOkAdd(links: map<Board, Link>, closed: set<Board>, start: Board, g: Board, dir: string, b: Board)
    requires LinksOk(links, closed, start)
    requires g in closed && (g == start || g in links)
    requires IsMoveOutcome(g, dir, b)
    ensures LinksOk(links[b := Link(g, dir)], closed, start)
  {
    OutcomeGrows(g, dir, b);
    if g != start {
      assert LinkOk(links[g], g, closed, start);
    }
    assert Sum(b) > Sum(start);
    var m := links[b := Link(g, dir)];
    forall x | x in m
      ensures LinkOk(m[x], x, closed, start)
    {
      if x != b {
        assert m[x] == links[x] && LinkOk(links[x], x, closed, start);
      } else {
        assert m[x] == Link(g, dir);
      }
    }
  }

  /** Bookkeeping that only asks for links stays true when links are added. */
  lemma MoreLinks(open: seq<QueueItem>, closed: set<Board>, links: map<Board, Link>, links': map<Board, Link>, start: Board, goal: nat)
    requires ClosedOk(closed, links, start, goal) && OpenOk(open, links, start)
    requires links'.Keys >= links.Keys
    ensures ClosedOk(closed, links', start, goal) && OpenOk(open, links', start)
  {
    forall i | 0 <= i < |open|
      ensures ItemOk(open[i], links', start)
    {
      assert ItemOk(open[i], links, start);
    }
  }

  /** Appending entries whose bookkeeping holds. */
  lemma OpenOkAppend(open: seq<QueueItem>, more: seq<QueueItem>, links: map<Board, Link>, start: Board)
    requires OpenOk(open, links, start) && OpenOk(more, links, start)
    ensures OpenOk(open + more, links, start)
  {
    forall i | 0 <= i < |open + more|
      ensures ItemOk((open + more)[i], links, start)
    {
      if i < |open| {
        assert (open + more)[i] == open[i];
      } else {
        assert (open + more)[i] == more[i - |open|];
      }
    }
  }

  /** `came_from` gains a link for every neighbour not yet closed, and keeps its other keys. */
  lemma {:induction false} LinkedKeys(links: map<Board, Link>, g: Board, ns: seq<(Board, string)>, closed: set<Board>)
    ensures Linked(links, g, ns, closed).Keys >= links.Keys
    ensures forall k :: 0 <= k < |ns| && ns[k].0 !in closed ==> ns[k].0 in Linked(links, g, ns, closed)
  {
    if ns != [] {
      var init := ns[..|ns| - 1];
      LinkedKeys(links, g, init, closed);
      assert forall k :: 0 <= k < |init| ==> init[k] == ns[k];
    }
  }

  /** A board that is closed or not among the neighbours keeps its link, or its lack of one. */
  lemma {:induction false} LinkedFrame(links: map<Board, Link>, g: Board, ns: seq<(Board, string)>, closed: set<Board>, b: Board)
    requires b in closed || forall k :: 0 <= k < |ns| ==> ns[k].0 != b
    ensures b in Linked(links, g, ns, closed) <==> b in links
    ensures b in links ==> Linked(links, g, ns, closed)[b] == links[b]
  {
    if ns != [] {
      var init := ns[..|ns| - 1];
      assert forall k :: 0 <= k < |init| ==> init[k] == ns[k];
      LinkedFrame(links, g, init, closed, b);
    }
  }

  /** The link of an unclosed neighbour is the one its last occurrence writes: parent g and that move's name. */
  lemma {:induction false} LinkedLast(links: map<Board, Link>, g: Board, ns: seq<(Board, string)>, closed: set<Board>, k: nat)
    requires k < |ns| && ns[k].0 !in closed
    requires forall j :: k < j < |ns| ==> ns[j].0 != ns[k].0
    ensures ns[k].0 in Linked(links, g, ns, closed)
    ensures Linked(links, g, ns, closed)[ns[k].0] == Link(g, ns[k].1)
  {
    var init := ns[..|ns| - 1];
    if k < |ns| - 1 {
      assert init[k] == ns[k];
      assert forall j :: k < j < |init| ==> init[j] == ns[j];
      LinkedLast(links, g, init, closed, k);
    }
  }

  /** Every link added by one expansion of a closed board g is a move of g. */
  lemma {:induction false} LinkedOk(links: map<Board, Link>, closed: set<Board>, start: Board, g: Board, ns: seq<(Board, string)>)
    requires LinksOk(links, closed, start)
    requires g in closed && (g == start || g in links)
    requires forall k :: 0 <= k < |ns| ==> IsMoveOutcome(g, ns[k].1, ns[k].0)
    ensures LinksOk(Linked(links, g, ns, closed), closed, start)
  {
    if ns != [] {
      var init, b, dir := ns[..|ns| - 1], ns[|ns| - 1].0, ns[|ns| - 1].1;
      assert IsMoveOutcome(g, dir, b);
      forall k | 0 <= k < |init|
        ensures IsMoveOutcome(g, init[k].1, init[k].0)
      {
        assert init[k] == ns[k];
      }
      LinkedOk(links, closed, start, g, init);
      LinkedKeys(links, g, init, closed);
      if b !in closed {
        LinksOkAdd(Linked(links, g, init, closed), closed, start, g, dir, b);
      }
    }
  }

  /** Every entry pushed for the neighbours ns has its board linked, and costs its heuristic plus its moves. */
  lemma {:induction false} PushedOk(ns: seq<(Board, string)>, moves: nat, closed: set<Board>, links: map<Board, Link>, start: Board)
    requires forall k :: 0 <= k < |ns| && ns[k].0 !in closed ==> ns[k].0 in links
    ensures OpenOk(Pushed(ns, moves, closed), links, start)
  {
    if ns != [] {
      var init, b := ns[..|ns| - 1], ns[|ns| - 1].0;
      assert forall k :: 0 <= k < |init| ==> init[k] == ns[k];
      PushedOk(init, moves, closed, links, start);
      var more := if b !in closed then [Entry(b, moves)] else [];
      assert OpenOk(more, links, start);
      OpenOkAppend(Pushed(init, moves, closed), more, links, start);
    }
  }

  /** The neighbours after one more direction: the moved board, if its move succeeded. */
  lemma SuccessorsStep(g: Board, rng: Chooser, n: nat, ok: bool, b: Board)
    requires n < 4
    requires ok == ApplyMove(g, DirName(PossibleMoves[n]), Draw(rng, g, PossibleMoves[n])).0
    requires ok ==> b == ApplyMove(g, DirName(PossibleMoves[n]), Draw(rng, g, PossibleMoves[n])).1
    ensures Successors(g, rng, n + 1) == Successors(g, rng, n) + (if ok then [(b, DirName(PossibleMoves[n]))] else [])
  {
  }

  lemma PushedSnoc(ns: seq<(Board, string)>, x: (Board, string), moves: nat, closed: set<Board>)
    ensures x.0 !in closed ==> Pushed(ns + [x], moves, closed) == Pushed(ns, moves, closed) + [Entry(x.0, moves)]
    ensures x.0 in closed ==> Pushed(ns + [x], moves, closed) == Pushed(ns, moves, closed)
  {
    var ns' := ns + [x];
    assert ns'[..|ns'| - 1] == ns && ns'[|ns'| - 1] == x;
  }

  lemma LinkedSnoc(links: map<Board, Link>, g: Board, ns: seq<(Board, string)>, x: (Board, string), closed: set<Board>)
    ensures Linked(links, g, ns + [x], closed) ==
      if x.0 !in closed then Linked(links, g, ns, closed)[x.0 := Link(g, x.1)] else Linked(links, g, ns, closed)
  {
    assert (ns + [x])[..|ns|] == ns;
  }

  /**
   * One more direction of the expansion loop: the neighbour's entry is
   * pushed and linked exactly when its move succeeded and its board is not
   * closed.
   */
  lemma ExpandStep(
    ns: seq<(Board, string)>, ns': seq<(Board, string)>, g: Board, dir: string, moves: nat, closed: set<Board>,
    open0: seq<QueueItem>, links0: map<Board, Link>, open: seq<QueueItem>, links: map<Board, Link>,
    ok: bool, b: Board)
    requires ns' == ns + (if ok then [(b, dir)] else [])
    requires open == open0 + Pushed(ns, moves, closed)
    requires links == Linked(links0, g, ns, closed)
    ensures ok && b !in closed ==>
      && open + [Entry(b, moves)] == open0 + Pushed(ns', moves, closed)
      && links[b := Link(g, dir)] == Linked(links0, g, ns', closed)
    ensures !(ok && b !in closed) ==>
      && open == open0 + Pushed(ns', moves, closed)
      && links == Linked(links0, g, ns', closed)
  {
    if ok {
      var x := (b, dir);
      assert ns' == ns + [x];
      PushedSnoc(ns, x, moves, closed);
      LinkedSnoc(links0, g, ns, x, closed);
    } else {
      assert ns' == ns;
    }
  }

  /**
   * Pushing and linking the neighbours ns of a closed board g keeps the
   * invariant: every neighbour is a move outcome of g, so it has a larger
   * total than g and than the start, and is never the start.
   */
  lemma ExpandKeepsInv(
    open: seq<QueueItem>, closed: set<Board>, links: map<Board, Link>, start: Board, goal: nat,
    g: Board, moves: nat, ns: seq<(Board, string)>)
    requires SearchInv(open, closed, links, start, goal)
    requires g in closed
    requires forall k :: 0 <= k < |ns| ==> IsMoveOutcome(g, ns[k].1, ns[k].0)
    ensures SearchInv(open + Pushed(ns, moves, closed), closed, Linked(links, g, ns, closed), start, goal)
    ensures Linked(links, g, ns, closed).Keys >= links.Keys
  {
    var m := Linked(links, g, ns, closed);
    LinkedKeys(links, g, ns, closed);
    LinkedOk(links, closed, start, g, ns);
    MoreLinks(open, closed, links, m, start, goal);
    PushedOk(ns, moves, closed, m, start);
    OpenOkAppend(open, Pushed(ns, moves, closed), m, start);
  }

  // ---------------------------------------------------------------------
  // Paths
  // ---------------------------------------------------------------------

  /** Every link leads to a board of larger total than its parent: following links ends. */
  ghost predicate Decreasing(links: map<Board, Link>)
  {
    forall b :: b in links ==> Sum(links[b].parent) < Sum(b)
  }

  lemma LinksOkDecreasing(links: map<Board, Link>, closed: set<Board>, start: Board)
    requires LinksOk(links, closed, start)
    ensures Decreasing(links)
  {
    forall b | b in links
      ensures Sum(links[b].parent) < Sum(b)
    {
      assert LinkOk(links[b], b, closed, start);
      OutcomeGrows(links[b].parent, links[b].dir, b);
    }
  }

  function Reversed<T>(s: seq<T>): (r: seq<T>)
    ensures |r| == |s|
    ensures forall i :: 0 <= i < |s| ==> r[i] == s[|s| - 1 - i]
  {
    if s == [] then [] else [s[|s| - 1]] + Reversed(s[..|s| - 1])
  }

  /**
   * The path `reconstruct_path` builds for board b: follow the links back
   * until a board has none, then list the boards reached and the moves'
   * names from the first move to b.
   */
  ghost function PathTo(links: map<Board, Link>, b: Board): seq<(Board, string)>
    requires Decreasing(links)
    decreases Sum(b)
  {
    if b in links then PathTo(links, links[b].parent) + [(b, links[b].dir)] else []
  }

  /** The board a path begun at `from` ends at. */
  function PathEnd(from: Board, path: seq<(Board, string)>): Board
  {
    if path == [] then from else path[|path| - 1].0
  }

  /** Each step of the path is a successful move from the board before it. */
  ghost predicate IsPathFrom(from: Board, path: seq<(Board, string)>)
  {
    forall i :: 0 <= i < |path| ==> IsMoveOutcome(Before(from, path, i), path[i].1, path[i].0)
  }

  /** The board step i of a path begun at `from` starts from. */
  function Before(from: Board, path: seq<(Board, string)>, i: nat): Board
    requires i < |path|
  {
    if i == 0 then from else path[i - 1].0
  }

  /** Every step of the reconstructed path is one link of the map, and the path ends at b. */
  lemma {:induction false} PathToLinks(links: map<Board, Link>, b: Board)
    requires Decreasing(links)
    ensures PathEnd(b, PathTo(links, b)) == b
    ensures forall i :: 0 <= i < |PathTo(links, b)| ==>
      PathTo(links, b)[i].0 in links && links[PathTo(links, b)[i].0].dir == PathTo(links, b)[i].1
    ensures forall i :: 0 < i < |PathTo(links, b)| ==> links[PathTo(links, b)[i].0].parent == PathTo(links, b)[i - 1].0
    ensures PathTo(links, b) != [] ==> links[PathTo(links, b)[0].0].parent !in links
    ensures b in links <==> PathTo(links, b) != []
    decreases Sum(b)
  {
    if b in links {
      var p := links[b].parent;
      PathToLinks(links, p);
      var q := PathTo(links, p);
      var path := q + [(b, links[b].dir)];
      assert PathTo(links, b) == path;
      forall i | 0 <= i < |path|
        ensures path[i].0 in links && links[path[i].0].dir == path[i].1
      {
        if i < |q| {
          assert path[i] == q[i];
        }
      }
      forall i | 0 < i < |path|
        ensures links[path[i].0].parent == path[i - 1].0
      {
        if i < |q| {
          assert path[i] == q[i] && path[i - 1] == q[i - 1];
        }
      }
      if q == [] {
        assert p !in links;
      } else {
        assert path[0] == q[0];
      }
    }
  }

  /** A path extended by one more successful move from its end. */
  lemma PathSnoc(from: Board, q: seq<(Board, string)>, b: Board, dir: string)
    requires IsPathFrom(from, q)
    requires IsMoveOutcome(PathEnd(from, q), dir, b)
    ensures IsPathFrom(from, q + [(b, dir)])
    ensures PathEnd(from, q + [(b, dir)]) == b
  {
    var path := q + [(b, dir)];
    forall i | 0 <= i < |path|
      ensures IsMoveOutcome(Before(from, path, i), path[i].1, path[i].0)
    {
      if i < |q| {
        assert IsMoveOutcome(Before(from, q, i), q[i].1, q[i].0);
        assert path[i] == q[i] && Before(from, path, i) == Before(from, q, i);
      } else {
        assert path[i] == (b, dir);
        assert Before(from, path, i) == PathEnd(from, q);
      }
    }
  }

  /**
   * With the search's invariant, the path to a board that is the start or
   * has a link runs from the start, one successful move at a time, and is
   * empty exactly for the start.
   */
  lemma {:induction false} PathFromStart(links: map<Board, Link>, closed: set<Board>, start: Board, goal: nat, b: Board)
    requires LinksOk(links, closed, start) && ClosedOk(closed, links, start, goal)
    requires b == start || b in links
    ensures Decreasing(links)
    ensures IsPathFrom(start, PathTo(links, b))
    ensures PathEnd(start, PathTo(links, b)) == b
    ensures PathTo(links, b) == [] <==> b == start
    decreases Sum(b)
  {
    LinksOkDecreasing(links, closed, start);
    if b in links {
      var l := links[b];
      assert LinkOk(l, b, closed, start);
      OutcomeGrows(l.parent, l.dir, b);
      PathFromStart(links, closed, start, goal, l.parent);
      PathSnoc(start, PathTo(links, l.parent), b, l.dir);
    }
  }

  /** One more step of the walk back: the path to b is the path to its parent, then b. */
  lemma PathToStep(links: map<Board, Link>, b: Board, rest: seq<(Board, string)>)
    requires Decreasing(links) && b in links
    ensures PathTo(links, b) + Reversed(rest) ==
      PathTo(links, links[b].parent) + Reversed(rest + [(b, links[b].dir)])
  {
    var x := (b, links[b].dir);
    assert Reversed(rest + [x]) == [x] + Reversed(rest);
  }

  /** `{B: (A, "up")}` rebuilds to the single step `[(B, "up")]`. */
  lemma OneLinkPath(a: Board, b: Board)
    requires Sum(a) < Sum(b)
    ensures Decreasing(map[b := Link(a, "up")])
    ensures PathTo(map[b := Link(a, "up")], b) == [(b, "up")]
  {
    var links := map[b := Link(a, "up")];
    assert a !in links;
  }

  // ---------------------------------------------------------------------
  // The search as a run of pops
  // ---------------------------------------------------------------------

  /** The search between two pops: the open set, the closed set and `came_from`. */
  datatype SearchState = SearchState(open: seq<QueueItem>, closed: set<Board>, links: map<Board, Link>)

  /** Before the first pop: the start entry `(0, 0, start)` alone, nothing closed, no links. */
  function Initial(start: Board): SearchState
  {
    SearchState([QueueItem(0, 0, start)], {}, map[])
  }

  /** The neighbours an expansion finds for each board: the successful moves and their names. */
  type Neighbours = Board -> seq<(Board, string)>

  /** The neighbours of the search with random source rng: the loop over `POSSIBLE_MOVES`. */
  function SearchNeighbours(rng: Chooser): (succ: Neighbours)
    ensures forall b :: succ(b) == Successors(b, rng, 4)
  {
    b => Successors(b, rng, 4)
  }

  /** Each neighbour is an outcome of its move. */
  ghost predicate NeighboursOk(succ: Neighbours)
  {
    forall b, j :: 0 <= j < |succ(b)| ==> IsMoveOutcome(b, succ(b)[j].1, succ(b)[j].0)
  }

  lemma SearchNeighboursOk(rng: Chooser)
    ensures NeighboursOk(SearchNeighbours(rng))
  {
    forall b
      ensures forall j :: 0 <= j < |Successors(b, rng, 4)| ==>
        IsMoveOutcome(b, Successors(b, rng, 4)[j].1, Successors(b, rng, 4)[j].0)
    {
      SuccessorsAreOutcomes(b, rng, 4);
    }
  }

  /**
   * One pass of the loop that pops entry k and does not stop: a board
   * already closed is dropped; otherwise it is closed, and its neighbours
   * are pushed and linked to it.
   */
  function Pop(s: SearchState, k: nat, succ: Neighbours): SearchState
    requires k < |s.open|
  {
    var it := s.open[k];
    var rest := s.open[..k] + s.open[k + 1..];
    if it.board in s.closed then SearchState(rest, s.closed, s.links)
    else
      var closed := s.closed + {it.board};
      var ns := succ(it.board);
      SearchState(rest + Pushed(ns, it.moves, closed), closed, Linked(s.links, it.board, ns, closed))
  }

  /** The loop may pop entry k of s and go on: it has largest cost and does not hold the goal. */
  predicate PopsAt(s: SearchState, k: nat, goal: nat)
  {
    IsHeapTop(s.open, k) && !IsGoal(s.open[k].board, goal)
  }

  /** states starts from the start state, and states[i + 1] is states[i] after popping picks[i]. */
  predicate IsRun(states: seq<SearchState>, picks: seq<nat>, start: Board, goal: nat, succ: Neighbours)
  {
    && |states| == |picks| + 1
    && states[0] == Initial(start)
    && forall i :: 0 <= i < |picks| ==> PopsAt(states[i], picks[i], goal) && states[i + 1] == Pop(states[i], picks[i], succ)
  }

  /** The boards a run expands, in order: those popped while not yet closed. */
  function Expanded(states: seq<SearchState>, picks: seq<nat>): seq<Board>
    requires |states| == |picks| + 1
    requires forall i :: 0 <= i < |picks| ==> picks[i] < |states[i].open|
  {
    if picks == [] then []
    else
      var n := |picks| - 1;
      var b := states[n].open[picks[n]].board;
      Expanded(states[..n + 1], picks[..n]) + (if b !in states[n].closed then [b] else [])
  }

  ghost predicate StateInv(s: SearchState, start: Board, goal: nat)
  {
    SearchInv(s.open, s.closed, s.links, start, goal)
  }

  /** Every run without its last pop is a run. */
  lemma RunPrefix(states: seq<SearchState>, picks: seq<nat>, start: Board, goal: nat, succ: Neighbours)
    requires IsRun(states, picks, start, goal, succ) && picks != []
    ensures IsRun(states[..|picks|], picks[..|picks| - 1], start, goal, succ)
  {
    var sp, pp := states[..|picks|], picks[..|picks| - 1];
    forall i | 0 <= i < |pp|
      ensures PopsAt(sp[i], pp[i], goal) && sp[i + 1] == Pop(sp[i], pp[i], succ)
    {
      assert sp[i] == states[i] && sp[i + 1] == states[i + 1] && pp[i] == picks[i];
    }
  }

  /** A run extended by one more pop the loop may make. */
  lemma RunSnoc(states: seq<SearchState>, picks: seq<nat>, start: Board, goal: nat, succ: Neighbours, k: nat)
    requires IsRun(states, picks, start, goal, succ)
    requires PopsAt(states[|picks|], k, goal)
    ensures IsRun(states + [Pop(states[|picks|], k, succ)], picks + [k], start, goal, succ)
  {
    var ss, pp := states + [Pop(states[|picks|], k, succ)], picks + [k];
    forall i | 0 <= i < |pp|
      ensures PopsAt(ss[i], pp[i], goal) && ss[i + 1] == Pop(ss[i], pp[i], succ)
    {
      if i < |picks| {
        assert ss[i] == states[i] && ss[i + 1] == states[i + 1] && pp[i] == picks[i];
      }
    }
  }

  /** One pop keeps the search invariant. */
  lemma PopKeepsInv(s: SearchState, k: nat, start: Board, goal: nat, succ: Neighbours)
    requires StateInv(s, start, goal) && PopsAt(s, k, goal) && NeighboursOk(succ)
    ensures StateInv(Pop(s, k, succ), start, goal)
  {
    var b := s.open[k].board;
    if b in s.closed {
      SkipKeepsInv(s.open, s.closed, s.links, start, goal, k);
    } else {
      var closed := s.closed + {b};
      CloseKeepsInv(s.open, s.closed, s.links, start, goal, k);
      assert forall j :: 0 <= j < |succ(b)| ==> IsMoveOutcome(b, succ(b)[j].1, succ(b)[j].0);
      ExpandKeepsInv(s.open[..k] + s.open[k + 1..], closed, s.links, start, goal, b, s.open[k].moves, succ(b));
    }
  }

  /**
   * Every state of a run keeps the search invariant: each link is a
   * successful move from a closed board, no closed board holds the goal,
   * and each entry is costed by the heuristic plus its moves.
   */
  lemma {:induction false} RunKeepsInv(states: seq<SearchState>, picks: seq<nat>, start: Board, goal: nat, succ: Neighbours)
    requires IsRun(states, picks, start, goal, succ) && NeighboursOk(succ)
    ensures forall i :: 0 <= i < |states| ==> StateInv(states[i], start, goal)
  {
    if picks == [] {
      InitialInv(start, goal);
    } else {
      var n := |picks| - 1;
      RunPrefix(states, picks, start, goal, succ);
      RunKeepsInv(states[..n + 1], picks[..n], start, goal, succ);
      assert forall i :: 0 <= i <= n ==> states[..n + 1][i] == states[i];
      PopKeepsInv(states[n], picks[n], start, goal, succ);
    }
  }

  /**
   * Along any run, the closed set is the set of boards expanded so far;
   * no board is expanded twice; none expanded holds the goal; and at most
   * one board is expanded per pop.
   */
  lemma {:induction false} RunExpandsOnce(states: seq<SearchState>, picks: seq<nat>, start: Board, goal: nat, succ: Neighbours)
    requires IsRun(states, picks, start, goal, succ)
    ensures forall b :: b in states[|picks|].closed <==> b in Expanded(states, picks)
    ensures forall i, j :: 0 <= i < j < |Expanded(states, picks)| ==> Expanded(states, picks)[i] != Expanded(states, picks)[j]
    ensures forall i :: 0 <= i < |Expanded(states, picks)| ==> !IsGoal(Expanded(states, picks)[i], goal)
    ensures |Expanded(states, picks)| <= |picks|
  {
    if picks != [] {
      var n := |picks| - 1;
      var sp, pp := states[..n + 1], picks[..n];
      RunPrefix(states, picks, start, goal, succ);
      RunExpandsOnce(sp, pp, start, goal, succ);
      assert sp[n] == states[n];
      var e, s := Expanded(sp, pp), states[n];
      var b := s.open[picks[n]].board;
      assert PopsAt(s, picks[n], goal) && states[n + 1] == Pop(s, picks[n], succ);
      var e' := e + (if b !in s.closed then [b] else []);
      assert Expanded(states, picks) == e';
      forall i, j | 0 <= i < j < |e'|
        ensures e'[i] != e'[j]
      {
        if j < |e| {
          assert e'[i] == e[i] && e'[j] == e[j];
        } else {
          assert e'[i] == e[i] && e[i] in s.closed;
        }
      }
      forall i | 0 <= i < |e'|
        ensures !IsGoal(e'[i], goal)
      {
        if i < |e| {
          assert e'[i] == e[i];
        }
      }
    }
  }
}
