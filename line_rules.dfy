/**
 * The slide-and-merge rule of the 2048 board, for a single line of cells.
 *
 * A line is a row or a column read in the direction the tiles travel
 * (for a move to the left, a row read left to right; for a move down, a
 * column read bottom to top).  Position 0 is the edge the tiles travel to.
 * `0` is an empty cell.  Every move of the board runs, on each of its four
 * lines, the same three steps: compact; then three times "merge the first
 * adjacent equal pair, compact again".
 */
module LineRules {

  datatype Option<T> = None | Some(value: T)

  // ---------------------------------------------------------------------
  // Measures of a line
  // ---------------------------------------------------------------------

  /** Total of the tile values. */
  function Sum(s: seq<nat>): nat
  {
    if s == [] then 0 else Sum(s[..|s| - 1]) + s[|s| - 1]
  }

  /** Number of non-empty cells. */
  function Count(s: seq<nat>): nat
  {
    if s == [] then 0 else Count(s[..|s| - 1]) + (if s[|s| - 1] != 0 then 1 else 0)
  }

  /** The non-empty tiles, in their order. */
  function NonZeros(s: seq<nat>): (r: seq<nat>)
    ensures |r| == Count(s) <= |s|
    ensures Sum(r) == Sum(s) && Count(r) == |r|
  {
    if s == [] then []
    else
      var p := s[..|s| - 1];
      var x := s[|s| - 1];
      var rp := NonZeros(p);
      SumAppend(rp, if x != 0 then [x] else []);
      rp + (if x != 0 then [x] else [])
  }

  /** The tiles kept are exactly the non-empty ones. */
  lemma {:induction false} NonZerosSpec(s: seq<nat>)
    ensures forall i :: 0 <= i < |NonZeros(s)| ==> NonZeros(s)[i] != 0
  {
    if s != [] {
      NonZerosSpec(s[..|s| - 1]);
    }
  }

  /**
   * The tiles kept are the line's own tiles in their order: the tile at
   * position i is the one after the `Count(s[..i])` tiles before it.
   */
  lemma {:induction false} NonZerosKeepsOrder(s: seq<nat>)
    ensures forall i :: 0 <= i < |s| && s[i] != 0 ==>
      Count(s[..i]) < |NonZeros(s)| && NonZeros(s)[Count(s[..i])] == s[i]
  {
    if s != [] {
      var p := s[..|s| - 1];
      NonZerosKeepsOrder(p);
      forall i | 0 <= i < |s| && s[i] != 0
        ensures Count(s[..i]) < |NonZeros(s)| && NonZeros(s)[Count(s[..i])] == s[i]
      {
        if i < |s| - 1 {
          assert s[..i] == p[..i] && p[i] == s[i];
        } else {
          assert s[..i] == p;
        }
      }
    }
  }

  function Zeros(n: nat): (r: seq<nat>)
    ensures |r| == n
  {
    seq(n, _ => 0)
  }

  /** Empty cells only ever follow non-empty ones. */
  predicate IsCompacted(s: seq<nat>)
  {
    forall i, j :: 0 <= i < j < |s| && s[i] == 0 ==> s[j] == 0
  }

  // ---------------------------------------------------------------------
  // The three steps of a move, on one line
  // ---------------------------------------------------------------------

  /** What the compaction loop (the moving `target` index) leaves in the line. */
  function Compact(s: seq<nat>): (r: seq<nat>)
    ensures |r| == |s|
  {
    NonZeros(s) + Zeros(|s| - |NonZeros(s)|)
  }

  /** Cells `i` and `i + 1` hold the same non-empty tile. */
  predicate IsPair(s: seq<nat>, i: nat)
  {
    i + 1 < |s| && s[i] != 0 && s[i] == s[i + 1]
  }

  /** The first pair at or after `from`, in scan order. */
  function FirstPair(s: seq<nat>, from: nat): (r: Option<nat>)
    decreases |s| - from
    ensures r.Some? ==> from <= r.value && IsPair(s, r.value)
  {
    if from + 1 >= |s| then None
    else if IsPair(s, from) then Some(from)
    else FirstPair(s, from + 1)
  }

  /** The pair found is the first one at or after `from`; none is found only when there is none. */
  lemma {:induction false} FirstPairSpec(s: seq<nat>, from: nat)
    decreases |s| - from
    ensures FirstPair(s, from).Some? ==> forall p :: from <= p < FirstPair(s, from).value ==> !IsPair(s, p)
    ensures FirstPair(s, from).None? <==> forall p :: from <= p ==> !IsPair(s, p)
  {
    if from + 1 < |s| && !IsPair(s, from) {
      FirstPairSpec(s, from + 1);
    }
  }

  predicate HasPair(s: seq<nat>)
  {
    FirstPair(s, 0).Some?
  }

  /** One scan of the merge loop: double the first pair's leading tile, empty its partner, stop. */
  function MergeFirst(s: seq<nat>): (r: seq<nat>)
    ensures |r| == |s|
  {
    match FirstPair(s, 0)
    case None => s
    case Some(p) => s[p := 2 * s[p]][p + 1 := 0]
  }

  /** One of the three merge passes: merge once, then compact. */
  function Pass(s: seq<nat>): (r: seq<nat>)
    ensures |r| == |s|
  {
    Compact(MergeFirst(s))
  }

  /** The `moved` flag a merge pass raises: it merged, or its compaction moved a tile. */
  predicate PassMoved(c: seq<nat>)
  {
    HasPair(c) || Compact(MergeFirst(c)) != MergeFirst(c)
  }

  /** A line part-way through the loops of a move: its cells, the `moved` flag so far, and the merges so far. */
  datatype SlideState = SlideState(line: seq<nat>, moved: bool, merges: nat)

  /** The state after the first compaction (n == 0) and after n merge passes (n > 0). */
  function Slide(s: seq<nat>, n: nat): (r: SlideState)
    ensures |r.line| == |s|
  {
    if n == 0 then SlideState(Compact(s), Compact(s) != s, 0)
    else
      var st := Slide(s, n - 1);
      SlideState(Pass(st.line), st.moved || PassMoved(st.line), st.merges + (if HasPair(st.line) then 1 else 0))
  }

  /** The whole slide-and-merge phase of a move, before any tile is spawned: three passes. */
  function SlideLine(s: seq<nat>): (r: seq<nat>)
    ensures |r| == |s|
  {
    Slide(s, 3).line
  }

  /** The `moved` flag the whole phase raises on this line, accumulated as the loops do. */
  predicate SlideMoved(s: seq<nat>)
  {
    Slide(s, 3).moved
  }

  /** How many of the three passes merged a pair. */
  function MergeCount(s: seq<nat>): nat
  {
    Slide(s, 3).merges
  }

  /** The line the phase leaves: compact, then three passes. */
  lemma SlidePasses(s: seq<nat>)
    ensures SlideLine(s) == Pass(Pass(Pass(Compact(s))))
  {
    var c0 := Compact(s);
    assert Slide(s, 0).line == c0;
    assert Slide(s, 1).line == Pass(c0);
    assert Slide(s, 2).line == Pass(Pass(c0));
  }

  /** The phase spelled out: compact, then three passes, each raising the flag as it goes. */
  lemma SlideSteps(s: seq<nat>)
    ensures SlideLine(s) == Pass(Pass(Pass(Compact(s))))
    ensures SlideMoved(s) == (Compact(s) != s || PassMoved(Compact(s)) || PassMoved(Pass(Compact(s)))
                              || PassMoved(Pass(Pass(Compact(s)))))
    ensures MergeCount(s) == (if HasPair(Compact(s)) then 1 else 0) + (if HasPair(Pass(Compact(s))) then 1 else 0)
                           + (if HasPair(Pass(Pass(Compact(s)))) then 1 else 0)
  {
    var c0 := Compact(s);
    assert Slide(s, 0) == SlideState(c0, c0 != s, 0);
    assert Slide(s, 1).line == Pass(c0);
    assert Slide(s, 2).line == Pass(Pass(c0));
  }

  // ---------------------------------------------------------------------
  // Lemmas on sums and counts
  // ---------------------------------------------------------------------

  lemma {:induction false} SumAppend(a: seq<nat>, b: seq<nat>)
    ensures Sum(a + b) == Sum(a) + Sum(b)
    ensures Count(a + b) == Count(a) + Count(b)
    decreases |b|
  {
    if b == [] {
      assert a + b == a;
    } else {
      assert (a + b)[..|a + b| - 1] == a + b[..|b| - 1];
      SumAppend(a, b[..|b| - 1]);
    }
  }

  lemma {:induction false} SumZeros(n: nat)
    ensures Sum(Zeros(n)) == 0 && Count(Zeros(n)) == 0
  {
    if n > 0 {
      assert Zeros(n)[..n - 1] == Zeros(n - 1);
      SumZeros(n - 1);
    }
  }

  /** Writing `v` into cell `i` changes the sum by `v - s[i]`, and the count accordingly. */
  lemma {:induction false} SumUpdate(s: seq<nat>, i: nat, v: nat)
    requires i < |s|
    ensures Sum(s[i := v]) + s[i] == Sum(s) + v
    ensures Count(s[i := v]) + (if s[i] != 0 then 1 else 0) == Count(s) + (if v != 0 then 1 else 0)
  {
    var n := |s|;
    if i == n - 1 {
      assert s[i := v][..n - 1] == s[..n - 1];
    } else {
      assert s[i := v][..n - 1] == s[..n - 1][i := v];
      SumUpdate(s[..n - 1], i, v);
    }
  }

  lemma {:induction false} CountBound(s: seq<nat>)
    ensures Count(s) <= |s|
    ensures Count(s) < |s| <==> exists i :: 0 <= i < |s| && s[i] == 0
  {
    if s != [] {
      var p := s[..|s| - 1];
      CountBound(p);
      if Count(p) < |p| {
        var i :| 0 <= i < |p| && p[i] == 0;
        assert s[i] == 0;
      }
      if Count(s) == |s| {
        forall i | 0 <= i < |s| ensures s[i] != 0 {
          if i < |p| {
            assert p[i] == s[i];
          }
        }
      }
    }
  }

  // ---------------------------------------------------------------------
  // Compaction
  // ---------------------------------------------------------------------

  /** Compaction keeps the length, the tile values and their number, and compacts. */
  lemma CompactShape(s: seq<nat>)
    ensures |Compact(s)| == |s|
    ensures Sum(Compact(s)) == Sum(s) && Count(Compact(s)) == Count(s)
    ensures IsCompacted(Compact(s))
  {
    var nz := NonZeros(s);
    var c := Compact(s);
    SumAppend(nz, Zeros(|s| - |nz|));
    SumZeros(|s| - |nz|);
    NonZerosSpec(s);
    forall i, j | 0 <= i < j < |c| && c[i] == 0
      ensures c[j] == 0
    {
      assert c[j] == Zeros(|s| - |nz|)[j - |nz|];
    }
  }

  lemma {:induction false} NonZerosOfFull(s: seq<nat>)
    requires forall i :: 0 <= i < |s| ==> s[i] != 0
    ensures NonZeros(s) == s
  {
    if s != [] {
      NonZerosOfFull(s[..|s| - 1]);
    }
  }

  /** A compacted line is left alone by compaction. */
  lemma {:induction false} CompactedIsFixed(s: seq<nat>)
    requires IsCompacted(s)
    ensures Compact(s) == s
  {
    if s != [] {
      var n := |s|;
      var p := s[..n - 1];
      if s[n - 1] != 0 {
        assert forall i :: 0 <= i < n ==> s[i] != 0;
        NonZerosOfFull(s);
        assert Zeros(0) == [];
      } else {
        assert IsCompacted(p);
        CompactedIsFixed(p);
        var nzp := NonZeros(p);
        assert NonZeros(s) == nzp;
        assert Zeros(|p| - |nzp| + 1) == Zeros(|p| - |nzp|) + [0];
        assert s == p + [0];
      }
    }
  }

  /** Compaction leaves a line alone exactly when it is already compacted. */
  lemma CompactIdentity(s: seq<nat>)
    ensures Compact(s) == s <==> IsCompacted(s)
  {
    CompactShape(s);
    if IsCompacted(s) {
      CompactedIsFixed(s);
    }
  }

  // ---------------------------------------------------------------------
  // Merging
  // ---------------------------------------------------------------------

  /** A merge keeps length and sum; it lowers the count by one exactly when there is a pair. */
  lemma MergeFirstShape(s: seq<nat>)
    ensures |MergeFirst(s)| == |s| && Sum(MergeFirst(s)) == Sum(s)
    ensures HasPair(s) ==> Count(MergeFirst(s)) + 1 == Count(s)
    ensures !HasPair(s) ==> MergeFirst(s) == s
  {
    match FirstPair(s, 0)
    case None =>
    case Some(p) =>
      var t := s[p := 2 * s[p]];
      SumUpdate(s, p, 2 * s[p]);
      SumUpdate(t, p + 1, 0);
  }

  /** A pair needs two non-empty cells. */
  lemma PairNeedsTwo(s: seq<nat>)
    requires HasPair(s)
    ensures Count(s) >= 2
  {
    var p := FirstPair(s, 0).value;
    var t := s[p := 0];
    SumUpdate(s, p, 0);
    SumUpdate(t, p + 1, 0);
  }

  lemma PassShape(c: seq<nat>)
    ensures |Pass(c)| == |c| && Sum(Pass(c)) == Sum(c)
    ensures Count(Pass(c)) + (if HasPair(c) then 1 else 0) == Count(c)
    ensures IsCompacted(Pass(c))
  {
    MergeFirstShape(c);
    CompactShape(MergeFirst(c));
  }

  /** A pass over a compacted line without a pair changes nothing and raises no flag. */
  lemma PassQuiet(c: seq<nat>)
    requires IsCompacted(c) && !HasPair(c)
    ensures Pass(c) == c && !PassMoved(c)
  {
    MergeFirstShape(c);
    CompactIdentity(c);
  }

  // ---------------------------------------------------------------------
  // The whole phase
  // ---------------------------------------------------------------------

  /**
   * Slide-and-merge keeps the length and the sum of the line, leaves it
   * compacted, and each pass that merged lowers the tile count by exactly one.
   */
  lemma SlideLineConserves(s: seq<nat>)
    ensures |SlideLine(s)| == |s|
    ensures Sum(SlideLine(s)) == Sum(s)
    ensures Count(SlideLine(s)) + MergeCount(s) == Count(s)
    ensures Count(SlideLine(s)) <= Count(s)
    ensures IsCompacted(SlideLine(s))
  {
    SlideSteps(s);
    var c0 := Compact(s);
    CompactShape(s);
    PassShape(c0);
    PassShape(Pass(c0));
    PassShape(Pass(Pass(c0)));
  }

  /**
   * On a line of four cells, three passes are always enough: afterwards no two
   * neighbouring cells hold the same tile.  A freshly merged tile may merge
   * again in a later pass.
   */
  lemma SlideLineNoPair(s: seq<nat>)
    requires |s| == 4
    ensures !HasPair(SlideLine(s))
  {
    SlideSteps(s);
    var c0 := Compact(s);
    var c1 := Pass(c0);
    var c2 := Pass(c1);
    var c3 := Pass(c2);
    CompactShape(s);
    CountBound(s);
    PassShape(c0);
    PassShape(c1);
    PassShape(c2);
    if !HasPair(c0) {
      PassQuiet(c0);
      PassQuiet(c0);
    } else if !HasPair(c1) {
      PassQuiet(c1);
    } else if !HasPair(c2) {
      PassQuiet(c2);
    } else if HasPair(c3) {
      PairNeedsTwo(c3);
    }
  }

  /** The `moved` flag is raised exactly when the line changed. */
  lemma SlideMovedIffChanged(s: seq<nat>)
    ensures SlideMoved(s) <==> SlideLine(s) != s
  {
    SlideSteps(s);
    var c0 := Compact(s);
    var c1 := Pass(c0);
    var c2 := Pass(c1);
    CompactShape(s);
    PassShape(c0);
    PassShape(c1);
    PassShape(c2);
    if !HasPair(c0) {
      PassQuiet(c0);
    } else if !HasPair(c1) {
      PassQuiet(c1);
    } else if !HasPair(c2) {
      PassQuiet(c2);
    }
    if HasPair(c0) || HasPair(c1) || HasPair(c2) {
      // a merge lowered the count, so the line cannot be what it was
      assert Count(SlideLine(s)) < Count(s);
    } else {
      assert SlideLine(s) == c0;
      CompactIdentity(s);
    }
  }

  /** A move that raised the flag leaves at least one empty cell on the line. */
  lemma SlideMovedLeavesGap(s: seq<nat>)
    requires SlideMoved(s)
    ensures exists i :: 0 <= i < |SlideLine(s)| && SlideLine(s)[i] == 0
    ensures Count(SlideLine(s)) < |s|
  {
    SlideMovedIffChanged(s);
    SlideLineConserves(s);
    CountBound(s);
    CountBound(SlideLine(s));
    if Count(SlideLine(s)) == |s| {
      // a full line: nothing to compact and, had anything merged, fewer tiles
      SlideSteps(s);
      assert IsCompacted(s);
      CompactIdentity(s);
      PassQuiet(s);
    }
  }

  /** Sliding an already slid line changes nothing and raises no flag. */
  lemma SlideLineIdempotent(s: seq<nat>)
    requires |s| == 4
    ensures SlideLine(SlideLine(s)) == SlideLine(s)
    ensures !SlideMoved(SlideLine(s))
  {
    var t := SlideLine(s);
    SlideLineConserves(s);
    SlideLineNoPair(s);
    CompactIdentity(t);
    PassQuiet(t);
    SlideSteps(t);
  }


  // ---------------------------------------------------------------------
  // Worked examples
  // ---------------------------------------------------------------------

  /** No pair in a line whose cells after the first tile are empty. */
  lemma SingleTileNoPair(v: nat)
    ensures !HasPair([v, 0, 0, 0])
  {
    assert !IsPair([v, 0, 0, 0], 0) && !IsPair([v, 0, 0, 0], 1) && !IsPair([v, 0, 0, 0], 2);
  }

  /** The tiles of a line grown by one cell. */
  lemma NonZerosStep(p: seq<nat>, x: nat)
    ensures NonZeros(p + [x]) == NonZeros(p) + (if x != 0 then [x] else [])
  {
    assert (p + [x])[..|p|] == p;
  }

  /** The tiles of a line whose second and fourth cells are empty. */
  lemma NonZerosGaps(c: nat, b: nat)
    requires c != 0 && b != 0
    ensures NonZeros([c, 0, b, 0]) == [c, b]
  {
    NonZerosStep([], c);
    assert [] + [c] == [c];
    NonZerosStep([c], 0);
    assert [c] + [0] == [c, 0];
    NonZerosStep([c, 0], b);
    assert [c, 0] + [b] == [c, 0, b];
    NonZerosStep([c, 0, b], 0);
    assert [c, 0, b] + [0] == [c, 0, b, 0];
  }

  /** The tiles of a line whose second cell alone is empty. */
  lemma NonZerosOneGap(c: nat, b: nat)
    requires c != 0 && b != 0
    ensures NonZeros([c, 0, b, b]) == [c, b, b]
  {
    NonZerosStep([], c);
    assert [] + [c] == [c];
    NonZerosStep([c], 0);
    assert [c] + [0] == [c, 0];
    NonZerosStep([c, 0], b);
    assert [c, 0] + [b] == [c, 0, b];
    NonZerosStep([c, 0, b], b);
    assert [c, 0, b] + [b] == [c, 0, b, b];
  }

  /** A pass over `[a, a, b, 0]` merges the first pair into c == 2a. */
  lemma PassFirstLeft(a: nat, b: nat, c: nat)
    requires a != 0 && b != 0 && a != b && c == 2 * a
    ensures Pass([a, a, b, 0]) == [c, b, 0, 0]
  {
    assert FirstPair([a, a, b, 0], 0) == Some(0);
    assert MergeFirst([a, a, b, 0]) == [c, 0, b, 0];
    NonZerosGaps(c, b);
    assert Zeros(2) == [0, 0];
  }

  /** A pass over four equal tiles merges only the first two. */
  lemma PassFirstFull(a: nat, c: nat)
    requires a != 0 && c == 2 * a
    ensures Pass([a, a, a, a]) == [c, a, a, 0]
  {
    assert FirstPair([a, a, a, a], 0) == Some(0);
    assert MergeFirst([a, a, a, a]) == [c, 0, a, a];
    NonZerosOneGap(c, a);
    assert Zeros(1) == [0];
  }

  /** A pass over `[a, b, b, 0]` merges the second pair into c == 2b. */
  lemma PassSecond(a: nat, b: nat, c: nat)
    requires a != 0 && b != 0 && a != b && c == 2 * b
    ensures Pass([a, b, b, 0]) == [a, c, 0, 0]
  {
    assert !IsPair([a, b, b, 0], 0);
    assert FirstPair([a, b, b, 0], 0) == Some(1);
    assert MergeFirst([a, b, b, 0]) == [a, c, 0, 0];
    CompactIdentity([a, c, 0, 0]);
  }

  /** A pass over `[a, a, 0, 0]` leaves the one tile c == 2a. */
  lemma PassPairOfTwo(a: nat, c: nat)
    requires a != 0 && c == 2 * a
    ensures Pass([a, a, 0, 0]) == [c, 0, 0, 0]
  {
    assert FirstPair([a, a, 0, 0], 0) == Some(0);
    assert MergeFirst([a, a, 0, 0]) == [c, 0, 0, 0];
    CompactIdentity([c, 0, 0, 0]);
  }

  lemma PassSingle(a: nat)
    ensures Pass([a, 0, 0, 0]) == [a, 0, 0, 0]
  {
    SingleTileNoPair(a);
    CompactIdentity([a, 0, 0, 0]);
  }

  /** A line whose first three cells hold tiles is already compacted. */
  lemma CompactedFour(x: nat, y: nat, z: nat, w: nat)
    requires x != 0 && y != 0 && z != 0
    ensures Compact([x, y, z, w]) == [x, y, z, w]
  {
    var s := [x, y, z, w];
    assert forall i :: 0 <= i < 3 ==> s[i] != 0;
    CompactIdentity(s);
  }

  /**
   * Merges cascade across the passes: `[a, a, 2a, 0]` becomes `[4a, 0, 0, 0]`,
   * not `[2a, 2a, 0, 0]` (for a == 2: `[2,2,4,0]` becomes `[8,0,0,0]`).
   */
  lemma CascadeExample(a: nat)
    requires a != 0
    ensures SlideLine([a, a, 2 * a, 0]) == [4 * a, 0, 0, 0]
  {
    var b, c := 2 * a, 4 * a;
    var s := [a, a, b, 0];
    SlidePasses(s);
    CompactedFour(a, a, b, 0);
    PassFirstLeft(a, b, b);
    PassPairOfTwo(b, c);
    PassSingle(c);
  }

  /** Four equal tiles end as one: `[a, a, a, a]` becomes `[4a, 0, 0, 0]`. */
  lemma CascadeExampleFull(a: nat)
    requires a != 0
    ensures SlideLine([a, a, a, a]) == [4 * a, 0, 0, 0]
  {
    var b, c := 2 * a, 4 * a;
    var s := [a, a, a, a];
    SlidePasses(s);
    CompactedFour(a, a, a, a);
    PassFirstFull(a, b);
    PassSecond(b, a, b);
    PassPairOfTwo(b, c);
  }
}
