/**
 * The single steps of the in-place loops of a move, stated on one line:
 * one iteration of the compaction loop (the moving `target` index) and one
 * iteration of the merge scan (stop at the first pair).
 */
module LineSteps {
  import opened LineRules

  /** The non-empty tiles of a prefix grown by one cell. */
  lemma NonZerosSnoc(s: seq<nat>, n: nat)
    requires n < |s|
    ensures NonZeros(s[..n + 1]) == NonZeros(s[..n]) + (if s[n] != 0 then [s[n]] else [])
    ensures Count(s[..n + 1]) == Count(s[..n]) + (if s[n] != 0 then 1 else 0)
  {
    assert s[..n + 1][..n] == s[..n];
  }

  /** Zeros grow by one at the end. */
  lemma ZerosSnoc(n: nat)
    ensures Zeros(n + 1) == Zeros(n) + [0]
  {
  }

  /**
   * One iteration of the compaction loop, at cell n. Before it the cells
   * read so far, s[..n], are compacted in place.  An empty cell is skipped.
   */
  lemma CompactSkip(s: seq<nat>, n: nat)
    requires n < |s| && s[n] == 0
    ensures Compact(s[..n + 1]) == Compact(s[..n]) + [s[n]]
  {
    NonZerosSnoc(s, n);
    var nz := NonZeros(s[..n]);
    var c := |nz|;
    assert Compact(s[..n + 1]) == nz + Zeros(n - c + 1);
    ZerosSnoc(n - c);
  }

  /** A tile with no empty cell before it stays where it is. */
  lemma CompactKeep(s: seq<nat>, n: nat)
    requires n < |s| && s[n] != 0 && Count(s[..n]) == n
    ensures Compact(s[..n + 1]) == Compact(s[..n]) + [s[n]]
  {
    NonZerosSnoc(s, n);
    var nz := NonZeros(s[..n]);
    assert Compact(s[..n + 1]) == nz + [s[n]] + Zeros(0);
  }

  /** Otherwise the tile moves to position `target == Count(s[..n])` and leaves its own cell empty. */
  lemma CompactShift(s: seq<nat>, n: nat)
    requires n < |s|
    requires s[n] != 0 && Count(s[..n]) < n
    ensures Compact(s[..n + 1]) == (Compact(s[..n]) + [s[n]])[Count(s[..n]) := s[n]][n := 0]
  {
    NonZerosSnoc(s, n);
    var nz := NonZeros(s[..n]);
    var c := |nz|;
    var lhs := Compact(s[..n + 1]);
    var rhs := (Compact(s[..n]) + [s[n]])[c := s[n]][n := 0];
    assert lhs == nz + [s[n]] + Zeros(n - c);
    forall i | 0 <= i < n + 1
      ensures lhs[i] == rhs[i]
    {
      if i < c {
        assert lhs[i] == nz[i] && rhs[i] == nz[i];
      }
    }
  }

  /** A prefix grown by one cell is compacted exactly when the prefix was and the cell is empty or follows only tiles. */
  lemma CompactedSnoc(s: seq<nat>, n: nat)
    requires n < |s|
    ensures IsCompacted(s[..n + 1]) <==> IsCompacted(s[..n]) && (s[n] == 0 || Count(s[..n]) == n)
  {
    var p, q := s[..n], s[..n + 1];
    CountBound(p);
    if IsCompacted(q) {
      assert IsCompacted(p) by {
        forall i, j | 0 <= i < j < |p| && p[i] == 0
          ensures p[j] == 0
        {
          assert q[i] == p[i] && q[j] == p[j];
        }
      }
    }
    if IsCompacted(p) && (s[n] == 0 || Count(p) == n) {
      forall i, j | 0 <= i < j < |q| && q[i] == 0
        ensures q[j] == 0
      {
        if j < n {
          assert q[i] == p[i] && q[j] == p[j];
        }
      }
    }
  }

  /** The compaction loop raises its flag exactly when some tile had an empty cell before it. */
  lemma CompactStepMoved(s: seq<nat>, n: nat)
    requires n < |s|
    ensures Compact(s[..n + 1]) != s[..n + 1] <==> Compact(s[..n]) != s[..n] || (s[n] != 0 && Count(s[..n]) < n)
  {
    CompactIdentity(s[..n]);
    CompactIdentity(s[..n + 1]);
    CompactedSnoc(s, n);
  }

  /** Writing into the front part of a concatenation. */
  lemma UpdateFront(a: seq<nat>, r: seq<nat>, i: nat, v: nat)
    requires i < |a|
    ensures (a + r)[i := v] == a[i := v] + r
  {
  }

  /**
   * One iteration of the compaction loop on the whole line: with the cells
   * before n compacted and the rest untouched, the next iteration either
   * leaves the line alone or moves tile s[n] to position `Count(s[..n])`
   * and empties cell n.
   */
  lemma CompactLineStep(s: seq<nat>, n: nat)
    requires n < |s|
    ensures Count(s[..n]) <= n
    ensures Count(s[..n + 1]) == Count(s[..n]) + (if s[n] != 0 then 1 else 0)
    ensures (Compact(s[..n]) + s[n..])[n] == s[n]
    ensures Compact(s[..n + 1]) + s[n + 1..] ==
      if s[n] != 0 && Count(s[..n]) < n
      then (Compact(s[..n]) + s[n..])[Count(s[..n]) := s[n]][n := 0]
      else Compact(s[..n]) + s[n..]
  {
    NonZerosSnoc(s, n);
    CountBound(s[..n]);
    var a := Compact(s[..n]);
    assert s[n..] == [s[n]] + s[n + 1..];
    assert a + s[n..] == (a + [s[n]]) + s[n + 1..];
    if s[n] == 0 {
      CompactSkip(s, n);
    } else if Count(s[..n]) == n {
      CompactKeep(s, n);
    } else {
      CompactShift(s, n);
      UpdateFront(a + [s[n]], s[n + 1..], Count(s[..n]), s[n]);
      UpdateFront((a + [s[n]])[Count(s[..n]) := s[n]], s[n + 1..], n, 0);
    }
  }

  /** The merge scan stops at position i when i is the first pair. */
  lemma MergeAt(s: seq<nat>, i: nat)
    requires IsPair(s, i)
    requires forall q :: 0 <= q < i ==> !IsPair(s, q)
    ensures HasPair(s)
    ensures MergeFirst(s) == s[i := 2 * s[i]][i + 1 := 0]
  {
    FirstPairSpec(s, 0);
  }

  /** A scan that reaches the last pair position without finding a pair leaves the line alone. */
  lemma MergeNone(s: seq<nat>)
    requires |s| >= 1
    requires forall q :: 0 <= q < |s| - 1 ==> !IsPair(s, q)
    ensures !HasPair(s)
    ensures MergeFirst(s) == s
  {
    FirstPairSpec(s, 0);
  }
}
