/**
 * Paths in the edit graph of two sequences A and B. A grid point (x, y) stands for the prefixes
 * A[..x] and B[..y]; a horizontal step drops A[x], a vertical step takes B[y], a diagonal step
 * matches the two.
 */
module EditPaths {
  import opened Subsequences

  /** Some path from the origin to (x, y) has exactly h horizontal steps. */
  ghost predicate Reach<T(!new)>(A: seq<T>, B: seq<T>, x: int, y: int, h: int)
    decreases x + y
  {
    && 0 <= x <= |A| && 0 <= y <= |B| && 0 <= h
    && (|| (x == 0 && y == 0 && h == 0)
        || (x > 0 && Reach(A, B, x - 1, y, h - 1))
        || (y > 0 && Reach(A, B, x, y - 1, h))
        || (x > 0 && y > 0 && A[x - 1] == B[y - 1] && Reach(A, B, x - 1, y - 1, h)))
  }

  /** A path with h horizontal steps keeps a common subsequence of x - h elements... */
  lemma {:induction false} ReachKeeps<T(!new)>(A: seq<T>, B: seq<T>, x: int, y: int, h: int) returns (s: seq<T>)
    requires Reach(A, B, x, y, h)
    ensures IsCommonSubsequence(s, A[..x], B[..y]) && |s| == x - h
    decreases x + y
  {
    if x == 0 && y == 0 && h == 0 {
      s := [];
    } else if x > 0 && Reach(A, B, x - 1, y, h - 1) {
      s := ReachKeeps(A, B, x - 1, y, h - 1);
      assert A[..x][..x - 1] == A[..x - 1];
    } else if y > 0 && Reach(A, B, x, y - 1, h) {
      s := ReachKeeps(A, B, x, y - 1, h);
      assert B[..y][..y - 1] == B[..y - 1];
    } else {
      var s' := ReachKeeps(A, B, x - 1, y - 1, h);
      s := s' + [A[x - 1]];
      assert s[..|s| - 1] == s' && A[..x][..x - 1] == A[..x - 1] && B[..y][..y - 1] == B[..y - 1];
    }
  }

  /** ... and every common subsequence is kept by such a path. */
  lemma {:induction false} KeptIsReached<T(!new)>(A: seq<T>, B: seq<T>, x: nat, y: nat, s: seq<T>)
    requires x <= |A| && y <= |B| && IsCommonSubsequence(s, A[..x], B[..y])
    ensures Reach(A, B, x, y, x - |s|)
    decreases x + y
  {
    SubsequenceShorter(s, A[..x]);
    if x > 0 { assert A[..x][..x - 1] == A[..x - 1]; }
    if y > 0 { assert B[..y][..y - 1] == B[..y - 1]; }
    if x > 0 && IsSubsequence(s, A[..x - 1]) {
      KeptIsReached(A, B, x - 1, y, s);
    } else if y > 0 && IsSubsequence(s, B[..y - 1]) {
      KeptIsReached(A, B, x, y - 1, s);
    } else if s != [] {
      KeptIsReached(A, B, x - 1, y - 1, s[..|s| - 1]);
    }
  }

  /** h horizontal steps can reach the end iff some common subsequence has |A| - h elements;
      the fewest are |A| - LcsLength(A, B). */
  lemma EndReach<T(!new)>(A: seq<T>, B: seq<T>)
    ensures LcsLength(A, B) <= |A| && Reach(A, B, |A|, |B|, |A| - LcsLength(A, B))
    ensures forall h :: Reach(A, B, |A|, |B|, h) ==> |A| - LcsLength(A, B) <= h
  {
    var s := LcsIsAttained(A, B);
    assert A[..|A|] == A && B[..|B|] == B;
    KeptIsReached(A, B, |A|, |B|, s);
    forall h | Reach(A, B, |A|, |B|, h) ensures |A| - LcsLength(A, B) <= h {
      var t := ReachKeeps(A, B, |A|, |B|, h);
      LcsIsUpperBound(t, A, B);
    }
  }
}
