/**
 * The furthest-point theory behind the O(NP) comparison of Wu, Manber, Myers and Miller.
 *
 * The diagonal of a grid point (x, y) is y - x. Throughout, |A| <= |B| and d = |B| - |A| is the
 * diagonal of the end point.
 */
module EditGraph {
  import opened EditPaths
  import opened Subsequences

  // ----- snakes -----

  /** How many diagonal steps can be taken from (x, y). */
  function Slide<T(==)>(A: seq<T>, B: seq<T>, x: int, y: int): nat
    decreases |A| - x
  {
    if 0 <= x < |A| && 0 <= y < |B| && A[x] == B[y] then 1 + Slide(A, B, x + 1, y + 1) else 0
  }

  /** The y at which the snake from height y on diagonal k ends. */
  function Furthest<T(==)>(A: seq<T>, B: seq<T>, k: int, y: int): int {
    y + Slide(A, B, y - k, y)
  }

  lemma {:induction false} SlideReach<T(!new)>(A: seq<T>, B: seq<T>, x: int, y: int, h: int)
    requires Reach(A, B, x, y, h)
    ensures var n := Slide(A, B, x, y); Reach(A, B, x + n, y + n, h)
    decreases |A| - x
  {
    if x < |A| && y < |B| && A[x] == B[y] {
      SlideReach(A, B, x + 1, y + 1, h);
    }
  }

  /** A snake ends where no further match exists. */
  lemma {:induction false} SlideIsMaximal<T>(A: seq<T>, B: seq<T>, x: int, y: int)
    requires 0 <= x && 0 <= y
    ensures var n := Slide(A, B, x, y); x + n < |A| && y + n < |B| ==> A[x + n] != B[y + n]
    decreases |A| - x
  {
    if x < |A| && y < |B| && A[x] == B[y] {
      SlideIsMaximal(A, B, x + 1, y + 1);
    }
  }

  // ----- one round over the furthest-point array -----

  /** The entry of array contents F for diagonal k; the array is laid out with offset |A| + 1. */
  function At<T>(A: seq<T>, F: seq<int>, k: int): int {
    if 0 <= k + |A| + 1 < |F| then F[k + |A| + 1] else -1
  }

  /** G[k] continues from the better of the neighbours below (L) and above (U). */
  ghost predicate Continues<T>(A: seq<T>, B: seq<T>, L: seq<int>, U: seq<int>, G: seq<int>, k: int) {
    At(A, G, k) == Furthest(A, B, k, Max(At(A, L, k - 1) + 1, At(A, U, k + 1)))
  }

  /** G is the array after round p, F the array before it. */
  ghost predicate Round<T(!new)>(A: seq<T>, B: seq<T>, F: seq<int>, G: seq<int>, p: int) {
    var d := |B| - |A|;
    && |F| == |G| == |A| + |B| + 3
    && Risen(A, B, F, G, p, d)
    && Fallen(A, B, F, G, p, d)
    && Continues(A, B, G, G, G, d)
    && (forall k {:trigger At(A, G, k)} :: k < -p || d + p < k ==> At(A, G, k) == At(A, F, k))
  }

  /** The diagonals below k have been recomputed by round p, in ascending order. */
  ghost predicate Risen<T(!new)>(A: seq<T>, B: seq<T>, F: seq<int>, G: seq<int>, p: int, k: int) {
    && At(A, G, -p - 1) == At(A, F, -p - 1)
    && (forall j :: -p <= j < k ==> Continues(A, B, G, F, G, j))
  }

  /** The diagonals above k have been recomputed by round p, in descending order. */
  ghost predicate Fallen<T(!new)>(A: seq<T>, B: seq<T>, F: seq<int>, G: seq<int>, p: int, k: int) {
    var d := |B| - |A|;
    && At(A, G, d + p + 1) == At(A, F, d + p + 1)
    && (forall j :: k < j <= d + p ==> Continues(A, B, F, G, G, j))
  }

  lemma RisenExtends<T(!new)>(A: seq<T>, B: seq<T>, F: seq<int>, G: seq<int>, p: int, k: int, y: int)
    requires Risen(A, B, F, G, p, k) && -p <= k && 0 <= k + |A| + 1 < |G|
    requires y == Furthest(A, B, k, Max(At(A, G, k - 1) + 1, At(A, F, k + 1)))
    ensures Risen(A, B, F, G[k + |A| + 1 := y], p, k + 1)
  {
    var G' := G[k + |A| + 1 := y];
    forall j | -p <= j < k + 1 ensures Continues(A, B, G', F, G', j) {
      if j < k { assert Continues(A, B, G, F, G, j); }
    }
  }

  lemma FallenExtends<T(!new)>(A: seq<T>, B: seq<T>, F: seq<int>, G: seq<int>, p: int, k: int, y: int)
    requires Fallen(A, B, F, G, p, k) && k <= |B| - |A| + p && 0 <= k + |A| + 1 < |G|
    requires y == Furthest(A, B, k, Max(At(A, F, k - 1) + 1, At(A, G, k + 1)))
    ensures Fallen(A, B, F, G[k + |A| + 1 := y], p, k - 1)
  {
    var G' := G[k + |A| + 1 := y];
    forall j | k - 1 < j <= |B| - |A| + p ensures Continues(A, B, F, G', G', j) {
      if k < j { assert Continues(A, B, F, G, G, j); }
    }
  }

  lemma RisenFrame<T(!new)>(A: seq<T>, B: seq<T>, F: seq<int>, G: seq<int>, p: int, k: int, y: int)
    requires Risen(A, B, F, G, p, |B| - |A|) && |B| - |A| <= k && 0 <= p && 0 <= k + |A| + 1 < |G| && |A| <= |B|
    ensures Risen(A, B, F, G[k + |A| + 1 := y], p, |B| - |A|)
  {
    var G' := G[k + |A| + 1 := y];
    forall j | -p <= j < |B| - |A| ensures Continues(A, B, G', F, G', j) {
      assert Continues(A, B, G, F, G, j);
    }
  }

  lemma FallenFrame<T(!new)>(A: seq<T>, B: seq<T>, F: seq<int>, G: seq<int>, p: int, y: int)
    requires Fallen(A, B, F, G, p, |B| - |A|) && 0 <= p && |A| <= |B| && |B| + 1 < |G|
    ensures Fallen(A, B, F, G[|B| + 1 := y], p, |B| - |A|)
  {
    var d := |B| - |A|;
    var G' := G[|B| + 1 := y];
    forall j | d < j <= d + p ensures Continues(A, B, F, G', G', j) {
      assert Continues(A, B, F, G, G, j);
    }
  }

  /** Horizontal steps of the point stored for diagonal k after round p. */
  function Level(d: int, p: int, k: int): int {
    if k <= d then p else p - (k - d)
  }

  /** What round p knows of diagonal k: an actual point, in step with its neighbours. */
  ghost predicate CellOk<T(!new)>(A: seq<T>, B: seq<T>, F: seq<int>, p: int, k: int) {
    var d := |B| - |A|;
    if p >= 0 && -p <= k <= d + p then
      && Reach(A, B, At(A, F, k) - k, At(A, F, k), Level(d, p, k))
      && (-p < k <= d ==> At(A, F, k - 1) < At(A, F, k))
      && (d <= k < d + p ==> At(A, F, k + 1) <= At(A, F, k))
    else At(A, F, k) == -1
  }

  /** The rounds a point on diagonal k with h horizontal steps is due after. */
  function Cost(d: int, k: int, h: int): int {
    if k <= d then h else h + (k - d)
  }

  ghost predicate Dominates<T(!new)>(A: seq<T>, B: seq<T>, F: seq<int>, p: int) {
    forall x, y, h :: Reach(A, B, x, y, h) && Cost(|B| - |A|, y - x, h) <= p ==> y <= At(A, F, y - x)
  }

  /** The invariant of the rounds: F holds furthest points, all of them real. */
  ghost predicate Frontier<T(!new)>(A: seq<T>, B: seq<T>, F: seq<int>, p: int) {
    && -1 <= p <= |A| <= |B|
    && |F| == |A| + |B| + 3
    && (forall k :: CellOk(A, B, F, p, k))
    && (p >= 0 ==> |B| - |A| + p <= At(A, F, |B| - |A|))
    && Dominates(A, B, F, p)
  }

  lemma InitialFrontier<T(!new)>(A: seq<T>, B: seq<T>, F: seq<int>)
    requires |A| <= |B| && |F| == |A| + |B| + 3
    requires forall i :: 0 <= i < |F| ==> F[i] == -1
    ensures Frontier(A, B, F, -1)
  {
    forall k ensures CellOk(A, B, F, -1, k) {
    }
  }

  /** While the end is not reached, no stored point touches the far border on its side. */
  lemma {:induction false} OpenBelow<T(!new)>(A: seq<T>, B: seq<T>, F: seq<int>, p: int, k: int)
    requires Frontier(A, B, F, p) && p >= 0 && At(A, F, |B| - |A|) < |B|
    requires -p <= k <= |B| - |A|
    ensures At(A, F, k) - k < |A|
    decreases |B| - |A| - k
  {
    assert CellOk(A, B, F, p, k);
    if k < |B| - |A| {
      assert CellOk(A, B, F, p, k + 1);
      OpenBelow(A, B, F, p, k + 1);
    }
  }

  lemma {:induction false} OpenAbove<T(!new)>(A: seq<T>, B: seq<T>, F: seq<int>, p: int, k: int)
    requires Frontier(A, B, F, p) && p >= 0 && At(A, F, |B| - |A|) < |B|
    requires |B| - |A| <= k <= |B| - |A| + p
    ensures At(A, F, k) < |B|
    decreases k
  {
    assert CellOk(A, B, F, p, k);
    if k > |B| - |A| {
      assert CellOk(A, B, F, p, k - 1);
      OpenAbove(A, B, F, p, k - 1);
    }
  }

  /** The situation a round starts from: the last one is complete and did not reach the end. */
  ghost predicate Opens<T(!new)>(A: seq<T>, B: seq<T>, F: seq<int>, p: int) {
    Frontier(A, B, F, p - 1) && 0 <= p <= |A| && (p > 0 ==> At(A, F, |B| - |A|) < |B|)
  }

  lemma {:induction false} NewPoint<T(!new)>(A: seq<T>, B: seq<T>, k: int, y0: int, y: int, h: int)
    requires Reach(A, B, y0 - k, y0, h) && y == Furthest(A, B, k, y0)
    ensures y0 <= y && Reach(A, B, y - k, y, h)
  {
    SlideReach(A, B, y0 - k, y0, h);
  }

  /** A snake on diagonal k < d starts at a real point, one step from a stored one. */
  lemma {:induction false} RisingStart<T(!new)>(A: seq<T>, B: seq<T>, F: seq<int>, G: seq<int>, p: int, k: int)
    requires Opens(A, B, F, p) && Risen(A, B, F, G, p, k)
    requires -p <= k < |B| - |A|
    ensures var y := Max(At(A, G, k - 1) + 1, At(A, F, k + 1)); Reach(A, B, y - k, y, p)
    ensures k == -p ==> At(A, G, k - 1) == -1
    ensures p == 0 ==> At(A, F, k + 1) == -1
    decreases k + p, 0
  {
    assert CellOk(A, B, F, p - 1, k + 1);
    if p > 0 { OpenBelow(A, B, F, p - 1, k + 1); }
    if k == -p {
      assert CellOk(A, B, F, p - 1, k - 1);
    } else {
      RisingCells(A, B, F, G, p, k - 1);
    }
  }

  /** Round p stores a real point on each diagonal up to d ... */
  lemma {:induction false} RisingCells<T(!new)>(A: seq<T>, B: seq<T>, F: seq<int>, G: seq<int>, p: int, k: int)
    requires Opens(A, B, F, p) && Risen(A, B, F, G, p, k + 1)
    requires -p <= k < |B| - |A|
    ensures Reach(A, B, At(A, G, k) - k, At(A, G, k), p)
    ensures At(A, G, k - 1) < At(A, G, k)
    decreases k + p, 1
  {
    assert Continues(A, B, G, F, G, k);
    RisingStart(A, B, F, G, p, k);
    NewPoint(A, B, k, Max(At(A, G, k - 1) + 1, At(A, F, k + 1)), At(A, G, k), p);
  }

  lemma {:induction false} FallingStart<T(!new)>(A: seq<T>, B: seq<T>, F: seq<int>, G: seq<int>, p: int, k: int)
    requires Opens(A, B, F, p) && Fallen(A, B, F, G, p, k)
    requires |B| - |A| < k <= |B| - |A| + p
    ensures var y := Max(At(A, F, k - 1) + 1, At(A, G, k + 1)); Reach(A, B, y - k, y, p - (k - (|B| - |A|)))
    ensures k == |B| - |A| + p ==> At(A, G, k + 1) == -1
    ensures At(A, F, k - 1) >= 0
    decreases |B| - |A| + p - k, 0
  {
    assert CellOk(A, B, F, p - 1, k - 1);
    OpenAbove(A, B, F, p - 1, k - 1);
    if k == |B| - |A| + p {
      assert CellOk(A, B, F, p - 1, k + 1);
    } else {
      FallingCells(A, B, F, G, p, k + 1);
    }
  }

  /** ... and on each diagonal beyond it. */
  lemma {:induction false} FallingCells<T(!new)>(A: seq<T>, B: seq<T>, F: seq<int>, G: seq<int>, p: int, k: int)
    requires Opens(A, B, F, p) && Fallen(A, B, F, G, p, k - 1)
    requires |B| - |A| < k <= |B| - |A| + p
    ensures Reach(A, B, At(A, G, k) - k, At(A, G, k), p - (k - (|B| - |A|)))
    ensures At(A, G, k + 1) <= At(A, G, k)
    ensures At(A, F, k - 1) < At(A, G, k)
    decreases |B| - |A| + p - k, 1
  {
    assert Continues(A, B, F, G, G, k);
    FallingStart(A, B, F, G, p, k);
    var y := Max(At(A, F, k - 1) + 1, At(A, G, k + 1));
    NewPoint(A, B, k, y, At(A, G, k), p - (k - (|B| - |A|)));
  }

  lemma {:induction false} EndStart<T(!new)>(A: seq<T>, B: seq<T>, F: seq<int>, G: seq<int>, p: int)
    requires Opens(A, B, F, p) && Risen(A, B, F, G, p, |B| - |A|) && Fallen(A, B, F, G, p, |B| - |A|)
    ensures var d := |B| - |A|;
            var y := Max(At(A, G, d - 1) + 1, At(A, G, d + 1));
            && Reach(A, B, y - d, y, p) && d + p <= y
    ensures 0 <= At(A, G, |B| - |A| - 1) + 1
    ensures |B| - |A| == -p ==> At(A, G, |B| - |A| - 1) == -1
    ensures p == 0 ==> At(A, G, |B| - |A| + 1) == -1
  {
    var d := |B| - |A|;
    if d > -p {
      RisingCells(A, B, F, G, p, d - 1);
    } else {
      assert CellOk(A, B, F, p - 1, d - 1);
    }
    if p > 0 {
      FallingCells(A, B, F, G, p, d + 1);
    } else {
      assert CellOk(A, B, F, p - 1, d + 1);
    }
  }

  lemma {:induction false} EndCell<T(!new)>(A: seq<T>, B: seq<T>, F: seq<int>, G: seq<int>, p: int)
    requires Opens(A, B, F, p) && Round(A, B, F, G, p)
    ensures var d := |B| - |A|; Reach(A, B, At(A, G, d) - d, At(A, G, d), p)
    ensures At(A, G, |B| - |A| - 1) < At(A, G, |B| - |A|)
    ensures At(A, G, |B| - |A| + 1) <= At(A, G, |B| - |A|)
    ensures |B| - |A| + p <= At(A, G, |B| - |A|)
  {
    var d := |B| - |A|;
    EndStart(A, B, F, G, p);
    NewPoint(A, B, d, Max(At(A, G, d - 1) + 1, At(A, G, d + 1)), At(A, G, d), p);
  }

  lemma {:induction false} ReachDiagonal<T(!new)>(A: seq<T>, B: seq<T>, x: int, y: int, h: int)
    requires Reach(A, B, x, y, h)
    ensures h <= x && x - h <= y
    decreases x + y
  {
    if x > 0 && Reach(A, B, x - 1, y, h - 1) {
      ReachDiagonal(A, B, x - 1, y, h - 1);
    } else if y > 0 && Reach(A, B, x, y - 1, h) {
      ReachDiagonal(A, B, x, y - 1, h);
    } else if x > 0 && y > 0 {
      ReachDiagonal(A, B, x - 1, y - 1, h);
    }
  }

  /** The stored point of a diagonal that round p has filled is at least where its snake starts. */
  lemma SnakeCovers<T(!new)>(A: seq<T>, B: seq<T>, L: seq<int>, U: seq<int>, G: seq<int>, k: int, y: int)
    requires Continues(A, B, L, U, G, k)
    requires At(A, L, k - 1) + 1 >= y || At(A, U, k + 1) >= y
    ensures y <= At(A, G, k)
  {
  }

  /** A match just above a stored point would have been taken by its snake. */
  lemma SnakeIsSpent<T(!new)>(A: seq<T>, B: seq<T>, L: seq<int>, U: seq<int>, G: seq<int>, x: int, y: int)
    requires Continues(A, B, L, U, G, y - x) && 0 < x <= |A| && 0 < y <= |B| && A[x - 1] == B[y - 1]
    requires y - 1 <= At(A, G, y - x) && 0 <= At(A, L, y - x - 1) + 1
    requires y - x <= Max(At(A, L, y - x - 1) + 1, At(A, U, y - x + 1))
    ensures y <= At(A, G, y - x)
  {
    var k := y - x;
    var y0 := Max(At(A, L, k - 1) + 1, At(A, U, k + 1));
    SlideIsMaximal(A, B, y0 - k, y0);
  }

  /** No path due after p rounds gets past the stored point of its diagonal. */
  lemma {:induction false} RoundDominates<T(!new)>(A: seq<T>, B: seq<T>, F: seq<int>, G: seq<int>, p: int,
                                                   x: int, y: int, h: int)
    requires Opens(A, B, F, p) && Round(A, B, F, G, p)
    requires Reach(A, B, x, y, h) && Cost(|B| - |A|, y - x, h) <= p
    ensures y <= At(A, G, y - x)
    decreases x + y
  {
    ReachDiagonal(A, B, x, y, h);
    var d, k := |B| - |A|, y - x;
    if k < d {
      RisingDominates(A, B, F, G, p, x, y, h);
    } else if k > d {
      FallingDominates(A, B, F, G, p, x, y, h);
    } else {
      EndDominates(A, B, F, G, p, x, y, h);
    }
  }

  lemma {:induction false} RisingDominates<T(!new)>(A: seq<T>, B: seq<T>, F: seq<int>, G: seq<int>, p: int,
                                                    x: int, y: int, h: int)
    requires Opens(A, B, F, p) && Round(A, B, F, G, p)
    requires Reach(A, B, x, y, h) && -p <= y - x < |B| - |A| && h <= p
    ensures y <= At(A, G, y - x)
    decreases x + y, 0
  {
    var k := y - x;
    RisingCells(A, B, F, G, p, k);
    RisingStart(A, B, F, G, p, k);
    assert Continues(A, B, G, F, G, k);
    if k > -p { RisingCells(A, B, F, G, p, k - 1); }
    if x == 0 && y == 0 {
    } else if x > 0 && Reach(A, B, x - 1, y, h - 1) {
      assert y <= At(A, F, k + 1);
      SnakeCovers(A, B, G, F, G, k, y);
    } else if y > 0 && Reach(A, B, x, y - 1, h) {
      RoundDominates(A, B, F, G, p, x, y - 1, h);
      SnakeCovers(A, B, G, F, G, k, y);
    } else {
      RoundDominates(A, B, F, G, p, x - 1, y - 1, h);
      SnakeIsSpent(A, B, G, F, G, x, y);
    }
  }

  lemma {:induction false} FallingDominates<T(!new)>(A: seq<T>, B: seq<T>, F: seq<int>, G: seq<int>, p: int,
                                                     x: int, y: int, h: int)
    requires Opens(A, B, F, p) && Round(A, B, F, G, p)
    requires Reach(A, B, x, y, h) && |B| - |A| < y - x && h + (y - x) - (|B| - |A|) <= p
    ensures y <= At(A, G, y - x)
    decreases x + y, 0
  {
    var d, k := |B| - |A|, y - x;
    FallingCells(A, B, F, G, p, k);
    FallingStart(A, B, F, G, p, k);
    assert Continues(A, B, F, G, G, k);
    if x > 0 && Reach(A, B, x - 1, y, h - 1) {
      RoundDominates(A, B, F, G, p, x - 1, y, h - 1);
      SnakeCovers(A, B, F, G, G, k, y);
    } else if y > 0 && Reach(A, B, x, y - 1, h) {
      assert Cost(d, k - 1, h) <= p - 1;
      assert y - 1 <= At(A, F, (y - 1) - x);
      SnakeCovers(A, B, F, G, G, k, y);
    } else {
      RoundDominates(A, B, F, G, p, x - 1, y - 1, h);
      SnakeIsSpent(A, B, F, G, G, x, y);
    }
  }

  lemma {:induction false} EndDominates<T(!new)>(A: seq<T>, B: seq<T>, F: seq<int>, G: seq<int>, p: int,
                                                 x: int, y: int, h: int)
    requires Opens(A, B, F, p) && Round(A, B, F, G, p)
    requires Reach(A, B, x, y, h) && |B| - |A| == y - x && h <= p
    ensures y <= At(A, G, y - x)
    decreases x + y, 0
  {
    var d, k := |B| - |A|, y - x;
    EndStart(A, B, F, G, p);
    EndCell(A, B, F, G, p);
    if x == 0 && y == 0 {
    } else if x > 0 && Reach(A, B, x - 1, y, h - 1) {
      RoundDominates(A, B, F, G, p, x - 1, y, h - 1);
      SnakeCovers(A, B, G, G, G, k, y);
    } else if y > 0 && Reach(A, B, x, y - 1, h) {
      RoundDominates(A, B, F, G, p, x, y - 1, h);
      SnakeCovers(A, B, G, G, G, k, y);
    } else {
      RoundDominates(A, B, F, G, p, x - 1, y - 1, h);
      SnakeIsSpent(A, B, G, G, G, x, y);
    }
  }

  /** One round keeps the invariant: every stored point is real and inside the grid, and none can be beaten. */
  lemma RoundKeepsFrontier<T(!new)>(A: seq<T>, B: seq<T>, F: seq<int>, G: seq<int>, p: int)
    requires Opens(A, B, F, p) && Round(A, B, F, G, p)
    ensures Frontier(A, B, G, p)
  {
    var d := |B| - |A|;
    EndCell(A, B, F, G, p);
    forall k ensures CellOk(A, B, G, p, k) {
      if -p <= k <= d + p {
        if -p <= k < d { RisingCells(A, B, F, G, p, k); }
        if d < k { FallingCells(A, B, F, G, p, k); }
        if d <= k < d + p { FallingCells(A, B, F, G, p, k + 1); }
      } else {
        assert CellOk(A, B, F, p - 1, k);
        assert At(A, G, k) == At(A, F, k);
      }
    }
    forall x, y, h | Reach(A, B, x, y, h) && Cost(d, y - x, h) <= p ensures y <= At(A, G, y - x) {
      RoundDominates(A, B, F, G, p, x, y, h);
    }
  }

  /** A round that reaches the end does so with the fewest horizontal steps; one that does not
      shows that more are needed. */
  lemma FrontierIsExact<T(!new)>(A: seq<T>, B: seq<T>, F: seq<int>, p: int)
    requires Frontier(A, B, F, p) && 0 <= p
    requires p > 0 ==> p - 1 < |A| - LcsLength(A, B)
    ensures |B| - |A| + p <= At(A, F, |B| - |A|) <= |B|
    ensures At(A, F, |B| - |A|) == |B| ==> p == |A| - LcsLength(A, B)
    ensures At(A, F, |B| - |A|) != |B| ==> p < |A| - LcsLength(A, B) && p < |A|
  {
    var d := |B| - |A|;
    assert CellOk(A, B, F, p, d);
    EndReach(A, B);
    assert p >= |A| - LcsLength(A, B) ==> |B| <= At(A, F, d);
  }
}
