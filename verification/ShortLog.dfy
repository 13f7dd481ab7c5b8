/**
 * Comparing with the shortest log that gets on, which is full after two rounds: one pass takes one
 * step of each kind and the matches that follow, and the next pass starts over from there.
 */
module ShortLog {
  import opened EditGraph
  import opened EditScript
  import opened PathLog
  import opened Passes
  import opened Recording
  import opened Subsequences

  const SHORT := 2

  /** The sequences differ at once, and neither goes on with the element that the other one starts with. */
  predicate Apart<T(==)>(A: seq<T>, B: seq<T>) {
    && |A| == |B| >= 1 && A[0] != B[0]
    && (|A| > 1 ==> A[1] != B[0] && A[0] != B[1])
  }

  /** Round 0 only finds that there is no match at the origin. */
  lemma RoundZero<T(!new)>(A: seq<T>, B: seq<T>)
    requires Apart(A, B)
    ensures var t, blank, n := AfterRound(A, B, BlankTables(A, B), 0, true), BlankTables(A, B).fp, |A|;
            && t.fp == blank[n + 1 := 0] == t.path
            && t.log == [Point(0, 0, -1)]
  {
  }

  /** Round 1 takes a step of each kind, the vertical one first, and then the matches. */
  lemma RoundOne<T(!new)>(A: seq<T>, B: seq<T>, t: Tables)
    requires Apart(A, B) && t.fp == BlankTables(A, B).fp[|A| + 1 := 0] == t.path && t.log == [Point(0, 0, -1)]
    ensures var u, m := AfterRound(A, B, t, 1, true), Slide(A, B, 1, 1);
            && u.fp[|A| + 1] == 1 + m && u.path[|A| + 1] == 3
            && u.log == [Point(0, 0, -1), Point(1, 0, 0), Point(0, 1, 0), Point(1 + m, 1 + m, 2)]
  {
    hide AfterSnake;
    var n := |A|;
    var t1 := AfterSnake(A, B, t, -1, true);
    assert RiseTo(A, B, t, 1, -1, true) == t && RiseTo(A, B, t, 1, 0, true) == t1;
    var t2 := AfterSnake(A, B, t1, 1, true);
    assert FallTo(A, B, t1, 1, 1, true) == t1 && FallTo(A, B, t1, 1, 0, true) == t2;
    StepOut(A, B, t);
    StepUp(A, B, t1);
    StepOn(A, B, t2);
  }

  lemma StepOut<T(!new)>(A: seq<T>, B: seq<T>, t: Tables)
    requires Apart(A, B) && t.fp == BlankTables(A, B).fp[|A| + 1 := 0] == t.path && t.log == [Point(0, 0, -1)]
    ensures var u := AfterSnake(A, B, t, -1, true);
            u.fp == t.fp[|A| := 0] && u.path == t.path[|A| := 1] && u.log == t.log + [Point(1, 0, 0)]
  {
  }

  lemma StepUp<T(!new)>(A: seq<T>, B: seq<T>, t: Tables)
    requires Apart(A, B) && t.fp == BlankTables(A, B).fp[|A| + 1 := 0][|A| := 0]
    requires t.path == BlankTables(A, B).fp[|A| + 1 := 0][|A| := 1] && |t.log| == 2
    ensures var u := AfterSnake(A, B, t, 1, true);
            u.fp == t.fp[|A| + 2 := 1] && u.path == t.path[|A| + 2 := 2] && u.log == t.log + [Point(0, 1, 0)]
  {
  }

  lemma StepOn<T(!new)>(A: seq<T>, B: seq<T>, t: Tables)
    requires Apart(A, B) && |t.fp| == |t.path| == 2 * |A| + 3 && |t.log| == 3
    requires t.fp[|A|] == 0 && t.fp[|A| + 2] == 1 && t.path[|A| + 2] == 2
    ensures var u, m := AfterSnake(A, B, t, 0, true), Slide(A, B, 1, 1);
            u.fp[|A| + 1] == 1 + m && u.path[|A| + 1] == 3 && u.log == t.log + [Point(1 + m, 1 + m, 2)]
  {
  }

  lemma BlankIsRoomy<T>(A: seq<T>, B: seq<T>)
    requires |A| <= |B|
    ensures Roomy(A, B, BlankTables(A, B))
  {
  }

  /** So the path of the pass is a vertical step, a horizontal step, and the matches. */
  lemma ShortPath<T(!new)>(A: seq<T>, B: seq<T>)
    requires Apart(A, B)
    ensures var m := Slide(A, B, 1, 1);
            PathOf(A, B, SHORT) == [Point(1 + m, 1 + m, 0), Point(0, 1, 0), Point(0, 0, 0)]
  {
    hide AfterRound, BlankTables, Searched;
    var t := BlankTables(A, B);
    BlankIsRoomy(A, B);
    var u := AfterRound(A, B, t, 0, true);
    RoundZero(A, B);
    SearchStep(A, B, t, 0, SHORT, true);
    RoundOne(A, B, u);
    SearchStep(A, B, u, 1, SHORT, true);
    var w := AfterRound(A, B, u, 1, true);
    TraceStep(w.log, 3);
    TraceStep(w.log, 2);
    TraceStep(w.log, 0);
    TraceEnd(w.log);
  }

  // ----- what is recorded along it -----

  /** The kept entries of the matches from (k, k) up to (n, n). */
  function KeptRun<T>(B: seq<T>, k: nat, n: nat): seq<Edit<T>>
    requires n <= |B|
    decreases n - k
  {
    if k >= n then [] else [Edit(B[k], k + 1, k + 1, Common)] + KeptRun(B, k + 1, n)
  }

  lemma {:induction false} AlongMatches<T>(A: seq<T>, B: seq<T>, v: seq<Point>, k: nat, n: nat)
    requires |A| == |B| && k <= n <= |B| && |v| == 1 && v[0].x == n == v[0].y
    ensures EntriesAlong(A, B, true, v, k, k) == KeptRun(B, k, n)
    decreases n - k
  {
    hide EntriesAlong;
    AlongStep(A, B, true, v, k, k);
    if k == n {
      assert v[..0] == [];
      AlongNothing(A, B, true, k, k);
    } else {
      AlongMatches(A, B, v, k + 1, n);
    }
  }

  lemma {:induction false} SlideBounds<T>(A: seq<T>, B: seq<T>, x: int, y: int)
    requires 0 <= x <= |A| && 0 <= y <= |B|
    ensures x + Slide(A, B, x, y) <= |A| && y + Slide(A, B, x, y) <= |B|
    decreases |A| - x
  {
    if x < |A| && y < |B| && A[x] == B[y] { SlideBounds(A, B, x + 1, y + 1); }
  }

  lemma ShortEntries<T(!new)>(A: seq<T>, B: seq<T>, m: nat)
    requires |A| == |B| && 1 + m <= |A|
    ensures EntriesAlong(A, B, true, [Point(1 + m, 1 + m, 0), Point(0, 1, 0), Point(0, 0, 0)], 0, 0)
         == [Edit(B[0], 1, 0, Delete), Edit(A[0], 0, 1, Add)] + KeptRun(B, 1, 1 + m)
  {
    hide EntriesAlong, KeptRun;
    var r := Point(1 + m, 1 + m, 0);
    var v1, v2, v3 := [r], [r, Point(0, 1, 0)], [r, Point(0, 1, 0), Point(0, 0, 0)];
    assert v3[..2] == v2 && v2[..1] == v1;
    AlongStep(A, B, true, v3, 0, 0);
    AlongStep(A, B, true, v2, 0, 0);
    AlongStep(A, B, true, v2, 0, 1);
    AlongStep(A, B, true, v1, 0, 1);
    AlongMatches(A, B, v1, 1, 1 + m);
  }

  /** What a pass records when the sequences were swapped, and what it leaves. */
  lemma ShortPass<T(!new)>(A: seq<T>, B: seq<T>)
    requires Apart(A, B)
    ensures var m := Slide(A, B, 1, 1);
            && 1 + m <= |A|
            && ScriptFrom(A, B, true, SHORT, false) ==
               [Edit(B[0], 1, 0, Delete), Edit(A[0], 0, 1, Add)] + KeptRun(B, 1, 1 + m)
               + if 1 + m == |A| then [] else ScriptFrom(A[1 + m..], B[1 + m..], true, SHORT, false)
  {
    hide PathOf, EntriesAlong, KeptRun, Slide;
    var m := Slide(A, B, 1, 1);
    ShortPath(A, B);
    SlideBounds(A, B, 1, 1);
    ShortEntries(A, B, m);
    AlongFirst(A, B, PathOf(A, B, SHORT));
    hide ScriptAlong;
  }

  lemma AlongFirst<T(!new)>(A: seq<T>, B: seq<T>, v: seq<Point>)
    requires |A| == |B| && v != [] && 0 < v[0].x == v[0].y <= |A|
    ensures ScriptAlong(A, B, true, v, SHORT, false) ==
              EntriesAlong(A, B, true, v, 0, 0)
              + if v[0].x == |A| then [] else ScriptFrom(A[v[0].x..], B[v[0].y..], true, SHORT, false)
  {
    hide EntriesAlong, ScriptFrom;
  }
}
