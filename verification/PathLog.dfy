/**
 * The coordinate log: every snake appends its end point with a back pointer to the point it
 * started from, so that the path to any stored point can be traced back to the origin.
 */
module PathLog {
  import opened EditGraph
  import opened Subsequences

  /** A logged point; k is the log index of its predecessor, -1 at the origin. */
  datatype Point = Point(x: int, y: int, k: int)

  ghost predicate Matches<T(!new)>(A: seq<T>, B: seq<T>, x: int, y: int, n: int) {
    0 <= x && 0 <= y && 0 <= n && x + n <= |A| && y + n <= |B| && A[x..x + n] == B[y..y + n]
  }

  lemma {:induction false} SlideMatches<T(!new)>(A: seq<T>, B: seq<T>, x: int, y: int)
    requires 0 <= x <= |A| && 0 <= y <= |B|
    ensures Matches(A, B, x, y, Slide(A, B, x, y))
    decreases |A| - x
  {
    if x < |A| && y < |B| && A[x] == B[y] {
      SlideMatches(A, B, x + 1, y + 1);
      var n := Slide(A, B, x, y);
      assert A[x..x + n] == [A[x]] + A[x + 1..x + n] && B[y..y + n] == [B[y]] + B[y + 1..y + n];
    }
  }

  /** r is on the diagonal of the origin, all matches. */
  ghost predicate Root<T(!new)>(A: seq<T>, B: seq<T>, r: Point) {
    r.x == r.y && Matches(A, B, 0, 0, r.x)
  }

  /** r is one edit and a run of matches away from (x, y). */
  ghost predicate Leg<T(!new)>(A: seq<T>, B: seq<T>, x: int, y: int, r: Point) {
    || (r.y - r.x == y - x + 1 && 0 <= y < |B| && Matches(A, B, x, y + 1, r.x - x))
    || (r.y - r.x == y - x - 1 && 0 <= x < |A| && Matches(A, B, x + 1, y, r.y - y))
  }

  ghost predicate EntryOk<T(!new)>(A: seq<T>, B: seq<T>, pc: seq<Point>, edits: seq<nat>, i: nat)
    requires i < |pc| == |edits|
  {
    var r := pc[i];
    if r.k == -1 then Root(A, B, r) && edits[i] == 0
    else 0 <= r.k < i && Leg(A, B, pc[r.k].x, pc[r.k].y, r) && edits[i] == edits[r.k] + 1
  }

  /** Every logged point is a leg away from its predecessor; edits counts the legs to the origin. */
  ghost predicate LogOk<T(!new)>(A: seq<T>, B: seq<T>, pc: seq<Point>, edits: seq<nat>) {
    |pc| == |edits| && forall i :: 0 <= i < |pc| ==> EntryOk(A, B, pc, edits, i)
  }

  lemma LogEntry<T(!new)>(A: seq<T>, B: seq<T>, pc: seq<Point>, edits: seq<nat>, i: nat)
    requires LogOk(A, B, pc, edits) && i < |pc|
    ensures |pc| == |edits| && EntryOk(A, B, pc, edits, i)
  {
  }

  /** r is a proper predecessor for a snake from height y on diagonal k that is e edits long. */
  ghost predicate PickOk<T(!new)>(A: seq<T>, B: seq<T>, pc: seq<Point>, edits: seq<nat>, r: int, k: int, y: int, e: int)
  {
    && 0 <= y - k <= |A| && 0 <= y <= |B| && |pc| == |edits|
    && (|| (r == -1 && k == 0 && y == 0 && e == 0)
        || (&& 0 <= r < |pc| && edits[r] + 1 == e
            && (|| (pc[r].x == y - k && pc[r].y == y - 1)
                || (pc[r].x == y - k - 1 && pc[r].y == y))))
  }

  /** The traced path, from its last point back to the first. */
  ghost predicate IsTrace<T(!new)>(A: seq<T>, B: seq<T>, v: seq<Point>) {
    && v != [] && Root(A, B, v[|v| - 1])
    && forall i :: 0 <= i < |v| - 1 ==> Leg(A, B, v[i + 1].x, v[i + 1].y, v[i])
  }

  /** Number of edits a snake that goes on from r is away from the origin. */
  ghost function EditsFrom(edits: seq<nat>, r: int): nat {
    if 0 <= r < |edits| then edits[r] + 1 else 0
  }

  /** An entry does not depend on what is logged after it. */
  lemma EntryStays<T(!new)>(A: seq<T>, B: seq<T>, pc: seq<Point>, edits: seq<nat>, pt: Point, e: nat, i: nat)
    requires i < |pc| == |edits| && EntryOk(A, B, pc, edits, i)
    ensures EntryOk(A, B, pc + [pt], edits + [e], i)
  {
    hide Root, Leg;
    var pc', edits' := pc + [pt], edits + [e];
    var k := pc[i].k;
    assert pc'[i] == pc[i] && edits'[i] == edits[i];
    if k != -1 { assert pc'[k] == pc[k] && edits'[k] == edits[k]; }
  }

  lemma EntryInside<T(!new)>(A: seq<T>, B: seq<T>, pc: seq<Point>, edits: seq<nat>, i: nat)
    requires i < |pc| == |edits| && EntryOk(A, B, pc, edits, i)
    ensures 0 <= pc[i].x <= |A| && 0 <= pc[i].y <= |B|
  {
  }

  /** The end of a snake is a leg away from where it was picked up. */
  lemma SnakeIsLeg<T(!new)>(A: seq<T>, B: seq<T>, pc: seq<Point>, edits: seq<nat>, r: int, k: int, y: int, e: int)
    requires PickOk(A, B, pc, edits, r, k, y, e) && (r != -1 ==> EntryOk(A, B, pc, edits, r))
    ensures var y' := Furthest(A, B, k, y);
            if r == -1 then Root(A, B, Point(y' - k, y', r)) else Leg(A, B, pc[r].x, pc[r].y, Point(y' - k, y', r))
  {
    hide Matches, EntryOk;
    SlideMatches(A, B, y - k, y);
    if r != -1 { EntryInside(A, B, pc, edits, r); }
  }

  lemma SnakeExtendsLog<T(!new)>(A: seq<T>, B: seq<T>, pc: seq<Point>, edits: seq<nat>, r: int, k: int, y: int, e: int)
    requires LogOk(A, B, pc, edits) && PickOk(A, B, pc, edits, r, k, y, e)
    ensures EditsFrom(edits, r) == e
    ensures var y' := Furthest(A, B, k, y);
            LogOk(A, B, pc + [Point(y' - k, y', r)], edits + [e])
  {
    hide Furthest, Root, Leg;
    var pt := Point(Furthest(A, B, k, y) - k, Furthest(A, B, k, y), r);
    var pc', edits' := pc + [pt], edits + [e];
    if r != -1 { assert EntryOk(A, B, pc, edits, r); }
    SnakeIsLeg(A, B, pc, edits, r, k, y, e);
    if r != -1 { assert pc'[r] == pc[r] && edits'[r] == edits[r]; }
    assert EntryOk(A, B, pc', edits', |pc|);
    hide EntryOk;
    forall i | 0 <= i < |pc'| ensures EntryOk(A, B, pc', edits', i) {
      if i < |pc| { EntryStays(A, B, pc, edits, pt, e, i); }
    }
  }

  /** Edits of the point stored for diagonal k after round p: 2 for each horizontal step, plus k. */
  function EditsAt(d: int, p: int, k: int): int {
    k + 2 * Level(d, p, k)
  }

  /** What the path array says of diagonal k after round p: the log index of the stored point. */
  ghost predicate ThreadOk<T(!new)>(A: seq<T>, B: seq<T>, F: seq<int>, path: seq<int>, pc: seq<Point>, edits: seq<nat>,
                                    p: int, k: int)
  {
    var d, i := |B| - |A|, At(A, path, k);
    if p >= 0 && -p <= k <= d + p then
      && 0 <= i < |pc| == |edits|
      && pc[i].y == At(A, F, k) && pc[i].x == At(A, F, k) - k
      && edits[i] == EditsAt(d, p, k)
    else i == -1
  }

  /** The back pointer that a snake on diagonal k takes. */
  function Pick<T>(A: seq<T>, F: seq<int>, path: seq<int>, k: int): int {
    if At(A, F, k - 1) + 1 > At(A, F, k + 1) then At(A, path, k - 1) else At(A, path, k + 1)
  }

  /** The height a snake on diagonal k starts from. */
  function StartAt<T>(A: seq<T>, F: seq<int>, k: int): int {
    Max(At(A, F, k - 1) + 1, At(A, F, k + 1))
  }

  lemma RisingPick<T(!new)>(A: seq<T>, B: seq<T>, F: seq<int>, G: seq<int>, path: seq<int>,
                            pc: seq<Point>, edits: seq<nat>, p: int, k: int)
    requires Opens(A, B, F, p) && Risen(A, B, F, G, p, k) && -p <= k < |B| - |A|
    requires At(A, G, k + 1) == At(A, F, k + 1) && |pc| == |edits|
    requires if k > -p then ThreadOk(A, B, G, path, pc, edits, p, k - 1)
             else ThreadOk(A, B, G, path, pc, edits, p - 1, k - 1)
    requires ThreadOk(A, B, G, path, pc, edits, p - 1, k + 1)
    ensures PickOk(A, B, pc, edits, Pick(A, G, path, k), k, StartAt(A, G, k), EditsAt(|B| - |A|, p, k))
  {
    RisingStart(A, B, F, G, p, k);
    if k == -p && p > 0 { assert CellOk(A, B, F, p - 1, k + 1); }
    if k > -p { RisingCells(A, B, F, G, p, k - 1); }
  }

  lemma FallingPick<T(!new)>(A: seq<T>, B: seq<T>, F: seq<int>, G: seq<int>, path: seq<int>,
                             pc: seq<Point>, edits: seq<nat>, p: int, k: int)
    requires Opens(A, B, F, p) && Fallen(A, B, F, G, p, k) && |B| - |A| < k <= |B| - |A| + p
    requires At(A, G, k - 1) == At(A, F, k - 1) && |pc| == |edits|
    requires if k < |B| - |A| + p then ThreadOk(A, B, G, path, pc, edits, p, k + 1)
             else ThreadOk(A, B, G, path, pc, edits, p - 1, k + 1)
    requires ThreadOk(A, B, G, path, pc, edits, p - 1, k - 1)
    ensures PickOk(A, B, pc, edits, Pick(A, G, path, k), k, StartAt(A, G, k), EditsAt(|B| - |A|, p, k))
  {
    FallingStart(A, B, F, G, p, k);
  }

  lemma EndPick<T(!new)>(A: seq<T>, B: seq<T>, F: seq<int>, G: seq<int>, path: seq<int>,
                         pc: seq<Point>, edits: seq<nat>, p: int)
    requires Opens(A, B, F, p) && Risen(A, B, F, G, p, |B| - |A|) && Fallen(A, B, F, G, p, |B| - |A|)
    requires |pc| == |edits|
    requires if |B| - |A| > -p then ThreadOk(A, B, G, path, pc, edits, p, |B| - |A| - 1)
             else ThreadOk(A, B, G, path, pc, edits, p - 1, |B| - |A| - 1)
    requires if p > 0 then ThreadOk(A, B, G, path, pc, edits, p, |B| - |A| + 1)
             else ThreadOk(A, B, G, path, pc, edits, p - 1, |B| - |A| + 1)
    ensures var d := |B| - |A|; PickOk(A, B, pc, edits, Pick(A, G, path, d), d, StartAt(A, G, d), EditsAt(d, p, d))
  {
    EndStart(A, B, F, G, p);
  }

  // ----- the state between two snakes -----

  ghost predicate Threaded<T(!new)>(A: seq<T>, B: seq<T>, F: seq<int>, path: seq<int>, pc: seq<Point>, edits: seq<nat>,
                                    p: int, lo: int, hi: int)
  {
    forall j :: lo <= j < hi ==> ThreadOk(A, B, F, path, pc, edits, p, j)
  }

  /** The log is sound; the diagonals in [a, b) and [c, e) have been redone by round p, the others not yet. */
  ghost predicate LogState<T(!new)>(A: seq<T>, B: seq<T>, F: seq<int>, path: seq<int>, pc: seq<Point>, edits: seq<nat>,
                                    p: int, a: int, b: int, c: int, e: int)
  {
    && LogOk(A, B, pc, edits)
    && Threaded(A, B, F, path, pc, edits, p - 1, -|A| - 1, a)
    && Threaded(A, B, F, path, pc, edits, p, a, b)
    && Threaded(A, B, F, path, pc, edits, p - 1, b, c)
    && Threaded(A, B, F, path, pc, edits, p, c, e)
    && Threaded(A, B, F, path, pc, edits, p - 1, e, |B| + 2)
  }

  /** The engine's tables: the furthest-point array, the back pointers, and the log. */
  datatype Tables = Tables(fp: seq<int>, path: seq<int>, log: seq<Point>, edits: seq<nat>)

  /** The tables after the snake on diagonal k, which starts from the better of its neighbours. */
  ghost function AfterSnake<T(!new)>(A: seq<T>, B: seq<T>, t: Tables, k: int, logging: bool): Tables
    requires 0 <= k + |A| + 1 < |t.fp| <= |t.path|
  {
    var y, r := Furthest(A, B, k, StartAt(A, t.fp, k)), Pick(A, t.fp, t.path, k);
    Tables(t.fp[k + |A| + 1 := y], t.path[k + |A| + 1 := |t.log|],
           if logging then t.log + [Point(y - k, y, r)] else t.log,
           if logging then t.edits + [EditsFrom(t.edits, r)] else t.edits)
  }

  /** Start and back pointer of the snake on diagonal k, read off the entries beside it. */
  lemma PickBetween<T>(A: seq<T>, t: Tables, k: int, above: int, below: int)
    requires 0 < k + |A| + 1 && k + |A| + 2 < |t.fp| <= |t.path|
    requires above == t.fp[k + |A|] + 1 && below == t.fp[k + |A| + 2]
    ensures StartAt(A, t.fp, k) == Max(above, below)
    ensures Pick(A, t.fp, t.path, k) == if above > below then t.path[k + |A|] else t.path[k + |A| + 2]
  {
  }

  ghost predicate TablesState<T(!new)>(A: seq<T>, B: seq<T>, t: Tables, p: int, a: int, b: int, c: int, e: int,
                                       logging: bool)
  {
    && |A| <= |B| && |t.fp| == |A| + |B| + 3 <= |t.path|
    && (logging ==> LogState(A, B, t.fp, t.path, t.log, t.edits, p, a, b, c, e))
  }

  /** Logging a snake on diagonal k leaves the other diagonals alone and files k under round p. */
  lemma SnakeThreads<T(!new)>(A: seq<T>, B: seq<T>, t: Tables, p: int, k: int)
    requires |A| <= |B| && 0 <= p && -p <= k <= |B| - |A| + p
    requires 0 <= k + |A| + 1 < |t.fp| <= |t.path| && LogOk(A, B, t.log, t.edits)
    requires PickOk(A, B, t.log, t.edits, Pick(A, t.fp, t.path, k), k, StartAt(A, t.fp, k), EditsAt(|B| - |A|, p, k))
    ensures var t' := AfterSnake(A, B, t, k, true);
            && LogOk(A, B, t'.log, t'.edits)
            && ThreadOk(A, B, t'.fp, t'.path, t'.log, t'.edits, p, k)
    ensures var t' := AfterSnake(A, B, t, k, true);
            forall q, j :: j != k && ThreadOk(A, B, t.fp, t.path, t.log, t.edits, q, j)
                       ==> ThreadOk(A, B, t'.fp, t'.path, t'.log, t'.edits, q, j)
  {
    SnakeExtendsLog(A, B, t.log, t.edits, Pick(A, t.fp, t.path, k), k, StartAt(A, t.fp, k), EditsAt(|B| - |A|, p, k));
    assert EditsFrom(t.edits, Pick(A, t.fp, t.path, k)) == EditsAt(|B| - |A|, p, k);
  }

  /** The loop invariant of the ascending pass, with the diagonals from -p to k - 1 done. */
  ghost predicate RiseState<T(!new)>(A: seq<T>, B: seq<T>, F: seq<int>, t: Tables, p: int, k: int, logging: bool) {
    && Risen(A, B, F, t.fp, p, k)
    && (forall j :: j < -p || k <= j ==> At(A, t.fp, j) == At(A, F, j))
    && TablesState(A, B, t, p, -p, k, |B| + 2, |B| + 2, logging)
  }

  /** The loop invariant of the descending pass, with the diagonals from d + p down to k + 1 done. */
  ghost predicate FallState<T(!new)>(A: seq<T>, B: seq<T>, F: seq<int>, t: Tables, p: int, k: int, logging: bool) {
    var d := |B| - |A|;
    && Risen(A, B, F, t.fp, p, d) && Fallen(A, B, F, t.fp, p, k)
    && (forall j :: j < -p || d <= j <= k || d + p < j ==> At(A, t.fp, j) == At(A, F, j))
    && TablesState(A, B, t, p, -p, d, k + 1, d + p + 1, logging)
  }

  lemma StartOfRound<T(!new)>(A: seq<T>, B: seq<T>, t: Tables, p: int, logging: bool)
    requires TablesState(A, B, t, p, -p, -p, |B| + 2, |B| + 2, logging)
    ensures RiseState(A, B, t.fp, t, p, -p, logging)
  {
  }

  lemma InitialTables<T(!new)>(A: seq<T>, B: seq<T>, t: Tables, logging: bool)
    requires |A| <= |B| && |t.fp| == |A| + |B| + 3 <= |t.path| && t.log == [] && t.edits == []
    requires forall i :: 0 <= i < |t.path| ==> t.path[i] == -1
    ensures TablesState(A, B, t, 0, 0, 0, |B| + 2, |B| + 2, logging)
  {
  }

  lemma NextRound<T(!new)>(A: seq<T>, B: seq<T>, t: Tables, p: int, logging: bool)
    requires 0 <= p <= |A| && TablesState(A, B, t, p, -p, |B| - |A| + p + 1, |B| + 2, |B| + 2, logging)
    ensures TablesState(A, B, t, p + 1, -p - 1, -p - 1, |B| + 2, |B| + 2, logging)
    ensures logging ==> LogOk(A, B, t.log, t.edits) && ThreadOk(A, B, t.fp, t.path, t.log, t.edits, p, |B| - |A|)
  {
    if logging {
      forall j | -|A| - 1 <= j < |B| + 2 ensures ThreadOk(A, B, t.fp, t.path, t.log, t.edits, p, j) {
        if j < -p || |B| - |A| + p < j {
          assert ThreadOk(A, B, t.fp, t.path, t.log, t.edits, p - 1, j);
        }
      }
    }
  }

  /** Size of the log after the given number of rounds. */
  function LogSize(delta: int, rounds: int): int { rounds * (delta + rounds) }

  lemma LogSizeStep(delta: int, rounds: int)
    ensures LogSize(delta, 0) == 0
    ensures LogSize(delta, rounds + 1) == LogSize(delta, rounds) + delta + 2 * rounds + 1
  {
  }

  lemma LogGrows(delta: nat, p: nat, h: nat)
    requires p <= h
    ensures LogSize(delta, p) <= LogSize(delta, h)
  {
  }

  /**
   * The rounds stop after round p, at the end or with a log of the limit's size: they have reached
   * the end exactly if the log had room for all rounds but the last.
   */
  lemma LogDecides(delta: nat, p: nat, h: nat, limit: int, reached: bool)
    requires if reached then p == h else p < h && LogSize(delta, p + 1) >= limit
    requires p > 0 ==> LogSize(delta, p) < limit
    ensures reached <==> h == 0 || LogSize(delta, h) < limit
  {
    hide LogSize;
    if !reached { LogGrows(delta, p + 1, h); }
  }

  lemma RiseThenFall<T(!new)>(A: seq<T>, B: seq<T>, F: seq<int>, t: Tables, p: int, logging: bool)
    requires 0 <= p <= |A| && RiseState(A, B, F, t, p, |B| - |A|, logging)
    ensures FallState(A, B, F, t, p, |B| - |A| + p, logging)
  {
  }

  lemma RiseStep<T(!new)>(A: seq<T>, B: seq<T>, F: seq<int>, t: Tables, p: int, k: int, logging: bool)
    requires Opens(A, B, F, p) && RiseState(A, B, F, t, p, k, logging) && -p <= k < |B| - |A|
    ensures 0 <= StartAt(A, t.fp, k) && (logging ==> |t.log| == |t.edits|)
    ensures RiseState(A, B, F, AfterSnake(A, B, t, k, logging), p, k + 1, logging)
  {
    RisingStart(A, B, F, t.fp, p, k);
    var y := Furthest(A, B, k, StartAt(A, t.fp, k));
    RisenExtends(A, B, F, t.fp, p, k, y);
    if logging {
      RisingPick(A, B, F, t.fp, t.path, t.log, t.edits, p, k);
      SnakeThreads(A, B, t, p, k);
    }
  }

  lemma FallStep<T(!new)>(A: seq<T>, B: seq<T>, F: seq<int>, t: Tables, p: int, k: int, logging: bool)
    requires Opens(A, B, F, p) && FallState(A, B, F, t, p, k, logging) && |B| - |A| < k <= |B| - |A| + p
    ensures 0 <= StartAt(A, t.fp, k) && (logging ==> |t.log| == |t.edits|)
    ensures FallState(A, B, F, AfterSnake(A, B, t, k, logging), p, k - 1, logging)
  {
    FallingStart(A, B, F, t.fp, p, k);
    var y := Furthest(A, B, k, StartAt(A, t.fp, k));
    FallenExtends(A, B, F, t.fp, p, k, y);
    RisenFrame(A, B, F, t.fp, p, k, y);
    if logging {
      FallingPick(A, B, F, t.fp, t.path, t.log, t.edits, p, k);
      SnakeThreads(A, B, t, p, k);
    }
  }

  lemma EndRound<T(!new)>(A: seq<T>, B: seq<T>, F: seq<int>, G: seq<int>, p: int)
    requires Opens(A, B, F, p) && |F| == |G| == |A| + |B| + 3
    requires Risen(A, B, F, G, p, |B| - |A|) && Fallen(A, B, F, G, p, |B| - |A|)
    requires forall j :: j < -p || |B| - |A| + p < j ==> At(A, G, j) == At(A, F, j)
    ensures Round(A, B, F, G[|B| + 1 := Furthest(A, B, |B| - |A|, StartAt(A, G, |B| - |A|))], p)
  {
    var d := |B| - |A|;
    var y := Furthest(A, B, d, StartAt(A, G, d));
    var G' := G[|B| + 1 := y];
    RisenFrame(A, B, F, G, p, d, y);
    FallenFrame(A, B, F, G, p, y);
    assert Continues(A, B, G', G', G', d);
  }

  lemma {:induction false} EndThreads<T(!new)>(A: seq<T>, B: seq<T>, t: Tables, p: int)
    requires 0 <= p && TablesState(A, B, t, p, -p, |B| - |A|, |B| - |A| + 1, |B| - |A| + p + 1, true)
    requires var d := |B| - |A|;
             PickOk(A, B, t.log, t.edits, Pick(A, t.fp, t.path, d), d, StartAt(A, t.fp, d), EditsAt(d, p, d))
    ensures TablesState(A, B, AfterSnake(A, B, t, |B| - |A|, true), p, -p, |B| - |A| + p + 1, |B| + 2, |B| + 2, true)
  {
    SnakeThreads(A, B, t, p, |B| - |A|);
  }

  lemma EndStep<T(!new)>(A: seq<T>, B: seq<T>, F: seq<int>, t: Tables, p: int, logging: bool)
    requires Opens(A, B, F, p) && FallState(A, B, F, t, p, |B| - |A|, logging)
    ensures 0 <= StartAt(A, t.fp, |B| - |A|) && (logging ==> |t.log| == |t.edits|)
    ensures Round(A, B, F, AfterSnake(A, B, t, |B| - |A|, logging).fp, p)
    ensures var d := |B| - |A|;
            TablesState(A, B, AfterSnake(A, B, t, d, logging), p, -p, d + p + 1, |B| + 2, |B| + 2, logging)
  {
    EndStart(A, B, F, t.fp, p);
    EndRound(A, B, F, t.fp, p);
    if logging {
      EndPick(A, B, F, t.fp, t.path, t.log, t.edits, p);
      EndThreads(A, B, t, p);
    }
  }

  /** Where the trace from diagonal d starts, and how long it is. */
  lemma ThreadedEnd<T(!new)>(A: seq<T>, B: seq<T>, F: seq<int>, path: seq<int>, pc: seq<Point>, edits: seq<nat>, p: int)
    requires |A| <= |B| < |F| - 1 && |F| <= |path| && 0 <= p
    requires ThreadOk(A, B, F, path, pc, edits, p, |B| - |A|)
    ensures var i := path[|B| + 1];
            && 0 <= i < |pc| == |edits|
            && pc[i].y == F[|B| + 1] && pc[i].y - pc[i].x == |B| - |A|
            && edits[i] == |B| - |A| + 2 * p
  {
  }
}
