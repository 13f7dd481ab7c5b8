/**
 * The diff engine: compose computes an edit script by rounds over the furthest-point array,
 * traces the path to the end point back through the coordinate log, and records it. When the
 * log reaches its size limit first, the rest is either listed as removed and added (trivial
 * mode) or compared by starting over on the remainders.
 */
module DiffEngine {
  import opened EditGraph
  import opened EditPaths
  import opened EditScript
  import opened HunkGroups
  import opened HunkStarts
  import opened HunkWalk
  import opened Hunks
  import opened Patches
  import opened Passes
  import opened PathLog
  import opened Recording
  import Ses
  import opened Subsequences

  /**
   * The coordinate log has room for a full run: it is left with the number of deletions times the
   * number of additions of a shortest script, counted before its last round.
   */
  ghost predicate Fits<T(!new)>(a: seq<T>, b: seq<T>, limit: int) {
    var deletions, additions := |a| - LcsLength(a, b), |b| - LcsLength(a, b);
    deletions * additions < limit
  }

  lemma {:induction false} FitsAsLogSize<T(!new)>(a: seq<T>, b: seq<T>, limit: int)
    ensures LcsLength(a, b) == LcsLength(b, a) && LcsLength(a, b) <= |a| && LcsLength(a, b) <= |b|
    ensures Fits(a, b, limit) <==> Fits(b, a, limit)
    ensures Fits(a, b, limit) <==> LogSize(|b| - |a|, |a| - LcsLength(a, b)) < limit
    ensures limit > 0 && |a| == LcsLength(a, b) ==> Fits(a, b, limit)
  {
    hide LcsLength, Reach;
    EndReach(a, b);
    EndReach(b, a);
    LcsSymmetric(a, b);
    var l := LcsLength(a, b);
    Commute(|a| - l, |b| - l);
    assert (|b| - |a|) + (|a| - l) == |b| - l;
  }

  lemma Commute(m: int, n: int)
    ensures m * n == n * m
  {
  }

  class Diff<T(==, !new)> {
    var A: seq<T>
    var B: seq<T>
    var M: nat
    var N: nat
    var delta: int
    var offset: int
    var fp: array<int>
    var path: array<int>
    var pathCordinates: seq<Point>
    var editDistance: int
    var lcs: seq<T>
    const ses: Ses.Ses<T>
    var swapped: bool
    var trivial: bool
    var editDistanceOnly: bool
    var uniHunks: seq<Hunk<T>>
    const limit: nat                // size of the coordinate log at which the rounds stop
    ghost var edits: seq<nat>       // per logged point, its distance from the origin
    ghost const left: seq<T>        // the sequences as given
    ghost const right: seq<T>

    /** The dimensions agree with the sequences; fp has room for every diagonal a round can touch. */
    ghost predicate Shape()
      reads this, fp, path
    {
      && M == |A| && N == |B| && M <= N && delta == N - M && offset == M + 1
      && fp.Length == M + N + 3 && fp.Length <= path.Length && fp != path
    }

    constructor (a: seq<T>, b: seq<T>, deletesFirst: bool, maxCordinates: nat)
      ensures Shape() && limit == maxCordinates && left == a && right == b
      ensures swapped == (|a| >= |b|) && A == (if swapped then b else a) && B == (if swapped then a else b)
      ensures editDistance == 0 && lcs == [] && pathCordinates == [] && edits == [] && uniHunks == []
      ensures !trivial && !editDistanceOnly && fresh(fp) && fresh(path)
      ensures fresh(ses) && ses.Valid() && ses.calls == [] && ses.deletesFirst == deletesFirst
    {
      left, right := a, b;
      A, B := a, b;
      limit := maxCordinates;
      lcs := [];
      pathCordinates, edits, uniHunks := [], [], [];
      ses := new Ses.Ses<T>(deletesFirst);
      fp := new int[|a| + |b| + 3];
      path := new int[|a| + |b| + 3];
      new;
      Init();
    }

    /** Makes B the longer sequence and sets up the dimensions. */
    method Init()
      requires fp.Length == |A| + |B| + 3 == path.Length && fp != path
      modifies this`A, this`B, this`M, this`N, this`delta, this`offset, this`editDistance,
               this`swapped, this`trivial, this`editDistanceOnly
      ensures Shape()
      ensures swapped == (old(|A|) >= old(|B|))
      ensures swapped ==> A == old(B) && B == old(A)
      ensures !swapped ==> A == old(A) && B == old(B)
      ensures editDistance == 0 && !trivial && !editDistanceOnly
    {
      M, N := |A|, |B|;
      if M < N {
        swapped := false;
      } else {
        A, B := B, A;
        M, N := N, M;
        swapped := true;
      }
      editDistance := 0;
      delta := N - M;
      offset := M + 1;
      trivial := false;
      editDistanceOnly := false;
    }

    /** The tables before the first round. */
    ghost predicate Blank()
      reads `fp, `path, fp, path
    {
      && (forall i :: 0 <= i < fp.Length ==> fp[i] == -1)
      && (forall i :: 0 <= i < path.Length ==> path[i] == -1)
    }

    /** The tables; after a restart path is longer than a round needs. */
    ghost function View(): Tables
      requires fp.Length <= path.Length
      reads this, fp, path
    {
      Tables(fp[..], path[..fp.Length], pathCordinates, edits)
    }

    /**
     * Extends the snake on diagonal k and logs its end point.
     */
    method Snake(k: int, above: int, below: int) returns (y: int)
      requires Shape() && -offset < k <= N && 0 <= Max(above, below)
      requires !editDistanceOnly ==> |pathCordinates| == |edits|
      modifies path, this`pathCordinates, this`edits
      ensures y == Furthest(A, B, k, Max(above, below))
      ensures path[..] == old(path[..])[k + offset := |old(pathCordinates)|]
      ensures var r := if above > below then old(path[k - 1 + offset]) else old(path[k + 1 + offset]);
              if editDistanceOnly then pathCordinates == old(pathCordinates) && edits == old(edits)
              else && pathCordinates == old(pathCordinates) + [Point(y - k, y, r)]
                   && edits == old(edits) + [EditsFrom(old(edits), r)]
    {
      var r := if above > below then path[k - 1 + offset] else path[k + 1 + offset];
      y := Max(above, below);
      var x := y - k;
      while 0 <= x < M && 0 <= y < N && A[x] == B[y]
        invariant x == y - k && 0 <= y
        invariant y + Slide(A, B, x, y) == Furthest(A, B, k, Max(above, below))
        decreases M - x
      {
        x, y := x + 1, y + 1;
      }
      path[k + offset] := |pathCordinates|;
      if !editDistanceOnly {
        pathCordinates := pathCordinates + [Point(x, y, r)];
        edits := edits + [EditsFrom(edits, r)];
      }
    }

    /** One step of a round: recomputes diagonal k from its neighbours. */
    method Advance(k: int)
      requires Shape() && -offset < k <= N && 0 <= StartAt(A, fp[..], k)
      requires !editDistanceOnly ==> |pathCordinates| == |edits|
      modifies fp, path, this`pathCordinates, this`edits
      ensures View() == AfterSnake(A, B, old(View()), k, !editDistanceOnly)
      ensures |pathCordinates| == old(|pathCordinates|) + if editDistanceOnly then 0 else 1
    {
      hide EditsFrom, Furthest;
      ghost var t := View();
      var above, below := fp[k - 1 + offset] + 1, fp[k + 1 + offset];
      PickBetween(A, t, k, above, below);
      var y := Snake(k, above, below);
      fp[k + offset] := y;
      assert fp[..] == t.fp[k + |A| + 1 := y];
      assert path[..fp.Length] == t.path[k + |A| + 1 := |t.log|];
    }

    /** The first loop of a round: diagonals below delta, ascending. */
    method RisePass(p: int, ghost F: seq<int>)
      requires 0 <= p <= M && Shape() && Opens(A, B, F, p) && RiseState(A, B, F, View(), p, -p, !editDistanceOnly)
      modifies fp, path, this`pathCordinates, this`edits
      ensures RiseState(A, B, F, View(), p, delta, !editDistanceOnly)
      ensures View() == RiseTo(A, B, old(View()), p, delta, !editDistanceOnly)
      ensures |pathCordinates| == old(|pathCordinates|) + if editDistanceOnly then 0 else delta + p
    {
      hide RiseState, AfterSnake;
      ghost var t := View();
      var k := -p;
      while k <= delta - 1
        invariant -p <= k <= delta && View() == t == RiseTo(A, B, old(View()), p, k, !editDistanceOnly)
        invariant RiseState(A, B, F, t, p, k, !editDistanceOnly)
        invariant |pathCordinates| == old(|pathCordinates|) + if editDistanceOnly then 0 else k + p
      {
        RiseStep(A, B, F, t, p, k, !editDistanceOnly);
        Advance(k);
        t := AfterSnake(A, B, t, k, !editDistanceOnly);
        k := k + 1;
      }
    }

    /** The second loop: diagonals above delta, descending. */
    method FallPass(p: int, ghost F: seq<int>)
      requires 0 <= p <= M && Shape() && Opens(A, B, F, p)
      requires FallState(A, B, F, View(), p, delta + p, !editDistanceOnly)
      modifies fp, path, this`pathCordinates, this`edits
      ensures FallState(A, B, F, View(), p, delta, !editDistanceOnly)
      ensures View() == FallTo(A, B, old(View()), p, delta, !editDistanceOnly)
      ensures |pathCordinates| == old(|pathCordinates|) + if editDistanceOnly then 0 else p
    {
      hide FallState, AfterSnake;
      ghost var t := View();
      var k := delta + p;
      while k >= delta + 1
        invariant delta <= k <= delta + p && View() == t == FallTo(A, B, old(View()), p, k, !editDistanceOnly)
        invariant FallState(A, B, F, t, p, k, !editDistanceOnly)
        invariant |pathCordinates| == old(|pathCordinates|) + if editDistanceOnly then 0 else delta + p - k
      {
        FallStep(A, B, F, t, p, k, !editDistanceOnly);
        Advance(k);
        t := AfterSnake(A, B, t, k, !editDistanceOnly);
        k := k - 1;
      }
    }

    /** One round: both loops, then diagonal delta. */
    method RunRound(p: int)
      requires 0 <= p <= M && Shape() && Opens(A, B, fp[..], p)
      requires TablesState(A, B, View(), p, -p, -p, N + 2, N + 2, !editDistanceOnly)
      modifies fp, path, this`pathCordinates, this`edits
      ensures Round(A, B, old(fp[..]), fp[..], p)
      ensures View() == AfterRound(A, B, old(View()), p, !editDistanceOnly)
      ensures TablesState(A, B, View(), p, -p, delta + p + 1, N + 2, N + 2, !editDistanceOnly)
      ensures |pathCordinates| == old(|pathCordinates|) + if editDistanceOnly then 0 else delta + 2 * p + 1
    {
      hide Opens, Round, RiseState, FallState, TablesState, AfterSnake, RiseTo, FallTo;
      ghost var F := fp[..];
      StartOfRound(A, B, View(), p, !editDistanceOnly);
      RisePass(p, F);
      RiseThenFall(A, B, F, View(), p, !editDistanceOnly);
      FallPass(p, F);
      EndStep(A, B, F, View(), p, !editDistanceOnly);
      Advance(delta);
    }

    /** One round and what it shows: the end is reached exactly in the round that is optimal. */
    method CompleteRound(p: int)
      requires 0 <= p <= M && p - 1 < M - LcsLength(A, B) && Shape() && Opens(A, B, fp[..], p)
      requires TablesState(A, B, View(), p, -p, -p, N + 2, N + 2, !editDistanceOnly)
      modifies fp, path, this`pathCordinates, this`edits
      ensures Searched(A, B, old(View()), p, limit, !editDistanceOnly) ==
                if fp[delta + offset] == N || |pathCordinates| >= limit || p == M then View()
                else Searched(A, B, View(), p + 1, limit, !editDistanceOnly)
      ensures Frontier(A, B, fp[..], p)
      ensures TablesState(A, B, View(), p + 1, -p - 1, -p - 1, N + 2, N + 2, !editDistanceOnly)
      ensures !editDistanceOnly ==> LogOk(A, B, pathCordinates, edits)
      ensures !editDistanceOnly ==> ThreadOk(A, B, fp[..], View().path, pathCordinates, edits, p, delta)
      ensures |pathCordinates| == old(|pathCordinates|) + if editDistanceOnly then 0 else delta + 2 * p + 1
      ensures delta + p <= fp[delta + offset] <= N
      ensures fp[delta + offset] == N ==> p == M - LcsLength(A, B)
      ensures fp[delta + offset] != N ==> p < M - LcsLength(A, B) && p < M && Opens(A, B, fp[..], p + 1)
    {
      hide Round, TablesState, Frontier, ThreadOk, LogOk, LcsLength, AfterRound, Searched;
      SearchStep(A, B, View(), p, limit, !editDistanceOnly);
      ghost var F := fp[..];
      RunRound(p);
      RoundKeepsFrontier(A, B, F, fp[..], p);
      FrontierIsExact(A, B, fp[..], p);
      NextRound(A, B, View(), p, !editDistanceOnly);
    }

    /** Blank tables are those of the first round. */
    lemma SearchStarts()
      requires Shape() && Blank() && pathCordinates == [] && edits == []
      ensures Opens(A, B, fp[..], 0) && View() == BlankTables(A, B)
      ensures TablesState(A, B, View(), 0, 0, 0, N + 2, N + 2, !editDistanceOnly)
    {
      hide Frontier, TablesState;
      InitialFrontier(A, B, fp[..]);
      InitialTables(A, B, View(), !editDistanceOnly);
      BlankAreBlank(A, B, View());
    }

    /** Rounds until the end point is reached or the log is full. */
    method Search() returns (p: int)
      requires Shape() && pathCordinates == [] && edits == [] && limit > 0
      requires Blank()
      modifies fp, path, this`pathCordinates, this`edits
      ensures 0 <= p <= M && Frontier(A, B, fp[..], p)
      ensures View() == Searched(A, B, BlankTables(A, B), 0, limit, !editDistanceOnly)
      ensures !editDistanceOnly ==> LogOk(A, B, pathCordinates, edits)
      ensures !editDistanceOnly ==> ThreadOk(A, B, fp[..], View().path, pathCordinates, edits, p, delta)
      // the run is full exactly if the log has room for every round but the last
      ensures var h := M - LcsLength(A, B);
              fp[delta + offset] == N <==> editDistanceOnly || h == 0 || LogSize(delta, h) < limit
      ensures fp[delta + offset] == N ==> p == M - LcsLength(A, B)
      ensures delta <= fp[delta + offset] <= N
      ensures fp[delta + offset] != N && limit >= 2 ==> fp[delta + offset] > 0
    {
      hide TablesState, Frontier, ThreadOk, LogOk, LcsLength, LogSize, Searched, Opens, BlankTables;
      p := -1;
      LogSizeStep(delta, 0);
      ghost var h := M - LcsLength(A, B);
      EndReach(A, B);
      SearchStarts();
      ghost var whole := Searched(A, B, View(), 0, limit, !editDistanceOnly);
      while true
        invariant Shape() && -1 <= p < M + 1 && Opens(A, B, fp[..], p + 1)
        invariant TablesState(A, B, View(), p + 1, -p - 1, -p - 1, N + 2, N + 2, !editDistanceOnly)
        invariant |pathCordinates| == if editDistanceOnly then 0 else LogSize(delta, p + 1)
        invariant p < h <= M && (p >= 0 ==> |pathCordinates| < limit)
        invariant Searched(A, B, View(), p + 1, limit, !editDistanceOnly) == whole
        decreases M - p
      {
        p := p + 1;
        CompleteRound(p);
        LogSizeStep(delta, p);
        if !(fp[delta + offset] != N && |pathCordinates| < limit) {
          if !editDistanceOnly { LogDecides(delta, p, h, limit, fp[delta + offset] == N); }
          LogSizeStep(0, 0);
          break;
        }
      }
    }

    /** Follows the back pointers from log entry last to the origin. */
    method Trace(last: int) returns (epc: seq<Point>)
      requires 0 <= last < |pathCordinates| && LogOk(A, B, pathCordinates, edits)
      ensures IsTrace(A, B, epc) && |epc| == edits[last] + 1
      ensures epc[0].x == pathCordinates[last].x && epc[0].y == pathCordinates[last].y
      ensures epc == TraceOf(pathCordinates, last)
    {
      hide Tracing, LogOk;
      TracingStarts(A, B, pathCordinates, edits, last);
      var r := last;
      epc := [];
      while r != -1
        invariant -1 <= r < |pathCordinates| && Tracing(A, B, pathCordinates, edits, last, r, epc)
        decreases r
      {
        TracingStep(A, B, pathCordinates, edits, last, r, epc);
        var cordinate := Point(pathCordinates[r].x, pathCordinates[r].y, 0);
        epc := epc + [cordinate];
        r := pathCordinates[r].k;
      }
      TracingEnds(A, B, pathCordinates, edits, last, epc);
    }

    /** Records one entry of the leg from (x, y) to r: its edit first, then its matches. */
    method RecordEntry(x: int, y: int, r: Point, ghost taken: bool, ghost w: seq<Point>, ghost base: seq<Edit<T>>,
                       ghost n: int)
      returns (x': int, y': int)
      requires OnLeg(A, B, x, y, r, taken) && (x < r.x || y < r.y) && w != [] && w[|w| - 1] == r
      requires ses.Valid() && lcs == Kept(ses.calls) && Recorded(A, B, swapped, base, ses.calls, x, y, n)
      modifies ses, this`lcs
      ensures ses.Valid() && lcs == Kept(ses.calls)
      ensures OnLeg(A, B, x', y', r, true) && x <= x' && y <= y' && x + y < x' + y'
      ensures ses.calls + EntriesAlong(A, B, swapped, w, x', y')
           == old(ses.calls) + EntriesAlong(A, B, swapped, w, x, y)
      ensures Recorded(A, B, swapped, base, ses.calls, x', y', if taken then n else n + 1)
    {
      hide Recorded, Elems, OnLeg, Ses.Ses.Valid, EntriesAlong;
      ghost var calls := ses.calls;
      LegStep(A, B, x, y, r, taken);
      var xIdx, yIdx := x + 1, y + 1;
      if r.y - r.x > y - x {
        RecordVertical(A, B, swapped, base, ses.calls, x, y, n);
        if !swapped {
          ses.AddSequence(B[y], 0, yIdx, Add);
        } else {
          ses.AddSequence(B[y], yIdx, 0, Delete);
        }
        x', y' := x, y + 1;
      } else if r.y - r.x < y - x {
        RecordHorizontal(A, B, swapped, base, ses.calls, x, y, n);
        if !swapped {
          ses.AddSequence(A[x], xIdx, 0, Delete);
        } else {
          ses.AddSequence(A[x], 0, xIdx, Add);
        }
        x', y' := x + 1, y;
      } else {
        RecordDiagonal(A, B, swapped, base, ses.calls, x, y, n);
        if !swapped {
          lcs := lcs + [A[x]];
          ses.AddSequence(A[x], xIdx, yIdx, Common);
        } else {
          lcs := lcs + [B[y]];
          ses.AddSequence(B[y], yIdx, xIdx, Common);
        }
        x', y' := x + 1, y + 1;
      }
      AlongEntry(A, B, swapped, w, x, y, calls);
    }

    /** Records the leg that ends the path w, from (px0, py0) to its last point. */
    method RecordLeg(px0: int, py0: int, ghost taken0: bool, w: seq<Point>, ghost base: seq<Edit<T>>, ghost n: int)
      returns (px: int, py: int)
      requires w != [] && OnLeg(A, B, px0, py0, w[|w| - 1], taken0)
      requires ses.Valid() && lcs == Kept(ses.calls) && Recorded(A, B, swapped, base, ses.calls, px0, py0, n)
      modifies ses, this`lcs
      ensures ses.Valid() && lcs == Kept(ses.calls)
      ensures px == w[|w| - 1].x && py == w[|w| - 1].y && 0 <= px <= |A| && 0 <= py <= |B|
      ensures Recorded(A, B, swapped, base, ses.calls, px, py, if taken0 then n else n + 1)
      ensures ses.calls + EntriesAlong(A, B, swapped, w[..|w| - 1], px, py)
           == old(ses.calls) + EntriesAlong(A, B, swapped, w, px0, py0)
    {
      hide Recorded, Elems, OnLeg, Ses.Ses.Valid, EntriesAlong;
      px, py := px0, py0;
      var r := w[|w| - 1];
      ghost var whole := ses.calls + EntriesAlong(A, B, swapped, w, px, py);
      ghost var taken := taken0;
      LegStep(A, B, px, py, r, taken);
      while px < r.x || py < r.y
        invariant OnLeg(A, B, px, py, r, taken) && px <= r.x && py <= r.y
        invariant taken0 ==> taken
        invariant !taken ==> px < r.x || py < r.y
        invariant ses.Valid() && lcs == Kept(ses.calls)
        invariant Recorded(A, B, swapped, base, ses.calls, px, py, if taken0 || !taken then n else n + 1)
        invariant ses.calls + EntriesAlong(A, B, swapped, w, px, py) == whole
        decreases r.x - px + r.y - py
      {
        px, py := RecordEntry(px, py, r, taken, w, base, if taken0 || !taken then n else n + 1);
        taken := true;
        LegStep(A, B, px, py, r, taken);
      }
      LegStep(A, B, px, py, r, taken);
      AlongEnd(A, B, swapped, w, px, py);
    }

    /** Records the entries along a traced path, and ends at its last point. */
    method RecordPath(v: seq<Point>) returns (px: int, py: int)
      requires IsTrace(A, B, v) && ses.Valid() && lcs == Kept(ses.calls)
      modifies ses, this`lcs
      ensures ses.Valid() && lcs == Kept(ses.calls)
      ensures Recorded(A, B, swapped, old(ses.calls), ses.calls, px, py, |v| - 1)
      ensures ses.calls == old(ses.calls) + EntriesAlong(A, B, swapped, v, 0, 0)
      ensures px == v[0].x && py == v[0].y && 0 <= px <= |A| && 0 <= py <= |B|
    {
      hide Recorded, Elems, OnLeg, Leg, Root, Ses.Ses.Valid, EntriesAlong;
      ghost var base := ses.calls;
      RecordedOrigin(A, B, swapped, base);
      TraceLegs(A, B, v);
      px, py := 0, 0;
      var i, complete := |v| - 1, false;
      assert v[..i + 1] == v;
      while !complete
        invariant 0 <= i < |v| && ses.Valid() && lcs == Kept(ses.calls)
        invariant !complete ==> OnLeg(A, B, px, py, v[i], i == |v| - 1)
        invariant complete ==> i == 0 && px == v[0].x && py == v[0].y && 0 <= px <= |A| && 0 <= py <= |B|
        invariant var legs := if complete then |v| - 1 else if i == |v| - 1 then 0 else |v| - 2 - i;
                  Recorded(A, B, swapped, base, ses.calls, px, py, legs)
        invariant ses.calls + EntriesAlong(A, B, swapped, v[..if complete then 0 else i + 1], px, py)
               == base + EntriesAlong(A, B, swapped, v, 0, 0)
        decreases !complete, i
      {
        ghost var taken := i == |v| - 1;
        assert v[..i + 1][..i] == v[..i];
        px, py := RecordLeg(px, py, taken, v[..i + 1], base, if taken then 0 else |v| - 2 - i);
        if i == 0 { complete := true; } else { i := i - 1; }
      }
      AlongNothing(A, B, swapped, px, py);
      assert v[..0] == [] && ses.calls + [] == ses.calls;
    }

    /** Lists the rest of a sequence, from line idx on, as deleted or as added. */
    method RecordOddSequence(idx0: int, length: int, s: seq<T>, kind: Kind)
      requires 1 <= idx0 <= length == |s| && !kind.Common? && ses.Valid()
      modifies ses, this`editDistance
      ensures ses.Valid() && editDistance == old(editDistance) + length - idx0 + 1
      ensures ses.calls == old(ses.calls) + RestEntries(s, idx0 - 1, length, kind)
    {
      hide Ses.Ses.Valid;
      var idx := idx0;
      while idx < length
        invariant idx0 <= idx <= length && ses.Valid() && editDistance == old(editDistance) + idx - idx0
        invariant ses.calls == old(ses.calls) + RestEntries(s, idx0 - 1, idx - 1, kind)
      {
        ses.AddSequence(s[idx - 1], idx, 0, kind);
        idx := idx + 1;
        editDistance := editDistance + 1;
      }
      ses.AddSequence(s[idx - 1], idx, 0, kind);
      editDistance := editDistance + 1;
    }

    /** Trivial mode: what is left of both sequences is listed as deleted and as added. */
    method RecordRest(px: int, py: int, ghost base: seq<Edit<T>>, ghost n: int)
      requires M == |A| && N == |B| && px < M && py < N && ses.Valid()
      requires Recorded(A, B, swapped, base, ses.calls, px, py, n)
      modifies ses, this`editDistance
      ensures ses.Valid() && Kept(ses.calls) == old(Kept(ses.calls))
      ensures editDistance == old(editDistance) + M - px + N - py
      ensures AllRecorded(A, B, swapped, base, ses.calls, n + editDistance - old(editDistance))
      ensures 0 <= px && 0 <= py && ses.calls == old(ses.calls) + BothRests(A, B, swapped, px, py)
    {
      hide Elems, Changes, Numbered, Recorded, AllRecorded, Ses.Ses.Valid;
      ghost var mid := ses.calls;
      RecordedSizes(A, B, swapped, base, mid, px, py, n);
      if !swapped {
        RecordOddSequence(px + 1, M, A, Delete);
        RecordOddSequence(py + 1, N, B, Add);
      } else {
        RecordOddSequence(px + 1, M, A, Add);
        RecordOddSequence(py + 1, N, B, Delete);
      }
      assert ses.calls == mid + BothRests(A, B, swapped, px, py);
      RestRecorded(A, B, swapped, base, mid, px, py, n);
    }

    /** Leaves the engine set up for comparing what comes after (px, py). */
    method KeepRemainders(px: nat, py: nat)
      requires px <= M == |A| && py <= N == |B| && N - py >= M - px && M + N + 3 <= path.Length
      modifies path, this`A, this`B, this`M, this`N, this`delta, this`offset, this`fp
      ensures A == old(A)[px..] && B == old(B)[py..] && fresh(fp) && Shape() && Blank()
      ensures M + N == old(M + N) - px - py
    {
      A := A[px..];
      B := B[py..];
      M, N := |A|, |B|;
      delta := N - M;
      offset := M + 1;
      fp := new int[M + N + 3](_ => -1);
      forall i | 0 <= i < path.Length { path[i] := -1; }
    }

    /**
     * Records the path; if it stops short of the end, lists the rest in trivial mode, and
     * otherwise leaves the engine set up for comparing the remainders.
     */
    method RecordSequence(v: seq<Point>) returns (finished: bool)
      requires Shape() && IsTrace(A, B, v) && v != [] && v[0].y - v[0].x == delta
      requires ses.Valid() && lcs == Kept(ses.calls)
      modifies ses, path, this`lcs, this`editDistance, this`A, this`B, this`M, this`N, this`delta, this`offset, this`fp
      ensures ses.Valid() && lcs == Kept(ses.calls)
      ensures finished <==> old(v[0].y == N || trivial)
      ensures var listed := editDistance - old(editDistance);
              finished ==> AllRecorded(old(A), old(B), swapped, old(ses.calls), ses.calls, |v| - 1 + listed)
      ensures old(v[0].y == N) ==> editDistance == old(editDistance)
      ensures !finished ==> Recorded(old(A), old(B), swapped, old(ses.calls), ses.calls, v[0].x, v[0].y, |v| - 1)
      ensures !finished ==> editDistance == old(editDistance)
      ensures 0 <= v[0].x <= old(M) && 0 <= v[0].y <= old(N)
      ensures var rests := BothRests(old(A), old(B), swapped, v[0].x, v[0].y);
              ses.calls == old(ses.calls) + EntriesAlong(old(A), old(B), swapped, v, 0, 0)
                           + if old(v[0].y < N) && finished then rests else []
      ensures !finished ==> A == old(A)[v[0].x..] && B == old(B)[v[0].y..] && fresh(fp) && Shape()
      ensures !finished ==> M + N == old(M + N) - v[0].x - v[0].y
      ensures !finished ==> Blank()
    {
      hide Kept, Leg, Root, Numbered, IsTrace, Recorded, AllRecorded, Ses.Ses.Valid, Blank, EntriesAlong, BothRests;
      ghost var base := ses.calls;
      var px, py := RecordPath(v);
      var xIdx, yIdx := px + 1, py + 1;
      if xIdx > M && yIdx > N {
        EndRecorded(A, B, swapped, base, ses.calls, |v| - 1);
        return true;
      }
      if trivial {
        RecordRest(px, py, base, |v| - 1);
        return true;
      }
      KeepRemainders(xIdx - 1, yIdx - 1);
      return false;
    }

    /**
     * What is recorded so far and what is still to be compared make up the given sequences; n
     * changes are counted that are still to be recorded.
     */
    ghost predicate Consistent(n: int)
      reads this, ses
    {
      && ses.Valid() && lcs == Kept(ses.calls) && Changes(ses.calls) + n == editDistance && InPasses(ses.calls)
      && Source(ses.calls) + (if swapped then B else A) == left
      && Target(ses.calls) + (if swapped then A else B) == right
    }

    /** The recorded script leads from the one given sequence to the other. */
    ghost predicate Concluded()
      reads this, ses
    {
      && ses.Valid() && lcs == Kept(ses.calls) && Changes(ses.calls) == editDistance && InPasses(ses.calls)
      && Source(ses.calls) == left && Target(ses.calls) == right
    }

    /** The rounds and, unless only the distance is wanted, the trace of the path they found. */
    method FindPath() returns (p: int, epc: seq<Point>)
      requires Shape() && Blank() && pathCordinates == [] && edits == [] && limit >= 2
      modifies path, fp, this`pathCordinates, this`edits
      ensures 0 <= p
      ensures editDistanceOnly || Fits(A, B, limit) ==> p == M - LcsLength(A, B)
      ensures !editDistanceOnly ==> IsTrace(A, B, epc) && epc != [] && |epc| - 1 == delta + 2 * p
      ensures !editDistanceOnly ==> epc[0].y - epc[0].x == delta && (0 < epc[0].y || epc[0].y == N)
      ensures !editDistanceOnly ==> (epc[0].y == N <==> Fits(A, B, limit))
      ensures !editDistanceOnly ==> epc == PathOf(A, B, limit)
    {
      hide Frontier, LcsLength, LogOk, ThreadOk, IsTrace, LogSize, Fits, Blank, At, Searched, TraceOf;
      FitsAsLogSize(A, B, limit);
      p := Search();
      var r := path[delta + offset];
      epc := [];
      if !editDistanceOnly {
        ThreadedEnd(A, B, fp[..], View().path, pathCordinates, edits, p);
        epc := Trace(r);
      }
    }

    /** Records the traced path and, if that leaves something to compare, clears the log for it. */
    method Settle(epc: seq<Point>) returns (finished: bool)
      requires Shape() && IsTrace(A, B, epc) && epc != [] && epc[0].y - epc[0].x == delta
      requires 0 < epc[0].y || epc[0].y == N
      requires Consistent(|epc| - 1)
      modifies ses, path, this`lcs, this`editDistance, this`A, this`B, this`M, this`N, this`delta, this`offset, this`fp,
               this`pathCordinates, this`edits
      ensures finished <==> old(epc[0].y == N || trivial)
      ensures finished ==> Concluded()
      ensures old(ses.calls) <= ses.calls && Numbered(ses.calls[|old(ses.calls)|..])
      ensures finished ==> ses.calls == old(ses.calls) + ScriptAlong(old(A), old(B), swapped, epc, limit, trivial)
      ensures !finished ==> Shape() && ses.calls + ScriptFrom(A, B, swapped, limit, trivial)
                                       == old(ses.calls) + ScriptAlong(old(A), old(B), swapped, epc, limit, trivial)
      ensures old(epc[0].y == N) ==> editDistance == old(editDistance)
      ensures !finished ==> Shape() && Blank() && fresh(fp) && path == old(path) && Consistent(0)
      ensures !finished ==> M + N < old(M + N) && pathCordinates == [] && edits == []
    {
      hide Source, Target, Kept, Changes, IsTrace, Recorded, AllRecorded, Numbered, Ses.Ses.Valid, Blank,
           EntriesAlong, ScriptFrom, BothRests, InPasses;
      ghost var a, b, base, before := A, B, ses.calls, editDistance;
      finished := RecordSequence(epc);
      if finished {
        WholeRecorded(a, b, swapped, base, ses.calls, |epc| - 1 + editDistance - before);
        OneMorePass(base, ses.calls);
      } else {
        pathCordinates, edits := [], [];
        RestartRecorded(a, b, swapped, base, ses.calls, epc[0].x, epc[0].y, |epc| - 1);
        OneMorePass(base, ses.calls);
      }
    }

    /** One comparison of A and B: the rounds, the trace and its recording. */
    method Pass() returns (finished: bool)
      requires Shape() && Blank() && pathCordinates == [] && edits == [] && limit >= 2 && Consistent(0)
      modifies ses, path, fp, this`lcs, this`editDistance, this`A, this`B, this`M, this`N, this`delta, this`offset,
               this`fp, this`pathCordinates, this`edits
      ensures editDistanceOnly ==> finished && ses.calls == old(ses.calls) && ses.Valid()
      ensures finished && !editDistanceOnly ==> Concluded()
      ensures !editDistanceOnly ==> old(ses.calls) <= ses.calls && Numbered(ses.calls[|old(ses.calls)|..])
      ensures finished && !editDistanceOnly ==>
                ses.calls == old(ses.calls) + ScriptFrom(old(A), old(B), swapped, limit, trivial)
      ensures !finished ==>
                Shape() && ses.calls + ScriptFrom(A, B, swapped, limit, trivial)
                           == old(ses.calls) + ScriptFrom(old(A), old(B), swapped, limit, trivial)
      ensures editDistanceOnly || Fits(old(A), old(B), limit) ==>
                finished && editDistance - old(editDistance) == old(|A| + |B| - 2 * LcsLength(A, B))
      ensures !finished ==> !trivial && Shape() && Blank() && fresh(fp) && path == old(path) && Consistent(0)
      ensures !finished ==> M + N < old(M + N) && pathCordinates == [] && edits == []
    {
      hide Source, Target, Kept, Changes, LcsLength, IsTrace, Numbered, Ses.Ses.Valid, Fits, Blank,
           PathOf, ScriptAlong, InPasses;
      var p, epc := FindPath();
      editDistance := editDistance + delta + 2 * p;
      if editDistanceOnly {
        return true;
      }
      finished := Settle(epc);
    }

    /** Allocates the arrays, filled with -1. */
    method Allocate()
      requires M == |A| && N == |B| && M <= N && delta == N - M && offset == M + 1
      modifies this`fp, this`path
      ensures Shape() && Blank() && fresh(fp) && fresh(path)
    {
      fp := new int[M + N + 3](_ => -1);
      path := new int[M + N + 3](_ => -1);
    }

    /** The state init leaves: the shorter sequence in A, nothing recorded. */
    ghost predicate Untouched()
      reads this, ses, fp, path
    {
      && Shape() && swapped == (|left| >= |right|)
      && A == (if swapped then right else left) && B == (if swapped then left else right)
      && editDistance == 0 && lcs == [] && pathCordinates == [] && edits == []
      && ses.Valid() && ses.calls == []
    }

    /** Passes until one concludes the comparison; each goes on with what the one before left. */
    method RunPasses()
      requires Shape() && Blank() && pathCordinates == [] && edits == [] && limit >= 2
      requires Consistent(0) && ses.calls == [] && editDistance == 0
      modifies this, ses, fp, path
      ensures ses.Valid() && (if editDistanceOnly then ses.calls == [] else Concluded())
      ensures !editDistanceOnly && (trivial || Fits(old(A), old(B), limit)) ==> Numbered(ses.calls)
      ensures editDistanceOnly || Fits(old(A), old(B), limit) ==> editDistance == old(|A| + |B| - 2 * LcsLength(A, B))
      ensures swapped == old(swapped) && trivial == old(trivial) && editDistanceOnly == old(editDistanceOnly)
      ensures uniHunks == old(uniHunks)
      ensures !editDistanceOnly ==> ses.calls == ScriptFrom(old(A), old(B), swapped, limit, trivial)
    {
      hide Source, Target, Kept, Changes, LcsLength, Numbered, Ses.Ses.Valid, Fits, Blank, ScriptFrom, InPasses;
      ghost var whole := ScriptFrom(A, B, swapped, limit, trivial);
      EmptyScript<T>();
      var finished := Pass();
      while !finished
        invariant uniHunks == old(uniHunks)
        invariant swapped == old(swapped) && trivial == old(trivial) && editDistanceOnly == old(editDistanceOnly)
        invariant !finished ==> fresh(fp) && path == old(path) && Shape() && Blank() && Consistent(0)
        invariant !finished ==> pathCordinates == [] && edits == []
        invariant !finished ==> !trivial && !editDistanceOnly && !Fits(old(A), old(B), limit)
        invariant finished ==> ses.Valid() && if editDistanceOnly then ses.calls == [] else Concluded()
        invariant finished && !editDistanceOnly && (trivial || Fits(old(A), old(B), limit)) ==> Numbered(ses.calls)
        invariant finished && !editDistanceOnly ==> ses.calls == whole
        invariant !finished ==> ses.calls + ScriptFrom(A, B, swapped, limit, trivial) == whole
        invariant finished && (editDistanceOnly || Fits(old(A), old(B), limit)) ==>
                    editDistance == old(|A| + |B| - 2 * LcsLength(A, B))
        decreases !finished, M + N
      {
        finished := Pass();
      }
    }

    /**
     * Computes the edit distance and, unless only that is wanted, the script and its kept elements.
     */
    method Compose()
      requires Untouched() && limit >= 2
      modifies this, ses
      ensures ses.Valid()
      ensures editDistanceOnly || Fits(left, right, limit) ==>
                editDistance == |left| + |right| - 2 * LcsLength(left, right)
      ensures editDistanceOnly ==> ses.calls == []
      ensures !editDistanceOnly ==> Source(ses.sequence) == left && Target(ses.sequence) == right
      ensures !editDistanceOnly ==> Kept(ses.sequence) == lcs && Changes(ses.sequence) == editDistance
      ensures !editDistanceOnly ==> IsCommonSubsequence(lcs, left, right)
      ensures !editDistanceOnly ==> editDistance == |left| + |right| - 2 * |lcs| && |lcs| <= LcsLength(left, right)
      ensures !editDistanceOnly && Fits(left, right, limit) ==> |lcs| == LcsLength(left, right)
      ensures !editDistanceOnly && (trivial || Fits(left, right, limit)) ==> Numbered(ses.sequence)
      ensures swapped == old(swapped) && trivial == old(trivial) && editDistanceOnly == old(editDistanceOnly)
      ensures uniHunks == old(uniHunks)
      // the script is a function of the inputs, recorded in passes that are each numbered from 1
      ensures !editDistanceOnly ==> ses.calls == ScriptOf(left, right, limit, trivial) && InPasses(ses.calls)
      ensures !editDistanceOnly ==> PathThenRest(ses.calls, trivial)
    {
      hide Source, Target, Kept, Changes, LcsLength, Numbered, Ses.Ses.Valid, Fits, Blank, IsCommonSubsequence,
           ScriptFrom, InPasses, PathThenRest;
      ScriptIsPathThenRest(A, B, swapped, limit, trivial);
      FitsAsLogSize(A, B, limit);
      EmptyScript<T>();
      Allocate();
      RunPasses();
      Ses.StoredMeaning(ses);
      if !editDistanceOnly { KeptIsBounded(ses.sequence); }
    }

    /** Patches a list with the script. */
    method Patch(s: seq<T>) returns (r: seq<T>)
      requires |Source(ses.sequence)| <= |s|
      ensures r == Patched(ses.sequence, s)
      ensures s == Source(ses.sequence) ==> r == Target(ses.sequence)
    {
      r := PatchScript(ses.sequence, s);
    }

    /** Groups the script into hunks. */
    method ComposeUnifiedHunks()
      modifies this`uniHunks
      ensures |old(uniHunks)| <= |uniHunks| && uniHunks[..|old(uniHunks)|] == old(uniHunks)
      ensures Grouped(ses.sequence, uniHunks[|old(uniHunks)|..])
      ensures uniHunks[|old(uniHunks)|..] == HunksOf(ses.sequence, swapped)
    {
      hide GroupedFully;
      var hunks, gaps, tail := GroupHunks(ses.sequence, swapped);
      assert Grouped(ses.sequence, hunks);
      assert (uniHunks + hunks)[|uniHunks|..] == hunks;
      uniHunks := uniHunks + hunks;
    }

    /** Patches a list with the hunks, as long as the cursor stays inside it. */
    method UniPatch(s: seq<T>) returns (r: seq<T>)
      requires Walk(uniHunks, s).Some?
      modifies this`uniHunks
      ensures r == Walk(old(uniHunks), s).value.lst
      ensures |uniHunks| == old(|uniHunks|)
      ensures forall j :: 0 <= j < |uniHunks| ==> uniHunks[j] == MovedOn(old(uniHunks), j)
      // the hunks of a script, found by their line numbers, do what the script does
      ensures |Source(ses.sequence)| <= |s| ==>
                forall gaps, tail ::
                  GroupedBy(ses.sequence, old(uniHunks), gaps, tail)
                  && (Numbered(ses.sequence) || Reached(old(uniHunks), gaps)) ==>
                    && r == Patched(ses.sequence, s) && (s == Source(ses.sequence) ==> r == Target(ses.sequence))
                    && (Numbered(ses.sequence) ==>
                          forall j :: 0 <= j < |uniHunks| ==> uniHunks[j] == old(uniHunks[j]).(a := old(uniHunks[j]).c))
    {
      hide Walk, Skip, GroupedBy, Numbered, Elems, Replay, Patched;
      if |Source(ses.sequence)| <= |s| {
        forall gaps, tail
          | GroupedBy(ses.sequence, uniHunks, gaps, tail) && (Numbered(ses.sequence) || Reached(uniHunks, gaps))
          ensures Walk(uniHunks, s).value.lst == Patched(ses.sequence, s)
          ensures s == Source(ses.sequence) ==> Patched(ses.sequence, s) == Target(ses.sequence)
          ensures Numbered(ses.sequence) ==>
                    forall j :: 0 <= j < |uniHunks| ==> MovedOn(uniHunks, j) == uniHunks[j].(a := uniHunks[j].c)
        {
          ReachedPatches(ses.sequence, uniHunks, gaps, tail, s);
        }
      }
      r, uniHunks := PatchHunks(uniHunks, s);
    }
  }

  // ----- what a composed diff says -----

  /** A sequence is its own longest common subsequence. */
  lemma LcsOfEqual<T(!new)>(a: seq<T>)
    ensures LcsLength(a, a) == |a|
  {
    WholeSubsequence(a);
    LcsIsUpperBound(a, a, a);
    EndReach(a, a);
  }

  lemma {:induction false} WholeSubsequence<T(!new)>(a: seq<T>)
    ensures IsSubsequence(a, a)
    decreases |a|
  {
    if a == [] {
    } else {
      WholeSubsequence(a[..|a| - 1]);
    }
  }

  /** The kept elements are a common subsequence, and there is a change for every element that is not kept. */
  lemma KeptIsBounded<T(!new)>(s: seq<Edit<T>>)
    ensures IsCommonSubsequence(Kept(s), Source(s), Target(s)) && |Kept(s)| <= LcsLength(Source(s), Target(s))
    ensures Changes(s) == |Source(s)| + |Target(s)| - 2 * |Kept(s)|
  {
    KeptIsCommon(s);
    LcsIsUpperBound(Kept(s), Source(s), Target(s));
  }

  /** The kept elements of a shortest script are a longest common subsequence. */
  lemma KeptIsLongest<T(!new)>(s: seq<Edit<T>>)
    requires Changes(s) == |Source(s)| + |Target(s)| - 2 * LcsLength(Source(s), Target(s))
    ensures IsCommonSubsequence(Kept(s), Source(s), Target(s)) && |Kept(s)| == LcsLength(Source(s), Target(s))
    ensures forall t :: IsCommonSubsequence(t, Source(s), Target(s)) ==> |t| <= |Kept(s)|
  {
    KeptIsCommon(s);
    forall t | IsCommonSubsequence(t, Source(s), Target(s)) ensures |t| <= |Kept(s)| {
      LcsIsUpperBound(t, Source(s), Target(s));
    }
  }

  /** No script between the same two sequences has fewer changes than a shortest one. */
  lemma ShortestScript<T(!new)>(s: seq<Edit<T>>, t: seq<Edit<T>>)
    requires Changes(s) == |Source(s)| + |Target(s)| - 2 * LcsLength(Source(s), Target(s))
    requires Source(t) == Source(s) && Target(t) == Target(s)
    ensures Changes(s) <= Changes(t)
  {
    KeptIsCommon(t);
    LcsIsUpperBound(Kept(t), Source(s), Target(s));
  }

  /** Equal sequences always fit, so that their script is found in the first round and has no change. */
  lemma EqualFits<T(!new)>(a: seq<T>, limit: int)
    requires limit > 0
    ensures Fits(a, a, limit) && |a| + |a| - 2 * LcsLength(a, a) == 0
  {
    LcsOfEqual(a);
  }
}
