/**
 * What a comparison computes, as functions of its inputs: the tables after the rounds, the path
 * traced from them, and the script recorded along it, pass by pass.
 */
module Passes {
  import opened EditGraph
  import opened EditScript
  import opened PathLog
  import opened Recording

  // ----- the rounds -----

  /** The tables have room for every diagonal that a round touches. */
  predicate Roomy<T>(A: seq<T>, B: seq<T>, t: Tables) {
    |A| <= |B| && |t.fp| == |A| + |B| + 3 == |t.path|
  }

  function BlankTables<T>(A: seq<T>, B: seq<T>): Tables {
    var blank := seq(|A| + |B| + 3, i => -1);
    Tables(blank, blank, [], [])
  }

  /** The tables with the diagonals from -p up to k - 1 redone. */
  ghost function RiseTo<T(!new)>(A: seq<T>, B: seq<T>, t: Tables, p: int, k: int, logging: bool): (r: Tables)
    requires Roomy(A, B, t) && 0 <= p <= |A| && -p <= k <= |B| - |A|
    ensures Roomy(A, B, r)
    decreases k + p
  {
    if k == -p then t else AfterSnake(A, B, RiseTo(A, B, t, p, k - 1, logging), k - 1, logging)
  }

  /** The tables with the diagonals from d + p down to k + 1 redone. */
  ghost function FallTo<T(!new)>(A: seq<T>, B: seq<T>, t: Tables, p: int, k: int, logging: bool): (r: Tables)
    requires Roomy(A, B, t) && 0 <= p <= |A| && |B| - |A| <= k <= |B| - |A| + p
    ensures Roomy(A, B, r)
    decreases |B| - |A| + p - k
  {
    if k == |B| - |A| + p then t else AfterSnake(A, B, FallTo(A, B, t, p, k + 1, logging), k + 1, logging)
  }

  ghost function AfterRound<T(!new)>(A: seq<T>, B: seq<T>, t: Tables, p: int, logging: bool): (r: Tables)
    requires Roomy(A, B, t) && 0 <= p <= |A|
    ensures Roomy(A, B, r)
  {
    var d := |B| - |A|;
    AfterSnake(A, B, FallTo(A, B, RiseTo(A, B, t, p, d, logging), p, d, logging), d, logging)
  }

  /**
   * The tables when the rounds from p on stop: at the end point or with a full log. That round |A| is
   * the last one never decides: the end point is reached by then.
   */
  ghost function Searched<T(!new)>(A: seq<T>, B: seq<T>, t: Tables, p: int, limit: int, logging: bool): (r: Tables)
    requires Roomy(A, B, t) && 0 <= p <= |A|
    ensures Roomy(A, B, r)
    decreases |A| - p
  {
    var u := AfterRound(A, B, t, p, logging);
    if u.fp[|B| + 1] == |B| || |u.log| >= limit || p == |A| then u else Searched(A, B, u, p + 1, limit, logging)
  }

  // ----- the path -----

  /** The points on the way back from log entry r. */
  function TraceOf(log: seq<Point>, r: int): seq<Point>
    decreases if r < 0 then 0 else r + 1
  {
    if !(0 <= r < |log|) then []
    else [Point(log[r].x, log[r].y, 0)] + if log[r].k < r then TraceOf(log, log[r].k) else []
  }

  lemma TraceStep(log: seq<Point>, r: nat)
    requires r < |log| && log[r].k < r
    ensures TraceOf(log, r) == [Point(log[r].x, log[r].y, 0)] + TraceOf(log, log[r].k)
  {
  }

  lemma TraceEnd(log: seq<Point>)
    ensures TraceOf(log, -1) == []
  {
  }

  /** The points found so far lead from log entry last back to entry r, or to the origin. */
  ghost predicate Tracing<T(!new)>(A: seq<T>, B: seq<T>, log: seq<Point>, edits: seq<nat>, last: nat, r: int,
                                   epc: seq<Point>)
  {
    && last < |log| == |edits| && -1 <= r < |log|
    && |epc| + (if r == -1 then 0 else edits[r] + 1) == edits[last] + 1
    && (forall i :: 0 <= i < |epc| - 1 ==> Leg(A, B, epc[i + 1].x, epc[i + 1].y, epc[i]))
    && (epc != [] && r != -1 ==> Leg(A, B, log[r].x, log[r].y, epc[|epc| - 1]))
    && (r == -1 ==> epc != [] && Root(A, B, epc[|epc| - 1]))
    && (if epc == [] then r == last else epc[0].x == log[last].x && epc[0].y == log[last].y)
    && epc + TraceOf(log, r) == TraceOf(log, last)
  }

  lemma TracingStarts<T(!new)>(A: seq<T>, B: seq<T>, log: seq<Point>, edits: seq<nat>, last: nat)
    requires LogOk(A, B, log, edits) && last < |log|
    ensures Tracing(A, B, log, edits, last, last, [])
  {
    hide TraceOf;
  }

  /** One more point of the trace. */
  lemma TracingStep<T(!new)>(A: seq<T>, B: seq<T>, log: seq<Point>, edits: seq<nat>, last: nat, r: nat, epc: seq<Point>)
    requires LogOk(A, B, log, edits) && Tracing(A, B, log, edits, last, r, epc)
    ensures r < |log| && -1 <= log[r].k < r
    ensures Tracing(A, B, log, edits, last, log[r].k, epc + [Point(log[r].x, log[r].y, 0)])
  {
    hide TraceOf, LogOk, Matches;
    LogEntry(A, B, log, edits, r);
    TraceStep(log, r);
    var pt := Point(log[r].x, log[r].y, 0);
    assert epc + ([pt] + TraceOf(log, log[r].k)) == (epc + [pt]) + TraceOf(log, log[r].k);
  }

  lemma TracingEnds<T(!new)>(A: seq<T>, B: seq<T>, log: seq<Point>, edits: seq<nat>, last: nat, epc: seq<Point>)
    requires Tracing(A, B, log, edits, last, -1, epc)
    ensures IsTrace(A, B, epc) && |epc| == edits[last] + 1 && epc == TraceOf(log, last)
    ensures epc[0].x == log[last].x && epc[0].y == log[last].y
  {
    hide Leg, Root;
    assert TraceOf(log, -1) == [];
  }

  ghost function PathOf<T(!new)>(A: seq<T>, B: seq<T>, limit: int): seq<Point>
    requires |A| <= |B|
  {
    var t := Searched(A, B, BlankTables(A, B), 0, limit, true);
    TraceOf(t.log, t.path[|B| + 1])
  }

  // ----- the script -----

  /** There is an entry to record between (x, y) and the point r. */
  predicate Goes<T>(A: seq<T>, B: seq<T>, x: int, y: int, r: Point) {
    && 0 <= x <= |A| && 0 <= y <= |B| && (x < r.x || y < r.y)
    && (r.y - r.x <= y - x ==> x < |A|) && (r.y - r.x >= y - x ==> y < |B|)
  }

  function EntryTo<T>(A: seq<T>, B: seq<T>, swapped: bool, x: int, y: int, r: Point): Edit<T>
    requires Goes(A, B, x, y, r)
  {
    if r.y - r.x > y - x then VerticalEntry(B[y], y + 1, swapped)
    else if r.y - r.x < y - x then HorizontalEntry(A[x], x + 1, swapped)
    else DiagonalEntry(if swapped then B[y] else A[x], x + 1, y + 1, swapped)
  }

  function NextX(x: int, y: int, r: Point): int { if r.y - r.x > y - x then x else x + 1 }

  function NextY(x: int, y: int, r: Point): int { if r.y - r.x < y - x then y else y + 1 }

  /** The entries from (x, y) along the path v, which leads from its last point to its first. */
  function EntriesAlong<T>(A: seq<T>, B: seq<T>, swapped: bool, v: seq<Point>, x: int, y: int): seq<Edit<T>>
    decreases |v|, |A| - x + |B| - y
  {
    if v == [] then []
    else
      var r := v[|v| - 1];
      if Goes(A, B, x, y, r)
      then [EntryTo(A, B, swapped, x, y, r)] + EntriesAlong(A, B, swapped, v, NextX(x, y, r), NextY(x, y, r))
      else EntriesAlong(A, B, swapped, v[..|v| - 1], x, y)
  }

  /** The path gets on, as every path that stops short of the end does, so that the remainders are shorter. */
  predicate Onward<T>(A: seq<T>, B: seq<T>, v: seq<Point>) {
    && v != [] && 0 <= v[0].x <= |A| && 0 <= v[0].y <= |B| && 0 < v[0].x + v[0].y
    && v[0].y - v[0].x == |B| - |A|
  }

  /** The script of a comparison of A and B, the shorter one first. */
  ghost function ScriptFrom<T(!new)>(A: seq<T>, B: seq<T>, swapped: bool, limit: int, trivial: bool): seq<Edit<T>>
    requires |A| <= |B|
    decreases |A| + |B|, 1
  {
    ScriptAlong(A, B, swapped, PathOf(A, B, limit), limit, trivial)
  }

  /** The script that goes along the path v first; what the path does not reach is listed or compared again. */
  ghost function ScriptAlong<T(!new)>(A: seq<T>, B: seq<T>, swapped: bool, v: seq<Point>, limit: int, trivial: bool)
    : seq<Edit<T>>
    requires |A| <= |B|
    decreases |A| + |B|, 0
  {
    var s := EntriesAlong(A, B, swapped, v, 0, 0);
    if !Onward(A, B, v) || (v[0].x == |A| && v[0].y == |B|) then s
    else if trivial then s + BothRests(A, B, swapped, v[0].x, v[0].y)
    else s + ScriptFrom(A[v[0].x..], B[v[0].y..], swapped, limit, trivial)
  }

  /** The script from a to b. */
  ghost function ScriptOf<T(!new)>(a: seq<T>, b: seq<T>, limit: int, trivial: bool): seq<Edit<T>> {
    if |a| >= |b| then ScriptFrom(b, a, true, limit, trivial) else ScriptFrom(a, b, false, limit, trivial)
  }

  lemma BlankAreBlank<T>(A: seq<T>, B: seq<T>, t: Tables)
    requires |t.fp| == |A| + |B| + 3 == |t.path| && t.log == [] && t.edits == []
    requires forall i :: 0 <= i < |t.fp| ==> t.fp[i] == -1 == t.path[i]
    ensures t == BlankTables(A, B)
  {
    assert t.fp == BlankTables(A, B).fp && t.path == BlankTables(A, B).path;
  }

  /** One round of the search. */
  lemma SearchStep<T(!new)>(A: seq<T>, B: seq<T>, t: Tables, p: int, limit: int, logging: bool)
    requires Roomy(A, B, t) && 0 <= p <= |A|
    ensures var u := AfterRound(A, B, t, p, logging);
            Searched(A, B, t, p, limit, logging) ==
              if u.fp[|B| + 1] == |B| || |u.log| >= limit || p == |A| then u
              else Searched(A, B, u, p + 1, limit, logging)
  {
  }

  /** One entry of the path. */
  lemma AlongStep<T>(A: seq<T>, B: seq<T>, swapped: bool, v: seq<Point>, x: int, y: int)
    requires v != []
    ensures var r := v[|v| - 1];
            EntriesAlong(A, B, swapped, v, x, y) ==
              if Goes(A, B, x, y, r)
              then [EntryTo(A, B, swapped, x, y, r)] + EntriesAlong(A, B, swapped, v, NextX(x, y, r), NextY(x, y, r))
              else EntriesAlong(A, B, swapped, v[..|v| - 1], x, y)
  {
  }

  lemma AlongNothing<T>(A: seq<T>, B: seq<T>, swapped: bool, x: int, y: int)
    ensures EntriesAlong(A, B, swapped, [], x, y) == []
  {
  }

  /** One entry is recorded, and the others are still to come. */
  lemma AlongEntry<T>(A: seq<T>, B: seq<T>, swapped: bool, v: seq<Point>, x: int, y: int, calls: seq<Edit<T>>)
    requires v != [] && Goes(A, B, x, y, v[|v| - 1])
    ensures var r := v[|v| - 1];
            (calls + [EntryTo(A, B, swapped, x, y, r)]) + EntriesAlong(A, B, swapped, v, NextX(x, y, r), NextY(x, y, r))
            == calls + EntriesAlong(A, B, swapped, v, x, y)
  {
    hide EntriesAlong;
    AlongStep(A, B, swapped, v, x, y);
  }

  /** At the end of a leg the path goes on with the next one. */
  lemma AlongEnd<T>(A: seq<T>, B: seq<T>, swapped: bool, v: seq<Point>, x: int, y: int)
    requires v != [] && x == v[|v| - 1].x && y == v[|v| - 1].y
    ensures EntriesAlong(A, B, swapped, v, x, y) == EntriesAlong(A, B, swapped, v[..|v| - 1], x, y)
  {
  }

  // ----- line numbers -----

  /** An addition found along a path carries its line number on the second side only. */
  predicate OnPath<T>(e: Edit<T>) {
    match e.kind
    case Delete => e.before > 0 && e.after == 0
    case Add => e.before == 0 && e.after > 0
    case Common => e.before > 0 && e.after > 0
  }

  predicate FromPath<T>(s: seq<Edit<T>>) { forall i :: 0 <= i < |s| ==> OnPath(s[i]) }

  /** Entries listed without a path carry theirs as the first number, additions too. */
  predicate FromRest<T>(s: seq<Edit<T>>) {
    forall i :: 0 <= i < |s| ==> !s[i].kind.Common? && s[i].before > 0 && s[i].after == 0
  }

  lemma {:induction false} AlongIsFromPath<T>(A: seq<T>, B: seq<T>, swapped: bool, v: seq<Point>, x: int, y: int)
    ensures FromPath(EntriesAlong(A, B, swapped, v, x, y))
    decreases |v|, |A| - x + |B| - y
  {
    hide EntriesAlong;
    if v == [] {
      AlongNothing(A, B, swapped, x, y);
    } else {
      var r := v[|v| - 1];
      AlongStep(A, B, swapped, v, x, y);
      if Goes(A, B, x, y, r) {
        AlongIsFromPath(A, B, swapped, v, NextX(x, y, r), NextY(x, y, r));
      } else {
        AlongIsFromPath(A, B, swapped, v[..|v| - 1], x, y);
      }
    }
  }

  lemma {:induction false} RestIsFromRest<T>(s: seq<T>, lo: nat, hi: nat, kind: Kind)
    requires hi <= |s| && !kind.Common?
    ensures FromRest(RestEntries(s, lo, hi, kind))
    decreases hi
  {
    if hi > lo { RestIsFromRest(s, lo, hi - 1, kind); }
  }

  lemma RestsAreFromRest<T>(A: seq<T>, B: seq<T>, swapped: bool, x: nat, y: nat)
    ensures FromRest(BothRests(A, B, swapped, x, y))
  {
    RestIsFromRest(A, x, |A|, if swapped then Add else Delete);
    RestIsFromRest(B, y, |B|, if swapped then Delete else Add);
  }

  /** First what a path recorded, then what was listed; nothing is listed unless trivial mode is on. */
  ghost predicate PathThenRest<T(!new)>(s: seq<Edit<T>>, trivial: bool) {
    exists k :: 0 <= k <= |s| && FromPath(s[..k]) && FromRest(s[k..]) && (trivial || k == |s|)
  }

  lemma {:induction false} ScriptIsPathThenRest<T(!new)>(A: seq<T>, B: seq<T>, swapped: bool, limit: int, trivial: bool)
    requires |A| <= |B|
    ensures PathThenRest(ScriptFrom(A, B, swapped, limit, trivial), trivial)
    decreases |A| + |B|
  {
    hide EntriesAlong, BothRests, PathOf, FromPath, FromRest;
    var v := PathOf(A, B, limit);
    var s, whole := EntriesAlong(A, B, swapped, v, 0, 0), ScriptFrom(A, B, swapped, limit, trivial);
    AlongIsFromPath(A, B, swapped, v, 0, 0);
    NothingIsListed<T>();
    assert whole == ScriptAlong(A, B, swapped, v, limit, trivial);
    if !Onward(A, B, v) || (v[0].x == |A| && v[0].y == |B|) {
      assert whole[..|s|] == s && whole[|s|..] == [];
    } else if trivial {
      RestsAreFromRest(A, B, swapped, v[0].x, v[0].y);
      assert whole[..|s|] == s && whole[|s|..] == BothRests(A, B, swapped, v[0].x, v[0].y);
    } else {
      var later := ScriptFrom(A[v[0].x..], B[v[0].y..], swapped, limit, trivial);
      ScriptIsPathThenRest(A[v[0].x..], B[v[0].y..], swapped, limit, trivial);
      assert whole == s + later && later[..|later|] == later;
      JoinPaths(s, later);
      assert whole[..|whole|] == whole && whole[|whole|..] == [];
    }
  }

  lemma NothingIsListed<T>()
    ensures FromRest<T>([])
  {
  }

  lemma JoinPaths<T>(s: seq<Edit<T>>, t: seq<Edit<T>>)
    requires FromPath(s) && FromPath(t)
    ensures FromPath(s + t)
  {
  }
}
