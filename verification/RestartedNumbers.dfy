/**
 * Line numbers of a script that was recorded in several passes. A pass that starts over numbers its
 * entries from 1 again, and hunks are then looked for in the wrong place.
 */
module RestartedNumbers {
  import opened EditGraph
  import opened EditScript
  import opened HunkGroups
  import opened HunkPatching
  import opened HunkSpacing
  import opened HunkStarts
  import opened HunkWalk
  import opened Hunks
  import opened Options
  import opened Passes
  import opened Patches
  import opened ShortLog

  function Kept1(n: int): Edit<char> { Edit('t', n, n, Common) }

  /** Three passes from "pitttttttr" to "qjttttttts"; the first two stop after one step of each kind. */
  const FIRST: seq<Edit<char>> := [Edit('p', 1, 0, Delete), Edit('q', 0, 1, Add)]
  const KEPT: seq<Edit<char>> := [Kept1(2), Kept1(3), Kept1(4)] + [Kept1(5)] + [Kept1(6), Kept1(7), Kept1(8)]
  const SECOND: seq<Edit<char>> := [Edit('i', 1, 0, Delete), Edit('j', 0, 1, Add)] + KEPT
  const THIRD: seq<Edit<char>> := [Edit('r', 1, 0, Delete), Edit('s', 0, 1, Add)]
  const SCRIPT := FIRST + SECOND + THIRD

  const START := [FIRST[0], SECOND[0], FIRST[1], SECOND[1]]
  const HUNK1 := Hunk(1, 5, 1, 5, [], START + KEPT[..3], [], 0)
  const HUNK2 := Hunk(6, 4, 6, 4, KEPT[4..], THIRD, [], 0)
  const HUNKS := [HUNK1, HUNK2]
  const GAPS := [[], [Kept1(5)]]

  lemma {:induction false} ElemsOfKept<T>(s: seq<Edit<T>>, ks: set<Kind>)
    requires AllOf(s, Common) && Common in ks
    ensures |Elems(s, ks)| == |s| && forall i :: 0 <= i < |s| ==> Elems(s, ks)[i] == s[i].elem
  {
    if s == [] {
    } else {
      ElemsOfKept(s[..|s| - 1], ks);
    }
  }

  lemma ElemsOfTwo<T>(d: Edit<T>, a: Edit<T>, ks: set<Kind>)
    ensures Elems([d, a], ks) == (if d.kind in ks then [d.elem] else []) + (if a.kind in ks then [a.elem] else [])
  {
    assert [d, a] == [] + [d] + [a];
    ElemsAppend([], d, ks);
    ElemsAppend([] + [d], a, ks);
  }

  lemma {:induction false} KeptSettles<T>(s: seq<Edit<T>>, k: seq<Edit<T>>)
    requires AllOf(k, Common) && k != []
    ensures DeletesFirst(s + k) == Settled(s + k) == DeletesFirst(s) + k
    ensures Trailing(s + k, Delete) == [] == Trailing(s + k, Add)
    decreases |k|
  {
    hide DeletesFirst, Settled, Trailing;
    var k', e := k[..|k| - 1], k[|k| - 1];
    assert s + k == (s + k') + [e];
    ReorderCommon(s + k', e);
    if k' == [] {
      assert s + k' == s;
    } else {
      KeptSettles(s, k');
    }
    assert DeletesFirst(s) + k == (DeletesFirst(s) + k') + [e];
  }

  lemma {:induction false} KeptIsNumbered(s: seq<Edit<char>>, n: nat)
    requires Numbered(s) && |Source(s)| == 1 == |Target(s)| && n <= 7
    ensures Numbered(s + KEPT[..n])
  {
    hide Numbered, Elems;
    if n == 0 {
      assert s + KEPT[..0] == s;
    } else {
      KeptIsNumbered(s, n - 1);
      var e := KEPT[n - 1];
      assert s + KEPT[..n] == (s + KEPT[..n - 1]) + [e];
      CommonLengths(s, KEPT[..n - 1]);
      NumberedAppend(s + KEPT[..n - 1], e);
    }
  }

  lemma PairIsNumbered(d: Edit<char>, a: Edit<char>)
    requires d.kind == Delete && d.before == 1 && d.after == 0 && a.kind == Add && a.before == 0 && a.after == 1
    ensures Numbered([d, a]) && |Source([d, a])| == 1 == |Target([d, a])|
  {
    NumberedAppend([], d);
    NumberedAppend([d], a);
    ElemsOfTwo(d, a, {Delete, Common});
    ElemsOfTwo(d, a, {Common, Add});
    assert [d] + [a] == [d, a] && [] + [d] == [d];
  }

  lemma PassesAreNumbered()
    ensures Numbered(FIRST) && Numbered(SECOND) && Numbered(THIRD)
  {
    hide Numbered, Elems;
    PairIsNumbered(FIRST[0], FIRST[1]);
    PairIsNumbered(SECOND[0], SECOND[1]);
    PairIsNumbered(THIRD[0], THIRD[1]);
    KeptIsNumbered([SECOND[0], SECOND[1]], 7);
    assert SECOND == [SECOND[0], SECOND[1]] + KEPT[..7];
  }

  lemma ScriptElems(ks: set<Kind>)
    ensures Common in ks && Delete in ks && Add !in ks ==> Elems(SCRIPT, ks) == "pitttttttr"
    ensures Common in ks && Delete !in ks && Add in ks ==> Elems(SCRIPT, ks) == "qjttttttts"
  {
    hide Elems;
    ElemsOfTwo(FIRST[0], FIRST[1], ks);
    ElemsOfTwo(SECOND[0], SECOND[1], ks);
    ElemsOfTwo(THIRD[0], THIRD[1], ks);
    if Common in ks {
      ElemsOfKept(KEPT, ks);
      assert Elems(KEPT, ks) == "ttttttt";
    }
    var second := [SECOND[0], SECOND[1]];
    ElemsConcat(second, KEPT, ks);
    ElemsConcat(FIRST, SECOND, ks);
    ElemsConcat(FIRST + SECOND, THIRD, ks);
  }

  lemma NothingTrails<T>()
    ensures Settled<T>([]) == [] && forall k :: Trailing<T>([], k) == []
  {
  }

  lemma ScriptReordered()
    ensures DeletesFirst(SCRIPT) == START + KEPT + THIRD
  {
    hide DeletesFirst, Settled, Trailing;
    var s0: seq<Edit<char>> := [];
    var s1, s2, s3, s4 := [FIRST[0]], FIRST, FIRST + [SECOND[0]], FIRST + [SECOND[0]] + [SECOND[1]];
    NothingTrails<char>();
    ReorderChange(s0, FIRST[0]);
    ReorderChange(s1, FIRST[1]);
    ReorderChange(s2, SECOND[0]);
    ReorderChange(s3, SECOND[1]);
    assert s0 + [FIRST[0]] == s1 && s1 + [FIRST[1]] == s2;
    assert DeletesFirst(s4) == START by { ReorderedParts(s4); }
    var s5 := s4 + KEPT;
    KeptSettles(s4, KEPT);
    ReorderChange(s5, THIRD[0]);
    ReorderChange(s5 + [THIRD[0]], THIRD[1]);
    assert SCRIPT == s5 + [THIRD[0]] + [THIRD[1]];
    ReorderedParts(SCRIPT);
  }

  lemma ElemsOfHunk1(ks: set<Kind>)
    requires Common in ks
    ensures Elems(Body(HUNK1), ks) == (if Delete in ks then "pi" else []) + (if Add in ks then "qj" else []) + "ttt"
  {
    hide Elems;
    var dels, adds := [START[0], START[1]], [START[2], START[3]];
    assert Body(HUNK1) == dels + adds + KEPT[..3];
    ElemsOfTwo(START[0], START[1], ks);
    ElemsOfTwo(START[2], START[3], ks);
    ElemsConcat(dels, adds, ks);
    ElemsConcat(dels + adds, KEPT[..3], ks);
    ElemsOfKept(KEPT[..3], ks);
    assert Elems(KEPT[..3], ks) == "ttt";
  }

  lemma ElemsOfHunk2(ks: set<Kind>)
    requires Common in ks
    ensures Elems(Body(HUNK2), ks) == "ttt" + (if Delete in ks then "r" else []) + (if Add in ks then "s" else [])
  {
    hide Elems;
    assert Body(HUNK2) == KEPT[4..] + THIRD;
    ElemsOfKept(KEPT[4..], ks);
    assert Elems(KEPT[4..], ks) == "ttt";
    ElemsOfTwo(THIRD[0], THIRD[1], ks);
    ElemsConcat(KEPT[4..], THIRD, ks);
  }

  lemma HunksAreCounted()
    ensures Counted(HUNK1) && Counted(HUNK2)
    ensures Source(Body(HUNK1)) == "pittt" && Target(Body(HUNK1)) == "qjttt"
  {
    hide Elems;
    ElemsOfHunk1({Delete, Common});
    ElemsOfHunk1({Common, Add});
    ElemsOfHunk2({Delete, Common});
    ElemsOfHunk2({Common, Add});
    assert HUNK1.change[0].kind == Delete && HUNK2.change[0].kind == Delete;
  }

  lemma NothingLaidOut<T>()
    ensures Layout<T>([], [], false) && Assemble<T>([], []) == []
  {
  }

  lemma HunksAreLaidOut()
    ensures Layout(HUNKS, GAPS, false) && Assemble(HUNKS, GAPS) == START + KEPT + THIRD
  {
    hide Elems, Counted;
    HunksAreCounted();
    NothingLaidOut<char>();
    LayoutAppend([], [], false, HUNK1, []);
    LayoutAppend([HUNK1], [[]], false, HUNK2, [Kept1(5)]);
    assert [] + [HUNK1] == [HUNK1] && [HUNK1] + [HUNK2] == HUNKS;
    assert [[]] + [[Kept1(5)]] == GAPS;
  }

  lemma StartHasNoRun()
    ensures Run(START) == 0
  {
  }

  lemma HunksAreSpaced()
    ensures Spaced(HUNKS, GAPS, [])
  {
    hide Run, Tight;
    forall h | h in HUNKS ensures Tight(h.change) {
      forall k ensures !FiveKept(h.change, k) {
        if 0 <= k <= |h.change| - 5 { assert h.change[k..k + 5][0] == h.change[k]; }
      }
      TightMeansNoFive(h.change);
    }
    StartHasNoRun();
    RunAppend(START, KEPT[0]);
    RunAppend(START + [KEPT[0]], KEPT[1]);
    RunAppend(START + [KEPT[0]] + [KEPT[1]], KEPT[2]);
    assert HUNK1.change == START + [KEPT[0]] + [KEPT[1]] + [KEPT[2]];
    assert SpacedSoFar<char>([], []);
    SpacedAppend([], [], HUNK1, []);
    SpacedAppend([HUNK1], [[]], HUNK2, [Kept1(5)]);
    assert [] + [HUNK1] == [HUNK1] && [HUNK1] + [HUNK2] == HUNKS;
    assert [] + [[]] == GAPS[..1] && [[]] + [[Kept1(5)]] == GAPS;
  }

  lemma NotNumbered()
    ensures !Numbered(SCRIPT)
  {
    hide Numbered, Elems;
    if Numbered(SCRIPT) {
      NumberedPrefix(SCRIPT, 2);
      assert SCRIPT[..2] == FIRST && SCRIPT[2] == SECOND[0];
      ElemsOfTwo(FIRST[0], FIRST[1], {Delete, Common});
    }
  }

  lemma AppliedLast<T>(s: seq<Edit<T>>, e: Edit<T>, at: Cursor<T>)
    requires at.pos <= |at.lst|
    ensures Applied(s + [e], at) == EntryApplied(e, Applied(s, at))
  {
    assert (s + [e])[..|s|] == s;
  }

  lemma AppliedNothing<T>(at: Cursor<T>)
    requires at.pos <= |at.lst|
    ensures Applied([], at) == at
  {
  }

  /** The second hunk, applied one line too early. */
  lemma AppliedTooEarly()
    ensures Applied(Body(HUNK2), Cursor("qjtttttttr", 5)) == Cursor("qjttttttsr", 9)
  {
    hide Applied;
    var at, before := Cursor("qjtttttttr", 5), KEPT[4..];
    var s: seq<Edit<char>> := [];
    AppliedNothing(at);
    AppliedLast(s, before[0], at);
    AppliedLast(s + [before[0]], before[1], at);
    AppliedLast(s + [before[0]] + [before[1]], before[2], at);
    assert s + [before[0]] + [before[1]] + [before[2]] == before;
    AppliedLast(before, THIRD[0], at);
    AppliedLast(before + [THIRD[0]], THIRD[1], at);
    assert Body(HUNK2) == before + [THIRD[0]] + [THIRD[1]];
    var deleted := EntryApplied(THIRD[0], Cursor("qjtttttttr", 8));
    assert deleted.lst == "qjttttttr";
    assert EntryApplied(THIRD[1], deleted).lst == "qjttttttsr";
  }

  lemma SkipsOfHunks()
    ensures Skip([HUNK1]) == 0 == Skip(HUNKS)
  {
  }

  lemma NotReached()
    ensures !Reached(HUNKS, GAPS)
  {
    hide Skip;
    SkipsOfHunks();
    assert HUNKS[..1 + 1] == HUNKS;
    assert Skip(HUNKS[..1 + 1]) != |GAPS[1]|;
  }

  lemma ScriptIsGrouped()
    ensures GroupedBy(SCRIPT, HUNKS, GAPS, [])
  {
    hide Elems, Numbered, Layout, Assemble, DeletesFirst;
    NotNumbered();
    ScriptReordered();
    HunksAreLaidOut();
    assert START + KEPT + THIRD + [] == START + KEPT + THIRD;
  }

  lemma FirstApplied()
    ensures Applied(Body(HUNK1), Cursor("pitttttttr", 0)) == Cursor("qjtttttttr", 5)
  {
    hide Elems, Applied, Replay, Counted;
    var input := "pitttttttr";
    HunksAreCounted();
    var body := Body(HUNK1);
    ReplaySource(body, input);
    assert [] + body == body;
    NothingPatched(input);
    AppliedIsPatched([], body, input);
    assert input[5..] == "ttttr" && Patched(body, input) == "qjtttttttr";
  }

  lemma WalkTwo(input: seq<char>)
    requires Applied(Body(HUNK1), Cursor(input, 0)) == Cursor("qjtttttttr", 5)
    ensures Walk(HUNKS, input) == Some(Applied(Body(HUNK2), Cursor("qjtttttttr", 5)))
  {
    hide Applied, Skip;
    SkipsOfHunks();
    WalkNothing(input);
    assert HUNKS[..1] == [HUNK1] && [HUNK1][..0] == [];
  }

  // ----- what the engine makes of the two texts -----

  const LEFT := "pitttttttr"
  const RIGHT := "qjttttttts"

  lemma SlidesOfPasses()
    ensures Slide(RIGHT, LEFT, 1, 1) == 0
    ensures Slide(RIGHT[1..], LEFT[1..], 1, 1) == 7
    ensures Slide(RIGHT[9..], LEFT[9..], 1, 1) == 0
  {
    var A, B := RIGHT[1..], LEFT[1..];
    assert A == "jttttttts" && B == "itttttttr";
    assert Slide(A, B, 8, 8) == 0;
    assert Slide(A, B, 6, 6) == 2;
    assert Slide(A, B, 4, 4) == 4;
    assert Slide(A, B, 2, 2) == 6;
  }

  lemma KeptIsRun()
    ensures KeptRun(LEFT[1..], 1, 8) == KEPT
  {
    var B := LEFT[1..];
    assert B == "itttttttr";
    assert KeptRun(B, 7, 8) == [Kept1(8)] + KeptRun(B, 8, 8) == [Kept1(8)];
    assert KeptRun(B, 5, 8) == [Kept1(6), Kept1(7), Kept1(8)];
    assert KeptRun(B, 3, 8) == [Kept1(4), Kept1(5), Kept1(6), Kept1(7), Kept1(8)];
  }

  /** With a log of two points, the script is the one of the three passes. */
  lemma ScriptIsComposed()
    ensures ScriptOf(LEFT, RIGHT, SHORT, false) == SCRIPT
  {
    hide ScriptFrom, Slide, KeptRun;
    SlidesOfPasses();
    KeptIsRun();
    ShortPass(RIGHT, LEFT);
    ShortPass(RIGHT[1..], LEFT[1..]);
    ShortPass(RIGHT[9..], LEFT[9..]);
    assert RIGHT[1..][8..] == RIGHT[9..] && LEFT[1..][8..] == LEFT[9..];
    NoRun(LEFT, 1);
    NoRun(LEFT[9..], 1);
  }

  lemma NoRun<T>(B: seq<T>, k: nat)
    requires k <= |B|
    ensures KeptRun(B, k, k) == []
  {
  }

  /** The builder after the opening changes, after the first hunk, and before the last changes. */
  const OPENING: Builder<char> :=
    Start<char>().(deletes := START[..2], adds := START[2..], b := 2, d := 2, inside := true)
  const BETWEEN: Builder<char> := Start<char>().(hunks := [HUNK1], gaps := [[]])
  const LEADING: Builder<char> := BETWEEN.(gap := [Kept1(5)], context := KEPT[4..], a := 6, b := 3, c := 6, d := 3)

  const FIRSTPAIR: Builder<char> :=
    Start<char>().(deletes := [START[0]], adds := [START[2]], b := 1, d := 1, inside := true)

  lemma FirstPairTurns()
    ensures BuiltTo(SCRIPT, 2, true) == (FIRSTPAIR, 0)
  {
    hide BuiltTo;
    var none: seq<Edit<char>> := [];
    var st1 := Start<char>().(deletes := [START[0]], b := 1, incDec := -1, inside := true);
    assert SCRIPT[0] == START[0] && SCRIPT[1] == START[2];
    BuildStart(SCRIPT, true);
    BuildStep(SCRIPT, 0, true);
    assert none + [START[0]] == [START[0]] && none + [START[2]] == [START[2]];
    assert BuiltTo(SCRIPT, 1, true) == (st1, 0);
    BuildStep(SCRIPT, 1, true);
  }

  lemma OpeningTurns()
    ensures BuiltTo(SCRIPT, 4, true) == (OPENING, 0)
  {
    hide BuiltTo;
    FirstPairTurns();
    var st3 := FIRSTPAIR.(deletes := [START[0], START[1]], b := 2, incDec := -1);
    assert SCRIPT[2] == START[1] && SCRIPT[3] == START[3];
    BuildStep(SCRIPT, 2, true);
    assert [START[0]] + [START[1]] == [START[0], START[1]];
    assert BuiltTo(SCRIPT, 3, true) == (st3, 0);
    BuildStep(SCRIPT, 3, true);
    assert [START[2]] + [START[3]] == [START[2], START[3]];
    assert START[..2] == [START[0], START[1]] && START[2..] == [START[2], START[3]];
  }

  lemma KeptOfScript(i: nat)
    requires i < 7
    ensures SCRIPT[4 + i] == KEPT[i] && KEPT[i] == Kept1(i + 2)
  {
  }

  lemma FirstHunkTurns()
    ensures BuiltTo(SCRIPT, 7, true) == (BETWEEN, 0)
  {
    hide BuiltTo;
    OpeningTurns();
    var st5 := OPENING.(change := START + KEPT[..1], deletes := [], adds := [], b := 3, d := 3);
    var st6 := st5.(change := START + KEPT[..2], b := 4, d := 4);
    var st7 := st6.(change := START + KEPT[..3], b := 5, d := 5);
    KeptOfScript(0);
    KeptOfScript(1);
    KeptOfScript(2);
    KeptOfScript(3);
    KeptOfScript(4);
    BuildStep(SCRIPT, 4, true);
    assert OPENING.Pending() + [KEPT[0]] == st5.change;
    assert BuiltTo(SCRIPT, 5, true) == (st5, 1);
    BuildStep(SCRIPT, 5, true);
    assert st5.Pending() + [KEPT[1]] == st6.change;
    assert BuiltTo(SCRIPT, 6, true) == (st6, 2);
    BuildStep(SCRIPT, 6, true);
    assert st6.Pending() + [KEPT[2]] == st7.change && st7.Pending() == HUNK1.change;
    assert st7.hunks + [HUNK1] == [HUNK1] && st7.gaps + [[]] == [[]];
    assert AfterEmit(st7, true) == BETWEEN;
  }

  lemma ContextTurns()
    ensures BuiltTo(SCRIPT, 11, true) == (LEADING, 0)
  {
    hide BuiltTo;
    FirstHunkTurns();
    var none: seq<Edit<char>> := [];
    var st8 := BETWEEN.(context := [KEPT[3]], a := 5, c := 5, b := 1, d := 1);
    var st9 := st8.(context := [KEPT[3], KEPT[4]], b := 2, d := 2);
    var st10 := st9.(context := [KEPT[3], KEPT[4], KEPT[5]], b := 3, d := 3);
    KeptOfScript(3);
    KeptOfScript(4);
    KeptOfScript(5);
    KeptOfScript(6);
    BuildStep(SCRIPT, 7, true);
    assert none + [KEPT[3]] == [KEPT[3]];
    assert BuiltTo(SCRIPT, 8, true) == (st8, 0);
    BuildStep(SCRIPT, 8, true);
    assert st8.context + [KEPT[4]] == st9.context;
    assert BuiltTo(SCRIPT, 9, true) == (st9, 0);
    BuildStep(SCRIPT, 9, true);
    assert st9.context + [KEPT[5]] == st10.context;
    assert BuiltTo(SCRIPT, 10, true) == (st10, 0);
    BuildStep(SCRIPT, 10, true);
    assert none + [KEPT[3]] == [Kept1(5)] && st10.context[1..] + [KEPT[6]] == KEPT[4..];
  }

  /** Its hunks are the two above. */
  lemma HunksAreBuilt()
    ensures HunksOf(SCRIPT, true) == HUNKS && GapsOf(SCRIPT, true) == GAPS
  {
    hide BuiltTo;
    ContextTurns();
    var none: seq<Edit<char>> := [];
    var st12 := LEADING.(deletes := [THIRD[0]], b := 4, incDec := -1, inside := true);
    var st13 := st12.(adds := [THIRD[1]], d := 4, incDec := 0);
    assert SCRIPT[11] == THIRD[0] && SCRIPT[12] == THIRD[1];
    BuildStep(SCRIPT, 11, true);
    assert none + [THIRD[0]] == [THIRD[0]] && none + [THIRD[1]] == [THIRD[1]];
    assert BuiltTo(SCRIPT, 12, true) == (st12, 0);
    BuildStep(SCRIPT, 12, true);
    assert st13.Pending() == THIRD;
    assert [HUNK1] + [HUNK2] == HUNKS && [[]] + [[Kept1(5)]] == GAPS;
    assert AfterEmit(st13, true).hunks == HUNKS;
  }

  lemma HunksStartByNumbers()
    ensures AllStart(HUNKS, GAPS)
  {
    assert StartsBy(HUNKS[0], GAPS[0]);
    assert (GAPS[1] + HUNK2.before)[0] == Kept1(5);
    assert StartsBy(HUNKS[1], GAPS[1]);
  }

  /**
   * The script of a comparison that starts over twice: its passes are numbered, its hunks group it
   * and hold it all, but the second one is found one line too early, and the list that comes out is
   * not the one that the script is for.
   */
  lemma RestartMisleadsTheCursor()
    ensures SCRIPT == ScriptOf(LEFT, RIGHT, SHORT, false) == FIRST + SECOND + THIRD
    ensures Numbered(FIRST) && Numbered(SECOND) && Numbered(THIRD)
    ensures Source(SCRIPT) == LEFT && Target(SCRIPT) == RIGHT
    ensures HUNKS == HunksOf(SCRIPT, true) && GAPS == GapsOf(SCRIPT, true)
    ensures GroupedBy(SCRIPT, HUNKS, GAPS, []) && Spaced(HUNKS, GAPS, []) && AllStart(HUNKS, GAPS)
    ensures !Reached(HUNKS, GAPS)
    ensures Walk(HUNKS, LEFT) == Some(Cursor("qjttttttsr", 9))
  {
    hide Elems, Numbered, Layout, Assemble, Applied, Walk, Replay, DeletesFirst, Spaced, Skip, ScriptOf, BuiltTo;
    ScriptIsComposed();
    PassesAreNumbered();
    ScriptElems({Delete, Common});
    ScriptElems({Common, Add});
    HunksAreBuilt();
    ScriptIsGrouped();
    HunksAreSpaced();
    HunksStartByNumbers();
    NotReached();
    FirstApplied();
    WalkTwo(LEFT);
    AppliedTooEarly();
  }

  /** Compared, grouped and patched with so short a log, the first text does not become the second. */
  method PatchAfterRestart() returns (r: seq<char>)
    ensures r == "qjttttttsr" != RIGHT
  {
    hide Walk, HunksOf, GapsOf, ScriptOf;
    RestartMisleadsTheCursor();
    r := PatchByHunks(LEFT, RIGHT, false, false, SHORT);
    assert RIGHT[8] != r[8];
  }
}
