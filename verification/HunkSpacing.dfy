/**
 * Where hunks are cut: a run of five kept entries or more is split after its third entry, and
 * shorter runs stay inside.
 */
module HunkSpacing {
  import opened EditScript
  import opened Hunks

  /** How many kept entries s ends with. */
  function Run<T>(s: seq<Edit<T>>): nat {
    if s == [] || !s[|s| - 1].kind.Common? then 0 else 1 + Run(s[..|s| - 1])
  }

  /** Nowhere in s are there more than four kept entries in a row. */
  ghost predicate Tight<T>(s: seq<Edit<T>>) {
    forall i :: 0 <= i <= |s| ==> Run(s[..i]) <= SEPARATE_SIZE + 1
  }

  /** The hunk starts with a change, after all the context it may have, and holds no long run of kept entries. */
  ghost predicate Compact<T>(h: Hunk<T>, gap: seq<Edit<T>>) {
    && h.change != [] && !h.change[0].kind.Common? && Tight(h.change)
    && (gap != [] ==> |h.before| == CONTEXT_SIZE)
  }

  predicate EndsInThree<T>(h: Hunk<T>) { Run(h.change) == SEPARATE_SIZE }

  /** Every hunk is compact; two hunks are apart by three kept entries of the first and two or more after it. */
  ghost predicate SpacedSoFar<T>(hunks: seq<Hunk<T>>, gaps: seq<seq<Edit<T>>>)
    decreases |hunks|
  {
    && |gaps| == |hunks|
    && (hunks == [] ||
        var k := |hunks| - 1;
        && SpacedSoFar(hunks[..k], gaps[..k])
        && Compact(hunks[k], gaps[k])
        && (k > 0 ==> EndsInThree(hunks[k - 1]) && |gaps[k]| + |hunks[k].before| >= 2))
  }

  /** The same up to the end of the script, where the last hunk may take everything that is left. */
  ghost predicate Spaced<T>(hunks: seq<Hunk<T>>, gaps: seq<seq<Edit<T>>>, tail: seq<Edit<T>>) {
    && SpacedSoFar(hunks, gaps)
    && (hunks != [] && tail != [] ==> EndsInThree(hunks[|hunks| - 1]) && |tail| >= 2)
  }

  // ----- runs -----

  lemma {:induction false} RunIsSuffix<T>(s: seq<Edit<T>>)
    ensures Run(s) <= |s| && AllOf(s[|s| - Run(s)..], Common)
    ensures Run(s) < |s| ==> !s[|s| - 1 - Run(s)].kind.Common?
    decreases |s|
  {
    if s == [] || !s[|s| - 1].kind.Common? {
      assert s[|s|..] == [];
    } else {
      var t := s[..|s| - 1];
      RunIsSuffix(t);
      assert s[|s| - Run(s)..] == t[|t| - Run(t)..] + [s[|s| - 1]];
      AllOfAppend(t[|t| - Run(t)..], s[|s| - 1]);
    }
  }

  ghost predicate FiveKept<T>(s: seq<Edit<T>>, k: int) {
    0 <= k <= |s| - 5 && AllOf(s[k..k + 5], Common)
  }

  /** A tight script is one without five kept entries in a row. */
  lemma TightMeansNoFive<T>(s: seq<Edit<T>>)
    ensures Tight(s) <==> forall k :: !FiveKept(s, k)
  {
    forall i | 0 <= i <= |s| ensures Run(s[..i]) >= 5 <==> FiveKept(s, i - 5) {
      RunOfFive(s, i);
    }
    forall k | FiveKept(s, k) ensures Run(s[..k + 5]) >= 5 {
      RunOfFive(s, k + 5);
    }
  }

  lemma RunOfFive<T>(s: seq<Edit<T>>, i: nat)
    requires i <= |s|
    ensures Run(s[..i]) >= 5 <==> i >= 5 && AllOf(s[i - 5..i], Common)
  {
    var p := s[..i];
    RunIsSuffix(p);
    var r := Run(p);
    if r >= 5 {
      assert s[i - 5..i] == p[|p| - r..][r - 5..];
    } else if i >= 5 {
      assert s[i - 5..i][4 - r] == p[|p| - 1 - r];
    }
  }

  lemma RunAppend<T>(s: seq<Edit<T>>, e: Edit<T>)
    ensures Run(s + [e]) == if e.kind.Common? then Run(s) + 1 else 0
  {
    assert (s + [e])[..|s|] == s;
  }

  lemma TightAppend<T>(s: seq<Edit<T>>, e: Edit<T>)
    requires Tight(s) && Run(s + [e]) <= SEPARATE_SIZE + 1
    ensures Tight(s + [e])
  {
    hide Run;
    var t := s + [e];
    forall i | 0 <= i <= |t| ensures Run(t[..i]) <= SEPARATE_SIZE + 1 {
      if i <= |s| { assert t[..i] == s[..i]; } else { assert t[..i] == t; }
    }
  }

  /** Changes neither lengthen nor continue a run. */
  lemma {:induction false} TightChanges<T>(s: seq<Edit<T>>, t: seq<Edit<T>>)
    requires Tight(s) && forall i :: 0 <= i < |t| ==> !t[i].kind.Common?
    ensures Tight(s + t) && (t != [] ==> Run(s + t) == 0)
    decreases |t|
  {
    hide Run, Tight;
    if t == [] {
      assert s + t == s;
    } else {
      var t', e := t[..|t| - 1], t[|t| - 1];
      TightChanges(s, t');
      assert s + t == (s + t') + [e];
      RunAppend(s + t', e);
      TightAppend(s + t', e);
    }
  }

  lemma NothingIsTight<T>()
    ensures Tight<T>([]) && Run<T>([]) == 0
  {
  }

  // ----- the builder -----

  /** Two more kept entries follow. */
  predicate Ahead<T>(S: seq<Edit<T>>, i: nat) {
    i + 1 < |S| && S[i].kind.Common? && S[i + 1].kind.Common?
  }

  /** What the kept entries since the last change, and the counter of the loop, say of the entries to come. */
  ghost predicate RunOk<T>(S: seq<Edit<T>>, i: nat, run: nat, middle: int)
    requires i <= |S|
  {
    && 1 <= run <= 4 && middle == (if run < 3 then run else run - 3)
    && (run == 3 ==> !Ahead(S, i))
    && (run == 4 ==> i == |S| || !S[i].kind.Common?)
  }

  /** At least two kept entries will have come between the last hunk and the next change. */
  ghost predicate KeepsApart<T>(S: seq<Edit<T>>, i: nat, st: Builder<T>)
    requires i <= |S|
  {
    var seen := |st.gap| + |st.context|;
    seen >= 2 || (!st.inside && if seen == 0 then Ahead(S, i) else i < |S| && S[i].kind.Common?)
  }

  /** The loop invariant: every hunk so far is spaced, and the one under construction can still be. */
  ghost predicate Spacing<T>(S: seq<Edit<T>>, i: nat, st: Builder<T>, middle: int)
    requires i <= |S|
  {
    && SpacedSoFar(st.hunks, st.gaps)
    && (st.hunks != [] ==> EndsInThree(st.hunks[|st.hunks| - 1]) && KeepsApart(S, i, st))
    && (st.gap != [] ==> |st.context| == CONTEXT_SIZE)
    && AllOf(st.deletes, Delete) && AllOf(st.adds, Add)
    && Tight(st.change) && (st.change != [] ==> !st.change[0].kind.Common?)
    && (st.inside <==> st.change != [] || st.deletes != [] || st.adds != [])
    && if !st.inside || st.deletes != [] || st.adds != [] then middle == 0 else RunOk(S, i, Run(st.change), middle)
  }

  lemma SpacingStart<T>(S: seq<Edit<T>>)
    ensures Spacing(S, 0, Builder([], [], [], [], [], [], [], 0, 0, 0, 0, 0, false), 0)
  {
    NothingIsTight<T>();
  }

  lemma SpacingChange<T>(S: seq<Edit<T>>, i: nat, st: Builder<T>, middle: int)
    requires i < |S| && Spacing(S, i, st, middle) && !S[i].kind.Common?
    ensures Spacing(S, i + 1, AfterChange(st, S[i]), 0)
  {
    hide Run, Tight, SpacedSoFar;
    AllOfAppend(st.deletes, S[i]);
    AllOfAppend(st.adds, S[i]);
  }

  lemma SpacingLead<T>(S: seq<Edit<T>>, i: nat, st: Builder<T>, middle: int, swapped: bool)
    requires i < |S| && Spacing(S, i, st, middle) && S[i].kind.Common? && !st.inside && |st.context| <= CONTEXT_SIZE
    ensures Spacing(S, i + 1, AfterLead(st, S[i], swapped), middle)
  {
    hide Run, Tight, SpacedSoFar;
  }

  /** A kept entry inside a hunk: its change part stays compact. */
  lemma InsideIsTight<T>(S: seq<Edit<T>>, i: nat, st: Builder<T>, middle: int)
    requires i < |S| && Spacing(S, i, st, middle) && S[i].kind.Common? && st.inside
    ensures var st' := AfterInside(st, S[i]);
            && Tight(st'.change) && !st'.change[0].kind.Common?
            && Run(st'.change) == (if st.deletes == [] && st.adds == [] then Run(st.change) + 1 else 1)
  {
    hide Tight, SpacedSoFar;
    var changes := st.deletes + st.adds;
    TightChanges(st.change, changes);
    assert st.Pending() == st.change + changes;
    if changes == [] { assert st.Pending() == st.change; }
    RunAppend(st.Pending(), S[i]);
    TightAppend(st.Pending(), S[i]);
  }

  lemma SpacingInside<T>(S: seq<Edit<T>>, i: nat, st: Builder<T>, middle: int)
    requires i < |S| && Spacing(S, i, st, middle) && S[i].kind.Common? && st.inside
    ensures middle + 1 < SEPARATE_SIZE ==> Spacing(S, i + 1, AfterInside(st, S[i]), middle + 1)
    ensures middle + 1 >= SEPARATE_SIZE && !Ahead(S, i + 1) ==> Spacing(S, i + 1, AfterInside(st, S[i]), 0)
    ensures middle + 1 >= SEPARATE_SIZE ==>
              EndsInThree(Emitted(AfterInside(st, S[i]), false)) && Run(AfterInside(st, S[i]).change) == SEPARATE_SIZE
  {
    hide Run, Tight, SpacedSoFar;
    InsideIsTight(S, i, st, middle);
    var st' := AfterInside(st, S[i]);
    assert st'.Pending() == st'.change;
  }

  lemma EmittedIsCompact<T>(S: seq<Edit<T>>, i: nat, st0: Builder<T>, middle: int, swapped: bool)
    requires i < |S| && Spacing(S, i, st0, middle) && S[i].kind.Common? && st0.inside && middle + 1 >= SEPARATE_SIZE
    ensures var st := AfterInside(st0, S[i]); Compact(Emitted(st, swapped), st.gap) && EndsInThree(Emitted(st, swapped))
  {
    hide Run, Tight, SpacedSoFar;
    InsideIsTight(S, i, st0, middle);
    SpacingInside(S, i, st0, middle);
    var st := AfterInside(st0, S[i]);
    assert st.Pending() == st.change;
  }

  lemma SpacingEmit<T>(S: seq<Edit<T>>, i: nat, st0: Builder<T>, middle: int, swapped: bool)
    requires i < |S| && Spacing(S, i, st0, middle) && S[i].kind.Common? && st0.inside
    requires middle + 1 >= SEPARATE_SIZE && Ahead(S, i + 1)
    ensures Spacing(S, i + 1, AfterEmit(AfterInside(st0, S[i]), swapped), 0)
  {
    hide Run, Tight, SpacedSoFar, Compact, EndsInThree;
    EmittedIsCompact(S, i, st0, middle, swapped);
    NothingIsTight<T>();
    var st := AfterInside(st0, S[i]);
    SpacedAppend(st0.hunks, st0.gaps, Emitted(st, swapped), st.gap);
  }

  lemma SpacedAppend<T>(hunks: seq<Hunk<T>>, gaps: seq<seq<Edit<T>>>, h: Hunk<T>, gap: seq<Edit<T>>)
    requires SpacedSoFar(hunks, gaps) && Compact(h, gap)
    requires hunks != [] ==> EndsInThree(hunks[|hunks| - 1]) && |gap| + |h.before| >= 2
    ensures SpacedSoFar(hunks + [h], gaps + [gap])
  {
    hide Run, Tight, Compact, EndsInThree;
    assert (hunks + [h])[..|hunks|] == hunks && (gaps + [gap])[..|hunks|] == gaps;
  }

  /** What spacing says of the hunk at position j. */
  lemma {:induction false} SpacedAt<T>(hunks: seq<Hunk<T>>, gaps: seq<seq<Edit<T>>>, j: nat)
    requires SpacedSoFar(hunks, gaps) && j < |hunks|
    ensures |gaps| == |hunks| && Compact(hunks[j], gaps[j])
    ensures j > 0 ==> EndsInThree(hunks[j - 1]) && |gaps[j]| + |hunks[j].before| >= 2
    decreases |hunks|
  {
    hide Run, Tight, Compact, EndsInThree;
    if j < |hunks| - 1 { SpacedAt(hunks[..|hunks| - 1], gaps[..|hunks| - 1], j); }
  }

  /**
   * One turn of the loop. A counter of three says that three kept entries have come since the last
   * change; the hunk is then cut if two more follow, and otherwise goes on with the counter at 0.
   */
  lemma SpacingStep<T>(S: seq<Edit<T>>, i: nat, st: Builder<T>, middle: int, swapped: bool)
    requires i < |S| && Spacing(S, i, st, middle) && |st.context| <= CONTEXT_SIZE
    ensures var e := S[i];
            var st' := Taken(st, e, swapped);
            var middle' := if !e.kind.Common? then 0 else if st.inside then middle + 1 else middle;
            if middle' < SEPARATE_SIZE then Spacing(S, i + 1, st', middle')
            else
              && e.kind.Common? && st'.inside
              && Spacing(S, i + 1, if Ahead(S, i + 1) then AfterEmit(st', swapped) else st', 0)
  {
    hide Run, Tight, SpacedSoFar;
    if !S[i].kind.Common? {
      SpacingChange(S, i, st, middle);
    } else if !st.inside {
      SpacingLead(S, i, st, middle, swapped);
    } else {
      SpacingInside(S, i, st, middle);
      if middle + 1 >= SEPARATE_SIZE && Ahead(S, i + 1) { SpacingEmit(S, i, st, middle, swapped); }
    }
  }

  /** At the end of the script the hunk under construction takes everything. */
  lemma SpacingEnd<T>(S: seq<Edit<T>>, st: Builder<T>, middle: int, swapped: bool)
    requires Spacing(S, |S|, st, middle)
    ensures if st.inside then Spaced(AfterEmit(st, swapped).hunks, AfterEmit(st, swapped).gaps, [])
            else Spaced(st.hunks, st.gaps, st.gap + st.context)
  {
    hide Run, Tight, SpacedSoFar;
    if st.inside {
      var changes := st.deletes + st.adds;
      TightChanges(st.change, changes);
      assert st.Pending() == st.change + changes;
      SpacedAppend(st.hunks, st.gaps, Emitted(st, swapped), st.gap);
    }
  }
}
