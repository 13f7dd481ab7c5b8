/**
 * Grouping a script into hunks: the loop over its entries, and what the hunks say of the script.
 */
module HunkGroups {
  import opened EditScript
  import opened HunkSpacing
  import opened HunkStarts
  import opened Hunks

  /** The hunks and the context between and after them are the whole script, reordered. */
  ghost predicate GroupedBy<T>(S: seq<Edit<T>>, hunks: seq<Hunk<T>>, gaps: seq<seq<Edit<T>>>, tail: seq<Edit<T>>) {
    && |gaps| == |hunks| && Layout(hunks, gaps, Numbered(S))
    && Assemble(hunks, gaps) + tail == DeletesFirst(S) && AllOf(tail, Common)
  }

  lemma ConcatNil<X>(p: seq<X>, g: seq<X>, c: seq<X>)
    ensures p + (g + c) == p + g + c + [] + [] + []
  {
  }

  lemma {:induction false} FinishQuiet<T>(S: seq<Edit<T>>, swapped: bool, st: Builder<T>)
    requires Building(S, |S|, swapped, Numbered(S), st) && !st.inside
    ensures GroupedBy(S, st.hunks, st.gaps, st.gap + st.context)
  {
    hide Layout, Elems, Trailing, Settled, Assemble, StartOk, AllOf, Numbered;
    assert S[..|S|] == S;
    ConcatNil(Assemble(st.hunks, st.gaps), st.gap, st.context);
    assert st.change == [] && st.deletes == [] && st.adds == [];
    AllOfConcat(st.gap, st.context, Common);
  }

  /** The hunks hold the script, are cut where the loop cuts, and start by the numbers of its kept entries. */
  ghost predicate GroupedFully<T>(S: seq<Edit<T>>, hunks: seq<Hunk<T>>, gaps: seq<seq<Edit<T>>>, tail: seq<Edit<T>>) {
    && GroupedBy(S, hunks, gaps, tail) && Spaced(hunks, gaps, tail)
    && (KeptAreNumbered(S) ==> AllStart(hunks, gaps))
  }

  ghost predicate Grouped<T(!new)>(S: seq<Edit<T>>, hunks: seq<Hunk<T>>) {
    exists gaps, tail :: GroupedFully(S, hunks, gaps, tail)
  }

  lemma {:induction false} FinishInside<T>(S: seq<Edit<T>>, swapped: bool, st: Builder<T>)
    requires Building(S, |S|, swapped, Numbered(S), st) && st.inside
    ensures GroupedBy(S, AfterEmit(st, swapped).hunks, AfterEmit(st, swapped).gaps, [])
  {
    hide Layout, Elems, Trailing, Settled, Assemble;
    EmitStep(S, |S|, swapped, Numbered(S), st);
    var st' := AfterEmit(st, swapped);
    assert S[..|S|] == S;
    assert Assemble(st'.hunks, st'.gaps) + [] == Assemble(st'.hunks, st'.gaps);
  }

  lemma {:induction false} AllKept<T>(s: seq<Edit<T>>)
    ensures |Kept(s)| <= |s| && (|Kept(s)| == |s| <==> AllOf(s, Common))
    decreases |s|
  {
    if s == [] {
    } else {
      AllKept(s[..|s| - 1]);
      assert s == s[..|s| - 1] + [s[|s| - 1]];
      AllOfAppend(s[..|s| - 1], s[|s| - 1]);
    }
  }

  /** The SEPARATE_SIZE entries of S from position i on, or what is left of them. */
  function Window<T>(S: seq<Edit<T>>, i: nat): seq<Edit<T>>
    requires i <= |S|
  {
    if i + SEPARATE_SIZE <= |S| then S[i..i + SEPARATE_SIZE] else S[i..]
  }

  /** Counts the kept entries in the window. */
  method CountCommon<T>(S: seq<Edit<T>>, i: nat) returns (cnt: nat)
    requires i < |S|
    ensures cnt == |Kept(Window(S, i))|
    ensures cnt <= SEPARATE_SIZE
    ensures cnt == SEPARATE_SIZE <==> i + SEPARATE_SIZE <= |S| && AllOf(S[i..i + SEPARATE_SIZE], Common)
  {
    hide Elems;
    cnt := 0;
    var j := 0;
    NoneKept<T>();
    assert S[i..i] == [];
    while j < SEPARATE_SIZE && i + j < |S|
      invariant 0 <= j <= SEPARATE_SIZE && i + j <= |S| && cnt == |Kept(S[i..i + j])|
    {
      assert S[i..i + j + 1] == S[i..i + j] + [S[i + j]];
      ElemsAppend(S[i..i + j], S[i + j], {Common});
      if S[i + j].kind.Common? {
        cnt := cnt + 1;
      }
      j := j + 1;
    }
    assert S[i..i + j] == Window(S, i);
    AllKept(Window(S, i));
  }

  lemma NoneKept<T>()
    ensures Kept<T>([]) == []
  {
  }

  /** Takes in the entry at line lCnt; isAfter tells that a hunk may be complete. */
  method TakeEntry<T>(S: seq<Edit<T>>, lCnt: nat, swapped: bool, ghost numbered: bool, st0: Builder<T>, middle0: int)
    returns (st: Builder<T>, middle: int, isAfter: bool)
    requires 1 <= lCnt <= |S| && Building(S, lCnt - 1, swapped, numbered, st0) && (numbered ==> Numbered(S))
    ensures Building(S, lCnt, swapped, numbered, st)
    ensures st == Taken(st0, S[lCnt - 1], swapped)
    ensures middle == if !S[lCnt - 1].kind.Common? then 0 else if st0.inside then middle0 + 1 else middle0
    ensures isAfter <==> st.inside && (lCnt == |S| || (S[lCnt - 1].kind.Common? && middle >= SEPARATE_SIZE))
  {
    hide Building, Numbered;
    BuildingParts(S, lCnt - 1, swapped, numbered, st0);
    st, middle, isAfter := st0, middle0, false;
    var it := S[lCnt - 1];
    match it.kind {
      case Add =>
        ChangeStep(S, lCnt - 1, swapped, numbered, st0);
        middle := 0;
        st := st.(adds := st.adds + [it], incDec := st.incDec + 1, inside := true, d := st.d + 1);
        if lCnt >= |S| { isAfter := true; }
      case Delete =>
        ChangeStep(S, lCnt - 1, swapped, numbered, st0);
        middle := 0;
        st := st.(deletes := st.deletes + [it], incDec := st.incDec - 1, inside := true, b := st.b + 1);
        if lCnt >= |S| { isAfter := true; }
      case Common =>
        st := st.(b := st.b + 1, d := st.d + 1);
        if st.adds == [] && st.deletes == [] && st.change == [] {
          if numbered { NumberedPrefix(S, lCnt - 1); }
          LeadStep(S, lCnt - 1, swapped, numbered, st0);
          if |st.context| < CONTEXT_SIZE {
            if st.a == 0 && st.c == 0 {
              st := if !swapped then st.(a := it.before, c := it.after) else st.(a := it.after, c := it.before);
            }
            st := st.(context := st.context + [it]);
          } else {
            st := st.(gap := st.gap + [st.context[0]], context := st.context[1..] + [it]);
            st := st.(a := st.a + 1, c := st.c + 1, b := st.b - 1, d := st.d - 1);
          }
        }
        if st.inside {
          InsideStep(S, lCnt - 1, swapped, numbered, st0);
          middle := middle + 1;
          st := st.(change := st.change + st.deletes + st.adds + [it], adds := [], deletes := []);
          if middle >= SEPARATE_SIZE || lCnt >= |S| { isAfter := true; }
        }
    }
  }

  /** Groups a script into hunks. */
  method GroupHunks<T>(S: seq<Edit<T>>, swapped: bool)
    returns (hunks: seq<Hunk<T>>, ghost gaps: seq<seq<Edit<T>>>, ghost tail: seq<Edit<T>>)
    ensures GroupedFully(S, hunks, gaps, tail)
    ensures hunks == HunksOf(S, swapped) && gaps == GapsOf(S, swapped) && tail == TailOf(S, swapped)
    ensures hunks == [] <==> AllOf(S, Common)
  {
    hide Building, Spacing, GroupedBy, Spaced, Numbered, Taken, AfterEmit, BuiltTo, AllStart, KeptAreNumbered;
    var st: Builder<T> := Builder([], [], [], [], [], [], [], 0, 0, 0, 0, 0, false);
    var lCnt, length, middle := 1, |S|, 0;
    ghost var numbered := Numbered(S);
    assert BuiltTo(S, 0, swapped) == (st, middle) by { BuildStart(S, swapped); }
    BuildNothing(S, swapped, numbered);
    SpacingStart(S);
    if length == 0 { Finish(S, swapped, st, 0); }
    tail := st.gap + st.context;
    while lCnt <= length
      invariant 1 <= lCnt <= length + 1 && length == |S|
      invariant lCnt <= length ==> Building(S, lCnt - 1, swapped, numbered, st) && Spacing(S, lCnt - 1, st, middle)
      invariant (st, middle) == BuiltTo(S, lCnt - 1, swapped)
      invariant lCnt > length ==> tail == st.gap + st.context
      invariant lCnt > length ==> GroupedBy(S, st.hunks, st.gaps, tail) && Spaced(st.hunks, st.gaps, tail)
      decreases length - lCnt
    {
      BuildStep(S, lCnt - 1, swapped);
      BuildingParts(S, lCnt - 1, swapped, numbered, st);
      SpacingStep(S, lCnt - 1, st, middle, swapped);
      InsideParts(st, S[lCnt - 1], swapped);
      var isAfter;
      st, middle, isAfter := TakeEntry(S, lCnt, swapped, numbered, st, middle);
      if isAfter {
        var cnt := CountCommon(S, lCnt - 1);
        if lCnt < length { ThreeAhead(S, lCnt - 1); }
        if cnt < SEPARATE_SIZE && lCnt < length {
          middle, isAfter := 0, false;
        } else {
          if lCnt < length {
            EmitInside(S, lCnt, swapped, numbered, st);
          } else {
            Finish(S, swapped, st, if middle < SEPARATE_SIZE then middle else 0);
            tail := [];
          }
          EmitClears(st, swapped);
          st, middle := AfterEmit(st, swapped), 0;
        }
      } else if lCnt == length {
        Finish(S, swapped, st, middle);
        tail := st.gap + st.context;
      }
      lCnt := lCnt + 1;
    }
    hunks, gaps := st.hunks, st.gaps;
    NoHunksIffNoChanges(S, hunks, gaps, tail);
    if KeptAreNumbered(S) { HunksStart(S, swapped); }
  }

  lemma EmitClears<T>(st: Builder<T>, swapped: bool)
    ensures AfterEmit(st, swapped).gap == [] == AfterEmit(st, swapped).context
  {
  }

  /** A kept entry inside a hunk takes in all pending changes. */
  lemma InsideParts<T>(st: Builder<T>, e: Edit<T>, swapped: bool)
    ensures e.kind.Common? && Taken(st, e, swapped).inside ==>
              Taken(st, e, swapped).deletes == [] && Taken(st, e, swapped).adds == []
  {
  }

  lemma ThreeAhead<T>(S: seq<Edit<T>>, i: nat)
    requires i < |S| && S[i].kind.Common?
    ensures i + SEPARATE_SIZE <= |S| && AllOf(S[i..i + SEPARATE_SIZE], Common) <==> Ahead(S, i + 1)
  {
    if i + SEPARATE_SIZE <= |S| {
      assert S[i..i + SEPARATE_SIZE] == [S[i], S[i + 1], S[i + 2]];
    }
  }

  lemma Finish<T>(S: seq<Edit<T>>, swapped: bool, st: Builder<T>, middle: int)
    requires Building(S, |S|, swapped, Numbered(S), st) && Spacing(S, |S|, st, middle)
    ensures if st.inside then
              var st' := AfterEmit(st, swapped);
              GroupedBy(S, st'.hunks, st'.gaps, []) && Spaced(st'.hunks, st'.gaps, [])
            else
              GroupedBy(S, st.hunks, st.gaps, st.gap + st.context) && Spaced(st.hunks, st.gaps, st.gap + st.context)
  {
    hide Building, Spacing, GroupedBy, Spaced;
    SpacingEnd(S, st, middle, swapped);
    if st.inside { FinishInside(S, swapped, st); } else { FinishQuiet(S, swapped, st); }
  }

  // ----- what a grouping says -----

  /** The hunks neither invent nor lose an entry. */
  lemma GroupingPermutes<T>(S: seq<Edit<T>>, hunks: seq<Hunk<T>>, gaps: seq<seq<Edit<T>>>, tail: seq<Edit<T>>)
    requires GroupedBy(S, hunks, gaps, tail)
    ensures multiset(Assemble(hunks, gaps)) + multiset(tail) == multiset(S)
  {
    ReorderPermutes(S);
  }

  lemma {:induction false} LayoutChanges<T>(hunks: seq<Hunk<T>>, gaps: seq<seq<Edit<T>>>, numbered: bool)
    requires Layout(hunks, gaps, numbered) && hunks != []
    ensures !AllOf(Assemble(hunks, gaps), Common)
  {
    hide Elems;
    var k := |hunks| - 1;
    var pre := Assemble(hunks[..k], gaps[..k]) + gaps[k];
    AllOfConcat(pre, Body(hunks[k]), Common);
    AllOfConcat(hunks[k].before + hunks[k].change, hunks[k].after, Common);
    AllOfConcat(hunks[k].before, hunks[k].change, Common);
  }

  /** There is no hunk exactly when the script changes nothing. */
  lemma NoHunksIffNoChanges<T>(S: seq<Edit<T>>, hunks: seq<Hunk<T>>, gaps: seq<seq<Edit<T>>>, tail: seq<Edit<T>>)
    requires GroupedBy(S, hunks, gaps, tail)
    ensures hunks == [] <==> AllOf(S, Common)
  {
    hide Elems, Settled, Trailing;
    NoChanges(S);
    NoChanges(DeletesFirst(S));
    ReorderMeansTheSame(S);
    AllOfConcat(Assemble(hunks, gaps), tail, Common);
    if hunks != [] {
      LayoutChanges(hunks, gaps, Numbered(S));
    }
  }

  function TotalIncDec<T>(hunks: seq<Hunk<T>>): int {
    if hunks == [] then 0 else TotalIncDec(hunks[..|hunks| - 1]) + hunks[|hunks| - 1].incDecCount
  }

  lemma CommonLengths<T>(s: seq<Edit<T>>, gap: seq<Edit<T>>)
    requires AllOf(gap, Common)
    ensures |Source(s + gap)| == |Source(s)| + |gap| && |Target(s + gap)| == |Target(s)| + |gap|
    decreases |gap|
  {
    if gap == [] {
      assert s + gap == s;
    } else {
      var g := gap[..|gap| - 1];
      CommonLengths(s, g);
      assert s + gap == (s + g) + [gap[|gap| - 1]];
      LengthsLast(s + g, gap[|gap| - 1]);
    }
  }

  lemma HunkLengths<T>(h: Hunk<T>, pre: seq<Edit<T>>)
    requires Counted(h)
    ensures |Source(pre + Body(h))| == |Source(pre)| + h.b && |Target(pre + Body(h))| == |Target(pre)| + h.d
  {
    ElemsConcat(pre, Body(h), {Delete, Common});
    ElemsConcat(pre, Body(h), {Common, Add});
  }

  /** The hunks make the target longer than the source by the sum of their counts. */
  lemma {:induction false} LayoutLengths<T>(hunks: seq<Hunk<T>>, gaps: seq<seq<Edit<T>>>, numbered: bool)
    requires Layout(hunks, gaps, numbered)
    ensures |Target(Assemble(hunks, gaps))| == |Source(Assemble(hunks, gaps))| + TotalIncDec(hunks)
  {
    hide Elems;
    if hunks == [] {
      NoElems<T>();
    } else {
      var k := |hunks| - 1;
      var pre := Assemble(hunks[..k], gaps[..k]);
      LayoutLengths(hunks[..k], gaps[..k], numbered);
      CommonLengths(pre, gaps[k]);
      HunkLengths(hunks[k], pre + gaps[k]);
    }
  }

  /**
   * In a numbered grouping a hunk's two line numbers differ by the counts of the hunks before it,
   * and each hunk starts after the previous one ends, on both sides.
   */
  lemma {:induction false} HunkNumbers<T>(hunks: seq<Hunk<T>>, gaps: seq<seq<Edit<T>>>, i: nat)
    requires Layout(hunks, gaps, true) && i < |hunks|
    ensures hunks[i].c - hunks[i].a == TotalIncDec(hunks[..i])
    ensures hunks[i].d - hunks[i].b == hunks[i].incDecCount
    ensures i > 0 ==> hunks[i - 1].a + hunks[i - 1].b <= hunks[i].a && hunks[i - 1].c + hunks[i - 1].d <= hunks[i].c
    decreases |hunks|
  {
    hide Elems;
    var k := |hunks| - 1;
    if i < k {
      HunkNumbers(hunks[..k], gaps[..k], i);
      assert hunks[..k][..i] == hunks[..i];
    } else {
      var pre := Assemble(hunks[..k], gaps[..k]);
      LayoutLengths(hunks[..k], gaps[..k], true);
      CommonLengths(pre, gaps[k]);
      if k > 0 {
        HunkLengths(hunks[k - 1], Assemble(hunks[..k][..k - 1], gaps[..k][..k - 1]) + gaps[k - 1]);
        assert hunks[..k][k - 1] == hunks[k - 1] && gaps[..k][k - 1] == gaps[k - 1];
      }
    }
  }
}
