/**
 * Unified-format hunks: grouping a script into runs of changes with a little context, and
 * patching a list with the script or with the hunks.
 */
module Hunks {
  import opened EditScript

  const SEPARATE_SIZE := 3
  const CONTEXT_SIZE := 3

  /** One unified-format hunk: line numbers and lengths on both sides, leading context, and changes. */
  datatype Hunk<+T> = Hunk(a: int, b: int, c: int, d: int, before: seq<Edit<T>>, change: seq<Edit<T>>,
                           after: seq<Edit<T>>, incDecCount: int)

  /** The part of the script that a hunk holds. */
  function Body<T>(h: Hunk<T>): seq<Edit<T>> { h.before + h.change + h.after }

  /** The script made of the hunks, each one preceded by its gap. */
  ghost function Assemble<T>(hunks: seq<Hunk<T>>, gaps: seq<seq<Edit<T>>>): seq<Edit<T>>
    requires |gaps| == |hunks|
  {
    if hunks == [] then []
    else Assemble(hunks[..|hunks| - 1], gaps[..|hunks| - 1]) + gaps[|hunks| - 1] + Body(hunks[|hunks| - 1])
  }

  /** A hunk has real changes, at most CONTEXT_SIZE entries of leading context, and counts them right. */
  ghost predicate Counted<T>(h: Hunk<T>) {
    && AllOf(h.before, Common) && |h.before| <= CONTEXT_SIZE && h.after == [] && !AllOf(h.change, Common)
    && h.b == |Source(Body(h))| && h.d == |Target(Body(h))| && h.incDecCount == h.d - h.b
  }

  /** The hunk starts right after the entries pre. */
  ghost predicate Placed<T>(h: Hunk<T>, pre: seq<Edit<T>>) {
    h.a == 1 + |Source(pre)| && h.c == 1 + |Target(pre)|
  }

  /** Every hunk is right, every gap is all context; with numbered, the hunks are also placed right. */
  ghost predicate Layout<T>(hunks: seq<Hunk<T>>, gaps: seq<seq<Edit<T>>>, numbered: bool)
    decreases |hunks|
  {
    && |gaps| == |hunks|
    && (hunks == [] ||
        var k := |hunks| - 1;
        && Layout(hunks[..k], gaps[..k], numbered)
        && AllOf(gaps[k], Common) && Counted(hunks[k])
        && (numbered ==> Placed(hunks[k], Assemble(hunks[..k], gaps[..k]) + gaps[k])))
  }

  lemma LayoutAppend<T>(hunks: seq<Hunk<T>>, gaps: seq<seq<Edit<T>>>, numbered: bool, h: Hunk<T>, gap: seq<Edit<T>>)
    requires Layout(hunks, gaps, numbered) && AllOf(gap, Common) && Counted(h)
    requires numbered ==> Placed(h, Assemble(hunks, gaps) + gap)
    ensures Layout(hunks + [h], gaps + [gap], numbered)
    ensures Assemble(hunks + [h], gaps + [gap]) == Assemble(hunks, gaps) + gap + Body(h)
  {
    assert (hunks + [h])[..|hunks|] == hunks && (gaps + [gap])[..|hunks|] == gaps;
  }

  // ----- building hunks -----

  /** The builder's variables between two entries of the script; gaps and gap are for the proof only. */
  datatype Builder<T> = Builder(hunks: seq<Hunk<T>>, gaps: seq<seq<Edit<T>>>, gap: seq<Edit<T>>,
                                context: seq<Edit<T>>, change: seq<Edit<T>>, deletes: seq<Edit<T>>, adds: seq<Edit<T>>,
                                a: int, b: int, c: int, d: int, incDec: int, inside: bool)
  {
    /** Everything in the hunk under construction. */
    function Pending(): seq<Edit<T>> { change + deletes + adds }
  }

  /** Where the hunk under construction will start: its line numbers, or 0 as long as it has no context. */
  ghost predicate StartOk<T>(st: Builder<T>, swapped: bool)
    requires |st.gaps| == |st.hunks|
  {
    var pre := Assemble(st.hunks, st.gaps) + st.gap;
    if st.context == [] then st.a == 0 && st.c == 0 && (st.inside ==> pre == [])
    else && (if swapped then st.c else st.a) == 1 + |Source(pre)|
         && (if swapped then st.a else st.c) == 1 + |Target(pre)|
  }

  /** The loop invariant: hunks, gap, context and pending changes are the first i entries, reordered. */
  ghost predicate Building<T>(S: seq<Edit<T>>, i: nat, swapped: bool, numbered: bool, st: Builder<T>)
    requires i <= |S|
  {
    && |st.gaps| == |st.hunks| && Layout(st.hunks, st.gaps, numbered)
    && Assemble(st.hunks, st.gaps) + st.gap + st.context + st.change == Settled(S[..i])
    && st.deletes == Trailing(S[..i], Delete) && st.adds == Trailing(S[..i], Add)
    && AllOf(st.gap, Common) && AllOf(st.context, Common) && |st.context| <= CONTEXT_SIZE
    && (st.inside ==> !AllOf(st.Pending(), Common))
    && (!st.inside ==> st.Pending() == [])
    && st.b == |Source(st.context + st.Pending())| && st.d == |Target(st.context + st.Pending())|
    && st.incDec == st.d - st.b
    && (st.context == [] ==> st.gap == [])
    && (numbered ==> StartOk(st, swapped))
    && (st.context == [] && !st.inside && st.hunks != [] && i < |S| ==> S[i].kind.Common?)
  }

  /** The lengths of a hunk grow with every entry, wherever it is put. */
  lemma Lengths<T>(s: seq<Edit<T>>, t: seq<Edit<T>>, e: Edit<T>)
    ensures |Source(s + [e] + t)| == |Source(s + t)| + (if e.kind.Add? then 0 else 1)
    ensures |Target(s + [e] + t)| == |Target(s + t)| + (if e.kind.Delete? then 0 else 1)
  {
    forall ks ensures |Elems(s + [e] + t, ks)| == |Elems(s + t, ks)| + (if e.kind in ks then 1 else 0) {
      ElemsConcat(s + [e], t, ks);
      ElemsConcat(s, t, ks);
      ElemsAppend(s, e, ks);
    }
  }

  lemma LengthsLast<T>(s: seq<Edit<T>>, e: Edit<T>)
    ensures |Source(s + [e])| == |Source(s)| + (if e.kind.Add? then 0 else 1)
    ensures |Target(s + [e])| == |Target(s)| + (if e.kind.Delete? then 0 else 1)
  {
    Lengths(s, [], e);
    assert s + [e] + [] == s + [e] && s + [] == s;
  }

  function AfterChange<T>(st: Builder<T>, e: Edit<T>): Builder<T> {
    if e.kind.Add? then st.(adds := st.adds + [e], d := st.d + 1, incDec := st.incDec + 1, inside := true)
    else st.(deletes := st.deletes + [e], b := st.b + 1, incDec := st.incDec - 1, inside := true)
  }

  /** An added entry goes to the end of the hunk under construction. */
  lemma AddGrows<T>(st: Builder<T>, e: Edit<T>)
    requires e.kind.Add?
    requires st.b == |Source(st.context + st.Pending())| && st.d == |Target(st.context + st.Pending())|
    ensures var st' := AfterChange(st, e);
            && st'.b == |Source(st'.context + st'.Pending())| && st'.d == |Target(st'.context + st'.Pending())|
            && !AllOf(st'.Pending(), Common)
  {
    hide Elems;
    var st' := AfterChange(st, e);
    LengthsLast(st.context + st.Pending(), e);
    assert st'.context + st'.Pending() == (st.context + st.Pending()) + [e];
    assert st'.Pending() == st.Pending() + [e];
    AllOfAppend(st.Pending(), e);
  }

  /** A deleted entry goes before the added ones. */
  lemma DeleteGrows<T>(st: Builder<T>, e: Edit<T>)
    requires e.kind.Delete?
    requires st.b == |Source(st.context + st.Pending())| && st.d == |Target(st.context + st.Pending())|
    ensures var st' := AfterChange(st, e);
            && st'.b == |Source(st'.context + st'.Pending())| && st'.d == |Target(st'.context + st'.Pending())|
            && !AllOf(st'.Pending(), Common)
  {
    hide Elems;
    var st' := AfterChange(st, e);
    var before := st.context + st.change + st.deletes;
    Lengths(before, st.adds, e);
    assert st'.context + st'.Pending() == before + [e] + st.adds;
    assert st.context + st.Pending() == before + st.adds;
    assert st'.Pending()[|st.change + st.deletes|] == e;
  }

  lemma ChangeStep<T>(S: seq<Edit<T>>, i: nat, swapped: bool, numbered: bool, st: Builder<T>)
    requires i < |S| && Building(S, i, swapped, numbered, st) && !S[i].kind.Common?
    ensures Building(S, i + 1, swapped, numbered, AfterChange(st, S[i]))
  {
    hide Layout, Elems, Source, Target, Trailing, Settled, DeletesFirst, Numbered, NumberedAfter, AllOf;
    var e := S[i];
    assert S[..i + 1] == S[..i] + [e];
    ReorderChange(S[..i], e);
    if e.kind.Add? { AddGrows(st, e); } else { DeleteGrows(st, e); }
    if st.context == [] && !st.inside {
      assert st.hunks == [];
      assert Assemble(st.hunks, st.gaps) + st.gap == [];
    }
  }

  function AfterInside<T>(st: Builder<T>, e: Edit<T>): Builder<T> {
    st.(change := st.Pending() + [e], deletes := [], adds := [], b := st.b + 1, d := st.d + 1)
  }

  lemma InsideStep<T>(S: seq<Edit<T>>, i: nat, swapped: bool, numbered: bool, st: Builder<T>)
    requires i < |S| && Building(S, i, swapped, numbered, st) && S[i].kind.Common? && st.inside
    ensures Building(S, i + 1, swapped, numbered, AfterInside(st, S[i]))
  {
    hide Layout, Elems, Trailing, Settled, Assemble;
    var e := S[i];
    var st' := AfterInside(st, e);
    assert S[..i + 1] == S[..i] + [e];
    ReorderCommon(S[..i], e);
    assert st'.Pending() == st.Pending() + [e];
    AllOfAppend(st.Pending(), e);
    LengthsLast(st.context + st.Pending(), e);
    assert st'.context + st'.Pending() == (st.context + st.Pending()) + [e];
    var pre := Assemble(st.hunks, st.gaps) + st.gap + st.context;
    assert pre + (st.change + st.deletes + st.adds + [e]) == pre + st.change + st.deletes + st.adds + [e];
  }

  function AfterLead<T>(st: Builder<T>, e: Edit<T>, swapped: bool): Builder<T> {
    if |st.context| < CONTEXT_SIZE then
      var first := st.a == 0 && st.c == 0;
      st.(context := st.context + [e], b := st.b + 1, d := st.d + 1,
          a := if !first then st.a else if swapped then e.after else e.before,
          c := if !first then st.c else if swapped then e.before else e.after)
    else
      st.(gap := st.gap + [st.context[0]], context := st.context[1..] + [e], a := st.a + 1, c := st.c + 1)
  }

  /** Before any change, everything taken in is gap and context. */
  lemma LeadSettles<T>(S: seq<Edit<T>>, i: nat, swapped: bool, numbered: bool, st: Builder<T>)
    requires i < |S| && Building(S, i, swapped, numbered, st) && S[i].kind.Common? && !st.inside
    ensures st.change == [] && st.deletes == [] && st.adds == []
    ensures var done := Assemble(st.hunks, st.gaps) + st.gap + st.context;
            && Settled(S[..i + 1]) == done + [S[i]]
            && Trailing(S[..i + 1], Delete) == [] && Trailing(S[..i + 1], Add) == []
            && |Source(S[..i])| == |Source(done)| && |Target(S[..i])| == |Target(done)|
  {
    hide Layout, Elems, Trailing, Settled, Assemble, StartOk;
    assert S[..i + 1] == S[..i] + [S[i]];
    ReorderCommon(S[..i], S[i]);
    ReorderMeansTheSame(S[..i]);
    assert DeletesFirst(S[..i]) == Assemble(st.hunks, st.gaps) + st.gap + st.context;
  }

  lemma LeadGrows<T>(S: seq<Edit<T>>, i: nat, swapped: bool, numbered: bool, st: Builder<T>)
    requires i < |S| && Building(S, i, swapped, numbered, st) && S[i].kind.Common?
    requires !st.inside && |st.context| < CONTEXT_SIZE
    requires numbered ==> NumberedAfter(S[..i], S[i])
    ensures Building(S, i + 1, swapped, numbered, AfterLead(st, S[i], swapped))
  {
    hide Layout, Elems, Trailing, Settled, Assemble;
    var e := S[i];
    var st' := AfterLead(st, e, swapped);
    LeadSettles(S, i, swapped, numbered, st);
    var pre := Assemble(st.hunks, st.gaps) + st.gap;
    assert st.context + st.Pending() == st.context && st'.context + st'.Pending() == st'.context;
    LengthsLast(st.context, e);
    AllOfAppend(st.context, e);
    assert pre + (st.context + [e]) == pre + st.context + [e];
    assert st.context == [] ==> pre + st.context == pre;
  }

  lemma LeadSlides<T>(S: seq<Edit<T>>, i: nat, swapped: bool, numbered: bool, st: Builder<T>)
    requires i < |S| && Building(S, i, swapped, numbered, st) && S[i].kind.Common?
    requires !st.inside && |st.context| == CONTEXT_SIZE
    ensures Building(S, i + 1, swapped, numbered, AfterLead(st, S[i], swapped))
  {
    hide Layout, Elems, Trailing, Settled, Assemble;
    var e, x, rest := S[i], st.context[0], st.context[1..];
    var st' := AfterLead(st, e, swapped);
    LeadSettles(S, i, swapped, numbered, st);
    var done := Assemble(st.hunks, st.gaps);
    assert st.context + st.Pending() == [] + [x] + rest && st'.context + st'.Pending() == rest + [e];
    assert done + st.gap + [x] == done + st'.gap;
    assert done + st.gap + st.context + [e] == done + st'.gap + st'.context;
    AllOfAppend(st.gap, x);
    AllOfAppend(rest, e);
    LengthsLast(done + st.gap, x);
    Lengths([], rest, x);
    LengthsLast(rest, e);
    assert [] + rest == rest;
  }

  lemma LeadStep<T>(S: seq<Edit<T>>, i: nat, swapped: bool, numbered: bool, st: Builder<T>)
    requires i < |S| && Building(S, i, swapped, numbered, st) && S[i].kind.Common? && !st.inside
    requires numbered ==> NumberedAfter(S[..i], S[i])
    ensures Building(S, i + 1, swapped, numbered, AfterLead(st, S[i], swapped))
  {
    hide Building, AfterLead, NumberedAfter;
    BuildingParts(S, i, swapped, numbered, st);
    if |st.context| < CONTEXT_SIZE {
      LeadGrows(S, i, swapped, numbered, st);
    } else {
      LeadSlides(S, i, swapped, numbered, st);
    }
  }

  /** The builder after one more entry. */
  function Taken<T>(st: Builder<T>, e: Edit<T>, swapped: bool): Builder<T> {
    if !e.kind.Common? then AfterChange(st, e) else if st.inside then AfterInside(st, e) else AfterLead(st, e, swapped)
  }

  /** The hunk under construction, as it is emitted. */
  function Emitted<T>(st: Builder<T>, swapped: bool): Hunk<T> {
    var a, c := if st.a == 0 then 1 else st.a, if st.c == 0 then 1 else st.c;
    Hunk(if swapped then c else a, st.b, if swapped then a else c, st.d, st.context, st.Pending(), [], st.incDec)
  }

  function AfterEmit<T>(st: Builder<T>, swapped: bool): Builder<T> {
    Builder(st.hunks + [Emitted(st, swapped)], st.gaps + [st.gap], [], [], [], [], [], 0, 0, 0, 0, 0, false)
  }

  lemma EmitStep<T>(S: seq<Edit<T>>, i: nat, swapped: bool, numbered: bool, st: Builder<T>)
    requires i <= |S| && Building(S, i, swapped, numbered, st) && st.inside
    ensures var st' := AfterEmit(st, swapped);
            && |st'.gaps| == |st'.hunks| && Layout(st'.hunks, st'.gaps, numbered)
            && Assemble(st'.hunks, st'.gaps) == DeletesFirst(S[..i])
  {
    hide Layout, Elems, Trailing, Settled, Assemble;
    var h := Emitted(st, swapped);
    assert Body(h) == st.context + st.Pending();
    var pre := Assemble(st.hunks, st.gaps) + st.gap;
    assert pre + Body(h) == pre + st.context + st.change + st.deletes + st.adds;
    if numbered && st.context == [] { NoElems<T>(); }
    LayoutAppend(st.hunks, st.gaps, numbered, h, st.gap);
  }

  lemma NoElems<T>()
    ensures Source<T>([]) == [] && Target<T>([]) == []
  {
  }

  lemma EmitInside<T>(S: seq<Edit<T>>, i: nat, swapped: bool, numbered: bool, st: Builder<T>)
    requires i < |S| && Building(S, i, swapped, numbered, st) && st.inside
    requires st.deletes == [] && st.adds == [] && S[i].kind.Common?
    ensures Building(S, i, swapped, numbered, AfterEmit(st, swapped))
  {
    hide Layout, Elems, Trailing, Settled, Assemble;
    EmitStep(S, i, swapped, numbered, st);
    NoElems<T>();
    var st' := AfterEmit(st, swapped);
    assert st'.context + st'.Pending() == [] && st'.Pending() == [];
    assert Assemble(st'.hunks, st'.gaps) + [] + [] + [] == DeletesFirst(S[..i]);
    assert Settled(S[..i]) + [] + [] == Settled(S[..i]);
  }

  lemma BuildNothing<T>(S: seq<Edit<T>>, swapped: bool, numbered: bool)
    ensures Building(S, 0, swapped, numbered, Builder([], [], [], [], [], [], [], 0, 0, 0, 0, 0, false))
  {
  }

  lemma BuildingParts<T>(S: seq<Edit<T>>, i: nat, swapped: bool, numbered: bool, st: Builder<T>)
    requires i <= |S| && Building(S, i, swapped, numbered, st)
    ensures st.inside <==> st.change != [] || st.deletes != [] || st.adds != []
    ensures |st.context| <= CONTEXT_SIZE
  {
  }
}
