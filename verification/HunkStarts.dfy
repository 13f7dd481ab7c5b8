/**
 * The hunks of a script as a function, turn by turn of the loop that groups it, and the line
 * numbers they start from.
 */
module HunkStarts {
  import opened EditScript
  import opened Hunks
  import opened HunkSpacing

  function Start<T>(): Builder<T> { Builder([], [], [], [], [], [], [], 0, 0, 0, 0, 0, false) }

  /** One turn of the loop: the builder and the counter after entry i. */
  function Turn<T>(S: seq<Edit<T>>, i: nat, swapped: bool, st: Builder<T>, middle: int): (Builder<T>, int)
    requires i < |S|
  {
    var e := S[i];
    var st' := Taken(st, e, swapped);
    var middle' := if !e.kind.Common? then 0 else if st.inside then middle + 1 else middle;
    if !st'.inside || (i + 1 < |S| && !(e.kind.Common? && middle' >= SEPARATE_SIZE)) then (st', middle')
    else if i + 1 == |S| || Ahead(S, i + 1) then (AfterEmit(st', swapped), 0)
    else (st', 0)
  }

  /** The builder and the counter after the first i entries. */
  function BuiltTo<T>(S: seq<Edit<T>>, i: nat, swapped: bool): (Builder<T>, int)
    requires i <= |S|
  {
    if i == 0 then (Start(), 0)
    else var before := BuiltTo(S, i - 1, swapped); Turn(S, i - 1, swapped, before.0, before.1)
  }

  function HunksOf<T>(S: seq<Edit<T>>, swapped: bool): seq<Hunk<T>> { BuiltTo(S, |S|, swapped).0.hunks }

  function GapsOf<T>(S: seq<Edit<T>>, swapped: bool): seq<seq<Edit<T>>> { BuiltTo(S, |S|, swapped).0.gaps }

  function TailOf<T>(S: seq<Edit<T>>, swapped: bool): seq<Edit<T>> {
    var st := BuiltTo(S, |S|, swapped).0;
    st.gap + st.context
  }

  lemma BuildStart<T>(S: seq<Edit<T>>, swapped: bool)
    ensures BuiltTo(S, 0, swapped) == (Start(), 0)
  {
  }

  lemma BuildStep<T>(S: seq<Edit<T>>, i: nat, swapped: bool)
    requires i < |S|
    ensures BuiltTo(S, i + 1, swapped) == Turn(S, i, swapped, BuiltTo(S, i, swapped).0, BuiltTo(S, i, swapped).1)
  {
  }

  // ----- line numbers -----

  /** Every kept entry carries line numbers. */
  predicate KeptAreNumbered<T>(S: seq<Edit<T>>) {
    forall i :: 0 <= i < |S| && S[i].kind.Common? ==> S[i].before > 0 && S[i].after > 0
  }

  /** The hunk starts as many lines after the first kept entry before it as its gap is long, or at line 1. */
  predicate StartsBy<T>(h: Hunk<T>, gap: seq<Edit<T>>) {
    var lead := gap + h.before;
    if lead == [] then h.a == 1 == h.c else h.a == lead[0].before + |gap| && h.c == lead[0].after + |gap|
  }

  predicate AllStart<T>(hunks: seq<Hunk<T>>, gaps: seq<seq<Edit<T>>>) {
    |gaps| == |hunks| && forall j :: 0 <= j < |hunks| ==> StartsBy(hunks[j], gaps[j])
  }

  /** The numbers of the hunk under construction, which are still 0 as long as it has no context. */
  predicate Starting<T>(st: Builder<T>, swapped: bool) {
    var lead := st.gap + st.context;
    var a, c := if swapped then st.c else st.a, if swapped then st.a else st.c;
    && AllStart(st.hunks, st.gaps)
    && if lead == [] then a == 0 == c
       else lead[0].before > 0 && lead[0].after > 0 && a == lead[0].before + |st.gap| && c == lead[0].after + |st.gap|
  }

  lemma TakenStarts<T>(st: Builder<T>, e: Edit<T>, swapped: bool)
    requires Starting(st, swapped) && (e.kind.Common? ==> e.before > 0 && e.after > 0)
    ensures Starting(Taken(st, e, swapped), swapped)
  {
    hide AllStart;
    var st' := Taken(st, e, swapped);
    var lead := st.gap + st.context;
    if e.kind.Common? && !st.inside {
      assert st'.gap + st'.context == lead + [e];
      if |st.context| < CONTEXT_SIZE && lead != [] { assert st.a != 0; }
    }
  }

  lemma EmitStarts<T>(st: Builder<T>, swapped: bool)
    requires Starting(st, swapped)
    ensures Starting(AfterEmit(st, swapped), swapped)
  {
    assert StartsBy(Emitted(st, swapped), st.gap);
  }

  /** The loop's line numbers, for every script whose kept entries have some. */
  lemma {:induction false} BuiltStarts<T>(S: seq<Edit<T>>, i: nat, swapped: bool)
    requires KeptAreNumbered(S) && i <= |S|
    ensures Starting(BuiltTo(S, i, swapped).0, swapped)
  {
    hide Starting, Taken, AfterEmit;
    if i == 0 {
      NothingStarts<T>(swapped);
    } else {
      BuiltStarts(S, i - 1, swapped);
      var before := BuiltTo(S, i - 1, swapped);
      TakenStarts(before.0, S[i - 1], swapped);
      EmitStarts(Taken(before.0, S[i - 1], swapped), swapped);
    }
  }

  lemma NothingStarts<T>(swapped: bool)
    ensures Starting<T>(Start(), swapped)
  {
  }

  /** Every hunk of a script starts by the numbers of the kept entries before it. */
  lemma HunksStart<T>(S: seq<Edit<T>>, swapped: bool)
    requires KeptAreNumbered(S)
    ensures AllStart(HunksOf(S, swapped), GapsOf(S, swapped))
  {
    BuiltStarts(S, |S|, swapped);
  }
}
