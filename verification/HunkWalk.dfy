/**
 * Patching a list with hunks: the cursor walks from hunk to hunk by their line numbers.
 */
module HunkWalk {
  import opened EditScript
  import opened HunkGroups
  import opened Hunks
  import opened Options
  import opened Patches

  /** A list under edit and the position in it. */
  datatype Cursor<+T> = Cursor(lst: seq<T>, pos: nat)

  function EntryApplied<T>(e: Edit<T>, at: Cursor<T>): (r: Cursor<T>)
    requires at.pos <= |at.lst|
    ensures r.pos <= |r.lst|
  {
    match e.kind
    case Add => Cursor(at.lst[..at.pos] + [e.elem] + at.lst[at.pos..], at.pos + 1)
    case Delete => if at.pos == |at.lst| then at else Cursor(at.lst[..at.pos] + at.lst[at.pos + 1..], at.pos)
    case Common => if at.pos == |at.lst| then at else Cursor(at.lst, at.pos + 1)
  }

  function Applied<T>(s: seq<Edit<T>>, at: Cursor<T>): (r: Cursor<T>)
    requires at.pos <= |at.lst|
    ensures r.pos <= |r.lst|
  {
    if s == [] then at else EntryApplied(s[|s| - 1], Applied(s[..|s| - 1], at))
  }

  /** The line number after the last of the hunks. */
  function EndOf<T>(hunks: seq<Hunk<T>>): int {
    if hunks == [] then 1 else hunks[|hunks| - 1].a + hunks[|hunks| - 1].b
  }

  /** How far the cursor walks before the last hunk; it never walks back. */
  function Skip<T>(hunks: seq<Hunk<T>>): nat
    requires hunks != []
  {
    var steps := hunks[|hunks| - 1].a - EndOf(hunks[..|hunks| - 1]);
    if steps < 0 then 0 else steps
  }

  /** What the hunks make of a list, unless the cursor leaves it. */
  function Walk<T>(hunks: seq<Hunk<T>>, input: seq<T>): (r: Option<Cursor<T>>)
    ensures r.Some? ==> r.value.pos <= |r.value.lst|
  {
    if hunks == [] then Some(Cursor(input, 0))
    else
      match Walk(hunks[..|hunks| - 1], input)
      case None => None
      case Some(at) =>
        if at.pos + Skip(hunks) > |at.lst| then None
        else Some(Applied(Body(hunks[|hunks| - 1]), Cursor(at.lst, at.pos + Skip(hunks))))
  }

  lemma {:induction false} WalkPrefix<T>(hunks: seq<Hunk<T>>, j: nat, input: seq<T>)
    requires j <= |hunks| && Walk(hunks, input).Some?
    ensures Walk(hunks[..j], input).Some?
    decreases |hunks|
  {
    hide Applied, Skip;
    if j == |hunks| {
      assert hunks[..j] == hunks;
    } else {
      WalkPrefix(hunks[..|hunks| - 1], j, input);
      assert hunks[..|hunks| - 1][..j] == hunks[..j];
    }
  }

  /** One hunk of a walk that stays inside the list. */
  lemma WalkStep<T>(hunks: seq<Hunk<T>>, j: nat, input: seq<T>)
    requires j < |hunks| && Walk(hunks, input).Some?
    ensures Walk(hunks[..j], input).Some? && Walk(hunks[..j + 1], input).Some?
    ensures var at, skip := Walk(hunks[..j], input).value, Skip(hunks[..j + 1]);
            && at.pos + skip <= |at.lst|
            && Walk(hunks[..j + 1], input).value == Applied(Body(hunks[j]), Cursor(at.lst, at.pos + skip))
  {
    hide Applied, Skip;
    WalkPrefix(hunks, j, input);
    WalkPrefix(hunks, j + 1, input);
    assert hunks[..j + 1][..j] == hunks[..j];
  }

  /** Applies a script to a list, entry by entry, from position pos0 on. */
  method ApplyEntries<T>(lst0: seq<T>, pos0: nat, script: seq<Edit<T>>) returns (lst: seq<T>, pos: nat)
    requires pos0 <= |lst0|
    ensures Cursor(lst, pos) == Applied(script, Cursor(lst0, pos0))
  {
    lst, pos := lst0, pos0;
    var i := 0;
    while i < |script|
      invariant 0 <= i <= |script| && pos <= |lst|
      invariant Cursor(lst, pos) == Applied(script[..i], Cursor(lst0, pos0))
    {
      assert script[..i + 1][..i] == script[..i];
      match script[i].kind {
        case Add =>
          lst := lst[..pos] + [script[i].elem] + lst[pos..];
          pos := pos + 1;
        case Delete =>
          if pos != |lst| {
            lst := lst[..pos] + lst[pos + 1..];
          }
        case Common =>
          if pos != |lst| {
            pos := pos + 1;
          }
      }
      i := i + 1;
    }
    assert script[..i] == script;
  }

  /** The line number a of a hunk, moved on by the counts of the hunks before it. */
  function MovedOn<T>(hunks: seq<Hunk<T>>, j: nat): Hunk<T>
    requires j < |hunks|
  {
    hunks[j].(a := hunks[j].a + TotalIncDec(hunks[..j]))
  }

  lemma WalkNothing<T>(input: seq<T>)
    ensures Walk([], input) == Some(Cursor(input, 0))
  {
  }

  /** Patches a list with hunks, whose line numbers a are moved on. */
  method PatchHunks<T>(hunks: seq<Hunk<T>>, input: seq<T>) returns (lst: seq<T>, moved: seq<Hunk<T>>)
    requires Walk(hunks, input).Some?
    ensures lst == Walk(hunks, input).value.lst
    ensures |moved| == |hunks| && forall j :: 0 <= j < |hunks| ==> moved[j] == MovedOn(hunks, j)
  {
    hide Applied, Walk;
    lst, moved := input, [];
    var pos: nat := 0;
    var incDecTotal, gap, j := 0, 1, 0;
    assert hunks[..0] == [];
    WalkNothing(input);
    while j < |hunks|
      invariant 0 <= j <= |hunks| && |moved| == j && pos <= |lst|
      invariant forall m :: 0 <= m < j ==> moved[m] == MovedOn(hunks, m)
      invariant Walk(hunks[..j], input) == Some(Cursor(lst, pos))
      invariant incDecTotal == TotalIncDec(hunks[..j]) && gap == EndOf(hunks[..j]) + incDecTotal
    {
      var it := hunks[j];
      WalkStep(hunks, j, input);
      assert hunks[..j + 1][..j] == hunks[..j];
      var shunk := it.before + it.change + it.after;
      it := it.(a := it.a + incDecTotal);
      incDecTotal := incDecTotal + it.incDecCount;
      ghost var start := pos;
      var i := 0;
      while i < it.a - gap
        invariant 0 <= i <= Skip(hunks[..j + 1]) && pos == start + i
      {
        pos := pos + 1;
        i := i + 1;
      }
      gap := it.a + it.b + it.incDecCount;
      lst, pos := ApplyEntries(lst, pos, shunk);
      moved := moved + [it];
      j := j + 1;
    }
    assert hunks[..j] == hunks;
  }

  // ----- when the hunks do what the script does -----

  /** Applied where it belongs, a script does what it says. */
  lemma {:induction false} AppliedIsPatched<T>(done: seq<Edit<T>>, s: seq<Edit<T>>, input: seq<T>)
    requires |Source(done + s)| <= |input|
    ensures |Source(done)| <= |input| && |Target(done)| <= |Patched(done, input)|
    ensures Applied(s, Cursor(Patched(done, input), |Target(done)|))
         == Cursor(Patched(done + s, input), |Target(done + s)|)
    decreases |s|
  {
    hide Elems, Replay;
    SourcePrefix(done, s);
    if s == [] {
      assert done + s == done;
    } else {
      var s', e := s[..|s| - 1], s[|s| - 1];
      assert done + s == (done + s') + [e];
      SourcePrefix(done + s', [e]);
      AppliedIsPatched(done, s', input);
      PatchStep(done + s', e, input);
    }
  }

  /** The line numbers say how many kept entries lie before each hunk. */
  ghost predicate Reached<T>(hunks: seq<Hunk<T>>, gaps: seq<seq<Edit<T>>>) {
    |gaps| == |hunks| && forall j :: 0 <= j < |hunks| ==> Skip(hunks[..j + 1]) == |gaps[j]|
  }

  /** Every hunk before the one at j has been applied, and the cursor stands where that one starts. */
  ghost predicate StandsAt<T>(hunks: seq<Hunk<T>>, gaps: seq<seq<Edit<T>>>, input: seq<T>, j: nat)
    requires j < |hunks| == |gaps|
  {
    && Walk(hunks[..j], input).Some?
    && Walk(hunks[..j], input).value.pos + Skip(hunks[..j + 1])
       == |Target(Assemble(hunks[..j], gaps[..j]) + gaps[j])|
  }

  /** With such line numbers the walk replays the first j hunks. */
  lemma {:induction false} WalkIsPatched<T>(hunks: seq<Hunk<T>>, gaps: seq<seq<Edit<T>>>, numbered: bool, input: seq<T>,
                                            j: nat)
    requires Layout(hunks, gaps, numbered) && |Source(Assemble(hunks, gaps))| <= |input| && j <= |hunks| == |gaps|
    requires forall m :: 0 <= m < j ==> Skip(hunks[..m + 1]) == |gaps[m]|
    ensures var done := Assemble(hunks[..j], gaps[..j]);
            |Source(done)| <= |input| && Walk(hunks[..j], input) == Some(Cursor(Patched(done, input), |Target(done)|))
  {
    hide Elems, Replay, Patched, Layout, Assemble, Applied, Skip, Counted;
    if j == 0 {
      NothingPatched(input);
      AssembleNothing<T>();
      WalkNothing(input);
      assert hunks[..0] == [] && gaps[..0] == [];
    } else {
      var k := j - 1;
      WalkIsPatched(hunks, gaps, numbered, input, k);
      LayoutPrefix(hunks, gaps, numbered, k);
      var done := Assemble(hunks[..k], gaps[..k]);
      CommonLengths(done, gaps[k]);
      SourcePrefix(done + gaps[k], Body(hunks[k]));
      PatchedCommon(done, gaps[k], input);
      AppliedIsPatched(done + gaps[k], Body(hunks[k]), input);
      assert hunks[..j][..k] == hunks[..k];
    }
  }

  /** The cursor finds every hunk exactly if the line numbers are such. */
  lemma {:induction false} CursorIsRight<T>(hunks: seq<Hunk<T>>, gaps: seq<seq<Edit<T>>>, numbered: bool, input: seq<T>)
    requires Layout(hunks, gaps, numbered) && |gaps| == |hunks| && |Source(Assemble(hunks, gaps))| <= |input|
    ensures Reached(hunks, gaps) <==> forall j :: 0 <= j < |hunks| ==> StandsAt(hunks, gaps, input, j)
  {
    hide Elems, Replay, Patched, Layout, Assemble, Walk, Skip, Counted;
    if forall j :: 0 <= j < |hunks| ==> StandsAt(hunks, gaps, input, j) {
      var n := 0;
      while n < |hunks|
        invariant 0 <= n <= |hunks|
        invariant forall m :: 0 <= m < n ==> Skip(hunks[..m + 1]) == |gaps[m]|
      {
        WalkIsPatched(hunks, gaps, numbered, input, n);
        LayoutPrefix(hunks, gaps, numbered, n);
        CommonLengths(Assemble(hunks[..n], gaps[..n]), gaps[n]);
        assert StandsAt(hunks, gaps, input, n);
        n := n + 1;
      }
    }
    if Reached(hunks, gaps) {
      forall j | 0 <= j < |hunks| ensures StandsAt(hunks, gaps, input, j) {
        WalkIsPatched(hunks, gaps, numbered, input, j);
        LayoutPrefix(hunks, gaps, numbered, j);
        CommonLengths(Assemble(hunks[..j], gaps[..j]), gaps[j]);
      }
    }
  }

  lemma LayoutSizes<T>(hunks: seq<Hunk<T>>, gaps: seq<seq<Edit<T>>>, numbered: bool)
    requires Layout(hunks, gaps, numbered)
    ensures |gaps| == |hunks|
  {
  }

  /** In a numbered grouping they are. */
  lemma {:induction false} PlacedIsReached<T>(hunks: seq<Hunk<T>>, gaps: seq<seq<Edit<T>>>)
    requires Layout(hunks, gaps, true)
    ensures Reached(hunks, gaps)
  {
    hide Elems, Layout, Assemble;
    LayoutSizes(hunks, gaps, true);
    forall j | 0 <= j < |hunks| ensures Skip(hunks[..j + 1]) == |gaps[j]| {
      LayoutPrefix(hunks, gaps, true, j);
      var done := Assemble(hunks[..j], gaps[..j]);
      CommonLengths(done, gaps[j]);
      assert hunks[..j + 1][..j] == hunks[..j];
      if j == 0 {
        AssembleNothing<T>();
        NoElems<T>();
        assert hunks[..j] == [] && gaps[..j] == [];
      } else {
        LayoutPrefix(hunks, gaps, true, j - 1);
        HunkLengths(hunks[j - 1], Assemble(hunks[..j - 1], gaps[..j - 1]) + gaps[j - 1]);
      }
    }
  }

  /** The cursor finds the hunks of a numbered grouping, and every line number a becomes c. */
  lemma PlacedMovesOn<T>(hunks: seq<Hunk<T>>, gaps: seq<seq<Edit<T>>>)
    requires Layout(hunks, gaps, true)
    ensures Reached(hunks, gaps)
    ensures forall j :: 0 <= j < |hunks| ==> MovedOn(hunks, j) == hunks[j].(a := hunks[j].c)
  {
    hide Layout, Reached;
    PlacedIsReached(hunks, gaps);
    forall j | 0 <= j < |hunks| ensures MovedOn(hunks, j) == hunks[j].(a := hunks[j].c) {
      HunkNumbers(hunks, gaps, j);
    }
  }

  /** Patching a list with the hunks of a script does to it what the script does, if the cursor finds the hunks. */
  lemma ReachedPatches<T>(S: seq<Edit<T>>, hunks: seq<Hunk<T>>, gaps: seq<seq<Edit<T>>>, tail: seq<Edit<T>>,
                          input: seq<T>)
    requires GroupedBy(S, hunks, gaps, tail) && |Source(S)| <= |input|
    requires Numbered(S) || Reached(hunks, gaps)
    ensures Reached(hunks, gaps)
    ensures Walk(hunks, input).Some? && Walk(hunks, input).value.lst == Patched(S, input)
    ensures Source(S) == input ==> Patched(S, input) == Target(S)
    ensures Numbered(S) ==> forall j :: 0 <= j < |hunks| ==> MovedOn(hunks, j) == hunks[j].(a := hunks[j].c)
  {
    hide Elems, Replay, Patched, Layout, Assemble, Walk, Skip, DeletesFirst, MovedOn, Numbered;
    GroupingPatches(S, hunks, gaps, tail, input);
    if Numbered(S) { PlacedMovesOn(hunks, gaps); }
    WalkIsPatched(hunks, gaps, Numbered(S), input, |hunks|);
    assert hunks[..|hunks|] == hunks && gaps[..|hunks|] == gaps;
  }
}
