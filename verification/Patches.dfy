/** Replaying scripts and hunks on a list. */
module Patches {
  import opened EditScript
  import opened HunkGroups
  import opened Hunks

  /** The list that the script makes of the first |Source(s)| elements of input. */
  function Replay<T>(s: seq<Edit<T>>, input: seq<T>): (r: seq<T>)
    requires |Source(s)| <= |input|
    ensures |r| == |Target(s)|
  {
    if s == [] then []
    else
      var s', e := s[..|s| - 1], s[|s| - 1];
      match e.kind
      case Delete => Replay(s', input)
      case Add => Replay(s', input) + [e.elem]
      case Common => Replay(s', input) + [input[|Source(s')|]]
  }

  /** Replayed on what it starts from, a script gives what it is for. */
  lemma {:induction false} ReplaySource<T>(s: seq<Edit<T>>, input: seq<T>)
    requires Source(s) <= input
    ensures Replay(s, input) == Target(s)
    decreases |s|
  {
    if s == [] {
    } else {
      var s' := s[..|s| - 1];
      assert Source(s') <= Source(s);
      ReplaySource(s', input);
    }
  }

  /** The list after replaying the first entries: what they made, then the untouched rest. */
  function Patched<T>(s: seq<Edit<T>>, input: seq<T>): seq<T>
    requires |Source(s)| <= |input|
  {
    Replay(s, input) + input[|Source(s)|..]
  }

  lemma ReplayAppend<T>(s: seq<Edit<T>>, e: Edit<T>, input: seq<T>)
    requires |Source(s + [e])| <= |input|
    ensures |Source(s)| <= |input| && (!e.kind.Add? ==> |Source(s)| < |input|)
    ensures Replay(s + [e], input) == Replay(s, input) + (match e.kind
                                                          case Delete => []
                                                          case Add => [e.elem]
                                                          case Common => [input[|Source(s)|]])
  {
    LengthsLast(s, e);
    assert (s + [e])[..|s|] == s;
  }

  /** One entry, applied to the list at the position that the entries before it have reached. */
  lemma PatchStep<T>(s: seq<Edit<T>>, e: Edit<T>, input: seq<T>)
    requires |Source(s + [e])| <= |input|
    ensures |Source(s)| <= |input|
    ensures var lst, pos := Patched(s, input), |Target(s)|;
            && pos <= |lst| && (!e.kind.Add? ==> pos < |lst|)
            && Patched(s + [e], input) == (match e.kind
                 case Add => lst[..pos] + [e.elem] + lst[pos..]
                 case Delete => lst[..pos] + lst[pos + 1..]
                 case Common => lst)
            && |Target(s + [e])| == (if e.kind.Delete? then pos else pos + 1)
  {
    hide Elems, Replay;
    ReplayAppend(s, e, input);
    LengthsLast(s, e);
    var lst, pos, q := Patched(s, input), |Target(s)|, |Source(s)|;
    assert lst[..pos] == Replay(s, input) && lst[pos..] == input[q..];
    if !e.kind.Add? {
      assert lst[pos + 1..] == input[q + 1..] && input[q..] == [input[q]] + input[q + 1..];
    }
  }

  lemma SourcePrefix<T>(s: seq<Edit<T>>, t: seq<Edit<T>>)
    ensures |Source(s)| <= |Source(s + t)|
  {
    ElemsConcat(s, t, {Delete, Common});
  }

  /** Patches a list with a whole script. */
  method PatchScript<T>(script: seq<Edit<T>>, input: seq<T>) returns (lst: seq<T>)
    requires |Source(script)| <= |input|
    ensures lst == Patched(script, input)
    ensures input == Source(script) ==> lst == Target(script)
  {
    hide Elems, Replay, Patched;
    lst := input;
    var pos, i := 0, 0;
    NothingPatched(input);
    while i < |script|
      invariant 0 <= i <= |script| && |Source(script[..i])| <= |input|
      invariant lst == Patched(script[..i], input) && pos == |Target(script[..i])|
    {
      var e := script[i];
      assert script[..i + 1] == script[..i] + [e] && script == script[..i + 1] + script[i + 1..];
      SourcePrefix(script[..i + 1], script[i + 1..]);
      PatchStep(script[..i], e, input);
      match e.kind {
        case Add =>
          lst := lst[..pos] + [e.elem] + lst[pos..];
          pos := pos + 1;
        case Delete =>
          lst := lst[..pos] + lst[pos + 1..];
        case Common =>
          pos := pos + 1;
      }
      i := i + 1;
    }
    assert script[..i] == script;
    if input == Source(script) { PatchedSource(script); }
  }

  lemma NothingPatched<T>(input: seq<T>)
    ensures |Source<T>([])| == 0 == |Target<T>([])| && Patched([], input) == input
  {
  }

  lemma PatchedSource<T>(script: seq<Edit<T>>)
    ensures Patched(script, Source(script)) == Target(script)
  {
    ReplaySource(script, Source(script));
  }

  /** Kept entries leave the list alone. */
  lemma {:induction false} PatchedCommon<T>(s: seq<Edit<T>>, gap: seq<Edit<T>>, input: seq<T>)
    requires AllOf(gap, Common) && |Source(s + gap)| <= |input|
    ensures |Source(s)| <= |input| && Patched(s + gap, input) == Patched(s, input)
    decreases |gap|
  {
    hide Elems, Replay, Patched;
    if gap == [] {
      assert s + gap == s;
    } else {
      var g := gap[..|gap| - 1];
      assert s + gap == (s + g) + [gap[|gap| - 1]];
      SourcePrefix(s + g, [gap[|gap| - 1]]);
      PatchedCommon(s, g, input);
      PatchStep(s + g, gap[|gap| - 1], input);
    }
  }

  /** Every prefix of a layout is one, and its script is a prefix of the whole. */
  lemma {:induction false} LayoutPrefix<T>(hunks: seq<Hunk<T>>, gaps: seq<seq<Edit<T>>>, numbered: bool, j: nat)
    requires Layout(hunks, gaps, numbered) && j < |hunks|
    ensures |gaps| == |hunks| && Layout(hunks[..j], gaps[..j], numbered)
    ensures AllOf(gaps[j], Common) && Counted(hunks[j])
    ensures numbered ==> Placed(hunks[j], Assemble(hunks[..j], gaps[..j]) + gaps[j])
    ensures Assemble(hunks[..j + 1], gaps[..j + 1]) == Assemble(hunks[..j], gaps[..j]) + gaps[j] + Body(hunks[j])
    ensures |Source(Assemble(hunks[..j + 1], gaps[..j + 1]))| <= |Source(Assemble(hunks, gaps))|
    decreases |hunks|
  {
    hide Elems, Counted, Placed, AllOf;
    var k := |hunks| - 1;
    if j < k {
      LayoutPrefix(hunks[..k], gaps[..k], numbered, j);
      assert hunks[..k][..j] == hunks[..j] && hunks[..k][..j + 1] == hunks[..j + 1];
      assert gaps[..k][..j] == gaps[..j] && gaps[..k][..j + 1] == gaps[..j + 1];
      SourcePrefix(Assemble(hunks[..k], gaps[..k]), gaps[k]);
      SourcePrefix(Assemble(hunks[..k], gaps[..k]) + gaps[k], Body(hunks[k]));
    } else {
      assert hunks[..j + 1] == hunks && gaps[..j + 1] == gaps;
      assert hunks[..j + 1][..j] == hunks[..j] && gaps[..j + 1][..j] == gaps[..j];
    }
  }

  lemma AssembleNothing<T>()
    ensures Assemble<T>([], []) == []
  {
  }

  /** Additions at the end of a script only add their elements. */
  lemma {:induction false} ReplayAdds<T>(s: seq<Edit<T>>, adds: seq<Edit<T>>, input: seq<T>)
    requires AllOf(adds, Add) && |Source(s)| <= |input|
    ensures |Source(s + adds)| == |Source(s)| && Replay(s + adds, input) == Replay(s, input) + Elems(adds, {Add})
    decreases |adds|
  {
    hide Replay;
    if adds == [] {
      assert s + adds == s;
    } else {
      var adds', e := adds[..|adds| - 1], adds[|adds| - 1];
      ReplayAdds(s, adds', input);
      assert s + adds == (s + adds') + [e] && adds == adds' + [e];
      LengthsLast(s + adds', e);
      ReplayAppend(s + adds', e, input);
      ElemsAppend(adds', e, {Add});
    }
  }

  /** A deletion may be put before the additions that precede it. */
  lemma DeleteFirst<T>(s: seq<Edit<T>>, adds: seq<Edit<T>>, e: Edit<T>, input: seq<T>)
    requires AllOf(adds, Add) && e.kind.Delete? && |Source(s + [e])| <= |input|
    ensures |Source(s + adds)| == |Source(s)| <= |input| && |Source(s + [e] + adds)| <= |input|
    ensures Replay(s + [e] + adds, input) == Replay(s + adds, input)
  {
    hide Elems, Replay;
    LengthsLast(s, e);
    ReplayAppend(s, e, input);
    ReplayAdds(s, adds, input);
    ReplayAdds(s + [e], adds, input);
  }

  /** The reordered script does to a list what the script does, whatever the list. */
  lemma {:induction false} ReplayReordered<T>(s: seq<Edit<T>>, input: seq<T>)
    requires |Source(s)| <= |input|
    ensures |Source(DeletesFirst(s))| == |Source(s)| && Replay(DeletesFirst(s), input) == Replay(s, input)
    decreases |s|
  {
    hide Elems, Replay, Settled, Trailing, DeletesFirst;
    ReorderMeansTheSame(s);
    if s == [] {
      NothingReordered<T>();
    } else {
      var s', e := s[..|s| - 1], s[|s| - 1];
      assert s == s' + [e];
      LengthsLast(s', e);
      ReplayReordered(s', input);
      ReorderMeansTheSame(s');
      ReplayAppend(s', e, input);
      ReorderedOneMore(s', e);
      if e.kind.Delete? {
        var kept, adds := Settled(s') + Trailing(s', Delete), Trailing(s', Add);
        TrailingAdds(s');
        SourcePrefix(kept, adds);
        ReplayAdds(kept, adds, input);
        LengthsLast(kept, e);
        DeleteFirst(kept, adds, e, input);
      } else {
        LengthsLast(DeletesFirst(s'), e);
        ReplayAppend(DeletesFirst(s'), e, input);
      }
    }
  }

  lemma TrailingAdds<T>(s: seq<Edit<T>>)
    ensures AllOf(Trailing(s, Add), Add)
  {
    TrailingKind(s, Add);
  }

  lemma ReorderedParts<T>(s: seq<Edit<T>>)
    ensures DeletesFirst(s) == Settled(s) + Trailing(s, Delete) + Trailing(s, Add)
  {
  }

  lemma ReorderedOneMore<T>(s: seq<Edit<T>>, e: Edit<T>)
    ensures DeletesFirst(s) == Settled(s) + Trailing(s, Delete) + Trailing(s, Add)
    ensures DeletesFirst(s + [e]) == if e.kind.Delete? then Settled(s) + Trailing(s, Delete) + [e] + Trailing(s, Add)
                                     else DeletesFirst(s) + [e]
  {
    hide Settled, Trailing, DeletesFirst;
    ReorderedParts(s);
    ReorderedParts(s + [e]);
    if e.kind.Common? {
      ReorderCommon(s, e);
    } else {
      ReorderChange(s, e);
    }
  }

  /** Patching a list with the hunks of a script does to it what the script does. */
  lemma GroupingPatches<T>(S: seq<Edit<T>>, hunks: seq<Hunk<T>>, gaps: seq<seq<Edit<T>>>, tail: seq<Edit<T>>,
                           input: seq<T>)
    requires GroupedBy(S, hunks, gaps, tail) && |Source(S)| <= |input|
    ensures |Source(Assemble(hunks, gaps))| <= |input|
    ensures Patched(Assemble(hunks, gaps), input) == Patched(S, input)
    ensures Source(S) == input ==> Patched(S, input) == Target(S)
  {
    hide Elems, Replay, Layout, Assemble, Settled, Trailing;
    ReplayReordered(S, input);
    SourcePrefix(Assemble(hunks, gaps), tail);
    PatchedCommon(Assemble(hunks, gaps), tail, input);
    if Source(S) == input { PatchedSource(S); }
  }
}
