/**
 * Patching with the hunks of a composed script never runs off the list, even where a comparison
 * that started over has numbered its entries from 1 again: the cursor is late, never early.
 */
module CursorBounds {
  import opened EditScript
  import opened HunkGroups
  import opened HunkSpacing
  import opened HunkStarts
  import opened HunkWalk
  import opened Hunks
  import opened Options
  import opened Patches
  import opened Recording

  // ----- line numbers that may fall back, but never run ahead -----

  /** The line number that a kept entry after s has at most. */
  function Due<T>(s: seq<Edit<T>>): int {
    if s == [] then 1
    else
      match s[|s| - 1].kind
      case Delete => Due(s[..|s| - 1]) + 1
      case Add => Due(s[..|s| - 1])
      case Common => s[|s| - 1].before + 1
  }

  /** No kept entry runs ahead. */
  predicate Climbs<T>(s: seq<Edit<T>>) {
    s == [] || (Climbs(s[..|s| - 1]) && (s[|s| - 1].kind.Common? ==> 0 < s[|s| - 1].before <= Due(s[..|s| - 1])))
  }

  lemma ClimbStep<T>(s: seq<Edit<T>>, e: Edit<T>)
    ensures Climbs(s + [e]) <==> Climbs(s) && (e.kind.Common? ==> 0 < e.before <= Due(s))
    ensures Due(s + [e]) == match e.kind case Delete => Due(s) + 1 case Add => Due(s) case Common => e.before + 1
  {
    assert (s + [e])[..|s|] == s;
  }

  lemma {:induction false} ClimbsPrefix<T>(s: seq<Edit<T>>, i: nat)
    requires Climbs(s) && i <= |s|
    ensures Climbs(s[..i]) && Due(s[..i]) >= 1
    ensures i < |s| && s[i].kind.Common? ==> 0 < s[i].before <= Due(s[..i])
    decreases |s|
  {
    if i < |s| {
      ClimbsPrefix(s[..|s| - 1], i);
      assert s[..|s| - 1][..i] == s[..i];
    } else {
      assert s[..i] == s;
      if s != [] {
        ClimbsPrefix(s[..|s| - 1], |s| - 1);
        assert s[..|s| - 1][..|s| - 1] == s[..|s| - 1];
      }
    }
  }

  /** Every source line raises what is due by one at most. */
  lemma {:induction false} DueGrows<T>(p: seq<Edit<T>>, q: seq<Edit<T>>)
    requires Climbs(p + q)
    ensures Due(p + q) <= Due(p) + |Source(q)|
    decreases |q|
  {
    hide Elems, Climbs, Due;
    if q == [] {
      assert p + q == p;
    } else {
      var q', e := q[..|q| - 1], q[|q| - 1];
      assert p + q == (p + q') + [e] && q == q' + [e];
      ClimbStep(p + q', e);
      DueGrows(p, q');
      LengthsLast(q', e);
    }
  }

  /** The same from a kept entry on. */
  lemma DueFrom<T>(p: seq<Edit<T>>, q: seq<Edit<T>>)
    requires Climbs(p + q) && q != [] && q[0].kind.Common?
    ensures Due(p + q) <= q[0].before + |Source(q)| && q[0].before <= Due(p)
  {
    hide Elems, Climbs, Due;
    var q' := q[1..];
    assert p + q == (p + [q[0]]) + q' && [] + [q[0]] + q' == q && [] + q' == q';
    ClimbsPrefix(p + q, |p|);
    assert (p + q)[..|p|] == p && (p + q)[|p|] == q[0];
    ClimbStep(p, q[0]);
    DueGrows(p + [q[0]], q');
    Lengths([], q', q[0]);
  }

  /** A part numbered from 1 may follow anything. */
  lemma {:induction false} PassClimbs<T(!new)>(base: seq<Edit<T>>, s: seq<Edit<T>>)
    requires Climbs(base) && Numbered(s)
    ensures Climbs(base + s) && Due(base + s) >= 1 + |Source(s)|
    decreases |s|
  {
    hide Elems, Climbs, Due;
    if s == [] {
      assert base + s == base && base[..|base|] == base;
      ClimbsPrefix(base, |base|);
      NoElems<T>();
    } else {
      var s', e := s[..|s| - 1], s[|s| - 1];
      assert base + s == (base + s') + [e] && s == s' + [e];
      PassClimbs(base, s');
      ClimbStep(base + s', e);
      LengthsLast(s', e);
    }
  }

  lemma {:induction false} PassesClimb<T(!new)>(s: seq<Edit<T>>)
    requires InPasses(s)
    ensures Climbs(s) && KeptAreNumbered(s)
    decreases |s|
  {
    hide Numbered, Climbs;
    if s == [] {
      assert Climbs(s) by { NothingClimbs<T>(); }
    } else {
      var k :| 0 <= k < |s| && InPasses(s[..k]) && Numbered(s[k..]);
      PassesClimb(s[..k]);
      PassClimbs(s[..k], s[k..]);
      assert s[..k] + s[k..] == s;
      forall i | 0 <= i < |s| && s[i].kind.Common? ensures s[i].before > 0 && s[i].after > 0 {
        if i < k { assert s[i] == s[..k][i]; } else { PassKept(s[k..], i - k); }
      }
    }
  }

  lemma NothingClimbs<T>()
    ensures Climbs<T>([]) && Due<T>([]) == 1
  {
  }

  lemma PassKept<T>(s: seq<Edit<T>>, i: nat)
    requires Numbered(s) && i < |s| && s[i].kind.Common?
    ensures s[i].before > 0 && s[i].after > 0
  {
    NumberedPrefix(s, i);
  }

  lemma {:induction false} DueAdds<T>(s: seq<Edit<T>>, adds: seq<Edit<T>>)
    requires AllOf(adds, Add)
    ensures Due(s + adds) == Due(s) && (Climbs(s + adds) <==> Climbs(s))
    decreases |adds|
  {
    hide Climbs, Due;
    if adds == [] {
      assert s + adds == s;
    } else {
      var adds', e := adds[..|adds| - 1], adds[|adds| - 1];
      DueAdds(s, adds');
      assert s + adds == (s + adds') + [e];
      ClimbStep(s + adds', e);
    }
  }

  /** Putting deletions first changes neither. */
  lemma {:induction false} ReorderedClimbs<T>(s: seq<Edit<T>>)
    requires Climbs(s)
    ensures Climbs(DeletesFirst(s)) && Due(DeletesFirst(s)) == Due(s)
    decreases |s|
  {
    hide Climbs, Due, DeletesFirst, Settled, Trailing;
    if s == [] {
      NothingReordered<T>();
    } else {
      var s', e := s[..|s| - 1], s[|s| - 1];
      assert s == s' + [e];
      ClimbStep(s', e);
      ReorderedClimbs(s');
      ReorderedOneMore(s', e);
      if e.kind.Delete? {
        var kept, adds := Settled(s') + Trailing(s', Delete), Trailing(s', Add);
        TrailingAdds(s');
        DueAdds(kept, adds);
        ClimbStep(kept, e);
        DueAdds(kept + [e], adds);
      } else {
        ClimbStep(DeletesFirst(s'), e);
      }
    }
  }

  lemma ReorderedKept<T>(s: seq<Edit<T>>)
    requires KeptAreNumbered(s)
    ensures KeptAreNumbered(DeletesFirst(s))
  {
    hide DeletesFirst;
    ReorderPermutes(s);
    var r := DeletesFirst(s);
    forall i | 0 <= i < |r| && r[i].kind.Common? ensures r[i].before > 0 && r[i].after > 0 {
      assert r[i] in multiset(r);
      assert r[i] in s;
    }
  }

  // ----- the cursor -----

  /** A hunk starts no later than the line number after the hunk before it, and its gap. */
  lemma HunkIsDue<T>(done: seq<Edit<T>>, gap: seq<Edit<T>>, h: Hunk<T>, end: int)
    requires Climbs(done + gap + Body(h)) && AllOf(gap, Common) && Counted(h) && StartsBy(h, gap)
    requires 1 <= Due(done) <= end && (gap + h.before == [] ==> Due(done) == 1)
    ensures h.a - end <= |gap| && Due(done + gap + Body(h)) <= h.a + h.b
  {
    hide Elems, Climbs, Due;
    var q, lead := gap + Body(h), gap + h.before;
    assert done + gap + Body(h) == done + q;
    CommonLengths([], gap);
    NoElems<T>();
    assert [] + gap == gap;
    HunkLengths(h, gap);
    if lead == [] {
      DueGrows(done, q);
    } else {
      assert q[0] == lead[0];
      AllOfConcat(gap, h.before, Common);
      DueFrom(done, q);
    }
  }

  lemma {:induction false} AssemblePrefix<T>(hunks: seq<Hunk<T>>, gaps: seq<seq<Edit<T>>>, j: nat)
    requires |gaps| == |hunks| && j <= |hunks|
    ensures Assemble(hunks[..j], gaps[..j]) <= Assemble(hunks, gaps)
    decreases |hunks|
  {
    var k := |hunks| - 1;
    if j == |hunks| {
      assert hunks[..j] == hunks && gaps[..j] == gaps;
    } else {
      AssemblePrefix(hunks[..k], gaps[..k], j);
      assert hunks[..k][..j] == hunks[..j] && gaps[..k][..j] == gaps[..j];
    }
  }

  lemma AssembledClimbs<T>(hunks: seq<Hunk<T>>, gaps: seq<seq<Edit<T>>>, j: nat)
    requires |gaps| == |hunks| && j <= |hunks| && Climbs(Assemble(hunks, gaps))
    ensures Climbs(Assemble(hunks[..j], gaps[..j])) && Due(Assemble(hunks[..j], gaps[..j])) >= 1
  {
    hide Assemble, Climbs, Due;
    AssemblePrefix(hunks, gaps, j);
    var whole, part := Assemble(hunks, gaps), Assemble(hunks[..j], gaps[..j]);
    ClimbsPrefix(whole, |part|);
    assert whole[..|part|] == part;
  }

  /** What is due after the first j hunks is no more than the line number after them. */
  lemma {:induction false} HunksAreDue<T>(hunks: seq<Hunk<T>>, gaps: seq<seq<Edit<T>>>, numbered: bool, j: nat)
    requires Layout(hunks, gaps, numbered) && SpacedSoFar(hunks, gaps) && AllStart(hunks, gaps)
    requires Climbs(Assemble(hunks, gaps)) && j <= |hunks|
    ensures Due(Assemble(hunks[..j], gaps[..j])) <= EndOf(hunks[..j])
    ensures j > 0 ==> Skip(hunks[..j]) <= |gaps[j - 1]|
    decreases j
  {
    hide Elems, Climbs, Due, Layout, Assemble, SpacedSoFar, Compact, EndsInThree, Counted, StartsBy;
    if j == 0 {
      AssembleNothing<T>();
      NothingClimbs<T>();
      assert hunks[..0] == [] && gaps[..0] == [];
    } else {
      var k := j - 1;
      HunksAreDue(hunks, gaps, numbered, k);
      LayoutPrefix(hunks, gaps, numbered, k);
      SpacedAt(hunks, gaps, k);
      var done := Assemble(hunks[..k], gaps[..k]);
      AssembledClimbs(hunks, gaps, j);
      AssembledClimbs(hunks, gaps, k);
      if k == 0 {
        AssembleNothing<T>();
        NothingClimbs<T>();
        assert hunks[..0] == [] && gaps[..0] == [];
      }
      assert StartsBy(hunks[k], gaps[k]);
      HunkIsDue(done, gaps[k], hunks[k], EndOf(hunks[..k]));
      assert hunks[..j][..k] == hunks[..k];
    }
  }

  /** Applied anywhere, a script moves the cursor by no more than it writes and leaves no less than it should. */
  lemma {:induction false} AppliedBounds<T>(s: seq<Edit<T>>, at: Cursor<T>)
    requires at.pos <= |at.lst|
    ensures var r := Applied(s, at);
            r.pos <= at.pos + |Target(s)| && |r.lst| >= |at.lst| - |Source(s)| + |Target(s)|
    decreases |s|
  {
    hide Elems;
    if s == [] {
      NoElems<T>();
    } else {
      var s', e := s[..|s| - 1], s[|s| - 1];
      AppliedBounds(s', at);
      assert s == s' + [e];
      LengthsLast(s', e);
    }
  }

  /** A cursor that skips no more than the gaps stays inside the list. */
  lemma {:induction false} WalkIsLate<T>(hunks: seq<Hunk<T>>, gaps: seq<seq<Edit<T>>>, numbered: bool, input: seq<T>,
                                         j: nat)
    requires Layout(hunks, gaps, numbered) && |Source(Assemble(hunks, gaps))| <= |input| && j <= |hunks| == |gaps|
    requires forall m :: 0 <= m < j ==> Skip(hunks[..m + 1]) <= |gaps[m]|
    ensures Walk(hunks[..j], input).Some?
    ensures var at, done := Walk(hunks[..j], input).value, Assemble(hunks[..j], gaps[..j]);
            && at.pos <= |Target(done)|
            && |at.lst| >= |input| - |Source(done)| + |Target(done)| && |Source(done)| <= |input|
  {
    hide Elems, Layout, Assemble, Applied, Skip, Counted;
    if j == 0 {
      AssembleNothing<T>();
      NoElems<T>();
      assert hunks[..0] == [] && gaps[..0] == [];
    } else {
      var k := j - 1;
      WalkIsLate(hunks, gaps, numbered, input, k);
      LayoutPrefix(hunks, gaps, numbered, k);
      var done, at := Assemble(hunks[..k], gaps[..k]), Walk(hunks[..k], input).value;
      CommonLengths(done, gaps[k]);
      HunkLengths(hunks[k], done + gaps[k]);
      HunkLengths(hunks[k], []);
      NoElems<T>();
      assert [] + Body(hunks[k]) == Body(hunks[k]);
      assert hunks[..j][..k] == hunks[..k] && Skip(hunks[..k + 1]) <= |gaps[k]|;
      AppliedBounds(Body(hunks[k]), Cursor(at.lst, at.pos + Skip(hunks[..j])));
    }
  }

  /** The hunks of a script recorded in passes never lead the cursor off a list that is long enough. */
  lemma WalkStaysInside<T(!new)>(S: seq<Edit<T>>, hunks: seq<Hunk<T>>, input: seq<T>)
    requires Grouped(S, hunks) && Climbs(S) && KeptAreNumbered(S) && |Source(S)| <= |input|
    ensures Walk(hunks, input).Some?
  {
    hide Elems, Layout, Assemble, Climbs, KeptAreNumbered, DeletesFirst, Walk, Skip, SpacedSoFar, AllStart;
    var gaps, tail :| GroupedFully(S, hunks, gaps, tail);
    LayoutSizes(hunks, gaps, Numbered(S));
    ReorderedClimbs(S);
    ReorderMeansTheSame(S);
    SourcePrefix(Assemble(hunks, gaps), tail);
    ClimbsPrefix(DeletesFirst(S), |Assemble(hunks, gaps)|);
    assert DeletesFirst(S)[..|Assemble(hunks, gaps)|] == Assemble(hunks, gaps);
    forall m | 0 <= m < |hunks| ensures Skip(hunks[..m + 1]) <= |gaps[m]| {
      HunksAreDue(hunks, gaps, Numbered(S), m + 1);
    }
    WalkIsLate(hunks, gaps, Numbered(S), input, |hunks|);
    assert hunks[..|hunks|] == hunks;
  }
}
