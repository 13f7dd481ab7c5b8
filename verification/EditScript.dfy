/**
 * Edit scripts: lists of deletions, kept elements and additions, what they mean, and the
 * reordering that puts the deletions of each block of changes first.
 */
module EditScript {

  datatype Kind = Delete | Common | Add

  /** One entry of a script; before and after are its 1-based line numbers, 0 when there is none. */
  datatype Edit<+T> = Edit(elem: T, before: int, after: int, kind: Kind)

  /** The elements of the entries of s whose kind is in ks, in order. */
  function Elems<T>(s: seq<Edit<T>>, ks: set<Kind>): seq<T> {
    if s == [] then []
    else Elems(s[..|s| - 1], ks) + (if s[|s| - 1].kind in ks then [s[|s| - 1].elem] else [])
  }

  /** What a script starts from, what it produces, what it keeps, and how many changes it makes. */
  function Source<T>(s: seq<Edit<T>>): seq<T> { Elems(s, {Delete, Common}) }
  function Target<T>(s: seq<Edit<T>>): seq<T> { Elems(s, {Common, Add}) }
  function Kept<T>(s: seq<Edit<T>>): seq<T> { Elems(s, {Common}) }
  function Changes<T>(s: seq<Edit<T>>): nat { |Elems(s, {Delete, Add})| }

  /** Every entry of s is of kind k. */
  predicate AllOf<T>(s: seq<Edit<T>>, k: Kind) {
    forall i :: 0 <= i < |s| ==> s[i].kind == k
  }

  lemma AllOfAppend<T>(s: seq<Edit<T>>, e: Edit<T>)
    ensures forall k :: AllOf(s + [e], k) <==> AllOf(s, k) && e.kind == k
  {
    forall k ensures AllOf(s + [e], k) <==> AllOf(s, k) && e.kind == k {
      if AllOf(s + [e], k) {
        assert (s + [e])[|s|] == e;
        assert forall i :: 0 <= i < |s| ==> s[i] == (s + [e])[i];
      }
    }
  }

  lemma AllOfConcat<T>(s: seq<Edit<T>>, t: seq<Edit<T>>, k: Kind)
    ensures AllOf(s + t, k) <==> AllOf(s, k) && AllOf(t, k)
  {
    assert forall i :: 0 <= i < |s| ==> (s + t)[i] == s[i];
    assert forall i :: 0 <= i < |t| ==> (s + t)[|s| + i] == t[i];
  }

  lemma ElemsAppend<T>(s: seq<Edit<T>>, e: Edit<T>, ks: set<Kind>)
    ensures Elems(s + [e], ks) == Elems(s, ks) + (if e.kind in ks then [e.elem] else [])
  {
    assert (s + [e])[..|s|] == s;
  }

  lemma {:induction false} ElemsConcat<T>(s: seq<Edit<T>>, t: seq<Edit<T>>, ks: set<Kind>)
    ensures Elems(s + t, ks) == Elems(s, ks) + Elems(t, ks)
    decreases |t|
  {
    if t == [] {
      assert s + t == s;
    } else {
      var t' := t[..|t| - 1];
      assert (s + t)[..|s + t| - 1] == s + t';
      ElemsConcat(s, t', ks);
    }
  }

  /** A script without changes starts from what it produces, and conversely. */
  lemma {:induction false} NoChanges<T>(s: seq<Edit<T>>)
    ensures |Source(s)| == |Kept(s)| + |Elems(s, {Delete})| && |Target(s)| == |Kept(s)| + |Elems(s, {Add})|
    ensures Changes(s) == |Elems(s, {Delete})| + |Elems(s, {Add})|
    ensures Changes(s) == 0 <==> AllOf(s, Common)
    ensures AllOf(s, Common) ==> Source(s) == Target(s) == Kept(s)
  {
    if s == [] {
    } else {
      NoChanges(s[..|s| - 1]);
      assert AllOf(s, Common) <==> AllOf(s[..|s| - 1], Common) && s[|s| - 1].kind.Common?;
    }
  }

  // ----- deletions first -----

  /** The script up to and including its last kept entry, each block of changes reordered. */
  function Settled<T>(s: seq<Edit<T>>): seq<Edit<T>>
    decreases |s|, 0
  {
    if s == [] then []
    else if s[|s| - 1].kind.Common? then DeletesFirst(s[..|s| - 1]) + [s[|s| - 1]]
    else Settled(s[..|s| - 1])
  }

  /** The entries of the given kind after the last kept entry. */
  function Trailing<T>(s: seq<Edit<T>>, k: Kind): seq<Edit<T>> {
    if s == [] || s[|s| - 1].kind.Common? then []
    else Trailing(s[..|s| - 1], k) + (if s[|s| - 1].kind == k then [s[|s| - 1]] else [])
  }

  /** The script with the deletions of each block of changes moved before its additions. */
  function DeletesFirst<T>(s: seq<Edit<T>>): seq<Edit<T>>
    decreases |s|, 1
  {
    Settled(s) + Trailing(s, Delete) + Trailing(s, Add)
  }

  lemma {:induction false} TrailingKind<T>(s: seq<Edit<T>>, k: Kind)
    ensures forall e :: e in Trailing(s, k) ==> e.kind == k
  {
    if s == [] {
    } else {
      TrailingKind(s[..|s| - 1], k);
    }
  }

  /** One more entry, seen by the reordered script. */
  lemma ReorderAppend<T>(s: seq<Edit<T>>, e: Edit<T>)
    ensures Settled(s + [e]) == if e.kind.Common? then DeletesFirst(s) + [e] else Settled(s)
    ensures forall k :: Trailing(s + [e], k)
                     == if e.kind.Common? then [] else Trailing(s, k) + (if e.kind == k then [e] else [])
  {
    assert (s + [e])[..|s|] == s;
  }

  /** The three parts of a reordered script after one more entry that is a change. */
  lemma ReorderChange<T>(s: seq<Edit<T>>, e: Edit<T>)
    requires !e.kind.Common?
    ensures Settled(s + [e]) == Settled(s)
    ensures forall k :: k == e.kind ==> Trailing(s + [e], k) == Trailing(s, k) + [e]
    ensures forall k :: k != e.kind ==> Trailing(s + [e], k) == Trailing(s, k)
  {
    ReorderAppend(s, e);
    assert forall k :: Trailing(s, k) + [] == Trailing(s, k);
  }

  lemma ReorderCommon<T>(s: seq<Edit<T>>, e: Edit<T>)
    requires e.kind.Common?
    ensures Settled(s + [e]) == DeletesFirst(s) + [e] == DeletesFirst(s + [e])
    ensures Trailing(s + [e], Delete) == [] == Trailing(s + [e], Add)
  {
    ReorderAppend(s, e);
    assert DeletesFirst(s + [e]) == Settled(s + [e]) + [] + [];
  }

  /** Where the entry that arrives after s has to be put into the reordered script. */
  lemma ReorderByInsertion<T>(s: seq<Edit<T>>, e: Edit<T>)
    ensures var r, n := DeletesFirst(s), |Settled(s)| + |Trailing(s, Delete)|;
            && n <= |r|
            && DeletesFirst(s + [e]) == (if e.kind.Delete? then r[..n] + [e] + r[n..] else r + [e])
            && |Settled(s + [e])| + |Trailing(s + [e], Delete)|
               == (match e.kind case Delete => n + 1 case Add => n case Common => |r| + 1)
  {
    var n := |Settled(s)| + |Trailing(s, Delete)|;
    if e.kind.Common? {
      ReorderCommon(s, e);
    } else {
      ReorderChange(s, e);
      assert DeletesFirst(s)[..n] == Settled(s) + Trailing(s, Delete);
      assert DeletesFirst(s)[n..] == Trailing(s, Add);
    }
  }

  /** Reordering only permutes the entries... */
  lemma {:induction false} ReorderPermutes<T>(s: seq<Edit<T>>)
    ensures multiset(DeletesFirst(s)) == multiset(s)
    decreases |s|
  {
    hide DeletesFirst, Settled, Trailing;
    if s == [] {
      NothingReordered<T>();
    } else {
      var s', e := s[..|s| - 1], s[|s| - 1];
      ReorderPermutes(s');
      ReorderByInsertion(s', e);
      var r, n := DeletesFirst(s'), |Settled(s')| + |Trailing(s', Delete)|;
      assert s == s' + [e] && r == r[..n] + r[n..];
    }
  }

  lemma NothingReordered<T>()
    ensures DeletesFirst<T>([]) == []
  {
  }

  /** Appending to the deletions or to the additions has the same effect on a projection. */
  lemma ElemsOfParts<T>(s: seq<Edit<T>>, dels: seq<Edit<T>>, adds: seq<Edit<T>>, e: Edit<T>, ks: set<Kind>)
    requires forall d :: d in dels ==> d.kind.Delete?
    requires forall a :: a in adds ==> a.kind.Add?
    requires !(Delete in ks && Add in ks)
    ensures e.kind.Add? ==>
              Elems(s + dels + (adds + [e]), ks) == Elems(s + dels + adds, ks) + (if e.kind in ks then [e.elem] else [])
    ensures e.kind.Delete? ==>
              Elems(s + (dels + [e]) + adds, ks) == Elems(s + dels + adds, ks) + (if e.kind in ks then [e.elem] else [])
  {
    hide Elems;
    if e.kind.Add? {
      assert s + dels + (adds + [e]) == (s + dels + adds) + [e];
      ElemsAppend(s + dels + adds, e, ks);
    } else {
      ElemsNone(adds, ks);
      ElemsConcat(s + dels, adds, ks);
      assert s + (dels + [e]) + adds == (s + dels + [e]) + adds;
      ElemsConcat(s + dels + [e], adds, ks);
      ElemsAppend(s + dels, e, ks);
    }
  }

  lemma ReorderedElemsAppend<T>(s: seq<Edit<T>>, e: Edit<T>, ks: set<Kind>)
    requires !(Delete in ks && Add in ks)
    ensures Elems(DeletesFirst(s + [e]), ks) == Elems(DeletesFirst(s), ks) + (if e.kind in ks then [e.elem] else [])
  {
    if e.kind.Common? {
      ReorderCommon(s, e);
      ElemsAppend(DeletesFirst(s), e, ks);
    } else {
      ReorderChange(s, e);
      TrailingKind(s, Delete);
      TrailingKind(s, Add);
      ElemsOfParts(Settled(s), Trailing(s, Delete), Trailing(s, Add), e, ks);
    }
  }

  /** ... and keeps every projection that does not mix deletions with additions. */
  lemma {:induction false} ReorderKeeps<T>(s: seq<Edit<T>>, ks: set<Kind>)
    requires !(Delete in ks && Add in ks)
    ensures Elems(DeletesFirst(s), ks) == Elems(s, ks)
    decreases |s|
  {
    if s == [] {
    } else {
      ReorderKeeps(s[..|s| - 1], ks);
      assert s == s[..|s| - 1] + [s[|s| - 1]];
      ReorderedElemsAppend(s[..|s| - 1], s[|s| - 1], ks);
    }
  }

  lemma {:induction false} ElemsNone<T>(s: seq<Edit<T>>, ks: set<Kind>)
    ensures (forall e :: e in s ==> e.kind !in ks) ==> Elems(s, ks) == []
  {
    if s == [] {
    } else {
      ElemsNone(s[..|s| - 1], ks);
    }
  }

  /** Scripts that only differ in the order of changes inside a block mean the same. */
  lemma ReorderMeansTheSame<T>(s: seq<Edit<T>>)
    ensures Source(DeletesFirst(s)) == Source(s)
    ensures Target(DeletesFirst(s)) == Target(s)
    ensures Kept(DeletesFirst(s)) == Kept(s)
    ensures Changes(DeletesFirst(s)) == Changes(s)
  {
    ReorderKeeps(s, {Delete, Common});
    ReorderKeeps(s, {Common, Add});
    ReorderKeeps(s, {Common});
    ReorderKeeps(s, {Delete});
    ReorderKeeps(s, {Add});
    NoChanges(s);
    NoChanges(DeletesFirst(s));
  }

  // ----- line numbers -----

  /** The line numbers an entry gets after the entries s. */
  predicate NumberedAfter<T>(s: seq<Edit<T>>, e: Edit<T>) {
    var b, a := 1 + |Source(s)|, 1 + |Target(s)|;
    match e.kind
    case Common => e.before == b && e.after == a
    case Delete => e.before == b && e.after == 0
    case Add => (e.before == 0 && e.after == a) || (e.before == a && e.after == 0)
  }

  /** Every entry carries its own line numbers. */
  predicate Numbered<T>(s: seq<Edit<T>>) {
    s == [] || (Numbered(s[..|s| - 1]) && NumberedAfter(s[..|s| - 1], s[|s| - 1]))
  }

  lemma NumberedAppend<T>(s: seq<Edit<T>>, e: Edit<T>)
    ensures Numbered(s + [e]) <==> Numbered(s) && NumberedAfter(s, e)
  {
    assert (s + [e])[..|s|] == s;
  }

  lemma {:induction false} NumberedPrefix<T>(s: seq<Edit<T>>, i: nat)
    requires Numbered(s) && i < |s|
    ensures Numbered(s[..i]) && NumberedAfter(s[..i], s[i])
    decreases |s|
  {
    if i < |s| - 1 {
      NumberedPrefix(s[..|s| - 1], i);
      assert s[..|s| - 1][..i] == s[..i];
    }
  }

  /** A deletion may jump over the additions before it without upsetting any number. */
  lemma {:induction false} DeleteJumpsAdds<T>(s: seq<Edit<T>>, adds: seq<Edit<T>>, e: Edit<T>)
    requires Numbered(s + adds) && forall a :: a in adds ==> a.kind.Add?
    requires e.kind.Delete? && NumberedAfter(s + adds, e)
    ensures Numbered(s + [e] + adds)
    decreases |adds|
  {
    hide Numbered, Elems;
    if adds == [] {
      assert s + adds == s && s + [e] + adds == s + [e];
      NumberedAppend(s, e);
    } else {
      var adds', a := adds[..|adds| - 1], adds[|adds| - 1];
      assert s + adds == (s + adds') + [a] && s + [e] + adds == (s + [e] + adds') + [a];
      NumberedAppend(s + adds', a);
      SizesWithAdd(s + adds', a);
      assert forall b :: b in adds' ==> b in adds;
      DeleteJumpsAdds(s, adds', e);
      SizesWithDelete(s, adds', e);
      NumberedAppend(s + [e] + adds', a);
    }
  }

  /** An addition leaves the source as long as it was. */
  lemma SizesWithAdd<T>(s: seq<Edit<T>>, a: Edit<T>)
    requires a.kind.Add?
    ensures |Source(s + [a])| == |Source(s)|
  {
    ElemsAppend(s, a, {Delete, Common});
  }

  /** A deletion put before some entries lengthens the source only. */
  lemma SizesWithDelete<T>(s: seq<Edit<T>>, t: seq<Edit<T>>, e: Edit<T>)
    requires e.kind.Delete?
    ensures |Source(s + [e] + t)| == |Source(s + t)| + 1 && |Target(s + [e] + t)| == |Target(s + t)|
  {
    hide Elems;
    forall ks ensures Elems(s + [e] + t, ks) == Elems(s, ks) + (if Delete in ks then [e.elem] else []) + Elems(t, ks) {
      ElemsConcat(s + [e], t, ks);
      ElemsAppend(s, e, ks);
    }
    ElemsConcat(s, t, {Delete, Common});
    ElemsConcat(s, t, {Common, Add});
  }

  lemma ReorderedNumbersAppend<T>(s: seq<Edit<T>>, e: Edit<T>)
    requires Numbered(DeletesFirst(s)) && NumberedAfter(s, e)
    ensures Numbered(DeletesFirst(s + [e]))
  {
    hide Numbered, Settled, Trailing, Elems;
    ReorderMeansTheSame(s);
    if e.kind.Common? {
      ReorderCommon(s, e);
      NumberedAppend(DeletesFirst(s), e);
    } else {
      ReorderChange(s, e);
      var kept, adds := Settled(s) + Trailing(s, Delete), Trailing(s, Add);
      if e.kind.Add? {
        assert DeletesFirst(s + [e]) == (kept + adds) + [e];
        NumberedAppend(kept + adds, e);
      } else {
        TrailingKind(s, Add);
        DeleteJumpsAdds(kept, adds, e);
        assert DeletesFirst(s + [e]) == kept + [e] + adds;
      }
    }
  }

  /** Reordering keeps every entry's own numbers right. */
  lemma {:induction false} ReorderKeepsNumbers<T>(s: seq<Edit<T>>)
    requires Numbered(s)
    ensures Numbered(DeletesFirst(s))
    decreases |s|
  {
    if s == [] {
    } else {
      ReorderKeepsNumbers(s[..|s| - 1]);
      assert s == s[..|s| - 1] + [s[|s| - 1]];
      ReorderedNumbersAppend(s[..|s| - 1], s[|s| - 1]);
    }
  }
}
