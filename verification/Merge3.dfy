/**
 * Three-way merge: two scripts that start from the same base are walked side by side.
 */
module Merge3 {
  import opened EditScript

  // ----- what a script does at each base position -----

  /** The elements that p adds right before base position k. */
  function Inserted<T>(p: seq<Edit<T>>, k: int): seq<T> {
    if p == [] then []
    else
      var p', e := p[..|p| - 1], p[|p| - 1];
      Inserted(p', k) + (if e.kind.Add? && |Source(p')| == k then [e.elem] else [])
  }

  /** p deletes the base element at position k. */
  predicate Deleted<T>(p: seq<Edit<T>>, k: int) {
    p != [] && (Deleted(p[..|p| - 1], k) || (p[|p| - 1].kind.Delete? && |Source(p[..|p| - 1])| == k))
  }

  function Longer<T>(u: seq<T>, v: seq<T>): seq<T> { if |u| >= |v| then u else v }

  /** What both scripts together make of base position k. */
  function Slot<T>(p: seq<Edit<T>>, q: seq<Edit<T>>, base: seq<T>, k: nat): seq<T> {
    Longer(Inserted(p, k), Inserted(q, k))
    + (if k < |base| && !Deleted(p, k) && !Deleted(q, k) then [base[k]] else [])
  }

  /** The merge of the base positions before k. */
  function Merged<T>(p: seq<Edit<T>>, q: seq<Edit<T>>, base: seq<T>, k: nat): seq<T> {
    if k == 0 then [] else Merged(p, q, base, k - 1) + Slot(p, q, base, k - 1)
  }

  /**
   * The scripts disagree at position k: their additions differ, or one adds what the other does
   * not while the other deletes the element that follows.
   */
  ghost predicate ConflictAt<T>(p: seq<Edit<T>>, q: seq<Edit<T>>, k: int) {
    var u, v := Inserted(p, k), Inserted(q, k);
    || (!(u <= v) && !(v <= u))
    || (u < v && Deleted(p, k))
    || (v < u && Deleted(q, k))
  }

  ghost predicate Conflicting<T>(p: seq<Edit<T>>, q: seq<Edit<T>>, base: seq<T>) {
    exists k :: 0 <= k <= |base| && ConflictAt(p, q, k)
  }

  // ----- prefixes -----

  lemma PrefixStep<T>(p: seq<Edit<T>>, n: nat)
    requires n < |p|
    ensures |Source(p[..n + 1])| == |Source(p[..n])| + (if p[n].kind.Add? then 0 else 1)
    ensures forall k :: Inserted(p[..n + 1], k)
                     == Inserted(p[..n], k) + (if p[n].kind.Add? && |Source(p[..n])| == k then [p[n].elem] else [])
    ensures forall k :: Deleted(p[..n + 1], k) <==> Deleted(p[..n], k) || (p[n].kind.Delete? && |Source(p[..n])| == k)
  {
    assert p[..n + 1][..n] == p[..n];
  }

  lemma NothingYet<T>(p: seq<Edit<T>>, k: int)
    ensures |Source(p[..0])| == 0 && Inserted(p[..0], k) == [] && !Deleted(p[..0], k)
  {
  }

  lemma {:induction false} PrefixGrows<T>(p: seq<Edit<T>>, i: nat, n: nat, k: int)
    requires i <= n <= |p|
    ensures Inserted(p[..i], k) <= Inserted(p[..n], k)
    ensures |Source(p[..i])| <= |Source(p[..n])|
    ensures Deleted(p[..i], k) ==> Deleted(p[..n], k)
    // once past position k, nothing more happens there
    ensures |Source(p[..i])| > k ==> Inserted(p[..n], k) == Inserted(p[..i], k)
    ensures |Source(p[..i])| > k ==> (Deleted(p[..n], k) <==> Deleted(p[..i], k))
    // before position k is passed, its element is not deleted; before it is reached, nothing is added
    ensures |Source(p[..n])| <= k ==> !Deleted(p[..n], k)
    ensures |Source(p[..n])| < k ==> Inserted(p[..n], k) == []
    decreases n
  {
    hide Source, Inserted, Deleted;
    if n == 0 {
      NothingYet(p, k);
    } else if i < n {
      PrefixStep(p, n - 1);
      PrefixGrows(p, i, n - 1, k);
    } else {
      PrefixStep(p, n - 1);
      PrefixGrows(p, n - 1, n - 1, k);
    }
  }

  /** At an entry for base position k, the additions there are complete and its fate is decided. */
  lemma AtBaseEntry<T>(p: seq<Edit<T>>, i: nat, k: int)
    requires i < |p| && |Source(p[..i])| == k && !p[i].kind.Add?
    ensures Inserted(p, k) == Inserted(p[..i], k)
    ensures Deleted(p, k) <==> p[i].kind.Delete?
    ensures Inserted(p[..i + 1], k + 1) == []
  {
    assert p[..|p|] == p;
    PrefixStep(p, i);
    PrefixGrows(p, i, i, k);
    PrefixGrows(p, i, i, k + 1);
    PrefixGrows(p, i + 1, |p|, k);
  }

  /** A base entry carries the base element of its position. */
  lemma BaseElement<T>(p: seq<Edit<T>>, i: nat)
    requires i < |p| && !p[i].kind.Add?
    ensures var k := |Source(p[..i])|; k < |Source(p)| && p[i].elem == Source(p)[k]
  {
    assert p == p[..i] + ([p[i]] + p[i + 1..]);
    ElemsConcat(p[..i], [p[i]] + p[i + 1..], {Delete, Common});
    ElemsConcat([p[i]], p[i + 1..], {Delete, Common});
    ElemsAppend([], p[i], {Delete, Common});
    assert [] + [p[i]] == [p[i]];
  }

  // ----- the walk -----

  /** One side may be ahead with its additions only if the other is about to keep, or is at its end. */
  ghost predicate Ahead<T>(u: seq<T>, v: seq<T>, q: seq<Edit<T>>, j: nat)
    requires j <= |q|
  {
    v < u ==> j == |q| || q[j].kind.Common?
  }

  /** The loop invariant: both cursors stand at base position k, and out is the merge so far. */
  ghost predicate Walk<T>(p: seq<Edit<T>>, q: seq<Edit<T>>, base: seq<T>, i: nat, j: nat, k: nat, out: seq<T>) {
    && Source(p) == base == Source(q)
    && i <= |p| && j <= |q| && |Source(p[..i])| == k == |Source(q[..j])| && k <= |base|
    && (forall m :: 0 <= m < k ==> !ConflictAt(p, q, m))
    && var u, v := Inserted(p[..i], k), Inserted(q[..j], k);
       && (u <= v || v <= u) && Ahead(u, v, q, j) && Ahead(v, u, p, i)
       && out == Merged(p, q, base, k) + Longer(u, v)
  }

  lemma WalkStart<T>(p: seq<Edit<T>>, q: seq<Edit<T>>, base: seq<T>)
    requires Source(p) == base == Source(q)
    ensures Walk(p, q, base, 0, 0, 0, [])
  {
  }

  lemma WalkPlace<T>(p: seq<Edit<T>>, q: seq<Edit<T>>, base: seq<T>, i: nat, j: nat, k: nat, out: seq<T>)
    requires Walk(p, q, base, i, j, k, out)
    ensures i <= |p| && j <= |q| && k <= |base|
  {
  }

  /** What happens at base position k is settled when both cursors stand at its entries. */
  lemma BaseSlot<T>(p: seq<Edit<T>>, q: seq<Edit<T>>, base: seq<T>, i: nat, j: nat, k: nat)
    requires Source(p) == base == Source(q)
    requires i < |p| && j < |q| && !p[i].kind.Add? && !q[j].kind.Add?
    requires |Source(p[..i])| == k == |Source(q[..j])|
    ensures k < |base| && p[i].elem == q[j].elem == base[k]
    ensures Slot(p, q, base, k)
         == Longer(Inserted(p[..i], k), Inserted(q[..j], k))
            + if p[i].kind.Common? && q[j].kind.Common? then [p[i].elem] else []
  {
    hide Elems, Inserted, Deleted, Longer;
    AtBaseEntry(p, i, k);
    AtBaseEntry(q, j, k);
    BaseElement(p, i);
    BaseElement(q, j);
  }

  lemma {:induction false} NoBaseConflict<T>(p: seq<Edit<T>>, q: seq<Edit<T>>, base: seq<T>,
                                             i: nat, j: nat, k: nat, out: seq<T>)
    requires Walk(p, q, base, i, j, k, out) && i < |p| && j < |q| && !p[i].kind.Add? && !q[j].kind.Add?
    ensures !ConflictAt(p, q, k)
  {
    hide Elems, Inserted, Deleted, Merged, Longer;
    AtBaseEntry(p, i, k);
    AtBaseEntry(q, j, k);
  }

  /** Both cursors pass a base entry. */
  lemma WalkBase<T>(p: seq<Edit<T>>, q: seq<Edit<T>>, base: seq<T>, i: nat, j: nat, k: nat, out: seq<T>)
    requires Walk(p, q, base, i, j, k, out) && i < |p| && j < |q| && !p[i].kind.Add? && !q[j].kind.Add?
    ensures p[i].elem == q[j].elem && k < |base|
    ensures var kept := if p[i].kind.Common? && q[j].kind.Common? then [p[i].elem] else [];
            Walk(p, q, base, i + 1, j + 1, k + 1, out + kept)
  {
    hide Elems, Inserted, Deleted, ConflictAt, Slot;
    NoBaseConflict(p, q, base, i, j, k, out);
    BaseSlot(p, q, base, i, j, k);
    AtBaseEntry(p, i, k);
    AtBaseEntry(q, j, k);
    PrefixStep(p, i);
    PrefixStep(q, j);
    var e := if p[i].kind.Common? && q[j].kind.Common? then [p[i].elem] else [];
    assert out + e == Merged(p, q, base, k + 1) by {
      assert Merged(p, q, base, k + 1) == Merged(p, q, base, k) + Slot(p, q, base, k);
    }
    assert out + e + [] == out + e;
  }

  /** Both sides add the same element. */
  lemma WalkSameAdd<T>(p: seq<Edit<T>>, q: seq<Edit<T>>, base: seq<T>, i: nat, j: nat, k: nat, out: seq<T>)
    requires Walk(p, q, base, i, j, k, out) && i < |p| && j < |q| && p[i].kind.Add? && q[j].kind.Add?
    requires p[i].elem == q[j].elem
    ensures Walk(p, q, base, i + 1, j + 1, k, out + [p[i].elem])
  {
    hide Elems, Inserted, Deleted;
    PrefixStep(p, i);
    PrefixStep(q, j);
    var u, v := Inserted(p[..i], k), Inserted(q[..j], k);
    assert u == v;
    assert Merged(p, q, base, k) + (u + [p[i].elem]) == Merged(p, q, base, k) + u + [p[i].elem];
  }

  /** Only p adds, while q keeps the base element. */
  lemma WalkLeftAdd<T>(p: seq<Edit<T>>, q: seq<Edit<T>>, base: seq<T>, i: nat, j: nat, k: nat, out: seq<T>)
    requires Walk(p, q, base, i, j, k, out) && i < |p| && j < |q| && p[i].kind.Add? && q[j].kind.Common?
    ensures Walk(p, q, base, i + 1, j, k, out + [p[i].elem])
  {
    hide Elems, Inserted, Deleted;
    PrefixStep(p, i);
    var u, v := Inserted(p[..i], k), Inserted(q[..j], k);
    assert v <= u;
    assert Merged(p, q, base, k) + (u + [p[i].elem]) == Merged(p, q, base, k) + u + [p[i].elem];
  }

  lemma WalkRightAdd<T>(p: seq<Edit<T>>, q: seq<Edit<T>>, base: seq<T>, i: nat, j: nat, k: nat, out: seq<T>)
    requires Walk(p, q, base, i, j, k, out) && i < |p| && j < |q| && q[j].kind.Add? && p[i].kind.Common?
    ensures Walk(p, q, base, i, j + 1, k, out + [q[j].elem])
  {
    hide Elems, Inserted, Deleted;
    PrefixStep(q, j);
    var u, v := Inserted(p[..i], k), Inserted(q[..j], k);
    assert u <= v;
    assert Merged(p, q, base, k) + (v + [q[j].elem]) == Merged(p, q, base, k) + v + [q[j].elem];
  }

  /** Additions that differ, or an addition against a deletion, are a conflict at k. */
  lemma {:induction false} WalkConflict<T>(p: seq<Edit<T>>, q: seq<Edit<T>>, base: seq<T>,
                                           i: nat, j: nat, k: nat, out: seq<T>)
    requires Walk(p, q, base, i, j, k, out) && i < |p| && j < |q|
    requires || (p[i].kind.Add? && q[j].kind.Add? && p[i].elem != q[j].elem)
             || (p[i].kind.Delete? && q[j].kind.Add?)
             || (p[i].kind.Add? && q[j].kind.Delete?)
    ensures ConflictAt(p, q, k)
  {
    hide Elems, Inserted, Deleted;
    assert p[..|p|] == p && q[..|q|] == q;
    PrefixStep(p, i);
    PrefixStep(q, j);
    var u, v := Inserted(p[..i], k), Inserted(q[..j], k);
    if p[i].kind.Add? {
      PrefixGrows(p, i + 1, |p|, k);
      assert Inserted(p, k)[|u|] == p[i].elem;
    } else {
      AtBaseEntry(p, i, k);
    }
    if q[j].kind.Add? {
      PrefixGrows(q, j + 1, |q|, k);
      assert Inserted(q, k)[|v|] == q[j].elem;
    } else {
      AtBaseEntry(q, j, k);
    }
  }

  /** When one script is at its end, the other only has additions left. */
  lemma WalkRest<T>(p: seq<Edit<T>>, q: seq<Edit<T>>, base: seq<T>, i: nat, j: nat, k: nat, out: seq<T>)
    requires Walk(p, q, base, i, j, k, out)
    ensures i == |p| && j < |q| ==> q[j].kind.Add? && Walk(p, q, base, i, j + 1, k, out + [q[j].elem])
    ensures j == |q| && i < |p| ==> p[i].kind.Add? && Walk(p, q, base, i + 1, j, k, out + [p[i].elem])
    ensures i == |p| || j == |q| ==> k == |base|
  {
    hide Elems, Inserted, Deleted;
    assert p[..|p|] == p && q[..|q|] == q;
    var u, v := Inserted(p[..i], k), Inserted(q[..j], k);
    if i == |p| && j < |q| {
      PrefixStep(q, j);
      if !q[j].kind.Add? { BaseElement(q, j); }
      assert Merged(p, q, base, k) + (v + [q[j].elem]) == Merged(p, q, base, k) + v + [q[j].elem];
    }
    if j == |q| && i < |p| {
      PrefixStep(p, i);
      if !p[i].kind.Add? { BaseElement(p, i); }
      assert Merged(p, q, base, k) + (u + [p[i].elem]) == Merged(p, q, base, k) + u + [p[i].elem];
    }
  }

  lemma {:induction false} WalkEnd<T>(p: seq<Edit<T>>, q: seq<Edit<T>>, base: seq<T>, k: nat, out: seq<T>)
    requires Walk(p, q, base, |p|, |q|, k, out)
    ensures !Conflicting(p, q, base) && out == Merged(p, q, base, |base| + 1)
  {
    hide Elems, Inserted, Deleted;
    assert p[..|p|] == p && q[..|q|] == q;
    PrefixGrows(p, |p|, |p|, k);
    PrefixGrows(q, |q|, |q|, k);
    assert k == |base|;
    assert !ConflictAt(p, q, k);
    assert Slot(p, q, base, k) == Longer(Inserted(p, k), Inserted(q, k));
  }

  /** Appends the additions left in s from position it on. */
  method AddDecentSequence<T>(s: seq<Edit<T>>, it0: nat, out0: seq<T>,
                              ghost p: seq<Edit<T>>, ghost q: seq<Edit<T>>, ghost base: seq<T>, ghost k: nat)
    returns (out: seq<T>)
    requires it0 <= |s|
    requires (s == q && Walk(p, q, base, |p|, it0, k, out0)) || (s == p && Walk(p, q, base, it0, |q|, k, out0))
    ensures Walk(p, q, base, |p|, |q|, k, out)
  {
    hide Walk;
    var it := it0;
    out := out0;
    ghost var onRight := s == q && Walk(p, q, base, |p|, it0, k, out0);
    while it < |s|
      invariant it0 <= it <= |s|
      invariant if onRight then s == q && Walk(p, q, base, |p|, it, k, out)
                else s == p && Walk(p, q, base, it, |q|, k, out)
    {
      if onRight {
        WalkRest(p, q, base, |p|, it, k, out);
      } else {
        WalkRest(p, q, base, it, |q|, k, out);
      }
      if s[it].kind.Add? {
        out := out + [s[it].elem];
      }
      it := it + 1;
    }
  }

  /**
   * Merges two scripts that start from the same base, or reports that they conflict.
   */
  method MergeScripts<T(==)>(p: seq<Edit<T>>, q: seq<Edit<T>>, base: seq<T>) returns (conflict: bool, merged: seq<T>)
    requires Source(p) == base == Source(q)
    ensures conflict <==> Conflicting(p, q, base)
    ensures merged == if conflict then base else Merged(p, q, base, |base| + 1)
  {
    hide Walk, ConflictAt, Merged;
    var out: seq<T> := [];
    var i, j := 0, 0;
    ghost var k: nat := 0;
    WalkStart(p, q, base);
    while i < |p| || j < |q|
      invariant 0 <= i <= |p| && 0 <= j <= |q| && Walk(p, q, base, i, j, k, out)
      decreases |p| - i + |q| - j
    {
      while i < |p| && j < |q| && p[i].elem == q[j].elem && p[i].kind.Common? && q[j].kind.Common?
        invariant 0 <= i <= |p| && 0 <= j <= |q| && Walk(p, q, base, i, j, k, out)
        decreases |p| - i + |q| - j
      {
        WalkBase(p, q, base, i, j, k, out);
        out := out + [p[i].elem];
        i, j, k := i + 1, j + 1, k + 1;
      }
      if i == |p| || j == |q| { break; }
      WalkPlace(p, q, base, i, j, k, out);
      if !p[i].kind.Add? && !q[j].kind.Add? {
        WalkBase(p, q, base, i, j, k, out);
        assert out + [] == out;
      }
      if p[i].kind.Common? && q[j].kind.Delete? {
        i, j, k := i + 1, j + 1, k + 1;
      } else if p[i].kind.Common? && q[j].kind.Add? {
        WalkRightAdd(p, q, base, i, j, k, out);
        out := out + [q[j].elem];
        j := j + 1;
      } else if p[i].kind.Delete? && q[j].kind.Common? {
        i, j, k := i + 1, j + 1, k + 1;
      } else if p[i].kind.Delete? && q[j].kind.Delete? {
        if p[i].elem == q[j].elem {
          i, j, k := i + 1, j + 1, k + 1;
        } else {
          assert false;
          return true, base;
        }
      } else if p[i].kind.Delete? && q[j].kind.Add? {
        WalkConflict(p, q, base, i, j, k, out);
        return true, base;
      } else if p[i].kind.Add? && q[j].kind.Common? {
        WalkLeftAdd(p, q, base, i, j, k, out);
        out := out + [p[i].elem];
        i := i + 1;
      } else if p[i].kind.Add? && q[j].kind.Delete? {
        WalkConflict(p, q, base, i, j, k, out);
        return true, base;
      } else if p[i].kind.Add? && q[j].kind.Add? {
        if p[i].elem == q[j].elem {
          WalkSameAdd(p, q, base, i, j, k, out);
          out := out + [p[i].elem];
          i, j := i + 1, j + 1;
        } else {
          WalkConflict(p, q, base, i, j, k, out);
          return true, base;
        }
      }
    }
    if i == |p| {
      out := AddDecentSequence(q, j, out, p, q, base, k);
    } else {
      out := AddDecentSequence(p, i, out, p, q, base, k);
    }
    WalkEnd(p, q, base, k, out);
    return false, out;
  }

  // ----- what a merge means -----

  lemma ConflictSymmetric<T>(p: seq<Edit<T>>, q: seq<Edit<T>>, k: int)
    ensures ConflictAt(p, q, k) <==> ConflictAt(q, p, k)
  {
  }

  lemma SlotSymmetric<T>(p: seq<Edit<T>>, q: seq<Edit<T>>, base: seq<T>, k: nat)
    requires !ConflictAt(p, q, k)
    ensures Slot(p, q, base, k) == Slot(q, p, base, k)
  {
    hide Inserted, Deleted;
  }

  lemma {:induction false} MergedSymmetric<T>(p: seq<Edit<T>>, q: seq<Edit<T>>, base: seq<T>, k: nat)
    requires forall m :: 0 <= m < k ==> !ConflictAt(p, q, m)
    ensures Merged(p, q, base, k) == Merged(q, p, base, k)
  {
    hide Slot, ConflictAt;
    if k > 0 {
      SlotSymmetric(p, q, base, k - 1);
      MergedSymmetric(p, q, base, k - 1);
    }
  }

  /** The order of the two sides does not matter. */
  lemma MergeSymmetric<T>(p: seq<Edit<T>>, q: seq<Edit<T>>, base: seq<T>)
    ensures Conflicting(p, q, base) <==> Conflicting(q, p, base)
    ensures !Conflicting(p, q, base) ==> Merged(p, q, base, |base| + 1) == Merged(q, p, base, |base| + 1)
  {
    hide ConflictAt, Merged;
    forall k ensures ConflictAt(p, q, k) <==> ConflictAt(q, p, k) { ConflictSymmetric(p, q, k); }
    if !Conflicting(p, q, base) { MergedSymmetric(p, q, base, |base| + 1); }
  }

  /** A script is what it inserts and keeps at each base position. */
  function Slots<T>(p: seq<Edit<T>>, base: seq<T>, k: nat): seq<T> {
    if k == 0 then []
    else
      Slots(p, base, k - 1) + Inserted(p, k - 1)
      + (if k - 1 < |base| && !Deleted(p, k - 1) then [base[k - 1]] else [])
  }

  lemma {:induction false} SlotsOfPrefix<T>(p: seq<Edit<T>>, n: nat)
    requires n <= |p|
    ensures var k := |Source(p[..n])|; Target(p[..n]) == Slots(p, Source(p), k) + Inserted(p[..n], k)
    decreases n
  {
    hide Elems, Deleted, Inserted;
    if n == 0 {
      NothingAtStart<T>();
    } else {
      SlotsOfPrefix(p, n - 1);
      PrefixStep(p, n - 1);
      var k, e := |Source(p[..n - 1])|, p[n - 1];
      assert p[..n] == p[..n - 1] + [e];
      ElemsAppend(p[..n - 1], e, {Common, Add});
      if e.kind.Add? {
        assert Target(p[..n]) == Slots(p, Source(p), k) + (Inserted(p[..n - 1], k) + [e.elem]);
      } else {
        AtBaseEntry(p, n - 1, k);
        BaseElement(p, n - 1);
      }
    }
  }

  lemma NothingAtStart<T>()
    ensures Source<T>([]) == [] && Target<T>([]) == [] && Inserted<T>([], 0) == []
  {
  }

  lemma SlotsMakeTarget<T>(p: seq<Edit<T>>)
    ensures Target(p) == Slots(p, Source(p), |Source(p)| + 1)
  {
    assert p[..|p|] == p;
    SlotsOfPrefix(p, |p|);
  }

  lemma {:induction false} UnchangedSide<T>(p: seq<Edit<T>>, k: int)
    requires AllOf(p, Common)
    ensures Inserted(p, k) == [] && !Deleted(p, k)
    decreases |p|
  {
    if p == [] {
    } else {
      UnchangedSide(p[..|p| - 1], k);
    }
  }

  lemma {:induction false} MergedUnchanged<T>(p: seq<Edit<T>>, q: seq<Edit<T>>, base: seq<T>, k: nat)
    requires AllOf(p, Common)
    ensures Merged(p, q, base, k) == Slots(q, base, k)
  {
    if k > 0 {
      UnchangedSide(p, k - 1);
      MergedUnchanged(p, q, base, k - 1);
    }
  }

  /** If one side changes nothing, the merge is the other side. */
  lemma MergeWithUnchanged<T>(p: seq<Edit<T>>, q: seq<Edit<T>>, base: seq<T>)
    requires AllOf(p, Common) && Source(q) == base
    ensures !Conflicting(p, q, base) && Merged(p, q, base, |base| + 1) == Target(q)
  {
    hide Inserted, Deleted;
    forall k ensures !ConflictAt(p, q, k) { UnchangedSide(p, k); }
    MergedUnchanged(p, q, base, |base| + 1);
    SlotsMakeTarget(q);
  }

  lemma {:induction false} MergedSame<T>(p: seq<Edit<T>>, base: seq<T>, k: nat)
    ensures Merged(p, p, base, k) == Slots(p, base, k)
  {
    if k > 0 { MergedSame(p, base, k - 1); }
  }

  /** If both sides made the same change, the merge is that change. */
  lemma MergeOfSameChange<T>(p: seq<Edit<T>>)
    ensures !Conflicting(p, p, Source(p)) && Merged(p, p, Source(p), |Source(p)| + 1) == Target(p)
  {
    MergedSame(p, Source(p), |Source(p)| + 1);
    SlotsMakeTarget(p);
  }
}
