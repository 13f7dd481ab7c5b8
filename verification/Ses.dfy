/**
 * The growing edit script: entries arrive in path order and are stored either in that order
 * or, with deletesFirst, with the deletions of each block of changes inserted before its additions.
 */
module Ses {
  import opened EditScript

  class Ses<T> {
    var sequence: seq<Edit<T>>
    var onlyAdd: bool
    var onlyDelete: bool
    var onlyCopy: bool
    const deletesFirst: bool
    var nextDeleteIdx: nat
    ghost var calls: seq<Edit<T>>  // the entries in the order of their arrival

    ghost predicate Valid()
      reads this
    {
      && sequence == (if deletesFirst then DeletesFirst(calls) else calls)
      && (onlyAdd <==> AllOf(calls, Add))
      && (onlyDelete <==> AllOf(calls, Delete))
      && (onlyCopy <==> AllOf(calls, Common))
      && (deletesFirst ==> nextDeleteIdx == |Settled(calls)| + |Trailing(calls, Delete)|)
    }

    constructor (moveDel: bool)
      ensures Valid() && calls == [] && deletesFirst == moveDel
    {
      sequence := [];
      onlyAdd, onlyDelete, onlyCopy := true, true, true;
      deletesFirst := moveDel;
      nextDeleteIdx := 0;
      calls := [];
    }

    method AddSequence(e: T, beforeIdx: int, afterIdx: int, kind: Kind)
      requires Valid()
      modifies this
      ensures Valid() && calls == old(calls) + [Edit(e, beforeIdx, afterIdx, kind)]
    {
      hide DeletesFirst, Settled, Trailing, AllOf;
      var pe := Edit(e, beforeIdx, afterIdx, kind);
      ReorderByInsertion(calls, pe);
      AllOfAppend(calls, pe);
      if !deletesFirst {
        sequence := sequence + [pe];
      }
      match kind {
        case Delete =>
          onlyCopy := false;
          onlyAdd := false;
          if deletesFirst {
            sequence := sequence[..nextDeleteIdx] + [pe] + sequence[nextDeleteIdx..];
            nextDeleteIdx := nextDeleteIdx + 1;
          }
        case Common =>
          onlyAdd := false;
          onlyDelete := false;
          if deletesFirst {
            sequence := sequence + [pe];
            nextDeleteIdx := |sequence|;
          }
        case Add =>
          onlyDelete := false;
          onlyCopy := false;
          if deletesFirst {
            sequence := sequence + [pe];
          }
      }
      calls := calls + [pe];
    }
  }

  /** What the stored script means does not depend on deletesFirst. */
  lemma StoredMeaning<T>(s: Ses<T>)
    requires s.Valid()
    ensures Source(s.sequence) == Source(s.calls) && Target(s.sequence) == Target(s.calls)
    ensures Kept(s.sequence) == Kept(s.calls) && Changes(s.sequence) == Changes(s.calls)
    ensures multiset(s.sequence) == multiset(s.calls)
    ensures Numbered(s.calls) ==> Numbered(s.sequence)
  {
    ReorderMeansTheSame(s.calls);
    ReorderPermutes(s.calls);
    if Numbered(s.calls) { ReorderKeepsNumbers(s.calls); }
  }
}
