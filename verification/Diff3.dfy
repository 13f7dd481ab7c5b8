/**
 * Three-way merge of sequences: two comparisons against a common base, and the merge of their scripts.
 */
module Diff3 {
  import opened DiffEngine
  import opened EditScript
  import opened Merge3
  import opened Passes

  /** What merging a and c over their base b gives: whether they conflict, and the sequence. */
  ghost function MergeOf<T(!new)>(a: seq<T>, b: seq<T>, c: seq<T>, limit: int): (bool, seq<T>) {
    var p, q := ScriptOf(b, a, limit, false), ScriptOf(b, c, limit, false);
    if Conflicting(p, q, b) then (true, b) else (false, Merged(p, q, b, |b| + 1))
  }

  /** Exchanging the two sides changes nothing. */
  lemma MergeOfExchanged<T(!new)>(a: seq<T>, b: seq<T>, c: seq<T>, limit: int)
    ensures MergeOf(a, b, c, limit) == MergeOf(c, b, a, limit)
  {
    hide Conflicting, Merged;
    MergeSymmetric(ScriptOf(b, a, limit, false), ScriptOf(b, c, limit, false), b);
  }

  class Diff3<T(==, !new)> {
    const A: seq<T>
    const B: seq<T>
    const C: seq<T>
    var S: seq<T>
    const diffBa: Diff<T>
    const diffBc: Diff<T>
    var conflict: bool

    constructor (a: seq<T>, b: seq<T>, c: seq<T>, maxCordinates: nat)
      ensures A == a && B == b && C == c && !conflict
      ensures fresh(diffBa) && fresh(diffBc) && fresh(diffBa.ses) && fresh(diffBc.ses) && Separate()
      ensures diffBa.limit == maxCordinates && Prepared()
    {
      A, B, C := a, b, c;
      conflict := false;
      S := [];
      diffBa := new Diff<T>(b, a, false, maxCordinates);
      diffBc := new Diff<T>(b, c, false, maxCordinates);
    }

    /** The two comparisons share nothing. */
    ghost predicate Separate() {
      diffBa != diffBc && diffBa.ses != diffBc.ses
    }

    /** The comparisons as the constructor sets them up: base first, everything in its plainest mode. */
    ghost predicate Prepared()
      reads diffBa, diffBa.ses, diffBa.fp, diffBa.path, diffBc, diffBc.ses, diffBc.fp, diffBc.path
    {
      && diffBa.Untouched() && diffBa.left == B && diffBa.right == A && diffBa.limit == diffBc.limit
      && diffBc.Untouched() && diffBc.left == B && diffBc.right == C
      && !diffBa.editDistanceOnly && !diffBa.trivial && !diffBa.ses.deletesFirst
      && !diffBc.editDistanceOnly && !diffBc.trivial && !diffBc.ses.deletesFirst
    }

    /** The comparison d has the script from the base to the side s in place. */
    ghost predicate ComposedTo(d: Diff<T>, s: seq<T>)
      reads d, d.ses
    {
      && Source(d.ses.sequence) == B && Target(d.ses.sequence) == s
      && Changes(d.ses.sequence) == d.editDistance && (s == B ==> d.editDistance == 0)
      && d.ses.sequence == ScriptOf(B, s, d.limit, false)
    }

    /** Both scripts are in place: from B to A and from B to C. */
    ghost predicate Composed()
      reads diffBa, diffBa.ses, diffBc, diffBc.ses
    {
      ComposedTo(diffBa, A) && ComposedTo(diffBc, C) && diffBa.limit == diffBc.limit
    }

    method Compose()
      requires Prepared() && Separate() && diffBa.limit >= 2
      modifies diffBa, diffBa.ses, diffBc, diffBc.ses
      ensures Composed()
    {
      hide ScriptOf, Elems, Fits;
      EqualFits(B, diffBa.limit);
      diffBa.Compose();
      diffBc.Compose();
    }

    /** What Merge leaves. */
    ghost predicate HasMerged()
      reads this, diffBa, diffBa.ses, diffBc, diffBc.ses
    {
      var p, q := diffBa.ses.sequence, diffBc.ses.sequence;
      && conflict == Conflicting(p, q, B)
      && S == if conflict then B else Merged(p, q, B, |B| + 1)
    }

    /**
     * Merges A and C over their base B.
     */
    method Merge() returns (ok: bool)
      requires Composed() && !conflict
      modifies this
      ensures ok <==> !conflict
      ensures HasMerged() && (conflict, S) == MergeOf(A, B, C, diffBa.limit)
      // a side that changes nothing, or the same change on both sides
      ensures A == B ==> !conflict && S == C
      ensures C == B ==> !conflict && S == A
      ensures A == C ==> !conflict && S == A
    {
      hide Elems, Conflicting, Merged, ScriptOf;
      ghost var p, q := diffBa.ses.sequence, diffBc.ses.sequence;
      NoChanges(p);
      NoChanges(q);
      MergeOfSameChange(p);
      if diffBa.editDistance == 0 {
        MergeWithUnchanged(p, q, B);
        if diffBc.editDistance == 0 {
          S := B;
          return true;
        }
        S := C;
        return true;
      } else {
        if diffBc.editDistance == 0 {
          MergeWithUnchanged(q, p, B);
          MergeSymmetric(q, p, B);
          S := A;
          return true;
        } else {
          conflict, S := MergeScripts(diffBa.ses.sequence, diffBc.ses.sequence, B);
          if conflict {
            return false;
          }
        }
      }
      return true;
    }
  }

  /**
   * Two merges over one base, with their sides exchanged, agree: both conflict, or both give the
   * same sequence.
   */
  lemma ExchangedSides<T(!new)>(d: Diff3<T>, e: Diff3<T>)
    requires d.Composed() && e.Composed() && d.HasMerged() && e.HasMerged()
    requires e.A == d.C && e.B == d.B && e.C == d.A && e.diffBa.limit == d.diffBa.limit
    ensures e.conflict == d.conflict && e.S == d.S
  {
    hide Conflicting, Merged, ScriptOf;
    MergeOfExchanged(d.A, d.B, d.C, d.diffBa.limit);
  }
}
