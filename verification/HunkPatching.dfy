/**
 * From two sequences to hunks and on to the patched list: the comparison, the grouping and the
 * patching together.
 */
module HunkPatching {
  import opened CursorBounds
  import opened DiffEngine
  import opened EditScript
  import opened HunkGroups
  import opened HunkStarts
  import opened HunkWalk
  import opened Hunks
  import opened Options
  import opened Passes
  import opened Recording
  import Ses

  /** The script as it is stored. */
  ghost function Stored<T(!new)>(a: seq<T>, b: seq<T>, deletesFirst: bool, limit: int, trivial: bool): seq<Edit<T>> {
    var s := ScriptOf(a, b, limit, trivial);
    if deletesFirst then DeletesFirst(s) else s
  }

  lemma StoredClimbs<T(!new)>(ses: Ses.Ses<T>)
    requires ses.Valid() && InPasses(ses.calls)
    ensures Climbs(ses.sequence) && KeptAreNumbered(ses.sequence)
  {
    hide InPasses, Climbs, KeptAreNumbered;
    PassesClimb(ses.calls);
    ReorderedClimbs(ses.calls);
    ReorderedKept(ses.calls);
  }

  /**
   * Compares a and b, groups the script into hunks, and patches a with them. The cursor stays inside
   * the list on all inputs; the result is b if the comparison never starts over.
   */
  method PatchByHunks<T(==, !new)>(a: seq<T>, b: seq<T>, deletesFirst: bool, trivial: bool, limit: nat)
    returns (r: seq<T>)
    requires limit >= 2
    ensures trivial || Fits(a, b, limit) ==> r == b
    ensures var hunks := HunksOf(Stored(a, b, deletesFirst, limit, trivial), |a| >= |b|);
            Walk(hunks, a).Some? && r == Walk(hunks, a).value.lst
  {
    hide Elems, Numbered, GroupedBy, InPasses, Climbs, KeptAreNumbered, Walk, HunksOf, ScriptOf, Fits, DeletesFirst;
    var d := new Diff<T>(a, b, deletesFirst, limit);
    d.trivial := trivial;
    d.Compose();
    d.ComposeUnifiedHunks();
    assert d.uniHunks[0..] == d.uniHunks;
    StoredClimbs(d.ses);
    WalkStaysInside(d.ses.sequence, d.uniHunks, a);
    ghost var gaps, tail :| GroupedFully(d.ses.sequence, d.uniHunks, gaps, tail);
    r := d.UniPatch(a);
  }
}
