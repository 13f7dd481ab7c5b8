/**
 * What recording a traced path means: after the entries for the grid point (x, y), the script
 * has consumed the first x elements of A and the first y elements of B, on the side that each
 * of them was given on.
 */
module Recording {
  import opened EditGraph
  import opened EditScript
  import opened PathLog
  import opened Subsequences

  /** The part of the first-given sequence that lies before (x, y), and of the second-given one. */
  function LeftOf<T>(A: seq<T>, B: seq<T>, swapped: bool, x: nat, y: nat): seq<T>
    requires x <= |A| && y <= |B|
  {
    if swapped then B[..y] else A[..x]
  }

  function RightOf<T>(A: seq<T>, B: seq<T>, swapped: bool, x: nat, y: nat): seq<T>
    requires x <= |A| && y <= |B|
  {
    if swapped then A[..x] else B[..y]
  }

  /** The entries s, n of them changes and numbered from 1, lead from the origin to (x, y). */
  ghost predicate Leads<T(!new)>(A: seq<T>, B: seq<T>, swapped: bool, s: seq<Edit<T>>, x: int, y: int, n: int) {
    && 0 <= x <= |A| && 0 <= y <= |B|
    && Source(s) == LeftOf(A, B, swapped, x, y) && Target(s) == RightOf(A, B, swapped, x, y)
    && Changes(s) == n && Numbered(s)
  }

  /** calls extends base by entries that lead to (x, y). */
  ghost predicate Recorded<T(!new)>(A: seq<T>, B: seq<T>, swapped: bool, base: seq<Edit<T>>, calls: seq<Edit<T>>,
                                    x: int, y: int, n: int)
  {
    base <= calls && Leads(A, B, swapped, calls[|base|..], x, y, n)
  }

  lemma RecordedOrigin<T(!new)>(A: seq<T>, B: seq<T>, swapped: bool, base: seq<Edit<T>>)
    ensures Recorded(A, B, swapped, base, base, 0, 0, 0)
  {
  }

  /** The entry for a vertical step from (x, y): B[y] was added, or deleted if the inputs were swapped. */
  function VerticalEntry<T>(e: T, idx: int, swapped: bool): Edit<T> {
    if swapped then Edit(e, idx, 0, Delete) else Edit(e, 0, idx, Add)
  }

  function HorizontalEntry<T>(e: T, idx: int, swapped: bool): Edit<T> {
    if swapped then Edit(e, 0, idx, Add) else Edit(e, idx, 0, Delete)
  }

  function DiagonalEntry<T>(e: T, xIdx: int, yIdx: int, swapped: bool): Edit<T> {
    if swapped then Edit(e, yIdx, xIdx, Common) else Edit(e, xIdx, yIdx, Common)
  }

  lemma EntryEffect<T(!new)>(calls: seq<Edit<T>>, e: Edit<T>)
    ensures Source(calls + [e]) == Source(calls) + (if e.kind.Add? then [] else [e.elem])
    ensures Target(calls + [e]) == Target(calls) + (if e.kind.Delete? then [] else [e.elem])
    ensures Changes(calls + [e]) == Changes(calls) + (if e.kind.Common? then 0 else 1)
    ensures Kept(calls + [e]) == Kept(calls) + (if e.kind.Common? then [e.elem] else [])
  {
    hide Elems;
    ElemsAppend(calls, e, {Delete, Common});
    ElemsAppend(calls, e, {Common, Add});
    ElemsAppend(calls, e, {Delete, Add});
    ElemsAppend(calls, e, {Common});
  }

  /** What one more entry adds to a script. */
  lemma OneMore<T(!new)>(s: seq<Edit<T>>, e: Edit<T>)
    ensures Source(s + [e]) == Source(s) + (if e.kind.Add? then [] else [e.elem])
    ensures Target(s + [e]) == Target(s) + (if e.kind.Delete? then [] else [e.elem])
    ensures Changes(s + [e]) == Changes(s) + (if e.kind.Common? then 0 else 1)
    ensures Numbered(s + [e]) <==> Numbered(s) && NumberedAfter(s, e)
  {
    hide Elems, Numbered, NumberedAfter;
    EntryEffect(s, e);
    NumberedAppend(s, e);
  }

  lemma LeadsVertically<T(!new)>(A: seq<T>, B: seq<T>, swapped: bool, s: seq<Edit<T>>, x: int, y: int, n: int)
    requires Leads(A, B, swapped, s, x, y, n) && y < |B|
    ensures Leads(A, B, swapped, s + [VerticalEntry(B[y], y + 1, swapped)], x, y + 1, n + 1)
  {
    hide Source, Target, Changes, Numbered;
    OneMore(s, VerticalEntry(B[y], y + 1, swapped));
    assert B[..y + 1] == B[..y] + [B[y]];
  }

  lemma LeadsHorizontally<T(!new)>(A: seq<T>, B: seq<T>, swapped: bool, s: seq<Edit<T>>, x: int, y: int, n: int)
    requires Leads(A, B, swapped, s, x, y, n) && x < |A|
    ensures Leads(A, B, swapped, s + [HorizontalEntry(A[x], x + 1, swapped)], x + 1, y, n + 1)
  {
    hide Source, Target, Changes, Numbered;
    OneMore(s, HorizontalEntry(A[x], x + 1, swapped));
    assert A[..x + 1] == A[..x] + [A[x]];
  }

  lemma LeadsDiagonally<T(!new)>(A: seq<T>, B: seq<T>, swapped: bool, s: seq<Edit<T>>, x: int, y: int, n: int)
    requires Leads(A, B, swapped, s, x, y, n) && x < |A| && y < |B| && A[x] == B[y]
    ensures Leads(A, B, swapped, s + [DiagonalEntry(A[x], x + 1, y + 1, swapped)], x + 1, y + 1, n)
  {
    hide Source, Target, Changes, Numbered;
    OneMore(s, DiagonalEntry(A[x], x + 1, y + 1, swapped));
    assert A[..x + 1] == A[..x] + [A[x]] && B[..y + 1] == B[..y] + [B[y]];
  }

  lemma RecordVertical<T(!new)>(A: seq<T>, B: seq<T>, swapped: bool, base: seq<Edit<T>>, calls: seq<Edit<T>>,
                                x: int, y: int, n: int)
    requires Recorded(A, B, swapped, base, calls, x, y, n) && y < |B|
    ensures Recorded(A, B, swapped, base, calls + [VerticalEntry(B[y], y + 1, swapped)], x, y + 1, n + 1)
    ensures Kept(calls + [VerticalEntry(B[y], y + 1, swapped)]) == Kept(calls)
  {
    var e := VerticalEntry(B[y], y + 1, swapped);
    hide Leads, Kept;
    EntryEffect(calls, e);
    assert (calls + [e])[|base|..] == calls[|base|..] + [e];
    LeadsVertically(A, B, swapped, calls[|base|..], x, y, n);
  }

  lemma RecordHorizontal<T(!new)>(A: seq<T>, B: seq<T>, swapped: bool, base: seq<Edit<T>>, calls: seq<Edit<T>>,
                                  x: int, y: int, n: int)
    requires Recorded(A, B, swapped, base, calls, x, y, n) && x < |A|
    ensures Recorded(A, B, swapped, base, calls + [HorizontalEntry(A[x], x + 1, swapped)], x + 1, y, n + 1)
    ensures Kept(calls + [HorizontalEntry(A[x], x + 1, swapped)]) == Kept(calls)
  {
    var e := HorizontalEntry(A[x], x + 1, swapped);
    hide Leads, Kept;
    EntryEffect(calls, e);
    assert (calls + [e])[|base|..] == calls[|base|..] + [e];
    LeadsHorizontally(A, B, swapped, calls[|base|..], x, y, n);
  }

  lemma RecordDiagonal<T(!new)>(A: seq<T>, B: seq<T>, swapped: bool, base: seq<Edit<T>>, calls: seq<Edit<T>>,
                                x: int, y: int, n: int)
    requires Recorded(A, B, swapped, base, calls, x, y, n) && x < |A| && y < |B| && A[x] == B[y]
    ensures Recorded(A, B, swapped, base, calls + [DiagonalEntry(A[x], x + 1, y + 1, swapped)], x + 1, y + 1, n)
    ensures Kept(calls + [DiagonalEntry(A[x], x + 1, y + 1, swapped)]) == Kept(calls) + [A[x]]
  {
    var e := DiagonalEntry(A[x], x + 1, y + 1, swapped);
    hide Leads, Kept;
    EntryEffect(calls, e);
    assert (calls + [e])[|base|..] == calls[|base|..] + [e];
    LeadsDiagonally(A, B, swapped, calls[|base|..], x, y, n);
  }

  /** (x, y) lies on the leg that ends at r, with its edit still to be taken or already taken. */
  ghost predicate OnLeg<T(!new)>(A: seq<T>, B: seq<T>, x: int, y: int, r: Point, taken: bool) {
    if taken then y - x == r.y - r.x && Matches(A, B, x, y, r.x - x)
    else Leg(A, B, x, y, r)
  }

  lemma TraceLegs<T(!new)>(A: seq<T>, B: seq<T>, v: seq<Point>)
    requires IsTrace(A, B, v)
    ensures OnLeg(A, B, 0, 0, v[|v| - 1], true)
    ensures forall i :: 0 <= i < |v| - 1 ==> OnLeg(A, B, v[i + 1].x, v[i + 1].y, v[i], false)
  {
  }

  /** One recorded element brings (x, y) closer to the end of its leg. */
  lemma LegStep<T(!new)>(A: seq<T>, B: seq<T>, x: int, y: int, r: Point, taken: bool)
    requires OnLeg(A, B, x, y, r, taken)
    ensures x <= r.x <= |A| && y <= r.y <= |B| && 0 <= x && 0 <= y
    ensures taken <==> r.y - r.x == y - x
    ensures !taken ==> x < r.x || y < r.y
    ensures r.y - r.x > y - x ==> y < |B| && OnLeg(A, B, x, y + 1, r, true)
    ensures r.y - r.x < y - x ==> x < |A| && OnLeg(A, B, x + 1, y, r, true)
    ensures r.y - r.x == y - x && x < r.x ==> A[x] == B[y] && OnLeg(A, B, x + 1, y + 1, r, true)
  {
    if taken && x < r.x {
      assert A[x] == A[x..r.x][0] && B[y] == B[y..r.y][0];
      assert A[x + 1..r.x] == A[x..r.x][1..] && B[y + 1..r.y] == B[y..r.y][1..];
    }
  }

  /** The entries that list s from position lo up to position hi, as deleted or as added. */
  function RestEntries<T>(s: seq<T>, lo: nat, hi: nat, kind: Kind): seq<Edit<T>>
    requires hi <= |s|
  {
    if hi <= lo then [] else RestEntries(s, lo, hi - 1, kind) + [Edit(s[hi - 1], hi, 0, kind)]
  }

  lemma {:induction false} RestElems<T(!new)>(s: seq<T>, lo: nat, hi: nat, kind: Kind, ks: set<Kind>)
    requires lo <= hi <= |s|
    ensures Elems(RestEntries(s, lo, hi, kind), ks) == if kind in ks then s[lo..hi] else []
    decreases hi
  {
    hide Elems;
    if hi == lo {
      ElemsNone<T>([], ks);
    } else {
      RestElems(s, lo, hi - 1, kind, ks);
      ElemsAppend(RestEntries(s, lo, hi - 1, kind), Edit(s[hi - 1], hi, 0, kind), ks);
      assert s[lo..hi] == s[lo..hi - 1] + [s[hi - 1]];
    }
  }

  /** The rest goes on with the numbers of what is listed before it. */
  lemma {:induction false} RestIsNumbered<T(!new)>(before: seq<Edit<T>>, s: seq<T>, lo: nat, hi: nat, kind: Kind)
    requires Numbered(before) && lo <= hi <= |s| && !kind.Common?
    requires lo == if kind.Delete? then |Source(before)| else |Target(before)|
    ensures Numbered(before + RestEntries(s, lo, hi, kind))
    decreases hi
  {
    hide Numbered, Elems;
    if hi == lo {
      assert before + [] == before;
    } else {
      RestIsNumbered(before, s, lo, hi - 1, kind);
      var mid, e := RestEntries(s, lo, hi - 1, kind), Edit(s[hi - 1], hi, 0, kind);
      forall ks ensures |Elems(before + mid, ks)| == |Elems(before, ks)| + if kind in ks then hi - 1 - lo else 0 {
        ElemsConcat(before, mid, ks);
        RestElems(s, lo, hi - 1, kind, ks);
      }
      assert before + RestEntries(s, lo, hi, kind) == (before + mid) + [e];
      NumberedAppend(before + mid, e);
    }
  }

  /** calls extends base by a script for the whole of A and B. */
  ghost predicate AllRecorded<T(!new)>(A: seq<T>, B: seq<T>, swapped: bool, base: seq<Edit<T>>, calls: seq<Edit<T>>,
                                       n: int)
  {
    && base <= calls
    && var s := calls[|base|..];
       && Source(s) == (if swapped then B else A) && Target(s) == (if swapped then A else B)
       && Changes(s) == n && Numbered(s)
  }

  lemma EndRecorded<T(!new)>(A: seq<T>, B: seq<T>, swapped: bool, base: seq<Edit<T>>, calls: seq<Edit<T>>, n: int)
    requires Recorded(A, B, swapped, base, calls, |A|, |B|, n)
    ensures AllRecorded(A, B, swapped, base, calls, n)
  {
    assert A[..|A|] == A && B[..|B|] == B;
  }

  lemma RecordedSizes<T(!new)>(A: seq<T>, B: seq<T>, swapped: bool, base: seq<Edit<T>>, calls: seq<Edit<T>>,
                               x: int, y: int, n: int)
    requires Recorded(A, B, swapped, base, calls, x, y, n)
    ensures 0 <= x <= |A| && 0 <= y <= |B| && base <= calls
  {
  }

  /** What base and the entries recorded after it say together. */
  lemma PartElems<T(!new)>(base: seq<Edit<T>>, calls: seq<Edit<T>>)
    requires base <= calls
    ensures var s := calls[|base|..];
            && Source(calls) == Source(base) + Source(s) && Target(calls) == Target(base) + Target(s)
            && Changes(calls) == Changes(base) + Changes(s)
  {
    hide Elems;
    assert calls == base + calls[|base|..];
    ElemsConcat(base, calls[|base|..], {Delete, Common});
    ElemsConcat(base, calls[|base|..], {Common, Add});
    ElemsConcat(base, calls[|base|..], {Delete, Add});
  }

  lemma WholeRecorded<T(!new)>(A: seq<T>, B: seq<T>, swapped: bool, base: seq<Edit<T>>, calls: seq<Edit<T>>, n: int)
    requires AllRecorded(A, B, swapped, base, calls, n)
    ensures Source(calls) == Source(base) + (if swapped then B else A)
    ensures Target(calls) == Target(base) + (if swapped then A else B)
    ensures Changes(calls) == Changes(base) + n
    ensures base <= calls && Numbered(calls[|base|..])
  {
    PartElems(base, calls);
  }

  /** The entries that list what is left of both sequences after (x, y). */
  function BothRests<T>(A: seq<T>, B: seq<T>, swapped: bool, x: nat, y: nat): seq<Edit<T>> {
    var xKind, yKind := if swapped then Add else Delete, if swapped then Delete else Add;
    RestEntries(A, x, |A|, xKind) + RestEntries(B, y, |B|, yKind)
  }

  lemma RestsElems<T(!new)>(A: seq<T>, B: seq<T>, swapped: bool, x: nat, y: nat, ks: set<Kind>)
    requires x <= |A| && y <= |B|
    ensures Elems(BothRests(A, B, swapped, x, y), ks)
         == (if (if swapped then Add else Delete) in ks then A[x..] else [])
            + (if (if swapped then Delete else Add) in ks then B[y..] else [])
  {
    hide Elems;
    var xKind, yKind := if swapped then Add else Delete, if swapped then Delete else Add;
    RestElems(A, x, |A|, xKind, ks);
    RestElems(B, y, |B|, yKind, ks);
    ElemsConcat(RestEntries(A, x, |A|, xKind), RestEntries(B, y, |B|, yKind), ks);
  }

  lemma RestsAreNumbered<T(!new)>(A: seq<T>, B: seq<T>, swapped: bool, s: seq<Edit<T>>, x: nat, y: nat)
    requires x <= |A| && y <= |B| && Numbered(s)
    requires |Source(s)| == (if swapped then y else x) && |Target(s)| == (if swapped then x else y)
    ensures Numbered(s + BothRests(A, B, swapped, x, y))
  {
    hide Elems, Numbered;
    var xKind, yKind := if swapped then Add else Delete, if swapped then Delete else Add;
    var first, second := RestEntries(A, x, |A|, xKind), RestEntries(B, y, |B|, yKind);
    RestIsNumbered(s, A, x, |A|, xKind);
    forall ks ensures |Elems(s + first, ks)| == |Elems(s, ks)| + if xKind in ks then |A| - x else 0 {
      ElemsConcat(s, first, ks);
      RestElems(A, x, |A|, xKind, ks);
    }
    RestIsNumbered(s + first, B, y, |B|, yKind);
    assert s + BothRests(A, B, swapped, x, y) == (s + first) + second;
  }

  /** Listing what is left of both sequences completes a recorded path. */
  lemma RestRecorded<T(!new)>(A: seq<T>, B: seq<T>, swapped: bool, base: seq<Edit<T>>, mid: seq<Edit<T>>,
                              x: int, y: int, n: int)
    requires Recorded(A, B, swapped, base, mid, x, y, n)
    ensures AllRecorded(A, B, swapped, base, mid + BothRests(A, B, swapped, x, y), n + |A| - x + |B| - y)
    ensures Kept(mid + BothRests(A, B, swapped, x, y)) == Kept(mid)
  {
    hide Elems, Numbered, BothRests;
    var s, rests := mid[|base|..], BothRests(A, B, swapped, x, y);
    assert (mid + rests)[|base|..] == s + rests;
    forall ks ensures Elems(s + rests, ks) == Elems(s, ks) + Elems(rests, ks) { ElemsConcat(s, rests, ks); }
    ElemsConcat(mid, rests, {Common});
    RestsElems(A, B, swapped, x, y, {Delete, Common});
    RestsElems(A, B, swapped, x, y, {Common, Add});
    RestsElems(A, B, swapped, x, y, {Delete, Add});
    RestsElems(A, B, swapped, x, y, {Common});
    assert A[..x] + A[x..] == A && B[..y] + B[y..] == B;
    RestsAreNumbered(A, B, swapped, s, x, y);
  }

  lemma Rejoined<T>(s: seq<T>, w: seq<T>, k: nat)
    requires k <= |w|
    ensures s + w[..k] + w[k..] == s + w
  {
    assert w[..k] + w[k..] == w;
  }

  /** A restart goes on from where the recorded path ends. */
  lemma RestartRecorded<T(!new)>(A: seq<T>, B: seq<T>, swapped: bool, base: seq<Edit<T>>, calls: seq<Edit<T>>,
                                 x: int, y: int, n: int)
    requires Recorded(A, B, swapped, base, calls, x, y, n)
    ensures 0 <= x <= |A| && 0 <= y <= |B|
    ensures Source(calls) + (if swapped then B[y..] else A[x..]) == Source(base) + (if swapped then B else A)
    ensures Target(calls) + (if swapped then A[x..] else B[y..]) == Target(base) + (if swapped then A else B)
    ensures Changes(calls) == Changes(base) + n
    ensures base <= calls && Numbered(calls[|base|..])
  {
    hide Source, Target, Changes, Numbered;
    PartElems(base, calls);
    if swapped {
      Rejoined(Source(base), B, y);
      Rejoined(Target(base), A, x);
    } else {
      Rejoined(Source(base), A, x);
      Rejoined(Target(base), B, y);
    }
  }

  // ----- scripts recorded in several passes -----

  /** The script consists of parts that are each numbered from 1. */
  ghost predicate InPasses<T(!new)>(s: seq<Edit<T>>)
    decreases |s|
  {
    s == [] || exists k :: 0 <= k < |s| && InPasses(s[..k]) && Numbered(s[k..])
  }

  lemma OneMorePass<T(!new)>(base: seq<Edit<T>>, calls: seq<Edit<T>>)
    requires InPasses(base) && base <= calls && Numbered(calls[|base|..])
    ensures InPasses(calls)
  {
    assert calls[..|base|] == base;
    if |base| == |calls| { assert calls == base; }
  }

  // ----- what a script says about its two sides -----

  /** The kept elements are a common subsequence, as long as the number of changes allows. */
  lemma {:induction false} KeptIsCommon<T(!new)>(s: seq<Edit<T>>)
    ensures IsCommonSubsequence(Kept(s), Source(s), Target(s))
    ensures 2 * |Kept(s)| + Changes(s) == |Source(s)| + |Target(s)|
    decreases |s|
  {
    if s == [] {
    } else {
      var s', e := s[..|s| - 1], s[|s| - 1];
      KeptIsCommon(s');
      EntryEffect(s', e);
      assert s == s' + [e];
      match e.kind {
        case Delete =>
          SubsequenceAppend(Kept(s'), Source(s'), e.elem);
          assert Kept(s) == Kept(s') && Target(s) == Target(s');
        case Add =>
          SubsequenceAppend(Kept(s'), Target(s'), e.elem);
          assert Kept(s) == Kept(s') && Source(s) == Source(s');
        case Common =>
          SubsequenceAppend(Kept(s'), Source(s'), e.elem);
          SubsequenceAppend(Kept(s'), Target(s'), e.elem);
      }
    }
  }

  lemma EmptyScript<T(!new)>()
    ensures Source<T>([]) == [] && Target<T>([]) == [] && Kept<T>([]) == [] && Changes<T>([]) == 0 && Numbered<T>([])
    ensures InPasses<T>([])
  {
  }
}
