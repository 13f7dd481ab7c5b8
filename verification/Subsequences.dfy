/** Longest common subsequences, by definition and by recurrence. */
module Subsequences {

  /** s is obtained from t by deleting elements. */
  ghost predicate IsSubsequence<T(!new)>(s: seq<T>, t: seq<T>)
    decreases |t|
  {
    s == [] || (t != [] && (|| IsSubsequence(s, t[..|t| - 1])
                            || (s[|s| - 1] == t[|t| - 1] && IsSubsequence(s[..|s| - 1], t[..|t| - 1]))))
  }

  ghost predicate IsCommonSubsequence<T(!new)>(s: seq<T>, a: seq<T>, b: seq<T>) {
    IsSubsequence(s, a) && IsSubsequence(s, b)
  }

  /** The length of a longest common subsequence, by the usual recurrence on last elements. */
  ghost function LcsLength<T(!new)>(a: seq<T>, b: seq<T>): nat
    decreases |a| + |b|
  {
    if a == [] || b == [] then 0
    else if a[|a| - 1] == b[|b| - 1] then 1 + LcsLength(a[..|a| - 1], b[..|b| - 1])
    else Max(LcsLength(a[..|a| - 1], b), LcsLength(a, b[..|b| - 1]))
  }

  function Max(a: int, b: int): int { if a > b then a else b }

  lemma {:induction false} SubsequenceInit<T(!new)>(s: seq<T>, t: seq<T>)
    requires s != [] && IsSubsequence(s, t)
    ensures t != [] && IsSubsequence(s[..|s| - 1], t[..|t| - 1])
    decreases |t|
  {
    if IsSubsequence(s, t[..|t| - 1]) {
      SubsequenceInit(s, t[..|t| - 1]);
    }
  }

  lemma SubsequenceAppend<T(!new)>(s: seq<T>, t: seq<T>, e: T)
    requires IsSubsequence(s, t)
    ensures IsSubsequence(s, t + [e]) && IsSubsequence(s + [e], t + [e])
  {
    assert (t + [e])[..|t|] == t && (s + [e])[..|s|] == s;
  }

  lemma {:induction false} SubsequenceShorter<T(!new)>(s: seq<T>, t: seq<T>)
    requires IsSubsequence(s, t)
    ensures |s| <= |t|
    decreases |t|
  {
    if s == [] {
    } else {
      SubsequenceInit(s, t);
      SubsequenceShorter(s[..|s| - 1], t[..|t| - 1]);
    }
  }

  /** No common subsequence is longer than LcsLength. */
  lemma {:induction false} LcsIsUpperBound<T(!new)>(s: seq<T>, a: seq<T>, b: seq<T>)
    requires IsCommonSubsequence(s, a, b)
    ensures |s| <= LcsLength(a, b)
    decreases |a| + |b|
  {
    if s == [] {
    } else {
      var a', b' := a[..|a| - 1], b[..|b| - 1];
      if a[|a| - 1] == b[|b| - 1] {
        SubsequenceInit(s, a);
        SubsequenceInit(s, b);
        LcsIsUpperBound(s[..|s| - 1], a', b');
      } else if IsSubsequence(s, a') {
        LcsIsUpperBound(s, a', b);
      } else {
        LcsIsUpperBound(s, a, b');
      }
    }
  }

  /** LcsLength is attained. */
  lemma {:induction false} LcsIsAttained<T(!new)>(a: seq<T>, b: seq<T>) returns (s: seq<T>)
    ensures IsCommonSubsequence(s, a, b) && |s| == LcsLength(a, b)
    decreases |a| + |b|
  {
    if a == [] || b == [] {
      s := [];
    } else {
      var a', b' := a[..|a| - 1], b[..|b| - 1];
      if a[|a| - 1] == b[|b| - 1] {
        var s' := LcsIsAttained(a', b');
        s := s' + [a[|a| - 1]];
        assert s[..|s| - 1] == s';
      } else if LcsLength(a', b) > LcsLength(a, b') {
        s := LcsIsAttained(a', b);
      } else {
        s := LcsIsAttained(a, b');
      }
    }
  }

  lemma {:induction false} LcsSymmetric<T(!new)>(a: seq<T>, b: seq<T>)
    ensures LcsLength(a, b) == LcsLength(b, a)
  {
    var s := LcsIsAttained(a, b);
    var t := LcsIsAttained(b, a);
    LcsIsUpperBound(s, b, a);
    LcsIsUpperBound(t, a, b);
  }
}
