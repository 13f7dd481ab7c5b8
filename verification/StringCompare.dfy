/**
 * Comparing two texts: what the ignore expressions match is removed, a match of a stop expression
 * ends the comparison, and the rest is compared by the diff engine and reported as hunks.
 * Regular expressions and the layout of a printed hunk after its first bytes are given functions.
 */
module StringCompares {
  import opened Bytes
  import opened DiffEngine
  import opened EditGraph
  import opened EditScript
  import opened HunkGroups
  import opened Hunks
  import opened Regexes
  import opened Subsequences

  // ----- the report -----

  /** Every printed hunk starts with two at-signs. */
  function PrintAll<T>(hunks: seq<Hunk<T>>, layout: Hunk<T> -> string): string {
    if hunks == [] then "" else "@@" + layout(hunks[0]) + PrintAll(hunks[1..], layout)
  }

  /** output prints hunks that turn src into dst. */
  ghost predicate Reports<T(!new)>(output: string, src: seq<T>, dst: seq<T>, layout: Hunk<T> -> string) {
    exists s: seq<Edit<T>>, hunks ::
      Source(s) == src && Target(s) == dst && Numbered(s) && Grouped(s, hunks) && output == PrintAll(hunks, layout)
  }

  /** A report of two sequences is empty only if they are equal. */
  lemma EmptyReport<T(!new)>(s: seq<Edit<T>>, hunks: seq<Hunk<T>>, layout: Hunk<T> -> string)
    requires Grouped(s, hunks)
    ensures PrintAll(hunks, layout) == "" <==> Changes(s) == 0
    ensures Changes(s) == 0 ==> Source(s) == Target(s)
  {
    hide Elems, GroupedBy;
    var gaps, tail :| GroupedBy(s, hunks, gaps, tail);
    NoHunksIffNoChanges(s, hunks, gaps, tail);
    NoChanges(s);
  }

  /** Composes the diff of two sequences in trivial mode and prints its hunks. */
  method PrintDiff<T(==, !new)>(src: seq<T>, dst: seq<T>, limit: nat, layout: Hunk<T> -> string)
    returns (output: string)
    requires limit >= 2
    ensures Reports(output, src, dst, layout)
    ensures output == "" <==> src == dst
  {
    hide Elems, Numbered, Grouped, LcsLength, Fits;
    var d := new Diff<T>(src, dst, false, limit);
    d.trivial := true;
    d.Compose();
    d.ComposeUnifiedHunks();
    ghost var s := d.ses.sequence;
    assert d.uniHunks[0..] == d.uniHunks;
    EmptyReport(s, d.uniHunks, layout);
    if src == dst {
      EqualFits(src, limit);
    }
    output := PrintAll(d.uniHunks, layout);
  }

  // ----- cleaning -----

  function Cleaned(ignore: seq<string>, s: Text, replace: RegexReplace): Text {
    if ignore == [] then s else Cleaned(ignore[1..], replace(s, ignore[0], ""), replace)
  }

  /** vs holds the text before the first expression, after it, and so on: every one removes what it matches. */
  ghost predicate Removals(vs: seq<Text>, ignore: seq<string>, s: Text, replace: RegexReplace) {
    && |vs| == |ignore| + 1 && vs[0] == s
    && forall k :: 0 <= k < |ignore| ==> vs[k + 1] == replace(vs[k], ignore[k], "")
  }

  ghost predicate CleansTo(ignore: seq<string>, s: Text, replace: RegexReplace, out: Text) {
    exists vs :: Removals(vs, ignore, s, replace) && out == vs[|ignore|]
  }

  /** The cleaned text is the end of that chain. */
  lemma {:induction false} CleanedByChain(ignore: seq<string>, s: Text, replace: RegexReplace) returns (vs: seq<Text>)
    ensures Removals(vs, ignore, s, replace) && Cleaned(ignore, s, replace) == vs[|ignore|]
    decreases |ignore|
  {
    if ignore == [] {
      vs := [s];
    } else {
      var rest := CleanedByChain(ignore[1..], replace(s, ignore[0], ""), replace);
      vs := [s] + rest;
    }
  }

  predicate Stopped(stop: seq<string>, s: Text, search: RegexSearch) {
    exists i :: 0 <= i < |stop| && search(s, stop[i])
  }

  function CleanedAll(ignore: seq<string>, lines: seq<Text>, replace: RegexReplace): seq<Text> {
    seq(|lines|, i requires 0 <= i < |lines| => Cleaned(ignore, lines[i], replace))
  }

  // ----- lines -----

  function SkipNewlines(s: Text): (r: Text)
    ensures |r| <= |s| && (r != [] ==> r[0] != '\n')
  {
    if s != [] && s[0] == '\n' then SkipNewlines(s[1..]) else s
  }

  /** The pieces between runs of newlines; a run at either end leaves an empty piece there. */
  function SplitLines(s: Text): seq<Text>
    decreases |s|
  {
    var line := Until(s, '\n');
    if |line| == |s| then [line] else [line] + SplitLines(SkipNewlines(s[|line| + 1..]))
  }

  /** Every run of newlines as one newline. */
  function Collapsed(s: Text): Text
    decreases |s|
  {
    if s == [] then []
    else if s[0] == '\n' then "\n" + Collapsed(SkipNewlines(s[1..]))
    else [s[0]] + Collapsed(s[1..])
  }

  function JoinLines(lines: seq<Text>): Text {
    if lines == [] then [] else if |lines| == 1 then lines[0] else lines[0] + "\n" + JoinLines(lines[1..])
  }

  lemma CollapsedStep(s: Text)
    ensures s == [] ==> Collapsed(s) == [] && Until(s, '\n') == []
    ensures s != [] && s[0] == '\n' ==>
              Until(s, '\n') == [] && Collapsed(s) == "\n" + Collapsed(SkipNewlines(s[1..]))
    ensures s != [] && s[0] != '\n' ==>
              && Until(s, '\n') == [s[0]] + Until(s[1..], '\n')
              && Collapsed(s) == [s[0]] + Collapsed(s[1..])
  {
  }

  lemma {:induction false} CollapsedLine(s: Text)
    ensures var line := Until(s, '\n');
            Collapsed(s) == line + if |line| == |s| then [] else "\n" + Collapsed(SkipNewlines(s[|line| + 1..]))
    decreases |s|
  {
    hide SkipNewlines, Collapsed, Until;
    CollapsedStep(s);
    if s == [] || s[0] == '\n' {
      assert [] + Collapsed(s) == Collapsed(s);
    } else {
      CollapsedLine(s[1..]);
      var line := Until(s[1..], '\n');
      if |line| < |s| - 1 {
        assert s[1..][|line| + 1..] == s[|line| + 2..];
        var rest := "\n" + Collapsed(SkipNewlines(s[|line| + 2..]));
        assert [s[0]] + (line + rest) == [s[0]] + line + rest;
      }
    }
  }

  lemma JoinMore(line: Text, rest: seq<Text>)
    ensures JoinLines([line]) == line
    ensures rest != [] ==> JoinLines([line] + rest) == line + "\n" + JoinLines(rest)
  {
    assert ([line] + rest)[1..] == rest;
  }

  lemma SplitStep(s: Text)
    ensures var line := Until(s, '\n');
            SplitLines(s) == [line] + if |line| == |s| then [] else SplitLines(SkipNewlines(s[|line| + 1..]))
  {
    hide Until, SkipNewlines;
  }

  lemma {:induction false} JoinOfSplit(s: Text)
    ensures JoinLines(SplitLines(s)) == Collapsed(s) && SplitLines(s) != []
    decreases |s|
  {
    hide Collapsed, Until, SkipNewlines, SplitLines, JoinLines;
    CollapsedLine(s);
    SplitStep(s);
    var line := Until(s, '\n');
    if |line| == |s| {
      JoinMore(line, []);
      assert [line] + [] == [line] && line + [] == line;
    } else {
      var t := SkipNewlines(s[|line| + 1..]);
      JoinOfSplit(t);
      JoinMore(line, SplitLines(t));
      assert line + ("\n" + Collapsed(t)) == line + "\n" + Collapsed(t);
    }
  }

  lemma {:induction false} SplitOfCollapsed(s: Text)
    ensures SplitLines(Collapsed(s)) == SplitLines(s)
    decreases |s|
  {
    hide Collapsed, SkipNewlines, Until;
    CollapsedLine(s);
    var line := Until(s, '\n');
    if |line| < |s| {
      var t := SkipNewlines(s[|line| + 1..]);
      SplitOfCollapsed(t);
      UntilSplits(line, "\n" + Collapsed(t), '\n');
      assert Collapsed(s) == line + ("\n" + Collapsed(t));
      assert Collapsed(s)[|line| + 1..] == Collapsed(t);
      CollapsedStart(t);
    } else {
      UntilSplits(line, [], '\n');
      assert line + [] == line;
    }
  }

  lemma CollapsedStart(s: Text)
    requires s == [] || s[0] != '\n'
    ensures SkipNewlines(Collapsed(s)) == Collapsed(s)
  {
  }

  /** Two texts split alike exactly when they are the same up to the length of runs of newlines. */
  lemma SplitAlike(s: Text, t: Text)
    ensures SplitLines(s) == SplitLines(t) <==> Collapsed(s) == Collapsed(t)
  {
    JoinOfSplit(s);
    JoinOfSplit(t);
    SplitOfCollapsed(s);
    SplitOfCollapsed(t);
  }

  /** Lines with so many newlines after each but the last. */
  function WithRuns(lines: seq<Text>, runs: seq<nat>): Text
    requires |lines| == |runs| + 1
    decreases |runs|
  {
    if runs == [] then lines[0] else lines[0] + Newlines(runs[0]) + WithRuns(lines[1..], runs[1..])
  }

  function Newlines(n: nat): Text { seq(n, _ => '\n') }

  lemma {:induction false} SkippedNewlines(s: Text) returns (n: nat)
    ensures s == Newlines(n) + SkipNewlines(s)
    decreases |s|
  {
    if s != [] && s[0] == '\n' {
      n := SkippedNewlines(s[1..]);
      n := n + 1;
      assert s == ['\n'] + s[1..];
    } else {
      n := 0;
    }
  }

  lemma OneNewlineMore(s: Text, i: nat, n: nat, t: Text)
    requires i < |s| && s[i] == '\n' && s[i + 1..] == Newlines(n) + t
    ensures s == s[..i] + Newlines(n + 1) + t
  {
    assert Newlines(n + 1) == ['\n'] + Newlines(n);
    assert s == s[..i] + ['\n'] + s[i + 1..];
  }

  /** The text is its lines, with runs of newlines between them; only the first and the last line may be empty. */
  lemma {:induction false} SplitByRuns(s: Text) returns (runs: seq<nat>)
    ensures var lines := SplitLines(s);
            && |lines| == |runs| + 1 && s == WithRuns(lines, runs)
            && (forall i :: 0 <= i < |runs| ==> runs[i] >= 1)
            && (forall i :: 0 <= i < |lines| ==> '\n' !in lines[i])
            && (forall i :: 0 < i < |runs| ==> lines[i] != [])
            && (s != [] && s[0] != '\n' ==> lines[0] != [])
    decreases |s|
  {
    hide Until, SkipNewlines, SplitLines;
    SplitStep(s);
    var line := Until(s, '\n');
    if |line| == |s| {
      runs := [];
    } else {
      var t := SkipNewlines(s[|line| + 1..]);
      var n := SkippedNewlines(s[|line| + 1..]);
      var rest := SplitByRuns(t);
      runs := [n + 1] + rest;
      var lines := SplitLines(s);
      assert lines[1..] == SplitLines(t) && runs[1..] == rest;
      assert s == line + Newlines(n + 1) + t by { OneNewlineMore(s, |line|, n, t); }
      hide Newlines;
      forall i | 0 < i < |runs| ensures lines[i] != [] {
        assert lines[i] == SplitLines(t)[i - 1];
        if i == 1 { assert t != [] by { if t == [] { SplitNothing(); } } }
      }
    }
  }

  lemma SplitNothing()
    ensures SplitLines([]) == [[]]
  {
  }

  /** A newline put between every closing and opening bracket that touch. */
  function Broken(s: Text): Text {
    if |s| < 2 then s
    else if s[0] == '>' && s[1] == '<' then ">\n" + Broken(s[1..])
    else [s[0]] + Broken(s[1..])
  }

  predicate TouchAt(s: Text, k: int) { 0 <= k && k + 1 < |s| && s[k] == '>' && s[k + 1] == '<' }

  function Concat(chunks: seq<Text>): Text { if chunks == [] then [] else chunks[0] + Concat(chunks[1..]) }

  ghost predicate Apart(s: Text) { forall k :: !TouchAt(s, k) }

  /** One text ends in a closing bracket, and the other starts with an opening one. */
  predicate Meet(a: Text, b: Text) { a != [] && a[|a| - 1] == '>' && b != [] && b[0] == '<' }

  /** The chunks meet at brackets that touch, and nowhere inside one do any. */
  ghost predicate CutAtTouches(chunks: seq<Text>) {
    && chunks != [] && Apart(chunks[0])
    && (|chunks| > 1 ==> Meet(chunks[0], chunks[1]) && CutAtTouches(chunks[1..]))
  }

  lemma BrokenStep(s: Text)
    ensures |s| < 2 ==> Broken(s) == s
    ensures |s| >= 2 ==> Broken(s) == (if TouchAt(s, 0) then ">\n" else [s[0]]) + Broken(s[1..])
  {
  }

  lemma ConcatOne(s: Text)
    ensures Concat([s]) == s
  {
    assert [s][1..] == [] && s + [] == s;
  }

  lemma ConcatMore(chunk: Text, rest: seq<Text>)
    ensures Concat([chunk] + rest) == chunk + Concat(rest)
  {
    assert ([chunk] + rest)[1..] == rest;
  }

  lemma JoinGrows(c: Byte, chunks: seq<Text>)
    requires chunks != []
    ensures JoinLines([[c] + chunks[0]] + chunks[1..]) == [c] + JoinLines(chunks)
    ensures Concat([[c] + chunks[0]] + chunks[1..]) == [c] + Concat(chunks)
  {
    hide JoinLines, Concat;
    var first, rest := chunks[0], chunks[1..];
    assert chunks == [first] + rest;
    ConcatMore([c] + first, rest);
    ConcatMore(first, rest);
    JoinMore([c] + first, rest);
    JoinMore(first, rest);
    assert [c] + first + Concat(rest) == [c] + (first + Concat(rest));
    if rest == [] {
      assert [first] + [] == [first] && [[c] + first] + [] == [[c] + first];
    } else {
      assert [c] + first + "\n" + JoinLines(rest) == [c] + (first + "\n" + JoinLines(rest));
    }
  }

  lemma ApartGrows(c: Byte, t: Text)
    requires Apart(t) && (t != [] ==> !TouchAt([c] + t, 0))
    ensures Apart([c] + t)
  {
    forall k ensures !TouchAt([c] + t, k) {
      assert k > 0 ==> (TouchAt([c] + t, k) <==> TouchAt(t, k - 1));
    }
  }

  /** The text is cut wherever a closing bracket touches an opening one, and a newline put at each cut. */
  lemma {:induction false} BrokenByChunks(s: Text) returns (chunks: seq<Text>)
    ensures CutAtTouches(chunks) && Concat(chunks) == s && Broken(s) == JoinLines(chunks)
    ensures s != [] ==> chunks[0] != [] && chunks[0][0] == s[0]
    decreases |s|
  {
    hide Broken, JoinLines, Concat;
    BrokenStep(s);
    JoinMore(s, []);
    if |s| < 2 {
      chunks := [s];
      assert [s] + [] == [s];
      ConcatOne(s);
    } else {
      var rest := BrokenByChunks(s[1..]);
      assert s == [s[0]] + s[1..];
      if TouchAt(s, 0) {
        chunks := [[s[0]]] + rest;
        JoinMore([s[0]], rest);
        ConcatMore([s[0]], rest);
        assert [s[0]] + "\n" == ">\n" && chunks[1..] == rest && rest[0][0] == s[1..][0];
      } else {
        JoinGrows(s[0], rest);
        chunks := [[s[0]] + rest[0]] + rest[1..];
        assert chunks[1..] == rest[1..];
        ApartGrows(s[0], rest[0]);
        if |rest| > 1 { assert chunks[0][|chunks[0]| - 1] == rest[0][|rest[0]| - 1]; }
      }
    }
  }

  // ----- the comparer -----

  class StringCompare {
    const search: RegexSearch
    const replace: RegexReplace
    const layout: Hunk<Text> -> string
    const charLayout: Hunk<Byte> -> string
    const limit: nat
    var stopRegex: seq<string>
    var ignoreRegex: seq<string>

    constructor (stop: seq<string>, ignore: seq<string>, search: RegexSearch, replace: RegexReplace,
                 layout: Hunk<Text> -> string, charLayout: Hunk<Byte> -> string, limit: nat)
      ensures stopRegex == stop && ignoreRegex == ignore && this.search == search && this.replace == replace
      ensures this.layout == layout && this.charLayout == charLayout && this.limit == limit
    {
      this.search, this.replace, this.layout, this.charLayout, this.limit := search, replace, layout, charLayout, limit;
      stopRegex, ignoreRegex := stop, ignore;
    }

    function Clean(s: Text): Text
      reads this
    {
      Cleaned(ignoreRegex, s, replace)
    }

    predicate Stops(s: Text)
      reads this
    {
      Stopped(stopRegex, s, search)
    }

    predicate AnyStops(lines: seq<Text>)
      reads this
    {
      exists i :: 0 <= i < |lines| && Stops(lines[i])
    }

    /** Takes over the expressions of another comparer. */
    method Merge(other: StringCompare)
      modifies this
      ensures stopRegex == old(stopRegex + other.stopRegex) && ignoreRegex == old(ignoreRegex + other.ignoreRegex)
    {
      stopRegex, ignoreRegex := stopRegex + other.stopRegex, ignoreRegex + other.ignoreRegex;
    }

    /** Removes what the ignore expressions match, one expression after the other. */
    method IgnoreCases(str: Text) returns (out: Text)
      ensures out == Clean(str) && CleansTo(ignoreRegex, str, replace, out)
    {
      ghost var vs := CleanedByChain(ignoreRegex, str, replace);
      out := str;
      assert ignoreRegex[0..] == ignoreRegex;
      for i := 0 to |ignoreRegex|
        invariant Cleaned(ignoreRegex[i..], out, replace) == Clean(str)
      {
        out := replace(out, ignoreRegex[i], "");
        assert ignoreRegex[i..][1..] == ignoreRegex[i + 1..];
      }
    }

    method CheckStopRegex(str: Text) returns (stopped: bool)
      ensures stopped <==> Stops(str)
      ensures stopped <==> exists i :: 0 <= i < |stopRegex| && search(str, stopRegex[i])
    {
      for i := 0 to |stopRegex|
        invariant !Stopped(stopRegex[..i], str, search)
      {
        if search(str, stopRegex[i]) {
          return true;
        }
      }
      stopped := false;
    }

    /** Compares two lists of lines; the answer is whether they differ. */
    method VectDiff(src: seq<Text>, dst: seq<Text>) returns (differ: bool, output: string)
      requires limit >= 2
      ensures Reports(output, src, dst, layout)
      ensures differ <==> src != dst
      ensures differ <==> output != ""
    {
      output := PrintDiff(src, dst, limit, layout);
      differ := output != "";
    }

    /** Compares byte by byte; the answer is only whether no stop expression matched. */
    method RetrieveDiff(src: Text, dst: Text, output0: string) returns (ok: bool, output: string)
      requires limit >= 2
      ensures ok <==> !Stops(src) && !Stops(dst)
      ensures !ok ==> output == output0
      ensures ok ==> Reports(output, Clean(src), Clean(dst), charLayout)
      ensures ok ==> (output == "" <==> Clean(src) == Clean(dst))
    {
      var stopped := CheckStopRegex(src);
      if !stopped { stopped := CheckStopRegex(dst); }
      if stopped {
        return false, output0;
      }
      var a := IgnoreCases(src);
      var b := IgnoreCases(dst);
      output := PrintDiff(a, b, limit, charLayout);
      ok := true;
    }

    /** Compares headers line by line: they differ if they do beyond the length of runs of newlines. */
    method RetrieveHeaderDiff(src: Text, dst: Text, output0: string) returns (differ: bool, output: string)
      requires limit >= 2
      ensures differ <==> !Stops(src) && !Stops(dst) && Collapsed(Clean(src)) != Collapsed(Clean(dst))
      ensures if Stops(src) || Stops(dst) then output == output0
              else Reports(output, SplitLines(Clean(src)), SplitLines(Clean(dst)), layout)
      ensures !Stops(src) && !Stops(dst) ==> (differ <==> output != "")
    {
      var stopped := CheckStopRegex(src);
      if !stopped { stopped := CheckStopRegex(dst); }
      if stopped {
        return false, output0;
      }
      var a := IgnoreCases(src);
      var b := IgnoreCases(dst);
      SplitAlike(a, b);
      differ, output := VectDiff(SplitLines(a), SplitLines(b));
    }

    /** Compares bodies, broken into lines at touching brackets too. */
    method RetrieveBodyDiff(src: Text, dst: Text, output0: string) returns (differ: bool, output: string)
      requires limit >= 2
      ensures differ <==> !Stops(src) && !Stops(dst) && Collapsed(Broken(Clean(src))) != Collapsed(Broken(Clean(dst)))
      ensures if Stops(src) || Stops(dst) then output == output0
              else Reports(output, SplitLines(Broken(Clean(src))), SplitLines(Broken(Clean(dst))), layout)
      ensures !Stops(src) && !Stops(dst) ==> (differ <==> output != "")
    {
      var stopped := CheckStopRegex(src);
      if !stopped { stopped := CheckStopRegex(dst); }
      if stopped {
        return false, output0;
      }
      var a := IgnoreCases(src);
      var b := IgnoreCases(dst);
      a, b := Broken(a), Broken(b);
      SplitAlike(a, b);
      differ, output := VectDiff(SplitLines(a), SplitLines(b));
    }

    /** Cleans every line, unless a stop expression matches one. */
    method CleanLines(lines: seq<Text>) returns (ok: bool, copy: seq<Text>)
      ensures ok <==> !AnyStops(lines)
      ensures ok ==> copy == CleanedAll(ignoreRegex, lines, replace)
    {
      hide Stopped, Cleaned;
      copy := [];
      for i := 0 to |lines|
        invariant |copy| == i && forall k :: 0 <= k < i ==> !Stops(lines[k]) && copy[k] == Clean(lines[k])
      {
        var stopped := CheckStopRegex(lines[i]);
        if stopped {
          return false, copy;
        }
        var line := IgnoreCases(lines[i]);
        copy := copy + [line];
      }
      ok := true;
    }

    /** Compares lists of lines as they are. */
    method RetrieveLinesDiff(src: seq<Text>, dst: seq<Text>, output0: string) returns (differ: bool, output: string)
      requires limit >= 2
      ensures var stopped := AnyStops(src) || AnyStops(dst);
              var a, b := CleanedAll(ignoreRegex, src, replace), CleanedAll(ignoreRegex, dst, replace);
              && (differ <==> !stopped && a != b)
              && (stopped ==> output == output0)
              && (!stopped ==> Reports(output, a, b, layout) && (differ <==> output != ""))
    {
      hide Stopped, Cleaned, Reports;
      differ, output := false, output0;
      var ok, a := CleanLines(src);
      if !ok { return; }
      var b;
      ok, b := CleanLines(dst);
      if !ok { return; }
      differ, output := VectDiff(a, b);
    }

    /** Hands the report of two lists of lines to a printer, which gets it exactly when they differ. */
    method PrintLinesDiff(src: seq<Text>, dst: seq<Text>, printer: seq<string>)
      returns (differ: bool, newPrinter: seq<string>)
      requires limit >= 2
      ensures var stopped := AnyStops(src) || AnyStops(dst);
              var a, b := CleanedAll(ignoreRegex, src, replace), CleanedAll(ignoreRegex, dst, replace);
              && (differ <==> !stopped && a != b)
              && if differ then
                   |newPrinter| == |printer| + 1 && newPrinter[..|printer|] == printer
                   && Reports(newPrinter[|printer|], a, b, layout)
                 else
                   newPrinter == printer
    {
      hide Stopped, Cleaned, Reports;
      var out;
      differ, out := RetrieveLinesDiff(src, dst, "");
      newPrinter := if out != "" then printer + [out] else printer;
    }
  }
}
