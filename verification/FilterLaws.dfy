/**
 * What the decision comes to, spelled out part by part, and which filter is picked when several match.
 */
module FilterLaws {
  import opened Bytes
  import opened Filters
  import opened Options
  import opened QueryArgs
  import opened Regexes
  import opened Scopes
  import opened UrlCodec

  // ----- letters, lists and order -----

  /** Letters by their place in the alphabet; everything else stays. */
  lemma LowerByTable(c: Byte)
    ensures forall n :: 0 <= n < 26 && c == UPPER_LETTERS[n] ==> LowerByte(c) == LOWER_LETTERS[n]
    ensures c !in UPPER_LETTERS ==> LowerByte(c) == c
  {
    LettersByTable(c);
    hide LOWER_LETTERS, UPPER_LETTERS;
    LetterCounts();
    forall n | 0 <= n < 26 && c == UPPER_LETTERS[n] ensures LowerByte(c) == LOWER_LETTERS[n] {
      LowerLetter(n);
      UpperLetter(n);
    }
  }

  /** Where the pair at i starts in the flattened list. */
  function Offset(list: seq<KeyVal>, i: nat): nat
    requires i <= |list|
  {
    if i == 0 then 0 else Offset(list, i - 1) + |list[i - 1].key| + 2 + |list[i - 1].value|
  }

  lemma {:induction false} OffsetStep(list: seq<KeyVal>, i: nat)
    requires 0 < i <= |list|
    ensures Offset(list, i) == |list[0].key| + 2 + |list[0].value| + Offset(list[1..], i - 1)
    decreases i
  {
    if i > 1 { OffsetStep(list, i - 1); }
  }

  /** Key, separator and value of every pair stand one after the other, and nothing else does. */
  lemma {:induction false} FlattenByOffset(list: seq<KeyVal>, i: nat)
    requires i < |list|
    ensures var o, kv, s := Offset(list, i), list[i], Flatten(list);
            && Offset(list, i + 1) == o + |kv.key| + 2 + |kv.value| <= |s| == Offset(list, |list|)
            && s[o..Offset(list, i + 1)] == kv.key + ": " + kv.value
    decreases |list|
  {
    hide Offset, Flatten;
    var head, rest := list[0].key + ": " + list[0].value, Flatten(list[1..]);
    FlattenLength(list);
    FlattenLength(list[1..]);
    OffsetStep(list, |list|);
    FlattenFirst(list);
    if i > 0 {
      FlattenByOffset(list[1..], i - 1);
      OffsetStep(list, i);
      OffsetStep(list, i + 1);
      assert list[1..][i - 1] == list[i];
      Shifted(head, rest, Offset(list[1..], i - 1), Offset(list[1..], i));
    } else {
      OffsetStep(list, 1);
    }
  }

  lemma FlattenFirst(list: seq<KeyVal>)
    requires list != []
    ensures Flatten(list) == list[0].key + ": " + list[0].value + Flatten(list[1..])
    ensures Offset(list, 0) == 0 == Offset(list[1..], 0)
  {
  }

  lemma Shifted(head: Text, rest: Text, lo: nat, hi: nat)
    requires lo <= hi <= |rest|
    ensures (head + rest)[|head| + lo..|head| + hi] == rest[lo..hi]
  {
  }

  lemma {:induction false} FlattenLength(list: seq<KeyVal>)
    ensures |Flatten(list)| == Offset(list, |list|)
    decreases |list|
  {
    if list == [] {
    } else {
      FlattenLength(list[1..]);
      OffsetStep(list, |list|);
    }
  }

  /** The first n bytes are the same, and then a ends, or its next byte is the smaller one. */
  predicate PrecedesAt(a: Text, b: Text, n: nat) {
    n <= |a| && n < |b| && a[..n] == b[..n] && (n == |a| || a[n] < b[n])
  }

  /** Destinations are in the order of a dictionary. */
  lemma {:induction false} LessIsLexicographic(a: Text, b: Text)
    ensures Less(a, b) <==> exists n :: PrecedesAt(a, b, n)
    decreases |a|
  {
    if b == [] {
    } else if a == [] || a[0] != b[0] {
      if Less(a, b) { assert PrecedesAt(a, b, 0); }
      if n: nat :| PrecedesAt(a, b, n) {
        assert n == 0;
      }
    } else {
      var x, y := a[1..], b[1..];
      LessIsLexicographic(x, y);
      if Less(a, b) {
        var n: nat :| PrecedesAt(x, y, n);
        assert a[..n + 1] == [a[0]] + x[..n] && b[..n + 1] == [b[0]] + y[..n];
        assert PrecedesAt(a, b, n + 1);
      }
      if n: nat :| PrecedesAt(a, b, n) {
        assert n > 0;
        assert x[..n - 1] == a[..n][1..] && y[..n - 1] == b[..n][1..];
        assert PrecedesAt(x, y, n - 1);
      }
    }
  }

  // ----- matching, part by part -----

  /** The filter finds a key of the list that is its own but for case, with a value that it matches. */
  ghost predicate Finds(kf: KeyFilter, list: seq<KeyVal>, search: RegexSearch) {
    exists kv :: kv in list && Lower(kf.key) == Lower(kv.key) && search(kv.value, kf.filter.regex)
  }

  ghost predicate KeyHit(kf: KeyFilter, r: Request, codec: Codec, search: RegexSearch) {
    || (Covers(kf.filter.scope, QUERY_STRING) && Finds(kf, r.parsedArgs, search))
    || (Covers(kf.filter.scope, HEADERS) && Finds(kf, r.headersIn, search))
    || (Covers(kf.filter.scope, BODY) && Finds(kf, Parsed(codec, r.body), search))
  }

  predicate RawHit(f: Filter, r: Request, search: RegexSearch) {
    || (Covers(f.scope, METHOD) && search(r.httpMethod, f.regex))
    || (Covers(f.scope, PATH) && search(r.path, f.regex))
    || (Covers(f.scope, QUERY_STRING) && search(r.args, f.regex))
    || (Covers(f.scope, HEADERS) && search(Flatten(r.headersIn), f.regex))
    || (Covers(f.scope, BODY) && search(r.body, f.regex))
  }

  /** Some filter of this kind matches. */
  ghost predicate Hit(c: Commands, r: Request, codec: Codec, kind: FilterType, search: RegexSearch) {
    || (exists kf :: kf in c.filters && kf.filter.filterType == kind && KeyHit(kf, r, codec, search))
    || (exists f :: f in c.rawFilters && f.filterType == kind && RawHit(f, r, search))
  }

  lemma RawMatchesInFull(f: Filter, r: Request, search: RegexSearch)
    ensures RawMatches(f, r, search) <==> RawHit(f, r, search)
  {
    hide Covers, Flatten;
    RawMatchesByPart(f, r, search);
  }

  lemma KeyMatchesInFull(filters: seq<KeyFilter>, args: seq<KeyVal>, part: Part, kind: FilterType, search: RegexSearch)
    ensures KeyMatches(filters, args, part, kind, search) <==>
              exists kf :: kf in filters && kf.filter.filterType == kind && Covers(kf.filter.scope, ScopeOf(part))
                           && Finds(kf, args, search)
  {
    hide Covers, Lower, ScopeOf;
    if KeyMatches(filters, args, part, kind, search) {
      var kf, kv :| kf in filters && kv in args && KeyMatch(kf, kv, part, kind, search);
      assert Finds(kf, args, search);
    }
    forall kf | kf in filters && kf.filter.filterType == kind && Covers(kf.filter.scope, ScopeOf(part))
                && Finds(kf, args, search)
      ensures KeyMatches(filters, args, part, kind, search)
    {
      var kv :| kv in args && Lower(kf.key) == Lower(kv.key) && search(kv.value, kf.filter.regex);
      assert KeyMatch(kf, kv, part, kind, search);
    }
  }

  /** What matching means, without any helper notion of parts. */
  lemma MatchesInFull(c: Commands, r: Request, codec: Codec, kind: FilterType, search: RegexSearch)
    ensures Matches(c, r, codec, kind, search) <==> Hit(c, r, codec, kind, search)
  {
    hide Covers, Parsed, Finds, RawHit, RawMatches, KeyMatches;
    MatchesByPart(c, r, codec, kind, search);
    KeyMatchesInFull(c.filters, r.parsedArgs, InQueryString, kind, search);
    KeyMatchesInFull(c.filters, r.headersIn, InHeaders, kind, search);
    KeyMatchesInFull(c.filters, Parsed(codec, r.body), InBody, kind, search);
    forall f ensures RawMatches(f, r, search) <==> RawHit(f, r, search) { RawMatchesInFull(f, r, search); }
  }

  // ----- the first match -----

  predicate Suits(kf: KeyFilter, kv: KeyVal, scope: Scope, kind: FilterType, search: RegexSearch) {
    && Lower(kf.key) == Lower(kv.key) && Covers(kf.filter.scope, scope) && kf.filter.filterType == kind
    && search(kv.value, kf.filter.regex)
  }

  /** The filter at k suits the pair at i; no earlier pair has one that suits, and no earlier filter suits this one. */
  ghost predicate FirstSuits(filters: seq<KeyFilter>, args: seq<KeyVal>, scope: Scope, kind: FilterType,
                             search: RegexSearch, f: Filter)
  {
    exists i, k ::
      && 0 <= i < |args| && 0 <= k < |filters| && f == filters[k].filter
      && Suits(filters[k], args[i], scope, kind, search)
      && (forall j, l :: 0 <= j < i && 0 <= l < |filters| ==> !Suits(filters[l], args[j], scope, kind, search))
      && (forall l :: 0 <= l < k ==> !Suits(filters[l], args[i], scope, kind, search))
  }

  lemma {:induction false} FirstForIsFirst(filters: seq<KeyFilter>, kv: KeyVal, part: Part, kind: FilterType,
                                           search: RegexSearch) returns (k: nat)
    ensures k <= |filters| && forall l :: 0 <= l < k ==> !Suits(filters[l], kv, ScopeOf(part), kind, search)
    ensures k < |filters| ==> Suits(filters[k], kv, ScopeOf(part), kind, search)
    ensures FirstFor(filters, kv, part, kind, search) == if k == |filters| then None else Some(filters[k].filter)
    decreases |filters|
  {
    hide Covers, Lower, ScopeOf;
    if filters == [] {
      k := 0;
    } else if KeyMatch(filters[0], kv, part, kind, search) {
      k := 0;
    } else {
      k := FirstForIsFirst(filters[1..], kv, part, kind, search);
      k := k + 1;
    }
  }

  lemma {:induction false} FirstKeyMatchIsFirst(filters: seq<KeyFilter>, args: seq<KeyVal>, part: Part,
                                                kind: FilterType, search: RegexSearch)
    ensures var f := FirstKeyMatch(filters, args, part, kind, search);
            f.Some? ==> FirstSuits(filters, args, ScopeOf(part), kind, search, f.value)
    decreases |args|
  {
    hide Suits, FirstFor, ScopeOf;
    if args == [] {
    } else {
      var k := FirstForIsFirst(filters, args[0], part, kind, search);
      if k < |filters| {
        assert Suits(filters[k], args[0], ScopeOf(part), kind, search);
      } else {
        FirstKeyMatchIsFirst(filters, args[1..], part, kind, search);
        var f := FirstKeyMatch(filters, args[1..], part, kind, search);
        if f.Some? { LaterSuits(filters, args, ScopeOf(part), kind, search, f.value); }
      }
    }
  }

  lemma LaterSuits(filters: seq<KeyFilter>, args: seq<KeyVal>, scope: Scope, kind: FilterType, search: RegexSearch,
                   f: Filter)
    requires args != [] && FirstSuits(filters, args[1..], scope, kind, search, f)
    requires forall l :: 0 <= l < |filters| ==> !Suits(filters[l], args[0], scope, kind, search)
    ensures FirstSuits(filters, args, scope, kind, search, f)
  {
    hide Suits;
    var i, k :|
      && 0 <= i < |args[1..]| && 0 <= k < |filters| && f == filters[k].filter
      && Suits(filters[k], args[1..][i], scope, kind, search)
      && (forall j, l :: 0 <= j < i && 0 <= l < |filters| ==> !Suits(filters[l], args[1..][j], scope, kind, search))
      && (forall l :: 0 <= l < k ==> !Suits(filters[l], args[1..][i], scope, kind, search));
    assert args[1..][i] == args[i + 1];
    forall j, l | 0 <= j < i + 1 && 0 <= l < |filters| ensures !Suits(filters[l], args[j], scope, kind, search) {
      if j > 0 { assert args[j] == args[1..][j - 1]; }
    }
  }

  ghost predicate FirstRawSuits(filters: seq<Filter>, r: Request, search: RegexSearch, f: Filter) {
    exists k :: 0 <= k < |filters| && f == filters[k] && f.filterType == REGULAR && RawHit(f, r, search)
                && forall l :: 0 <= l < k ==> filters[l].filterType == REGULAR ==> !RawHit(filters[l], r, search)
  }

  lemma {:induction false} FirstRawIsFirst(filters: seq<Filter>, r: Request, search: RegexSearch)
    ensures var f := FirstRaw(filters, r, search); f.Some? ==> FirstRawSuits(filters, r, search, f.value)
    decreases |filters|
  {
    hide RawHit, RawMatches;
    if filters == [] {
    } else {
      RawMatchesInFull(filters[0], r, search);
      if filters[0].filterType == REGULAR && RawMatches(filters[0], r, search) {
        assert filters[0] == FirstRaw(filters, r, search).value;
      } else {
        FirstRawIsFirst(filters[1..], r, search);
        var f := FirstRaw(filters[1..], r, search);
        if f.Some? {
          var k :| 0 <= k < |filters[1..]| && f.value == filters[1..][k] && f.value.filterType == REGULAR
                   && RawHit(f.value, r, search)
                   && forall l :: 0 <= l < k ==> filters[1..][l].filterType == REGULAR ==>
                                    !RawHit(filters[1..][l], r, search);
          forall l | 0 <= l < k + 1 && filters[l].filterType == REGULAR ensures !RawHit(filters[l], r, search) {
            if l > 0 { assert filters[l] == filters[1..][l - 1]; }
          }
          assert filters[k + 1] == f.value;
        }
      }
    }
  }

  /** Some filter in the list suits some pair. */
  ghost predicate AnySuits(filters: seq<KeyFilter>, args: seq<KeyVal>, scope: Scope, kind: FilterType,
                           search: RegexSearch)
  {
    exists kf, kv :: kf in filters && kv in args && Suits(kf, kv, scope, kind, search)
  }

  lemma AnySuitsInFull(filters: seq<KeyFilter>, args: seq<KeyVal>, part: Part, kind: FilterType, search: RegexSearch)
    ensures KeyMatches(filters, args, part, kind, search) <==> AnySuits(filters, args, ScopeOf(part), kind, search)
  {
    hide Covers, Lower, ScopeOf;
    assert forall kf, kv ::
             KeyMatch(kf, kv, part, kind, search) <==> Suits(kf, kv, ScopeOf(part), kind, search);
  }

  /** The picked filter is the first match on the query string, or else on headers, on the body, or a raw one. */
  ghost predicate PickedFirst(c: Commands, r: Request, codec: Codec, search: RegexSearch, f: Filter) {
    var body := Parsed(codec, r.body);
    if AnySuits(c.filters, r.parsedArgs, QUERY_STRING, REGULAR, search) then
      FirstSuits(c.filters, r.parsedArgs, QUERY_STRING, REGULAR, search, f)
    else if AnySuits(c.filters, r.headersIn, HEADERS, REGULAR, search) then
      FirstSuits(c.filters, r.headersIn, HEADERS, REGULAR, search, f)
    else if AnySuits(c.filters, body, BODY, REGULAR, search) then
      FirstSuits(c.filters, body, BODY, REGULAR, search, f)
    else
      FirstRawSuits(c.rawFilters, r, search, f)
  }

  lemma PickedIsFirst(c: Commands, r: Request, codec: Codec, search: RegexSearch)
    ensures var f := Picked(c, r, codec, search); f.Some? ==> PickedFirst(c, r, codec, search, f.value)
  {
    hide Parsed, KeyMatch, KeyMatches, FirstKeyMatch, FirstRaw, AnySuits, FirstSuits, FirstRawSuits;
    var body := Parsed(codec, r.body);
    KeyPartFirst(c, r.parsedArgs, InQueryString, search);
    KeyPartFirst(c, r.headersIn, InHeaders, search);
    KeyPartFirst(c, body, InBody, search);
    FirstRawIsFirst(c.rawFilters, r, search);
  }

  lemma KeyPartFirst(c: Commands, args: seq<KeyVal>, part: Part, search: RegexSearch)
    ensures var f := FirstKeyMatch(c.filters, args, part, REGULAR, search);
            && (f.Some? <==> AnySuits(c.filters, args, ScopeOf(part), REGULAR, search))
            && (f.Some? ==> FirstSuits(c.filters, args, ScopeOf(part), REGULAR, search, f.value))
  {
    hide KeyMatch, KeyMatches, FirstKeyMatch, AnySuits, FirstSuits;
    FirstKeyMatchIsMatch(c.filters, args, part, REGULAR, search);
    AnySuitsInFull(c.filters, args, part, REGULAR, search);
    FirstKeyMatchIsFirst(c.filters, args, part, REGULAR, search);
  }

  /** What is decided about one destination. */
  lemma DecisionInFull(c: Commands, r: Request, codec: Codec, search: RegexSearch)
    ensures var f := Decision(c, r, codec, search);
            && (f.Some? <==> Hit(c, r, codec, REGULAR, search) && !Hit(c, r, codec, PREVENT_DUPLICATION, search))
            && (f.Some? ==> PickedFirst(c, r, codec, search, f.value))
  {
    hide Matches, Hit, Picked, PickedFirst, IsMatch;
    DecisionIsExact(c, r, codec, search);
    MatchesInFull(c, r, codec, REGULAR, search);
    MatchesInFull(c, r, codec, PREVENT_DUPLICATION, search);
    PickedIsFirst(c, r, codec, search);
  }

  // ----- all destinations -----

  function Somes(choices: seq<Option<Filter>>): seq<Filter> {
    if choices == [] then [] else (if choices[0].Some? then [choices[0].value] else []) + Somes(choices[1..])
  }

  /** Each destination's choice: a filter exactly if a regular one matches and no preventing one does. */
  ghost predicate Chosen(m: seq<Entry>, r: Request, codec: Codec, search: RegexSearch, choices: seq<Option<Filter>>) {
    && |choices| == |m|
    && forall i :: 0 <= i < |m| ==>
         var c, f := m[i].commands, choices[i];
         && (f.Some? <==> Hit(c, r, codec, REGULAR, search) && !Hit(c, r, codec, PREVENT_DUPLICATION, search))
         && (f.Some? ==> PickedFirst(c, r, codec, search, f.value))
  }

  lemma {:induction false} SelectedByChoice(m: seq<Entry>, r: Request, codec: Codec, search: RegexSearch)
    returns (choices: seq<Option<Filter>>)
    ensures Chosen(m, r, codec, search, choices) && Selected(m, r, codec, search) == Somes(choices)
    decreases |m|
  {
    hide Hit, PickedFirst, Decision;
    if m == [] {
      choices := [];
    } else {
      var rest := SelectedByChoice(m[1..], r, codec, search);
      DecisionInFull(m[0].commands, r, codec, search);
      choices := [Decision(m[0].commands, r, codec, search)] + rest;
      assert choices[1..] == rest;
    }
  }
}
