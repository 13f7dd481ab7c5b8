/**
 * The decision which duplication destinations get a request: key and raw filters, regular ones
 * and ones that prevent duplication. Regular expressions are a given predicate.
 */
module Filters {
  import opened Bytes
  import opened Options
  import opened QueryArgs
  import opened Regexes
  import opened Scopes
  import opened UrlCodec

  datatype FilterType = REGULAR | PREVENT_DUPLICATION

  datatype Filter = Filter(regex: string, scope: Scope, destination: Text, filterType: FilterType)

  /** A key filter and the upper-case key it is stored under. */
  datatype KeyFilter = KeyFilter(key: Text, filter: Filter)

  /** The filters of one destination; the key filters of one key are in insertion order. */
  datatype Commands = Commands(filters: seq<KeyFilter>, rawFilters: seq<Filter>)

  datatype Request = Request(conf: nat, httpMethod: Text, path: Text, args: Text, parsedArgs: seq<KeyVal>,
                             headersIn: seq<KeyVal>, body: Text)

  /** The parts of a request that filters look at. */
  datatype Part = InMethod | InPath | InQueryString | InHeaders | InBody

  function ScopeOf(part: Part): Scope {
    match part
    case InMethod => METHOD
    case InPath => PATH
    case InQueryString => QUERY_STRING
    case InHeaders => HEADERS
    case InBody => BODY
  }

  predicate Applies(f: Filter, part: Part) { Covers(f.scope, ScopeOf(part)) }

  function Flatten(list: seq<KeyVal>): Text {
    if list == [] then [] else list[0].key + ": " + list[0].value + Flatten(list[1..])
  }

  function TextOf(r: Request, part: Part): Text {
    match part
    case InMethod => r.httpMethod
    case InPath => r.path
    case InQueryString => r.args
    case InHeaders => Flatten(r.headersIn)
    case InBody => r.body
  }

  function LowerByte(c: Byte): Byte { if 'A' <= c <= 'Z' then (c as int + 32) as char else c }

  function Lower(s: Text): Text { seq(|s|, i requires 0 <= i < |s| => LowerByte(s[i])) }

  // ----- what it means to match -----

  predicate KeyMatch(kf: KeyFilter, kv: KeyVal, part: Part, kind: FilterType, search: RegexSearch) {
    && Lower(kf.key) == Lower(kv.key) && Applies(kf.filter, part)
    && kf.filter.filterType == kind && search(kv.value, kf.filter.regex)
  }

  /** The keys and values in a part of the request. */
  function ArgsOf(r: Request, codec: Codec, part: Part): seq<KeyVal> {
    match part
    case InQueryString => r.parsedArgs
    case InHeaders => r.headersIn
    case InBody => Parsed(codec, r.body)
    case _ => []
  }

  ghost predicate KeyMatches(filters: seq<KeyFilter>, args: seq<KeyVal>, part: Part, kind: FilterType,
                             search: RegexSearch)
  {
    exists kf, kv :: kf in filters && kv in args && KeyMatch(kf, kv, part, kind, search)
  }

  predicate RawMatch(f: Filter, r: Request, part: Part, search: RegexSearch) {
    Applies(f, part) && search(TextOf(r, part), f.regex)
  }

  ghost predicate RawMatches(f: Filter, r: Request, search: RegexSearch) {
    exists part :: RawMatch(f, r, part, search)
  }

  /** Some filter of this kind matches the request on a part in its scope. */
  ghost predicate Matches(c: Commands, r: Request, codec: Codec, kind: FilterType, search: RegexSearch) {
    || (exists part :: KeyMatches(c.filters, ArgsOf(r, codec, part), part, kind, search))
    || (exists f :: f in c.rawFilters && f.filterType == kind && RawMatches(f, r, search))
  }

  /** The request goes to the destination of these commands. */
  ghost predicate Wanted(c: Commands, r: Request, codec: Codec, search: RegexSearch) {
    Matches(c, r, codec, REGULAR, search) && !Matches(c, r, codec, PREVENT_DUPLICATION, search)
  }

  /** f is one of the regular filters in c that match. */
  ghost predicate IsMatch(f: Filter, c: Commands, r: Request, codec: Codec, search: RegexSearch) {
    && f.filterType == REGULAR
    && (|| (exists kf, kv, part :: kf in c.filters && kf.filter == f && kv in ArgsOf(r, codec, part)
                                   && KeyMatch(kf, kv, part, REGULAR, search))
        || (f in c.rawFilters && RawMatches(f, r, search)))
  }

  /** Raw filters look at all five parts, key filters at three of them. */
  lemma MatchesByPart(c: Commands, r: Request, codec: Codec, kind: FilterType, search: RegexSearch)
    ensures Matches(c, r, codec, kind, search)
       <==> || KeyMatches(c.filters, r.parsedArgs, InQueryString, kind, search)
            || KeyMatches(c.filters, r.headersIn, InHeaders, kind, search)
            || KeyMatches(c.filters, Parsed(codec, r.body), InBody, kind, search)
            || exists f :: f in c.rawFilters && f.filterType == kind && RawMatches(f, r, search)
  {
    hide KeyMatches, RawMatches, Parsed;
    NoKeysElsewhere(c.filters, kind, search);
    assert ArgsOf(r, codec, InQueryString) == r.parsedArgs && ArgsOf(r, codec, InHeaders) == r.headersIn;
    assert ArgsOf(r, codec, InBody) == Parsed(codec, r.body);
  }

  lemma RawMatchesByPart(f: Filter, r: Request, search: RegexSearch)
    ensures RawMatches(f, r, search)
       <==> || RawMatch(f, r, InMethod, search) || RawMatch(f, r, InPath, search)
            || RawMatch(f, r, InQueryString, search)
            || RawMatch(f, r, InHeaders, search) || RawMatch(f, r, InBody, search)
  {
    hide RawMatch;
    forall part | RawMatch(f, r, part, search)
      ensures part == InMethod || part == InPath || part == InQueryString || part == InHeaders || part == InBody {}
  }

  lemma NoKeysElsewhere(filters: seq<KeyFilter>, kind: FilterType, search: RegexSearch)
    ensures !KeyMatches(filters, [], InMethod, kind, search) && !KeyMatches(filters, [], InPath, kind, search)
  {
  }

  // ----- which filter is picked -----

  /** The first filter in the list that matches kv. */
  function FirstFor(filters: seq<KeyFilter>, kv: KeyVal, part: Part, kind: FilterType, search: RegexSearch)
    : Option<Filter>
  {
    if filters == [] then None
    else if KeyMatch(filters[0], kv, part, kind, search) then Some(filters[0].filter)
    else FirstFor(filters[1..], kv, part, kind, search)
  }

  /** Keys are tried in the order of the request. */
  function FirstKeyMatch(filters: seq<KeyFilter>, args: seq<KeyVal>, part: Part, kind: FilterType, search: RegexSearch)
    : Option<Filter>
  {
    if args == [] then None
    else
      var first := FirstFor(filters, args[0], part, kind, search);
      if first.Some? then first else FirstKeyMatch(filters, args[1..], part, kind, search)
  }

  ghost function FirstRaw(filters: seq<Filter>, r: Request, search: RegexSearch): Option<Filter> {
    if filters == [] then None
    else if filters[0].filterType == REGULAR && RawMatches(filters[0], r, search) then Some(filters[0])
    else FirstRaw(filters[1..], r, search)
  }

  function Or(a: Option<Filter>, b: Option<Filter>): Option<Filter> { if a.Some? then a else b }

  /** Query string, headers, body, then raw filters. */
  ghost function Picked(c: Commands, r: Request, codec: Codec, search: RegexSearch): Option<Filter> {
    Or(FirstKeyMatch(c.filters, r.parsedArgs, InQueryString, REGULAR, search),
       Or(FirstKeyMatch(c.filters, r.headersIn, InHeaders, REGULAR, search),
          Or(FirstKeyMatch(c.filters, Parsed(codec, r.body), InBody, REGULAR, search),
             FirstRaw(c.rawFilters, r, search))))
  }

  lemma {:induction false} FirstForIsMatch(filters: seq<KeyFilter>, kv: KeyVal, part: Part, kind: FilterType,
                                           search: RegexSearch)
    ensures var f := FirstFor(filters, kv, part, kind, search);
            && (f.Some? <==> exists kf :: kf in filters && KeyMatch(kf, kv, part, kind, search))
            && (f.Some? ==> exists kf :: kf in filters && kf.filter == f.value && KeyMatch(kf, kv, part, kind, search))
    decreases |filters|
  {
    hide KeyMatch;
    if filters == [] {
    } else {
      FirstForIsMatch(filters[1..], kv, part, kind, search);
      assert filters == [filters[0]] + filters[1..];
    }
  }

  lemma {:induction false} FirstKeyMatchIsMatch(filters: seq<KeyFilter>, args: seq<KeyVal>, part: Part,
                                                kind: FilterType, search: RegexSearch)
    ensures var f := FirstKeyMatch(filters, args, part, kind, search);
            && (f.Some? <==> KeyMatches(filters, args, part, kind, search))
            && (f.Some? ==> exists kf, kv :: kf in filters && kf.filter == f.value && kv in args
                                             && KeyMatch(kf, kv, part, kind, search))
    decreases |args|
  {
    hide KeyMatch;
    if args == [] {
    } else {
      FirstForIsMatch(filters, args[0], part, kind, search);
      FirstKeyMatchIsMatch(filters, args[1..], part, kind, search);
      assert args == [args[0]] + args[1..];
    }
  }

  lemma {:induction false} FirstRawIsMatch(filters: seq<Filter>, r: Request, search: RegexSearch)
    ensures var f := FirstRaw(filters, r, search);
            && (f.Some? <==> exists g :: g in filters && g.filterType == REGULAR && RawMatches(g, r, search))
            && (f.Some? ==> f.value in filters && f.value.filterType == REGULAR && RawMatches(f.value, r, search))
    decreases |filters|
  {
    hide RawMatches;
    if filters == [] {
    } else {
      FirstRawIsMatch(filters[1..], r, search);
      assert filters == [filters[0]] + filters[1..];
    }
  }

  /** A filter is picked exactly when one matches, and it is one that does. */
  lemma PickedIsMatch(c: Commands, r: Request, codec: Codec, search: RegexSearch)
    ensures var f := Picked(c, r, codec, search);
            && (f.Some? <==> Matches(c, r, codec, REGULAR, search))
            && (f.Some? ==> IsMatch(f.value, c, r, codec, search))
  {
    hide KeyMatch, RawMatches, Parsed, FirstKeyMatch, FirstRaw, KeyMatches;
    KeyPick(c, r, codec, InQueryString, search);
    KeyPick(c, r, codec, InHeaders, search);
    KeyPick(c, r, codec, InBody, search);
    NoKeysElsewhere(c.filters, REGULAR, search);
    FirstRawIsMatch(c.rawFilters, r, search);
  }

  lemma KeyPick(c: Commands, r: Request, codec: Codec, part: Part, search: RegexSearch)
    ensures var f := FirstKeyMatch(c.filters, ArgsOf(r, codec, part), part, REGULAR, search);
            && (f.Some? <==> KeyMatches(c.filters, ArgsOf(r, codec, part), part, REGULAR, search))
            && (f.Some? ==> IsMatch(f.value, c, r, codec, search))
  {
    hide FirstKeyMatch, ArgsOf;
    FirstKeyMatchIsMatch(c.filters, ArgsOf(r, codec, part), part, REGULAR, search);
  }

  // ----- destinations in order -----

  predicate Less(a: Text, b: Text) {
    b != [] && (a == [] || a[0] < b[0] || (a[0] == b[0] && Less(a[1..], b[1..])))
  }

  lemma {:induction false} LessIsTotal(a: Text, b: Text)
    ensures a == b || Less(a, b) || Less(b, a)
    ensures !(Less(a, b) && Less(b, a)) && !Less(a, a)
    decreases |a|
  {
    if a == [] {
    } else {
      LessIsTotal(a[1..], a[1..]);
      if b != [] {
        LessIsTotal(a[1..], b[1..]);
        assert a == [a[0]] + a[1..] && b == [b[0]] + b[1..];
      }
    }
  }

  lemma {:induction false} LessTransitive(a: Text, b: Text, c: Text)
    requires Less(a, b) && Less(b, c)
    ensures Less(a, c)
    decreases |a|
  {
    if a != [] && a[0] == b[0] == c[0] {
      LessTransitive(a[1..], b[1..], c[1..]);
    }
  }

  datatype Entry = Entry(destination: Text, commands: Commands)

  /** A map from destinations, kept in their order. */
  predicate Ordered(m: seq<Entry>) {
    forall i, j :: 0 <= i < j < |m| ==> Less(m[i].destination, m[j].destination)
  }

  function Find(m: seq<Entry>, d: Text): Option<Commands> {
    if m == [] then None else if m[0].destination == d then Some(m[0].commands) else Find(m[1..], d)
  }

  function At(m: seq<Entry>, d: Text): Commands {
    var c := Find(m, d);
    if c.Some? then c.value else Commands([], [])
  }

  /** The map with the commands of d replaced, or added at its place. */
  function Put(m: seq<Entry>, d: Text, c: Commands): seq<Entry> {
    if m == [] || Less(d, m[0].destination) then [Entry(d, c)] + m
    else if m[0].destination == d then [Entry(d, c)] + m[1..]
    else [m[0]] + Put(m[1..], d, c)
  }

  lemma {:induction false} PutInOrder(m: seq<Entry>, d: Text, c: Commands)
    requires Ordered(m)
    ensures Ordered(Put(m, d, c))
    ensures forall e :: e in Put(m, d, c) <==> e == Entry(d, c) || (e in m && e.destination != d)
    decreases |m|
  {
    if m == [] {
    } else {
      LessIsTotal(d, m[0].destination);
      LessIsTotal(d, d);
      assert m == [m[0]] + m[1..];
      if Less(d, m[0].destination) {
        forall j | 1 <= j < |m| ensures Less(d, m[j].destination) {
          LessTransitive(d, m[0].destination, m[j].destination);
        }
      } else if m[0].destination != d {
        PutInOrder(m[1..], d, c);
        var p := Put(m[1..], d, c);
        forall j | 0 <= j < |p| ensures Less(m[0].destination, p[j].destination) {
          assert p[j] in p;
        }
      }
    }
  }

  /** Looking a destination up finds its one entry. */
  lemma {:induction false} FindInOrder(m: seq<Entry>, d: Text)
    requires Ordered(m)
    ensures forall c :: Entry(d, c) in m <==> Find(m, d) == Some(c)
    decreases |m|
  {
    if m == [] {
    } else {
      assert m == [m[0]] + m[1..];
      FindInOrder(m[1..], d);
      if m[0].destination == d {
        forall j | 1 <= j < |m| ensures m[j].destination != d {
          LessIsTotal(d, m[j].destination);
        }
      }
    }
  }

  // ----- the invariant of a configuration -----

  const KEYED: Scope := 14

  /** Every filter belongs to the destination it is stored under; key filters have a scope with keys. */
  predicate Owned(e: Entry) {
    && (forall kf :: kf in e.commands.filters ==>
          kf.filter.destination == e.destination && Covers(kf.filter.scope, KEYED))
    && (forall f :: f in e.commands.rawFilters ==> f.destination == e.destination)
  }

  predicate WellFormed(m: seq<Entry>) { Ordered(m) && forall e :: e in m ==> Owned(e) }

  function WithKey(c: Commands, kf: KeyFilter): Commands { c.(filters := c.filters + [kf]) }

  function WithRaw(c: Commands, f: Filter): Commands { c.(rawFilters := c.rawFilters + [f]) }

  lemma PutKeepsWellFormed(m: seq<Entry>, d: Text, c: Commands)
    requires WellFormed(m) && Owned(Entry(d, c))
    ensures WellFormed(Put(m, d, c))
  {
    hide Owned, Put, Ordered;
    PutInOrder(m, d, c);
  }

  lemma AtIsOwned(m: seq<Entry>, d: Text)
    requires WellFormed(m)
    ensures Owned(Entry(d, At(m, d)))
  {
    FindInOrder(m, d);
    var c := Find(m, d);
    if c.Some? { assert Entry(d, c.value) in m; }
  }

  /** The new configuration differs at one destination only. */
  lemma PutIsLocal(m: seq<Entry>, d: Text, c: Commands, other: Text)
    requires Ordered(m)
    ensures At(Put(m, d, c), other) == if other == d then c else At(m, other)
    ensures Find(Put(m, d, c), other).Some? <==> other == d || Find(m, other).Some?
  {
    hide Put, Ordered;
    PutInOrder(m, d, c);
    FindInOrder(m, other);
    FindInOrder(Put(m, d, c), other);
    var f, g := Find(m, other), Find(Put(m, d, c), other);
    if f.Some? { assert Entry(other, f.value) in m; }
    if g.Some? { assert Entry(other, g.value) in Put(m, d, c); }
    if other == d { assert Entry(d, c) in Put(m, d, c); }
  }

  /** What a new key filter adds to the matching, the case of its field put aside. */
  lemma NewKeyFilterMatches(c: Commands, field: Text, f: Filter, r: Request, codec: Codec, search: RegexSearch)
    ensures Matches(WithKey(c, KeyFilter(Upper(field), f)), r, codec, f.filterType, search)
       <==> || Matches(c, r, codec, f.filterType, search)
            || exists kv, part :: kv in ArgsOf(r, codec, part) && Lower(kv.key) == Lower(field) && Applies(f, part)
                                  && search(kv.value, f.regex)
  {
    hide Parsed, Applies, RawMatches, Lower;
    var kf := KeyFilter(Upper(field), f);
    UpperIsSameKey(field);
    forall part, kv ensures KeyMatch(kf, kv, part, f.filterType, search)
                       <==> Lower(kv.key) == Lower(field) && Applies(f, part) && search(kv.value, f.regex) {}
    forall part
      ensures KeyMatches(c.filters + [kf], ArgsOf(r, codec, part), part, f.filterType, search)
         <==> || KeyMatches(c.filters, ArgsOf(r, codec, part), part, f.filterType, search)
              || exists kv :: kv in ArgsOf(r, codec, part) && KeyMatch(kf, kv, part, f.filterType, search)
    {
      NewKeyFilterMatchesIn(c.filters, kf, ArgsOf(r, codec, part), part, f.filterType, search);
    }
  }

  lemma NewKeyFilterMatchesIn(filters: seq<KeyFilter>, kf: KeyFilter, args: seq<KeyVal>, part: Part, kind: FilterType,
                              search: RegexSearch)
    ensures KeyMatches(filters + [kf], args, part, kind, search)
       <==> || KeyMatches(filters, args, part, kind, search)
            || exists kv :: kv in args && KeyMatch(kf, kv, part, kind, search)
  {
    hide KeyMatch;
    assert kf in filters + [kf];
  }

  lemma UpperIsSameKey(s: Text)
    ensures Lower(Upper(s)) == Lower(s)
  {
  }

  // ----- one filter for each destination that is wanted -----

  ghost function Decision(c: Commands, r: Request, codec: Codec, search: RegexSearch): Option<Filter> {
    if Matches(c, r, codec, PREVENT_DUPLICATION, search) then None else Picked(c, r, codec, search)
  }

  ghost function Selected(m: seq<Entry>, r: Request, codec: Codec, search: RegexSearch): seq<Filter> {
    if m == [] then []
    else
      var f := Decision(m[0].commands, r, codec, search);
      (if f.Some? then [f.value] else []) + Selected(m[1..], r, codec, search)
  }

  lemma DecisionIsExact(c: Commands, r: Request, codec: Codec, search: RegexSearch)
    ensures var f := Decision(c, r, codec, search);
            && (f.Some? <==> Wanted(c, r, codec, search))
            && (f.Some? ==> IsMatch(f.value, c, r, codec, search))
  {
    hide Matches, Picked, IsMatch;
    PickedIsMatch(c, r, codec, search);
  }

  lemma MatchIsOwned(e: Entry, f: Filter, r: Request, codec: Codec, search: RegexSearch)
    requires Owned(e) && IsMatch(f, e.commands, r, codec, search)
    ensures f.destination == e.destination
  {
    hide KeyMatch, RawMatches, ArgsOf;
  }

  lemma TailIsWellFormed(m: seq<Entry>)
    requires WellFormed(m) && m != []
    ensures WellFormed(m[1..]) && Owned(m[0])
    ensures forall e :: e in m[1..] ==> Less(m[0].destination, e.destination)
    ensures forall e :: e in m <==> e == m[0] || e in m[1..]
  {
    hide Owned, Less;
    assert m == [m[0]] + m[1..];
    assert m[0] in m;
    forall e | e in m[1..] ensures Less(m[0].destination, e.destination) {
      var k :| 0 <= k < |m[1..]| && m[1..][k] == e;
      assert m[k + 1] == e;
    }
  }

  /** f was selected for the entry e. */
  ghost predicate SelectedFor(f: Filter, e: Entry, r: Request, codec: Codec, search: RegexSearch) {
    && e.destination == f.destination
    && Wanted(e.commands, r, codec, search)
    && IsMatch(f, e.commands, r, codec, search)
  }

  /** What the first entry contributes. */
  lemma HeadIsSelected(e: Entry, r: Request, codec: Codec, search: RegexSearch)
    requires Owned(e)
    ensures var d := Decision(e.commands, r, codec, search);
            && (d.Some? <==> Wanted(e.commands, r, codec, search))
            && (d.Some? ==> SelectedFor(d.value, e, r, codec, search) && d.value.destination == e.destination)
  {
    hide Wanted, IsMatch, Decision, Owned;
    DecisionIsExact(e.commands, r, codec, search);
    var d := Decision(e.commands, r, codec, search);
    if d.Some? {
      MatchIsOwned(e, d.value, r, codec, search);
    }
  }

  lemma SelectedStep(m: seq<Entry>, r: Request, codec: Codec, search: RegexSearch)
    requires m != []
    ensures var d, t := Decision(m[0].commands, r, codec, search), Selected(m[1..], r, codec, search);
            Selected(m, r, codec, search) == if d.Some? then [d.value] + t else t
  {
    hide Decision;
  }

  /** Every selected filter was selected for an entry. */
  lemma {:induction false} SelectedFromEntry(m: seq<Entry>, r: Request, codec: Codec, search: RegexSearch, f: Filter)
    requires WellFormed(m) && f in Selected(m, r, codec, search)
    ensures exists e :: e in m && SelectedFor(f, e, r, codec, search)
    decreases |m|
  {
    hide Wanted, Decision, Owned, Less, WellFormed, SelectedFor;
    if m == [] {
    } else {
      TailIsWellFormed(m);
      SelectedStep(m, r, codec, search);
      HeadIsSelected(m[0], r, codec, search);
      if f in Selected(m[1..], r, codec, search) {
        SelectedFromEntry(m[1..], r, codec, search, f);
      }
    }
  }

  /** Every entry that is wanted has its filter selected. */
  lemma {:induction false} WantedIsSelected(m: seq<Entry>, r: Request, codec: Codec, search: RegexSearch, e: Entry)
    requires WellFormed(m) && e in m && Wanted(e.commands, r, codec, search)
    ensures exists f :: f in Selected(m, r, codec, search) && SelectedFor(f, e, r, codec, search)
    decreases |m|
  {
    hide Wanted, Decision, Owned, Less, WellFormed, SelectedFor, Selected;
    TailIsWellFormed(m);
    SelectedStep(m, r, codec, search);
    HeadIsSelected(m[0], r, codec, search);
    if e == m[0] {
      var f := Decision(e.commands, r, codec, search).value;
      assert f in Selected(m, r, codec, search);
    } else {
      WantedIsSelected(m[1..], r, codec, search, e);
      assert forall f :: f in Selected(m[1..], r, codec, search) ==> f in Selected(m, r, codec, search);
    }
  }

  /** The destinations are in their order, so no two are the same. */
  predicate Rising(s: seq<Filter>) {
    forall i, j :: 0 <= i < j < |s| ==> Less(s[i].destination, s[j].destination)
  }

  lemma RisingPrepend(f: Filter, t: seq<Filter>)
    requires Rising(t) && forall g :: g in t ==> Less(f.destination, g.destination)
    ensures Rising([f] + t)
  {
    hide Less;
    var s := [f] + t;
    forall i, j | 0 <= i < j < |s| ensures Less(s[i].destination, s[j].destination) {
      assert s[j] == t[j - 1];
    }
  }

  lemma {:induction false} SelectedIsRising(m: seq<Entry>, r: Request, codec: Codec, search: RegexSearch)
    requires WellFormed(m)
    ensures Rising(Selected(m, r, codec, search))
    decreases |m|
  {
    hide Wanted, Decision, Owned, Less, WellFormed, Selected, Rising;
    if m == [] {
      NothingRises(r, codec, search);
    } else {
      var t := Selected(m[1..], r, codec, search);
      TailIsWellFormed(m);
      SelectedIsRising(m[1..], r, codec, search);
      SelectedStep(m, r, codec, search);
      HeadIsSelected(m[0], r, codec, search);
      forall g | g in t ensures Less(m[0].destination, g.destination) {
        SelectedFromEntry(m[1..], r, codec, search, g);
      }
      var d := Decision(m[0].commands, r, codec, search);
      if d.Some? { RisingPrepend(d.value, t); }
    }
  }

  lemma NothingRises(r: Request, codec: Codec, search: RegexSearch)
    ensures Rising(Selected([], r, codec, search))
  {
  }

  /**
   * The selection holds exactly one filter for each destination that has a matching regular filter
   * and no matching preventing one: in the order of the destinations, each under its own name.
   */
  lemma SelectedIsExact(m: seq<Entry>, r: Request, codec: Codec, search: RegexSearch)
    requires WellFormed(m)
    ensures var s := Selected(m, r, codec, search);
            && Rising(s)
            && (forall f :: f in s ==> exists e :: e in m && SelectedFor(f, e, r, codec, search))
            && (forall e :: e in m && Wanted(e.commands, r, codec, search) ==>
                              exists f :: f in s && SelectedFor(f, e, r, codec, search))
  {
    hide Rising, SelectedFor, Wanted, Selected, WellFormed;
    SelectedIsRising(m, r, codec, search);
    forall f | f in Selected(m, r, codec, search) ensures exists e :: e in m && SelectedFor(f, e, r, codec, search) {
      SelectedFromEntry(m, r, codec, search, f);
    }
    forall e | e in m && Wanted(e.commands, r, codec, search)
      ensures exists f :: f in Selected(m, r, codec, search) && SelectedFor(f, e, r, codec, search)
    {
      WantedIsSelected(m, r, codec, search, e);
    }
  }
}
