/** The configured processor: its directives change the commands, requests are decided by them. */
module RequestProcessors {
  import opened Bytes
  import opened FilterLaws
  import opened Filters
  import opened Options
  import opened QueryArgs
  import opened Regexes
  import opened Scopes
  import opened UrlCodec

  /** The directive context: the location, and the scope and destination in force there. */
  datatype DupConf = DupConf(id: nat, currentApplicationScope: Scope, currentDupDestination: Text)

  class RequestProcessor {
    const codec: Codec
    const search: RegexSearch
    var commands: map<nat, seq<Entry>>

    ghost predicate Valid()
      reads this
    {
      forall conf :: conf in commands ==> WellFormed(commands[conf])
    }

    function EntriesOf(conf: nat): seq<Entry>
      reads this
    {
      if conf in commands then commands[conf] else []
    }

    constructor (urlCodec: string, search: RegexSearch)
      ensures Valid() && commands == map[] && codec == GetUrlCodec(urlCodec) && this.search == search
      ensures codec == if urlCodec == "apache" then Apache else Default
    {
      codec := GetUrlCodec(urlCodec);
      this.search := search;
      commands := map[];
    }

    /** Adds a key filter, unless no keys are in the scope of the context. */
    method AddFilter(field: Text, regex: string, conf: DupConf, filterType: FilterType) returns (ok: bool)
      requires Valid()
      modifies this
      ensures Valid()
      ensures ok <==> Covers(conf.currentApplicationScope, BODY | HEADERS | QUERY_STRING)
      ensures var d := conf.currentDupDestination;
              var kf := KeyFilter(Upper(field), Filter(regex, conf.currentApplicationScope, d, filterType));
              var m := old(EntriesOf(conf.id));
              commands == if ok then old(commands)[conf.id := Put(m, d, WithKey(At(m, d), kf))] else old(commands)
      // the filter is the last one of its destination, and nothing else has changed
      ensures ok <==> Covers(conf.currentApplicationScope, BODY) || Covers(conf.currentApplicationScope, HEADERS)
                      || Covers(conf.currentApplicationScope, QUERY_STRING)
      ensures forall id, d :: At(EntriesOf(id), d) ==
                var c := old(At(EntriesOf(id), d));
                var f := Filter(regex, conf.currentApplicationScope, d, filterType);
                if ok && id == conf.id && d == conf.currentDupDestination then
                  Commands(c.filters + [KeyFilter(Upper(field), f)], c.rawFilters)
                else c
    {
      hide Covers, Put, At, WellFormed;
      CoversByPart(conf.currentApplicationScope, BODY, HEADERS);
      CoversByPart(conf.currentApplicationScope, BODY | HEADERS, QUERY_STRING);
      KeyedScope();
      if !Covers(conf.currentApplicationScope, BODY | HEADERS | QUERY_STRING) {
        return false;
      }
      var m, d := EntriesOf(conf.id), conf.currentDupDestination;
      var c := At(m, d);
      var kf := KeyFilter(Upper(field), Filter(regex, conf.currentApplicationScope, d, filterType));
      NothingWellFormed();
      AtIsOwned(m, d);
      PutKeepsWellFormed(m, d, WithKey(c, kf));
      forall other ensures At(Put(m, d, WithKey(c, kf)), other) == if other == d then WithKey(c, kf) else At(m, other) {
        InOrder(m);
        PutIsLocal(m, d, WithKey(c, kf), other);
      }
      commands := commands[conf.id := Put(m, d, WithKey(c, kf))];
      ok := true;
    }

    method AddRawFilter(regex: string, conf: DupConf, filterType: FilterType)
      requires Valid()
      modifies this
      ensures Valid()
      ensures var d := conf.currentDupDestination;
              var f := Filter(regex, conf.currentApplicationScope, d, filterType);
              var m := old(EntriesOf(conf.id));
              commands == old(commands)[conf.id := Put(m, d, WithRaw(At(m, d), f))]
      // the filter is the last one of its destination, and nothing else has changed
      ensures forall id, d :: At(EntriesOf(id), d) ==
                var c := old(At(EntriesOf(id), d));
                if id == conf.id && d == conf.currentDupDestination then
                  Commands(c.filters, c.rawFilters + [Filter(regex, conf.currentApplicationScope, d, filterType)])
                else c
    {
      hide Covers, Put, At, WellFormed;
      var m, d := EntriesOf(conf.id), conf.currentDupDestination;
      var c := At(m, d);
      var f := Filter(regex, conf.currentApplicationScope, d, filterType);
      NothingWellFormed();
      AtIsOwned(m, d);
      PutKeepsWellFormed(m, d, WithRaw(c, f));
      forall other ensures At(Put(m, d, WithRaw(c, f)), other) == if other == d then WithRaw(c, f) else At(m, other) {
        InOrder(m);
        PutIsLocal(m, d, WithRaw(c, f), other);
      }
      commands := commands[conf.id := Put(m, d, WithRaw(c, f))];
    }

    /** The first filter of this kind, by the order of the request's keys. */
    method KeyFilterMatch(filters: seq<KeyFilter>, args: seq<KeyVal>, part: Part, filterType: FilterType)
      returns (matched: Option<Filter>)
      ensures matched == FirstKeyMatch(filters, args, part, filterType, search)
      ensures matched.Some? <==> AnySuits(filters, args, ScopeOf(part), filterType, search)
      ensures matched.Some? ==> FirstSuits(filters, args, ScopeOf(part), filterType, search, matched.value)
    {
      hide Applies, Lower, AnySuits, FirstSuits, KeyMatches;
      FirstKeyMatchIsMatch(filters, args, part, filterType, search);
      AnySuitsInFull(filters, args, part, filterType, search);
      FirstKeyMatchIsFirst(filters, args, part, filterType, search);
      assert args[0..] == args;
      for i := 0 to |args|
        invariant FirstKeyMatch(filters, args[i..], part, filterType, search)
               == FirstKeyMatch(filters, args, part, filterType, search)
      {
        var kv := args[i];
        assert filters[0..] == filters && args[i..][1..] == args[i + 1..];
        for k := 0 to |filters|
          invariant FirstFor(filters[k..], kv, part, filterType, search)
                 == FirstFor(filters, kv, part, filterType, search)
        {
          var kf := filters[k];
          assert filters[k..][1..] == filters[k + 1..];
          if Lower(kf.key) == Lower(kv.key) {
            if Applies(kf.filter, part) && kf.filter.filterType == filterType {
              if search(kv.value, kf.filter.regex) {
                return Some(kf.filter);
              }
            }
          }
        }
      }
      matched := None;
    }

    /** Counts the key filters that look at the query string, the headers and the body. */
    static method ApplicationOnMap(filters: seq<KeyFilter>) returns (qs: nat, header: nat, body: nat)
      ensures qs > 0 <==> exists kf :: kf in filters && Applies(kf.filter, InQueryString)
      ensures header > 0 <==> exists kf :: kf in filters && Applies(kf.filter, InHeaders)
      ensures body > 0 <==> exists kf :: kf in filters && Applies(kf.filter, InBody)
    {
      hide Applies;
      qs, header, body := 0, 0, 0;
      for i := 0 to |filters|
        invariant qs > 0 <==> exists kf :: kf in filters[..i] && Applies(kf.filter, InQueryString)
        invariant header > 0 <==> exists kf :: kf in filters[..i] && Applies(kf.filter, InHeaders)
        invariant body > 0 <==> exists kf :: kf in filters[..i] && Applies(kf.filter, InBody)
      {
        var f := filters[i].filter;
        assert filters[..i + 1] == filters[..i] + [filters[i]];
        if Applies(f, InQueryString) { qs := qs + 1; }
        if Applies(f, InBody) { body := body + 1; }
        if Applies(f, InHeaders) { header := header + 1; }
      }
      assert filters[..|filters|] == filters;
    }

    /** One raw filter against every part in its scope. */
    method RawFilterMatch(raw: Filter, r: Request) returns (matched: bool)
      ensures matched <==> RawMatches(raw, r, search)
      ensures matched <==> RawHit(raw, r, search)
    {
      hide Applies, TextOf, RawMatches, RawHit;
      RawMatchesInFull(raw, r, search);
      RawMatchesByPart(raw, r, search);
      if Applies(raw, InMethod) && search(TextOf(r, InMethod), raw.regex) {
        return true;
      }
      if Applies(raw, InPath) && search(TextOf(r, InPath), raw.regex) {
        return true;
      }
      if Applies(raw, InQueryString) && search(TextOf(r, InQueryString), raw.regex) {
        return true;
      }
      if Applies(raw, InHeaders) && search(TextOf(r, InHeaders), raw.regex) {
        return true;
      }
      if Applies(raw, InBody) && search(TextOf(r, InBody), raw.regex) {
        return true;
      }
      matched := false;
    }

    /** The filter that lets the request go to the destination of c, if any. */
    method MatchesFilter(r: Request, c: Commands) returns (matched: Option<Filter>)
      ensures matched == Decision(c, r, codec, search)
      // spelled out: a regular filter matches and no preventing one does; the first match is picked
      ensures matched.Some? <==> Hit(c, r, codec, REGULAR, search) && !Hit(c, r, codec, PREVENT_DUPLICATION, search)
      ensures matched.Some? ==> PickedFirst(c, r, codec, search, matched.value)
    {
      hide Parsed, KeyMatch, RawMatches, Applies, FirstKeyMatch, FirstRaw, KeyMatches, Matches, Hit, PickedFirst,
           AnySuits, FirstSuits, RawHit;
      DecisionInFull(c, r, codec, search);
      var onQs, onHeader, onBody := ApplicationOnMap(c.filters);
      if onQs == 0 { SkipIsHarmless(c.filters, r.parsedArgs, InQueryString, search); }
      if onHeader == 0 { SkipIsHarmless(c.filters, r.headersIn, InHeaders, search); }
      if onBody == 0 { SkipIsHarmless(c.filters, Parsed(codec, r.body), InBody, search); }
      MatchesByPart(c, r, codec, PREVENT_DUPLICATION, search);

      matched := None;
      if onQs > 0 {
        var f := KeyFilterMatch(c.filters, r.parsedArgs, InQueryString, PREVENT_DUPLICATION);
        FirstKeyMatchIsMatch(c.filters, r.parsedArgs, InQueryString, PREVENT_DUPLICATION, search);
        if f.Some? { return; }
      }
      if onHeader > 0 {
        var f := KeyFilterMatch(c.filters, r.headersIn, InHeaders, PREVENT_DUPLICATION);
        FirstKeyMatchIsMatch(c.filters, r.headersIn, InHeaders, PREVENT_DUPLICATION, search);
        if f.Some? { return; }
      }
      var parsedArgs: seq<KeyVal> := [];
      if onBody > 0 {
        parsedArgs := ParseArgs(codec, parsedArgs, r.body);
        assert [] + Parsed(codec, r.body) == Parsed(codec, r.body);
        var f := KeyFilterMatch(c.filters, parsedArgs, InBody, PREVENT_DUPLICATION);
        FirstKeyMatchIsMatch(c.filters, parsedArgs, InBody, PREVENT_DUPLICATION, search);
        if f.Some? { return; }
      }
      for i := 0 to |c.rawFilters|
        invariant forall k :: 0 <= k < i ==>
                    !(c.rawFilters[k].filterType == PREVENT_DUPLICATION && RawMatches(c.rawFilters[k], r, search))
      {
        var raw := c.rawFilters[i];
        if raw.filterType == PREVENT_DUPLICATION {
          var hit := RawFilterMatch(raw, r);
          if hit { return; }
        }
      }
      assert !Matches(c, r, codec, PREVENT_DUPLICATION, search);

      if onQs > 0 {
        matched := KeyFilterMatch(c.filters, r.parsedArgs, InQueryString, REGULAR);
        if matched.Some? { return; }
      }
      if onHeader > 0 {
        matched := KeyFilterMatch(c.filters, r.headersIn, InHeaders, REGULAR);
        if matched.Some? { return; }
      }
      if onBody > 0 {
        matched := KeyFilterMatch(c.filters, parsedArgs, InBody, REGULAR);
        if matched.Some? { return; }
      }
      matched := FirstRawMatch(c.rawFilters, r);
    }

    method FirstRawMatch(filters: seq<Filter>, r: Request) returns (matched: Option<Filter>)
      ensures matched == FirstRaw(filters, r, search)
    {
      hide RawMatches;
      assert filters[0..] == filters;
      for i := 0 to |filters|
        invariant FirstRaw(filters[i..], r, search) == FirstRaw(filters, r, search)
      {
        var raw := filters[i];
        assert filters[i..][1..] == filters[i + 1..];
        if raw.filterType != PREVENT_DUPLICATION {
          var hit := RawFilterMatch(raw, r);
          if hit { return Some(raw); }
        }
      }
      matched := None;
    }

    /** One filter for each destination that gets the request, in the order of the destinations. */
    method ProcessRequest(r: Request) returns (ret: seq<Filter>)
      ensures ret == Selected(EntriesOf(r.conf), r, codec, search)
      ensures exists choices :: Chosen(EntriesOf(r.conf), r, codec, search, choices) && ret == Somes(choices)
    {
      hide Decision, Chosen, Somes, Hit, PickedFirst;
      ghost var choices := SelectedByChoice(EntriesOf(r.conf), r, codec, search);
      ret := [];
      if r.conf !in commands {
        return;
      }
      var m := commands[r.conf];
      assert m[0..] == m && [] + Selected(m, r, codec, search) == Selected(m, r, codec, search);
      for i := 0 to |m|
        invariant ret + Selected(m[i..], r, codec, search) == Selected(m, r, codec, search)
      {
        assert m[i..][1..] == m[i + 1..];
        var matched := MatchesFilter(r, m[i].commands);
        ghost var rest := Selected(m[i + 1..], r, codec, search);
        if matched.Some? {
          assert ret + ([matched.value] + rest) == ret + [matched.value] + rest;
          ret := ret + [matched.value];
        } else {
          assert ret + ([] + rest) == ret + rest;
        }
      }
      assert m[|m|..] == [] && ret + [] == ret;
    }

    /**
     * Parses the arguments, selects the filters and looks up the commands of each one's
     * destination. Both lookups throw on a missing key, which is reported as not ok: it never is.
     */
    method RunOne(r: Request) returns (ok: bool, parsed: Request, calls: seq<(Filter, Commands)>)
      requires Valid()
      ensures ok && parsed == r.(parsedArgs := r.parsedArgs + Parsed(codec, r.args))
      ensures |calls| == |Selected(EntriesOf(r.conf), parsed, codec, search)|
      ensures forall i :: 0 <= i < |calls| ==>
                && calls[i].0 == Selected(EntriesOf(r.conf), parsed, codec, search)[i]
                && Entry(calls[i].0.destination, calls[i].1) in EntriesOf(r.conf)
                && IsMatch(calls[i].0, calls[i].1, parsed, codec, search)
    {
      hide Parsed, Selected, IsMatch, WellFormed, Find, Wanted;
      var args := ParseArgs(codec, r.parsedArgs, r.args);
      parsed := r.(parsedArgs := args);
      var matched := ProcessRequest(parsed);
      calls := [];
      for i := 0 to |matched|
        invariant |calls| == i && matched == Selected(EntriesOf(r.conf), parsed, codec, search)
        invariant forall k :: 0 <= k < i ==>
                    && calls[k].0 == matched[k]
                    && Entry(calls[k].0.destination, calls[k].1) in EntriesOf(r.conf)
                    && IsMatch(calls[k].0, calls[k].1, parsed, codec, search)
      {
        var f := matched[i];
        LookupSucceeds(EntriesOf(r.conf), f, parsed, codec, search);
        if r.conf !in commands {
          return false, parsed, calls;
        }
        var c := Find(commands[r.conf], f.destination);
        if c.None? {
          return false, parsed, calls;
        }
        calls := calls + [(f, c.value)];
      }
      ok := true;
    }
  }

  lemma KeyedScope()
    ensures BODY | HEADERS | QUERY_STRING == KEYED
  {
  }

  lemma InOrder(m: seq<Entry>)
    requires WellFormed(m) || m == []
    ensures Ordered(m)
  {
  }

  lemma NothingWellFormed()
    ensures WellFormed([])
  {
  }

  /** A part that no key filter has in its scope can be skipped. */
  lemma SkipIsHarmless(filters: seq<KeyFilter>, args: seq<KeyVal>, part: Part, search: RegexSearch)
    requires forall kf :: kf in filters ==> !Applies(kf.filter, part)
    ensures forall kind :: !KeyMatches(filters, args, part, kind, search)
    ensures forall kind :: FirstKeyMatch(filters, args, part, kind, search) == None
  {
    hide Applies, FirstKeyMatch, Lower;
    forall kind ensures FirstKeyMatch(filters, args, part, kind, search) == None {
      FirstKeyMatchIsMatch(filters, args, part, kind, search);
    }
  }

  /** A selected filter's destination is found, and its commands are the ones that it matched in. */
  lemma LookupSucceeds(m: seq<Entry>, f: Filter, r: Request, codec: Codec, search: RegexSearch)
    requires WellFormed(m) || m == []
    requires f in Selected(m, r, codec, search)
    ensures m != [] && Find(m, f.destination).Some?
    ensures var c := Find(m, f.destination).value;
            Entry(f.destination, c) in m && IsMatch(f, c, r, codec, search)
  {
    hide Selected, IsMatch, Wanted, Owned, Find;
    SelectedIsExact(m, r, codec, search);
    var e :| e in m && SelectedFor(f, e, r, codec, search);
    FindInOrder(m, f.destination);
    assert e == Entry(f.destination, e.commands);
  }
}
