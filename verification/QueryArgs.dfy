/** Query strings as lists of keys and values: parsing them, and rewriting them by substitutions. */
module QueryArgs {
  import opened Bytes
  import opened Regexes
  import opened Scopes
  import opened UrlCodec
  import opened UrlEscape

  datatype KeyVal = KeyVal(key: Text, value: Text)

  // ----- parsing -----

  /** The stretches between ampersands; empty ones do not count. */
  function Tokens(s: Text): seq<Text>
    decreases |s|
  {
    if s == [] then []
    else if s[0] == '&' then Tokens(s[1..])
    else [Until(s, '&')] + Tokens(s[|Until(s, '&')|..])
  }

  function UpperByte(c: Byte): Byte { if 'a' <= c <= 'z' then (c as int - 32) as char else c }

  /** Letters by their place in the alphabet; everything else stays. */
  lemma UpperByTable(c: Byte)
    ensures forall n :: 0 <= n < 26 && c == LOWER_LETTERS[n] ==> UpperByte(c) == UPPER_LETTERS[n]
    ensures c !in LOWER_LETTERS ==> UpperByte(c) == c
    ensures UpperByte(c) !in LOWER_LETTERS
  {
    LettersByTable(c);
    LettersByTable(UpperByte(c));
    hide LOWER_LETTERS, UPPER_LETTERS;
    LetterCounts();
    forall n | 0 <= n < 26 && c == LOWER_LETTERS[n] ensures UpperByte(c) == UPPER_LETTERS[n] {
      LowerLetter(n);
      UpperLetter(n);
    }
  }

  function Upper(s: Text): Text { seq(|s|, i requires 0 <= i < |s| => UpperByte(s[i])) }

  function ParsedToken(codec: Codec, token: Text): KeyVal {
    var key := Until(token, '=');
    if |key| == |token| then KeyVal(Upper(token), [])
    else KeyVal(Upper(key), Decoded(codec, token[|key| + 1..]))
  }

  function ParsedTokens(codec: Codec, tokens: seq<Text>): seq<KeyVal> {
    if tokens == [] then [] else [ParsedToken(codec, tokens[0])] + ParsedTokens(codec, tokens[1..])
  }

  function Parsed(codec: Codec, args: Text): seq<KeyVal> { ParsedTokens(codec, Tokens(args)) }

  lemma {:induction false} ParsedTokensAppend(codec: Codec, tokens: seq<Text>, token: Text)
    ensures ParsedTokens(codec, tokens + [token]) == ParsedTokens(codec, tokens) + [ParsedToken(codec, token)]
    decreases |tokens|
  {
    if tokens == [] {
      assert tokens + [token] == [token];
    } else {
      assert (tokens + [token])[1..] == tokens[1..] + [token];
      ParsedTokensAppend(codec, tokens[1..], token);
    }
  }

  /** Appends what args parses to, token by token. */
  method ParseArgs(codec: Codec, parsed: seq<KeyVal>, args: Text) returns (out: seq<KeyVal>)
    ensures out == parsed + Parsed(codec, args)
  {
    hide Decoded;
    var tokens := Tokens(args);
    out := parsed;
    for i := 0 to |tokens|
      invariant out == parsed + ParsedTokens(codec, tokens[..i])
    {
      var token := tokens[i];
      ParsedTokensAppend(codec, tokens[..i], token);
      assert tokens[..i + 1] == tokens[..i] + [token];
      var key := Until(token, '=');
      if |key| == |token| {
        out := out + [KeyVal(Upper(token), [])];
      } else {
        var value := Decode(codec, token[|key| + 1..]);
        out := out + [KeyVal(Upper(key), value)];
      }
    }
    assert tokens[..|tokens|] == tokens;
  }

  // ----- substituting -----

  datatype Substitute = Substitute(regex: string, replacement: string, scope: Scope)

  function Applied(subs: seq<Substitute>, value: Text, scope: Scope, replace: RegexReplace): Text {
    if subs == [] then value
    else
      var s := subs[0];
      var next := if Covers(s.scope, scope) then replace(value, s.regex, s.replacement) else value;
      Applied(subs[1..], next, scope, replace)
  }

  /** vs holds the value before the first substitution, after the first, and so on. */
  ghost predicate Chain(vs: seq<Text>, list: seq<Substitute>, value: Text, scope: Scope, replace: RegexReplace) {
    && |vs| == |list| + 1 && vs[0] == value
    && forall k :: 0 <= k < |list| ==>
         vs[k + 1] == if Covers(list[k].scope, scope) then replace(vs[k], list[k].regex, list[k].replacement) else vs[k]
  }

  /** The result is the end of the chain. */
  lemma {:induction false} AppliedByChain(list: seq<Substitute>, value: Text, scope: Scope, replace: RegexReplace)
    returns (vs: seq<Text>)
    ensures Chain(vs, list, value, scope, replace) && Applied(list, value, scope, replace) == vs[|list|]
    ensures forall ws :: Chain(ws, list, value, scope, replace) ==> ws == vs
    decreases |list|
  {
    hide Covers;
    if list == [] {
      vs := [value];
    } else {
      var s := list[0];
      var next := if Covers(s.scope, scope) then replace(value, s.regex, s.replacement) else value;
      var rest := AppliedByChain(list[1..], next, scope, replace);
      vs := [value] + rest;
      forall ws | Chain(ws, list, value, scope, replace) ensures ws == vs {
        assert Chain(ws[1..], list[1..], next, scope, replace);
        assert ws == [ws[0]] + ws[1..];
      }
    }
  }

  ghost predicate ChainTo(list: seq<Substitute>, value: Text, scope: Scope, replace: RegexReplace, out: Text) {
    exists vs :: Chain(vs, list, value, scope, replace) && out == vs[|list|]
  }

  lemma AppliedIsChained(list: seq<Substitute>, value: Text, scope: Scope, replace: RegexReplace)
    ensures ChainTo(list, value, scope, replace, Applied(list, value, scope, replace))
  {
    var vs := AppliedByChain(list, value, scope, replace);
  }

  /** What the chains of substitutions make of the values of a list. */
  ghost predicate Chained(subs: map<Text, seq<Substitute>>, args: seq<KeyVal>, changed: seq<KeyVal>, scope: Scope,
                          replace: RegexReplace)
  {
    && |changed| == |args|
    && forall i :: 0 <= i < |args| ==>
         && changed[i].key == args[i].key
         && if args[i].key in subs then ChainTo(subs[args[i].key], args[i].value, scope, replace, changed[i].value)
            else changed[i].value == args[i].value
  }

  function SubsOf(subs: map<Text, seq<Substitute>>, key: Text): seq<Substitute> {
    if key in subs then subs[key] else []
  }

  /** The list after the substitutions of its keys. */
  function Substituted(subs: map<Text, seq<Substitute>>, args: seq<KeyVal>, scope: Scope, replace: RegexReplace)
    : (r: seq<KeyVal>)
    ensures |r| == |args| && forall i :: 0 <= i < |args| ==> r[i].key == args[i].key
  {
    seq(|args|, i requires 0 <= i < |args| =>
      KeyVal(args[i].key, Applied(SubsOf(subs, args[i].key), args[i].value, scope, replace)))
  }

  lemma SubstitutedByChains(subs: map<Text, seq<Substitute>>, args: seq<KeyVal>, scope: Scope, replace: RegexReplace)
    ensures Chained(subs, args, Substituted(subs, args, scope, replace), scope, replace)
  {
    hide Applied, ChainTo;
    forall i | 0 <= i < |args| && args[i].key in subs
      ensures var value := Substituted(subs, args, scope, replace)[i].value;
              ChainTo(subs[args[i].key], args[i].value, scope, replace, value)
    {
      AppliedIsChained(subs[args[i].key], args[i].value, scope, replace);
    }
    forall i | 0 <= i < |args| && args[i].key !in subs
      ensures Substituted(subs, args, scope, replace)[i].value == args[i].value
    {
      AppliedNothing(args[i].value, scope, replace);
    }
  }

  lemma AppliedNothing(value: Text, scope: Scope, replace: RegexReplace)
    ensures Applied([], value, scope, replace) == value
  {
  }

  /** Some of these substitutions is in scope. */
  predicate AnyCovers(list: seq<Substitute>, scope: Scope) {
    exists k :: 0 <= k < |list| && Covers(list[k].scope, scope)
  }

  predicate Touched(subs: map<Text, seq<Substitute>>, args: seq<KeyVal>, scope: Scope) {
    exists i :: 0 <= i < |args| && AnyCovers(SubsOf(subs, args[i].key), scope)
  }

  function Written(codec: Codec, kv: KeyVal): Text {
    if kv.value == [] then kv.key else kv.key + "=" + Encoded(codec, kv.value)
  }

  function Joined(codec: Codec, args: seq<KeyVal>): Text {
    if args == [] then []
    else if |args| == 1 then Written(codec, args[0])
    else Written(codec, args[0]) + "&" + Joined(codec, args[1..])
  }

  function Join(parts: seq<Text>): Text {
    if parts == [] then [] else if |parts| == 1 then parts[0] else parts[0] + "&" + Join(parts[1..])
  }

  lemma {:induction false} JoinOfWritten(codec: Codec, args: seq<KeyVal>, parts: seq<Text>)
    requires |parts| == |args| && forall i :: 0 <= i < |args| ==> parts[i] == Written(codec, args[i])
    ensures Join(parts) == Joined(codec, args)
    decreases |args|
  {
    hide Written;
    if |args| > 1 {
      JoinOfWritten(codec, args[1..], parts[1..]);
    }
  }

  method ApplyAll(list: seq<Substitute>, value: Text, scope: Scope, replace: RegexReplace)
    returns (did: bool, out: Text)
    ensures out == Applied(list, value, scope, replace)
    ensures did <==> AnyCovers(list, scope)
    ensures ChainTo(list, value, scope, replace, out)
  {
    hide Covers;
    AppliedIsChained(list, value, scope, replace);
    hide ChainTo;
    did, out := false, value;
    assert list[0..] == list;
    for k := 0 to |list|
      invariant Applied(list[k..], out, scope, replace) == Applied(list, value, scope, replace)
      invariant did <==> exists m :: 0 <= m < k && Covers(list[m].scope, scope)
    {
      if Covers(list[k].scope, scope) {
        out := replace(out, list[k].regex, list[k].replacement);
        did := true;
      }
      assert list[k..][1..] == list[k + 1..];
    }
  }

  /**
   * Rewrites the values of the keys that have substitutions in scope. The new string is the whole
   * list, encoded; without any substitution result stays as it was.
   */
  method KeySubstitute(codec: Codec, subs: map<Text, seq<Substitute>>, args: seq<KeyVal>, scope: Scope,
                       replace: RegexReplace, result: Text) returns (did: bool, newResult: Text)
    ensures did <==> Touched(subs, args, scope)
    ensures newResult == if did then Joined(codec, Substituted(subs, args, scope, replace)) else result
    // every value has gone through the substitutions of its key, one after the other
    ensures did ==>
              exists changed :: Chained(subs, args, changed, scope, replace) && newResult == Joined(codec, changed)
  {
    hide Encoded, Covers, Touched, AnyCovers, Chained, ChainTo;
    SubstitutedByChains(subs, args, scope, replace);
    var newArgs: seq<Text> := [];
    did := false;
    ghost var goal := Substituted(subs, args, scope, replace);
    NothingTouched(subs, scope);
    assert args[..0] == [];
    for i := 0 to |args|
      invariant |newArgs| == i && forall k :: 0 <= k < i ==> newArgs[k] == Written(codec, goal[k])
      invariant did <==> Touched(subs, args[..i], scope)
    {
      var kv := args[i];
      var value := kv.value;
      TouchedStep(subs, args, scope, i);
      if kv.key in subs {
        var didSome;
        didSome, value := ApplyAll(subs[kv.key], value, scope, replace);
        did := did || didSome;
      }
      assert goal[i] == KeyVal(kv.key, value);
      if value == [] {
        newArgs := newArgs + [kv.key];
      } else {
        var encoded := Encode(codec, value);
        newArgs := newArgs + [kv.key + "=" + encoded];
      }
    }
    assert args[..|args|] == args;
    JoinOfWritten(codec, goal, newArgs);
    newResult := if did then Join(newArgs) else result;
  }

  lemma NothingTouched(subs: map<Text, seq<Substitute>>, scope: Scope)
    ensures !Touched(subs, [], scope) && !AnyCovers([], scope)
  {
  }

  lemma TouchedStep(subs: map<Text, seq<Substitute>>, args: seq<KeyVal>, scope: Scope, i: nat)
    requires i < |args|
    ensures Touched(subs, args[..i + 1], scope)
       <==> Touched(subs, args[..i], scope) || AnyCovers(SubsOf(subs, args[i].key), scope)
  {
    hide AnyCovers, SubsOf;
    var before, after := args[..i], args[..i + 1];
    if Touched(subs, before, scope) {
      var j :| 0 <= j < i && AnyCovers(SubsOf(subs, before[j].key), scope);
      assert after[j] == before[j];
    }
    assert after[i] == args[i] && forall j :: 0 <= j < i ==> after[j] == before[j];
  }

  // ----- parsing what was rewritten -----

  /** A key as the parser leaves it. */
  predicate Clean(key: Text) { '=' !in key && '&' !in key && Upper(key) == key }

  lemma CleanIsUpper(key: Text)
    requires Clean(key)
    ensures forall c :: c in key ==> c !in LOWER_LETTERS
  {
    forall c | c in key ensures c !in LOWER_LETTERS {
      var i :| 0 <= i < |key| && key[i] == c;
      assert Upper(key)[i] == UpperByte(key[i]);
      UpperByTable(c);
    }
  }

  predicate AllClean(args: seq<KeyVal>) { forall i :: 0 <= i < |args| ==> Clean(args[i].key) }

  predicate Blank(kv: KeyVal) { kv.key == [] && kv.value == [] }

  function NoBlanks(args: seq<KeyVal>): seq<KeyVal> {
    if args == [] then [] else (if Blank(args[0]) then [] else [args[0]]) + NoBlanks(args[1..])
  }

  /** A value that survives being written and parsed again. */
  predicate Plain(kv: KeyVal) { '&' !in kv.value && NUL !in kv.value }

  predicate AllPlain(args: seq<KeyVal>) { forall i :: 0 <= i < |args| ==> Plain(args[i]) }

  lemma {:induction false} UntilOfEscape(s: Text)
    ensures Until(Escape(s), '&') == Escape(Until(s, '&'))
    ensures Until(Replaced(Escape(s), '+', "%2b"), '&') == Replaced(Escape(Until(s, '&')), '+', "%2b")
    decreases |s|
  {
    hide EscapeByte, EncodedByte;
    if s == [] {
    } else {
      var c, r := s[0], s[1..];
      EncodedByteShape(c);
      if c == '&' {
        assert EscapeByte('&') == ['&'] && EncodedByte('&') == ['&'] by { AmpersandStays(); }
        ReplacedConcat(EscapeByte(c), Escape(r), '+', "%2b");
      } else {
        UntilOfEscape(r);
        UntilAfter(EscapeByte(c), Escape(r));
        ReplacedConcat(EscapeByte(c), Escape(r), '+', "%2b");
        UntilAfter(EncodedByte(c), Replaced(Escape(r), '+', "%2b"));
        assert Until(s, '&')[1..] == Until(r, '&');
        ReplacedConcat(EscapeByte(c), Escape(Until(r, '&')), '+', "%2b");
      }
    }
  }

  lemma AmpersandStays()
    ensures EscapeByte('&') == ['&'] && EncodedByte('&') == ['&']
  {
  }

  lemma {:induction false} UntilAfter(s: Text, t: Text)
    requires '&' !in s
    ensures Until(s + t, '&') == s + Until(t, '&')
    decreases |s|
  {
    if s == [] {
      assert s + t == t;
    } else {
      assert (s + t)[1..] == s[1..] + t && s[0] in s;
      UntilAfter(s[1..], t);
    }
  }

  /** A written value, cut at its first ampersand, reads as the value cut there. */
  lemma CutValue(codec: Codec, value: Text)
    ensures Decoded(codec, Until(Encoded(codec, value), '&')) == Until(CString(value), '&')
  {
    hide CString, Escape, Unescape, Replaced;
    var t := CString(value);
    var u := Until(t, '&');
    CStringIsPrefix(value);
    assert NUL !in u by { assert forall c :: c in u ==> c in t; }
    UntilOfEscape(t);
    CStringWhole(u);
    assert Until(Encoded(codec, value), '&') == Encoded(codec, u);
    DecodeOfEncode(codec, u);
  }

  /** What the first token of a written pair parses to, whatever the value. */
  lemma FirstParsed(codec: Codec, kv: KeyVal)
    requires Clean(kv.key) && !Blank(kv)
    ensures var w := Written(codec, kv);
            && w != [] && w[0] != '&'
            && ParsedToken(codec, Until(w, '&')) == KeyVal(kv.key, Until(CString(kv.value), '&'))
            && (Plain(kv) ==> Until(w, '&') == w)
  {
    hide CString, Encoded, Decoded, Until, ParsedToken, Upper;
    var w := Written(codec, kv);
    if kv.value == [] {
      UncutWhole(w);
      KeyIsRead(codec, kv.key);
      assert Until(CString(kv.value), '&') == [] by { CStringIsPrefix(kv.value); UncutWhole([]); }
    } else {
      var e := Encoded(codec, kv.value);
      var head := kv.key + "=";
      assert w == head + e;
      UntilAfter(head, e);
      ParsedPair(codec, kv.key, Until(e, '&'));
      CutValue(codec, kv.value);
      if Plain(kv) {
        CStringIsPrefix(kv.value);
        EncodedShape(codec, kv.value);
        UncutWhole(e);
      }
    }
  }

  lemma UncutWhole(s: Text)
    requires '&' !in s
    ensures Until(s, '&') == s
  {
    UntilSplits(s, [], '&');
    assert s + [] == s;
  }

  /** A token without an equals sign, read. */
  lemma KeyIsRead(codec: Codec, key: Text)
    requires '=' !in key
    ensures ParsedToken(codec, key) == KeyVal(Upper(key), [])
  {
    hide Decoded, Until;
    UntilSplits(key, [], '=');
    assert key + [] == key;
  }

  /** A token with an equals sign, read. */
  lemma ParsedPair(codec: Codec, key: Text, value: Text)
    requires '=' !in key
    ensures ParsedToken(codec, key + "=" + value) == KeyVal(Upper(key), Decoded(codec, value))
  {
    hide Decoded, Until;
    var token := key + "=" + value;
    UntilSplits(key, "=" + value, '=');
    assert token == key + ("=" + value) && token[|key| + 1..] == value;
  }

  lemma PlainIsUncut(kv: KeyVal)
    ensures Until(CString(kv.value), '&') == kv.value <==> Plain(kv)
  {
    hide CString;
    CStringIsPrefix(kv.value);
    CStringWhole(kv.value);
    if Plain(kv) {
      UntilSplits(kv.value, [], '&');
      assert kv.value + [] == kv.value;
    }
  }

  lemma TokensOf(w: Text, rest: Text)
    requires rest == [] || rest[0] == '&'
    ensures w == [] ==> Tokens(w + rest) == (if rest == [] then [] else Tokens(rest[1..]))
    ensures w != [] && w[0] != '&' ==> Tokens(w + rest) != [] && Tokens(w + rest)[0] == Until(w, '&')
    ensures w != [] && '&' !in w ==>
              Tokens(w + rest) == [w] + (if rest == [] then [] else Tokens(rest[1..]))
  {
    if w == [] {
      assert w + rest == rest;
    } else if w[0] != '&' {
      var u := Until(w, '&');
      assert w == u + w[|u|..] && w + rest == u + (w[|u|..] + rest);
      UntilSplits(u, w[|u|..] + rest, '&');
      if '&' !in w {
        UntilSplits(w, rest, '&');
        UntilSplits(w, [], '&');
        assert w + [] == w;
        assert (w + rest)[|w|..] == rest;
      }
    } else {
      assert w[0] in w;
    }
  }

  function Ampersands(pieces: seq<Text>): Text {
    if pieces == [] then [] else pieces[0] + "&" + Ampersands(pieces[1..])
  }

  function NonEmpty(pieces: seq<Text>): seq<Text> {
    if pieces == [] then [] else (if pieces[0] == [] then [] else [pieces[0]]) + NonEmpty(pieces[1..])
  }

  /** Pieces without ampersands, each one but the last ended by one, are found again, but for the empty ones. */
  lemma {:induction false} TokensOfPieces(pieces: seq<Text>, last: Text)
    requires '&' !in last && forall i :: 0 <= i < |pieces| ==> '&' !in pieces[i]
    ensures Tokens(Ampersands(pieces) + last) == NonEmpty(pieces) + if last == [] then [] else [last]
    decreases |pieces|
  {
    hide Tokens, Until;
    NoTokens();
    if pieces == [] {
      TokensOf(last, []);
      assert Ampersands(pieces) + last == last && last + [] == last;
    } else {
      var w, rest := pieces[0], Ampersands(pieces[1..]) + last;
      assert Ampersands(pieces) + last == w + ("&" + rest) && ("&" + rest)[1..] == rest;
      TokensOfPieces(pieces[1..], last);
      TokensOf(w, "&" + rest);
    }
  }

  /**
   * Parsing a rewritten string gives back the list, without the pairs that have neither key nor
   * value, exactly when no value holds an ampersand or a NUL.
   */
  lemma {:induction false} ParseOfJoined(codec: Codec, args: seq<KeyVal>)
    requires AllClean(args)
    ensures Parsed(codec, Joined(codec, args)) == NoBlanks(args) <==> AllPlain(args)
    decreases |args|
  {
    hide Written, ParsedToken, Tokens, Clean, Until, CString;
    NoTokens();
    if args == [] {
    } else {
      var kv, more := args[0], args[1..];
      var w := Written(codec, kv);
      var rest: Text := if |args| == 1 then [] else "&" + Joined(codec, more);
      assert Joined(codec, args) == w + rest;
      assert rest != [] ==> rest[1..] == Joined(codec, more);
      ParseOfJoined(codec, more);
      TokensOf(w, rest);
      assert AllPlain(args) <==> Plain(kv) && AllPlain(more);
      if Blank(kv) {
        assert w == [] by { BlankIsNothing(codec, kv); }
      } else {
        FirstParsed(codec, kv);
        PlainIsUncut(kv);
        assert NoBlanks(args) == [kv] + NoBlanks(more);
        if Plain(kv) {
          assert Parsed(codec, w + rest) == [kv] + Parsed(codec, Joined(codec, more));
          assert Parsed(codec, w + rest)[1..] == Parsed(codec, Joined(codec, more));
          assert NoBlanks(args)[1..] == NoBlanks(more);
        } else {
          assert Parsed(codec, w + rest)[0] == KeyVal(kv.key, Until(CString(kv.value), '&')) != NoBlanks(args)[0];
        }
      }
    }
  }

  lemma BlankIsNothing(codec: Codec, kv: KeyVal)
    requires Blank(kv)
    ensures Written(codec, kv) == [] && Plain(kv)
  {
  }

  lemma NoTokens()
    ensures Tokens([]) == []
  {
  }

  /** Everything the parser makes has a clean key and a value without NUL. */
  lemma {:induction false} ParsedIsClean(codec: Codec, tokens: seq<Text>)
    requires forall i :: 0 <= i < |tokens| ==> '&' !in tokens[i]
    ensures AllClean(ParsedTokens(codec, tokens))
    ensures forall kv :: kv in ParsedTokens(codec, tokens) ==> NUL !in kv.value
    ensures forall kv, c :: kv in ParsedTokens(codec, tokens) && c in kv.key ==> c !in LOWER_LETTERS
    decreases |tokens|
  {
    hide Decoded;
    forall kv | kv in ParsedTokens(codec, tokens) && Clean(kv.key)
      ensures forall c :: c in kv.key ==> c !in LOWER_LETTERS
    {
      CleanIsUpper(kv.key);
    }
    if tokens == [] {
    } else {
      ParsedIsClean(codec, tokens[1..]);
      var token := tokens[0];
      var key := Until(token, '=');
      assert forall c :: c in key ==> c in token;
      UpperIsClean(key);
      if |key| < |token| {
        DecodedHasNoNul(codec, token[|key| + 1..]);
      }
    }
  }

  lemma UpperIsClean(key: Text)
    requires '=' !in key && '&' !in key
    ensures Clean(Upper(key))
  {
    forall c | c in Upper(key) ensures c != '=' && c != '&' && UpperByte(c) == c {
      var i :| 0 <= i < |key| && c == UpperByte(key[i]);
      assert key[i] in key;
    }
  }

  lemma {:induction false} TokensHaveNoAmpersand(s: Text)
    ensures forall i :: 0 <= i < |Tokens(s)| ==> '&' !in Tokens(s)[i] && Tokens(s)[i] != []
    decreases |s|
  {
    if s == [] {
    } else {
      if s[0] == '&' { TokensHaveNoAmpersand(s[1..]); } else { TokensHaveNoAmpersand(s[|Until(s, '&')|..]); }
    }
  }

  /**
   * For every query string and every table of substitutions: parsing the rewritten string gives
   * the keys in order with their substituted values exactly when none of these values holds an
   * ampersand or a NUL (pairs left without key and value are dropped).
   */
  lemma SubstitutionSurvivesParsing(codec: Codec, query: Text, subs: map<Text, seq<Substitute>>, scope: Scope,
                                    replace: RegexReplace)
    ensures var changed := Substituted(subs, Parsed(codec, query), scope, replace);
            Parsed(codec, Joined(codec, changed)) == NoBlanks(changed) <==> AllPlain(changed)
  {
    hide Tokens, ParsedTokens, Applied, SubsOf, Clean;
    TokensHaveNoAmpersand(query);
    ParsedIsClean(codec, Tokens(query));
    ParseOfJoined(codec, Substituted(subs, Parsed(codec, query), scope, replace));
  }

  /**
   * An escaped ampersand is lost: in this query the substitution concerns key B only, yet the
   * string is rewritten and no longer parses to the substituted list.
   */
  lemma EscapedAmpersandIsLost(codec: Codec, replace: RegexReplace)
    ensures var query: Text, subs := "A=%26&B=x", map["B" := [Substitute("y", "z", QUERY_STRING)]];
            var changed := Substituted(subs, Parsed(codec, query), QUERY_STRING, replace);
            && Touched(subs, Parsed(codec, query), QUERY_STRING)
            && changed[0] == KeyVal("A", "&")
            && Parsed(codec, Joined(codec, changed)) != NoBlanks(changed)
  {
    hide Joined, NoBlanks, Parsed, Substituted, Touched;
    var query: Text, subs := "A=%26&B=x", map["B" := [Substitute("y", "z", QUERY_STRING)]];
    var list, changed := Parsed(codec, query), Substituted(subs, Parsed(codec, query), QUERY_STRING, replace);
    ParsedPairs(codec);
    OnlyB(list, changed, subs, replace);
    assert '&' in changed[0].value;
    SubstitutionSurvivesParsing(codec, query, subs, QUERY_STRING, replace);
  }

  /** The substitution of key B applies, and leaves key A alone. */
  lemma OnlyB(list: seq<KeyVal>, changed: seq<KeyVal>, subs: map<Text, seq<Substitute>>, replace: RegexReplace)
    requires list == [KeyVal("A", "&"), KeyVal("B", "x")] && subs == map["B" := [Substitute("y", "z", QUERY_STRING)]]
    requires changed == Substituted(subs, list, QUERY_STRING, replace)
    ensures Touched(subs, list, QUERY_STRING) && |changed| == 2 && changed[0] == KeyVal("A", "&")
  {
    assert Covers(SubsOf(subs, list[1].key)[0].scope, QUERY_STRING);
    assert "A"[0] != "B"[0];
    assert SubsOf(subs, list[0].key) == [];
  }

  lemma ParsedPairs(codec: Codec)
    ensures Parsed(codec, "A=%26&B=x") == [KeyVal("A", "&"), KeyVal("B", "x")]
  {
    hide Decoded, Until, Tokens, ParsedToken;
    var first, second: Text := "A=%26", "B=x";
    TokensOf(first, "&" + second);
    TokensOf(second, []);
    NoTokens();
    assert first + ("&" + second) == "A=%26&B=x" && second + [] == second && ("&" + second)[1..] == second;
    assert Tokens("A=%26&B=x") == [first, second];
    DecodedPieces(codec);
    ParsedPair(codec, "A", "%26");
    ParsedPair(codec, "B", "x");
    assert "A" + "=" + "%26" == first && "B" + "=" + "x" == second;
    assert Upper("A") == "A" && Upper("B") == "B";
    assert [first, second][1..] == [second] && [second][1..] == [];
  }

  lemma DecodedPieces(codec: Codec)
    ensures Decoded(codec, "%26") == "&" && Decoded(codec, "x") == "x"
  {
    CStringWhole("&");
    CStringWhole("%26");
    CStringWhole("x");
    ReplacedNothing("%26", '+', " ");
    ReplacedNothing("x", '+', " ");
    assert "%26"[3..] == [] && X2C('2', '6') == '&' && "x"[1..] == [];
    UnescapeNothing();
    assert Unescape("%26") == ['&'] && Unescape("x") == ['x'];
  }
}
