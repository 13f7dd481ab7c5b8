/**
 * The serialized duplication format: three sections, each preceded by its length in eight decimal
 * digits, written by mod_dup and read by mod_compare.
 */
module DupFormat {
  import opened Bytes
  import opened Options
  import opened QueryArgs

  datatype Status = OK | BAD_REQUEST

  // ----- decimal numbers -----

  function Digit(d: nat): Byte
    requires d < 10
  {
    (48 + d) as char
  }

  function Decimal(n: nat): Text {
    if n < 10 then [Digit(n)] else Decimal(n / 10) + [Digit(n % 10)]
  }

  predicate IsDigit(c: Byte) { '0' <= c <= '9' }

  predicate AllDigits(s: Text) { forall i :: 0 <= i < |s| ==> IsDigit(s[i]) }

  function Value(s: Text): nat
    requires AllDigits(s)
  {
    if s == [] then 0 else 10 * Value(s[..|s| - 1]) + (s[|s| - 1] as int - 48)
  }

  function Zeros(n: nat): (s: Text)
    ensures |s| == n && forall i :: 0 <= i < n ==> s[i] == '0'
  {
    seq(n, _ => '0')
  }

  /** The number with zeros put before it up to a width of eight. */
  function Padded(n: nat): Text {
    var d := Decimal(n);
    if |d| < 8 then Zeros(8 - |d|) + d else d
  }

  /**
   * The conversion of a string to an unsigned int: an optional sign and decimal digits, as long as
   * the number fits in 32 bits; a negative number wraps around.
   */
  function LexicalCast(s: Text): Option<nat> {
    var signed := s != [] && (s[0] == '-' || s[0] == '+');
    var digits := if signed then s[1..] else s;
    if digits == [] || !AllDigits(digits) || Value(digits) >= 0x1_0000_0000 then None
    else if signed && s[0] == '-' && Value(digits) > 0 then Some(0x1_0000_0000 - Value(digits))
    else Some(Value(digits))
  }

  // ----- lemmas on numbers -----

  function Power10(n: nat): nat { if n == 0 then 1 else 10 * Power10(n - 1) }

  lemma {:induction false} DecimalShape(n: nat)
    ensures AllDigits(Decimal(n)) && Value(Decimal(n)) == n && Decimal(n) != []
    ensures forall k: nat :: k > 0 ==> (n < Power10(k) <==> |Decimal(n)| <= k)
    decreases n
  {
    if n >= 10 {
      DecimalShape(n / 10);
      var d := Decimal(n / 10);
      assert (d + [Digit(n % 10)])[..|d|] == d;
      forall k: nat | k > 0 ensures n < Power10(k) <==> |Decimal(n)| <= k {
        if k > 1 {
          assert n < Power10(k) <==> n / 10 < Power10(k - 1);
        } else {
          assert Power10(1) == 10 * Power10(0);
        }
      }
    } else {
      forall k: nat | k > 0 ensures n < Power10(k) {
        Power10Grows(k);
      }
    }
  }

  lemma {:induction false} Power10Grows(k: nat)
    requires k > 0
    ensures Power10(k) >= 10
    decreases k
  {
    if k > 1 { Power10Grows(k - 1); }
  }

  lemma {:induction false} ValueBound(s: Text)
    requires AllDigits(s)
    ensures Value(s) < Power10(|s|)
    decreases |s|
  {
    if s == [] {
    } else {
      ValueBound(s[..|s| - 1]);
    }
  }

  lemma {:induction false} LeadingZeros(n: nat, s: Text)
    requires AllDigits(s)
    ensures AllDigits(Zeros(n) + s) && Value(Zeros(n) + s) == Value(s)
    decreases n + |s|
  {
    var t := Zeros(n) + s;
    if s != [] {
      LeadingZeros(n, s[..|s| - 1]);
      assert t[..|t| - 1] == Zeros(n) + s[..|s| - 1];
    } else if n > 0 {
      LeadingZeros(n - 1, s);
      assert t[..n - 1] == Zeros(n - 1) + s;
    }
  }

  lemma TenToTheEighth()
    ensures Power10(8) == 100_000_000
  {
    assert Power10(4) == 10_000;
    assert Power10(8) == 10 * (10 * (10 * (10 * Power10(4))));
  }

  lemma CastOfDigits(s: Text)
    requires AllDigits(s) && 1 <= |s| <= 8
    ensures LexicalCast(s) == Some(Value(s)) && Value(s) < 100_000_000
  {
    ValueBound(s);
    TenToTheEighth();
    Power10Monotone(|s|, 8);
  }

  lemma {:induction false} Power10Monotone(j: nat, k: nat)
    requires j <= k
    ensures Power10(j) <= Power10(k)
    decreases k
  {
    if j < k { Power10Monotone(j, k - 1); }
  }

  /** Eight bytes hold the length exactly when it is below ten to the eighth. */
  lemma PaddedIsRead(n: nat)
    ensures |Padded(n)| >= 8
    ensures LexicalCast(Padded(n)[..8]) == Some(n) <==> n < 100_000_000
    ensures n < 100_000_000 ==> |Padded(n)| == 8
  {
    hide LexicalCast, Value;
    var d, p := Decimal(n), Padded(n);
    DecimalShape(n);
    TenToTheEighth();
    if |d| < 8 {
      LeadingZeros(8 - |d|, d);
      assert p[..8] == p;
    } else if |d| == 8 {
      assert p[..8] == p;
    }
    CastOfDigits(p[..8]);
  }

  /** An optional sign and some digits. */
  predicate IsNumeral(s: Text) {
    var digits := if s != [] && (s[0] == '-' || s[0] == '+') then s[1..] else s;
    digits != [] && AllDigits(digits)
  }

  /** What the conversion reads: numerals below 2^32, and a number after a minus sign modulo 2^32. */
  lemma CastBySign(digits: Text)
    requires digits != [] && AllDigits(digits)
    ensures var v := Value(digits);
            && LexicalCast(digits) == LexicalCast("+" + digits) == (if v < 0x1_0000_0000 then Some(v) else None)
            && LexicalCast("-" + digits)
               == if v < 0x1_0000_0000 then Some((0x1_0000_0000 - v) % 0x1_0000_0000) else None
  {
    hide Value;
    assert IsDigit(digits[0]);
    var plus, minus: Text := "+" + digits, "-" + digits;
    assert plus[1..] == digits && plus[0] == '+' && minus[1..] == digits && minus[0] == '-';
    if Value(digits) < 0x1_0000_0000 { Negated(Value(digits)); }
  }

  lemma Negated(v: nat)
    requires v < 0x1_0000_0000
    ensures (0x1_0000_0000 - v) % 0x1_0000_0000 == if v == 0 then 0 else 0x1_0000_0000 - v
  {
  }

  lemma CastOfOther(s: Text)
    requires !IsNumeral(s)
    ensures LexicalCast(s) == None
  {
  }

  /** Decimal digits count in the usual way. */
  lemma ValueByDigit(s: Text, d: nat)
    requires AllDigits(s) && d < 10
    ensures AllDigits(s + [Digit(d)]) && Value(s + [Digit(d)]) == 10 * Value(s) + d && Digit(d) == "0123456789"[d]
  {
    assert (s + [Digit(d)])[..|s|] == s;
  }

  // ----- writing -----

  function Serialized(s: Text): Text { Padded(|s|) + s }

  function HeaderLine(h: KeyVal): Text { h.key + ": " + h.value + "\n" }

  function HeaderText(headers: seq<KeyVal>): Text {
    if headers == [] then [] else HeaderLine(headers[0]) + HeaderText(headers[1..])
  }

  function Message(body: Text, headers: seq<KeyVal>, answer: Text): Text {
    Serialized(body) + Serialized(HeaderText(headers)) + Serialized(answer)
  }

  // ----- reading -----

  datatype Length = Length(n: nat) | OutOfRange | BadCast

  /** The part of s from pos on, of at most n bytes; none when pos is past the end. */
  function Substr(s: Text, pos: nat, n: nat): Option<Text> {
    if pos > |s| then None else Some(if pos + n <= |s| then s[pos..pos + n] else s[pos..])
  }

  function GetLength(s: Text, first: nat): Length {
    match Substr(s, first, 8)
    case None => OutOfRange
    case Some(digits) =>
      match LexicalCast(digits)
      case None => BadCast
      case Some(n) => if n > 99_999_999 then OutOfRange else Length(n)
  }

  /** The lines that getline yields: a newline ends one, and the end of the text one that is not empty. */
  function Lines(s: Text): seq<Text>
    decreases |s|
  {
    if s == [] then []
    else var line := Until(s, '\n'); [line] + if |line| == |s| then [] else Lines(s[|line| + 1..])
  }

  /** The first place of ": " in s, or the length of s. */
  function Delimiter(s: Text): (n: nat)
    ensures n <= |s| && forall k :: 0 <= k < n && k + 1 < |s| ==> !(s[k] == ':' && s[k + 1] == ' ')
    ensures n < |s| ==> n + 1 < |s| && s[n] == ':' && s[n + 1] == ' '
  {
    if s == [] then 0
    else if |s| > 1 && s[0] == ':' && s[1] == ' ' then 0
    else 1 + Delimiter(s[1..])
  }

  function SplitLine(line: Text): Option<KeyVal> {
    var n := Delimiter(line);
    if n == |line| then None else Some(KeyVal(line[..n], line[n + 2..]))
  }

  /** The headers read before the first line without a delimiter, and whether there was none. */
  datatype Headers = Headers(ok: bool, fields: map<Text, Text>)

  function ReadLines(lines: seq<Text>, fields: map<Text, Text>): Headers {
    if lines == [] then Headers(true, fields)
    else
      match SplitLine(lines[0])
      case None => Headers(false, fields)
      case Some(h) => ReadLines(lines[1..], fields[h.key := h.value])
  }

  /** Every line, ended by a newline. */
  function Ended(lines: seq<Text>): Text {
    if lines == [] then [] else lines[0] + "\n" + Ended(lines[1..])
  }

  lemma LinesStep(s: Text)
    requires s != []
    ensures var line := Until(s, '\n');
            Lines(s) == [line] + if |line| == |s| then [] else Lines(s[|line| + 1..])
  {
  }

  lemma EndedStep(line: Text, lines: seq<Text>)
    ensures Ended([line] + lines) == line + "\n" + Ended(lines)
  {
    assert ([line] + lines)[1..] == lines;
  }

  /** The lines are those of the text, whose last newline may be missing. */
  lemma {:induction false} LinesRebuild(s: Text)
    ensures Ended(Lines(s)) == if s != [] && s[|s| - 1] != '\n' then s + "\n" else s
    ensures forall l :: l in Lines(s) ==> '\n' !in l
    decreases |s|
  {
    hide Until, Lines, Ended;
    NoLines();
    NothingEnded();
    if s == [] {
    } else {
      var line := Until(s, '\n');
      LinesStep(s);
      if |line| == |s| {
        EndedStep(line, []);
        assert s[|s| - 1] in line && line == s && s + "\n" + [] == s + "\n";
      } else {
        var rest := s[|line| + 1..];
        LinesRebuild(rest);
        EndedStep(line, Lines(rest));
        assert s == line + "\n" + rest;
        if rest != [] { assert rest[|rest| - 1] == s[|s| - 1]; }
        assert line + "\n" + (rest + "\n") == s + "\n";
      }
    }
  }

  lemma NothingEnded()
    ensures Ended([]) == []
  {
  }

  /** The headers that lines with a delimiter hold. */
  function HeadersIn(lines: seq<Text>): seq<KeyVal>
    requires forall i :: 0 <= i < |lines| ==> SplitLine(lines[i]).Some?
  {
    seq(|lines|, i requires 0 <= i < |lines| => SplitLine(lines[i]).value)
  }

  lemma SplitIffDelimiter(line: Text)
    ensures SplitLine(line).Some? <==> HasDelimiter(line)
    ensures SplitLine(line).Some? ==>
              var h := SplitLine(line).value;
              line == h.key + ": " + h.value && !HasDelimiter(h.key)
  {
    var n := Delimiter(line);
    if n < |line| {
      assert line == line[..n] + ": " + line[n + 2..];
    }
  }

  /** Lines are read up to the first one without a delimiter, and the reader says whether there was none. */
  lemma {:induction false} LinesAreRead(lines: seq<Text>, fields: map<Text, Text>, n: nat)
    requires n <= |lines| && forall i :: 0 <= i < n ==> SplitLine(lines[i]).Some?
    requires n < |lines| ==> SplitLine(lines[n]).None?
    ensures ReadLines(lines, fields) == Headers(n == |lines|, Folded(HeadersIn(lines[..n]), fields))
    decreases n
  {
    hide SplitLine;
    if n == 0 {
      assert HeadersIn(lines[..0]) == [];
    } else {
      var h := SplitLine(lines[0]).value;
      LinesAreRead(lines[1..], fields[h.key := h.value], n - 1);
      assert lines[..n][1..] == lines[1..][..n - 1];
      assert HeadersIn(lines[..n]) == [h] + HeadersIn(lines[1..][..n - 1]);
    }
  }

  /** One line is read. */
  lemma LineStep(lines: seq<Text>, fields: map<Text, Text>)
    requires lines != []
    ensures var line, n := lines[0], Delimiter(lines[0]);
            ReadLines(lines, fields) == if n == |line| then Headers(false, fields)
                                        else ReadLines(lines[1..], fields[line[..n] := line[n + 2..]])
  {
  }

  lemma ReadNothing(fields: map<Text, Text>)
    ensures ReadLines([], fields) == Headers(true, fields)
  {
  }

  /** Reading succeeds exactly if every line has a delimiter. */
  lemma {:induction false} ReadIffDelimiters(lines: seq<Text>, fields: map<Text, Text>)
    ensures ReadLines(lines, fields).ok <==> forall i :: 0 <= i < |lines| ==> HasDelimiter(lines[i])
    decreases |lines|
  {
    hide SplitLine, HasDelimiter;
    if lines == [] {
    } else {
      SplitIffDelimiter(lines[0]);
      var rest := lines[1..];
      if SplitLine(lines[0]).Some? {
        var h := SplitLine(lines[0]).value;
        ReadIffDelimiters(rest, fields[h.key := h.value]);
      }
      assert forall i :: 1 <= i < |lines| ==> lines[i] == rest[i - 1];
      assert forall i :: 0 <= i < |rest| ==> rest[i] == lines[i + 1];
    }
  }

  /** What the list of headers makes of a map: the last value of a name wins. */
  function Folded(headers: seq<KeyVal>, fields: map<Text, Text>): map<Text, Text> {
    if headers == [] then fields else Folded(headers[1..], fields[headers[0].key := headers[0].value])
  }

  lemma {:induction false} LastValueWins(headers: seq<KeyVal>, fields: map<Text, Text>, i: nat)
    requires i < |headers| && forall k :: i < k < |headers| ==> headers[k].key != headers[i].key
    ensures headers[i].key in Folded(headers, fields) && Folded(headers, fields)[headers[i].key] == headers[i].value
    decreases |headers|
  {
    if i > 0 {
      LastValueWins(headers[1..], fields[headers[0].key := headers[0].value], i - 1);
    } else {
      NameStays(headers[1..], fields[headers[0].key := headers[0].value], headers[0].key);
    }
  }

  lemma {:induction false} NameStays(headers: seq<KeyVal>, fields: map<Text, Text>, name: Text)
    requires name in fields && forall k :: 0 <= k < |headers| ==> headers[k].key != name
    ensures name in Folded(headers, fields) && Folded(headers, fields)[name] == fields[name]
    decreases |headers|
  {
    if headers == [] {
    } else {
      NameStays(headers[1..], fields[headers[0].key := headers[0].value], name);
    }
  }

  // ----- the header text -----

  predicate HasDelimiter(s: Text) { exists k :: 0 <= k && k + 1 < |s| && s[k] == ':' && s[k + 1] == ' ' }

  /** No name appears that neither the map nor the list has. */
  lemma {:induction false} FoldedKeys(headers: seq<KeyVal>, fields: map<Text, Text>, name: Text)
    ensures name in Folded(headers, fields)
       <==> name in fields || exists i :: 0 <= i < |headers| && headers[i].key == name
    decreases |headers|
  {
    if headers == [] {
    } else {
      var rest := headers[1..];
      FoldedKeys(rest, fields[headers[0].key := headers[0].value], name);
      assert forall i :: 1 <= i < |headers| ==> headers[i] == rest[i - 1];
      assert forall i :: 0 <= i < |rest| ==> rest[i] == headers[i + 1];
    }
  }

  /** A header line reads as the header it was made from exactly when the name holds no delimiter. */
  lemma LineIsRead(h: KeyVal)
    ensures SplitLine(h.key + ": " + h.value) == Some(h) <==> !HasDelimiter(h.key)
  {
    var line := h.key + ": " + h.value;
    var n := Delimiter(line);
    assert line[|h.key|] == ':' && line[|h.key| + 1] == ' ';
    assert n <= |h.key|;
    if HasDelimiter(h.key) {
      var k :| 0 <= k && k + 1 < |h.key| && h.key[k] == ':' && h.key[k + 1] == ' ';
      assert line[k] == ':' && line[k + 1] == ' ';
      assert n < |h.key|;
      assert |SplitLine(line).value.key| == n;
    } else {
      assert forall k :: 0 <= k < |h.key| ==> line[k] == h.key[k];
      assert line[..|h.key|] == h.key && line[|h.key| + 2..] == h.value;
    }
  }

  /** Names and values that fit on a line each, the names without a delimiter. */
  predicate Sendable(h: KeyVal) { '\n' !in h.key && '\n' !in h.value && !HasDelimiter(h.key) }

  predicate AllSendable(headers: seq<KeyVal>) { forall i :: 0 <= i < |headers| ==> Sendable(headers[i]) }

  lemma {:induction false} FirstLine(line: Text, rest: Text)
    requires '\n' !in line
    ensures Lines(line + "\n" + rest) == [line] + Lines(rest)
  {
    var s := line + "\n" + rest;
    assert s == line + ("\n" + rest);
    UntilSplits(line, "\n" + rest, '\n');
    assert s[|line| + 1..] == rest;
  }

  lemma {:induction false} HeadersAreRead(headers: seq<KeyVal>, fields: map<Text, Text>)
    requires AllSendable(headers)
    ensures ReadLines(Lines(HeaderText(headers)), fields) == Headers(true, Folded(headers, fields))
    decreases |headers|
  {
    hide Lines, SplitLine, HasDelimiter;
    NoLines();
    if headers == [] {
    } else {
      var h, more := headers[0], headers[1..];
      var line := h.key + ": " + h.value;
      assert Sendable(h);
      assert '\n' !in line;
      FirstLine(line, HeaderText(more));
      LineIsRead(h);
      assert ([line] + Lines(HeaderText(more)))[1..] == Lines(HeaderText(more));
      HeadersAreRead(more, fields[h.key := h.value]);
    }
  }

  lemma NoLines()
    ensures Lines([]) == []
  {
  }

  // ----- the message -----

  /**
   * body is three sections, each an eight-byte length and that many bytes, except that the last
   * may be cut off by the end of the text or followed by more.
   */
  ghost predicate FramedBy(body: Text, l1: Text, reqBody: Text, l2: Text, header: Text, l3: Text, rest: Text,
                           answer: Text)
  {
    && body == l1 + reqBody + l2 + header + l3 + rest
    && |l1| == |l2| == |l3| == 8
    && LexicalCast(l1) == Some(|reqBody|) && |reqBody| <= 99_999_999
    && LexicalCast(l2) == Some(|header|) && |header| <= 99_999_999
    && LexicalCast(l3).Some? && LexicalCast(l3).value <= 99_999_999
    && answer == if LexicalCast(l3).value <= |rest| then rest[..LexicalCast(l3).value] else rest
  }

  ghost predicate Framed(body: Text, reqBody: Text, header: Text, answer: Text) {
    exists l1, l2, l3, rest :: FramedBy(body, l1, reqBody, l2, header, l3, rest, answer)
  }

  datatype Fields = Fields(reqBody: Text, responseBody: Text, responseHeader: map<Text, Text>)

  datatype Outcome = Outcome(status: Status, fields: Fields)

  /** What reading body does to the fields; a failure keeps what was read before it. */
  function ReadBody(body: Text, f: Fields): Outcome {
    if |body| < 24 then Outcome(BAD_REQUEST, f)
    else
      var n1 := GetLength(body, 0);
      if !n1.Length? then Outcome(BAD_REQUEST, f)
      else
        match Substr(body, 8, n1.n)
        case None => Outcome(BAD_REQUEST, f)
        case Some(reqBody) => ReadResponse(body, 8 + n1.n, f.(reqBody := reqBody))
  }

  function ReadResponse(body: Text, pos: nat, f: Fields): Outcome {
    var n2 := GetLength(body, pos);
    if !n2.Length? then Outcome(BAD_REQUEST, f)
    else
      match Substr(body, pos + 8, n2.n)
      case None => Outcome(BAD_REQUEST, f)
      case Some(header) => ReadAnswer(body, pos + 8 + n2.n, header, f)
  }

  function ReadAnswer(body: Text, pos: nat, header: Text, f: Fields): Outcome {
    var n3 := GetLength(body, pos);
    if !n3.Length? then Outcome(BAD_REQUEST, f)
    else
      match Substr(body, pos + 8, n3.n)
      case None => Outcome(BAD_REQUEST, f)
      case Some(answer) =>
        var h := ReadLines(Lines(header), f.responseHeader);
        Outcome(if h.ok then OK else BAD_REQUEST, Fields(f.reqBody, answer, h.fields))
  }

  lemma Middle(x: Text, y: Text, z: Text)
    ensures (x + y + z)[|x|..|x| + |y|] == y
  {
  }

  lemma SixParts(l1: Text, a: Text, l2: Text, b: Text, l3: Text, c: Text)
    requires |l1| == |l2| == |l3| == 8
    ensures var t, p2, p3 := l1 + a + l2 + b + l3 + c, 8 + |a|, 16 + |a| + |b|;
            && t[0..8] == l1 && t[8..p2] == a && t[p2..p2 + 8] == l2 && t[p2 + 8..p3] == b
            && t[p3..p3 + 8] == l3 && t[p3 + 8..] == c
  {
    var t := l1 + a + l2 + b + l3 + c;
    assert t == l1 + a + (l2 + b + l3 + c);
    Middle(l1, a, l2 + b + l3 + c);
    assert t == (l1 + a) + l2 + (b + l3 + c);
    Middle(l1 + a, l2, b + l3 + c);
    assert t == (l1 + a + l2) + b + (l3 + c);
    Middle(l1 + a + l2, b, l3 + c);
    Middle(l1 + a + l2 + b, l3, c);
  }

  lemma SixSlices(t: Text, p2: nat, p3: nat)
    requires 8 <= p2 && p2 + 8 <= p3 && p3 + 8 <= |t|
    ensures t == t[0..8] + t[8..p2] + t[p2..p2 + 8] + t[p2 + 8..p3] + t[p3..p3 + 8] + t[p3 + 8..]
  {
    assert t[0..8] + t[8..p2] == t[..p2];
    assert t[..p2] + t[p2..p2 + 8] == t[..p2 + 8];
    assert t[..p2 + 8] + t[p2 + 8..p3] == t[..p3];
    assert t[..p3] + t[p3..p3 + 8] == t[..p3 + 8];
  }

  lemma SectionIsRead(body: Text, pos: nat, l: Text, section: Text)
    requires pos + 8 + |section| <= |body| && body[pos..pos + 8] == l && body[pos + 8..pos + 8 + |section|] == section
    requires LexicalCast(l) == Some(|section|) && |section| <= 99_999_999
    ensures GetLength(body, pos) == Length(|section|) && Substr(body, pos + 8, |section|) == Some(section)
  {
    hide LexicalCast;
  }

  lemma AnswerIsRead(body: Text, pos: nat, l: Text, rest: Text, header: Text, f: Fields)
    requires pos + 8 <= |body| && body[pos..pos + 8] == l && body[pos + 8..] == rest
    requires LexicalCast(l).Some? && LexicalCast(l).value <= 99_999_999
    ensures var n, h := LexicalCast(l).value, ReadLines(Lines(header), f.responseHeader);
            ReadAnswer(body, pos, header, f) ==
            Outcome(if h.ok then OK else BAD_REQUEST,
                    Fields(f.reqBody, if n <= |rest| then rest[..n] else rest, h.fields))
  {
    hide LexicalCast, Lines, ReadLines;
    var n := LexicalCast(l).value;
    if n <= |rest| {
      assert body[pos + 8..pos + 8 + n] == rest[..n];
    }
  }

  /** Every framed text is read as its sections say. */
  lemma {:induction false} FramedIsRead(body: Text, reqBody: Text, header: Text, answer: Text, f: Fields)
    requires Framed(body, reqBody, header, answer)
    ensures var h := ReadLines(Lines(header), f.responseHeader);
            ReadBody(body, f) == Outcome(if h.ok then OK else BAD_REQUEST, Fields(reqBody, answer, h.fields))
  {
    hide LexicalCast, Lines, ReadLines, GetLength, Substr, ReadAnswer;
    var l1, l2, l3, rest :| FramedBy(body, l1, reqBody, l2, header, l3, rest, answer);
    var p2 := 8 + |reqBody|;
    var p3 := p2 + 8 + |header|;
    SixParts(l1, reqBody, l2, header, l3, rest);
    SectionIsRead(body, 0, l1, reqBody);
    SectionIsRead(body, p2, l2, header);
    AnswerIsRead(body, p3, l3, rest, header, f.(reqBody := reqBody));
  }

  /** A length that was read stands in the eight bytes before its section. */
  lemma SectionStands(s: Text, pos: nat)
    requires GetLength(s, pos).Length? && Substr(s, pos + 8, GetLength(s, pos).n).Some?
    ensures var n := GetLength(s, pos).n;
            && pos + 8 <= |s| && LexicalCast(s[pos..pos + 8]) == Some(n) && n <= 99_999_999
            && Substr(s, pos + 8, n).value == if pos + 8 + n <= |s| then s[pos + 8..pos + 8 + n] else s[pos + 8..]
  {
    hide LexicalCast;
  }

  lemma ThreeSections(body: Text, p2: nat, p3: nat, header: Text, answer: Text)
    requires 8 <= p2 && p2 + 8 <= p3 && p3 + 8 <= |body| && header == body[p2 + 8..p3]
    requires LexicalCast(body[0..8]) == Some(p2 - 8) && p2 - 8 <= 99_999_999
    requires LexicalCast(body[p2..p2 + 8]) == Some(|header|) && |header| <= 99_999_999
    requires var n := LexicalCast(body[p3..p3 + 8]);
             && n.Some? && n.value <= 99_999_999
             && answer == if p3 + 8 + n.value <= |body| then body[p3 + 8..p3 + 8 + n.value] else body[p3 + 8..]
    ensures Framed(body, body[8..p2], header, answer)
  {
    hide LexicalCast;
    SixSlices(body, p2, p3);
    assert FramedBy(body, body[0..8], body[8..p2], body[p2..p2 + 8], header, body[p3..p3 + 8], body[p3 + 8..], answer);
  }

  /** When the reader gets to the answer, it has read a framed text, and the fields hold the sections. */
  lemma ReadSections(body: Text, f: Fields) returns (header: Text)
    requires var r := ReadBody(body, f);
             r.status == OK || r.fields.responseBody != f.responseBody || r.fields.responseHeader != f.responseHeader
    ensures var r := ReadBody(body, f);
            && Framed(body, r.fields.reqBody, header, r.fields.responseBody)
            && ReadLines(Lines(header), f.responseHeader) == Headers(r.status == OK, r.fields.responseHeader)
  {
    hide LexicalCast, Lines, ReadLines, GetLength, Substr;
    var n1 := GetLength(body, 0).n;
    var p2 := 8 + n1;
    SectionStands(body, 0);
    var n2 := GetLength(body, p2).n;
    var p3 := p2 + 8 + n2;
    SectionStands(body, p2);
    SectionStands(body, p3);
    header := body[p2 + 8..p3];
    ThreeSections(body, p2, p3, header, Substr(body, p3 + 8, GetLength(body, p3).n).value);
  }

  /** Only framed texts are accepted, and the fields then hold the sections. */
  lemma {:induction false} AcceptedIsFramed(body: Text, f: Fields) returns (header: Text)
    requires ReadBody(body, f).status == OK
    ensures var r := ReadBody(body, f).fields;
            && Framed(body, r.reqBody, header, r.responseBody)
            && ReadLines(Lines(header), f.responseHeader) == Headers(true, r.responseHeader)
  {
    hide ReadBody, Framed, Lines, ReadLines;
    header := ReadSections(body, f);
  }

  ghost predicate AnyFrame(body: Text) {
    exists reqBody, header, answer :: Framed(body, reqBody, header, answer)
  }

  /** Of a text that is not framed, nothing is kept but a first section that can be read. */
  lemma UnframedKeeps(body: Text, f: Fields)
    ensures !AnyFrame(body) ==>
              var r := ReadBody(body, f);
              && r.status == BAD_REQUEST
              && r.fields.responseBody == f.responseBody && r.fields.responseHeader == f.responseHeader
    ensures var r := ReadBody(body, f).fields;
            r.reqBody == f.reqBody || FirstSection(body, r.reqBody)
  {
    hide LexicalCast, Lines, ReadLines, GetLength, Substr;
    var r := ReadBody(body, f);
    if r.fields.responseBody != f.responseBody || r.fields.responseHeader != f.responseHeader || r.status == OK {
      var header := ReadSections(body, f);
    }
    if r.fields.reqBody != f.reqBody { SectionStands(body, 0); }
  }

  /** The text starts with the length of the section and the section, or as much of it as there is. */
  predicate FirstSection(body: Text, section: Text) {
    && |body| >= 8 && LexicalCast(body[0..8]).Some?
    && var n := LexicalCast(body[0..8]).value;
       section == if 8 + n <= |body| then body[8..8 + n] else body[8..]
  }

  lemma MessageIsFramed(body: Text, headers: seq<KeyVal>, answer: Text)
    requires |body| < 100_000_000 && |HeaderText(headers)| < 100_000_000 && |answer| < 100_000_000
    ensures Framed(Message(body, headers, answer), body, HeaderText(headers), answer)
  {
    hide LexicalCast, HeaderText, Padded;
    var h := HeaderText(headers);
    PaddedIsRead(|body|);
    PaddedIsRead(|h|);
    PaddedIsRead(|answer|);
    var l1, l2, l3 := Padded(|body|), Padded(|h|), Padded(|answer|);
    assert l1[..8] == l1 && l2[..8] == l2 && l3[..8] == l3;
    assert (l1 + body) + (l2 + h) + (l3 + answer) == l1 + body + l2 + h + l3 + answer;
    assert FramedBy(Message(body, headers, answer), l1, body, l2, h, l3, answer, answer);
  }

  /** What was sent is received, header list folded into a map with the last value of a name winning. */
  lemma {:induction false} ReceivedAsSent(body: Text, headers: seq<KeyVal>, answer: Text, f: Fields)
    requires |body| < 100_000_000 && |HeaderText(headers)| < 100_000_000 && |answer| < 100_000_000
    requires AllSendable(headers)
    ensures ReadBody(Message(body, headers, answer), f)
         == Outcome(OK, Fields(body, answer, Folded(headers, f.responseHeader)))
  {
    MessageIsFramed(body, headers, answer);
    FramedIsRead(Message(body, headers, answer), body, HeaderText(headers), answer, f);
    HeadersAreRead(headers, f.responseHeader);
  }

  /** The request body comes back exactly when its length fits the eight digits. */
  lemma BodyIsReceivedIffShort(body: Text, headers: seq<KeyVal>, answer: Text, f: Fields)
    ensures ReadBody(Message(body, headers, answer), f).fields.reqBody == body <==> |body| < 100_000_000
  {
    hide LexicalCast, HeaderText, Padded, Lines, ReadLines;
    var m := Message(body, headers, answer);
    var l1 := Padded(|body|);
    PaddedIsRead(|body|);
    PaddedIsRead(|HeaderText(headers)|);
    PaddedIsRead(|answer|);
    PaddedStartsWithDigits(|body|);
    assert m[0..8] == l1[..8];
    if |body| < 100_000_000 {
      assert l1[..8] == l1 && m[8..8 + |body|] == body;
    }
  }

  /** After two short sections, the answer comes back exactly when its length fits too. */
  lemma AnswerIsReceivedIffShort(body: Text, headers: seq<KeyVal>, answer: Text, f: Fields)
    requires |body| < 100_000_000 && |HeaderText(headers)| < 100_000_000
    ensures ReadBody(Message(body, headers, answer), f).fields.responseBody == answer <==> |answer| < 100_000_000
  {
    hide LexicalCast, HeaderText, Padded, Lines, ReadLines;
    var h, m := HeaderText(headers), Message(body, headers, answer);
    var l1, l2, l3 := Padded(|body|), Padded(|h|), Padded(|answer|);
    PaddedIsRead(|body|);
    PaddedIsRead(|h|);
    PaddedIsRead(|answer|);
    PaddedStartsWithDigits(|answer|);
    assert l1[..8] == l1 && l2[..8] == l2 && l3 == l3[..8] + l3[8..];
    var rest := l3[8..] + answer;
    var v := LexicalCast(l3[..8]).value;
    var read := if v <= |rest| then rest[..v] else rest;
    assert (l1 + body) + (l2 + h) + (l3 + answer) == l1 + body + l2 + h + l3[..8] + rest;
    assert FramedBy(m, l1, body, l2, h, l3[..8], rest, read);
    FramedIsRead(m, body, h, read, f);
    if |answer| < 100_000_000 {
      assert l3[8..] == [] && rest == answer;
    }
  }

  lemma PaddedStartsWithDigits(n: nat)
    ensures |Padded(n)| >= 8 && LexicalCast(Padded(n)[..8]).Some? && LexicalCast(Padded(n)[..8]).value < 100_000_000
  {
    hide LexicalCast, Value;
    DecimalShape(n);
    CastOfDigits(Padded(n)[..8]);
  }

  // ----- the request object -----

  class RequestInfo {
    var body: Text
    var answer: Text
    var headersOut: seq<KeyVal>
    var reqBody: Text
    var responseBody: Text
    var responseHeader: map<Text, Text>

    constructor (body: Text, answer: Text, headersOut: seq<KeyVal>)
      ensures this.body == body && this.answer == answer && this.headersOut == headersOut
      ensures Contents() == Fields([], [], map[])
    {
      this.body, this.answer, this.headersOut := body, answer, headersOut;
      reqBody, responseBody, responseHeader := [], [], map[];
    }

    function Contents(): Fields
      reads this
    {
      Fields(reqBody, responseBody, responseHeader)
    }

    /** Builds the message for this request and its answer. */
    method SendDupFormat() returns (content: Text)
      ensures content == Message(body, headersOut, answer)
    {
      hide HeaderLine, Serialized;
      var answerHeaders: Text := [];
      assert headersOut[0..] == headersOut && [] + HeaderText(headersOut) == HeaderText(headersOut);
      for i := 0 to |headersOut|
        invariant answerHeaders + HeaderText(headersOut[i..]) == HeaderText(headersOut)
      {
        var h := headersOut[i];
        assert headersOut[i..][1..] == headersOut[i + 1..];
        assert answerHeaders + (HeaderLine(h) + HeaderText(headersOut[i + 1..]))
            == answerHeaders + HeaderLine(h) + HeaderText(headersOut[i + 1..]);
        answerHeaders := answerHeaders + HeaderLine(h);
      }
      assert headersOut[|headersOut|..] == [] && answerHeaders + [] == answerHeaders;
      content := Serialized(body) + Serialized(answerHeaders) + Serialized(answer);
    }

    /** Stores the headers line by line, up to the first line without a delimiter. */
    method DeserializeHeader(header: Text) returns (ok: bool)
      modifies `responseHeader
      ensures Headers(ok, responseHeader) == ReadLines(Lines(header), old(responseHeader))
      ensures ok <==> forall i :: 0 <= i < |Lines(header)| ==> HasDelimiter(Lines(header)[i])
    {
      hide HasDelimiter, Folded, ReadLines, Lines, SplitLine;
      ReadIffDelimiters(Lines(header), responseHeader);
      var lines := Lines(header);
      for i := 0 to |lines|
        invariant ReadLines(lines[i..], responseHeader) == ReadLines(lines, old(responseHeader))
      {
        var line := lines[i];
        assert lines[i..][1..] == lines[i + 1..];
        LineStep(lines[i..], responseHeader);
        var n := Delimiter(line);
        if n == |line| {
          return false;
        }
        responseHeader := responseHeader[line[..n] := line[n + 2..]];
      }
      assert lines[|lines|..] == [];
      ReadNothing(responseHeader);
      ok := true;
    }

    /** Reads the three sections of the body into the fields. */
    method DeserializeBody() returns (status: Status)
      modifies `reqBody, `responseBody, `responseHeader
      ensures Outcome(status, Contents()) == ReadBody(body, old(Contents()))
    {
      hide Lines, ReadLines, LexicalCast, GetLength, Substr;
      if |body| < 3 * 8 {
        return BAD_REQUEST;
      }
      var pos := 0;
      var length := GetLength(body, pos);
      if !length.Length? { return BAD_REQUEST; }
      pos := pos + 8;
      var section := Substr(body, pos, length.n);
      if section.None? { return BAD_REQUEST; }
      reqBody := section.value;
      pos := pos + length.n;

      length := GetLength(body, pos);
      if !length.Length? { return BAD_REQUEST; }
      pos := pos + 8;
      var header := Substr(body, pos, length.n);
      if header.None? { return BAD_REQUEST; }
      pos := pos + length.n;

      length := GetLength(body, pos);
      if !length.Length? { return BAD_REQUEST; }
      pos := pos + 8;
      section := Substr(body, pos, length.n);
      if section.None? { return BAD_REQUEST; }
      responseBody := section.value;

      var ok := DeserializeHeader(header.value);
      status := if ok then OK else BAD_REQUEST;
    }
  }
}
