/**
 * UTF-8 decoding of one character: the library's bit arithmetic, and the grammar and value
 * of a character by sections 3 and 4 of RFC 3629.
 */
module Utf8Core {

  type Octet = bv8

  const LEAD_SURROGATE_MIN: bv32 := 0xd800
  const TRAIL_SURROGATE_MIN: bv32 := 0xdc00

  datatype UtfError = Utf8Ok | NotEnoughRoom | InvalidLead | IncompleteSequence | OverlongSequence | InvalidCodePoint

  predicate IsTrail(oc: Octet) { oc >> 6 == 0x2 }
  predicate IsLeadSurrogate(cp: bv32) { 0xd800 <= cp <= 0xdbff }
  predicate IsTrailSurrogate(cp: bv32) { 0xdc00 <= cp <= 0xdfff }
  predicate IsSurrogate(cp: bv32) { 0xd800 <= cp <= 0xdfff }
  predicate IsCodePointValid(cp: bv32) { cp <= 0x10ffff && !IsSurrogate(cp) }

  function SequenceLength(lead: Octet): nat {
    if lead < 0x80 then 1
    else if lead >> 5 == 0x6 then 2
    else if lead >> 4 == 0xe then 3
    else if lead >> 3 == 0x1e then 4
    else 0
  }

  /** The same by ranges of the first octet. */
  lemma LengthByRange(lead: Octet)
    ensures SequenceLength(lead) == 1 <==> lead <= 0x7f
    ensures SequenceLength(lead) == 2 <==> 0xc0 <= lead <= 0xdf
    ensures SequenceLength(lead) == 3 <==> 0xe0 <= lead <= 0xef
    ensures SequenceLength(lead) == 4 <==> 0xf0 <= lead <= 0xf7
    ensures SequenceLength(lead) == 0 <==> 0x80 <= lead <= 0xbf || 0xf8 <= lead
    ensures IsTrail(lead) <==> 0x80 <= lead <= 0xbf
  {
  }

  predicate IsOverlongSequence(cp: bv32, length: nat) {
    if cp < 0x80 then length != 1
    else if cp < 0x800 then length != 2
    else if cp < 0x10000 then length != 3
    else false
  }

  // ----- the grammar of section 4 and the values of section 3 -----

  predicate Tail(b: Octet) { 0x80 <= b <= 0xbf }

  predicate Char1(a: Octet) { a <= 0x7f }
  predicate Char2(a: Octet, b: Octet) { 0xc2 <= a <= 0xdf && Tail(b) }
  predicate Char3(a: Octet, b: Octet, c: Octet) {
    || (a == 0xe0 && 0xa0 <= b <= 0xbf && Tail(c))
    || (0xe1 <= a <= 0xec && Tail(b) && Tail(c))
    || (a == 0xed && 0x80 <= b <= 0x9f && Tail(c))
    || (0xee <= a <= 0xef && Tail(b) && Tail(c))
  }
  predicate Char4(a: Octet, b: Octet, c: Octet, d: Octet) {
    || (a == 0xf0 && 0x90 <= b <= 0xbf && Tail(c) && Tail(d))
    || (0xf1 <= a <= 0xf3 && Tail(b) && Tail(c) && Tail(d))
    || (a == 0xf4 && 0x80 <= b <= 0x8f && Tail(c) && Tail(d))
  }

  /** s is one well-formed character. */
  predicate IsChar(s: seq<Octet>) {
    match |s|
    case 1 => Char1(s[0])
    case 2 => Char2(s[0], s[1])
    case 3 => Char3(s[0], s[1], s[2])
    case 4 => Char4(s[0], s[1], s[2], s[3])
    case _ => false
  }

  function Scalar2(a: Octet, b: Octet): bv32 { ((a & 0x1f) as bv32 << 6) | (b & 0x3f) as bv32 }
  function Scalar3(a: Octet, b: Octet, c: Octet): bv32 {
    ((a & 0xf) as bv32 << 12) | ((b & 0x3f) as bv32 << 6) | (c & 0x3f) as bv32
  }
  function Scalar4(a: Octet, b: Octet, c: Octet, d: Octet): bv32 {
    ((a & 0x7) as bv32 << 18) | ((b & 0x3f) as bv32 << 12) | ((c & 0x3f) as bv32 << 6) | (d & 0x3f) as bv32
  }

  /** The payload bits of the octets, side by side. */
  function Scalar(s: seq<Octet>): bv32
    requires 1 <= |s| <= 4
  {
    match |s|
    case 1 => s[0] as bv32
    case 2 => Scalar2(s[0], s[1])
    case 3 => Scalar3(s[0], s[1], s[2])
    case _ => Scalar4(s[0], s[1], s[2], s[3])
  }

  // ----- the library's arithmetic -----

  function Value2(a: Octet, b: Octet): bv32 { ((a as bv32 << 6) & 0x7ff) + ((b as bv32) & 0x3f) }
  function Value3(a: Octet, b: Octet, c: Octet): bv32 {
    ((a as bv32 << 12) & 0xffff) + ((b as bv32 << 6) & 0xfff) + ((c as bv32) & 0x3f)
  }
  function Value4(a: Octet, b: Octet, c: Octet, d: Octet): bv32 {
    ((a as bv32 << 18) & 0x1fffff) + ((b as bv32 << 12) & 0x3ffff) + ((c as bv32 << 6) & 0xfff) + ((d as bv32) & 0x3f)
  }

  lemma Exact1(a: Octet)
    requires SequenceLength(a) == 1
    ensures Char1(a) && IsCodePointValid(a as bv32) && !IsOverlongSequence(a as bv32, 1)
  {
  }

  /** The checks after decoding two octets accept exactly the grammar's characters. */
  lemma Exact2(a: Octet, b: Octet)
    requires SequenceLength(a) == 2 && IsTrail(b)
    ensures Value2(a, b) == Scalar([a, b])
    ensures Char2(a, b) <==> IsCodePointValid(Value2(a, b)) && !IsOverlongSequence(Value2(a, b), 2)
  {
  }

  lemma Exact3(a: Octet, b: Octet, c: Octet)
    requires SequenceLength(a) == 3 && IsTrail(b) && IsTrail(c)
    ensures Value3(a, b, c) == Scalar([a, b, c])
    ensures Char3(a, b, c) <==> IsCodePointValid(Value3(a, b, c)) && !IsOverlongSequence(Value3(a, b, c), 3)
  {
  }

  lemma Exact4(a: Octet, b: Octet, c: Octet, d: Octet)
    requires SequenceLength(a) == 4 && IsTrail(b) && IsTrail(c) && IsTrail(d)
    ensures Value4(a, b, c, d) == Scalar([a, b, c, d])
    ensures Char4(a, b, c, d) <==> IsCodePointValid(Value4(a, b, c, d)) && !IsOverlongSequence(Value4(a, b, c, d), 4)
  {
  }

  /** The grammar's octets have the lengths and trails that the library looks for. */
  lemma CharShape(s: seq<Octet>)
    requires IsChar(s)
    ensures SequenceLength(s[0]) == |s| && !IsTrail(s[0])
    ensures forall i :: 1 <= i < |s| ==> IsTrail(s[i])
  {
  }

  /** Some prefix of s is a character; a character is as long as its first octet says. */
  ghost predicate StartsWithChar(s: seq<Octet>) {
    exists n :: 1 <= n <= |s| && IsChar(s[..n])
  }

  /** Why s does not start with a character: the verdict of the first check that fails. */
  function Diagnosis(s: seq<Octet>): UtfError
    requires s != []
  {
    var n := SequenceLength(s[0]);
    if n == 0 then InvalidLead
    else if exists i :: 1 <= i < n && i < |s| && !IsTrail(s[i]) then IncompleteSequence
    else if |s| < n then NotEnoughRoom
    else if IsChar(s[..n]) then Utf8Ok
    else if !IsCodePointValid(Scalar(s[..n])) then InvalidCodePoint
    else OverlongSequence
  }

  /** The diagnosis finds nothing exactly when the grammar accepts a prefix. */
  lemma DiagnosisIsExact(s: seq<Octet>)
    requires s != []
    ensures Diagnosis(s) == Utf8Ok <==> StartsWithChar(s)
    ensures forall n :: 1 <= n <= |s| && IsChar(s[..n]) ==> n == SequenceLength(s[0])
    ensures Diagnosis(s) == Utf8Ok ==> SequenceLength(s[0]) <= |s| && IsChar(s[..SequenceLength(s[0])])
  {
    hide IsChar;
    forall n | 1 <= n <= |s| && IsChar(s[..n])
      ensures n == SequenceLength(s[0]) && Diagnosis(s) == Utf8Ok
    {
      CharShape(s[..n]);
      assert forall i :: 1 <= i < n ==> s[i] == s[..n][i];
    }
  }

  /** Steps to the next octet, which must be there and be a trail. */
  method IncreaseSafely(s: seq<Octet>, it: nat, end: nat) returns (err: UtfError, it': nat)
    requires it < end <= |s|
    ensures it' == it + 1
    ensures err == (if it' == end then NotEnoughRoom else if !IsTrail(s[it']) then IncompleteSequence else Utf8Ok)
  {
    it' := it + 1;
    if it' == end { return NotEnoughRoom, it'; }
    if !IsTrail(s[it']) { return IncompleteSequence, it'; }
    return Utf8Ok, it';
  }

  /**
   * What reading the n octets of a sequence comes to: their value and the place of the last, or an
   * error and the first place after it that is the end or holds no trail.
   */
  ghost predicate SequenceRead(s: seq<Octet>, it: nat, end: nat, n: nat, err: UtfError, it': nat, value: bv32)
    requires it < end <= |s| && 1 <= n <= 4
  {
    && it <= it' < it + n && it' <= end
    && (forall i :: it < i < it' ==> IsTrail(s[i]))
    && if err == Utf8Ok then
         && it' == it + n - 1 < end && (n > 1 ==> IsTrail(s[it']))
         && value == match n
                     case 1 => s[it] as bv32
                     case 2 => Value2(s[it], s[it + 1])
                     case 3 => Value3(s[it], s[it + 1], s[it + 2])
                     case _ => Value4(s[it], s[it + 1], s[it + 2], s[it + 3])
       else
         it < it' && if it' == end then err == NotEnoughRoom else !IsTrail(s[it']) && err == IncompleteSequence
  }

  method GetSequence1(s: seq<Octet>, it: nat, end: nat) returns (err: UtfError, it': nat, codePoint: bv32)
    requires it < end <= |s|
    ensures SequenceRead(s, it, end, 1, err, it', codePoint)
  {
    return Utf8Ok, it, s[it] as bv32;
  }

  method GetSequence2(s: seq<Octet>, it: nat, end: nat) returns (err: UtfError, it': nat, codePoint: bv32)
    requires it < end <= |s|
    ensures SequenceRead(s, it, end, 2, err, it', codePoint)
  {
    hide IsTrail;
    codePoint := s[it] as bv32;
    err, it' := IncreaseSafely(s, it, end);
    if err != Utf8Ok { return; }
    codePoint := ((codePoint << 6) & 0x7ff) + ((s[it'] as bv32) & 0x3f);
  }

  method GetSequence3(s: seq<Octet>, it: nat, end: nat) returns (err: UtfError, it': nat, codePoint: bv32)
    requires it < end <= |s|
    ensures SequenceRead(s, it, end, 3, err, it', codePoint)
  {
    hide IsTrail;
    codePoint := s[it] as bv32;
    err, it' := IncreaseSafely(s, it, end);
    if err != Utf8Ok { return; }
    codePoint := ((codePoint << 12) & 0xffff) + ((s[it'] as bv32 << 6) & 0xfff);
    err, it' := IncreaseSafely(s, it', end);
    if err != Utf8Ok { return; }
    codePoint := codePoint + ((s[it'] as bv32) & 0x3f);
  }

  method GetSequence4(s: seq<Octet>, it: nat, end: nat) returns (err: UtfError, it': nat, codePoint: bv32)
    requires it < end <= |s|
    ensures SequenceRead(s, it, end, 4, err, it', codePoint)
  {
    hide IsTrail;
    codePoint := s[it] as bv32;
    err, it' := IncreaseSafely(s, it, end);
    if err != Utf8Ok { return; }
    codePoint := ((codePoint << 18) & 0x1fffff) + ((s[it'] as bv32 << 12) & 0x3ffff);
    err, it' := IncreaseSafely(s, it', end);
    if err != Utf8Ok { return; }
    codePoint := codePoint + ((s[it'] as bv32 << 6) & 0xfff);
    err, it' := IncreaseSafely(s, it', end);
    if err != Utf8Ok { return; }
    codePoint := codePoint + ((s[it'] as bv32) & 0x3f);
  }

  /** The checks after reading a whole sequence accept exactly the characters. */
  lemma ReadIsExact(s: seq<Octet>, it: nat, end: nat, n: nat, it': nat, value: bv32)
    requires it < end <= |s| && n == SequenceLength(s[it]) && 1 <= n <= 4
    requires SequenceRead(s, it, end, n, Utf8Ok, it', value)
    ensures it + n <= end && it' == it + n - 1 && value == Scalar(s[it..it + n])
    ensures IsChar(s[it..it + n]) <==> IsCodePointValid(value) && !IsOverlongSequence(value, n)
  {
    hide IsTrail, SequenceLength;
    var c := s[it..it + n];
    forall i | 1 <= i < n ensures IsTrail(c[i]) {
      assert c[i] == s[it + i];
    }
    assert c[0] == s[it];
    match n {
      case 1 => Exact1(c[0]);
      case 2 => Exact2(c[0], c[1]); assert c == [c[0], c[1]];
      case 3 => Exact3(c[0], c[1], c[2]); assert c == [c[0], c[1], c[2]];
      case _ => Exact4(c[0], c[1], c[2], c[3]); assert c == [c[0], c[1], c[2], c[3]];
    }
  }

  /** The diagnosis of the octets from it on, read off the sequence. */
  lemma ReadIsDiagnosis(s: seq<Octet>, it: nat, end: nat, n: nat, err: UtfError, it': nat, value: bv32)
    requires it < end <= |s| && n == SequenceLength(s[it]) && 1 <= n <= 4
    requires SequenceRead(s, it, end, n, err, it', value)
    ensures err != Utf8Ok ==> Diagnosis(s[it..end]) == err
    ensures err == Utf8Ok ==> Diagnosis(s[it..end]) == (if IsChar(s[it..it + n]) then Utf8Ok
                                                        else if !IsCodePointValid(value) then InvalidCodePoint
                                                        else OverlongSequence)
  {
    hide IsChar, Scalar;
    var v := s[it..end];
    assert forall i :: 0 <= i < |v| ==> v[i] == s[it + i];
    assert forall i :: it <= i < end ==> s[i] == v[i - it];
    if err == Utf8Ok {
      ReadIsExact(s, it, end, n, it', value);
      assert v[..n] == s[it..it + n];
    }
  }

  /**
   * Decodes the character at it. On success it' is the place after it; on failure it' is it.
   */
  method ValidateNext(s: seq<Octet>, it: nat, end: nat, cp0: bv32) returns (err: UtfError, it': nat, codePoint: bv32)
    requires it < end <= |s|
    ensures err == Diagnosis(s[it..end])
    ensures err == Utf8Ok <==> StartsWithChar(s[it..end])
    ensures err == Utf8Ok ==> it < it' <= end && IsChar(s[it..it']) && codePoint == Scalar(s[it..it'])
    ensures err != Utf8Ok ==> it' == it && codePoint == cp0
  {
    hide IsChar, Scalar, SequenceRead, Diagnosis, SequenceLength;
    DiagnosisIsExact(s[it..end]);
    var originalIt := it;
    var cp: bv32 := 0;
    it', codePoint := it, cp0;
    var length := SequenceLength(s[it]);
    LengthRange(s[it]);
    match length {
      case 0 =>
        NoLead(s[it..end]);
        return InvalidLead, it, cp0;
      case 1 => err, it', cp := GetSequence1(s, it, end);
      case 2 => err, it', cp := GetSequence2(s, it, end);
      case 3 => err, it', cp := GetSequence3(s, it, end);
      case _ => err, it', cp := GetSequence4(s, it, end);
    }
    ReadIsDiagnosis(s, it, end, length, err, it', cp);
    if err == Utf8Ok {
      ReadIsExact(s, it, end, length, it', cp);
      if IsCodePointValid(cp) {
        if !IsOverlongSequence(cp, length) {
          return Utf8Ok, it' + 1, cp;
        } else {
          err := OverlongSequence;
        }
      } else {
        err := InvalidCodePoint;
      }
    }
    it' := originalIt;
  }

  lemma LengthRange(lead: Octet)
    ensures SequenceLength(lead) <= 4
  {
  }

  lemma NoLead(s: seq<Octet>)
    requires s != [] && SequenceLength(s[0]) == 0
    ensures Diagnosis(s) == InvalidLead
  {
  }
}
