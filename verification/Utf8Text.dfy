/**
 * Whole strings of UTF-8: what is valid, what it means, and the encoder as the decoder's inverse.
 */
module Utf8Text {
  import opened Utf8Core

  /** What a library function gives back: its result, or the exception it throws. */
  datatype Thrown =
    | NotEnoughRoomEx
    | InvalidUtf8(octet: Octet)
    | InvalidCodePointEx(cp: bv32)
    | InvalidUtf16(word: bv16)
  datatype Result<+T> = Ok(value: T) | Threw(ex: Thrown)

  // ----- one character -----

  function Low(x: bv32): Octet { (x & 0xff) as bv8 }

  /** The octets of an encoding: leads for two, three and four, and the trails from the last one back. */
  function Lead2(cp: bv32): Octet { Low((cp >> 6) | 0xc0) }
  function Lead3(cp: bv32): Octet { Low((cp >> 12) | 0xe0) }
  function Lead4(cp: bv32): Octet { Low((cp >> 18) | 0xf0) }
  function Trail1(cp: bv32): Octet { Low((cp & 0x3f) | 0x80) }
  function Trail2(cp: bv32): Octet { Low(((cp >> 6) & 0x3f) | 0x80) }
  function Trail3(cp: bv32): Octet { Low(((cp >> 12) & 0x3f) | 0x80) }

  /** The octets that append writes for a code point. */
  function Encode(cp: bv32): seq<Octet> {
    if cp < 0x80 then [Low(cp)]
    else if cp < 0x800 then [Lead2(cp), Trail1(cp)]
    else if cp < 0x10000 then [Lead3(cp), Trail2(cp), Trail1(cp)]
    else [Lead4(cp), Trail3(cp), Trail2(cp), Trail1(cp)]
  }

  lemma Encode1(cp: bv32)
    requires cp < 0x80
    ensures Char1(Low(cp)) && Low(cp) as bv32 == cp
  {
  }

  lemma Encode2(cp: bv32)
    requires 0x80 <= cp < 0x800
    ensures var a, b := Lead2(cp), Trail1(cp);
            Char2(a, b) && Scalar2(a, b) == cp
  {
  }

  lemma Encode3(cp: bv32)
    requires 0x800 <= cp < 0x10000 && !IsSurrogate(cp)
    ensures var a, b, c := Lead3(cp), Trail2(cp), Trail1(cp);
            Char3(a, b, c) && Scalar3(a, b, c) == cp
  {
  }

  lemma Encode4(cp: bv32)
    requires 0x10000 <= cp <= 0x10ffff
    ensures var a, b := Lead4(cp), Trail3(cp);
            var c, d := Trail2(cp), Trail1(cp);
            Char4(a, b, c, d) && Scalar4(a, b, c, d) == cp
  {
  }

  /** The octets of an encoding, by its length. */
  lemma EncodeShape(cp: bv32)
    ensures var e := Encode(cp);
            if cp < 0x80 then |e| == 1 && e[0] == Low(cp)
            else if cp < 0x800 then |e| == 2 && e[0] == Lead2(cp) && e[1] == Trail1(cp)
            else if cp < 0x10000 then
              && |e| == 3 && e[0] == Lead3(cp)
              && e[1] == Trail2(cp) && e[2] == Trail1(cp)
            else
              && |e| == 4 && e[0] == Lead4(cp) && e[1] == Trail3(cp)
              && e[2] == Trail2(cp) && e[3] == Trail1(cp)
  {
    hide Low, Lead2, Lead3, Lead4, Trail1, Trail2, Trail3;
  }

  /** Encoding a valid code point gives a character with that value... */
  lemma EncodeIsChar(cp: bv32)
    requires IsCodePointValid(cp)
    ensures IsChar(Encode(cp)) && Scalar(Encode(cp)) == cp
  {
    hide Low, Lead2, Lead3, Lead4, Trail1, Trail2, Trail3, Encode;
    hide Char1, Char2, Char3, Char4, Scalar2, Scalar3, Scalar4;
    EncodeShape(cp);
    if cp < 0x80 { Encode1(cp); }
    else if cp < 0x800 { Encode2(cp); }
    else if cp < 0x10000 { Encode3(cp); }
    else { Encode4(cp); }
  }

  lemma Recode1(a: Octet)
    requires Char1(a)
    ensures a as bv32 < 0x80 && Low(a as bv32) == a
  {
  }

  lemma Recode2(a: Octet, b: Octet)
    requires Char2(a, b)
    ensures var cp := Scalar2(a, b); 0x80 <= cp < 0x800 && Lead2(cp) == a && Trail1(cp) == b
  {
  }

  lemma Recode3(a: Octet, b: Octet, c: Octet)
    requires Char3(a, b, c)
    ensures var cp := Scalar3(a, b, c);
            && 0x800 <= cp < 0x10000 && !IsSurrogate(cp)
            && Lead3(cp) == a && Trail2(cp) == b && Trail1(cp) == c
  {
  }

  lemma Recode4(a: Octet, b: Octet, c: Octet, d: Octet)
    requires Char4(a, b, c, d)
    ensures var cp := Scalar4(a, b, c, d);
            && 0x10000 <= cp <= 0x10ffff
            && Lead4(cp) == a && Trail3(cp) == b
            && Trail2(cp) == c && Trail1(cp) == d
  {
  }

  lemma EncodeOfScalar1(a: Octet)
    requires Char1(a)
    ensures IsCodePointValid(a as bv32) && Encode(a as bv32) == [a]
  {
    Recode1(a);
    EncodeShape(a as bv32);
  }

  lemma EncodeOfScalar2(a: Octet, b: Octet)
    requires Char2(a, b)
    ensures IsCodePointValid(Scalar2(a, b)) && Encode(Scalar2(a, b)) == [a, b]
  {
    hide Low, Lead2, Lead3, Lead4, Trail1, Trail2, Trail3, Char2, Scalar2, Encode;
    Recode2(a, b);
    EncodeShape(Scalar2(a, b));
  }

  lemma EncodeOfScalar3(a: Octet, b: Octet, c: Octet)
    requires Char3(a, b, c)
    ensures IsCodePointValid(Scalar3(a, b, c)) && Encode(Scalar3(a, b, c)) == [a, b, c]
  {
    hide Low, Lead2, Lead3, Lead4, Trail1, Trail2, Trail3, Char3, Scalar3, Encode;
    Recode3(a, b, c);
    EncodeShape(Scalar3(a, b, c));
  }

  lemma EncodeOfScalar4(a: Octet, b: Octet, c: Octet, d: Octet)
    requires Char4(a, b, c, d)
    ensures IsCodePointValid(Scalar4(a, b, c, d)) && Encode(Scalar4(a, b, c, d)) == [a, b, c, d]
  {
    hide Low, Lead2, Lead3, Lead4, Trail1, Trail2, Trail3, Char4, Scalar4, Encode;
    Recode4(a, b, c, d);
    EncodeShape(Scalar4(a, b, c, d));
  }

  /** ... and encoding the value of a character gives the character. */
  lemma EncodeOfScalar(c: seq<Octet>)
    requires IsChar(c)
    ensures IsCodePointValid(Scalar(c)) && Encode(Scalar(c)) == c
  {
    hide Char1, Char2, Char3, Char4, Scalar2, Scalar3, Scalar4, Encode, IsCodePointValid;
    match |c| {
      case 1 => EncodeOfScalar1(c[0]);
      case 2 => EncodeOfScalar2(c[0], c[1]);
      case 3 => EncodeOfScalar3(c[0], c[1], c[2]);
      case _ => EncodeOfScalar4(c[0], c[1], c[2], c[3]);
    }
  }

  // ----- strings -----

  /** s is a sequence of characters. */
  predicate Valid(s: seq<Octet>)
    decreases |s|
  {
    s == [] || (var n := SequenceLength(s[0]); 1 <= n <= |s| && IsChar(s[..n]) && Valid(s[n..]))
  }

  function CodePoints(s: seq<Octet>): seq<bv32>
    requires Valid(s)
    decreases |s|
  {
    if s == [] then [] else var n := SequenceLength(s[0]); [Scalar(s[..n])] + CodePoints(s[n..])
  }

  function EncodeAll(cps: seq<bv32>): seq<Octet> {
    if cps == [] then [] else Encode(cps[0]) + EncodeAll(cps[1..])
  }

  predicate AllValid(cps: seq<bv32>) {
    forall i :: 0 <= i < |cps| ==> IsCodePointValid(cps[i])
  }

  ghost function Flatten(cs: seq<seq<Octet>>): seq<Octet> {
    if cs == [] then [] else cs[0] + Flatten(cs[1..])
  }

  /** One character, put before a string. */
  lemma ValidPrepend(c: seq<Octet>, s: seq<Octet>)
    requires IsChar(c)
    ensures c + s != [] && SequenceLength((c + s)[0]) == |c| && (c + s)[..|c|] == c && (c + s)[|c|..] == s
    ensures Valid(c + s) <==> Valid(s)
    ensures Valid(s) ==> CodePoints(c + s) == [Scalar(c)] + CodePoints(s)
  {
    hide IsChar, Scalar, SequenceLength;
    CharShape(c);
    assert (c + s)[..|c|] == c && (c + s)[|c|..] == s;
    CharLength(c);
  }

  lemma CharLength(c: seq<Octet>)
    requires IsChar(c)
    ensures 1 <= |c| <= 4
  {
  }

  /** The grammar's UTF8-octets: the strings of characters, however they are cut. */
  lemma {:induction false} CharsAreValid(cs: seq<seq<Octet>>)
    requires forall i :: 0 <= i < |cs| ==> IsChar(cs[i])
    ensures Valid(Flatten(cs)) && |CodePoints(Flatten(cs))| == |cs|
    decreases |cs|
  {
    hide IsChar, Scalar, SequenceLength;
    if cs == [] {
    } else {
      CharsAreValid(cs[1..]);
      ValidPrepend(cs[0], Flatten(cs[1..]));
    }
  }

  lemma {:induction false} ValidIsChars(s: seq<Octet>) returns (cs: seq<seq<Octet>>)
    requires Valid(s)
    ensures s == Flatten(cs) && forall i :: 0 <= i < |cs| ==> IsChar(cs[i])
    decreases |s|
  {
    hide IsChar, Scalar, SequenceLength;
    if s == [] {
      cs := [];
    } else {
      var n := SequenceLength(s[0]);
      var rest := ValidIsChars(s[n..]);
      cs := [s[..n]] + rest;
      assert cs[1..] == rest && s == s[..n] + s[n..];
    }
  }

  /** A valid string that is not empty is a character and a valid rest. */
  lemma {:induction false} ValidHead(s: seq<Octet>)
    requires s != [] && Valid(s)
    ensures var n := SequenceLength(s[0]);
            && 1 <= n <= |s| && |s[..n]| <= 4 && IsChar(s[..n]) && Valid(s[n..]) && s == s[..n] + s[n..]
            && CodePoints(s) == [Scalar(s[..n])] + CodePoints(s[n..])
  {
    hide IsChar, Scalar, SequenceLength;
    CharLength(s[..SequenceLength(s[0])]);
  }

  lemma {:induction false} ValidConcat(s: seq<Octet>, t: seq<Octet>)
    requires Valid(s)
    ensures Valid(s + t) <==> Valid(t)
    ensures Valid(t) ==> CodePoints(s + t) == CodePoints(s) + CodePoints(t)
    decreases |s|
  {
    hide IsChar, Scalar, SequenceLength, Valid, CodePoints;
    if s == [] {
      assert s + t == t;
      NothingCoded();
    } else {
      var n := SequenceLength(s[0]);
      ValidHead(s);
      var c, r := s[..n], s[n..];
      ValidConcat(r, t);
      assert s + t == c + (r + t);
      ValidPrepend(c, r + t);
    }
  }

  lemma NothingCoded()
    ensures Valid([]) && CodePoints([]) == []
  {
  }

  /** Decoding undoes encoding... */
  lemma {:induction false} DecodeOfEncode(cps: seq<bv32>)
    requires AllValid(cps)
    ensures Valid(EncodeAll(cps)) && CodePoints(EncodeAll(cps)) == cps
    decreases |cps|
  {
    hide IsChar, Scalar, SequenceLength, Encode;
    if cps == [] {
    } else {
      DecodeOfEncode(cps[1..]);
      EncodeIsChar(cps[0]);
      ValidPrepend(Encode(cps[0]), EncodeAll(cps[1..]));
    }
  }

  /** ... and encoding undoes decoding. */
  lemma {:induction false} EncodeOfDecode(s: seq<Octet>)
    requires Valid(s)
    ensures AllValid(CodePoints(s)) && EncodeAll(CodePoints(s)) == s
    decreases |s|
  {
    hide IsChar, Scalar, SequenceLength, Encode, Valid, CodePoints, IsCodePointValid;
    if s == [] {
      NothingCoded();
    } else {
      var n := SequenceLength(s[0]);
      ValidHead(s);
      EncodeOfDecode(s[n..]);
      EncodeOfScalar(s[..n]);
      assert CodePoints(s)[1..] == CodePoints(s[n..]);
    }
  }
}
