/**
 * Conversions between UTF-8 and UTF-16, checked; surrogate pairs as in RFC 2781.
 */
module Utf16 {
  import opened Utf8Checked
  import opened Utf8Core
  import opened Utf8Text

  type Word = bv16

  const LEAD_OFFSET: bv32 := LEAD_SURROGATE_MIN - (0x10000 >> 10)
  const SURROGATE_OFFSET: bv32 := 0x10000 - (LEAD_SURROGATE_MIN << 10) - TRAIL_SURROGATE_MIN

  /** The offsets' values; the second one wraps around modulo 2^32. */
  lemma Offsets()
    ensures LEAD_OFFSET == 0xd7c0 && SURROGATE_OFFSET == 0xfca02400
  {
  }

  function LowWord(x: bv32): Word { (x & 0xffff) as bv16 }
  function Wide(w: Word): bv32 { w as bv32 }

  /** The two halves of a code point beyond 0xffff, and the value of two halves, with these offsets. */
  function LeadBits(cp: bv32): bv32 { (cp >> 10) + 0xd7c0 }
  function TrailBits(cp: bv32): bv32 { (cp & 0x3ff) + 0xdc00 }
  function JoinBits(lead: bv32, trail: bv32): bv32 { (lead << 10) + trail + 0xfca02400 }

  function LeadOf(cp: bv32): Word { LowWord(LeadBits(cp)) }
  function TrailOf(cp: bv32): Word { LowWord(TrailBits(cp)) }
  function Joined(lead: Word, trail: Word): bv32 { JoinBits(Wide(lead), Wide(trail)) }

  predicate Beyond(cp: bv32) { cp > 0xffff }

  predicate IsLead(w: Word) { IsLeadSurrogate(Wide(w)) }
  predicate IsTrailWord(w: Word) { IsTrailSurrogate(Wide(w)) }

  /** The halves of section 2.1 of RFC 2781: 0xd800 or 0xdc00, and ten bits of the value less 0x10000. */
  lemma SplitIsRfc(cp: bv32)
    requires 0x10000 <= cp <= 0x10ffff
    ensures LeadBits(cp) == 0xd800 | ((cp - 0x10000) >> 10)
    ensures TrailBits(cp) == 0xdc00 | ((cp - 0x10000) & 0x3ff)
  {
  }

  /** The value of section 2.2. */
  lemma JoinIsRfc(lead: bv32, trail: bv32)
    requires IsLeadSurrogate(lead) && IsTrailSurrogate(trail)
    ensures JoinBits(lead, trail) == (((lead & 0x3ff) << 10) | (trail & 0x3ff)) + 0x10000
  {
  }

  lemma LeadRange(cp: bv32)
    requires 0x10000 <= cp <= 0x10ffff
    ensures IsLeadSurrogate(LeadBits(cp))
  {
  }

  lemma TrailRange(cp: bv32)
    ensures IsTrailSurrogate(TrailBits(cp))
  {
  }

  lemma HalvesJoin(cp: bv32)
    requires 0x10000 <= cp <= 0x10ffff
    ensures JoinBits(LeadBits(cp), TrailBits(cp)) == cp
  {
  }

  lemma MergeBits(lead: bv32, trail: bv32)
    requires IsLeadSurrogate(lead) && IsTrailSurrogate(trail)
    ensures var cp := JoinBits(lead, trail);
            0x10000 <= cp <= 0x10ffff && LeadBits(cp) == lead && TrailBits(cp) == trail
  {
  }

  lemma WordKeeps(x: bv32)
    requires x <= 0xffff
    ensures Wide(LowWord(x)) == x
  {
  }

  lemma WordIsKept(w: Word)
    ensures LowWord(Wide(w)) == w
  {
  }

  lemma SurrogatesFit(x: bv32)
    requires IsLeadSurrogate(x) || IsTrailSurrogate(x)
    ensures x <= 0xffff
  {
  }

  /** Splitting a code point beyond 0xffff gives a pair that joins to it. */
  lemma SplitPair(cp: bv32)
    requires 0x10000 <= cp <= 0x10ffff
    ensures IsLead(LeadOf(cp)) && IsTrailWord(TrailOf(cp)) && Joined(LeadOf(cp), TrailOf(cp)) == cp
  {
    hide Beyond, LowWord, Wide, LeadBits, TrailBits, JoinBits, IsLeadSurrogate, IsTrailSurrogate;
    LeadRange(cp);
    TrailRange(cp);
    HalvesJoin(cp);
    SurrogatesFit(LeadBits(cp));
    SurrogatesFit(TrailBits(cp));
    WordKeeps(LeadBits(cp));
    WordKeeps(TrailBits(cp));
  }

  lemma BeyondIsValid(cp: bv32)
    requires 0x10000 <= cp <= 0x10ffff
    ensures IsCodePointValid(cp) && Beyond(cp)
  {
  }

  /** Joining a pair gives a code point beyond 0xffff that splits into it. */
  lemma JoinPair(lead: Word, trail: Word)
    requires IsLead(lead) && IsTrailWord(trail)
    ensures var cp := Joined(lead, trail);
            && Beyond(cp) && IsCodePointValid(cp)
            && LeadOf(cp) == lead && TrailOf(cp) == trail
  {
    hide Beyond, LowWord, Wide, LeadBits, TrailBits, JoinBits, IsLeadSurrogate, IsTrailSurrogate, IsCodePointValid;
    MergeBits(Wide(lead), Wide(trail));
    BeyondIsValid(Joined(lead, trail));
    WordIsKept(lead);
    WordIsKept(trail);
  }

  lemma SingleWord(w: Word)
    requires !IsLead(w) && !IsTrailWord(w)
    ensures IsCodePointValid(Wide(w)) && !Beyond(Wide(w)) && LowWord(Wide(w)) == w
  {
  }

  lemma SingleBits(cp: bv32)
    requires IsCodePointValid(cp) && !Beyond(cp)
    ensures cp <= 0xffff && !IsLeadSurrogate(cp) && !IsTrailSurrogate(cp)
  {
  }

  lemma SingleCodePoint(cp: bv32)
    requires IsCodePointValid(cp) && !Beyond(cp)
    ensures var w := LowWord(cp); !IsLead(w) && !IsTrailWord(w) && Wide(w) == cp
  {
    hide Beyond, LowWord, Wide, IsCodePointValid, IsLeadSurrogate, IsTrailSurrogate;
    SingleBits(cp);
    WordKeeps(cp);
  }

  // ----- strings of words -----

  /** No surrogate but in a pair. */
  predicate WellFormed(ws: seq<Word>)
    decreases |ws|
  {
    if ws == [] then true
    else if IsLead(ws[0]) then |ws| >= 2 && IsTrailWord(ws[1]) && WellFormed(ws[2..])
    else !IsTrailWord(ws[0]) && WellFormed(ws[1..])
  }

  function CodePoints16(ws: seq<Word>): seq<bv32>
    requires WellFormed(ws)
    decreases |ws|
  {
    if ws == [] then []
    else if IsLead(ws[0]) then [Joined(ws[0], ws[1])] + CodePoints16(ws[2..])
    else [Wide(ws[0])] + CodePoints16(ws[1..])
  }

  function Words(cp: bv32): seq<Word> {
    if Beyond(cp) then [LeadOf(cp), TrailOf(cp)] else [LowWord(cp)]
  }

  function WordsAll(cps: seq<bv32>): seq<Word> {
    if cps == [] then [] else Words(cps[0]) + WordsAll(cps[1..])
  }

  /** Code points to words and back... */
  lemma {:induction false} SplitThenJoin(cps: seq<bv32>)
    requires AllValid(cps)
    ensures WellFormed(WordsAll(cps)) && CodePoints16(WordsAll(cps)) == cps
    decreases |cps|
  {
    hide Beyond, Wide, IsLead, IsTrailWord, LeadOf, TrailOf, Joined, LowWord;
    hide IsCodePointValid, IsLeadSurrogate, IsTrailSurrogate;
    if cps == [] {
    } else {
      var cp, rest := cps[0], WordsAll(cps[1..]);
      SplitThenJoin(cps[1..]);
      if Beyond(cp) {
        BeyondRange(cp);
        SplitPair(cp);
        assert WordsAll(cps)[2..] == rest;
      } else {
        SingleCodePoint(cp);
        assert WordsAll(cps)[1..] == rest;
      }
    }
  }

  lemma BeyondRange(cp: bv32)
    requires IsCodePointValid(cp) && Beyond(cp)
    ensures 0x10000 <= cp <= 0x10ffff
  {
  }

  /** ... and words to code points and back. */
  lemma {:induction false} JoinThenSplit(ws: seq<Word>)
    requires WellFormed(ws)
    ensures AllValid(CodePoints16(ws)) && WordsAll(CodePoints16(ws)) == ws
    decreases |ws|
  {
    hide Beyond, Wide, IsLead, IsTrailWord, LeadOf, TrailOf, Joined, LowWord;
    hide IsCodePointValid, IsLeadSurrogate, IsTrailSurrogate;
    if ws == [] {
    } else {
      if IsLead(ws[0]) {
        JoinPair(ws[0], ws[1]);
        JoinThenSplit(ws[2..]);
        assert ws == [ws[0], ws[1]] + ws[2..];
      } else {
        SingleWord(ws[0]);
        JoinThenSplit(ws[1..]);
        assert ws == [ws[0]] + ws[1..];
      }
    }
  }

  // ----- the conversions -----

  /** What utf16to8 gives: the encoding, or the exception for the first word out of place. */
  function To8(ws: seq<Word>): Result<seq<Octet>>
    decreases |ws|
  {
    if ws == [] then Ok([])
    else if IsLead(ws[0]) then
      if |ws| == 1 then Threw(InvalidUtf16(ws[0]))
      else if !IsTrailWord(ws[1]) then Threw(InvalidUtf16(ws[1]))
      else Then(Encode(Joined(ws[0], ws[1])), To8(ws[2..]))
    else if IsTrailWord(ws[0]) then Threw(InvalidUtf16(ws[0]))
    else Then(Encode(Wide(ws[0])), To8(ws[1..]))
  }

  lemma {:induction false} To8IsEncoding(ws: seq<Word>)
    ensures To8(ws).Ok? <==> WellFormed(ws)
    ensures WellFormed(ws) ==> To8(ws).value == EncodeAll(CodePoints16(ws))
    decreases |ws|
  {
    hide Wide, IsLead, IsTrailWord, Joined, Encode;
    if ws == [] {
    } else {
      if IsLead(ws[0]) && |ws| >= 2 {
        To8IsEncoding(ws[2..]);
        if WellFormed(ws) { assert CodePoints16(ws)[1..] == CodePoints16(ws[2..]); }
      } else {
        To8IsEncoding(ws[1..]);
        if WellFormed(ws) { assert CodePoints16(ws)[1..] == CodePoints16(ws[1..]); }
      }
    }
  }

  /** The word is a trail exactly if the one before it is a lead. */
  predicate AfterLead(ws: seq<Word>, i: nat)
    requires i < |ws|
  {
    IsTrailWord(ws[i]) <==> i > 0 && IsLead(ws[i - 1])
  }

  /** Every trail comes right after a lead, and after every lead comes a trail. */
  lemma {:induction false} WellFormedByNeighbours(ws: seq<Word>)
    ensures WellFormed(ws)
       <==> && (forall i :: 0 <= i < |ws| ==> AfterLead(ws, i))
            && (ws != [] ==> !IsLead(ws[|ws| - 1]))
    decreases |ws|
  {
    forall w: Word ensures !(IsLead(w) && IsTrailWord(w)) { LeadIsNoTrail(w); }
    hide IsLead, IsTrailWord;
    if ws == [] {
    } else if IsLead(ws[0]) {
      if |ws| >= 2 && IsTrailWord(ws[1]) {
        var rest := ws[2..];
        WellFormedByNeighbours(rest);
        assert forall i :: 0 <= i < |rest| ==> (AfterLead(rest, i) <==> AfterLead(ws, i + 2));
        assert forall i :: 2 <= i < |ws| ==> (AfterLead(ws, i) <==> AfterLead(rest, i - 2));
        assert AfterLead(ws, 0) && AfterLead(ws, 1);
      } else if |ws| >= 2 {
        assert !AfterLead(ws, 1);
      }
    } else {
      var rest := ws[1..];
      WellFormedByNeighbours(rest);
      assert forall i :: 0 <= i < |rest| ==> (AfterLead(rest, i) <==> AfterLead(ws, i + 1));
      assert forall i :: 1 <= i < |ws| ==> (AfterLead(ws, i) <==> AfterLead(rest, i - 1));
      assert AfterLead(ws, 0) <==> !IsTrailWord(ws[0]);
    }
  }

  lemma LeadIsNoTrail(w: Word)
    ensures !(IsLead(w) && IsTrailWord(w))
  {
  }

  /** After j words that are well formed, w is the word that is out of place: a lone one, or what comes after a lead. */
  predicate OutOfPlace(ws: seq<Word>, j: nat, w: Word) {
    && j < |ws| && WellFormed(ws[..j])
    && if IsLead(ws[j]) then (if j + 1 == |ws| then w == ws[j] else !IsTrailWord(ws[j + 1]) && w == ws[j + 1])
       else IsTrailWord(ws[j]) && w == ws[j]
  }

  lemma {:induction false} To8Throws(ws: seq<Word>) returns (j: nat)
    requires To8(ws).Threw?
    ensures j < |ws| && To8(ws).ex.InvalidUtf16? && OutOfPlace(ws, j, To8(ws).ex.word)
    decreases |ws|
  {
    hide IsLead, IsTrailWord, Joined, Encode, Wide;
    j := 0;
    if IsLead(ws[0]) && |ws| >= 2 && IsTrailWord(ws[1]) {
      j := To8Throws(ws[2..]);
      assert ws[..j + 2][2..] == ws[2..][..j];
      j := j + 2;
    } else if !IsLead(ws[0]) && !IsTrailWord(ws[0]) {
      j := To8Throws(ws[1..]);
      assert ws[..j + 1][1..] == ws[1..][..j];
      j := j + 1;
    }
  }

  method Utf16To8(ws: seq<Word>, result: seq<Octet>) returns (r: Result<seq<Octet>>)
    ensures r == Then(result, To8(ws))
  {
    hide Wide, JoinBits, Encode, IsCodePointValid, Then, IsLeadSurrogate, IsTrailSurrogate, To8;
    var start, out := 0, result;
    assert ws[0..] == ws;
    while start != |ws|
      invariant start <= |ws| && Then(result, To8(ws)) == Then(out, To8(ws[start..]))
      decreases |ws| - start
    {
      To8Step(ws, start);
      var cp := Wide(ws[start]);
      start := start + 1;
      if IsLeadSurrogate(cp) {
        if start != |ws| {
          var trailSurrogate := Wide(ws[start]);
          start := start + 1;
          if IsTrailSurrogate(trailSurrogate) {
            JoinPair(ws[start - 2], ws[start - 1]);
            cp := JoinBits(cp, trailSurrogate);
          } else {
            ThenThrew(out, InvalidUtf16(ws[start - 1]));
            return Threw(InvalidUtf16(ws[start - 1]));
          }
        } else {
          ThenThrew(out, InvalidUtf16(ws[start - 1]));
          return Threw(InvalidUtf16(ws[start - 1]));
        }
      } else if IsTrailSurrogate(cp) {
        ThenThrew(out, InvalidUtf16(ws[start - 1]));
        return Threw(InvalidUtf16(ws[start - 1]));
      } else {
        SingleWord(ws[start - 1]);
      }
      var a := Append(cp, out);
      ThenThen(out, Encode(cp), To8(ws[start..]));
      out := a.value;
    }
    To8Nothing(out);
    assert ws[start..] == [];
    return Ok(out);
  }

  lemma To8Nothing(out: seq<Octet>)
    ensures Then(out, To8([])) == Ok(out)
  {
    assert out + [] == out;
  }

  lemma To8Step(ws: seq<Word>, start: nat)
    requires start < |ws|
    ensures To8(ws[start..]) ==
            (if IsLead(ws[start]) then
               if start + 1 == |ws| then Threw(InvalidUtf16(ws[start]))
               else if !IsTrailWord(ws[start + 1]) then Threw(InvalidUtf16(ws[start + 1]))
               else Then(Encode(Joined(ws[start], ws[start + 1])), To8(ws[start + 2..]))
             else if IsTrailWord(ws[start]) then Threw(InvalidUtf16(ws[start]))
             else Then(Encode(Wide(ws[start])), To8(ws[start + 1..])))
  {
    hide Wide, IsLead, IsTrailWord, Joined, Encode;
    assert ws[start..][1..] == ws[start + 1..];
    if start + 1 < |ws| { assert ws[start..][2..] == ws[start + 2..]; }
  }

  function ThenWords(out: seq<Word>, r: Result<seq<Word>>): Result<seq<Word>> {
    if r.Ok? then Ok(out + r.value) else r
  }

  /** What utf8to16 gives: the words, or the exception for the first thing that is no character. */
  function To16(s: seq<Octet>): Result<seq<Word>>
    decreases |s|
  {
    if s == [] then Ok([])
    else
      var err, n := Diagnosis(s), SequenceLength(s[0]);
      if err != Utf8Ok then Threw(ThrownFor(err, s[0]))
      else DiagnosisIsExact(s); CharLength(s[..n]); ThenWords(Words(Scalar(s[..n])), To16(s[n..]))
  }

  lemma {:induction false} To16IsDecoding(s: seq<Octet>)
    ensures To16(s).Ok? <==> Valid(s)
    ensures Valid(s) ==> To16(s).value == WordsAll(CodePoints(s))
    decreases |s|
  {
    hide IsChar, Scalar, SequenceLength, Diagnosis, Words;
    if s == [] {
    } else {
      DiagnosisIsExact(s);
      if Diagnosis(s) == Utf8Ok {
        CharLength(s[..SequenceLength(s[0])]);
        To16IsDecoding(s[SequenceLength(s[0])..]);
        if Valid(s) { assert CodePoints(s)[1..] == CodePoints(s[SequenceLength(s[0])..]); }
      } else {
        InvalidRest(s);
      }
    }
  }

  method Utf8To16(s: seq<Octet>, result: seq<Word>) returns (r: Result<seq<Word>>)
    ensures r == ThenWords(result, To16(s))
  {
    hide IsChar, Scalar, StartsWithChar, SequenceLength, Diagnosis, ThrownFor;
    hide LeadBits, TrailBits, LowWord, ThenWords, To16;
    var start, out := 0, result;
    assert s[0..] == s;
    while start != |s|
      invariant start <= |s| && ThenWords(result, To16(s)) == ThenWords(out, To16(s[start..]))
      decreases |s| - start
    {
      To16Step(s, start, out);
      var cp, next := Next(s, start, |s|);
      assert s[start..|s|] == s[start..];
      if cp.Threw? { return Threw(cp.ex); }
      ghost var before := out;
      if Beyond(cp.value) {
        out := out + [LowWord(LeadBits(cp.value))];
        out := out + [LowWord(TrailBits(cp.value))];
      } else {
        out := out + [LowWord(cp.value)];
      }
      assert out == before + Words(cp.value);
      ThenWordsTwice(before, Words(cp.value), To16(s[next..]));
      start := next;
    }
    To16Nothing(out);
    assert s[start..] == [];
    return Ok(out);
  }

  lemma ThenWordsTwice(a: seq<Word>, b: seq<Word>, r: Result<seq<Word>>)
    ensures ThenWords(a, ThenWords(b, r)) == ThenWords(a + b, r)
  {
    if r.Ok? { assert a + (b + r.value) == a + b + r.value; }
  }

  lemma To16Nothing(out: seq<Word>)
    ensures ThenWords(out, To16([])) == Ok(out)
  {
    assert out + [] == out;
  }

  lemma {:induction false} To16Step(s: seq<Octet>, start: nat, out: seq<Word>)
    requires start < |s|
    ensures Diagnosis(s[start..]) == Utf8Ok <==> StartsWithChar(s[start..])
    ensures Diagnosis(s[start..]) != Utf8Ok ==>
              ThenWords(out, To16(s[start..])) == Threw(ThrownFor(Diagnosis(s[start..]), s[start]))
    ensures forall next :: start < next <= |s| && IsChar(s[start..next]) ==>
              1 <= next - start <= 4 && To16(s[start..]) == ThenWords(Words(Scalar(s[start..next])), To16(s[next..]))
  {
    hide IsChar, Scalar, SequenceLength, Diagnosis, Words;
    var rest := s[start..];
    DiagnosisIsExact(rest);
    forall next | start < next <= |s| && IsChar(s[start..next])
      ensures 1 <= next - start <= 4 && To16(rest) == ThenWords(Words(Scalar(s[start..next])), To16(s[next..]))
    {
      assert s[start..next] == rest[..next - start] && rest[next - start..] == s[next..];
      CharLength(s[start..next]);
    }
  }

  // ----- round trips -----

  /** Valid UTF-8 survives the way to UTF-16 and back. */
  lemma RoundTrip8(s: seq<Octet>)
    requires Valid(s)
    ensures To16(s).Ok? && To8(To16(s).value) == Ok(s)
  {
    hide Valid, To8, To16, CodePoints, EncodeAll, WordsAll, CodePoints16;
    To16IsDecoding(s);
    EncodeOfDecode(s);
    SplitThenJoin(CodePoints(s));
    To8IsEncoding(To16(s).value);
  }

  /** Well-formed UTF-16 survives the way to UTF-8 and back. */
  lemma RoundTrip16(ws: seq<Word>)
    requires WellFormed(ws)
    ensures To8(ws).Ok? && To16(To8(ws).value) == Ok(ws)
  {
    hide Valid, To8, To16, CodePoints, EncodeAll, WordsAll, CodePoints16;
    To8IsEncoding(ws);
    JoinThenSplit(ws);
    DecodeOfEncode(CodePoints16(ws));
    To16IsDecoding(To8(ws).value);
  }
}
