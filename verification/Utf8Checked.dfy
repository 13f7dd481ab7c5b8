/**
 * The checked functions of the library: appending, stepping forward and back, finding and
 * replacing what is invalid.
 */
module Utf8Checked {
  import opened Utf8Core
  import opened Utf8Text

  method Append(cp: bv32, result: seq<Octet>) returns (r: Result<seq<Octet>>)
    ensures r == if IsCodePointValid(cp) then Ok(result + Encode(cp)) else Threw(InvalidCodePointEx(cp))
  {
    if !IsCodePointValid(cp) { return Threw(InvalidCodePointEx(cp)); }
    var out := result;
    if cp < 0x80 {
      out := out + [Low(cp)];
    } else if cp < 0x800 {
      out := out + [Low((cp >> 6) | 0xc0)];
      out := out + [Low((cp & 0x3f) | 0x80)];
    } else if cp < 0x10000 {
      out := out + [Low((cp >> 12) | 0xe0)];
      out := out + [Low(((cp >> 6) & 0x3f) | 0x80)];
      out := out + [Low((cp & 0x3f) | 0x80)];
    } else {
      out := out + [Low((cp >> 18) | 0xf0)];
      out := out + [Low(((cp >> 12) & 0x3f) | 0x80)];
      out := out + [Low(((cp >> 6) & 0x3f) | 0x80)];
      out := out + [Low((cp & 0x3f) | 0x80)];
    }
    assert out == result + Encode(cp);
    return Ok(out);
  }

  /** The exception that next throws for a failed check; a bad code point is reported as 0. */
  function ThrownFor(err: UtfError, octet: Octet): Thrown
    requires err != Utf8Ok
  {
    match err
    case NotEnoughRoom => NotEnoughRoomEx
    case InvalidCodePoint => InvalidCodePointEx(0)
    case _ => InvalidUtf8(octet)
  }

  /** From k on there are only trails up to the end, and too few of them. */
  ghost predicate TruncatedFrom(s: seq<Octet>, k: nat)
    requires k < |s|
  {
    |s| - k < SequenceLength(s[k]) && forall i :: k < i < |s| ==> IsTrail(s[i])
  }

  lemma NoRoomIsTruncated(s: seq<Octet>)
    requires s != []
    ensures Diagnosis(s) == NotEnoughRoom <==> TruncatedFrom(s, 0)
  {
    hide IsChar, Scalar, IsTrail;
    LengthRange(s[0]);
  }

  /** The octets have the shape of a surrogate, also in four octets, or of a value past 0x10ffff. */
  predicate NoCodePoint(s: seq<Octet>)
    requires s != []
  {
    && SequenceLength(s[0]) >= 3 && |s| >= SequenceLength(s[0])
    && (forall i :: 1 <= i < SequenceLength(s[0]) ==> IsTrail(s[i]))
    && (|| (s[0] == 0xed && s[1] >= 0xa0)
        || (s[0] == 0xf0 && s[1] == 0x8d && s[2] >= 0xa0)
        || (s[0] == 0xf4 && s[1] >= 0x90) || s[0] >= 0xf5)
  }

  lemma NoCodePoint2(a: Octet, b: Octet)
    requires SequenceLength(a) == 2 && IsTrail(b)
    ensures IsCodePointValid(Scalar([a, b]))
  {
  }

  lemma NoCodePoint3(a: Octet, b: Octet, c: Octet)
    requires SequenceLength(a) == 3 && IsTrail(b) && IsTrail(c)
    ensures IsCodePointValid(Scalar([a, b, c])) <==> !(a == 0xed && b >= 0xa0)
  {
  }

  lemma NoCodePoint4(a: Octet, b: Octet, c: Octet, d: Octet)
    requires SequenceLength(a) == 4 && IsTrail(b) && IsTrail(c) && IsTrail(d)
    ensures IsCodePointValid(Scalar([a, b, c, d]))
       <==> !((a == 0xf0 && b == 0x8d && c >= 0xa0) || (a == 0xf4 && b >= 0x90) || a >= 0xf5)
  {
  }

  lemma LeadsInOrder(a: Octet)
    ensures SequenceLength(a) == 3 ==> 0xe0 <= a <= 0xef
    ensures SequenceLength(a) == 4 ==> 0xf0 <= a
    ensures SequenceLength(a) == 1 ==> a <= 0x7f
  {
  }

  /** Which exception it is, octet by octet. */
  lemma ThrownByOctets(s: seq<Octet>)
    requires s != [] && Diagnosis(s) != Utf8Ok
    ensures ThrownFor(Diagnosis(s), s[0]) ==
              if TruncatedFrom(s, 0) then NotEnoughRoomEx
              else if NoCodePoint(s) then InvalidCodePointEx(0)
              else InvalidUtf8(s[0])
  {
    NoRoomIsTruncated(s);
    hide IsTrail, SequenceLength, IsCodePointValid, Scalar, IsChar;
    LengthRange(s[0]);
    LeadsInOrder(s[0]);
    var n := SequenceLength(s[0]);
    if n > 0 && |s| >= n && forall i :: 1 <= i < n ==> IsTrail(s[i]) {
      match n {
        case 1 => Whole1(s);
        case 2 => NoCodePoint2(s[0], s[1]); assert s[..2] == [s[0], s[1]];
        case 3 => NoCodePoint3(s[0], s[1], s[2]); assert s[..3] == [s[0], s[1], s[2]];
        case 4 => NoCodePoint4(s[0], s[1], s[2], s[3]); assert s[..4] == [s[0], s[1], s[2], s[3]];
      }
    }
  }

  lemma Whole1(s: seq<Octet>)
    requires s != [] && SequenceLength(s[0]) == 1
    ensures Diagnosis(s) == Utf8Ok
  {
    assert s[..1] == [s[0]];
  }

  /** Decodes the character at it and steps over it. */
  method Next(s: seq<Octet>, it: nat, end: nat) returns (r: Result<bv32>, it': nat)
    requires it < end <= |s|
    ensures r.Ok? <==> StartsWithChar(s[it..end])
    ensures r.Ok? ==> it < it' <= end && IsChar(s[it..it']) && r.value == Scalar(s[it..it'])
    ensures r.Threw? ==> it' == it && Diagnosis(s[it..end]) != Utf8Ok && r.ex == ThrownFor(Diagnosis(s[it..end]), s[it])
    ensures r.Threw? ==> r.ex == if TruncatedFrom(s[it..end], 0) then NotEnoughRoomEx
                                 else if NoCodePoint(s[it..end]) then InvalidCodePointEx(0)
                                 else InvalidUtf8(s[it])
  {
    hide IsChar, Scalar, Diagnosis, StartsWithChar, TruncatedFrom, NoCodePoint;
    if Diagnosis(s[it..end]) != Utf8Ok { ThrownByOctets(s[it..end]); }
    var err, cp;
    err, it', cp := ValidateNext(s, it, end, 0);
    match err {
      case Utf8Ok => return Ok(cp), it';
      case NotEnoughRoom => return Threw(NotEnoughRoomEx), it';
      case InvalidLead => return Threw(InvalidUtf8(s[it'])), it';
      case IncompleteSequence => return Threw(InvalidUtf8(s[it'])), it';
      case OverlongSequence => return Threw(InvalidUtf8(s[it'])), it';
      case InvalidCodePoint => return Threw(InvalidCodePointEx(cp)), it';
    }
  }

  /** Steps back to the character before it and decodes it. */
  method Prior(s: seq<Octet>, it: nat, start: nat) returns (r: Result<bv32>, it': nat)
    requires start <= it <= |s|
    ensures it == start ==> r == Threw(NotEnoughRoomEx) && it' == it
    // back to the nearest octet that is not a trail, or to start if there is none
    ensures it > start ==> start <= it' < it && forall i :: it' < i < it ==> IsTrail(s[i])
    ensures it > start && IsTrail(s[it']) ==> it' == start && r == Threw(InvalidUtf8(s[start]))
    ensures it > start && !IsTrail(s[it']) ==> (r.Ok? <==> StartsWithChar(s[it'..it]))
    ensures it > start && !IsTrail(s[it']) && r.Threw? ==>
              Diagnosis(s[it'..it]) != Utf8Ok && r.ex == ThrownFor(Diagnosis(s[it'..it]), s[it'])
    ensures r.Ok? ==> it > start && exists n :: it' < n <= it && IsChar(s[it'..n]) && r.value == Scalar(s[it'..n])
  {
    hide IsChar, Scalar, Diagnosis, StartsWithChar, IsTrail;
    if it == start { return Threw(NotEnoughRoomEx), it; }
    var end := it;
    it' := it - 1;
    while IsTrail(s[it'])
      invariant start <= it' < it && forall i :: it' < i < it ==> IsTrail(s[i])
      decreases it'
    {
      if it' == start { return Threw(InvalidUtf8(s[it'])), it'; }
      it' := it' - 1;
    }
    var after;
    r, after := Next(s, it', end);
  }

  /** prior undoes next: from the end of a character it goes back to its start and gives the same value. */
  method NextThenPrior(s: seq<Octet>, it: nat, end: nat) returns (there: Result<bv32>, back: Result<bv32>, it': nat)
    requires it < end <= |s|
    ensures there.Ok? ==> back == there && it' == it
  {
    hide Scalar, Diagnosis;
    var after;
    there, after := Next(s, it, end);
    if there.Ok? {
      back, it' := Prior(s, after, 0);
      CharEndsThere(s, it, after, it');
      if back.Ok? {
        var n :| it' < n <= after && IsChar(s[it'..n]) && back.value == Scalar(s[it'..n]);
        CharShape(s[it..after]);
        CharShape(s[it'..n]);
      }
    } else {
      back, it' := there, it;
    }
  }

  lemma CharEndsThere(s: seq<Octet>, it: nat, after: nat, it': nat)
    requires it < after <= |s| && IsChar(s[it..after])
    requires it' < after && forall i :: it' < i < after ==> IsTrail(s[i])
    requires IsTrail(s[it']) ==> it' == 0
    ensures it' == it && !IsTrail(s[it]) && StartsWithChar(s[it..after])
  {
    CharShape(s[it..after]);
    assert s[it..after][0] == s[it];
    assert forall i :: it < i < after ==> s[i] == s[it..after][i - it];
    assert s[it..after][..after - it] == s[it..after];
  }

  /** The place of the first octet that does not start a character, or the end. */
  method FindInvalid(s: seq<Octet>) returns (result: nat)
    ensures result <= |s| && Valid(s[..result])
    ensures result < |s| ==> !StartsWithChar(s[result..])
    ensures result == |s| <==> Valid(s)
  {
    hide IsChar, Scalar, Diagnosis, StartsWithChar, SequenceLength, Valid;
    result := 0;
    NothingIsValid();
    while result != |s|
      invariant result <= |s| && Valid(s[..result])
      decreases |s| - result
    {
      var err, next, ignored := ValidateNext(s, result, |s|, 0);
      assert s[result..|s|] == s[result..];
      if err != Utf8Ok {
        InvalidRest(s[result..]);
        ValidConcat(s[..result], s[result..]);
        assert s[..result] + s[result..] == s;
        return;
      }
      ValidChar(s[result..next]);
      ValidConcat(s[..result], s[result..next]);
      assert s[..next] == s[..result] + s[result..next];
      result := next;
    }
    assert s[..result] == s;
  }

  lemma NothingIsValid()
    ensures Valid([])
  {
  }

  lemma InvalidRest(s: seq<Octet>)
    requires s != [] && !StartsWithChar(s)
    ensures !Valid(s)
  {
  }

  lemma ValidChar(c: seq<Octet>)
    requires IsChar(c)
    ensures Valid(c) && CodePoints(c) == [Scalar(c)]
  {
    ValidPrepend(c, []);
    assert c + [] == c;
  }

  // ----- replacing what is invalid -----

  function CountTrails(s: seq<Octet>): (n: nat)
    ensures n <= |s| && (forall i :: 0 <= i < n ==> IsTrail(s[i])) && (n < |s| ==> !IsTrail(s[n]))
  {
    if s == [] || !IsTrail(s[0]) then 0 else 1 + CountTrails(s[1..])
  }

  /** How many octets one step of the replacement consumes: a character, or one octet and the trails after it. */
  function StepLength(s: seq<Octet>): (n: nat)
    requires s != []
    ensures 1 <= n <= |s|
  {
    match Diagnosis(s)
    case Utf8Ok => DiagnosisIsExact(s); LengthRange(s[0]); SequenceLength(s[0])
    case InvalidLead => 1
    case _ => 1 + CountTrails(s[1..])
  }

  function Then(out: seq<Octet>, r: Result<seq<Octet>>): Result<seq<Octet>> {
    if r.Ok? then Ok(out + r.value) else r
  }

  /** The repaired string, or the exception that the repair ends in. */
  function Repaired(s: seq<Octet>, mark: bv32): Result<seq<Octet>>
    decreases |s|
  {
    if s == [] then Ok([])
    else
      var n, err := StepLength(s), Diagnosis(s);
      if err == Utf8Ok then Then(s[..n], Repaired(s[n..], mark))
      else if err == NotEnoughRoom then Threw(NotEnoughRoomEx)
      else if !IsCodePointValid(mark) then Threw(InvalidCodePointEx(mark))
      else Then(Encode(mark), Repaired(s[n..], mark))
  }

  /** Copies the octets of [from, to) to the output. */
  method CopyOctets(s: seq<Octet>, from: nat, to: nat, out0: seq<Octet>) returns (out: seq<Octet>)
    requires from <= to <= |s|
    ensures out == out0 + s[from..to]
  {
    out := out0;
    var it := from;
    while it != to
      invariant from <= it <= to && out == out0 + s[from..it]
    {
      out := out + [s[it]];
      it := it + 1;
    }
  }

  /** Steps over one octet and the trails after it. */
  method SkipTrails(s: seq<Octet>, start0: nat) returns (start: nat)
    requires start0 < |s|
    ensures start == start0 + 1 + CountTrails(s[start0 + 1..]) <= |s|
  {
    hide IsTrail;
    start := start0 + 1;
    while start != |s| && IsTrail(s[start])
      invariant start0 < start <= |s| && start + CountTrails(s[start..]) == start0 + 1 + CountTrails(s[start0 + 1..])
      decreases |s| - start
    {
      assert s[start..][1..] == s[start + 1..];
      start := start + 1;
    }
  }

  /** One step of the repair, by its diagnosis. */
  lemma RepairStep(s: seq<Octet>, start: nat, mark: bv32)
    requires start < |s|
    ensures var rest, n := s[start..], StepLength(s[start..]);
            && rest[n..] == s[start + n..] && rest[..n] == s[start..start + n]
            && Repaired(rest, mark) == (match Diagnosis(rest)
                 case Utf8Ok => Then(s[start..start + n], Repaired(s[start + n..], mark))
                 case NotEnoughRoom => Threw(NotEnoughRoomEx)
                 case _ => if !IsCodePointValid(mark) then Threw(InvalidCodePointEx(mark))
                           else Then(Encode(mark), Repaired(s[start + n..], mark)))
    ensures Diagnosis(s[start..]) == InvalidLead ==> StepLength(s[start..]) == 1
    ensures Diagnosis(s[start..]) !in {Utf8Ok, InvalidLead} ==>
              StepLength(s[start..]) == 1 + CountTrails(s[start + 1..])
    ensures forall next :: start < next <= |s| && IsChar(s[start..next]) ==> next == start + SequenceLength(s[start])
    ensures Diagnosis(s[start..]) == Utf8Ok ==> StepLength(s[start..]) == SequenceLength(s[start])
  {
    hide IsChar, Scalar, SequenceLength, Diagnosis, Encode, CountTrails;
    var rest := s[start..];
    var n := StepLength(rest);
    DiagnosisIsExact(rest);
    assert rest[n..] == s[start + n..] && rest[..n] == s[start..start + n] && rest[1..] == s[start + 1..];
    forall next | start < next <= |s| && IsChar(s[start..next]) ensures next == start + SequenceLength(s[start]) {
      assert s[start..next] == rest[..next - start];
    }
  }

  /** A stretch of the input: a character, which is kept, or octets that one mark stands for. */
  datatype Part = Kept(octets: seq<Octet>) | Marked(octets: seq<Octet>)

  /**
   * One mark stands for a single octet that starts no sequence of any length, and otherwise for the
   * first octet of a sequence that is no character, with all the trails after it.
   */
  ghost predicate PartFits(p: Part, s: seq<Octet>) {
    && p.octets != [] && p.octets <= s
    && var o, rest := p.octets, s[|p.octets|..];
       match p
       case Kept(_) => IsChar(o)
       case Marked(_) =>
         && !StartsWithChar(s)
         && if SequenceLength(o[0]) == 0 then |o| == 1
            else (forall i :: 1 <= i < |o| ==> IsTrail(o[i])) && (rest != [] ==> !IsTrail(rest[0]))
  }

  /** The parts are the whole of s, and nowhere does s break off inside a sequence. */
  ghost predicate Splits(s: seq<Octet>, parts: seq<Part>)
    decreases |parts|
  {
    if parts == [] then s == []
    else
      && PartFits(parts[0], s) && !TruncatedFrom(s, 0)
      && Splits(s[|parts[0].octets|..], parts[1..])
  }

  /** Characters as they are, and a mark for each other part. */
  function Written(parts: seq<Part>, mark: bv32): seq<Octet> {
    if parts == [] then []
    else (if parts[0].Kept? then parts[0].octets else Encode(mark)) + Written(parts[1..], mark)
  }

  /** At every place there is one way to go on. */
  lemma StepFits(s: seq<Octet>)
    requires s != [] && Diagnosis(s) != NotEnoughRoom
    ensures var o := s[..StepLength(s)];
            && PartFits(if Diagnosis(s) == Utf8Ok then Kept(o) else Marked(o), s)
            && s[|o|..] == s[StepLength(s)..] && !TruncatedFrom(s, 0)
  {
    hide IsChar, Scalar, Encode;
    var n := StepLength(s);
    DiagnosisIsExact(s);
    LengthRange(s[0]);
    NoRoomIsTruncated(s);
    hide IsTrail, StartsWithChar, TruncatedFrom, SequenceLength;
    assert s[..n][0] == s[0] && forall i :: 1 <= i < n ==> s[..n][i] == s[1..][i - 1];
    assert n < |s| ==> s[n..][0] == s[1..][n - 1];
    if Diagnosis(s) != Utf8Ok && Diagnosis(s) != InvalidLead {
      assert n == 1 + CountTrails(s[1..]) && SequenceLength(s[0]) != 0 by { LeadIsValid(s); }
    }
    if Diagnosis(s) == InvalidLead { assert SequenceLength(s[0]) == 0 by { LeadIsValid(s); } }
  }

  lemma LeadIsValid(s: seq<Octet>)
    requires s != []
    ensures Diagnosis(s) == InvalidLead <==> SequenceLength(s[0]) == 0
  {
  }

  lemma FitIsUnique(s: seq<Octet>, p: Part, q: Part)
    requires PartFits(p, s) && PartFits(q, s)
    ensures p == q
  {
    hide IsChar, IsTrail, SequenceLength;
    var m, n := |p.octets|, |q.octets|;
    assert p.octets == s[..m] && q.octets == s[..n];
    if p.Kept? { CharShape(p.octets); }
    if q.Kept? { CharShape(q.octets); }
  }

  lemma FitIsSome(p: Part, s: seq<Octet>)
    requires PartFits(p, s)
    ensures s != [] && 0 < |p.octets| <= |s|
  {
  }

  /** Only one list of parts splits a string. */
  lemma {:induction false} SplitIsUnique(s: seq<Octet>, parts: seq<Part>, others: seq<Part>)
    requires Splits(s, parts) && Splits(s, others)
    ensures parts == others
    decreases |parts|
  {
    hide PartFits, TruncatedFrom;
    if parts == [] {
      if others != [] { FitIsSome(others[0], s); }
    } else {
      FitIsSome(parts[0], s);
      FitIsUnique(s, parts[0], others[0]);
      SplitIsUnique(s[|parts[0].octets|..], parts[1..], others[1..]);
      assert parts == [parts[0]] + parts[1..] && others == [others[0]] + others[1..];
    }
  }

  /** The repair writes the parts that the string splits into. */
  lemma {:induction false} RepairedByParts(s: seq<Octet>, mark: bv32) returns (parts: seq<Part>)
    requires Repaired(s, mark).Ok?
    ensures Splits(s, parts) && Repaired(s, mark).value == Written(parts, mark)
    decreases |s|
  {
    hide PartFits, TruncatedFrom, Diagnosis, Encode, StepLength;
    if s == [] {
      parts := [];
    } else {
      var n := StepLength(s);
      StepFits(s);
      var rest := RepairedByParts(s[n..], mark);
      var p := if Diagnosis(s) == Utf8Ok then Kept(s[..n]) else Marked(s[..n]);
      parts := [p] + rest;
      assert parts[0] == p && parts[1..] == rest;
    }
  }

  /** So with a valid mark the repair gives exactly what is written for the parts. */
  lemma RepairedIffParts(s: seq<Octet>, mark: bv32, parts: seq<Part>)
    requires IsCodePointValid(mark)
    ensures Splits(s, parts) ==> Repaired(s, mark) == Ok(Written(parts, mark))
    ensures Splits(s, parts) ==> !TruncatedAtEnd(s)
  {
    hide Splits, Repaired, TruncatedAtEnd;
    RepairFailsIffTruncated(s, mark);
    if Splits(s, parts) {
      SplitReachesEnd(s, parts);
      var own := RepairedByParts(s, mark);
      SplitIsUnique(s, parts, own);
    }
  }

  lemma {:induction false} SplitReachesEnd(s: seq<Octet>, parts: seq<Part>)
    requires Splits(s, parts)
    ensures !TruncatedAtEnd(s)
    decreases |parts|
  {
    hide PartFits, TruncatedFrom, Diagnosis, StepLength;
    if parts == [] {
    } else {
      assert s != [] by { FitIsSome(parts[0], s); }
      NoRoomIsTruncated(s);
      StepFits(s);
      var o := s[..StepLength(s)];
      FitIsUnique(s, parts[0], if Diagnosis(s) == Utf8Ok then Kept(o) else Marked(o));
      SplitReachesEnd(s[StepLength(s)..], parts[1..]);
      StepKeepsEnd(s);
    }
  }

  lemma RepairHasParts(s: seq<Octet>, mark: bv32, out0: seq<Octet>)
    ensures var r := Then(out0, Repaired(s, mark));
            r.Ok? ==> exists parts :: Splits(s, parts) && r.value == out0 + Written(parts, mark)
  {
    hide Repaired, Splits, Written;
    if Repaired(s, mark).Ok? {
      var parts := RepairedByParts(s, mark);
      assert Then(out0, Repaired(s, mark)).value == out0 + Written(parts, mark);
    }
  }

  method ReplaceInvalid(s: seq<Octet>, out0: seq<Octet>, replacement: bv32) returns (r: Result<seq<Octet>>)
    ensures r == Then(out0, Repaired(s, replacement))
    // the output is the input, part by part, with one mark for each part that is no character
    ensures r.Ok? ==> exists parts :: Splits(s, parts) && r.value == out0 + Written(parts, replacement)
  {
    hide IsChar, Scalar, StartsWithChar, SequenceLength, Diagnosis, Encode, IsCodePointValid, Splits, Written;
    hide Repaired, CountTrails, StepLength, Then;
    RepairHasParts(s, replacement, out0);
    var start, out := 0, out0;
    assert s[0..] == s;
    while start != |s|
      invariant start <= |s|
      invariant Then(out0, Repaired(s, replacement)) == Then(out, Repaired(s[start..], replacement))
      decreases |s| - start
    {
      var sequenceStart := start;
      RepairStep(s, start, replacement);
      var err, next, ignored := ValidateNext(s, start, |s|, 0);
      assert s[start..|s|] == s[start..];
      match err {
        case Utf8Ok =>
          ThenThen(out, s[start..next], Repaired(s[next..], replacement));
          out := CopyOctets(s, sequenceStart, next, out);
          start := next;
        case NotEnoughRoom =>
          ThenThrew(out, NotEnoughRoomEx);
          return Threw(NotEnoughRoomEx);
        case InvalidLead =>
          var a := Append(replacement, out);
          if a.Threw? {
            ThenThrew(out, a.ex);
            return Threw(a.ex);
          }
          ThenThen(out, Encode(replacement), Repaired(s[start + 1..], replacement));
          out := a.value;
          start := start + 1;
        case _ =>
          var a := Append(replacement, out);
          if a.Threw? {
            ThenThrew(out, a.ex);
            return Threw(a.ex);
          }
          start := SkipTrails(s, start);
          ThenThen(out, Encode(replacement), Repaired(s[start..], replacement));
          out := a.value;
      }
    }
    RepairNothing(out, replacement);
    return Ok(out);
  }

  lemma RepairNothing(out: seq<Octet>, mark: bv32)
    ensures Then(out, Repaired([], mark)) == Ok(out)
  {
    assert out + [] == out;
  }

  lemma ThenThrew(out: seq<Octet>, ex: Thrown)
    ensures Then(out, Threw(ex)) == Threw(ex)
  {
  }

  lemma ThenThen(a: seq<Octet>, b: seq<Octet>, r: Result<seq<Octet>>)
    ensures Then(a, Then(b, r)) == Then(a + b, r)
  {
    if r.Ok? { assert a + (b + r.value) == a + b + r.value; }
  }

  /** A repaired string is valid, and at most so many times longer than a replacement allows. */
  lemma {:induction false} RepairedIsValid(s: seq<Octet>, mark: bv32)
    requires Repaired(s, mark).Ok?
    ensures Valid(Repaired(s, mark).value)
    ensures mark < 0x10000 ==> |Repaired(s, mark).value| <= 3 * |s|
    ensures |Repaired(s, mark).value| <= 4 * |s|
    decreases |s|
  {
    hide IsChar, Scalar, StartsWithChar, Diagnosis, Encode;
    if s == [] {
    } else {
      var n := StepLength(s);
      DiagnosisIsExact(s);
      RepairedIsValid(s[n..], mark);
      var t := Repaired(s[n..], mark).value;
      if Diagnosis(s) == Utf8Ok {
        ValidPrepend(s[..n], t);
      } else {
        EncodeIsChar(mark);
        EncodeLength(mark);
        ValidPrepend(Encode(mark), t);
      }
    }
  }

  lemma EncodeLength(mark: bv32)
    ensures 1 <= |Encode(mark)| <= 4 && (mark < 0x10000 ==> |Encode(mark)| <= 3)
  {
    EncodeShape(mark);
  }

  /** A valid string is left as it is; so repairing twice is repairing once. */
  lemma {:induction false} ValidStays(s: seq<Octet>, mark: bv32)
    requires Valid(s)
    ensures Repaired(s, mark) == Ok(s)
    decreases |s|
  {
    hide IsChar, Scalar, StartsWithChar, Encode, Diagnosis;
    if s == [] {
    } else {
      var n := SequenceLength(s[0]);
      assert StartsWithChar(s) by { StartsValid(s); }
      DiagnosisIsExact(s);
      ValidStays(s[n..], mark);
      assert s == s[..n] + s[n..];
    }
  }

  lemma StartsValid(s: seq<Octet>)
    requires s != [] && Valid(s)
    ensures StartsWithChar(s)
  {
    assert IsChar(s[..SequenceLength(s[0])]);
  }

  lemma {:induction false} RepairIsIdempotent(s: seq<Octet>, mark: bv32)
    requires Repaired(s, mark).Ok?
    ensures Repaired(Repaired(s, mark).value, mark) == Repaired(s, mark)
  {
    RepairedIsValid(s, mark);
    ValidStays(Repaired(s, mark).value, mark);
  }

  /** s ends in the first octets of a longer sequence. */
  ghost predicate TruncatedAtEnd(s: seq<Octet>) {
    exists k :: 0 <= k < |s| && TruncatedFrom(s, k)
  }

  /** A step consumes trails only after its first octet, so it never swallows the start of a truncated end. */
  lemma StepKeepsEnd(s: seq<Octet>)
    requires s != [] && Diagnosis(s) != NotEnoughRoom
    ensures TruncatedAtEnd(s) <==> TruncatedAtEnd(s[StepLength(s)..])
  {
    hide IsChar, Scalar, StartsWithChar, Diagnosis, IsTrail, SequenceLength;
    var n := StepLength(s);
    var t := s[n..];
    StepSkipsTrails(s);
    NoRoomIsTruncated(s);
    if TruncatedAtEnd(s) {
      var k :| 0 <= k < |s| && TruncatedFrom(s, k);
      if k < n {
        TrailIsNoLead(s[k]);
        assert false;
      }
      assert t[k - n] == s[k] && forall i :: k - n < i < |t| ==> t[i] == s[i + n];
      assert TruncatedFrom(t, k - n);
    }
    if TruncatedAtEnd(t) {
      var k :| 0 <= k < |t| && TruncatedFrom(t, k);
      assert s[k + n] == t[k] && forall i :: k + n < i < |s| ==> s[i] == t[i - n];
      assert TruncatedFrom(s, k + n);
    }
  }

  lemma TrailIsNoLead(oc: Octet)
    ensures IsTrail(oc) ==> SequenceLength(oc) == 0
  {
  }

  lemma StepSkipsTrails(s: seq<Octet>)
    requires s != []
    ensures forall i :: 1 <= i < StepLength(s) ==> IsTrail(s[i])
  {
    hide IsChar, Scalar, StartsWithChar, Diagnosis, IsTrail, SequenceLength, CountTrails;
    var n := StepLength(s);
    if Diagnosis(s) == Utf8Ok {
      DiagnosisIsExact(s);
      CharShape(s[..n]);
      assert forall i :: 1 <= i < n ==> s[i] == s[..n][i];
    } else {
      assert forall i :: 1 <= i < |s| ==> s[i] == s[1..][i - 1];
    }
  }

  /** With a valid replacement, the repair fails exactly when a truncated character reaches the end of input. */
  lemma {:induction false} RepairFailsIffTruncated(s: seq<Octet>, mark: bv32)
    requires IsCodePointValid(mark)
    ensures Repaired(s, mark).Threw? <==> TruncatedAtEnd(s)
    ensures Repaired(s, mark).Threw? ==> Repaired(s, mark).ex == NotEnoughRoomEx
    decreases |s|
  {
    hide IsChar, Scalar, StartsWithChar, Diagnosis, IsTrail, SequenceLength, Encode, StepLength;
    if s == [] {
    } else {
      NoRoomIsTruncated(s);
      if Diagnosis(s) != NotEnoughRoom {
        StepKeepsEnd(s);
        RepairFailsIffTruncated(s[StepLength(s)..], mark);
      }
    }
  }

  const REPLACEMENT_MARKER: bv32 := 0xfffd

  lemma MarkerIsValid()
    ensures IsCodePointValid(REPLACEMENT_MARKER) && REPLACEMENT_MARKER < 0x10000
  {
  }

  /** The form with the replacement character U+FFFD as its mark: never more than three times as long. */
  method ReplaceInvalidByMarker(s: seq<Octet>, out0: seq<Octet>) returns (r: Result<seq<Octet>>)
    ensures r == Then(out0, Repaired(s, REPLACEMENT_MARKER))
    ensures r.Ok? ==>
              |out0| <= |r.value| <= |out0| + 3 * |s| && r.value[..|out0|] == out0 && Valid(r.value[|out0|..])
    ensures r.Threw? <==> TruncatedAtEnd(s)
    ensures r.Ok? ==> exists parts :: Splits(s, parts) && r.value == out0 + Written(parts, REPLACEMENT_MARKER)
  {
    hide Repaired, Valid, TruncatedAtEnd, Splits, Written;
    MarkerIsValid();
    RepairFailsIffTruncated(s, REPLACEMENT_MARKER);
    if Repaired(s, REPLACEMENT_MARKER).Ok? { RepairedIsValid(s, REPLACEMENT_MARKER); }
    r := ReplaceInvalid(s, out0, REPLACEMENT_MARKER);
  }
}
