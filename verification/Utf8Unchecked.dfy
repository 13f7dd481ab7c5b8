/**
 * The unchecked functions: the same arithmetic without the checks. On valid input they agree
 * with the checked ones.
 */
module Utf8Unchecked {
  import opened Utf16
  import opened Utf8Checked
  import opened Utf8Core
  import opened Utf8Text

  method Append(cp: bv32, result: seq<Octet>) returns (out: seq<Octet>)
    ensures out == result + Encode(cp)
  {
    out := result;
    if cp < 0x80 {
      out := out + [Low(cp)];
    } else if cp < 0x800 {
      out := out + [Low((cp >> 6) | 0xc0)];
      out := out + [Low((cp & 0x3f) | 0x80)];
    } else if cp < 0x10000 {
      out := out + [Low((cp >> 12) | 0xe0)];
      out := out + [Low(((cp >> 6) & 0x3f) | 0x80)];
      out := out + [Low((cp & 0x3f) | 0x80)];
    } else {
      out := out + [Low((cp >> 18) | 0xf0)];
      out := out + [Low(((cp >> 12) & 0x3f) | 0x80)];
      out := out + [Low(((cp >> 6) & 0x3f) | 0x80)];
      out := out + [Low((cp & 0x3f) | 0x80)];
    }
    assert out == result + Encode(cp);
  }

  /** The value of the n octets at it, whatever they are. */
  function RawValue(s: seq<Octet>, it: nat, n: nat): bv32
    requires it < |s| && it + n <= |s|
  {
    match n
    case 0 => s[it] as bv32
    case 1 => s[it] as bv32
    case 2 => Value2(s[it], s[it + 1])
    case 3 => Value3(s[it], s[it + 1], s[it + 2])
    case _ => Value4(s[it], s[it + 1], s[it + 2], s[it + 3])
  }

  method Next2(s: seq<Octet>, it: nat) returns (cp: bv32)
    requires it + 2 <= |s|
    ensures cp == RawValue(s, it, 2)
  {
    cp := ((s[it] as bv32 << 6) & 0x7ff) + ((s[it + 1] as bv32) & 0x3f);
  }

  method Next3(s: seq<Octet>, it: nat) returns (cp: bv32)
    requires it + 3 <= |s|
    ensures cp == RawValue(s, it, 3)
  {
    cp := ((s[it] as bv32 << 12) & 0xffff) + ((s[it + 1] as bv32 << 6) & 0xfff);
    cp := cp + ((s[it + 2] as bv32) & 0x3f);
  }

  method Next4(s: seq<Octet>, it: nat) returns (cp: bv32)
    requires it + 4 <= |s|
    ensures cp == RawValue(s, it, 4)
  {
    cp := ((s[it] as bv32 << 18) & 0x1fffff) + ((s[it + 1] as bv32 << 12) & 0x3ffff);
    cp := cp + ((s[it + 2] as bv32 << 6) & 0xfff);
    cp := cp + ((s[it + 3] as bv32) & 0x3f);
  }

  /** Decodes at it without looking at anything but the first octet; the octets must be there. */
  method Next(s: seq<Octet>, it: nat) returns (cp: bv32, it': nat)
    requires it < |s| && it + SequenceLength(s[it]) <= |s|
    ensures it' == it + (if SequenceLength(s[it]) == 0 then 1 else SequenceLength(s[it]))
    ensures cp == RawValue(s, it, SequenceLength(s[it]))
    ensures SequenceLength(s[it]) <= 1 ==> cp == s[it] as bv32
  {
    hide SequenceLength, Value2, Value3, Value4;
    LengthRange(s[it]);
    cp := s[it] as bv32;
    var length := SequenceLength(s[it]);
    it' := it;
    match length {
      case 0 =>
      case 1 =>
      case 2 =>
        cp := Next2(s, it);
        it' := it' + 1;
      case 3 =>
        cp := Next3(s, it);
        it' := it' + 2;
      case _ =>
        cp := Next4(s, it);
        it' := it' + 3;
    }
    it' := it' + 1;
  }

  /** At a character, the raw value is its scalar value: the unchecked next agrees with the checked one. */
  lemma RawValueOfChar(s: seq<Octet>, it: nat, after: nat)
    requires it < after <= |s| && IsChar(s[it..after])
    ensures SequenceLength(s[it]) == after - it && !IsTrail(s[it]) && 1 <= after - it <= 4
    ensures RawValue(s, it, after - it) == Scalar(s[it..after])
  {
    hide Scalar, IsChar, IsTrail, SequenceLength, Value2, Value3, Value4;
    var n := after - it;
    CharShape(s[it..after]);
    CharLength(s[it..after]);
    assert forall i :: it < i < after ==> s[i] == s[it..after][i - it];
    assert SequenceRead(s, it, after, n, Utf8Ok, after - 1, RawValue(s, it, n));
    ReadIsExact(s, it, after, n, after - 1, RawValue(s, it, n));
  }

  /** Steps back over trails; some octet before it must not be one. */
  method Prior(s: seq<Octet>, it: nat) returns (cp: bv32, it': nat)
    requires it <= |s|
    requires exists k :: 0 <= k < it && !IsTrail(s[k]) && k + SequenceLength(s[k]) <= |s| && NearestStart(s, k, it)
    ensures it' < it && !IsTrail(s[it']) && forall i :: it' < i < it ==> IsTrail(s[i])
    ensures forall k :: 0 <= k < it && IsChar(s[k..it]) ==> it' == k && 1 <= it - k <= 4 && cp == Scalar(s[k..it])
  {
    hide IsChar, Scalar, IsTrail, SequenceLength, RawValue;
    ghost var k0 :| 0 <= k0 < it && !IsTrail(s[k0]) && k0 + SequenceLength(s[k0]) <= |s| && NearestStart(s, k0, it);
    it' := it - 1;
    while IsTrail(s[it'])
      invariant k0 <= it' < it && forall i :: it' < i < it ==> IsTrail(s[i])
      decreases it'
    {
      it' := it' - 1;
    }
    assert it' == k0;
    var temp;
    cp, temp := Next(s, it');
    forall k | 0 <= k < it && IsChar(s[k..it]) ensures it' == k && 1 <= it - k <= 4 && cp == Scalar(s[k..it]) {
      RawValueOfChar(s, k, it);
      CharShape(s[k..it]);
      assert forall i :: k < i < it ==> s[i] == s[k..it][i - k];
    }
  }

  ghost predicate NearestStart(s: seq<Octet>, k: nat, it: nat)
    requires k < it <= |s|
  {
    forall i :: k < i < it ==> IsTrail(s[i])
  }

  method Utf16To8(ws: seq<Word>, result: seq<Octet>) returns (out: seq<Octet>)
    requires WellFormed(ws)
    ensures Utf16.To8(ws).Ok? && out == result + Utf16.To8(ws).value
  {
    hide Wide, JoinBits, Encode, IsCodePointValid, Then, IsLeadSurrogate, IsTrailSurrogate, To8;
    To8IsEncoding(ws);
    var start := 0;
    out := result;
    assert ws[0..] == ws;
    while start != |ws|
      invariant start <= |ws| && WellFormed(ws[start..])
      invariant Then(result, To8(ws)) == Then(out, To8(ws[start..]))
      decreases |ws| - start
    {
      To8Step(ws, start);
      assert ws[start..][1..] == ws[start + 1..];
      var cp := Wide(ws[start]);
      start := start + 1;
      if IsLeadSurrogate(cp) {
        assert ws[start - 1..][2..] == ws[start + 1..] && ws[start - 1..][1] == ws[start];
        var trailSurrogate := Wide(ws[start]);
        start := start + 1;
        cp := JoinBits(cp, trailSurrogate);
      }
      ThenThen(out, Encode(cp), To8(ws[start..]));
      out := Append(cp, out);
    }
    To8Nothing(out);
    assert ws[start..] == [];
    ThenIs(result, To8(ws));
  }

  lemma ThenIs(out: seq<Octet>, r: Result<seq<Octet>>)
    ensures r.Ok? ==> Then(out, r) == Ok(out + r.value)
  {
  }

  method Utf8To16(s: seq<Octet>, result: seq<Word>) returns (out: seq<Word>)
    requires Valid(s)
    ensures Utf16.To16(s).Ok? && out == result + Utf16.To16(s).value
  {
    hide Valid, IsChar, Scalar, RawValue, StartsWithChar, SequenceLength, Diagnosis, ThrownFor;
    hide LeadBits, TrailBits, LowWord, ThenWords, To16;
    To16IsDecoding(s);
    var start := 0;
    out := result;
    assert s[0..] == s;
    while start < |s|
      invariant start <= |s| && Valid(s[start..])
      invariant ThenWords(result, To16(s)) == ThenWords(out, To16(s[start..]))
      decreases |s| - start
    {
      To16Step(s, start, out);
      ghost var n := SequenceLength(s[start]);
      ValidFrom(s, start);
      RawValueOfChar(s, start, start + n);
      var cp, next := Next(s, start);
      ghost var before := out;
      if Beyond(cp) {
        out := out + [LowWord(LeadBits(cp))];
        out := out + [LowWord(TrailBits(cp))];
      } else {
        out := out + [LowWord(cp)];
      }
      assert out == before + Words(cp);
      ThenWordsTwice(before, Words(cp), To16(s[next..]));
      start := next;
    }
    To16Nothing(out);
    assert s[start..] == [];
    ThenWordsIs(result, To16(s));
  }

  /** What is left of a valid string starts with a character and goes on validly after it. */
  lemma ValidFrom(s: seq<Octet>, start: nat)
    requires start < |s| && Valid(s[start..])
    ensures var n := SequenceLength(s[start]);
            1 <= n && start + n <= |s| && IsChar(s[start..start + n]) && Valid(s[start + n..])
  {
    hide IsChar, SequenceLength;
    var n := SequenceLength(s[start]);
    assert s[start..][..n] == s[start..start + n] && s[start..][n..] == s[start + n..];
  }

  lemma ThenWordsIs(out: seq<Word>, r: Result<seq<Word>>)
    ensures r.Ok? ==> ThenWords(out, r) == Ok(out + r.value)
  {
  }
}
