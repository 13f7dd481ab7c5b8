/** The two query-string codecs, built on Apache's percent-encoding. */
module UrlCodec {
  import opened Bytes
  import opened UrlEscape

  datatype Codec = Apache | Default

  function GetUrlCodec(name: string): Codec {
    if name == "apache" then Apache else Default
  }

  /** Every c replaced by the bytes of into. */
  function Replaced(s: Text, c: Byte, into: Text): Text {
    if s == [] then [] else (if s[0] == c then into else [s[0]]) + Replaced(s[1..], c, into)
  }

  function Encoded(codec: Codec, s: Text): Text {
    var escaped := Escape(CString(s));
    if codec.Apache? then escaped else Replaced(escaped, '+', "%2b")
  }

  function Decoded(codec: Codec, s: Text): Text {
    var read := if codec.Apache? then s else Replaced(s, '+', " ");
    CString(Unescape(CString(read)))
  }

  // ----- replacing -----

  lemma {:induction false} ReplacedConcat(s: Text, t: Text, c: Byte, into: Text)
    ensures Replaced(s + t, c, into) == Replaced(s, c, into) + Replaced(t, c, into)
    decreases |s|
  {
    if s == [] {
      assert s + t == t;
    } else {
      assert (s + t)[1..] == s[1..] + t;
      ReplacedConcat(s[1..], t, c, into);
    }
  }

  lemma {:induction false} ReplacedNothing(s: Text, c: Byte, into: Text)
    requires c !in s
    ensures Replaced(s, c, into) == s
    decreases |s|
  {
    if s == [] {
    } else {
      ReplacedNothing(s[1..], c, into);
      assert s[0] in s;
    }
  }

  // ----- one byte, as the default codec writes it -----

  function EncodedByte(c: Byte): Text { if c == '+' then "%2b" else EscapeByte(c) }

  lemma EncodedByteShape(c: Byte)
    ensures Replaced(EscapeByte(c), '+', "%2b") == EncodedByte(c)
    ensures 1 <= |EncodedByte(c)| <= 3 && '+' !in EncodedByte(c)
    ensures NUL in EncodedByte(c) ==> c == NUL
    ensures '&' in EncodedByte(c) <==> c == '&'
    ensures '&' in EscapeByte(c) <==> c == '&'
  {
    hide HexDigit;
    DigitOfHex(c as int / 16);
    DigitOfHex(c as int % 16);
    if NeedsEscape(c) {
      ReplacedNothing(C2X(c), '+', "%2b");
    } else {
      assert [c][1..] == [];
    }
  }

  lemma EncodedByteUndone(c: Byte, t: Text)
    ensures Unescape(EncodedByte(c) + t) == [c] + Unescape(t)
  {
    if c == '+' {
      assert ("%2b" + t)[3..] == t;
      assert X2C('2', 'b') == '+';
    } else {
      EscapedByteUndone(c, t);
    }
  }

  lemma {:induction false} ReplacedEscape(s: Text)
    ensures var e := Replaced(Escape(s), '+', "%2b");
            && Unescape(e) == s && |s| <= |e| <= 3 * |s| && '+' !in e
            && (NUL in e ==> NUL in s) && ('&' in e <==> '&' in s)
    decreases |s|
  {
    hide EscapeByte, EncodedByte, Unescape;
    UnescapeNothing();
    if s == [] {
    } else {
      ReplacedEscape(s[1..]);
      EncodedByteShape(s[0]);
      ReplacedConcat(EscapeByte(s[0]), Escape(s[1..]), '+', "%2b");
      EncodedByteUndone(s[0], Replaced(Escape(s[1..]), '+', "%2b"));
      assert s == [s[0]] + s[1..];
    }
  }

  lemma {:induction false} EscapeKeepsAmpersand(s: Text)
    ensures '&' in Escape(s) <==> '&' in s
    decreases |s|
  {
    hide EscapeByte;
    if s == [] {
    } else {
      EscapeKeepsAmpersand(s[1..]);
      EncodedByteShape(s[0]);
      assert s == [s[0]] + s[1..];
    }
  }

  // ----- the codecs -----

  /** An encoding is at most three times as long, and hides every byte but the ampersand's kind. */
  lemma EncodedShape(codec: Codec, s: Text)
    ensures |Encoded(codec, s)| <= 3 * |s|
    ensures NUL !in Encoded(codec, s)
    ensures codec.Default? ==> '+' !in Encoded(codec, s)
    ensures '&' in Encoded(codec, s) <==> '&' in CString(s)
    ensures Encoded(codec, s) == [] <==> CString(s) == []
  {
    hide CString, Escape, Replaced;
    CStringIsPrefix(s);
    EscapeLength(CString(s));
    EscapeKeepsAmpersand(CString(s));
    ReplacedEscape(CString(s));
  }

  /**
   * Decoding undoes encoding up to the first NUL, where the C functions stop: it gives back
   * exactly the strings that hold none.
   */
  lemma {:induction false} DecodeOfEncode(codec: Codec, s: Text)
    ensures Decoded(codec, Encoded(codec, s)) == CString(s)
    ensures Decoded(codec, Encoded(codec, s)) == s <==> NUL !in s
  {
    hide CString, Escape, Unescape, Replaced;
    var t, e := CString(s), Encoded(codec, s);
    CStringIsPrefix(s);
    CStringWhole(s);
    CStringWhole(t);
    EncodedShape(codec, s);
    CStringWhole(e);
    if codec.Apache? {
      UnescapeOfEscape(t);
    } else {
      ReplacedNothing(e, '+', " ");
      ReplacedEscape(t);
    }
  }

  lemma DecodedHasNoNul(codec: Codec, s: Text)
    ensures NUL !in Decoded(codec, s)
  {
    CStringIsPrefix(Unescape(CString(if codec.Apache? then s else Replaced(s, '+', " "))));
  }

  // ----- the methods -----

  /** strncpy from a std::string into a buffer one byte longer: the C string, then NULs to the end. */
  method StrNCpy(source: Text) returns (buffer: array<Byte>)
    ensures fresh(buffer) && buffer.Length == |source| + 1
    ensures NUL in buffer[..] && CString(buffer[..]) == CString(source)
  {
    hide CString;
    buffer := new Byte[|source| + 1];
    var i := 0;
    while i < |source| && source[i] != NUL
      invariant 0 <= i <= |source| && buffer.Length == |source| + 1 && fresh(buffer)
      invariant buffer[..i] == source[..i] && NUL !in source[..i]
    {
      buffer[i] := source[i];
      i := i + 1;
      assert source[..i] == source[..i - 1] + [source[i - 1]];
    }
    ghost var text := source[..i];
    ghost var end := i;
    while i < buffer.Length
      invariant end <= i <= buffer.Length && fresh(buffer)
      invariant buffer[..end] == text && (end < i ==> buffer[end] == NUL)
    {
      buffer[i] := NUL;
      i := i + 1;
    }
    CutHere(buffer[..], end);
    assert buffer[..][..end] == text;
    if end < |source| {
      CutHere(source, end);
    } else {
      assert source == text;
    }
  }

  method Decode(codec: Codec, s: Text) returns (out: Text)
    ensures out == Decoded(codec, s)
  {
    hide CString, Unescape, Replaced;
    var buffer := StrNCpy(if codec.Apache? then s else Replaced(s, '+', " "));
    var code := UnescapeUrl(buffer);
    var n := StrLen(buffer);
    CStringIsPrefix(buffer[..]);
    out := buffer[..n];
  }

  method Encode(codec: Codec, s: Text) returns (out: Text)
    ensures out == Encoded(codec, s)
  {
    hide CString, Escape, Replaced;
    var text := StrNCpy(s);
    var copy := EscapePathSegment(text);
    var n := StrLen(copy);
    CStringIsPrefix(copy[..]);
    var encoded := copy[..n];
    out := if codec.Apache? then encoded else Replaced(encoded, '+', "%2b");
  }
}
