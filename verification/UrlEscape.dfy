/**
 * Percent-encoding (section 2.1 of RFC 3986) the way Apache does it: escaping into a fresh buffer
 * and unescaping in place.
 */
module UrlEscape {
  import opened Bytes

  datatype Code = OK | BAD_REQUEST | NOT_FOUND

  // ----- single bytes -----

  /** The bytes that the character table marks for path segments. */
  predicate NeedsEscape(c: Byte) {
    var n := c as int;
    || 1 <= n <= 32 || n in {34, 35, 37, 47, 59, 60, 62, 63} || 91 <= n <= 94 || n == 96
    || 123 <= n <= 125 || 127 <= n
  }

  function HexDigit(n: nat): Byte
    requires n < 16
  {
    if n < 10 then (48 + n) as char else (87 + n) as char
  }

  function C2X(c: Byte): Text {
    ['%', HexDigit(c as int / 16), HexDigit(c as int % 16)]
  }

  predicate IsXDigit(c: Byte) {
    '0' <= c <= '9' || 'A' <= c <= 'F' || 'a' <= c <= 'f'
  }

  /** n & 0xdf */
  function WithoutBit5(n: nat): nat { n - 32 * (n / 32 % 2) }

  function DigitValue(c: Byte): (n: nat)
    requires IsXDigit(c)
    ensures n < 16
  {
    if c >= 'A' then WithoutBit5(c as int) - 65 + 10 else c as int - 48
  }

  /** The byte that two hexadecimal digits stand for. */
  function X2C(hi: Byte, lo: Byte): Byte
    requires IsXDigit(hi) && IsXDigit(lo)
  {
    (DigitValue(hi) * 16 + DigitValue(lo)) as char
  }

  lemma DigitOfHex(n: nat)
    requires n < 16
    ensures IsXDigit(HexDigit(n)) && DigitValue(HexDigit(n)) == n && HexDigit(n) != NUL
    ensures HexDigit(n) != '%' && HexDigit(n) != '&' && HexDigit(n) != '+'
  {
  }

  /** Reading undoes writing, for every byte. */
  lemma X2CUndoesC2X(c: Byte)
    ensures IsXDigit(C2X(c)[1]) && IsXDigit(C2X(c)[2]) && X2C(C2X(c)[1], C2X(c)[2]) == c
  {
    hide HexDigit, IsXDigit, DigitValue;
    DigitOfHex(c as int / 16);
    DigitOfHex(c as int % 16);
  }

  // ----- strings -----

  function EscapeByte(c: Byte): Text { if NeedsEscape(c) then C2X(c) else [c] }

  function Escape(s: Text): Text {
    if s == [] then [] else EscapeByte(s[0]) + Escape(s[1..])
  }

  /** s starts with a percent sign and two hexadecimal digits. */
  predicate StartsEscaped(s: Text) {
    |s| >= 3 && s[0] == '%' && IsXDigit(s[1]) && IsXDigit(s[2])
  }

  function Unescape(s: Text): Text {
    if s == [] then []
    else if StartsEscaped(s) then [X2C(s[1], s[2])] + Unescape(s[3..])
    else [s[0]] + Unescape(s[1..])
  }

  /** Some percent sign that is not part of an escape has no two hexadecimal digits after it. */
  predicate BadEscape(s: Text) {
    s != [] && if StartsEscaped(s) then BadEscape(s[3..]) else s[0] == '%' || BadEscape(s[1..])
  }

  /** Some escape stands for NUL or for a slash. */
  predicate BadPath(s: Text) {
    && s != []
    && if StartsEscaped(s) then X2C(s[1], s[2]) == NUL || X2C(s[1], s[2]) == '/' || BadPath(s[3..]) else BadPath(s[1..])
  }

  function Verdict(s: Text): Code {
    if BadEscape(s) then BAD_REQUEST else if BadPath(s) then NOT_FOUND else OK
  }

  /** Bytes before the first percent sign stay as they are. */
  lemma {:induction false} PlainPrefix(s: Text, n: nat)
    requires n <= |s| && '%' !in s[..n]
    ensures Unescape(s) == s[..n] + Unescape(s[n..])
    ensures BadEscape(s) <==> BadEscape(s[n..])
    ensures BadPath(s) <==> BadPath(s[n..])
    decreases n
  {
    if n == 0 {
      assert s[0..] == s && s[..0] + Unescape(s) == Unescape(s);
    } else {
      assert s[0] == s[..n][0] && s[1..][..n - 1] == s[..n][1..] && s[1..][n - 1..] == s[n..];
      PlainPrefix(s[1..], n - 1);
      assert s[..n] == [s[0]] + s[..n][1..];
    }
  }

  // ----- the two are inverse -----

  lemma EscapedByteUndone(c: Byte, t: Text)
    ensures Unescape(EscapeByte(c) + t) == [c] + Unescape(t)
    ensures !BadEscape(t) ==> !BadEscape(EscapeByte(c) + t)
    ensures BadPath(EscapeByte(c) + t) <==> c == '/' || BadPath(t)
  {
    hide HexDigit, IsXDigit, X2C;
    var u := EscapeByte(c) + t;
    if NeedsEscape(c) {
      X2CUndoesC2X(c);
      assert u[3..] == t && c != NUL;
    } else {
      assert u[1..] == t && c != '%' && c != '/';
    }
  }

  /** Unescaping undoes escaping; it reports a forbidden byte exactly when there was a slash. */
  lemma {:induction false} UnescapeOfEscape(s: Text)
    ensures Unescape(Escape(s)) == s
    ensures Verdict(Escape(s)) == if '/' in s then NOT_FOUND else OK
    decreases |s|
  {
    hide NeedsEscape, EscapeByte, StartsEscaped;
    UnescapeNothing();
    if s == [] {
    } else {
      UnescapeOfEscape(s[1..]);
      EscapedByteUndone(s[0], Escape(s[1..]));
      assert s == [s[0]] + s[1..];
    }
  }

  lemma UnescapeNothing()
    ensures Unescape([]) == [] && !BadEscape([]) && !BadPath([])
  {
  }

  lemma {:induction false} EscapeLength(s: Text)
    ensures |s| <= |Escape(s)| <= 3 * |s|
    ensures NUL in Escape(s) ==> NUL in s
    ensures forall c :: c in Escape(s) && NeedsEscape(c) ==> c == '%'
    decreases |s|
  {
    if s == [] {
    } else {
      EscapeLength(s[1..]);
      EscapedByteShape(s[0]);
      forall c | c in Escape(s) && NeedsEscape(c) ensures c == '%' {
        assert c in EscapeByte(s[0]) || c in Escape(s[1..]);
      }
    }
  }

  lemma EscapedByteShape(c: Byte)
    ensures 1 <= |EscapeByte(c)| <= 3
    ensures NUL in EscapeByte(c) ==> c == NUL
    ensures forall d :: d in EscapeByte(c) && NeedsEscape(d) ==> d == '%'
  {
    if NeedsEscape(c) {
      forall d | d in EscapeByte(c) ensures d != NUL && (NeedsEscape(d) ==> d == '%') {
        DigitOfHex(c as int / 16);
        DigitOfHex(c as int % 16);
        assert d == C2X(c)[0] || d == C2X(c)[1] || d == C2X(c)[2];
      }
    }
  }

  /** Every escape in s is needed and in lower case, and nothing that needs one is left without. */
  predicate Canonical(s: Text) {
    || s == []
    || (if StartsEscaped(s) then
          var c := X2C(s[1], s[2]);
          NeedsEscape(c) && s[..3] == C2X(c) && Canonical(s[3..])
        else !NeedsEscape(s[0]) && Canonical(s[1..]))
  }

  /** Escaping undoes unescaping exactly on the strings in canonical form. */
  lemma {:induction false} EscapeOfUnescape(s: Text)
    ensures Escape(Unescape(s)) == s <==> Canonical(s)
    decreases |s|
  {
    hide IsXDigit, X2C, HexDigit;
    if s == [] {
    } else {
      if StartsEscaped(s) {
        var c, r := X2C(s[1], s[2]), Unescape(s[3..]);
        EscapeOfUnescape(s[3..]);
        assert Escape([c] + r) == EscapeByte(c) + Escape(r) by { assert ([c] + r)[1..] == r; }
        assert s == s[..3] + s[3..];
        if NeedsEscape(c) {
          SplitsAlike(C2X(c), Escape(r), s[..3], s[3..]);
        } else {
          assert Escape(Unescape(s))[0] == c != s[0];
        }
      } else {
        var c, r := s[0], Unescape(s[1..]);
        EscapeOfUnescape(s[1..]);
        assert Escape([c] + r) == EscapeByte(c) + Escape(r) by { assert ([c] + r)[1..] == r; }
        assert s == [c] + s[1..];
        if !NeedsEscape(c) {
          SplitsAlike([c], Escape(r), [c], s[1..]);
        } else {
          X2CUndoesC2X(c);
          assert StartsEscaped(Escape(Unescape(s)));
        }
      }
    }
  }

  lemma SplitsAlike(a: Text, b: Text, c: Text, d: Text)
    requires |a| == |c|
    ensures a + b == c + d <==> a == c && b == d
  {
    assert (a + b)[..|a|] == a && (c + d)[..|c|] == c;
    assert (a + b)[|a|..] == b && (c + d)[|c|..] == d;
  }

  // ----- the buffer algorithms -----

  /** strchr: the first place of c in the C string, or none. */
  method StrChr(url: array<Byte>, c: Byte) returns (found: bool, k: nat)
    requires NUL in url[..] && c != NUL
    ensures k < url.Length && NUL !in url[..k] && c !in url[..k] && url[k] == if found then c else NUL
  {
    ghost var n := |CString(url[..])|;
    HoldsCString(url[..]);
    k := 0;
    while url[k] != c && url[k] != NUL
      invariant k < url.Length && NUL !in url[..k] && c !in url[..k]
      invariant k <= n < url.Length && url[n] == NUL
      decreases n - k
    {
      assert url[..k + 1] == url[..k] + [url[k]];
      k := k + 1;
    }
    found := url[k] == c;
  }

  /** The decoder has read s up to y, written out, and seen what the two flags say. */
  ghost predicate Decoding(s: Text, y: nat, out: Text, badesc: bool, badpath: bool) {
    && y <= |s|
    && out + Unescape(s[y..]) == Unescape(s)
    && (BadEscape(s) <==> badesc || BadEscape(s[y..]))
    && (BadPath(s) <==> badpath || BadPath(s[y..]))
  }

  lemma DecodeCopy(s: Text, y: nat, out: Text, badesc: bool, badpath: bool)
    requires y < |s| && Decoding(s, y, out, badesc, badpath) && !StartsEscaped(s[y..])
    ensures Decoding(s, y + 1, out + [s[y]], badesc || s[y] == '%', badpath)
  {
    hide IsXDigit, X2C, StartsEscaped;
    assert s[y..][1..] == s[y + 1..];
    assert out + ([s[y]] + Unescape(s[y + 1..])) == out + [s[y]] + Unescape(s[y + 1..]);
  }

  lemma DecodeEscape(s: Text, y: nat, out: Text, badesc: bool, badpath: bool)
    requires y < |s| && Decoding(s, y, out, badesc, badpath) && StartsEscaped(s[y..])
    ensures var c := X2C(s[y + 1], s[y + 2]);
            Decoding(s, y + 3, out + [c], badesc, badpath || c == NUL || c == '/')
  {
    hide IsXDigit, X2C;
    assert s[y..][3..] == s[y + 3..];
    var c := X2C(s[y + 1], s[y + 2]);
    assert out + ([c] + Unescape(s[y + 3..])) == out + [c] + Unescape(s[y + 3..]);
  }

  lemma DecodeStart(s: Text, y: nat)
    requires y <= |s| && '%' !in s[..y]
    ensures Decoding(s, y, s[..y], false, false)
  {
    PlainPrefix(s, y);
  }

  lemma DecodeEnd(s: Text, out: Text, badesc: bool, badpath: bool)
    requires Decoding(s, |s|, out, badesc, badpath)
    ensures out == Unescape(s) && Verdict(s) == if badesc then BAD_REQUEST else if badpath then NOT_FOUND else OK
  {
    UnescapeNothing();
    assert s[|s|..] == [] && out + [] == out;
  }

  /** all starts with the C string s. */
  ghost predicate Holds(all: Text, s: Text) {
    |s| < |all| && s == all[..|s|] && all[|s|] == NUL && NUL !in s
  }

  lemma HoldsCString(all: Text)
    requires NUL in all
    ensures Holds(all, CString(all))
  {
    CStringIsPrefix(all);
    CStringWhole(all);
  }

  /** The two bytes after a percent sign may be looked at, one after the other. */
  lemma LookAhead(all: Text, s: Text, y: nat)
    requires Holds(all, s) && y <= |s|
    ensures all[y] == NUL <==> y == |s|
    ensures y < |s| ==> s[y] == all[y] && y + 1 < |all|
    ensures y < |s| && IsXDigit(all[y + 1]) ==> y + 2 < |all|
    ensures y < |s| ==>
              (StartsEscaped(s[y..]) <==> all[y] == '%' && IsXDigit(all[y + 1]) && IsXDigit(all[y + 2]))
    ensures y < |s| && StartsEscaped(s[y..]) ==> y + 3 <= |s| && s[y + 1] == all[y + 1] && s[y + 2] == all[y + 2]
  {
    if y < |s| {
      assert s[y] in s;
      if y + 1 < |s| {
        assert s[y + 1] in s;
      }
    }
  }

  /**
   * Unescapes the C string in url, in place, with two cursors: y reads and x, never ahead of y,
   * writes. Slashes are forbidden and no byte is reserved.
   */
  method UnescapeUrl(url: array<Byte>) returns (code: Code)
    requires NUL in url[..]
    modifies url
    ensures CString(url[..]) == CString(Unescape(CString(old(url[..]))))
    ensures code == Verdict(CString(old(url[..])))
    ensures NUL in url[..]
  {
    hide IsXDigit, X2C, StartsEscaped, Unescape, Verdict, CString, Decoding, Holds;
    ghost var all := url[..];
    ghost var s := CString(all);
    HoldsCString(all);
    var badesc, badpath := false, false;
    var found, y := StrChr(url, '%');
    FirstPercent(all, s, y, found);
    if !found {
      return OK;
    }
    var x := y;
    LookAhead(all, s, y);
    while url[y] != NUL
      invariant 0 <= x <= y <= |s| < url.Length == |all| && Holds(all, s)
      invariant forall k :: y <= k < |all| ==> url[k] == all[k]
      invariant Decoding(s, y, url[..x], badesc, badpath)
      decreases |s| - y
    {
      LookAhead(all, s, y);
      ghost var written := url[..x];
      if url[y] != '%' {
        DecodeCopy(s, y, written, badesc, badpath);
        url[x] := url[y];
      } else if !IsXDigit(url[y + 1]) || !IsXDigit(url[y + 2]) {
        DecodeCopy(s, y, written, badesc, badpath);
        badesc := true;
        url[x] := '%';
      } else {
        DecodeEscape(s, y, written, badesc, badpath);
        var decoded := X2C(url[y + 1], url[y + 2]);
        if decoded == NUL || decoded == '/' {
          badpath := true;
        }
        url[x] := decoded;
        y := y + 2;
      }
      assert url[..x + 1] == written + [url[x]];
      x, y := x + 1, y + 1;
      LookAhead(all, s, y);
    }
    LookAhead(all, s, y);
    DecodeEnd(s, url[..x], badesc, badpath);
    ghost var done := url[..x];
    url[x] := NUL;
    assert url[..][..x] == done;
    CutHere(url[..], x);
    code := if badesc then BAD_REQUEST else if badpath then NOT_FOUND else OK;
  }

  lemma FirstPercent(all: Text, s: Text, y: nat, found: bool)
    requires Holds(all, s)
    requires y < |all| && NUL !in all[..y] && '%' !in all[..y] && all[y] == if found then '%' else NUL
    ensures y <= |s| && Decoding(s, y, all[..y], false, false)
    ensures !found ==> Verdict(s) == OK && CString(all) == CString(Unescape(s))
  {
    hide IsXDigit, X2C, StartsEscaped, Unescape, BadEscape, BadPath;
    assert forall k :: 0 <= k < y ==> all[k] == all[..y][k] != NUL;
    assert s[..y] == all[..y];
    DecodeStart(s, y);
    if !found {
      LookAhead(all, s, y);
      DecodeEnd(s, s[..y], false, false);
      CutHere(all, y);
      assert s[..y] == s;
    }
  }

  lemma CutHere(u: Text, x: nat)
    requires x < |u| && u[x] == NUL
    ensures CString(u) == CString(u[..x]) && NUL in u
    decreases x
  {
    if x > 0 && u[0] != NUL {
      assert u[1..][..x - 1] == u[..x][1..];
      CutHere(u[1..], x - 1);
    }
  }

  method StrLen(s: array<Byte>) returns (n: nat)
    requires NUL in s[..]
    ensures n == |CString(s[..])|
  {
    hide CString, Holds;
    ghost var all := s[..];
    HoldsCString(all);
    LookAhead(all, CString(all), 0);
    n := 0;
    while s[n] != NUL
      invariant n <= |CString(all)| < |all| && all == s[..] && (all[n] == NUL <==> n == |CString(all)|)
      decreases |CString(all)| - n
    {
      n := n + 1;
      LookAhead(all, CString(all), n);
    }
  }

  /** The encoder has read s up to k and written out. */
  ghost predicate Encoding(s: Text, k: nat, out: Text) {
    k <= |s| && out + Escape(s[k..]) == Escape(s) && |out| <= 3 * k
  }

  lemma EncodeStart(s: Text)
    ensures Encoding(s, 0, [])
  {
    assert s[0..] == s && [] + Escape(s) == Escape(s);
  }

  lemma EncodeStep(s: Text, k: nat, out: Text)
    requires k < |s| && Encoding(s, k, out)
    ensures Encoding(s, k + 1, out + EscapeByte(s[k]))
  {
    EscapedByteShape(s[k]);
    assert s[k..][1..] == s[k + 1..];
    assert out + (EscapeByte(s[k]) + Escape(s[k + 1..])) == out + EscapeByte(s[k]) + Escape(s[k + 1..]);
  }

  lemma EncodeEnd(s: Text, out: Text)
    requires Encoding(s, |s|, out)
    ensures out == Escape(s)
  {
    assert s[|s|..] == [] && out + [] == out;
  }

  /** Writes the escape of c at d. */
  method WriteC2X(c: Byte, where: array<Byte>, d: nat) returns (next: nat)
    requires d + 3 <= where.Length
    modifies where
    ensures next == d + 3 && where[..next] == old(where[..d]) + C2X(c) && where[next..] == old(where[next..])
  {
    where[d], where[d + 1], where[d + 2] := '%', HexDigit(c as int / 16), HexDigit(c as int % 16);
    next := d + 3;
  }

  /** Escapes the C string in segment into a fresh buffer of three bytes for each, and one for the end. */
  method EscapePathSegment(segment: array<Byte>) returns (copy: array<Byte>)
    requires NUL in segment[..]
    ensures fresh(copy) && copy.Length == 3 * |CString(segment[..])| + 1
    ensures NUL in copy[..] && CString(copy[..]) == Escape(CString(segment[..]))
  {
    hide CString, Escape, C2X, NeedsEscape, Holds, Encoding;
    ghost var all := segment[..];
    ghost var text := CString(all);
    HoldsCString(all);
    LookAhead(all, text, 0);
    var length := StrLen(segment);
    copy := new Byte[3 * length + 1];
    var s, d := 0, 0;
    EncodeStart(text);
    while segment[s] != NUL
      invariant s <= |text| == length < |all| && d <= 3 * s && copy.Length == 3 * length + 1
      invariant all == segment[..] && Holds(all, text) && (all[s] == NUL <==> s == length) && fresh(copy)
      invariant Encoding(text, s, copy[..d])
      decreases length - s
    {
      var c := segment[s];
      LookAhead(all, text, s);
      EncodeStep(text, s, copy[..d]);
      ghost var before := copy[..d];
      if NeedsEscape(c) {
        d := WriteC2X(c, copy, d);
      } else {
        copy[d] := c;
        d := d + 1;
      }
      assert copy[..d] == before + EscapeByte(c);
      s := s + 1;
      LookAhead(all, text, s);
    }
    EncodeEnd(text, copy[..d]);
    ghost var done := copy[..d];
    copy[d] := NUL;
    assert copy[..][..d] == done;
    EscapeIsPlain(all);
    CutHere(copy[..], d);
  }

  lemma EscapeIsPlain(all: Text)
    ensures CString(Escape(CString(all))) == Escape(CString(all))
  {
    CStringIsPrefix(all);
    EscapeLength(CString(all));
    CStringWhole(Escape(CString(all)));
  }
}
