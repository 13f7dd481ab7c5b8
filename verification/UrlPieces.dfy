/**
 * Percent-encoded text piece by piece: what each piece stands for, by tables of characters, and what
 * the codecs make of it.
 */
module UrlPieces {
  import opened Bytes
  import opened UrlCodec
  import opened UrlEscape

  const LOWER_DIGITS: Text := "0123456789abcdef"
  const UPPER_DIGITS: Text := "0123456789ABCDEF"

  /** The bytes that stay as they are in a path segment: section 3.3 of RFC 3986, but for the semicolon. */
  predicate IsSafe(c: Byte) {
    c in UPPER_LETTERS || c in LOWER_LETTERS || c in "0123456789" || c in "-._~!$&'()*+,=:@"
  }

  /** A byte that is written as itself, or an escape of two digits. */
  datatype Piece = Plain(c: Byte) | Escaped(hi: Byte, lo: Byte)

  function Shown(ps: seq<Piece>): Text {
    if ps == [] then []
    else (match ps[0] case Plain(c) => [c] case Escaped(hi, lo) => ['%', hi, lo]) + Shown(ps[1..])
  }

  predicate IsDigit(c: Byte) { c in LOWER_DIGITS || c in UPPER_DIGITS }

  /** Digits follow every escape's percent sign, and do not follow any other one. */
  predicate Fits(ps: seq<Piece>) {
    ps == [] ||
    (&& Fits(ps[1..])
     && match ps[0]
        case Plain(c) =>
          var t := Shown(ps[1..]);
          !(c == '%' && |t| >= 2 && IsDigit(t[0]) && IsDigit(t[1]))
        case Escaped(hi, lo) => IsDigit(hi) && IsDigit(lo))
  }

  predicate DigitIs(c: Byte, n: nat) { n < 16 && (c == LOWER_DIGITS[n] || c == UPPER_DIGITS[n]) }

  /** The byte that a piece stands for. */
  ghost predicate Stands(p: Piece, b: Byte) {
    match p
    case Plain(c) => b == c
    case Escaped(hi, lo) => exists h: nat, l: nat :: DigitIs(hi, h) && DigitIs(lo, l) && b as int == 16 * h + l
  }

  ghost predicate AllStand(ps: seq<Piece>, out: Text) {
    |out| == |ps| && forall i :: 0 <= i < |ps| ==> Stands(ps[i], out[i])
  }

  // ----- digits -----

  lemma DigitsAreHex(c: Byte)
    ensures IsXDigit(c) <==> IsDigit(c)
  {
    if '0' <= c <= '9' {
      assert LOWER_DIGITS[c as int - 48] == c;
    } else if 'a' <= c <= 'f' {
      assert LOWER_DIGITS[c as int - 87] == c;
    } else if 'A' <= c <= 'F' {
      assert UPPER_DIGITS[c as int - 55] == c;
    }
  }

  lemma DigitOfTable(n: nat)
    requires n < 16
    ensures IsXDigit(LOWER_DIGITS[n]) && DigitValue(LOWER_DIGITS[n]) == n
    ensures IsXDigit(UPPER_DIGITS[n]) && DigitValue(UPPER_DIGITS[n]) == n
  {
  }

  /** Both cases of a digit read alike. */
  lemma DigitsByTable(c: Byte)
    ensures IsXDigit(c) <==> IsDigit(c)
    ensures forall n :: DigitIs(c, n) ==> IsXDigit(c) && DigitValue(c) == n
    ensures IsXDigit(c) ==> DigitIs(c, DigitValue(c))
  {
    DigitsAreHex(c);
    forall n: nat | n < 16
      ensures IsXDigit(LOWER_DIGITS[n]) && DigitValue(LOWER_DIGITS[n]) == n
      ensures IsXDigit(UPPER_DIGITS[n]) && DigitValue(UPPER_DIGITS[n]) == n
    {
      DigitOfTable(n);
    }
    hide IsXDigit, DigitValue, LOWER_DIGITS, UPPER_DIGITS;
    if IsXDigit(c) {
      if c in LOWER_DIGITS {
        var n :| 0 <= n < |LOWER_DIGITS| && LOWER_DIGITS[n] == c;
        TableSizes();
        assert DigitIs(c, n);
      } else {
        var n :| 0 <= n < |UPPER_DIGITS| && UPPER_DIGITS[n] == c;
        TableSizes();
        assert DigitIs(c, n);
      }
    }
  }

  lemma TableSizes()
    ensures |LOWER_DIGITS| == 16 == |UPPER_DIGITS|
  {
  }

  lemma WrittenDigit(n: nat)
    requires n < 16
    ensures HexDigit(n) == LOWER_DIGITS[n]
  {
  }

  lemma SafeByTable(c: Byte)
    ensures NeedsEscape(c) <==> c != NUL && !IsSafe(c)
  {
    LettersByTable(c);
  }

  lemma EscapeStands(p: Piece, b: Byte)
    requires p.Escaped? && Stands(p, b)
    ensures IsXDigit(p.hi) && IsXDigit(p.lo) && X2C(p.hi, p.lo) == b
  {
    hide IsXDigit, DigitValue, LOWER_DIGITS, UPPER_DIGITS;
    DigitsByTable(p.hi);
    DigitsByTable(p.lo);
  }

  // ----- unescaping -----

  /** What unescaping makes of a text, and its verdict, piece by piece. */
  lemma {:induction false} UnescapeByPieces(ps: seq<Piece>, out: Text)
    requires Fits(ps) && AllStand(ps, out)
    ensures Unescape(Shown(ps)) == out
    ensures BadEscape(Shown(ps)) <==> Plain('%') in ps
    ensures BadPath(Shown(ps)) <==> exists i :: 0 <= i < |ps| && ps[i].Escaped? && (out[i] == NUL || out[i] == '/')
    decreases |ps|
  {
    hide Stands, IsXDigit, IsDigit, X2C, DigitIs;
    UnescapeNothing();
    if ps == [] {
    } else {
      var p, rest, t := ps[0], ps[1..], Shown(ps[1..]);
      assert ps == [p] + rest && out == [out[0]] + out[1..];
      UnescapeByPieces(rest, out[1..]);
      assert (exists i :: 0 <= i < |ps| && ps[i].Escaped? && (out[i] == NUL || out[i] == '/'))
        <==> (p.Escaped? && (out[0] == NUL || out[0] == '/'))
             || exists i :: 0 <= i < |rest| && rest[i].Escaped? && (out[1..][i] == NUL || out[1..][i] == '/')
        by { FirstOrLater(ps, out); }
      OnePiece(p, t, out[0]);
    }
  }

  /** A slash or NUL is escaped at the start or later. */
  lemma FirstOrLater(ps: seq<Piece>, out: Text)
    requires ps != [] && |out| == |ps|
    ensures (exists i :: 0 <= i < |ps| && ps[i].Escaped? && (out[i] == NUL || out[i] == '/'))
       <==> (ps[0].Escaped? && (out[0] == NUL || out[0] == '/'))
            || exists i :: 0 <= i < |ps[1..]| && ps[1..][i].Escaped? && (out[1..][i] == NUL || out[1..][i] == '/')
  {
    if i :| 0 <= i < |ps| && ps[i].Escaped? && (out[i] == NUL || out[i] == '/') {
      if i > 0 { assert ps[1..][i - 1] == ps[i] && out[1..][i - 1] == out[i]; }
    }
    if i :| 0 <= i < |ps[1..]| && ps[1..][i].Escaped? && (out[1..][i] == NUL || out[1..][i] == '/') {
      assert ps[1..][i] == ps[i + 1] && out[1..][i] == out[i + 1];
    }
  }

  lemma OnePiece(p: Piece, t: Text, b: Byte)
    requires Stands(p, b)
    requires p.Plain? ==> !(p.c == '%' && |t| >= 2 && IsDigit(t[0]) && IsDigit(t[1]))
    ensures var s := (match p case Plain(c) => [c] case Escaped(hi, lo) => ['%', hi, lo]) + t;
            && Unescape(s) == [b] + Unescape(t)
            && (BadEscape(s) <==> p == Plain('%') || BadEscape(t))
            && (BadPath(s) <==> (p.Escaped? && (b == NUL || b == '/')) || BadPath(t))
  {
    hide IsXDigit, IsDigit, X2C, DigitIs;
    match p {
      case Plain(c) =>
        assert ([c] + t)[1..] == t;
        if c == '%' && |t| >= 2 {
          DigitsByTable(t[0]);
          DigitsByTable(t[1]);
        }
      case Escaped(hi, lo) =>
        EscapeStands(p, b);
        assert (['%', hi, lo] + t)[3..] == t;
    }
  }

  /** Every text has its pieces. */
  lemma {:induction false} PiecesOf(s: Text) returns (ps: seq<Piece>, out: Text)
    ensures Fits(ps) && AllStand(ps, out) && Shown(ps) == s
    decreases |s|
  {
    hide IsXDigit, IsDigit, X2C, DigitIs, DigitValue;
    if s == [] {
      ps, out := [], [];
    } else if StartsEscaped(s) {
      var rest, more := PiecesOf(s[3..]);
      var p, b := Escaped(s[1], s[2]), X2C(s[1], s[2]);
      DigitsByTable(s[1]);
      DigitsByTable(s[2]);
      ps, out := [p] + rest, [b] + more;
      assert Stands(p, b) by { assert b as int == 16 * DigitValue(s[1]) + DigitValue(s[2]) by { ValueOf(s[1], s[2]); } }
      assert ps[1..] == rest && s == ['%', s[1], s[2]] + s[3..];
    } else {
      var rest, more := PiecesOf(s[1..]);
      ps, out := [Plain(s[0])] + rest, [s[0]] + more;
      assert ps[1..] == rest && s == [s[0]] + s[1..];
      if |s| >= 3 {
        DigitsByTable(s[1]);
        DigitsByTable(s[2]);
      }
    }
  }

  lemma ValueOf(hi: Byte, lo: Byte)
    requires IsXDigit(hi) && IsXDigit(lo)
    ensures X2C(hi, lo) as int == 16 * DigitValue(hi) + DigitValue(lo)
  {
    hide IsXDigit, DigitValue;
  }

  // ----- escaping -----

  /** How a byte is written: as itself, or as two lower-case digits. */
  ghost predicate WrittenAs(c: Byte, p: Piece, plusToo: bool) {
    if c == NUL || (IsSafe(c) && !(plusToo && c == '+')) then p == Plain(c)
    else p.Escaped? && Stands(p, c) && p.hi in LOWER_DIGITS && p.lo in LOWER_DIGITS
  }

  ghost predicate AllWritten(s: Text, ps: seq<Piece>, plusToo: bool) {
    |ps| == |s| && forall i :: 0 <= i < |s| ==> WrittenAs(s[i], ps[i], plusToo)
  }

  lemma {:induction false} EscapeByPieces(s: Text) returns (ps: seq<Piece>)
    ensures AllWritten(s, ps, false) && Shown(ps) == Escape(s)
    decreases |s|
  {
    hide WrittenAs, EscapeByte;
    if s == [] {
      ps := [];
    } else {
      var rest := EscapeByPieces(s[1..]);
      var p := PieceOfByte(s[0]);
      ps := [p] + rest;
      assert ps[1..] == rest && forall i :: 1 <= i < |s| ==> s[i] == s[1..][i - 1] && ps[i] == rest[i - 1];
    }
  }

  lemma PieceOfByte(c: Byte) returns (p: Piece)
    ensures WrittenAs(c, p, false)
    ensures EscapeByte(c) == match p case Plain(d) => [d] case Escaped(hi, lo) => ['%', hi, lo]
  {
    SafeByTable(c);
    hide NeedsEscape, IsSafe;
    if NeedsEscape(c) {
      var h, l := c as int / 16, c as int % 16;
      p := Escaped(HexDigit(h), HexDigit(l));
      WrittenDigit(h);
      WrittenDigit(l);
      hide HexDigit;
      assert DigitIs(p.hi, h) && DigitIs(p.lo, l);
      assert c as int == 16 * h + l;
    } else {
      p := Plain(c);
    }
  }

  /** The default codec writes a plus sign as an escape too. */
  lemma {:induction false} EncodeByPieces(codec: Codec, s: Text) returns (ps: seq<Piece>)
    requires NUL !in s
    ensures AllWritten(s, ps, codec.Default?) && Shown(ps) == Encoded(codec, s)
  {
    hide Escape, Replaced, Shown, AllWritten;
    CStringWhole(s);
    ps := EscapeByPieces(s);
    if codec.Default? { ps := PlusByPieces(s, ps); }
  }

  lemma {:induction false} PlusByPieces(s: Text, ps: seq<Piece>) returns (qs: seq<Piece>)
    requires AllWritten(s, ps, false)
    ensures AllWritten(s, qs, true) && Shown(qs) == Replaced(Shown(ps), '+', "%2b")
    decreases |s|
  {
    hide WrittenAs, Stands, DigitIs;
    if s == [] {
      qs := [];
    } else {
      var p, t := ps[0], Shown(ps[1..]);
      assert AllWritten(s[1..], ps[1..], false);
      var rest := PlusByPieces(s[1..], ps[1..]);
      assert WrittenAs(s[0], p, false);
      var q := if p == Plain('+') then Escaped('2', 'b') else p;
      PlusPiece(s[0], p, q, t);
      qs := [q] + rest;
      assert qs[1..] == rest && forall i :: 1 <= i < |s| ==> s[i] == s[1..][i - 1] && qs[i] == rest[i - 1];
    }
  }

  lemma PlusIsWritten()
    ensures WrittenAs('+', Escaped('2', 'b'), true)
  {
    assert LOWER_DIGITS[2] == '2' && LOWER_DIGITS[11] == 'b';
    assert DigitIs('2', 2) && DigitIs('b', 11);
  }

  lemma EscapedAsDigits(c: Byte, p: Piece)
    requires p.Escaped? && WrittenAs(c, p, false)
    ensures p.hi != '+' && p.lo != '+' && WrittenAs(c, p, true)
  {
    hide Stands, IsSafe;
  }

  lemma PlusPiece(c: Byte, p: Piece, q: Piece, t: Text)
    requires WrittenAs(c, p, false) && q == if p == Plain('+') then Escaped('2', 'b') else p
    ensures WrittenAs(c, q, true)
    ensures var shown, written := match p case Plain(d) => [d] case Escaped(hi, lo) => ['%', hi, lo],
                                  match q case Plain(d) => [d] case Escaped(hi, lo) => ['%', hi, lo];
            Replaced(shown + t, '+', "%2b") == written + Replaced(t, '+', "%2b")
  {
    PlusIsWritten();
    match p {
      case Plain(d) =>
        ReplacedConcat([d], t, '+', "%2b");
        assert [d][1..] == [] && Replaced([], '+', "%2b") == [];
      case Escaped(hi, lo) =>
        hide WrittenAs, Replaced;
        assert hi != '+' && lo != '+' by { EscapedAsDigits(c, p); }
        ReplacedConcat(['%', hi, lo], t, '+', "%2b");
        ReplacedNothing(['%', hi, lo], '+', "%2b");
        EscapedAsDigits(c, p);
    }
  }

  /** Escapes may be written in either case: any digits that stand for the bytes of s read as s. */
  lemma EitherCaseReads(s: Text, ps: seq<Piece>)
    requires Fits(ps) && AllStand(ps, s) && Plain('%') !in ps
    requires forall i :: 0 <= i < |s| && s[i] == '/' ==> ps[i].Escaped?
    ensures Unescape(Shown(ps)) == s
    ensures NUL !in s ==> Verdict(Shown(ps)) == if '/' in s then NOT_FOUND else OK
  {
    hide Fits, Stands;
    UnescapeByPieces(ps, s);
  }

  // ----- the codecs -----

  /** The byte that a piece stands for in a query string: the default codec reads a plus sign as a space. */
  ghost predicate Means(codec: Codec, p: Piece, b: Byte) {
    if codec.Default? && p == Plain('+') then b == ' ' else Stands(p, b)
  }

  /** What decoding makes of a text, piece by piece. */
  lemma {:induction false} DecodeByPieces(codec: Codec, ps: seq<Piece>, out: Text)
    requires Fits(ps) && NUL !in Shown(ps)
    requires |out| == |ps| && forall i :: 0 <= i < |ps| ==> Means(codec, ps[i], out[i])
    ensures Decoded(codec, Shown(ps)) == CString(out)
  {
    hide CString, Unescape, Shown, Fits, Stands, Replaced;
    if codec.Apache? {
      CStringWhole(Shown(ps));
      UnescapeByPieces(ps, out);
    } else {
      var qs := Spaced(ps);
      SpacedShown(ps);
      CStringWhole(Shown(qs));
      assert AllStand(qs, out) by { SpaceStands(); }
      UnescapeByPieces(qs, out);
    }
  }

  function Spaced(ps: seq<Piece>): seq<Piece> {
    seq(|ps|, i requires 0 <= i < |ps| => if ps[i] == Plain('+') then Plain(' ') else ps[i])
  }

  lemma SpaceStands()
    ensures Stands(Plain(' '), ' ')
  {
  }

  lemma {:induction false} ReplacedByOne(t: Text, c: Byte, d: Byte)
    ensures var u := Replaced(t, c, [d]);
            |u| == |t| && forall i :: 0 <= i < |t| ==> u[i] == if t[i] == c then d else t[i]
    decreases |t|
  {
    if t == [] {
    } else {
      ReplacedByOne(t[1..], c, d);
    }
  }

  /** Neither digits nor percent signs are touched, at the start of what follows either. */
  lemma SpacedFirst(p: Piece, t: Text)
    requires p.Escaped? ==> IsDigit(p.hi) && IsDigit(p.lo)
    ensures var shown := match p case Plain(c) => [c] case Escaped(hi, lo) => ['%', hi, lo];
            Replaced(shown + t, '+', " ")
            == (match p case Plain(c) => [if c == '+' then ' ' else c] case Escaped(hi, lo) => ['%', hi, lo])
               + Replaced(t, '+', " ")
  {
    hide Replaced, IsDigit;
    NoSigns();
    match p {
      case Plain(c) =>
        ReplacedConcat([c], t, '+', " ");
        ReplacedByOne([c], '+', ' ');
        assert Replaced([c], '+', " ") == [if c == '+' then ' ' else c];
      case Escaped(hi, lo) =>
        ReplacedConcat(['%', hi, lo], t, '+', " ");
        ReplacedNothing(['%', hi, lo], '+', " ");
    }
  }

  lemma NoSigns()
    ensures !IsDigit('+') && !IsDigit(' ')
  {
  }

  lemma {:induction false} SpacedShown(ps: seq<Piece>)
    requires Fits(ps)
    ensures Fits(Spaced(ps)) && Shown(Spaced(ps)) == Replaced(Shown(ps), '+', " ")
    ensures NUL !in Shown(ps) ==> NUL !in Shown(Spaced(ps))
    decreases |ps|
  {
    hide Replaced, IsDigit;
    if ps == [] {
      ReplacedNothing([], '+', " ");
    } else {
      var p, rest := ps[0], ps[1..];
      var q := if p == Plain('+') then Plain(' ') else p;
      SpacedShown(rest);
      assert Spaced(ps) == [q] + Spaced(rest) && Spaced(ps)[1..] == Spaced(rest);
      SpacedFirst(p, Shown(rest));
      ReplacedByOne(Shown(rest), '+', ' ');
      NoSigns();
    }
  }

  /** Decoding stops at a NUL. */
  lemma DecodeStops(codec: Codec, s: Text)
    ensures Decoded(codec, s) == Decoded(codec, CString(s))
  {
    hide Unescape;
    CStringIsPrefix(s);
    CStringWhole(CString(s));
    if codec.Default? { ReplacedKeepsNul(s); }
  }

  lemma {:induction false} ReplacedKeepsNul(s: Text)
    ensures CString(Replaced(s, '+', " ")) == CString(Replaced(CString(s), '+', " "))
    decreases |s|
  {
    if s == [] || s[0] == NUL {
    } else {
      ReplacedKeepsNul(s[1..]);
      assert CString(s)[1..] == CString(s[1..]);
    }
  }
}
