/** Byte strings, and the C strings found in them. */
module Bytes {
  type Byte = c: char | c as int < 256 witness 'A'

  type Text = seq<Byte>

  const NUL: Byte := '\0'

  const UPPER_LETTERS: Text := "ABCDEFGHIJKLMNOPQRSTUVWXYZ"
  const LOWER_LETTERS: Text := "abcdefghijklmnopqrstuvwxyz"

  lemma UpperLetter(i: nat)
    requires i < 26
    ensures UPPER_LETTERS[i] as int == 65 + i
  {
  }

  lemma LowerLetter(i: nat)
    requires i < 26
    ensures LOWER_LETTERS[i] as int == 97 + i
  {
  }

  /** The letters by their codes. */
  lemma LettersByTable(c: Byte)
    ensures c in UPPER_LETTERS <==> 'A' <= c <= 'Z'
    ensures c in LOWER_LETTERS <==> 'a' <= c <= 'z'
  {
    hide UPPER_LETTERS, LOWER_LETTERS;
    LetterCounts();
    if 'A' <= c <= 'Z' { UpperLetter(c as int - 65); }
    if 'a' <= c <= 'z' { LowerLetter(c as int - 97); }
    if c in UPPER_LETTERS {
      var i :| 0 <= i < 26 && UPPER_LETTERS[i] == c;
      UpperLetter(i);
    }
    if c in LOWER_LETTERS {
      var i :| 0 <= i < 26 && LOWER_LETTERS[i] == c;
      LowerLetter(i);
    }
  }

  lemma LetterCounts()
    ensures |UPPER_LETTERS| == 26 == |LOWER_LETTERS|
  {
  }

  /** The bytes before the first NUL: what a C string function sees. */
  function CString(s: Text): Text {
    if s == [] || s[0] == NUL then [] else [s[0]] + CString(s[1..])
  }

  lemma {:induction false} CStringSplits(s: Text, n: nat)
    requires n <= |s| && NUL !in s[..n]
    ensures CString(s) == s[..n] + CString(s[n..])
    decreases n
  {
    if n == 0 {
      assert s[0..] == s && s[..0] + CString(s) == CString(s);
    } else {
      assert s[0] == s[..n][0] && s[1..][..n - 1] == s[..n][1..] && s[1..][n - 1..] == s[n..];
      CStringSplits(s[1..], n - 1);
      assert s[..n] == [s[0]] + s[..n][1..];
    }
  }

  /** A string without NUL is seen whole. */
  lemma CStringWhole(s: Text)
    ensures CString(s) == s <==> NUL !in s
  {
    CStringIsPrefix(s);
    if NUL !in s {
      CStringSplits(s, |s|);
    }
  }

  lemma {:induction false} CStringIsPrefix(s: Text)
    ensures var n := |CString(s)|; n <= |s| && CString(s) == s[..n] && NUL !in CString(s) && (n < |s| ==> s[n] == NUL)
    decreases |s|
  {
    if s != [] && s[0] != NUL {
      CStringIsPrefix(s[1..]);
    }
  }

  /** The bytes of s before the first c. */
  function Until(s: Text, c: Byte): (r: Text)
    ensures |r| <= |s| && r == s[..|r|] && c !in r && (|r| < |s| ==> s[|r|] == c)
  {
    if s == [] || s[0] == c then [] else [s[0]] + Until(s[1..], c)
  }

  lemma {:induction false} UntilSplits(s: Text, t: Text, c: Byte)
    requires c !in s && (t == [] || t[0] == c)
    ensures Until(s + t, c) == s
    decreases |s|
  {
    if s == [] {
      assert s + t == t;
    } else {
      assert (s + t)[1..] == s[1..] + t && s[0] in s;
      UntilSplits(s[1..], t, c);
    }
  }
}
