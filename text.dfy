/**
 * The few pieces of Python string behaviour the validators rely on:
 * `str.isspace`, `str.strip`, `str.split(sep)[0]`, `str.startswith`, the
 * ASCII character classes used by the regular expressions, and `\d`, which
 * in a `str` pattern matches any Unicode decimal digit.
 */
module Text {

  /** Python's `str.isspace()` on one character (Unicode White_Space plus the
      four information separators U+001C..U+001F). */
  predicate IsSpace(c: char)
  {
    || c == ' ' || c == '\t' || c == '\n' || c == '\r'
    || c == '\U{000B}' || c == '\U{000C}'
    || ('\U{001C}' <= c <= '\U{001F}')
    || c == '\U{0085}' || c == '\U{00A0}' || c == '\U{1680}'
    || ('\U{2000}' <= c <= '\U{200A}')
    || c == '\U{2028}' || c == '\U{2029}' || c == '\U{202F}'
    || c == '\U{205F}' || c == '\U{3000}'
  }

  predicate IsAsciiDigit(c: char) { '0' <= c <= '9' }

  /** `c` is one of the ten digits of the run whose zero is the code
      point `zero`. */
  predicate InRun(c: char, zero: int)
  {
    zero <= c as int < zero + 10
  }

  /** The class `\d` of a `str` pattern: any Unicode decimal digit
      (general category Nd of Unicode 15.0, the version of Python 3.12),
      given by the zero of each of its 68 runs of ten. */
  predicate IsDecimalDigit(c: char)
  {
    || InRun(c, 0x30) || InRun(c, 0x660) || InRun(c, 0x6F0) || InRun(c, 0x7C0) || InRun(c, 0x966)
    || InRun(c, 0x9E6) || InRun(c, 0xA66) || InRun(c, 0xAE6) || InRun(c, 0xB66) || InRun(c, 0xBE6)
    || InRun(c, 0xC66) || InRun(c, 0xCE6) || InRun(c, 0xD66) || InRun(c, 0xDE6) || InRun(c, 0xE50)
    || InRun(c, 0xED0) || InRun(c, 0xF20) || InRun(c, 0x1040) || InRun(c, 0x1090) || InRun(c, 0x17E0)
    || InRun(c, 0x1810) || InRun(c, 0x1946) || InRun(c, 0x19D0) || InRun(c, 0x1A80) || InRun(c, 0x1A90)
    || InRun(c, 0x1B50) || InRun(c, 0x1BB0) || InRun(c, 0x1C40) || InRun(c, 0x1C50) || InRun(c, 0xA620)
    || InRun(c, 0xA8D0) || InRun(c, 0xA900) || InRun(c, 0xA9D0) || InRun(c, 0xA9F0) || InRun(c, 0xAA50)
    || InRun(c, 0xABF0) || InRun(c, 0xFF10) || InRun(c, 0x104A0) || InRun(c, 0x10D30) || InRun(c, 0x11066)
    || InRun(c, 0x110F0) || InRun(c, 0x11136) || InRun(c, 0x111D0) || InRun(c, 0x112F0) || InRun(c, 0x11450)
    || InRun(c, 0x114D0) || InRun(c, 0x11650) || InRun(c, 0x116C0) || InRun(c, 0x11730) || InRun(c, 0x118E0)
    || InRun(c, 0x11950) || InRun(c, 0x11C50) || InRun(c, 0x11D50) || InRun(c, 0x11DA0) || InRun(c, 0x11F50)
    || InRun(c, 0x16A60) || InRun(c, 0x16AC0) || InRun(c, 0x16B50) || InRun(c, 0x1D7CE) || InRun(c, 0x1D7D8)
    || InRun(c, 0x1D7E2) || InRun(c, 0x1D7EC) || InRun(c, 0x1D7F6) || InRun(c, 0x1E140) || InRun(c, 0x1E2F0)
    || InRun(c, 0x1E4F0) || InRun(c, 0x1E950) || InRun(c, 0x1FBF0)
  }

  /** `\d` matches every ASCII digit, and more: the Arabic-Indic three too. */
  lemma DecimalDigitsExtendAscii(c: char)
    ensures IsAsciiDigit(c) ==> IsDecimalDigit(c)
    ensures IsDecimalDigit('\U{0663}') && !IsAsciiDigit('\U{0663}')
  {
    assert InRun('\U{0663}', 0x660);
    if IsAsciiDigit(c) {
      assert InRun(c, 0x30);
    }
  }
  predicate IsAsciiUpper(c: char) { 'A' <= c <= 'Z' }
  predicate IsAsciiLower(c: char) { 'a' <= c <= 'z' }

  /** The regular-expression class `[a-zA-Z0-9_]`. */
  predicate IsWordChar(c: char)
  {
    IsAsciiUpper(c) || IsAsciiLower(c) || IsAsciiDigit(c) || c == '_'
  }

  predicate AllDigits(s: string)
  {
    forall i :: 0 <= i < |s| ==> IsAsciiDigit(s[i])
  }

  predicate AllWordChars(s: string)
  {
    forall i :: 0 <= i < |s| ==> IsWordChar(s[i])
  }

  predicate Contains(s: string, c: char)
  {
    exists i :: 0 <= i < |s| && s[i] == c
  }

  predicate StartsWith(s: string, prefix: string)
  {
    |prefix| <= |s| && s[..|prefix|] == prefix
  }

  /** Python's `$` without MULTILINE matches at the very end of the string or
      just before a final newline: the text a pattern `^X$` must cover. */
  predicate EndAnchored(s: string, body: string)
  {
    s == body || s == body + "\n"
  }

  /** `s.lstrip()`: the longest suffix of `s` that does not start with
      whitespace; everything dropped is whitespace. */
  function StripLeft(s: string): (r: string)
    ensures |r| <= |s| && r == s[|s| - |r|..]
    ensures forall m :: 0 <= m < |s| - |r| ==> IsSpace(s[m])
    ensures r == [] || !IsSpace(r[0])
  {
    if |s| > 0 && IsSpace(s[0]) then StripLeft(s[1..]) else s
  }

  /** `s.rstrip()`: the longest prefix of `s` that does not end with
      whitespace; everything dropped is whitespace. */
  function StripRight(s: string): (r: string)
    ensures |r| <= |s| && r == s[..|r|]
    ensures forall m :: |r| <= m < |s| ==> IsSpace(s[m])
    ensures r == [] || !IsSpace(r[|r| - 1])
  {
    if |s| > 0 && IsSpace(s[|s| - 1]) then StripRight(s[..|s| - 1]) else s
  }

  /** `s.strip()`. */
  function Strip(s: string): string
  {
    StripRight(StripLeft(s))
  }

  /** A stripped string has no whitespace at either end. */
  lemma StripTrimsBothEnds(s: string)
    ensures Strip(s) == [] || (!IsSpace(Strip(s)[0]) && !IsSpace(Strip(s)[|Strip(s)| - 1]))
  {
    var l := StripLeft(s);
    var r := StripRight(l);
    if r != [] {
      assert r[0] == l[0];
    }
  }

  /** A string with no whitespace at either end is its own strip. */
  lemma StripKeepsTrimmed(s: string)
    requires s == [] || (!IsSpace(s[0]) && !IsSpace(s[|s| - 1]))
    ensures Strip(s) == s
  {
    assert StripLeft(s) == s;
  }

  /** `s.split(sep)[0]`: the text before the first `sep`, or all of `s`. */
  function FirstField(s: string, sep: char): (r: string)
    ensures |r| <= |s| && r == s[..|r|]
    ensures !Contains(r, sep)
    ensures |r| < |s| ==> s[|r|] == sep
  {
    if s == [] then []
    else if s[0] == sep then []
    else [s[0]] + FirstField(s[1..], sep)
  }

  /** The first field of `a`, the separator and anything after is `a`
      itself when `a` holds no separator. */
  lemma {:induction false} FirstFieldBeforeSeparator(a: string, sep: char, rest: string)
    requires !Contains(a, sep)
    ensures FirstField(a + [sep] + rest, sep) == a
  {
    if a != [] {
      assert !Contains(a[1..], sep) by {
        forall i | 0 <= i < |a[1..]| ensures a[1..][i] != sep {
          assert a[1..][i] == a[i + 1];
        }
      }
      FirstFieldBeforeSeparator(a[1..], sep, rest);
      assert (a + [sep] + rest)[1..] == a[1..] + [sep] + rest;
    }
  }
}
