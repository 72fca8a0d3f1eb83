/** String helpers shared by the value objects: an ASCII approximation of the
    regular-expression class `\s`, `trim`, ASCII case mapping, `join`, and the
    decimal rendering of a timestamp. */
module Text {

  /** The whitespace class `\s` and the characters `trim` removes, restricted to ASCII. */
  predicate IsWhitespace(c: char) {
    c == ' ' || c == '\t' || c == '\n' || c == '\r' || c == '\U{000B}' || c == '\U{000C}'
  }

  predicate IsAsciiLetter(c: char) {
    ('a' <= c <= 'z') || ('A' <= c <= 'Z')
  }

  /** Every character is whitespace (the empty string included). */
  predicate IsBlank(s: string) {
    forall k :: 0 <= k < |s| ==> IsWhitespace(s[k])
  }

  /** No character is whitespace. */
  predicate NoWhitespace(s: string) {
    forall k :: 0 <= k < |s| ==> !IsWhitespace(s[k])
  }

  /** `trimStart`: drops the leading whitespace and keeps the rest verbatim. */
  function TrimStart(s: string): (r: string)
    ensures |r| <= |s| && r == s[|s| - |r|..]
    ensures IsBlank(s[..|s| - |r|])
    ensures r == [] || !IsWhitespace(r[0])
  {
    if |s| > 0 && IsWhitespace(s[0]) then
      var r := TrimStart(s[1..]);
      assert s[1..][..|s[1..]| - |r|] == s[1..|s| - |r|];
      r
    else s
  }

  /** `trimEnd`: drops the trailing whitespace and keeps the rest verbatim. */
  function TrimEnd(s: string): (r: string)
    ensures |r| <= |s| && r == s[..|r|]
    ensures IsBlank(s[|r|..])
    ensures r == [] || !IsWhitespace(r[|r| - 1])
  {
    if |s| > 0 && IsWhitespace(s[|s| - 1]) then
      var t := s[..|s| - 1];
      var r := TrimEnd(t);
      assert forall k :: |r| <= k < |s| ==> IsWhitespace(s[k]) by {
        forall k | |r| <= k < |s| - 1 ensures IsWhitespace(s[k]) {
          assert s[k] == t[|r|..][k - |r|];
        }
      }
      r
    else s
  }

  /** The number of leading whitespace characters, which `trim` drops. */
  function LeadingBlanks(s: string): nat {
    |s| - |TrimStart(s)|
  }

  /** `String.prototype.trim`: the input with its surrounding whitespace removed. */
  function Trim(s: string): (r: string)
    ensures LeadingBlanks(s) + |r| <= |s|
    ensures r == s[LeadingBlanks(s)..LeadingBlanks(s) + |r|]
    ensures IsBlank(s[..LeadingBlanks(s)]) && IsBlank(s[LeadingBlanks(s) + |r|..])
    ensures r == [] || (!IsWhitespace(r[0]) && !IsWhitespace(r[|r| - 1]))
  {
    var t := TrimStart(s);
    var r := TrimEnd(t);
    assert t[|r|..] == s[LeadingBlanks(s) + |r|..];
    r
  }

  /** Trimming is empty exactly on blank input. */
  lemma {:induction false} TrimEmptyIffBlank(s: string)
    ensures |Trim(s)| == 0 <==> IsBlank(s)
  {
    var n := LeadingBlanks(s);
    if |Trim(s)| == 0 {
      forall k | 0 <= k < |s|
        ensures IsWhitespace(s[k])
      {
        assert s[..n][k] == s[k];
      }
    } else {
      var r := Trim(s);
      assert r[0] == s[n];
    }
  }

  /** A string without surrounding whitespace is its own trimmed form. */
  lemma TrimOfTrimmed(s: string)
    requires |s| > 0 ==> !IsWhitespace(s[0]) && !IsWhitespace(s[|s| - 1])
    ensures Trim(s) == s
  {
    assert TrimStart(s) == s;
    assert TrimEnd(s) == s;
  }

  /** Trimming an already trimmed string changes nothing. */
  lemma TrimIdempotent(s: string)
    ensures Trim(Trim(s)) == Trim(s)
  {
    var r := Trim(s);
    assert TrimStart(r) == r;
    assert TrimEnd(r) == r;
  }

  function ToLowerChar(c: char): char {
    if 'A' <= c <= 'Z' then (c as int + 32) as char else c
  }

  function ToUpperChar(c: char): char {
    if 'a' <= c <= 'z' then (c as int - 32) as char else c
  }

  /** `toLowerCase`, restricted to ASCII letters. */
  function ToLower(s: string): (r: string)
    ensures |r| == |s|
  {
    seq(|s|, k requires 0 <= k < |s| => ToLowerChar(s[k]))
  }

  /** `toUpperCase`, restricted to ASCII letters. */
  function ToUpper(s: string): (r: string)
    ensures |r| == |s|
  {
    seq(|s|, k requires 0 <= k < |s| => ToUpperChar(s[k]))
  }

  /** Upper-casing first does not change the lower-cased form. */
  lemma LowerOfUpper(s: string)
    ensures ToLower(ToUpper(s)) == ToLower(s)
  {
    assert forall k :: 0 <= k < |s| ==> ToLowerChar(ToUpperChar(s[k])) == ToLowerChar(s[k]);
  }

  /** Upper-casing keeps every character that is not a lower-case letter, so
      it keeps whitespace, `@` and `.` exactly where they were. */
  lemma UpperKeepsSeparators(s: string)
    ensures forall k :: 0 <= k < |s| ==> (IsWhitespace(ToUpper(s)[k]) <==> IsWhitespace(s[k]))
    ensures forall k :: 0 <= k < |s| ==> (ToUpper(s)[k] == '@' <==> s[k] == '@')
    ensures forall k :: 0 <= k < |s| ==> (ToUpper(s)[k] == '.' <==> s[k] == '.')
  {
  }

  /** `Array.prototype.join`. */
  function Join(parts: seq<string>, sep: string): (r: string)
    ensures parts == [] ==> r == []
    ensures |parts| == 1 ==> r == parts[0]
    ensures |parts| > 0 ==> |r| >= |parts[0]|
  {
    if |parts| == 0 then ""
    else if |parts| == 1 then parts[0]
    else parts[0] + sep + Join(parts[1..], sep)
  }

  /** Joining non-empty parts gives the empty string only for no parts. */
  lemma JoinEmptyIff(parts: seq<string>, sep: string)
    requires forall k :: 0 <= k < |parts| ==> |parts[k]| > 0
    ensures Join(parts, sep) == "" <==> parts == []
  {
    if |parts| > 0 {
      assert |parts[0]| > 0;
    }
  }

  predicate IsDigit(c: char) {
    '0' <= c <= '9'
  }

  function DigitChar(d: nat): (c: char)
    requires d < 10
    ensures IsDigit(c)
  {
    ('0' as int + d) as char
  }

  function DigitValue(c: char): (d: nat)
    requires IsDigit(c)
    ensures d < 10
  {
    c as int - '0' as int
  }

  /** The decimal rendering of a non-negative integer (template-literal interpolation). */
  function Decimal(n: nat): (r: string)
    ensures |r| > 0
    ensures forall k :: 0 <= k < |r| ==> IsDigit(r[k])
    decreases n
  {
    if n < 10 then [DigitChar(n)] else Decimal(n / 10) + [DigitChar(n % 10)]
  }

  /** The value of a string of decimal digits. */
  function DecimalValue(s: string): nat
    requires forall k :: 0 <= k < |s| ==> IsDigit(s[k])
  {
    if |s| == 0 then 0
    else 10 * DecimalValue(s[..|s| - 1]) + DigitValue(s[|s| - 1])
  }

  /** Reading the decimal rendering back yields the number: the rendering loses nothing. */
  lemma {:induction false} DecimalRoundTrip(n: nat)
    ensures DecimalValue(Decimal(n)) == n
    decreases n
  {
    var r := Decimal(n);
    if n >= 10 {
      DecimalRoundTrip(n / 10);
      assert r[..|r| - 1] == Decimal(n / 10);
    }
  }

  /** `c` occurs nowhere in `s[lo..hi]`. */
  predicate NoneIn(s: string, c: char, lo: int, hi: int)
    requires 0 <= lo && hi <= |s|
  {
    forall k :: lo <= k < hi ==> s[k] != c
  }

  /** `c` occurs somewhere in `s[lo..hi]`. */
  predicate SomeIn(s: string, c: char, lo: int, hi: int)
    requires 0 <= lo && hi <= |s|
  {
    exists k :: lo <= k < hi && s[k] == c
  }

  /** `indexOf`: the first position of `c` in `s`. */
  function IndexOf(s: string, c: char): (r: nat)
    requires SomeIn(s, c, 0, |s|)
    ensures r < |s| && s[r] == c && NoneIn(s, c, 0, r)
  {
    if s[0] == c then 0
    else
      assert SomeIn(s[1..], c, 0, |s| - 1) by {
        var k :| 0 <= k < |s| && s[k] == c;
        assert s[1..][k - 1] == c;
      }
      1 + IndexOf(s[1..], c)
  }

  /** The first position of a character is the only position before which it does not occur. */
  lemma IndexOfUnique(s: string, c: char, i: nat)
    requires i < |s| && s[i] == c && NoneIn(s, c, 0, i)
    ensures IndexOf(s, c) == i
  {
  }
}
