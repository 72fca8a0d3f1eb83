/** The `Email` value object: a validated address whose equality ignores case. */
module Emails {
  import opened Wrappers
  import opened Text

  /** The longest accepted address. */
  const MaxLength: nat := 254

  /** An address as stored: the caller's string, verbatim. */
  datatype Email = Email(value: string)

  /** Why an address was refused; the first failing check decides. */
  datatype EmailError = EmailEmpty | EmailInvalidFormat | EmailTooLong

  function Message(e: EmailError): string {
    match e
    case EmailEmpty => "Email cannot be empty"
    case EmailInvalidFormat => "Invalid email format"
    case EmailTooLong => "Email is too long"
  }

  /** `s[lo..hi]` is a non-empty run of characters from the class `[^\s@]`. */
  predicate IsAtom(s: string, lo: int, hi: int)
    requires 0 <= lo && hi <= |s|
  {
    lo < hi && forall k :: lo <= k < hi ==> !IsWhitespace(s[k]) && s[k] != '@'
  }

  /** What the pattern `^[^\s@]+@[^\s@]+\.[^\s@]+$` accepts: a split of the
      whole string into atom, `@`, atom, `.`, atom. */
  ghost predicate MatchesPattern(s: string) {
    exists i, j :: 0 <= i < j < |s| && s[i] == '@' && s[j] == '.'
      && IsAtom(s, 0, i) && IsAtom(s, i + 1, j) && IsAtom(s, j + 1, |s|)
  }

  /** A linear check of the same shape: no whitespace, exactly one `@`, not
      first, and a `.` strictly inside the part after it. */
  predicate HasShape(s: string) {
    && NoWhitespace(s)
    && SomeIn(s, '@', 0, |s|)
    && var i := IndexOf(s, '@');
    && NoneIn(s, '@', i + 1, |s|)
    && 0 < i && i + 2 < |s|
    && SomeIn(s, '.', i + 2, |s| - 1)
  }

  lemma ShapeImpliesPattern(s: string)
    requires HasShape(s)
    ensures MatchesPattern(s)
  {
    var i := IndexOf(s, '@');
    var j :| i + 2 <= j < |s| - 1 && s[j] == '.';
    assert IsAtom(s, 0, i) && IsAtom(s, i + 1, j) && IsAtom(s, j + 1, |s|);
  }

  lemma PatternImpliesShape(s: string)
    requires MatchesPattern(s)
    ensures HasShape(s)
  {
    var i, j :| 0 <= i < j < |s| && s[i] == '@' && s[j] == '.'
      && IsAtom(s, 0, i) && IsAtom(s, i + 1, j) && IsAtom(s, j + 1, |s|);
    assert NoWhitespace(s) by {
      forall k | 0 <= k < |s|
        ensures !IsWhitespace(s[k])
      {
        if k < i {
        } else if i < k < j {
        } else if j < k {
        }
      }
    }
    IndexOfUnique(s, '@', i);
    assert NoneIn(s, '@', i + 1, |s|);
    assert SomeIn(s, '.', i + 2, |s| - 1);
  }

  /** The shape check accepts exactly the strings the pattern matches. */
  lemma ShapeMatchesPattern(s: string)
    ensures HasShape(s) <==> MatchesPattern(s)
  {
    if HasShape(s) {
      ShapeImpliesPattern(s);
    }
    if MatchesPattern(s) {
      PatternImpliesShape(s);
    }
  }

  /** The checks of the constructor, in their order: not blank, the pattern, the length. */
  predicate IsValid(s: string) {
    |Trim(s)| > 0 && HasShape(s) && |s| <= MaxLength
  }

  /** An address that the constructor would accept. */
  predicate Valid(e: Email) {
    IsValid(e.value)
  }

  /** `Email.create`: accepts a non-blank string matching the pattern and no longer
      than 254 characters, storing it untrimmed and in its original case. */
  function Create(s: string): (r: Result<Email, EmailError>)
    ensures r.Ok? <==> !IsBlank(s) && MatchesPattern(s) && |s| <= MaxLength
    ensures r.Ok? ==> r.value.value == s && Valid(r.value)
    ensures r == Err(EmailEmpty) <==> IsBlank(s)
    ensures r == Err(EmailInvalidFormat) <==> !IsBlank(s) && !MatchesPattern(s)
    ensures r == Err(EmailTooLong) <==> !IsBlank(s) && MatchesPattern(s) && |s| > MaxLength
  {
    TrimEmptyIffBlank(s);
    ShapeMatchesPattern(s);
    if |Trim(s)| == 0 then Err(EmailEmpty)
    else if !HasShape(s) then Err(EmailInvalidFormat)
    else if |s| > MaxLength then Err(EmailTooLong)
    else Ok(Email(s))
  }

  /** `Email.equals`: the two addresses agree after lower-casing. */
  predicate Equals(a: Email, b: Email) {
    ToLower(a.value) == ToLower(b.value)
  }

  /** Equality of addresses is an equivalence. */
  lemma EqualsIsEquivalence(a: Email, b: Email, c: Email)
    ensures Equals(a, a)
    ensures Equals(a, b) <==> Equals(b, a)
    ensures Equals(a, b) && Equals(b, c) ==> Equals(a, c)
  {
  }

  /** Exact equality of the stored strings implies `Equals`, but not the reverse. */
  lemma EqualsWeakerThanIdentity(a: Email, b: Email)
    ensures a.value == b.value ==> Equals(a, b)
    ensures Equals(Email("A@b.co"), Email("a@b.co")) && Email("A@b.co") != Email("a@b.co")
  {
    assert ToLower("A@b.co") == "a@b.co";
    assert ToLower("a@b.co") == "a@b.co";
  }

  /** Upper-casing keeps an address valid. */
  lemma UpperKeepsValid(s: string)
    requires IsValid(s)
    ensures IsValid(ToUpper(s))
  {
    var u := ToUpper(s);
    TrimEmptyIffBlank(s);
    TrimEmptyIffBlank(u);
    UpperKeepsBlank(s);
    ShapeMatchesPattern(s);
    UpperKeepsPattern(s);
    ShapeMatchesPattern(u);
  }

  /** Upper-casing keeps a string non-blank. */
  lemma UpperKeepsBlank(s: string)
    requires !IsBlank(s)
    ensures !IsBlank(ToUpper(s))
  {
    var k :| 0 <= k < |s| && !IsWhitespace(s[k]);
    UpperKeepsSeparators(s);
    assert !IsWhitespace(ToUpper(s)[k]);
  }

  /** Upper-casing keeps the `local@domain.tld` split. */
  lemma UpperKeepsPattern(s: string)
    requires MatchesPattern(s)
    ensures MatchesPattern(ToUpper(s))
  {
    var u := ToUpper(s);
    UpperKeepsSeparators(s);
    var i, j :| 0 <= i < j < |s| && s[i] == '@' && s[j] == '.'
      && IsAtom(s, 0, i) && IsAtom(s, i + 1, j) && IsAtom(s, j + 1, |s|);
    UpperKeepsAtom(s, 0, i);
    UpperKeepsAtom(s, i + 1, j);
    UpperKeepsAtom(s, j + 1, |s|);
    assert u[i] == '@' && u[j] == '.';
  }

  /** Upper-casing keeps a run free of whitespace and `@`. */
  lemma UpperKeepsAtom(s: string, lo: int, hi: int)
    requires 0 <= lo && hi <= |s| && IsAtom(s, lo, hi)
    ensures IsAtom(ToUpper(s), lo, hi)
  {
    UpperKeepsSeparators(s);
  }

  /** An accepted address and its upper-cased form are both accepted and equal. */
  lemma EqualsIgnoresCase(e: Email)
    requires Valid(e)
    ensures Create(ToUpper(e.value)).Ok?
    ensures Equals(e, Create(ToUpper(e.value)).value)
  {
    UpperKeepsValid(e.value);
    TrimEmptyIffBlank(ToUpper(e.value));
    ShapeMatchesPattern(ToUpper(e.value));
    LowerOfUpper(e.value);
  }

  /** The empty string is refused as empty. */
  lemma EmptyRejected()
    ensures Create("") == Err(EmailEmpty)
  {
  }

  /** A string without `@` is refused for its format. */
  lemma NoAtRejected()
    ensures Create("not-an-email") == Err(EmailInvalidFormat)
  {
    var s := "not-an-email";
    assert !IsWhitespace(s[0]);
    assert !SomeIn(s, '@', 0, |s|);
    ShapeMatchesPattern(s);
  }

  /** A domain without a dot is refused for its format. */
  lemma NoDotRejected()
    ensures Create("a@b") == Err(EmailInvalidFormat)
  {
    var s := "a@b";
    assert !IsWhitespace(s[0]);
    IndexOfUnique(s, '@', 1);
    ShapeMatchesPattern(s);
  }

  /** An address is accepted when it has no whitespace, its only `@` sits at
      `i > 0`, a `.` sits at `j` strictly inside the part after it, and it fits in 254 characters. */
  lemma AcceptedAt(s: string, i: nat, j: nat)
    requires 0 < i && i + 2 <= j < |s| - 1 && |s| <= MaxLength
    requires s[i] == '@' && s[j] == '.'
    requires NoWhitespace(s) && NoneIn(s, '@', 0, i) && NoneIn(s, '@', i + 1, |s|)
    ensures Create(s) == Ok(Email(s))
  {
    IndexOfUnique(s, '@', i);
    assert HasShape(s);
    TrimEmptyIffBlank(s);
    assert !IsWhitespace(s[0]);
  }

  /** `local@domain.tld` is accepted when the three parts are non-empty runs
      without whitespace, `@` or `.`, and the whole fits in 254 characters. */
  lemma DottedAddressAccepted(local: string, domain: string, tld: string)
    requires IsPart(local) && IsPart(domain) && IsPart(tld)
    requires |local| + |domain| + |tld| + 2 <= MaxLength
    ensures Create(local + "@" + domain + "." + tld) == Ok(Email(local + "@" + domain + "." + tld))
  {
    var s := local + "@" + domain + "." + tld;
    var i := |local|;
    var j := |local| + 1 + |domain|;
    assert s[i] == '@' && s[j] == '.';
    assert forall k :: 0 <= k < i ==> s[k] == local[k];
    assert forall k :: i < k < j ==> s[k] == domain[k - i - 1];
    assert forall k :: j < k < |s| ==> s[k] == tld[k - j - 1];
    assert IsAtom(s, 0, i) && IsAtom(s, i + 1, j) && IsAtom(s, j + 1, |s|);
    assert MatchesPattern(s);
    assert !IsWhitespace(s[i]);
  }

  /** A part of a dotted address: characters other than whitespace, `@` and `.`. */
  predicate IsPart(t: string) {
    |t| > 0 && forall k :: 0 <= k < |t| ==> !IsWhitespace(t[k]) && t[k] != '@' && t[k] != '.'
  }
}
