/** The `UserName` value object: a trimmed display name of 2 to 100 characters
    drawn from letters, whitespace, `-` and `'`. */
module UserNames {
  import opened Wrappers
  import opened Text

  const MinLength: nat := 2
  const MaxLength: nat := 100

  /** A name as stored: the trimmed input. */
  datatype UserName = UserName(value: string)

  /** Why a name was refused; the first failing check decides. */
  datatype NameError = NameEmpty | NameTooShort | NameTooLong | NameInvalidCharacters

  function Message(e: NameError): string {
    match e
    case NameEmpty => "User name cannot be empty"
    case NameTooShort => "User name must be at least 2 characters long"
    case NameTooLong => "User name cannot exceed 100 characters"
    case NameInvalidCharacters => "User name contains invalid characters"
  }

  /** The class `[a-zA-Z\s\-']`. */
  predicate IsNameChar(c: char) {
    IsAsciiLetter(c) || IsWhitespace(c) || c == '-' || c == '\''
  }

  predicate AllNameChars(s: string) {
    forall k :: 0 <= k < |s| ==> IsNameChar(s[k])
  }

  /** `UserName.create`: trims the input, then checks emptiness, the two length
      bounds and the character class, in that order. */
  function Create(s: string): (r: Result<UserName, NameError>)
    ensures r.Ok? <==> MinLength <= |Trim(s)| <= MaxLength && AllNameChars(Trim(s))
    ensures r.Ok? ==> r.value.value == Trim(s)
    ensures r == Err(NameEmpty) <==> IsBlank(s)
    ensures r == Err(NameTooShort) <==> |Trim(s)| == 1
    ensures r == Err(NameTooLong) <==> |Trim(s)| > MaxLength
    ensures r == Err(NameInvalidCharacters) <==>
      MinLength <= |Trim(s)| <= MaxLength && !AllNameChars(Trim(s))
  {
    TrimEmptyIffBlank(s);
    var t := Trim(s);
    if |t| == 0 then Err(NameEmpty)
    else if |t| < MinLength then Err(NameTooShort)
    else if |t| > MaxLength then Err(NameTooLong)
    else if !AllNameChars(t) then Err(NameInvalidCharacters)
    else Ok(UserName(t))
  }

  /** A name the constructor could have produced. */
  predicate Valid(n: UserName) {
    Create(n.value) == Ok(n)
  }

  /** An accepted name is its own trimmed form and carries no surrounding whitespace. */
  lemma AcceptedIsTrimmed(s: string)
    requires Create(s).Ok?
    ensures Valid(Create(s).value)
    ensures var v := Create(s).value.value;
      !IsWhitespace(v[0]) && !IsWhitespace(v[|v| - 1])
  {
    TrimIdempotent(s);
  }

  /** Creating a name from an accepted name's value gives the same name back. */
  lemma CreateIdempotent(s: string)
    requires Create(s).Ok?
    ensures Create(Create(s).value.value) == Create(s)
  {
    TrimIdempotent(s);
  }

  /** `UserName.equals`: exact, case-sensitive comparison of the stored values. */
  predicate Equals(a: UserName, b: UserName) {
    a.value == b.value
  }

  /** Names that differ only in case are accepted separately and are not equal. */
  lemma EqualsIsCaseSensitive()
    ensures Create("Ann").Ok? && Create("ann").Ok?
    ensures !Equals(Create("Ann").value, Create("ann").value)
  {
    TrimOfTrimmed("Ann");
    TrimOfTrimmed("ann");
  }
}
