/** The `UserId` value object: an opaque identifier, generated when none is supplied. */
module UserIds {
  import opened Wrappers
  import opened Text

  datatype UserId = UserId(value: string)

  datatype IdError = IdEmpty

  function Message(e: IdError): string {
    "UserId cannot be empty"
  }

  /** `UserId.create`: the supplied value, or `generated` (the random UUID the
      source draws) when nothing is supplied; blank values are refused. */
  function Create(supplied: Option<string>, generated: string): (r: Result<UserId, IdError>)
    ensures supplied.Some? ==> (r.Ok? <==> !IsBlank(supplied.value))
    ensures supplied.None? ==> (r.Ok? <==> !IsBlank(generated))
    ensures r.Ok? && supplied.Some? ==> r.value.value == supplied.value
    ensures r.Ok? && supplied.None? ==> r.value.value == generated
  {
    var v := supplied.GetOr(generated);
    TrimEmptyIffBlank(v);
    if |Trim(v)| == 0 then Err(IdEmpty) else Ok(UserId(v))
  }

  /** An identifier the constructor accepts. */
  predicate Valid(id: UserId) {
    !IsBlank(id.value)
  }

  /** A valid identifier is never the empty string, so the source's truthiness tests accept it. */
  lemma ValidIsNonEmpty(id: UserId)
    requires Valid(id)
    ensures id.value != ""
  {
  }

  /** `UserId.equals`: exact comparison of the stored values. */
  predicate Equals(a: UserId, b: UserId) {
    a.value == b.value
  }

  /** Identifier equality is an equivalence, and it is plain value equality. */
  lemma EqualsIsEquivalence(a: UserId, b: UserId, c: UserId)
    ensures Equals(a, a)
    ensures Equals(a, b) <==> Equals(b, a)
    ensures Equals(a, b) && Equals(b, c) ==> Equals(a, c)
    ensures Equals(a, b) <==> a == b
  {
  }
}
