/** The `UserRole` value object: the closed enumeration USER / ADMIN. */
module UserRoles {
  import opened Wrappers

  datatype Role = USER | ADMIN

  datatype RoleError = InvalidRole(given: string)

  function Message(e: RoleError): string {
    "Invalid user role: " + e.given
  }

  /** The enum's string value. */
  function Name(r: Role): string {
    match r
    case USER => "USER"
    case ADMIN => "ADMIN"
  }

  /** `UserRole.create` applied to a raw string: only the two enum values pass. */
  function Parse(s: string): (r: Result<Role, RoleError>)
    ensures r.Ok? <==> s == "USER" || s == "ADMIN"
    ensures r.Ok? ==> Name(r.value) == s
    ensures r.Err? ==> r.error == InvalidRole(s)
  {
    if s == "USER" then Ok(USER)
    else if s == "ADMIN" then Ok(ADMIN)
    else Err(InvalidRole(s))
  }

  /** Every role survives a trip through its string value. */
  lemma ParseName(r: Role)
    ensures Parse(Name(r)) == Ok(r)
  {
  }

  /** `role || UserRoleEnum.USER` followed by `UserRole.create`: an absent or
      empty role means USER. */
  function FromOptional(o: Option<string>): (r: Result<Role, RoleError>)
    ensures o.None? || o.value == "" ==> r == Ok(USER)
    ensures o.Some? && o.value != "" ==> r == Parse(o.value)
  {
    if o.None? || o.value == "" then Ok(USER) else Parse(o.value)
  }

  predicate IsAdmin(r: Role) {
    r == ADMIN
  }

  predicate IsUser(r: Role) {
    r == USER
  }

  /** Exactly one of the two role predicates holds. */
  lemma ExactlyOneRole(r: Role)
    ensures IsAdmin(r) != IsUser(r)
  {
  }

  /** `UserRole.createUser`. */
  function CreateUser(): (r: Role)
    ensures IsUser(r) && !IsAdmin(r)
  {
    USER
  }

  /** `UserRole.createAdmin`. */
  function CreateAdmin(): (r: Role)
    ensures IsAdmin(r) && !IsUser(r)
  {
    ADMIN
  }

  /** `UserRole.equals`: the tags agree. */
  predicate Equals(a: Role, b: Role) {
    Name(a) == Name(b)
  }

  /** Comparing the string values is the same as comparing the roles. */
  lemma EqualsIsTagEquality(a: Role, b: Role)
    ensures Equals(a, b) <==> a == b
  {
  }
}
