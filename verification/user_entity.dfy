/** The `User` aggregate: identity, contact and role fields with the two
    timestamps, built and changed only through its own operations. */
module Users {
  import opened Wrappers
  import opened Text
  import UserIds
  import Emails
  import UserNames
  import UserRoles

  /** Timestamps are milliseconds; the clock is a parameter of every operation that reads it. */
  type Timestamp = int

  datatype User = User(
    id: UserIds.UserId,
    email: Emails.Email,
    name: UserNames.UserName,
    role: UserRoles.Role,
    createdAt: Timestamp,
    updatedAt: Timestamp)

  /** A failure of one of the value-object constructors. */
  datatype ValidationError =
    | BadId(idError: UserIds.IdError)
    | BadEmail(emailError: Emails.EmailError)
    | BadName(nameError: UserNames.NameError)
    | BadRole(roleError: UserRoles.RoleError)

  function Message(e: ValidationError): string {
    match e
    case BadId(x) => UserIds.Message(x)
    case BadEmail(x) => Emails.Message(x)
    case BadName(x) => UserNames.Message(x)
    case BadRole(x) => UserRoles.Message(x)
  }

  /** Every value object inside the user is one its constructor accepts. */
  predicate Valid(u: User) {
    UserIds.Valid(u.id) && Emails.Valid(u.email) && UserNames.Valid(u.name)
  }

  /** The flat record written to storage (`toPersistence`, `reconstitute`). */
  datatype PersistedUser = PersistedUser(
    id: string,
    email: string,
    name: string,
    role: UserRoles.Role,
    createdAt: Timestamp,
    updatedAt: Timestamp)

  /** `User.create`: builds the id (supplied, else `generatedId`), the email, the
      name and the role (USER when absent or empty) in that order, stamping both
      timestamps with `now`. */
  function Create(email: string, name: string, role: Option<string>, id: Option<string>,
                  generatedId: string, now: Timestamp): (r: Result<User, ValidationError>)
    ensures r.Ok? <==>
      && UserIds.Create(id, generatedId).Ok?
      && Emails.Create(email).Ok?
      && UserNames.Create(name).Ok?
      && UserRoles.FromOptional(role).Ok?
    ensures r.Ok? ==> Valid(r.value)
    ensures r.Ok? ==> r.value.createdAt == now && r.value.updatedAt == now
    ensures r.Ok? ==> r.value.email.value == email && r.value.name.value == Trim(name)
    ensures r.Ok? && id.Some? ==> r.value.id.value == id.value
    ensures r.Ok? && id.None? ==> r.value.id.value == generatedId
    ensures r.Ok? && (role.None? || role.value == "") ==> r.value.role == UserRoles.USER
    ensures r.Ok? ==> UserRoles.FromOptional(role).Ok? && r.value.role == UserRoles.FromOptional(role).value
  {
    match UserIds.Create(id, generatedId)
    case Err(e) => Err(BadId(e))
    case Ok(uid) =>
      match Emails.Create(email)
      case Err(e) => Err(BadEmail(e))
      case Ok(em) =>
        match UserNames.Create(name)
        case Err(e) => Err(BadName(e))
        case Ok(nm) =>
          UserNames.AcceptedIsTrimmed(name);
          match UserRoles.FromOptional(role)
          case Err(e) => Err(BadRole(e))
          case Ok(rl) => Ok(User(uid, em, nm, rl, now, now))
  }

  /** The first failing check decides the error: id, then email, then name, then role. */
  lemma CreateErrorOrder(email: string, name: string, role: Option<string>, id: Option<string>,
                         generatedId: string, now: Timestamp)
    ensures UserIds.Create(id, generatedId).Err? ==>
      Create(email, name, role, id, generatedId, now) == Err(BadId(UserIds.Create(id, generatedId).error))
    ensures UserIds.Create(id, generatedId).Ok? && Emails.Create(email).Err? ==>
      Create(email, name, role, id, generatedId, now) == Err(BadEmail(Emails.Create(email).error))
    ensures UserIds.Create(id, generatedId).Ok? && Emails.Create(email).Ok? && UserNames.Create(name).Err? ==>
      Create(email, name, role, id, generatedId, now) == Err(BadName(UserNames.Create(name).error))
    ensures UserIds.Create(id, generatedId).Ok? && Emails.Create(email).Ok? && UserNames.Create(name).Ok? &&
            UserRoles.FromOptional(role).Err? ==>
      Create(email, name, role, id, generatedId, now) == Err(BadRole(UserRoles.FromOptional(role).error))
  {
  }

  /** `User.reconstitute`: rebuilds the value objects from a stored record and keeps its timestamps. */
  function Reconstitute(p: PersistedUser): (r: Result<User, ValidationError>)
    ensures r.Ok? <==> !IsBlank(p.id) && Emails.Create(p.email).Ok? && UserNames.Create(p.name).Ok?
    ensures r.Ok? ==> Valid(r.value)
    ensures r.Ok? ==> r.value.createdAt == p.createdAt && r.value.updatedAt == p.updatedAt
  {
    match UserIds.Create(Some(p.id), "")
    case Err(e) => Err(BadId(e))
    case Ok(uid) =>
      match Emails.Create(p.email)
      case Err(e) => Err(BadEmail(e))
      case Ok(em) =>
        match UserNames.Create(p.name)
        case Err(e) => Err(BadName(e))
        case Ok(nm) =>
          UserNames.AcceptedIsTrimmed(p.name);
          Ok(User(uid, em, nm, p.role, p.createdAt, p.updatedAt))
  }

  /** `toPersistence`: the primitive values of every field. */
  function ToPersistence(u: User): PersistedUser {
    PersistedUser(u.id.value, u.email.value, u.name.value, u.role, u.createdAt, u.updatedAt)
  }

  /** `User.equals`: identity is the id alone. */
  predicate Equals(a: User, b: User) {
    UserIds.Equals(a.id, b.id)
  }

  /** Two users are equal exactly when their ids are, whatever their other fields hold. */
  lemma EqualsIsIdentity(a: User, b: User)
    ensures Equals(a, b) <==> a.id == b.id
    ensures Equals(a, a.(email := b.email, name := b.name, role := b.role,
                         createdAt := b.createdAt, updatedAt := b.updatedAt))
  {
  }

  /** Storing a valid user and loading it back yields the same user. */
  lemma {:induction false} PersistenceRoundTrip(u: User)
    requires Valid(u)
    ensures Reconstitute(ToPersistence(u)) == Ok(u)
    ensures Equals(Reconstitute(ToPersistence(u)).value, u)
  {
    assert Emails.Create(u.email.value) == Ok(u.email);
  }

  /** Loading a stored record and storing it again gives the record back, with its name trimmed. */
  lemma ReconstituteThenPersist(p: PersistedUser)
    requires Reconstitute(p).Ok?
    ensures ToPersistence(Reconstitute(p).value) == p.(name := Trim(p.name))
  {
  }

  /** `updateName`: replaces the name and stamps `updatedAt`. */
  function UpdateName(u: User, n: UserNames.UserName, now: Timestamp): (r: User)
    requires UserNames.Valid(n)
    ensures r.name == n && r.updatedAt == now
    ensures r.(name := u.name, updatedAt := u.updatedAt) == u
    ensures Valid(u) ==> Valid(r)
  {
    u.(name := n, updatedAt := now)
  }

  /** `updateEmail`: replaces the email and stamps `updatedAt`. */
  function UpdateEmail(u: User, e: Emails.Email, now: Timestamp): (r: User)
    requires Emails.Valid(e)
    ensures r.email == e && r.updatedAt == now
    ensures r.(email := u.email, updatedAt := u.updatedAt) == u
    ensures Valid(u) ==> Valid(r)
  {
    u.(email := e, updatedAt := now)
  }

  /** `updateRole`: replaces the role and stamps `updatedAt`. */
  function UpdateRole(u: User, role: UserRoles.Role, now: Timestamp): (r: User)
    ensures r.role == role && r.updatedAt == now
    ensures r.(role := u.role, updatedAt := u.updatedAt) == u
    ensures Valid(u) ==> Valid(r)
  {
    u.(role := role, updatedAt := now)
  }

  /** A setter keeps the user's identity and creation time, and with a later clock
      each one moves `updatedAt` forward. */
  lemma SettersKeepIdentity(u: User, n: UserNames.UserName, e: Emails.Email,
                            role: UserRoles.Role, now: Timestamp)
    requires UserNames.Valid(n) && Emails.Valid(e)
    ensures Equals(UpdateName(u, n, now), u) && UpdateName(u, n, now).createdAt == u.createdAt
    ensures Equals(UpdateEmail(u, e, now), u) && UpdateEmail(u, e, now).createdAt == u.createdAt
    ensures Equals(UpdateRole(u, role, now), u) && UpdateRole(u, role, now).createdAt == u.createdAt
    ensures now > u.updatedAt ==>
      && UpdateName(u, n, now).updatedAt > u.updatedAt
      && UpdateEmail(u, e, now).updatedAt > u.updatedAt
      && UpdateRole(u, role, now).updatedAt > u.updatedAt
  {
  }

  predicate IsAdmin(u: User) {
    UserRoles.IsAdmin(u.role)
  }

  /** `canManageUsers`: currently the same test as `isAdmin`. */
  predicate CanManageUsers(u: User) {
    IsAdmin(u)
  }

  /** Managing users is reserved to the ADMIN role. */
  lemma CanManageUsersIffAdmin(u: User)
    ensures CanManageUsers(u) <==> IsAdmin(u)
    ensures IsAdmin(u) <==> u.role == UserRoles.ADMIN
  {
  }

  /** Omitting the role yields USER, and both timestamps equal the clock. */
  lemma CreateDefaultsRole(email: string, name: string, generatedId: string, now: Timestamp)
    requires Create(email, name, None, None, generatedId, now).Ok?
    ensures var u := Create(email, name, None, None, generatedId, now).value;
      u.role == UserRoles.USER && !IsAdmin(u) && u.createdAt == u.updatedAt == now
  {
  }
}
