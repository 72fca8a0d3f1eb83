/** The user application service: the five use cases over the repository,
    each a transition of the `Store` that either returns a response projection
    or fails with the exception the source throws. */
module UserApplicationService {
  import opened Wrappers
  import opened Text
  import Emails
  import UserNames
  import UserIds
  import UserRoles
  import Users
  import opened MockUserRepository
  import opened Numbers

  /** `CreateUserDto`. */
  datatype CreateUserRequest = CreateUserRequest(email: string, name: string, role: Option<string>)

  /** `UpdateUserDto`: every field may be left out. */
  datatype UpdateUserRequest = UpdateUserRequest(email: Option<string>, name: Option<string>, role: Option<string>)

  /** `UserResponseDto`: the user flattened to plain values. */
  datatype UserResponse = UserResponse(
    id: string,
    email: string,
    name: string,
    role: UserRoles.Role,
    createdAt: Users.Timestamp,
    updatedAt: Users.Timestamp)

  /** The exceptions a use case throws: `NotFoundException`, `ConflictException`,
      or the validation error of a value object. */
  datatype AppError =
    | NotFound(message: string)
    | Conflict(message: string)
    | Invalid(reason: Users.ValidationError)

  const DeletedMessage: string := "User deleted successfully"
  const TakenMessage: string := "Email is already taken by another user"

  function NotFoundMessage(id: string): string {
    "User with ID " + id + " not found"
  }

  /** `toResponseDto`. */
  function ToResponse(u: Users.User): UserResponse {
    UserResponse(u.id.value, u.email.value, u.name.value, u.role, u.createdAt, u.updatedAt)
  }

  /** The projection loses nothing: two users have the same response exactly when they are the same. */
  lemma ResponseDeterminesUser(u: Users.User, v: Users.User)
    ensures ToResponse(u) == ToResponse(v) <==> u == v
  {
    if ToResponse(u) == ToResponse(v) {
      assert u.id == UserIds.UserId(ToResponse(u).id) && v.id == UserIds.UserId(ToResponse(v).id);
      assert u.email == Emails.Email(ToResponse(u).email) && v.email == Emails.Email(ToResponse(v).email);
      assert u.name == UserNames.UserName(ToResponse(u).name) && v.name == UserNames.UserName(ToResponse(v).name);
    }
  }

  /** `createUser`: the address is checked first, an exact-string match in the
      index is a conflict, then the user is built (with `generatedId` as its id
      and USER when no role is given) and saved. */
  function CreateUser(s: Store, dto: CreateUserRequest, generatedId: string, now: Users.Timestamp):
    (r: Outcome<UserResponse, AppError>)
    ensures r.result.Err? ==> r.store == s
    ensures Emails.Create(dto.email).Err? ==> r.result == Err(Invalid(Users.BadEmail(Emails.Create(dto.email).error)))
    ensures Emails.Create(dto.email).Ok? && FindByEmail(s, Emails.Email(dto.email)).Some? ==>
      r.result == Err(Conflict("User with this email already exists"))
  {
    match Emails.Create(dto.email)
    case Err(e) => Outcome(s, Err(Invalid(Users.BadEmail(e))))
    case Ok(email) =>
      if FindByEmail(s, email).Some? then Outcome(s, Err(Conflict("User with this email already exists")))
      else
        match Users.Create(dto.email, dto.name, dto.role, None, generatedId, now)
        case Err(e) => Outcome(s, Err(Invalid(e)))
        case Ok(user) => Outcome(Save(s, user), Ok(ToResponse(user)))
  }

  /** What a successful `createUser` stores: one new user under the generated id,
      holding the requested address and the trimmed name, stamped with the clock,
      with role USER unless one was given, and echoed in the response. */
  lemma CreateUserStores(s: Store, dto: CreateUserRequest, generatedId: string, now: Users.Timestamp)
    requires CreateUser(s, dto, generatedId, now).result.Ok?
    ensures var r := CreateUser(s, dto, generatedId, now);
      && generatedId in r.store.users
      && r.store.users.Keys == s.users.Keys + {generatedId}
      && var u := r.store.users[generatedId];
      && r.result.value == ToResponse(u)
      && u.email.value == dto.email && u.name.value == Trim(dto.name)
      && u.createdAt == now && u.updatedAt == now
      && (dto.role.None? ==> u.role == UserRoles.USER)
      && UserRoles.FromOptional(dto.role).Ok? && u.role == UserRoles.FromOptional(dto.role).value
      && Users.Valid(u)
  {
    var user := Users.Create(dto.email, dto.name, dto.role, None, generatedId, now).value;
    SaveThenFind(s, user);
  }

  /** `createUser` fails exactly when the address is refused, someone holds that
      exact address, or the name, role or generated id is refused. */
  lemma CreateUserSucceedsIff(s: Store, dto: CreateUserRequest, generatedId: string, now: Users.Timestamp)
    requires Inv(s)
    ensures CreateUser(s, dto, generatedId, now).result.Ok? <==>
      && Users.Create(dto.email, dto.name, dto.role, None, generatedId, now).Ok?
      && forall id :: id in s.users ==> s.users[id].email.value != dto.email
  {
    FindByEmailExact(s, Emails.Email(dto.email));
  }

  /** A successful `createUser` with a fresh generated id keeps the repository
      consistent and adds exactly one user at the end of the order. */
  lemma CreateUserPreservesInv(s: Store, dto: CreateUserRequest, generatedId: string, now: Users.Timestamp)
    requires Inv(s) && AllValid(s) && generatedId !in s.users
    ensures Inv(CreateUser(s, dto, generatedId, now).store)
    ensures AllValid(CreateUser(s, dto, generatedId, now).store)
    ensures CreateUser(s, dto, generatedId, now).result.Ok? ==>
      && |CreateUser(s, dto, generatedId, now).store.users| == |s.users| + 1
      && CreateUser(s, dto, generatedId, now).store.order == s.order + [generatedId]
  {
    if CreateUser(s, dto, generatedId, now).result.Ok? {
      var user := Users.Create(dto.email, dto.name, dto.role, None, generatedId, now).value;
      var email := Emails.Email(dto.email);
      assert FindByEmail(s, email).None?;
      UserIds.ValidIsNonEmpty(user.id);
      SavePreservesInv(s, user);
      SaveKeepsValid(s, user);
    }
  }

  /** An address that differs from a stored one only in letter case is no
      conflict, although `Email.equals` calls the two equal. */
  lemma CaseVariantIsNoConflict(s: Store, dto: CreateUserRequest, generatedId: string, now: Users.Timestamp, holder: string)
    requires Inv(s) && holder in s.users
    requires Emails.Create(dto.email).Ok?
    requires Emails.Equals(s.users[holder].email, Emails.Email(dto.email))
    requires forall id :: id in s.users ==> s.users[id].email.value != dto.email
    ensures !CreateUser(s, dto, generatedId, now).result.Err? || !CreateUser(s, dto, generatedId, now).result.error.Conflict?
  {
    FindByEmailExact(s, Emails.Email(dto.email));
  }

  /** A page of responses with the repository's metadata. */
  datatype ResponsePage = ResponsePage(data: seq<UserResponse>, meta: PageMeta)

  /** `page || 1` and `limit || 10`: an absent or zero value takes the default. */
  function OrDefault(o: Option<nat>, default: nat): nat {
    if o.None? || o.value == 0 then default else o.value
  }

  /** `findAllUsers`: the repository's page, projected, with its metadata unchanged. */
  function FindAllUsers(s: Store, page: Option<nat>, limit: Option<nat>): (r: ResponsePage)
    requires OrderInMap(s)
    ensures var p := FindAll(s, OrDefault(page, 1), OrDefault(limit, 10));
      && r.meta == p.meta
      && |r.data| == |p.data|
      && forall k :: 0 <= k < |r.data| ==> r.data[k] == ToResponse(p.data[k])
  {
    var p := FindAll(s, OrDefault(page, 1), OrDefault(limit, 10));
    ResponsePage(seq(|p.data|, k requires 0 <= k < |p.data| => ToResponse(p.data[k])), p.meta)
  }

  /** Leaving the pagination out, or passing zeros, asks for the first ten users. */
  lemma FindAllUsersDefaults(s: Store, page: Option<nat>, limit: Option<nat>)
    requires OrderInMap(s)
    requires page.None? || page == Some(0)
    requires limit.None? || limit == Some(0)
    ensures FindAllUsers(s, page, limit).meta.page == 1
    ensures FindAllUsers(s, page, limit).meta.limit == 10
    ensures |FindAllUsers(s, page, limit).data| == Min(10, |s.order|)
    ensures forall k :: 0 <= k < |FindAllUsers(s, page, limit).data| ==>
      FindAllUsers(s, page, limit).data[k] == ToResponse(s.users[s.order[k]])
  {
    assert OrDefault(page, 1) == 1 && OrDefault(limit, 10) == 10;
    FirstPage(s, 10);
  }

  /** `findUserById`: a blank id is refused, an unknown one is not found. */
  function FindUserById(s: Store, id: string): (r: Result<UserResponse, AppError>)
    ensures r.Ok? <==> !IsBlank(id) && id in s.users
    ensures r.Ok? ==> r.value == ToResponse(s.users[id])
    ensures !IsBlank(id) && id !in s.users ==> r == Err(NotFound(NotFoundMessage(id)))
    ensures IsBlank(id) ==> r == Err(Invalid(Users.BadId(UserIds.IdEmpty)))
  {
    match UserIds.Create(Some(id), "")
    case Err(e) => Err(Invalid(Users.BadId(e)))
    case Ok(userId) =>
      match FindById(s, userId)
      case None => Err(NotFound(NotFoundMessage(id)))
      case Some(user) => Ok(ToResponse(user))
  }

  /** The email step of `updateUser`: only a supplied address that differs from
      the current one as a string is checked and applied; a user holding it
      exactly whose id is not the requested `userId` is a conflict. */
  function ApplyEmail(s: Store, user: Users.User, userId: string, email: Option<string>, now: Users.Timestamp):
    (r: Result<Users.User, AppError>)
    ensures !Truthy(email) || email.value == user.email.value ==> r == Ok(user)
    ensures Truthy(email) && email.value != user.email.value ==>
      (r.Ok? <==> Emails.Create(email.value).Ok? &&
                  !(FindByEmail(s, Emails.Create(email.value).value).Some? &&
                    FindByEmail(s, Emails.Create(email.value).value).value.id.value != userId))
    ensures Truthy(email) && email.value != user.email.value && Emails.Create(email.value).Err? ==>
      r == Err(Invalid(Users.BadEmail(Emails.Create(email.value).error)))
    ensures r.Ok? && Truthy(email) && email.value != user.email.value ==>
      Emails.Create(email.value).Ok? && r.value == Users.UpdateEmail(user, Emails.Create(email.value).value, now)
  {
    if Truthy(email) && email.value != user.email.value then
      match Emails.Create(email.value)
      case Err(e) => Err(Invalid(Users.BadEmail(e)))
      case Ok(newEmail) =>
        var existing := FindByEmail(s, newEmail);
        if existing.Some? && existing.value.id.value != userId
        then Err(Conflict(TakenMessage))
        else Ok(Users.UpdateEmail(user, newEmail, now))
    else Ok(user)
  }

  /** The name step of `updateUser`: a supplied name is trimmed, checked and applied. */
  function ApplyName(user: Users.User, name: Option<string>, now: Users.Timestamp): (r: Result<Users.User, AppError>)
    ensures !Truthy(name) ==> r == Ok(user)
    ensures Truthy(name) ==> (r.Ok? <==> UserNames.Create(name.value).Ok?)
    ensures Truthy(name) && r.Ok? ==> r.value == Users.UpdateName(user, UserNames.UserName(Trim(name.value)), now)
  {
    if Truthy(name) then
      match UserNames.Create(name.value)
      case Err(e) => Err(Invalid(Users.BadName(e)))
      case Ok(newName) =>
        UserNames.AcceptedIsTrimmed(name.value);
        Ok(Users.UpdateName(user, newName, now))
    else Ok(user)
  }

  /** The role step of `updateUser`: a supplied role must be USER or ADMIN. */
  function ApplyRole(user: Users.User, role: Option<string>, now: Users.Timestamp): (r: Result<Users.User, AppError>)
    ensures !Truthy(role) ==> r == Ok(user)
    ensures Truthy(role) ==> (r.Ok? <==> UserRoles.Parse(role.value).Ok?)
    ensures Truthy(role) && r.Ok? ==> r.value == Users.UpdateRole(user, UserRoles.Parse(role.value).value, now)
  {
    if Truthy(role) then
      match UserRoles.Parse(role.value)
      case Err(e) => Err(Invalid(Users.BadRole(e)))
      case Ok(newRole) => Ok(Users.UpdateRole(user, newRole, now))
    else Ok(user)
  }

  /** The user as changed by the three steps of `updateUser`, in their order. */
  function Changed(s: Store, user: Users.User, userId: string, dto: UpdateUserRequest, now: Users.Timestamp):
    Result<Users.User, AppError>
  {
    match ApplyEmail(s, user, userId, dto.email, now)
    case Err(e) => Err(e)
    case Ok(u1) =>
      match ApplyName(u1, dto.name, now)
      case Err(e) => Err(e)
      case Ok(u2) => ApplyRole(u2, dto.role, now)
  }

  /** `updateUser`: finds the user, applies the supplied changes and writes the
      result back; any failure leaves the store as it was. */
  function UpdateUser(s: Store, id: string, dto: UpdateUserRequest, now: Users.Timestamp):
    (r: Outcome<UserResponse, AppError>)
    ensures r.result.Err? ==> r.store == s
    ensures !IsBlank(id) && id !in s.users ==> r.result == Err(NotFound(NotFoundMessage(id)))
    ensures IsBlank(id) ==> r.result == Err(Invalid(Users.BadId(UserIds.IdEmpty)))
  {
    match UserIds.Create(Some(id), "")
    case Err(e) => Outcome(s, Err(Invalid(Users.BadId(e))))
    case Ok(userId) =>
      match FindById(s, userId)
      case None => Outcome(s, Err(NotFound(NotFoundMessage(id))))
      case Some(user) =>
        match Changed(s, user, userId.value, dto, now)
        case Err(e) => Outcome(s, Err(e))
        case Ok(changed) =>
          var out := Update(s, changed);
          match out.result
          case Err(e) => Outcome(s, Err(NotFound(MockUserRepository.Message(e))))
          case Ok(saved) => Outcome(out.store, Ok(ToResponse(saved)))
  }

  /** Whether the email step changes the address. */
  predicate ChangesEmail(user: Users.User, dto: UpdateUserRequest) {
    Truthy(dto.email) && dto.email.value != user.email.value
  }

  /** What the three steps produce: the same identity and creation time, each
      supplied field replaced (the name trimmed), the others kept, and
      `updatedAt` moved to the clock exactly when some step applied. */
  lemma ChangedEffect(s: Store, user: Users.User, userId: string, dto: UpdateUserRequest, now: Users.Timestamp)
    requires Changed(s, user, userId, dto, now).Ok?
    ensures var u := Changed(s, user, userId, dto, now).value;
      && u.id == user.id && u.createdAt == user.createdAt
      && u.email.value == (if Truthy(dto.email) then dto.email.value else user.email.value)
      && u.name.value == (if Truthy(dto.name) then Trim(dto.name.value) else user.name.value)
      && u.role == (if Truthy(dto.role) then UserRoles.Parse(dto.role.value).value else user.role)
      && u.updatedAt == (if ChangesEmail(user, dto) || Truthy(dto.name) || Truthy(dto.role) then now else user.updatedAt)
      && (Users.Valid(user) ==> Users.Valid(u))
  {
    var u1 := ApplyEmail(s, user, userId, dto.email, now).value;
    var u2 := ApplyName(u1, dto.name, now).value;
  }

  /** A successful `updateUser` went through every step: the id was accepted and
      found, the changes applied, and the changed user written back. */
  lemma UpdateUserSteps(s: Store, id: string, dto: UpdateUserRequest, now: Users.Timestamp)
    requires UpdateUser(s, id, dto, now).result.Ok?
    ensures !IsBlank(id) && id in s.users && Changed(s, s.users[id], id, dto, now).Ok?
    ensures var changed := Changed(s, s.users[id], id, dto, now).value;
      UpdateUser(s, id, dto, now) == Outcome(Update(s, changed).store, Ok(ToResponse(changed)))
  {
  }

  /** A successful `updateUser` replaces exactly the user under `id` by its changed
      form, keeps every other user and the order, and answers with the stored user. */
  lemma UpdateUserStores(s: Store, id: string, dto: UpdateUserRequest, now: Users.Timestamp)
    requires Inv(s) && UpdateUser(s, id, dto, now).result.Ok?
    ensures id in s.users && Changed(s, s.users[id], id, dto, now).Ok?
    ensures var r := UpdateUser(s, id, dto, now);
      && r.store.users == s.users[id := Changed(s, s.users[id], id, dto, now).value]
      && r.store.order == s.order
      && r.result.value == ToResponse(Changed(s, s.users[id], id, dto, now).value)
  {
    UpdateUserSteps(s, id, dto, now);
    var changed := Changed(s, s.users[id], id, dto, now).value;
    ChangedEffect(s, s.users[id], id, dto, now);
    UpdateEffect(s, changed);
  }

  /** For a stored user and a new, well-formed address, `updateUser` reports a
      conflict exactly when another stored user holds that exact string. */
  lemma UpdateUserConflictIff(s: Store, id: string, dto: UpdateUserRequest, now: Users.Timestamp)
    requires Inv(s) && AllValid(s) && id in s.users
    requires ChangesEmail(s.users[id], dto) && Emails.Create(dto.email.value).Ok?
    ensures UpdateUser(s, id, dto, now).result == Err(Conflict(TakenMessage)) <==>
      exists other :: other in s.users && other != id && s.users[other].email.value == dto.email.value
  {
    var user := s.users[id];
    assert Users.Valid(user);
    UpdateUserOnStored(s, id, dto, now);
    ConflictOnlyFromEmail(s, user, id, dto, now);
    EmailStepConflict(s, user, id, dto.email, now);
    FindByEmailExact(s, Emails.Email(dto.email.value));
  }

  /** For a stored user with an acceptable id, `updateUser` fails exactly as its steps do. */
  lemma UpdateUserOnStored(s: Store, id: string, dto: UpdateUserRequest, now: Users.Timestamp)
    requires Inv(s) && id in s.users && !IsBlank(id)
    ensures Changed(s, s.users[id], id, dto, now).Err? ==>
      UpdateUser(s, id, dto, now).result == Err(Changed(s, s.users[id], id, dto, now).error)
    ensures Changed(s, s.users[id], id, dto, now).Ok? ==> UpdateUser(s, id, dto, now).result.Ok?
  {
    var user := s.users[id];
    assert UserIds.Create(Some(id), "") == Ok(UserIds.UserId(id));
    assert FindById(s, UserIds.UserId(id)) == Some(user);
    if Changed(s, user, id, dto, now).Ok? {
      ChangedEffect(s, user, id, dto, now);
    }
  }

  /** Only the email step can report a conflict; the name and role steps only refuse values. */
  lemma ConflictOnlyFromEmail(s: Store, user: Users.User, userId: string, dto: UpdateUserRequest, now: Users.Timestamp)
    ensures Changed(s, user, userId, dto, now) == Err(Conflict(TakenMessage)) <==>
      ApplyEmail(s, user, userId, dto.email, now) == Err(Conflict(TakenMessage))
  {
  }

  /** The email step reports a conflict exactly when the index finds a user whose
      id is not the requested one. */
  lemma EmailStepConflict(s: Store, user: Users.User, userId: string, email: Option<string>, now: Users.Timestamp)
    requires Truthy(email) && email.value != user.email.value && Emails.Create(email.value).Ok?
    ensures ApplyEmail(s, user, userId, email, now) == Err(Conflict(TakenMessage)) <==>
      var found := FindByEmail(s, Emails.Email(email.value));
      found.Some? && found.value.id.value != userId
  {
  }

  /** Passing the user's current address skips the uniqueness check: no conflict arises. */
  lemma CurrentEmailIsNoConflict(s: Store, id: string, dto: UpdateUserRequest, now: Users.Timestamp)
    requires id in s.users && dto.email == Some(s.users[id].email.value)
    ensures !UpdateUser(s, id, dto, now).result.Err? || !UpdateUser(s, id, dto, now).result.error.Conflict?
  {
  }

  /** `updateUser` keeps the repository consistent and every stored user valid. */
  lemma UpdateUserPreservesInv(s: Store, id: string, dto: UpdateUserRequest, now: Users.Timestamp)
    requires Inv(s) && AllValid(s)
    ensures Inv(UpdateUser(s, id, dto, now).store)
    ensures AllValid(UpdateUser(s, id, dto, now).store)
  {
    if UpdateUser(s, id, dto, now).result.Ok? {
      UpdateUserSteps(s, id, dto, now);
      var user := s.users[id];
      var changed := Changed(s, user, id, dto, now).value;
      ChangedEffect(s, user, id, dto, now);
      ChangedKeepsIndex(s, user, id, dto, now);
      UpdatePreservesInv(s, changed);
      UpdateKeepsValid(s, changed);
    }
  }

  /** The changed user's address is free or already the user's own in the index. */
  lemma ChangedKeepsIndex(s: Store, user: Users.User, id: string, dto: UpdateUserRequest, now: Users.Timestamp)
    requires Inv(s) && id in s.users && s.users[id] == user
    requires Changed(s, user, id, dto, now).Ok?
    ensures user.id.value == id && id != ""
    ensures var changed := Changed(s, user, id, dto, now).value;
      changed.id == user.id &&
      (changed.email.value in s.emailIndex ==> s.emailIndex[changed.email.value] == id)
  {
    ChangedEffect(s, user, id, dto, now);
    var changed := Changed(s, user, id, dto, now).value;
    if ChangesEmail(user, dto) {
      var found := FindByEmail(s, Emails.Email(dto.email.value));
      assert ApplyEmail(s, user, id, dto.email, now).Ok?;
      assert found.None? || found.value.id.value == id;
    }
  }

  /** `deleteUser`: a blank id is refused, an unknown one is not found, and
      otherwise exactly that user leaves the store. */
  function DeleteUser(s: Store, id: string): (r: Outcome<string, AppError>)
    ensures r.result.Err? ==> r.store == s
    ensures r.result.Ok? <==> !IsBlank(id) && id in s.users
    ensures !IsBlank(id) && id !in s.users ==> r.result == Err(NotFound(NotFoundMessage(id)))
    ensures r.result.Ok? ==>
      && r.result.value == DeletedMessage
      && r.store.users.Keys == s.users.Keys - {id}
      && (forall k :: k in r.store.users ==> r.store.users[k] == s.users[k])
      && r.store.order == Remove(s.order, id)
  {
    match UserIds.Create(Some(id), "")
    case Err(e) => Outcome(s, Err(Invalid(Users.BadId(e))))
    case Ok(userId) =>
      if !Exists(s, userId) then Outcome(s, Err(NotFound(NotFoundMessage(id))))
      else Outcome(Delete(s, userId), Ok(DeletedMessage))
  }

  /** `deleteUser` keeps the repository consistent, and after a success the user is gone. */
  lemma DeleteUserPreservesInv(s: Store, id: string)
    requires Inv(s) && AllValid(s)
    ensures Inv(DeleteUser(s, id).store) && AllValid(DeleteUser(s, id).store)
    ensures DeleteUser(s, id).result.Ok? ==>
      && FindUserById(DeleteUser(s, id).store, id).Err?
      && |DeleteUser(s, id).store.users| == |s.users| - 1
  {
    if DeleteUser(s, id).result.Ok? {
      DeletePreservesInv(s, UserIds.UserId(id));
      DeleteKeepsValid(s, UserIds.UserId(id));
    }
  }
}
