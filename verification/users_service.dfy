/** The older array-backed `UsersService`: users with numeric ids in a list,
    created with id `length + 1`, updated in place and removed by splicing. */
module UsersService {
  import opened Wrappers
  import opened Text
  import opened Numbers
  import UserRoles

  /** Milliseconds since the epoch. */
  type Timestamp = int

  /** `UserResponseDto` of this service. */
  datatype LegacyUser = LegacyUser(
    id: int,
    email: string,
    name: string,
    role: UserRoles.Role,
    createdAt: Timestamp,
    updatedAt: Timestamp)

  /** `CreateUserDto`: the role may be left out. */
  datatype CreateRequest = CreateRequest(email: string, name: string, role: Option<UserRoles.Role>)

  /** `UpdateUserDto`: a field that is left out is not spread over the user. */
  datatype UpdateRequest = UpdateRequest(email: Option<string>, name: Option<string>, role: Option<UserRoles.Role>)

  datatype NotFound = NotFound(id: int)

  /** The decimal rendering of a possibly negative id. */
  function IntText(i: int): string {
    if i < 0 then "-" + Decimal(-i) else Decimal(i)
  }

  function Message(e: NotFound): string {
    "User with ID " + IntText(e.id) + " not found"
  }

  const DeletedMessage: string := "User deleted successfully"

  /** `new Date('2024-01-01')` and `new Date('2024-01-02')`. */
  const Jan1: Timestamp := 1704067200000
  const Jan2: Timestamp := 1704153600000

  /** The two users the service starts with. */
  function Initial(): (r: seq<LegacyUser>)
    ensures |r| == 2 && r[0].id == 1 && r[1].id == 2
    ensures r[0].role == UserRoles.ADMIN && r[1].role == UserRoles.USER
  {
    [LegacyUser(1, "admin@example.com", "Admin User", UserRoles.ADMIN, Jan1, Jan1),
     LegacyUser(2, "user@example.com", "Regular User", UserRoles.USER, Jan2, Jan2)]
  }

  /** `create`: appends a user numbered one past the current length, USER unless a role
      is given. The two timestamps are two separate clock readings. */
  function Create(users: seq<LegacyUser>, dto: CreateRequest, created: Timestamp, updated: Timestamp):
    (r: (seq<LegacyUser>, LegacyUser))
    ensures |r.0| == |users| + 1 && r.0[..|users|] == users && r.0[|users|] == r.1
    ensures r.1.id == |users| + 1
    ensures r.1.email == dto.email && r.1.name == dto.name
    ensures r.1.role == (if dto.role.Some? then dto.role.value else UserRoles.USER)
    ensures r.1.createdAt == created && r.1.updatedAt == updated
  {
    var user := LegacyUser(|users| + 1, dto.email, dto.name, dto.role.GetOr(UserRoles.USER), created, updated);
    (users + [user], user)
  }

  /** `findIndex` on the id: the first position holding it. */
  function FindIndex(users: seq<LegacyUser>, id: int): (r: Option<nat>)
    ensures r.Some? ==> r.value < |users| && users[r.value].id == id
    ensures r.Some? ==> forall k :: 0 <= k < r.value ==> users[k].id != id
    ensures r.None? <==> forall k :: 0 <= k < |users| ==> users[k].id != id
  {
    if |users| == 0 then None
    else if users[0].id == id then Some(0)
    else
      match FindIndex(users[1..], id)
      case None => None
      case Some(k) => Some(k + 1)
  }

  /** `findOne`: the first user with the id. */
  function FindOne(users: seq<LegacyUser>, id: int): (r: Result<LegacyUser, NotFound>)
    ensures r.Err? <==> forall k :: 0 <= k < |users| ==> users[k].id != id
    ensures r.Err? ==> r.error == NotFound(id)
    ensures r.Ok? ==> r.value.id == id && r.value in users
    ensures r.Ok? ==> FindIndex(users, id).Some? && r.value == users[FindIndex(users, id).value]
  {
    match FindIndex(users, id)
    case None => Err(NotFound(id))
    case Some(k) => Ok(users[k])
  }

  /** The spread `{ ...user, ...dto, updatedAt }`: supplied fields win. */
  function Merge(u: LegacyUser, dto: UpdateRequest, now: Timestamp): (r: LegacyUser)
    ensures r.id == u.id && r.createdAt == u.createdAt && r.updatedAt == now
    ensures r.email == dto.email.GetOr(u.email) && r.name == dto.name.GetOr(u.name)
    ensures r.role == dto.role.GetOr(u.role)
  {
    LegacyUser(u.id, dto.email.GetOr(u.email), dto.name.GetOr(u.name), dto.role.GetOr(u.role), u.createdAt, now)
  }

  /** `update`: overwrites the first user with the id in place. */
  function Update(users: seq<LegacyUser>, id: int, dto: UpdateRequest, now: Timestamp):
    (r: Result<(seq<LegacyUser>, LegacyUser), NotFound>)
    ensures r.Err? <==> forall k :: 0 <= k < |users| ==> users[k].id != id
    ensures r.Err? ==> r.error == NotFound(id)
  {
    match FindIndex(users, id)
    case None => Err(NotFound(id))
    case Some(k) =>
      var updated := Merge(users[k], dto, now);
      Ok((users[k := updated], updated))
  }

  /** A successful `update` keeps the length and every other position, and puts
      the merged user where the first match was. */
  lemma UpdateInPlace(users: seq<LegacyUser>, id: int, dto: UpdateRequest, now: Timestamp)
    requires Update(users, id, dto, now).Ok?
    ensures var (r, u) := Update(users, id, dto, now).value;
      var k := FindIndex(users, id).value;
      && |r| == |users|
      && r[k] == u && u == Merge(users[k], dto, now)
      && (forall j :: 0 <= j < |users| && j != k ==> r[j] == users[j])
  {
  }

  /** `remove`: splices out the first user with the id. */
  function Remove(users: seq<LegacyUser>, id: int): (r: Result<(seq<LegacyUser>, string), NotFound>)
    ensures r.Err? <==> forall k :: 0 <= k < |users| ==> users[k].id != id
    ensures r.Err? ==> r.error == NotFound(id)
    ensures r.Ok? ==> r.value.1 == DeletedMessage && |r.value.0| == |users| - 1
  {
    match FindIndex(users, id)
    case None => Err(NotFound(id))
    case Some(k) => Ok((users[..k] + users[k + 1..], DeletedMessage))
  }

  /** A successful `remove` drops exactly the first match: the users before it
      stay in place, the users after it move down by one, and nothing else goes. */
  lemma RemoveSplices(users: seq<LegacyUser>, id: int)
    requires Remove(users, id).Ok?
    ensures var r := Remove(users, id).value.0;
      var k := FindIndex(users, id).value;
      && (forall j :: 0 <= j < k ==> r[j] == users[j])
      && (forall j :: k <= j < |r| ==> r[j] == users[j + 1])
      && multiset(r) + multiset{users[k]} == multiset(users)
  {
    var k := FindIndex(users, id).value;
    assert users == users[..k] + [users[k]] + users[k + 1..];
  }

  /** Numbering by length repeats ids: removing user 1 and creating one gives a second user 2. */
  lemma IdsRepeatAfterRemove(now: Timestamp)
    ensures Remove(Initial(), 1).Ok?
    ensures var left := Remove(Initial(), 1).value.0;
      var (after, created) := Create(left, CreateRequest("new@example.com", "New User", None), now, now);
      created.id == 2 && after[0].id == 2 && |after| == 2
  {
    assert FindIndex(Initial(), 1) == Some(0);
  }

  /** The metadata of `findAll`; `totalPages` is absent when `Math.ceil` of a
      division by zero is not a finite number. */
  datatype LegacyMeta = LegacyMeta(total: nat, page: nat, limit: nat, totalPages: Option<nat>)

  datatype LegacyPage = LegacyPage(data: seq<LegacyUser>, meta: LegacyMeta)

  /** `slice(skip, skip + limit)` for non-negative bounds, clamped to the list. */
  function Slice(users: seq<LegacyUser>, skip: nat, limit: nat): (r: seq<LegacyUser>)
    ensures |r| == (if skip >= |users| then 0 else if skip + limit > |users| then |users| - skip else limit)
    ensures forall k :: 0 <= k < |r| ==> r[k] == users[skip + k]
  {
    var lo := if skip < |users| then skip else |users|;
    var hi := if skip + limit < |users| then skip + limit else |users|;
    users[lo..hi]
  }

  /** `findAll`: page and limit take their defaults only when left out; without a
      `skip` the slice bound `undefined + limit` is not a number and the page is empty. */
  function FindAll(users: seq<LegacyUser>, page: Option<nat>, limit: Option<nat>, skip: Option<nat>): (r: LegacyPage)
    ensures r.meta.total == |users|
    ensures r.meta.page == page.GetOr(1) && r.meta.limit == limit.GetOr(10)
    ensures r.meta.limit == 0 <==> r.meta.totalPages.None?
    ensures r.meta.totalPages.Some? ==>
      r.meta.totalPages.value * r.meta.limit >= |users| &&
      (r.meta.totalPages.value == 0 || (r.meta.totalPages.value - 1) * r.meta.limit < |users|)
    ensures skip.None? ==> r.data == []
    ensures skip.Some? ==> r.data == Slice(users, skip.value, limit.GetOr(10))
  {
    var l := limit.GetOr(10);
    var data := if skip.Some? then Slice(users, skip.value, l) else [];
    LegacyPage(data, LegacyMeta(|users|, page.GetOr(1), l, if l == 0 then None else Some(CeilDiv(|users|, l))))
  }
}
