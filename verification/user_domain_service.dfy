/** The user domain service: business rules that need the repository, stated
    over a `Store` — email uniqueness with self-exclusion, the error lists of
    the two validations, the manage-permission rule and the user counts. */
module UserDomainService {
  import opened Wrappers
  import opened Text
  import Emails
  import UserNames
  import UserIds
  import UserRoles
  import Users
  import opened MockUserRepository
  import opened Numbers

  /** The three messages a validation can collect. */
  datatype Issue = EmailInUse | EmailFormat | NameFormat

  function Message(i: Issue): string {
    match i
    case EmailInUse => "Email address is already in use"
    case EmailFormat => "Invalid email format"
    case NameFormat => "Invalid name format"
  }

  /** The outcome of a validation: a flag and the messages collected, in order. */
  datatype Validation = Validation(isValid: bool, errors: seq<Issue>)

  /** `isEmailUnique`: nobody holds the address, or its holder is the excluded
      user (an absent or empty exclusion excludes no one). */
  function IsEmailUnique(s: Store, email: Emails.Email, exclude: Option<string>): (r: bool)
    ensures FindByEmail(s, email).None? ==> r
    ensures FindByEmail(s, email).Some? ==>
      (r <==> Truthy(exclude) && FindByEmail(s, email).value.id.value == exclude.value)
  {
    match FindByEmail(s, email)
    case None => true
    case Some(existing) => Truthy(exclude) && existing.id.value == exclude.value
  }

  /** Under the repository invariant an address is unique exactly when every
      stored user holding that exact string is the excluded one. */
  lemma IsEmailUniqueIff(s: Store, email: Emails.Email, exclude: Option<string>)
    requires Inv(s)
    ensures IsEmailUnique(s, email, exclude) <==>
      forall id :: id in s.users && s.users[id].email.value == email.value ==>
        Truthy(exclude) && id == exclude.value
  {
    FindByEmailExact(s, email);
  }

  /** Without an exclusion an address is unique exactly when no stored user holds it. */
  lemma UniqueWithoutExclusion(s: Store, email: Emails.Email)
    requires Inv(s)
    ensures IsEmailUnique(s, email, None) <==>
      forall id :: id in s.users ==> s.users[id].email.value != email.value
  {
    IsEmailUniqueIff(s, email, None);
  }

  /** The email half of both validations: a format error, an in-use error, or nothing. */
  function EmailErrors(s: Store, email: string, exclude: Option<string>): (r: seq<Issue>)
    ensures r == [] <==> Emails.Create(email).Ok? && IsEmailUnique(s, Emails.Email(email), exclude)
    ensures r == [EmailFormat] <==> Emails.Create(email).Err?
    ensures r == [EmailInUse] <==> Emails.Create(email).Ok? && !IsEmailUnique(s, Emails.Email(email), exclude)
  {
    match Emails.Create(email)
    case Err(_) => [EmailFormat]
    case Ok(e) => if IsEmailUnique(s, e, exclude) then [] else [EmailInUse]
  }

  /** The name half of both validations. */
  function NameErrors(name: string): (r: seq<Issue>)
    ensures r == [] <==> UserNames.Create(name).Ok?
    ensures r == [NameFormat] <==> UserNames.Create(name).Err?
  {
    if UserNames.Create(name).Ok? then [] else [NameFormat]
  }

  /** `validateUserCreation`: the email error, if any, then the name error, if any. */
  function ValidateUserCreation(s: Store, email: string, name: string): (r: Validation)
    ensures r.isValid <==> r.errors == []
    ensures |r.errors| <= 2
  {
    var errors := EmailErrors(s, email, None) + NameErrors(name);
    Validation(|errors| == 0, errors)
  }

  /** Which messages creation collects: a format error exactly for a refused
      address, an in-use error exactly for an accepted address someone holds, a
      name error exactly for a refused name, and the name error always last. */
  lemma CreationErrors(s: Store, email: string, name: string)
    ensures var r := ValidateUserCreation(s, email, name);
      && (r.isValid <==> Emails.Create(email).Ok? && IsEmailUnique(s, Emails.Email(email), None)
                         && UserNames.Create(name).Ok?)
      && (EmailFormat in r.errors <==> Emails.Create(email).Err?)
      && (EmailInUse in r.errors <==> Emails.Create(email).Ok? && !IsEmailUnique(s, Emails.Email(email), None))
      && (NameFormat in r.errors <==> UserNames.Create(name).Err?)
      && (NameFormat in r.errors ==> r.errors[|r.errors| - 1] == NameFormat)
      && (|r.errors| == 2 ==> r.errors[0] != NameFormat)
  {
    var ee := EmailErrors(s, email, None);
    var ne := NameErrors(name);
    assert ValidateUserCreation(s, email, name).errors == ee + ne;
    Collected(ee, ne);
  }

  /** The messages of an email part and a name part, concatenated. */
  lemma Collected(ee: seq<Issue>, ne: seq<Issue>)
    requires ee == [] || ee == [EmailFormat] || ee == [EmailInUse]
    requires ne == [] || ne == [NameFormat]
    ensures EmailFormat in ee + ne <==> ee == [EmailFormat]
    ensures EmailInUse in ee + ne <==> ee == [EmailInUse]
    ensures NameFormat in ee + ne <==> ne == [NameFormat]
    ensures NameFormat in ee + ne ==> (ee + ne)[|ee + ne| - 1] == NameFormat
    ensures |ee + ne| == 2 ==> (ee + ne)[0] != NameFormat
  {
  }

  /** Under the invariant, creation validates exactly when the address and the
      name are accepted and no stored user holds that exact address. */
  lemma CreationValidIff(s: Store, email: string, name: string)
    requires Inv(s)
    ensures ValidateUserCreation(s, email, name).isValid <==>
      && Emails.Create(email).Ok?
      && UserNames.Create(name).Ok?
      && forall id :: id in s.users ==> s.users[id].email.value != email
  {
    UniqueWithoutExclusion(s, Emails.Email(email));
  }

  /** `validateUserUpdate`: each field is checked only when it is supplied
      (present and non-empty); the uniqueness check excludes the user itself. */
  function ValidateUserUpdate(s: Store, userId: string, email: Option<string>, name: Option<string>): (r: Validation)
    ensures r.isValid <==> r.errors == []
    ensures |r.errors| <= 2
    ensures !Truthy(email) && !Truthy(name) ==> r == Validation(true, [])
  {
    var emailErrors := if Truthy(email) then EmailErrors(s, email.value, Some(userId)) else [];
    var nameErrors := if Truthy(name) then NameErrors(name.value) else [];
    var errors := emailErrors + nameErrors;
    Validation(|errors| == 0, errors)
  }

  /** Which messages an update collects: a field that is not supplied contributes
      none, and an address held only by the user itself is not in use. */
  lemma UpdateErrors(s: Store, userId: string, email: Option<string>, name: Option<string>)
    ensures var r := ValidateUserUpdate(s, userId, email, name);
      && (EmailFormat in r.errors <==> Truthy(email) && Emails.Create(email.value).Err?)
      && (EmailInUse in r.errors <==>
            Truthy(email) && Emails.Create(email.value).Ok? && !IsEmailUnique(s, Emails.Email(email.value), Some(userId)))
      && (NameFormat in r.errors <==> Truthy(name) && UserNames.Create(name.value).Err?)
  {
    var ee := if Truthy(email) then EmailErrors(s, email.value, Some(userId)) else [];
    var ne := if Truthy(name) then NameErrors(name.value) else [];
    assert ValidateUserUpdate(s, userId, email, name).errors == ee + ne;
    Collected(ee, ne);
  }

  /** A user's own current address is never reported as in use when that user updates. */
  lemma OwnEmailNotInUse(s: Store, userId: string, name: Option<string>)
    requires Inv(s) && userId in s.users
    ensures EmailInUse !in ValidateUserUpdate(s, userId, Some(s.users[userId].email.value), name).errors
  {
    var e := s.users[userId].email;
    UpdateErrors(s, userId, Some(e.value), name);
    IsEmailUniqueIff(s, e, Some(userId));
    forall id | id in s.users && s.users[id].email.value == e.value
      ensures id == userId
    {
      if id != userId {
        EmailsDistinct(s, id, userId);
      }
    }
  }

  /** `canManageUser`: anyone manages themself without a lookup; otherwise the
      manager id is built (which refuses a blank id) and must name a stored ADMIN. */
  function CanManageUser(s: Store, managerId: string, targetId: string): (r: Result<bool, UserIds.IdError>)
    ensures managerId == targetId ==> r == Ok(true)
    ensures managerId != targetId ==> (r.Err? <==> IsBlank(managerId))
    ensures managerId != targetId && r.Ok? ==>
      (r.value <==> managerId in s.users && Users.IsAdmin(s.users[managerId]))
  {
    if managerId == targetId then Ok(true)
    else
      match UserIds.Create(Some(managerId), "")
      case Err(e) => Err(e)
      case Ok(mid) =>
        match FindById(s, mid)
        case None => Ok(false)
        case Some(manager) => Ok(UserRoles.IsAdmin(manager.role))
  }

  /** In a consistent store of valid users, a stored manager's answer is never an
      error: it is true exactly for themself or when the manager is ADMIN, and for
      another user it is the entity's own `canManageUsers`. */
  lemma CanManageStoredUser(s: Store, managerId: string, targetId: string)
    requires Inv(s) && AllValid(s) && managerId in s.users
    ensures CanManageUser(s, managerId, targetId) ==
      Ok(managerId == targetId || s.users[managerId].role == UserRoles.ADMIN)
    ensures managerId != targetId ==>
      CanManageUser(s, managerId, targetId) == Ok(Users.CanManageUsers(s.users[managerId]))
  {
    assert Users.Valid(s.users[managerId]);
    Users.CanManageUsersIffAdmin(s.users[managerId]);
  }

  /** The counts of `calculateUserStatistics`; `adminPercentage` is left unrounded. */
  datatype Statistics = Statistics(totalUsers: nat, adminCount: nat, regularUserCount: nat, adminPercentage: real)

  /** The number of administrators in a list of users. */
  function CountAdmins(xs: seq<Users.User>): (r: nat)
    ensures r <= |xs|
  {
    if |xs| == 0 then 0
    else CountAdmins(xs[..|xs| - 1]) + (if Users.IsAdmin(xs[|xs| - 1]) then 1 else 0)
  }

  /** The page of at most 1000 users the statistics are computed over. */
  const StatisticsLimit: nat := 1000

  /** `calculateUserStatistics`: counts over the first page of 1000 users. */
  function CalculateUserStatistics(s: Store): (r: Statistics)
    requires OrderInMap(s)
    ensures r.totalUsers == Min(|s.order|, StatisticsLimit)
    ensures r.adminCount + r.regularUserCount == r.totalUsers
    ensures r.totalUsers == 0 ==> r.adminPercentage == 0.0
    ensures 0.0 <= r.adminPercentage <= 100.0
  {
    var data := FindAll(s, 1, StatisticsLimit).data;
    var total := |data|;
    var admins := CountAdmins(data);
    var pct := if total > 0 then Percentage(admins, total) else 0.0;
    Statistics(total, admins, total - admins, pct)
  }

  /** `part / whole * 100` for a part of a positive whole lies between 0 and 100. */
  function Percentage(part: nat, whole: nat): (r: real)
    requires 0 < whole && part <= whole
    ensures 0.0 <= r <= 100.0
    ensures part == 0 ==> r == 0.0
    ensures part == whole ==> r == 100.0
  {
    var q := part as real / whole as real;
    QuotientAtMostOne(part as real, whole as real);
    q * 100.0
  }

  /** A quotient of a non-negative number by a positive one that is not smaller lies in 0..1. */
  lemma QuotientAtMostOne(p: real, w: real)
    requires 0.0 < w && 0.0 <= p <= w
    ensures 0.0 <= p / w <= 1.0
  {
    var q := p / w;
    assert q * w == p;
    assert (1.0 - q) * w == w - p;
  }

  /** The administrators among the keys listed in `xs`. */
  function AdminsIn(xs: seq<string>, m: map<string, Users.User>): set<string> {
    set x | x in xs && x in m && Users.IsAdmin(m[x])
  }

  /** Counting administrators along a list of distinct keys counts the set of administrator keys. */
  lemma {:induction false} CountAdminsIsCardinality(xs: seq<string>, m: map<string, Users.User>)
    requires Distinct(xs) && forall k :: 0 <= k < |xs| ==> xs[k] in m
    ensures CountAdmins(Ordered(Store(m, map[], xs))) == |AdminsIn(xs, m)|
    decreases |xs|
  {
    if |xs| > 0 {
      var n := |xs| - 1;
      var init := xs[..n];
      DropLast(xs, m);
      CountAdminsIsCardinality(init, m);
      AdminsInLast(xs, m);
    } else {
      assert AdminsIn(xs, m) == {};
    }
  }

  /** Dropping the last key keeps the keys distinct and stored, leaves it out, and
      leaves the listed users a prefix. */
  lemma DropLast(xs: seq<string>, m: map<string, Users.User>)
    requires |xs| > 0 && Distinct(xs) && forall k :: 0 <= k < |xs| ==> xs[k] in m
    ensures var init := xs[..|xs| - 1];
      && Distinct(init)
      && (forall k :: 0 <= k < |init| ==> init[k] in m)
      && xs[|xs| - 1] !in init
      && Ordered(Store(m, map[], xs))[..|xs| - 1] == Ordered(Store(m, map[], init))
  {
    var init := xs[..|xs| - 1];
    assert forall k :: 0 <= k < |init| ==> init[k] == xs[k];
  }

  /** The administrators along a list are those along its prefix, plus the last key when it is one. */
  lemma AdminsInLast(xs: seq<string>, m: map<string, Users.User>)
    requires |xs| > 0 && xs[|xs| - 1] in m
    ensures var init := xs[..|xs| - 1];
      AdminsIn(xs, m) == if Users.IsAdmin(m[xs[|xs| - 1]]) then AdminsIn(init, m) + {xs[|xs| - 1]}
                         else AdminsIn(init, m)
  {
    assert xs == xs[..|xs| - 1] + [xs[|xs| - 1]];
  }

  /** With at most 1000 users in a consistent store, the statistics count every
      user, and their administrators are exactly the stored ADMIN users. */
  lemma StatisticsCountAdmins(s: Store)
    requires Inv(s) && |s.users| <= StatisticsLimit
    ensures CalculateUserStatistics(s).totalUsers == |s.users|
    ensures CalculateUserStatistics(s).adminCount == |AdminIds(s)|
  {
    TotalIsUserCount(s);
    FirstPageIsAll(s);
    CountAdminsIsCardinality(s.order, s.users);
    AdminsInOrder(s);
  }

  /** A first page at least as long as the store holds every user, in order. */
  lemma FirstPageIsAll(s: Store)
    requires OrderInMap(s) && |s.order| <= StatisticsLimit
    ensures FindAll(s, 1, StatisticsLimit).data == Ordered(Store(s.users, map[], s.order))
  {
    assert FindAll(s, 1, StatisticsLimit).data == Ordered(s);
  }

  /** When the order lists exactly the stored keys, its administrators are the store's. */
  lemma AdminsInOrder(s: Store)
    requires OrderMatchesKeys(s)
    ensures AdminsIn(s.order, s.users) == AdminIds(s)
  {
  }

  /** The seed data counts three users, one of them an administrator. */
  lemma InitialStatistics(adminId: string, regularId: string, dzikriId: string, now: Users.Timestamp)
    requires !IsBlank(adminId) && !IsBlank(regularId) && !IsBlank(dzikriId)
    requires adminId != regularId && adminId != dzikriId && regularId != dzikriId
    ensures InitialStore(adminId, regularId, dzikriId, now).Ok?
    ensures var s := InitialStore(adminId, regularId, dzikriId, now).value;
      OrderInMap(s) &&
      var st := CalculateUserStatistics(s);
      st.totalUsers == 3 && st.adminCount == 1 && st.regularUserCount == 2
  {
    InitialStoreFacts(adminId, regularId, dzikriId, now);
    var s := InitialStore(adminId, regularId, dzikriId, now).value;
    StatisticsOfOneAdmin(s, adminId);
  }

  /** Three consistent users of whom exactly one is an administrator count as such. */
  lemma StatisticsOfOneAdmin(s: Store, admin: string)
    requires Inv(s) && |s.users| == 3 && AdminIds(s) == {admin}
    ensures OrderInMap(s)
    ensures var st := CalculateUserStatistics(s);
      st.totalUsers == 3 && st.adminCount == 1 && st.regularUserCount == 2
  {
    StatisticsCountAdmins(s);
  }
}
