/** The in-memory repository wired into the users module: a map from id to
    user kept in insertion order, plus an index from the exact email string to
    the id. Every operation is a pure transition of the `Store` record. */
module MockUserRepository {
  import opened Wrappers
  import opened Text
  import opened Numbers
  import Users
  import UserIds
  import Emails
  import UserNames
  import UserRoles

  type User = Users.User

  /** The repository's state: `users` with the map's key order in `order`, and `emailIndex`. */
  datatype Store = Store(users: map<string, User>, emailIndex: map<string, string>, order: seq<string>)

  /** A transition's resulting store together with what the call returned or threw. */
  datatype Outcome<+T, +E> = Outcome(store: Store, result: Result<T, E>)

  /** `update` of an id the map does not hold. */
  datatype RepoError = UserNotFound(id: string)

  function Message(e: RepoError): string {
    "User with id " + e.id + " not found"
  }

  predicate Distinct(xs: seq<string>) {
    forall a, b :: 0 <= a < b < |xs| ==> xs[a] != xs[b]
  }

  /** Every key in the insertion order is in the map. */
  predicate OrderInMap(s: Store) {
    forall k :: 0 <= k < |s.order| ==> s.order[k] in s.users
  }

  /** The insertion order lists each key of the map exactly once. */
  ghost predicate OrderMatchesKeys(s: Store) {
    OrderInMap(s) && Distinct(s.order) && (forall id :: id in s.users ==> id in s.order)
  }

  /** Each user is stored under its own, non-empty, id. */
  ghost predicate KeyedById(s: Store) {
    forall id :: id in s.users ==> s.users[id].id.value == id && id != ""
  }

  /** Every stored user is one the aggregate's constructors could have built. */
  ghost predicate AllValid(s: Store) {
    AllUsersValid(s.users)
  }

  ghost predicate AllUsersValid(m: map<string, User>) {
    forall id :: id in m ==> Users.Valid(m[id])
  }

  /** Every stored user's email maps to its id. */
  ghost predicate IndexComplete(s: Store) {
    forall id :: id in s.users ==>
      s.users[id].email.value in s.emailIndex && s.emailIndex[s.users[id].email.value] == id
  }

  /** Every index entry points to a stored user holding exactly that email. */
  ghost predicate IndexSound(s: Store) {
    forall e :: e in s.emailIndex ==>
      s.emailIndex[e] in s.users && s.users[s.emailIndex[e]].email.value == e
  }

  /** The repository invariant. */
  ghost predicate Inv(s: Store) {
    OrderMatchesKeys(s) && KeyedById(s) && IndexComplete(s) && IndexSound(s)
  }

  /** Two stored users never share an email string. */
  lemma EmailsDistinct(s: Store, a: string, b: string)
    requires Inv(s) && a in s.users && b in s.users && a != b
    ensures s.users[a].email.value != s.users[b].email.value
  {
  }

  /** An empty store satisfies the invariant. */
  lemma EmptyStoreInv()
    ensures Inv(Store(map[], map[], []))
  {
  }

  /** The stored users in insertion order (`Array.from(users.values())`). */
  function Ordered(s: Store): (r: seq<User>)
    requires OrderInMap(s)
    ensures |r| == |s.order|
    ensures forall k :: 0 <= k < |r| ==> r[k] == s.users[s.order[k]]
  {
    seq(|s.order|, k requires 0 <= k < |s.order| => s.users[s.order[k]])
  }

  /** `Map.prototype.set` on the user map: a new key goes last, an existing key keeps its place. */
  function Put(s: Store, u: User): (r: Store)
    ensures r.users == s.users[u.id.value := u] && r.emailIndex == s.emailIndex
    ensures u.id.value in s.users ==> r.order == s.order
    ensures u.id.value !in s.users ==> r.order == s.order + [u.id.value]
  {
    var order := if u.id.value in s.users then s.order else s.order + [u.id.value];
    Store(s.users[u.id.value := u], s.emailIndex, order)
  }

  /** `save`: stores the user under its id and maps its email to that id. */
  function Save(s: Store, u: User): (r: Store)
  {
    var t := Put(s, u);
    Store(t.users, t.emailIndex[u.email.value := u.id.value], t.order)
  }

  /** After `save` the user is found under its id and, when the id is non-empty,
      under its email; every other user and every other index entry is untouched. */
  lemma SaveThenFind(s: Store, u: User)
    ensures FindById(Save(s, u), u.id) == Some(u)
    ensures u.id.value != "" ==> FindByEmail(Save(s, u), u.email) == Some(u)
    ensures Save(s, u).users.Keys == s.users.Keys + {u.id.value}
    ensures forall id :: id in s.users && id != u.id.value ==> Save(s, u).users[id] == s.users[id]
    ensures forall e :: e in s.emailIndex && e != u.email.value ==>
      e in Save(s, u).emailIndex && Save(s, u).emailIndex[e] == s.emailIndex[e]
  {
  }

  /** Saving a user under a fresh id keeps the insertion order in step with the map. */
  lemma SaveKeepsOrder(s: Store, u: User)
    requires OrderMatchesKeys(s) && u.id.value !in s.users
    ensures OrderMatchesKeys(Save(s, u))
    ensures Save(s, u).order == s.order + [u.id.value]
  {
    var r := Save(s, u);
    var id := u.id.value;
    assert r.order == s.order + [id];
    assert OrderInMap(r) by {
      forall k | 0 <= k < |r.order|
        ensures r.order[k] in r.users
      {
        if k < |s.order| {
          assert r.order[k] == s.order[k];
        }
      }
    }
    assert Distinct(r.order) by {
      assert id !in s.order;
    }
  }

  /** Saving a user with a fresh, non-empty id and a fresh email keeps the
      invariant and adds exactly one user, at the end of the insertion order. */
  lemma SavePreservesInv(s: Store, u: User)
    requires Inv(s) && u.id.value != ""
    requires u.id.value !in s.users && u.email.value !in s.emailIndex
    ensures Inv(Save(s, u))
    ensures |Save(s, u).users| == |s.users| + 1
    ensures Save(s, u).order == s.order + [u.id.value]
  {
    SaveKeepsOrder(s, u);
    SaveKeepsIndex(s, u);
    PutCount(s.users, u.id.value, u);
  }

  /** Saving a user under a fresh id and a fresh email keeps the keys and the email index consistent. */
  lemma SaveKeepsIndex(s: Store, u: User)
    requires KeyedById(s) && IndexComplete(s) && IndexSound(s) && u.id.value != ""
    requires u.id.value !in s.users && u.email.value !in s.emailIndex
    ensures KeyedById(Save(s, u)) && IndexComplete(Save(s, u)) && IndexSound(Save(s, u))
  {
    var r := Save(s, u);
    assert r.users == s.users[u.id.value := u];
    assert r.emailIndex == s.emailIndex[u.email.value := u.id.value];
    assert KeyedById(r);
    assert IndexComplete(r);
  }

  lemma PutCount(m: map<string, User>, k: string, v: User)
    requires k !in m
    ensures |m[k := v]| == |m| + 1
  {
  }

  /** Replacing or adding one valid entry keeps every entry of a map of users valid. */
  lemma PutKeepsValid(m: map<string, User>, k: string, v: User)
    requires AllUsersValid(m) && Users.Valid(v)
    ensures AllUsersValid(m[k := v])
  {
  }

  /** Saving keeps every stored user valid. */
  lemma SaveKeepsValid(s: Store, u: User)
    requires AllValid(s) && Users.Valid(u)
    ensures AllValid(Save(s, u))
  {
    assert Save(s, u).users == s.users[u.id.value := u];
    PutKeepsValid(s.users, u.id.value, u);
  }

  /** Updating keeps every stored user valid. */
  lemma UpdateKeepsValid(s: Store, u: User)
    requires AllValid(s) && Users.Valid(u)
    ensures AllValid(Update(s, u).store)
  {
    if u.id.value in s.users {
      UpdateEffect(s, u);
      PutKeepsValid(s.users, u.id.value, u);
    }
  }

  /** Deleting keeps every stored user valid. */
  lemma DeleteKeepsValid(s: Store, id: UserIds.UserId)
    requires AllValid(s)
    ensures AllValid(Delete(s, id))
  {
    var r := Delete(s, id);
    forall k | k in r.users
      ensures Users.Valid(r.users[k])
    {
      assert r.users[k] == s.users[k];
    }
  }

  /** `findById`: the user stored under the id, if any. */
  function FindById(s: Store, id: UserIds.UserId): (r: Option<User>)
    ensures r.Some? <==> id.value in s.users
    ensures r.Some? ==> r.value == s.users[id.value]
  {
    if id.value in s.users then Some(s.users[id.value]) else None
  }

  /** `findByEmail`: looks the exact email string up in the index, then the id in the map. */
  function FindByEmail(s: Store, e: Emails.Email): (r: Option<User>)
    ensures r.Some? ==> e.value in s.emailIndex && s.emailIndex[e.value] in s.users
    ensures r.Some? ==> r.value == s.users[s.emailIndex[e.value]]
  {
    if e.value in s.emailIndex && s.emailIndex[e.value] != "" && s.emailIndex[e.value] in s.users
    then Some(s.users[s.emailIndex[e.value]])
    else None
  }

  /** Under the invariant, `findByEmail` finds a user exactly when some stored
      user's email is the same string, and then finds that user. */
  lemma FindByEmailExact(s: Store, e: Emails.Email)
    requires Inv(s)
    ensures FindByEmail(s, e).Some? <==> exists id :: id in s.users && s.users[id].email.value == e.value
    ensures FindByEmail(s, e).Some? ==> FindByEmail(s, e).value.email.value == e.value
    ensures forall id :: id in s.users && s.users[id].email.value == e.value ==> FindByEmail(s, e) == Some(s.users[id])
  {
    forall id | id in s.users && s.users[id].email.value == e.value
      ensures FindByEmail(s, e) == Some(s.users[id])
    {
    }
  }

  /** A page of results with the source's pagination metadata. */
  datatype PageMeta = PageMeta(total: nat, page: nat, limit: nat, totalPages: nat)
  datatype Page<+T> = Page(data: seq<T>, meta: PageMeta)

  /** `slice(start, start + limit)` on a sequence: the elements from `start`,
      at most `limit` of them, and none when `start` is past the end. */
  function Window<T>(xs: seq<T>, start: nat, limit: nat): (r: seq<T>)
    ensures |r| == (if start >= |xs| then 0 else Min(limit, |xs| - start))
    ensures forall k :: 0 <= k < |r| ==> r[k] == xs[start + k]
  {
    xs[Min(start, |xs|)..Min(start + limit, |xs|)]
  }

  /** `findAll`: the users in insertion order from position `(page - 1) * limit`,
      at most `limit` of them, with `total` and `ceil(total / limit)` pages. */
  function FindAll(s: Store, page: nat, limit: nat): (r: Page<User>)
    requires OrderInMap(s) && page >= 1 && limit >= 1
    ensures var start := (page - 1) * limit;
      |r.data| == (if start >= |s.order| then 0 else Min(limit, |s.order| - start))
    ensures forall k :: 0 <= k < |r.data| ==> r.data[k] == s.users[s.order[(page - 1) * limit + k]]
    ensures r.meta.total == |s.order| && r.meta.page == page && r.meta.limit == limit
    ensures r.meta.totalPages * limit >= |s.order|
    ensures r.meta.totalPages == 0 || (r.meta.totalPages - 1) * limit < |s.order|
  {
    var all := Ordered(s);
    Page(Window(all, (page - 1) * limit, limit), PageMeta(|all|, page, limit, CeilDiv(|all|, limit)))
  }

  /** The first page holds the first `limit` users in insertion order. */
  lemma FirstPage(s: Store, limit: nat)
    requires OrderInMap(s) && limit >= 1
    ensures FindAll(s, 1, limit).meta.page == 1 && FindAll(s, 1, limit).meta.limit == limit
    ensures |FindAll(s, 1, limit).data| == Min(limit, |s.order|)
    ensures forall k :: 0 <= k < |FindAll(s, 1, limit).data| ==> FindAll(s, 1, limit).data[k] == s.users[s.order[k]]
  {
    assert (1 - 1) * limit == 0;
  }

  /** Fifteen stored users, page 2 of 10: five items and two pages. */
  lemma FindAllSecondPageExample(s: Store)
    requires OrderInMap(s) && |s.order| == 15
    ensures |FindAll(s, 2, 10).data| == 5
    ensures FindAll(s, 2, 10).meta.totalPages == 2
  {
    var tp := FindAll(s, 2, 10).meta.totalPages;
    assert tp * 10 >= 15 && (tp == 0 || (tp - 1) * 10 < 15);
  }

  /** Under the invariant the reported total is the number of stored users. */
  lemma TotalIsUserCount(s: Store)
    requires Inv(s)
    ensures |s.order| == |s.users|
  {
    var keys := set k | 0 <= k < |s.order| :: s.order[k];
    assert keys == s.users.Keys;
    DistinctCardinality(s.order);
  }

  lemma {:induction false} DistinctCardinality(xs: seq<string>)
    requires Distinct(xs)
    ensures |set k | 0 <= k < |xs| :: xs[k]| == |xs|
  {
    if |xs| > 0 {
      var init := xs[..|xs| - 1];
      assert Distinct(init);
      DistinctCardinality(init);
      var si := set k | 0 <= k < |init| :: init[k];
      var sx := set k | 0 <= k < |xs| :: xs[k];
      assert sx == si + {xs[|xs| - 1]};
      assert xs[|xs| - 1] !in si;
    }
  }

  /** `update` as written against value semantics: an unknown id throws and
      changes nothing; otherwise, when the stored email differs from the new one,
      the old index entry is dropped and the new one added, and the user is replaced in place. */
  function Update(s: Store, u: User): (r: Outcome<User, RepoError>)
    ensures u.id.value !in s.users ==> r == Outcome(s, Err(UserNotFound(u.id.value)))
    ensures u.id.value in s.users ==> r.result == Ok(u)
  {
    if u.id.value !in s.users then Outcome(s, Err(UserNotFound(u.id.value)))
    else
      var existing := s.users[u.id.value];
      var index := if existing.email.value != u.email.value
        then (s.emailIndex - {existing.email.value})[u.email.value := u.id.value]
        else s.emailIndex;
      Outcome(Store(s.users[u.id.value := u], index, s.order), Ok(u))
  }

  /** What `update` does to a stored user: it is replaced in place, and when its
      email changed the old index entry is gone, the new one points to it, and
      every other index entry is untouched. */
  lemma UpdateEffect(s: Store, u: User)
    requires u.id.value in s.users
    ensures var r := Update(s, u).store;
      && r.order == s.order
      && r.users == s.users[u.id.value := u]
      && (s.users[u.id.value].email.value == u.email.value ==> r.emailIndex == s.emailIndex)
    ensures var r := Update(s, u).store;
      s.users[u.id.value].email.value != u.email.value ==>
        && s.users[u.id.value].email.value !in r.emailIndex
        && u.email.value in r.emailIndex && r.emailIndex[u.email.value] == u.id.value
        && r.emailIndex.Keys == s.emailIndex.Keys - {s.users[u.id.value].email.value} + {u.email.value}
    ensures var r := Update(s, u).store;
      forall e :: e in s.emailIndex && e != u.email.value && e != s.users[u.id.value].email.value ==>
        e in r.emailIndex && r.emailIndex[e] == s.emailIndex[e]
  {
  }

  /** Updating a stored user to a valid value whose email nobody else holds keeps the invariant. */
  lemma UpdatePreservesInv(s: Store, u: User)
    requires Inv(s) && u.id.value != ""
    requires u.email.value in s.emailIndex ==> s.emailIndex[u.email.value] == u.id.value
    ensures Inv(Update(s, u).store)
  {
    var r := Update(s, u).store;
    if u.id.value in s.users {
      assert r.users.Keys == s.users.Keys;
      assert IndexSound(r) by {
        forall e | e in r.emailIndex
          ensures r.emailIndex[e] in r.users && r.users[r.emailIndex[e]].email.value == e
        {
          if e != u.email.value {
            assert e in s.emailIndex;
            assert s.emailIndex[e] != u.id.value;
          }
        }
      }
    }
  }

  /** `update` as it behaves in the wired-in configuration: the user handed in
      is the very object the map holds, already changed by the caller, so the
      stored email it compares against is the new one and the index is never re-keyed. */
  function UpdateAliased(s: Store, u: User): (r: Outcome<User, RepoError>)
    ensures u.id.value !in s.users ==> r == Outcome(s, Err(UserNotFound(u.id.value)))
    ensures u.id.value in s.users ==> r.result == Ok(u) && r.store.emailIndex == s.emailIndex
  {
    if u.id.value !in s.users then Outcome(s, Err(UserNotFound(u.id.value)))
    else
      var existing := u;
      var index := if existing.email.value != u.email.value
        then (s.emailIndex - {existing.email.value})[u.email.value := u.id.value]
        else s.emailIndex;
      Outcome(Store(s.users[u.id.value := u], index, s.order), Ok(u))
  }

  /** With aliasing, changing a user's email to a fresh address breaks the
      invariant: the new address is not found, and the old one still finds the
      user although it no longer holds it. */
  lemma AliasedUpdateLosesEmail(s: Store, u: User)
    requires Inv(s) && u.id.value != "" && u.id.value in s.users
    requires u.email.value != s.users[u.id.value].email.value
    requires u.email.value !in s.emailIndex
    ensures var r := UpdateAliased(s, u).store;
      && !Inv(r)
      && FindByEmail(r, u.email) == None
      && FindById(r, u.id) == Some(u)
      && FindByEmail(r, s.users[u.id.value].email) == Some(u)
  {
    var r := UpdateAliased(s, u).store;
    assert !IndexComplete(r) by {
      assert u.id.value in r.users && r.users[u.id.value].email.value !in r.emailIndex;
    }
  }

  /** The same update with value semantics finds the user under its new email only. */
  lemma UpdateRekeysEmail(s: Store, u: User)
    requires Inv(s) && u.id.value != "" && u.id.value in s.users
    requires u.email.value != s.users[u.id.value].email.value
    requires u.email.value !in s.emailIndex
    ensures var r := Update(s, u).store;
      && Inv(r)
      && FindByEmail(r, u.email) == Some(u)
      && FindByEmail(r, s.users[u.id.value].email) == None
  {
    UpdatePreservesInv(s, u);
  }

  /** The sequence without any occurrence of `x`, in the same order. */
  function Remove(xs: seq<string>, x: string): (r: seq<string>)
    ensures forall y :: y in r <==> y in xs && y != x
    ensures Distinct(xs) ==> Distinct(r)
    ensures Distinct(xs) && x in xs ==> |r| == |xs| - 1
    ensures x !in xs ==> r == xs
  {
    if |xs| == 0 then []
    else if xs[0] == x then
      assert Distinct(xs) ==> x !in xs[1..];
      Remove(xs[1..], x)
    else
      var rest := Remove(xs[1..], x);
      assert Distinct(xs) ==> xs[0] !in rest;
      [xs[0]] + rest
  }

  /** `delete`: drops the user and its index entry; an absent id changes nothing. */
  function Delete(s: Store, id: UserIds.UserId): (r: Store)
    ensures id.value !in s.users ==> r == s
    ensures id.value in s.users ==>
      && r.users.Keys == s.users.Keys - {id.value}
      && (forall k :: k in r.users ==> r.users[k] == s.users[k])
      && r.emailIndex.Keys == s.emailIndex.Keys - {s.users[id.value].email.value}
      && (forall e :: e in r.emailIndex ==> r.emailIndex[e] == s.emailIndex[e])
      && r.order == Remove(s.order, id.value)
  {
    if id.value in s.users then
      Store(s.users - {id.value}, s.emailIndex - {s.users[id.value].email.value}, Remove(s.order, id.value))
    else s
  }

  /** Deleting keeps the invariant and removes exactly one user when it was present. */
  lemma DeletePreservesInv(s: Store, id: UserIds.UserId)
    requires Inv(s)
    ensures Inv(Delete(s, id))
    ensures id.value in s.users ==> |Delete(s, id).users| == |s.users| - 1
    ensures id.value in s.users ==> FindById(Delete(s, id), id) == None
  {
    if id.value in s.users {
      var r := Delete(s, id);
      assert IndexSound(r) by {
        forall e | e in r.emailIndex
          ensures r.emailIndex[e] in r.users && r.users[r.emailIndex[e]].email.value == e
        {
          assert s.emailIndex[e] != id.value;
        }
      }
      assert OrderMatchesKeys(r) by {
        forall k | 0 <= k < |r.order|
          ensures r.order[k] in r.users
        {
          assert r.order[k] in r.order;
        }
      }
    }
  }

  /** `exists`: membership of the id in the map. */
  function Exists(s: Store, id: UserIds.UserId): (r: bool)
    ensures r <==> FindById(s, id).Some?
  {
    id.value in s.users
  }

  /** `existsByEmail`: membership of the exact email string in the index. */
  function ExistsByEmail(s: Store, e: Emails.Email): (r: bool)
    ensures r <==> e.value in s.emailIndex
  {
    e.value in s.emailIndex
  }

  /** Under the invariant the index answers the same question as `findByEmail`. */
  lemma ExistsByEmailAgrees(s: Store, e: Emails.Email)
    requires Inv(s)
    ensures ExistsByEmail(s, e) <==> FindByEmail(s, e).Some?
  {
  }

  /** The three seed users put into the map, then their emails into the index. */
  function SeedStore(a: User, b: User, c: User): Store {
    var t := Put(Put(Put(Store(map[], map[], []), a), b), c);
    t.(emailIndex := t.emailIndex[a.email.value := a.id.value]
                                 [b.email.value := b.id.value]
                                 [c.email.value := c.id.value])
  }

  /** The store the repository starts with: an administrator and two regular
      users, with ids drawn from the random source. */
  function InitialStore(adminId: string, regularId: string, dzikriId: string, now: Users.Timestamp):
    Result<Store, Users.ValidationError>
  {
    match Users.Create("admin@example.com", "Admin User", Some("ADMIN"), None, adminId, now)
    case Err(e) => Err(e)
    case Ok(admin) =>
      match Users.Create("user@example.com", "Regular User", Some("USER"), None, regularId, now)
      case Err(e) => Err(e)
      case Ok(regular) =>
        match Users.Create("dzikrisyairozi@gmail.com", "Dzikri Syairozi", Some("USER"), None, dzikriId, now)
        case Err(e) => Err(e)
        case Ok(dzikri) => Ok(SeedStore(admin, regular, dzikri))
  }

  /** The ids of the stored administrators. */
  function AdminIds(s: Store): set<string> {
    set id | id in s.users && Users.IsAdmin(s.users[id])
  }

  /** Putting the seed users in and then indexing them is the same as saving them one by one. */
  lemma SeedStoreIsSaves(a: User, b: User, c: User)
    requires a.id.value != b.id.value && a.id.value != c.id.value && b.id.value != c.id.value
    requires a.email.value != b.email.value && a.email.value != c.email.value && b.email.value != c.email.value
    ensures SeedStore(a, b, c) == Save(Save(Save(Store(map[], map[], []), a), b), c)
  {
  }

  /** Saving adds the user's id to the map's keys and its email to the index's keys. */
  lemma SaveKeys(s: Store, u: User)
    ensures Save(s, u).users.Keys == s.users.Keys + {u.id.value}
    ensures Save(s, u).emailIndex.Keys == s.emailIndex.Keys + {u.email.value}
  {
    assert Save(s, u).users == s.users[u.id.value := u];
    assert Save(s, u).emailIndex == s.emailIndex[u.email.value := u.id.value];
  }

  /** Three users with distinct non-empty ids and distinct emails make a consistent store. */
  lemma SeedStoreInv(a: User, b: User, c: User)
    requires a.id.value != "" && b.id.value != "" && c.id.value != ""
    requires a.id.value != b.id.value && a.id.value != c.id.value && b.id.value != c.id.value
    requires a.email.value != b.email.value && a.email.value != c.email.value && b.email.value != c.email.value
    ensures Inv(SeedStore(a, b, c))
  {
    SeedStoreIsSaves(a, b, c);
    var s0 := Store(map[], map[], []);
    EmptyStoreInv();
    SavePreservesInv(s0, a);
    SaveKeys(s0, a);
    var s1 := Save(s0, a);
    SavePreservesInv(s1, b);
    SaveKeys(s1, b);
    var s2 := Save(s1, b);
    SavePreservesInv(s2, c);
  }

  /** The seed store holds the three users, in their order. */
  lemma SeedStoreShape(a: User, b: User, c: User)
    requires a.id.value != b.id.value && a.id.value != c.id.value && b.id.value != c.id.value
    ensures SeedStore(a, b, c).users == map[a.id.value := a, b.id.value := b, c.id.value := c]
    ensures SeedStore(a, b, c).order == [a.id.value, b.id.value, c.id.value]
    ensures |SeedStore(a, b, c).users| == 3
  {
    var m := map[a.id.value := a, b.id.value := b, c.id.value := c];
    assert m.Keys == {a.id.value, b.id.value, c.id.value};
  }

  /** Of the three seed users only the first is an administrator. */
  lemma SeedAdmins(a: User, b: User, c: User)
    requires a.id.value != b.id.value && a.id.value != c.id.value && b.id.value != c.id.value
    requires Users.IsAdmin(a) && !Users.IsAdmin(b) && !Users.IsAdmin(c)
    ensures AdminIds(Store(map[a.id.value := a, b.id.value := b, c.id.value := c], map[], [])) == {a.id.value}
  {
    var m := map[a.id.value := a, b.id.value := b, c.id.value := c];
    assert m.Keys == {a.id.value, b.id.value, c.id.value};
  }

  lemma AdminEmailAccepted()
    ensures Emails.Create("admin@example.com") == Ok(Emails.Email("admin@example.com"))
  {
    Emails.AcceptedAt("admin@example.com", 5, 13);
  }

  lemma RegularEmailAccepted()
    ensures Emails.Create("user@example.com") == Ok(Emails.Email("user@example.com"))
  {
    Emails.AcceptedAt("user@example.com", 4, 12);
  }

  lemma DzikriEmailAccepted()
    ensures Emails.Create("dzikrisyairozi@gmail.com") == Ok(Emails.Email("dzikrisyairozi@gmail.com"))
  {
    Emails.AcceptedAt("dzikrisyairozi@gmail.com", 14, 20);
  }

  lemma AdminNameAccepted()
    ensures UserNames.Create("Admin User") == Ok(UserNames.UserName("Admin User"))
  {
    TrimOfTrimmed("Admin User");
    assert UserNames.AllNameChars("Admin User");
  }

  lemma RegularNameAccepted()
    ensures UserNames.Create("Regular User") == Ok(UserNames.UserName("Regular User"))
  {
    TrimOfTrimmed("Regular User");
    assert UserNames.AllNameChars("Regular User");
  }

  lemma DzikriNameAccepted()
    ensures UserNames.Create("Dzikri Syairozi") == Ok(UserNames.UserName("Dzikri Syairozi"))
  {
    TrimOfTrimmed("Dzikri Syairozi");
    assert UserNames.AllNameChars("Dzikri Syairozi");
  }

  lemma SeedAdmin(adminId: string, now: Users.Timestamp)
    requires !IsBlank(adminId)
    ensures Users.Create("admin@example.com", "Admin User", Some("ADMIN"), None, adminId, now)
      == Ok(Users.User(UserIds.UserId(adminId), Emails.Email("admin@example.com"),
                       UserNames.UserName("Admin User"), UserRoles.ADMIN, now, now))
  {
    AdminEmailAccepted();
    AdminNameAccepted();
  }

  lemma SeedRegular(regularId: string, now: Users.Timestamp)
    requires !IsBlank(regularId)
    ensures Users.Create("user@example.com", "Regular User", Some("USER"), None, regularId, now)
      == Ok(Users.User(UserIds.UserId(regularId), Emails.Email("user@example.com"),
                       UserNames.UserName("Regular User"), UserRoles.USER, now, now))
  {
    RegularEmailAccepted();
    RegularNameAccepted();
  }

  lemma SeedDzikri(dzikriId: string, now: Users.Timestamp)
    requires !IsBlank(dzikriId)
    ensures Users.Create("dzikrisyairozi@gmail.com", "Dzikri Syairozi", Some("USER"), None, dzikriId, now)
      == Ok(Users.User(UserIds.UserId(dzikriId), Emails.Email("dzikrisyairozi@gmail.com"),
                       UserNames.UserName("Dzikri Syairozi"), UserRoles.USER, now, now))
  {
    DzikriEmailAccepted();
    DzikriNameAccepted();
  }

  /** Saving three valid users keeps every stored user valid. */
  lemma SeedStoreValid(a: User, b: User, c: User)
    requires Users.Valid(a) && Users.Valid(b) && Users.Valid(c)
    requires a.id.value != b.id.value && a.id.value != c.id.value && b.id.value != c.id.value
    requires a.email.value != b.email.value && a.email.value != c.email.value && b.email.value != c.email.value
    ensures AllValid(SeedStore(a, b, c))
  {
    SeedStoreIsSaves(a, b, c);
    var s0 := Store(map[], map[], []);
    assert AllValid(s0);
    SaveKeepsValid(s0, a);
    SaveKeepsValid(Save(s0, a), b);
    SaveKeepsValid(Save(Save(s0, a), b), c);
  }

  function AdminSeed(id: string, now: Users.Timestamp): User {
    Users.User(UserIds.UserId(id), Emails.Email("admin@example.com"),
               UserNames.UserName("Admin User"), UserRoles.ADMIN, now, now)
  }

  function RegularSeed(id: string, now: Users.Timestamp): User {
    Users.User(UserIds.UserId(id), Emails.Email("user@example.com"),
               UserNames.UserName("Regular User"), UserRoles.USER, now, now)
  }

  function DzikriSeed(id: string, now: Users.Timestamp): User {
    Users.User(UserIds.UserId(id), Emails.Email("dzikrisyairozi@gmail.com"),
               UserNames.UserName("Dzikri Syairozi"), UserRoles.USER, now, now)
  }

  /** With non-blank ids the seed users are all built. */
  lemma InitialIsSeed(adminId: string, regularId: string, dzikriId: string, now: Users.Timestamp)
    requires !IsBlank(adminId) && !IsBlank(regularId) && !IsBlank(dzikriId)
    ensures InitialStore(adminId, regularId, dzikriId, now)
      == Ok(SeedStore(AdminSeed(adminId, now), RegularSeed(regularId, now), DzikriSeed(dzikriId, now)))
    ensures Users.Valid(AdminSeed(adminId, now)) && Users.Valid(RegularSeed(regularId, now))
      && Users.Valid(DzikriSeed(dzikriId, now))
  {
    SeedAdmin(adminId, now);
    SeedRegular(regularId, now);
    SeedDzikri(dzikriId, now);
  }

  /** With three distinct non-blank ids the seed data is accepted: three valid
      users with distinct emails, exactly one of them ADMIN, and a consistent index. */
  lemma InitialStoreFacts(adminId: string, regularId: string, dzikriId: string, now: Users.Timestamp)
    requires !IsBlank(adminId) && !IsBlank(regularId) && !IsBlank(dzikriId)
    requires adminId != regularId && adminId != dzikriId && regularId != dzikriId
    ensures InitialStore(adminId, regularId, dzikriId, now).Ok?
    ensures var s := InitialStore(adminId, regularId, dzikriId, now).value;
      && Inv(s) && AllValid(s)
      && |s.users| == 3
      && s.order == [adminId, regularId, dzikriId]
      && AdminIds(s) == {adminId}
  {
    InitialIsSeed(adminId, regularId, dzikriId, now);
    var a := AdminSeed(adminId, now);
    var b := RegularSeed(regularId, now);
    var c := DzikriSeed(dzikriId, now);
    assert a.email.value[0] != b.email.value[0] && a.email.value[0] != c.email.value[0]
      && b.email.value[0] != c.email.value[0];
    assert adminId != "" && regularId != "" && dzikriId != "";
    SeedFacts(a, b, c);
  }

  /** Three valid users with distinct non-empty ids and distinct emails, only the first
      of them ADMIN, make a consistent store of three users with one administrator. */
  lemma SeedFacts(a: User, b: User, c: User)
    requires a.id.value != "" && b.id.value != "" && c.id.value != ""
    requires a.id.value != b.id.value && a.id.value != c.id.value && b.id.value != c.id.value
    requires a.email.value != b.email.value && a.email.value != c.email.value && b.email.value != c.email.value
    requires Users.Valid(a) && Users.Valid(b) && Users.Valid(c)
    requires Users.IsAdmin(a) && !Users.IsAdmin(b) && !Users.IsAdmin(c)
    ensures var s := SeedStore(a, b, c);
      && Inv(s) && AllValid(s)
      && |s.users| == 3
      && s.order == [a.id.value, b.id.value, c.id.value]
      && AdminIds(s) == {a.id.value}
  {
    SeedStoreInv(a, b, c);
    SeedStoreValid(a, b, c);
    SeedStoreShape(a, b, c);
    SeedAdmins(a, b, c);
    var s := SeedStore(a, b, c);
    assert AdminIds(s) == AdminIds(Store(s.users, map[], []));
  }
}
