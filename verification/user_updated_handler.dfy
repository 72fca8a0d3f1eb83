/** The handler of `UserUpdated`: a one-line description of what changed, and
    the per-field reactions it dispatches, both driven by the same test. */
module UserUpdatedHandler {
  import opened Wrappers
  import opened Text
  import UserRoles
  import opened DomainEvents

  datatype Field = EmailField | NameField | RoleField

  /** The arrow between the old and the new value. */
  const Arrow: string := " \U{2192} "

  /** Template-literal interpolation of an optional value: absent reads "undefined". */
  function Show(o: Option<string>): string {
    if o.Some? then o.value else "undefined"
  }

  function ShowRole(o: Option<UserRoles.Role>): string {
    if o.Some? then UserRoles.Name(o.value) else "undefined"
  }

  /** A field changed: its new value is present and truthy, and differs from the previous one. */
  predicate Reported(c: UserChanges, f: Field) {
    match f
    case EmailField => Truthy(c.newEmail) && c.previousEmail != c.newEmail
    case NameField => Truthy(c.newName) && c.previousName != c.newName
    case RoleField => c.newRole.Some? && c.previousRole != c.newRole
  }

  /** `field: previous → new` for one field. */
  function Entry(c: UserChanges, f: Field): (r: string)
    ensures |r| > 0
  {
    match f
    case EmailField => "email: " + Show(c.previousEmail) + Arrow + Show(c.newEmail)
    case NameField => "name: " + Show(c.previousName) + Arrow + Show(c.newName)
    case RoleField => "role: " + ShowRole(c.previousRole) + Arrow + ShowRole(c.newRole)
  }

  function If(b: bool, f: Field): seq<Field> {
    if b then [f] else []
  }

  /** The changed fields in the order the description lists them: email, name, role. */
  function DescribedFields(c: UserChanges): (r: seq<Field>)
    ensures forall f :: f in r <==> Reported(c, f)
  {
    If(Reported(c, EmailField), EmailField) + If(Reported(c, NameField), NameField)
      + If(Reported(c, RoleField), RoleField)
  }

  /** `buildChangeDescription`: the entries of the changed fields joined by ", ". */
  function BuildChangeDescription(c: UserChanges): string {
    var fs := DescribedFields(c);
    Join(seq(|fs|, k requires 0 <= k < |fs| => Entry(c, fs[k])), ", ")
  }

  /** The description is empty exactly when no field changed. */
  lemma DescriptionEmptyIff(c: UserChanges)
    ensures BuildChangeDescription(c) == "" <==>
      !Reported(c, EmailField) && !Reported(c, NameField) && !Reported(c, RoleField)
  {
    var fs := DescribedFields(c);
    var parts := seq(|fs|, k requires 0 <= k < |fs| => Entry(c, fs[k]));
    JoinEmptyIff(parts, ", ");
    if Reported(c, EmailField) || Reported(c, NameField) || Reported(c, RoleField) {
      assert |fs| > 0;
    }
  }

  /** With exactly one change the description is that field's entry alone. */
  lemma SingleChangeDescription(c: UserChanges, f: Field)
    requires Reported(c, f) && forall g :: g != f ==> !Reported(c, g)
    ensures BuildChangeDescription(c) == Entry(c, f)
  {
    assert DescribedFields(c) == [f] by {
      match f
      case EmailField => assert !Reported(c, NameField) && !Reported(c, RoleField);
      case NameField => assert !Reported(c, EmailField) && !Reported(c, RoleField);
      case RoleField => assert !Reported(c, EmailField) && !Reported(c, NameField);
    }
  }

  /** The position of a field in the description. */
  function DescriptionRank(f: Field): nat {
    match f
    case EmailField => 0
    case NameField => 1
    case RoleField => 2
  }

  /** The position of a field among the reactions of `handle`. */
  function ReactionRank(f: Field): nat {
    match f
    case EmailField => 0
    case RoleField => 1
    case NameField => 2
  }

  /** The description lists fields in the order email, name, role. */
  lemma DescriptionOrder(c: UserChanges)
    ensures forall a, b :: 0 <= a < b < |DescribedFields(c)| ==>
      DescriptionRank(DescribedFields(c)[a]) < DescriptionRank(DescribedFields(c)[b])
  {
  }

  /** A reaction `handle` dispatches for one changed field; old and new are as interpolated. */
  datatype Reaction = Reaction(field: Field, userId: string, previous: string, next: string)

  /** The log line of a reaction. */
  function ReactionMessage(r: Reaction): string {
    match r.field
    case EmailField => "Email change notification: " + r.previous + Arrow + r.next + " for user " + r.userId
    case RoleField => "Role change: " + r.previous + Arrow + r.next + " for user " + r.userId
    case NameField => "Name change: " + r.previous + Arrow + r.next + " for user " + r.userId
  }

  function ReactionFor(e: UserUpdatedEvent, f: Field): Reaction {
    var c := e.changes;
    match f
    case EmailField => Reaction(f, e.base.aggregateId, Show(c.previousEmail), Show(c.newEmail))
    case RoleField => Reaction(f, e.base.aggregateId, ShowRole(c.previousRole), ShowRole(c.newRole))
    case NameField => Reaction(f, e.base.aggregateId, Show(c.previousName), Show(c.newName))
  }

  /** The changed fields in the order `handle` reacts to them: email, role, name. */
  function ReactedFields(c: UserChanges): (r: seq<Field>)
    ensures forall f :: f in r <==> Reported(c, f)
  {
    If(Reported(c, EmailField), EmailField) + If(Reported(c, RoleField), RoleField)
      + If(Reported(c, NameField), NameField)
  }

  /** What `handle` emits: the summary log line, then the reactions. */
  datatype Handled = Handled(summary: string, reactions: seq<Reaction>)

  /** `handle`: logs the description, then reacts to the email, role and name changes, in that order. */
  function Handle(e: UserUpdatedEvent): (r: Handled)
    ensures |r.reactions| == |ReactedFields(e.changes)|
    ensures forall k :: 0 <= k < |r.reactions| ==> r.reactions[k] == ReactionFor(e, ReactedFields(e.changes)[k])
  {
    var fields := ReactedFields(e.changes);
    Handled("User updated: " + e.base.aggregateId + " - " + BuildChangeDescription(e.changes),
            seq(|fields|, k requires 0 <= k < |fields| => ReactionFor(e, fields[k])))
  }

  /** Both lists hold each changed field once. */
  lemma SameCount(c: UserChanges)
    ensures |ReactedFields(c)| == |DescribedFields(c)|
  {
  }

  /** `handle` reacts to exactly the fields the description lists, once each,
      in the order email, role, name, each reaction naming the aggregate. */
  lemma HandleMatchesDescription(e: UserUpdatedEvent)
    ensures var rs := Handle(e).reactions;
      && (forall f :: (exists k :: 0 <= k < |rs| && rs[k].field == f) <==> f in DescribedFields(e.changes))
      && |rs| == |DescribedFields(e.changes)|
      && (forall a, b :: 0 <= a < b < |rs| ==> ReactionRank(rs[a].field) < ReactionRank(rs[b].field))
      && (forall k :: 0 <= k < |rs| ==> rs[k].userId == e.base.aggregateId)
  {
    var c := e.changes;
    var rs := Handle(e).reactions;
    var fs := ReactedFields(c);
    SameCount(c);
    ReactionOrder(c);
    ReactionFields(e);
    forall f | f in DescribedFields(c)
      ensures exists k :: 0 <= k < |rs| && rs[k].field == f
    {
      var k :| 0 <= k < |fs| && fs[k] == f;
      assert rs[k].field == f;
    }
  }

  /** The k-th reaction is about the k-th reacted field and names the aggregate. */
  lemma ReactionFields(e: UserUpdatedEvent)
    ensures forall k :: 0 <= k < |Handle(e).reactions| ==>
      Handle(e).reactions[k].field == ReactedFields(e.changes)[k] &&
      Handle(e).reactions[k].userId == e.base.aggregateId
  {
  }

  /** The reactions follow the order email, role, name. */
  lemma ReactionOrder(c: UserChanges)
    ensures forall a, b :: 0 <= a < b < |ReactedFields(c)| ==>
      ReactionRank(ReactedFields(c)[a]) < ReactionRank(ReactedFields(c)[b])
  {
  }
}
