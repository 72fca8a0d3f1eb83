/** Domain events: the fields every event carries, fixed when it is built, and
    the `UserUpdated` event with its before/after pairs. Records are immutable,
    which is what the source's `readonly` fields promise. */
module DomainEvents {
  import opened Wrappers
  import opened Text
  import UserRoles

  /** `BaseDomainEvent`. `occurredOn` is the clock in milliseconds. */
  datatype DomainEvent = DomainEvent(
    eventId: string,
    eventType: string,
    aggregateId: string,
    occurredOn: nat,
    eventVersion: int)

  /** `generateEventId`: the clock in decimal, a dash, then the random suffix. */
  function EventId(now: nat, suffix: string): (r: string)
    ensures |r| == |Decimal(now)| + 1 + |suffix|
    ensures r[|Decimal(now)|] == '-'
  {
    Decimal(now) + "-" + suffix
  }

  /** The clock can be read back from an event id: the part before the first dash
      is the decimal rendering of the construction time. */
  lemma EventIdEncodesClock(now: nat, suffix: string)
    ensures SomeIn(EventId(now, suffix), '-', 0, |EventId(now, suffix)|)
    ensures var id := EventId(now, suffix);
      var dash := IndexOf(id, '-');
      dash == |Decimal(now)| &&
      (forall k :: 0 <= k < dash ==> IsDigit(id[k])) &&
      DecimalValue(id[..dash]) == now && id[dash + 1..] == suffix
  {
    var d := Decimal(now);
    var id := EventId(now, suffix);
    assert id[|d|] == '-';
    assert NoneIn(id, '-', 0, |d|) by {
      forall k | 0 <= k < |d| ensures id[k] != '-' {
        assert id[k] == d[k];
      }
    }
    IndexOfUnique(id, '-', |d|);
    assert id[..|d|] == d;
    assert id[|d| + 1..] == suffix;
    DecimalRoundTrip(now);
  }

  /** The base constructor: the id built from the clock reading `idClock` and the
      random suffix, type and aggregate as given, the later clock reading `now` as
      the time of occurrence, and version 1 unless one is passed. The source reads
      the clock twice, so the two readings are separate parameters. */
  function NewEvent(eventType: string, aggregateId: string, eventVersion: Option<int>,
                    idClock: nat, now: nat, suffix: string): (r: DomainEvent)
    ensures r.eventId == EventId(idClock, suffix)
    ensures r.eventType == eventType && r.aggregateId == aggregateId
    ensures r.occurredOn == now
    ensures eventVersion.None? ==> r.eventVersion == 1
    ensures eventVersion.Some? ==> r.eventVersion == eventVersion.value
  {
    DomainEvent(EventId(idClock, suffix), eventType, aggregateId, now, eventVersion.GetOr(1))
  }

  /** Two events whose ids were built at different clock readings never share an id. */
  lemma EventIdsDifferAcrossTime(now1: nat, now2: nat, suffix1: string, suffix2: string)
    requires now1 != now2
    ensures EventId(now1, suffix1) != EventId(now2, suffix2)
  {
    EventIdEncodesClock(now1, suffix1);
    EventIdEncodesClock(now2, suffix2);
  }

  /** The before/after pairs a `UserUpdated` event may carry; each may be absent. */
  datatype UserChanges = UserChanges(
    previousEmail: Option<string>,
    newEmail: Option<string>,
    previousName: Option<string>,
    newName: Option<string>,
    previousRole: Option<UserRoles.Role>,
    newRole: Option<UserRoles.Role>)

  datatype UserUpdatedEvent = UserUpdatedEvent(base: DomainEvent, changes: UserChanges)

  const UserUpdated: string := "UserUpdated"

  /** `new UserUpdatedEvent(aggregateId, changes)`: a version-1 "UserUpdated"
      event for the aggregate, with the pairs copied as given. */
  function NewUserUpdated(aggregateId: string, changes: UserChanges, idClock: nat, now: nat, suffix: string):
    (r: UserUpdatedEvent)
    ensures r.base.eventId == EventId(idClock, suffix)
    ensures r.base.eventType == UserUpdated && r.base.aggregateId == aggregateId
    ensures r.base.eventVersion == 1 && r.base.occurredOn == now
    ensures r.changes == changes
  {
    UserUpdatedEvent(NewEvent(UserUpdated, aggregateId, None, idClock, now, suffix), changes)
  }
}
