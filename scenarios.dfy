/**
 * Runs of the store and the bot that show behaviour the code has on purpose
 * or by omission: a second start re-stamps, a second end awards again, a
 * second check-in is refused, and the end button never ends anything.
 */
module Scenarios {
  import opened Primitives
  import opened Schema
  import opened Storage
  import opened Bot

  /** Starting a running event again only replaces its starter and start time. */
  method StartTwice(store: MemStorage, eventId: Id, firstBy: string, first: Time, secondBy: string, second: Time)
    requires store.Valid() && eventId in store.events.entries
    modifies store`events
    ensures store.Valid()
    ensures store.events.keys == old(store.events.keys)
    ensures store.events.entries == old(store.events.entries)[eventId := Started(old(store.events.entries[eventId]), secondBy, second)]
    ensures store.events.entries[eventId].isActive && store.events.entries[eventId].startedAt == Some(second)
  {
    ghost var before := store.events.entries;
    store.StartEvent(eventId, firstBy, first);
    store.StartEvent(eventId, secondBy, second);
    RestartedEvent(before, eventId, firstBy, first, secondBy, second);
  }

  /** A second start overwrites every field the first one set. */
  lemma RestartedEvent(before: map<Id, Event>, eventId: Id, firstBy: string, first: Time, secondBy: string, second: Time)
    requires eventId in before
    ensures var after := before[eventId := Started(before[eventId], firstBy, first)];
            after[eventId := Started(after[eventId], secondBy, second)] == before[eventId := Started(before[eventId], secondBy, second)]
  {
  }

  /**
   * Ending an event twice reports the same count twice and credits every
   * participant twice the event's points.
   */
  method EndTwice(store: MemStorage, eventId: Id, first: Time, second: Time) returns (count1: nat, count2: nat)
    requires store.Valid() && eventId in store.events.entries
    modifies store`members, store`events
    ensures store.Valid()
    ensures count1 == count2 == |ForEvent(store.eventParticipations.Values(), eventId)|
    ensures store.members == Awarded(old(store.members), store.eventParticipations.Values(), eventId,
                                     2 * old(store.events.entries[eventId]).points)
    ensures store.events.keys == old(store.events.keys)
    ensures store.events.entries == old(store.events.entries)[eventId := Ended(old(store.events.entries[eventId]), second)]
    ensures !store.events.entries[eventId].isActive && store.events.entries[eventId].endedAt == Some(second)
  {
    ghost var before := store.events.entries;
    count1 := store.EndEventAndAwardPoints(eventId, first);
    count2 := store.EndEventAndAwardPoints(eventId, second);
    ReendedEvent(before, eventId, first, second);
    AwardedTwice(old(store.members), store.eventParticipations.Values(), eventId, old(store.events.entries[eventId]).points);
  }

  /** A second end overwrites the end time the first one set. */
  lemma ReendedEvent(before: map<Id, Event>, eventId: Id, first: Time, second: Time)
    requires eventId in before
    ensures var after := before[eventId := Ended(before[eventId], first)];
            after[eventId := Ended(after[eventId], second)] == before[eventId := Ended(before[eventId], second)]
  {
  }

  /** Pressing the check-in button twice: the second press is refused and stores nothing. */
  method CheckinTwice(store: MemStorage, eventId: Id, caller: Caller, first: Time, second: Time) returns (reply1: Reply, reply2: Reply)
    requires store.Valid()
    modifies store`members, store`eventParticipations, store`nextSerial
    ensures store.Valid()
    ensures reply1 == AlreadyCheckedIn || reply1 == CheckedIn
    ensures reply2 == AlreadyCheckedIn
    ensures store.GetMemberByDiscordId(caller.userId).Some?
    ensures store.HasCheckedIn(eventId, store.GetMemberByDiscordId(caller.userId).value.id)
  {
    ghost var ms0, ps0, n0 := store.members.Values(), store.eventParticipations.Values(), store.nextSerial;
    reply1 := HandleCheckin(store, eventId, caller, first);
    CheckinOutcome(ms0, ps0, n0, store.members.Values(), store.eventParticipations.Values(), store.nextSerial,
                   eventId, caller, first, reply1);
    ghost var ms1, ps1, n1 := store.members.Values(), store.eventParticipations.Values(), store.nextSerial;
    reply2 := HandleCheckin(store, eventId, caller, second);
    CheckinOutcome(ms1, ps1, n1, store.members.Values(), store.eventParticipations.Values(), store.nextSerial,
                   eventId, caller, second, reply2);
    CheckInsPositive(store.eventParticipations.Values(), eventId, CheckinMemberId(ms1, n1, caller.userId));
  }

  /**
   * Whoever presses it, the end button of a posted event ends nothing and
   * awards nothing: a manager is told the event was not found, anyone else
   * gets the gate's refusal.
   */
  method PressEndButton(store: MemStorage, guildId: Id, eventId: Id, caller: Caller, now: Time) returns (r: Reply)
    requires store.Valid()
    modifies store`members, store`events, store`eventParticipations, store`nextSerial
    ensures store.Valid()
    ensures !r.EventEnded?
    ensures unchanged(store)
    ensures var gate := GuildGate(store.botConfigs.Values(), guildId, caller);
            r == if gate == HasRole then EventNotFound else Refusal(gate, EndAction)
  {
    EndButtonRoutes(eventId);
    EndButtonMissesCatalog(eventId);
    assert store.GetEvent("event_" + eventId).None?;
    r := HandleButton(store, guildId, EndButtonId(eventId), caller, now);
  }
}
