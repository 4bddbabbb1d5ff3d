/**
 * The decision logic of the Discord bot in server/bot.ts: which store
 * operations an interaction triggers and which reply it earns. The Discord
 * SDK is replaced by plain values: the interaction's guild, the caller's id,
 * tag and role set, the command's options, and whether the channel is a
 * guild text channel. Replies are named by what they say.
 */
module Bot {
  import opened Primitives
  import opened OrderedMaps
  import opened Schema
  import opened Storage

  // ---------------------------------------------------------------------
  // Button custom ids: `split('_')`, `slice` and `join('_')`
  // ---------------------------------------------------------------------

  /** `s.split(sep)` of JavaScript: the empty string splits into one empty piece. */
  function Split(s: string, sep: char): (parts: seq<string>)
    ensures |parts| >= 1
    decreases |s|
  {
    if s == [] then [""]
    else
      var rest := Split(s[1..], sep);
      if s[0] == sep then [""] + rest else [[s[0]] + rest[0]] + rest[1..]
  }

  /**
   * `parts.join(sep)` of JavaScript: the pieces in order with one separator
   * between neighbours, so the first piece is a prefix, followed by the
   * separator when there are more.
   */
  function Join(parts: seq<string>, sep: char): (r: string)
    ensures parts != [] ==> parts[0] <= r
    ensures |parts| > 1 ==> |parts[0]| < |r| && r[|parts[0]|] == sep
    decreases |parts|
  {
    if parts == [] then ""
    else if |parts| == 1 then parts[0]
    else parts[0] + [sep] + Join(parts[1..], sep)
  }

  /** Joining the pieces of a split gives back the string. */
  lemma {:induction false} JoinSplit(s: string, sep: char)
    ensures Join(Split(s, sep), sep) == s
    decreases |s|
  {
    if s != [] {
      var rest := Split(s[1..], sep);
      JoinSplit(s[1..], sep);
      if s[0] != sep && |rest| > 1 {
        assert Join(rest, sep) == rest[0] + [sep] + Join(rest[1..], sep);
        assert rest[1..][1..] == rest[2..];
      }
    }
  }

  /** A string without the separator splits into itself alone. */
  lemma {:induction false} SplitWhole(s: string, sep: char)
    requires sep !in s
    ensures Split(s, sep) == [s]
    decreases |s|
  {
    if s != [] {
      SplitWhole(s[1..], sep);
      assert [s[0]] + s[1..] == s;
    }
  }

  /** Splitting the join of separator-free pieces gives back the pieces. */
  lemma {:induction false} SplitJoin(parts: seq<string>, sep: char)
    requires parts != []
    requires forall i :: 0 <= i < |parts| ==> sep !in parts[i]
    ensures Split(Join(parts, sep), sep) == parts
    decreases |parts|
  {
    if |parts| == 1 {
      SplitWhole(parts[0], sep);
    } else {
      SplitJoin(parts[1..], sep);
      SplitAtFirst(parts[0], Join(parts[1..], sep), sep);
      assert [parts[0]] + parts[1..] == parts;
    }
  }

  /** No piece of a split contains the separator. */
  lemma {:induction false} SplitPieces(s: string, sep: char)
    ensures forall i :: 0 <= i < |Split(s, sep)| ==> sep !in Split(s, sep)[i]
    decreases |s|
  {
    if s != [] {
      SplitPieces(s[1..], sep);
      var rest := Split(s[1..], sep);
      if s[0] != sep {
        assert sep !in rest[0];
      }
    }
  }

  /** Splitting at the first separator: the head is the text before it. */
  lemma {:induction false} SplitAtFirst(p: string, q: string, sep: char)
    requires sep !in p
    ensures Split(p + [sep] + q, sep) == [p] + Split(q, sep)
    decreases |p|
  {
    var s := p + [sep] + q;
    if p == [] {
      assert s[1..] == q;
    } else {
      assert s[1..] == p[1..] + [sep] + q;
      SplitAtFirst(p[1..], q, sep);
      assert [s[0]] + p[1..] == p;
    }
  }

  /** The two values `handleButton` takes from a custom id. */
  datatype ButtonRoute = ButtonRoute(action: string, eventId: Id)

  /**
   * `handleButton`'s parsing: the action is the first `_`-separated piece and
   * the event id is every later piece joined back with `_`, that is, all the
   * text after the first `_` (empty when there is none).
   */
  function RouteButton(customId: string): (r: ButtonRoute)
    ensures '_' !in r.action
    ensures if '_' in customId then customId == r.action + "_" + r.eventId
            else r.action == customId && r.eventId == ""
  {
    var parts := Split(customId, '_');
    JoinSplit(customId, '_');
    SplitPieces(customId, '_');
    assert |parts| > 1 ==> Join(parts, '_') == parts[0] + "_" + Join(parts[1..], '_');
    assert '_' in customId ==> |parts| > 1;
    ButtonRoute(parts[0], Join(parts[1..], '_'))
  }

  /** The custom id of the check-in button posted for an event. */
  function CheckinButtonId(eventId: Id): string {
    "checkin_" + eventId
  }

  /** The custom id of the end button posted for an event. */
  function EndButtonId(eventId: Id): string {
    "end_event_" + eventId
  }

  /** The check-in button routes to the check-in of exactly its event. */
  lemma CheckinButtonRoutes(eventId: Id)
    ensures RouteButton(CheckinButtonId(eventId)) == ButtonRoute("checkin", eventId)
  {
    SplitAtFirst("checkin", eventId, '_');
    JoinSplit(eventId, '_');
    assert CheckinButtonId(eventId) == "checkin" + ['_'] + eventId;
    assert (["checkin"] + Split(eventId, '_'))[1..] == Split(eventId, '_');
  }

  /**
   * The end button routes to the action "end" but keeps the word "event" in
   * the id: the id it asks to end is `event_` followed by the event's id.
   */
  lemma EndButtonRoutes(eventId: Id)
    ensures RouteButton(EndButtonId(eventId)) == ButtonRoute("end", "event_" + eventId)
  {
    var rest := "event_" + eventId;
    SplitAtFirst("end", rest, '_');
    JoinSplit(rest, '_');
    assert EndButtonId(eventId) == "end" + ['_'] + rest;
    assert (["end"] + Split(rest, '_'))[1..] == Split(rest, '_');
  }

  /** So the end button never names a stored event: catalog ids are all digits. */
  lemma EndButtonMissesCatalog(eventId: Id)
    ensures !IsCatalogId(RouteButton(EndButtonId(eventId)).eventId)
  {
    EndButtonRoutes(eventId);
    var id := "event_" + eventId;
    forall i | 0 <= i < CatalogSize ensures SerialId(i) != id {
      assert IsDigit(SerialId(i)[0]) && id[0] == 'e';
    }
  }

  // ---------------------------------------------------------------------
  // The event-manager role gate
  // ---------------------------------------------------------------------

  /** Who pressed or typed: `roles` is None when the interaction carries no guild member with a role cache. */
  datatype Caller = Caller(userId: Id, tag: string, roles: Option<set<Id>>)

  predicate HoldsRole(caller: Caller, roleId: Id) {
    caller.roles.Some? && roleId in caller.roles.value
  }

  /** The outcome of the permission check shared by `/evento`, `/drop` and the end button. */
  datatype Permission = RoleNotSet | MissingRole | HasRole

  /** What the gate decides for a guild whose config carries `roleId`: the empty id reads as not configured. */
  function GateFor(roleId: Id, caller: Caller): Permission {
    if roleId == "" then RoleNotSet else if HoldsRole(caller, roleId) then HasRole else MissingRole
  }

  /**
   * `!config?.eventManagerRoleId` then `member.roles.cache.has(roleId)`. The
   * configuration is looked at first: without a non-empty role the answer is
   * "not configured" whoever asks; with one, the caller passes exactly when
   * holding it, and a caller without a role cache never passes.
   */
  function Gate(config: Option<BotConfig>, caller: Caller): (p: Permission)
    ensures p == RoleNotSet <==>
              config.None? || config.value.eventManagerRoleId.None? || config.value.eventManagerRoleId.value == ""
    ensures p == HasRole <==>
              && config.Some? && config.value.eventManagerRoleId.Some? && config.value.eventManagerRoleId.value != ""
              && HoldsRole(caller, config.value.eventManagerRoleId.value)
    ensures caller.roles.None? ==> p != HasRole
  {
    if config.None? || config.value.eventManagerRoleId.None? then RoleNotSet
    else GateFor(config.value.eventManagerRoleId.value, caller)
  }

  /** The gate of a guild, given the stored configs: `getBotConfig(guildId)` and then `Gate`. */
  function GuildGate(configs: seq<BotConfig>, guildId: Id, caller: Caller): Permission {
    Gate(ConfigOf(configs, guildId), caller)
  }

  /**
   * After `setEventManagerRole(guildId, roleId)` the gate of that guild lets
   * through exactly the holders of `roleId`, and every other guild's gate is
   * as before.
   */
  lemma GateAfterConfigure(cs: OrderedMap<BotConfig>, next: nat, guildId: Id, roleId: Id, now: Time)
    requires Keyed(cs, ConfigId, next) && DistinctKeys(cs.Values(), ConfigGuildId)
    ensures var r := WithEventManagerRole(cs, next, guildId, roleId, now);
            && (forall caller :: Gate(ConfigOf(r.Values(), guildId), caller) == GateFor(roleId, caller))
            && (forall g :: g != guildId ==> ConfigOf(r.Values(), g) == ConfigOf(cs.Values(), g))
  {
    EventManagerRoleSet(cs, next, guildId, roleId, now);
  }

  // ---------------------------------------------------------------------
  // Interactions and replies
  // ---------------------------------------------------------------------

  /** The command whose permission check produced a refusal. */
  datatype Action = StartAction | EndAction | DropAction

  /** A slash command with its options, as `interaction.commandName` and `interaction.options`. */
  datatype Command =
    | Configure(roleId: Id)
    | StartMenu
    | RegisterDrop(itemName: string, diamonds: int, eventName: string, participants: string)
    | Unrecognised(name: string)

  /** The reply an interaction earns; NoReply where the source replies nothing. */
  datatype Reply =
    | NoReply
    | GuildOnly
    | ConfigUpdated(roleId: Id)
    | SetupMissing(action: Action)
    | PermissionDenied(action: Action)
    | NoEventsToStart
    | ChooseEvent(options: seq<Event>)
    | EventNotFound
    | SendFailed
    | EventStarted(name: string)
    | AlreadyCheckedIn
    | CheckedIn
    | EventEnded(name: string, points: int, participants: nat)
    | DropEventNotFound(eventName: string)
    | DropRegistered(drop: ItemDrop, typedEventName: string)

  /** The reply to a refused permission check. */
  function Refusal(p: Permission, action: Action): Reply {
    if p == RoleNotSet then SetupMissing(action) else PermissionDenied(action)
  }

  /** `events.filter(e => !e.isActive)`. */
  function Inactive(es: seq<Event>): (r: seq<Event>)
    ensures |r| <= |es|
    ensures forall e :: e in r <==> e in es && !e.isActive
    ensures IsSubsequence(r, es)
  {
    if es == [] then []
    else if es[0].isActive then Inactive(es[1..])
    else
      var r := [es[0]] + Inactive(es[1..]);
      assert r[1..] == Inactive(es[1..]);
      r
  }

  /**
   * `handleEventCommand`: the guild's gate first; a manager then gets a menu
   * of the inactive events, or a notice when every event is running. Nothing
   * is stored.
   */
  function EventCommandReply(store: MemStorage, guildId: Id, caller: Caller): (r: Reply)
    reads store
    requires store.Valid()
    ensures var p := Gate(store.GetBotConfig(guildId), caller);
            && (p != HasRole <==> r == Refusal(p, StartAction))
            && (r == NoEventsToStart <==> p == HasRole && forall e :: e in store.events.Values() ==> e.isActive)
            && (r.ChooseEvent? <==> p == HasRole && exists e :: e in store.events.Values() && !e.isActive)
            && (r.ChooseEvent? ==> forall e :: e in r.options <==> e in store.events.Values() && !e.isActive)
            && (r.ChooseEvent? ==> IsSubsequence(r.options, store.events.Values()))
  {
    MenuReply(GuildGate(store.botConfigs.Values(), guildId, caller), store.GetAllEvents())
  }

  /**
   * The reply of `/evento` to a caller with permission `p` over the stored
   * events `es`: a refusal without the role, otherwise a menu of exactly the
   * inactive events, or a notice when every event is running.
   */
  function MenuReply(p: Permission, es: seq<Event>): (r: Reply)
    ensures p != HasRole <==> r == Refusal(p, StartAction)
    ensures r == NoEventsToStart <==> p == HasRole && forall e :: e in es ==> e.isActive
    ensures r.ChooseEvent? <==> p == HasRole && exists e :: e in es && !e.isActive
    ensures r.ChooseEvent? ==> forall e :: e in r.options <==> e in es && !e.isActive
    ensures r.ChooseEvent? ==> IsSubsequence(r.options, es)
  {
    if p != HasRole then Refusal(p, StartAction)
    else
      var inactive := Inactive(es);
      if inactive == [] then NoEventsToStart
      else
        assert inactive[0] in inactive;
        ChooseEvent(inactive)
  }

  /** `events.find(e => e.name.toLowerCase() === name.toLowerCase())`, as an index. */
  function FindByName(es: seq<Event>, name: string): (r: Option<nat>)
    ensures r.Some? ==> r.value < |es| && SameIgnoringCase(es[r.value].name, name)
    ensures r.Some? ==> forall j :: 0 <= j < r.value ==> !SameIgnoringCase(es[j].name, name)
    ensures r.None? <==> forall e :: e in es ==> !SameIgnoringCase(e.name, name)
  {
    if es == [] then None
    else if SameIgnoringCase(es[0].name, name) then Some(0)
    else match FindByName(es[1..], name)
      case None => None
      case Some(i) => Some(i + 1)
  }

  /** The event name typed in `/drop` finds the same event whatever the case of its ASCII letters. */
  lemma {:induction false} FindByNameIgnoresCase(es: seq<Event>, name: string)
    ensures FindByName(es, AsciiUpper(name)) == FindByName(es, name)
  {
    SameIgnoringCaseOfUpper(name);
    if es != [] {
      FindByNameIgnoresCase(es[1..], name);
    }
  }

  // ---------------------------------------------------------------------
  // Handlers: sequences of store calls with early returns
  // ---------------------------------------------------------------------

  /**
   * `handleConfigCommand`: stores the role as the guild's event-manager role.
   * From then on the guild's gate lets through exactly the holders of that
   * role, and no other guild's config changes.
   */
  method HandleConfigCommand(store: MemStorage, guildId: Id, roleId: Id, now: Time) returns (r: Reply)
    requires store.Valid()
    modifies store`botConfigs, store`nextSerial
    ensures store.Valid()
    ensures r == ConfigUpdated(roleId)
    ensures store.botConfigs == WithEventManagerRole(old(store.botConfigs), old(store.nextSerial), guildId, roleId, now)
    ensures store.nextSerial == if ConfigOf(old(store.botConfigs.Values()), guildId).Some? then old(store.nextSerial) else old(store.nextSerial) + 1
    ensures forall caller :: Gate(store.GetBotConfig(guildId), caller) == GateFor(roleId, caller)
    ensures forall g :: g != guildId ==> store.GetBotConfig(g) == old(store.GetBotConfig(g))
  {
    store.SetEventManagerRole(guildId, roleId, now);
    GateAfterConfigure(old(store.botConfigs), old(store.nextSerial), guildId, roleId, now);
    r := ConfigUpdated(roleId);
  }

  /** The member `handleCheckin` creates for a caller who has none. */
  function Newcomer(caller: Caller): InsertMember {
    InsertMember(caller.userId, caller.tag, "Aventureiro", Some(1), Some(0), Some(0))
  }

  /** The member id `handleCheckin` checks in: the caller's member, or the one it is about to create. */
  function CheckinMemberId(members: seq<Member>, nextSerial: nat, discordId: Id): Id {
    match MemberOf(members, discordId)
    case Some(m) => m.id
    case None => SerialId(nextSerial)
  }

  /**
   * What `handleCheckin` does, as a relation between the members `ms`, the
   * participations `ps` and the id oracle `n` before and the primed ones
   * after. The caller's member is reused, or exactly one newcomer is
   * appended under the next id. Then a member with a participation in the
   * event is refused and nothing more is stored; any other gets exactly one
   * participation, under the id drawn after that, and nothing else changes.
   */
  predicate CheckinEffect(ms: seq<Member>, ps: seq<EventParticipation>, n: nat,
                          ms': seq<Member>, ps': seq<EventParticipation>, n': nat,
                          eventId: Id, caller: Caller, now: Time, r: Reply)
  {
    var found := MemberOf(ms, caller.userId);
    var memberId := CheckinMemberId(ms, n, caller.userId);
    var drawn := if found.Some? then n else n + 1;
    && ms' == (if found.Some? then ms else ms + [Member(SerialId(n), caller.userId, caller.tag, "Aventureiro", 1, 0, 0, now)])
    && (if CheckIns(ps, eventId, memberId) > 0
        then r == AlreadyCheckedIn && ps' == ps && n' == drawn
        else r == CheckedIn && ps' == ps + [EventParticipation(SerialId(drawn), eventId, memberId, now)] && n' == drawn + 1)
  }

  /**
   * After a check-in the caller's Discord id finds the member that was
   * checked in, and that member has a participation in the event: exactly
   * one when the reply is "checked in", and an earlier one exactly when the
   * reply is "already checked in".
   */
  lemma CheckinOutcome(ms: seq<Member>, ps: seq<EventParticipation>, n: nat,
                       ms': seq<Member>, ps': seq<EventParticipation>, n': nat,
                       eventId: Id, caller: Caller, now: Time, r: Reply)
    requires CheckinEffect(ms, ps, n, ms', ps', n', eventId, caller, now, r)
    ensures r == AlreadyCheckedIn || r == CheckedIn
    ensures MemberOf(ms', caller.userId).Some?
    ensures MemberOf(ms', caller.userId).value.id == CheckinMemberId(ms, n, caller.userId)
    ensures CheckIns(ps', eventId, CheckinMemberId(ms, n, caller.userId)) > 0
    ensures r == AlreadyCheckedIn <==> CheckIns(ps, eventId, CheckinMemberId(ms, n, caller.userId)) > 0
    ensures r == CheckedIn ==> CheckIns(ps', eventId, CheckinMemberId(ms, n, caller.userId)) == 1
    ensures |ps'| == |ps| + (if r == CheckedIn then 1 else 0)
  {
    var memberId := CheckinMemberId(ms, n, caller.userId);
    if MemberOf(ms, caller.userId).None? {
      LookupAfterAppend(ms, MemberDiscordId, Member(SerialId(n), caller.userId, caller.tag, "Aventureiro", 1, 0, 0, now));
    }
    if r == CheckedIn {
      var drawn := if MemberOf(ms, caller.userId).Some? then n else n + 1;
      CheckInsAppend(ps, EventParticipation(SerialId(drawn), eventId, memberId, now), eventId, memberId);
    }
  }

  /**
   * The first step of `handleCheckin`: the caller's member, created as an
   * "Aventureiro" of level 1 with no power and no points when there is none.
   */
  method MemberFor(store: MemStorage, caller: Caller, now: Time) returns (m: Member)
    requires store.Valid()
    modifies store`members, store`nextSerial
    ensures store.Valid()
    ensures MemberOf(old(store.members.Values()), caller.userId).Some? ==>
              && unchanged(store`members, store`nextSerial)
              && m == MemberOf(old(store.members.Values()), caller.userId).value
    ensures MemberOf(old(store.members.Values()), caller.userId).None? ==>
              && m == Member(SerialId(old(store.nextSerial)), caller.userId, caller.tag, "Aventureiro", 1, 0, 0, now)
              && store.members.Values() == old(store.members.Values()) + [m]
              && store.nextSerial == old(store.nextSerial) + 1
    ensures MemberOf(store.members.Values(), caller.userId) == Some(m)
    ensures m.id == CheckinMemberId(old(store.members.Values()), old(store.nextSerial), caller.userId)
  {
    var member := store.GetMemberByDiscordId(caller.userId);
    if member.Some? {
      m := member.value;
    } else {
      m := store.CreateMember(Newcomer(caller), now);
      LookupAfterAppend(old(store.members.Values()), MemberDiscordId, m);
    }
  }

  /**
   * `handleCheckin`: get or create the caller's member, then refuse a second
   * check-in, otherwise append exactly one participation. Whether the event
   * exists or is running is never consulted.
   */
  method HandleCheckin(store: MemStorage, eventId: Id, caller: Caller, now: Time) returns (r: Reply)
    requires store.Valid()
    modifies store`members, store`eventParticipations, store`nextSerial
    ensures store.Valid()
    ensures MemberOf(old(store.members.Values()), caller.userId).Some? ==> unchanged(store`members)
    ensures r == AlreadyCheckedIn ==> unchanged(store`eventParticipations)
    ensures CheckinEffect(old(store.members.Values()), old(store.eventParticipations.Values()), old(store.nextSerial),
                          store.members.Values(), store.eventParticipations.Values(), store.nextSerial,
                          eventId, caller, now, r)
  {
    ghost var ms, ps, n := store.members.Values(), store.eventParticipations.Values(), store.nextSerial;
    var m := MemberFor(store, caller, now);
    ghost var ms1, n1 := store.members.Values(), store.nextSerial;
    r := CheckInOnce(store, eventId, m.id, now);
    CheckinSteps(ms, ps, n, ms1, n1, m, store.eventParticipations.Values(), store.nextSerial, eventId, caller, now, r);
  }

  /** The two steps of `handleCheckin`, `MemberFor` then `CheckInOnce`, make up `CheckinEffect`. */
  lemma CheckinSteps(ms: seq<Member>, ps: seq<EventParticipation>, n: nat, ms1: seq<Member>, n1: nat, m: Member,
                     ps': seq<EventParticipation>, n': nat, eventId: Id, caller: Caller, now: Time, r: Reply)
    requires MemberOf(ms, caller.userId).Some? ==> ms1 == ms && n1 == n
    requires MemberOf(ms, caller.userId).None? ==>
               ms1 == ms + [Member(SerialId(n), caller.userId, caller.tag, "Aventureiro", 1, 0, 0, now)] && n1 == n + 1
    requires m.id == CheckinMemberId(ms, n, caller.userId)
    requires r == AlreadyCheckedIn <==> CheckIns(ps, eventId, m.id) > 0
    requires r == AlreadyCheckedIn ==> ps' == ps && n' == n1
    requires r != AlreadyCheckedIn ==>
               r == CheckedIn && ps' == ps + [EventParticipation(SerialId(n1), eventId, m.id, now)] && n' == n1 + 1
    ensures CheckinEffect(ms, ps, n, ms1, ps', n', eventId, caller, now, r)
  {
  }

  /**
   * The second step of `handleCheckin`: a member with a participation in the
   * event is refused, any other gets exactly one.
   */
  method CheckInOnce(store: MemStorage, eventId: Id, memberId: Id, now: Time) returns (r: Reply)
    requires store.Valid()
    modifies store`eventParticipations, store`nextSerial
    ensures store.Valid()
    ensures CheckIns(store.eventParticipations.Values(), eventId, memberId) > 0
    ensures r == AlreadyCheckedIn <==> CheckIns(old(store.eventParticipations.Values()), eventId, memberId) > 0
    ensures r == AlreadyCheckedIn ==> unchanged(store`eventParticipations, store`nextSerial)
    ensures r != AlreadyCheckedIn ==>
              && r == CheckedIn
              && store.eventParticipations.Values()
                 == old(store.eventParticipations.Values()) + [EventParticipation(SerialId(old(store.nextSerial)), eventId, memberId, now)]
              && store.nextSerial == old(store.nextSerial) + 1
              && CheckIns(store.eventParticipations.Values(), eventId, memberId) == 1
  {
    if store.HasCheckedIn(eventId, memberId) {
      r := AlreadyCheckedIn;
      return;
    }
    CheckInsPositive(store.eventParticipations.Values(), eventId, memberId);
    store.CheckIn(eventId, memberId, now);
    r := CheckedIn;
  }

  /**
   * What `handleEndEvent` replies and writes, as a relation between the
   * members and events before (`ms`, `es`) and after (`ms'`, `es'`), given
   * the stored configs and participations. A refusal or an unknown id
   * writes nothing. Otherwise every member is credited the event's points
   * once per own participation, the event alone is marked ended, and the
   * reply carries its name, its points and its number of participations.
   */
  predicate EndEffect(configs: seq<BotConfig>, ms: OrderedMap<Member>, es: OrderedMap<Event>, ps: seq<EventParticipation>,
                      ms': OrderedMap<Member>, es': OrderedMap<Event>,
                      guildId: Id, eventId: Id, caller: Caller, now: Time, r: Reply)
    requires ms.Valid()
  {
    var p := GuildGate(configs, guildId, caller);
    if p != HasRole then r == Refusal(p, EndAction) && ms' == ms && es' == es
    else if eventId !in es.entries then r == EventNotFound && ms' == ms && es' == es
    else
      var e := es.entries[eventId];
      && r == EventEnded(e.name, e.points, |ForEvent(ps, eventId)|)
      && ms' == Awarded(ms, ps, eventId, e.points)
      && es'.keys == es.keys
      && es'.entries == es.entries[eventId := Ended(e, now)]
  }

  /**
   * `handleEndEvent`: the gate, then the event lookup, and only then the
   * award. The reply reports the event's name and points and the count the
   * store returns; a refusal or an unknown id writes nothing.
   */
  method HandleEndEvent(store: MemStorage, guildId: Id, eventId: Id, caller: Caller, now: Time) returns (r: Reply)
    requires store.Valid()
    modifies store`members, store`events
    ensures store.Valid()
    ensures r.EventEnded? <==> GuildGate(old(store.botConfigs.Values()), guildId, caller) == HasRole && IsCatalogId(eventId)
    ensures !r.EventEnded? ==> unchanged(store`members, store`events)
    ensures EndEffect(old(store.botConfigs.Values()), old(store.members), old(store.events), store.eventParticipations.Values(),
                      store.members, store.events, guildId, eventId, caller, now, r)
  {
    var permission := GuildGate(store.botConfigs.Values(), guildId, caller);
    if permission != HasRole {
      r := Refusal(permission, EndAction);
      return;
    }
    var event := store.GetEvent(eventId);
    if event.None? {
      r := EventNotFound;
      return;
    }
    var count := store.EndEventAndAwardPoints(eventId, now);
    r := EventEnded(event.value.name, event.value.points, count);
  }

  /**
   * `handleSelectMenu`: the chosen event is started before the channel is
   * checked, so an unusable channel still leaves it started. No permission
   * is checked here; an empty selection finds no event.
   */
  method HandleSelectMenu(store: MemStorage, customId: string, values: seq<Id>, caller: Caller, inTextChannel: bool, now: Time)
    returns (r: Reply)
    requires store.Valid()
    modifies store`events
    ensures store.Valid()
    ensures customId != "select_event" ==> r == NoReply && store.events == old(store.events)
    ensures customId == "select_event" && (values == [] || !IsCatalogId(values[0])) ==>
              r == EventNotFound && store.events == old(store.events)
    ensures customId == "select_event" && values != [] && IsCatalogId(values[0]) ==>
              var e := old(store.events.entries[values[0]]);
              && store.events.keys == old(store.events.keys)
              && store.events.entries == old(store.events.entries)[values[0] := Started(e, caller.tag, now)]
              && r == if inTextChannel then EventStarted(e.name) else SendFailed
  {
    if customId != "select_event" {
      return NoReply;
    }
    if values == [] {
      return EventNotFound;
    }
    var eventId := values[0];
    var event := store.GetEvent(eventId);
    if event.None? {
      return EventNotFound;
    }
    store.StartEvent(eventId, caller.tag, now);
    if !inTextChannel {
      return SendFailed;
    }
    r := EventStarted(event.value.name);
  }

  /**
   * What `handleDropCommand` replies and stores, as a relation between the
   * drops and the id oracle before (`ds`, `n`) and after (`ds'`, `n'`), given
   * the stored configs and events. A refusal, or a name that matches no
   * event, stores nothing. Otherwise exactly one drop is appended under the
   * next id: it carries the first matching event's id and canonical name,
   * the caller's tag and the time, while the reply echoes the typed name.
   */
  predicate DropEffect(configs: seq<BotConfig>, es: seq<Event>, ds: seq<ItemDrop>, n: nat, ds': seq<ItemDrop>, n': nat,
                       guildId: Id, caller: Caller, itemName: string, diamonds: int, eventName: string,
                       participants: string, now: Time, r: Reply)
  {
    var p := GuildGate(configs, guildId, caller);
    var found := FindByName(es, eventName);
    if p != HasRole then r == Refusal(p, DropAction) && ds' == ds && n' == n
    else if found.None? then r == DropEventNotFound(eventName) && ds' == ds && n' == n
    else
      var e := es[found.value];
      var drop := ItemDrop(SerialId(n), itemName, diamonds, e.id, e.name, participants, caller.tag, now);
      r == DropRegistered(drop, eventName) && ds' == ds + [drop] && n' == n + 1
  }

  /**
   * A drop is registered exactly when the gate passes and some event's name
   * matches the typed one ignoring case; the registered drop then names a
   * matching event and is the one new drop.
   */
  lemma DropOutcome(configs: seq<BotConfig>, es: seq<Event>, ds: seq<ItemDrop>, n: nat, ds': seq<ItemDrop>, n': nat,
                    guildId: Id, caller: Caller, itemName: string, diamonds: int, eventName: string,
                    participants: string, now: Time, r: Reply)
    requires DropEffect(configs, es, ds, n, ds', n', guildId, caller, itemName, diamonds, eventName, participants, now, r)
    ensures r.DropRegistered? <==>
              GuildGate(configs, guildId, caller) == HasRole && exists e :: e in es && SameIgnoringCase(e.name, eventName)
    ensures r.DropRegistered? ==>
              && (exists e :: e in es && e.id == r.drop.eventId && e.name == r.drop.eventName)
              && SameIgnoringCase(r.drop.eventName, eventName)
              && ds' == ds + [r.drop]
    ensures !r.DropRegistered? ==> ds' == ds
  {
    var found := FindByName(es, eventName);
    if GuildGate(configs, guildId, caller) == HasRole && found.Some? {
      assert es[found.value] in es;
    }
  }

  /**
   * `handleDropCommand`: the gate, then the first catalog event whose name
   * matches the typed one ignoring case; the stored drop carries that
   * event's id and canonical name, the reply echoes the typed name.
   */
  method HandleDropCommand(store: MemStorage, guildId: Id, caller: Caller, itemName: string, diamonds: int,
                           eventName: string, participants: string, now: Time) returns (r: Reply)
    requires store.Valid()
    modifies store`itemDrops, store`nextSerial
    ensures store.Valid()
    ensures !r.DropRegistered? ==> unchanged(store`itemDrops, store`nextSerial)
    ensures DropEffect(old(store.botConfigs.Values()), old(store.events.Values()), old(store.itemDrops.Values()), old(store.nextSerial),
                       store.itemDrops.Values(), store.nextSerial, guildId, caller, itemName, diamonds, eventName, participants, now, r)
  {
    var permission := GuildGate(store.botConfigs.Values(), guildId, caller);
    if permission != HasRole {
      r := Refusal(permission, DropAction);
      return;
    }
    var events := store.events.Values();
    var found := FindByName(events, eventName);
    if found.None? {
      r := DropEventNotFound(eventName);
      return;
    }
    var event := events[found.value];
    var drop := store.CreateItemDrop(InsertItemDrop(itemName, diamonds, event.id, event.name, participants, caller.tag), now);
    r := DropRegistered(drop, eventName);
  }

  /**
   * `handleButton`: routes by the parsed action to the check-in or the end
   * of the parsed event id. Only the action "end" with a catalog id can end
   * an event, which the end button's own id never is (EndButtonMissesCatalog).
   */
  method HandleButton(store: MemStorage, guildId: Id, customId: string, caller: Caller, now: Time) returns (r: Reply)
    requires store.Valid()
    modifies store`members, store`events, store`eventParticipations, store`nextSerial
    ensures store.Valid()
    ensures RouteButton(customId).action != "checkin" && RouteButton(customId).action != "end" ==>
              r == NoReply && unchanged(store)
    ensures RouteButton(customId).action == "checkin" ==>
              && unchanged(store`events)
              && CheckinEffect(old(store.members.Values()), old(store.eventParticipations.Values()), old(store.nextSerial),
                               store.members.Values(), store.eventParticipations.Values(), store.nextSerial,
                               RouteButton(customId).eventId, caller, now, r)
    ensures RouteButton(customId).action == "end" ==>
              && unchanged(store`eventParticipations, store`nextSerial)
              && EndEffect(old(store.botConfigs.Values()), old(store.members), old(store.events), store.eventParticipations.Values(),
                           store.members, store.events, guildId, RouteButton(customId).eventId, caller, now, r)
    ensures r.EventEnded? <==>
              && RouteButton(customId).action == "end"
              && GuildGate(old(store.botConfigs.Values()), guildId, caller) == HasRole
              && IsCatalogId(RouteButton(customId).eventId)
    ensures RouteButton(customId).action == "end" && !r.EventEnded? ==> unchanged(store`members, store`events)
  {
    var route := RouteButton(customId);
    if route.action == "checkin" {
      r := HandleCheckin(store, route.eventId, caller, now);
    } else if route.action == "end" {
      r := HandleEndEvent(store, guildId, route.eventId, caller, now);
    } else {
      r := NoReply;
    }
  }

  /** `interaction.guildId` is truthy: present and not the empty string. */
  predicate InGuild(guildId: Option<Id>) {
    guildId.Some? && guildId.value != ""
  }

  /**
   * `handleCommand`: outside a guild (no guild id, or the empty one, which
   * JavaScript treats as false) every command is refused; otherwise
   * the command name picks the handler, and an unknown name gets no reply.
   * `/evento` only reads the store.
   */
  method HandleCommand(store: MemStorage, guildId: Option<Id>, command: Command, caller: Caller, now: Time) returns (r: Reply)
    requires store.Valid()
    modifies store`botConfigs, store`itemDrops, store`nextSerial
    ensures store.Valid()
    ensures !InGuild(guildId) ==> r == GuildOnly && unchanged(store)
    ensures InGuild(guildId) && (command.Unrecognised? || command.StartMenu?) ==> unchanged(store)
    ensures InGuild(guildId) && command.Unrecognised? ==> r == NoReply
    ensures InGuild(guildId) && command.StartMenu? ==> r == EventCommandReply(store, guildId.value, caller)
    ensures InGuild(guildId) && command.Configure? ==>
              && r == ConfigUpdated(command.roleId)
              && store.botConfigs == WithEventManagerRole(old(store.botConfigs), old(store.nextSerial), guildId.value, command.roleId, now)
              && store.nextSerial == (if ConfigOf(old(store.botConfigs.Values()), guildId.value).Some? then old(store.nextSerial) else old(store.nextSerial) + 1)
              && unchanged(store`itemDrops)
    ensures InGuild(guildId) && command.RegisterDrop? ==>
              DropEffect(old(store.botConfigs.Values()), old(store.events.Values()), old(store.itemDrops.Values()), old(store.nextSerial),
                         store.itemDrops.Values(), store.nextSerial, guildId.value, caller,
                         command.itemName, command.diamonds, command.eventName, command.participants, now, r)
    ensures !command.Configure? ==> unchanged(store`botConfigs)
    ensures !r.DropRegistered? && !command.Configure? ==> unchanged(store)
  {
    if !InGuild(guildId) {
      return GuildOnly;
    }
    match command
    case Configure(roleId) =>
      r := HandleConfigCommand(store, guildId.value, roleId, now);
    case StartMenu =>
      r := EventCommandReply(store, guildId.value, caller);
    case RegisterDrop(itemName, diamonds, eventName, participants) =>
      r := HandleDropCommand(store, guildId.value, caller, itemName, diamonds, eventName, participants, now);
    case Unrecognised(_) =>
      r := NoReply;
  }
}
