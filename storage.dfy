/**
 * The guild store of server/storage.ts: `MemStorage`, nine JavaScript maps
 * updated in place, and the event lifecycle it runs (start, check-in, end and
 * award points).
 */
module Storage {
  import opened Primitives
  import opened OrderedMaps
  import opened Schema
  import opened Sorting

  /** One entry of the predefined event catalog. */
  datatype CatalogEntry = CatalogEntry(name: string, points: int, emoji: string)

  /** The ten events the store is seeded with, in seeding order. */
  const Catalog: seq<CatalogEntry> := [
    CatalogEntry("Doações", 1, "💰"),
    CatalogEntry("Boss Briare", 2, "🐉"),
    CatalogEntry("Boss Lythea", 4, "🐉"),
    CatalogEntry("Boss Ostiar", 6, "🐉"),
    CatalogEntry("Boss Leo", 6, "🦁"),
    CatalogEntry("Boss da Guilda", 10, "🛡️"),
    CatalogEntry("Guerra de Território", 100, "⚔️"),
    CatalogEntry("Guerra de Cerco", 150, "🏰"),
    CatalogEntry("Boss Aranamed", 8, "🐍"),
    CatalogEntry("Boss Monarca", 10, "👑")
  ]

  /** How many events the catalog seeds. */
  const CatalogSize: nat := 10

  /** One of the ids the oracle handed out while seeding the catalog. */
  ghost predicate IsCatalogId(id: Id) {
    exists i :: 0 <= i < CatalogSize && id == SerialId(i)
  }

  /** A catalog event as seeded: inactive, never started or ended. */
  function SeededEvent(id: Id, c: CatalogEntry): Event {
    Event(id, c.name, c.points, c.emoji, false, None, None, None)
  }

  /** What `startEvent` does to the stored event: no check of its current state. */
  function Started(e: Event, startedBy: string, now: Time): Event {
    e.(isActive := true, startedAt := Some(now), startedBy := Some(startedBy))
  }

  /** What `endEventAndAwardPoints` does to the stored event. */
  function Ended(e: Event, now: Time): Event {
    e.(isActive := false, endedAt := Some(now))
  }

  function Credit(m: Member, amount: int): Member {
    m.(eventPoints := m.eventPoints + amount)
  }

  /** The participations of one event, in store order. */
  function ForEvent(ps: seq<EventParticipation>, eventId: Id): (r: seq<EventParticipation>)
    ensures |r| <= |ps|
    ensures forall p :: p in r <==> p in ps && p.eventId == eventId
    ensures IsSubsequence(r, ps)
  {
    if ps == [] then []
    else
      var last := ps[|ps| - 1];
      assert ps == ps[..|ps| - 1] + [last];
      var tail := if last.eventId == eventId then [last] else [];
      assert IsSubsequence(tail, [last]) by {
        if tail != [] { assert tail[1..] == [last][1..] == []; }
      }
      SubsequenceConcat(ForEvent(ps[..|ps| - 1], eventId), ps[..|ps| - 1], tail, [last]);
      ForEvent(ps[..|ps| - 1], eventId) + tail
  }

  /** How many participation records say that memberId checked in to eventId. */
  function CheckIns(ps: seq<EventParticipation>, eventId: Id, memberId: Id): nat {
    if ps == [] then 0
    else
      var last := ps[|ps| - 1];
      CheckIns(ps[..|ps| - 1], eventId, memberId) + (if last.eventId == eventId && last.memberId == memberId then 1 else 0)
  }

  /**
   * The members after the award of one event: each member gains `points` once
   * for every participation record of that event that names it.
   */
  function Awarded(ms: OrderedMap<Member>, ps: seq<EventParticipation>, eventId: Id, points: int): (r: OrderedMap<Member>)
    requires ms.Valid()
    ensures r.Valid() && r.keys == ms.keys && r.entries.Keys == ms.entries.Keys
  {
    OrderedMap(ms.keys, map k | k in ms.entries :: Credit(ms.entries[k], points * CheckIns(ps, eventId, k)))
  }

  function MemberDiscordId(m: Member): Id { m.discordId }
  function UserDiscordId(u: User): Id { u.discordId }
  function ConfigGuildId(c: BotConfig): Id { c.guildId }
  function DropTime(d: ItemDrop): int { d.createdAt }
  function ActivityTime(a: Activity): int { a.createdAt }

  /** The end index of `xs.slice(0, limit)` on a list of length n. */
  function SliceEnd(limit: int, n: nat): (e: nat)
    ensures e <= n
    ensures 0 <= limit ==> e == if limit < n then limit else n
    ensures limit < 0 ==> e == if n + limit < 0 then 0 else n + limit
  {
    if limit < 0 then (if n + limit < 0 then 0 else n + limit) else if limit < n then limit else n
  }

  /** The `find` of `getMemberByDiscordId`, over the members' values. */
  function MemberOf(members: seq<Member>, discordId: Id): Option<Member> {
    Lookup(members, MemberDiscordId, discordId)
  }

  /** The `find` of `getBotConfig`, over the configs' values. */
  function ConfigOf(configs: seq<BotConfig>, guildId: Id): Option<BotConfig> {
    Lookup(configs, ConfigGuildId, guildId)
  }

  function MemberId(m: Member): Id { m.id }
  function ConfigId(c: BotConfig): Id { c.id }
  function ParticipationId(p: EventParticipation): Id { p.id }
  function DropId(d: ItemDrop): Id { d.id }
  function UserId(u: User): Id { u.id }

  /**
   * The events are the seeded ones, stored under their own ids in seeding
   * order: the i-th event has the oracle's i-th id, and no event is ever
   * added or removed.
   */
  ghost predicate CatalogStored(events: OrderedMap<Event>) {
    && events.Valid()
    && (forall k :: k in events.entries ==> events.entries[k].id == k)
    && |events.keys| == CatalogSize
    && (forall i :: 0 <= i < |events.keys| ==> events.keys[i] == SerialId(i))
  }

  /**
   * The store's invariant over its field values: every record is stored
   * under its own id and no id the oracle has yet to hand out is a key; the
   * catalog never gains or loses an event; guild ids and Discord ids stay
   * unique under the two upserts.
   */
  ghost predicate StoreOk(m: OrderedMap<Member>, e: OrderedMap<Event>, a: OrderedMap<Activity>, mi: OrderedMap<MarketplaceItem>,
    pt: OrderedMap<PointTransfer>, c: OrderedMap<BotConfig>, p: OrderedMap<EventParticipation>, d: OrderedMap<ItemDrop>,
    u: OrderedMap<User>, n: nat)
  {
    && Keyed(m, MemberId, n)
    && CatalogStored(e)
    && a.Valid() && mi.Valid() && pt.Valid()
    && Keyed(c, ConfigId, n) && DistinctKeys(c.Values(), ConfigGuildId)
    && Keyed(p, ParticipationId, n)
    && Keyed(d, DropId, n)
    && Keyed(u, UserId, n) && DistinctKeys(u.Values(), UserDiscordId)
  }

  /** Replacing the members by a keyed map keeps the invariant. */
  lemma MembersReplaced(m: OrderedMap<Member>, e: OrderedMap<Event>, a: OrderedMap<Activity>, mi: OrderedMap<MarketplaceItem>,
    pt: OrderedMap<PointTransfer>, c: OrderedMap<BotConfig>, p: OrderedMap<EventParticipation>, d: OrderedMap<ItemDrop>,
    u: OrderedMap<User>, n: nat, m': OrderedMap<Member>, n': nat)
    requires StoreOk(m, e, a, mi, pt, c, p, d, u, n) && n <= n'
    requires Keyed(m', MemberId, n')
    ensures StoreOk(m', e, a, mi, pt, c, p, d, u, n')
  {
  }

  /** Replacing the events by the catalog keeps the invariant. */
  lemma EventsReplaced(m: OrderedMap<Member>, e: OrderedMap<Event>, a: OrderedMap<Activity>, mi: OrderedMap<MarketplaceItem>,
    pt: OrderedMap<PointTransfer>, c: OrderedMap<BotConfig>, p: OrderedMap<EventParticipation>, d: OrderedMap<ItemDrop>,
    u: OrderedMap<User>, n: nat, e': OrderedMap<Event>, n': nat)
    requires StoreOk(m, e, a, mi, pt, c, p, d, u, n) && n <= n'
    requires CatalogStored(e')
    ensures StoreOk(m, e', a, mi, pt, c, p, d, u, n')
  {
  }

  /** Replacing the configs by a keyed map with one config per guild keeps the invariant. */
  lemma ConfigsReplaced(m: OrderedMap<Member>, e: OrderedMap<Event>, a: OrderedMap<Activity>, mi: OrderedMap<MarketplaceItem>,
    pt: OrderedMap<PointTransfer>, c: OrderedMap<BotConfig>, p: OrderedMap<EventParticipation>, d: OrderedMap<ItemDrop>,
    u: OrderedMap<User>, n: nat, c': OrderedMap<BotConfig>, n': nat)
    requires StoreOk(m, e, a, mi, pt, c, p, d, u, n) && n <= n'
    requires Keyed(c', ConfigId, n') && DistinctKeys(c'.Values(), ConfigGuildId)
    ensures StoreOk(m, e, a, mi, pt, c', p, d, u, n')
  {
  }

  /** Replacing the participations by a keyed map keeps the invariant. */
  lemma ParticipationsReplaced(m: OrderedMap<Member>, e: OrderedMap<Event>, a: OrderedMap<Activity>, mi: OrderedMap<MarketplaceItem>,
    pt: OrderedMap<PointTransfer>, c: OrderedMap<BotConfig>, p: OrderedMap<EventParticipation>, d: OrderedMap<ItemDrop>,
    u: OrderedMap<User>, n: nat, p': OrderedMap<EventParticipation>, n': nat)
    requires StoreOk(m, e, a, mi, pt, c, p, d, u, n) && n <= n'
    requires Keyed(p', ParticipationId, n')
    ensures StoreOk(m, e, a, mi, pt, c, p', d, u, n')
  {
  }

  /** Replacing the drops by a keyed map keeps the invariant. */
  lemma DropsReplaced(m: OrderedMap<Member>, e: OrderedMap<Event>, a: OrderedMap<Activity>, mi: OrderedMap<MarketplaceItem>,
    pt: OrderedMap<PointTransfer>, c: OrderedMap<BotConfig>, p: OrderedMap<EventParticipation>, d: OrderedMap<ItemDrop>,
    u: OrderedMap<User>, n: nat, d': OrderedMap<ItemDrop>, n': nat)
    requires StoreOk(m, e, a, mi, pt, c, p, d, u, n) && n <= n'
    requires Keyed(d', DropId, n')
    ensures StoreOk(m, e, a, mi, pt, c, p, d', u, n')
  {
  }

  /** Replacing the users by a keyed map with one user per Discord id keeps the invariant. */
  lemma UsersReplaced(m: OrderedMap<Member>, e: OrderedMap<Event>, a: OrderedMap<Activity>, mi: OrderedMap<MarketplaceItem>,
    pt: OrderedMap<PointTransfer>, c: OrderedMap<BotConfig>, p: OrderedMap<EventParticipation>, d: OrderedMap<ItemDrop>,
    u: OrderedMap<User>, n: nat, u': OrderedMap<User>, n': nat)
    requires StoreOk(m, e, a, mi, pt, c, p, d, u, n) && n <= n'
    requires Keyed(u', UserId, n') && DistinctKeys(u'.Values(), UserDiscordId)
    ensures StoreOk(m, e, a, mi, pt, c, p, d, u', n')
  {
  }

  class MemStorage {
    var members: OrderedMap<Member>
    var events: OrderedMap<Event>
    var activities: OrderedMap<Activity>
    var marketplaceItems: OrderedMap<MarketplaceItem>
    var pointTransfers: OrderedMap<PointTransfer>
    var botConfigs: OrderedMap<BotConfig>
    var eventParticipations: OrderedMap<EventParticipation>
    var itemDrops: OrderedMap<ItemDrop>
    var users: OrderedMap<User>
    /** The id oracle that stands for `randomUUID()`: the serial of the next id. */
    var nextSerial: nat

    ghost predicate Valid()
      reads this
    {
      StoreOk(members, events, activities, marketplaceItems, pointTransfers, botConfigs, eventParticipations, itemDrops, users, nextSerial)
    }

    constructor ()
      ensures Valid()
      ensures nextSerial == CatalogSize
      ensures |events.Values()| == |Catalog|
      ensures forall i :: 0 <= i < |Catalog| ==> events.Values()[i] == SeededEvent(SerialId(i), Catalog[i])
      ensures members.Values() == [] && activities.Values() == [] && marketplaceItems.Values() == []
      ensures pointTransfers.Values() == [] && botConfigs.Values() == [] && eventParticipations.Values() == []
      ensures itemDrops.Values() == [] && users.Values() == []
    {
      members := Empty();
      events := Empty();
      activities := Empty();
      marketplaceItems := Empty();
      pointTransfers := Empty();
      botConfigs := Empty();
      eventParticipations := Empty();
      itemDrops := Empty();
      users := Empty();
      nextSerial := 0;
      new;
      InitializeEvents(Catalog);
    }

    /**
     * Seeds the events, each under a freshly drawn id, in the order given.
     * The constructor passes the predefined catalog.
     */
    method InitializeEvents(catalog: seq<CatalogEntry>)
      requires events == Empty() && nextSerial == 0 && |catalog| == CatalogSize
      modifies this`events, this`nextSerial
      ensures nextSerial == CatalogSize
      ensures CatalogStored(events)
      ensures forall i :: 0 <= i < |catalog| ==> events.Values()[i] == SeededEvent(SerialId(i), catalog[i])
    {
      var i := 0;
      while i < |catalog|
        invariant 0 <= i <= |catalog| && nextSerial == i
        invariant SeededUpTo(events, catalog, i)
      {
        var id := NewId();
        SeedStep(events, catalog, i);
        events := events.Set(id, SeededEvent(id, catalog[i]));
        i := i + 1;
      }
      SeededAll(events, catalog);
    }

    /** Draws the next id from the oracle. */
    method NewId() returns (id: Id)
      modifies this`nextSerial
      ensures id == SerialId(old(nextSerial)) && nextSerial == old(nextSerial) + 1
    {
      id := SerialId(nextSerial);
      nextSerial := nextSerial + 1;
    }

    /** `getEvent(id)`: the stored event, if the id is a catalog id. */
    function GetEvent(id: Id): (r: Option<Event>)
      reads this
      requires Valid()
      ensures r.Some? <==> IsCatalogId(id)
      ensures r.Some? ==> r.value.id == id && r.value in events.Values()
    {
      if id in events.entries then
        var i := events.IndexOf(id);
        assert events.Values()[i] == events.entries[id];
        Some(events.entries[id])
      else
        assert forall i :: 0 <= i < CatalogSize ==> events.keys[i] in events.entries;
        None
    }

    /** `getAllEvents()`: the whole catalog, in seeding order. */
    function GetAllEvents(): (r: seq<Event>)
      reads this
      requires Valid()
      ensures |r| == CatalogSize
      ensures forall i :: 0 <= i < |r| ==> r[i].id == SerialId(i) && r[i] == events.entries[SerialId(i)]
    {
      events.Values()
    }

    /** `getActiveEvents()`: the active events, in catalog order. */
    function GetActiveEvents(): (r: seq<Event>)
      reads this
      requires Valid()
      ensures forall e :: e in r <==> e in events.Values() && e.isActive
      ensures IsSubsequence(r, events.Values())
    {
      ActiveOnly(events.Values())
    }

    /**
     * `getMemberByDiscordId`: the first member, in insertion order, with that
     * Discord id (`createMember` does not keep Discord ids unique).
     */
    function GetMemberByDiscordId(discordId: Id): (r: Option<Member>)
      reads this
      requires Valid()
      ensures r.Some? ==> r.value.discordId == discordId && r.value.id in members.entries && members.entries[r.value.id] == r.value
      ensures r.Some? ==> exists i :: 0 <= i < |members.Values()| && members.Values()[i] == r.value
                                      && forall j :: 0 <= j < i ==> members.Values()[j].discordId != discordId
      ensures r.None? <==> forall m :: m in members.Values() ==> m.discordId != discordId
    {
      StoredUnderId(members, MemberId, nextSerial, MemberOf(members.Values(), discordId));
      MemberOf(members.Values(), discordId)
    }

    /** `getBotConfig(guildId)`: the config stored for that guild. */
    function GetBotConfig(guildId: Id): (r: Option<BotConfig>)
      reads this
      requires Valid()
      ensures r.Some? ==> r.value.guildId == guildId && r.value.id in botConfigs.entries && botConfigs.entries[r.value.id] == r.value
      ensures r.None? <==> forall c :: c in botConfigs.Values() ==> c.guildId != guildId
    {
      StoredUnderId(botConfigs, ConfigId, nextSerial, ConfigOf(botConfigs.Values(), guildId));
      ConfigOf(botConfigs.Values(), guildId)
    }

    /** `getUserByDiscordId(discordId)`. */
    function GetUserByDiscordId(discordId: Id): (r: Option<User>)
      reads this
      requires Valid()
      ensures r.Some? ==> r.value.discordId == discordId && r.value.id in users.entries && users.entries[r.value.id] == r.value
      ensures r.None? <==> forall u :: u in users.Values() ==> u.discordId != discordId
    {
      StoredUnderId(users, UserId, nextSerial, Lookup(users.Values(), UserDiscordId, discordId));
      Lookup(users.Values(), UserDiscordId, discordId)
    }

    /** `hasCheckedIn(eventId, memberId)`: some participation names both ids. */
    function HasCheckedIn(eventId: Id, memberId: Id): (r: bool)
      reads this
      requires Valid()
      ensures r <==> exists p :: p in eventParticipations.Values() && p.eventId == eventId && p.memberId == memberId
    {
      CheckInsPositive(eventParticipations.Values(), eventId, memberId);
      CheckIns(eventParticipations.Values(), eventId, memberId) > 0
    }

    /**
     * `getRecentActivities(limit)`: newest first, then `slice(0, limit)`; no
     * activity left out is newer than one returned, and activities of the same
     * instant keep their insertion order.
     */
    function GetRecentActivities(limit: int): (r: seq<Activity>)
      reads this
      requires Valid()
      ensures |r| == SliceEnd(limit, |activities.keys|)
      ensures multiset(r) <= multiset(activities.Values())
      ensures NonIncreasing(r, ActivityTime)
      ensures forall a, b :: a in r && b in activities.Values() && b !in r ==> ActivityTime(a) >= ActivityTime(b)
      ensures forall t :: WithKey(r, ActivityTime, t) <= WithKey(activities.Values(), ActivityTime, t)
    {
      var vs := activities.Values();
      var n := SliceEnd(limit, |vs|);
      SortDescPrefix(vs, ActivityTime, n);
      SortDescPrefixStable(vs, ActivityTime, n);
      SortDesc(vs, ActivityTime)[..n]
    }

    /** `getItemDrops()`: every drop, newest first, drops of the same instant in insertion order. */
    function GetItemDrops(): (r: seq<ItemDrop>)
      reads this
      requires Valid()
      ensures multiset(r) == multiset(itemDrops.Values())
      ensures NonIncreasing(r, DropTime)
      ensures forall t :: WithKey(r, DropTime, t) == WithKey(itemDrops.Values(), DropTime, t)
    {
      SortDescPermutes(itemDrops.Values(), DropTime);
      SortDescOrders(itemDrops.Values(), DropTime);
      SortDescStableAll(itemDrops.Values(), DropTime);
      SortDesc(itemDrops.Values(), DropTime)
    }

    /**
     * `createMember`: stores one new member under a fresh id; omitted level,
     * power and eventPoints default to 1, 0 and 0.
     */
    method CreateMember(insert: InsertMember, now: Time) returns (m: Member)
      requires Valid()
      modifies this`members, this`nextSerial
      ensures Valid()
      ensures m == Member(SerialId(old(nextSerial)), insert.discordId, insert.name, insert.gameClass,
                          insert.level.GetOr(1), insert.power.GetOr(0), insert.eventPoints.GetOr(0), now)
      ensures m.id !in old(members.entries)
      ensures members.Values() == old(members.Values()) + [m]
      ensures members.entries == old(members.entries)[m.id := m]
      ensures nextSerial == old(nextSerial) + 1
    {
      var id := NewId();
      m := Member(id, insert.discordId, insert.name, insert.gameClass,
                  insert.level.GetOr(1), insert.power.GetOr(0), insert.eventPoints.GetOr(0), now);
      KeyedInsert(members, MemberId, old(nextSerial), m);
      members := members.Set(id, m);
      MembersReplaced(old(members), events, activities, marketplaceItems, pointTransfers, botConfigs, eventParticipations, itemDrops, users, old(nextSerial), members, nextSerial);
    }

    /**
     * `startEvent`: an event that exists becomes active and is stamped with
     * the start time and the starter, whatever its state was; an unknown id
     * changes nothing.
     */
    method StartEvent(eventId: Id, startedBy: string, now: Time)
      requires Valid()
      modifies this`events
      ensures Valid()
      ensures events.keys == old(events.keys)
      ensures eventId in old(events.entries) ==>
                events.entries == old(events.entries)[eventId := Started(old(events.entries[eventId]), startedBy, now)]
      ensures eventId !in old(events.entries) ==> events == old(events)
    {
      var found := events.Get(eventId);
      if found.Some? {
        CatalogStoredSet(events, eventId, Started(found.value, startedBy, now));
        events := events.Set(eventId, Started(found.value, startedBy, now));
        EventsReplaced(members, old(events), activities, marketplaceItems, pointTransfers, botConfigs, eventParticipations, itemDrops, users, old(nextSerial), events, nextSerial);
      }
    }

    /**
     * `endEventAndAwardPoints`: for an unknown id returns 0 and changes
     * nothing. Otherwise every participation of the event credits the event's
     * points to the member it names (if that member exists), the event is
     * marked inactive and ended, and the number of participations of the
     * event is returned. Neither the participations nor `isActive` are
     * consulted beforehand, so ending again awards again.
     */
    method EndEventAndAwardPoints(eventId: Id, now: Time) returns (count: nat)
      requires Valid()
      modifies this`members, this`events
      ensures Valid()
      ensures eventId !in old(events.entries) ==> count == 0 && members == old(members) && events == old(events)
      ensures eventId in old(events.entries) ==>
                && count == |ForEvent(eventParticipations.Values(), eventId)|
                && members == Awarded(old(members), eventParticipations.Values(), eventId, old(events.entries[eventId]).points)
                && events.keys == old(events.keys)
                && events.entries == old(events.entries)[eventId := Ended(old(events.entries[eventId]), now)]
    {
      var found := events.Get(eventId);
      if found.None? {
        return 0;
      }
      var event := found.value;
      var participations := ForEvent(eventParticipations.Values(), eventId);
      AwardedForEvent(members, eventParticipations.Values(), eventId, event.points);
      AwardedKeyed(members, eventParticipations.Values(), eventId, event.points, nextSerial);
      members := AwardParticipants(members, participations, eventId, event.points);
      MembersReplaced(old(members), events, activities, marketplaceItems, pointTransfers, botConfigs, eventParticipations, itemDrops, users, old(nextSerial), members, nextSerial);
      CatalogStoredSet(events, eventId, Ended(event, now));
      events := events.Set(eventId, Ended(event, now));
      EventsReplaced(members, old(events), activities, marketplaceItems, pointTransfers, botConfigs, eventParticipations, itemDrops, users, old(nextSerial), events, nextSerial);
      count := |participations|;
    }

    /**
     * `checkIn`: always stores one new participation under a fresh id; there
     * is no check for an earlier one, for the event or for the member.
     */
    method CheckIn(eventId: Id, memberId: Id, now: Time)
      requires Valid()
      modifies this`eventParticipations, this`nextSerial
      ensures Valid()
      ensures SerialId(old(nextSerial)) !in old(eventParticipations.entries)
      ensures eventParticipations.Values()
              == old(eventParticipations.Values()) + [EventParticipation(SerialId(old(nextSerial)), eventId, memberId, now)]
      ensures nextSerial == old(nextSerial) + 1
      ensures CheckIns(eventParticipations.Values(), eventId, memberId)
              == CheckIns(old(eventParticipations.Values()), eventId, memberId) + 1
    {
      var id := NewId();
      var participation := EventParticipation(id, eventId, memberId, now);
      KeyedInsert(eventParticipations, ParticipationId, old(nextSerial), participation);
      eventParticipations := eventParticipations.Set(id, participation);
      ParticipationsReplaced(members, events, activities, marketplaceItems, pointTransfers, botConfigs, old(eventParticipations), itemDrops, users, old(nextSerial), eventParticipations, nextSerial);
      CheckInsAppend(old(eventParticipations.Values()), participation, eventId, memberId);
    }

    /**
     * `setEventManagerRole`: an upsert keyed by guild. An existing config
     * keeps its id and place and gets the role and a new timestamp; otherwise
     * one new config is stored under a fresh id.
     */
    method SetEventManagerRole(guildId: Id, roleId: Id, now: Time)
      requires Valid()
      modifies this`botConfigs, this`nextSerial
      ensures Valid()
      ensures botConfigs == WithEventManagerRole(old(botConfigs), old(nextSerial), guildId, roleId, now)
      ensures nextSerial == if old(GetBotConfig(guildId)).Some? then old(nextSerial) else old(nextSerial) + 1
    {
      var config := GetBotConfig(guildId);
      if config.Some? {
        var c := config.value.(eventManagerRoleId := Some(roleId), updatedAt := now);
        botConfigs := botConfigs.Set(c.id, c);
      } else {
        var id := NewId();
        botConfigs := botConfigs.Set(id, BotConfig(id, guildId, Some(roleId), now));
      }
      EventManagerRoleSet(old(botConfigs), old(nextSerial), guildId, roleId, now);
      ConfigsReplaced(members, events, activities, marketplaceItems, pointTransfers, old(botConfigs), eventParticipations, itemDrops, users, old(nextSerial), botConfigs, nextSerial);
    }

    /**
     * `createItemDrop`: stores the payload as one new drop under a fresh id;
     * a drop newer than every earlier one heads `getItemDrops()`.
     */
    method CreateItemDrop(insert: InsertItemDrop, now: Time) returns (drop: ItemDrop)
      requires Valid()
      modifies this`itemDrops, this`nextSerial
      ensures Valid()
      ensures drop == ItemDrop(SerialId(old(nextSerial)), insert.itemName, insert.diamondValue, insert.eventId,
                               insert.eventName, insert.participants, insert.addedBy, now)
      ensures drop.id !in old(itemDrops.entries)
      ensures itemDrops.Values() == old(itemDrops.Values()) + [drop]
      ensures nextSerial == old(nextSerial) + 1
      ensures (forall d :: d in old(itemDrops.Values()) ==> d.createdAt < now) ==> GetItemDrops()[0] == drop
    {
      var id := NewId();
      drop := ItemDrop(id, insert.itemName, insert.diamondValue, insert.eventId,
                       insert.eventName, insert.participants, insert.addedBy, now);
      KeyedInsert(itemDrops, DropId, old(nextSerial), drop);
      itemDrops := itemDrops.Set(id, drop);
      DropsReplaced(members, events, activities, marketplaceItems, pointTransfers, botConfigs, eventParticipations, old(itemDrops), users, old(nextSerial), itemDrops, nextSerial);
      if forall d :: d in old(itemDrops.Values()) ==> d.createdAt < now {
        StrictMaximumFirst(old(itemDrops.Values()), drop, DropTime);
      }
    }

    /**
     * `createOrUpdateUser`: an upsert keyed by Discord id. An existing user
     * keeps its id and createdAt and takes every other field from the
     * payload; otherwise one new user is stored under a fresh id.
     */
    method CreateOrUpdateUser(data: InsertUser, now: Time) returns (u: User)
      requires Valid()
      modifies this`users, this`nextSerial
      ensures Valid()
      ensures u == UserFromPayload(old(GetUserByDiscordId(data.discordId)), old(nextSerial), data, now)
      ensures users == WithUser(old(users), old(nextSerial), data, now)
      ensures nextSerial == if old(GetUserByDiscordId(data.discordId)).Some? then old(nextSerial) else old(nextSerial) + 1
    {
      var existing := GetUserByDiscordId(data.discordId);
      if existing.Some? {
        var e := existing.value;
        u := e.(username := data.username, discriminator := data.discriminator, email := data.email,
                avatar := data.avatar, accessToken := data.accessToken,
                refreshToken := data.refreshToken, updatedAt := now);
        users := users.Set(e.id, u);
      } else {
        var id := NewId();
        u := User(id, data.discordId, data.username, data.discriminator, data.email,
                  data.avatar, data.accessToken, data.refreshToken, now, now);
        users := users.Set(id, u);
      }
      UserUpserted(old(users), old(nextSerial), data, now);
      UsersReplaced(members, events, activities, marketplaceItems, pointTransfers, botConfigs, eventParticipations, itemDrops, old(users), old(nextSerial), users, nextSerial);
    }
  }

  /** The first n entries of the catalog are seeded, the i-th under the oracle's i-th id. */
  ghost predicate SeededUpTo(events: OrderedMap<Event>, catalog: seq<CatalogEntry>, n: nat) {
    && n <= |catalog|
    && events.Valid() && |events.keys| == n
    && (forall j :: 0 <= j < n ==> events.keys[j] == SerialId(j))
    && (forall j :: 0 <= j < n ==> events.entries[events.keys[j]] == SeededEvent(SerialId(j), catalog[j]))
  }

  lemma SeedStep(events: OrderedMap<Event>, catalog: seq<CatalogEntry>, n: nat)
    requires SeededUpTo(events, catalog, n) && n < |catalog|
    ensures SerialId(n) !in events.entries
    ensures SeededUpTo(events.Set(SerialId(n), SeededEvent(SerialId(n), catalog[n])), catalog, n + 1)
  {
    forall j | 0 <= j < n ensures events.keys[j] != SerialId(n) {
      if events.keys[j] == SerialId(n) {
        SerialIdInjective(j, n);
      }
    }
  }

  lemma SeededAll(events: OrderedMap<Event>, catalog: seq<CatalogEntry>)
    requires SeededUpTo(events, catalog, |catalog|) && |catalog| == CatalogSize
    ensures CatalogStored(events)
    ensures forall i :: 0 <= i < |catalog| ==> events.Values()[i] == SeededEvent(SerialId(i), catalog[i])
  {
  }

  /**
   * The config `setEventManagerRole` stores: the one found for the guild
   * with the role and time set, or a new one under the serial `next`.
   */
  function ConfigWithRole(found: Option<BotConfig>, next: nat, guildId: Id, roleId: Id, now: Time): BotConfig {
    match found
    case Some(c) => c.(eventManagerRoleId := Some(roleId), updatedAt := now)
    case None => BotConfig(SerialId(next), guildId, Some(roleId), now)
  }

  /** The configs after `setEventManagerRole`, with `next` the oracle's next serial. */
  function WithEventManagerRole(cs: OrderedMap<BotConfig>, next: nat, guildId: Id, roleId: Id, now: Time): OrderedMap<BotConfig>
    requires cs.Valid()
  {
    var c := ConfigWithRole(ConfigOf(cs.Values(), guildId), next, guildId, roleId, now);
    cs.Set(c.id, c)
  }

  /**
   * After `setEventManagerRole` the guild's config carries the role, every
   * other guild's config is as before, an existing config keeps its id and
   * place, and there is still one config per guild.
   */
  lemma EventManagerRoleSet(cs: OrderedMap<BotConfig>, next: nat, guildId: Id, roleId: Id, now: Time)
    requires Keyed(cs, ConfigId, next) && DistinctKeys(cs.Values(), ConfigGuildId)
    ensures var found := ConfigOf(cs.Values(), guildId);
            var r := WithEventManagerRole(cs, next, guildId, roleId, now);
            && Keyed(r, ConfigId, if found.Some? then next else next + 1)
            && DistinctKeys(r.Values(), ConfigGuildId)
            && ConfigOf(r.Values(), guildId).Some?
            && ConfigOf(r.Values(), guildId).value.eventManagerRoleId == Some(roleId)
            && ConfigOf(r.Values(), guildId).value.updatedAt == now
            && (forall g :: g != guildId ==> ConfigOf(r.Values(), g) == ConfigOf(cs.Values(), g))
            && (found.Some? ==> r.keys == cs.keys && ConfigOf(r.Values(), guildId).value.id == found.value.id)
            && (found.None? ==> r.Values() == cs.Values() + [ConfigWithRole(found, next, guildId, roleId, now)])
  {
    var vs := cs.Values();
    var c := ConfigWithRole(ConfigOf(vs, guildId), next, guildId, roleId, now);
    match FindByKey(vs, ConfigGuildId, guildId)
    case Some(i) =>
      UpsertReplace(cs, ConfigId, ConfigGuildId, next, i, c);
    case None =>
      UpsertAppend(cs, ConfigId, ConfigGuildId, next, c);
  }

  /**
   * The user `createOrUpdateUser` stores: the one found for the Discord id
   * with every payload field taken over, or a new one under the serial `next`.
   */
  function UserFromPayload(found: Option<User>, next: nat, data: InsertUser, now: Time): User {
    match found
    case Some(e) =>
      e.(username := data.username, discriminator := data.discriminator, email := data.email,
         avatar := data.avatar, accessToken := data.accessToken,
         refreshToken := data.refreshToken, updatedAt := now)
    case None =>
      User(SerialId(next), data.discordId, data.username, data.discriminator, data.email,
           data.avatar, data.accessToken, data.refreshToken, now, now)
  }

  /** The users after `createOrUpdateUser`, with `next` the oracle's next serial. */
  function WithUser(us: OrderedMap<User>, next: nat, data: InsertUser, now: Time): OrderedMap<User>
    requires us.Valid()
  {
    var u := UserFromPayload(Lookup(us.Values(), UserDiscordId, data.discordId), next, data, now);
    us.Set(u.id, u)
  }

  /**
   * After `createOrUpdateUser` the Discord id finds the stored user, every
   * other Discord id finds what it found before, an existing user keeps its
   * id, place and creation time, and there is still one user per Discord id.
   */
  lemma UserUpserted(us: OrderedMap<User>, next: nat, data: InsertUser, now: Time)
    requires Keyed(us, UserId, next) && DistinctKeys(us.Values(), UserDiscordId)
    ensures var found := Lookup(us.Values(), UserDiscordId, data.discordId);
            var u := UserFromPayload(found, next, data, now);
            var r := WithUser(us, next, data, now);
            && Keyed(r, UserId, if found.Some? then next else next + 1)
            && DistinctKeys(r.Values(), UserDiscordId)
            && Lookup(r.Values(), UserDiscordId, data.discordId) == Some(u)
            && (forall d :: d != data.discordId ==> Lookup(r.Values(), UserDiscordId, d) == Lookup(us.Values(), UserDiscordId, d))
            && (found.Some? ==> r.keys == us.keys && u.id == found.value.id && u.createdAt == found.value.createdAt)
            && (found.None? ==> r.Values() == us.Values() + [u])
  {
    var vs := us.Values();
    var u := UserFromPayload(Lookup(vs, UserDiscordId, data.discordId), next, data, now);
    match FindByKey(vs, UserDiscordId, data.discordId)
    case Some(i) =>
      UpsertReplace(us, UserId, UserDiscordId, next, i, u);
    case None =>
      UpsertAppend(us, UserId, UserDiscordId, next, u);
  }

  lemma CatalogStoredSet(es: OrderedMap<Event>, id: Id, e: Event)
    requires CatalogStored(es) && id in es.entries && e.id == id
    ensures CatalogStored(es.Set(id, e))
  {
  }

  /** A value found in a keyed map's values is stored under its own id. */
  lemma StoredUnderId<V>(m: OrderedMap<V>, id: V -> Id, next: nat, r: Option<V>)
    requires Keyed(m, id, next) && (r.Some? ==> r.value in m.Values())
    ensures r.Some? ==> id(r.value) in m.entries && m.entries[id(r.value)] == r.value
  {
    if r.Some? {
      var i :| 0 <= i < |m.keys| && m.Values()[i] == r.value;
      assert m.entries[m.keys[i]] == r.value;
    }
  }

  /** `events.filter(event => event.isActive)`. */
  function ActiveOnly(es: seq<Event>): (r: seq<Event>)
    ensures forall e :: e in r <==> e in es && e.isActive
    ensures IsSubsequence(r, es)
  {
    if es == [] then []
    else if es[0].isActive then
      var r := [es[0]] + ActiveOnly(es[1..]);
      assert r[1..] == ActiveOnly(es[1..]);
      r
    else ActiveOnly(es[1..])
  }

  /** `hasCheckedIn`'s `some` is a positive count of matching records. */
  lemma {:induction false} CheckInsPositive(ps: seq<EventParticipation>, eventId: Id, memberId: Id)
    ensures CheckIns(ps, eventId, memberId) > 0
            <==> exists p :: p in ps && p.eventId == eventId && p.memberId == memberId
  {
    if ps != [] {
      var init := ps[..|ps| - 1];
      CheckInsPositive(init, eventId, memberId);
      assert ps == init + [ps[|ps| - 1]];
    }
  }

  /** One more record adds one to the count of the pair it names, and nothing to any other. */
  lemma CheckInsAppend(ps: seq<EventParticipation>, p: EventParticipation, eventId: Id, memberId: Id)
    ensures CheckIns(ps + [p], eventId, memberId)
            == CheckIns(ps, eventId, memberId) + (if p.eventId == eventId && p.memberId == memberId then 1 else 0)
  {
    assert (ps + [p])[..|ps|] == ps;
  }

  /** Counting the check-ins of one event over its own participations counts the same. */
  lemma {:induction false} CheckInsForEvent(ps: seq<EventParticipation>, eventId: Id, memberId: Id)
    ensures CheckIns(ForEvent(ps, eventId), eventId, memberId) == CheckIns(ps, eventId, memberId)
  {
    if ps != [] {
      var init, last := ps[..|ps| - 1], ps[|ps| - 1];
      CheckInsForEvent(init, eventId, memberId);
      var f := ForEvent(init, eventId);
      if last.eventId == eventId {
        assert (f + [last])[..|f + [last]| - 1] == f;
      } else {
        assert ForEvent(ps, eventId) == f;
      }
    }
  }

  lemma AwardedForEvent(ms: OrderedMap<Member>, ps: seq<EventParticipation>, eventId: Id, points: int)
    requires ms.Valid()
    ensures Awarded(ms, ForEvent(ps, eventId), eventId, points) == Awarded(ms, ps, eventId, points)
  {
    forall k | k in ms.entries
      ensures CheckIns(ForEvent(ps, eventId), eventId, k) == CheckIns(ps, eventId, k)
    {
      CheckInsForEvent(ps, eventId, k);
    }
  }

  /**
   * The loop of `endEventAndAwardPoints`: for each participation, the member
   * it names, if any, gains the event's points.
   */
  method AwardParticipants(ms: OrderedMap<Member>, participations: seq<EventParticipation>, eventId: Id, points: int)
    returns (r: OrderedMap<Member>)
    requires ms.Valid() && forall k :: k in ms.entries ==> ms.entries[k].id == k
    requires forall p :: p in participations ==> p.eventId == eventId
    ensures r == Awarded(ms, participations, eventId, points)
  {
    r := ms;
    var i := 0;
    while i < |participations|
      invariant 0 <= i <= |participations|
      invariant r == Awarded(ms, participations[..i], eventId, points)
    {
      var p := participations[i];
      assert participations[..i + 1] == participations[..i] + [p];
      AwardedAppend(ms, participations[..i], p, points);
      var member := r.Get(p.memberId);
      if member.Some? {
        r := r.Set(member.value.id, Credit(member.value, points));
      }
      i := i + 1;
    }
    assert participations[..i] == participations;
  }

  /** The award keeps every member under its own id. */
  lemma AwardedKeyed(ms: OrderedMap<Member>, ps: seq<EventParticipation>, eventId: Id, points: int, next: nat)
    requires Keyed(ms, MemberId, next)
    ensures Keyed(Awarded(ms, ps, eventId, points), MemberId, next)
  {
  }

  /** One more participation of the event credits its member once more, or nobody. */
  lemma AwardedAppend(ms: OrderedMap<Member>, ps: seq<EventParticipation>, p: EventParticipation, points: int)
    requires ms.Valid()
    ensures var before := Awarded(ms, ps, p.eventId, points);
            var after := Awarded(ms, ps + [p], p.eventId, points);
            && after.keys == before.keys
            && after.entries == if p.memberId in ms.entries then before.entries[p.memberId := Credit(before.entries[p.memberId], points)] else before.entries
  {
    var m := p.memberId;
    var before := Awarded(ms, ps, p.eventId, points);
    var after := Awarded(ms, ps + [p], p.eventId, points);
    forall k | k in ms.entries
      ensures after.entries[k] == if k == m then Credit(before.entries[k], points) else before.entries[k]
    {
      CheckInsAppend(ps, p, p.eventId, k);
      var c := CheckIns(ps, p.eventId, k);
      if k == m {
        MulSucc(points, c);
      }
    }
  }

  /**
   * What the award does to one member: its event points grow by the event's
   * points once per participation naming it, every other field is kept, and
   * a member with no participation is unchanged.
   */
  lemma AwardedCredits(ms: OrderedMap<Member>, ps: seq<EventParticipation>, eventId: Id, points: int, k: Id)
    requires ms.Valid() && k in ms.entries
    ensures var r := Awarded(ms, ps, eventId, points);
            && r.entries[k].eventPoints == ms.entries[k].eventPoints + points * CheckIns(ps, eventId, k)
            && r.entries[k].(eventPoints := 0) == ms.entries[k].(eventPoints := 0)
            && (CheckIns(ps, eventId, k) == 0 ==> r.entries[k] == ms.entries[k])
  {
  }

  /**
   * Ending the same event twice over the same participations credits every
   * member twice: nothing records that the award was already made.
   */
  lemma AwardedTwice(ms: OrderedMap<Member>, ps: seq<EventParticipation>, eventId: Id, points: int)
    requires ms.Valid()
    ensures Awarded(Awarded(ms, ps, eventId, points), ps, eventId, points) == Awarded(ms, ps, eventId, 2 * points)
  {
    var once := Awarded(ms, ps, eventId, points);
    forall k | k in ms.entries
      ensures Credit(once.entries[k], points * CheckIns(ps, eventId, k))
              == Credit(ms.entries[k], 2 * points * CheckIns(ps, eventId, k))
    {
      var c := CheckIns(ps, eventId, k);
      assert 2 * points * c == points * c + points * c;
    }
  }

  lemma MulSucc(a: int, b: int)
    ensures a * (b + 1) == a * b + a
  {
  }
}
