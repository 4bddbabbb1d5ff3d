# Guild events store, bot decisions and rankings — a Dafny model

This project models the core of a guild-management application for a game.
The application has three parts:

* **The in-memory store.** `MemStorage` in `server/storage.ts` keeps nine JavaScript `Map`s: members, events, activities, marketplace items, point transfers, bot configs, event participations, item drops and users. It runs the event lifecycle:
  - a fixed catalog of ten events is seeded at construction;
  - an event is started;
  - members check in;
  - the event is ended, and every check-in credits the event's points to the member who made it.

  It also provides member creation with defaults, and two upserts: the event-manager role per guild, and users by Discord id.
* **The Discord bot's decision logic** in `server/bot.ts`:
  - the role gate ("not configured", then "denied", then allowed);
  - the `/configurar`, `/evento` and `/drop` commands;
  - the event select menu;
  - the check-in and end buttons, whose custom ids are parsed with `split('_')`.
* **The rankings page's aggregation** in `client/src/pages/Rankings.tsx`:
  - members sorted by level, power or event points;
  - the medal of the first three positions;
  - per-class statistics: count, rounded averages and total points, sorted by total points.

The store is a Dafny `class` whose fields are the nine maps (see "Modules"). Its methods state each new state exactly. The bot handlers are methods that take the store. Each handler and dispatcher's contract gives its reply and the new values of the fields it may change, in terms of the old ones; a field outside its `modifies` clause cannot change. Check-in, ending and `/drop` are stated once as relations between the old and new values (`CheckinEffect`, `EndEffect`, `DropEffect`), which the button and command dispatchers pass on for the parsed event id and the command's options. The rankings are functions and lemmas. The rankings' one loop, `getClassStats`'s `forEach`, is a method proved equal to a specification function.

The model follows the code as written, including three behaviours a cleaner design would avoid:

* Starting an event that is already running re-stamps it (`Scenarios.StartTwice`).
* A second check-in is refused by the bot but not by the store (`Storage.MemStorage.CheckIn` never deduplicates).
* Ending an event twice awards its points twice (`Storage.AwardedTwice`, `Scenarios.EndTwice`).

One more behaviour follows from the parsing. The end button's id `end_event_<id>` parses to the event id `event_<id>`, which is never a stored event id. Pressing the end button therefore never ends or awards anything (`Bot.EndButtonMissesCatalog`, `Scenarios.PressEndButton`). A manager gets "event not found"; anyone else gets the refusal of the role gate.

## Modules

| file | module | contents |
|---|---|---|
| `primitives.dfy` | `Primitives` | `Option`, ids and times, the id oracle's decimal ids `SerialId(n)`, ASCII case folding |
| `ordered_maps.dfy` | `OrderedMaps` | `OrderedMap<V>`: a JavaScript `Map` with its insertion order (`set` replaces in place or appends), `find` over its values, upsert lemmas |
| `sorting.dfy` | `Sorting` | the stable descending sort used for `b.x - a.x` comparators: permutation, order, stability and sum lemmas |
| `schema.dfy` | `Schema` | the record types of `shared/schema.ts` (field `class` is `gameClass`, `type` is `kind`) |
| `storage.dfy` | `Storage` | `MemStorage` and the value functions and lemmas its contracts use |
| `bot.dfy` | `Bot` | custom-id parsing, the role gate, replies and the interaction handlers |
| `rankings.dfy` | `Rankings` | sorted members, medals, class statistics |
| `scenarios.dfy` | `Scenarios` | two-step runs: start twice, end twice, check in twice, press the end button |

Modelling choices:

* **Ids.** `randomUUID()` is an oracle in the store: the field `nextSerial`, with ids `SerialId(n)`, the decimal numeral of `n`.
  - `Valid()` says no id at or beyond `nextSerial` is in use, so every drawn id is fresh.
  - The ten catalog events hold the first ten ids.
* **Time.** `new Date()` is a `now: Time` (integer) parameter of each operation.
* **The caller.** The Discord interaction is reduced to plain values:
  - the guild id, an `Option` that is `None` outside a guild;
  - the caller's user id and tag;
  - the caller's role set (`None` when there is no guild member or role cache);
  - the command's options;
  - whether the channel is a guild text channel.

  Replies are a datatype named by what they say.

## Model

| member | source | states |
|---|---|---|
| Storage.MemStorage.constructor | server/storage.ts:71-84 | A new store has drawn exactly ten ids, has no members, configs, participations, drops, users, activities, items or transfers, and its events are the ten catalog events, in order, each inactive under the oracle's i-th id |
| Storage.MemStorage.InitializeEvents | server/storage.ts:86-103 | Seeding stores the i-th catalog entry under the i-th drawn id with no start, end or starter; afterwards exactly the ten drawn ids are event keys |
| Storage.SeedStep | server/storage.ts:100-102 | One `forEach` step of the seeding: the drawn id is not yet a key, and setting it extends the seeded prefix by that entry |
| Storage.MemStorage.GetMemberByDiscordId | server/storage.ts:109-113 | The member found has the Discord id and is stored under its own id, and no member before it in insertion order has that Discord id; none is found exactly when no member has that Discord id |
| Storage.MemStorage.CreateMember | server/storage.ts:119-133 | Exactly one member is appended, under a fresh id; omitted level, power and eventPoints become 1, 0 and 0; every existing member is kept |
| Storage.MemStorage.GetEvent | server/storage.ts:135-137 | An event is found exactly when the id is one of the catalog ids, and it is stored with that id |
| Storage.MemStorage.GetAllEvents | server/storage.ts:139-141 | All ten events in seeding order: the i-th is the event currently stored under the i-th catalog id, with its current `isActive`, `startedAt`, `startedBy` and `endedAt` |
| Storage.MemStorage.GetActiveEvents | server/storage.ts:143-145 | An event is listed exactly when it is stored and active, in catalog order and as a subsequence of the stored events (so each once, since the stored ids are distinct) |
| Storage.ActiveOnly | server/storage.ts:144 | `filter(isActive)` keeps exactly the active events, in their stored order |
| Storage.MemStorage.GetRecentActivities | server/storage.ts:147-152 | `slice(0, limit)` of the newest-first order: the length follows `slice` for any limit; a sub-multiset of the activities; non-increasing in time; nothing left out is newer than anything returned; activities of the same instant keep their insertion order (for every time, those returned are a prefix of those stored) |
| Storage.MemStorage.StartEvent | server/storage.ts:163-171 | A known event becomes active with the new start time and starter whatever its state was; the other events and the key order are kept; an unknown id changes nothing |
| Storage.MemStorage.EndEventAndAwardPoints | server/storage.ts:173-196 | Unknown id: returns 0, nothing changes. Known id: returns the number of the event's participations, including those naming no member; each member gains the points once per own participation (`Awarded`); the event becomes inactive with the end time |
| Storage.ForEvent | server/storage.ts:178-179 | `filter` by event id keeps exactly the participations of that event, in store order, and is no longer than the input |
| Storage.Awarded | server/storage.ts:182-188 | The award keeps every member key and the key order |
| Storage.AwardedCredits | server/storage.ts:182-188 | Each member's event points grow by the points once per participation naming it; every other field is kept; a member with no participation is unchanged |
| Storage.AwardParticipants | server/storage.ts:182-188 | The award loop over the event's participations yields `Awarded`: each member credited points times its check-ins, the others untouched |
| Storage.AwardedAppend | server/storage.ts:183-187 | One more participation credits the member it names once more, or no one when that member does not exist |
| Storage.AwardedForEvent | server/storage.ts:178-179 | Awarding over the participations filtered to the event is the same as over all of them |
| Storage.AwardedTwice | server/storage.ts:173-196 | Ending twice over the same participations credits every member as one award of twice the points: nothing marks the award as made |
| Storage.MemStorage.CheckIn | server/storage.ts:198-207 | Always appends one participation under a fresh id, with no deduplication; the pair's check-in count grows by exactly one |
| Storage.MemStorage.HasCheckedIn | server/storage.ts:209-212 | True exactly when some participation names both the event and the member |
| Storage.CheckInsPositive | server/storage.ts:210-211 | `some` over the participations is a positive count of matching records |
| Storage.CheckInsAppend | server/storage.ts:206 | An appended record adds one to the count of the pair it names and nothing to any other pair |
| Storage.MemStorage.GetBotConfig | server/storage.ts:214-217 | The config found has the guild id and is stored under its own id; none exactly when no config has that guild |
| Storage.MemStorage.SetEventManagerRole | server/storage.ts:219-236 | The configs become `WithEventManagerRole`; a fresh id is drawn only when the guild had no config |
| Storage.EventManagerRoleSet | server/storage.ts:219-236 | After the upsert: the guild's config carries the role and the new time; other guilds find what they found before; an existing config keeps its id and place, or exactly one config is appended; still one config per guild |
| Storage.MemStorage.GetItemDrops | server/storage.ts:238-241 | A permutation of the drops, newest first; drops of the same instant keep their insertion order |
| Storage.MemStorage.CreateItemDrop | server/storage.ts:243-252 | Exactly one drop is appended under a fresh id with the payload's fields and the time; a drop newer than all earlier ones heads `getItemDrops()` |
| Storage.MemStorage.GetUserByDiscordId | server/storage.ts:258-262 | The user found has the Discord id and is stored under its own id; none exactly when no user has it |
| Storage.MemStorage.CreateOrUpdateUser | server/storage.ts:264-297 | Returns the existing user with the payload's fields and the new update time, or a new user under a fresh id; the users become `WithUser`; a fresh id is drawn only for a new user |
| Storage.UserUpserted | server/storage.ts:264-297 | An existing user keeps id, place and creation time, and takes every payload field, with missing optional fields null; otherwise exactly one user is appended; other Discord ids find what they found; still one user per Discord id |
| Primitives.SerialIdInjective | server/storage.ts:120 | Distinct oracle serials give distinct ids, which is what makes every drawn id fresh |
| OrderedMaps.SetExistingValues | server/storage.ts:225 | `Map.set` on an existing key replaces the value in place; the iteration order is unchanged |
| OrderedMaps.SetNewValues | server/storage.ts:131 | `Map.set` on a new key appends the value at the end of the iteration order |
| OrderedMaps.Lookup | server/storage.ts:110-112 | `find` returns a value with the key, the first such value in iteration order, and none exactly when no value has it |
| OrderedMaps.LookupAfterAppend | server/storage.ts:131 | After appending a value with a new key, `find` by that key returns it and every other key finds what it found before |
| Sorting.SortDescPermutes | client/src/pages/Rankings.tsx:46 | The descending sort returns a permutation of its input |
| Sorting.SortDescOrders | client/src/pages/Rankings.tsx:46 | The descending sort's result is non-increasing in the key |
| Sorting.SortDescStable | server/storage.ts:240 | The sort is stable: the elements of each key value keep their input order |
| Sorting.SortDescPrefix | server/storage.ts:149-151 | A prefix of the sorted sequence is a sub-multiset of the input, ordered, and no element outside it has a larger key |
| Sorting.SortDescPrefixStable | server/storage.ts:149-151 | In a prefix of the stable sort, the elements of each key are a prefix of that key's elements in input order |
| Bot.Split | server/bot.ts:277-278 | `split` yields at least one piece |
| Bot.JoinSplit | server/bot.ts:278 | Joining the pieces of a `split` with the same separator gives back the original string |
| Bot.SplitPieces | server/bot.ts:277-278 | No piece of a `split` contains the separator |
| Bot.Join | server/bot.ts:278 | `join`: the first piece is a prefix of the result, followed by the separator when there are more pieces |
| Bot.SplitJoin | server/bot.ts:277-278 | Splitting the join of pieces that do not contain the separator gives back the pieces |
| Bot.RouteButton | server/bot.ts:276-285 | The action has no `_`. With a `_`, the id is the action, `_`, then the event id (everything after the first `_`); without one, the action is the whole id and the event id is empty |
| Bot.CheckinButtonRoutes | server/bot.ts:237-239 | The check-in button of any event id routes to the action "checkin" with that same id |
| Bot.EndButtonRoutes | server/bot.ts:242-244 | The end button of event id `id` routes to the action "end" with event id `event_` + `id` |
| Bot.EndButtonMissesCatalog | server/bot.ts:350-354 | The event id the end button yields is never a stored event id, so its lookup always fails |
| Bot.Gate | server/bot.ts:170-186 | Configuration first: "not configured" exactly when no config, no role or the empty role is stored, whoever asks; otherwise the caller passes exactly when holding the role; a caller without a role cache never passes |
| Bot.GateAfterConfigure | server/bot.ts:152-163 | After `/configurar`, the guild's gate admits exactly the holders of the new role (an empty role id reads as not configured); other guilds' gates are unchanged |
| Bot.HandleConfigCommand | server/bot.ts:152-163 | Replies "configuration updated", stores the upsert, draws an id exactly when the guild had no config, and the guild's gate for every caller is that of the new role; other guilds' configs are unchanged |
| Bot.Inactive | server/bot.ts:189-190 | An event is offered exactly when it is in the catalog and not active, in catalog order |
| Bot.MenuReply | server/bot.ts:170-198 | A refusal exactly when the gate does not pass. When it passes: "no events" exactly when all events are active; otherwise a menu whose options are exactly the inactive events, in stored order and each once (a subsequence of the events) |
| Bot.EventCommandReply | server/bot.ts:165-198 | Without a passing gate of the guild's stored config, the matching refusal; with it, "no events" exactly when every stored event is active, otherwise a menu whose options are exactly the stored inactive events, in catalog order and each once (a subsequence of the stored events). Nothing is stored |
| Bot.HandleSelectMenu | server/bot.ts:223-274 | Other menu ids: no reply, no change. Empty selection or unknown id: "not found", no change. Otherwise the event is started before the channel check, so a failed send still leaves it started |
| Bot.MemberFor | server/bot.ts:291-304 | The caller's existing member is reused and nothing changes; otherwise exactly one "Aventureiro" of level 1, power 0 and 0 points named by the tag is appended under the next id, which is drawn; either way the Discord id now finds it |
| Bot.CheckInOnce | server/bot.ts:306-318 | A member already checked in gets "already checked in" and nothing changes; otherwise the participations become the old ones plus exactly one record for the event and member, under the next id, at the given time, and one id is drawn |
| Bot.HandleCheckin | server/bot.ts:287-324 | `CheckinEffect` of the old and new members, participations and id counter: get-or-create, then refuse, or append exactly one participation under the id drawn after the member's. Whether the event exists or runs is never consulted |
| Bot.CheckinOutcome | server/bot.ts:287-324 | After `CheckinEffect`: the reply is "already checked in" or "checked in"; the Discord id finds the member that was checked in; that member has a participation in the event, exactly one after "checked in", and an earlier one exactly when "already checked in"; one record more exactly after "checked in" |
| Bot.HandleEndEvent | server/bot.ts:326-377 | `EndEffect`: the gate, then the lookup, then the award. A refusal or an unknown id writes nothing; otherwise the members become `Awarded`, only that event is marked ended, and the reply carries its name, points and participation count. An event is ended exactly when the gate passes and the id is a catalog id |
| Bot.FindByName | server/bot.ts:407-409 | The first event whose name equals the given one under ASCII case folding; none exactly when no name matches |
| Bot.FindByNameIgnoresCase | server/bot.ts:409 | Typing the event name in upper case finds the same event |
| Primitives.AsciiLower | server/bot.ts:409 | `toLowerCase` on ASCII: same length, no upper-case ASCII letter left, every other character kept |
| Primitives.SameIgnoringCase | server/bot.ts:409 | Two names match exactly when they have the same length and agree position by position after folding |
| Bot.HandleDropCommand | server/bot.ts:379-433 | `DropEffect`: a refusal when the gate does not pass; "not found" when no name matches; otherwise exactly one drop is appended under the next id, carrying the first matching event's id and canonical name, the item, diamonds, participants, the caller's tag and the time. Otherwise nothing is stored |
| Bot.DropOutcome | server/bot.ts:379-433 | After `DropEffect`: a drop is registered exactly when the gate passes and some event's name matches ignoring case; it then names a stored event whose name matches and is the one new drop; otherwise the drops are unchanged |
| Bot.HandleButton | server/bot.ts:276-285 | Other actions: no reply, no change. "checkin": `CheckinEffect` for the parsed event id, events untouched. "end": `EndEffect` for the parsed event id, participations untouched. An event is ended exactly for "end" with a passing gate and a catalog event id |
| Bot.HandleCommand | server/bot.ts:133-150 | Outside a guild (no guild id, or the empty one, which JavaScript treats as false) every command is refused and nothing changes. `/configurar` stores the upsert and draws an id exactly when the guild had no config. `/evento` replies as `EventCommandReply` and writes nothing. `/drop` has `DropEffect` for the command's options. Unknown commands get no reply and change nothing |
| Rankings.SortedMembers | client/src/pages/Rankings.tsx:45-47 | A permutation of the members, non-increasing in the chosen key; members with equal keys keep their order |
| Rankings.MedalEmoji | client/src/pages/Rankings.tsx:49-54 | A medal exactly for positions 0, 1 and 2: gold, silver, bronze in that order, and the three differ |
| Rankings.RoundedAverage | client/src/pages/Rankings.tsx:73-74 | `Math.round(t / n)` for n > 0: the nearest integer to t/n, with halves rounded up |
| Rankings.ClassesSpec | client/src/pages/Rankings.tsx:59-62 | The keys of the class map are exactly the members' classes, each once, in first-appearance order: the classes of every prefix of the members are a prefix of the list |
| Rankings.OfClassMembers | client/src/pages/Rankings.tsx:64 | A class's member list holds exactly the members of that class |
| Rankings.TallyStep | client/src/pages/Rankings.tsx:63-67 | Seeing one more member adds it, its level, power and points to its own class's tally only |
| Rankings.TalliesStep | client/src/pages/Rankings.tsx:59-68 | One `forEach` step (create the tally if missing, then add) keeps the map equal to the tallies of the members seen |
| Rankings.GetClassStats | client/src/pages/Rankings.tsx:56-77 | The `forEach` over a `Map` followed by the map-and-sort computes exactly `ClassStats` |
| Rankings.ClassStats | client/src/pages/Rankings.tsx:56-77 | One entry per distinct class, and no entries exactly when there are no members |
| Rankings.ClassStatsOrdered | client/src/pages/Rankings.tsx:76 | The entries are non-increasing in total points and are a permutation of the per-class entries |
| Rankings.ClassStatsEntries | client/src/pages/Rankings.tsx:70-75 | Each entry has a non-empty group of its class: count = group size, average level and power = rounded mean, total points = sum of the group's points |
| Rankings.ClassStatsOnePerClass | client/src/pages/Rankings.tsx:57-72 | Exactly one entry per class: every entry's class is some member's, every member's class has an entry, no class appears twice |
| Rankings.ClassStatsSums | client/src/pages/Rankings.tsx:63-75 | The member counts sum to the number of members, and the total points sum to all members' points |
| Rankings.PartitionSum | client/src/pages/Rankings.tsx:63-67 | Summing any per-member quantity class by class gives the total over all members |
| Scenarios.StartTwice | server/storage.ts:163-171 | Two starts of one event leave it as a single start by the second starter at the second time |
| Scenarios.EndTwice | server/storage.ts:173-196 | Two ends return the same count, credit every participant twice the event's points, and leave the event as a single end at the second time with every other event unchanged |
| Scenarios.CheckinTwice | server/bot.ts:287-324 | Pressing check-in twice: the second press is answered "already checked in" |
| Scenarios.PressEndButton | server/bot.ts:326-354 | Whoever presses the end button of a posted event, nothing is ended and the store is unchanged: a manager is told the event was not found, anyone else gets the gate's refusal |

## Left out

- Discord I/O is not modelled: client login, command registration, message and button building, `channel.send`, `message.edit` and reply texts. Replies are datatype values.
- The `activeEventMessages` bookkeeping (message and channel ids per running event) is not modelled. It is I/O state that no modelled decision reads.
- `startBot`'s `interactionCreate` dispatch and its generic error reply are not modelled. They route to the modelled handlers.
- The Administrator default permission of `/configurar` is not modelled. Discord enforces it; the handler does not check it.
- The select menu has no role check in the code. The model follows it: anyone may start an event through the menu.
- The routes, the sessions and `server/index.ts` are not part of this model.
- The accessors `getMember`, `getAllMembers`, `getMarketplaceItems`, `getPointTransfers` and `getUser` are not modelled. Each returns a map's value or values as they are.
- `async`/`await` are plain sequential calls; there is no interleaving.
- Objects changed in place through a reference the map also holds are modelled as a `set` of a new value under the same key. Two callers keep such a reference across a call: `handleSelectMenu` holds `event` across `startEvent`, and `handleEndEvent` holds `event` across `endEventAndAwardPoints`. They read only `name`, `emoji` and `points`, which those calls do not change, so the model reads the value fetched before the call.
- The constructor passes the catalog to `InitializeEvents` as a parameter rather than building it inside.
- Bot.FindByName: case folding is ASCII only, not Unicode `toLowerCase`.
- Storage.MemStorage.GetRecentActivities: the limit is an integer; a `NaN` or fractional limit is not modelled.
- Storage.MemStorage.GetRecentActivities: the default `limit = 10` is not modelled; the limit is always passed explicitly.
- Rankings.RoundedAverage: requires `n > 0`. Every class has at least one member, so the source never divides by zero here.
- Rankings.RoundedAverage: `Math.round` on a float is modelled exactly, as integer arithmetic.
- JavaScript numbers are doubles; point sums, `+=` on `eventPoints` and the quotient `t / n` are modelled as unbounded integers and exact rationals, which agree with the source only while the magnitudes stay where doubles are exact (far beyond any real guild's totals).
- Storage.MemStorage.CheckIn: with oracle ids, a participation may already name the member id the bot is about to draw for a newcomer, because `checkIn` accepts any member id. `randomUUID()` makes this practically impossible.
- The clock is not assumed to increase. Statements about "newest first" take "strictly newer" as a hypothesis instead.
- Where the source reads the clock twice in one operation, the model uses one `now`: a new member's `createdAt` and its first participation's `checkedInAt` in check-in, and a new user's `createdAt` and `updatedAt`. No contract depends on the two times being equal.
- `toLocaleString` and the rest of the React rendering are display only.
