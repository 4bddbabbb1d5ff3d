/**
 * The records the guild store keeps, with the fields, nullability and
 * defaults of the table declarations in shared/schema.ts. A nullable column
 * is an Option; `class` and `type` are reserved words in Dafny and are named
 * gameClass and kind here.
 */
module Schema {
  import opened Primitives

  datatype Member = Member(
    id: Id,
    discordId: Id,
    name: string,
    gameClass: string,
    level: int,
    power: int,
    eventPoints: int,
    createdAt: Time)

  /** The insert payload of a member: level, power and eventPoints may be omitted. */
  datatype InsertMember = InsertMember(
    discordId: Id,
    name: string,
    gameClass: string,
    level: Option<int>,
    power: Option<int>,
    eventPoints: Option<int>)

  datatype Event = Event(
    id: Id,
    name: string,
    points: int,
    emoji: string,
    isActive: bool,
    startedAt: Option<Time>,
    endedAt: Option<Time>,
    startedBy: Option<string>)

  datatype EventParticipation = EventParticipation(
    id: Id,
    eventId: Id,
    memberId: Id,
    checkedInAt: Time)

  datatype MarketplaceItem = MarketplaceItem(
    id: Id,
    name: string,
    description: Option<string>,
    sellerId: Id,
    price: int,
    status: string,
    createdAt: Time)

  datatype PointTransfer = PointTransfer(
    id: Id,
    fromMemberId: Id,
    toMemberId: Id,
    points: int,
    approvedBy: Option<string>,
    status: string,
    createdAt: Time)

  datatype BotConfig = BotConfig(
    id: Id,
    guildId: Id,
    eventManagerRoleId: Option<Id>,
    updatedAt: Time)

  datatype Activity = Activity(
    id: Id,
    kind: string,
    description: string,
    userId: Option<Id>,
    createdAt: Time)

  datatype ItemDrop = ItemDrop(
    id: Id,
    itemName: string,
    diamondValue: int,
    eventId: Id,
    eventName: string,
    participants: string,
    addedBy: string,
    createdAt: Time)

  datatype InsertItemDrop = InsertItemDrop(
    itemName: string,
    diamondValue: int,
    eventId: Id,
    eventName: string,
    participants: string,
    addedBy: string)

  datatype User = User(
    id: Id,
    discordId: Id,
    username: string,
    discriminator: Option<string>,
    email: Option<string>,
    avatar: Option<string>,
    accessToken: Option<string>,
    refreshToken: Option<string>,
    createdAt: Time,
    updatedAt: Time)

  /** The insert payload of a user: every nullable field may be omitted. */
  datatype InsertUser = InsertUser(
    discordId: Id,
    username: string,
    discriminator: Option<string>,
    email: Option<string>,
    avatar: Option<string>,
    accessToken: Option<string>,
    refreshToken: Option<string>)
}
