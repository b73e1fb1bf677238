/** The records of the booking application (src/shared/types/domain.ts),
    as immutable datatypes.

    Representation choices that hold throughout the model:
    - instants are integer milliseconds (JavaScript `getTime()`); calendar days
      are integer day numbers, day 0 being a Monday;
    - an appointment's `weekStart` is the day number of the Monday its ISO key
      names (the ISO rendering is injective, see module IsoDate);
    - money, percentages and offer values are `real`;
    - an optional string field is `Option<string>`, and JavaScript truthiness
      of it is `Truthy`;
    - an optional boolean flag (`used?`, `isTemplate?`, `prizesDistributed?`)
      is a `bool`, `undefined` reading as `false`. */
module Domain {
  import opened Base

  const HOUR_MS: int := 60 * 60 * 1000
  const DAY_MS: int := 24 * HOUR_MS

  datatype Role = Customer | Admin

  datatype User = User(id: string, name: string, role: Role, blocked: bool)

  /** A consecutive-booking discount: `discount` percent off once a user holds
      at least `threshold` slots on one day. */
  datatype DiscountTier = DiscountTier(threshold: int, discount: real)

  /** One reserved hour on one machine. `discountRule` records the bulk tier
      whose label (`Bulk T+ (-D%)`) the ledger stored; its text rendering is
      not modelled. */
  datatype Appointment = Appointment(
    id: string,
    weekStart: int,
    dayIndex: int,
    hour: int,
    userId: string,
    userName: string,
    machineId: string,
    price: Option<real>,
    offerId: Option<string>,
    discountRule: Option<DiscountTier>)

  datatype OfferType = DiscountPercent | FixedPrice | FreeDrink | FreeSlot

  datatype Condition = NoCondition | BuyXSlots

  datatype SpecialOffer = SpecialOffer(
    id: string,
    name: string,
    kind: OfferType,
    value: real,
    startDate: int,
    endDate: int,
    targetUserId: Option<string>,
    conditionType: Condition,
    conditionValue: Option<real>,
    rewardProduct: Option<string>,
    isTemplate: bool,
    used: bool,
    parentTemplateId: Option<string>)

  datatype Participant = Participant(id: string, name: string, userIds: seq<string>, seed: Option<int>)

  datatype Match = Match(
    id: string,
    round: int,
    matchIndex: int,
    p1Id: Option<string>,
    p2Id: Option<string>,
    winnerId: Option<string>,
    nextMatchId: Option<string>)

  /** A prize value is a number, or a product name for drink prizes. */
  datatype PrizeValue = Amount(amount: real) | Product(product: string)

  datatype Prize = Prize(rank: int, kind: OfferType, value: PrizeValue)

  datatype Format = Single | Double

  datatype Status = Open | Active | Completed

  datatype Tournament = Tournament(
    id: string,
    name: string,
    start: int,
    end: int,
    format: Format,
    status: Status,
    participants: seq<Participant>,
    matches: seq<Match>,
    prizes: seq<Prize>,
    prizesDistributed: bool)

  datatype LoyaltyTier = LoyaltyTier(id: string, name: string, bookingsRequired: int, enabled: bool)

  datatype WorkingHour = WorkingHour(start: int, end: int)

  datatype Machine = Machine(id: string, name: string)

  datatype Settings = Settings(
    basePrice: real,
    discountTiers: seq<DiscountTier>,
    loyaltyEnabled: bool,
    loyaltyTiers: seq<LoyaltyTier>,
    workingHours: map<int, WorkingHour>,
    blockedDates: seq<string>,
    machines: seq<Machine>,
    specialOffers: seq<SpecialOffer>)

  /** A selected (day, hour) cell of the booking grid. */
  datatype Slot = Slot(dayIndex: int, hour: int)

  /** Truthiness of an optional offer id on an appointment (`!a.offerId`). */
  predicate HasOffer(a: Appointment) {
    Truthy(a.offerId)
  }
}
