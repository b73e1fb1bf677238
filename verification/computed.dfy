/** The customer dashboard's derived values (src/app/hooks/useComputedValues.ts):
    the user's booking total, earned and next loyalty badges, the offers the
    user may redeem now, and the consecutive-discount tier the busiest day of
    the current week (bookings plus selection) reaches. `now` is an instant
    in milliseconds. */
module Computed {
  import opened Base
  import opened Domain
  import opened DiscountTiers
  import opened Loyalty
  import opened Ledger
  import opened History

  /** `userTotalBookings`: the user's appointments, 0 without a user. */
  function UserTotalBookings(user: Option<User>, apps: seq<Appointment>): (r: nat)
    ensures user.None? ==> r == 0
    ensures user.Some? ==> r == Count(apps, Owns(user.value.id))
  {
    match user
    case None => 0
    case Some(u) =>
      FilterLength(apps, Owns(u.id));
      |OwnedBy(apps, u.id)|
  }

  /** The booking total is the length of the user's booking history. */
  lemma TotalIsHistoryLength(user: User, apps: seq<Appointment>)
    ensures UserTotalBookings(Some(user), apps) == |UserHistory(apps, user.id)|
  {
    var h := UserHistory(apps, user.id);
    assert |multiset(h)| == |multiset(OwnedBy(apps, user.id))|;
  }

  function EarnedBadges(user: Option<User>, apps: seq<Appointment>, settings: Settings): seq<LoyaltyTier> {
    Earned(settings.loyaltyEnabled, settings.loyaltyTiers, UserTotalBookings(user, apps))
  }

  function NextBadgeOf(user: Option<User>, apps: seq<Appointment>, settings: Settings): Option<LoyaltyTier> {
    NextBadge(settings.loyaltyEnabled, settings.loyaltyTiers, UserTotalBookings(user, apps))
  }

  /** The offer filter of `myOffers`: current (`start <= now <= end`),
      unused, and either targeted at the user or untargeted (empty target
      included) and not a template. */
  predicate Redeemable(o: SpecialOffer, userId: string, now: int) {
    && now >= o.startDate && now <= o.endDate
    && (o.targetUserId == Some(userId) || (!Truthy(o.targetUserId) && !o.isTemplate))
    && !o.used
  }

  /** `myOffers`: no offers without a user; otherwise the redeemable ones in
      settings order. */
  function MyOffers(user: Option<User>, offers: seq<SpecialOffer>, now: int): (r: seq<SpecialOffer>)
    ensures user.None? ==> r == []
    ensures user.Some? ==> forall o :: o in r <==> o in offers && Redeemable(o, user.value.id, now)
    ensures multiset(r) <= multiset(offers)
  {
    match user
    case None => []
    case Some(u) => Filter(offers, (o: SpecialOffer) => Redeemable(o, u.id, now))
  }

  /** An offer just spent on a booking is no longer offered to anyone,
      unless it is a template (templates are never marked used). */
  lemma SpentOfferWithdrawn(user: User, offers: seq<SpecialOffer>, offerId: string, now: int)
    requires offerId != ""
    ensures forall o :: o in MyOffers(Some(user), MarkUsed(offers, offerId), now) ==>
      o.id != offerId || o.isTemplate
  {
    var marked := MarkUsed(offers, offerId);
    forall o | o in MyOffers(Some(user), marked, now)
      ensures o.id != offerId || o.isTemplate
    {
      var i :| 0 <= i < |marked| && marked[i] == o;
      assert marked[i].(used := false) == offers[i].(used := false);
    }
  }

  /** The load of day `d`: this week's bookings of the user on that day plus
      the selected slots on that day. */
  function DayLoad(apps: seq<Appointment>, userId: string, weekStart: int, selected: seq<Slot>, d: int): nat {
    Count(apps, (a: Appointment) => a.userId == userId && a.weekStart == weekStart && a.dayIndex == d)
      + Count(selected, (s: Slot) => s.dayIndex == d)
  }

  /** `maxSlotsInADay` after the loop has seen days `0..d-1`, starting
      from 0. */
  function MaxLoad(apps: seq<Appointment>, userId: string, weekStart: int, selected: seq<Slot>, d: nat): (r: nat)
    requires d <= 7
    ensures forall e :: 0 <= e < d ==> DayLoad(apps, userId, weekStart, selected, e) <= r
    ensures r == 0 || exists e :: 0 <= e < d && DayLoad(apps, userId, weekStart, selected, e) == r
  {
    if d == 0 then 0
    else
      var prev := MaxLoad(apps, userId, weekStart, selected, d - 1);
      var load := DayLoad(apps, userId, weekStart, selected, d - 1);
      if load > prev then load else prev
  }

  /** `hasConsecutiveDiscount`: no tier without a user; otherwise the tier
      the busiest day of the week reaches. The week test of the source (a
      prefix match of the ISO key, or the same calendar day) is equality of
      the week's Monday. */
  function ConsecutiveDiscount(user: Option<User>, apps: seq<Appointment>, tiers: seq<DiscountTier>,
                               weekStart: int, selected: seq<Slot>): (r: Option<DiscountTier>)
    ensures user.None? ==> r.None?
  {
    match user
    case None => None
    case Some(u) => ResolveTier(tiers, MaxLoad(apps, u.id, weekStart, selected, 7))
  }

  /** The indicator is the tier of the busiest day: every day's own tier is
      at most it, and it is reached by some day (or by an empty week, for a
      tier with threshold 0 or less). */
  lemma ConsecutiveDiscountDominates(user: User, apps: seq<Appointment>, tiers: seq<DiscountTier>,
                                     weekStart: int, selected: seq<Slot>, d: nat)
    requires d < 7
    requires ResolveTier(tiers, DayLoad(apps, user.id, weekStart, selected, d)).Some?
    ensures var r := ConsecutiveDiscount(Some(user), apps, tiers, weekStart, selected);
      && r.Some?
      && ResolveTier(tiers, DayLoad(apps, user.id, weekStart, selected, d)).value.threshold <= r.value.threshold
  {
    ResolveTierMonotone(tiers, DayLoad(apps, user.id, weekStart, selected, d), MaxLoad(apps, user.id, weekStart, selected, 7));
  }

  /** Conversely, the indicator's tier is the one some single day earns. */
  lemma ConsecutiveDiscountReached(user: User, apps: seq<Appointment>, tiers: seq<DiscountTier>,
                                   weekStart: int, selected: seq<Slot>)
    requires ConsecutiveDiscount(Some(user), apps, tiers, weekStart, selected).Some?
    ensures var m := MaxLoad(apps, user.id, weekStart, selected, 7);
      m == 0 || exists d :: 0 <= d < 7 && ResolveTier(tiers, DayLoad(apps, user.id, weekStart, selected, d))
                                          == ResolveTier(tiers, m)
  {
  }
}
