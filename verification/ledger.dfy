/** The appointment ledger (src/app/hooks/useAppointments.ts): booking the
    selected slots with bulk re-pricing of the user's day, and cancelling one
    appointment with the two-hour cutoff. Each operation takes the current
    appointments and offers and returns the new ones; storage is left out.

    An appointment of the current week is recognised by its `weekStart`
    being the week's Monday (the source compares the ISO keys). */
module Ledger {
  import opened Base
  import opened Domain
  import opened Money
  import opened DiscountTiers
  import opened Calendar

  // -----------------------------------------------------------------------
  // Prices

  /** The stored price of a new slot under the selected offer: the offer's
      value for `fixed_price`, the percentage off the base price for
      `discount_percent`, nothing for `free_slot`, the base price otherwise. */
  function SlotPrice(basePrice: real, offer: Option<SpecialOffer>): real {
    match offer
    case None => basePrice
    case Some(o) =>
      var fixed := if o.kind == FixedPrice then o.value else basePrice;
      var discounted := if o.kind == DiscountPercent then ApplyPercent(fixed, o.value) else fixed;
      if o.kind == FreeSlot then 0.0 else discounted
  }

  /** The tier the bulk rule applies at a day count: the resolved tier, and
      only when its discount is positive (`if (discountPercent > 0)`). */
  function BulkTier(tiers: seq<DiscountTier>, count: int): Option<DiscountTier> {
    match ResolveTier(tiers, count)
    case Some(t) => if t.discount > 0.0 then Some(t) else None
    case None => None
  }

  /** The bulk price of a slot under a tier, rounded to cents. */
  function BulkPrice(basePrice: real, t: DiscountTier): real {
    Round2(ApplyPercent(basePrice, t.discount))
  }

  /** Bulk re-pricing of one appointment: one that carries an offer keeps
      its price, any other gets the tier's price and label. */
  function Reprice(a: Appointment, basePrice: real, t: DiscountTier): (r: Appointment)
    ensures SameSlot(r, a)
  {
    if HasOffer(a) then a
    else a.(price := Some(BulkPrice(basePrice, t)), discountRule := Some(t))
  }

  /** Two versions of an appointment that differ at most in price and
      discount label. */
  predicate SameSlot(a: Appointment, b: Appointment) {
    a.(price := None, discountRule := None) == b.(price := None, discountRule := None)
  }

  /** The user's appointments of one week and day. */
  predicate SameDay(a: Appointment, userId: string, weekStart: int, dayIndex: int) {
    a.userId == userId && a.weekStart == weekStart && a.dayIndex == dayIndex
  }

  // -----------------------------------------------------------------------
  // createAppointments

  /** The new appointment for one selected slot. */
  function NewAppointment(id: string, weekStart: int, slot: Slot, user: User, machineId: string,
                          offerId: string, price: real): Appointment
  {
    Appointment(id, weekStart, slot.dayIndex, slot.hour, user.id, user.name, machineId,
                Some(price), if offerId == "" then None else Some(offerId), None)
  }

  function NewAppointments(slots: seq<Slot>, ids: seq<string>, weekStart: int, user: User,
                           machineId: string, offerId: string, price: real): (r: seq<Appointment>)
    requires |ids| == |slots|
    ensures |r| == |slots|
    ensures forall i :: 0 <= i < |r| ==>
      r[i] == NewAppointment(ids[i], weekStart, slots[i], user, machineId, offerId, price)
  {
    seq(|slots|, i requires 0 <= i < |slots| =>
      NewAppointment(ids[i], weekStart, slots[i], user, machineId, offerId, price))
  }

  /** Re-price the group of one day. */
  function RepriceExisting(apps: seq<Appointment>, userId: string, weekStart: int, d: int,
                           basePrice: real, t: DiscountTier): seq<Appointment>
  {
    Map(apps, (a: Appointment) => if SameDay(a, userId, weekStart, d) then Reprice(a, basePrice, t) else a)
  }

  function RepriceFresh(added: seq<Appointment>, d: int, basePrice: real, t: DiscountTier): seq<Appointment> {
    Map(added, (a: Appointment) => if a.dayIndex == d then Reprice(a, basePrice, t) else a)
  }

  /** How many of the user's appointments that week fall on day `d`. */
  function GroupCount(apps: seq<Appointment>, userId: string, weekStart: int, d: int): nat {
    Count(apps, (a: Appointment) => SameDay(a, userId, weekStart, d))
  }

  /** How many appointments fall on day `d`, whoever and whenever. */
  function OnDay(apps: seq<Appointment>, d: int): nat {
    Count(apps, (a: Appointment) => a.dayIndex == d)
  }

  /** How many selected slots fall on day `d`. */
  function SlotsOn(slots: seq<Slot>, d: int): nat {
    Count(slots, (s: Slot) => s.dayIndex == d)
  }

  /** The distinct days of the selection (`affectedDays`). */
  function SlotDays(slots: seq<Slot>): seq<int> {
    Dedup(Map(slots, (s: Slot) => s.dayIndex))
  }

  /** The selected offer among the user's offers (`myOffers.find`). */
  function SelectedOffer(myOffers: seq<SpecialOffer>, offerId: string): Option<SpecialOffer> {
    Find(myOffers, (o: SpecialOffer) => o.id == offerId)
  }

  /** The day count the bulk rule uses: the user's existing appointments of
      that week and day plus the new ones on that day. */
  function DayCountFor(existing: seq<Appointment>, added: seq<Appointment>, userId: string,
                       weekStart: int, d: int): nat
  {
    GroupCount(existing, userId, weekStart, d) + OnDay(added, d)
  }

  /** The `affectedDays.forEach` loop: each touched day, in turn, re-prices
      its group when its tier gives a positive discount. */
  function BulkDays(existing: seq<Appointment>, added: seq<Appointment>, days: seq<int>,
                    userId: string, weekStart: int, tiers: seq<DiscountTier>, basePrice: real)
    : (r: (seq<Appointment>, seq<Appointment>))
    ensures |r.0| == |existing| && |r.1| == |added|
    decreases |days|
  {
    if |days| == 0 then (existing, added)
    else
      var d := days[0];
      match BulkTier(tiers, DayCountFor(existing, added, userId, weekStart, d))
      case None => BulkDays(existing, added, days[1..], userId, weekStart, tiers, basePrice)
      case Some(t) =>
        BulkDays(RepriceExisting(existing, userId, weekStart, d, basePrice, t),
                 RepriceFresh(added, d, basePrice, t), days[1..], userId, weekStart, tiers, basePrice)
  }

  /** The state `createAppointments` leaves: appointments and offers. */
  datatype Booking = Booking(appointments: seq<Appointment>, offers: seq<SpecialOffer>)

  /** Mark the selected offer used, unless it is a template; an empty id
      marks nothing. */
  function MarkUsed(offers: seq<SpecialOffer>, offerId: string): (r: seq<SpecialOffer>)
    ensures |r| == |offers|
    ensures forall i :: 0 <= i < |r| ==> r[i].(used := false) == offers[i].(used := false)
    ensures forall i :: 0 <= i < |r| ==>
      r[i].used == (offers[i].used || (offerId != "" && offers[i].id == offerId && !offers[i].isTemplate))
  {
    if offerId == "" then offers
    else Map(offers, (o: SpecialOffer) => if o.id == offerId && !o.isTemplate then o.(used := true) else o)
  }

  /** `createAppointments(selectedSlots, machineId, offerId, user, week, myOffers)`,
      with `ids` the added ids of the new appointments. */
  function CreateAppointments(apps: seq<Appointment>, settings: Settings,
                              slots: seq<Slot>, machineId: string, offerId: string, user: User,
                              weekStart: int, myOffers: seq<SpecialOffer>, ids: seq<string>): (r: Booking)
    requires |ids| == |slots|
    ensures |r.appointments| == |apps| + |slots|
    ensures r.offers == MarkUsed(settings.specialOffers, offerId)
  {
    var added := Added(settings, slots, machineId, offerId, user, weekStart, myOffers, ids);
    var days := SlotDays(slots);
    var (e, f) := BulkDays(apps, added, days, user.id, weekStart, settings.discountTiers, settings.basePrice);
    Booking(e + f, MarkUsed(settings.specialOffers, offerId))
  }

  // -----------------------------------------------------------------------
  // The bulk loop, one appointment at a time

  /** Re-pricing a group leaves every day count unchanged. */
  lemma RepriceKeepsCounts(existing: seq<Appointment>, added: seq<Appointment>, userId: string,
                           weekStart: int, d: int, basePrice: real, t: DiscountTier, d': int)
    ensures DayCountFor(RepriceExisting(existing, userId, weekStart, d, basePrice, t),
                        RepriceFresh(added, d, basePrice, t), userId, weekStart, d')
         == DayCountFor(existing, added, userId, weekStart, d')
  {
    var e1 := RepriceExisting(existing, userId, weekStart, d, basePrice, t);
    var f1 := RepriceFresh(added, d, basePrice, t);
    CountTransfer(e1, (a: Appointment) => SameDay(a, userId, weekStart, d'),
                  existing, (a: Appointment) => SameDay(a, userId, weekStart, d'));
    CountTransfer(f1, (a: Appointment) => a.dayIndex == d', added, (a: Appointment) => a.dayIndex == d');
    assert GroupCount(e1, userId, weekStart, d') == GroupCount(existing, userId, weekStart, d');
  }

  /** What the loop does to an existing appointment: re-priced by its own
      day's tier when it is the user's, of that week, on a touched day. */
  function ExistingAfter(a: Appointment, existing: seq<Appointment>, added: seq<Appointment>,
                         days: seq<int>, userId: string, weekStart: int,
                         tiers: seq<DiscountTier>, basePrice: real): Appointment
  {
    var t := BulkTier(tiers, DayCountFor(existing, added, userId, weekStart, a.dayIndex));
    if a.userId == userId && a.weekStart == weekStart && a.dayIndex in days && t.Some?
    then Reprice(a, basePrice, t.value) else a
  }

  /** What the loop does to a new appointment. */
  function FreshAfter(a: Appointment, existing: seq<Appointment>, added: seq<Appointment>,
                      days: seq<int>, userId: string, weekStart: int,
                      tiers: seq<DiscountTier>, basePrice: real): Appointment
  {
    var t := BulkTier(tiers, DayCountFor(existing, added, userId, weekStart, a.dayIndex));
    if a.dayIndex in days && t.Some? then Reprice(a, basePrice, t.value) else a
  }

  /** The loop over distinct days re-prices each existing appointment at
      most once, by the tier of its own day computed from the counts before
      the loop. */
  lemma {:induction false} BulkExistingAt(existing: seq<Appointment>, added: seq<Appointment>,
                                          days: seq<int>, userId: string, weekStart: int,
                                          tiers: seq<DiscountTier>, basePrice: real, i: nat)
    requires forall i, j :: 0 <= i < j < |days| ==> days[i] != days[j]
    requires i < |existing|
    ensures BulkDays(existing, added, days, userId, weekStart, tiers, basePrice).0[i]
         == ExistingAfter(existing[i], existing, added, days, userId, weekStart, tiers, basePrice)
    decreases |days|
  {
    if |days| > 0 {
      var d := days[0];
      DistinctTail(days);
      match BulkTier(tiers, DayCountFor(existing, added, userId, weekStart, d))
      case None =>
        BulkExistingAt(existing, added, days[1..], userId, weekStart, tiers, basePrice, i);
      case Some(t) =>
        var e1 := RepriceExisting(existing, userId, weekStart, d, basePrice, t);
        var a1 := RepriceFresh(added, d, basePrice, t);
        BulkExistingAt(e1, a1, days[1..], userId, weekStart, tiers, basePrice, i);
        RepriceKeepsCounts(existing, added, userId, weekStart, d, basePrice, t, existing[i].dayIndex);
    }
  }

  /** Likewise for the new appointments. */
  lemma {:induction false} BulkAddedAt(existing: seq<Appointment>, added: seq<Appointment>,
                                       days: seq<int>, userId: string, weekStart: int,
                                       tiers: seq<DiscountTier>, basePrice: real, i: nat)
    requires forall i, j :: 0 <= i < j < |days| ==> days[i] != days[j]
    requires i < |added|
    ensures BulkDays(existing, added, days, userId, weekStart, tiers, basePrice).1[i]
         == FreshAfter(added[i], existing, added, days, userId, weekStart, tiers, basePrice)
    decreases |days|
  {
    if |days| > 0 {
      var d := days[0];
      DistinctTail(days);
      match BulkTier(tiers, DayCountFor(existing, added, userId, weekStart, d))
      case None =>
        BulkAddedAt(existing, added, days[1..], userId, weekStart, tiers, basePrice, i);
      case Some(t) =>
        var e1 := RepriceExisting(existing, userId, weekStart, d, basePrice, t);
        var a1 := RepriceFresh(added, d, basePrice, t);
        BulkAddedAt(e1, a1, days[1..], userId, weekStart, tiers, basePrice, i);
        RepriceKeepsCounts(existing, added, userId, weekStart, d, basePrice, t, added[i].dayIndex);
    }
  }

  // -----------------------------------------------------------------------
  // createAppointments, stated per appointment

  /** Whether some selected slot lies on day `d`. */
  predicate Touched(slots: seq<Slot>, d: int) {
    exists j :: 0 <= j < |slots| && slots[j].dayIndex == d
  }

  /** The user's existing appointments of that week and day plus the
      selected slots on that day. */
  function SelectionDayCount(apps: seq<Appointment>, slots: seq<Slot>, userId: string,
                             weekStart: int, d: int): nat
  {
    GroupCount(apps, userId, weekStart, d) + SlotsOn(slots, d)
  }

  /** The bulk tier of one touched day: resolved against the user's existing
      appointments of that week and day plus the selected slots on it. */
  function CreateDayTier(apps: seq<Appointment>, slots: seq<Slot>, userId: string, weekStart: int,
                         tiers: seq<DiscountTier>, d: int): Option<DiscountTier>
  {
    BulkTier(tiers, SelectionDayCount(apps, slots, userId, weekStart, d))
  }

  lemma AddedCount(apps: seq<Appointment>, settings: Settings, slots: seq<Slot>, machineId: string,
                   offerId: string, user: User, weekStart: int, myOffers: seq<SpecialOffer>,
                   ids: seq<string>, d: int)
    requires |ids| == |slots|
    ensures DayCountFor(apps, Added(settings, slots, machineId, offerId, user, weekStart, myOffers, ids),
                        user.id, weekStart, d)
         == SelectionDayCount(apps, slots, user.id, weekStart, d)
  {
    var added := Added(settings, slots, machineId, offerId, user, weekStart, myOffers, ids);
    CountTransfer(added, (a: Appointment) => a.dayIndex == d, slots, (s: Slot) => s.dayIndex == d);
  }

  lemma TouchedDays(slots: seq<Slot>, d: int)
    ensures d in SlotDays(slots) <==> Touched(slots, d)
  {
    var ds := Map(slots, (s: Slot) => s.dayIndex);
    assert SlotDays(slots) == Dedup(ds);
    if d in Dedup(ds) {
      var j :| 0 <= j < |ds| && ds[j] == d;
    }
  }

  /** The added appointments `createAppointments` builds, before the bulk loop. */
  function Added(settings: Settings, slots: seq<Slot>, machineId: string, offerId: string, user: User,
                 weekStart: int, myOffers: seq<SpecialOffer>, ids: seq<string>): seq<Appointment>
    requires |ids| == |slots|
  {
    var offer := SelectedOffer(myOffers, offerId);
    NewAppointments(slots, ids, weekStart, user, machineId, offerId, SlotPrice(settings.basePrice, offer))
  }

  lemma CreateParts(apps: seq<Appointment>, settings: Settings,
                    slots: seq<Slot>, machineId: string, offerId: string, user: User,
                    weekStart: int, myOffers: seq<SpecialOffer>, ids: seq<string>)
    requires |ids| == |slots|
    ensures var r := CreateAppointments(apps, settings, slots, machineId, offerId, user,
                                        weekStart, myOffers, ids).appointments;
      var b := BulkDays(apps, Added(settings, slots, machineId, offerId, user, weekStart, myOffers, ids),
                        SlotDays(slots), user.id, weekStart,
                        settings.discountTiers, settings.basePrice);
      r == b.0 + b.1
  {
  }

  /** `ExistingAfter` in terms of the selection, once the counts agree. */
  lemma ExistingAfterByCounts(a: Appointment, apps: seq<Appointment>, added: seq<Appointment>,
                              slots: seq<Slot>, userId: string, weekStart: int,
                              tiers: seq<DiscountTier>, basePrice: real)
    requires DayCountFor(apps, added, userId, weekStart, a.dayIndex)
          == SelectionDayCount(apps, slots, userId, weekStart, a.dayIndex)
    requires a.dayIndex in SlotDays(slots) <==> Touched(slots, a.dayIndex)
    ensures var t := CreateDayTier(apps, slots, userId, weekStart, tiers, a.dayIndex);
      ExistingAfter(a, apps, added, SlotDays(slots), userId, weekStart, tiers, basePrice)
      == if a.userId == userId && a.weekStart == weekStart && Touched(slots, a.dayIndex) && t.Some?
         then Reprice(a, basePrice, t.value) else a
  {
  }

  /** `FreshAfter` in terms of the selection, once the counts agree. */
  lemma FreshAfterByCounts(a: Appointment, apps: seq<Appointment>, added: seq<Appointment>,
                           slots: seq<Slot>, userId: string, weekStart: int,
                           tiers: seq<DiscountTier>, basePrice: real)
    requires DayCountFor(apps, added, userId, weekStart, a.dayIndex)
          == SelectionDayCount(apps, slots, userId, weekStart, a.dayIndex)
    requires a.dayIndex in SlotDays(slots)
    ensures var t := CreateDayTier(apps, slots, userId, weekStart, tiers, a.dayIndex);
      FreshAfter(a, apps, added, SlotDays(slots), userId, weekStart, tiers, basePrice)
      == if t.Some? then Reprice(a, basePrice, t.value) else a
  {
  }

  /** An existing appointment after booking: re-priced with its day's tier
      exactly when it is the user's, of the booked week, on a touched day
      with a positive tier; otherwise unchanged (and `Reprice` leaves
      appointments that carry an offer alone). */
  lemma CreateExisting(apps: seq<Appointment>, settings: Settings,
                       slots: seq<Slot>, machineId: string, offerId: string, user: User,
                       weekStart: int, myOffers: seq<SpecialOffer>, ids: seq<string>, i: nat)
    requires |ids| == |slots| && i < |apps|
    ensures var r := CreateAppointments(apps, settings, slots, machineId, offerId, user,
                                        weekStart, myOffers, ids).appointments;
      var a := apps[i];
      var t := CreateDayTier(apps, slots, user.id, weekStart, settings.discountTiers, a.dayIndex);
      r[i] == if a.userId == user.id && a.weekStart == weekStart && Touched(slots, a.dayIndex) && t.Some?
              then Reprice(a, settings.basePrice, t.value) else a
  {
    var r := CreateAppointments(apps, settings, slots, machineId, offerId, user,
                                weekStart, myOffers, ids).appointments;
    var added := Added(settings, slots, machineId, offerId, user, weekStart, myOffers, ids);
    var days := SlotDays(slots);
    var b := BulkDays(apps, added, days, user.id, weekStart, settings.discountTiers, settings.basePrice);
    assert r[i] == b.0[i] by {
      CreateParts(apps, settings, slots, machineId, offerId, user, weekStart, myOffers, ids);
    }
    assert b.0[i] == ExistingAfter(apps[i], apps, added, days, user.id, weekStart,
                                   settings.discountTiers, settings.basePrice) by {
      BulkExistingAt(apps, added, days, user.id, weekStart, settings.discountTiers, settings.basePrice, i);
    }
    AddedCount(apps, settings, slots, machineId, offerId, user, weekStart, myOffers, ids, apps[i].dayIndex);
    TouchedDays(slots, apps[i].dayIndex);
    ExistingAfterByCounts(apps[i], apps, added, slots, user.id, weekStart, settings.discountTiers, settings.basePrice);
  }

  /** The new appointment of the `j`-th selected slot: the slot, the week,
      the user, the machine and the offer id, at the offer's price, re-priced
      with its day's tier when that tier is positive and it carries no offer. */
  lemma CreateAdded(apps: seq<Appointment>, settings: Settings,
                    slots: seq<Slot>, machineId: string, offerId: string, user: User,
                    weekStart: int, myOffers: seq<SpecialOffer>, ids: seq<string>, j: nat)
    requires |ids| == |slots| && j < |slots|
    ensures var r := CreateAppointments(apps, settings, slots, machineId, offerId, user,
                                        weekStart, myOffers, ids).appointments;
      var offer := SelectedOffer(myOffers, offerId);
      var n := NewAppointment(ids[j], weekStart, slots[j], user, machineId, offerId,
                              SlotPrice(settings.basePrice, offer));
      var t := CreateDayTier(apps, slots, user.id, weekStart, settings.discountTiers, slots[j].dayIndex);
      r[|apps| + j] == if t.Some? then Reprice(n, settings.basePrice, t.value) else n
  {
    var added := Added(settings, slots, machineId, offerId, user, weekStart, myOffers, ids);
    var b := BulkDays(apps, added, SlotDays(slots), user.id, weekStart, settings.discountTiers, settings.basePrice);
    assert CreateAppointments(apps, settings, slots, machineId, offerId, user,
                              weekStart, myOffers, ids).appointments[|apps| + j] == b.1[j] by {
      CreateParts(apps, settings, slots, machineId, offerId, user, weekStart, myOffers, ids);
    }
    BulkAddedBySelection(apps, settings, slots, machineId, offerId, user, weekStart, myOffers, ids, j);
  }

  /** `CreateAdded` for the bulk loop's output alone. */
  lemma BulkAddedBySelection(apps: seq<Appointment>, settings: Settings,
                             slots: seq<Slot>, machineId: string, offerId: string, user: User,
                             weekStart: int, myOffers: seq<SpecialOffer>, ids: seq<string>, j: nat)
    requires |ids| == |slots| && j < |slots|
    ensures var added := Added(settings, slots, machineId, offerId, user, weekStart, myOffers, ids);
      var b := BulkDays(apps, added, SlotDays(slots), user.id, weekStart,
                        settings.discountTiers, settings.basePrice);
      var n := NewAppointment(ids[j], weekStart, slots[j], user, machineId, offerId,
                              SlotPrice(settings.basePrice, SelectedOffer(myOffers, offerId)));
      var t := CreateDayTier(apps, slots, user.id, weekStart, settings.discountTiers, slots[j].dayIndex);
      b.1[j] == if t.Some? then Reprice(n, settings.basePrice, t.value) else n
  {
    var added := Added(settings, slots, machineId, offerId, user, weekStart, myOffers, ids);
    var days := SlotDays(slots);
    var b := BulkDays(apps, added, days, user.id, weekStart, settings.discountTiers, settings.basePrice);
    assert b.1[j] == FreshAfter(added[j], apps, added, days, user.id, weekStart,
                                settings.discountTiers, settings.basePrice) by {
      BulkAddedAt(apps, added, days, user.id, weekStart, settings.discountTiers, settings.basePrice, j);
    }
    var d := slots[j].dayIndex;
    var n := NewAppointment(ids[j], weekStart, slots[j], user, machineId, offerId,
                            SlotPrice(settings.basePrice, SelectedOffer(myOffers, offerId)));
    var t := CreateDayTier(apps, slots, user.id, weekStart, settings.discountTiers, d);
    assert FreshAfter(added[j], apps, added, days, user.id, weekStart,
                      settings.discountTiers, settings.basePrice)
        == if t.Some? then Reprice(n, settings.basePrice, t.value) else n by {
      AddedCount(apps, settings, slots, machineId, offerId, user, weekStart, myOffers, ids, d);
      TouchedDays(slots, d);
      assert added[j] == n;
      FreshAfterByCounts(added[j], apps, added, slots, user.id, weekStart,
                         settings.discountTiers, settings.basePrice);
    }
  }

  /** After booking, all of the user's offer-free appointments on a touched
      day with a positive tier, old and new alike, cost the same bulk price. */
  lemma CreateDayPriceUniform(apps: seq<Appointment>, settings: Settings,
                              slots: seq<Slot>, machineId: string, offerId: string, user: User,
                              weekStart: int, myOffers: seq<SpecialOffer>, ids: seq<string>, k: nat)
    requires |ids| == |slots| && k < |apps| + |slots|
    ensures var r := CreateAppointments(apps, settings, slots, machineId, offerId, user,
                                        weekStart, myOffers, ids).appointments;
      var t := CreateDayTier(apps, slots, user.id, weekStart, settings.discountTiers, r[k].dayIndex);
      SameDay(r[k], user.id, weekStart, r[k].dayIndex) && !HasOffer(r[k])
        && Touched(slots, r[k].dayIndex) && t.Some?
      ==> r[k].price == Some(BulkPrice(settings.basePrice, t.value)) && r[k].discountRule == t
  {
    var r := CreateAppointments(apps, settings, slots, machineId, offerId, user,
                                weekStart, myOffers, ids).appointments;
    var t := CreateDayTier(apps, slots, user.id, weekStart, settings.discountTiers, r[k].dayIndex);
    if SameDay(r[k], user.id, weekStart, r[k].dayIndex) && !HasOffer(r[k])
       && Touched(slots, r[k].dayIndex) && t.Some? {
      var before: Appointment;
      if k < |apps| {
        before := apps[k];
        assert r[k] == Reprice(before, settings.basePrice, t.value) by {
          CreateExisting(apps, settings, slots, machineId, offerId, user, weekStart, myOffers, ids, k);
          if r[k] == before {
          } else {
            assert SameSlot(r[k], before);
          }
        }
      } else {
        var j := k - |apps|;
        before := NewAppointment(ids[j], weekStart, slots[j], user, machineId, offerId,
                                 SlotPrice(settings.basePrice, SelectedOffer(myOffers, offerId)));
        assert r[k] == Reprice(before, settings.basePrice, t.value) by {
          CreateAdded(apps, settings, slots, machineId, offerId, user, weekStart, myOffers, ids, j);
        }
      }
      RepricedPrice(before, r[k], settings.basePrice, t.value);
    }
  }

  lemma RepricedPrice(before: Appointment, after: Appointment, basePrice: real, t: DiscountTier)
    requires after == Reprice(before, basePrice, t) && !HasOffer(after)
    ensures after.price == Some(BulkPrice(basePrice, t)) && after.discountRule == Some(t)
  {
  }

  /** With a `free_slot` offer every new appointment is stored at price 0:
      it carries the offer id, so the bulk rule leaves it alone. */
  lemma CreateFreeSlotAllFree(apps: seq<Appointment>, settings: Settings,
                              slots: seq<Slot>, machineId: string, offerId: string, user: User,
                              weekStart: int, myOffers: seq<SpecialOffer>, ids: seq<string>, j: nat)
    requires |ids| == |slots| && j < |slots| && offerId != ""
    requires exists o :: o in myOffers && o.id == offerId
    requires forall o :: o in myOffers && o.id == offerId ==> o.kind == FreeSlot
    ensures CreateAppointments(apps, settings, slots, machineId, offerId, user,
                               weekStart, myOffers, ids).appointments[|apps| + j].price == Some(0.0)
  {
    CreateAdded(apps, settings, slots, machineId, offerId, user, weekStart, myOffers, ids, j);
  }

  // -----------------------------------------------------------------------
  // cancelAppointment

  datatype CancelOutcome =
    | NotFound
    | TooLate(hoursLeft: real)
    | Cancelled(appointments: seq<Appointment>, offers: seq<SpecialOffer>)

  /** `(d.getTime() - now.getTime()) / (1000 * 60 * 60)`. */
  function HoursUntil(start: int, now: int): real {
    (start - now) as real / HOUR_MS as real
  }

  /** Fewer than two hours remain exactly when the start is less than two
      hours of milliseconds away. */
  lemma HoursUntilCutoff(start: int, now: int)
    ensures HoursUntil(start, now) < 2.0 <==> start - now < 2 * HOUR_MS
  {
    var h := HOUR_MS as real;
    assert h == 3600000.0;
    var x := (start - now) as real;
    assert x / h < 2.0 <==> x < 2.0 * h;
  }

  function StartOf(a: Appointment): int {
    SlotStart(a.weekStart, a.dayIndex, a.hour)
  }

  /** Give the offer back: every offer with that id becomes unused. */
  function ResetUsed(offers: seq<SpecialOffer>, offerId: string): (r: seq<SpecialOffer>)
    ensures |r| == |offers|
    ensures forall i :: 0 <= i < |r| ==> r[i].(used := false) == offers[i].(used := false)
    ensures forall i :: 0 <= i < |r| ==> r[i].used == (offers[i].used && offers[i].id != offerId)
  {
    Map(offers, (o: SpecialOffer) => if o.id == offerId then o.(used := false) else o)
  }

  /** The price the same-day group gets after a cancellation: the new tier's
      price when its discount is positive, the base price otherwise, and the
      label of that tier or none. */
  function RepriceAfterCancel(a: Appointment, basePrice: real, t: Option<DiscountTier>): Appointment {
    match t
    case Some(tier) => a.(price := Some(BulkPrice(basePrice, tier)), discountRule := Some(tier))
    case None => a.(price := Some(Round2(basePrice)), discountRule := None)
  }

  /** `appointments.find((a) => a.id === appId)`. */
  function Target(apps: seq<Appointment>, appId: string): Option<Appointment> {
    Find(apps, (a: Appointment) => a.id == appId)
  }

  /** The appointments other than the cancelled id (`filter((a) => a.id !== appId)`). */
  function Remaining(apps: seq<Appointment>, appId: string): seq<Appointment> {
    Filter(apps, (a: Appointment) => a.id != appId)
  }

  /** The tier the cancelled appointment's group keeps after the removal. */
  function TierAfterCancel(rest: seq<Appointment>, tiers: seq<DiscountTier>, app: Appointment)
    : Option<DiscountTier>
  {
    BulkTier(tiers, GroupCount(rest, app.userId, app.weekStart, app.dayIndex))
  }

  /** The appointments after cancelling `app`. */
  function AfterCancel(apps: seq<Appointment>, settings: Settings, app: Appointment, appId: string)
    : seq<Appointment>
  {
    var rest := Remaining(apps, appId);
    var t := TierAfterCancel(rest, settings.discountTiers, app);
    Map(rest, (a: Appointment) => AfterCancelOne(a, app, settings.basePrice, t))
  }

  /** What a cancellation does to one remaining appointment: the cancelled
      appointment's same-day group, offers aside, takes the new tier. */
  function AfterCancelOne(a: Appointment, app: Appointment, basePrice: real, t: Option<DiscountTier>)
    : Appointment
  {
    if SameDay(a, app.userId, app.weekStart, app.dayIndex) && !HasOffer(a)
    then RepriceAfterCancel(a, basePrice, t) else a
  }

  /** The offers after cancelling `app`: its offer, if any, is given back. */
  function OffersAfterCancel(offers: seq<SpecialOffer>, app: Appointment): seq<SpecialOffer> {
    if Truthy(app.offerId) then ResetUsed(offers, app.offerId.value) else offers
  }

  /** `cancelAppointment(appId)` at time `now`. */
  function CancelAppointment(apps: seq<Appointment>, settings: Settings, appId: string, now: int)
    : (r: CancelOutcome)
    ensures r.NotFound? <==> Target(apps, appId).None?
    ensures r.TooLate? <==> Target(apps, appId).Some? && StartOf(Target(apps, appId).value) - now < 2 * HOUR_MS
    ensures r.Cancelled? ==> r == Cancelled(AfterCancel(apps, settings, Target(apps, appId).value, appId),
                                            OffersAfterCancel(settings.specialOffers, Target(apps, appId).value))
  {
    match Target(apps, appId)
    case None => NotFound
    case Some(app) =>
      var hours := HoursUntil(StartOf(app), now);
      HoursUntilCutoff(StartOf(app), now);
      if hours < 2.0 then TooLate(hours)
      else Cancelled(AfterCancel(apps, settings, app, appId), OffersAfterCancel(settings.specialOffers, app))
  }

  /** An unknown id is exactly the `NotFound` case. */
  lemma CancelNotFound(apps: seq<Appointment>, settings: Settings, appId: string, now: int)
    ensures CancelAppointment(apps, settings, appId, now).NotFound?
        <==> forall i :: 0 <= i < |apps| ==> apps[i].id != appId
  {
  }

  /** A cancellation removes every appointment with that id and keeps the
      others in order, changing at most their price and label. */
  lemma CancelRemoves(apps: seq<Appointment>, settings: Settings, app: Appointment, appId: string)
    ensures var r := AfterCancel(apps, settings, app, appId);
      && |r| == |Remaining(apps, appId)| == |apps| - Count(apps, (a: Appointment) => a.id == appId)
      && (forall i :: 0 <= i < |r| ==> r[i].id != appId && SameSlot(r[i], Remaining(apps, appId)[i]))
  {
    var rest := Remaining(apps, appId);
    var r := AfterCancel(apps, settings, app, appId);
    assert |rest| == |apps| - Count(apps, (a: Appointment) => a.id == appId) by {
      FilterLength(apps, (a: Appointment) => a.id != appId);
      CountComplement(apps, (a: Appointment) => a.id != appId, (a: Appointment) => a.id == appId);
    }
    var t := TierAfterCancel(rest, settings.discountTiers, app);
    forall i | 0 <= i < |r|
      ensures r[i].id != appId && SameSlot(r[i], rest[i])
    {
      assert r[i] == AfterCancelOne(rest[i], app, settings.basePrice, t);
      assert rest[i].id != appId;
    }
  }

  /** After a cancellation the same user's offer-free appointments of that
      week and day carry the price of the tier the remaining count reaches
      (the base price and no label without one); everything else is as it
      was. */
  lemma CancelReprices(apps: seq<Appointment>, settings: Settings, app: Appointment, appId: string, i: nat)
    requires i < |Remaining(apps, appId)|
    ensures var rest := Remaining(apps, appId);
      var r := AfterCancel(apps, settings, app, appId);
      var t := TierAfterCancel(rest, settings.discountTiers, app);
      if SameDay(rest[i], app.userId, app.weekStart, app.dayIndex) && !HasOffer(rest[i])
      then r[i].price == Some(if t.Some? then BulkPrice(settings.basePrice, t.value) else Round2(settings.basePrice))
           && r[i].discountRule == t
      else r[i] == rest[i]
  {
  }

  /** Marking an offer used and then giving it back restores the offers,
      provided no offer with that id was used before. */
  lemma UsedRoundTrip(offers: seq<SpecialOffer>, offerId: string)
    requires forall i :: 0 <= i < |offers| && offers[i].id == offerId ==> !offers[i].used
    ensures ResetUsed(MarkUsed(offers, offerId), offerId) == offers
  {
    var r := ResetUsed(MarkUsed(offers, offerId), offerId);
    forall i | 0 <= i < |offers|
      ensures r[i] == offers[i]
    {
      assert r[i].(used := false) == offers[i].(used := false);
    }
  }

  /** The first new appointment of a booking is the one its id finds, when
      that id is not already taken. */
  lemma CreateFindsFirstAdded(apps: seq<Appointment>, settings: Settings, slots: seq<Slot>,
                              machineId: string, offerId: string, user: User, weekStart: int,
                              myOffers: seq<SpecialOffer>, ids: seq<string>)
    requires |ids| == |slots| > 0 && offerId != ""
    requires forall i :: 0 <= i < |apps| ==> apps[i].id != ids[0]
    ensures var r := CreateAppointments(apps, settings, slots, machineId, offerId, user, weekStart, myOffers, ids);
      Target(r.appointments, ids[0])
      == Some(NewAppointment(ids[0], weekStart, slots[0], user, machineId, offerId,
                             SlotPrice(settings.basePrice, SelectedOffer(myOffers, offerId))))
  {
    var r := CreateAppointments(apps, settings, slots, machineId, offerId, user, weekStart, myOffers, ids).appointments;
    forall k | 0 <= k < |apps|
      ensures r[k].id != ids[0]
    {
      CreateExisting(apps, settings, slots, machineId, offerId, user, weekStart, myOffers, ids, k);
    }
    var n := NewAppointment(ids[0], weekStart, slots[0], user, machineId, offerId,
                            SlotPrice(settings.basePrice, SelectedOffer(myOffers, offerId)));
    assert r[|apps|] == n by {
      CreateAdded(apps, settings, slots, machineId, offerId, user, weekStart, myOffers, ids, 0);
      assert HasOffer(n);
    }
    FindAt(r, (a: Appointment) => a.id == ids[0], |apps|);
  }

  /** Booking with an offer and then cancelling the first new appointment
      in time gives the offer back: the offers are as before the booking. */
  lemma CreateThenCancelRestoresOffers(apps: seq<Appointment>, settings: Settings, slots: seq<Slot>,
                                       machineId: string, offerId: string, user: User, weekStart: int,
                                       myOffers: seq<SpecialOffer>, ids: seq<string>, now: int)
    requires |ids| == |slots| > 0 && offerId != ""
    requires forall i :: 0 <= i < |apps| ==> apps[i].id != ids[0]
    requires forall i :: 0 <= i < |settings.specialOffers| && settings.specialOffers[i].id == offerId
               ==> !settings.specialOffers[i].used
    requires SlotStart(weekStart, slots[0].dayIndex, slots[0].hour) - now >= 2 * HOUR_MS
    ensures var b := CreateAppointments(apps, settings, slots, machineId, offerId, user, weekStart, myOffers, ids);
      var c := CancelAppointment(b.appointments, settings.(specialOffers := b.offers), ids[0], now);
      c.Cancelled? && c.offers == settings.specialOffers
  {
    var b := CreateAppointments(apps, settings, slots, machineId, offerId, user, weekStart, myOffers, ids);
    CreateFindsFirstAdded(apps, settings, slots, machineId, offerId, user, weekStart, myOffers, ids);
    UsedRoundTrip(settings.specialOffers, offerId);
  }
}
