/** The total shown before booking (src/app/hooks/usePricing.ts): each
    selected slot is priced by the active offer, the first slots of a
    free-slot offer cost nothing, each day's subtotal earns the consecutive
    discount its count reaches, and the sum is rounded to cents. */
module Pricing {
  import opened Base
  import opened Domain
  import opened Money
  import opened DiscountTiers

  /** Sort key of a selected slot (`dayIndex * 24 + hour`). */
  function SlotKey(s: Slot): int {
    s.dayIndex * 24 + s.hour
  }

  /** The price of one slot under the active offer, before free slots. */
  function OfferPrice(basePrice: real, offer: Option<SpecialOffer>): real {
    match offer
    case None => basePrice
    case Some(o) =>
      if o.kind == FixedPrice then o.value
      else if o.kind == DiscountPercent then ApplyPercent(basePrice, o.value)
      else basePrice
  }

  /** `(activeOffer?.type === "free_slot" && activeOffer.value) || 0`. */
  function FreeBudget(offer: Option<SpecialOffer>): real {
    if offer.Some? && offer.value.kind == FreeSlot then offer.value.value else 0.0
  }

  /** A selected slot's day and its price after the offer. */
  datatype Priced = Priced(day: int, price: real)

  /** The per-slot loop: while the free-slot budget is positive a slot costs 0
      and the budget drops by one. */
  function PriceSlots(sorted: seq<Slot>, unit: real, budget: real): (r: seq<Priced>)
    ensures |r| == |sorted|
    ensures forall i :: 0 <= i < |r| ==> r[i].day == sorted[i].dayIndex
  {
    if |sorted| == 0 then []
    else if budget > 0.0 then [Priced(sorted[0].dayIndex, 0.0)] + PriceSlots(sorted[1..], unit, budget - 1.0)
    else [Priced(sorted[0].dayIndex, unit)] + PriceSlots(sorted[1..], unit, budget)
  }

  /** How many slots out of `n` a budget makes free. */
  function FreeCount(budget: real, n: nat): nat {
    if n == 0 || budget <= 0.0 then 0 else 1 + FreeCount(budget - 1.0, n - 1)
  }

  /** Exactly the first `FreeCount` slots in sorted order are free; the others
      cost the offer price. */
  lemma {:induction false} FreePrefix(sorted: seq<Slot>, unit: real, budget: real, i: nat)
    requires i < |sorted|
    ensures PriceSlots(sorted, unit, budget)[i].price
         == if i < FreeCount(budget, |sorted|) then 0.0 else unit
  {
    if i > 0 {
      if budget > 0.0 {
        FreePrefix(sorted[1..], unit, budget - 1.0, i - 1);
      } else {
        FreePrefix(sorted[1..], unit, budget, i - 1);
      }
    }
  }

  /** A whole-number budget frees min(budget, n) slots. */
  lemma {:induction false} FreeCountWhole(b: nat, n: nat)
    ensures FreeCount(b as real, n) == if b < n then b else n
  {
    if n > 0 && b > 0 {
      assert (b as real) - 1.0 == (b - 1) as real;
      FreeCountWhole(b - 1, n - 1);
    }
  }

  // -----------------------------------------------------------------------
  // Grouping by day

  function DaySubtotal(ps: seq<Priced>, d: int): real {
    if |ps| == 0 then 0.0
    else (if ps[0].day == d then ps[0].price else 0.0) + DaySubtotal(ps[1..], d)
  }

  function DayCount(ps: seq<Priced>, d: int): nat {
    Count(ps, (p: Priced) => p.day == d)
  }

  /** The distinct days of the selection (the keys of `dayGroups`); the order
      in which they are summed does not matter. */
  function Days(ps: seq<Priced>): seq<int> {
    Dedup(Map(ps, (p: Priced) => p.day))
  }

  /** What the day-discount computation needs besides the selection. */
  datatype Context = Context(
    tiers: seq<DiscountTier>,
    appointments: seq<Appointment>,
    user: Option<User>,
    weekStart: int)

  /** The user's existing bookings that week on that day; 0 without a user. */
  function ExistingCount(ctx: Context, d: int): nat {
    match ctx.user
    case None => 0
    case Some(u) =>
      Count(ctx.appointments, (a: Appointment) => a.userId == u.id && a.weekStart == ctx.weekStart && a.dayIndex == d)
  }

  /** The multiplier the day's tier applies to the day's subtotal. */
  function DayFactor(ctx: Context, ps: seq<Priced>, d: int): real {
    match ResolveTier(ctx.tiers, ExistingCount(ctx, d) + DayCount(ps, d))
    case Some(t) => 1.0 - t.discount / 100.0
    case None => 1.0
  }

  /** Sum over `days` of each day's subtotal times that day's multiplier. */
  function SumDays(ps: seq<Priced>, days: seq<int>, factor: int -> real): real {
    if |days| == 0 then 0.0
    else DaySubtotal(ps, days[0]) * factor(days[0]) + SumDays(ps, days[1..], factor)
  }

  /** `(o) => o.id === offerId`. */
  function HasOfferId(offerId: string): SpecialOffer -> bool {
    (o: SpecialOffer) => o.id == offerId
  }

  /** The selection in (day, hour) order, each slot priced by the chosen
      offer. */
  function PricedSelection(selected: seq<Slot>, offerId: string, myOffers: seq<SpecialOffer>,
                           basePrice: real): seq<Priced>
  {
    var offer := Find(myOffers, HasOfferId(offerId));
    PriceSlots(SortBy(selected, SlotKey), OfferPrice(basePrice, offer), FreeBudget(offer))
  }

  /** Each day's multiplier for the priced selection `ps`. */
  function FactorOf(ctx: Context, ps: seq<Priced>): int -> real {
    (d: int) => DayFactor(ctx, ps, d)
  }

  /** The whole `usePricing` computation: the day subtotals, each times its
      day's multiplier, summed and rounded to cents. Its contract states the
      same total slot by slot: every priced slot times the multiplier its
      day earns. */
  function TotalPrice(selected: seq<Slot>, offerId: string, myOffers: seq<SpecialOffer>,
                      basePrice: real, ctx: Context): (r: real)
    ensures var ps := PricedSelection(selected, offerId, myOffers, basePrice);
      r == Round2(FlatTotal(ps, FactorOf(ctx, ps)))
  {
    var ps := PricedSelection(selected, offerId, myOffers, basePrice);
    GroupedEqualsFlat(ps, FactorOf(ctx, ps));
    Round2(SumDays(ps, Days(ps), FactorOf(ctx, ps)))
  }

  // -----------------------------------------------------------------------
  // Properties

  /** Nothing selected costs nothing. */
  lemma TotalPriceEmpty(offerId: string, myOffers: seq<SpecialOffer>, basePrice: real, ctx: Context)
    ensures TotalPrice([], offerId, myOffers, basePrice, ctx) == 0.0
  {
    var ps := PricedSelection([], offerId, myOffers, basePrice);
    assert ps == [];
    assert Days(ps) == [];
    Round2Cents(0);
  }

  /** Selecting the same slots in another order gives the same total: the
      slots are priced in (day, hour) order, and with hours within 0..23 that
      order is unique. */
  lemma TotalPriceOrderIndependent(a: seq<Slot>, b: seq<Slot>, offerId: string,
                                   myOffers: seq<SpecialOffer>, basePrice: real, ctx: Context)
    requires multiset(a) == multiset(b)
    requires forall i :: 0 <= i < |a| ==> 0 <= a[i].hour < 24
    ensures TotalPrice(a, offerId, myOffers, basePrice, ctx) == TotalPrice(b, offerId, myOffers, basePrice, ctx)
  {
    SortSlotsUnique(a, b);
    assert PricedSelection(a, offerId, myOffers, basePrice) == PricedSelection(b, offerId, myOffers, basePrice);
  }

  /** With hours within 0..23 the (day, hour) key tells slots apart, so two
      arrangements of the same slots sort alike. */
  lemma SortSlotsUnique(a: seq<Slot>, b: seq<Slot>)
    requires multiset(a) == multiset(b)
    requires forall i :: 0 <= i < |a| ==> 0 <= a[i].hour < 24
    ensures SortBy(a, SlotKey) == SortBy(b, SlotKey)
  {
    var sa, sb := SortBy(a, SlotKey), SortBy(b, SlotKey);
    forall i, j | 0 <= i < |sa| && 0 <= j < |sa| && SlotKey(sa[i]) == SlotKey(sa[j])
      ensures sa[i] == sa[j]
    {
      assert sa[i] in multiset(a) && sa[j] in multiset(a);
      SlotKeyInjective(sa[i], sa[j]);
    }
    SortedUnique(sa, sb, SlotKey);
  }

  lemma SlotKeyInjective(x: Slot, y: Slot)
    requires 0 <= x.hour < 24 && 0 <= y.hour < 24
    requires SlotKey(x) == SlotKey(y)
    ensures x == y
  {
  }

  /** Each day's subtotal is discounted as a whole, which is the same as
      discounting every slot by its day's multiplier. */
  lemma {:induction false} GroupedEqualsFlat(ps: seq<Priced>, factor: int -> real)
    ensures SumDays(ps, Days(ps), factor) == FlatTotal(ps, factor)
  {
    GroupedEqualsFlatOn(ps, Days(ps), factor);
  }

  /** Sum over the slots of price times the multiplier of the slot's day. */
  function FlatTotal(xs: seq<Priced>, factor: int -> real): real {
    if |xs| == 0 then 0.0
    else xs[0].price * factor(xs[0].day) + FlatTotal(xs[1..], factor)
  }

  lemma Distribute(a: real, b: real, f: real)
    ensures (a + b) * f == a * f + b * f
  {
  }

  lemma DaySubtotalSingle(x: Priced, d: int)
    ensures DaySubtotal([x], d) == if x.day == d then x.price else 0.0
  {
    assert [x][1..] == [];
  }

  /** Only the slot's own day picks up its price. */
  lemma {:induction false} GroupedSingle(x: Priced, days: seq<int>, factor: int -> real)
    requires forall i, j :: 0 <= i < j < |days| ==> days[i] != days[j]
    ensures x.day in days ==> SumDays([x], days, factor) == x.price * factor(x.day)
    ensures x.day !in days ==> SumDays([x], days, factor) == 0.0
  {
    if |days| > 0 {
      var d := days[0];
      var sub := DaySubtotal([x], d);
      DaySubtotalSingle(x, d);
      var rest := SumDays([x], days[1..], factor);
      assert SumDays([x], days, factor) == sub * factor(d) + rest;
      GroupedSingle(x, days[1..], factor);
      if x.day == d {
        DistinctTail(days);
        assert rest == 0.0;
      } else {
        assert sub == 0.0;
        assert x.day in days <==> x.day in days[1..];
      }
    }
  }

  lemma {:induction false} GroupedSplit(xs: seq<Priced>, days: seq<int>, factor: int -> real)
    requires |xs| > 0
    ensures SumDays(xs, days, factor) == SumDays([xs[0]], days, factor) + SumDays(xs[1..], days, factor)
  {
    if |days| > 0 {
      var d, f := days[0], factor(days[0]);
      var p, p0, p1 := DaySubtotal(xs, d) * f, DaySubtotal([xs[0]], d) * f, DaySubtotal(xs[1..], d) * f;
      assert p == p0 + p1 by {
        SubtotalSplit(xs, d);
        SameProduct(DaySubtotal(xs, d), DaySubtotal([xs[0]], d) + DaySubtotal(xs[1..], d), f);
        Distribute(DaySubtotal([xs[0]], d), DaySubtotal(xs[1..], d), f);
      }
      assert SumDays(xs, days, factor) == p + SumDays(xs, days[1..], factor) by {
        SumDaysUnfold(xs, days, factor);
      }
      assert SumDays([xs[0]], days, factor) == p0 + SumDays([xs[0]], days[1..], factor) by {
        SumDaysUnfold([xs[0]], days, factor);
      }
      assert SumDays(xs[1..], days, factor) == p1 + SumDays(xs[1..], days[1..], factor) by {
        SumDaysUnfold(xs[1..], days, factor);
      }
      GroupedSplit(xs, days[1..], factor);
    }
  }

  lemma SumDaysUnfold(xs: seq<Priced>, days: seq<int>, factor: int -> real)
    requires |days| > 0
    ensures SumDays(xs, days, factor)
         == DaySubtotal(xs, days[0]) * factor(days[0]) + SumDays(xs, days[1..], factor)
  {
  }

  lemma SubtotalSplit(xs: seq<Priced>, d: int)
    requires |xs| > 0
    ensures DaySubtotal(xs, d) == DaySubtotal([xs[0]], d) + DaySubtotal(xs[1..], d)
  {
    DaySubtotalSingle(xs[0], d);
  }

  lemma SameProduct(a: real, b: real, f: real)
    requires a == b
    ensures a * f == b * f
  {
  }

  lemma {:induction false} GroupedEqualsFlatOn(xs: seq<Priced>, days: seq<int>, factor: int -> real)
    requires forall i, j :: 0 <= i < j < |days| ==> days[i] != days[j]
    requires forall i :: 0 <= i < |xs| ==> xs[i].day in days
    ensures SumDays(xs, days, factor) == FlatTotal(xs, factor)
    decreases |xs|
  {
    if |xs| == 0 {
      GroupedEmpty(days, factor);
    } else {
      GroupedSplit(xs, days, factor);
      GroupedSingle(xs[0], days, factor);
      GroupedEqualsFlatOn(xs[1..], days, factor);
    }
  }

  lemma {:induction false} GroupedEmpty(days: seq<int>, factor: int -> real)
    ensures SumDays([], days, factor) == 0.0
  {
    if |days| > 0 {
      GroupedEmpty(days[1..], factor);
    }
  }
}
