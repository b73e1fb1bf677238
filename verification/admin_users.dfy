/** The admin user list (src/features/admin/hooks/useAdminUsers.ts):
    blocking, the selection of users an offer is sent to, per-user spend and
    booking counts, the latest badge and the per-day booking breakdown. */
module AdminUsers {
  import opened Base
  import opened Domain
  import opened Calendar
  import opened Loyalty
  import opened History
  import opened Computed

  /** `toggleBlockUser`: flip `blocked` on the users with that id. */
  function ToggleBlock(users: seq<User>, userId: string): (r: seq<User>)
    ensures |r| == |users|
    ensures forall i :: 0 <= i < |users| ==>
      r[i].(blocked := users[i].blocked) == users[i]
      && (r[i].blocked <==> (users[i].blocked != (users[i].id == userId)))
  {
    Map(users, (u: User) => if u.id == userId then u.(blocked := !u.blocked) else u)
  }

  /** Blocking twice is unblocking. */
  lemma ToggleBlockTwice(users: seq<User>, userId: string)
    ensures ToggleBlock(ToggleBlock(users, userId), userId) == users
  {
    var r := ToggleBlock(ToggleBlock(users, userId), userId);
    forall i | 0 <= i < |users|
      ensures r[i] == users[i]
    {
      assert r[i].(blocked := users[i].blocked) == users[i];
    }
  }

  /** `toggleUserSelection`. */
  function ToggleSelected(selected: set<string>, userId: string): (r: set<string>)
    ensures userId in r <==> userId !in selected
    ensures forall id :: id != userId ==> (id in r <==> id in selected)
  {
    if userId in selected then selected - {userId} else selected + {userId}
  }

  lemma ToggleSelectedTwice(selected: set<string>, userId: string)
    ensures ToggleSelected(ToggleSelected(selected, userId), userId) == selected
  {
  }

  function AllIds(users: seq<User>): (r: set<string>)
    ensures forall id :: id in r <==> exists i :: 0 <= i < |users| && users[i].id == id
  {
    set i | 0 <= i < |users| :: users[i].id
  }

  /** `selectAllUsers`: clear when as many users are selected as there are
      users, select every user otherwise. */
  function SelectAll(selected: set<string>, users: seq<User>): (r: set<string>)
    ensures |selected| == |users| ==> r == {}
    ensures |selected| != |users| ==> r == AllIds(users)
  {
    if |selected| == |users| then {} else AllIds(users)
  }

  /** With distinct user ids, "select all" from a partial selection selects
      everyone, and pressing it again clears the selection. */
  lemma SelectAllTwice(selected: set<string>, users: seq<User>)
    requires forall i, j :: 0 <= i < j < |users| ==> users[i].id != users[j].id
    requires |selected| != |users|
    ensures SelectAll(SelectAll(selected, users), users) == {}
  {
    DistinctIdsCount(users);
  }

  /** Distinct ids make as many ids as users. */
  lemma {:induction false} DistinctIdsCount(users: seq<User>)
    requires forall i, j :: 0 <= i < j < |users| ==> users[i].id != users[j].id
    ensures |AllIds(users)| == |users|
  {
    if |users| > 0 {
      var rest := users[1..];
      DistinctIdsCount(rest);
      assert AllIds(users) == AllIds(rest) + {users[0].id} by {
        forall id | id in AllIds(users)
          ensures id in AllIds(rest) + {users[0].id}
        {
          var i :| 0 <= i < |users| && users[i].id == id;
          if i > 0 {
            assert rest[i - 1].id == id;
          }
        }
      }
      assert users[0].id !in AllIds(rest);
    }
  }

  // -----------------------------------------------------------------------
  // Spend and counts

  /** `a.price || 0` (and `a.price ?? 0`: the two differ only on a zero
      price, which both turn into 0). */
  function PriceOrZero(a: Appointment): real {
    if a.price.Some? then a.price.value else 0.0
  }

  function Get<T>(m: map<string, T>, key: string, default: T): T {
    if key in m then m[key] else default
  }

  /** `spendByUserId`: the loop over the appointments, skipping those
      without a user id. */
  function SpendMap(apps: seq<Appointment>): map<string, real>
    decreases |apps|
  {
    if |apps| == 0 then map[]
    else
      var m := SpendMap(apps[..|apps| - 1]);
      var a := apps[|apps| - 1];
      if a.userId == "" then m else m[a.userId := Get(m, a.userId, 0.0) + PriceOrZero(a)]
  }

  /** `countByUserId`, the same loop counting. */
  function CountMap(apps: seq<Appointment>): map<string, nat>
    decreases |apps|
  {
    if |apps| == 0 then map[]
    else
      var m := CountMap(apps[..|apps| - 1]);
      var a := apps[|apps| - 1];
      if a.userId == "" then m else m[a.userId := Get(m, a.userId, 0) + 1]
  }

  /** The sum of a user's appointment prices, a missing price counting 0. */
  function Spend(apps: seq<Appointment>, userId: string): real {
    SumReal(Map(OwnedBy(apps, userId), PriceOrZero))
  }

  lemma SpendSnoc(apps: seq<Appointment>, a: Appointment, userId: string)
    ensures Spend(apps + [a], userId) == Spend(apps, userId) + (if a.userId == userId then PriceOrZero(a) else 0.0)
  {
    var f, g := OwnedBy(apps, userId), OwnedBy([a], userId);
    FilterConcat(apps, [a], Owns(userId));
    MapConcat(f, g, PriceOrZero);
    SumRealConcat(Map(f, PriceOrZero), Map(g, PriceOrZero));
    if a.userId == userId {
      assert g == [a];
      assert Map(g, PriceOrZero) == [PriceOrZero(a)];
    } else {
      assert g == [];
      assert Map(g, PriceOrZero) == [];
    }
  }

  /** `SpendSnoc` for a non-empty list split before its last element. */
  lemma SpendLast(apps: seq<Appointment>, userId: string)
    requires |apps| > 0
    ensures Spend(apps, userId)
         == Spend(apps[..|apps| - 1], userId) + (if apps[|apps| - 1].userId == userId then PriceOrZero(apps[|apps| - 1]) else 0.0)
  {
    var init, a := apps[..|apps| - 1], apps[|apps| - 1];
    assert apps == init + [a];
    SpendSnoc(init, a, userId);
  }

  /** `getUserTotalSpend`: the map holds exactly each user's total spend;
      an unknown user, and the empty id, get 0. */
  lemma {:induction false} TotalSpend(apps: seq<Appointment>, userId: string)
    ensures Get(SpendMap(apps), userId, 0.0) == if userId == "" then 0.0 else Spend(apps, userId)
    decreases |apps|
  {
    if |apps| == 0 {
      assert OwnedBy(apps, userId) == [];
    } else {
      TotalSpend(apps[..|apps| - 1], userId);
      SpendLast(apps, userId);
    }
  }

  lemma CountSnoc(apps: seq<Appointment>, a: Appointment, userId: string)
    ensures Count(apps + [a], Owns(userId)) == Count(apps, Owns(userId)) + (if a.userId == userId then 1 else 0)
  {
    CountConcat(apps, [a], Owns(userId));
  }

  /** The count map holds each user's number of appointments. */
  lemma {:induction false} BookingCount(apps: seq<Appointment>, userId: string)
    ensures Get(CountMap(apps), userId, 0) == if userId == "" then 0 else Count(apps, Owns(userId))
    decreases |apps|
  {
    if |apps| > 0 {
      var init, a := apps[..|apps| - 1], apps[|apps| - 1];
      BookingCount(init, userId);
      assert apps == init + [a];
      CountSnoc(init, a, userId);
    }
  }

  /** `getUserLatestBadge`: the top earned badge for the user's count. */
  function UserLatestBadge(apps: seq<Appointment>, settings: Settings, userId: string): Option<LoyaltyTier> {
    LatestBadge(settings.loyaltyEnabled, settings.loyaltyTiers, Get(CountMap(apps), userId, 0))
  }

  /** The admin sees the same latest badge as the user: the first of the
      user's own earned badges. */
  lemma LatestBadgeAgrees(apps: seq<Appointment>, settings: Settings, user: User)
    requires user.id != ""
    ensures var earned := EarnedBadges(Some(user), apps, settings);
      UserLatestBadge(apps, settings, user.id) == if |earned| > 0 then Some(earned[0]) else None
  {
    BookingCount(apps, user.id);
  }

  // -----------------------------------------------------------------------
  // Breakdown

  /** One row of `getUserBreakdown`: the calendar day (the rendered date
      key), how many slots, their sum, the prices below the base price and
      the rules stored on those. */
  datatype DayGroup = DayGroup(date: int, count: nat, sum: real, discounts: seq<real>, rules: seq<DiscountTier>)

  /** The calendar day an appointment's slot falls on. */
  function SlotDay(a: Appointment): int {
    a.weekStart + MondayOffset(a.dayIndex)
  }

  /** Add one appointment to its day's group. */
  function AddToGroup(g: DayGroup, a: Appointment, basePrice: real): DayGroup {
    var below := PriceOrZero(a) < basePrice;
    DayGroup(g.date, g.count + 1, g.sum + PriceOrZero(a),
             if below then g.discounts + [PriceOrZero(a)] else g.discounts,
             if below && a.discountRule.Some? then g.rules + [a.discountRule.value] else g.rules)
  }

  function IsDate(d: int): DayGroup -> bool {
    (g: DayGroup) => g.date == d
  }

  /** The grouping loop over the first `|apps|` appointments: groups in
      order of first appearance (the insertion order `Object.entries`
      keeps for such keys). */
  function Group(apps: seq<Appointment>, basePrice: real): (r: seq<DayGroup>)
    decreases |apps|
  {
    if |apps| == 0 then []
    else
      var gs := Group(apps[..|apps| - 1], basePrice);
      var a := apps[|apps| - 1];
      match FindIndex(gs, IsDate(SlotDay(a)))
      case Some(k) => gs[k := AddToGroup(gs[k], a, basePrice)]
      case None => gs + [AddToGroup(DayGroup(SlotDay(a), 0, 0.0, [], []), a, basePrice)]
  }

  function Breakdown(apps: seq<Appointment>, settings: Settings, userId: string): seq<DayGroup> {
    Group(OwnedBy(apps, userId), settings.basePrice)
  }

  function CountSum(gs: seq<DayGroup>): nat {
    if |gs| == 0 then 0 else gs[0].count + CountSum(gs[1..])
  }

  lemma {:induction false} CountSumUpdate(gs: seq<DayGroup>, k: nat, g: DayGroup)
    requires k < |gs|
    ensures CountSum(gs[k := g]) == CountSum(gs) - gs[k].count + g.count
  {
    if k > 0 {
      assert gs[k := g][1..] == gs[1..][k - 1 := g];
      CountSumUpdate(gs[1..], k - 1, g);
    }
  }

  lemma {:induction false} CountSumSnoc(gs: seq<DayGroup>, g: DayGroup)
    ensures CountSum(gs + [g]) == CountSum(gs) + g.count
  {
    if |gs| > 0 {
      assert (gs + [g])[1..] == gs[1..] + [g];
      CountSumSnoc(gs[1..], g);
    }
  }

  /** The group counts add up to the number of appointments grouped. */
  lemma {:induction false} GroupCount(apps: seq<Appointment>, basePrice: real)
    ensures CountSum(Group(apps, basePrice)) == |apps|
    decreases |apps|
  {
    if |apps| > 0 {
      var a := apps[|apps| - 1];
      var gs := Group(apps[..|apps| - 1], basePrice);
      GroupCount(apps[..|apps| - 1], basePrice);
      match FindIndex(gs, IsDate(SlotDay(a)))
      case Some(k) =>
        CountSumUpdate(gs, k, AddToGroup(gs[k], a, basePrice));
      case None =>
        CountSumSnoc(gs, AddToGroup(DayGroup(SlotDay(a), 0, 0.0, [], []), a, basePrice));
    }
  }

  predicate DatesDistinct(gs: seq<DayGroup>) {
    forall i, j :: 0 <= i < j < |gs| ==> gs[i].date != gs[j].date
  }

  predicate DiscountsBelow(gs: seq<DayGroup>, basePrice: real) {
    forall i, k :: 0 <= i < |gs| && 0 <= k < |gs[i].discounts| ==> gs[i].discounts[k] < basePrice
  }

  /** No two groups share a date. */
  lemma {:induction false} GroupDatesDistinct(apps: seq<Appointment>, basePrice: real)
    ensures DatesDistinct(Group(apps, basePrice))
    decreases |apps|
  {
    if |apps| > 0 {
      var a := apps[|apps| - 1];
      var gs := Group(apps[..|apps| - 1], basePrice);
      GroupDatesDistinct(apps[..|apps| - 1], basePrice);
      match FindIndex(gs, IsDate(SlotDay(a)))
      case Some(k) =>
        var r := gs[k := AddToGroup(gs[k], a, basePrice)];
        assert forall i :: 0 <= i < |r| ==> r[i].date == gs[i].date;
      case None =>
        var r := gs + [AddToGroup(DayGroup(SlotDay(a), 0, 0.0, [], []), a, basePrice)];
        forall i, j | 0 <= i < j < |r|
          ensures r[i].date != r[j].date
        {
          assert r[i] == gs[i];
          if j == |gs| {
            assert !IsDate(SlotDay(a))(gs[i]);
            assert r[j].date == SlotDay(a);
          } else {
            assert r[j] == gs[j];
          }
        }
    }
  }

  /** Adding to a group keeps its discounts below the base price. */
  lemma AddKeepsBelow(g: DayGroup, a: Appointment, basePrice: real)
    requires forall m :: 0 <= m < |g.discounts| ==> g.discounts[m] < basePrice
    ensures var d := AddToGroup(g, a, basePrice).discounts;
      forall m :: 0 <= m < |d| ==> d[m] < basePrice
  {
  }

  /** Every recorded discount is below the base price. */
  lemma {:induction false} GroupDiscountsBelow(apps: seq<Appointment>, basePrice: real)
    ensures DiscountsBelow(Group(apps, basePrice), basePrice)
    decreases |apps|
  {
    if |apps| > 0 {
      var a := apps[|apps| - 1];
      var gs := Group(apps[..|apps| - 1], basePrice);
      GroupDiscountsBelow(apps[..|apps| - 1], basePrice);
      match FindIndex(gs, IsDate(SlotDay(a)))
      case Some(k) =>
        AddKeepsBelow(gs[k], a, basePrice);
        var r := gs[k := AddToGroup(gs[k], a, basePrice)];
        assert forall i :: 0 <= i < |r| && i != k ==> r[i] == gs[i];
      case None =>
        var g := AddToGroup(DayGroup(SlotDay(a), 0, 0.0, [], []), a, basePrice);
        AddKeepsBelow(DayGroup(SlotDay(a), 0, 0.0, [], []), a, basePrice);
        var r := gs + [g];
        assert forall i :: 0 <= i < |gs| ==> r[i] == gs[i];
    }
  }

  /** `getUserBreakdown`: the counts add up to the user's number of
      appointments and each discount list holds only prices below the base
      price. */
  lemma BreakdownFacts(apps: seq<Appointment>, settings: Settings, userId: string)
    ensures var gs := Breakdown(apps, settings, userId);
      && CountSum(gs) == Count(apps, Owns(userId))
      && (forall i, j :: 0 <= i < j < |gs| ==> gs[i].date != gs[j].date)
      && (forall i, k :: 0 <= i < |gs| && 0 <= k < |gs[i].discounts| ==> gs[i].discounts[k] < settings.basePrice)
  {
    var owned := OwnedBy(apps, userId);
    GroupCount(owned, settings.basePrice);
    GroupDatesDistinct(owned, settings.basePrice);
    GroupDiscountsBelow(owned, settings.basePrice);
    FilterLength(apps, Owns(userId));
  }

  // -----------------------------------------------------------------------
  // Expanded row

  /** `toggleExpandedUser`: collapse the expanded user, expand any other. */
  function ToggleExpanded(expanded: Option<string>, userId: string): (r: Option<string>)
    ensures r == Some(userId) <==> expanded != Some(userId)
    ensures r != Some(userId) ==> r.None?
  {
    if expanded == Some(userId) then None else Some(userId)
  }
}
