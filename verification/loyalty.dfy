/** Loyalty badges, as both the customer dashboard
    (src/app/hooks/useComputedValues.ts) and the admin user list
    (src/features/admin/hooks/useAdminUsers.ts) compute them: a tier is
    earned once the booking count reaches its requirement, the earned tiers
    are listed with the largest requirement first, and the next badge is the
    first enabled tier still out of reach. */
module Loyalty {
  import opened Base
  import opened Domain

  /** `tier.enabled && count >= tier.bookingsRequired`. */
  predicate Qualifies(t: LoyaltyTier, count: int) {
    t.enabled && count >= t.bookingsRequired
  }

  function QualifiesAt(count: int): LoyaltyTier -> bool {
    (t: LoyaltyTier) => Qualifies(t, count)
  }

  function NegRequired(t: LoyaltyTier): int {
    -t.bookingsRequired
  }

  /** The earned tiers: none while the programme is disabled, otherwise the
      qualifying tiers sorted by `bookingsRequired`, largest first (a stable
      sort). */
  function Earned(enabled: bool, tiers: seq<LoyaltyTier>, count: int): (r: seq<LoyaltyTier>)
    ensures !enabled ==> r == []
    ensures enabled ==> multiset(r) == multiset(Filter(tiers, QualifiesAt(count)))
    ensures forall i, j :: 0 <= i < j < |r| ==> r[i].bookingsRequired >= r[j].bookingsRequired
  {
    if !enabled then []
    else
      var r := SortBy(Filter(tiers, QualifiesAt(count)), NegRequired);
      assert forall i, j :: 0 <= i < j < |r| ==> NegRequired(r[i]) <= NegRequired(r[j]);
      r
  }

  /** A tier is earned iff the programme is on, the tier is one of the
      settings' tiers, and it qualifies. */
  lemma EarnedMember(enabled: bool, tiers: seq<LoyaltyTier>, count: int, t: LoyaltyTier)
    ensures t in Earned(enabled, tiers, count) <==> enabled && t in tiers && Qualifies(t, count)
  {
    if enabled {
      var f := Filter(tiers, QualifiesAt(count));
      var r := Earned(enabled, tiers, count);
      assert t in r <==> t in multiset(r);
      assert t in f <==> t in multiset(f);
      if t in tiers && Qualifies(t, count) {
        var i :| 0 <= i < |tiers| && tiers[i] == t;
        assert QualifiesAt(count)(tiers[i]);
      }
    }
  }

  /** `getUserLatestBadge` on a count: the first earned tier, if any. */
  function LatestBadge(enabled: bool, tiers: seq<LoyaltyTier>, count: int): (r: Option<LoyaltyTier>)
    ensures r.None? <==> !enabled || forall i :: 0 <= i < |tiers| ==> !Qualifies(tiers[i], count)
    ensures r.Some? ==> enabled && r.value in tiers && Qualifies(r.value, count)
    ensures r.Some? ==> forall i :: 0 <= i < |tiers| && Qualifies(tiers[i], count) ==>
      tiers[i].bookingsRequired <= r.value.bookingsRequired
    ensures r.Some? ==>
      exists k :: 0 <= k < |tiers| && tiers[k] == r.value
        && forall j :: 0 <= j < k ==>
             !(Qualifies(tiers[j], count) && tiers[j].bookingsRequired == r.value.bookingsRequired)
  {
    var e := Earned(enabled, tiers, count);
    if |e| > 0 then
      EarnedMember(enabled, tiers, count, e[0]);
      EarnedFirstListed(tiers, count);
      forall i | 0 <= i < |tiers| && Qualifies(tiers[i], count)
        ensures tiers[i].bookingsRequired <= e[0].bookingsRequired
      {
        EarnedMember(enabled, tiers, count, tiers[i]);
        var j :| 0 <= j < |e| && e[j] == tiers[i];
      }
      Some(e[0])
    else
      forall i | 0 <= i < |tiers| && enabled
        ensures !Qualifies(tiers[i], count)
      {
        EarnedMember(enabled, tiers, count, tiers[i]);
      }
      None
  }

  /** The sort is stable, so the top earned tier is the first listed of the
      qualifying tiers sharing its requirement. */
  lemma EarnedFirstListed(tiers: seq<LoyaltyTier>, count: int)
    requires |Earned(true, tiers, count)| > 0
    ensures var x := Earned(true, tiers, count)[0];
      exists k :: 0 <= k < |tiers| && tiers[k] == x
        && forall j :: 0 <= j < k ==>
             !(Qualifies(tiers[j], count) && tiers[j].bookingsRequired == x.bookingsRequired)
  {
    var f := Filter(tiers, QualifiesAt(count));
    var x := SortBy(f, NegRequired)[0];
    FindFirstOfKey(f, NegRequired, 0);
    FindInFilter(tiers, QualifiesAt(count), KeyIs(NegRequired, NegRequired(x)));
    FirstQualifying(tiers, count, x);
  }

  lemma FirstQualifying(tiers: seq<LoyaltyTier>, count: int, x: LoyaltyTier)
    requires Find(tiers, Both(QualifiesAt(count), KeyIs(NegRequired, NegRequired(x)))) == Some(x)
    ensures exists k :: 0 <= k < |tiers| && tiers[k] == x
              && forall j :: 0 <= j < k ==>
                   !(Qualifies(tiers[j], count) && tiers[j].bookingsRequired == x.bookingsRequired)
  {
    var both := Both(QualifiesAt(count), KeyIs(NegRequired, NegRequired(x)));
    var k := FindIndex(tiers, both).value;
    forall j | 0 <= j < k
      ensures !(Qualifies(tiers[j], count) && tiers[j].bookingsRequired == x.bookingsRequired)
    {
      assert !both(tiers[j]);
    }
  }

  /** `tier.enabled && total < tier.bookingsRequired`. */
  function Ahead(total: int): LoyaltyTier -> bool {
    (t: LoyaltyTier) => t.enabled && total < t.bookingsRequired
  }

  /** `nextBadge`: none while the programme is disabled, otherwise the first
      enabled tier, in list order, whose requirement is above the total. */
  function NextBadge(enabled: bool, tiers: seq<LoyaltyTier>, total: int): (r: Option<LoyaltyTier>)
    ensures !enabled ==> r.None?
    ensures r.Some? ==>
      exists k :: 0 <= k < |tiers| && tiers[k] == r.value
        && r.value.enabled && total < r.value.bookingsRequired
        && forall j :: 0 <= j < k ==> !(tiers[j].enabled && total < tiers[j].bookingsRequired)
    ensures enabled && r.None? ==> forall j :: 0 <= j < |tiers| ==> !(tiers[j].enabled && total < tiers[j].bookingsRequired)
  {
    if !enabled then None
    else
      match FindIndex(tiers, Ahead(total))
      case None => None
      case Some(k) => Some(tiers[k])
  }

  /** The next badge is never one already earned. */
  lemma NextBadgeNotEarned(enabled: bool, tiers: seq<LoyaltyTier>, total: int)
    requires NextBadge(enabled, tiers, total).Some?
    ensures NextBadge(enabled, tiers, total).value !in Earned(enabled, tiers, total)
  {
    EarnedMember(enabled, tiers, total, NextBadge(enabled, tiers, total).value);
  }

  /** The latest earned badge asks for no more bookings than the total, and
      the next badge for more. */
  lemma LatestBelowNext(enabled: bool, tiers: seq<LoyaltyTier>, total: int)
    requires LatestBadge(enabled, tiers, total).Some? && NextBadge(enabled, tiers, total).Some?
    ensures LatestBadge(enabled, tiers, total).value.bookingsRequired <= total
         < NextBadge(enabled, tiers, total).value.bookingsRequired
  {
  }
}
