/** Consecutive-booking discount resolution, as written three times in the
    source (src/app/hooks/usePricing.ts, useAppointments.ts twice,
    useComputedValues.ts): sort the tiers by descending threshold and take
    the first one the day's count reaches. */
module DiscountTiers {
  import opened Base
  import opened Domain

  predicate Reaches(count: int, t: DiscountTier) {
    count >= t.threshold
  }

  function NegThreshold(t: DiscountTier): int {
    -t.threshold
  }

  function ReachedBy(count: int): DiscountTier -> bool {
    (t: DiscountTier) => Reaches(count, t)
  }

  /** `tiers.sort((a, b) => b.threshold - a.threshold).find((t) => count >= t.threshold)`. */
  function ResolveTier(tiers: seq<DiscountTier>, count: int): (r: Option<DiscountTier>)
    ensures r.Some? ==> r.value in tiers && r.value.threshold <= count
    ensures r.Some? ==> forall i :: 0 <= i < |tiers| && tiers[i].threshold <= count
                          ==> tiers[i].threshold <= r.value.threshold
    ensures r.None? <==> forall i :: 0 <= i < |tiers| ==> tiers[i].threshold > count
    ensures r.Some? ==> exists k :: 0 <= k < |tiers| && tiers[k] == r.value
                          && forall j :: 0 <= j < k ==> tiers[j].threshold != r.value.threshold
  {
    var sorted := SortBy(tiers, NegThreshold);
    SearchSortedTiers(tiers, sorted, count);
    if Find(sorted, ReachedBy(count)).Some? then
      FirstListedWins(tiers, count);
      FirstOfThreshold(tiers, Find(sorted, ReachedBy(count)).value);
      Find(sorted, ReachedBy(count))
    else
      None
  }

  /** The descending sort is stable, so among tiers sharing the chosen
      threshold the one listed first is chosen. */
  lemma FirstListedWins(tiers: seq<DiscountTier>, count: int)
    requires FindIndex(SortBy(tiers, NegThreshold), ReachedBy(count)).Some?
    ensures var x := Find(SortBy(tiers, NegThreshold), ReachedBy(count)).value;
      Find(tiers, KeyIs(NegThreshold, NegThreshold(x))) == Some(x)
  {
    var sorted := SortBy(tiers, NegThreshold);
    var m := FindIndex(sorted, ReachedBy(count)).value;
    assert Find(sorted, ReachedBy(count)) == Some(sorted[m]);
    ApartBeforeMatch(sorted, count);
    FindFirstOfKey(tiers, NegThreshold, m);
  }

  /** Every tier before the first reached one has a different threshold. */
  lemma ApartBeforeMatch(sorted: seq<DiscountTier>, count: int)
    requires FindIndex(sorted, ReachedBy(count)).Some?
    ensures var m := FindIndex(sorted, ReachedBy(count)).value;
      forall j :: 0 <= j < m ==> NegThreshold(sorted[j]) != NegThreshold(sorted[m])
  {
    var m := FindIndex(sorted, ReachedBy(count)).value;
    forall j | 0 <= j < m
      ensures NegThreshold(sorted[j]) != NegThreshold(sorted[m])
    {
      KeysApart(count, sorted[j], sorted[m]);
    }
  }

  /** Distinct keys are distinct thresholds. */
  lemma FirstOfThreshold(tiers: seq<DiscountTier>, x: DiscountTier)
    requires Find(tiers, KeyIs(NegThreshold, NegThreshold(x))) == Some(x)
    ensures exists k :: 0 <= k < |tiers| && tiers[k] == x
              && forall j :: 0 <= j < k ==> tiers[j].threshold != x.threshold
  {
    var q := KeyIs(NegThreshold, NegThreshold(x));
    var k := FindIndex(tiers, q).value;
    forall j | 0 <= j < k
      ensures tiers[j].threshold != x.threshold
    {
      assert !q(tiers[j]);
    }
  }

  lemma KeysApart(count: int, a: DiscountTier, b: DiscountTier)
    requires !ReachedBy(count)(a) && ReachedBy(count)(b)
    ensures NegThreshold(a) != NegThreshold(b)
  {
  }

  lemma SearchSortedTiers(tiers: seq<DiscountTier>, sorted: seq<DiscountTier>, count: int)
    requires SortedBy(sorted, NegThreshold) && multiset(sorted) == multiset(tiers)
    ensures var r := Find(sorted, ReachedBy(count));
      && (r.Some? ==> r.value in tiers)
      && (r.Some? ==> forall i :: 0 <= i < |tiers| && tiers[i].threshold <= count
                          ==> tiers[i].threshold <= r.value.threshold)
      && (r.None? <==> forall i :: 0 <= i < |tiers| ==> tiers[i].threshold > count)
  {
    var p := ReachedBy(count);
    var r := Find(sorted, p);
    forall i | 0 <= i < |tiers|
      ensures exists j :: 0 <= j < |sorted| && sorted[j] == tiers[i]
    {
      assert tiers[i] in multiset(sorted);
    }
    if r.Some? {
      assert r.value in multiset(tiers);
      var k := FindIndex(sorted, p).value;
      forall i | 0 <= i < |tiers| && tiers[i].threshold <= count
        ensures tiers[i].threshold <= r.value.threshold
      {
        var j :| 0 <= j < |sorted| && sorted[j] == tiers[i];
        assert p(sorted[j]);
        assert k <= j;
        assert NegThreshold(sorted[k]) <= NegThreshold(sorted[j]);
      }
    } else {
      forall i | 0 <= i < |tiers|
        ensures tiers[i].threshold > count
      {
        var j :| 0 <= j < |sorted| && sorted[j] == tiers[i];
        assert !p(sorted[j]);
      }
    }
  }

  /** The discount percent a count earns: that of the resolved tier, or 0. */
  function DiscountFor(tiers: seq<DiscountTier>, count: int): real {
    match ResolveTier(tiers, count)
    case Some(t) => t.discount
    case None => 0.0
  }

  /** Permuting the tier list (the source sorts it in place between calls)
      never changes which threshold is chosen. */
  lemma ResolveTierOrderIndependent(a: seq<DiscountTier>, b: seq<DiscountTier>, count: int)
    requires multiset(a) == multiset(b)
    ensures ResolveTier(a, count).None? <==> ResolveTier(b, count).None?
    ensures ResolveTier(a, count).Some? ==>
              ResolveTier(a, count).value.threshold == ResolveTier(b, count).value.threshold
  {
    var ra, rb := ResolveTier(a, count), ResolveTier(b, count);
    assert forall i :: 0 <= i < |a| ==> a[i] in multiset(b);
    assert forall i :: 0 <= i < |b| ==> b[i] in multiset(a);
    if ra.Some? && rb.Some? {
      assert ra.value in multiset(b);
      assert rb.value in multiset(a);
    }
  }

  /** More slots never earn a smaller threshold. */
  lemma ResolveTierMonotone(tiers: seq<DiscountTier>, c1: int, c2: int)
    requires c1 <= c2
    requires ResolveTier(tiers, c1).Some?
    ensures ResolveTier(tiers, c2).Some?
    ensures ResolveTier(tiers, c1).value.threshold <= ResolveTier(tiers, c2).value.threshold
  {
    var t := ResolveTier(tiers, c1).value;
    var i :| 0 <= i < |tiers| && tiers[i] == t;
  }

  /** A day with no slots earns nothing from tiers that need at least one. */
  lemma ZeroCountNoTier(tiers: seq<DiscountTier>)
    requires forall i :: 0 <= i < |tiers| ==> tiers[i].threshold >= 1
    ensures ResolveTier(tiers, 0) == None
  {
  }
}
