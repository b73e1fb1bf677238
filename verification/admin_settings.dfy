/** The settings editor of the admin panel
    (src/features/admin/hooks/useAdminSettings.ts): blocked dates, machines,
    loyalty tiers and consecutive-booking discount tiers, each edited on a
    local copy of the settings. */
module AdminSettings {
  import opened Base
  import opened Domain
  import opened Text
  import opened DiscountTiers

  // -----------------------------------------------------------------------
  // String order

  /** The default order of `Array.prototype.sort`: character by character,
      a prefix before its extensions. */
  predicate LexLe(a: string, b: string)
    decreases |a|
  {
    |a| == 0 || (|b| > 0 && (a[0] < b[0] || (a[0] == b[0] && LexLe(a[1..], b[1..]))))
  }

  lemma {:induction false} LexTotal(a: string, b: string)
    ensures LexLe(a, b) || LexLe(b, a)
    decreases |a|
  {
    if |a| > 0 && |b| > 0 && a[0] == b[0] {
      LexTotal(a[1..], b[1..]);
    }
  }

  lemma {:induction false} LexTransitive(a: string, b: string, c: string)
    requires LexLe(a, b) && LexLe(b, c)
    ensures LexLe(a, c)
    decreases |a|
  {
    if |a| > 0 && a[0] == b[0] && b[0] == c[0] {
      LexTransitive(a[1..], b[1..], c[1..]);
    }
  }

  ghost predicate LexSorted(s: seq<string>) {
    forall i, j :: 0 <= i < j < |s| ==> LexLe(s[i], s[j])
  }

  /** Inserts `x` after every element not above it. */
  function InsertLex(s: seq<string>, x: string): (r: seq<string>)
    ensures |r| == |s| + 1
  {
    if |s| == 0 then [x]
    else if !LexLe(s[0], x) then [x] + s
    else [s[0]] + InsertLex(s[1..], x)
  }

  lemma {:induction false} InsertLexMultiset(s: seq<string>, x: string)
    ensures multiset(InsertLex(s, x)) == multiset(s) + multiset{x}
  {
    if |s| > 0 && LexLe(s[0], x) {
      InsertLexMultiset(s[1..], x);
      assert s == [s[0]] + s[1..];
    }
  }

  lemma {:induction false} InsertLexSorted(s: seq<string>, x: string)
    requires LexSorted(s)
    ensures LexSorted(InsertLex(s, x))
  {
    if |s| > 0 {
      if !LexLe(s[0], x) {
        LexTotal(s[0], x);
        forall j | 0 <= j < |s|
          ensures LexLe(x, s[j])
        {
          if j > 0 {
            LexTransitive(x, s[0], s[j]);
          }
        }
      } else {
        var t := InsertLex(s[1..], x);
        InsertLexSorted(s[1..], x);
        InsertLexMultiset(s[1..], x);
        forall k | 0 <= k < |t|
          ensures LexLe(s[0], t[k])
        {
          assert t[k] in multiset(t);
          assert t[k] == x || t[k] in multiset(s[1..]);
        }
      }
    }
  }

  /** `[...s].sort()` on strings. */
  function SortLex(s: seq<string>): (r: seq<string>)
    ensures LexSorted(r)
    ensures multiset(r) == multiset(s)
    decreases |s|
  {
    if |s| == 0 then []
    else
      var last := |s| - 1;
      assert s == s[..last] + [s[last]];
      InsertLexMultiset(SortLex(s[..last]), s[last]);
      InsertLexSorted(SortLex(s[..last]), s[last]);
      InsertLex(SortLex(s[..last]), s[last])
  }

  lemma {:induction false} InsertLexAtEnd(s: seq<string>, x: string)
    requires forall i :: 0 <= i < |s| ==> LexLe(s[i], x)
    ensures InsertLex(s, x) == s + [x]
  {
    if |s| > 0 {
      InsertLexAtEnd(s[1..], x);
      assert s == [s[0]] + s[1..];
    }
  }

  lemma SortedPrefix(s: seq<string>)
    requires LexSorted(s) && |s| > 0
    ensures LexSorted(s[..|s| - 1])
    ensures forall i :: 0 <= i < |s| - 1 ==> LexLe(s[i], s[|s| - 1])
  {
  }

  /** Sorting an already sorted list changes nothing. */
  lemma {:induction false} SortLexOfSorted(s: seq<string>)
    requires LexSorted(s)
    ensures SortLex(s) == s
    decreases |s|
  {
    if |s| > 0 {
      var init, x := s[..|s| - 1], s[|s| - 1];
      SortedPrefix(s);
      SortLexOfSorted(init);
      InsertLexAtEnd(init, x);
      assert s == init + [x];
    }
  }

  // -----------------------------------------------------------------------
  // Blocked dates

  datatype DateNotice = CannotBlockToday | NoChange | Added

  /** The blocked dates, the date input field and the outcome shown. */
  datatype DateEdit = DateEdit(dates: seq<string>, input: string, notice: DateNotice)

  /** `addBlockedDate`: today is refused with an error toast; an empty or
      already blocked date changes nothing; otherwise the date joins the
      list, the list is re-sorted and the input is cleared. */
  function AddBlockedDate(dates: seq<string>, input: string, today: string): (r: DateEdit)
    ensures r.notice == CannotBlockToday <==> input == today
    ensures r.notice == Added <==> input != today && input != "" && input !in dates
    ensures r.notice != Added ==> r.dates == dates && r.input == input
    ensures r.notice == Added ==>
      && r.input == ""
      && LexSorted(r.dates)
      && multiset(r.dates) == multiset(dates) + multiset{input}
  {
    if input == today then DateEdit(dates, input, CannotBlockToday)
    else if input != "" && input !in dates then DateEdit(SortLex(dates + [input]), "", Added)
    else DateEdit(dates, input, NoChange)
  }

  function NotDate(d: string): string -> bool {
    (x: string) => x != d
  }

  function LexOrder(): (string, string) -> bool {
    (a: string, b: string) => LexLe(a, b)
  }

  lemma RemoveKeepsLexSorted(dates: seq<string>, d: string)
    ensures LexSorted(dates) ==> LexSorted(Filter(dates, NotDate(d)))
  {
    if LexSorted(dates) {
      assert Pairwise(dates, LexOrder());
      FilterPairwise(dates, NotDate(d), LexOrder());
    }
  }

  /** `removeBlockedDate`: every copy of the date goes, every other date
      stays as often as it was there and in its order, so a sorted list
      stays sorted. */
  function RemoveBlockedDate(dates: seq<string>, d: string): (r: seq<string>)
    ensures d !in r
    ensures forall x :: x in r <==> x in dates && x != d
    ensures multiset(r) == multiset(dates)[d := 0]
    ensures Subsequence(r, dates)
    ensures LexSorted(dates) ==> LexSorted(r)
  {
    FilterCount(dates, NotDate(d));
    FilterSubsequence(dates, NotDate(d));
    RemoveKeepsLexSorted(dates, d);
    Filter(dates, NotDate(d))
  }

  lemma {:induction false} FilterInsertLex(s: seq<string>, x: string)
    ensures Filter(InsertLex(s, x), NotDate(x)) == Filter(s, NotDate(x))
  {
    if |s| > 0 {
      if LexLe(s[0], x) {
        FilterInsertLex(s[1..], x);
        FilterConcat([s[0]], InsertLex(s[1..], x), NotDate(x));
        FilterConcat([s[0]], s[1..], NotDate(x));
        assert s == [s[0]] + s[1..];
      } else {
        FilterConcat([x], s, NotDate(x));
      }
    }
  }

  /** Removing a date just blocked gives back the sorted list it was added
      to. */
  lemma RemoveUndoesAdd(dates: seq<string>, input: string, today: string)
    requires LexSorted(dates)
    requires AddBlockedDate(dates, input, today).notice == Added
    ensures RemoveBlockedDate(AddBlockedDate(dates, input, today).dates, input) == dates
  {
    var both := dates + [input];
    assert both[..|both| - 1] == dates;
    SortLexOfSorted(dates);
    FilterInsertLex(dates, input);
    FilterAll(dates, NotDate(input));
  }

  // -----------------------------------------------------------------------
  // Machines

  function MachineId(now: nat): string {
    "dart-" + NatToString(now)
  }

  /** `addMachine`: a named machine with a clock-derived id is appended; an
      empty name changes nothing. */
  function AddMachine(machines: seq<Machine>, name: string, now: nat): (r: seq<Machine>)
    ensures name == "" ==> r == machines
    ensures name != "" ==> |r| == |machines| + 1 && r[..|machines|] == machines
    ensures name != "" ==> r[|machines|].name == name && r[|machines|].id == MachineId(now)
  {
    if name == "" then machines else machines + [Machine(MachineId(now), name)]
  }

  function OtherMachine(id: string): Machine -> bool {
    (m: Machine) => m.id != id
  }

  /** `removeMachine`: refused while at most one machine is configured,
      otherwise every machine with that id goes. */
  function RemoveMachine(machines: seq<Machine>, id: string): (r: seq<Machine>)
    ensures |machines| <= 1 ==> r == machines
    ensures |machines| > 1 ==> forall m :: m in r <==> m in machines && m.id != id
    ensures |machines| > 1 ==> forall m :: multiset(r)[m] == if m.id != id then multiset(machines)[m] else 0
    ensures Subsequence(r, machines)
  {
    if |machines| <= 1 then
      SubsequenceRefl(machines);
      machines
    else
      FilterCount(machines, OtherMachine(id));
      FilterSubsequence(machines, OtherMachine(id));
      Filter(machines, OtherMachine(id))
  }

  /** With distinct machine ids the list never becomes empty. */
  lemma MachinesNeverEmpty(machines: seq<Machine>, id: string)
    requires |machines| >= 1
    requires forall i, j :: 0 <= i < j < |machines| ==> machines[i].id != machines[j].id
    ensures |RemoveMachine(machines, id)| >= 1
  {
    if |machines| > 1 {
      var k := if machines[0].id != id then 0 else 1;
      assert machines[k] in RemoveMachine(machines, id);
    }
  }

  /** Removing the machine just added restores the list, provided one
      machine was there before (a lone machine cannot be removed). */
  lemma RemoveUndoesAddMachine(machines: seq<Machine>, name: string, now: nat)
    requires |machines| >= 1 && name != ""
    requires forall i :: 0 <= i < |machines| ==> machines[i].id != MachineId(now)
    ensures RemoveMachine(AddMachine(machines, name, now), MachineId(now)) == machines
  {
    var added := Machine(MachineId(now), name);
    assert AddMachine(machines, name, now) == machines + [added];
    FilterDropsLast(machines, added, OtherMachine(MachineId(now)));
  }

  // -----------------------------------------------------------------------
  // Splicing

  /** The start position `Array.prototype.splice` computes from its first
      argument: negative counts from the end, clamped to the array. */
  function SpliceStart(len: nat, index: int): (k: nat)
    ensures k <= len
    ensures 0 <= index <= len ==> k == index
    ensures index < 0 ==> k == if len + index < 0 then 0 else len + index
  {
    if index < 0 then (if len + index < 0 then 0 else len + index)
    else if index > len then len else index
  }

  /** `s.splice(index, 1)` on a copy. */
  function SpliceOne<T>(s: seq<T>, index: int): (r: seq<T>)
    ensures |s| > 0 && -|s| <= index < |s| ==> |r| == |s| - 1
    ensures index >= |s| || |s| == 0 ==> r == s
    ensures var k := SpliceStart(|s|, index);
      k < |s| ==> r == s[..k] + s[k + 1..]
    ensures 0 <= index < |s| ==> r == s[..index] + s[index + 1..]
    ensures -|s| <= index < 0 ==> r == s[..|s| + index] + s[|s| + index + 1..]
  {
    var k := SpliceStart(|s|, index);
    if k < |s| then RemoveAt(s, k) else s
  }

  /** Splicing out the last element, by its index or by -1, drops what was
      appended. */
  lemma SpliceLast<T>(s: seq<T>, x: T)
    ensures SpliceOne(s + [x], |s|) == s
    ensures SpliceOne(s + [x], -1) == s
  {
  }

  // -----------------------------------------------------------------------
  // Loyalty tiers

  function NewLoyaltyTier(now: nat): LoyaltyTier {
    LoyaltyTier("tier-" + NatToString(now), "New Tier", 100, true)
  }

  /** `addLoyaltyTier`: an enabled 100-booking tier at the end. */
  function AddLoyaltyTier(tiers: seq<LoyaltyTier>, now: nat): (r: seq<LoyaltyTier>)
    ensures |r| == |tiers| + 1 && r[..|tiers|] == tiers
    ensures r[|tiers|].id == "tier-" + NatToString(now) && r[|tiers|].name == "New Tier"
    ensures r[|tiers|].bookingsRequired == 100 && r[|tiers|].enabled
  {
    tiers + [NewLoyaltyTier(now)]
  }

  /** `removeLoyaltyTier`: the tier at the index goes and the others keep
      their order. */
  function RemoveLoyaltyTier(tiers: seq<LoyaltyTier>, index: int): (r: seq<LoyaltyTier>)
    ensures 0 <= index < |tiers| ==> |r| == |tiers| - 1 && multiset(r) + multiset{tiers[index]} == multiset(tiers)
    ensures 0 <= index < |tiers| ==> r == tiers[..index] + tiers[index + 1..]
    ensures index >= |tiers| ==> r == tiers
  {
    if 0 <= index < |tiers| then
      RemoveAtMultiset(tiers, index);
      SpliceOne(tiers, index)
    else SpliceOne(tiers, index)
  }

  /** Removing the tier just added restores the list. */
  lemma RemoveUndoesAddTier(tiers: seq<LoyaltyTier>, now: nat)
    ensures RemoveLoyaltyTier(AddLoyaltyTier(tiers, now), |tiers|) == tiers
  {
    SpliceLast(tiers, NewLoyaltyTier(now));
  }

  /** The editable fields of a tier (icon and colour are not modelled). */
  datatype TierField = Name(name: string) | Required(required: int) | Enabled(on: bool)

  function SetField(t: LoyaltyTier, f: TierField): LoyaltyTier {
    match f
    case Name(n) => t.(name := n)
    case Required(k) => t.(bookingsRequired := k)
    case Enabled(b) => t.(enabled := b)
  }

  /** Whether two edits name the same field. */
  predicate SameField(f: TierField, g: TierField) {
    f.Name? == g.Name? && f.Required? == g.Required? && f.Enabled? == g.Enabled?
  }

  /** The value a tier currently holds in the field `f` names. */
  function FieldOf(t: LoyaltyTier, f: TierField): TierField {
    match f
    case Name(_) => Name(t.name)
    case Required(_) => Required(t.bookingsRequired)
    case Enabled(_) => Enabled(t.enabled)
  }

  /** `handleTierChange`: one field of one tier changes; the id and every
      other tier stay. */
  function ChangeTier(tiers: seq<LoyaltyTier>, index: int, f: TierField): (r: seq<LoyaltyTier>)
    requires 0 <= index < |tiers|
    ensures |r| == |tiers|
    ensures forall k :: 0 <= k < |tiers| && k != index ==> r[k] == tiers[k]
    ensures r[index].id == tiers[index].id
    ensures FieldOf(r[index], f) == f
    ensures forall g :: !SameField(f, g) ==> FieldOf(r[index], g) == FieldOf(tiers[index], g)
  {
    tiers[index := SetField(tiers[index], f)]
  }

  /** Writing back the old value undoes an edit. */
  lemma ChangeTierUndo(tiers: seq<LoyaltyTier>, index: int, f: TierField)
    requires 0 <= index < |tiers|
    ensures ChangeTier(ChangeTier(tiers, index, f), index, FieldOf(tiers[index], f)) == tiers
  {
    var r := ChangeTier(ChangeTier(tiers, index, f), index, FieldOf(tiers[index], f));
    assert r[index] == tiers[index];
  }

  // -----------------------------------------------------------------------
  // Consecutive-booking discount tiers

  function ByThreshold(t: DiscountTier): int {
    t.threshold
  }

  /** `saveNewDiscountTier`: the tier joins and the list is sorted by
      ascending threshold. */
  function SaveNewDiscountTier(tiers: seq<DiscountTier>, tier: DiscountTier): (r: seq<DiscountTier>)
    ensures multiset(r) == multiset(tiers) + multiset{tier}
    ensures forall i, j :: 0 <= i < j < |r| ==> r[i].threshold <= r[j].threshold
  {
    var r := SortBy(tiers + [tier], ByThreshold);
    assert forall i, j :: 0 <= i < j < |r| ==> ByThreshold(r[i]) <= ByThreshold(r[j]);
    r
  }

  /** `saveEditedDiscountTier`: without a row being edited nothing changes;
      otherwise that row is replaced and the list sorted. */
  function SaveEditedDiscountTier(tiers: seq<DiscountTier>, editing: Option<nat>, tier: DiscountTier): (r: seq<DiscountTier>)
    requires editing.Some? ==> editing.value < |tiers|
    ensures editing.None? ==> r == tiers
    ensures editing.Some? ==> multiset(r) == multiset(tiers[editing.value := tier])
    ensures editing.Some? ==> forall i, j :: 0 <= i < j < |r| ==> r[i].threshold <= r[j].threshold
  {
    match editing
    case None => tiers
    case Some(i) =>
      var r := SortBy(tiers[i := tier], ByThreshold);
      assert forall i, j :: 0 <= i < j < |r| ==> ByThreshold(r[i]) <= ByThreshold(r[j]);
      r
  }

  /** `removeDiscountTier`: the tier at the index goes, the others keep
      their order, so a list ordered by threshold stays ordered. */
  function RemoveDiscountTier(tiers: seq<DiscountTier>, index: int): (r: seq<DiscountTier>)
    ensures 0 <= index < |tiers| ==> |r| == |tiers| - 1 && multiset(r) + multiset{tiers[index]} == multiset(tiers)
    ensures 0 <= index < |tiers| ==> r == tiers[..index] + tiers[index + 1..]
    ensures index >= |tiers| ==> r == tiers
    ensures SortedBy(tiers, ByThreshold) ==> SortedBy(r, ByThreshold)
  {
    var k := SpliceStart(|tiers|, index);
    if k < |tiers| then
      RemoveAtMultiset(tiers, k);
      RemoveAtSorted(tiers, k, ByThreshold);
      SpliceOne(tiers, index)
    else SpliceOne(tiers, index)
  }

  /** Deleting a tier never lets a day's count earn a higher threshold
      than before: whatever tier remains reachable was reachable already. */
  lemma RemoveTierNeverRaises(tiers: seq<DiscountTier>, index: int, count: int)
    requires ResolveTier(RemoveDiscountTier(tiers, index), count).Some?
    ensures ResolveTier(tiers, count).Some?
    ensures ResolveTier(RemoveDiscountTier(tiers, index), count).value.threshold
         <= ResolveTier(tiers, count).value.threshold
  {
    var r := RemoveDiscountTier(tiers, index);
    var t := ResolveTier(r, count).value;
    var j :| 0 <= j < |r| && r[j] == t;
    var k := SpliceStart(|tiers|, index);
    if k < |tiers| && j >= k {
      assert tiers[j + 1] == t;
    } else {
      assert tiers[j] == t;
    }
  }

  /** Sorting on save does not change which tier a day's count earns. */
  lemma SavedTierResolvesAlike(tiers: seq<DiscountTier>, tier: DiscountTier, count: int)
    ensures ResolveTier(SaveNewDiscountTier(tiers, tier), count).None? <==> ResolveTier(tiers + [tier], count).None?
    ensures ResolveTier(SaveNewDiscountTier(tiers, tier), count).Some? ==>
      ResolveTier(SaveNewDiscountTier(tiers, tier), count).value.threshold
        == ResolveTier(tiers + [tier], count).value.threshold
  {
    ResolveTierOrderIndependent(SaveNewDiscountTier(tiers, tier), tiers + [tier], count);
  }

  /** Saving a row unedited leaves a sorted list with distinct thresholds
      exactly as it was. */
  lemma SaveUneditedKeepsList(tiers: seq<DiscountTier>, i: nat)
    requires i < |tiers|
    requires forall a, b :: 0 <= a < b < |tiers| ==> tiers[a].threshold < tiers[b].threshold
    ensures SaveEditedDiscountTier(tiers, Some(i), tiers[i]) == tiers
  {
    assert tiers[i := tiers[i]] == tiers;
    var r := SaveEditedDiscountTier(tiers, Some(i), tiers[i]);
    assert SortedBy(tiers, ByThreshold);
    assert SortedBy(r, ByThreshold) by {
      assert forall a, b :: 0 <= a < b < |r| ==> ByThreshold(r[a]) <= ByThreshold(r[b]);
    }
    forall a, b | 0 <= a < |tiers| && 0 <= b < |tiers| && ByThreshold(tiers[a]) == ByThreshold(tiers[b])
      ensures tiers[a] == tiers[b]
    {
      assert a == b;
    }
    SortedUnique(tiers, r, ByThreshold);
  }
}
