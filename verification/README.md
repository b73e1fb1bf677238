# Darts venue booking — a Dafny model of its core logic

The application is a single-page booking site for a darts venue. Customers
pick hour slots on a machine in a weekly grid. Prices are the base price,
lowered by a personal or global special offer and by a consecutive-booking
("bulk") discount that a day's slot count earns. Customers collect loyalty
badges and enter tournaments. An admin panel manages users, settings, offers
and tournaments, including a single-elimination bracket with seeding, byes,
result entry and prize distribution as special offers.

This project models that logic as pure functions over immutable datatypes:

- `domain.dfy`: the records.
- `base.dfy` and `text.dfy`: generic sequence, sorting and string helpers.
- `money.dfy`, `tiers.dfy`, `calendar.dfy` and `iso_date.dfy`: cents
  rounding, tier resolution, week arithmetic and ISO date keys.
- `pricing.dfy`: the pre-booking total.
- `ledger.dfy`: booking and cancelling.
- `loyalty.dfy` and `computed.dfy`: the customer dashboard's derived values.
- `history.dfy`: the booking history list.
- `tournaments.dfy`: the customer tournament store.
- `bracket.dfy`: bracket generation.
- `admin_tournaments.dfy`, `admin_users.dfy`, `admin_settings.dfy` and
  `admin_offers.dfy`: the admin hooks.
- `app_view.dfy`, `booking_grid.dfy` and `tournament_views.dfy`: the page
  state, the grid cell classification and the tournament screens.

Representation choices:

- Instants are integer milliseconds and calendar days are day numbers, with
  day 0 a Monday.
- An appointment's `weekStart` is the day number of its week's Monday. The
  ISO key the source stores is injective (`IsoDate.FormatISOInjective`), so
  comparing keys is comparing Mondays.
- Money is `real`.
- Optional strings are `Option<string>`, and JavaScript truthiness of one is
  `Truthy`: present and non-empty.
- The clock (`now`), the random shuffle and generated ids are parameters.
- Prize offers are named as the program writes them
  (`AdminTournaments.PrizeName`). The name starts with the three characters
  U+00F0 U+0178 U+2020 and a space, which useAdminTournaments.ts holds at
  line 233. They are the UTF-8 bytes of a trophy emoji read as
  Windows-1252, and the model keeps them as written.

Two places where the code disagrees with itself are stated as lemmas rather
than changed:

- **Free slots.** The pre-booking total frees only the first `value` slots of
  a `free_slot` offer (`Pricing.FreePrefix`). The ledger stores every new
  slot of such a booking at price 0 (`Ledger.CreateFreeSlotAllFree`).
- **The two-hour cutoff.** The history list enables the cancel button only
  strictly more than two hours ahead. The ledger refuses a cancellation only
  below two hours. At exactly two hours they disagree
  (`History.CutoffBoundaryDisagrees`); everywhere else they agree
  (`History.CutoffAgreesOffBoundary`).

## Model

| member | source | states |
|---|---|---|
| Money.Round2 | src/app/hooks/usePricing.ts:65 | the rounded amount is a whole number of cents within half a cent of the input |
| Money.Round2Cents | src/app/hooks/usePricing.ts:65 | an amount that is already whole cents is left unchanged |
| Money.Round2Idempotent | src/app/hooks/useAppointments.ts:83 | rounding a rounded price again changes nothing |
| Money.ApplyPercent | src/app/hooks/usePricing.ts:29 | a 0–100 percent discount keeps a non-negative price between 0 and the price; 0 percent is the identity |
| DiscountTiers.ResolveTier | src/app/hooks/usePricing.ts:55-57 | the chosen tier is one of the tiers, its threshold is reached, and no reached threshold is larger; among tiers sharing that threshold the one listed first is chosen, because the descending sort is stable; there is no tier exactly when no threshold is reached |
| DiscountTiers.ResolveTierOrderIndependent | src/app/hooks/useAppointments.ts:73-75 | the in-place sort of the tier list cannot matter: any permutation chooses the same threshold |
| DiscountTiers.ResolveTierMonotone | src/app/hooks/useAppointments.ts:72-75 | more slots on a day never earn a smaller threshold |
| DiscountTiers.ZeroCountNoTier | src/app/hooks/useComputedValues.ts:52-54 | when every threshold is at least 1, a count of 0 earns no tier |
| Calendar.GetMonday | src/shared/utils/date.ts:4-11 | the result is a Monday midnight at most `t` and less than a week before it; a Sunday goes back six days |
| Calendar.GetMondayUnique | src/shared/utils/date.ts:4-11 | it is the only Monday midnight in the week ending at `t` |
| Calendar.GetMondayIdempotent | src/shared/utils/date.ts:4-11 | the Monday of a Monday is itself |
| Calendar.SlotStartInWeek | src/app/hooks/useAppointments.ts:117-121 | a slot's start lies inside its week, on the day whose `getDay()` is the slot's `dayIndex` |
| Calendar.OffsetBijection | src/app/hooks/useVisibleDates.ts:12-22 | the day-view mapping and the `dayIndex === 0 ? 6 : dayIndex - 1` offset are inverse on 0..6 |
| Calendar.WeekOrderIsPermutation | src/app/hooks/useVisibleDates.ts:12 | the mapping lists every weekday exactly once |
| Calendar.VisibleDates | src/app/hooks/useVisibleDates.ts:10-25 | the week view has seven columns and the day view one |
| Calendar.WeekViewLayout | src/app/hooks/useVisibleDates.ts:19-25 | the week view shows consecutive days from the Monday, each labelled with its own weekday |
| Calendar.DayViewIsWeekColumn | src/app/hooks/useVisibleDates.ts:10-16 | the day view shows exactly the `dayOffset`-th column of the week view |
| IsoDate.FormatISO | src/shared/utils/date.ts:20-25 | the key is the year's digits, a dash, two digits, a dash and two digits |
| IsoDate.ParseFormatRoundTrip | src/app/hooks/useAppointments.ts:117-118 | splitting a formatted key on dashes gives back the year, the 1-based month and the day |
| IsoDate.FormatISOInjective | src/shared/utils/date.ts:20-25 | distinct dates get distinct keys |
| Pricing.TotalPrice | src/app/hooks/usePricing.ts:16-65 | the grouped total equals, rounded to cents, the sum over the priced slots of each slot's price times the multiplier its day's tier gives |
| Pricing.PriceSlots | src/app/hooks/usePricing.ts:24-37 | one priced entry per sorted slot, on that slot's day |
| Pricing.FreePrefix | src/app/hooks/usePricing.ts:31-34 | exactly the first `FreeCount` slots in sorted order are free; every other slot costs the offer price |
| Pricing.FreeCountWhole | src/app/hooks/usePricing.ts:20 | a whole-number budget frees min(budget, number of slots) slots |
| Pricing.TotalPriceEmpty | src/app/hooks/usePricing.ts:39-65 | an empty selection costs 0 |
| Pricing.TotalPriceOrderIndependent | src/app/hooks/usePricing.ts:16-18 | the total does not depend on the order in which slots were selected |
| Pricing.GroupedEqualsFlat | src/app/hooks/usePricing.ts:40-64 | discounting each day's subtotal equals discounting each slot by its day's factor |
| Loyalty.Earned | src/app/hooks/useComputedValues.ts:18-23 | empty while the programme is off; otherwise a permutation of the qualifying tiers, largest requirement first |
| Loyalty.EarnedMember | src/app/hooks/useComputedValues.ts:18-23 | a tier is earned iff the programme is on, the tier is configured, enabled and reached |
| Loyalty.LatestBadge | src/features/admin/hooks/useAdminUsers.ts:83-95 | the badge shown is a qualifying tier with the largest requirement, and among qualifying tiers sharing that requirement the one listed first; there is none iff the programme is off or nothing qualifies |
| Loyalty.NextBadge | src/app/hooks/useComputedValues.ts:57-62 | the next badge is the first enabled tier in list order that is still out of reach |
| Loyalty.NextBadgeNotEarned | src/app/hooks/useComputedValues.ts:18-62 | the next badge is never an earned one |
| Loyalty.LatestBelowNext | src/app/hooks/useComputedValues.ts:57-62 | the latest badge's requirement is at most the total, and the next badge's is above it |
| Computed.UserTotalBookings | src/app/hooks/useComputedValues.ts:13-16 | the number of the user's appointments, 0 without a user |
| Computed.TotalIsHistoryLength | src/app/hooks/useComputedValues.ts:13-16 | the booking total equals the length of the user's history list |
| Computed.MyOffers | src/app/hooks/useComputedValues.ts:25-35 | an offer is listed iff it is current, unused, and targeted at the user or global and not a template |
| Computed.SpentOfferWithdrawn | src/app/hooks/useAppointments.ts:99-107 | once a booking marks an offer used, the dashboard no longer lists it, unless it is a template |
| Computed.MaxLoad | src/app/hooks/useComputedValues.ts:46-51 | the loop's maximum bounds every day's load and is reached by some day, or is 0 |
| Computed.ConsecutiveDiscount | src/app/hooks/useComputedValues.ts:37-38 | no indicator without a user |
| Computed.ConsecutiveDiscountDominates | src/app/hooks/useComputedValues.ts:46-54 | every single day's tier is at most the indicator's tier |
| Computed.ConsecutiveDiscountReached | src/app/hooks/useComputedValues.ts:46-54 | the indicator's tier is the tier of some actual day (or of an empty week) |
| Ledger.Reprice | src/app/hooks/useAppointments.ts:79-94 | bulk re-pricing changes at most the price and the label |
| Ledger.MarkUsed | src/app/hooks/useAppointments.ts:99-107 | only `used` flags change; an offer ends up used iff it was used or it has the chosen non-empty id and is not a template |
| Ledger.CreateAppointments | src/app/hooks/useAppointments.ts:22-111 | the ledger grows by one appointment per selected slot, and the offers become `MarkUsed` of the chosen id |
| Ledger.RepriceKeepsCounts | src/app/hooks/useAppointments.ts:58-96 | re-pricing one day's group leaves every day's count unchanged, so the days' loop order cannot matter |
| Ledger.BulkExistingAt | src/app/hooks/useAppointments.ts:57-96 | after the loop over distinct days, each existing appointment is re-priced by its own day's tier or kept |
| Ledger.BulkAddedAt | src/app/hooks/useAppointments.ts:57-96 | the same for each new appointment |
| Ledger.AddedCount | src/app/hooks/useAppointments.ts:59-72 | a day's count is the user's existing bookings that week and day plus the selected slots on it |
| Ledger.TouchedDays | src/app/hooks/useAppointments.ts:57 | `affectedDays` holds exactly the days of the selection |
| Ledger.CreateExisting | src/app/hooks/useAppointments.ts:59-86 | an existing appointment is re-priced iff it is the user's, in that week, on a touched day with a positive tier; otherwise it is unchanged |
| Ledger.CreateAdded | src/app/hooks/useAppointments.ts:34-94 | each new appointment carries the slot, week, user, machine, offer and offer price, re-priced when its day's tier is positive |
| Ledger.CreateDayPriceUniform | src/app/hooks/useAppointments.ts:78-95 | after booking, all of the user's offer-free slots on a discounted touched day, old and new, cost the same bulk price |
| Ledger.CreateFreeSlotAllFree | src/app/hooks/useAppointments.ts:41 | with a `free_slot` offer every new appointment is stored at price 0 |
| Ledger.HoursUntilCutoff | src/app/hooks/useAppointments.ts:123-125 | fewer than two hours remain iff the start is less than 7,200,000 ms away |
| Ledger.ResetUsed | src/app/hooks/useAppointments.ts:129-135 | only `used` flags change; the offers with that id become unused |
| Ledger.CancelAppointment | src/app/hooks/useAppointments.ts:113-167 | not found iff no appointment has the id; too late iff it starts within two hours; otherwise the re-priced remainder and the returned offer |
| Ledger.CancelNotFound | src/app/hooks/useAppointments.ts:114-115 | "not found" exactly when no appointment carries the id |
| Ledger.CancelRemoves | src/app/hooks/useAppointments.ts:137 | every appointment with the id is removed, and the others stay in order with at most price and label changed |
| Ledger.CancelReprices | src/app/hooks/useAppointments.ts:141-163 | the same-day offer-free group takes the price of the tier the remaining count reaches, or the base price; the rest is unchanged |
| Ledger.UsedRoundTrip | src/app/hooks/useAppointments.ts:99-135 | marking an unused offer used and giving it back restores the offers |
| Ledger.CreateFindsFirstAdded | src/app/hooks/useAppointments.ts:109-114 | the first new appointment is the one its id finds afterwards |
| Ledger.CreateThenCancelRestoresOffers | src/app/hooks/useAppointments.ts:99-135 | booking with an offer and cancelling the first new slot in time gives the offers back as they were |
| History.UserHistory | src/features/bookings/HistoryModal.tsx:17-22 | a permutation of the user's appointments, latest week first |
| History.UserHistoryMembers | src/features/bookings/HistoryModal.tsx:17-18 | the history holds exactly the user's own appointments |
| History.Status | src/features/bookings/HistoryModal.tsx:25-43 | an entry is completed exactly once its slot's start lies before now |
| History.CanCancel | src/features/bookings/HistoryModal.tsx:62-63 | cancellable exactly when more than 2.0 hours remain in the ledger's measure, and then the entry is upcoming |
| History.ShowsCancel | src/features/bookings/HistoryModal.tsx:88-91 | the button is rendered for upcoming entries, so every enabled button is on screen |
| History.StatusSettles | src/features/bookings/HistoryModal.tsx:25-63 | as time passes a completed entry stays completed, and a cancellation possible later was possible earlier |
| History.EnabledCancelAccepted | src/features/bookings/HistoryModal.tsx:62-63 | an enabled cancel button is shown, and the ledger accepts the cancellation it asks for |
| History.CutoffBoundaryDisagrees | src/features/bookings/HistoryModal.tsx:62-63 | at exactly two hours the button is disabled while the ledger would accept |
| History.CutoffAgreesOffBoundary | src/features/bookings/HistoryModal.tsx:62-63 | at any other time the button is enabled iff the ledger accepts |
| Tournaments.ActiveTournaments | src/app/hooks/useTournaments.ts:18-23 | the tournaments not yet over, each as often as stored, earliest start first |
| Tournaments.ActiveKeepsTies | src/app/hooks/useTournaments.ts:20-22 | tournaments starting at the same moment keep their stored order, since the sort is stable |
| Tournaments.Toggle | src/app/hooks/useTournaments.ts:34-47 | an unregistered user gets a new last entry `part-<now>` holding only that user, named by the team name or else the user's name; for a registered user the first entry holding them is removed and the others keep their order; nothing but the participants changes |
| Tournaments.Register | src/app/hooks/useTournaments.ts:25-54 | refused without a user; otherwise each tournament with that id becomes its `Toggle` for the user, team name and clock, and every other tournament is kept |
| Tournaments.RegisterTwice | src/app/hooks/useTournaments.ts:35-47 | the first press registers a user who was not registered in each tournament with that id, and a second press restores the tournaments |
| Tournaments.WithdrawUnregisters | src/app/hooks/useTournaments.ts:35-39 | withdrawing leaves the user unregistered when only one entry held them |
| Bracket.Doubling | src/shared/utils/tournament.ts:12-13 | the doubling loop stops at the first power of two reaching the count |
| Bracket.BracketSizeLeast | src/shared/utils/tournament.ts:11-13 | the size is the least power of two that is at least 2 and at least the player count |
| Bracket.InterleavePairs | src/shared/utils/tournament.ts:26-31 | position 2i repeats seed i and position 2i+1 holds its mirror n+1−seed |
| Bracket.SeedOrderFacts | src/shared/utils/tournament.ts:23-32 | the order is a permutation of 1..n starting with seed 1, and each pairing sums to n+1 |
| Bracket.SeedOnce | src/shared/utils/tournament.ts:23-32 | each seed 1..n occurs exactly once |
| Bracket.OrderPlayers | src/shared/utils/tournament.ts:15-20 | a permutation of the players, ascending by `seed ?? 999` when anyone is seeded, the shuffle otherwise |
| Bracket.ByeCount | src/shared/utils/tournament.ts:37-44 | exactly one slot per player is filled; the other size − count slots are byes |
| Bracket.PlayerPlacedOnce | src/shared/utils/tournament.ts:37-44 | the player of rank j+1 sits exactly in the slot whose seed is j+1 |
| Bracket.MatchIdInjective | src/shared/utils/tournament.ts:53 | `match-r-m` ids are equal iff round and index are |
| Bracket.WiringIdsDistinct | src/shared/utils/tournament.ts:47-62 | the skeleton has size − 1 matches with pairwise distinct ids |
| Bracket.WiringRoundZero | src/shared/utils/tournament.ts:47-65 | the round-0 matches are exactly the first size/2 of the list, in index order |
| Bracket.WiringNext | src/shared/utils/tournament.ts:59 | match (r, m) points at match (r+1, m/2), and only the final points nowhere |
| Bracket.AfterVisitsKeeps | src/shared/utils/tournament.ts:79-94 | the bye pass writes only players: ids, indices, links and winners stay |
| Bracket.VisitNoWinner | src/shared/utils/tournament.ts:80-81 | visiting a match without a winner changes nothing |
| Bracket.VisitAll | src/shared/utils/tournament.ts:79-94 | the `forEach` from any position equals the reference state in which round 1 holds round 0's bye winners |
| Bracket.FullVisit | src/shared/utils/tournament.ts:79-94 | the complete pass equals that reference state |
| Bracket.GenerateBracket | src/shared/utils/tournament.ts:7-97 | size − 1 matches with pairwise distinct ids |
| Bracket.GenerateBracketAt | src/shared/utils/tournament.ts:7-97 | every match: its wiring, its round-0 slots and bye winner, the round-1 players advanced by byes, and empty later rounds |
| Bracket.BracketMatchCount | src/shared/utils/tournament.ts:47-62 | a bracket of `size` slots has size − 1 matches |
| Bracket.NoDoubleBye | src/shared/utils/tournament.ts:64-70 | no round-0 match gets two byes |
| Bracket.EmptyBracket | src/shared/utils/tournament.ts:7-97 | no participants give a single empty final `match-0-0` |
| Bracket.RoundZeroReady | src/shared/utils/tournament.ts:64-77 | every round-0 match is either decided by a bye or has two players |
| AdminTournaments.CreateTournament | src/features/admin/hooks/useAdminTournaments.ts:63-104 | without a name or start nothing changes; otherwise an open, empty tournament of the chosen length is appended |
| AdminTournaments.DeleteTournament | src/features/admin/hooks/useAdminTournaments.ts:106-114 | every tournament with the id goes; each other one stays, as often as it was there and in its order |
| AdminTournaments.DeleteUndoesCreate | src/features/admin/hooks/useAdminTournaments.ts:63-114 | deleting the tournament just created restores the list when no older tournament shares its clock-based id |
| AdminTournaments.AddPrize | src/features/admin/hooks/useAdminTournaments.ts:46-53 | the prize is added and the list stays ordered by rank |
| AdminTournaments.RemovePrize | src/features/admin/hooks/useAdminTournaments.ts:55-61 | the prize at the index is cut out and the rest keep their order |
| AdminTournaments.AddPrizeLast | src/features/admin/hooks/useAdminTournaments.ts:46-53 | a prize ranked no better than every listed prize is placed last, after the rank-ordered list |
| AdminTournaments.RemoveUndoesAddPrize | src/features/admin/hooks/useAdminTournaments.ts:46-61 | removing, by its position, a prize just added after all others restores a rank-ordered list |
| AdminTournaments.StartTournament | src/features/admin/hooks/useAdminTournaments.ts:116-127 | the tournament becomes active with a freshly generated bracket; the others are untouched |
| AdminTournaments.UpdateSeed | src/features/admin/hooks/useAdminTournaments.ts:129-140 | only the named participant's seed changes |
| AdminTournaments.NumberFrom | src/features/admin/hooks/useAdminTournaments.ts:146-148 | participants are numbered 1, 2, … in list order |
| AdminTournaments.AutoSeed | src/features/admin/hooks/useAdminTournaments.ts:142-153 | the named tournament's participants get seeds 1..n in list order |
| AdminTournaments.AutoSeedKeepsOrder | src/features/admin/hooks/useAdminTournaments.ts:142-153 | after auto-seeding, bracket generation keeps the list order |
| AdminTournaments.Feed | src/features/admin/hooks/useAdminTournaments.ts:168-182 | the winner is seated by the feeding match's parity, and a stale result in the next match is retracted |
| AdminTournaments.FeedNext | src/features/admin/hooks/useAdminTournaments.ts:168-182 | feeding keeps every match's id, index and link |
| AdminTournaments.Advance | src/features/admin/hooks/useAdminTournaments.ts:155-195 | only matches and status change, and every match keeps its id, index and link |
| AdminTournaments.AdvanceMatch | src/features/admin/hooks/useAdminTournaments.ts:155-195 | only the tournaments with that id change |
| AdminTournaments.AdvanceUnknown | src/features/admin/hooks/useAdminTournaments.ts:161-162 | an unknown match id changes nothing |
| AdminTournaments.AdvanceStatus | src/features/admin/hooks/useAdminTournaments.ts:184-188 | completed iff the match had no successor, active iff it had one |
| AdminTournaments.AdvanceFrame | src/features/admin/hooks/useAdminTournaments.ts:164-182 | the match gets the winner, and no match other than it and its successor changes |
| AdminTournaments.AdvanceScope | src/features/admin/hooks/useAdminTournaments.ts:155-195 | the winner, the status and the frame together |
| AdminTournaments.AdvanceFeeds | src/features/admin/hooks/useAdminTournaments.ts:168-182 | the successor receives the winner on the side the parity names |
| AdminTournaments.AdvanceIdempotent | src/features/admin/hooks/useAdminTournaments.ts:155-195 | recording the same result twice equals recording it once |
| AdminTournaments.MaxRound | src/features/admin/hooks/useAdminTournaments.ts:202 | the largest round number, reached by some match |
| AdminTournaments.FinalMatch | src/features/admin/hooks/useAdminTournaments.ts:202-203 | the first match of the last round; none iff there are no matches |
| AdminTournaments.SemiLosersMember | src/features/admin/hooks/useAdminTournaments.ts:214-216 | the semifinal losers are exactly the present losers of the round before the final |
| AdminTournaments.PodiumFacts | src/features/admin/hooks/useAdminTournaments.ts:205-212 | the winner is the final's winner and the runner-up is the other finalist |
| AdminTournaments.PrizeTargets | src/features/admin/hooks/useAdminTournaments.ts:221-224 | rank 1 goes to the winner, rank 2 to a present runner-up, rank 3 to the semifinal losers, any other rank to nobody |
| AdminTournaments.TeamOffersShape | src/features/admin/hooks/useAdminTournaments.ts:227-242 | one unused, targeted, unconditional offer carrying the prize per member of the target team, named with the mark, the tournament and the rank and valid for 90 days; none for an unknown team |
| AdminTournaments.NewOffersMember | src/features/admin/hooks/useAdminTournaments.ts:220-245 | the run's offers are exactly those of some prize and some target of its rank |
| AdminTournaments.NewOffersShape | src/features/admin/hooks/useAdminTournaments.ts:230-242 | every prize offer is targeted, unused, not a template and carries one of the prizes |
| AdminTournaments.DistributePrizes | src/features/admin/hooks/useAdminTournaments.ts:197-276 | a run that sends nothing changes neither the settings nor the tournaments |
| AdminTournaments.DistributeSkips | src/features/admin/hooks/useAdminTournaments.ts:199-200 | a missing, unfinished or already rewarded tournament is skipped silently |
| AdminTournaments.DistributeNeedsWinner | src/features/admin/hooks/useAdminTournaments.ts:202-209 | without a final winner the run only reports it |
| AdminTournaments.DistributeCommits | src/features/admin/hooks/useAdminTournaments.ts:247-269 | the offers are appended and exactly the tournaments with that id are marked; with no offers nothing changes |
| AdminTournaments.DistributeOnce | src/features/admin/hooks/useAdminTournaments.ts:197-276 | a second run after a successful one does nothing |
| AdminTournaments.DistributeSentShape | src/features/admin/hooks/useAdminTournaments.ts:253-263 | a run that sends offers found the tournament and marked it |
| AdminUsers.ToggleBlock | src/features/admin/hooks/useAdminUsers.ts:20-38 | only the blocked flag of the users with that id flips |
| AdminUsers.ToggleBlockTwice | src/features/admin/hooks/useAdminUsers.ts:20-38 | blocking twice restores the users |
| AdminUsers.ToggleSelected | src/features/admin/hooks/useAdminUsers.ts:40-47 | the id's membership flips and no other id changes |
| AdminUsers.ToggleSelectedTwice | src/features/admin/hooks/useAdminUsers.ts:40-47 | toggling twice restores the selection |
| AdminUsers.SelectAll | src/features/admin/hooks/useAdminUsers.ts:49-54 | clears the selection when its size equals the user count, otherwise selects every id |
| AdminUsers.SelectAllTwice | src/features/admin/hooks/useAdminUsers.ts:49-54 | with distinct ids, pressing twice from a partial selection clears it |
| AdminUsers.DistinctIdsCount | src/features/admin/hooks/useAdminUsers.ts:49-54 | distinct ids make the full selection as large as the user list |
| AdminUsers.TotalSpend | src/features/admin/hooks/useAdminUsers.ts:59-81 | the map's entry is the sum of the user's prices, a missing price counting 0, and 0 for an empty id |
| AdminUsers.BookingCount | src/features/admin/hooks/useAdminUsers.ts:69-76 | the map's entry is the number of the user's appointments |
| AdminUsers.LatestBadgeAgrees | src/features/admin/hooks/useAdminUsers.ts:83-95 | the admin sees the first of the badges the customer's dashboard lists |
| AdminUsers.GroupCount | src/features/admin/hooks/useAdminUsers.ts:112-120 | the groups' counts add up to the number of appointments grouped |
| AdminUsers.GroupDatesDistinct | src/features/admin/hooks/useAdminUsers.ts:107-112 | no two groups share a date |
| AdminUsers.GroupDiscountsBelow | src/features/admin/hooks/useAdminUsers.ts:117-120 | every listed discount is below the base price |
| AdminUsers.BreakdownFacts | src/features/admin/hooks/useAdminUsers.ts:97-126 | the breakdown covers all of the user's bookings, one group per date, listing only prices below base |
| AdminUsers.ToggleExpanded | src/features/admin/hooks/useAdminUsers.ts:128-130 | expands the user unless already expanded, in which case nothing is expanded |
| AdminSettings.SortLex | src/features/admin/hooks/useAdminSettings.ts:30-36 | a sorted permutation of the dates |
| AdminSettings.SortLexOfSorted | src/features/admin/hooks/useAdminSettings.ts:30-36 | sorting an already sorted list changes nothing |
| AdminSettings.AddBlockedDate | src/features/admin/hooks/useAdminSettings.ts:22-37 | today is refused; a new non-empty date is added, the list stays sorted and the input is cleared; anything else changes nothing |
| AdminSettings.RemoveBlockedDate | src/features/admin/hooks/useAdminSettings.ts:39-44 | every copy of the date goes; each other date stays as often as it was there and in its order, so a sorted list stays sorted |
| AdminSettings.RemoveUndoesAdd | src/features/admin/hooks/useAdminSettings.ts:22-44 | removing a date just added to a sorted list restores it |
| AdminSettings.AddMachine | src/features/admin/hooks/useAdminSettings.ts:46-54 | a named machine is appended with a clock-based id; an empty name changes nothing |
| AdminSettings.RemoveMachine | src/features/admin/hooks/useAdminSettings.ts:56-65 | the last machine is kept; otherwise every machine with the id goes, and the others stay as often as they were there and in their order |
| AdminSettings.MachinesNeverEmpty | src/features/admin/hooks/useAdminSettings.ts:56-65 | with distinct ids, at least one machine always remains |
| AdminSettings.RemoveUndoesAddMachine | src/features/admin/hooks/useAdminSettings.ts:46-65 | removing the machine just added restores the list |
| AdminSettings.SpliceStart | src/features/admin/hooks/useAdminSettings.ts:89 | `splice` counts a negative index from the end and clamps to the array |
| AdminSettings.SpliceOne | src/features/admin/hooks/useAdminSettings.ts:89 | exactly the element at the computed start goes and the rest keep their order (for a negative index, the one that many places from the end); an index past the end removes nothing |
| AdminSettings.AddLoyaltyTier | src/features/admin/hooks/useAdminSettings.ts:67-85 | an enabled 100-booking tier with id tier-<now> and name "New Tier" is appended, the existing tiers kept in front |
| AdminSettings.RemoveUndoesAddTier | src/features/admin/hooks/useAdminSettings.ts:67-97 | removing the tier just added restores the list |
| AdminSettings.RemoveLoyaltyTier | src/features/admin/hooks/useAdminSettings.ts:87-97 | the tier at an in-range index goes, the others keep their order; an index past the end changes nothing |
| AdminSettings.ChangeTier | src/features/admin/hooks/useAdminSettings.ts:99-109 | the edited field of the edited tier takes the new value; its id and its other fields stay, and so does every other tier |
| AdminSettings.ChangeTierUndo | src/features/admin/hooks/useAdminSettings.ts:99-109 | writing the old value back restores the tiers |
| AdminSettings.SaveNewDiscountTier | src/features/admin/hooks/useAdminSettings.ts:111-119 | the tier is added and the list is ordered by threshold |
| AdminSettings.SaveEditedDiscountTier | src/features/admin/hooks/useAdminSettings.ts:121-133 | the edited slot is replaced and the list re-ordered by threshold; without an edit nothing changes |
| AdminSettings.SavedTierResolvesAlike | src/features/admin/hooks/useAdminSettings.ts:111-119 | sorting on save does not change which threshold a count earns |
| AdminSettings.SaveUneditedKeepsList | src/features/admin/hooks/useAdminSettings.ts:121-133 | saving an unchanged tier of a strictly ordered list changes nothing |
| AdminSettings.RemoveDiscountTier | src/features/admin/hooks/useAdminSettings.ts:135-145 | the tier at an in-range index goes, the others keep their order, so a list ordered by threshold stays ordered |
| AdminSettings.RemoveTierNeverRaises | src/features/admin/hooks/useAdminSettings.ts:135-145 | deleting a tier never makes a count earn a higher threshold |
| AdminOffers.TemplateOffers | src/features/admin/hooks/useAdminOffers.ts:41-44 | exactly the templates |
| AdminOffers.Recipients | src/features/admin/hooks/useAdminOffers.ts:46-49 | exactly the copies sent from the template |
| AdminOffers.CreateOfferTemplate | src/features/admin/hooks/useAdminOffers.ts:51-96 | without a name nothing changes; otherwise an untargeted, unused template `offer-<now>` carrying the form's name, type, value, condition and condition value is appended, with the drink only for a free-drink offer, and the form is reset |
| AdminOffers.CreatedTemplateListed | src/features/admin/hooks/useAdminOffers.ts:41-96 | the new template appears last in the template list |
| AdminOffers.DeleteOffer | src/features/admin/hooks/useAdminOffers.ts:133-145 | every offer with the id goes; the others stay as often as they were there and in their order |
| AdminOffers.DeleteUndoesCreate | src/features/admin/hooks/useAdminOffers.ts:51-138 | deleting the template just created restores the offers |
| AdminOffers.SendTemplate | src/features/admin/hooks/useAdminOffers.ts:99-131 | without a known template nothing changes; otherwise the copy for the k-th target is appended in order as `offer-<now>-<target>`, equal to the template except that it is targeted at that user, unused, not a template and points back to the template; the choice is cleared |
| AdminOffers.SendExtendsRecipients | src/features/admin/hooks/useAdminOffers.ts:99-131 | the template's recipients grow by exactly the new copies, and the template list is unchanged |
| AdminOffers.SentCopyRedeemable | src/features/admin/hooks/useAdminOffers.ts:105-112 | a sent copy is redeemable by its target exactly within the template's dates |
| AdminOffers.RecipientsForViewing | src/features/admin/hooks/useAdminOffers.ts:148-151 | nothing without a viewed offer, otherwise its recipients |
| AdminOffers.ResolveRecipient | src/features/admin/hooks/useAdminOffers.ts:153-156 | the registered user with the target id; none iff nobody has it |
| AppView.TodayOffset | src/app/App.tsx:84-92 | the Monday-based offset of today lies in 0..6 |
| AppView.Navigate | src/app/App.tsx:186-208 | the week view moves seven days; the day view moves one day, wrapping into the next or previous week; the selection is cleared |
| AppView.NavigateKeepsMonday | src/app/App.tsx:186-208 | the shown week stays a Monday |
| AppView.NavigateInverse | src/app/App.tsx:186-208 | a step forward then back returns to the same day |
| AppView.DayViewSteps | src/app/App.tsx:192-207 | in the day view the shown calendar day moves by exactly one |
| AppView.SetViewMode | src/app/App.tsx:210-225 | the day view opens on Monday unless the current week is shown |
| AppView.DayModeShowsToday | src/app/App.tsx:210-225 | switching to the day view on the current week shows today |
| AppView.ToggleSelection | src/app/App.tsx:227-233 | the cell's membership flips and no other cell changes |
| AppView.ToggleKeepsDistinct | src/app/App.tsx:227-233 | the selection never holds a cell twice |
| AppView.ToggleTwice | src/app/App.tsx:227-233 | toggling twice restores the selection: exactly when the cell was unselected, as a set otherwise |
| AppView.Reserve | src/app/App.tsx:150-171 | without a user only the login dialog opens; otherwise the slots are booked and the selection and offer cleared |
| AppView.ReserveBooksSelection | src/app/App.tsx:150-171 | each new appointment is the user's, on the shown week and machine, in the selected cell |
| BookingGrid.Round | src/features/bookings/BookingGrid.tsx:153-155 | the nearest integer, with halves rounded up |
| BookingGrid.DiscountBadge | src/features/bookings/BookingGrid.tsx:148-157 | for a positive base price a badge shows exactly for an admin on a booked cell whose non-zero price is below base, and its value is `Math.round` of the percentage below base |
| BookingGrid.BadgeRange | src/features/bookings/BookingGrid.tsx:148-157 | a free slot shows no badge; a price strictly between 0 and base shows a percentage in 0..100 |
| BookingGrid.CellAt | src/features/bookings/BookingGrid.tsx:106-206 | closed before tournament before blocked before bookable, each iff its condition; booked, selected, past and too-far iff their tests; the first appointment occupying the cell decides whether it is the user's own, which id the cancel button cancels and the discount badge; a free cell has no badge |
| BookingGrid.ClickableExactly | src/features/bookings/BookingGrid.tsx:226-237 | a click selects exactly the open, uncovered, unblocked, free cells from now to a week ahead |
| BookingGrid.DisabledNeverToggles | src/features/bookings/BookingGrid.tsx:226-237 | a disabled button never toggles, and an own booking is enabled unless too far ahead |
| BookingGrid.TouchingTournamentCovers | src/features/bookings/BookingGrid.tsx:114-118 | a tournament merely touching the hour still takes the cell |
| TournamentViews.Past | src/features/tournaments/TournamentList.tsx:18-20 | exactly the finished tournaments, latest start first |
| TournamentViews.ListsPartition | src/features/tournaments/TournamentList.tsx:15-20 | each tournament is in exactly one of the two lists, as often as stored |
| TournamentViews.Label | src/features/tournaments/TournamentList.tsx:42-49 | each status has its own badge text |
| TournamentViews.SortedKeys | src/features/tournaments/TournamentBracket.tsx:34-36 | the distinct round numbers in ascending order |
| TournamentViews.Columns | src/features/tournaments/TournamentBracket.tsx:25-36 | one column per round present, rounds ascending |
| TournamentViews.ColumnContents | src/features/tournaments/TournamentBracket.tsx:25-55 | a column holds its round's matches by ascending `matchIndex` |
| TournamentViews.EachMatchOnce | src/features/tournaments/TournamentBracket.tsx:25-55 | each match is drawn in the column of its round and in no other |
| TournamentViews.ParticipantName | src/features/tournaments/TournamentBracket.tsx:38-41 | "TBD" for no id, "Unknown" for an unknown id; otherwise the name of the first participant with that id, or "Unknown" when that name is empty |
| TournamentViews.RegisteredTeamShown | src/app/hooks/useTournaments.ts:34-47 | a team that has just registered is shown under its team name (or the user's name) when its clock-based id is new |
| TournamentViews.Click | src/features/tournaments/TournamentBracket.tsx:71-101 | a click is honoured iff an admin clicks a match with both players, and it asks for that row's player |
| TournamentViews.ClickedPlayerWins | src/features/tournaments/TournamentBracket.tsx:71-76 | an honoured click makes the clicked player the winner |
| TournamentViews.HintMeansClickable | src/features/tournaments/TournamentBracket.tsx:110 | where "Pick Winner" shows, both rows accept a click |
| TournamentViews.PendingMatchHighlighted | src/features/tournaments/TournamentBracket.tsx:62-66 | as written, an undecided match with no players highlights both rows |
| TournamentViews.HighlightOnlyWinner | src/features/tournaments/TournamentBracket.tsx:62-66 | as intended, an undecided match highlights nothing and a decided one exactly one row |

## Left out

- Persistence in `localStorage`, toasts, modal flags, translations and CSS classes are not modelled.
- The wall clock (`new Date()`) is the parameter `now`. `Math.random` enters as the parameter `shuffle`/`shuffled`. Generated ids are the parameter `ids`, or ids built from the clock.
- Daylight-saving shifts and `setDate` month carry are not modelled. Days are plain day numbers, and conversion between civil dates and day numbers is not modelled.
- `toLocaleDateString` group keys in the user breakdown are modelled as day numbers.
- The week test of the pricing, ledger and dashboard code is modelled as equality of Mondays. The source tests an ISO key prefix or `toDateString` equality.
- The `discountRule` label string (`Bulk T+ (-D%)`) is modelled as the tier it names.
- Icons, colours and the drink menu are not modelled. The menu's first drink is the parameter `firstDrink`.
- The double-elimination format and the `buy_x_slots` condition are stored but have no behaviour in the source, so they have none here.
- Redeeming a `free_drink` offer happens outside the modelled code.
- The round-0 filter in `generateBracket` is modelled as the first `size / 2` matches of the list (`Bracket.WiringRoundZero` shows these are the round-0 matches).
- `toggleSelection` removes the found object by reference. It is modelled by value, which is the same for slots that differ in day or hour.
- The window-width check that starts mobile users in the day view is a boolean the model does not read.
- The adjacent-booking connector in BookingGrid.tsx (lines 213-221) and the today highlight of the column header are not modelled.
- `prev` and `localSettings` in the admin hooks are not distinguished: each update is applied to the state it is given.
- The unimplemented `useMemo` stub at the end of TournamentBracket.tsx is not modelled.
- BookingGrid.DiscountBadge: shows no badge for a zero base price, and states when a badge shows only for a positive base price. The source divides by the base price and would show `Infinity` or `NaN` for a zero base price.
- AdminSettings.ChangeTier: requires an index inside the list. JavaScript would write past the end and leave holes, which the admin screen never does.
- AdminSettings.SaveEditedDiscountTier: requires the edited index to lie inside the list, for the same reason.
- Computed.ConsecutiveDiscount: its own contract only states the no-user case. What the indicator is is stated by `Computed.ConsecutiveDiscountDominates` and `Computed.ConsecutiveDiscountReached`.
- Pricing.PriceSlots: its own contract only states lengths and days. Prices are stated by `Pricing.FreePrefix`.

## Findings

| source | as written | input that shows it | evidently intended | confidence | as-written member | corrected member |
|---|---|---|---|---|---|---|
| src/features/tournaments/TournamentBracket.tsx:62-66 | a row is highlighted as the winner when `match.winnerId === match.p1Id` (likewise for `p2Id`, line 88), so `null === null` counts | a later-round match waiting for both players: `p1Id`, `p2Id` and `winnerId` all `null`; both rows render in the winner colour with a check mark | highlight only the row of a present winner | not executed | TournamentViews.PendingMatchHighlighted | TournamentViews.HighlightOnlyWinner |
