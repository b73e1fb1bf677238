/** The classification of one hour cell of the booking grid
    (src/features/bookings/BookingGrid.tsx): closed outside opening hours,
    then covered by a tournament, then on a blocked date, and otherwise a
    bookable cell whose state depends on existing bookings, the selection
    and the clock. The cell's day is a day number, its slot starts at that
    day's midnight plus the hour. */
module BookingGrid {
  import opened Base
  import opened Domain

  /** `workingHrs && hour >= workingHrs.start && hour < workingHrs.end`. */
  predicate IsOpen(settings: Settings, dayIndex: int, hour: int) {
    dayIndex in settings.workingHours
    && settings.workingHours[dayIndex].start <= hour < settings.workingHours[dayIndex].end
  }

  function CellStart(date: int, hour: int): int {
    date * DAY_MS + hour * HOUR_MS
  }

  /** A tournament covers the slot when the closed intervals meet, so a
      tournament starting exactly when the slot ends still covers it. */
  predicate Covers(tr: Tournament, slotStart: int, slotEnd: int) {
    slotStart <= tr.end && slotEnd >= tr.start
  }

  function CoversSlot(slotStart: int): Tournament -> bool {
    (tr: Tournament) => Covers(tr, slotStart, slotStart + HOUR_MS)
  }

  /** An appointment occupies the cell when week, day, hour and machine
      agree; an appointment without a machine stands for the first
      configured machine. */
  predicate Occupies(a: Appointment, weekStart: int, dayIndex: int, hour: int, machineId: string, machines: seq<Machine>) {
    && a.weekStart == weekStart && a.dayIndex == dayIndex && a.hour == hour
    && (a.machineId == machineId || (a.machineId == "" && |machines| > 0 && machineId == machines[0].id))
  }

  function OccupiesCell(weekStart: int, dayIndex: int, hour: int, machineId: string, machines: seq<Machine>): Appointment -> bool {
    (a: Appointment) => Occupies(a, weekStart, dayIndex, hour, machineId, machines)
  }

  /** `Math.round`: the nearest integer, halves rounded up. */
  function Round(x: real): (r: int)
    ensures r as real - 0.5 <= x < r as real + 0.5
  {
    (x + 0.5).Floor
  }

  /** The admin's discount badge on a booked cell: the percentage below the
      base price, shown only for a non-zero price under the base price. */
  function DiscountBadge(user: Option<User>, existing: Option<Appointment>, basePrice: real): (r: Option<int>)
    ensures r.Some? ==> user.Some? && user.value.role == Admin && existing.Some?
    ensures r.Some? ==> existing.value.price.Some? && existing.value.price.value != 0.0
                        && existing.value.price.value < basePrice
    ensures basePrice > 0.0 ==>
      (r.Some? <==> && user.Some? && user.value.role == Admin && existing.Some?
                    && existing.value.price.Some? && existing.value.price.value != 0.0
                    && existing.value.price.value < basePrice)
    ensures r.Some? ==> basePrice != 0.0 && r.value == Round((1.0 - existing.value.price.value / basePrice) * 100.0)
  {
    if existing.Some? && user.Some? && user.value.role == Admin
       && existing.value.price.Some? && existing.value.price.value != 0.0
       && existing.value.price.value < basePrice && basePrice != 0.0
    then Some(Round((1.0 - existing.value.price.value / basePrice) * 100.0))
    else None
  }

  /** A booked cell with a price strictly between zero and a positive base
      price shows a percentage between 0 and 100; a free (zero-priced) slot
      shows none. */
  lemma BadgeRange(user: User, existing: Appointment, basePrice: real)
    requires basePrice > 0.0 && user.role == Admin
    ensures existing.price == Some(0.0) ==> DiscountBadge(Some(user), Some(existing), basePrice).None?
    ensures existing.price.Some? && 0.0 < existing.price.value < basePrice ==>
      var b := DiscountBadge(Some(user), Some(existing), basePrice);
      b.Some? && 0 <= b.value <= 100
  {
    if existing.price.Some? && 0.0 < existing.price.value < basePrice {
      RatioBetween(existing.price.value, basePrice);
    }
  }

  lemma RatioBetween(p: real, b: real)
    requires 0.0 < p < b
    ensures 0.0 < p / b < 1.0
  {
    var q := p / b;
    assert q * b == p;
    if q >= 1.0 {
      assert false;
    }
  }

  /** What a cell shows. A bookable cell records whether it is the user's
      own booking, selected, booked by anyone, in the past, more than a
      week ahead, its discount badge and the appointment its cancel button
      targets. */
  datatype Cell =
    | Closed
    | TournamentSlot
    | BlockedDay(showsLabel: bool)
    | Bookable(mine: bool, selected: bool, booked: bool, past: bool, tooFar: bool,
               badge: Option<int>, cancelId: Option<string>)

  /** The cell for `hour` of the column for day number `date` (weekday
      `dayIndex`, ISO key `dateKey`) while the week starting on day
      `weekStart` is shown, at instant `now`. */
  function CellAt(date: int, dayIndex: int, hour: int, dateKey: string, weekStart: int,
                  settings: Settings, apps: seq<Appointment>, tournaments: seq<Tournament>,
                  machineId: string, selected: seq<Slot>, user: Option<User>, now: int): (r: Cell)
    ensures r.Closed? <==> !IsOpen(settings, dayIndex, hour)
    ensures r.TournamentSlot? <==>
      IsOpen(settings, dayIndex, hour)
      && exists i :: 0 <= i < |tournaments| && Covers(tournaments[i], CellStart(date, hour), CellStart(date, hour) + HOUR_MS)
    ensures r.BlockedDay? <==>
      && IsOpen(settings, dayIndex, hour)
      && (forall i :: 0 <= i < |tournaments| ==> !Covers(tournaments[i], CellStart(date, hour), CellStart(date, hour) + HOUR_MS))
      && dateKey in settings.blockedDates
    ensures r.BlockedDay? ==> (r.showsLabel <==> hour == 12)
    ensures r.Bookable? ==>
      && (r.booked <==> exists i :: 0 <= i < |apps| && Occupies(apps[i], weekStart, dayIndex, hour, machineId, settings.machines))
      && (r.selected <==> Slot(dayIndex, hour) in selected)
      && (r.past <==> CellStart(date, hour) < now)
      && (r.tooFar <==> CellStart(date, hour) > now + 7 * DAY_MS)
      && (r.mine ==> r.booked && user.Some?)
      && (r.cancelId.Some? <==> r.mine)
      && (!r.booked ==> r.badge.None?)
    ensures r.Bookable? ==>
      forall k :: (0 <= k < |apps| && Occupies(apps[k], weekStart, dayIndex, hour, machineId, settings.machines)
                   && forall j :: 0 <= j < k ==> !Occupies(apps[j], weekStart, dayIndex, hour, machineId, settings.machines)) ==>
        && (r.mine <==> user.Some? && apps[k].userId == user.value.id)
        && r.cancelId == (if r.mine then Some(apps[k].id) else None)
        && r.badge == DiscountBadge(user, Some(apps[k]), settings.basePrice)
  {
    var start := CellStart(date, hour);
    if !IsOpen(settings, dayIndex, hour) then Closed
    else if Find(tournaments, CoversSlot(start)).Some? then TournamentSlot
    else if dateKey in settings.blockedDates then BlockedDay(hour == 12)
    else
      var first := FindIndex(apps, OccupiesCell(weekStart, dayIndex, hour, machineId, settings.machines));
      var existing := if first.Some? then Some(apps[first.value]) else None;
      var mine := user.Some? && existing.Some? && existing.value.userId == user.value.id;
      Bookable(mine, Slot(dayIndex, hour) in selected, existing.Some?, start < now, start > now + 7 * DAY_MS,
               DiscountBadge(user, existing, settings.basePrice),
               if mine then Some(existing.value.id) else None)
  }

  /** A click on the cell toggles the selection only for a free cell that
      is neither past nor more than a week ahead. */
  predicate ClickToggles(c: Cell) {
    c.Bookable? && !c.booked && !c.past && !c.tooFar
  }

  /** The button is disabled for someone else's booking, for a past cell
      that is not the user's own and for a cell too far ahead. */
  predicate Disabled(c: Cell) {
    c.Bookable? && ((c.booked && !c.mine) || (c.past && !c.mine) || c.tooFar)
  }

  /** The cells a click selects are exactly the open, uncovered, unblocked
      and unbooked hours from now up to a week ahead. */
  lemma ClickableExactly(date: int, dayIndex: int, hour: int, dateKey: string, weekStart: int,
                         settings: Settings, apps: seq<Appointment>, tournaments: seq<Tournament>,
                         machineId: string, selected: seq<Slot>, user: Option<User>, now: int)
    ensures ClickToggles(CellAt(date, dayIndex, hour, dateKey, weekStart, settings, apps, tournaments,
                                machineId, selected, user, now))
      <==> && IsOpen(settings, dayIndex, hour)
           && (forall i :: 0 <= i < |tournaments| ==> !Covers(tournaments[i], CellStart(date, hour), CellStart(date, hour) + HOUR_MS))
           && dateKey !in settings.blockedDates
           && (forall i :: 0 <= i < |apps| ==> !Occupies(apps[i], weekStart, dayIndex, hour, machineId, settings.machines))
           && now <= CellStart(date, hour) <= now + 7 * DAY_MS
  {
  }

  /** A disabled button never toggles, and the user's own booking, whose
      button stays enabled, does not toggle either. */
  lemma DisabledNeverToggles(c: Cell)
    ensures Disabled(c) ==> !ClickToggles(c)
    ensures c.Bookable? && c.mine ==> !Disabled(c) || c.tooFar
    ensures c.Bookable? && c.booked ==> !ClickToggles(c)
  {
  }

  /** A tournament that starts exactly at the end of the hour, or ends
      exactly at its start, still takes the cell. */
  lemma TouchingTournamentCovers(tr: Tournament, slotStart: int)
    requires tr.start == slotStart + HOUR_MS || tr.end == slotStart
    requires tr.start <= tr.end
    ensures CoversSlot(slotStart)(tr)
  {
  }
}
