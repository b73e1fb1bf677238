/** The screen state of the booking page (src/app/App.tsx): the shown week
    and view mode, day-view navigation with its wrap-around at the ends of
    the week, the slot selection and the reserve button. The shown week is
    the day number of its Monday. */
module AppView {
  import opened Base
  import opened Domain
  import opened Calendar
  import opened Ledger

  datatype Screen = Screen(weekStart: int, mode: ViewMode, dayOffset: int, selected: seq<Slot>)

  /** The Monday-based index of the day holding `now` (Sunday 6), as both
      the mobile start-up effect and `handleSetViewMode` compute it. */
  function TodayOffset(now: int): (k: int)
    ensures 0 <= k < 7
  {
    MondayOffset(Weekday(DayOf(now)))
  }

  /** `handleDateNavigation`: the week view moves a whole week; the day
      view moves one day, crossing into the neighbouring week past Sunday
      or before Monday. The selection is cleared either way. */
  function Navigate(s: Screen, direction: int): (r: Screen)
    requires direction == -1 || direction == 1
    requires s.mode == DayView ==> 0 <= s.dayOffset < 7
    ensures r.mode == s.mode && r.selected == []
    ensures s.mode == WeekView ==> r.weekStart == s.weekStart + 7 * direction && r.dayOffset == s.dayOffset
    ensures s.mode == DayView ==> 0 <= r.dayOffset < 7
    ensures s.mode == DayView ==> r.weekStart + r.dayOffset == s.weekStart + s.dayOffset + direction
    ensures r.weekStart == s.weekStart || r.weekStart == s.weekStart + 7 * direction
  {
    if s.mode == WeekView then
      s.(weekStart := s.weekStart + 7 * direction, selected := [])
    else
      var n := s.dayOffset + direction;
      if n > 6 then s.(weekStart := s.weekStart + 7, dayOffset := 0, selected := [])
      else if n < 0 then s.(weekStart := s.weekStart - 7, dayOffset := 6, selected := [])
      else s.(dayOffset := n, selected := [])
  }

  /** The shown week stays a Monday. */
  lemma NavigateKeepsMonday(s: Screen, direction: int)
    requires direction == -1 || direction == 1
    requires s.mode == DayView ==> 0 <= s.dayOffset < 7
    requires Weekday(s.weekStart) == 1
    ensures Weekday(Navigate(s, direction).weekStart) == 1
  {
  }

  /** Forward then back (or back then forward) returns to the same week
      and day, with the selection cleared. */
  lemma NavigateInverse(s: Screen, direction: int)
    requires direction == -1 || direction == 1
    requires s.mode == DayView ==> 0 <= s.dayOffset < 7
    ensures Navigate(Navigate(s, direction), -direction) == s.(selected := [])
  {
  }

  /** In the day view the shown column is the calendar day one step away. */
  lemma DayViewSteps(s: Screen, direction: int)
    requires direction == -1 || direction == 1
    requires s.mode == DayView && 0 <= s.dayOffset < 7
    ensures var r := Navigate(s, direction);
      VisibleDates(r.weekStart, DayView, r.dayOffset)[0].date
        == VisibleDates(s.weekStart, DayView, s.dayOffset)[0].date + direction
  {
  }

  /** `handleSetViewMode`: entering the day view shows today when the
      current week is shown and Monday otherwise; the week view keeps the
      offset. */
  function SetViewMode(s: Screen, mode: ViewMode, now: int): (r: Screen)
    ensures r.mode == mode && r.weekStart == s.weekStart && r.selected == s.selected
    ensures mode == WeekView ==> r.dayOffset == s.dayOffset
    ensures mode == DayView ==> 0 <= r.dayOffset < 7
    ensures mode == DayView && s.weekStart != GetMonday(now) / DAY_MS ==> r.dayOffset == 0
  {
    if mode == DayView then
      var offset := if s.weekStart == GetMonday(now) / DAY_MS then TodayOffset(now) else 0;
      s.(mode := mode, dayOffset := offset)
    else
      s.(mode := mode)
  }

  /** On the current week the day view opens on today's column. */
  lemma DayModeShowsToday(s: Screen, now: int)
    requires s.weekStart == GetMonday(now) / DAY_MS
    ensures var r := SetViewMode(s, DayView, now);
      VisibleDates(r.weekStart, DayView, r.dayOffset)[0].date == DayOf(now)
  {
  }

  function At(dayIndex: int, hour: int): Slot -> bool {
    (x: Slot) => x.dayIndex == dayIndex && x.hour == hour
  }

  function Other(e: Slot): Slot -> bool {
    (x: Slot) => x != e
  }

  /** `toggleSelection`: a selected cell is deselected, any other cell is
      appended to the selection. */
  function ToggleSelection(selected: seq<Slot>, dayIndex: int, hour: int): (r: seq<Slot>)
    ensures Slot(dayIndex, hour) in r <==> Slot(dayIndex, hour) !in selected
    ensures forall x :: x != Slot(dayIndex, hour) ==> (x in r <==> x in selected)
  {
    match Find(selected, At(dayIndex, hour))
    case Some(e) => Filter(selected, Other(e))
    case None => selected + [Slot(dayIndex, hour)]
  }

  /** The selection never holds a cell twice. */
  lemma ToggleKeepsDistinct(selected: seq<Slot>, dayIndex: int, hour: int)
    requires Distinct(selected)
    ensures Distinct(ToggleSelection(selected, dayIndex, hour))
  {
    match Find(selected, At(dayIndex, hour))
    case Some(e) => FilterDistinct(selected, Other(e));
    case None =>
  }

  /** Toggling a cell twice restores the selection: exactly when the cell
      was not selected, and as a set of cells when it was. */
  lemma ToggleTwice(selected: seq<Slot>, dayIndex: int, hour: int)
    ensures Slot(dayIndex, hour) !in selected ==>
      ToggleSelection(ToggleSelection(selected, dayIndex, hour), dayIndex, hour) == selected
    ensures forall x :: x in ToggleSelection(ToggleSelection(selected, dayIndex, hour), dayIndex, hour)
                    <==> x in selected
  {
    if Slot(dayIndex, hour) !in selected {
      var once := selected + [Slot(dayIndex, hour)];
      assert Find(selected, At(dayIndex, hour)).None?;
      FindAt(once, At(dayIndex, hour), |selected|);
      FilterConcat(selected, [Slot(dayIndex, hour)], Other(Slot(dayIndex, hour)));
      FilterAll(selected, Other(Slot(dayIndex, hour)));
    }
  }

  /** The page after pressing "reserve": the login dialog flag, the
      appointments, the offers, the selection and the chosen offer. */
  datatype AfterReserve = AfterReserve(
    loginOpen: bool,
    appointments: seq<Appointment>,
    offers: seq<SpecialOffer>,
    selected: seq<Slot>,
    offerId: string)

  /** `handleReserve`: without a user only the login dialog opens; with one
      the selection is booked and the selection and chosen offer are
      cleared. `ids` are the appointment ids the booking generates. */
  function Reserve(user: Option<User>, apps: seq<Appointment>, settings: Settings, selected: seq<Slot>,
                   machineId: string, offerId: string, weekStart: int, myOffers: seq<SpecialOffer>,
                   ids: seq<string>): (r: AfterReserve)
    requires |ids| == |selected|
    ensures user.None? ==> r == AfterReserve(true, apps, settings.specialOffers, selected, offerId)
    ensures user.Some? ==> !r.loginOpen && r.selected == [] && r.offerId == ""
    ensures user.Some? ==> |r.appointments| == |apps| + |selected|
    ensures user.Some? ==> r.offers == MarkUsed(settings.specialOffers, offerId)
  {
    match user
    case None => AfterReserve(true, apps, settings.specialOffers, selected, offerId)
    case Some(u) =>
      var b := CreateAppointments(apps, settings, selected, machineId, offerId, u, weekStart, myOffers, ids);
      AfterReserve(false, b.appointments, b.offers, [], "")
  }

  /** Each booked appointment is the signed-in user's, on the machine and
      the week shown, in the selected cell. */
  lemma ReserveBooksSelection(user: User, apps: seq<Appointment>, settings: Settings, selected: seq<Slot>,
                              machineId: string, offerId: string, weekStart: int, myOffers: seq<SpecialOffer>,
                              ids: seq<string>, j: nat)
    requires |ids| == |selected| && j < |selected|
    ensures var a := Reserve(Some(user), apps, settings, selected, machineId, offerId, weekStart, myOffers, ids)
                       .appointments[|apps| + j];
      && a.userId == user.id && a.machineId == machineId && a.weekStart == weekStart
      && a.dayIndex == selected[j].dayIndex && a.hour == selected[j].hour
  {
    CreateAdded(apps, settings, selected, machineId, offerId, user, weekStart, myOffers, ids, j);
  }
}
