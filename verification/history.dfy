/** The booking history list (src/features/bookings/HistoryModal.tsx): the
    user's appointments newest week first, each marked completed or upcoming,
    with a cancel button that is enabled more than two hours ahead. */
module History {
  import opened Base
  import opened Domain
  import opened Calendar
  import opened Ledger

  function NegWeek(a: Appointment): int {
    -a.weekStart
  }

  /** `(a) => a.userId === userId`. */
  function Owns(userId: string): Appointment -> bool {
    (a: Appointment) => a.userId == userId
  }

  function OwnedBy(apps: seq<Appointment>, userId: string): seq<Appointment> {
    Filter(apps, Owns(userId))
  }

  /** `appointments.filter(a => a.userId === user.id)` sorted by `weekStart`,
      latest first. */
  function UserHistory(apps: seq<Appointment>, userId: string): (r: seq<Appointment>)
    ensures forall i, j :: 0 <= i < j < |r| ==> r[i].weekStart >= r[j].weekStart
    ensures multiset(r) == multiset(OwnedBy(apps, userId))
  {
    var r := SortBy(OwnedBy(apps, userId), NegWeek);
    assert forall i, j :: 0 <= i < j < |r| ==> NegWeek(r[i]) <= NegWeek(r[j]);
    r
  }

  /** The history holds exactly the user's own appointments. */
  lemma UserHistoryMembers(apps: seq<Appointment>, userId: string)
    ensures forall a :: a in UserHistory(apps, userId) <==> a in apps && a.userId == userId
  {
    FilterMembers(apps, Owns(userId), UserHistory(apps, userId));
  }

  datatype EntryStatus = Done | Upcoming

  /** `getStatus`: completed once the slot has started. */
  function Status(app: Appointment, now: int): (s: EntryStatus)
    ensures s == Done <==> StartOf(app) < now
  {
    if StartOf(app) < now then Done else Upcoming
  }

  /** `canCancel`: strictly more than two hours ahead, which in the
      ledger's own measure is more than 2.0 hours. */
  predicate CanCancel(app: Appointment, now: int): (c: bool)
    ensures c <==> HoursUntil(StartOf(app), now) > 2.0
    ensures c ==> Status(app, now) == Upcoming
  {
    var h := HOUR_MS as real;
    var x := (StartOf(app) - now) as real;
    assert x / h > 2.0 <==> x > 2.0 * h;
    StartOf(app) - now > 2 * HOUR_MS
  }

  /** The cancel button is rendered for upcoming entries only, so every
      enabled button is on screen. */
  predicate ShowsCancel(app: Appointment, now: int): (b: bool)
    ensures b <==> Status(app, now) == Upcoming
    ensures CanCancel(app, now) ==> b
  {
    Status(app, now) != Done
  }

  /** As time passes an entry never turns back from completed, and a
      cancellation that is possible later was possible earlier. */
  lemma StatusSettles(app: Appointment, now: int, later: int)
    requires now <= later
    ensures Status(app, now) == Done ==> Status(app, later) == Done
    ensures CanCancel(app, later) ==> CanCancel(app, now)
    ensures !ShowsCancel(app, now) ==> !ShowsCancel(app, later)
  {
  }

  /** An enabled button is always shown, and a cancellation it asks for is
      one the ledger accepts. */
  lemma EnabledCancelAccepted(apps: seq<Appointment>, settings: Settings, app: Appointment, now: int)
    requires CanCancel(app, now)
    requires Target(apps, app.id) == Some(app)
    ensures ShowsCancel(app, now)
    ensures CancelAppointment(apps, settings, app.id, now).Cancelled?
  {
  }

  /** At exactly two hours ahead the history list disables the button
      while the ledger still accepts the cancellation: the list uses a
      strict comparison, the ledger rejects only below two hours. */
  lemma CutoffBoundaryDisagrees(apps: seq<Appointment>, settings: Settings, app: Appointment, now: int)
    requires Target(apps, app.id) == Some(app)
    requires StartOf(app) - now == 2 * HOUR_MS
    ensures ShowsCancel(app, now) && !CanCancel(app, now)
    ensures CancelAppointment(apps, settings, app.id, now).Cancelled?
  {
  }

  /** Everywhere else the button and the ledger agree. */
  lemma CutoffAgreesOffBoundary(apps: seq<Appointment>, settings: Settings, app: Appointment, now: int)
    requires Target(apps, app.id) == Some(app)
    requires StartOf(app) - now != 2 * HOUR_MS
    ensures CanCancel(app, now) <==> CancelAppointment(apps, settings, app.id, now).Cancelled?
  {
  }
}
