/** The customer-side tournament store (src/app/hooks/useTournaments.ts):
    the list of tournaments still running, sorted by start, and the
    register button, which withdraws an already registered user. */
module Tournaments {
  import opened Base
  import opened Domain
  import opened Text

  function EndsAfter(now: int): Tournament -> bool {
    (tr: Tournament) => tr.end > now
  }

  function StartKey(tr: Tournament): int {
    tr.start
  }

  /** `activeTournaments`: the tournaments not yet over, earliest start
      first (a stable sort). */
  function ActiveTournaments(ts: seq<Tournament>, now: int): (r: seq<Tournament>)
    ensures forall tr :: tr in r <==> tr in ts && tr.end > now
    ensures multiset(r) == multiset(Filter(ts, EndsAfter(now)))
    ensures forall i, j :: 0 <= i < j < |r| ==> r[i].start <= r[j].start
  {
    var f := Filter(ts, EndsAfter(now));
    var r := SortBy(f, StartKey);
    assert forall i, j :: 0 <= i < j < |r| ==> StartKey(r[i]) <= StartKey(r[j]);
    SameMembers(r, f);
    r
  }

  /** Tournaments that start at the same moment are listed in their
      stored order. */
  lemma ActiveKeepsTies(ts: seq<Tournament>, now: int, start: int)
    ensures Filter(ActiveTournaments(ts, now), KeyIs(StartKey, start))
         == Filter(Filter(ts, EndsAfter(now)), KeyIs(StartKey, start))
  {
    SortByStable(Filter(ts, EndsAfter(now)), StartKey, start);
  }

  function Includes(userId: string): Participant -> bool {
    (p: Participant) => userId in p.userIds
  }

  predicate Registered(tr: Tournament, userId: string) {
    exists k :: 0 <= k < |tr.participants| && userId in tr.participants[k].userIds
  }

  /** The id of the entry a registration at `now` appends. */
  function EntryId(now: nat): string {
    "part-" + NatToString(now)
  }

  /** The entry a registration appends: the team name, or the user's name
      when that is empty. */
  function NewEntry(user: User, teamName: string, now: nat): Participant {
    Participant(EntryId(now), if teamName != "" then teamName else user.name, [user.id], None)
  }

  /** The update of one tournament: withdraw the first entry holding the
      user, or append a new entry for the user. */
  function Toggle(tr: Tournament, user: User, teamName: string, now: nat): (r: Tournament)
    ensures r.(participants := tr.participants) == tr
    ensures !Registered(tr, user.id) ==>
      && Registered(r, user.id)
      && |r.participants| == |tr.participants| + 1
      && r.participants[..|tr.participants|] == tr.participants
    ensures !Registered(tr, user.id) ==>
      && r.participants[|tr.participants|].id == EntryId(now)
      && r.participants[|tr.participants|].userIds == [user.id]
      && r.participants[|tr.participants|].name == (if teamName != "" then teamName else user.name)
      && r.participants[|tr.participants|].seed.None?
    ensures Registered(tr, user.id) ==> |r.participants| == |tr.participants| - 1
    ensures forall k ::
      (0 <= k < |tr.participants| && user.id in tr.participants[k].userIds &&
       forall j :: 0 <= j < k ==> user.id !in tr.participants[j].userIds) ==>
      r.participants == tr.participants[..k] + tr.participants[k + 1..]
  {
    match FindIndex(tr.participants, Includes(user.id))
    case Some(k) =>
      assert tr.participants[..k] + tr.participants[k + 1..] == RemoveAt(tr.participants, k);
      tr.(participants := RemoveAt(tr.participants, k))
    case None =>
      var ps := tr.participants + [NewEntry(user, teamName, now)];
      assert user.id in ps[|ps| - 1].userIds;
      tr.(participants := ps)
  }

  datatype Registration = Registration(tournaments: seq<Tournament>, ok: bool)

  function ToggleIn(tournamentId: string, user: User, teamName: string, now: nat): Tournament -> Tournament {
    (tr: Tournament) => if tr.id == tournamentId then Toggle(tr, user, teamName, now) else tr
  }

  /** `registerForTournament`: refused without a signed-in user; otherwise
      every tournament with that id is toggled and the rest are kept. */
  function Register(ts: seq<Tournament>, tournamentId: string, user: Option<User>, teamName: string, now: nat): (r: Registration)
    ensures user.None? ==> r == Registration(ts, false)
    ensures user.Some? ==> r.ok && |r.tournaments| == |ts|
    ensures user.Some? ==> forall i :: 0 <= i < |ts| ==>
      r.tournaments[i].(participants := ts[i].participants) == ts[i]
      && (ts[i].id != tournamentId ==> r.tournaments[i] == ts[i])
    ensures user.Some? ==> forall i :: 0 <= i < |ts| && ts[i].id == tournamentId ==>
      r.tournaments[i] == Toggle(ts[i], user.value, teamName, now)
  {
    match user
    case None => Registration(ts, false)
    case Some(u) => Registration(Map(ts, ToggleIn(tournamentId, u, teamName, now)), true)
  }

  /** The first press registers a user who was not registered in every
      tournament with that id, and the second press restores the
      tournaments. */
  lemma RegisterTwice(ts: seq<Tournament>, tournamentId: string, user: User, teamName: string, now1: nat, now2: nat)
    requires forall i :: 0 <= i < |ts| && ts[i].id == tournamentId ==> !Registered(ts[i], user.id)
    ensures var once := Register(ts, tournamentId, Some(user), teamName, now1).tournaments;
      forall i :: 0 <= i < |ts| && ts[i].id == tournamentId ==> Registered(once[i], user.id)
    ensures var once := Register(ts, tournamentId, Some(user), teamName, now1).tournaments;
      Register(once, tournamentId, Some(user), teamName, now2).tournaments == ts
  {
    var once := Register(ts, tournamentId, Some(user), teamName, now1).tournaments;
    var twice := Register(once, tournamentId, Some(user), teamName, now2).tournaments;
    forall i | 0 <= i < |ts|
      ensures twice[i] == ts[i]
    {
      if ts[i].id == tournamentId {
        var ps := ts[i].participants;
        var ps1 := ps + [NewEntry(user, teamName, now1)];
        assert FindIndex(ps, Includes(user.id)).None?;
        assert once[i].participants == ps1;
        FindAt(ps1, Includes(user.id), |ps|);
        assert RemoveAt(ps1, |ps|) == ps;
      }
    }
  }

  /** A user held by at most one entry is no longer registered after
      withdrawing. */
  lemma WithdrawUnregisters(tr: Tournament, user: User, teamName: string, now: nat)
    requires Registered(tr, user.id)
    requires forall j, k :: 0 <= j < k < |tr.participants| && user.id in tr.participants[j].userIds
               ==> user.id !in tr.participants[k].userIds
    ensures !Registered(Toggle(tr, user, teamName, now), user.id)
  {
    var k := FindIndex(tr.participants, Includes(user.id)).value;
    var r := Toggle(tr, user, teamName, now);
    forall j | 0 <= j < |r.participants|
      ensures user.id !in r.participants[j].userIds
    {
      if j >= k {
        assert r.participants[j] == tr.participants[j + 1];
      }
    }
  }
}
