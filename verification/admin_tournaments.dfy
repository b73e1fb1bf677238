/** The admin side of tournaments (src/features/admin/hooks/useAdminTournaments.ts):
    creating, deleting and starting tournaments, seeding participants,
    recording match results and handing out prizes as special offers.

    Every action takes the tournament list (and, for prizes, the settings)
    and returns the new ones; persistence and toasts are left out, but the
    toast a prize run ends with is kept as a `PrizeNotice`. `Date.now()` is
    the parameter `now` (milliseconds), and the random arrangement used when
    a bracket is generated is the parameter `shuffle`. */
module AdminTournaments {
  import opened Base
  import opened Domain
  import opened Text
  import opened Bracket

  /** `(t) => t.id === id`. */
  function IsTourney(id: string): Tournament -> bool {
    (t: Tournament) => t.id == id
  }

  /** `(m) => m.id === id`. */
  function IsMatch(id: string): Match -> bool {
    (m: Match) => m.id == id
  }

  // -----------------------------------------------------------------------
  // Creating and deleting

  /** The id a tournament created at `now` gets. */
  function TourneyId(now: nat): string {
    "tourney-" + NatToString(now)
  }

  /** `createTournament`: nothing happens without a name or a start
      (`start` is `None` for an empty date field); otherwise an open
      tournament without participants or matches, lasting `hours` hours, is
      appended with the id `tourney-<now>`. */
  function CreateTournament(ts: seq<Tournament>, name: string, start: Option<int>, hours: int,
                            format: Format, prizes: seq<Prize>, now: nat): (r: seq<Tournament>)
    ensures name == "" || start.None? ==> r == ts
    ensures name != "" && start.Some? ==>
      && |r| == |ts| + 1 && r[..|ts|] == ts
      && r[|ts|].name == name && r[|ts|].start == start.value
      && r[|ts|].end - r[|ts|].start == hours * HOUR_MS
      && r[|ts|].status == Open && r[|ts|].participants == [] && r[|ts|].matches == []
      && r[|ts|].prizes == prizes && !r[|ts|].prizesDistributed
  {
    if name == "" || start.None? then ts
    else
      var t := Tournament(TourneyId(now), name, start.value,
                          start.value + hours * 60 * 60 * 1000, format, Open, [], [], prizes, false);
      ts + [t]
  }

  /** `(t) => t.id !== id`. */
  function OtherTourney(id: string): Tournament -> bool {
    (t: Tournament) => t.id != id
  }

  /** `deleteTournament`: every tournament with that id goes; each other
      one stays, as often as it was there and in its order. */
  function DeleteTournament(ts: seq<Tournament>, id: string): (r: seq<Tournament>)
    ensures forall i :: 0 <= i < |r| ==> r[i].id != id && r[i] in ts
    ensures forall i :: 0 <= i < |ts| && ts[i].id != id ==> ts[i] in r
    ensures forall t :: multiset(r)[t] == if t.id != id then multiset(ts)[t] else 0
    ensures Subsequence(r, ts)
  {
    FilterCount(ts, OtherTourney(id));
    FilterSubsequence(ts, OtherTourney(id));
    Filter(ts, OtherTourney(id))
  }

  /** Deleting the tournament just created restores the list, provided no
      older tournament shares its clock-based id. */
  lemma DeleteUndoesCreate(ts: seq<Tournament>, name: string, start: Option<int>, hours: int,
                           format: Format, prizes: seq<Prize>, now: nat)
    requires name != "" && start.Some?
    requires forall i :: 0 <= i < |ts| ==> ts[i].id != TourneyId(now)
    ensures DeleteTournament(CreateTournament(ts, name, start, hours, format, prizes, now), TourneyId(now)) == ts
  {
    var r := CreateTournament(ts, name, start, hours, format, prizes, now);
    var t := r[|ts|];
    assert r == ts + [t];
    FilterConcat(ts, [t], OtherTourney(TourneyId(now)));
    FilterAll(ts, OtherTourney(TourneyId(now)));
    FilterNone([t], OtherTourney(TourneyId(now)));
  }

  function PrizeRank(p: Prize): int {
    p.rank
  }

  /** `addTournamentPrize`: the prize joins the list, which is re-sorted by
      ascending rank (stably). */
  function AddPrize(prizes: seq<Prize>, p: Prize): (r: seq<Prize>)
    ensures multiset(r) == multiset(prizes) + multiset{p}
    ensures forall i, j :: 0 <= i < j < |r| ==> r[i].rank <= r[j].rank
  {
    var r := SortBy(prizes + [p], PrizeRank);
    assert forall i, j :: 0 <= i < j < |r| ==> PrizeRank(r[i]) <= PrizeRank(r[j]);
    r
  }

  /** A prize ranked at least as low as every listed one lands at the end. */
  lemma AddPrizeLast(prizes: seq<Prize>, p: Prize)
    requires forall i :: 0 <= i < |prizes| ==> prizes[i].rank <= p.rank
    ensures AddPrize(prizes, p) == SortBy(prizes, PrizeRank) + [p]
  {
    var s := prizes + [p];
    assert s[..|prizes|] == prizes;
    var sorted := SortBy(prizes, PrizeRank);
    forall i | 0 <= i < |sorted|
      ensures PrizeRank(sorted[i]) <= PrizeRank(p)
    {
      assert sorted[i] in multiset(prizes);
    }
    InsertAtEnd(sorted, p, PrizeRank);
  }

  /** `removeTournamentPrize`: `splice(idx, 1)` on a copy, which changes
      nothing when the index is past the end. */
  function RemovePrize(prizes: seq<Prize>, idx: nat): (r: seq<Prize>)
    ensures idx >= |prizes| ==> r == prizes
    ensures idx < |prizes| ==> |r| == |prizes| - 1 && r[..idx] == prizes[..idx] && r[idx..] == prizes[idx + 1..]
  {
    if idx < |prizes| then RemoveAt(prizes, idx) else prizes
  }

  /** Removing, by its position, a prize just added below all others
      restores a rank-ordered list. */
  lemma RemoveUndoesAddPrize(prizes: seq<Prize>, p: Prize)
    requires forall i, j :: 0 <= i < j < |prizes| ==> prizes[i].rank <= prizes[j].rank
    requires forall i :: 0 <= i < |prizes| ==> prizes[i].rank <= p.rank
    ensures RemovePrize(AddPrize(prizes, p), |prizes|) == prizes
  {
    AddPrizeLast(prizes, p);
    assert SortedBy(prizes, PrizeRank);
    SortByOfSorted(prizes, PrizeRank);
    assert (prizes + [p])[..|prizes|] == prizes;
  }

  // -----------------------------------------------------------------------
  // Starting and seeding

  /** `startTournament`: the tournaments with that id become active and get
      a freshly generated bracket; `shuffle` stands for the random
      arrangement and only ever reorders. */
  function StartTournament(ts: seq<Tournament>, id: string,
                           shuffle: seq<Participant> -> seq<Participant>): (r: seq<Tournament>)
    requires forall ps :: multiset(shuffle(ps)) == multiset(ps)
    ensures |r| == |ts|
    ensures forall i :: 0 <= i < |ts| && ts[i].id != id ==> r[i] == ts[i]
    ensures forall i :: 0 <= i < |ts| && ts[i].id == id ==>
      && r[i] == ts[i].(status := Active, matches := r[i].matches)
      && r[i].matches == GenerateBracket(ts[i].participants, shuffle(ts[i].participants))
      && |r[i].matches| == BracketSize(|ts[i].participants|) - 1
  {
    var r := Map(ts, (t: Tournament) =>
      if t.id == id then t.(status := Active, matches := GenerateBracket(t.participants, shuffle(t.participants)))
      else t);
    forall i | 0 <= i < |ts| && ts[i].id == id
      ensures |r[i].matches| == BracketSize(|ts[i].participants|) - 1
    {
      BracketMatchCount(ts[i].participants, shuffle(ts[i].participants));
    }
    r
  }

  /** `updateParticipantSeed`: in the tournaments with that id, every
      participant with that id gets the seed; nothing else changes. */
  function UpdateSeed(ts: seq<Tournament>, tourneyId: string, participantId: string, seed: int): (r: seq<Tournament>)
    ensures |r| == |ts|
    ensures forall i :: 0 <= i < |ts| && ts[i].id != tourneyId ==> r[i] == ts[i]
    ensures forall i :: 0 <= i < |ts| && ts[i].id == tourneyId ==>
      && r[i] == ts[i].(participants := r[i].participants)
      && |r[i].participants| == |ts[i].participants|
      && forall k :: 0 <= k < |ts[i].participants| ==>
           r[i].participants[k] == ts[i].participants[k].(seed := r[i].participants[k].seed)
           && r[i].participants[k].seed == (if ts[i].participants[k].id == participantId then Some(seed)
                                            else ts[i].participants[k].seed)
  {
    Map(ts, (t: Tournament) =>
      if t.id != tourneyId then t
      else t.(participants := Map(t.participants, (p: Participant) =>
        if p.id == participantId then p.(seed := Some(seed)) else p)))
  }

  /** The participants numbered 1, 2, ... in list order. */
  function NumberFrom(ps: seq<Participant>): (r: seq<Participant>)
    ensures |r| == |ps|
    ensures forall k :: 0 <= k < |ps| ==> r[k] == ps[k].(seed := Some(k + 1))
  {
    seq(|ps|, k requires 0 <= k < |ps| => ps[k].(seed := Some(k + 1)))
  }

  /** `autoSeedParticipants`: in the tournaments with that id the
      participants are seeded by their position. */
  function AutoSeed(ts: seq<Tournament>, tourneyId: string): (r: seq<Tournament>)
    ensures |r| == |ts|
    ensures forall i :: 0 <= i < |ts| && ts[i].id != tourneyId ==> r[i] == ts[i]
    ensures forall i :: 0 <= i < |ts| && ts[i].id == tourneyId ==>
      r[i] == ts[i].(participants := NumberFrom(ts[i].participants))
  {
    Map(ts, (t: Tournament) =>
      if t.id != tourneyId then t else t.(participants := NumberFrom(t.participants)))
  }

  /** After auto-seeding, a generated bracket takes the players in their
      registration order: seed `k + 1` is the `k`-th participant, whatever
      the shuffle. */
  lemma AutoSeedKeepsOrder(ps: seq<Participant>, shuffled: seq<Participant>)
    requires |ps| > 0
    requires multiset(shuffled) == multiset(NumberFrom(ps))
    ensures OrderPlayers(NumberFrom(ps), shuffled) == NumberFrom(ps)
  {
    var a := NumberFrom(ps);
    assert HasSeed(a[0]);
    assert forall i :: 0 <= i < |a| ==> SeedKey(a[i]) == i + 1;
    SortedUnique(a, SortBy(a, SeedKey), SeedKey);
  }

  // -----------------------------------------------------------------------
  // Recording a result

  /** A winner recorded in the feeding match retracts the next match's
      result when the old feeding winner was present, is replaced, and is
      the one the next match had advanced. */
  predicate Stale(oldWinner: Option<string>, winnerId: string, nextWinner: Option<string>) {
    Truthy(oldWinner) && oldWinner != Some(winnerId) && nextWinner == oldWinner
  }

  /** What `advanceMatch` does to the next match: retract a stale result,
      then seat the winner on the side the feeding match's parity names
      (`matchIndex % 2 === 0`, which agrees with Dafny's `%` on zero
      tests for either sign). */
  function Feed(next: Match, oldWinner: Option<string>, winnerId: string, fromIndex: int): (r: Match)
    ensures r.id == next.id && r.round == next.round && r.matchIndex == next.matchIndex
    ensures r.nextMatchId == next.nextMatchId
    ensures r.winnerId == (if Stale(oldWinner, winnerId, next.winnerId) then None else next.winnerId)
    ensures fromIndex % 2 == 0 ==> r.p1Id == Some(winnerId) && r.p2Id == next.p2Id
    ensures fromIndex % 2 != 0 ==> r.p2Id == Some(winnerId) && r.p1Id == next.p1Id
  {
    var cleared := if Stale(oldWinner, winnerId, next.winnerId) then next.(winnerId := None) else next;
    if fromIndex % 2 == 0 then cleared.(p1Id := Some(winnerId)) else cleared.(p2Id := Some(winnerId))
  }

  /** The second half of `advanceMatch`: when the advanced match `m` has
      a successor, the first match carrying that id is fed. */
  function FeedNext(ms: seq<Match>, m: Match, oldWinner: Option<string>, winnerId: string): (r: seq<Match>)
    ensures |r| == |ms|
    ensures forall k :: 0 <= k < |ms| ==>
      r[k].id == ms[k].id && r[k].nextMatchId == ms[k].nextMatchId && r[k].matchIndex == ms[k].matchIndex
  {
    if !Truthy(m.nextMatchId) then ms
    else match FindIndex(ms, HasId(m.nextMatchId))
      case None => ms
      case Some(j) => ms[j := Feed(ms[j], oldWinner, winnerId, m.matchIndex)]
  }

  /** `advanceMatch` inside one tournament: an unknown match id changes
      nothing; otherwise the match gets its winner, the match its
      `nextMatchId` names (looked up by id) is fed, and the tournament is
      active while the match had a successor and completed otherwise. */
  function Advance(tr: Tournament, matchId: string, winnerId: string): (r: Tournament)
    ensures r == tr.(matches := r.matches, status := r.status)
    ensures |r.matches| == |tr.matches|
    ensures forall k :: 0 <= k < |tr.matches| ==>
      r.matches[k].id == tr.matches[k].id && r.matches[k].nextMatchId == tr.matches[k].nextMatchId
      && r.matches[k].matchIndex == tr.matches[k].matchIndex
  {
    match FindIndex(tr.matches, IsMatch(matchId))
    case None => tr
    case Some(i) =>
      var m := tr.matches[i].(winnerId := Some(winnerId));
      var fed := FeedNext(tr.matches[i := m], m, tr.matches[i].winnerId, winnerId);
      tr.(matches := fed, status := if Truthy(m.nextMatchId) then Active else Completed)
  }

  /** `advanceMatch` over the list: only the tournaments with that id are
      touched. */
  function AdvanceMatch(ts: seq<Tournament>, tourneyId: string, matchId: string, winnerId: string): (r: seq<Tournament>)
    ensures |r| == |ts|
    ensures forall i :: 0 <= i < |ts| && ts[i].id != tourneyId ==> r[i] == ts[i]
    ensures forall i :: 0 <= i < |ts| && ts[i].id == tourneyId ==> r[i] == Advance(ts[i], matchId, winnerId)
  {
    Map(ts, (t: Tournament) => if t.id != tourneyId then t else Advance(t, matchId, winnerId))
  }

  /** Matches are located by id alone, so two lists with the same ids
      agree on every lookup. */
  lemma SameIdsSameIndex(a: seq<Match>, b: seq<Match>, target: Option<string>)
    requires |a| == |b|
    requires forall k :: 0 <= k < |a| ==> a[k].id == b[k].id
    ensures FindIndex(a, HasId(target)) == FindIndex(b, HasId(target))
  {
    if |a| > 0 {
      SameIdsSameIndex(a[1..], b[1..], target);
    }
  }

  lemma SameIdsSameMatch(a: seq<Match>, b: seq<Match>, id: string)
    requires |a| == |b|
    requires forall k :: 0 <= k < |a| ==> a[k].id == b[k].id
    ensures FindIndex(a, IsMatch(id)) == FindIndex(b, IsMatch(id))
  {
    if |a| > 0 {
      SameIdsSameMatch(a[1..], b[1..], id);
    }
  }

  /** An unknown match id leaves the tournament as it was. */
  lemma AdvanceUnknown(tr: Tournament, matchId: string, winnerId: string)
    requires forall k :: 0 <= k < |tr.matches| ==> tr.matches[k].id != matchId
    ensures Advance(tr, matchId, winnerId) == tr
  {
  }

  lemma AdvanceStatus(tr: Tournament, matchId: string, winnerId: string, i: nat)
    requires i < |tr.matches| && tr.matches[i].id == matchId
    requires forall k :: 0 <= k < i ==> tr.matches[k].id != matchId
    ensures var r := Advance(tr, matchId, winnerId);
      && (r.status == Completed <==> !Truthy(tr.matches[i].nextMatchId))
      && (r.status == Active <==> Truthy(tr.matches[i].nextMatchId))
  {
    FindAt(tr.matches, IsMatch(matchId), i);
  }

  lemma AdvanceFrame(tr: Tournament, matchId: string, winnerId: string, i: nat)
    requires i < |tr.matches| && tr.matches[i].id == matchId
    requires forall k :: 0 <= k < i ==> tr.matches[k].id != matchId
    ensures var r := Advance(tr, matchId, winnerId);
      && r.matches[i].winnerId == Some(winnerId)
      && forall k :: 0 <= k < |tr.matches| && k != i && Some(tr.matches[k].id) != tr.matches[i].nextMatchId ==>
           r.matches[k] == tr.matches[k]
  {
    FindAt(tr.matches, IsMatch(matchId), i);
    var m := tr.matches[i].(winnerId := Some(winnerId));
    var ms := tr.matches[i := m];
    if Truthy(m.nextMatchId) {
      match FindIndex(ms, HasId(m.nextMatchId))
      case None =>
      case Some(j) =>
        assert j == i ==> !Stale(tr.matches[i].winnerId, winnerId, ms[j].winnerId);
    }
  }

  /** The first match with the id gets the winner, and the only other match
      that may change is the first one its `nextMatchId` names. The
      tournament is completed exactly when the match has no successor. */
  lemma AdvanceScope(tr: Tournament, matchId: string, winnerId: string, i: nat)
    requires i < |tr.matches| && tr.matches[i].id == matchId
    requires forall k :: 0 <= k < i ==> tr.matches[k].id != matchId
    ensures var r := Advance(tr, matchId, winnerId);
      && r.matches[i].winnerId == Some(winnerId)
      && (r.status == Completed <==> !Truthy(tr.matches[i].nextMatchId))
      && (r.status == Active <==> Truthy(tr.matches[i].nextMatchId))
      && forall k :: 0 <= k < |tr.matches| && k != i && Some(tr.matches[k].id) != tr.matches[i].nextMatchId ==>
           r.matches[k] == tr.matches[k]
  {
    AdvanceStatus(tr, matchId, winnerId, i);
    AdvanceFrame(tr, matchId, winnerId, i);
  }

  /** The match fed is the first one carrying the successor's id, other
      than the advanced match itself: it receives the winner on the side
      the parity of the advanced match names, and loses its own result
      exactly when that result was the one being replaced. */
  lemma AdvanceFeeds(tr: Tournament, matchId: string, winnerId: string, i: nat, j: nat)
    requires i < |tr.matches| && tr.matches[i].id == matchId
    requires forall k :: 0 <= k < i ==> tr.matches[k].id != matchId
    requires Truthy(tr.matches[i].nextMatchId)
    requires j < |tr.matches| && j != i && Some(tr.matches[j].id) == tr.matches[i].nextMatchId
    requires forall k :: 0 <= k < j ==> Some(tr.matches[k].id) != tr.matches[i].nextMatchId
    ensures var old_, next, after := tr.matches[i].winnerId, tr.matches[j], Advance(tr, matchId, winnerId).matches[j];
      && (tr.matches[i].matchIndex % 2 == 0 ==> after.p1Id == Some(winnerId) && after.p2Id == next.p2Id)
      && (tr.matches[i].matchIndex % 2 != 0 ==> after.p2Id == Some(winnerId) && after.p1Id == next.p1Id)
      && (after.winnerId != next.winnerId <==>
            Truthy(old_) && old_ != Some(winnerId) && next.winnerId == old_)
      && (after.winnerId != next.winnerId ==> after.winnerId == None)
  {
    FindAt(tr.matches, IsMatch(matchId), i);
    var m := tr.matches[i].(winnerId := Some(winnerId));
    var ms := tr.matches[i := m];
    FindAt(ms, HasId(m.nextMatchId), j);
  }

  /** Feeding the same winner again from a match with the same successor
      and parity changes nothing. */
  lemma FeedNextAgain(ms: seq<Match>, m: Match, m2: Match, oldWinner: Option<string>, winnerId: string)
    requires m2.nextMatchId == m.nextMatchId && m2.matchIndex == m.matchIndex
    ensures var r := FeedNext(ms, m, oldWinner, winnerId);
      FeedNext(r, m2, Some(winnerId), winnerId) == r
  {
    var r := FeedNext(ms, m, oldWinner, winnerId);
    if Truthy(m.nextMatchId) {
      SameIdsSameIndex(ms, r, m.nextMatchId);
      match FindIndex(ms, HasId(m.nextMatchId))
      case None =>
      case Some(j) =>
        var f1 := Feed(ms[j], oldWinner, winnerId, m.matchIndex);
        assert Feed(f1, Some(winnerId), winnerId, m.matchIndex) == f1;
    }
  }

  /** Recording the same result twice is the same as recording it once. */
  lemma AdvanceIdempotent(tr: Tournament, matchId: string, winnerId: string)
    ensures Advance(Advance(tr, matchId, winnerId), matchId, winnerId) == Advance(tr, matchId, winnerId)
  {
    var r1 := Advance(tr, matchId, winnerId);
    SameIdsSameMatch(tr.matches, r1.matches, matchId);
    match FindIndex(tr.matches, IsMatch(matchId))
    case None =>
    case Some(i) =>
      var m := tr.matches[i].(winnerId := Some(winnerId));
      assert r1.matches[i].winnerId == Some(winnerId) by {
        AdvanceScope(tr, matchId, winnerId, i);
      }
      var m2 := r1.matches[i].(winnerId := Some(winnerId));
      assert r1.matches[i := m2] == r1.matches;
      FeedNextAgain(tr.matches[i := m], m, m2, tr.matches[i].winnerId, winnerId);
  }

  // -----------------------------------------------------------------------
  // Prizes

  /** `Math.max(...matches.map(m => m.round))`. */
  function MaxRound(ms: seq<Match>): (r: int)
    requires |ms| > 0
    ensures forall k :: 0 <= k < |ms| ==> ms[k].round <= r
    ensures exists k :: 0 <= k < |ms| && ms[k].round == r
  {
    if |ms| == 1 then ms[0].round
    else
      var rest := MaxRound(ms[1..]);
      assert forall k :: 1 <= k < |ms| ==> ms[k] == ms[1..][k - 1];
      if ms[0].round >= rest then ms[0].round else rest
  }

  /** The final: the first match of the highest round. With no matches
      `Math.max()` is `-Infinity` and no match is found. */
  function FinalMatch(ms: seq<Match>): (r: Option<Match>)
    ensures r.None? <==> |ms| == 0
    ensures r.Some? ==>
      exists k :: 0 <= k < |ms| && ms[k] == r.value
        && (forall j :: 0 <= j < |ms| ==> ms[j].round <= ms[k].round)
        && (forall j :: 0 <= j < k ==> ms[j].round < ms[k].round)
  {
    if |ms| == 0 then None
    else
      var top := MaxRound(ms);
      match FindIndex(ms, (m: Match) => m.round == top)
      case None => None
      case Some(k) => Some(ms[k])
  }

  /** The side that did not win: `m.winnerId === m.p1Id ? m.p2Id : m.p1Id`.
      A match without a result and without a first player counts its second
      player as the loser, as in the source. */
  function Loser(m: Match): Option<string> {
    if m.winnerId == m.p1Id then m.p2Id else m.p1Id
  }

  /** Who a prize run rewards: the final's winner, the other finalist and
      the losers of the round before the final. */
  datatype Podium = Podium(winner: string, runnerUp: Option<string>, semiLosers: seq<Option<string>>)

  /** `semiMatches.map(loser).filter(Boolean)`. */
  function SemiLosers(ms: seq<Match>, round: int): seq<Option<string>> {
    Filter(Map(Filter(ms, (m: Match) => m.round == round), Loser), Truthy)
  }

  /** The semifinal losers are exactly the present losers of the matches
      of that round. */
  lemma SemiLosersMember(ms: seq<Match>, round: int, t: Option<string>)
    ensures t in SemiLosers(ms, round) <==>
      Truthy(t) && exists k :: 0 <= k < |ms| && ms[k].round == round && Loser(ms[k]) == t
  {
    if t in SemiLosers(ms, round) {
      SemiLoserFrom(ms, round, t);
    }
    if Truthy(t) && exists k :: 0 <= k < |ms| && ms[k].round == round && Loser(ms[k]) == t {
      var k :| 0 <= k < |ms| && ms[k].round == round && Loser(ms[k]) == t;
      SemiLoserListed(ms, round, k);
    }
  }

  lemma SemiLoserFrom(ms: seq<Match>, round: int, t: Option<string>)
    requires t in SemiLosers(ms, round)
    ensures Truthy(t) && exists k :: 0 <= k < |ms| && ms[k].round == round && Loser(ms[k]) == t
  {
    var semis := Filter(ms, (m: Match) => m.round == round);
    var losers := Map(semis, Loser);
    assert t in losers && Truthy(t);
    var a :| 0 <= a < |losers| && losers[a] == t;
    assert semis[a] in ms && semis[a].round == round;
    var k :| 0 <= k < |ms| && ms[k] == semis[a];
    assert Loser(ms[k]) == t;
  }

  lemma SemiLoserListed(ms: seq<Match>, round: int, k: nat)
    requires k < |ms| && ms[k].round == round && Truthy(Loser(ms[k]))
    ensures Loser(ms[k]) in SemiLosers(ms, round)
  {
    var semis := Filter(ms, (m: Match) => m.round == round);
    var losers := Map(semis, Loser);
    assert ms[k] in semis;
    var a :| 0 <= a < |semis| && semis[a] == ms[k];
    assert losers[a] == Loser(ms[k]);
  }

  function PodiumOf(ms: seq<Match>, final: Match): Podium
    requires Truthy(final.winnerId)
  {
    Podium(final.winnerId.value, Loser(final), SemiLosers(ms, final.round - 1))
  }

  /** The participants a prize of the given rank goes to: rank 1 the
      winner, rank 2 the runner-up when there is one, rank 3 the semifinal
      losers, any other rank nobody. */
  function Targets(rank: int, podium: Podium): seq<Option<string>> {
    if rank == 1 then [Some(podium.winner)]
    else if rank == 2 && Truthy(podium.runnerUp) then [podium.runnerUp]
    else if rank == 3 then podium.semiLosers
    else []
  }

  /** The prize offer's name: `<mark> <tournament> - #<rank> Place`. The
      mark is the three characters U+00F0 U+0178 U+2020 that
      useAdminTournaments.ts holds at line 233, which is how the UTF-8
      bytes of a trophy emoji read when decoded as Windows-1252; the model
      keeps the characters as written. */
  function PrizeName(tournament: string, rank: int): string {
    "\U{F0}\U{178}\U{2020} " + tournament + " - #" + IntToString(rank) + " Place"
  }

  /** The offer one team member receives for one prize: valid for 90 days
      from `now`, targeted at the member, unused, and carrying either the
      prize's amount or, for a product prize, value 0 and the product. */
  function PrizeOffer(tr: Tournament, prize: Prize, uid: string, now: nat): SpecialOffer {
    SpecialOffer(
      "prize-" + NatToString(now) + "-" + uid + "-" + IntToString(prize.rank),
      PrizeName(tr.name, prize.rank),
      prize.kind,
      if prize.value.Product? then 0.0 else prize.value.amount,
      now,
      now + 90 * 24 * 60 * 60 * 1000,
      Some(uid),
      NoCondition,
      None,
      if prize.value.Product? then Some(prize.value.product) else None,
      false,
      false,
      None)
  }

  /** The offers one target yields: one per user id of the first
      participant with that id, none when no participant has it. */
  function TeamOffers(tr: Tournament, prize: Prize, target: Option<string>, now: nat): seq<SpecialOffer> {
    match Find(tr.participants, (p: Participant) => Some(p.id) == target)
    case None => []
    case Some(part) => Map(part.userIds, (uid: string) => PrizeOffer(tr, prize, uid, now))
  }

  function PrizeOffers(tr: Tournament, prize: Prize, podium: Podium, now: nat): seq<SpecialOffer> {
    Flatten(Map(Targets(prize.rank, podium), (t: Option<string>) => TeamOffers(tr, prize, t, now)))
  }

  /** The offers of a prize run, prize by prize in list order. */
  function NewOffers(tr: Tournament, podium: Podium, now: nat): seq<SpecialOffer> {
    Flatten(Map(tr.prizes, (p: Prize) => PrizeOffers(tr, p, podium, now)))
  }

  /** An offer carries its prize: the prize's type, and its amount, or value
      0 and the product for a product prize. */
  predicate CarriesPrize(o: SpecialOffer, prize: Prize) {
    && o.kind == prize.kind
    && (prize.value.Product? ==> o.value == 0.0 && o.rewardProduct == Some(prize.value.product))
    && (prize.value.Amount? ==> o.value == prize.value.amount && o.rewardProduct.None?)
  }

  /** A target that is a participant yields exactly one offer per user id,
      in order, each for that user, unused and not a template; a target
      that is nobody yields none. */
  lemma TeamOffersShape(tr: Tournament, prize: Prize, target: Option<string>, now: nat)
    ensures var r := TeamOffers(tr, prize, target, now);
      match Find(tr.participants, (p: Participant) => Some(p.id) == target)
      case None => r == []
      case Some(part) =>
        && |r| == |part.userIds|
        && forall k :: 0 <= k < |r| ==>
             && r[k].targetUserId == Some(part.userIds[k])
             && r[k].name == PrizeName(tr.name, prize.rank)
             && r[k].startDate == now && r[k].endDate == now + 90 * 24 * 60 * 60 * 1000
             && !r[k].used && !r[k].isTemplate && r[k].conditionType == NoCondition
             && CarriesPrize(r[k], prize)
  {
  }

  /** Exactly the offers of the rewarded teams: an offer is generated iff
      it is one of the offers some prize's target yields. */
  lemma NewOffersMember(tr: Tournament, podium: Podium, now: nat, o: SpecialOffer)
    ensures o in NewOffers(tr, podium, now) <==>
      exists i, j :: 0 <= i < |tr.prizes| && 0 <= j < |Targets(tr.prizes[i].rank, podium)| &&
        o in TeamOffers(tr, tr.prizes[i], Targets(tr.prizes[i].rank, podium)[j], now)
  {
    var outer := Map(tr.prizes, (p: Prize) => PrizeOffers(tr, p, podium, now));
    FlattenMember(outer, o);
    forall i | 0 <= i < |tr.prizes|
      ensures o in outer[i] <==>
        exists j :: 0 <= j < |Targets(tr.prizes[i].rank, podium)| &&
          o in TeamOffers(tr, tr.prizes[i], Targets(tr.prizes[i].rank, podium)[j], now)
    {
      var ts := Targets(tr.prizes[i].rank, podium);
      FlattenMember(Map(ts, (t: Option<string>) => TeamOffers(tr, tr.prizes[i], t, now)), o);
    }
  }

  /** Every prize offer is for one user, unused, not a template, without a
      condition, and carries one of the tournament's prizes. */
  lemma NewOffersShape(tr: Tournament, podium: Podium, now: nat, o: SpecialOffer)
    requires o in NewOffers(tr, podium, now)
    ensures o.targetUserId.Some? && !o.used && !o.isTemplate && o.conditionType == NoCondition
    ensures exists i :: 0 <= i < |tr.prizes| && CarriesPrize(o, tr.prizes[i])
  {
    NewOffersMember(tr, podium, now, o);
    var i, j :| 0 <= i < |tr.prizes| && 0 <= j < |Targets(tr.prizes[i].rank, podium)| &&
      o in TeamOffers(tr, tr.prizes[i], Targets(tr.prizes[i].rank, podium)[j], now);
    var t := Targets(tr.prizes[i].rank, podium)[j];
    TeamOffersShape(tr, tr.prizes[i], t, now);
    var r := TeamOffers(tr, tr.prizes[i], t, now);
    var k :| 0 <= k < |r| && r[k] == o;
    assert CarriesPrize(o, tr.prizes[i]);
  }

  /** Rank 1 rewards the winner's team, rank 2 the runner-up's team (nobody
      without a runner-up), rank 3 the teams of the semifinal losers, and
      any other rank nobody. */
  lemma PrizeTargets(tr: Tournament, prize: Prize, podium: Podium, now: nat)
    ensures prize.rank == 1 ==> PrizeOffers(tr, prize, podium, now) == TeamOffers(tr, prize, Some(podium.winner), now)
    ensures prize.rank == 2 && Truthy(podium.runnerUp) ==>
      PrizeOffers(tr, prize, podium, now) == TeamOffers(tr, prize, podium.runnerUp, now)
    ensures prize.rank == 2 && !Truthy(podium.runnerUp) ==> PrizeOffers(tr, prize, podium, now) == []
    ensures prize.rank !in {1, 2, 3} ==> PrizeOffers(tr, prize, podium, now) == []
    ensures prize.rank == 3 ==> forall o :: o in PrizeOffers(tr, prize, podium, now) <==>
      exists j :: 0 <= j < |podium.semiLosers| && o in TeamOffers(tr, prize, podium.semiLosers[j], now)
  {
    var ts := Targets(prize.rank, podium);
    var inner := Map(ts, (t: Option<string>) => TeamOffers(tr, prize, t, now));
    if |ts| == 1 {
      assert Flatten(inner) == inner[0] + Flatten(inner[1..]);
      assert inner[1..] == [];
    }
    if prize.rank == 3 {
      forall o
        ensures o in PrizeOffers(tr, prize, podium, now) <==>
          exists j :: 0 <= j < |podium.semiLosers| && o in TeamOffers(tr, prize, podium.semiLosers[j], now)
      {
        FlattenMember(inner, o);
      }
    }
  }

  /** The toast a prize run ends with. */
  datatype PrizeNotice = NothingToDo | NoFinalWinner | NoMatchingPrizes | Sent(count: nat)

  datatype PrizeRun = PrizeRun(settings: Settings, tournaments: seq<Tournament>, notice: PrizeNotice)

  /** The tournament looked up first, its eligibility (completed, prizes not
      yet handed out) and its final with a winner. */
  predicate Eligible(ts: seq<Tournament>, id: string) {
    var found := Find(ts, IsTourney(id));
    found.Some? && found.value.status == Completed && !found.value.prizesDistributed
  }

  function MarkDistributed(id: string): Tournament -> Tournament {
    (t: Tournament) => if t.id == id then t.(prizesDistributed := true) else t
  }

  /** `distributePrizes`. */
  function DistributePrizes(settings: Settings, ts: seq<Tournament>, id: string, now: nat): (r: PrizeRun)
    ensures !r.notice.Sent? ==> r.settings == settings && r.tournaments == ts
  {
    match Find(ts, IsTourney(id))
    case None => PrizeRun(settings, ts, NothingToDo)
    case Some(tr) =>
      if tr.status != Completed || tr.prizesDistributed then PrizeRun(settings, ts, NothingToDo)
      else match FinalMatch(tr.matches)
        case None => PrizeRun(settings, ts, NoFinalWinner)
        case Some(final) =>
          if !Truthy(final.winnerId) then PrizeRun(settings, ts, NoFinalWinner)
          else
            var offers := NewOffers(tr, PodiumOf(tr.matches, final), now);
            if |offers| == 0 then PrizeRun(settings, ts, NoMatchingPrizes)
            else
              PrizeRun(
                settings.(specialOffers := settings.specialOffers + offers),
                Map(ts, MarkDistributed(id)),
                Sent(|offers|))
  }

  /** A missing, unfinished or already rewarded tournament is skipped
      silently. */
  lemma DistributeSkips(settings: Settings, ts: seq<Tournament>, id: string, now: nat)
    requires !Eligible(ts, id)
    ensures DistributePrizes(settings, ts, id, now) == PrizeRun(settings, ts, NothingToDo)
  {
  }

  /** An eligible tournament whose final has no winner (or that has no
      matches) is reported and left alone. */
  lemma DistributeNeedsWinner(settings: Settings, ts: seq<Tournament>, id: string, now: nat)
    requires Eligible(ts, id)
    requires var f := FinalMatch(Find(ts, IsTourney(id)).value.matches);
      f.None? || !Truthy(f.value.winnerId)
    ensures DistributePrizes(settings, ts, id, now) == PrizeRun(settings, ts, NoFinalWinner)
  {
  }

  /** With a final winner, the run rewards the podium: without any offer
      nothing changes; otherwise the offers are appended to the settings'
      offers and exactly the tournaments with that id are marked. */
  lemma DistributeCommits(settings: Settings, ts: seq<Tournament>, id: string, now: nat)
    requires Eligible(ts, id)
    requires var f := FinalMatch(Find(ts, IsTourney(id)).value.matches);
      f.Some? && Truthy(f.value.winnerId)
    ensures var tr := Find(ts, IsTourney(id)).value;
      var final := FinalMatch(tr.matches).value;
      var offers := NewOffers(tr, PodiumOf(tr.matches, final), now);
      var r := DistributePrizes(settings, ts, id, now);
      && (|offers| == 0 ==> r == PrizeRun(settings, ts, NoMatchingPrizes))
      && (|offers| > 0 ==>
            && r.notice == Sent(|offers|)
            && r.settings == settings.(specialOffers := settings.specialOffers + offers)
            && |r.tournaments| == |ts|
            && forall k :: 0 <= k < |ts| ==>
                 r.tournaments[k] == if ts[k].id == id then ts[k].(prizesDistributed := true) else ts[k])
  {
  }

  /** The podium is read off the final: the winner and the other side of
      the final (the losers of the round before: SemiLosersMember). */
  lemma PodiumFacts(ms: seq<Match>, final: Match)
    requires Truthy(final.winnerId)
    ensures var p := PodiumOf(ms, final);
      && Some(p.winner) == final.winnerId
      && (final.p1Id == final.winnerId ==> p.runnerUp == final.p2Id)
      && (final.p1Id != final.winnerId ==> p.runnerUp == final.p1Id)
  {
  }

  /** Prizes are handed out at most once: right after a run that sent
      offers, another run for the same tournament does nothing. */
  lemma DistributeOnce(settings: Settings, ts: seq<Tournament>, id: string, now: nat, later: nat)
    requires DistributePrizes(settings, ts, id, now).notice.Sent?
    ensures var r := DistributePrizes(settings, ts, id, now);
      DistributePrizes(r.settings, r.tournaments, id, later) == PrizeRun(r.settings, r.tournaments, NothingToDo)
  {
    var r := DistributePrizes(settings, ts, id, now);
    DistributeSentShape(settings, ts, id, now);
    var k := FindIndex(ts, IsTourney(id)).value;
    var marked := Map(ts, MarkDistributed(id));
    assert forall j :: 0 <= j < k ==> !IsTourney(id)(marked[j]);
    FindAt(marked, IsTourney(id), k);
    assert !Eligible(r.tournaments, id);
    DistributeSkips(r.settings, r.tournaments, id, later);
  }

  /** A run that sends offers found the tournament and marked it. */
  lemma DistributeSentShape(settings: Settings, ts: seq<Tournament>, id: string, now: nat)
    requires DistributePrizes(settings, ts, id, now).notice.Sent?
    ensures FindIndex(ts, IsTourney(id)).Some?
    ensures DistributePrizes(settings, ts, id, now).tournaments == Map(ts, MarkDistributed(id))
  {
  }
}
