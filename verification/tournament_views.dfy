/** The customer's tournament screens: the list split into upcoming and
    past tournaments (src/features/tournaments/TournamentList.tsx) and the
    bracket drawn round by round with the admin's winner clicks
    (src/features/tournaments/TournamentBracket.tsx). */
module TournamentViews {
  import opened Base
  import opened Domain
  import opened Tournaments
  import opened AdminTournaments

  // -----------------------------------------------------------------------
  // Tournament list

  function EndedBy(now: int): Tournament -> bool {
    (tr: Tournament) => tr.end <= now
  }

  function NegStart(tr: Tournament): int {
    -tr.start
  }

  /** `upcoming`: the same list as the store's running tournaments. */
  function Upcoming(ts: seq<Tournament>, now: int): seq<Tournament> {
    ActiveTournaments(ts, now)
  }

  /** `past`: the finished tournaments, latest start first. */
  function Past(ts: seq<Tournament>, now: int): (r: seq<Tournament>)
    ensures forall tr :: tr in r <==> tr in ts && tr.end <= now
    ensures forall i, j :: 0 <= i < j < |r| ==> r[i].start >= r[j].start
  {
    var f := Filter(ts, EndedBy(now));
    var r := SortBy(f, NegStart);
    assert forall i, j :: 0 <= i < j < |r| ==> NegStart(r[i]) <= NegStart(r[j]);
    SameMembers(r, f);
    r
  }

  /** Every tournament lands in exactly one of the two lists, as often as
      it occurs in the store. */
  lemma ListsPartition(ts: seq<Tournament>, now: int)
    ensures multiset(Upcoming(ts, now)) + multiset(Past(ts, now)) == multiset(ts)
    ensures forall tr :: tr in ts ==> (tr in Upcoming(ts, now) <==> tr !in Past(ts, now))
  {
    FilterComplement(ts, EndsAfter(now), EndedBy(now));
    var f := Filter(ts, EndedBy(now));
    assert multiset(Past(ts, now)) == multiset(f) by {
      assert multiset(SortBy(f, NegStart)) == multiset(f);
    }
  }

  datatype StatusLabel = RegistrationOpen | InProgress | CompletedLabel

  /** The badge text key of a tournament card. */
  function Label(s: Status): (l: StatusLabel)
    ensures l == RegistrationOpen <==> s == Open
    ensures l == InProgress <==> s == Active
    ensures l == CompletedLabel <==> s == Completed
  {
    match s
    case Open => RegistrationOpen
    case Active => InProgress
    case Completed => CompletedLabel
  }

  // -----------------------------------------------------------------------
  // Bracket columns

  predicate Increasing(s: seq<int>) {
    forall i, j :: 0 <= i < j < |s| ==> s[i] < s[j]
  }

  /** Adds a key to an increasing list unless it is already there. */
  function InsertKey(s: seq<int>, x: int): (r: seq<int>)
    requires Increasing(s)
    ensures Increasing(r)
    ensures forall y :: y in r <==> y in s || y == x
  {
    if |s| == 0 then [x]
    else if x < s[0] then [x] + s
    else if x == s[0] then s
    else
      var t := InsertKey(s[1..], x);
      assert forall k :: 0 <= k < |t| ==> t[k] in s[1..] || t[k] == x;
      [s[0]] + t
  }

  /** `Object.keys(rounds).map(Number).sort((a, b) => a - b)`: the distinct
      keys in ascending order. */
  function SortedKeys(xs: seq<int>): (r: seq<int>)
    ensures Increasing(r)
    ensures forall y :: y in r <==> y in xs
    decreases |xs|
  {
    if |xs| == 0 then []
    else
      var last := |xs| - 1;
      assert xs == xs[..last] + [xs[last]];
      InsertKey(SortedKeys(xs[..last]), xs[last])
  }

  function RoundOf(m: Match): int {
    m.round
  }

  function IndexOf(m: Match): int {
    m.matchIndex
  }

  function InRound(round: int): Match -> bool {
    (m: Match) => m.round == round
  }

  /** One column of the bracket: a round and its matches. */
  datatype Column = Column(round: int, matches: seq<Match>)

  function ColumnFor(matches: seq<Match>): int -> Column {
    (k: int) => Column(k, SortBy(Filter(matches, InRound(k)), IndexOf))
  }

  /** The `rounds` record and `roundIndices`: one column per round present,
      rounds ascending. */
  function Columns(matches: seq<Match>): (r: seq<Column>)
    ensures forall i, j :: 0 <= i < j < |r| ==> r[i].round < r[j].round
    ensures forall k :: 0 <= k < |r| ==> r[k].round in Map(matches, RoundOf)
  {
    var keys := SortedKeys(Map(matches, RoundOf));
    var r := Map(keys, ColumnFor(matches));
    assert forall k :: 0 <= k < |r| ==> r[k].round == keys[k];
    r
  }

  lemma ColumnAt(matches: seq<Match>, k: nat)
    requires k < |Columns(matches)|
    ensures var c := Columns(matches)[k];
      c.matches == SortBy(Filter(matches, InRound(c.round)), IndexOf)
  {
    var keys := SortedKeys(Map(matches, RoundOf));
    assert Columns(matches)[k] == ColumnFor(matches)(keys[k]);
  }

  /** Each column holds its round's matches, by ascending `matchIndex`. */
  lemma ColumnContents(matches: seq<Match>, k: nat)
    requires k < |Columns(matches)|
    ensures var c := Columns(matches)[k];
      && multiset(c.matches) == multiset(Filter(matches, InRound(c.round)))
      && forall a, b :: 0 <= a < b < |c.matches| ==> c.matches[a].matchIndex <= c.matches[b].matchIndex
  {
    ColumnAt(matches, k);
    var c := Columns(matches)[k];
    assert SortedBy(c.matches, IndexOf);
    assert forall a, b :: 0 <= a < b < |c.matches| ==> IndexOf(c.matches[a]) <= IndexOf(c.matches[b]);
  }

  /** A column only holds matches of its own round. */
  lemma ColumnOfMatch(matches: seq<Match>, m: Match, k: nat)
    requires k < |Columns(matches)| && m in Columns(matches)[k].matches
    ensures Columns(matches)[k].round == m.round
  {
    var c := Columns(matches)[k];
    ColumnContents(matches, k);
    assert m in multiset(c.matches);
    assert m in Filter(matches, InRound(c.round));
  }

  /** Every round of a match has a column. */
  lemma RoundHasColumn(matches: seq<Match>, y: int)
    requires y in Map(matches, RoundOf)
    ensures exists k :: 0 <= k < |Columns(matches)| && Columns(matches)[k].round == y
  {
    var keys := SortedKeys(Map(matches, RoundOf));
    var k :| 0 <= k < |keys| && keys[k] == y;
    assert Columns(matches)[k] == ColumnFor(matches)(keys[k]);
  }

  /** A match appears in the column of its round. */
  lemma MatchHasColumn(matches: seq<Match>, m: Match)
    requires m in matches
    ensures var cs := Columns(matches);
      exists k :: 0 <= k < |cs| && cs[k].round == m.round && m in cs[k].matches
  {
    var cs := Columns(matches);
    var i :| 0 <= i < |matches| && matches[i] == m;
    var rounds := Map(matches, RoundOf);
    assert rounds[i] == m.round;
    RoundHasColumn(matches, m.round);
    var k :| 0 <= k < |cs| && cs[k].round == m.round;
    ColumnContents(matches, k);
    var f := Filter(matches, InRound(m.round));
    assert m in f;
    assert m in multiset(f);
    assert m in multiset(cs[k].matches);
  }

  /** Each match is drawn in exactly one column, the one of its round. */
  lemma EachMatchOnce(matches: seq<Match>, m: Match)
    requires m in matches
    ensures var cs := Columns(matches);
      && (exists k :: 0 <= k < |cs| && cs[k].round == m.round && m in cs[k].matches)
      && forall k :: 0 <= k < |cs| && m in cs[k].matches ==> cs[k].round == m.round
  {
    MatchHasColumn(matches, m);
    forall k | 0 <= k < |Columns(matches)| && m in Columns(matches)[k].matches
      ensures Columns(matches)[k].round == m.round
    {
      ColumnOfMatch(matches, m, k);
    }
  }

  // -----------------------------------------------------------------------
  // Names, clicks and hints

  function HasParticipantId(id: string): Participant -> bool {
    (p: Participant) => p.id == id
  }

  /** `getParticipantName`: "TBD" for a missing id, "Unknown" for an id no
      participant has and for a participant with an empty name. */
  function ParticipantName(participants: seq<Participant>, id: Option<string>): (r: string)
    ensures !Truthy(id) ==> r == "TBD"
    ensures Truthy(id) && (forall i :: 0 <= i < |participants| ==> participants[i].id != id.value) ==> r == "Unknown"
    ensures r != "TBD" && r != "Unknown" ==>
      exists i :: 0 <= i < |participants| && participants[i].id == id.value && participants[i].name == r
    ensures forall k ::
      (Truthy(id) && 0 <= k < |participants| && participants[k].id == id.value &&
       forall j :: 0 <= j < k ==> participants[j].id != id.value) ==>
      r == (if participants[k].name == "" then "Unknown" else participants[k].name)
  {
    if !Truthy(id) then "TBD"
    else
      var found := FindIndex(participants, HasParticipantId(id.value));
      match found
      case None => "Unknown"
      case Some(k) =>
        FindAt(participants, HasParticipantId(id.value), k);
        var p := participants[k];
        if p.name == "" then "Unknown" else p.name
  }

  /** A team that has just registered is shown under its team name (or
      the user's name), as long as its clock-based id is new. */
  lemma RegisteredTeamShown(tr: Tournament, user: User, teamName: string, now: nat)
    requires !Registered(tr, user.id)
    requires forall k :: 0 <= k < |tr.participants| ==> tr.participants[k].id != EntryId(now)
    ensures var name := if teamName != "" then teamName else user.name;
      ParticipantName(Toggle(tr, user, teamName, now).participants, Some(EntryId(now)))
        == if name == "" then "Unknown" else name
  {
    var ps := Toggle(tr, user, teamName, now).participants;
    var k := |tr.participants|;
    assert ps[k].id == EntryId(now);
    assert forall j :: 0 <= j < k ==> ps[j].id == tr.participants[j].id;
  }

  datatype Side = P1 | P2

  function SideId(m: Match, side: Side): Option<string> {
    if side == P1 then m.p1Id else m.p2Id
  }

  /** A click on a player row: honoured for an admin once both players are
      known, asking to advance that row's player. */
  function Click(isAdmin: bool, m: Match, side: Side): (r: Option<(string, string)>)
    ensures r.Some? <==> isAdmin && Truthy(m.p1Id) && Truthy(m.p2Id)
    ensures r.Some? ==> r.value.0 == m.id && Some(r.value.1) == SideId(m, side)
  {
    if isAdmin && Truthy(m.p1Id) && Truthy(m.p2Id) then Some((m.id, SideId(m, side).value))
    else None
  }

  /** An honoured click makes the clicked player the match's winner. */
  lemma ClickedPlayerWins(tr: Tournament, i: nat, side: Side)
    requires i < |tr.matches|
    requires forall k :: 0 <= k < i ==> tr.matches[k].id != tr.matches[i].id
    requires Click(true, tr.matches[i], side).Some?
    ensures var c := Click(true, tr.matches[i], side).value;
      Advance(tr, c.0, c.1).matches[i].winnerId == SideId(tr.matches[i], side)
  {
    var c := Click(true, tr.matches[i], side).value;
    AdvanceScope(tr, c.0, c.1, i);
  }

  /** The "Pick Winner" hint. */
  predicate PickWinnerHint(isAdmin: bool, m: Match) {
    isAdmin && !Truthy(m.winnerId) && Truthy(m.p1Id) && Truthy(m.p2Id)
  }

  /** Where the hint shows, both rows accept a click. */
  lemma HintMeansClickable(isAdmin: bool, m: Match)
    requires PickWinnerHint(isAdmin, m)
    ensures Click(isAdmin, m, P1).Some? && Click(isAdmin, m, P2).Some?
  {
  }

  /** The winner highlight of a row, as written: `winnerId === pNId`. */
  predicate HighlightedAsWritten(m: Match, side: Side) {
    m.winnerId == SideId(m, side)
  }

  /** A match still waiting for both players, with no winner, highlights
      both empty rows as winners. */
  lemma PendingMatchHighlighted(m: Match)
    requires m.p1Id.None? && m.p2Id.None? && m.winnerId.None?
    ensures HighlightedAsWritten(m, P1) && HighlightedAsWritten(m, P2)
  {
  }

  /** The highlight as evidently intended: only a decided match marks the
      row of its winner. */
  predicate Highlighted(m: Match, side: Side) {
    Truthy(m.winnerId) && m.winnerId == SideId(m, side)
  }

  /** An undecided match highlights nothing, and a decided one with two
      different players highlights exactly one row. */
  lemma HighlightOnlyWinner(m: Match)
    ensures !Truthy(m.winnerId) ==> !Highlighted(m, P1) && !Highlighted(m, P2)
    ensures Truthy(m.winnerId) && m.p1Id != m.p2Id && (m.winnerId == m.p1Id || m.winnerId == m.p2Id) ==>
      (Highlighted(m, P1) <==> !Highlighted(m, P2))
  {
  }
}
