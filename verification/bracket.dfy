/** Single-elimination bracket generation (src/shared/utils/tournament.ts,
    `generateBracket`): the bracket size, the standard seeding order, the
    placement of players and byes, the match tree and the one pass that
    moves bye winners into the second round.

    A bracket of `2^K` slots has `K` rounds; round `r` holds `2^(K-r-1)`
    matches. The random shuffle used when nobody is seeded is a parameter:
    any arrangement of the participants. */
module Bracket {
  import opened Base
  import opened Domain
  import opened Text

  function Pow2(k: nat): (r: nat)
    ensures r >= 1
  {
    if k == 0 then 1 else 2 * Pow2(k - 1)
  }

  lemma {:induction false} Pow2Monotone(a: nat, b: nat)
    requires a <= b
    ensures Pow2(a) <= Pow2(b)
    decreases b
  {
    if a < b {
      Pow2Monotone(a, b - 1);
    }
  }

  // -----------------------------------------------------------------------
  // Bracket size

  /** `while (size < count) size *= 2`, continued from `size == 2^k`; the
      result is the final exponent. */
  function Doubling(k: nat, count: int): (r: nat)
    requires k >= 1
    ensures r >= k && Pow2(r) >= count
    ensures r == k || Pow2(r - 1) < count
    decreases if Pow2(k) < count then count - Pow2(k) else 0
  {
    if Pow2(k) < count then Doubling(k + 1, count) else k
  }

  /** `Math.log2(size)` for the size the loop reaches from 2. */
  function RoundCount(count: int): (k: nat)
    ensures k >= 1
  {
    Doubling(1, count)
  }

  function BracketSize(count: int): nat {
    Pow2(RoundCount(count))
  }

  /** The bracket size is the least power of two that is at least 2 and at
      least the number of participants. */
  lemma BracketSizeLeast(count: int, k: nat)
    ensures BracketSize(count) >= 2 && BracketSize(count) >= count
    ensures k >= 1 && Pow2(k) >= count ==> BracketSize(count) <= Pow2(k)
  {
    var r := RoundCount(count);
    Pow2Monotone(1, r);
    if k >= 1 && Pow2(k) >= count {
      if r > 1 && r - 1 >= k {
        Pow2Monotone(k, r - 1);
      }
      Pow2Monotone(r, if r <= k then k else r);
    }
  }

  // -----------------------------------------------------------------------
  // Seeding order

  /** The inner loop of `getSeedingOrder(n)`: each seed of the half-size
      order followed by its mirror `n + 1 - seed`. */
  function Interleave(prev: seq<int>, n: int): (r: seq<int>)
    ensures |r| == 2 * |prev|
  {
    if |prev| == 0 then [] else [prev[0], n + 1 - prev[0]] + Interleave(prev[1..], n)
  }

  /** Seed `i` of the half-size order lands at position `2i`, its mirror
      right after it. */
  lemma {:induction false} InterleavePairs(prev: seq<int>, n: int)
    ensures var r := Interleave(prev, n);
      forall i :: 0 <= i < |prev| ==> r[2 * i] == prev[i] && r[2 * i + 1] == n + 1 - prev[i]
  {
    if |prev| > 0 {
      var r, rest := Interleave(prev, n), Interleave(prev[1..], n);
      InterleavePairs(prev[1..], n);
      assert forall i :: 1 <= i < |prev| ==> r[2 * i] == rest[2 * (i - 1)] && r[2 * i + 1] == rest[2 * (i - 1) + 1];
    }
  }

  /** `getSeedingOrder(2^k)`. */
  function SeedOrder(k: nat): seq<int>
    requires k >= 1
  {
    if k == 1 then [1, 2] else Interleave(SeedOrder(k - 1), Pow2(k))
  }

  lemma {:induction false} SeedOrderLength(k: nat)
    requires k >= 1
    ensures |SeedOrder(k)| == Pow2(k)
  {
    if k > 1 {
      SeedOrderLength(k - 1);
    }
  }

  /** `getSeedingOrder(2^k)` arranges the seeds `1..2^k`, each once, starting
      with the top seed, and every first-round pair adds up to `2^k + 1`
      (1 meets `2^k`, 2 meets `2^k - 1`, and so on). */
  lemma {:induction false} SeedOrderFacts(k: nat)
    requires k >= 1
    ensures var r := SeedOrder(k);
      && |r| == Pow2(k)
      && (forall i :: 0 <= i < |r| ==> 1 <= r[i] <= Pow2(k))
      && (forall i, j :: 0 <= i < j < |r| ==> r[i] != r[j])
      && r[0] == 1
      && (forall i :: 0 <= i < Pow2(k - 1) ==> r[2 * i] + r[2 * i + 1] == Pow2(k) + 1)
  {
    if k > 1 {
      var prev := SeedOrder(k - 1);
      SeedOrderFacts(k - 1);
      assert Pow2(k) == 2 * Pow2(k - 1);
      InterleaveRange(prev, Pow2(k - 1), Pow2(k));
      InterleavePairs(prev, Pow2(k));
    }
  }

  /** Position `i` of the interleaving. */
  lemma InterleaveAt(prev: seq<int>, n: int, i: nat)
    requires i < 2 * |prev|
    ensures Interleave(prev, n)[i] == if i % 2 == 0 then prev[i / 2] else n + 1 - prev[i / 2]
  {
    Halves(i);
    InterleavePairs(prev, n);
    var a := i / 2;
    if i % 2 == 0 {
      assert Interleave(prev, n)[2 * a] == prev[a];
    } else {
      assert Interleave(prev, n)[2 * a + 1] == n + 1 - prev[a];
    }
  }

  /** Interleaving an arrangement of `1..m` with its mirror gives an
      arrangement of `1..2m`: the seeds at even positions are at most `m`,
      those at odd positions above it. */
  lemma InterleaveRange(prev: seq<int>, m: int, n: int)
    requires n == 2 * m
    requires forall i :: 0 <= i < |prev| ==> 1 <= prev[i] <= m
    requires forall i, j :: 0 <= i < j < |prev| ==> prev[i] != prev[j]
    ensures forall i :: 0 <= i < |Interleave(prev, n)| ==> 1 <= Interleave(prev, n)[i] <= n
    ensures forall i, j :: 0 <= i < j < |Interleave(prev, n)| ==> Interleave(prev, n)[i] != Interleave(prev, n)[j]
  {
    var r := Interleave(prev, n);
    forall i | 0 <= i < |r|
      ensures 1 <= r[i] <= n
      ensures r[i] <= m <==> i % 2 == 0
    {
      InterleaveAt(prev, n, i);
    }
    forall i, j | 0 <= i < j < |r|
      ensures r[i] != r[j]
    {
      InterleaveAt(prev, n, i);
      InterleaveAt(prev, n, j);
      Halves(i);
      Halves(j);
      if i % 2 == j % 2 {
        assert i / 2 < j / 2;
      }
    }
  }

  lemma Halves(i: int)
    ensures i == 2 * (i / 2) + i % 2 && 0 <= i % 2 < 2
  {
  }

  function Below(s: seq<int>, c: int): nat {
    Count(s, (v: int) => v <= c)
  }

  function Clamp(c: int, n: nat): int {
    if c < 0 then 0 else if c > n then n else c
  }

  function MirrorBelow(s: seq<int>, n: int, c: int): nat {
    Count(s, (v: int) => n + 1 - v <= c)
  }

  lemma BelowCons(s: seq<int>, c: int)
    requires |s| > 0
    ensures Below(s, c) == (if s[0] <= c then 1 else 0) + Below(s[1..], c)
  {
    CountCons(s, (v: int) => v <= c);
  }

  lemma MirrorCons(s: seq<int>, n: int, c: int)
    requires |s| > 0
    ensures MirrorBelow(s, n, c) == (if n + 1 - s[0] <= c then 1 else 0) + MirrorBelow(s[1..], n, c)
  {
    CountCons(s, (v: int) => n + 1 - v <= c);
  }

  /** A seed's mirror is at most `c` exactly when the seed is above `n - c`. */
  lemma {:induction false} MirrorComplement(s: seq<int>, n: int, c: int, d: int)
    requires d == n - c
    ensures MirrorBelow(s, n, c) + Below(s, d) == |s|
  {
    if |s| > 0 {
      MirrorCons(s, n, c);
      BelowCons(s, d);
      MirrorComplement(s[1..], n, c, d);
    }
  }

  lemma {:induction false} InterleaveBelow(prev: seq<int>, n: int, c: int)
    ensures Below(Interleave(prev, n), c) == Below(prev, c) + MirrorBelow(prev, n, c)
  {
    if |prev| > 0 {
      var x := Interleave(prev, n);
      assert x[1..][1..] == Interleave(prev[1..], n);
      BelowCons(x, c);
      BelowCons(x[1..], c);
      BelowCons(prev, c);
      MirrorCons(prev, n, c);
      InterleaveBelow(prev[1..], n, c);
    }
  }

  /** How many seeds of `getSeedingOrder(2^k)` are at most `c`: exactly
      `c`, clamped to `0..2^k`. In particular the order holds each of
      `1..2^k` once. */
  lemma {:induction false} SeedsBelow(k: nat, c: int)
    requires k >= 1
    ensures Below(SeedOrder(k), c) == Clamp(c, Pow2(k))
    decreases k
  {
    if k == 1 {
      SeedsBelowOne(c);
    } else {
      var prev := SeedOrder(k - 1);
      var d := Pow2(k) - c;
      assert |prev| == Pow2(k - 1) by {
        SeedOrderLength(k - 1);
      }
      assert Pow2(k) == 2 * Pow2(k - 1);
      assert Below(prev, c) == Clamp(c, Pow2(k - 1)) by {
        SeedsBelow(k - 1, c);
      }
      assert Below(prev, d) == Clamp(d, Pow2(k - 1)) by {
        SeedsBelow(k - 1, d);
      }
      SeedsBelowStep(k, c);
    }
  }

  lemma SeedsBelowOne(c: int)
    ensures Below(SeedOrder(1), c) == Clamp(c, Pow2(1))
  {
    var s := SeedOrder(1);
    assert s == [1, 2] && Pow2(1) == 2;
    BelowCons(s, c);
    BelowCons(s[1..], c);
    assert Below(s[1..][1..], c) == 0;
  }

  lemma SeedsBelowStep(k: nat, c: int)
    requires k >= 2
    requires |SeedOrder(k - 1)| == Pow2(k - 1)
    requires Pow2(k) == 2 * Pow2(k - 1)
    requires Below(SeedOrder(k - 1), c) == Clamp(c, Pow2(k - 1))
    requires Below(SeedOrder(k - 1), Pow2(k) - c) == Clamp(Pow2(k) - c, Pow2(k - 1))
    ensures Below(SeedOrder(k), c) == Clamp(c, Pow2(k))
  {
    InterleaveClamp(SeedOrder(k - 1), Pow2(k - 1), Pow2(k), c);
  }

  /** Interleaving an order whose prefix counts are clamped keeps them
      clamped, at twice the size. */
  lemma InterleaveClamp(prev: seq<int>, m: nat, n: int, c: int)
    requires n == 2 * m && |prev| == m
    requires Below(prev, c) == Clamp(c, m)
    requires Below(prev, n - c) == Clamp(n - c, m)
    ensures Below(Interleave(prev, n), c) == Clamp(c, n)
  {
    var lo, hi, mirror := Below(prev, c), Below(prev, n - c), MirrorBelow(prev, n, c);
    assert Below(Interleave(prev, n), c) == lo + mirror by {
      InterleaveBelow(prev, n, c);
    }
    assert mirror + hi == m by {
      MirrorComplement(prev, n, c, n - c);
    }
    ClampHalves(c, m, n);
  }

  lemma ClampHalves(c: int, m: nat, n: nat)
    requires n == 2 * m
    ensures Clamp(c, m) + m - Clamp(n - c, m) == Clamp(c, n)
  {
  }

  /** Seed `v` of `1..2^k` occurs exactly once in the order. */
  lemma SeedOnce(k: nat, v: int)
    requires k >= 1 && 1 <= v <= Pow2(k)
    ensures Equal(SeedOrder(k), v) == 1
  {
    var s := SeedOrder(k);
    SeedsBelow(k, v);
    SeedsBelow(k, v - 1);
    CountSplitBelow(s, v);
  }

  function Equal(s: seq<int>, v: int): nat {
    Count(s, (x: int) => x == v)
  }

  lemma {:induction false} CountSplitBelow(s: seq<int>, v: int)
    ensures Below(s, v) == Below(s, v - 1) + Equal(s, v)
  {
    if |s| > 0 {
      BelowCons(s, v);
      BelowCons(s, v - 1);
      CountCons(s, (x: int) => x == v);
      CountSplitBelow(s[1..], v);
    }
  }

  // -----------------------------------------------------------------------
  // Players and slots

  /** A seed is truthy when present and non-zero. */
  predicate HasSeed(p: Participant) {
    p.seed.Some? && p.seed.value != 0
  }

  /** `a.seed ?? 999`. */
  function SeedKey(p: Participant): int {
    if p.seed.Some? then p.seed.value else 999
  }

  /** Players by ascending seed (a stable sort) when anyone has a truthy
      seed; otherwise the shuffled arrangement. */
  function OrderPlayers(participants: seq<Participant>, shuffled: seq<Participant>): (r: seq<Participant>)
    requires multiset(shuffled) == multiset(participants)
    ensures multiset(r) == multiset(participants)
    ensures Exists(participants, HasSeed) ==> forall i, j :: 0 <= i < j < |r| ==> SeedKey(r[i]) <= SeedKey(r[j])
    ensures !Exists(participants, HasSeed) ==> r == shuffled
  {
    if Exists(participants, HasSeed) then SortBy(participants, SeedKey) else shuffled
  }

  /** `bracketSlots`: slot `i` holds the player ranked `order[i]`, or a bye
      when there are fewer players than that. (Seeds are never below 1; the
      lower bound only keeps the index in range.) */
  function SlotsOf(players: seq<Participant>, order: seq<int>): (r: seq<Option<Participant>>)
    ensures |r| == |order|
  {
    seq(|order|, i requires 0 <= i < |order| =>
      if 1 <= order[i] <= |players| then Some(players[order[i] - 1]) else None)
  }

  function Filled(slots: seq<Option<Participant>>): nat {
    Count(slots, (s: Option<Participant>) => s.Some?)
  }

  /** With no more players than slots, exactly as many slots hold a player
      as there are players; the rest are byes. */
  lemma ByeCount(players: seq<Participant>, k: nat)
    requires k >= 1 && |players| <= Pow2(k)
    ensures Filled(SlotsOf(players, SeedOrder(k))) == |players|
    ensures Filled(SlotsOf(players, SeedOrder(k))) + (Pow2(k) - |players|) == Pow2(k)
  {
    var order := SeedOrder(k);
    var slots := SlotsOf(players, order);
    SeedOrderFacts(k);
    CountTransfer(slots, (s: Option<Participant>) => s.Some?, order, (v: int) => v <= |players|);
    SeedsBelow(k, |players|);
  }

  /** Each player sits in exactly one slot. */
  lemma PlayerPlacedOnce(players: seq<Participant>, k: nat, j: nat)
    requires k >= 1 && |players| <= Pow2(k) && j < |players|
    ensures Equal(SeedOrder(k), j + 1) == 1
    ensures forall i :: 0 <= i < |SeedOrder(k)| && SeedOrder(k)[i] == j + 1 ==>
              SlotsOf(players, SeedOrder(k))[i] == Some(players[j])
  {
    SeedOnce(k, j + 1);
    SeedOrderFacts(k);
  }

  // -----------------------------------------------------------------------
  // The match tree

  /** `match-${r}-${m}`. */
  function MatchId(r: nat, m: nat): string {
    "match-" + NatToString(r) + "-" + NatToString(m)
  }

  lemma MatchIdSplit(r: nat, m: nat)
    ensures Split(MatchId(r, m), '-') == ["match", NatToString(r), NatToString(m)]
  {
    var a, b := NatToString(r), NatToString(m);
    DigitsHaveNoDash(a);
    DigitsHaveNoDash(b);
    assert MatchId(r, m) == "match" + ['-'] + a + ['-'] + b;
    SplitThree("match", a, b, '-');
  }

  /** Distinct (round, index) pairs get distinct ids. */
  lemma MatchIdInjective(r1: nat, m1: nat, r2: nat, m2: nat)
    ensures MatchId(r1, m1) == MatchId(r2, m2) <==> r1 == r2 && m1 == m2
  {
    if MatchId(r1, m1) == MatchId(r2, m2) {
      MatchIdSplit(r1, m1);
      MatchIdSplit(r2, m2);
      assert NatToString(r1) == NatToString(r2) && NatToString(m1) == NatToString(m2);
      ParseNatToString(r1);
      ParseNatToString(r2);
      ParseNatToString(m1);
      ParseNatToString(m2);
    }
  }

  /** Match `m` of round `r` as the generation loop creates it in a bracket
      of `K` rounds: no players and no winner yet, and wired to match
      `m / 2` of the next round unless `r` is the final round. */
  function SkeletonMatch(K: nat, r: nat, m: nat): Match {
    Match(MatchId(r, m), r, m, None, None, None,
      if r == K - 1 then None else Some(MatchId(r + 1, m / 2)))
  }

  /** The inner loop for round `r`: `size / 2^(r+1)` matches. */
  function RoundMatches(K: nat, r: nat): (ms: seq<Match>)
    requires r < K
  {
    seq(Pow2(K - r - 1), m requires 0 <= m < Pow2(K - r - 1) => SkeletonMatch(K, r, m))
  }

  /** The outer loop from round `r` on. */
  function Skeleton(K: nat, r: nat): seq<Match>
    requires r <= K
    decreases K - r
  {
    if r == K then [] else RoundMatches(K, r) + Skeleton(K, r + 1)
  }

  /** Position `i` of the matches generated from round `r0` on holds match
      `e.matchIndex` of round `e.round`, at offset
      `2^(K-r0) - 2^(K-e.round)` plus its index. */
  ghost predicate PlacedAt(K: nat, r0: nat, i: int, e: Match) {
    && r0 <= e.round < K
    && 0 <= e.matchIndex < Pow2(K - e.round - 1)
    && e == SkeletonMatch(K, e.round, e.matchIndex)
    && i == Pow2(K - r0) - Pow2(K - e.round) + e.matchIndex
  }

  /** The rounds from `r0` on hold `2^(K-r0) - 1` matches, each in its
      place. */
  lemma {:induction false} SkeletonShape(K: nat, r0: nat)
    requires r0 <= K
    ensures |Skeleton(K, r0)| == Pow2(K - r0) - 1
    ensures forall i :: 0 <= i < |Skeleton(K, r0)| ==> PlacedAt(K, r0, i, Skeleton(K, r0)[i])
    decreases K - r0
  {
    if r0 < K {
      var h, head, tail := Pow2(K - r0 - 1), RoundMatches(K, r0), Skeleton(K, r0 + 1);
      assert Pow2(K - r0) == 2 * h;
      SkeletonShape(K, r0 + 1);
      forall i | 0 <= i < |head| + |tail|
        ensures PlacedAt(K, r0, i, (head + tail)[i])
      {
        if i < |head| {
          assert (head + tail)[i] == SkeletonMatch(K, r0, i);
        } else {
          assert (head + tail)[i] == tail[i - h];
          PlacedShift(K, r0, i, tail[i - h], h);
        }
      }
    }
  }

  lemma PlacedShift(K: nat, r0: nat, i: int, e: Match, h: nat)
    requires r0 < K && h == Pow2(K - r0 - 1) && Pow2(K - r0) == 2 * h
    requires PlacedAt(K, r0 + 1, i - h, e)
    ensures PlacedAt(K, r0, i, e)
  {
  }

  lemma {:induction false} SkeletonLength(K: nat, r0: nat)
    requires r0 <= K
    ensures |Skeleton(K, r0)| == Pow2(K - r0) - 1
    decreases K - r0
  {
    if r0 < K {
      SkeletonLength(K, r0 + 1);
    }
  }

  lemma SkeletonHead(K: nat, r0: nat, m: nat)
    requires r0 < K && m < Pow2(K - r0 - 1)
    ensures m < |Skeleton(K, r0)| && Skeleton(K, r0)[m] == SkeletonMatch(K, r0, m)
  {
    assert Skeleton(K, r0) == RoundMatches(K, r0) + Skeleton(K, r0 + 1);
  }

  lemma SkeletonTail(K: nat, r0: nat, j: nat)
    requires r0 < K && j < |Skeleton(K, r0 + 1)|
    ensures Pow2(K - r0 - 1) + j < |Skeleton(K, r0)|
    ensures Skeleton(K, r0)[Pow2(K - r0 - 1) + j] == Skeleton(K, r0 + 1)[j]
  {
    assert Skeleton(K, r0) == RoundMatches(K, r0) + Skeleton(K, r0 + 1);
  }

  /** Where round `r` starts among the matches generated from round `r0`
      on. */
  function Offset(K: nat, r0: nat, r: nat): int
    requires r0 <= r <= K
  {
    Pow2(K - r0) - Pow2(K - r)
  }

  lemma OffsetStep(K: nat, r0: nat, r: nat)
    requires r0 < r <= K
    ensures Offset(K, r0, r) == Pow2(K - r0 - 1) + Offset(K, r0 + 1, r)
  {
    assert Pow2(K - r0) == 2 * Pow2(K - r0 - 1);
  }

  /** Conversely, every match of every round from `r0` on is generated, at
      its place. */
  lemma {:induction false} SkeletonAt(K: nat, r0: nat, r: nat, m: nat)
    requires r0 <= r < K && m < Pow2(K - r - 1)
    ensures 0 <= Offset(K, r0, r) + m < |Skeleton(K, r0)|
    ensures Skeleton(K, r0)[Offset(K, r0, r) + m] == SkeletonMatch(K, r, m)
    decreases r - r0
  {
    if r == r0 {
      SkeletonHead(K, r0, m);
    } else {
      var j := Offset(K, r0 + 1, r) + m;
      SkeletonAt(K, r0 + 1, r, m);
      SkeletonTail(K, r0, j);
      OffsetStep(K, r0, r);
    }
  }

  /** `generateBracket`'s match list before any player is placed. */
  function Wiring(K: nat): seq<Match> {
    Skeleton(K, 0)
  }

  lemma PlacedDistinct(K: nat, i: int, j: int, a: Match, b: Match)
    requires PlacedAt(K, 0, i, a) && PlacedAt(K, 0, j, b) && i != j
    ensures a.id != b.id
  {
    MatchIdInjective(a.round, a.matchIndex, b.round, b.matchIndex);
  }

  /** The list holds `size - 1` matches with pairwise distinct ids. */
  lemma WiringIdsDistinct(K: nat)
    ensures |Wiring(K)| == Pow2(K) - 1
    ensures forall i, j :: 0 <= i < j < |Wiring(K)| ==> Wiring(K)[i].id != Wiring(K)[j].id
  {
    var w := Wiring(K);
    assert |w| == Pow2(K) - 1 && forall i :: 0 <= i < |w| ==> PlacedAt(K, 0, i, w[i]) by {
      SkeletonShape(K, 0);
    }
    forall i, j | 0 <= i < j < |w|
      ensures w[i].id != w[j].id
    {
      PlacedDistinct(K, i, j, w[i], w[j]);
    }
  }

  /** The first `size / 2` matches are exactly those of round 0; match `x`
      of round 0 is the `x`-th of the list. */
  lemma WiringRoundZero(K: nat)
    requires K >= 1
    ensures forall i :: 0 <= i < |Wiring(K)| ==> (Wiring(K)[i].round == 0 <==> i < Pow2(K - 1))
    ensures forall i :: 0 <= i < Pow2(K - 1) && i < |Wiring(K)| ==> Wiring(K)[i] == SkeletonMatch(K, 0, i)
  {
    var w := Wiring(K);
    assert forall i :: 0 <= i < |w| ==> PlacedAt(K, 0, i, w[i]) by {
      SkeletonShape(K, 0);
    }
    forall i | 0 <= i < |w|
      ensures w[i].round == 0 <==> i < Pow2(K - 1)
      ensures i < Pow2(K - 1) ==> w[i] == SkeletonMatch(K, 0, i)
    {
      PlacedRoundZero(K, i, w[i]);
    }
  }

  lemma PlacedRoundZero(K: nat, i: int, e: Match)
    requires K >= 1 && PlacedAt(K, 0, i, e)
    ensures e.round == 0 <==> i < Pow2(K - 1)
    ensures i < Pow2(K - 1) ==> e == SkeletonMatch(K, 0, i)
  {
    if e.round > 0 {
      Pow2Monotone(K - e.round, K - 1);
    }
  }

  /** Every match outside the final names as its next match one that is in
      the list: match `m / 2` of the following round. The final names
      none. */
  lemma WiringNext(K: nat, r: nat, m: nat)
    requires r < K && m < Pow2(K - r - 1)
    ensures var w, i := Wiring(K), Offset(K, 0, r) + m;
      && 0 <= i < |w| && w[i] == SkeletonMatch(K, r, m)
      && (r == K - 1 <==> w[i].nextMatchId.None?)
    ensures r < K - 1 ==>
      var w, i, j := Wiring(K), Offset(K, 0, r) + m, Offset(K, 0, r + 1) + m / 2;
      && 0 <= j < |w| && Some(w[j].id) == w[i].nextMatchId
      && w[j].round == r + 1 && w[j].matchIndex == m / 2
  {
    var w, i := Wiring(K), Offset(K, 0, r) + m;
    SkeletonAt(K, 0, r, m);
    assert w[i] == SkeletonMatch(K, r, m);
    if r < K - 1 {
      var j := Offset(K, 0, r + 1) + m / 2;
      NextIndexInRange(K, r, m);
      SkeletonAt(K, 0, r + 1, m / 2);
      assert w[j] == SkeletonMatch(K, r + 1, m / 2);
    }
  }

  lemma NextIndexInRange(K: nat, r: nat, m: nat)
    requires r < K - 1 && m < Pow2(K - r - 1)
    ensures m / 2 < Pow2(K - (r + 1) - 1)
  {
    assert Pow2(K - r - 1) == 2 * Pow2(K - r - 2);
  }

  // -----------------------------------------------------------------------
  // Round 0 and the bye pass

  /** `bracketSlots[i]?.id ?? null`. */
  function SlotId(slot: Option<Participant>): Option<string> {
    if slot.Some? then Some(slot.value.id) else None
  }

  /** The bye rule: a side wins outright when the other side is empty
      (falsy); with both or neither side present there is no winner yet. */
  function ByeWinner(a: Option<string>, b: Option<string>, current: Option<string>): Option<string> {
    if Truthy(a) && !Truthy(b) then a
    else if !Truthy(a) && Truthy(b) then b
    else current
  }

  /** The "Fill Round 0" loop: the `x`-th match takes slots `2x` and
      `2x + 1`. The round-0 matches are the first `size / 2` of the list
      (WiringRoundZero), so `round0Matches[x]` is the list's `x`-th. */
  function FillRound0(ms: seq<Match>, slots: seq<Option<Participant>>): (r: seq<Match>)
    ensures |r| == |ms|
  {
    seq(|ms|, x requires 0 <= x < |ms| =>
      if 2 * x + 1 < |slots| then
        var a, b := SlotId(slots[2 * x]), SlotId(slots[2 * x + 1]);
        ms[x].(p1Id := a, p2Id := b, winnerId := ByeWinner(a, b, ms[x].winnerId))
      else ms[x])
  }

  /** `(nm) => nm.id === target`. */
  function HasId(target: Option<string>): Match -> bool {
    (nm: Match) => Some(nm.id) == target
  }

  /** One iteration of the auto-advance `forEach`, for the match at
      position `i`: a match with a winner re-resolves its `nextMatchId`
      by lookup and writes the winner into that match, as `p1Id` from an
      even `matchIndex` and as `p2Id` from an odd one. */
  function AdvanceBye(ms: seq<Match>, i: nat): (r: seq<Match>)
    requires i < |ms|
    ensures |r| == |ms|
  {
    var m := ms[i];
    if !Truthy(m.winnerId) then ms
    else
      var found := Find(ms, HasId(m.nextMatchId));
      var next := if found.Some? then Some(found.value.id) else None;
      var ms1 := ms[i := m.(nextMatchId := next)];
      if !Truthy(next) then ms1
      else match FindIndex(ms1, HasId(next))
        case None => ms1
        case Some(j) =>
          if m.matchIndex % 2 == 0 then ms1[j := ms1[j].(p1Id := m.winnerId)]
          else ms1[j := ms1[j].(p2Id := m.winnerId)]
  }

  /** The `forEach` from position `i` on. */
  function AdvanceByes(ms: seq<Match>, i: nat): (r: seq<Match>)
    requires i <= |ms|
    ensures |r| == |ms|
    decreases |ms| - i
  {
    if i == |ms| then ms else AdvanceByes(AdvanceBye(ms, i), i + 1)
  }

  /** The slots `generateBracket` fills from `participants`. */
  function BracketSlots(participants: seq<Participant>, shuffled: seq<Participant>): (r: seq<Option<Participant>>)
    requires multiset(shuffled) == multiset(participants)
    ensures |r| == BracketSize(|participants|)
  {
    SeedOrderLength(RoundCount(|participants|));
    SlotsOf(OrderPlayers(participants, shuffled), SeedOrder(RoundCount(|participants|)))
  }

  /** `generateBracket(participants)`, with `shuffled` standing for the
      random arrangement used when nobody is seeded. */
  function GenerateBracket(participants: seq<Participant>, shuffled: seq<Participant>): (r: seq<Match>)
    requires multiset(shuffled) == multiset(participants)
    ensures |r| == BracketSize(|participants|) - 1
    ensures forall i, j :: 0 <= i < j < |r| ==> r[i].id != r[j].id
  {
    var K := RoundCount(|participants|);
    BuildKeepsIds(K, BracketSlots(participants, shuffled));
    WiringIdsDistinct(K);
    Build(K, BracketSlots(participants, shuffled))
  }

  /** Filling and the bye pass keep every match's id in its place. */
  lemma BuildKeepsIds(K: nat, slots: seq<Option<Participant>>)
    requires K >= 1 && |slots| == Pow2(K)
    ensures |Build(K, slots)| == |Wiring(K)|
    ensures forall x :: 0 <= x < |Wiring(K)| ==> Build(K, slots)[x].id == Wiring(K)[x].id
  {
    BuildIsFullVisit(K, slots);
    FilledKeepsAll(K, slots);
    var f := FillRound0(Wiring(K), slots);
    forall x | 0 <= x < |f|
      ensures AfterVisits(f, Pow2(K - 1), |f|)[x].id == f[x].id
    {
      AfterVisitsKeeps(f, Pow2(K - 1), |f|, x);
    }
  }

  /** The matches for a `2^K`-slot bracket with the given slots: the
      wiring, round 0 filled, then the bye pass. */
  function Build(K: nat, slots: seq<Option<Participant>>): seq<Match> {
    AdvanceByes(FillRound0(Wiring(K), slots), 0)
  }

  /** What the pass relies on in a list whose round 0 takes the first `h`
      positions and whose round 1 takes the next `h / 2`: distinct,
      non-empty ids; round-0 match `x` has index `x` and points at
      position `h + x / 2` (nowhere when round 0 is the final); no match
      after round 0 has a winner. */
  ghost predicate Wired(f: seq<Match>, h: nat) {
    && h >= 1 && (h == 1 || h % 2 == 0) && |f| == 2 * h - 1
    && (forall x, y :: 0 <= x < y < |f| ==> f[x].id != f[y].id)
    && (forall x :: 0 <= x < |f| ==> f[x].id != "")
    && (forall x :: 0 <= x < h ==> f[x].matchIndex == x)
    && (h == 1 ==> f[0].nextMatchId == None)
    && (h >= 2 ==> forall x :: 0 <= x < h ==> f[x].nextMatchId == Some(f[h + x / 2].id))
    && (forall x :: h <= x < |f| ==> f[x].winnerId == None)
  }

  /** The state after the pass has visited the first `i` positions: round-1
      match `j` holds the truthy winners of round-0 matches `2j` and
      `2j + 1` visited so far; nothing else has changed. */
  function AfterVisits(f: seq<Match>, h: nat, i: nat): (r: seq<Match>)
    requires |f| == 2 * h - 1
    ensures |r| == |f|
  {
    seq(|f|, x requires 0 <= x < |f| =>
      if h <= x < h + h / 2 then
        var j := x - h;
        f[x].(p1Id := if 2 * j < i && Truthy(f[2 * j].winnerId) then f[2 * j].winnerId else f[x].p1Id,
              p2Id := if 2 * j + 1 < i && Truthy(f[2 * j + 1].winnerId) then f[2 * j + 1].winnerId else f[x].p2Id)
      else f[x])
  }

  /** The pass only ever writes players: ids, wiring and winners stay. */
  lemma AfterVisitsKeeps(f: seq<Match>, h: nat, i: nat, x: nat)
    requires |f| == 2 * h - 1 && x < |f|
    ensures var e := AfterVisits(f, h, i)[x];
      e.id == f[x].id && e.matchIndex == f[x].matchIndex && e.nextMatchId == f[x].nextMatchId
      && e.winnerId == f[x].winnerId
  {
  }

  lemma AfterVisitsStart(f: seq<Match>, h: nat)
    requires |f| == 2 * h - 1
    ensures AfterVisits(f, h, 0) == f
  {
  }

  /** Visiting a match without a truthy winner changes nothing. */
  lemma VisitNoWinner(f: seq<Match>, h: nat, i: nat)
    requires Wired(f, h) && i < |f| && !Truthy(f[i].winnerId)
    ensures AdvanceBye(AfterVisits(f, h, i), i) == AfterVisits(f, h, i + 1)
  {
    var e, e1 := AfterVisits(f, h, i), AfterVisits(f, h, i + 1);
    AfterVisitsKeeps(f, h, i, i);
    forall x | 0 <= x < |f|
      ensures e[x] == e1[x]
    {
    }
  }

  /** In a one-match bracket the winner has nowhere to go. */
  lemma VisitFinal(f: seq<Match>, h: nat, i: nat)
    requires Wired(f, h) && h == 1 && i < |f|
    ensures AdvanceBye(AfterVisits(f, h, i), i) == AfterVisits(f, h, i + 1)
  {
    var e := AfterVisits(f, h, i);
    assert i == 0 && |e| == 1;
    assert e == f && AfterVisits(f, h, i + 1) == f;
    assert forall j :: 0 <= j < |e| ==> !HasId(None)(e[j]);
    assert Find(e, HasId(None)).None?;
    assert e[0].(nextMatchId := None) == e[0];
  }

  /** Writing winner `w` into position `t`, on the side the parity of the
      sending match names. */
  function Deliver(e: seq<Match>, t: nat, w: Option<string>, even: bool): seq<Match>
    requires t < |e|
  {
    if even then e[t := e[t].(p1Id := w)] else e[t := e[t].(p2Id := w)]
  }

  /** A round-0 winner is written into its round-1 match, on the side its
      parity names. */
  lemma VisitWinner(f: seq<Match>, h: nat, i: nat)
    requires Wired(f, h) && h >= 2 && i < h && Truthy(f[i].winnerId)
    ensures AdvanceBye(AfterVisits(f, h, i), i) == AfterVisits(f, h, i + 1)
  {
    var e := AfterVisits(f, h, i);
    VisitWinnerLookup(f, h, i);
    assert AdvanceBye(e, i) == Deliver(e, h + i / 2, f[i].winnerId, i % 2 == 0);
    VisitWinnerDelivers(f, h, i);
  }

  /** The lookups of the visit find round-1 match `h + i / 2`, and
      re-resolving `nextMatchId` leaves it as it was. */
  lemma VisitWinnerLookup(f: seq<Match>, h: nat, i: nat)
    requires Wired(f, h) && h >= 2 && i < h && Truthy(f[i].winnerId)
    ensures var e, t := AfterVisits(f, h, i), h + i / 2;
      && t < |e| && e[i] == f[i] && e[i].nextMatchId == Some(e[t].id) && Truthy(Some(e[t].id))
      && Find(e, HasId(e[i].nextMatchId)) == Some(e[t])
      && FindIndex(e, HasId(e[i].nextMatchId)) == Some(t)
      && e[i := e[i].(nextMatchId := Some(e[t].id))] == e
  {
    var e, t := AfterVisits(f, h, i), h + i / 2;
    assert e[i] == f[i];
    assert e[t].id == f[t].id by {
      AfterVisitsKeeps(f, h, i, t);
    }
    forall x | 0 <= x < t
      ensures !HasId(Some(f[t].id))(e[x])
    {
      AfterVisitsKeeps(f, h, i, x);
    }
    FindAt(e, HasId(Some(f[t].id)), t);
  }

  lemma VisitWinnerDelivers(f: seq<Match>, h: nat, i: nat)
    requires Wired(f, h) && h >= 2 && i < h && Truthy(f[i].winnerId)
    ensures Deliver(AfterVisits(f, h, i), h + i / 2, f[i].winnerId, i % 2 == 0) == AfterVisits(f, h, i + 1)
  {
    var e, e1 := AfterVisits(f, h, i), AfterVisits(f, h, i + 1);
    var r := Deliver(e, h + i / 2, f[i].winnerId, i % 2 == 0);
    forall x | 0 <= x < |f|
      ensures r[x] == e1[x]
    {
      DeliverAt(f, h, i, x);
    }
  }

  lemma DeliverAt(f: seq<Match>, h: nat, i: nat, x: nat)
    requires |f| == 2 * h - 1 && h >= 2 && h % 2 == 0 && i < h && x < |f| && Truthy(f[i].winnerId)
    ensures Deliver(AfterVisits(f, h, i), h + i / 2, f[i].winnerId, i % 2 == 0)[x] == AfterVisits(f, h, i + 1)[x]
  {
    Halves(i);
    if h <= x < h + h / 2 {
      var j := x - h;
      if x == h + i / 2 {
        assert j == i / 2;
      } else {
        assert 2 * j != i && 2 * j + 1 != i;
      }
    }
  }

  /** The whole pass from position `i` on. */
  lemma {:induction false} VisitAll(f: seq<Match>, h: nat, i: nat)
    requires Wired(f, h) && i <= |f|
    ensures AdvanceByes(AfterVisits(f, h, i), i) == AfterVisits(f, h, |f|)
    decreases |f| - i
  {
    if i < |f| {
      VisitOne(f, h, i);
      VisitAll(f, h, i + 1);
    }
  }

  /** One visit keeps the state equal to `AfterVisits`. */
  lemma VisitOne(f: seq<Match>, h: nat, i: nat)
    requires Wired(f, h) && i < |f|
    ensures AdvanceBye(AfterVisits(f, h, i), i) == AfterVisits(f, h, i + 1)
  {
    if !Truthy(f[i].winnerId) {
      VisitNoWinner(f, h, i);
    } else if h == 1 {
      VisitFinal(f, h, i);
    } else {
      VisitWinner(f, h, i);
    }
  }

  // -----------------------------------------------------------------------
  // The generated bracket

  lemma MatchIdNonEmpty(r: nat, m: nat)
    ensures MatchId(r, m) != ""
  {
    assert MatchId(r, m)[0] == 'm';
  }

  /** Filling changes only players and winners of round 0. */
  lemma FilledAt(K: nat, slots: seq<Option<Participant>>, x: nat)
    requires K >= 1 && |slots| == Pow2(K) && x < |Wiring(K)|
    requires PlacedAt(K, 0, x, Wiring(K)[x])
    ensures var w, f := Wiring(K), FillRound0(Wiring(K), slots);
      && f[x].id == w[x].id && f[x].id != "" && f[x].matchIndex == w[x].matchIndex
      && f[x].nextMatchId == w[x].nextMatchId
      && (x >= Pow2(K - 1) ==> f[x] == w[x] && f[x].winnerId == None)
  {
    var w := Wiring(K);
    MatchIdNonEmpty(w[x].round, w[x].matchIndex);
    assert Pow2(K) == 2 * Pow2(K - 1);
  }

  /** Round-0 match `x` of the filled list points at position
      `size / 2 + x / 2`. */
  lemma FilledNext(K: nat, slots: seq<Option<Participant>>, x: nat)
    requires K >= 2 && |slots| == Pow2(K) && x < Pow2(K - 1)
    ensures var f, h := FillRound0(Wiring(K), slots), Pow2(K - 1);
      h + x / 2 < |f| && f[x].nextMatchId == Some(f[h + x / 2].id)
  {
    var w, h := Wiring(K), Pow2(K - 1);
    assert Pow2(K) == 2 * h;
    WiringNext(K, 0, x);
    assert Offset(K, 0, 0) == 0 && Offset(K, 0, 1) == h;
    var f, j := FillRound0(w, slots), h + x / 2;
    assert f[x].nextMatchId == w[x].nextMatchId;
    assert f[j].id == w[j].id;
  }

  lemma FilledNextAll(K: nat, slots: seq<Option<Participant>>)
    requires K >= 2 && |slots| == Pow2(K)
    ensures var f, h := FillRound0(Wiring(K), slots), Pow2(K - 1);
      forall x :: 0 <= x < h ==> h + x / 2 < |f| && f[x].nextMatchId == Some(f[h + x / 2].id)
  {
    forall x | 0 <= x < Pow2(K - 1)
      ensures var f, h := FillRound0(Wiring(K), slots), Pow2(K - 1);
        h + x / 2 < |f| && f[x].nextMatchId == Some(f[h + x / 2].id)
    {
      FilledNext(K, slots, x);
    }
  }

  lemma FilledKeepsAll(K: nat, slots: seq<Option<Participant>>)
    requires K >= 1 && |slots| == Pow2(K)
    ensures var w, f := Wiring(K), FillRound0(Wiring(K), slots);
      forall x :: 0 <= x < |f| ==>
        && f[x].id == w[x].id && f[x].id != "" && f[x].matchIndex == w[x].matchIndex
        && (x >= Pow2(K - 1) ==> f[x].winnerId == None)
  {
    var w := Wiring(K);
    assert forall x :: 0 <= x < |w| ==> PlacedAt(K, 0, x, w[x]) by {
      SkeletonShape(K, 0);
    }
    forall x | 0 <= x < |w|
      ensures var f := FillRound0(w, slots);
        && f[x].id == w[x].id && f[x].id != "" && f[x].matchIndex == w[x].matchIndex
        && (x >= Pow2(K - 1) ==> f[x].winnerId == None)
    {
      FilledAt(K, slots, x);
    }
  }

  lemma WiredOf(f: seq<Match>, w: seq<Match>, h: nat)
    requires h >= 1 && (h == 1 || h % 2 == 0) && |w| == 2 * h - 1 && |f| == |w|
    requires forall x, y :: 0 <= x < y < |w| ==> w[x].id != w[y].id
    requires forall x :: 0 <= x < h ==> w[x].matchIndex == x
    requires forall x :: 0 <= x < |f| ==>
        && f[x].id == w[x].id && f[x].id != "" && f[x].matchIndex == w[x].matchIndex
        && (x >= h ==> f[x].winnerId == None)
    requires h == 1 ==> f[0].nextMatchId == None
    requires h >= 2 ==> forall x :: 0 <= x < h ==> h + x / 2 < |f| && f[x].nextMatchId == Some(f[h + x / 2].id)
    ensures Wired(f, h)
  {
  }

  /** Filling round 0 of the generated list leaves it wired as the bye pass
      needs. */
  lemma FilledWired(K: nat, slots: seq<Option<Participant>>)
    requires K >= 1 && |slots| == Pow2(K)
    ensures Wired(FillRound0(Wiring(K), slots), Pow2(K - 1))
  {
    var w, h := Wiring(K), Pow2(K - 1);
    var f := FillRound0(w, slots);
    assert h == 1 || h % 2 == 0 by {
      if K >= 2 {
        assert h == 2 * Pow2(K - 2);
      }
    }
    assert |w| == 2 * h - 1 && forall x, y :: 0 <= x < y < |w| ==> w[x].id != w[y].id by {
      WiringIdsDistinct(K);
    }
    assert forall x :: 0 <= x < h ==> w[x].matchIndex == x by {
      WiringRoundZero(K);
    }
    FilledKeepsAll(K, slots);
    if K >= 2 {
      FilledNextAll(K, slots);
    } else {
      FilledAt(K, slots, 0);
    }
    WiredOf(f, w, h);
  }

  /** A bracket built from `2^K` slots is the filled list after a complete
      visit. */
  lemma BuildIsFullVisit(K: nat, slots: seq<Option<Participant>>)
    requires K >= 1 && |slots| == Pow2(K)
    ensures var f := FillRound0(Wiring(K), slots);
      && |f| == 2 * Pow2(K - 1) - 1
      && Build(K, slots) == AfterVisits(f, Pow2(K - 1), |f|)
  {
    var f := FillRound0(Wiring(K), slots);
    FilledWired(K, slots);
    FullVisit(f, Pow2(K - 1));
  }

  /** The complete pass over a wired list. */
  lemma FullVisit(f: seq<Match>, h: nat)
    requires Wired(f, h)
    ensures AdvanceByes(f, 0) == AfterVisits(f, h, |f|)
  {
    AfterVisitsStart(f, h);
    VisitAll(f, h, 0);
  }

  /** Position `x` of a generated match list `r`, for the wiring `w`, the
      slots and the half size `h`: the wiring is kept; round-0 match `x`
      holds slots `2x` and `2x + 1`, with a winner exactly when one side is
      empty; round-1 match `j` holds the truthy winners of round-0 matches
      `2j` and `2j + 1` and has no winner; later rounds are empty. */
  ghost predicate GeneratedAt(r: seq<Match>, w: seq<Match>, slots: seq<Option<Participant>>, h: nat, x: nat) {
    && h >= 1 && |r| == |w| == 2 * h - 1 && |slots| == 2 * h && x < |r|
    && r[x].id == w[x].id && r[x].round == w[x].round
    && r[x].matchIndex == w[x].matchIndex && r[x].nextMatchId == w[x].nextMatchId
    && (x < h ==>
          && r[x].p1Id == SlotId(slots[2 * x]) && r[x].p2Id == SlotId(slots[2 * x + 1])
          && r[x].winnerId == ByeWinner(SlotId(slots[2 * x]), SlotId(slots[2 * x + 1]), None))
    && (h <= x < h + h / 2 ==>
          && r[x].winnerId == None
          && r[x].p1Id == (if Truthy(r[2 * (x - h)].winnerId) then r[2 * (x - h)].winnerId else None)
          && r[x].p2Id == (if Truthy(r[2 * (x - h) + 1].winnerId) then r[2 * (x - h) + 1].winnerId else None))
    && (h + h / 2 <= x ==> r[x].p1Id == None && r[x].p2Id == None && r[x].winnerId == None)
  }

  /** Position `x` after the complete visit of a filled list whose matches
      all started empty. */
  lemma FullVisitAt(f: seq<Match>, w: seq<Match>, slots: seq<Option<Participant>>, h: nat, x: nat)
    requires h >= 1 && |w| == 2 * h - 1 && |slots| == 2 * h && f == FillRound0(w, slots) && x < |w|
    requires w[x].p1Id == None && w[x].p2Id == None && w[x].winnerId == None
    ensures GeneratedAt(AfterVisits(f, h, |f|), w, slots, h, x)
  {
    var r := AfterVisits(f, h, |f|);
    if h <= x < h + h / 2 {
      assert r[2 * (x - h)] == f[2 * (x - h)];
      assert r[2 * (x - h) + 1] == f[2 * (x - h) + 1];
    }
  }

  /** Position `x` of a built bracket. */
  lemma BuildAt(K: nat, slots: seq<Option<Participant>>, x: nat)
    requires K >= 1 && |slots| == Pow2(K) && x < |Wiring(K)|
    ensures GeneratedAt(Build(K, slots), Wiring(K), slots, Pow2(K - 1), x)
  {
    var w, h := Wiring(K), Pow2(K - 1);
    var f := FillRound0(w, slots);
    assert Pow2(K) == 2 * h;
    BuildIsFullVisit(K, slots);
    assert PlacedAt(K, 0, x, w[x]) by {
      SkeletonShape(K, 0);
    }
    FullVisitAt(f, w, slots, h, x);
  }

  /** What `generateBracket` returns, match by match (see `GeneratedAt`):
      `size - 1` matches wired as `Wiring` lays them out, round 0 filled
      from the slots with bye winners, bye winners moved into round 1. */
  lemma GenerateBracketAt(participants: seq<Participant>, shuffled: seq<Participant>, x: nat)
    requires multiset(shuffled) == multiset(participants)
    requires x < BracketSize(|participants|) - 1
    ensures var n := BracketSize(|participants|);
      && n >= 2
      && GeneratedAt(GenerateBracket(participants, shuffled), Wiring(RoundCount(|participants|)),
                     BracketSlots(participants, shuffled), n / 2, x)
  {
    GenerateIsBuild(participants, shuffled);
    BuildAtHalf(RoundCount(|participants|), BracketSlots(participants, shuffled), x);
  }

  /** `BuildAt` with the half-size written as the bracket size over two. */
  lemma BuildAtHalf(K: nat, slots: seq<Option<Participant>>, x: nat)
    requires K >= 1 && |slots| == Pow2(K) && x < Pow2(K) - 1
    ensures Pow2(K) >= 2 && GeneratedAt(Build(K, slots), Wiring(K), slots, Pow2(K) / 2, x)
  {
    SkeletonLength(K, 0);
    Pow2Monotone(1, K);
    assert Pow2(K) / 2 == Pow2(K - 1);
    BuildAt(K, slots, x);
  }

  lemma GenerateIsBuild(participants: seq<Participant>, shuffled: seq<Participant>)
    requires multiset(shuffled) == multiset(participants)
    ensures GenerateBracket(participants, shuffled)
         == Build(RoundCount(|participants|), BracketSlots(participants, shuffled))
  {
  }

  /** A bracket of `size` slots has `size - 1` matches. */
  lemma BracketMatchCount(participants: seq<Participant>, shuffled: seq<Participant>)
    requires multiset(shuffled) == multiset(participants)
    ensures |GenerateBracket(participants, shuffled)| == BracketSize(|participants|) - 1
  {
    SkeletonLength(RoundCount(|participants|), 0);
  }

  lemma OrderedLength(participants: seq<Participant>, shuffled: seq<Participant>)
    requires multiset(shuffled) == multiset(participants)
    ensures |OrderPlayers(participants, shuffled)| == |participants|
  {
    var r := OrderPlayers(participants, shuffled);
    assert |multiset(r)| == |multiset(participants)|;
  }

  /** With at least one participant no round-0 match is a double bye: the
      two seeds of a pair add up to `size + 1`, and both exceed the player
      count only when `size` is at least twice the count plus one, which
      the least power of two never is. */
  lemma NoDoubleBye(participants: seq<Participant>, shuffled: seq<Participant>, x: nat)
    requires multiset(shuffled) == multiset(participants)
    requires |participants| >= 1 && x < BracketSize(|participants|) / 2
    ensures var slots := BracketSlots(participants, shuffled);
      slots[2 * x].Some? || slots[2 * x + 1].Some?
  {
    OrderedLength(participants, shuffled);
    SeedOrderLength(RoundCount(|participants|));
    PairHasPlayer(OrderPlayers(participants, shuffled), RoundCount(|participants|), x);
  }

  /** `NoDoubleBye` for any list of players of that length. */
  lemma PairHasPlayer(players: seq<Participant>, K: nat, x: nat)
    requires K == RoundCount(|players|) && |players| >= 1 && x < Pow2(K) / 2
    requires |SeedOrder(K)| == Pow2(K)
    ensures var slots := SlotsOf(players, SeedOrder(K));
      slots[2 * x].Some? || slots[2 * x + 1].Some?
  {
    var count, order, h := |players|, SeedOrder(K), Pow2(K - 1);
    assert Pow2(K) == 2 * h;
    SeedOrderFacts(K);
    var a, b := order[2 * x], order[2 * x + 1];
    assert a + b == 2 * h + 1 && 1 <= a && 1 <= b;
    assert K == 1 || h < count;
    assert a <= count || b <= count;
    var slots := SlotsOf(players, order);
    assert slots[2 * x] == (if 1 <= a <= count then Some(players[a - 1]) else None);
    assert slots[2 * x + 1] == (if 1 <= b <= count then Some(players[b - 1]) else None);
  }

  /** Without participants the only match is a double bye, so the bound
      above is tight. */
  lemma EmptyBracket(shuffled: seq<Participant>)
    requires shuffled == []
    ensures BracketSize(0) == 2 && BracketSlots([], shuffled) == [None, None]
    ensures GenerateBracket([], shuffled) == [Match("match-0-0", 0, 0, None, None, None, None)]
  {
    assert SeedOrder(1) == [1, 2];
    var f := FillRound0(Wiring(1), [None, None]);
    assert Wiring(1) == [SkeletonMatch(1, 0, 0)];
    assert MatchId(0, 0) == "match-0-0";
    assert f == Wiring(1);
    assert AdvanceBye(f, 0) == f;
  }

  /** With at least one participant and non-empty participant ids, every
      round-0 match either has a bye winner or two players: after the one
      pass, every round-1 side whose feeder was a bye already holds its
      player, and no further auto-advance is needed. */
  lemma RoundZeroReady(participants: seq<Participant>, shuffled: seq<Participant>, x: nat)
    requires multiset(shuffled) == multiset(participants)
    requires forall i :: 0 <= i < |participants| ==> participants[i].id != ""
    requires |participants| >= 1 && x < BracketSize(|participants|) / 2
    ensures var r := GenerateBracket(participants, shuffled);
      x < |r| && (Truthy(r[x].winnerId) || (Truthy(r[x].p1Id) && Truthy(r[x].p2Id)))
  {
    var slots := BracketSlots(participants, shuffled);
    var players := OrderPlayers(participants, shuffled);
    GenerateBracketAt(participants, shuffled, x);
    NoDoubleBye(participants, shuffled, x);
    forall k | 0 <= k < |players|
      ensures players[k].id != ""
    {
      assert players[k] in multiset(participants);
    }
    assert slots[2 * x].Some? ==> Truthy(SlotId(slots[2 * x]));
    assert slots[2 * x + 1].Some? ==> Truthy(SlotId(slots[2 * x + 1]));
  }
}
