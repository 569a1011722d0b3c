/** The deterministic local ranking: an in-place insertion sort of bounded
    residual scores that never reorders protected candidates. */
module Baseline {
  import opened Wrappers
  import opened Wire
  import opened Sequences
  import opened Sorting
  import opened ContextFrames

  const CAPACITY := 32
  const RIGHT_CONTEXT_BONUS := 192
  const RECENT_EXACT_BONUS := 512
  const MAX_DOMAIN_BONUS := 200

  datatype SurfaceFingerprint = SurfaceFingerprint(hash: u64, byteLen: u16)

  datatype Signals = Signals(previousRightId: u16, domainItPerMille: u16, recentExact: Option<SurfaceFingerprint>)

  datatype LocalCandidate = LocalCandidate(id: u64, baseCost: i32, authority: Authority, rightId: u16, isIt: bool,
                                           surface: SurfaceFingerprint)

  datatype LocalScore = LocalScore(id: u64, residual: int, adjustedCost: int, tier: nat, index: nat)

  datatype BaselineError = TooManyCandidates | RepeatedCandidate

  function LocalResidual(signals: Signals, c: LocalCandidate): int {
    if c.authority.Protected() then 0
    else
      var right := if signals.previousRightId != 0 && c.rightId == signals.previousRightId then RIGHT_CONTEXT_BONUS else 0;
      var recent := if signals.recentExact == Some(c.surface) then RECENT_EXACT_BONUS else 0;
      var domain := if signals.domainItPerMille < 1000 then signals.domainItPerMille else 1000;
      var bonus := right + recent + if c.isIt then domain * MAX_DOMAIN_BONUS / 1000 else 0;
      -(if bonus < MAX_RESIDUAL then bonus else MAX_RESIDUAL)
  }

  /** Residuals only ever promote, by at most 904, so the wire bound never bites;
      protected candidates get none. */
  lemma ResidualBounds(signals: Signals, c: LocalCandidate)
    ensures -904 <= LocalResidual(signals, c) <= 0
    ensures c.authority.Protected() ==> LocalResidual(signals, c) == 0
  {}

  function ScoreOf(signals: Signals, c: LocalCandidate, index: nat): LocalScore {
    var residual := LocalResidual(signals, c);
    LocalScore(c.id, residual, c.baseCost + residual, if c.authority.Protected() then 0 else 1, index)
  }

  function Scores(signals: Signals, candidates: seq<LocalCandidate>): (s: seq<LocalScore>)
    ensures |s| == |candidates| && forall i :: 0 <= i < |s| ==> s[i] == ScoreOf(signals, candidates[i], i)
  {
    seq(|candidates|, i requires 0 <= i < |candidates| => ScoreOf(signals, candidates[i], i))
  }

  /** The cost part of the key: protected candidates all tie. */
  function SortCost(s: LocalScore): int { if s.tier == 0 then 0 else s.adjustedCost }

  /** By tier, then cost, then original index. */
  predicate KeyLess(a: LocalScore, b: LocalScore) {
    a.tier < b.tier
    || (a.tier == b.tier && (SortCost(a) < SortCost(b) || (SortCost(a) == SortCost(b) && a.index < b.index)))
  }

  predicate KeyLeq(a: LocalScore, b: LocalScore) { !KeyLess(b, a) }

  function Ranking(signals: Signals, candidates: seq<LocalCandidate>): seq<LocalScore> {
    SortBy(Scores(signals, candidates), KeyLeq)
  }

  lemma KeysAreOrdered()
    ensures IsOrder(KeyLeq)
  {}

  /** Every prefix of the rows has its own index range. */
  ghost predicate IndexedBelow(s: seq<LocalScore>, n: nat) {
    && (forall i :: 0 <= i < |s| ==> s[i].index < n)
    && (forall i, j :: 0 <= i < j < |s| ==> s[i].index != s[j].index)
  }

  /** One swap with the row before. */
  method SwapBack(scores: array<LocalScore>, len: nat, at: nat)
    requires 0 < at < len <= scores.Length && SortedExcept(scores[..len], at, KeyLeq) && !KeyLeq(scores[at - 1], scores[at])
    modifies scores
    ensures SortedExcept(scores[..len], at - 1, KeyLeq) && multiset(scores[..len]) == multiset(old(scores[..len]))
  {
    hide KeyLeq, SortedExcept, IsOrder, Swapped;
    KeysAreOrdered();
    ghost var before := scores[..len];
    SwapStep(before, at, KeyLeq);
    scores[at], scores[at - 1] := scores[at - 1], scores[at];
    IsSwapped(before, scores[..len], at);
  }

  /** The inner loop: the last row moves forward past every row with a larger key. */
  method MoveForward(scores: array<LocalScore>, len: nat)
    requires 0 < len <= scores.Length && SortedBy(scores[..len - 1], KeyLeq)
    modifies scores
    ensures SortedBy(scores[..len], KeyLeq)
    ensures multiset(scores[..len]) == multiset(old(scores[..len]))
  {
    hide KeyLeq, SortedBy, SortedExcept, IsOrder;
    var at := len - 1;
    assert scores[..len] == scores[..len - 1] + [scores[len - 1]];
    LastIsExcept(scores[..len - 1], scores[len - 1], KeyLeq);
    while at > 0 && !KeyLeq(scores[at - 1], scores[at])
      invariant 0 <= at < len
      invariant SortedExcept(scores[..len], at, KeyLeq) && multiset(scores[..len]) == multiset(old(scores[..len]))
    {
      SwapBack(scores, len, at);
      at := at - 1;
    }
    KeysAreOrdered();
    assert scores[..len][at] == scores[at] && (at > 0 ==> scores[..len][at - 1] == scores[at - 1]);
    SwapsSettle(scores[..len], at, KeyLeq);
  }

  lemma IsSwapped(before: seq<LocalScore>, after: seq<LocalScore>, at: nat)
    requires 0 < at < |before| == |after| && after[at] == before[at - 1] && after[at - 1] == before[at]
    requires forall i :: 0 <= i < |before| && i != at && i != at - 1 ==> after[i] == before[i]
    ensures after == Swapped(before, at)
  {}

  /** One turn of the outer loop: append a row, then move it forward. */
  method InsertRow(scores: array<LocalScore>, len: nat, row: LocalScore)
    requires len < scores.Length && SortedBy(scores[..len], KeyLeq)
    modifies scores
    ensures SortedBy(scores[..len + 1], KeyLeq)
    ensures multiset(scores[..len + 1]) == multiset(old(scores[..len]) + [row])
  {
    hide SortedBy, KeyLeq;
    ghost var before := scores[..len];
    scores[len] := row;
    ghost var longer := scores[..len + 1];
    assert longer[..len] == before && longer == before + [row];
    MoveForward(scores, len + 1);
  }

  /** The outer loop. */
  method InsertAll(signals: Signals, candidates: seq<LocalCandidate>) returns (r: seq<LocalScore>)
    requires |candidates| <= CAPACITY
    ensures SortedBy(r, KeyLeq) && multiset(r) == multiset(Scores(signals, candidates))
  {
    hide ScoreOf, SortedBy, KeyLeq;
    var scores := new LocalScore[CAPACITY](_ => LocalScore(0, 0, 0, 0, 0));
    ghost var all: seq<LocalScore> := Scores(signals, candidates);
    NothingSorted(scores[..0]);
    for i: nat := 0 to |candidates|
      invariant fresh(scores)
      invariant SortedBy(scores[..i], KeyLeq) && multiset(scores[..i]) == multiset(all[..i])
    {
      ghost var before := scores[..i];
      InsertRow(scores, i, ScoreOf(signals, candidates[i], i));
      SameGrowth(before, all, i, before + [all[i]]);
    }
    assert all[..|candidates|] == all;
    r := scores[..|candidates|];
  }

  lemma SameGrowth<T>(a: seq<T>, all: seq<T>, i: nat, longer: seq<T>)
    requires i < |all| && multiset(a) == multiset(all[..i]) && longer == a + [all[i]]
    ensures multiset(longer) == multiset(all[..i + 1])
  {
    TakeMore(all, i);
  }

  method HasRepeatedId(candidates: seq<LocalCandidate>) returns (r: bool)
    ensures r <==> !DistinctIds(candidates)
  {
    for i := 0 to |candidates|
      invariant forall j, k :: 0 <= j < k < i ==> candidates[j].id != candidates[k].id
    {
      for k := 0 to i
        invariant forall j :: 0 <= j < k ==> candidates[j].id != candidates[i].id
      {
        if candidates[k].id == candidates[i].id { return true; }
      }
    }
    r := false;
  }

  /** rank_local_baseline */
  method RankLocalBaseline(signals: Signals, candidates: seq<LocalCandidate>)
    returns (r: Result<seq<LocalScore>, BaselineError>)
    ensures |candidates| > CAPACITY ==> r == Err(TooManyCandidates)
    ensures |candidates| <= CAPACITY ==>
      r == if DistinctIds(candidates) then Ok(Ranking(signals, candidates)) else Err(RepeatedCandidate)
  {
    if |candidates| > CAPACITY { return Err(TooManyCandidates); }
    var repeated := HasRepeatedId(candidates);
    if repeated { return Err(RepeatedCandidate); }
    var scores := InsertAll(signals, candidates);
    SortedIsRanking(signals, candidates, scores);
    r := Ok(scores);
  }

  lemma NothingSorted(s: seq<LocalScore>)
    requires s == []
    ensures SortedBy(s, KeyLeq)
  {}

  ghost predicate DistinctIds(candidates: seq<LocalCandidate>) {
    forall i, j :: 0 <= i < j < |candidates| ==> candidates[i].id != candidates[j].id
  }

  /** Rows of one ranking never tie. */
  lemma RowsDoNotTie(r: seq<LocalScore>, n: nat)
    requires IndexedBelow(r, n)
    ensures NoTies(r, KeyLeq)
  {}

  lemma SortedIsRanking(signals: Signals, candidates: seq<LocalCandidate>, s: seq<LocalScore>)
    requires SortedBy(s, KeyLeq) && multiset(s) == multiset(Scores(signals, candidates))
    ensures s == Ranking(signals, candidates)
  {
    hide ScoreOf, KeyLeq;
    var all := Scores(signals, candidates);
    KeysAreOrdered();
    SortSorts(all, KeyLeq);
    SortKeeps(all, KeyLeq);
    RankingRows(signals, candidates, Ranking(signals, candidates));
    RowsDoNotTie(Ranking(signals, candidates), |candidates|);
    SortedUnique(Ranking(signals, candidates), s, KeyLeq);
  }

  /** A reordering of the rows: each candidate once, with its own row. */
  lemma RankingRows(signals: Signals, candidates: seq<LocalCandidate>, r: seq<LocalScore>)
    requires multiset(r) == multiset(Scores(signals, candidates))
    ensures |r| == |candidates| && IndexedBelow(r, |candidates|)
    ensures forall i :: 0 <= i < |r| ==>
      r[i].index < |candidates| && r[i] == ScoreOf(signals, candidates[r[i].index], r[i].index)
  {
    var all := Scores(signals, candidates);
    SameSize(r, all);
    assert Distinct(all) by {
      forall i, j | 0 <= i < j < |all| ensures all[i] != all[j] { assert all[i].index == i && all[j].index == j; }
    }
    DistinctReordered(r, all);
    forall i | 0 <= i < |r|
      ensures r[i].index < |candidates| && r[i] == all[r[i].index]
    {
      assert r[i] in multiset(r);
      assert r[i] in all;
    }
  }

  function RankedIds(r: seq<LocalScore>): (ids: seq<u64>)
    ensures |ids| == |r| && forall i :: 0 <= i < |ids| ==> ids[i] == r[i].id
  {
    seq(|r|, i requires 0 <= i < |r| => r[i].id)
  }

  /** Rows of the protected candidates among the first n, in the order offered. */
  function ProtectedRows(signals: Signals, candidates: seq<LocalCandidate>, n: nat): seq<LocalScore>
    requires n <= |candidates|
  {
    if n == 0 then []
    else
      var front, row := ProtectedRows(signals, candidates, n - 1), ScoreOf(signals, candidates[n - 1], n - 1);
      if candidates[n - 1].authority.Protected() then front + [row] else front
  }

  function OrdinaryRows(signals: Signals, candidates: seq<LocalCandidate>, n: nat): seq<LocalScore>
    requires n <= |candidates|
  {
    if n == 0 then []
    else
      var front, row := OrdinaryRows(signals, candidates, n - 1), ScoreOf(signals, candidates[n - 1], n - 1);
      if candidates[n - 1].authority.Protected() then front else front + [row]
  }

  lemma RowFacts(signals: Signals, c: LocalCandidate, index: nat)
    ensures ScoreOf(signals, c, index).index == index
    ensures ScoreOf(signals, c, index).tier == if c.authority.Protected() then 0 else 1
  {}

  lemma {:induction false} RowsSplit(signals: Signals, candidates: seq<LocalCandidate>, n: nat)
    requires n <= |candidates|
    ensures multiset(Scores(signals, candidates)[..n])
         == multiset(ProtectedRows(signals, candidates, n)) + multiset(OrdinaryRows(signals, candidates, n))
    decreases n
  {
    hide ScoreOf, ProtectedRows, OrdinaryRows, Scores;
    RowsGrow(signals, candidates, n);
    if n > 0 {
      RowsSplit(signals, candidates, n - 1);
      BagStep(Scores(signals, candidates)[..n - 1], ProtectedRows(signals, candidates, n - 1),
              OrdinaryRows(signals, candidates, n - 1), ScoreOf(signals, candidates[n - 1], n - 1));
      TakeMore(Scores(signals, candidates), n - 1);
    }
  }

  lemma RowsGrow(signals: Signals, candidates: seq<LocalCandidate>, n: nat)
    requires n <= |candidates|
    ensures n == 0 ==> ProtectedRows(signals, candidates, n) == [] && OrdinaryRows(signals, candidates, n) == []
    ensures n > 0 ==>
      var row, p, o := ScoreOf(signals, candidates[n - 1], n - 1), ProtectedRows(signals, candidates, n - 1),
                       OrdinaryRows(signals, candidates, n - 1);
      if candidates[n - 1].authority.Protected() then
        ProtectedRows(signals, candidates, n) == p + [row] && OrdinaryRows(signals, candidates, n) == o
      else ProtectedRows(signals, candidates, n) == p && OrdinaryRows(signals, candidates, n) == o + [row]
  {}

  lemma BagStep<T>(all: seq<T>, a: seq<T>, b: seq<T>, x: T)
    requires multiset(all) == multiset(a) + multiset(b)
    ensures multiset(all + [x]) == multiset(a + [x]) + multiset(b)
    ensures multiset(all + [x]) == multiset(a) + multiset(b + [x])
  {}

  ghost predicate Leading(p: seq<LocalScore>, n: nat) {
    && (forall i :: 0 <= i < |p| ==> p[i].tier == 0 && p[i].index < n)
    && (forall i, j :: 0 <= i < j < |p| ==> p[i].index < p[j].index)
  }

  ghost predicate Following(o: seq<LocalScore>) { forall i :: 0 <= i < |o| ==> o[i].tier == 1 }

  lemma RowTiersStep(p: seq<LocalScore>, o: seq<LocalScore>, n: nat, row: LocalScore)
    requires Leading(p, n) && Following(o) && row.index == n
    ensures Leading(p, n + 1)
    ensures row.tier == 0 ==> Leading(p + [row], n + 1)
    ensures row.tier == 1 ==> Following(o + [row])
  {}

  lemma {:induction false} RowTiers(signals: Signals, candidates: seq<LocalCandidate>, n: nat)
    requires n <= |candidates|
    ensures Leading(ProtectedRows(signals, candidates, n), n) && Following(OrdinaryRows(signals, candidates, n))
    decreases n
  {
    hide ScoreOf, Leading, Following;
    if n == 0 {
      NoRowTiers();
    } else {
      RowTiers(signals, candidates, n - 1);
      RowFacts(signals, candidates[n - 1], n - 1);
      RowTiersStep(ProtectedRows(signals, candidates, n - 1), OrdinaryRows(signals, candidates, n - 1), n - 1,
                   ScoreOf(signals, candidates[n - 1], n - 1));
    }
  }

  lemma NoRowTiers()
    ensures Leading([], 0) && Following([])
  {}

  /** Protected candidates lead in the order they were offered, whatever the
      signals say; the ordinary ones follow by cost and then by that order. */
  lemma ProtectedLead(signals: Signals, candidates: seq<LocalCandidate>)
    ensures Ranking(signals, candidates) ==
      ProtectedRows(signals, candidates, |candidates|) + SortBy(OrdinaryRows(signals, candidates, |candidates|), KeyLeq)
  {
    hide ScoreOf, LocalResidual, ProtectedRows, OrdinaryRows;
    var n, all := |candidates|, Scores(signals, candidates);
    var p, o := ProtectedRows(signals, candidates, n), OrdinaryRows(signals, candidates, n);
    RowsSplit(signals, candidates, n);
    RowTiers(signals, candidates, n);
    assert all[..n] == all;
    KeysAreOrdered();
    SortSorts(o, KeyLeq);
    SortKeeps(o, KeyLeq);
    TiersSorted(n, p, o, SortBy(o, KeyLeq));
    SortedIsRanking(signals, candidates, p + SortBy(o, KeyLeq));
  }

  lemma TiersSorted(n: nat, p: seq<LocalScore>, o: seq<LocalScore>, sorted: seq<LocalScore>)
    requires Leading(p, n)
    requires Following(o) && multiset(sorted) == multiset(o) && SortedBy(sorted, KeyLeq)
    ensures SortedBy(p + sorted, KeyLeq)
  {
    forall i | 0 <= i < |sorted| ensures sorted[i].tier == 1 {
      assert sorted[i] in multiset(sorted);
      assert sorted[i] in o;
    }
  }
}
