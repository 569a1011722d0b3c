/** The lexicon trim: sort, drop duplicate identities, sort by cost, and cap the
    distinct surfaces of each reading. */
module Trim {
  import opened Wrappers
  import opened Sequences
  import opened Sorting
  import opened Lexicon

  datatype Policy = Policy(maxWordCost: int, legacyCap: nat, surfaceCap: Option<nat>)

  datatype Report = Report(input: nat, eligible: nat, duplicates: nat, legacyCapped: nat, capped: nat, cappedSurfaces: nat,
                           rescued: nat, rescuedSurfaces: nat, output: nat)

  // ---------------------------------------------------------------- comparison

  function CompareIdentity(a: Entry, b: Entry): int {
    Then(CompareText(a.reading, b.reading),
         Then(CompareText(a.surface, b.surface), Then(CompareInt(a.leftId, b.leftId), CompareInt(a.rightId, b.rightId))))
  }

  /** The key of the first sort. */
  function CompareRow(a: Entry, b: Entry): int {
    Then(CompareIdentity(a, b),
         Then(CompareInt(a.wordCost, b.wordCost),
              Then(CompareInt(a.predictionCost, b.predictionCost), CompareInt(a.flags, b.flags))))
  }

  /** The key of the second sort. */
  function CompareRank(a: Entry, b: Entry): int {
    Then(CompareText(a.reading, b.reading),
         Then(CompareInt(a.wordCost, b.wordCost),
              Then(CompareText(a.surface, b.surface),
                   Then(CompareInt(a.leftId, b.leftId), Then(CompareInt(a.rightId, b.rightId), CompareInt(a.flags, b.flags))))))
  }

  predicate RowLeq(a: Entry, b: Entry) { CompareRow(a, b) <= 0 }

  predicate RankLeq(a: Entry, b: Entry) { CompareRank(a, b) <= 0 }

  /** The row without what no sort looks at. */
  function Bare(e: Entry): Entry { e.(annotation := "", source := "", line := 0) }

  lemma IdentityCompares(a: Entry, b: Entry, c: Entry)
    ensures CompareIdentity(a, b) == 0 <==> SameIdentity(a, b)
    ensures CompareIdentity(a, b) == -CompareIdentity(b, a)
    ensures CompareIdentity(a, b) <= 0 && CompareIdentity(b, c) <= 0 ==> CompareIdentity(a, c) <= 0
    ensures CompareIdentity(a, b) < 0 && CompareIdentity(b, c) <= 0 ==> CompareIdentity(a, c) < 0
    ensures CompareIdentity(a, b) <= 0 && CompareIdentity(b, c) < 0 ==> CompareIdentity(a, c) < 0
  {
    hide CompareText;
    TextCompares(a.reading, b.reading, c.reading);
    TextCompares(a.surface, b.surface, c.surface);
  }

  lemma RowCompares(a: Entry, b: Entry, c: Entry)
    ensures CompareRow(a, b) == 0 <==> Bare(a) == Bare(b)
    ensures CompareRow(a, b) == -CompareRow(b, a)
    ensures CompareRow(a, b) <= 0 && CompareRow(b, c) <= 0 ==> CompareRow(a, c) <= 0
  {
    hide CompareIdentity;
    IdentityCompares(a, b, c);
    IdentityCompares(a, c, b);
  }

  lemma RankCompares(a: Entry, b: Entry, c: Entry)
    ensures CompareRank(a, b) == -CompareRank(b, a)
    ensures CompareRank(a, b) == 0 ==> SameIdentity(a, b)
    ensures CompareRank(a, b) <= 0 && CompareRank(b, c) <= 0 ==> CompareRank(a, c) <= 0
  {
    hide CompareText;
    TextCompares(a.reading, b.reading, c.reading);
    TextCompares(a.surface, b.surface, c.surface);
    TextCompares(a.reading, c.reading, b.reading);
  }

  lemma RowsAreOrdered()
    ensures IsOrder(RowLeq) && IsOrder(RankLeq)
  {
    hide CompareRow, CompareRank;
    forall a: Entry, b: Entry ensures (RowLeq(a, b) || RowLeq(b, a)) && (RankLeq(a, b) || RankLeq(b, a)) {
      RowCompares(a, b, b);
      RankCompares(a, b, b);
    }
    forall a: Entry, b: Entry, c: Entry
      ensures RowLeq(a, b) && RowLeq(b, c) ==> RowLeq(a, c)
      ensures RankLeq(a, b) && RankLeq(b, c) ==> RankLeq(a, c)
    {
      RowCompares(a, b, c);
      RankCompares(a, b, c);
    }
  }

  // ---------------------------------------------------------------- duplicates

  /** Keep a row unless the last kept row has its identity. */
  function Dedup(s: seq<Entry>): (d: seq<Entry>)
    ensures |d| <= |s| && (d == [] <==> s == [])
  {
    if s == [] then []
    else
      var front, last := Dedup(s[..|s| - 1]), s[|s| - 1];
      if front != [] && SameIdentity(front[|front| - 1], last) then front else front + [last]
  }

  /** Some kept row stands for this one: same identity, and at most its cost. */
  ghost predicate StoodFor(d: seq<Entry>, e: Entry) {
    exists i :: 0 <= i < |d| && SameIdentity(d[i], e) && RowLeq(d[i], e)
  }

  /** One row for each identity, the cheapest, in identity order. */
  ghost predicate Deduplicated(s: seq<Entry>, d: seq<Entry>) {
    && (forall i :: 0 <= i < |d| ==> d[i] in s)
    && (forall i, j :: 0 <= i < j < |d| ==> CompareIdentity(d[i], d[j]) < 0)
    && (forall e :: e in s ==> StoodFor(d, e))
    && (d != [] && s != [] ==> SameIdentity(d[|d| - 1], s[|s| - 1]) && RowLeq(d[|d| - 1], s[|s| - 1]))
  }

  lemma SortedFront(front: seq<Entry>, last: Entry)
    requires SortedBy(front + [last], RowLeq)
    ensures SortedBy(front, RowLeq) && (front != [] ==> RowLeq(front[|front| - 1], last))
  {
    hide RowLeq;
    var s := front + [last];
    assert forall i :: 0 <= i < |front| ==> s[i] == front[i];
    assert s[|front|] == last;
  }

  lemma {:induction false} DedupExact(s: seq<Entry>)
    requires SortedBy(s, RowLeq)
    ensures Deduplicated(s, Dedup(s))
    decreases |s|
  {
    hide RowLeq, Deduplicated, SameIdentity, SortedBy;
    if s == [] {
      NothingDeduplicated();
    } else {
      var front, last := s[..|s| - 1], s[|s| - 1];
      assert s == front + [last];
      SortedFront(front, last);
      DedupExact(front);
      if front != [] && SameIdentity(Dedup(front)[|Dedup(front)| - 1], last) {
        DedupDrop(front, Dedup(front), last);
      } else {
        DedupPush(front, Dedup(front), last);
      }
    }
  }

  lemma NothingDeduplicated()
    ensures Deduplicated([], [])
  {}

  lemma RowFromIdentity(a: Entry, b: Entry)
    ensures CompareRow(a, b) <= 0 ==> CompareIdentity(a, b) <= 0
    ensures CompareIdentity(a, b) < 0 ==> CompareRow(a, b) < 0
  {}

  lemma StillStoodFor(d: seq<Entry>, longer: seq<Entry>, e: Entry)
    requires StoodFor(d, e) && d <= longer
    ensures StoodFor(longer, e)
  {
    hide RowLeq, SameIdentity;
    var i :| 0 <= i < |d| && SameIdentity(d[i], e) && RowLeq(d[i], e);
    assert longer[i] == d[i];
  }

  lemma LastStandsFor(d: seq<Entry>, e: Entry)
    requires d != [] && SameIdentity(d[|d| - 1], e) && RowLeq(d[|d| - 1], e)
    ensures StoodFor(d, e)
  {}

  /** The last kept row is at most every later row. */
  lemma LastKeptLeads(front: seq<Entry>, d: seq<Entry>, last: Entry)
    requires Deduplicated(front, d) && d != [] && front != [] && RowLeq(front[|front| - 1], last)
    ensures RowLeq(d[|d| - 1], last) && CompareIdentity(d[|d| - 1], last) <= 0
  {
    hide CompareIdentity, CompareRow, SameIdentity, StoodFor;
    RowCompares(d[|d| - 1], front[|front| - 1], last);
    RowFromIdentity(d[|d| - 1], last);
  }

  /** A row with the identity of the last kept one. */
  lemma DedupDrop(front: seq<Entry>, d: seq<Entry>, last: Entry)
    requires Deduplicated(front, d) && d != [] && front != [] && SameIdentity(d[|d| - 1], last)
    requires RowLeq(front[|front| - 1], last)
    ensures Deduplicated(front + [last], d)
  {
    hide CompareIdentity, RowLeq, SameIdentity, StoodFor;
    LastKeptLeads(front, d, last);
    LastStandsFor(d, last);
  }

  /** A row with a new identity. */
  lemma DedupPush(front: seq<Entry>, d: seq<Entry>, last: Entry)
    requires Deduplicated(front, d) && (d == [] <==> front == [])
    requires d != [] ==> !SameIdentity(d[|d| - 1], last) && RowLeq(front[|front| - 1], last)
    ensures Deduplicated(front + [last], d + [last])
  {
    hide CompareIdentity, RowLeq, SameIdentity, StoodFor;
    var r := d + [last];
    SelfStands(last);
    if d != [] {
      LastKeptLeads(front, d, last);
      IdentityCompares(d[|d| - 1], last, last);
    }
    forall i | 0 <= i < |d| ensures CompareIdentity(d[i], last) < 0 {
      IdentityCompares(d[i], d[|d| - 1], last);
    }
    forall e | e in front + [last] ensures StoodFor(r, e) {
      if e in front { StillStoodFor(d, r, e); } else { LastStandsFor(r, e); }
    }
  }

  lemma SelfStands(e: Entry)
    ensures RowLeq(e, e) && SameIdentity(e, e)
  {
    hide CompareRow;
    RowCompares(e, e, e);
  }

  // --------------------------------------------------------------- surface cap

  /** Surfaces of one reading among the first n rows. */
  function Surfaces(rows: seq<Entry>, n: nat, reading: string): set<string>
    requires n <= |rows|
  {
    set j | 0 <= j < n && rows[j].reading == reading :: rows[j].surface
  }

  /** The first row with the reading and surface of row i. */
  function FirstRow(rows: seq<Entry>, i: nat, j: nat): (r: nat)
    requires j <= i < |rows|
    ensures j <= r <= i && rows[r].reading == rows[i].reading && rows[r].surface == rows[i].surface
    ensures forall k :: j <= k < r ==> !(rows[k].reading == rows[i].reading && rows[k].surface == rows[i].surface)
    decreases i - j
  {
    if rows[j].reading == rows[i].reading && rows[j].surface == rows[i].surface then j else FirstRow(rows, i, j + 1)
  }

  /** How many surfaces of its reading come before the surface of row i. */
  function Place(rows: seq<Entry>, i: nat): nat
    requires i < |rows|
  {
    |Surfaces(rows, FirstRow(rows, i, 0), rows[i].reading)|
  }

  /** Row i has one of the first `cap` surfaces of its reading. */
  predicate Keeps(policy: Policy, rows: seq<Entry>, i: nat)
    requires i < |rows|
  {
    policy.surfaceCap.Some? ==> Place(rows, i) < policy.surfaceCap.value
  }

  function Earlier(rows: seq<Entry>, n: nat, reading: string): nat
    requires n <= |rows|
  {
    if n == 0 then 0 else Earlier(rows, n - 1, reading) + if rows[n - 1].reading == reading then 1 else 0
  }

  /** Row i is within the former row-based cap. */
  predicate Legacy(policy: Policy, rows: seq<Entry>, i: nat)
    requires i < |rows|
  {
    Earlier(rows, i, rows[i].reading) < policy.legacyCap
  }

  predicate IsFirst(rows: seq<Entry>, i: nat)
    requires i < |rows|
  {
    FirstRow(rows, i, 0) == i
  }

  /** What one row adds to the result. */
  datatype Outcome = Outcome(selected: seq<Entry>, evidence: seq<bool>, report: Report)

  /** The result after a row that is kept or not, within the row cap or not, and
      the first of its surface or not. */
  function WithRow(o: Outcome, row: Entry, keeps: bool, legacy: bool, first: bool): Outcome {
    var r := o.report.(legacyCapped := o.report.legacyCapped + One(!legacy),
                       rescued := o.report.rescued + One(keeps && !legacy),
                       rescuedSurfaces := o.report.rescuedSurfaces + One(keeps && !legacy && first),
                       capped := o.report.capped + One(!keeps),
                       cappedSurfaces := o.report.cappedSurfaces + One(!keeps && first));
    if keeps then Outcome(o.selected + [row], o.evidence + [legacy], r) else Outcome(o.selected, o.evidence, r)
  }

  /** The result for the first n rows, by what each row is. */
  function OutcomeOf(policy: Policy, rows: seq<Entry>, start: Report, n: nat): Outcome
    requires n <= |rows|
  {
    if n == 0 then Outcome([], [], start)
    else
      WithRow(OutcomeOf(policy, rows, start, n - 1), rows[n - 1], Keeps(policy, rows, n - 1), Legacy(policy, rows, n - 1),
              IsFirst(rows, n - 1))
  }

  /** Rows of one reading stand together. */
  ghost predicate Grouped(rows: seq<Entry>) {
    forall i, j :: 0 <= i < j < |rows| && rows[i].reading == rows[j].reading ==> rows[j - 1].reading == rows[j].reading
  }

  lemma RankedGrouped(rows: seq<Entry>)
    requires SortedBy(rows, RankLeq)
    ensures Grouped(rows)
  {
    hide CompareText;
    forall i, j | 0 <= i < j < |rows| && rows[i].reading == rows[j].reading
      ensures rows[j - 1].reading == rows[j].reading
    {
      assert RankLeq(rows[j - 1], rows[j]);
      if i < j - 1 { assert RankLeq(rows[i], rows[j - 1]); }
      TextCompares(rows[i].reading, rows[j - 1].reading, rows[j].reading);
      TextCompares(rows[j - 1].reading, rows[j].reading, rows[i].reading);
    }
  }

  /** The sets of the loop, in terms of the rows already seen: every seen surface
      while there is room, exactly `cap` of them afterwards. */
  ghost predicate SetsAgree(policy: Policy, rows: seq<Entry>, n: nat, reading: string, selected: set<string>, capped: set<string>)
    requires n <= |rows|
  {
    && selected + capped == Surfaces(rows, n, reading) && selected !! capped
    && (policy.surfaceCap.None? ==> capped == {})
    && (policy.surfaceCap.Some? ==> |selected| <= policy.surfaceCap.value)
    && (policy.surfaceCap.Some? && capped != {} ==> |selected| == policy.surfaceCap.value)
    && (forall j {:trigger rows[j]} :: 0 <= j < n && rows[j].reading == reading ==>
          (rows[j].surface in selected <==> Keeps(policy, rows, j)))
  }

  lemma SurfacesStep(rows: seq<Entry>, n: nat, reading: string)
    requires n < |rows|
    ensures Surfaces(rows, n + 1, reading)
         == Surfaces(rows, n, reading) + if rows[n].reading == reading then {rows[n].surface} else {}
  {
    if rows[n].reading == reading { assert rows[n].surface in Surfaces(rows, n + 1, reading); }
  }

  /** A row is kept exactly when its surface is selected or there is room for it. */
  lemma KeepsDecided(policy: Policy, rows: seq<Entry>, n: nat, selected: set<string>, capped: set<string>)
    requires n < |rows| && SetsAgree(policy, rows, n, rows[n].reading, selected, capped)
    ensures IsFirst(rows, n) <==> rows[n].surface !in selected + capped
    ensures Keeps(policy, rows, n) <==>
      rows[n].surface in selected
      || policy.surfaceCap.None? || |selected| < policy.surfaceCap.value
    ensures policy.surfaceCap.None? || |selected| < policy.surfaceCap.value ==> capped == {}
  {
    var f := FirstRow(rows, n, 0);
    if f < n {
      assert rows[f].surface in Surfaces(rows, n, rows[n].reading);
      FirstAgain(rows, f, n);
      assert Keeps(policy, rows, f) <==> Keeps(policy, rows, n);
    } else {
      assert rows[n].surface !in Surfaces(rows, n, rows[n].reading);
      if policy.surfaceCap.Some? {
        assert selected + capped == Surfaces(rows, n, rows[n].reading);
        if capped == {} {
          assert selected == Surfaces(rows, n, rows[n].reading);
        } else {
          SubsetCount(selected, Surfaces(rows, n, rows[n].reading));
        }
      }
    }
  }

  /** Rows with the same reading and surface have the same first row. */
  lemma FirstAgain(rows: seq<Entry>, f: nat, n: nat)
    requires f <= n < |rows| && f == FirstRow(rows, n, 0)
    ensures FirstRow(rows, f, 0) == f
  {
    var g := FirstRow(rows, f, 0);
  }

  /** The sets after one more row of the same reading, kept or capped. */
  lemma SetsKeep(policy: Policy, rows: seq<Entry>, n: nat, selected: set<string>, capped: set<string>)
    requires n < |rows| && SetsAgree(policy, rows, n, rows[n].reading, selected, capped) && Keeps(policy, rows, n)
    ensures SetsAgree(policy, rows, n + 1, rows[n].reading, selected + {rows[n].surface}, capped)
  {
    hide Keeps, Surfaces, IsFirst;
    KeepsDecided(policy, rows, n, selected, capped);
    SurfacesStep(rows, n, rows[n].reading);
    SameSurfaceSameFate(policy, rows, n, rows[n].reading);
    if rows[n].surface in selected {
      assert selected + {rows[n].surface} == selected;
    }
  }

  lemma SetsCap(policy: Policy, rows: seq<Entry>, n: nat, selected: set<string>, capped: set<string>)
    requires n < |rows| && SetsAgree(policy, rows, n, rows[n].reading, selected, capped) && !Keeps(policy, rows, n)
    ensures SetsAgree(policy, rows, n + 1, rows[n].reading, selected, capped + {rows[n].surface})
  {
    hide Keeps, Surfaces, IsFirst;
    KeepsDecided(policy, rows, n, selected, capped);
    SurfacesStep(rows, n, rows[n].reading);
    SameSurfaceSameFate(policy, rows, n, rows[n].reading);
  }

  lemma SameSurfaceSameFate(policy: Policy, rows: seq<Entry>, n: nat, reading: string)
    requires n < |rows| && rows[n].reading == reading
    ensures forall j {:trigger rows[j]} :: 0 <= j <= n && rows[j].reading == reading && rows[j].surface == rows[n].surface ==>
      (Keeps(policy, rows, j) <==> Keeps(policy, rows, n))
  {
    forall j {:trigger rows[j]} | 0 <= j <= n && rows[j].reading == reading && rows[j].surface == rows[n].surface
      ensures FirstRow(rows, j, 0) == FirstRow(rows, n, 0)
    {
      var a, b := FirstRow(rows, j, 0), FirstRow(rows, n, 0);
      assert b <= j;
    }
  }

  /** A reading not seen before starts with empty sets. */
  lemma SetsStart(policy: Policy, rows: seq<Entry>, n: nat)
    requires n < |rows| && Grouped(rows) && (n > 0 ==> rows[n - 1].reading != rows[n].reading)
    ensures SetsAgree(policy, rows, n, rows[n].reading, {}, {})
    ensures Earlier(rows, n, rows[n].reading) == 0
  {
    forall j | 0 <= j < n ensures rows[j].reading != rows[n].reading {}
    assert Surfaces(rows, n, rows[n].reading) == {};
    NoneEarlier(rows, n, rows[n].reading);
  }

  lemma {:induction false} NoneEarlier(rows: seq<Entry>, n: nat, reading: string)
    requires n <= |rows| && forall j :: 0 <= j < n ==> rows[j].reading != reading
    ensures Earlier(rows, n, reading) == 0
  {
    if n > 0 { NoneEarlier(rows, n - 1, reading); }
  }

  // --------------------------------------------------------------- the trimmer

  datatype PolicyError = NegativeCost | NoLegacyCap | NoSurfaceCap

  /** MozcTrimmer::new */
  function CheckPolicy(policy: Policy): Result<Policy, PolicyError> {
    if policy.maxWordCost < 0 then Err(NegativeCost)
    else if policy.legacyCap == 0 then Err(NoLegacyCap)
    else if policy.surfaceCap == Some(0) then Err(NoSurfaceCap)
    else Ok(policy)
  }

  /** The rows of a shard that are cheap enough, in order. */
  function Affordable(policy: Policy, entries: seq<Entry>): (r: seq<Entry>)
    ensures |r| <= |entries|
  {
    if entries == [] then []
    else
      var front, last := Affordable(policy, entries[..|entries| - 1]), entries[|entries| - 1];
      if last.wordCost <= policy.maxWordCost then front + [last] else front
  }

  /** The deduplicated rows in the order the cap sweeps them. */
  function Ranked(eligible: seq<Entry>): seq<Entry> { SortBy(Dedup(SortBy(eligible, RowLeq)), RankLeq) }

  /** The whole trim of what was pushed. */
  function TrimOf(policy: Policy, eligible: seq<Entry>, input: nat): Outcome {
    var rows := Ranked(eligible);
    DedupCount(eligible);
    var start := Report(input, |eligible|, |eligible| - |rows|, 0, 0, 0, 0, 0, 0);
    var o := OutcomeOf(policy, rows, start, |rows|);
    o.(report := o.report.(output := |o.selected|))
  }

  lemma DedupCount(eligible: seq<Entry>)
    ensures |Ranked(eligible)| == |Dedup(SortBy(eligible, RowLeq))| <= |eligible|
  {
    SortKeeps(eligible, RowLeq);
    SortKeeps(Dedup(SortBy(eligible, RowLeq)), RankLeq);
  }

  lemma EarlierStep(rows: seq<Entry>, n: nat, reading: string)
    requires n < |rows|
    ensures Earlier(rows, n + 1, reading) == Earlier(rows, n, reading) + if rows[n].reading == reading then 1 else 0
  {}

  /** The surface-cap loop. */
  method Sweep(policy: Policy, rows: seq<Entry>, start: Report) returns (o: Outcome)
    requires Grouped(rows)
    ensures o == OutcomeOf(policy, rows, start, |rows|)
  {
    hide Keeps, IsFirst, SetsAgree, Earlier, Grouped, WithRow;
    o := Outcome([], [], start);
    var reading, legacyRows: nat := "", 0;
    var selected: set<string>, capped: set<string> := {}, {};
    for i := 0 to |rows|
      invariant o == OutcomeOf(policy, rows, start, i)
      invariant i > 0 ==> reading == rows[i - 1].reading
      invariant i > 0 ==> SetsAgree(policy, rows, i, reading, selected, capped) && legacyRows == Earlier(rows, i, reading)
      invariant i == 0 ==> selected == {} && capped == {} && legacyRows == 0
    {
      var entry := rows[i];
      if reading != entry.reading {
        reading, legacyRows, selected, capped := entry.reading, 0, {}, {};
        SetsStart(policy, rows, i);
      } else if i == 0 {
        SetsStart(policy, rows, i);
      }
      KeepsDecided(policy, rows, i, selected, capped);
      if Keeps(policy, rows, i) {
        SetsKeep(policy, rows, i, selected, capped);
      } else {
        SetsCap(policy, rows, i, selected, capped);
      }
      EarlierStep(rows, i, reading);
      var legacy := legacyRows < policy.legacyCap;
      legacyRows := legacyRows + 1;
      var known := entry.surface in selected;
      var room := policy.surfaceCap.None? || |selected| < policy.surfaceCap.value;
      var first := entry.surface !in selected && entry.surface !in capped;
      o := CountRow(o, entry, known, room, legacy, first);
      if known || room {
        selected := selected + {entry.surface};
      } else {
        capped := capped + {entry.surface};
      }
    }
  }

  /** The counters and vectors one row touches. */
  method CountRow(before: Outcome, entry: Entry, known: bool, room: bool, legacy: bool, first: bool) returns (o: Outcome)
    requires known ==> !first
    requires !known && room ==> first
    ensures o == WithRow(before, entry, known || room, legacy, first)
  {
    var report := before.report;
    if !legacy {
      report := report.(legacyCapped := report.legacyCapped + 1);
    }
    if known {
      if !legacy {
        report := report.(rescued := report.rescued + 1);
      }
      return Outcome(before.selected + [entry], before.evidence + [legacy], report);
    } else if room {
      if !legacy {
        report := report.(rescued := report.rescued + 1, rescuedSurfaces := report.rescuedSurfaces + 1);
      }
      return Outcome(before.selected + [entry], before.evidence + [legacy], report);
    }
    if first {
      report := report.(cappedSurfaces := report.cappedSurfaces + 1);
    }
    report := report.(capped := report.capped + 1);
    o := Outcome(before.selected, before.evidence, report);
  }

  lemma AffordablePush(policy: Policy, front: seq<Entry>, last: Entry)
    ensures Affordable(policy, front + [last])
         == if last.wordCost <= policy.maxWordCost then Affordable(policy, front) + [last] else Affordable(policy, front)
  {
    assert (front + [last])[..|front|] == front;
  }

  class MozcTrimmer {
    const policy: Policy
    var eligible: seq<Entry>
    var input: nat
    /** Everything pushed so far, in order. */
    ghost var pushed: seq<Entry>

    ghost predicate Valid()
      reads this
    {
      eligible == Affordable(policy, pushed) && input == |pushed|
    }

    constructor (policy: Policy)
      requires CheckPolicy(policy).Ok?
      ensures Valid() && this.policy == policy && pushed == []
    {
      this.policy := policy;
      eligible, input, pushed := [], 0, [];
    }

    method PushShard(entries: seq<Entry>)
      requires Valid()
      modifies this
      ensures Valid() && pushed == old(pushed) + entries
    {
      input := input + |entries|;
      ghost var before := pushed;
      assert before + entries[..0] == before;
      for i := 0 to |entries|
        invariant pushed == before + entries[..i] && eligible == Affordable(policy, pushed)
        invariant input == |before| + |entries|
      {
        var entry := entries[i];
        AffordablePush(policy, pushed, entry);
        TakeMore(entries, i);
        if entry.wordCost <= policy.maxWordCost {
          eligible := eligible + [entry];
        }
        pushed := pushed + [entry];
      }
      assert entries[..|entries|] == entries;
    }

    /** finish_with_legacy_evidence */
    method Finish() returns (o: Outcome)
      requires Valid()
      ensures o == TrimOf(policy, Affordable(policy, pushed), |pushed|)
    {
      hide Dedup, SortBy, OutcomeOf, Grouped, RowLeq, RankLeq, SortedBy, Affordable;
      var sorted := SortBy(eligible, RowLeq);
      var deduplicated := DropDuplicates(sorted);
      var rows := SortBy(deduplicated, RankLeq);
      DedupCount(eligible);
      RowsAreOrdered();
      SortSorts(deduplicated, RankLeq);
      RankedGrouped(rows);
      var start := Report(input, |eligible|, |eligible| - |rows|, 0, 0, 0, 0, 0, 0);
      o := Sweep(policy, rows, start);
      o := o.(report := o.report.(output := |o.selected|));
    }
  }

  /** The duplicate loop. */
  method DropDuplicates(sorted: seq<Entry>) returns (d: seq<Entry>)
    ensures d == Dedup(sorted)
  {
    d := [];
    for i := 0 to |sorted|
      invariant d == Dedup(sorted[..i])
    {
      TakeMore(sorted, i);
      assert sorted[..i + 1][..i] == sorted[..i];
      if d == [] || !SameIdentity(d[|d| - 1], sorted[i]) {
        d := d + [sorted[i]];
      }
    }
    assert sorted[..|sorted|] == sorted;
  }

  // ----------------------------------------------------- what the trim promises

  lemma {:induction false} OutcomeCounts(policy: Policy, rows: seq<Entry>, start: Report, n: nat)
    requires n <= |rows|
    ensures var o := OutcomeOf(policy, rows, start, n);
            && |o.selected| + o.report.capped == start.capped + n && |o.evidence| == |o.selected|
            && o.report.eligible == start.eligible && o.report.duplicates == start.duplicates
            && o.report.input == start.input
    decreases n
  {
    hide Keeps, Legacy, IsFirst;
    if n > 0 { OutcomeCounts(policy, rows, start, n - 1); }
  }

  /** Every affordable row is a duplicate, kept or capped, and counted once. */
  lemma TrimAccounts(policy: Policy, eligible: seq<Entry>, input: nat)
    ensures var o := TrimOf(policy, eligible, input);
            && o.report.eligible == |eligible| == o.report.duplicates + o.report.output + o.report.capped
            && o.report.output == |o.selected| == |o.evidence| && o.report.input == input
  {
    hide Ranked, OutcomeOf, SortBy, Dedup;
    var rows := Ranked(eligible);
    DedupCount(eligible);
    OutcomeCounts(policy, rows, Report(input, |eligible|, |eligible| - |rows|, 0, 0, 0, 0, 0, 0), |rows|);
  }

  /** The swept rows: each identity once, at its cheapest, by reading and cost. */
  lemma RankedExact(eligible: seq<Entry>)
    ensures var rows := Ranked(eligible);
            && SortedBy(rows, RankLeq)
            && (forall i, j :: 0 <= i < j < |rows| ==> !SameIdentity(rows[i], rows[j]))
            && (forall i :: 0 <= i < |rows| ==> rows[i] in eligible)
            && (forall e :: e in eligible ==> StoodFor(rows, e))
  {
    hide RowLeq, RankLeq, SameIdentity, SortBy;
    RowsAreOrdered();
    var sorted := SortBy(eligible, RowLeq);
    SortSorts(eligible, RowLeq);
    SortKeeps(eligible, RowLeq);
    DedupExact(sorted);
    var d := Dedup(sorted);
    SortSorts(d, RankLeq);
    SortKeeps(d, RankLeq);
    RankedMembers(eligible, sorted, d, SortBy(d, RankLeq));
  }

  lemma RankedMembers(eligible: seq<Entry>, sorted: seq<Entry>, d: seq<Entry>, rows: seq<Entry>)
    requires multiset(sorted) == multiset(eligible) && Deduplicated(sorted, d) && multiset(rows) == multiset(d)
    ensures forall i, j :: 0 <= i < j < |rows| ==> !SameIdentity(rows[i], rows[j])
    ensures forall i :: 0 <= i < |rows| ==> rows[i] in eligible
    ensures forall e :: e in eligible ==> StoodFor(rows, e)
  {
    hide RowLeq, CompareIdentity, SameIdentity;
    forall i, j | 0 <= i < j < |d| ensures !SameIdentity(d[i], d[j]) && !SameIdentity(d[j], d[i]) {
      IdentityCompares(d[i], d[j], d[j]);
      IdentityCompares(d[j], d[i], d[i]);
    }
    assert ConflictFree(d, SameIdentity);
    SameIdentitySymmetric();
    ConflictsReordered(rows, d, SameIdentity);
    forall i | 0 <= i < |rows| ensures rows[i] in eligible {
      assert rows[i] in multiset(rows);
      assert rows[i] in d;
      assert rows[i] in multiset(sorted);
    }
    forall e | e in eligible ensures StoodFor(rows, e) {
      assert e in multiset(eligible);
      assert StoodFor(d, e);
      var i :| 0 <= i < |d| && SameIdentity(d[i], e) && RowLeq(d[i], e);
      assert d[i] in multiset(d);
      var k :| 0 <= k < |rows| && rows[k] == d[i];
    }
  }

  lemma SameIdentitySymmetric()
    ensures forall a, b :: SameIdentity(a, b) <==> SameIdentity(b, a)
  {}

  /** Positions kept among the first n rows. */
  function KeptPositions(policy: Policy, rows: seq<Entry>, n: nat): (k: seq<nat>)
    requires n <= |rows|
    ensures forall i :: 0 <= i < |k| ==> k[i] < n
  {
    if n == 0 then []
    else
      var front := KeptPositions(policy, rows, n - 1);
      if Keeps(policy, rows, n - 1) then front + [n - 1] else front
  }

  /** Kept are, in sweep order, exactly the rows with one of the first `cap`
      surfaces of their reading; evidence marks those within the row cap. */
  ghost predicate Cut(policy: Policy, rows: seq<Entry>, n: nat, k: seq<nat>, selected: seq<Entry>, evidence: seq<bool>)
    requires n <= |rows|
  {
    && |k| == |selected| == |evidence|
    && (forall i :: 0 <= i < |k| ==>
          k[i] < n && Keeps(policy, rows, k[i]) && selected[i] == rows[k[i]] && evidence[i] == Legacy(policy, rows, k[i]))
    && (forall i, j :: 0 <= i < j < |k| ==> k[i] < k[j])
    && (forall r {:trigger Keeps(policy, rows, r)} :: 0 <= r < n && Keeps(policy, rows, r) ==> r in k)
  }

  lemma {:induction false} SelectionExact(policy: Policy, rows: seq<Entry>, start: Report, n: nat)
    requires n <= |rows|
    ensures var o := OutcomeOf(policy, rows, start, n);
            Cut(policy, rows, n, KeptPositions(policy, rows, n), o.selected, o.evidence)
    decreases n
  {
    hide Keeps, Legacy, IsFirst, Cut;
    if n == 0 {
      NothingCut(policy, rows);
    } else {
      SelectionExact(policy, rows, start, n - 1);
      var o := OutcomeOf(policy, rows, start, n - 1);
      CutStep(policy, rows, n - 1, KeptPositions(policy, rows, n - 1), o.selected, o.evidence);
    }
  }

  lemma NothingCut(policy: Policy, rows: seq<Entry>)
    ensures Cut(policy, rows, 0, [], [], [])
  {}

  lemma CutStep(policy: Policy, rows: seq<Entry>, n: nat, k: seq<nat>, selected: seq<Entry>, evidence: seq<bool>)
    requires n < |rows| && Cut(policy, rows, n, k, selected, evidence)
    ensures if Keeps(policy, rows, n) then
              Cut(policy, rows, n + 1, k + [n], selected + [rows[n]], evidence + [Legacy(policy, rows, n)])
            else Cut(policy, rows, n + 1, k, selected, evidence)
  {
    hide Keeps, Legacy;
    var longer := k + [n];
    assert forall r :: r in k ==> r in longer;
    assert n in longer;
  }

  /** The trim keeps exactly the first `cap` surfaces of each reading. */
  lemma TrimKeepsFirstSurfaces(policy: Policy, eligible: seq<Entry>, input: nat)
    ensures var rows, o := Ranked(eligible), TrimOf(policy, eligible, input);
            Cut(policy, rows, |rows|, KeptPositions(policy, rows, |rows|), o.selected, o.evidence)
  {
    hide Ranked, OutcomeOf, SortBy, Dedup, Cut;
    var rows := Ranked(eligible);
    DedupCount(eligible);
    SelectionExact(policy, rows, Report(input, |eligible|, |eligible| - |rows|, 0, 0, 0, 0, 0, 0), |rows|);
  }

  // ------------------------------------------------------ shard order is irrelevant

  function BareAll(s: seq<Entry>): seq<Entry> { Map(Bare, s) }

  lemma BareComparesAlike()
    ensures forall a, b :: RowLeq(a, b) <==> RowLeq(Bare(a), Bare(b))
    ensures forall a, b :: RankLeq(a, b) <==> RankLeq(Bare(a), Bare(b))
  {}

  lemma {:induction false} DedupBare(s: seq<Entry>)
    ensures BareAll(Dedup(s)) == Dedup(BareAll(s))
    decreases |s|
  {
    if s != [] {
      var front, last := s[..|s| - 1], s[|s| - 1];
      DedupBare(front);
      assert BareAll(s)[..|s| - 1] == BareAll(front);
      assert BareAll(Dedup(front) + [last]) == BareAll(Dedup(front)) + [Bare(last)];
    }
  }

  lemma RankedBare(eligible: seq<Entry>)
    ensures BareAll(Ranked(eligible)) == Ranked(BareAll(eligible))
  {
    hide RowLeq, RankLeq, SortBy, Dedup;
    BareComparesAlike();
    SortMaps(eligible, Bare, RowLeq, RowLeq);
    var sorted := SortBy(eligible, RowLeq);
    DedupBare(sorted);
    SortMaps(Dedup(sorted), Bare, RankLeq, RankLeq);
  }

  ghost predicate AllBare(s: seq<Entry>) { forall e :: e in s ==> Bare(e) == e }

  /** Rows that differ in nothing the first sort sees are equal. */
  lemma BareRowsDoNotTie(s: seq<Entry>)
    requires AllBare(s)
    ensures NoTies(s, RowLeq)
  {
    hide CompareRow;
    forall a, b | a in s && b in s && RowLeq(a, b) && RowLeq(b, a) ensures a == b {
      RowCompares(a, b, b);
    }
  }

  lemma RankedIgnoresOrder(a: seq<Entry>, b: seq<Entry>)
    requires multiset(BareAll(a)) == multiset(BareAll(b))
    ensures BareAll(Ranked(a)) == BareAll(Ranked(b))
  {
    hide RowLeq, RankLeq, Dedup;
    RankedBare(a);
    RankedBare(b);
    RowsAreOrdered();
    var x, y := BareAll(a), BareAll(b);
    SortSorts(x, RowLeq);
    SortSorts(y, RowLeq);
    SortKeeps(x, RowLeq);
    SortKeeps(y, RowLeq);
    BareMembers(a, SortBy(x, RowLeq));
    BareRowsDoNotTie(SortBy(x, RowLeq));
    SortedUnique(SortBy(x, RowLeq), SortBy(y, RowLeq), RowLeq);
  }

  lemma BareMembers(a: seq<Entry>, sorted: seq<Entry>)
    requires multiset(sorted) == multiset(BareAll(a))
    ensures AllBare(sorted)
  {
    forall e | e in sorted ensures Bare(e) == e {
      assert e in multiset(sorted);
      assert e in BareAll(a);
    }
  }

  /** Nothing the cap decides depends on provenance. */
  lemma KeepsBare(policy: Policy, rows: seq<Entry>, i: nat)
    requires i < |rows|
    ensures Keeps(policy, BareAll(rows), i) == Keeps(policy, rows, i)
    ensures Legacy(policy, BareAll(rows), i) == Legacy(policy, rows, i)
    ensures IsFirst(BareAll(rows), i) == IsFirst(rows, i)
  {
    var f, g := FirstRow(rows, i, 0), FirstRow(BareAll(rows), i, 0);
    assert BareAll(rows)[f] == Bare(rows[f]) && BareAll(rows)[g] == Bare(rows[g]);
    assert f == g;
    SurfacesBare(rows, f, rows[i].reading);
    EarlierBare(rows, i, rows[i].reading);
  }

  lemma SurfacesBare(rows: seq<Entry>, n: nat, reading: string)
    requires n <= |rows|
    ensures Surfaces(BareAll(rows), n, reading) == Surfaces(rows, n, reading)
  {
    var bare := BareAll(rows);
    assert forall j :: 0 <= j < n ==> bare[j].reading == rows[j].reading && bare[j].surface == rows[j].surface;
    forall s ensures s in Surfaces(bare, n, reading) <==> s in Surfaces(rows, n, reading) {
      if s in Surfaces(bare, n, reading) {
        var j :| 0 <= j < n && bare[j].reading == reading && bare[j].surface == s;
        assert rows[j].reading == reading && rows[j].surface == s;
      }
      if s in Surfaces(rows, n, reading) {
        var j :| 0 <= j < n && rows[j].reading == reading && rows[j].surface == s;
        assert bare[j].reading == reading && bare[j].surface == s;
      }
    }
  }

  lemma {:induction false} EarlierBare(rows: seq<Entry>, n: nat, reading: string)
    requires n <= |rows|
    ensures Earlier(BareAll(rows), n, reading) == Earlier(rows, n, reading)
    decreases n
  {
    if n > 0 { EarlierBare(rows, n - 1, reading); }
  }

  lemma {:induction false} OutcomeBare(policy: Policy, rows: seq<Entry>, start: Report, n: nat)
    requires n <= |rows|
    ensures var o, b := OutcomeOf(policy, rows, start, n), OutcomeOf(policy, BareAll(rows), start, n);
            b.selected == BareAll(o.selected) && b.evidence == o.evidence && b.report == o.report
    decreases n
  {
    hide Keeps, Legacy, IsFirst, WithRow;
    if n > 0 {
      OutcomeBare(policy, rows, start, n - 1);
      KeepsBare(policy, rows, n - 1);
      WithRowBare(OutcomeOf(policy, rows, start, n - 1), OutcomeOf(policy, BareAll(rows), start, n - 1), rows[n - 1],
                  Keeps(policy, rows, n - 1), Legacy(policy, rows, n - 1), IsFirst(rows, n - 1));
    }
  }

  lemma WithRowBare(o: Outcome, b: Outcome, row: Entry, keep: bool, legacy: bool, first: bool)
    requires b.selected == BareAll(o.selected) && b.evidence == o.evidence && b.report == o.report
    ensures var p, c := WithRow(o, row, keep, legacy, first), WithRow(b, Bare(row), keep, legacy, first);
            c.selected == BareAll(p.selected) && c.evidence == p.evidence && c.report == p.report
  {
    assert BareAll(o.selected + [row]) == BareAll(o.selected) + [Bare(row)];
  }

  /** Pushing the same rows in another order or other shards gives the same
      rows but for provenance, the same evidence and the same report. */
  lemma TrimIgnoresShardOrder(policy: Policy, a: seq<Entry>, b: seq<Entry>, input: nat)
    requires multiset(BareAll(a)) == multiset(BareAll(b))
    ensures var o, p := TrimOf(policy, a, input), TrimOf(policy, b, input);
            BareAll(o.selected) == BareAll(p.selected) && o.evidence == p.evidence && o.report == p.report
  {
    hide Ranked, OutcomeOf, SortBy, Dedup;
    RankedIgnoresOrder(a, b);
    SameSize(BareAll(a), BareAll(b));
    DedupCount(a);
    DedupCount(b);
    var rows, others := Ranked(a), Ranked(b);
    assert |rows| == |BareAll(rows)| == |BareAll(others)| == |others|;
    var start := Report(input, |a|, |a| - |rows|, 0, 0, 0, 0, 0, 0);
    OutcomeBare(policy, rows, start, |rows|);
    OutcomeBare(policy, others, start, |others|);
  }

  lemma {:induction false} AffordableConcat(policy: Policy, a: seq<Entry>, b: seq<Entry>)
    ensures Affordable(policy, a + b) == Affordable(policy, a) + Affordable(policy, b)
    decreases |b|
  {
    if b == [] {
      assert a + b == a;
    } else {
      var front, last := b[..|b| - 1], b[|b| - 1];
      AffordableConcat(policy, a, front);
      assert a + b == (a + front) + [last] && b == front + [last];
      hide Affordable;
      AffordablePush(policy, a + front, last);
      AffordablePush(policy, front, last);
      Regroup(Affordable(policy, a), Affordable(policy, front), [last]);
    }
  }

  /** In particular two shards may arrive in either order. */
  lemma ShardsCommute(policy: Policy, a: seq<Entry>, b: seq<Entry>, input: nat)
    ensures var o, p := TrimOf(policy, Affordable(policy, a + b), input), TrimOf(policy, Affordable(policy, b + a), input);
            BareAll(o.selected) == BareAll(p.selected) && o.evidence == p.evidence && o.report == p.report
  {
    hide TrimOf;
    AffordableConcat(policy, a, b);
    AffordableConcat(policy, b, a);
    MapBag(Affordable(policy, a + b), Affordable(policy, b + a), Bare);
    TrimIgnoresShardOrder(policy, Affordable(policy, a + b), Affordable(policy, b + a), input);
  }
}
