/** Offline replay: which rankings are valid, and the counters of a replay. */
module Replay {
  import opened Wrappers
  import opened Wire
  import opened Sequences
  import opened Sorting
  import opened ContextFrames
  import opened Baseline
  import opened Snapshots

  const DISPLAY := 9

  datatype Observation = Observation(snapshot: PredictionSnapshot, ranked: seq<u64>, expected: Option<u64>,
                                     response: SnapshotCorrelation, without: u16, with_: u16)

  datatype EvaluationError = TooManyRanked | RepeatedRanked | UnexpectedRanked | MissingProtected | ProtectedOrderChanged
                           | OrdinaryBeforeProtected | InvalidKeystrokes

  function OriginalIds(s: PredictionSnapshot): (ids: seq<u64>)
    ensures |ids| == |s.candidates| && forall i :: 0 <= i < |ids| ==> ids[i] == s.candidates[i].id
  {
    seq(|s.candidates|, i requires 0 <= i < |s.candidates| => s.candidates[i].id)
  }

  /** snapshot.candidate(id) */
  function CandidateFrom(s: PredictionSnapshot, id: u64, i: nat): (r: Option<Kept>)
    requires i <= |s.candidates|
    ensures r.Some? ==> r.value.id == id && r.value in s.candidates
    ensures r.None? ==> id !in OriginalIds(s)[i..]
    decreases |s.candidates| - i
  {
    if i == |s.candidates| then None
    else if s.candidates[i].id == id then Some(s.candidates[i])
    else CandidateFrom(s, id, i + 1)
  }

  function Candidate(s: PredictionSnapshot, id: u64): Option<Kept> { CandidateFrom(s, id, 0) }

  lemma CandidateIsMember(s: PredictionSnapshot, id: u64)
    ensures Candidate(s, id).Some? <==> id in OriginalIds(s)
  {
    var ids := OriginalIds(s);
    assert ids[0..] == ids;
    if Candidate(s, id).Some? {
      var k :| 0 <= k < |s.candidates| && s.candidates[k] == Candidate(s, id).value;
      assert ids[k] == id;
    }
  }

  /** Ids of the protected candidates among the first n, in snapshot order. */
  function ProtectedIds(s: PredictionSnapshot, n: nat): seq<u64>
    requires n <= |s.candidates|
  {
    if n == 0 then []
    else
      var front, last := ProtectedIds(s, n - 1), s.candidates[n - 1];
      if last.input.authority.Protected() then front + [last.id] else front
  }

  function AllProtected(s: PredictionSnapshot): seq<u64> { ProtectedIds(s, |s.candidates|) }

  /** The ranked ids that are among `wanted`, in ranked order. */
  function Only(ranked: seq<u64>, wanted: seq<u64>): seq<u64> {
    if ranked == [] then []
    else
      var front, last := Only(ranked[..|ranked| - 1], wanted), ranked[|ranked| - 1];
      if last in wanted then front + [last] else front
  }

  /** The member checks in ranked order. */
  function CheckMembers(s: PredictionSnapshot, ranked: seq<u64>, i: nat): Result<(), EvaluationError>
    requires i <= |ranked|
    decreases |ranked| - i
  {
    if i == |ranked| then Ok(())
    else if ranked[i] in ranked[..i] then Err(RepeatedRanked)
    else if Candidate(s, ranked[i]).None? then Err(UnexpectedRanked)
    else CheckMembers(s, ranked, i + 1)
  }

  predicate ContainsAll(ranked: seq<u64>, wanted: seq<u64>) { forall i :: 0 <= i < |wanted| ==> wanted[i] in ranked }

  /** validate_observation */
  function CheckObservation(o: Observation): Result<(), EvaluationError> {
    var wanted := AllProtected(o.snapshot);
    if |o.ranked| > CAPACITY then Err(TooManyRanked)
    else if o.with_ > o.without then Err(InvalidKeystrokes)
    else
      var _ :- CheckMembers(o.snapshot, o.ranked, 0);
      if |o.ranked| < |wanted| then Err(MissingProtected)
      else if !ContainsAll(o.ranked, wanted) then Err(MissingProtected)
      else if Only(o.ranked, wanted) != wanted then Err(ProtectedOrderChanged)
      else if !ContainsAll(wanted, o.ranked[..|wanted|]) then Err(OrdinaryBeforeProtected)
      else Ok(())
  }

  lemma {:induction false} MembersChecked(s: PredictionSnapshot, ranked: seq<u64>, i: nat)
    requires i <= |ranked| && Distinct(ranked[..i]) && ContainsAll(OriginalIds(s), ranked[..i])
    ensures CheckMembers(s, ranked, i).Ok? <==> Distinct(ranked) && ContainsAll(OriginalIds(s), ranked)
    decreases |ranked| - i
  {
    hide Candidate;
    if i == |ranked| {
      assert ranked[..i] == ranked;
    } else {
      CandidateIsMember(s, ranked[i]);
      TakeMore(ranked, i);
      if ranked[i] in ranked[..i] {
        var k :| 0 <= k < i && ranked[k] == ranked[i];
        assert !Distinct(ranked);
      } else if Candidate(s, ranked[i]).None? {
        assert ranked[i] !in OriginalIds(s);
      } else {
        MembersChecked(s, ranked, i + 1);
      }
    }
  }

  lemma {:induction false} OnlyOfAll(ranked: seq<u64>, wanted: seq<u64>)
    requires ContainsAll(wanted, ranked)
    ensures Only(ranked, wanted) == ranked
    decreases |ranked|
  {
    if ranked != [] {
      var front, last := ranked[..|ranked| - 1], ranked[|ranked| - 1];
      OnlyOfAll(front, wanted);
      assert ranked == front + [last];
    }
  }

  lemma {:induction false} OnlyOfNone(ranked: seq<u64>, wanted: seq<u64>)
    requires forall x :: x in ranked ==> x !in wanted
    ensures Only(ranked, wanted) == []
    decreases |ranked|
  {
    if ranked != [] { OnlyOfNone(ranked[..|ranked| - 1], wanted); }
  }

  lemma {:induction false} OnlyOfConcat(a: seq<u64>, b: seq<u64>, wanted: seq<u64>)
    ensures Only(a + b, wanted) == Only(a, wanted) + Only(b, wanted)
    decreases |b|
  {
    if b == [] {
      assert a + b == a;
    } else {
      var front, last := b[..|b| - 1], b[|b| - 1];
      OnlyOfConcat(a, front, wanted);
      assert (a + b)[..|a + b| - 1] == a + front;
    }
  }

  lemma HalvesDisjoint(ranked: seq<u64>, n: nat)
    requires Distinct(ranked) && n <= |ranked|
    ensures forall x :: x in ranked[n..] ==> x !in ranked[..n]
  {
    assert forall k :: 0 <= k < |ranked| - n ==> ranked[n..][k] == ranked[n + k];
  }

  /** The four checks on protected candidates say one thing: their ids, in
      snapshot order, are how the ranking begins. */
  lemma ProtectedChecksMeanPrefix(ranked: seq<u64>, wanted: seq<u64>)
    requires Distinct(ranked)
    ensures (|wanted| <= |ranked| && ContainsAll(ranked, wanted) && Only(ranked, wanted) == wanted
             && ContainsAll(wanted, ranked[..|wanted|]))
       <==> wanted <= ranked
  {
    hide Only;
    if |wanted| <= |ranked| {
      var front, rest := ranked[..|wanted|], ranked[|wanted|..];
      assert ranked == front + rest;
      OnlyOfConcat(front, rest, wanted);
      if ContainsAll(wanted, front) { OnlyOfAll(front, wanted); }
      if wanted <= ranked {
        assert front == wanted;
        HalvesDisjoint(ranked, |wanted|);
        OnlyOfNone(rest, wanted);
        assert wanted + [] == wanted;
      }
    }
  }

  /** Which observations a replay accepts. */
  lemma ObservationAccepted(o: Observation)
    ensures CheckObservation(o).Ok? <==>
      && |o.ranked| <= CAPACITY && o.with_ <= o.without
      && Distinct(o.ranked) && ContainsAll(OriginalIds(o.snapshot), o.ranked)
      && AllProtected(o.snapshot) <= o.ranked
  {
    hide CheckMembers, Only, AllProtected, ContainsAll;
    MembersChecked(o.snapshot, o.ranked, 0) by { NothingContained(OriginalIds(o.snapshot), o.ranked); }
    if Distinct(o.ranked) {
      ProtectedChecksMeanPrefix(o.ranked, AllProtected(o.snapshot));
    }
  }

  lemma NothingContained(all: seq<u64>, ranked: seq<u64>)
    ensures ContainsAll(all, ranked[..0])
  {}

  // ------------------------------------------------------ baseline rankings

  lemma {:induction false} ProtectedRowIds(signals: Signals, surfaceOf: SurfaceHash, s: PredictionSnapshot, n: nat)
    requires n <= |s.candidates|
    ensures RankedIds(ProtectedRows(signals, Locals(surfaceOf, s), n)) == ProtectedIds(s, n)
    decreases n
  {
    if n > 0 { ProtectedRowIds(signals, surfaceOf, s, n - 1); }
  }


  /** The baseline ranking of a built snapshot is always a valid observation. */
  lemma BaselineIsAccepted(signals: Signals, surfaceOf: SurfaceHash, s: PredictionSnapshot, o: Observation)
    requires IsBuilt(s) && o.snapshot == s && o.with_ <= o.without
    requires o.ranked == RankedIds(Ranking(signals, Locals(surfaceOf, s)))
    ensures CheckObservation(o).Ok?
  {
    hide ScoreOf, SortBy, ProtectedRows, OrdinaryRows;
    var locals := Locals(surfaceOf, s);
    var r := Ranking(signals, locals);
    SortKeeps(Scores(signals, locals), KeyLeq);
    RankingRows(signals, locals, r);
    RankedMembers(signals, surfaceOf, s, r);
    ProtectedLead(signals, locals);
    ProtectedRowIds(signals, surfaceOf, s, |s.candidates|);
    PrefixIds(ProtectedRows(signals, locals, |locals|), SortBy(OrdinaryRows(signals, locals, |locals|), KeyLeq));
    ObservationAccepted(o);
  }

  lemma PrefixIds(p: seq<LocalScore>, o: seq<LocalScore>)
    ensures RankedIds(p) <= RankedIds(p + o)
  {}

  lemma RankedMembers(signals: Signals, surfaceOf: SurfaceHash, s: PredictionSnapshot, r: seq<LocalScore>)
    requires IsBuilt(s) && |r| == |s.candidates| && IndexedBelow(r, |s.candidates|)
    requires forall i :: 0 <= i < |r| ==> r[i] == ScoreOf(signals, Locals(surfaceOf, s)[r[i].index], r[i].index)
    ensures Distinct(RankedIds(r)) && ContainsAll(OriginalIds(s), RankedIds(r))
  {
    var ids := RankedIds(r);
    forall i | 0 <= i < |r| ensures ids[i] == s.candidates[r[i].index].id == OriginalIds(s)[r[i].index] {}
  }

  // ----------------------------------------------------------------- metrics

  datatype Fraction = Fraction(numerator: nat, denominator: nat) {
    function Add(hits: nat, of_: nat): Fraction { Fraction(numerator + hits, denominator + of_) }
  }

  datatype SourceHit = SourceHit(top9: nat, opportunities: nat)

  /** The integer counters. `sources` are history, system and user dictionary. */
  datatype Metrics = Metrics(observations: nat, labelled: nat, oracle9: Fraction, oracle16: Fraction, oracle32: Fraction,
                             top1: Fraction, top3: Fraction, top9: Fraction, saved: nat, without: nat,
                             persistence: Fraction, churn: Fraction, stale: Fraction, duplicates: Fraction,
                             history: SourceHit, system: SourceHit, user: SourceHit)

  const NONE := Fraction(0, 0)
  const NO_HITS := SourceHit(0, 0)
  const EMPTY_METRICS := Metrics(0, 0, NONE, NONE, NONE, NONE, NONE, NONE, 0, 0, NONE, NONE, NONE, NONE,
                                 NO_HITS, NO_HITS, NO_HITS)

  datatype Previous = Previous(sessionId: u64, ids: seq<u64>, stale: bool)

  function First(ids: seq<u64>, n: nat): seq<u64> { if |ids| <= n then ids else ids[..n] }

  predicate IsStale(o: Observation) { o.snapshot.correlation != o.response }

  function Effective(o: Observation): seq<u64> { if IsStale(o) then OriginalIds(o.snapshot) else o.ranked }

  function AddSource(m: Metrics, source: Source, hit: nat): Metrics {
    match source
    case History => m.(history := SourceHit(m.history.top9 + hit, m.history.opportunities + 1))
    case SystemDictionary => m.(system := SourceHit(m.system.top9 + hit, m.system.opportunities + 1))
    case UserSource => m.(user := SourceHit(m.user.top9 + hit, m.user.opportunities + 1))
  }

  /** The counters of one labelled observation but for its source. */
  function CountLabel(m: Metrics, o: Observation, expected: u64): Metrics {
    var original, effective := OriginalIds(o.snapshot), Effective(o);
    m.(labelled := m.labelled + 1,
       oracle9 := m.oracle9.Add(One(expected in First(original, 9)), 1),
       oracle16 := m.oracle16.Add(One(expected in First(original, 16)), 1),
       oracle32 := m.oracle32.Add(One(expected in First(original, 32)), 1),
       top1 := m.top1.Add(One(expected in First(effective, 1)), 1),
       top3 := m.top3.Add(One(expected in First(effective, 3)), 1),
       top9 := m.top9.Add(One(expected in First(effective, DISPLAY)), 1))
  }

  function AddLabel(m: Metrics, o: Observation, expected: u64): Metrics {
    match Candidate(o.snapshot, expected)
    case None => CountLabel(m, o, expected)
    case Some(c) => AddSource(CountLabel(m, o, expected), c.input.source, One(expected in First(Effective(o), DISPLAY)))
  }

  /** How many of the first ids are not among the second. */
  function Missing(before: seq<u64>, now: seq<u64>): (n: nat)
    ensures n <= |before|
  {
    if before == [] then 0
    else Missing(before[..|before| - 1], now) + One(before[|before| - 1] !in now)
  }

  function AddStability(m: Metrics, before: seq<u64>, now: seq<u64>): Metrics {
    var shown, next := First(before, DISPLAY), First(now, DISPLAY);
    m.(persistence := m.persistence.Add(One(shown != [] && shown[0] in next), One(shown != [])),
       churn := m.churn.Add(Missing(shown, next), |shown|))
  }

  /** One valid observation. */
  function Step(m: Metrics, previous: Option<Previous>, o: Observation): Metrics
    requires o.with_ <= o.without && |o.snapshot.candidates| <= o.snapshot.offered
  {
    var duplicates := o.snapshot.offered - |o.snapshot.candidates|;
    var counted := m.(observations := m.observations + 1,
                     stale := m.stale.Add(One(IsStale(o)), 1),
                     duplicates := m.duplicates.Add(duplicates, o.snapshot.offered));
    var named := match o.expected case None => counted case Some(expected) => AddLabel(counted, o, expected);
    var typed := named.(without := named.without + o.without, saved := named.saved + o.without - o.with_);
    match previous
    case None => typed
    case Some(p) =>
      if !IsStale(o) && !p.stale && p.sessionId == o.snapshot.correlation.sessionId then
        AddStability(typed, p.ids, Effective(o))
      else typed
  }

  function PreviousOf(o: Observation): Previous {
    Previous(o.snapshot.correlation.sessionId, Effective(o), IsStale(o))
  }

  ghost predicate AllBuilt(observations: seq<Observation>) {
    forall i :: 0 <= i < |observations| ==> IsBuilt(observations[i].snapshot)
  }

  lemma AcceptedKeystrokes(o: Observation)
    requires CheckObservation(o).Ok?
    ensures o.with_ <= o.without
  {}

  /** The metrics of the first n observations. */
  ghost function ReplayOf(observations: seq<Observation>, n: nat): Result<Metrics, EvaluationError>
    requires n <= |observations| && AllBuilt(observations)
  {
    if n == 0 then Ok(EMPTY_METRICS)
    else
      var before :- ReplayOf(observations, n - 1);
      var o := observations[n - 1];
      var _ :- CheckObservation(o);
      AcceptedKeystrokes(o);
      Ok(Step(before, if n == 1 then None else Some(PreviousOf(observations[n - 2])), o))
  }

  method ValidateObservation(o: Observation) returns (r: Result<(), EvaluationError>)
    ensures r == CheckObservation(o)
  {
    hide Candidate, Only, ContainsAll, ProtectedIds;
    if |o.ranked| > CAPACITY { return Err(TooManyRanked); }
    if o.with_ > o.without { return Err(InvalidKeystrokes); }
    for i := 0 to |o.ranked|
      invariant CheckMembers(o.snapshot, o.ranked, 0) == CheckMembers(o.snapshot, o.ranked, i)
    {
      if o.ranked[i] in o.ranked[..i] { return Err(RepeatedRanked); }
      if Candidate(o.snapshot, o.ranked[i]).None? { return Err(UnexpectedRanked); }
    }
    var ids := CollectProtected(o.snapshot);
    if |o.ranked| < |ids| { return Err(MissingProtected); }
    var present := HoldsEach(o.ranked, ids);
    if !present { return Err(MissingProtected); }
    var inOrder := KeepsOrder(o.ranked, ids);
    if !inOrder { return Err(ProtectedOrderChanged); }
    var leading := HoldsEach(ids, o.ranked[..|ids|]);
    if !leading { return Err(OrdinaryBeforeProtected); }
    r := Ok(());
  }

  /** The protected ids, in snapshot order. */
  method CollectProtected(s: PredictionSnapshot) returns (ids: seq<u64>)
    ensures ids == AllProtected(s)
  {
    ids := [];
    for i := 0 to |s.candidates|
      invariant ids == ProtectedIds(s, i)
    {
      if s.candidates[i].input.authority.Protected() { ids := ids + [s.candidates[i].id]; }
    }
  }

  method HoldsEach(all: seq<u64>, some: seq<u64>) returns (r: bool)
    ensures r == ContainsAll(all, some)
  {
    for i := 0 to |some|
      invariant forall k :: 0 <= k < i ==> some[k] in all
    {
      if some[i] !in all { return false; }
    }
    r := true;
  }

  /** Compares the ranked ids that are protected with the protected ids. */
  method KeepsOrder(ranked: seq<u64>, ids: seq<u64>) returns (r: bool)
    ensures r == (Only(ranked, ids) == ids)
  {
    var kept: seq<u64> := [];
    for i := 0 to |ranked|
      invariant kept == Only(ranked[..i], ids)
    {
      assert ranked[..i + 1][..i] == ranked[..i];
      if ranked[i] in ids { kept := kept + [ranked[i]]; }
    }
    assert ranked[..|ranked|] == ranked;
    r := kept == ids;
  }

  lemma {:induction false} FailureStays(observations: seq<Observation>, i: nat, n: nat)
    requires i <= n <= |observations| && AllBuilt(observations) && ReplayOf(observations, i).Err?
    ensures ReplayOf(observations, n) == ReplayOf(observations, i)
    decreases n
  {
    hide CheckObservation, Step, PreviousOf;
    if i < n { FailureStays(observations, i, n - 1); }
  }

  /** evaluate_replay */
  method EvaluateReplay(observations: seq<Observation>) returns (r: Result<Metrics, EvaluationError>)
    requires AllBuilt(observations)
    ensures r == ReplayOf(observations, |observations|)
    ensures r.Ok? ==> Consistent(r.value)
  {
    hide CheckObservation, Step, PreviousOf, Consistent, IsBuilt;
    var metrics, previous := EMPTY_METRICS, None;
    EmptyConsistent();
    for i := 0 to |observations|
      invariant ReplayOf(observations, i) == Ok(metrics) && Consistent(metrics)
      invariant previous == if i == 0 then None else Some(PreviousOf(observations[i - 1]))
    {
      var o := observations[i];
      var valid := ValidateObservation(o);
      if valid.Err? {
        FailureStays(observations, i + 1, |observations|);
        return Err(valid.error);
      }
      AcceptedKeystrokes(o);
      BuiltFits(o.snapshot);
      StepConsistent(metrics, previous, o);
      metrics, previous := Step(metrics, previous, o), Some(PreviousOf(o));
    }
    r := Ok(metrics);
  }

  lemma BuiltFits(s: PredictionSnapshot)
    requires IsBuilt(s)
    ensures |s.candidates| <= s.offered && |s.candidates| <= CAPACITY
  {}

  // ------------------------------------------------- what the counters satisfy

  function SourceHits(m: Metrics): nat { m.history.top9 + m.system.top9 + m.user.top9 }

  function SourceOpportunities(m: Metrics): nat {
    m.history.opportunities + m.system.opportunities + m.user.opportunities
  }

  predicate SourcesOrdered(m: Metrics) {
    m.history.top9 <= m.history.opportunities && m.system.top9 <= m.system.opportunities
    && m.user.top9 <= m.user.opportunities
  }

  lemma SourceTotals(m: Metrics, source: Source, hit: nat)
    requires hit <= 1
    ensures var r := AddSource(m, source, hit);
            && r == m.(history := r.history, system := r.system, user := r.user)
            && SourceHits(r) == SourceHits(m) + hit && SourceOpportunities(r) == SourceOpportunities(m) + 1
            && (SourcesOrdered(m) ==> SourcesOrdered(r))
  {}

  /** Hits never exceed opportunities, deeper cut-offs never find less, and the
      sources account for every hit and every opportunity. */
  ghost predicate Consistent(m: Metrics) {
    && m.top1.numerator <= m.top3.numerator <= m.top9.numerator <= m.oracle32.numerator <= m.labelled <= m.observations
    && m.oracle9.numerator <= m.oracle16.numerator <= m.oracle32.numerator
    && m.oracle9.denominator == m.oracle16.denominator == m.oracle32.denominator == m.labelled
    && m.top1.denominator == m.top3.denominator == m.top9.denominator == m.labelled
    && SourceHits(m) == m.top9.numerator && SourceOpportunities(m) == m.oracle32.numerator && SourcesOrdered(m)
    && m.saved <= m.without
    && m.stale.numerator <= m.stale.denominator == m.observations
    && m.duplicates.numerator <= m.duplicates.denominator
    && m.persistence.numerator <= m.persistence.denominator <= m.observations
    && m.churn.numerator <= m.churn.denominator
  }

  lemma NoSources(m: Metrics)
    requires m.history == m.system == m.user == NO_HITS
    ensures SourceHits(m) == 0 && SourceOpportunities(m) == 0 && SourcesOrdered(m)
  {}

  lemma EmptyConsistent()
    ensures Consistent(EMPTY_METRICS)
  {
    hide SourceHits, SourceOpportunities, SourcesOrdered;
    NoSources(EMPTY_METRICS);
  }

  lemma FirstNested(ids: seq<u64>, m: nat, n: nat, x: u64)
    requires m <= n
    ensures x in First(ids, m) ==> x in First(ids, n) && x in ids
  {}

  lemma FirstAll(ids: seq<u64>, n: nat)
    requires |ids| <= n
    ensures First(ids, n) == ids
  {}

  /** What is displayed was offered: a valid effective order has no strangers. */
  lemma EffectiveIsOffered(o: Observation, id: u64)
    requires CheckObservation(o).Ok? && id in Effective(o)
    ensures id in OriginalIds(o.snapshot)
  {
    ObservationAccepted(o);
    if !IsStale(o) {
      var k :| 0 <= k < |o.ranked| && o.ranked[k] == id;
    }
  }

  /** The relations between the counters of one labelled observation. */
  lemma LabelFacts(o: Observation, expected: u64)
    requires CheckObservation(o).Ok? && |o.snapshot.candidates| <= CAPACITY
    ensures var original, effective := OriginalIds(o.snapshot), Effective(o);
            && (expected in First(effective, 1) ==> expected in First(effective, 3))
            && (expected in First(effective, 3) ==> expected in First(effective, DISPLAY))
            && (expected in First(effective, DISPLAY) ==> expected in First(original, 32))
            && (expected in First(original, 9) ==> expected in First(original, 16))
            && (expected in First(original, 16) ==> expected in First(original, 32))
            && (Candidate(o.snapshot, expected).Some? <==> expected in First(original, 32))
  {
    hide Candidate, CheckObservation, Effective, First;
    var original, effective := OriginalIds(o.snapshot), Effective(o);
    FirstNested(effective, 1, 3, expected);
    FirstNested(effective, 3, DISPLAY, expected);
    FirstNested(effective, DISPLAY, DISPLAY, expected);
    FirstNested(original, 9, 16, expected);
    FirstNested(original, 16, 32, expected);
    FirstAll(original, 32);
    CandidateIsMember(o.snapshot, expected);
    if expected in First(effective, DISPLAY) { EffectiveIsOffered(o, expected); }
  }

  /** A labelled observation keeps every relation; `m` already counts it. */
  lemma LabelKeeps(m: Metrics, o: Observation, expected: u64)
    requires CheckObservation(o).Ok? && |o.snapshot.candidates| <= CAPACITY
    requires Consistent(m) && m.labelled < m.observations
    ensures Consistent(AddLabel(m, o, expected))
  {
    hide Candidate, CheckObservation, Effective, First, AddSource, SourceHits, SourceOpportunities, SourcesOrdered;
    LabelFacts(o, expected);
    var counted := CountLabel(m, o, expected);
    SameSources(m, counted);
    if Candidate(o.snapshot, expected).Some? {
      SourceTotals(counted, Candidate(o.snapshot, expected).value.input.source,
                   One(expected in First(Effective(o), DISPLAY)));
    }
  }

  lemma SameSources(m: Metrics, n: Metrics)
    requires m.history == n.history && m.system == n.system && m.user == n.user
    ensures SourceHits(m) == SourceHits(n) && SourceOpportunities(m) == SourceOpportunities(n)
    ensures SourcesOrdered(m) == SourcesOrdered(n)
  {}

  lemma StepConsistent(m: Metrics, previous: Option<Previous>, o: Observation)
    requires Consistent(m) && CheckObservation(o).Ok? && o.with_ <= o.without
    requires |o.snapshot.candidates| <= o.snapshot.offered && |o.snapshot.candidates| <= CAPACITY
    ensures Consistent(Step(m, previous, o))
  {
    hide AddLabel, CheckObservation, IsStale, Effective;
    var duplicates := o.snapshot.offered - |o.snapshot.candidates|;
    var counted := m.(observations := m.observations + 1,
                     stale := m.stale.Add(One(IsStale(o)), 1),
                     duplicates := m.duplicates.Add(duplicates, o.snapshot.offered));
    assert Consistent(counted);
    if o.expected.Some? { LabelKeeps(counted, o, o.expected.value); }
    if o.expected.Some? { LabelLeaves(counted, o, o.expected.value); }
  }

  /** The label counters are the only ones a label touches. */
  lemma LabelLeaves(m: Metrics, o: Observation, expected: u64)
    ensures var after := AddLabel(m, o, expected);
            after.observations == m.observations && after.persistence == m.persistence && after.without == m.without
  {
    hide Candidate, Effective, First;
  }
}
