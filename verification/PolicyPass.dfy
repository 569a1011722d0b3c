/** The review pass: every blocked pair is ruled on; approved pairs get an
    initial-safe row, by releasing one or by generating an alias. */
module PolicyPass {
  import opened Wrappers
  import opened Sequences
  import opened Sorting
  import opened Lexicon
  import opened BoundaryPolicy
  import Trim

  datatype Decision = AllowInitial | PreferBoundary | RetainNonInitial

  /** One review decision. A policy lists each pair once. */
  datatype Ruling = Ruling(pair: Pair, decision: Decision)

  ghost predicate IsPolicy(policy: seq<Ruling>) {
    forall i, j :: 0 <= i < j < |policy| ==> policy[i].pair != policy[j].pair
  }

  datatype PolicyError = EvidenceLength | NotExact | NoNonInitialEntry | AliasRequired | AliasClassRequired | StillUnavailable

  datatype PolicyReport = PolicyReport(rawEntries: nat, allowed: nat, retained: nat, released: nat, generated: nat,
                                       remaining: nat)

  // --------------------------------------------------------- the blocked pairs

  predicate HasHidden(rows: seq<Row>, pair: Pair) {
    exists i :: 0 <= i < |rows| && PairOf(rows[i]) == pair && rows[i].nonInitial
  }

  predicate HasInitial(rows: seq<Row>, pair: Pair) {
    exists i :: 0 <= i < |rows| && PairOf(rows[i]) == pair && !rows[i].nonInitial
  }

  predicate IsBlocked(rows: seq<Row>, pair: Pair) { HasHidden(rows, pair) && !HasInitial(rows, pair) }

  predicate IsRuled(policy: seq<Ruling>, pair: Pair) { exists i :: 0 <= i < |policy| && policy[i].pair == pair }

  /** The policy rules on exactly the blocked pairs. */
  ghost predicate Covers(rows: seq<Row>, policy: seq<Ruling>) {
    forall pair {:trigger IsRuled(policy, pair)} :: IsRuled(policy, pair) <==> IsBlocked(rows, pair)
  }

  method CoverCheck(rows: seq<Row>, policy: seq<Ruling>) returns (exact: bool)
    ensures exact <==> Covers(rows, policy)
  {
    var hidden: set<Pair>, initial: set<Pair> := {}, {};
    for i := 0 to |rows|
      invariant forall p :: p in hidden <==> exists k :: 0 <= k < i && PairOf(rows[k]) == p && rows[k].nonInitial
      invariant forall p :: p in initial <==> exists k :: 0 <= k < i && PairOf(rows[k]) == p && !rows[k].nonInitial
    {
      if rows[i].nonInitial { hidden := hidden + {PairOf(rows[i])}; } else { initial := initial + {PairOf(rows[i])}; }
    }
    var ruled: set<Pair> := {};
    for i := 0 to |policy|
      invariant forall p :: p in ruled <==> exists k :: 0 <= k < i && policy[k].pair == p
    {
      ruled := ruled + {policy[i].pair};
    }
    var blocked := hidden - initial;
    exact := blocked == ruled;
    forall p ensures IsBlocked(rows, p) <==> p in blocked {}
    forall p ensures IsRuled(policy, p) <==> p in ruled {}
    if exact {
      assert Covers(rows, policy);
    } else {
      var p :| (p in blocked) != (p in ruled);
      assert IsRuled(policy, p) != IsBlocked(rows, p);
    }
  }

  // ------------------------------------------------------------ chosen classes

  /** min_by_key over (preference, cost, left, right): the first of the least. */
  predicate Beats(a: (nat, Entry), b: (nat, Entry)) {
    Then(CompareInt(a.0, b.0),
         Then(CompareInt(a.1.wordCost, b.1.wordCost),
              Then(CompareInt(a.1.leftId, b.1.leftId), CompareInt(a.1.rightId, b.1.rightId)))) < 0
  }

  function SuffixPreference(c: Catalog, e: Entry): nat {
    match c.labels(e.leftId)
    case None => 2
    case Some(labels) =>
      if INDEPENDENT_SUFFIX !in labels then 2 else if labels[0] == NOUN then 0 else 1
  }

  /** The best hidden row of a pair among the first n. */
  function BestHidden(c: Catalog, rows: seq<Row>, pair: Pair, n: nat): (r: Option<nat>)
    requires n <= |rows|
    ensures r.Some? ==> r.value < n && PairOf(rows[r.value]) == pair && rows[r.value].nonInitial
    ensures r.None? ==> forall i :: 0 <= i < n ==> !(PairOf(rows[i]) == pair && rows[i].nonInitial)
  {
    if n == 0 then None
    else
      var front, last := BestHidden(c, rows, pair, n - 1), rows[n - 1];
      if !(PairOf(last) == pair && last.nonInitial) then front
      else if front.None? then Some(n - 1)
      else
        var best := rows[front.value].entry;
        if Beats((SuffixPreference(c, last.entry), last.entry), (SuffixPreference(c, best), best)) then Some(n - 1) else front
  }

  function NounPreference(c: Catalog, e: Entry): nat {
    match c.labels(e.leftId)
    case None => 1
    case Some(labels) => if labels != [] && labels[0] == NOUN then 0 else 1
  }

  predicate IsUnvoicedBase(c: Catalog, e: Entry, pair: Pair) {
    && e.surface == pair.1 && e.reading in UnvoicedReadings(c, pair.0)
    && c.labels(e.leftId).Some? && IsIndependent(c.labels(e.leftId).value)
  }

  /** preferred_initial_identity: the classes of the best independent unvoiced row. */
  function PreferredRow(c: Catalog, rows: seq<Row>, pair: Pair, n: nat): (r: Option<nat>)
    requires n <= |rows|
    ensures r.Some? ==> r.value < n
  {
    if n == 0 then None
    else
      var front, last := PreferredRow(c, rows, pair, n - 1), rows[n - 1].entry;
      if !IsUnvoicedBase(c, last, pair) then front
      else if front.None? then Some(n - 1)
      else
        var best := rows[front.value].entry;
        if Beats((NounPreference(c, last), last), (NounPreference(c, best), best)) then Some(n - 1) else front
  }

  function TargetOf(c: Catalog, rows: seq<Row>, pair: Pair, best: nat): (nat, nat)
    requires best < |rows|
  {
    match PreferredRow(c, rows, pair, |rows|)
    case Some(i) => (rows[i].entry.leftId, rows[i].entry.rightId)
    case None => (rows[best].entry.leftId, rows[best].entry.rightId)
  }

  /** iter().position: the first row with this identity. */
  function PositionFrom(rows: seq<Row>, id: Identity, i: nat): (r: Option<nat>)
    requires i <= |rows|
    ensures r.Some? ==> i <= r.value < |rows| && IdentityOf(rows[r.value].entry) == id
    ensures r.None? ==> forall k :: i <= k < |rows| ==> IdentityOf(rows[k].entry) != id
    decreases |rows| - i
  {
    if i == |rows| then None else if IdentityOf(rows[i].entry) == id then Some(i) else PositionFrom(rows, id, i + 1)
  }

  // ------------------------------------------------------------- one decision

  datatype State = State(rows: seq<Row>, aliases: seq<Row>, allowed: nat, retained: nat, released: nat, generated: nat)

  function TargetIdentity(c: Catalog, rows: seq<Row>, pair: Pair, best: nat): Identity
    requires best < |rows|
  {
    var target := TargetOf(c, rows, pair, best);
    Identity(pair.0, pair.1, target.0, target.1)
  }

  function AliasOf(r: Row, target: Identity, boundary: bool): Row {
    Row(r.entry.(leftId := target.leftId, rightId := target.rightId), false, r.boundaryAlias || boundary)
  }

  /** Release or generate for an approved pair. */
  function Approve(c: Catalog, s: State, ruling: Ruling): Result<State, PolicyError> {
    match BestHidden(c, s.rows, ruling.pair, |s.rows|)
    case None => Err(NoNonInitialEntry)
    case Some(best) =>
      var target := TargetIdentity(c, s.rows, ruling.pair, best);
      match PositionFrom(s.rows, target, 0)
      case Some(at) =>
        if ruling.decision.PreferBoundary? then Err(AliasRequired)
        else Ok(s.(rows := s.rows[at := s.rows[at].(nonInitial := false)], released := s.released + 1, allowed := s.allowed + 1))
      case None =>
        if ruling.decision.PreferBoundary? && (target.leftId, target.rightId) != (ALIAS_CLASS, ALIAS_CLASS) then
          Err(AliasClassRequired)
        else
          Ok(s.(aliases := s.aliases + [AliasOf(s.rows[best], target, ruling.decision.PreferBoundary?)],
                generated := s.generated + 1, allowed := s.allowed + 1))
  }

  function Rule(c: Catalog, s: State, ruling: Ruling): Result<State, PolicyError> {
    if ruling.decision.RetainNonInitial? then Ok(s.(retained := s.retained + 1)) else Approve(c, s, ruling)
  }

  function RuleAll(c: Catalog, rows: seq<Row>, policy: seq<Ruling>, n: nat): Result<State, PolicyError>
    requires n <= |policy|
  {
    if n == 0 then Ok(State(rows, [], 0, 0, 0, 0))
    else
      var s :- RuleAll(c, rows, policy, n - 1);
      Rule(c, s, policy[n - 1])
  }

  // ------------------------------------------------------------- what it keeps

  ghost predicate DistinctIdentities(rows: seq<Row>) {
    forall i, j :: 0 <= i < j < |rows| ==> IdentityOf(rows[i].entry) != IdentityOf(rows[j].entry)
  }

  /** Rows differ from the originals in released flags only. */
  ghost predicate OnlyReleases(rows: seq<Row>, start: seq<Row>) {
    |rows| == |start| && forall i :: 0 <= i < |rows| ==> rows[i] == start[i] || rows[i] == start[i].(nonInitial := false)
  }

  /** The pair has an initial-safe row or alias. */
  predicate IsAvailable(s: State, pair: Pair) { HasInitial(s.rows, pair) || HasInitial(s.aliases, pair) }

  predicate RuledBefore(policy: seq<Ruling>, n: nat, pair: Pair)
    requires n <= |policy|
  {
    exists i :: 0 <= i < n && policy[i].pair == pair
  }

  /** An initial-safe row for a ruled pair, with an identity the lexicon lacks. */
  ghost predicate IsNewAlias(start: seq<Row>, policy: seq<Ruling>, n: nat, alias: Row)
    requires n <= |policy|
  {
    && !alias.nonInitial && RuledBefore(policy, n, PairOf(alias))
    && forall k :: 0 <= k < |start| ==> IdentityOf(start[k].entry) != IdentityOf(alias.entry)
  }

  /** What the decision loop keeps true. */
  ghost predicate Kept(start: seq<Row>, policy: seq<Ruling>, n: nat, s: State)
    requires n <= |policy|
  {
    && OnlyReleases(s.rows, start)
    && Hidden(s.rows) + s.released == Hidden(start)
    && s.allowed == s.released + s.generated && s.allowed + s.retained == n && s.generated == |s.aliases|
    && (forall i :: 0 <= i < |s.rows| && s.rows[i] != start[i] ==> RuledBefore(policy, n, PairOf(start[i])))
    && (forall i :: 0 <= i < |s.aliases| ==> IsNewAlias(start, policy, n, s.aliases[i]))
    && (forall i, j :: 0 <= i < j < |s.aliases| ==> PairOf(s.aliases[i]) != PairOf(s.aliases[j]))
    && (forall i :: 0 <= i < n ==> (policy[i].decision.RetainNonInitial? <==> !IsAvailable(s, policy[i].pair)))
  }

  lemma RuledMore(policy: seq<Ruling>, n: nat, pair: Pair)
    requires n < |policy|
    ensures RuledBefore(policy, n + 1, pair) <==> RuledBefore(policy, n, pair) || policy[n].pair == pair
  {
    if policy[n].pair == pair { assert RuledBefore(policy, n + 1, pair); }
  }

  /** Before its ruling a blocked pair is still as it was: all hidden, no alias. */
  lemma NextIsUntouched(start: seq<Row>, policy: seq<Ruling>, n: nat, s: State)
    requires IsPolicy(policy) && Covers(start, policy) && n < |policy| && Kept(start, policy, n, s)
    ensures !RuledBefore(policy, n, policy[n].pair)
    ensures forall i :: 0 <= i < |start| && PairOf(start[i]) == policy[n].pair ==> s.rows[i] == start[i] && start[i].nonInitial
    ensures exists i :: 0 <= i < |start| && PairOf(start[i]) == policy[n].pair
    ensures !IsAvailable(s, policy[n].pair)
  {
    var pair := policy[n].pair;
    assert IsRuled(policy, pair);
    assert IsBlocked(start, pair);
    assert !RuledBefore(policy, n, pair);
    forall i | 0 <= i < |start| && PairOf(start[i]) == pair ensures s.rows[i] == start[i] && start[i].nonInitial {}
    forall i | 0 <= i < |s.rows| && PairOf(s.rows[i]) == pair ensures s.rows[i].nonInitial {
      assert PairOf(start[i]) == pair;
    }
    forall i | 0 <= i < |s.aliases| ensures PairOf(s.aliases[i]) != pair {
      assert IsNewAlias(start, policy, n, s.aliases[i]);
    }
  }

  lemma {:induction false} HiddenUpdate(rows: seq<Row>, at: nat)
    requires at < |rows| && rows[at].nonInitial
    ensures Hidden(rows[at := rows[at].(nonInitial := false)]) + 1 == Hidden(rows)
    decreases |rows|
  {
    var after := rows[at := rows[at].(nonInitial := false)];
    if at == |rows| - 1 {
      assert after[..|rows| - 1] == rows[..|rows| - 1];
    } else {
      var front := rows[..|rows| - 1];
      HiddenUpdate(front, at);
      assert after[..|rows| - 1] == front[at := front[at].(nonInitial := false)];
    }
  }

  lemma InitialUpdate(rows: seq<Row>, at: nat, pair: Pair)
    requires at < |rows|
    ensures var after := rows[at := rows[at].(nonInitial := false)];
            HasInitial(after, pair) <==> HasInitial(rows, pair) || PairOf(rows[at]) == pair
  {
    var after := rows[at := rows[at].(nonInitial := false)];
    if HasInitial(rows, pair) {
      var i :| 0 <= i < |rows| && PairOf(rows[i]) == pair && !rows[i].nonInitial;
      assert PairOf(after[i]) == pair && !after[i].nonInitial;
    }
    if PairOf(rows[at]) == pair { assert PairOf(after[at]) == pair && !after[at].nonInitial; }
    if HasInitial(after, pair) {
      var i :| 0 <= i < |after| && PairOf(after[i]) == pair && !after[i].nonInitial;
      assert i != at ==> after[i] == rows[i];
    }
  }

  lemma InitialPush(rows: seq<Row>, row: Row, pair: Pair)
    requires !row.nonInitial
    ensures HasInitial(rows + [row], pair) <==> HasInitial(rows, pair) || PairOf(row) == pair
  {
    var after := rows + [row];
    if HasInitial(rows, pair) {
      var i :| 0 <= i < |rows| && PairOf(rows[i]) == pair && !rows[i].nonInitial;
      assert PairOf(after[i]) == pair && !after[i].nonInitial;
    }
    if PairOf(row) == pair { assert PairOf(after[|rows|]) == pair && !after[|rows|].nonInitial; }
    if HasInitial(after, pair) {
      var i :| 0 <= i < |after| && PairOf(after[i]) == pair && !after[i].nonInitial;
      assert i < |rows| ==> after[i] == rows[i];
    }
  }

  lemma RetainKeeps(start: seq<Row>, policy: seq<Ruling>, n: nat, s: State)
    requires IsPolicy(policy) && Covers(start, policy) && n < |policy| && Kept(start, policy, n, s)
    requires policy[n].decision.RetainNonInitial?
    ensures Kept(start, policy, n + 1, s.(retained := s.retained + 1))
  {
    hide IsAvailable, RuledBefore, Covers;
    NextIsUntouched(start, policy, n, s);
    var t := s.(retained := s.retained + 1);
    forall pair ensures RuledBefore(policy, n, pair) ==> RuledBefore(policy, n + 1, pair) { RuledMore(policy, n, pair); }
    forall pair ensures IsAvailable(t, pair) == IsAvailable(s, pair) { SameAvailability(s, t, pair); }
  }

  lemma SameAvailability(s: State, t: State, pair: Pair)
    requires s.rows == t.rows && s.aliases == t.aliases
    ensures IsAvailable(s, pair) == IsAvailable(t, pair)
  {}

  lemma ReleaseKeeps(start: seq<Row>, policy: seq<Ruling>, n: nat, s: State, at: nat)
    requires IsPolicy(policy) && Covers(start, policy) && n < |policy| && Kept(start, policy, n, s)
    requires !policy[n].decision.RetainNonInitial? && at < |s.rows| && PairOf(s.rows[at]) == policy[n].pair
    ensures Kept(start, policy, n + 1, s.(rows := s.rows[at := s.rows[at].(nonInitial := false)],
                                         released := s.released + 1, allowed := s.allowed + 1))
  {
    hide RuledBefore, Covers, HasInitial, Hidden;
    NextIsUntouched(start, policy, n, s);
    var pair := policy[n].pair;
    assert PairOf(start[at]) == pair;
    HiddenUpdate(s.rows, at);
    forall q ensures RuledBefore(policy, n + 1, q) <==> RuledBefore(policy, n, q) || q == pair { RuledMore(policy, n, q); }
    forall q ensures HasInitial(s.rows[at := s.rows[at].(nonInitial := false)], q) <==> HasInitial(s.rows, q) || q == pair {
      InitialUpdate(s.rows, at, q);
    }
  }

  lemma AliasKeeps(start: seq<Row>, policy: seq<Ruling>, n: nat, s: State, alias: Row)
    requires IsPolicy(policy) && Covers(start, policy) && n < |policy| && Kept(start, policy, n, s)
    requires !policy[n].decision.RetainNonInitial? && PairOf(alias) == policy[n].pair && !alias.nonInitial
    requires forall k :: 0 <= k < |s.rows| ==> IdentityOf(s.rows[k].entry) != IdentityOf(alias.entry)
    ensures Kept(start, policy, n + 1, s.(aliases := s.aliases + [alias], generated := s.generated + 1, allowed := s.allowed + 1))
  {
    hide RuledBefore, Covers, HasInitial, Hidden;
    NextIsUntouched(start, policy, n, s);
    var pair := policy[n].pair;
    forall q ensures RuledBefore(policy, n + 1, q) <==> RuledBefore(policy, n, q) || q == pair { RuledMore(policy, n, q); }
    forall q ensures HasInitial(s.aliases + [alias], q) <==> HasInitial(s.aliases, q) || q == pair {
      InitialPush(s.aliases, alias, q);
    }
    forall k | 0 <= k < |start| ensures IdentityOf(start[k].entry) != IdentityOf(alias.entry) {
      assert s.rows[k].entry == start[k].entry;
    }
    forall i | 0 <= i < |s.aliases| ensures IsNewAlias(start, policy, n + 1, s.aliases[i]) && PairOf(s.aliases[i]) != pair {
      assert IsNewAlias(start, policy, n, s.aliases[i]);
    }
  }

  lemma RuleKeeps(c: Catalog, start: seq<Row>, policy: seq<Ruling>, n: nat, s: State)
    requires IsPolicy(policy) && Covers(start, policy) && n < |policy| && Kept(start, policy, n, s)
    ensures Rule(c, s, policy[n]).Ok? ==> Kept(start, policy, n + 1, Rule(c, s, policy[n]).value)
  {
    hide Kept, Covers, IsPolicy, BestHidden, PositionFrom, TargetOf, Hidden;
    var ruling := policy[n];
    if ruling.decision.RetainNonInitial? {
      RetainKeeps(start, policy, n, s);
    } else if Rule(c, s, ruling).Ok? {
      var best := BestHidden(c, s.rows, ruling.pair, |s.rows|).value;
      var target := TargetIdentity(c, s.rows, ruling.pair, best);
      match PositionFrom(s.rows, target, 0)
      case Some(at) => ReleaseKeeps(start, policy, n, s, at);
      case None =>
        AliasKeeps(start, policy, n, s, AliasOf(s.rows[best], target, ruling.decision.PreferBoundary?));
    }
  }

  lemma {:induction false} LoopKeeps(c: Catalog, start: seq<Row>, policy: seq<Ruling>, n: nat)
    requires IsPolicy(policy) && Covers(start, policy) && n <= |policy| && RuleAll(c, start, policy, n).Ok?
    ensures Kept(start, policy, n, RuleAll(c, start, policy, n).value)
    decreases n
  {
    hide Kept, Covers, IsPolicy, Rule;
    if n == 0 {
      NothingRuled(start, policy);
    } else {
      LoopKeeps(c, start, policy, n - 1);
      RuleKeeps(c, start, policy, n - 1, RuleAll(c, start, policy, n - 1).value);
    }
  }

  lemma NothingRuled(start: seq<Row>, policy: seq<Ruling>)
    ensures Kept(start, policy, 0, State(start, [], 0, 0, 0, 0))
  {}

  // ------------------------------------------------------- when the pass succeeds

  /** What an approved pair meets in the lexicon as it stood before the pass. */
  ghost predicate CanApprove(c: Catalog, start: seq<Row>, ruling: Ruling) {
    match BestHidden(c, start, ruling.pair, |start|)
    case None => false
    case Some(best) =>
      var target := TargetIdentity(c, start, ruling.pair, best);
      ruling.decision.PreferBoundary? ==>
        PositionFrom(start, target, 0).None? && (target.leftId, target.rightId) == (ALIAS_CLASS, ALIAS_CLASS)
  }

  ghost predicate AllApprovable(c: Catalog, start: seq<Row>, policy: seq<Ruling>, n: nat)
    requires n <= |policy|
  {
    forall i :: 0 <= i < n && !policy[i].decision.RetainNonInitial? ==> CanApprove(c, start, policy[i])
  }

  lemma {:induction false} BestUnchanged(c: Catalog, rows: seq<Row>, start: seq<Row>, pair: Pair, n: nat)
    requires OnlyReleases(rows, start) && n <= |start|
    requires forall i :: 0 <= i < |start| && PairOf(start[i]) == pair ==> rows[i] == start[i]
    ensures BestHidden(c, rows, pair, n) == BestHidden(c, start, pair, n)
    decreases n
  {
    hide Beats, SuffixPreference;
    if n > 0 { BestUnchanged(c, rows, start, pair, n - 1); }
  }

  lemma {:induction false} PreferredUnchanged(c: Catalog, rows: seq<Row>, start: seq<Row>, pair: Pair, n: nat)
    requires OnlyReleases(rows, start) && n <= |start|
    ensures PreferredRow(c, rows, pair, n) == PreferredRow(c, start, pair, n)
    decreases n
  {
    hide Beats, NounPreference, IsUnvoicedBase;
    if n > 0 { PreferredUnchanged(c, rows, start, pair, n - 1); }
  }

  lemma {:induction false} PositionUnchanged(rows: seq<Row>, start: seq<Row>, id: Identity, i: nat)
    requires OnlyReleases(rows, start) && i <= |start|
    ensures PositionFrom(rows, id, i) == PositionFrom(start, id, i)
    decreases |start| - i
  {
    if i < |start| { PositionUnchanged(rows, start, id, i + 1); }
  }

  lemma ApprovalUnchanged(c: Catalog, start: seq<Row>, policy: seq<Ruling>, n: nat, s: State)
    requires IsPolicy(policy) && Covers(start, policy) && n < |policy| && Kept(start, policy, n, s)
    requires !policy[n].decision.RetainNonInitial?
    ensures Rule(c, s, policy[n]).Ok? <==> CanApprove(c, start, policy[n])
    ensures Rule(c, s, policy[n]).Err? ==> Rule(c, s, policy[n]).error in {AliasRequired, AliasClassRequired}
  {
    hide Covers, IsPolicy, BestHidden, PositionFrom, PreferredRow, Hidden, IsAvailable, RuledBefore;
    var pair := policy[n].pair;
    NextIsUntouched(start, policy, n, s);
    BestUnchanged(c, s.rows, start, pair, |start|);
    PreferredUnchanged(c, s.rows, start, pair, |start|);
    BestExists(c, start, pair);
    var best := BestHidden(c, start, pair, |start|).value;
    assert s.rows[best].entry == start[best].entry;
    PreferredInRange(c, start, pair);
    assert TargetIdentity(c, s.rows, pair, best) == TargetIdentity(c, start, pair, best) by {
      var p := PreferredRow(c, start, pair, |start|);
      assert p.Some? ==> s.rows[p.value].entry == start[p.value].entry;
    }
    PositionUnchanged(s.rows, start, TargetIdentity(c, start, pair, best), 0);
  }

  lemma PreferredInRange(c: Catalog, rows: seq<Row>, pair: Pair)
    ensures PreferredRow(c, rows, pair, |rows|).Some? ==> PreferredRow(c, rows, pair, |rows|).value < |rows|
  {}

  lemma BestExists(c: Catalog, start: seq<Row>, pair: Pair)
    requires exists i :: 0 <= i < |start| && PairOf(start[i]) == pair
    requires forall i :: 0 <= i < |start| && PairOf(start[i]) == pair ==> start[i].nonInitial
    ensures BestHidden(c, start, pair, |start|).Some? && BestHidden(c, start, pair, |start|).value < |start|
  {}

  /** An exact policy goes through if and only if every boundary preference finds
      the 1851/1851 class as its target, and that identity still free. Plain
      approvals never fail. */
  lemma {:induction false} LoopSucceeds(c: Catalog, start: seq<Row>, policy: seq<Ruling>, n: nat)
    requires IsPolicy(policy) && Covers(start, policy) && n <= |policy|
    ensures RuleAll(c, start, policy, n).Ok? <==> AllApprovable(c, start, policy, n)
    ensures RuleAll(c, start, policy, n).Err? ==>
      RuleAll(c, start, policy, n).error in {AliasRequired, AliasClassRequired}
    decreases n
  {
    hide Kept, Covers, IsPolicy, Approve, CanApprove;
    if n > 0 {
      LoopSucceeds(c, start, policy, n - 1);
      if RuleAll(c, start, policy, n - 1).Ok? {
        LoopKeeps(c, start, policy, n - 1);
        if !policy[n - 1].decision.RetainNonInitial? {
          ApprovalUnchanged(c, start, policy, n - 1, RuleAll(c, start, policy, n - 1).value);
        }
      }
    }
  }

  // ------------------------------------------------------------ the sorted result

  function Flagged(r: Row): Entry {
    r.entry.(flags := r.entry.flags + (if r.nonInitial then NON_INITIAL_BIT else 0)
                      + if r.boundaryAlias then BOUNDARY_ALIAS_BIT else 0)
  }

  predicate RowLeq(a: Row, b: Row) { Trim.CompareRank(Flagged(a), Flagged(b)) <= 0 }

  function ResultOf(s: State): seq<Row> { SortBy(s.rows + s.aliases, RowLeq) }

  lemma {:induction false} HiddenConcat(a: seq<Row>, b: seq<Row>)
    requires forall i :: 0 <= i < |b| ==> !b[i].nonInitial
    ensures Hidden(a + b) == Hidden(a)
    decreases |b|
  {
    if b == [] {
      assert a + b == a;
    } else {
      HiddenConcat(a, b[..|b| - 1]);
      assert (a + b)[..|a + b| - 1] == a + b[..|b| - 1];
    }
  }

  lemma HiddenFirst(rows: seq<Row>)
    requires rows != []
    ensures Hidden(rows) == Hidden([rows[0]]) + Hidden(rows[1..])
  {
    HiddenJoin([rows[0]], rows[1..]);
    assert rows == [rows[0]] + rows[1..];
  }

  lemma {:induction false} HiddenJoin(a: seq<Row>, b: seq<Row>)
    ensures Hidden(a + b) == Hidden(a) + Hidden(b)
    decreases |b|
  {
    if b == [] {
      assert a + b == a;
    } else {
      HiddenJoin(a, b[..|b| - 1]);
      assert (a + b)[..|a + b| - 1] == a + b[..|b| - 1];
    }
  }

  /** Sorting loses no flag. */
  lemma {:induction false} HiddenInsert(x: Row, s: seq<Row>)
    ensures Hidden(Insert(x, s, RowLeq)) == Hidden([x]) + Hidden(s)
    decreases |s|
  {
    hide Hidden, RowLeq;
    if s == [] || RowLeq(x, s[0]) {
      HiddenJoin([x], s);
    } else {
      HiddenInsert(x, s[1..]);
      HiddenJoin([s[0]], Insert(x, s[1..], RowLeq));
      HiddenFirst(s);
    }
  }

  lemma {:induction false} HiddenSorted(s: seq<Row>)
    ensures Hidden(SortBy(s, RowLeq)) == Hidden(s)
    decreases |s|
  {
    if s != [] {
      HiddenSorted(s[1..]);
      HiddenInsert(s[0], SortBy(s[1..], RowLeq));
      HiddenFirst(s);
    }
  }

  lemma InitialSorted(rows: seq<Row>, sorted: seq<Row>, pair: Pair)
    requires multiset(rows) == multiset(sorted)
    ensures HasInitial(rows, pair) <==> HasInitial(sorted, pair)
    ensures HasHidden(rows, pair) <==> HasHidden(sorted, pair)
  {
    forall r: Row ensures r in rows <==> r in sorted { assert r in multiset(rows) <==> r in multiset(sorted); }
    if HasInitial(rows, pair) { var i :| 0 <= i < |rows| && PairOf(rows[i]) == pair && !rows[i].nonInitial; assert rows[i] in sorted; }
    if HasInitial(sorted, pair) { var i :| 0 <= i < |sorted| && PairOf(sorted[i]) == pair && !sorted[i].nonInitial; assert sorted[i] in rows; }
    if HasHidden(rows, pair) { var i :| 0 <= i < |rows| && PairOf(rows[i]) == pair && rows[i].nonInitial; assert rows[i] in sorted; }
    if HasHidden(sorted, pair) { var i :| 0 <= i < |sorted| && PairOf(sorted[i]) == pair && sorted[i].nonInitial; assert sorted[i] in rows; }
  }

  lemma FlagsJoin(a: seq<Row>, b: seq<Row>, pair: Pair)
    ensures HasInitial(a + b, pair) <==> HasInitial(a, pair) || HasInitial(b, pair)
    ensures HasHidden(a + b, pair) <==> HasHidden(a, pair) || HasHidden(b, pair)
  {
    var all := a + b;
    assert forall i :: 0 <= i < |a| ==> all[i] == a[i];
    assert forall i :: 0 <= i < |b| ==> all[|a| + i] == b[i];
    if HasInitial(b, pair) { var i :| 0 <= i < |b| && PairOf(b[i]) == pair && !b[i].nonInitial; assert all[|a| + i] == b[i]; }
    if HasHidden(b, pair) { var i :| 0 <= i < |b| && PairOf(b[i]) == pair && b[i].nonInitial; assert all[|a| + i] == b[i]; }
    if HasInitial(all, pair) { var i :| 0 <= i < |all| && PairOf(all[i]) == pair && !all[i].nonInitial; assert i >= |a| ==> all[i] == b[i - |a|]; }
    if HasHidden(all, pair) { var i :| 0 <= i < |all| && PairOf(all[i]) == pair && all[i].nonInitial; assert i >= |a| ==> all[i] == b[i - |a|]; }
  }

  ghost predicate IsRetained(policy: seq<Ruling>, pair: Pair) {
    exists i :: 0 <= i < |policy| && policy[i].pair == pair && policy[i].decision.RetainNonInitial?
  }

  /** Before sorting: a pair is without an initial-safe row exactly when it was
      ruled to stay that way. */
  lemma BlockedIsRetained(start: seq<Row>, policy: seq<Ruling>, s: State, pair: Pair)
    requires IsPolicy(policy) && Covers(start, policy) && Kept(start, policy, |policy|, s)
    ensures IsBlocked(s.rows + s.aliases, pair) <==> IsRetained(policy, pair)
  {
    hide IsPolicy, Covers, Hidden;
    FlagsJoin(s.rows, s.aliases, pair);
    assert IsRuled(policy, pair) <==> IsBlocked(start, pair) by { assert Covers(start, policy); CoversPair(start, policy, pair); }
    assert !HasHidden(s.aliases, pair) by {
      forall i | 0 <= i < |s.aliases| ensures !s.aliases[i].nonInitial { assert IsNewAlias(start, policy, |policy|, s.aliases[i]); }
    }
    if IsRuled(policy, pair) {
      var i :| 0 <= i < |policy| && policy[i].pair == pair;
      RuledOnce(policy, i);
      if policy[i].decision.RetainNonInitial? {
        assert !IsAvailable(s, pair);
        StillHidden(start, s.rows, pair);
      } else {
        assert IsAvailable(s, pair);
      }
    } else {
      UnruledKeepsInitial(start, policy, s, pair);
    }
  }

  lemma CoversPair(start: seq<Row>, policy: seq<Ruling>, pair: Pair)
    requires Covers(start, policy)
    ensures IsRuled(policy, pair) <==> IsBlocked(start, pair)
  {}

  lemma RuledOnce(policy: seq<Ruling>, i: nat)
    requires IsPolicy(policy) && i < |policy|
    ensures IsRetained(policy, policy[i].pair) <==> policy[i].decision.RetainNonInitial?
  {}

  lemma StillHidden(start: seq<Row>, rows: seq<Row>, pair: Pair)
    requires OnlyReleases(rows, start) && HasHidden(start, pair) && !HasInitial(rows, pair)
    ensures HasHidden(rows, pair)
  {
    var i :| 0 <= i < |start| && PairOf(start[i]) == pair && start[i].nonInitial;
    assert PairOf(rows[i]) == pair;
  }

  lemma UnruledKeepsInitial(start: seq<Row>, policy: seq<Ruling>, s: State, pair: Pair)
    requires Kept(start, policy, |policy|, s) && !IsRuled(policy, pair) && !IsBlocked(start, pair)
    ensures !IsBlocked(s.rows + s.aliases, pair) && !IsRetained(policy, pair)
  {
    hide Hidden;
    FlagsJoin(s.rows, s.aliases, pair);
    assert !RuledBefore(policy, |policy|, pair);
    if HasInitial(start, pair) {
      var i :| 0 <= i < |start| && PairOf(start[i]) == pair && !start[i].nonInitial;
      assert s.rows[i] == start[i];
    } else {
      forall i | 0 <= i < |s.rows| ensures PairOf(s.rows[i]) != pair {
        assert PairOf(s.rows[i]) == PairOf(start[i]);
        assert PairOf(start[i]) == pair ==> HasHidden(start, pair) || HasInitial(start, pair);
      }
      forall i | 0 <= i < |s.aliases| ensures PairOf(s.aliases[i]) != pair {
        assert IsNewAlias(start, policy, |policy|, s.aliases[i]);
      }
    }
  }

  predicate SameRowIdentity(a: Row, b: Row) { IdentityOf(a.entry) == IdentityOf(b.entry) }

  lemma IdentitiesStayDistinct(start: seq<Row>, policy: seq<Ruling>, s: State)
    requires Kept(start, policy, |policy|, s) && DistinctIdentities(start)
    ensures DistinctIdentities(ResultOf(s))
  {
    hide Hidden, IsAvailable, RuledBefore, RowLeq, SortBy;
    var all := s.rows + s.aliases;
    forall i, j | 0 <= i < j < |all| ensures !SameRowIdentity(all[i], all[j]) {
      if j < |s.rows| {
        assert s.rows[i].entry == start[i].entry && s.rows[j].entry == start[j].entry;
      } else {
        assert IsNewAlias(start, policy, |policy|, s.aliases[j - |s.rows|]);
        if i < |s.rows| {
          assert s.rows[i].entry == start[i].entry;
        } else {
          assert PairOf(s.aliases[i - |s.rows|]) != PairOf(s.aliases[j - |s.rows|]);
        }
      }
    }
    assert ConflictFree(all, SameRowIdentity);
    SortKeeps(all, RowLeq);
    ConflictsReordered(ResultOf(s), all, SameRowIdentity);
    forall i, j | 0 <= i < j < |ResultOf(s)| ensures IdentityOf(ResultOf(s)[i].entry) != IdentityOf(ResultOf(s)[j].entry) {
      assert !SameRowIdentity(ResultOf(s)[i], ResultOf(s)[j]);
    }
  }

  /** The row is in the result, as it was or released. */
  predicate Survives(out: seq<Row>, r: Row) { r in out || r.(nonInitial := false) in out }

  /** What a successful pass leaves behind. */
  ghost predicate PassOutcome(start: seq<Row>, policy: seq<Ruling>, out: seq<Row>, report: PolicyReport) {
    && (forall pair {:trigger IsRetained(policy, pair)} :: IsBlocked(out, pair) <==> IsRetained(policy, pair))
    && report.allowed == report.released + report.generated && report.allowed + report.retained == |policy|
    && report.rawEntries == Hidden(start) && report.remaining == Hidden(out) == report.rawEntries - report.released
    && |out| == |start| + report.generated
    && (DistinctIdentities(start) ==> DistinctIdentities(out))
    && (forall i :: 0 <= i < |start| ==> Survives(out, start[i]))
  }

  function ReportOf(start: seq<Row>, s: State): PolicyReport {
    PolicyReport(Hidden(start), s.allowed, s.retained, s.released, s.generated, Hidden(ResultOf(s)))
  }

  lemma PassHolds(c: Catalog, start: seq<Row>, policy: seq<Ruling>, s: State)
    requires IsPolicy(policy) && Covers(start, policy) && RuleAll(c, start, policy, |policy|) == Ok(s)
    ensures PassOutcome(start, policy, ResultOf(s), ReportOf(start, s))
  {
    hide IsPolicy, Covers, RuleAll, RowLeq, SortBy, IsAvailable, RuledBefore, IsRetained, IsBlocked, Hidden;
    LoopKeeps(c, start, policy, |policy|);
    var all, out := s.rows + s.aliases, ResultOf(s);
    SortKeeps(all, RowLeq);
    HiddenSorted(all);
    forall i | 0 <= i < |s.aliases| ensures !s.aliases[i].nonInitial { assert IsNewAlias(start, policy, |policy|, s.aliases[i]); }
    HiddenConcat(s.rows, s.aliases);
    if DistinctIdentities(start) { IdentitiesStayDistinct(start, policy, s); }
    forall pair {:trigger IsRetained(policy, pair)} ensures IsBlocked(out, pair) <==> IsRetained(policy, pair) {
      BlockedIsRetained(start, policy, s, pair);
      BlockedSorted(all, out, pair);
    }
    forall i | 0 <= i < |start| ensures Survives(out, start[i]) {
      assert all[i] == s.rows[i];
      assert all[i] in multiset(all);
      assert all[i] in multiset(out);
    }
  }

  lemma BlockedSorted(rows: seq<Row>, sorted: seq<Row>, pair: Pair)
    requires multiset(rows) == multiset(sorted)
    ensures IsBlocked(rows, pair) <==> IsBlocked(sorted, pair)
  {
    InitialSorted(rows, sorted, pair);
  }

  // -------------------------------------------------------------------- the code

  class LexiconRows {
    var rows: seq<Row>

    constructor (rows: seq<Row>)
      ensures this.rows == rows
    {
      this.rows := rows;
    }

    /** The decision loop. It releases rows in place and collects the aliases. */
    method RuleOnPairs(c: Catalog, policy: seq<Ruling>) returns (r: Result<State, PolicyError>)
      modifies this
      ensures r == RuleAll(c, old(rows), policy, |policy|)
      ensures r.Ok? ==> rows == r.value.rows
      ensures OnlyReleases(rows, old(rows))
    {
      hide Rule;
      var s := State(rows, [], 0, 0, 0, 0);
      for n := 0 to |policy|
        invariant RuleAll(c, old(rows), policy, n) == Ok(s) && s.rows == rows && OnlyReleases(rows, old(rows))
      {
        var next := Rule(c, s, policy[n]);
        if next.Err? {
          ErrorStays(c, old(rows), policy, n + 1, |policy|);
          return Err(next.error);
        }
        RuleOnlyReleases(c, s, policy[n], old(rows));
        s := next.value;
        rows := s.rows;
      }
      r := Ok(s);
    }

    /** mark_non_initial_allomorphs_with_legacy_evidence */
    method Classify(c: Catalog, evidence: seq<bool>) returns (r: Result<nat, PolicyError>)
      modifies this
      ensures r.Ok? <==> |evidence| == |old(rows)|
      ensures r.Ok? ==> rows == Marked(c, old(rows), evidence) && r.value + Hidden(old(rows)) == Hidden(rows)
      ensures r.Err? ==> r.error == EvidenceLength && rows == old(rows)
    {
      hide Marked, Hidden;
      if |evidence| != |rows| { return Err(EvidenceLength); }
      var all := rows;
      var entries := new Row[|all|](i requires 0 <= i < |all| => all[i]);
      assert entries[..] == rows;
      var marked := MarkNonInitial(c, entries, evidence);
      rows := entries[..];
      r := Ok(marked);
    }

    /** mark_non_initial_allomorphs_with_boundary_policy: the classifier, then
        the review of what it blocks. */
    method MarkWithPolicy(c: Catalog, evidence: seq<bool>, policy: seq<Ruling>) returns (r: Result<PolicyReport, PolicyError>)
      requires IsPolicy(policy)
      modifies this
      ensures r == Err(EvidenceLength) <==> |evidence| != |old(rows)|
      ensures |evidence| != |old(rows)| ==> rows == old(rows)
      ensures |evidence| == |old(rows)| ==>
        var start := Marked(c, old(rows), evidence);
        && (r.Ok? <==> Covers(start, policy) && AllApprovable(c, start, policy, |policy|))
        && (r == Err(NotExact) <==> !Covers(start, policy))
        && (if r.Ok? then PassOutcome(start, policy, rows, r.value) else OnlyReleases(rows, start))
    {
      hide Marked, Hidden, Covers, AllApprovable, PassOutcome, OnlyReleases;
      var classified := Classify(c, evidence);
      if classified.Err? { return Err(classified.error); }
      r := ApplyPolicy(c, policy);
    }

    /** The review, on classified rows. */
    method ApplyPolicy(c: Catalog, policy: seq<Ruling>) returns (r: Result<PolicyReport, PolicyError>)
      requires IsPolicy(policy)
      modifies this
      ensures r.Ok? <==> Covers(old(rows), policy) && AllApprovable(c, old(rows), policy, |policy|)
      ensures r.Ok? ==> PassOutcome(old(rows), policy, rows, r.value)
      ensures r == Err(NotExact) <==> !Covers(old(rows), policy)
      ensures r.Err? ==> r.error in {NotExact, AliasRequired, AliasClassRequired} && OnlyReleases(rows, old(rows))
    {
      hide RuleAll, Covers, CanApprove, PassOutcome, Hidden, SortBy;
      ghost var start := rows;
      var exact := CoverCheck(rows, policy);
      if !exact { return Err(NotExact); }
      LoopSucceeds(c, start, policy, |policy|);
      var raw := Hidden(rows);
      var ruled := RuleOnPairs(c, policy);
      if ruled.Err? { return Err(ruled.error); }
      var s := ruled.value;
      PassHolds(c, start, policy, s);
      ApprovedAvailable(c, start, policy, s);
      rows := SortBy(s.rows + s.aliases, RowLeq);
      for i := 0 to |policy| {
        if !policy[i].decision.RetainNonInitial? && !HasInitial(rows, policy[i].pair) {
          assert false;
          return Err(StillUnavailable);
        }
      }
      r := Ok(PolicyReport(raw, s.allowed, s.retained, s.released, s.generated, Hidden(rows)));
    }
  }

  lemma RuleOnlyReleases(c: Catalog, s: State, ruling: Ruling, start: seq<Row>)
    requires OnlyReleases(s.rows, start) && Rule(c, s, ruling).Ok?
    ensures OnlyReleases(Rule(c, s, ruling).value.rows, start)
  {
    hide BestHidden, TargetOf;
  }

  lemma {:induction false} ErrorStays(c: Catalog, rows: seq<Row>, policy: seq<Ruling>, i: nat, n: nat)
    requires i <= n <= |policy| && RuleAll(c, rows, policy, i).Err?
    ensures RuleAll(c, rows, policy, n) == RuleAll(c, rows, policy, i)
    decreases n
  {
    hide Rule;
    if i < n { ErrorStays(c, rows, policy, i, n - 1); }
  }

  /** The last check of the pass never fires. */
  lemma ApprovedAvailable(c: Catalog, start: seq<Row>, policy: seq<Ruling>, s: State)
    requires IsPolicy(policy) && Covers(start, policy) && RuleAll(c, start, policy, |policy|) == Ok(s)
    ensures forall i :: 0 <= i < |policy| && !policy[i].decision.RetainNonInitial? ==> HasInitial(ResultOf(s), policy[i].pair)
  {
    hide IsPolicy, Covers, RuleAll, RowLeq, SortBy, RuledBefore, HasInitial, HasHidden, Hidden;
    LoopKeeps(c, start, policy, |policy|);
    SortKeeps(s.rows + s.aliases, RowLeq);
    forall i | 0 <= i < |policy| && !policy[i].decision.RetainNonInitial? ensures HasInitial(ResultOf(s), policy[i].pair) {
      assert IsAvailable(s, policy[i].pair);
      FlagsJoin(s.rows, s.aliases, policy[i].pair);
      InitialSorted(s.rows + s.aliases, ResultOf(s), policy[i].pair);
    }
  }
}
