/** Duplicate removal over the sorted records, the split and audit artifacts, and
    the verification that guards the commit marker. */
module Dataset {
  import opened Wrappers
  import opened Sequences
  import opened Sorting
  import opened DatasetKeys

  const MINIMUM_TIER_A_AUDIT := 1000

  // ------------------------------------------------------------ the input order

  /** sort_by sample id, which keeps the order of equal ids. */
  predicate IdLeq(a: Record, b: Record) { TextLeq(a.sampleId, b.sampleId) }

  function Ordered(inputs: seq<Record>): (records: seq<Record>)
    ensures |records| == |inputs| && multiset(records) == multiset(inputs)
  {
    SortKeeps(inputs, IdLeq);
    SortBy(inputs, IdLeq)
  }

  lemma OrderedById(inputs: seq<Record>)
    ensures SortedBy(Ordered(inputs), IdLeq)
  {
    hide TextLeq;
    forall a: Record, b: Record ensures IdLeq(a, b) || IdLeq(b, a) { TextTotal(a.sampleId, b.sampleId); }
    forall a: Record, b: Record, c: Record ensures IdLeq(a, b) && IdLeq(b, c) ==> IdLeq(a, c) {
      if IdLeq(a, b) && IdLeq(b, c) { TextTransitive(a.sampleId, b.sampleId, c.sampleId); }
    }
    SortSorts(inputs, IdLeq);
  }

  // -------------------------------------------------------- duplicate removal

  /** Loop state. `kept` lists the positions of the accepted records. */
  datatype Tally = Tally(kept: seq<nat>, exactRemoved: nat, nearRemoved: nat, crossExact: nat, crossNear: nat,
                         exactSeen: map<string, Split>, nearSeen: map<string, Split>)

  const NOTHING := Tally([], 0, 0, 0, 0, map[], map[])

  /** One turn of the loop: record i. */
  function Admit(lib: Library, records: seq<Record>, t: Tally, i: nat): Tally
    requires i < |records|
  {
    var r := records[i];
    var exact, near := ExactKey(lib, r), NearKey(lib, r);
    if exact in t.exactSeen then
      t.(exactRemoved := t.exactRemoved + 1, crossExact := t.crossExact + One(t.exactSeen[exact] != r.split))
    else
      var u := t.(exactSeen := t.exactSeen[exact := r.split]);
      if near.Some? && near.value in u.nearSeen then
        u.(nearRemoved := u.nearRemoved + 1, crossNear := u.crossNear + One(u.nearSeen[near.value] != r.split))
      else
        u.(kept := u.kept + [i], nearSeen := if near.Some? then u.nearSeen[near.value := r.split] else u.nearSeen)
  }

  function TallyOf(lib: Library, records: seq<Record>, n: nat): Tally
    requires n <= |records|
  {
    if n == 0 then NOTHING else Admit(lib, records, TallyOf(lib, records, n - 1), n - 1)
  }

  function Select(records: seq<Record>, kept: seq<nat>): (s: seq<Record>)
    requires forall i :: 0 <= i < |kept| ==> kept[i] < |records|
    ensures |s| == |kept| && forall i :: 0 <= i < |s| ==> s[i] == records[kept[i]]
  {
    seq(|kept|, i requires 0 <= i < |kept| => records[kept[i]])
  }

  /** Two records that must not both be accepted. */
  predicate SameKey(lib: Library, a: Record, b: Record) {
    ExactKey(lib, a) == ExactKey(lib, b) || (NearKey(lib, a).Some? && NearKey(lib, a) == NearKey(lib, b))
  }

  /** Some accepted record among the first n shares a key with record i. */
  ghost predicate Represented(lib: Library, records: seq<Record>, kept: seq<nat>, i: nat)
    requires i < |records|
  {
    exists k :: 0 <= k < |kept| && kept[k] < |records| && SameKey(lib, records[kept[k]], records[i])
  }

  ghost predicate ExactSeenBy(lib: Library, records: seq<Record>, n: nat, key: string)
    requires n <= |records|
  {
    exists i :: 0 <= i < n && ExactKey(lib, records[i]) == key
  }

  ghost predicate NearSeenBy(lib: Library, records: seq<Record>, kept: seq<nat>, key: string) {
    exists k :: 0 <= k < |kept| && kept[k] < |records| && NearKey(lib, records[kept[k]]) == Some(key)
  }

  /** What the loop keeps true. */
  ghost predicate Clean(lib: Library, records: seq<Record>, n: nat, t: Tally)
    requires n <= |records|
  {
    && |t.kept| + t.exactRemoved + t.nearRemoved == n
    && t.crossExact <= t.exactRemoved && t.crossNear <= t.nearRemoved
    && (forall i :: 0 <= i < |t.kept| ==> t.kept[i] < n)
    && (forall i, j :: 0 <= i < j < |t.kept| ==> t.kept[i] < t.kept[j])
    && (forall i, j :: 0 <= i < j < |t.kept| ==> !SameKey(lib, records[t.kept[i]], records[t.kept[j]]))
    && (forall key {:trigger ExactSeenBy(lib, records, n, key)} :: key in t.exactSeen <==> ExactSeenBy(lib, records, n, key))
    && (forall key {:trigger NearSeenBy(lib, records, t.kept, key)} ::
          key in t.nearSeen <==> NearSeenBy(lib, records, t.kept, key))
  }

  ghost predicate Covered(lib: Library, records: seq<Record>, n: nat, kept: seq<nat>)
    requires n <= |records|
  {
    forall i {:trigger Represented(lib, records, kept, i)} :: 0 <= i < n ==> Represented(lib, records, kept, i)
  }

  lemma ExactSeenStep(lib: Library, records: seq<Record>, n: nat, key: string)
    requires n < |records|
    ensures ExactSeenBy(lib, records, n + 1, key)
       <==> ExactSeenBy(lib, records, n, key) || key == ExactKey(lib, records[n])
  {
    if key == ExactKey(lib, records[n]) { assert ExactSeenBy(lib, records, n + 1, key); }
  }

  lemma NearSeenStep(lib: Library, records: seq<Record>, kept: seq<nat>, n: nat, key: string)
    requires n < |records|
    ensures NearSeenBy(lib, records, kept + [n], key)
       <==> NearSeenBy(lib, records, kept, key) || NearKey(lib, records[n]) == Some(key)
  {
    var longer := kept + [n];
    assert longer[|kept|] == n;
    if NearSeenBy(lib, records, kept, key) {
      var k :| 0 <= k < |kept| && kept[k] < |records| && NearKey(lib, records[kept[k]]) == Some(key);
      assert longer[k] == kept[k];
    }
    if NearSeenBy(lib, records, longer, key) {
      var k :| 0 <= k < |longer| && longer[k] < |records| && NearKey(lib, records[longer[k]]) == Some(key);
      assert k < |kept| ==> kept[k] == longer[k];
    }
  }

  /** A record whose keys are both unseen conflicts with no accepted one. */
  lemma Unseen(lib: Library, records: seq<Record>, n: nat, t: Tally)
    requires n < |records| && Clean(lib, records, n, t)
    requires ExactKey(lib, records[n]) !in t.exactSeen
    requires NearKey(lib, records[n]).Some? ==> NearKey(lib, records[n]).value !in t.nearSeen
    ensures forall k :: 0 <= k < |t.kept| ==> !SameKey(lib, records[t.kept[k]], records[n])
  {
    hide ExactKey, NearKey;
    assert !ExactSeenBy(lib, records, n, ExactKey(lib, records[n]));
    if NearKey(lib, records[n]).Some? {
      assert !NearSeenBy(lib, records, t.kept, NearKey(lib, records[n]).value);
    }
  }

  lemma CleanStep(lib: Library, records: seq<Record>, n: nat, t: Tally)
    requires n < |records| && Clean(lib, records, n, t)
    ensures Clean(lib, records, n + 1, Admit(lib, records, t, n))
  {
    hide ExactKey, NearKey, SameKey, ExactSeenBy, NearSeenBy;
    var u := Admit(lib, records, t, n);
    forall key ensures key in u.exactSeen <==> ExactSeenBy(lib, records, n + 1, key) {
      ExactSeenStep(lib, records, n, key);
    }
    if u.kept != t.kept {
      Unseen(lib, records, n, t);
      forall key ensures key in u.nearSeen <==> NearSeenBy(lib, records, u.kept, key) {
        NearSeenStep(lib, records, t.kept, n, key);
      }
    }
  }

  lemma {:induction false} LoopIsClean(lib: Library, records: seq<Record>, n: nat)
    requires n <= |records|
    ensures Clean(lib, records, n, TallyOf(lib, records, n))
    decreases n
  {
    hide Clean, Admit;
    if n == 0 {
      NothingIsClean(lib, records);
    } else {
      LoopIsClean(lib, records, n - 1);
      CleanStep(lib, records, n - 1, TallyOf(lib, records, n - 1));
    }
  }

  lemma NothingIsClean(lib: Library, records: seq<Record>)
    ensures Clean(lib, records, 0, NOTHING)
  {}

  /** Sorting, then the loop. */
  method RemoveDuplicates(lib: Library, inputs: seq<Record>) returns (accepted: seq<Record>, t: Tally)
    ensures t == TallyOf(lib, Ordered(inputs), |inputs|) && Clean(lib, Ordered(inputs), |inputs|, t)
    ensures accepted == Select(Ordered(inputs), t.kept) && SortedBy(accepted, IdLeq)
  {
    hide ExactKey, NearKey, Clean, Ordered, IdLeq;
    var records := Ordered(inputs);
    var exactSeen: map<string, Split>, nearSeen: map<string, Split> := map[], map[];
    var kept: seq<nat> := [];
    var exactRemoved: nat, nearRemoved: nat, crossExact: nat, crossNear: nat := 0, 0, 0, 0;
    accepted := [];
    for i := 0 to |records|
      invariant |accepted| == |kept| && forall k :: 0 <= k < |kept| ==> kept[k] < |records| && accepted[k] == records[kept[k]]
      invariant Tally(kept, exactRemoved, nearRemoved, crossExact, crossNear, exactSeen, nearSeen) == TallyOf(lib, records, i)
    {
      var record := records[i];
      var exact := ExactKey(lib, record);
      if exact in exactSeen {
        exactRemoved := exactRemoved + 1;
        crossExact := crossExact + One(exactSeen[exact] != record.split);
        continue;
      }
      exactSeen := exactSeen[exact := record.split];
      var near := NearKey(lib, record);
      if near.Some? {
        if near.value in nearSeen {
          nearRemoved := nearRemoved + 1;
          crossNear := crossNear + One(nearSeen[near.value] != record.split);
          continue;
        }
        nearSeen := nearSeen[near.value := record.split];
      }
      accepted := accepted + [record];
      kept := kept + [i];
    }
    t := Tally(kept, exactRemoved, nearRemoved, crossExact, crossNear, exactSeen, nearSeen);
    LoopIsClean(lib, records, |records|);
    AcceptedInOrder(lib, inputs, t, accepted);
  }

  lemma AcceptedInOrder(lib: Library, inputs: seq<Record>, t: Tally, accepted: seq<Record>)
    requires Clean(lib, Ordered(inputs), |inputs|, t) && accepted == Select(Ordered(inputs), t.kept)
    ensures SortedBy(accepted, IdLeq)
  {
    hide Ordered, IdLeq, SameKey, ExactSeenBy, NearSeenBy;
    OrderedById(inputs);
  }

  /** Every dropped record shares a key with an accepted one. */
  lemma {:induction false} DropsAreRepresented(lib: Library, records: seq<Record>, n: nat)
    requires n <= |records| && Coherent(lib, records)
    ensures Covered(lib, records, n, TallyOf(lib, records, n).kept)
    decreases n
  {
    hide ExactKey, NearKey, Clean, Coherent, Represented, Admit;
    if n > 0 {
      DropsAreRepresented(lib, records, n - 1);
      LoopIsClean(lib, records, n - 1);
      CoveredStep(lib, records, n - 1, TallyOf(lib, records, n - 1));
    }
  }

  lemma CoveredStep(lib: Library, records: seq<Record>, n: nat, t: Tally)
    requires n < |records| && Clean(lib, records, n, t) && Coherent(lib, records) && Covered(lib, records, n, t.kept)
    ensures Covered(lib, records, n + 1, Admit(lib, records, t, n).kept)
  {
    hide ExactKey, NearKey, Clean, Coherent, Represented;
    var u := Admit(lib, records, t, n);
    LastIsRepresented(lib, records, n, t);
    assert t.kept <= u.kept;
    forall i {:trigger Represented(lib, records, u.kept, i)} | 0 <= i < n + 1 ensures Represented(lib, records, u.kept, i) {
      if i < n { StaysRepresented(lib, records, t.kept, u.kept, i); }
    }
  }

  lemma StaysRepresented(lib: Library, records: seq<Record>, kept: seq<nat>, longer: seq<nat>, i: nat)
    requires i < |records| && kept <= longer && Represented(lib, records, kept, i)
    ensures Represented(lib, records, longer, i)
  {
    var k :| 0 <= k < |kept| && kept[k] < |records| && SameKey(lib, records[kept[k]], records[i]);
    assert longer[k] == kept[k];
  }

  lemma LastIsRepresented(lib: Library, records: seq<Record>, n: nat, t: Tally)
    requires n < |records| && Clean(lib, records, n, t) && Coherent(lib, records) && Covered(lib, records, n, t.kept)
    ensures Represented(lib, records, Admit(lib, records, t, n).kept, n)
  {
    hide ExactKey, NearKey;
    var exact, near := ExactKey(lib, records[n]), NearKey(lib, records[n]);
    var u := Admit(lib, records, t, n);
    if exact in t.exactSeen {
      assert ExactSeenBy(lib, records, n, exact);
      var i :| 0 <= i < n && ExactKey(lib, records[i]) == exact;
      assert Represented(lib, records, t.kept, i);
      var k :| 0 <= k < |t.kept| && t.kept[k] < |records| && SameKey(lib, records[t.kept[k]], records[i]);
      assert records[i] in records && records[n] in records;
      assert NearKey(lib, records[i]) == near;
      assert SameKey(lib, records[t.kept[k]], records[n]);
    } else if near.Some? && near.value in t.nearSeen {
      assert NearSeenBy(lib, records, t.kept, near.value);
      var k :| 0 <= k < |t.kept| && t.kept[k] < |records| && NearKey(lib, records[t.kept[k]]) == near;
      assert SameKey(lib, records[t.kept[k]], records[n]);
    } else {
      assert u.kept[|t.kept|] == n;
      assert SameKey(lib, records[n], records[n]);
    }
  }

  // ------------------------------------------------------------------ artifacts

  /** filter().collect() by split. */
  function InSplit(records: seq<Record>, split: Split): seq<Record> {
    if records == [] then []
    else
      var front, last := InSplit(records[..|records| - 1], split), records[|records| - 1];
      if last.split == split then front + [last] else front
  }

  /** The held-out records of a tier with their audit keys. */
  function AuditPool(lib: Library, records: seq<Record>, tier: Tier): seq<(string, Record)> {
    if records == [] then []
    else
      var front, last := AuditPool(lib, records[..|records| - 1], tier), records[|records| - 1];
      if last.split == HeldOut && last.tier == tier then
        front + [(lib.digest(CanonicalParts(["audit-v1", TierLabel(tier), last.sampleId])), last)]
      else front
  }

  function TierLabel(tier: Tier): string { match tier case A => "A" case B => "B" case C => "C" }

  predicate KeyLeq(a: (string, Record), b: (string, Record)) { TextLeq(a.0, b.0) }

  function Records(pairs: seq<(string, Record)>): (s: seq<Record>)
    ensures |s| == |pairs| && forall i :: 0 <= i < |s| ==> s[i] == pairs[i].1
  {
    seq(|pairs|, i requires 0 <= i < |pairs| => pairs[i].1)
  }

  function Take<T>(s: seq<T>, n: nat): seq<T> { if n >= |s| then s else s[..n] }

  /** select_audit */
  function SelectAudit(lib: Library, records: seq<Record>, tier: Tier, count: nat): seq<Record> {
    Records(Take(SortBy(AuditPool(lib, records, tier), KeyLeq), count))
  }

  datatype Artifacts = Artifacts(train: seq<Record>, tuning: seq<Record>, heldOut: seq<Record>,
                                 auditA: seq<Record>, auditB: seq<Record>, auditC: seq<Record>,
                                 inputRecords: nat, acceptedRecords: nat, exactRemoved: nat, nearRemoved: nat,
                                 crossExact: nat, crossNear: nat,
                                 tierARequired: nat, tierAAvailable: nat, tierAMet: bool)

  function TierAAvailable(records: seq<Record>): nat {
    if records == [] then 0
    else
      var last := records[|records| - 1];
      TierAAvailable(records[..|records| - 1]) + One(last.split == HeldOut && last.tier == A)
  }

  /** What build_dataset writes for the accepted records. */
  function BuildArtifacts(lib: Library, inputRecords: nat, t: Tally, accepted: seq<Record>, a: nat, b: nat, c: nat): Artifacts {
    Artifacts(InSplit(accepted, Train), InSplit(accepted, Tuning), InSplit(accepted, HeldOut),
              SelectAudit(lib, accepted, A, a), SelectAudit(lib, accepted, B, b), SelectAudit(lib, accepted, C, c),
              inputRecords, |accepted|, t.exactRemoved, t.nearRemoved, t.crossExact, t.crossNear,
              MINIMUM_TIER_A_AUDIT, TierAAvailable(accepted), TierAAvailable(accepted) >= MINIMUM_TIER_A_AUDIT)
  }

  datatype DatasetError = InvalidRecord | Accounting | CrossAccounting | Leakage | AuditGate | AuditTooSmall | NotASubset
                        | NotTheSelection

  /** A record's own checks: identity, NFC form, bounds and candidate contract. */
  type RecordCheck = Record -> bool

  predicate AllIn(valid: RecordCheck, records: seq<Record>, split: Split) {
    forall i :: 0 <= i < |records| ==> valid(records[i]) && records[i].split == split
  }

  /** Two records that may not both be in a dataset. */
  predicate Conflict(lib: Library, a: Record, b: Record) { a.sampleId == b.sampleId || SameKey(lib, a, b) }

  function Conflicts(lib: Library): (Record, Record) -> bool { (a, b) => Conflict(lib, a, b) }

  /** Some record at or after i conflicts with an earlier one. */
  predicate LeaksFrom(lib: Library, records: seq<Record>, i: nat)
    requires i <= |records|
    decreases |records| - i
  {
    i < |records| && ((exists k :: 0 <= k < i && Conflict(lib, records[k], records[i])) || LeaksFrom(lib, records, i + 1))
  }

  function CheckAudit(lib: Library, valid: RecordCheck, accepted: seq<Record>, audit: seq<Record>, tier: Tier, available: nat)
    : Result<(), DatasetError>
  {
    if tier == A && |audit| < (if available < MINIMUM_TIER_A_AUDIT then available else MINIMUM_TIER_A_AUDIT) then
      Err(AuditTooSmall)
    else if !AllIn(valid, audit, HeldOut) then Err(InvalidRecord)
    else if exists i :: 0 <= i < |audit| && (audit[i].tier != tier || audit[i] !in accepted) then Err(NotASubset)
    else if SelectAudit(lib, accepted, tier, |audit|) != audit then Err(NotTheSelection)
    else Ok(())
  }

  /** verify_dataset, once the files have been read and decoded. */
  function Verify(lib: Library, valid: RecordCheck, d: Artifacts): Result<(), DatasetError> {
    var accepted := d.train + d.tuning + d.heldOut;
    if !AllIn(valid, d.train, Train) || !AllIn(valid, d.tuning, Tuning) || !AllIn(valid, d.heldOut, HeldOut) then
      Err(InvalidRecord)
    else if |accepted| != d.acceptedRecords || d.inputRecords != d.acceptedRecords + d.exactRemoved + d.nearRemoved then
      Err(Accounting)
    else if d.crossExact > d.exactRemoved || d.crossNear > d.nearRemoved then Err(CrossAccounting)
    else if LeaksFrom(lib, accepted, 0) then Err(Leakage)
    else
      var available := TierAAvailable(accepted);
      if d.tierARequired != MINIMUM_TIER_A_AUDIT || d.tierAAvailable != available
         || d.tierAMet != (available >= MINIMUM_TIER_A_AUDIT) then Err(AuditGate)
      else
        var _ :- CheckAudit(lib, valid, accepted, d.auditA, A, available);
        var _ :- CheckAudit(lib, valid, accepted, d.auditB, B, available);
        CheckAudit(lib, valid, accepted, d.auditC, C, available)
  }

  /** The three-set sweep over the accepted records. */
  method FindLeak(lib: Library, accepted: seq<Record>) returns (leaks: bool)
    ensures leaks == LeaksFrom(lib, accepted, 0)
  {
    hide ExactKey, NearKey;
    var sampleIds: set<string>, exactKeys: set<string>, nearKeys: set<string> := {}, {}, {};
    for i := 0 to |accepted|
      invariant LeaksFrom(lib, accepted, 0) == LeaksFrom(lib, accepted, i)
      invariant forall id :: id in sampleIds <==> exists k :: 0 <= k < i && accepted[k].sampleId == id
      invariant forall key :: key in exactKeys <==> exists k :: 0 <= k < i && ExactKey(lib, accepted[k]) == key
      invariant forall key :: key in nearKeys <==> exists k :: 0 <= k < i && NearKey(lib, accepted[k]) == Some(key)
    {
      var record := accepted[i];
      var exact, near := ExactKey(lib, record), NearKey(lib, record);
      if record.sampleId in sampleIds || exact in exactKeys || (near.Some? && near.value in nearKeys) {
        return true;
      }
      sampleIds, exactKeys := sampleIds + {record.sampleId}, exactKeys + {exact};
      if near.Some? { nearKeys := nearKeys + {near.value}; }
    }
    return false;
  }

  lemma {:induction false} LeaksMeanConflict(lib: Library, records: seq<Record>, i: nat)
    requires i <= |records|
    ensures LeaksFrom(lib, records, i) <==> exists k, j :: 0 <= k < j < |records| && i <= j && Conflict(lib, records[k], records[j])
    decreases |records| - i
  {
    hide Conflict;
    if i < |records| { LeaksMeanConflict(lib, records, i + 1); }
  }

  // ---------------------------------------------- what a built dataset verifies

  lemma SplitGrows(front: seq<Record>, last: Record, split: Split)
    ensures InSplit(front + [last], split) == if last.split == split then InSplit(front, split) + [last] else InSplit(front, split)
  {
    assert (front + [last])[..|front|] == front;
  }

  lemma JoinedBags<T>(a: multiset<T>, b: multiset<T>, c: multiset<T>, all: multiset<T>, x: multiset<T>)
    requires a + b + c == all
    ensures (a + x) + b + c == all + x && a + (b + x) + c == all + x && a + b + (c + x) == all + x
  {}

  lemma {:induction false} SplitsPartition(records: seq<Record>)
    ensures multiset(InSplit(records, Train)) + multiset(InSplit(records, Tuning)) + multiset(InSplit(records, HeldOut))
         == multiset(records)
    decreases |records|
  {
    if records != [] {
      var front, last := records[..|records| - 1], records[|records| - 1];
      SplitsPartition(front);
      JoinedBags(multiset(InSplit(front, Train)), multiset(InSplit(front, Tuning)), multiset(InSplit(front, HeldOut)),
                 multiset(front), multiset{last});
      assert records == front + [last];
      hide InSplit;
      SplitGrows(front, last, Train);
      SplitGrows(front, last, Tuning);
      SplitGrows(front, last, HeldOut);
    }
  }

  lemma {:induction false} InSplitMembers(records: seq<Record>, split: Split)
    ensures forall r :: r in InSplit(records, split) ==> r in records && r.split == split
    decreases |records|
  {
    if records != [] {
      var front, last := records[..|records| - 1], records[|records| - 1];
      InSplitMembers(front, split);
      assert records == front + [last];
    }
  }

  lemma {:induction false} PoolConcat(lib: Library, a: seq<Record>, b: seq<Record>, tier: Tier)
    ensures AuditPool(lib, a + b, tier) == AuditPool(lib, a, tier) + AuditPool(lib, b, tier)
    ensures TierAAvailable(a + b) == TierAAvailable(a) + TierAAvailable(b)
    decreases |b|
  {
    hide CanonicalParts;
    if b == [] {
      assert a + b == a;
    } else {
      var front, last := b[..|b| - 1], b[|b| - 1];
      PoolConcat(lib, a, front, tier);
      assert (a + b)[..|a + b| - 1] == a + front;
    }
  }

  lemma {:induction false} NoPool(lib: Library, others: seq<Record>, tier: Tier)
    requires forall r :: r in others ==> r.split != HeldOut
    ensures AuditPool(lib, others, tier) == [] && TierAAvailable(others) == 0
    decreases |others|
  {
    if others != [] {
      NoPool(lib, others[..|others| - 1], tier);
      assert others[|others| - 1] in others;
    }
  }

  lemma {:induction false} HeldOutPool(lib: Library, records: seq<Record>, tier: Tier)
    ensures AuditPool(lib, InSplit(records, HeldOut), tier) == AuditPool(lib, records, tier)
    ensures TierAAvailable(InSplit(records, HeldOut)) == TierAAvailable(records)
    decreases |records|
  {
    hide CanonicalParts;
    if records != [] {
      var front, last := records[..|records| - 1], records[|records| - 1];
      HeldOutPool(lib, front, tier);
      var kept := InSplit(front, HeldOut);
      assert (kept + [last])[..|kept|] == kept;
    }
  }

  /** The records as verify_dataset reads them back, split by split. */
  function Stored(accepted: seq<Record>): seq<Record> {
    InSplit(accepted, Train) + InSplit(accepted, Tuning) + InSplit(accepted, HeldOut)
  }

  /** Neither audit nor gate depends on the order of the splits. */
  lemma StoredPool(lib: Library, accepted: seq<Record>, tier: Tier)
    ensures AuditPool(lib, Stored(accepted), tier) == AuditPool(lib, accepted, tier)
    ensures TierAAvailable(Stored(accepted)) == TierAAvailable(accepted)
  {
    hide InSplit, AuditPool, TierAAvailable;
    var others, heldOut := InSplit(accepted, Train) + InSplit(accepted, Tuning), InSplit(accepted, HeldOut);
    InSplitMembers(accepted, Train);
    InSplitMembers(accepted, Tuning);
    PoolConcat(lib, others, heldOut, tier);
    NoPool(lib, others, tier);
    HeldOutPool(lib, accepted, tier);
    assert [] + AuditPool(lib, accepted, tier) == AuditPool(lib, accepted, tier);
  }

  lemma StoredMembers(accepted: seq<Record>)
    ensures multiset(Stored(accepted)) == multiset(accepted) && |Stored(accepted)| == |accepted|
    ensures forall r :: r in accepted ==> r in Stored(accepted)
  {
    hide InSplit;
    SplitsPartition(accepted);
    SameSize(Stored(accepted), accepted);
    forall r | r in accepted ensures r in Stored(accepted) {
      assert r in multiset(accepted);
      assert r in multiset(Stored(accepted));
    }
  }

  lemma SplitValid(valid: RecordCheck, accepted: seq<Record>, split: Split)
    requires forall r :: r in accepted ==> valid(r)
    ensures AllIn(valid, InSplit(accepted, split), split)
  {
    InSplitMembers(accepted, split);
  }

  lemma {:induction false} PoolMembers(lib: Library, records: seq<Record>, tier: Tier)
    ensures forall p :: p in AuditPool(lib, records, tier) ==> p.1 in records && p.1.split == HeldOut && p.1.tier == tier
    ensures tier == A ==> |AuditPool(lib, records, tier)| == TierAAvailable(records)
    decreases |records|
  {
    if records != [] {
      var front, last := records[..|records| - 1], records[|records| - 1];
      PoolMembers(lib, front, tier);
      assert records == front + [last];
    }
  }

  /** Selecting again as many records as were selected gives the same records. */
  lemma AuditReselects(lib: Library, records: seq<Record>, tier: Tier, count: nat)
    ensures SelectAudit(lib, records, tier, |SelectAudit(lib, records, tier, count)|) == SelectAudit(lib, records, tier, count)
    ensures |SelectAudit(lib, records, tier, count)| ==
      (if |AuditPool(lib, records, tier)| < count then |AuditPool(lib, records, tier)| else count)
  {
    SortKeeps(AuditPool(lib, records, tier), KeyLeq);
  }

  lemma AuditMembers(lib: Library, records: seq<Record>, tier: Tier, count: nat)
    ensures var audit := SelectAudit(lib, records, tier, count);
            forall i :: 0 <= i < |audit| ==> audit[i] in records && audit[i].split == HeldOut && audit[i].tier == tier
  {
    hide AuditPool, SortBy;
    var pool := AuditPool(lib, records, tier);
    var sorted := SortBy(pool, KeyLeq);
    SortKeeps(pool, KeyLeq);
    PoolMembers(lib, records, tier);
    forall i | 0 <= i < |sorted| ensures sorted[i] in pool { assert sorted[i] in multiset(sorted); }
  }

  lemma AuditPasses(lib: Library, valid: RecordCheck, accepted: seq<Record>, stored: seq<Record>, tier: Tier, count: nat,
                    available: nat)
    requires AuditPool(lib, stored, tier) == AuditPool(lib, accepted, tier)
    requires forall r :: r in accepted ==> valid(r) && r in stored
    requires available == TierAAvailable(accepted) && (tier == A ==> count >= MINIMUM_TIER_A_AUDIT)
    ensures CheckAudit(lib, valid, stored, SelectAudit(lib, accepted, tier, count), tier, available) == Ok(())
  {
    hide AuditPool, SelectAudit;
    AuditReselects(lib, accepted, tier, count);
    AuditMembers(lib, accepted, tier, count);
    PoolMembers(lib, accepted, tier);
    var audit := SelectAudit(lib, accepted, tier, count);
    SamePool(lib, stored, accepted, tier, |audit|);
  }

  lemma SamePool(lib: Library, a: seq<Record>, b: seq<Record>, tier: Tier, count: nat)
    requires AuditPool(lib, a, tier) == AuditPool(lib, b, tier)
    ensures SelectAudit(lib, a, tier, count) == SelectAudit(lib, b, tier, count)
  {}

  ghost predicate DistinctSampleIds(records: seq<Record>) {
    forall i, j :: 0 <= i < j < |records| ==> records[i].sampleId != records[j].sampleId
  }

  /** The stored records, split by split, leak exactly when two accepted sample
      ids coincide: duplicate removal already rules out every shared key. */
  lemma LeakMeansSharedId(lib: Library, accepted: seq<Record>, stored: seq<Record>)
    requires multiset(stored) == multiset(accepted)
    requires forall i, j :: 0 <= i < j < |accepted| ==> !SameKey(lib, accepted[i], accepted[j])
    ensures !LeaksFrom(lib, stored, 0) <==> DistinctSampleIds(accepted)
  {
    hide ExactKey, NearKey;
    var c := Conflicts(lib);
    LeaksMeanConflict(lib, stored, 0);
    if DistinctSampleIds(accepted) {
      assert ConflictFree(accepted, c);
      ConflictsReordered(stored, accepted, c);
      assert forall k, j :: 0 <= k < j < |stored| ==> !c(stored[k], stored[j]);
    }
    if !LeaksFrom(lib, stored, 0) {
      assert ConflictFree(stored, c);
      ConflictsReordered(accepted, stored, c);
      forall i, j | 0 <= i < j < |accepted| ensures accepted[i].sampleId != accepted[j].sampleId {
        assert !c(accepted[i], accepted[j]);
      }
    }
  }

  /** Verification of a built dataset turns on the sample ids it accepted. */
  lemma AcceptedIdsDecide(lib: Library, valid: RecordCheck, records: seq<Record>, a: nat, b: nat, c: nat)
    requires forall i :: 0 <= i < |records| ==> valid(records[i])
    requires a >= MINIMUM_TIER_A_AUDIT
    ensures var t := TallyOf(lib, records, |records|);
            Clean(lib, records, |records|, t) &&
            var accepted := Select(records, t.kept);
            Verify(lib, valid, BuildArtifacts(lib, |records|, t, accepted, a, b, c))
              == if DistinctSampleIds(accepted) then Ok(()) else Err(Leakage)
  {
    LoopIsClean(lib, records, |records|);
    var t := TallyOf(lib, records, |records|);
    var accepted := Select(records, t.kept);
    CleanSelection(lib, records, t);
    ArtifactsVerify(lib, valid, |records|, t, accepted, a, b, c);
  }

  /** An earlier input shares a key with input i. */
  ghost predicate RepeatsKey(lib: Library, records: seq<Record>, i: nat)
    requires i < |records|
  {
    exists j :: 0 <= j < i && SameKey(lib, records[j], records[i])
  }

  /** The near keys of accepted records are those of all records so far. */
  lemma NearSeenMeansAny(lib: Library, records: seq<Record>, n: nat, t: Tally, key: string)
    requires n <= |records| && Clean(lib, records, n, t) && Coherent(lib, records) && Covered(lib, records, n, t.kept)
    ensures key in t.nearSeen <==> exists j :: 0 <= j < n && NearKey(lib, records[j]) == Some(key)
  {
    hide ExactKey, NearKey;
    assert key in t.nearSeen <==> NearSeenBy(lib, records, t.kept, key);
    if exists j :: 0 <= j < n && NearKey(lib, records[j]) == Some(key) {
      var j :| 0 <= j < n && NearKey(lib, records[j]) == Some(key);
      assert Represented(lib, records, t.kept, j);
      var k :| 0 <= k < |t.kept| && t.kept[k] < |records| && SameKey(lib, records[t.kept[k]], records[j]);
      assert records[t.kept[k]] in records && records[j] in records;
      assert NearKey(lib, records[t.kept[k]]) == Some(key);
    }
  }

  /** Record n is dropped exactly when an earlier one shares a key. */
  lemma DropMeansRepeat(lib: Library, records: seq<Record>, n: nat, t: Tally)
    requires n < |records| && Clean(lib, records, n, t) && Coherent(lib, records) && Covered(lib, records, n, t.kept)
    ensures Admit(lib, records, t, n).kept == if RepeatsKey(lib, records, n) then t.kept else t.kept + [n]
  {
    hide ExactKey, NearKey, Coherent, Covered;
    var exact, near := ExactKey(lib, records[n]), NearKey(lib, records[n]);
    assert exact in t.exactSeen <==> ExactSeenBy(lib, records, n, exact);
    if near.Some? { NearSeenMeansAny(lib, records, n, t, near.value); }
  }

  /** Accepted are exactly the inputs that share no key with an earlier one. */
  lemma {:induction false} AcceptedShareNoEarlierKey(lib: Library, records: seq<Record>, n: nat)
    requires n <= |records| && Coherent(lib, records)
    ensures forall i: nat :: i < n ==> (i in TallyOf(lib, records, n).kept <==> !RepeatsKey(lib, records, i))
    decreases n
  {
    hide Admit, Clean, Coherent, Covered, RepeatsKey;
    if n > 0 {
      AcceptedShareNoEarlierKey(lib, records, n - 1);
      LoopIsClean(lib, records, n - 1);
      DropsAreRepresented(lib, records, n - 1);
      DropMeansRepeat(lib, records, n - 1, TallyOf(lib, records, n - 1));
      KeptBelow(lib, records, n - 1, TallyOf(lib, records, n - 1));
    }
  }

  lemma KeptBelow(lib: Library, records: seq<Record>, n: nat, t: Tally)
    requires n <= |records| && Clean(lib, records, n, t)
    ensures n !in t.kept
  {}

  /** Of two inputs with one sample id, at least one shares a key with an earlier input. */
  ghost predicate SharedIdsRepeat(lib: Library, records: seq<Record>) {
    forall i, j :: 0 <= i < j < |records| && records[i].sampleId == records[j].sampleId ==>
      RepeatsKey(lib, records, i) || RepeatsKey(lib, records, j)
  }

  lemma AcceptedIdsFromInputs(lib: Library, records: seq<Record>, t: Tally)
    requires Coherent(lib, records) && t == TallyOf(lib, records, |records|) && Clean(lib, records, |records|, t)
    ensures DistinctSampleIds(Select(records, t.kept)) <==> SharedIdsRepeat(lib, records)
  {
    hide RepeatsKey, SameKey, ExactSeenBy, NearSeenBy, Coherent, TallyOf;
    AcceptedShareNoEarlierKey(lib, records, |records|);
    var accepted := Select(records, t.kept);
    if SharedIdsRepeat(lib, records) {
      forall i, j | 0 <= i < j < |accepted| ensures accepted[i].sampleId != accepted[j].sampleId {
        assert t.kept[i] in t.kept && t.kept[j] in t.kept && t.kept[i] < t.kept[j];
      }
    }
    if DistinctSampleIds(accepted) {
      forall i, j | 0 <= i < j < |records| && records[i].sampleId == records[j].sampleId
        ensures RepeatsKey(lib, records, i) || RepeatsKey(lib, records, j)
      {
        if i in t.kept && j in t.kept {
          var p :| 0 <= p < |t.kept| && t.kept[p] == i;
          var q :| 0 <= q < |t.kept| && t.kept[q] == j;
        }
      }
    }
  }

  /** What build_dataset writes for these inputs. */
  ghost function Built(lib: Library, inputs: seq<Record>, a: nat, b: nat, c: nat): Artifacts {
    var records := Ordered(inputs);
    LoopIsClean(lib, records, |records|);
    var t := TallyOf(lib, records, |records|);
    BuildArtifacts(lib, |records|, t, Select(records, t.kept), a, b, c)
  }

  /** A dataset built from valid inputs verifies if and only if, in the order by
      sample id, of any two records with one id at least one repeats a key of an
      earlier record; otherwise verification reports the leak and the commit marker
      is withdrawn. */
  lemma BuiltDatasetVerifies(lib: Library, valid: RecordCheck, inputs: seq<Record>, a: nat, b: nat, c: nat)
    requires DigestInjective(lib)
    requires forall i :: 0 <= i < |inputs| ==> valid(inputs[i])
    requires a >= MINIMUM_TIER_A_AUDIT
    ensures Verify(lib, valid, Built(lib, inputs, a, b, c))
         == if SharedIdsRepeat(lib, Ordered(inputs)) then Ok(()) else Err(Leakage)
  {
    hide Verify, BuildArtifacts, SharedIdsRepeat, DistinctSampleIds, DigestInjective, Coherent, TallyOf, Ordered;
    var records := Ordered(inputs);
    forall i | 0 <= i < |records| ensures valid(records[i]) { assert records[i] in multiset(inputs); }
    AcceptedIdsDecide(lib, valid, records, a, b, c);
    ExactMeansNear(lib, records);
    AcceptedIdsFromInputs(lib, records, TallyOf(lib, records, |records|));
  }

  lemma OrderKeepsIdsDistinct(inputs: seq<Record>)
    requires DistinctSampleIds(inputs)
    ensures DistinctSampleIds(Ordered(inputs))
  {
    hide Ordered;
    assert ConflictFree(inputs, SameId);
    ConflictsReordered(Ordered(inputs), inputs, SameId);
    forall i, j | 0 <= i < j < |Ordered(inputs)| ensures Ordered(inputs)[i].sampleId != Ordered(inputs)[j].sampleId {
      assert !SameId(Ordered(inputs)[i], Ordered(inputs)[j]);
    }
  }

  predicate SameId(a: Record, b: Record) { a.sampleId == b.sampleId }

  /** In particular inputs with distinct sample ids always verify. */
  lemma DistinctIdsVerify(lib: Library, valid: RecordCheck, inputs: seq<Record>, a: nat, b: nat, c: nat)
    requires DigestInjective(lib) && DistinctSampleIds(inputs)
    requires forall i :: 0 <= i < |inputs| ==> valid(inputs[i])
    requires a >= MINIMUM_TIER_A_AUDIT
    ensures Verify(lib, valid, Built(lib, inputs, a, b, c)) == Ok(())
  {
    hide Verify, Built, DigestInjective, RepeatsKey, Ordered;
    OrderKeepsIdsDistinct(inputs);
    BuiltDatasetVerifies(lib, valid, inputs, a, b, c);
  }

  /** And two records with one sample id but different short contexts, which share
      no key, make a dataset that fails its own verification. */
  lemma SharedIdFails(lib: Library, valid: RecordCheck, p: Record, q: Record, a: nat, b: nat, c: nat)
    requires DigestInjective(lib) && valid(p) && valid(q) && a >= MINIMUM_TIER_A_AUDIT
    requires p.sampleId == q.sampleId && p.context != q.context
    requires lib.characters(lib.simplify(p.context)) < 16
    ensures Verify(lib, valid, Built(lib, [p, q], a, b, c)) == Err(Leakage)
  {
    BuiltDatasetVerifies(lib, valid, [p, q], a, b, c);
    hide Verify, Built, CanonicalParts, JoinIds, SortBy;
    var records := Ordered([p, q]);
    TextTotal(p.sampleId, q.sampleId);
    TwoInOrder(p, q);
    assert ExactParts(p)[0] != ExactParts(q)[0];
    if ExactKey(lib, p) == ExactKey(lib, q) { PartsInjective(ExactParts(p), ExactParts(q)); }
    assert !RepeatsKey(lib, [p, q], 0) && !RepeatsKey(lib, [p, q], 1);
  }

  lemma TwoInOrder(p: Record, q: Record)
    requires IdLeq(p, q)
    ensures Ordered([p, q]) == [p, q]
  {
    hide TextLeq;
    assert [p, q][1..] == [q] && [q][1..] == [];
    assert SortBy([q], IdLeq) == [q];
  }

  lemma CleanSelection(lib: Library, records: seq<Record>, t: Tally)
    requires Clean(lib, records, |records|, t)
    ensures var accepted := Select(records, t.kept);
            && (forall i, j :: 0 <= i < j < |accepted| ==> !SameKey(lib, accepted[i], accepted[j]))
            && (forall r :: r in accepted ==> r in records)
            && |records| == |accepted| + t.exactRemoved + t.nearRemoved
            && t.crossExact <= t.exactRemoved && t.crossNear <= t.nearRemoved
  {
    hide SameKey, ExactSeenBy, NearSeenBy;
  }

  lemma ArtifactsVerify(lib: Library, valid: RecordCheck, inputs: nat, t: Tally, accepted: seq<Record>, a: nat, b: nat, c: nat)
    requires forall i, j :: 0 <= i < j < |accepted| ==> !SameKey(lib, accepted[i], accepted[j])
    requires forall r :: r in accepted ==> valid(r)
    requires inputs == |accepted| + t.exactRemoved + t.nearRemoved
    requires t.crossExact <= t.exactRemoved && t.crossNear <= t.nearRemoved
    requires a >= MINIMUM_TIER_A_AUDIT
    ensures Verify(lib, valid, BuildArtifacts(lib, inputs, t, accepted, a, b, c))
              == if DistinctSampleIds(accepted) then Ok(()) else Err(Leakage)
  {
    hide SameKey, AuditPool, SelectAudit, LeaksFrom, TierAAvailable, InSplit, CheckAudit, AllIn, DistinctSampleIds;
    StoredMembers(accepted);
    LeakMeansSharedId(lib, accepted, Stored(accepted));
    SplitValid(valid, accepted, Train);
    SplitValid(valid, accepted, Tuning);
    SplitValid(valid, accepted, HeldOut);
    StoredPool(lib, accepted, A);
    StoredPool(lib, accepted, B);
    StoredPool(lib, accepted, C);
    AuditPasses(lib, valid, accepted, Stored(accepted), A, a, TierAAvailable(accepted));
    AuditPasses(lib, valid, accepted, Stored(accepted), B, b, TierAAvailable(accepted));
    AuditPasses(lib, valid, accepted, Stored(accepted), C, c, TierAAvailable(accepted));
  }
}
