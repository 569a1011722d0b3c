/** The commit protocol of a batch directory: write_batches with crashes between
    file writes, the verification a consumer runs, and the committed load. */
module BatchCommit {
  import opened Wrappers
  import opened Sequences
  import opened BatchPlans
  import opened Wire

  // ------------------------------------------------- what a manifest commits to

  /** The targets of the first n batch files, as the manifest lists them. */
  ghost function Loaded(c: Codec, files: Files, m: Manifest, n: nat): seq<Target>
    requires n <= |m.batches|
    requires forall k :: 0 <= k < n ==> BatchMatches(c, files, m, k)
  {
    if n == 0 then []
    else
      assert BatchMatches(c, files, m, n - 1);
      Loaded(c, files, m, n - 1) + c.parse(files[m.batches[n - 1].file]).value
  }

  /** Batch k is the file the manifest describes. */
  ghost predicate BatchMatches(c: Codec, files: Files, m: Manifest, k: nat)
    requires k < |m.batches|
  {
    var b := m.batches[k];
    && b.batchIndex == k + 1 && b.file == FileName(k) && b.file in files
    && c.sha(files[b.file]) == b.inputSha
    && c.parse(files[b.file]).Some?
    && |c.parse(files[b.file]).value| == b.recordCount
    && Hashes(c.parse(files[b.file]).value) == b.inputHashes
  }

  ghost predicate DistinctHashes(ts: seq<Target>) {
    forall i, j :: 0 <= i < j < |ts| ==> ts[i].targetHash != ts[j].targetHash
  }

  /** Exactly what verify_committed_batches accepts. */
  ghost predicate Consistent(c: Codec, files: Files) {
    && MANIFEST in files
    && c.readManifest(files[MANIFEST]).Some?
    && ManifestHolds(c, files, c.readManifest(files[MANIFEST]).value)
  }

  ghost predicate ManifestHolds(c: Codec, files: Files, m: Manifest) {
    && m.schema == MANIFEST_SCHEMA && m.targetSchema == TARGET_SCHEMA
    && (forall k :: 0 <= k < |m.batches| ==> BatchMatches(c, files, m, k))
    && DistinctHashes(Loaded(c, files, m, |m.batches|))
    && |Loaded(c, files, m, |m.batches|)| == m.targetCount
    && m.eligible >= m.targetCount && (m.limit.Some? ==> m.limit.value >= m.targetCount)
    && m.heldAudit.materialization == EXTERNAL && c.isSha(m.heldAudit.sha)
    && m.heldAudit.recordCount == m.heldTargets
    && HELD !in files
    && (forall name :: name in files && IsBatchName(name) ==> exists k :: 0 <= k < |m.batches| && name == FileName(k))
  }

  // ------------------------------------------------------------- verification

  method VerifyBatches(c: Codec, files: Files, m: Manifest) returns (ok: bool, targets: seq<Target>)
    ensures ok ==> (forall k :: 0 <= k < |m.batches| ==> BatchMatches(c, files, m, k))
                   && targets == Loaded(c, files, m, |m.batches|) && DistinctHashes(targets)
    ensures !ok ==> !((forall k :: 0 <= k < |m.batches| ==> BatchMatches(c, files, m, k))
                      && DistinctHashes(Loaded(c, files, m, |m.batches|)))
  {
    var seen: set<string> := {};
    targets := [];
    for k := 0 to |m.batches|
      invariant forall i :: 0 <= i < k ==> BatchMatches(c, files, m, i)
      invariant targets == Loaded(c, files, m, k) && DistinctHashes(targets)
      invariant seen == set t | t in targets :: t.targetHash
    {
      var b := m.batches[k];
      assert BatchMatches(c, files, m, k) ==> b.file in files && c.parse(files[b.file]).Some?;
      if b.batchIndex != k + 1 || b.file != FileName(k) || b.file !in files || c.sha(files[b.file]) != b.inputSha {
        return false, targets;
      }
      var parsed := c.parse(files[b.file]);
      if parsed.None? {
        return false, targets;
      }
      ghost var before := targets;
      var unique := true;
      for i := 0 to |parsed.value|
        invariant targets == before + parsed.value[..i]
        invariant seen == set t | t in targets :: t.targetHash
        invariant unique <==> DistinctHashes(targets)
      {
        assert parsed.value[..i + 1] == parsed.value[..i] + [parsed.value[i]];
        PushHash(targets, parsed.value[i]);
        unique := unique && parsed.value[i].targetHash !in seen;
        seen := seen + {parsed.value[i].targetHash};
        targets := targets + [parsed.value[i]];
      }
      assert parsed.value[..|parsed.value|] == parsed.value;
      if |parsed.value| != b.recordCount || Hashes(parsed.value) != b.inputHashes {
        return false, targets;
      }
      if !unique {
        LoadedGrows(c, files, m, k + 1);
        return false, targets;
      }
    }
    ok := true;
  }

  lemma PushHash(ts: seq<Target>, t: Target)
    ensures DistinctHashes(ts + [t]) <==> DistinctHashes(ts) && t.targetHash !in (set x | x in ts :: x.targetHash)
    ensures (set x | x in ts + [t] :: x.targetHash) == (set x | x in ts :: x.targetHash) + {t.targetHash}
  {
    var all := ts + [t];
    assert forall i :: 0 <= i < |ts| ==> all[i] == ts[i];
    assert all[|ts|] == t;
    if DistinctHashes(all) {
      forall x | x in ts ensures x.targetHash != t.targetHash {
        var i :| 0 <= i < |ts| && ts[i] == x;
        assert all[i].targetHash != all[|ts|].targetHash;
      }
    }
  }

  /** A duplicate among the first files stays one when all batches match. */
  lemma {:induction false} LoadedGrows(c: Codec, files: Files, m: Manifest, n: nat)
    requires n <= |m.batches| && forall k :: 0 <= k < n ==> BatchMatches(c, files, m, k)
    requires !DistinctHashes(Loaded(c, files, m, n))
    ensures (forall k :: 0 <= k < |m.batches| ==> BatchMatches(c, files, m, k)) ==>
      !DistinctHashes(Loaded(c, files, m, |m.batches|))
    decreases |m.batches| - n
  {
    if n < |m.batches| && forall k :: 0 <= k < |m.batches| ==> BatchMatches(c, files, m, k) {
      assert BatchMatches(c, files, m, n);
      var ts, more := Loaded(c, files, m, n), c.parse(files[m.batches[n].file]).value;
      var i, j :| 0 <= i < j < |ts| && ts[i].targetHash == ts[j].targetHash;
      assert (ts + more)[i] == ts[i] && (ts + more)[j] == ts[j];
      LoadedGrows(c, files, m, n + 1);
    }
  }

  /** verify_committed_batches followed by the load of the listed batches. */
  method LoadCommitted(c: Codec, files: Files) returns (r: Option<seq<Target>>)
    ensures r.Some? <==> Consistent(c, files)
    ensures r.Some? ==> var m := c.readManifest(files[MANIFEST]).value; r.value == Loaded(c, files, m, |m.batches|)
  {
    if MANIFEST !in files {
      return None;
    }
    var manifest := c.readManifest(files[MANIFEST]);
    if manifest.None? {
      return None;
    }
    var m := manifest.value;
    if m.schema != MANIFEST_SCHEMA || m.targetSchema != TARGET_SCHEMA {
      return None;
    }
    var ok, targets := VerifyBatches(c, files, m);
    if !ok || |targets| != m.targetCount || m.eligible < m.targetCount
       || (m.limit.Some? && m.limit.value < m.targetCount) {
      return None;
    }
    if m.heldAudit.materialization != EXTERNAL || !c.isSha(m.heldAudit.sha)
       || m.heldAudit.recordCount != m.heldTargets || HELD in files {
      return None;
    }
    if name :| name in files && IsBatchName(name) && !(exists k :: 0 <= k < |m.batches| && name == FileName(k)) {
      return None;
    }
    r := Some(targets);
  }

  // ------------------------------------------------------------------ writing

  datatype Rejection = ZeroBatchSize | BlankPrompt | InvalidTarget | InconsistentDirectory
                     | OtherPlanCommitted | UnplannedFile

  datatype Outcome = Committed | AlreadyCommitted | Crashed | Rejected(why: Rejection)

  ghost function ManifestBytes(c: Codec, p: Plan): Bytes
    requires p.batchSize > 0
  {
    c.renderManifest(ManifestOf(c, p))
  }

  /** No manifest yet, and every managed file is one of this plan, unchanged:
      the directories that validate_uncommitted_files lets an invocation touch. */
  ghost predicate Resumable(c: Codec, files: Files, p: Plan)
    requires p.batchSize > 0
  {
    && MANIFEST !in files
    && (forall name :: name in files && (IsBatchName(name) || name == HELD) ==>
          name in Planned(c, Groups(p)) && files[name] == Planned(c, Groups(p))[name])
  }

  /** Some of the planned files, without touching what is there. */
  ghost predicate PartlyWritten(c: Codec, before: Files, after: Files, p: Plan)
    requires p.batchSize > 0
  {
    exists done: set<string> :: after == Selected(Planned(c, Groups(p)), done) + before
  }

  function Selected(planned: Files, done: set<string>): Files {
    map name | name in done && name in planned :: planned[name]
  }

  /** All planned files that were missing, and the manifest. */
  ghost function CommitOf(c: Codec, before: Files, p: Plan): Files
    requires p.batchSize > 0
  {
    (Planned(c, Groups(p)) + before)[MANIFEST := ManifestBytes(c, p)]
  }

  /** What one invocation may do to a directory, whatever the order in which it
      writes the planned files and wherever it is cut off. */
  ghost predicate Attempt(c: Codec, before: Files, after: Files, p: Plan, outcome: Outcome) {
    match outcome
    case Rejected(_) => after == before
    case AlreadyCommitted =>
      p.batchSize > 0 && after == before && Consistent(c, before) && before[MANIFEST] == ManifestBytes(c, p)
    case Crashed =>
      after == before || (p.batchSize > 0 && Resumable(c, before, p) && PartlyWritten(c, before, after, p))
    case Committed =>
      p.batchSize > 0 && Resumable(c, before, p) && after == CommitOf(c, before, p)
  }

  lemma SelectOne(planned: Files, done: set<string>, before: Files, name: string)
    requires name in planned && name !in done
    ensures name in Selected(planned, done) + before <==> name in before
    ensures Selected(planned, done + {name}) + before ==
      if name in before then Selected(planned, done) + before
      else (Selected(planned, done) + before)[name := planned[name]]
  {
  }

  lemma SelectEnds(planned: Files, before: Files)
    ensures Selected(planned, {}) + before == before
    ensures Selected(planned, planned.Keys) == planned
  {
  }

  lemma CutOff(c: Codec, before: Files, p: Plan, done: set<string>)
    requires p.batchSize > 0 && Resumable(c, before, p)
    ensures Attempt(c, before, Selected(Planned(c, Groups(p)), done) + before, p, Crashed)
  {
    assert PartlyWritten(c, before, Selected(Planned(c, Groups(p)), done) + before, p);
  }

  lemma Finished(c: Codec, before: Files, p: Plan)
    requires p.batchSize > 0 && Resumable(c, before, p)
    ensures Attempt(c, before, (Planned(c, Groups(p)) + before)[MANIFEST := ManifestBytes(c, p)], p, Committed)
  {
  }

  /** The options and targets that write_batches accepts. */
  ghost predicate Wanted(c: Codec, p: Plan) {
    p.batchSize > 0 && !c.isBlank(p.prompt) && forall t :: t in p.targets ==> c.valid(t)
  }

  class Directory {
    var files: Files

    constructor (initial: Files)
      ensures files == initial
    {
      files := initial;
    }

    /** write_batches. `writes` is how many file writes happen before the process
        dies; the planned files are created in an arbitrary order. */
    method WriteBatches(c: Codec, p: Plan, writes: nat) returns (outcome: Outcome)
      modifies this
      ensures Attempt(c, old(files), files, p, outcome)
      ensures Wanted(c, p) && Resumable(c, old(files), p) && writes > |Groups(p)| ==> outcome == Committed
      ensures Wanted(c, p) && Consistent(c, old(files)) ==>
        if old(files)[MANIFEST] == ManifestBytes(c, p) then outcome == AlreadyCommitted else outcome.Rejected?
    {
      if p.batchSize == 0 {
        return Rejected(ZeroBatchSize);
      }
      if c.isBlank(p.prompt) {
        return Rejected(BlankPrompt);
      }
      if t :| t in p.targets && !c.valid(t) {
        return Rejected(InvalidTarget);
      }
      var planned := Planned(c, Groups(p));
      var manifest := c.renderManifest(ManifestOf(c, p));
      if MANIFEST in files {
        var loaded := LoadCommitted(c, files);
        if loaded.None? {
          return Rejected(InconsistentDirectory);
        }
        return if files[MANIFEST] == manifest then AlreadyCommitted else Rejected(OtherPlanCommitted);
      }
      if name :| name in files && (IsBatchName(name) || name == HELD)
                 && (name !in planned || files[name] != planned[name]) {
        return Rejected(UnplannedFile);
      }
      outcome := WriteFiles(c, p, planned, manifest, writes);
    }

    /** The write loop and, last of all, the manifest. */
    method WriteFiles(c: Codec, p: Plan, planned: Files, manifest: Bytes, writes: nat) returns (outcome: Outcome)
      requires p.batchSize > 0 && planned == Planned(c, Groups(p)) && manifest == ManifestBytes(c, p)
      requires Resumable(c, files, p)
      modifies this
      ensures Attempt(c, old(files), files, p, outcome)
      ensures outcome == Committed || (outcome == Crashed && writes <= |Groups(p)|)
    {
      hide Planned, Resumable, Selected, Attempt;
      var done: set<string>, budget := {}, writes;
      PlannedCount(c, Groups(p));
      SelectEnds(planned, files);
      while planned.Keys - done != {}
        invariant done <= planned.Keys
        invariant files == Selected(planned, done) + old(files)
        invariant writes <= budget + |done|
        decreases planned.Keys - done
      {
        var name :| name in planned.Keys - done;
        SelectOne(planned, done, old(files), name);
        if name !in files {
          if budget == 0 {
            CutOff(c, old(files), p, done);
            SubsetCount(done, planned.Keys);
            return Crashed;
          }
          files := files[name := planned[name]];
          budget := budget - 1;
        }
        done := done + {name};
      }
      assert done == planned.Keys;
      if budget == 0 {
        CutOff(c, old(files), p, done);
        return Crashed;
      }
      Finished(c, old(files), p);
      files := files[MANIFEST := manifest];
      outcome := Committed;
    }
  }

  lemma {:induction false} PlannedCount(c: Codec, groups: seq<seq<Target>>)
    ensures |Planned(c, groups).Keys| <= |groups|
    decreases |groups|
  {
    if groups != [] {
      var n := |groups| - 1;
      PlannedCount(c, groups[..n]);
      assert Planned(c, groups).Keys == Planned(c, groups[..n]).Keys + {FileName(n)};
    }
  }

  // ---------------------------------------------------------------- over runs

  datatype Event = Event(plan: Plan, outcome: Outcome)

  /** A history of invocations on one directory: files[k] before event k. */
  ghost predicate IsRun(c: Codec, events: seq<Event>, files: seq<Files>) {
    && |files| == |events| + 1
    && forall k :: 0 <= k < |events| ==> Attempt(c, files[k], files[k + 1], events[k].plan, events[k].outcome)
  }

  /** Every file of `before` is still there with the same bytes. */
  ghost predicate Preserves(before: Files, after: Files) {
    forall name :: name in before ==> name in after && after[name] == before[name]
  }

  lemma AttemptPreserves(c: Codec, before: Files, after: Files, p: Plan, outcome: Outcome)
    requires Attempt(c, before, after, p, outcome)
    ensures Preserves(before, after)
  {
  }

  /** No invocation, whatever its plan and wherever it dies, ever overwrites or
      removes a file. */
  lemma {:induction false} NothingIsOverwritten(c: Codec, events: seq<Event>, files: seq<Files>, i: nat, j: nat)
    requires IsRun(c, events, files) && i <= j < |files|
    ensures Preserves(files[i], files[j])
    decreases j
  {
    if i < j {
      NothingIsOverwritten(c, events, files, i, j - 1);
      AttemptPreserves(c, files[j - 1], files[j], events[j - 1].plan, events[j - 1].outcome);
    }
  }
}
