/** What whole histories of write_batches guarantee to the consumers of a directory. */
module BatchRuns {
  import opened Wrappers
  import opened BatchPlans
  import opened Wire
  import opened BatchCommit

  /** A seven-digit batch file is not recognized as managed, so a foreign one is
      neither rejected nor replaced. This says there is none in the way. */
  ghost predicate OverflowFree(c: Codec, before: Files, p: Plan)
    requires p.batchSize > 0
  {
    forall k :: 999_999 <= k < |Groups(p)| && FileName(k) in before ==> before[FileName(k)] == c.render(Groups(p)[k])
  }

  lemma {:induction false} GroupMembers<T>(ts: seq<T>, size: nat, k: nat)
    requires size > 0 && k < |Chunks(ts, size)|
    ensures forall t :: t in Chunks(ts, size)[k] ==> t in ts
    decreases |ts|
  {
    if |ts| > size && k > 0 {
      GroupMembers(ts[size..], size, k - 1);
    }
  }

  /** After a commit every planned file holds its planned bytes, unless a foreign
      overflow file was in the way. */
  lemma CommittedFile(c: Codec, before: Files, p: Plan, k: nat)
    requires p.batchSize > 0 && Resumable(c, before, p) && k < |Groups(p)|
    ensures var after := CommitOf(c, before, p);
            && FileName(k) in after
            && (k < 999_999 || FileName(k) !in before ==> after[FileName(k)] == c.render(Groups(p)[k]))
            && (FileName(k) in before ==> after[FileName(k)] == before[FileName(k)])
  {
    hide FileName, Planned;
    PlannedMeans(c, Groups(p));
    ManagedNames(k);
  }

  lemma CommitMatches(c: Codec, before: Files, p: Plan, k: nat)
    requires Lawful(c) && WellFormed(c, p) && Resumable(c, before, p) && OverflowFree(c, before, p)
    requires k < |Groups(p)|
    ensures var after := CommitOf(c, before, p);
            && BatchMatches(c, after, ManifestOf(c, p), k)
            && c.parse(after[FileName(k)]) == Some(Groups(p)[k])
  {
    hide FileName, Planned, Chunks;
    CommittedFile(c, before, p, k);
    GroupMembers(p.targets, p.batchSize, k);
    var group := Groups(p)[k];
    assert c.parse(c.render(group)) == Some(group);
    assert ManifestOf(c, p).batches[k] == EntryOf(c, group, k);
  }

  lemma {:induction false} LoadsGroups(c: Codec, files: Files, m: Manifest, groups: seq<seq<Target>>, n: nat)
    requires n <= |m.batches| == |groups|
    requires forall k :: 0 <= k < n ==> BatchMatches(c, files, m, k)
    requires forall k :: 0 <= k < n ==> m.batches[k].file in files && c.parse(files[m.batches[k].file]) == Some(groups[k])
    ensures Loaded(c, files, m, n) == Flatten(groups[..n])
  {
    if n > 0 {
      LoadsGroups(c, files, m, groups, n - 1);
      assert groups[..n] == groups[..n - 1] + [groups[n - 1]];
      FlattenPush(groups[..n - 1], groups[n - 1]);
    } else {
      assert groups[..0] == [];
    }
  }

  lemma {:induction false} FlattenPush<T>(groups: seq<seq<T>>, last: seq<T>)
    ensures Flatten(groups + [last]) == Flatten(groups) + last
    decreases |groups|
  {
    if groups == [] {
      assert [] + [last] == [last];
      assert Flatten([last]) == last + Flatten([]);
    } else {
      FlattenPush(groups[1..], last);
      assert (groups + [last])[1..] == groups[1..] + [last];
    }
  }

  /** A directory that a well-formed invocation completed verifies, and loading
      it yields exactly the selected targets in order. */
  lemma CommitVerifies(c: Codec, before: Files, p: Plan)
    requires Lawful(c) && WellFormed(c, p) && Resumable(c, before, p) && OverflowFree(c, before, p)
    ensures Consistent(c, CommitOf(c, before, p))
    ensures var m := ManifestOf(c, p);
            && c.readManifest(CommitOf(c, before, p)[MANIFEST]) == Some(m)
            && Loaded(c, CommitOf(c, before, p), m, |m.batches|) == p.targets
  {
    hide FileName, Planned, Chunks;
    var after, m, groups := CommitOf(c, before, p), ManifestOf(c, p), Groups(p);
    assert after[MANIFEST] == c.renderManifest(m);
    forall k | 0 <= k < |groups| ensures BatchMatches(c, after, m, k) && c.parse(after[m.batches[k].file]) == Some(groups[k]) {
      CommitMatches(c, before, p, k);
    }
    LoadsGroups(c, after, m, groups, |groups|);
    assert groups[..|groups|] == groups;
    ChunksKeepAll(p.targets, p.batchSize);
    CommitKeepsOrder(c, before, p);
  }

  /** No unlisted managed file and no held corpus. */
  lemma CommitKeepsOrder(c: Codec, before: Files, p: Plan)
    requires p.batchSize > 0 && Resumable(c, before, p)
    ensures HELD !in CommitOf(c, before, p)
    ensures forall name :: name in CommitOf(c, before, p) && IsBatchName(name) ==>
      exists k :: 0 <= k < |Groups(p)| && name == FileName(k)
  {
    hide FileName, Planned, Chunks;
    PlannedMeans(c, Groups(p));
    assert |MANIFEST| == 13;
    assert MANIFEST != HELD by { assert |HELD| == 10; }
    if HELD in CommitOf(c, before, p) {
      var k :| 0 <= k < |Groups(p)| && HELD == FileName(k);
      ManagedNames(k);
    }
  }

  /** Success of write_batches means a consistent directory exactly when no
      foreign seven-digit batch file was in the way. */
  lemma CommitVerifiesExactly(c: Codec, before: Files, p: Plan)
    requires Lawful(c) && CollisionFree(c) && WellFormed(c, p) && Resumable(c, before, p)
    ensures Consistent(c, CommitOf(c, before, p)) <==> OverflowFree(c, before, p)
  {
    hide FileName, Planned, Chunks;
    if OverflowFree(c, before, p) {
      CommitVerifies(c, before, p);
    }
    var after, m := CommitOf(c, before, p), ManifestOf(c, p);
    if Consistent(c, after) {
      forall k | 999_999 <= k < |Groups(p)| && FileName(k) in before
        ensures before[FileName(k)] == c.render(Groups(p)[k])
      {
        assert BatchMatches(c, after, m, k);
        assert m.batches[k] == EntryOf(c, Groups(p)[k], k);
        CommittedFile(c, before, p, k);
      }
    }
  }

  /** The gap is real: with a million one-target batches, a foreign
      1000000.targets.jsonl is accepted, kept, and breaks the committed directory. */
  lemma OverflowBreaksCommit(c: Codec, p: Plan, foreign: Bytes)
    requires Lawful(c) && CollisionFree(c) && WellFormed(c, p)
    requires |Groups(p)| == 1_000_000 && foreign != c.render(Groups(p)[999_999])
    ensures var before := map[FileName(999_999) := foreign];
            && Resumable(c, before, p)
            && Attempt(c, before, CommitOf(c, before, p), p, Committed)
            && !Consistent(c, CommitOf(c, before, p))
  {
    hide FileName, Planned, Chunks;
    var before := map[FileName(999_999) := foreign];
    ManagedNames(999_999);
    CommitVerifiesExactly(c, before, p);
  }

  /** Below a million batches there is no gap. */
  lemma SmallPlansVerify(c: Codec, before: Files, p: Plan)
    requires Lawful(c) && WellFormed(c, p) && Resumable(c, before, p) && |Groups(p)| < 1_000_000
    ensures Consistent(c, CommitOf(c, before, p))
  {
    CommitVerifies(c, before, p);
  }

  /** Plans of the histories below: well formed, and small enough for six digits. */
  ghost predicate Sound(c: Codec, p: Plan) {
    WellFormed(c, p) && |Groups(p)| < 1_000_000
  }

  /** The targets that a consumer gets from a directory. */
  ghost predicate Serves(c: Codec, files: Files, targets: seq<Target>) {
    && Consistent(c, files)
    && var m := c.readManifest(files[MANIFEST]).value;
       Loaded(c, files, m, |m.batches|) == targets
  }

  /** The manifest is the commit marker: over every history of sound plans that
      starts without one, a directory with a manifest serves exactly the targets
      of one completed invocation, and is never changed again. */
  lemma {:induction false} ManifestIsCommitMarker(c: Codec, events: seq<Event>, files: seq<Files>, j: nat)
    requires Lawful(c) && IsRun(c, events, files) && j < |files| && MANIFEST !in files[0]
    requires forall k :: 0 <= k < |events| ==> Sound(c, events[k].plan)
    ensures MANIFEST in files[j] ==> exists i ::
      0 <= i < j && events[i].outcome == Committed && files[j] == files[i + 1] && Serves(c, files[j], events[i].plan.targets)
    decreases j
  {
    if j > 0 {
      ManifestIsCommitMarker(c, events, files, j - 1);
      var before, after, event := files[j - 1], files[j], events[j - 1];
      assert Attempt(c, before, after, event.plan, event.outcome);
      if MANIFEST in before {
        assert after == before;
      } else if MANIFEST in after {
        CommitStep(c, before, after, event);
        assert files[j] == files[(j - 1) + 1];
      }
    }
  }

  lemma CommitStep(c: Codec, before: Files, after: Files, event: Event)
    requires Lawful(c) && Sound(c, event.plan)
    requires Attempt(c, before, after, event.plan, event.outcome)
    requires MANIFEST !in before && MANIFEST in after
    ensures event.outcome == Committed && Serves(c, after, event.plan.targets)
  {
    hide FileName, Chunks;
    if event.outcome == Crashed {
      var done: set<string> :| after == Selected(Planned(c, Groups(event.plan)), done) + before;
      PlannedMeans(c, Groups(event.plan));
      var k :| 0 <= k < |Groups(event.plan)| && MANIFEST == FileName(k);
      ManagedNames(k);
    } else {
      CommitVerifies(c, before, event.plan);
    }
  }

  /** Crashes do not matter to the plan that keeps being retried: the directory
      stays resumable, and completing it gives what an uninterrupted run gives. */
  lemma {:induction false} RetryCompletes(c: Codec, p: Plan, events: seq<Event>, files: seq<Files>, j: nat)
    requires p.batchSize > 0 && IsRun(c, events, files) && j < |files| && Resumable(c, files[0], p)
    requires forall k :: 0 <= k < |events| ==> events[k] == Event(p, Crashed)
    ensures Resumable(c, files[j], p)
    ensures CommitOf(c, files[j], p) == CommitOf(c, files[0], p)
    decreases j
  {
    if j > 0 {
      RetryCompletes(c, p, events, files, j - 1);
      assert Attempt(c, files[j - 1], files[j], events[j - 1].plan, events[j - 1].outcome);
      CrashStaysResumable(c, files[j - 1], files[j], p);
    }
  }

  lemma CrashStaysResumable(c: Codec, before: Files, after: Files, p: Plan)
    requires p.batchSize > 0 && Resumable(c, before, p) && Attempt(c, before, after, p, Crashed)
    ensures Resumable(c, after, p) && CommitOf(c, after, p) == CommitOf(c, before, p)
  {
    hide FileName, Planned, Groups, IsBatchName, ManifestBytes, Consistent;
    if after != before {
      var planned := Planned(c, Groups(p));
      var done: set<string> :| after == Selected(planned, done) + before;
      ManifestUnplanned(c, p);
      SelectedAbsorbed(planned, done, before);
    }
  }

  lemma ManifestUnplanned(c: Codec, p: Plan)
    requires p.batchSize > 0
    ensures MANIFEST !in Planned(c, Groups(p))
  {
    hide FileName, Chunks;
    PlannedMeans(c, Groups(p));
    if MANIFEST in Planned(c, Groups(p)) {
      var k :| 0 <= k < |Groups(p)| && MANIFEST == FileName(k);
      ManagedNames(k);
    }
  }

  lemma SelectedAbsorbed(planned: Files, done: set<string>, before: Files)
    ensures var after := Selected(planned, done) + before;
            && planned + after == planned + before
            && forall name :: name in after ==>
                 if name in before then after[name] == before[name] else name in planned && after[name] == planned[name]
  {}
}
