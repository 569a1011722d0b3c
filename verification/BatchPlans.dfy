/** What write_batches plans: numbered batch files and the manifest that commits them. */
module BatchPlans {
  import opened Wrappers
  import opened Sequences
  import opened Decimal
  import opened Wire

  type Files = map<string, Bytes>

  const MANIFEST_SCHEMA := "sakura.llm-detail-target-manifest.v2"
  const TARGET_SCHEMA := "sakura.llm-detail-target.v1"
  const MANIFEST := "manifest.json"
  const HELD := "held.jsonl"
  const SUFFIX := ".targets.jsonl"
  const EXTERNAL := "external_nonmaterialized"

  datatype Target = Target(reading: string, surface: string, body: string, targetHash: string, inputHash: string)

  datatype BatchEntry = BatchEntry(batchIndex: nat, file: string, recordCount: nat, inputSha: string,
                                   inputHashes: seq<string>)

  datatype HeldAudit = HeldAudit(recordCount: nat, sha: string, materialization: string)

  /** `details` stands for the fields that are only carried along: prompt
      version, batch size, allowlist and source hashes, the other counters. */
  datatype Manifest = Manifest(schema: string, targetSchema: string, details: string, targetCount: nat,
                               eligible: nat, limit: Option<nat>, heldTargets: nat, heldAudit: HeldAudit,
                               batches: seq<BatchEntry>)

  /** One invocation: the selection and the batch options. */
  datatype Plan = Plan(targets: seq<Target>, eligible: nat, limit: Option<nat>, heldRecords: nat, heldSha: string,
                       heldTargets: nat, batchSize: nat, prompt: string, details: string)

  /** Serialization, hashing and target validation, as given functions. */
  datatype Codec = Codec(valid: Target -> bool, render: seq<Target> -> Bytes, parse: Bytes -> Option<seq<Target>>,
                         sha: Bytes -> string, isSha: string -> bool, isBlank: string -> bool,
                         renderManifest: Manifest -> Bytes, readManifest: Bytes -> Option<Manifest>)

  /** Valid targets and manifests read back, and hashes look like hashes. */
  ghost predicate Lawful(c: Codec) {
    && (forall ts: seq<Target> {:trigger c.render(ts)} ::
          (forall t :: t in ts ==> c.valid(t)) ==> c.parse(c.render(ts)) == Some(ts))
    && (forall m: Manifest {:trigger c.renderManifest(m)} :: c.readManifest(c.renderManifest(m)) == Some(m))
    && (forall b: Bytes {:trigger c.sha(b)} :: c.isSha(c.sha(b)))
  }

  /** An idealized hash without collisions. */
  ghost predicate CollisionFree(c: Codec) {
    forall a: Bytes, b: Bytes :: c.sha(a) == c.sha(b) ==> a == b
  }

  // ------------------------------------------------------------------ names

  /** File of the batch with zero-based number k; file numbers start at one. */
  function FileName(k: nat): string {
    Padded(k + 1, 6) + SUFFIX
  }

  /** is_target_batch_name */
  predicate IsBatchName(name: string) {
    |name| == 20 && IsNumeral(name[..6]) && name[6..] == SUFFIX
  }

  lemma NamesAreDistinct(i: nat, j: nat)
    requires FileName(i) == FileName(j)
    ensures i == j
  {
    var a, b := Padded(i + 1, 6), Padded(j + 1, 6);
    assert a == FileName(i)[..|FileName(i)| - |SUFFIX|] == b;
    PaddedValue(i + 1, 6);
    PaddedValue(j + 1, 6);
  }

  /** Only six-digit batches are recognized as managed files. */
  lemma ManagedNames(k: nat)
    ensures IsBatchName(FileName(k)) <==> k + 1 < 1_000_000
    ensures FileName(k) != MANIFEST && FileName(k) != HELD
  {
    DigitsLength(k + 1, 6);
    assert Pow10(2) == 100;
    assert Pow10(4) == 100 * Pow10(2);
    assert Pow10(6) == 100 * Pow10(4);
    var name := FileName(k);
    assert name[|name| - 14..] == SUFFIX;
    assert |SUFFIX| == 14 && |name| >= 20;
    if k + 1 < 1_000_000 {
      assert name[..6] == Padded(k + 1, 6);
    }
    assert |MANIFEST| == 13 && |HELD| == 10;
  }

  // ------------------------------------------------------------------ plans

  /** slice::chunks */
  function Chunks<T>(ts: seq<T>, size: nat): (r: seq<seq<T>>)
    requires size > 0
    ensures forall k :: 0 <= k < |r| ==> 0 < |r[k]| <= size
    decreases |ts|
  {
    if ts == [] then []
    else if |ts| <= size then [ts]
    else [ts[..size]] + Chunks(ts[size..], size)
  }

  function Flatten<T>(groups: seq<seq<T>>): seq<T> {
    if groups == [] then [] else groups[0] + Flatten(groups[1..])
  }

  lemma {:induction false} ChunksKeepAll<T>(ts: seq<T>, size: nat)
    requires size > 0
    ensures Flatten(Chunks(ts, size)) == ts
    decreases |ts|
  {
    if ts == [] {
    } else if |ts| <= size {
      assert Flatten([ts]) == ts + Flatten([]);
    } else {
      ChunksKeepAll(ts[size..], size);
      assert ts[..size] + ts[size..] == ts;
    }
  }

  function Hashes(ts: seq<Target>): (r: seq<string>)
    ensures |r| == |ts| && forall i :: 0 <= i < |r| ==> r[i] == ts[i].inputHash
  {
    seq(|ts|, i requires 0 <= i < |ts| => ts[i].inputHash)
  }

  function EntryOf(c: Codec, group: seq<Target>, k: nat): BatchEntry {
    BatchEntry(k + 1, FileName(k), |group|, c.sha(c.render(group)), Hashes(group))
  }

  function Groups(p: Plan): seq<seq<Target>>
    requires p.batchSize > 0
  {
    Chunks(p.targets, p.batchSize)
  }

  function Entries(c: Codec, groups: seq<seq<Target>>): (r: seq<BatchEntry>)
    ensures |r| == |groups| && forall k :: 0 <= k < |r| ==> r[k] == EntryOf(c, groups[k], k)
  {
    seq(|groups|, k requires 0 <= k < |groups| => EntryOf(c, groups[k], k))
  }

  function ManifestOf(c: Codec, p: Plan): Manifest
    requires p.batchSize > 0
  {
    Manifest(MANIFEST_SCHEMA, TARGET_SCHEMA, p.details, |p.targets|, p.eligible, p.limit, p.heldTargets,
             HeldAudit(p.heldRecords, p.heldSha, EXTERNAL), Entries(c, Groups(p)))
  }

  /** The planned batch files. */
  function Planned(c: Codec, groups: seq<seq<Target>>): Files {
    if groups == [] then map[]
    else Planned(c, groups[..|groups| - 1])[FileName(|groups| - 1) := c.render(groups[|groups| - 1])]
  }

  lemma {:induction false} PlannedMeans(c: Codec, groups: seq<seq<Target>>)
    ensures forall name :: name in Planned(c, groups) <==> exists k :: 0 <= k < |groups| && name == FileName(k)
    ensures forall k :: 0 <= k < |groups| ==>
      FileName(k) in Planned(c, groups) && Planned(c, groups)[FileName(k)] == c.render(groups[k])
    decreases |groups|
  {
    hide FileName;
    if groups != [] {
      var n := |groups| - 1;
      PlannedMeans(c, groups[..n]);
      forall k | 0 <= k < n ensures FileName(k) != FileName(n) {
        if FileName(k) == FileName(n) { NamesAreDistinct(k, n); }
      }
      assert forall k :: 0 <= k < n ==> groups[..n][k] == groups[k];
    }
  }

  /** A selection whose targets validate, whose identities are unique and whose
      accounting is right. */
  ghost predicate WellFormed(c: Codec, p: Plan) {
    && p.batchSize > 0 && !c.isBlank(p.prompt)
    && (forall t :: t in p.targets ==> c.valid(t))
    && (forall i, j :: 0 <= i < j < |p.targets| ==> p.targets[i].targetHash != p.targets[j].targetHash)
    && p.eligible >= |p.targets|
    && (p.limit.Some? ==> p.limit.value >= |p.targets|)
    && p.heldRecords == p.heldTargets && c.isSha(p.heldSha)
  }
}
