/** Prediction snapshots: the offered candidates without later duplicates. */
module Snapshots {
  import opened Wrappers
  import opened Wire
  import opened Utf8
  import opened Sequences
  import opened ContextFrames
  import opened Baseline
  import SessionContext

  const MAX_READING_BYTES := 512
  const MAX_SURFACE_BYTES := 512

  datatype Source = History | SystemDictionary | UserSource

  datatype DictionaryIdentity = SystemEntry(ordinal: u32) | UserEntry(ordinal: u32)

  datatype Input = Input(reading: Text, surface: Text, identity: Option<DictionaryIdentity>, baseCost: i32,
                         authority: Authority, source: Source, rightId: u16, isIt: bool)

  /** A kept candidate: its hash id, the input it came from, and where it stood. */
  datatype Kept = Kept(id: u64, input: Input, originalIndex: nat)

  datatype SnapshotCorrelation = SnapshotCorrelation(sessionId: u64, contextGeneration: u64, compositionGeneration: u64,
                                                     candidateSet: Fingerprint)

  datatype PredictionSnapshot = PredictionSnapshot(correlation: SnapshotCorrelation, candidates: seq<Kept>, offered: nat)

  datatype SnapshotError = TestOnly | UnclassifiedText | SensitiveText | InvalidCorrelation | TooManyInputs | EmptyText
                         | TextTooLong | CandidateIdCollision

  /** The unseen hashes: candidate identity and candidate-set fingerprint. */
  datatype Hashes = Hashes(id: Input -> u64, set_: seq<Kept> -> Fingerprint)

  predicate SameIdentity(a: Input, b: Input) {
    a.reading == b.reading && a.surface == b.surface && a.identity == b.identity
  }

  predicate Repeats(kept: seq<Kept>, input: Input) {
    exists i :: 0 <= i < |kept| && SameIdentity(kept[i].input, input)
  }

  predicate HasId(kept: seq<Kept>, id: u64) { exists i :: 0 <= i < |kept| && kept[i].id == id }

  /** One turn of the loop over the inputs. */
  function Admit(hashes: Hashes, inputs: seq<Input>, kept: seq<Kept>, i: nat): Result<seq<Kept>, SnapshotError>
    requires i < |inputs|
  {
    var input := inputs[i];
    if input.reading == [] || input.surface == [] then Err(EmptyText)
    else if |input.reading| > MAX_READING_BYTES || |input.surface| > MAX_SURFACE_BYTES then Err(TextTooLong)
    else if Repeats(kept, input) then Ok(kept)
    else
      var id := hashes.id(input);
      if id == 0 || HasId(kept, id) then Err(CandidateIdCollision) else Ok(kept + [Kept(id, input, i)])
  }

  function AdmitAll(hashes: Hashes, inputs: seq<Input>, n: nat): Result<seq<Kept>, SnapshotError>
    requires n <= |inputs|
  {
    if n == 0 then Ok([])
    else
      var kept :- AdmitAll(hashes, inputs, n - 1);
      Admit(hashes, inputs, kept, n - 1)
  }

  /** The first of the checks on the call itself. */
  function CheckCall(sessionId: u64, contextGeneration: u64, compositionGeneration: u64,
                     scope: SessionContext.InputScope, classified: bool, testOnly: bool, count: nat): Result<(), SnapshotError> {
    if testOnly then Err(TestOnly)
    else if !classified || scope == SessionContext.InputScope.Unclassified then Err(UnclassifiedText)
    else if scope != SessionContext.InputScope.Normal then Err(SensitiveText)
    else if sessionId == 0 || contextGeneration == 0 || compositionGeneration == 0 then Err(InvalidCorrelation)
    else if count > CAPACITY then Err(TooManyInputs)
    else Ok(())
  }

  /** A slot not yet filled. */
  const VACANT := Kept(0, Input(EMPTY, EMPTY, None, 0, Authority.Ordinary, History, 0, false), 0)

  /** The scan over the accepted inputs. */
  method IsRepeat(inputs: seq<Input>, acceptedInputs: array<nat>, len: nat, input: Input, ghost kept: seq<Kept>) returns (r: bool)
    requires |kept| == len <= acceptedInputs.Length
    requires forall k :: 0 <= k < len ==> acceptedInputs[k] < |inputs| && inputs[acceptedInputs[k]] == kept[k].input
    ensures r == Repeats(kept, input)
  {
    for k := 0 to len
      invariant forall j :: 0 <= j < k ==> !SameIdentity(kept[j].input, input)
    {
      if SameIdentity(inputs[acceptedInputs[k]], input) { return true; }
    }
    r := false;
  }

  /** The scan for a candidate with the same id. */
  method IsTaken(candidates: array<Kept>, len: nat, id: u64) returns (r: bool)
    requires len <= candidates.Length
    ensures r == HasId(candidates[..len], id)
  {
    for k := 0 to len
      invariant forall j :: 0 <= j < k ==> candidates[j].id != id
    {
      if candidates[k].id == id {
        assert candidates[..len][k].id == id;
        return true;
      }
    }
    r := false;
  }

  /** The loop, which fills both arrays up to a running length. */
  method FillCandidates(hashes: Hashes, inputs: seq<Input>, acceptedInputs: array<nat>, candidates: array<Kept>)
    returns (r: Result<nat, SnapshotError>)
    requires |inputs| <= CAPACITY == acceptedInputs.Length == candidates.Length
    modifies acceptedInputs, candidates
    ensures r.Ok? ==> r.value <= CAPACITY && AdmitAll(hashes, inputs, |inputs|) == Ok(candidates[..r.value])
    ensures r.Err? ==> AdmitAll(hashes, inputs, |inputs|) == Err(r.error)
  {
    hide SameIdentity, Repeats, HasId;
    var len: nat := 0;
    for i := 0 to |inputs|
      invariant len <= i && AdmitAll(hashes, inputs, i) == Ok(candidates[..len])
      invariant forall k :: 0 <= k < len ==> acceptedInputs[k] < |inputs| && inputs[acceptedInputs[k]] == candidates[k].input
    {
      var input := inputs[i];
      ghost var kept := candidates[..len];
      assert AdmitAll(hashes, inputs, i + 1) == Admit(hashes, inputs, kept, i);
      if AdmitAll(hashes, inputs, i + 1).Err? { ErrorStays(hashes, inputs, i + 1, |inputs|); }
      if input.reading == [] || input.surface == [] { return Err(EmptyText); }
      if |input.reading| > MAX_READING_BYTES || |input.surface| > MAX_SURFACE_BYTES { return Err(TextTooLong); }
      var duplicate := IsRepeat(inputs, acceptedInputs, len, input, kept);
      if duplicate { continue; }
      var id := hashes.id(input);
      var taken := IsTaken(candidates, len, id);
      if id == 0 || taken { return Err(CandidateIdCollision); }
      acceptedInputs[len] := i;
      candidates[len] := Kept(id, input, i);
      assert candidates[..len + 1] == kept + [candidates[len]];
      len := len + 1;
    }
    r := Ok(len);
  }

  method Build(hashes: Hashes, sessionId: u64, contextGeneration: u64, compositionGeneration: u64,
               scope: SessionContext.InputScope, classified: bool, testOnly: bool, inputs: seq<Input>)
    returns (r: Result<PredictionSnapshot, SnapshotError>)
    ensures var call := CheckCall(sessionId, contextGeneration, compositionGeneration, scope, classified, testOnly, |inputs|);
            var all := AdmitAll(hashes, inputs, |inputs|);
            r == if call.Err? then Err(call.error)
                 else if all.Err? then Err(all.error)
                 else Ok(PredictionSnapshot(SnapshotCorrelation(sessionId, contextGeneration, compositionGeneration,
                                                                hashes.set_(all.value)), all.value, |inputs|))
    ensures r.Ok? ==> IsBuilt(r.value)
  {
    hide AdmitAll;
    var call := CheckCall(sessionId, contextGeneration, compositionGeneration, scope, classified, testOnly, |inputs|);
    if call.Err? { return Err(call.error); }
    var acceptedInputs := new nat[CAPACITY](_ => 0);
    var candidates := new Kept[CAPACITY](_ => VACANT);
    var filled := FillCandidates(hashes, inputs, acceptedInputs, candidates);
    if filled.Err? { return Err(filled.error); }
    var kept := candidates[..filled.value];
    AdmitsFirstOccurrences(hashes, inputs, |inputs|);
    r := Ok(PredictionSnapshot(SnapshotCorrelation(sessionId, contextGeneration, compositionGeneration,
                                                   hashes.set_(kept)), kept, |inputs|));
  }

  lemma {:induction false} ErrorStays(hashes: Hashes, inputs: seq<Input>, i: nat, n: nat)
    requires i <= n <= |inputs| && AdmitAll(hashes, inputs, i).Err?
    ensures AdmitAll(hashes, inputs, n) == AdmitAll(hashes, inputs, i)
    decreases n
  {
    if i < n { ErrorStays(hashes, inputs, i, n - 1); }
  }

  /** Input i says what an earlier input already said. */
  predicate RepeatsEarlier(inputs: seq<Input>, i: nat)
    requires i < |inputs|
  {
    exists j :: 0 <= j < i && SameIdentity(inputs[j], inputs[i])
  }

  ghost predicate KeptAt(kept: seq<Kept>, i: nat) { exists k :: 0 <= k < |kept| && kept[k].originalIndex == i }

  /** The kept candidates are exactly the first occurrences, in offered order,
      under distinct nonzero ids. */
  ghost predicate FirstOccurrences(hashes: Hashes, inputs: seq<Input>, n: nat, kept: seq<Kept>)
    requires n <= |inputs|
  {
    && (forall k :: 0 <= k < |kept| ==>
          && kept[k].originalIndex < n && kept[k].input == inputs[kept[k].originalIndex]
          && kept[k].id == hashes.id(kept[k].input) != 0)
    && (forall k, m :: 0 <= k < m < |kept| ==> kept[k].originalIndex < kept[m].originalIndex && kept[k].id != kept[m].id)
    && (forall i {:trigger KeptAt(kept, i)} :: 0 <= i < n ==> (KeptAt(kept, i) <==> !RepeatsEarlier(inputs, i)))
  }

  /** Repeating an earlier input is repeating a kept one. */
  lemma RepeatsKept(hashes: Hashes, inputs: seq<Input>, n: nat, kept: seq<Kept>)
    requires n < |inputs| && FirstOccurrences(hashes, inputs, n, kept)
    ensures Repeats(kept, inputs[n]) <==> RepeatsEarlier(inputs, n)
  {
    if RepeatsEarlier(inputs, n) {
      var j := EarliestLike(inputs, n);
      assert KeptAt(kept, j);
      var k :| 0 <= k < |kept| && kept[k].originalIndex == j;
    }
    if Repeats(kept, inputs[n]) {
      var k :| 0 <= k < |kept| && SameIdentity(kept[k].input, inputs[n]);
      assert SameIdentity(inputs[kept[k].originalIndex], inputs[n]);
    }
  }

  lemma {:induction false} EarliestLike(inputs: seq<Input>, i: nat) returns (j: nat)
    requires i < |inputs| && RepeatsEarlier(inputs, i)
    ensures j < i && SameIdentity(inputs[j], inputs[i]) && !RepeatsEarlier(inputs, j)
    decreases i
  {
    j :| 0 <= j < i && SameIdentity(inputs[j], inputs[i]);
    if RepeatsEarlier(inputs, j) { j := EarliestLike(inputs, j); }
  }

  lemma {:induction false} AdmitsFirstOccurrences(hashes: Hashes, inputs: seq<Input>, n: nat)
    requires n <= |inputs| && AdmitAll(hashes, inputs, n).Ok?
    ensures FirstOccurrences(hashes, inputs, n, AdmitAll(hashes, inputs, n).value)
    ensures |AdmitAll(hashes, inputs, n).value| <= n
    decreases n
  {
    hide Repeats, RepeatsEarlier;
    if n > 0 {
      AdmitsFirstOccurrences(hashes, inputs, n - 1);
      var kept := AdmitAll(hashes, inputs, n - 1).value;
      RepeatsKept(hashes, inputs, n - 1, kept);
      KeepStep(hashes, inputs, n - 1, kept);
    }
  }

  lemma KeepStep(hashes: Hashes, inputs: seq<Input>, n: nat, kept: seq<Kept>)
    requires n < |inputs| && FirstOccurrences(hashes, inputs, n, kept)
    requires Repeats(kept, inputs[n]) <==> RepeatsEarlier(inputs, n)
    ensures RepeatsEarlier(inputs, n) ==> FirstOccurrences(hashes, inputs, n + 1, kept)
    ensures var id := hashes.id(inputs[n]);
            !RepeatsEarlier(inputs, n) && id != 0 && !HasId(kept, id) ==>
              FirstOccurrences(hashes, inputs, n + 1, kept + [Kept(id, inputs[n], n)])
  {
    hide Repeats, RepeatsEarlier, HasId;
    assert !KeptAt(kept, n);
    var id := hashes.id(inputs[n]);
    if !RepeatsEarlier(inputs, n) && id != 0 && !HasId(kept, id) { KeepPushed(hashes, inputs, n, kept, id); }
  }

  lemma KeptPushed(kept: seq<Kept>, last: Kept, i: nat)
    ensures KeptAt(kept + [last], i) <==> KeptAt(kept, i) || last.originalIndex == i
  {
    var longer := kept + [last];
    assert longer[|kept|] == last;
    if KeptAt(kept, i) {
      var k :| 0 <= k < |kept| && kept[k].originalIndex == i;
      assert longer[k].originalIndex == i;
    }
    if KeptAt(longer, i) {
      var k :| 0 <= k < |longer| && longer[k].originalIndex == i;
      assert k < |kept| ==> kept[k].originalIndex == i;
    }
  }

  lemma KeepPushed(hashes: Hashes, inputs: seq<Input>, n: nat, kept: seq<Kept>, id: u64)
    requires n < |inputs| && FirstOccurrences(hashes, inputs, n, kept) && !RepeatsEarlier(inputs, n)
    requires id == hashes.id(inputs[n]) != 0 && !HasId(kept, id)
    ensures FirstOccurrences(hashes, inputs, n + 1, kept + [Kept(id, inputs[n], n)])
  {
    hide RepeatsEarlier, KeptAt;
    var last := Kept(id, inputs[n], n);
    var longer := kept + [last];
    forall i {:trigger KeptAt(longer, i)} | 0 <= i < n + 1 ensures KeptAt(longer, i) <==> !RepeatsEarlier(inputs, i) {
      KeptPushed(kept, last, i);
      assert i < n ==> (KeptAt(kept, i) <==> !RepeatsEarlier(inputs, i));
    }
  }

  /** What every built snapshot satisfies. */
  ghost predicate IsBuilt(s: PredictionSnapshot) {
    && |s.candidates| <= CAPACITY && |s.candidates| <= s.offered
    && forall i, j :: 0 <= i < j < |s.candidates| ==> s.candidates[i].id != s.candidates[j].id
  }

  /** The rows the baseline ranks. */
  function Local(surfaceOf: SurfaceHash, k: Kept): LocalCandidate {
    LocalCandidate(k.id, k.input.baseCost, k.input.authority, k.input.rightId, k.input.isIt, surfaceOf(k.input.surface))
  }

  function Locals(surfaceOf: SurfaceHash, s: PredictionSnapshot): (c: seq<LocalCandidate>)
    ensures |c| == |s.candidates| && forall i :: 0 <= i < |c| ==> c[i] == Local(surfaceOf, s.candidates[i])
  {
    seq(|s.candidates|, i requires 0 <= i < |s.candidates| => Local(surfaceOf, s.candidates[i]))
  }

  /** The hash of a surface, as the ranking signals use it. */
  type SurfaceHash = Text -> SurfaceFingerprint
}
