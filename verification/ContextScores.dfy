/** Which score responses a consumer accepts for the snapshot it sent. */
module ContextScores {
  import opened Wrappers
  import opened Sequences
  import opened Wire
  import opened Utf8
  import opened ContextFrames
  import ContextCodec

  function ScoreIds(scores: seq<Score>): (ids: seq<u64>)
    ensures |ids| == |scores| && forall i :: 0 <= i < |ids| ==> ids[i] == scores[i].id
  {
    seq(|scores|, i requires 0 <= i < |scores| => scores[i].id)
  }

  /** iter().find: the first candidate with this id. */
  function Find(candidates: seq<Candidate>, id: u64): (r: Option<Candidate>)
    ensures r.Some? ==> r.value in candidates && r.value.id == id
    ensures r.None? ==> forall i :: 0 <= i < |candidates| ==> candidates[i].id != id
  {
    if candidates == [] then None
    else if candidates[0].id == id then Some(candidates[0])
    else Find(candidates[1..], id)
  }

  /** filter().count(): how many scores carry this id. */
  function Carrying(scores: seq<Score>, id: u64): nat {
    if scores == [] then 0
    else Carrying(scores[..|scores| - 1], id) + if scores[|scores| - 1].id == id then 1 else 0
  }

  /** The checks of one score, in order. */
  function CheckScore(snapshot: Snapshot, scores: seq<Score>, score: Score): Result<(), Error> {
    if !(-MAX_RESIDUAL <= score.residual <= MAX_RESIDUAL) then Err(InvalidBounds)
    else match Find(snapshot.candidates, score.id)
      case None => Err(UnexpectedCandidate)
      case Some(candidate) =>
        if candidate.authority.Protected() && score.residual != 0 then Err(InvariantViolation)
        else if Carrying(scores, score.id) != 1 then Err(DuplicateCandidate)
        else Ok(())
  }

  function CheckScores(snapshot: Snapshot, scores: seq<Score>, i: nat): Result<(), Error>
    requires i <= |scores|
    decreases |scores| - i
  {
    if i == |scores| then Ok(())
    else
      var _ :- CheckScore(snapshot, scores, scores[i]);
      CheckScores(snapshot, scores, i + 1)
  }

  /** validate_against */
  function CheckAgainst(r: Response, snapshot: Snapshot): Result<(), Error> {
    var _ :- CheckSnapshot(snapshot);
    if r.task != snapshot.task || r.correlation != snapshot.correlation then Err(InvariantViolation)
    else if |r.scores| > r.task.MaxCandidates() then Err(InvalidBounds)
    else if r.status.Unavailable? then (if r.scores == [] then Ok(()) else Err(InvariantViolation))
    else if |r.scores| < |snapshot.candidates| then Err(MissingCandidate)
    else if |r.scores| > |snapshot.candidates| then Err(UnexpectedCandidate)
    else CheckScores(snapshot, r.scores, 0)
  }

  method ValidateAgainst(r: Response, snapshot: Snapshot) returns (result: Result<(), Error>)
    ensures result == CheckAgainst(r, snapshot)
  {
    var valid := Validate(snapshot);
    if valid.Err? { return valid; }
    if r.task != snapshot.task || r.correlation != snapshot.correlation { return Err(InvariantViolation); }
    if |r.scores| > r.task.MaxCandidates() { return Err(InvalidBounds); }
    if r.status.Unavailable? {
      return if r.scores == [] then Ok(()) else Err(InvariantViolation);
    }
    if |r.scores| != |snapshot.candidates| {
      return Err(if |r.scores| < |snapshot.candidates| then MissingCandidate else UnexpectedCandidate);
    }
    for i := 0 to |r.scores|
      invariant CheckScores(snapshot, r.scores, 0) == CheckScores(snapshot, r.scores, i)
    {
      var score := r.scores[i];
      if score.residual > MAX_RESIDUAL || score.residual < -MAX_RESIDUAL { return Err(InvalidBounds); }
      var found := Find(snapshot.candidates, score.id);
      if found.None? { return Err(UnexpectedCandidate); }
      if found.value.authority.Protected() && score.residual != 0 { return Err(InvariantViolation); }
      var count := 0;
      for k := 0 to |r.scores|
        invariant count == Carrying(r.scores[..k], score.id)
      {
        assert r.scores[..k + 1][..k] == r.scores[..k];
        count := count + if r.scores[k].id == score.id then 1 else 0;
      }
      assert r.scores[..|r.scores|] == r.scores;
      if count != 1 { return Err(DuplicateCandidate); }
    }
    return Ok(());
  }

  // --------------------------------------------------- what acceptance means

  /** Score i is in bounds, and zero where its candidate is protected. */
  predicate FairScore(snapshot: Snapshot, score: Score) {
    && -MAX_RESIDUAL <= score.residual <= MAX_RESIDUAL
    && forall c :: c in snapshot.candidates && c.id == score.id && c.authority.Protected() ==> score.residual == 0
  }

  ghost predicate Fair(snapshot: Snapshot, scores: seq<Score>) {
    forall i :: 0 <= i < |scores| ==> FairScore(snapshot, scores[i])
  }

  /** One score for each candidate, in any order. */
  ghost predicate ScoresEachOnce(snapshot: Snapshot, scores: seq<Score>) {
    multiset(ScoreIds(scores)) == multiset(Ids(snapshot.candidates))
  }

  lemma {:induction false} CarryingIsMultiplicity(scores: seq<Score>, id: u64)
    ensures Carrying(scores, id) == multiset(ScoreIds(scores))[id]
    decreases |scores|
  {
    if scores != [] {
      var front, last := scores[..|scores| - 1], scores[|scores| - 1];
      CarryingIsMultiplicity(front, id);
      assert ScoreIds(scores) == ScoreIds(front) + [last.id];
    }
  }

  lemma {:induction false} ScoresChecked(snapshot: Snapshot, scores: seq<Score>, i: nat)
    requires i <= |scores|
    ensures CheckScores(snapshot, scores, i).Ok?
       <==> forall k :: i <= k < |scores| ==> CheckScore(snapshot, scores, scores[k]).Ok?
    decreases |scores| - i
  {
    if i < |scores| { ScoresChecked(snapshot, scores, i + 1); }
  }

  lemma FairnessChecked(snapshot: Snapshot, score: Score)
    requires Distinct(Ids(snapshot.candidates)) && score.id in Ids(snapshot.candidates)
    ensures FairScore(snapshot, score) <==>
      -MAX_RESIDUAL <= score.residual <= MAX_RESIDUAL
      && !(Find(snapshot.candidates, score.id).value.authority.Protected() && score.residual != 0)
  {
    var ids := Ids(snapshot.candidates);
    var found := Find(snapshot.candidates, score.id).value;
    var k :| 0 <= k < |snapshot.candidates| && snapshot.candidates[k] == found;
    forall c | c in snapshot.candidates && c.id == score.id ensures c == found {
      var j :| 0 <= j < |snapshot.candidates| && snapshot.candidates[j] == c;
      assert ids[j] == ids[k];
    }
  }

  /** Checked scores of the right number score every candidate exactly once. */
  lemma ChecksMeanPermutation(snapshot: Snapshot, scores: seq<Score>)
    requires Distinct(Ids(snapshot.candidates)) && |scores| == |snapshot.candidates|
    ensures CheckScores(snapshot, scores, 0).Ok?
       <==> ScoresEachOnce(snapshot, scores) && Fair(snapshot, scores)
  {
    hide CheckScores, Carrying, FairScore, Find;
    var ids, wanted := ScoreIds(scores), Ids(snapshot.candidates);
    ScoresChecked(snapshot, scores, 0);
    forall id ensures Carrying(scores, id) == multiset(ids)[id] {
      CarryingIsMultiplicity(scores, id);
    }
    if CheckScores(snapshot, scores, 0).Ok? {
      forall k | 0 <= k < |scores|
        ensures multiset(ids)[ids[k]] == 1 && ids[k] in wanted && FairScore(snapshot, scores[k])
      {
        assert CheckScore(snapshot, scores, scores[k]).Ok?;
        FoundIsWanted(snapshot, scores[k].id);
        FairnessChecked(snapshot, scores[k]);
      }
      MultiplicityOne(ids);
      SameLengthIsAll(ids, wanted);
    }
    if ScoresEachOnce(snapshot, scores) && Fair(snapshot, scores) {
      forall k | 0 <= k < |scores| ensures CheckScore(snapshot, scores, scores[k]).Ok? {
        assert ids[k] in multiset(ids);
        assert ids[k] in wanted;
        DistinctMultiplicity(wanted, ids[k]);
        FoundIsWanted(snapshot, scores[k].id);
        FairnessChecked(snapshot, scores[k]);
      }
    }
  }

  lemma FoundIsWanted(snapshot: Snapshot, id: u64)
    ensures Find(snapshot.candidates, id).Some? <==> id in Ids(snapshot.candidates)
  {
    var ids := Ids(snapshot.candidates);
    if Find(snapshot.candidates, id).Some? {
      var k :| 0 <= k < |snapshot.candidates| && snapshot.candidates[k] == Find(snapshot.candidates, id).value;
      assert ids[k] == id;
    }
  }

  /** A Ready response is accepted exactly when it answers this valid snapshot
      and scores each candidate once, fairly; an Unavailable one exactly when it
      answers the snapshot and scores nothing. */
  lemma AcceptanceMeans(r: Response, snapshot: Snapshot)
    ensures CheckAgainst(r, snapshot).Ok? <==>
      && Valid(snapshot) && r.task == snapshot.task && r.correlation == snapshot.correlation
      && (if r.status.Ready? then ScoresEachOnce(snapshot, r.scores) && Fair(snapshot, r.scores) else r.scores == [])
  {
    hide CheckScores, Fair, CheckSnapshot;
    SnapshotChecked(snapshot);
    if Valid(snapshot) {
      if ScoresEachOnce(snapshot, r.scores) {
        SameSize(ScoreIds(r.scores), Ids(snapshot.candidates));
      }
      if |r.scores| == |snapshot.candidates| {
        ChecksMeanPermutation(snapshot, r.scores);
      }
    }
  }

  /** An accepted Ready response can be sent: its scores fit the frame. */
  lemma AcceptedEncodes(r: Response, snapshot: Snapshot)
    requires CheckAgainst(r, snapshot).Ok?
    ensures EncodeResponse(r).Ok?
  {
    hide CheckScores, CheckSnapshot, ScoresBytes, Valid;
    AcceptanceMeans(r, snapshot);
    ValidParts(snapshot);
    if r.status.Ready? {
      SameSize(ScoreIds(r.scores), Ids(snapshot.candidates));
      assert forall i :: 0 <= i < |r.scores| ==> FairScore(snapshot, r.scores[i]);
    }
    ContextCodec.ResponseLength(r);
  }

  lemma ValidParts(s: Snapshot)
    requires Valid(s)
    ensures IdsPresent(s.correlation) && FingerprintsPresent(s.correlation)
    ensures |s.candidates| <= s.task.MaxCandidates()
  {}
}
