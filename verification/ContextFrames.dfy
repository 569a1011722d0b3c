/** The request and response frames of the context scorer: what encodes, what
    decodes, and that the two are inverse. */
module ContextFrames {
  import opened Wrappers
  import opened Sequences
  import opened Wire
  import opened Utf8

  datatype Error = Truncated | InvalidFrameLength | InvalidMagic | UnsupportedVersion | InvalidMessageKind | InvalidEnum
                 | InvalidUtf8 | InvalidBounds | DuplicateCandidate | MissingCandidate | UnexpectedCandidate
                 | TrailingBytes | InvariantViolation

  const WIRE_VERSION := 2
  const MAX_PAYLOAD := 32 * 1024 - 4
  const MAX_TEXT := 512
  const MAX_RESIDUAL := 1024
  const MAGIC: Bytes := [0x53, 0x43, 0x56, 0x31]
  const REQUEST_KIND: byte := 1
  const RESPONSE_KIND: byte := 2

  datatype TaskKind = Prediction | Rerank {
    function MaxCandidates(): nat { if Prediction? then 32 else 6 }
    function MaxDeadlineMs(): nat { if Prediction? then 10 else 500 }
    function Code(): byte { if Prediction? then 1 else 2 }
  }

  datatype ScopeClass = Normal | Sensitive | Unclassified

  datatype Authority = Ordinary | ExactLearning | UserDictionary {
    predicate Protected() { !Ordinary? }
    function Code(): byte { if Ordinary? then 0 else if ExactLearning? then 1 else 2 }
  }

  datatype Status = Ready | Unavailable {
    function Code(): byte { if Ready? then 1 else 2 }
  }

  type Fingerprint = s: Bytes | |s| == 32 witness seq(32, _ => 0)

  datatype Correlation = Correlation(requestId: u64, ownerId: u64, sessionId: u64, contextGeneration: u64,
                                     compositionGeneration: u64, candidateSet: Fingerprint, model: Fingerprint,
                                     tokenizer: Fingerprint)

  datatype Candidate = Candidate(id: u64, baseCost: i32, authority: Authority, surface: Text)

  datatype Snapshot = Snapshot(task: TaskKind, correlation: Correlation, scope: ScopeClass, testOnly: bool,
                               deadlineMs: u16, context: Text, reading: Text, candidates: seq<Candidate>)

  datatype Score = Score(id: u64, residual: i16)

  datatype Response = Response(task: TaskKind, correlation: Correlation, status: Status, scores: seq<Score>)

  // -------------------------------------------------------------- validation

  predicate IsZero(f: Fingerprint) { forall i :: 0 <= i < |f| ==> f[i] == 0 }

  predicate IdsPresent(c: Correlation) { c.requestId != 0 && c.ownerId != 0 && c.sessionId != 0 }

  predicate FingerprintsPresent(c: Correlation) {
    !IsZero(c.candidateSet) && !IsZero(c.model) && !IsZero(c.tokenizer)
  }

  function Ids(candidates: seq<Candidate>): (ids: seq<u64>)
    ensures |ids| == |candidates| && forall i :: 0 <= i < |ids| ==> ids[i] == candidates[i].id
  {
    seq(|candidates|, i requires 0 <= i < |candidates| => candidates[i].id)
  }

  predicate GoodCandidate(c: Candidate) { c.id != 0 && 0 < |c.surface| <= MAX_TEXT }

  /** The checks of one snapshot in the order the code makes them: candidates
      from index i on. */
  function CheckCandidates(candidates: seq<Candidate>, i: nat): Result<(), Error>
    requires i <= |candidates|
    decreases |candidates| - i
  {
    if i == |candidates| then Ok(())
    else if !GoodCandidate(candidates[i]) then Err(InvalidBounds)
    else if candidates[i].id in Ids(candidates[..i]) then Err(DuplicateCandidate)
    else CheckCandidates(candidates, i + 1)
  }

  function CheckSnapshot(s: Snapshot): Result<(), Error> {
    if s.scope != Normal || s.testOnly then Err(InvariantViolation)
    else if !IdsPresent(s.correlation) then Err(InvariantViolation)
    else if s.deadlineMs == 0 || s.deadlineMs > s.task.MaxDeadlineMs() then Err(InvalidBounds)
    else if |s.context| > MAX_TEXT || s.reading == [] || |s.reading| > MAX_TEXT || s.candidates == []
         || |s.candidates| > s.task.MaxCandidates() then Err(InvalidBounds)
    else if !FingerprintsPresent(s.correlation) then Err(InvariantViolation)
    else CheckCandidates(s.candidates, 0)
  }

  /** What a valid snapshot is, with no order of checks. */
  ghost predicate Valid(s: Snapshot) {
    && s.scope == Normal && !s.testOnly
    && IdsPresent(s.correlation) && FingerprintsPresent(s.correlation)
    && 0 < s.deadlineMs <= s.task.MaxDeadlineMs()
    && |s.context| <= MAX_TEXT && 0 < |s.reading| <= MAX_TEXT
    && 0 < |s.candidates| <= s.task.MaxCandidates()
    && (forall i :: 0 <= i < |s.candidates| ==> GoodCandidate(s.candidates[i]))
    && Distinct(Ids(s.candidates))
  }

  lemma {:induction false} CandidatesChecked(candidates: seq<Candidate>, i: nat)
    requires i <= |candidates|
    requires Distinct(Ids(candidates[..i])) && forall k :: 0 <= k < i ==> GoodCandidate(candidates[k])
    ensures CheckCandidates(candidates, i).Ok?
       <==> Distinct(Ids(candidates)) && forall k :: 0 <= k < |candidates| ==> GoodCandidate(candidates[k])
    decreases |candidates| - i
  {
    var ids := Ids(candidates);
    if i == |candidates| {
      assert candidates[..i] == candidates;
    } else if GoodCandidate(candidates[i]) {
      var seen := Ids(candidates[..i]);
      if candidates[i].id in seen {
        var k :| 0 <= k < i && seen[k] == candidates[i].id;
        assert ids[k] == ids[i];
      } else {
        assert Ids(candidates[..i + 1]) == seen + [candidates[i].id];
        CandidatesChecked(candidates, i + 1);
      }
    }
  }

  /** validate accepts exactly the valid snapshots. */
  lemma SnapshotChecked(s: Snapshot)
    ensures CheckSnapshot(s).Ok? <==> Valid(s)
  {
    CandidatesChecked(s.candidates, 0);
  }

  method Validate(s: Snapshot) returns (r: Result<(), Error>)
    ensures r == CheckSnapshot(s)
  {
    if s.scope != Normal || s.testOnly { return Err(InvariantViolation); }
    if s.correlation.requestId == 0 || s.correlation.ownerId == 0 || s.correlation.sessionId == 0 {
      return Err(InvariantViolation);
    }
    if s.deadlineMs == 0 || s.deadlineMs > s.task.MaxDeadlineMs() { return Err(InvalidBounds); }
    if |s.context| > MAX_TEXT || s.reading == [] || |s.reading| > MAX_TEXT || s.candidates == []
       || |s.candidates| > s.task.MaxCandidates() {
      return Err(InvalidBounds);
    }
    if IsZero(s.correlation.candidateSet) || IsZero(s.correlation.model) || IsZero(s.correlation.tokenizer) {
      return Err(InvariantViolation);
    }
    for i := 0 to |s.candidates|
      invariant CheckCandidates(s.candidates, 0) == CheckCandidates(s.candidates, i)
    {
      var candidate := s.candidates[i];
      if !GoodCandidate(candidate) { return Err(InvalidBounds); }
      var repeated := false;
      for k := 0 to i
        invariant repeated <==> candidate.id in Ids(s.candidates[..k])
      {
        assert Ids(s.candidates[..k + 1]) == Ids(s.candidates[..k]) + [s.candidates[k].id];
        repeated := repeated || s.candidates[k].id == candidate.id;
      }
      if repeated { return Err(DuplicateCandidate); }
    }
    return Ok(());
  }

  // ---------------------------------------------------------------- encoding

  function Header(kind: byte, task: TaskKind): Bytes { MAGIC + (ToLe(WIRE_VERSION, 2) + [kind, task.Code()]) }

  function CorrelationBytes(c: Correlation): Bytes {
    ToLe(c.requestId, 8) + (ToLe(c.ownerId, 8) + (ToLe(c.sessionId, 8) + (ToLe(c.contextGeneration, 8) +
      (ToLe(c.compositionGeneration, 8) + (c.candidateSet + (c.model + c.tokenizer))))))
  }

  /** The scalar fields and the three lengths between correlation and texts. */
  datatype Options = Options(scope: ScopeClass, testOnly: bool, deadlineMs: u16, contextLen: u16, readingLen: u16,
                             count: u16)

  function ScopeCode(scope: ScopeClass): byte { if scope.Normal? then 1 else if scope.Sensitive? then 2 else 3 }

  function OptionsBytes(o: Options): Bytes {
    [ScopeCode(o.scope), if o.testOnly then 1 else 0] + (ToLe(o.deadlineMs, 2) + (ToLe(o.contextLen, 2) +
      (ToLe(o.readingLen, 2) + ToLe(o.count, 2))))
  }

  function CandidateBytes(c: Candidate): Bytes
    requires |c.surface| <= U16_MAX
  {
    Radixes();
    ToLe(c.id, 8) + (ToLe(FromSigned(c.baseCost, 4), 4) + ([c.authority.Code(), 0] + (ToLe(|c.surface|, 2) + c.surface)))
  }

  predicate Encodable(candidates: seq<Candidate>) {
    forall i :: 0 <= i < |candidates| ==> |candidates[i].surface| <= MAX_TEXT
  }

  function CandidatesBytes(candidates: seq<Candidate>): Bytes
    requires Encodable(candidates)
  {
    if candidates == [] then [] else CandidateBytes(candidates[0]) + CandidatesBytes(candidates[1..])
  }

  function OptionsOf(s: Snapshot): Options
    requires |s.context| <= U16_MAX && |s.reading| <= U16_MAX && |s.candidates| <= U16_MAX
  {
    Options(s.scope, s.testOnly, s.deadlineMs, |s.context|, |s.reading|, |s.candidates|)
  }

  function RequestPayload(s: Snapshot): Bytes
    requires |s.context| <= U16_MAX && |s.reading| <= U16_MAX && |s.candidates| <= U16_MAX && Encodable(s.candidates)
  {
    Header(REQUEST_KIND, s.task) + (CorrelationBytes(s.correlation) + (OptionsBytes(OptionsOf(s)) +
      (s.context + (s.reading + CandidatesBytes(s.candidates)))))
  }

  function FinishFrame(payload: Bytes): Result<Bytes, Error> {
    if payload == [] || |payload| > MAX_PAYLOAD then Err(InvalidBounds) else Ok(ToLe(|payload|, 4) + payload)
  }

  // ---------------------------------------------------------------- decoding

  /** A reader's answer: the value and the unread rest. */
  type Parsed<T> = Result<(T, Bytes), Error>

  function Take(s: Bytes, n: nat): (r: Parsed<Bytes>)
    ensures r.Ok? ==> s == r.value.0 + r.value.1 && |r.value.0| == n
  {
    if n <= |s| then Ok((s[..n], s[n..])) else Err(Truncated)
  }

  function TakeInt(s: Bytes, n: nat): Parsed<nat> {
    var t :- Take(s, n);
    Ok((FromLe(t.0), t.1))
  }

  function TakeByte(s: Bytes): Parsed<byte> { if s == [] then Err(Truncated) else Ok((s[0], s[1..])) }

  function TakeText(s: Bytes, n: nat): Parsed<Text> {
    var t :- Take(s, n);
    if IsUtf8(t.0) then Ok((t.0, t.1)) else Err(InvalidUtf8)
  }

  function TakeTask(s: Bytes): Parsed<TaskKind> {
    var t :- TakeByte(s);
    match t.0
    case 1 => Ok((Prediction, t.1))
    case 2 => Ok((Rerank, t.1))
    case _ => Err(InvalidEnum)
  }

  function ParseHeader(s: Bytes, kind: byte): Parsed<TaskKind> {
    var magic :- Take(s, 4);
    if magic.0 != MAGIC then Err(InvalidMagic)
    else
      var version :- TakeInt(magic.1, 2);
      if version.0 != WIRE_VERSION then Err(UnsupportedVersion)
      else
        var found :- TakeByte(version.1);
        if found.0 != kind then Err(InvalidMessageKind) else TakeTask(found.1)
  }

  function TakeId(s: Bytes): Parsed<u64> {
    var t :- Take(s, 8);
    Radixes();
    LeInverse(t.0);
    Ok((FromLe(t.0), t.1))
  }

  function TakeShort(s: Bytes): Parsed<u16> {
    var t :- Take(s, 2);
    Radixes();
    LeInverse(t.0);
    Ok((FromLe(t.0), t.1))
  }

  function TakeCost(s: Bytes): Parsed<i32> {
    var t :- Take(s, 4);
    Radixes();
    LeInverse(t.0);
    Ok((ToSigned(FromLe(t.0), 4), t.1))
  }

  function TakeResidual(s: Bytes): Parsed<i16> {
    var t :- Take(s, 2);
    Radixes();
    LeInverse(t.0);
    Ok((ToSigned(FromLe(t.0), 2), t.1))
  }

  function TakeFingerprint(s: Bytes): Parsed<Fingerprint> {
    var t :- Take(s, 32);
    Ok((t.0, t.1))
  }

  function ParseCorrelation(s: Bytes): Parsed<Correlation> {
    var requestId :- TakeId(s);
    var ownerId :- TakeId(requestId.1);
    var sessionId :- TakeId(ownerId.1);
    var contextGeneration :- TakeId(sessionId.1);
    var compositionGeneration :- TakeId(contextGeneration.1);
    var candidateSet :- TakeFingerprint(compositionGeneration.1);
    var model :- TakeFingerprint(candidateSet.1);
    var tokenizer :- TakeFingerprint(model.1);
    Ok((Correlation(requestId.0, ownerId.0, sessionId.0, contextGeneration.0, compositionGeneration.0,
                    candidateSet.0, model.0, tokenizer.0), tokenizer.1))
  }

  function TakeScope(s: Bytes): Parsed<ScopeClass> {
    var t :- TakeByte(s);
    match t.0
    case 1 => Ok((Normal, t.1))
    case 2 => Ok((Sensitive, t.1))
    case 3 => Ok((Unclassified, t.1))
    case _ => Err(InvalidEnum)
  }

  function TakeFlag(s: Bytes): Parsed<bool> {
    var t :- TakeByte(s);
    match t.0
    case 0 => Ok((false, t.1))
    case 1 => Ok((true, t.1))
    case _ => Err(InvalidEnum)
  }

  function ParseOptions(s: Bytes): Parsed<Options> {
    var scope :- TakeScope(s);
    var testOnly :- TakeFlag(scope.1);
    var deadlineMs :- TakeShort(testOnly.1);
    var contextLen :- TakeShort(deadlineMs.1);
    var readingLen :- TakeShort(contextLen.1);
    var count :- TakeShort(readingLen.1);
    Ok((Options(scope.0, testOnly.0, deadlineMs.0, contextLen.0, readingLen.0, count.0), count.1))
  }

  function TakeAuthority(s: Bytes): Parsed<Authority> {
    var t :- TakeByte(s);
    match t.0
    case 0 => Ok((Ordinary, t.1))
    case 1 => Ok((ExactLearning, t.1))
    case 2 => Ok((UserDictionary, t.1))
    case _ => Err(InvalidEnum)
  }

  function ParseCandidate(s: Bytes): Parsed<Candidate> {
    var id :- TakeId(s);
    var baseCost :- TakeCost(id.1);
    var authority :- TakeAuthority(baseCost.1);
    var reserved :- TakeByte(authority.1);
    if reserved.0 != 0 then Err(InvalidEnum)
    else
      var size :- TakeShort(reserved.1);
      if size.0 == 0 || size.0 > MAX_TEXT then Err(InvalidBounds)
      else
        var surface :- TakeText(size.1, size.0);
        Ok((Candidate(id.0, baseCost.0, authority.0, surface.0), surface.1))
  }

  function ParseCandidates(s: Bytes, n: nat): Parsed<seq<Candidate>> {
    if n == 0 then Ok(([], s))
    else
      var first :- ParseCandidate(s);
      var others :- ParseCandidates(first.1, n - 1);
      Ok(([first.0] + others.0, others.1))
  }

  function ParseRequest(payload: Bytes): Parsed<Snapshot> {
    var task :- ParseHeader(payload, REQUEST_KIND);
    var correlation :- ParseCorrelation(task.1);
    var o :- ParseOptions(correlation.1);
    if o.0.contextLen > MAX_TEXT || o.0.readingLen == 0 || o.0.readingLen > MAX_TEXT || o.0.count == 0
       || o.0.count > task.0.MaxCandidates() then Err(InvalidBounds)
    else
      var context :- TakeText(o.1, o.0.contextLen);
      var reading :- TakeText(context.1, o.0.readingLen);
      var candidates :- ParseCandidates(reading.1, o.0.count);
      Ok((Snapshot(task.0, correlation.0, o.0.scope, o.0.testOnly, o.0.deadlineMs, context.0, reading.0, candidates.0),
          candidates.1))
  }

  function OpenFrame(frame: Bytes): Result<Bytes, Error> {
    if |frame| < 4 then Err(Truncated)
    else
      var declared := FromLe(frame[..4]);
      if declared == 0 || declared > MAX_PAYLOAD || declared != |frame| - 4 then Err(InvalidFrameLength)
      else Ok(frame[4..])
  }

  /** decode_request */
  function DecodeRequest(frame: Bytes): Result<Snapshot, Error> {
    var payload :- OpenFrame(frame);
    var parsed :- ParseRequest(payload);
    if parsed.1 != [] then Err(TrailingBytes)
    else
      var _ :- CheckSnapshot(parsed.0);
      Ok(parsed.0)
  }

  /** encode_request */
  function EncodeRequest(s: Snapshot): Result<Bytes, Error> {
    var _ :- CheckSnapshot(s);
    SnapshotChecked(s);
    FinishFrame(RequestPayload(s))
  }

  // --------------------------------------------------------------- responses

  predicate Bounded(scores: seq<Score>) {
    forall i :: 0 <= i < |scores| ==> -MAX_RESIDUAL <= scores[i].residual <= MAX_RESIDUAL
  }

  function ScoresBytes(scores: seq<Score>): Bytes {
    Radixes();
    if scores == [] then []
    else (ToLe(scores[0].id, 8) + ToLe(FromSigned(scores[0].residual, 2), 2)) + ScoresBytes(scores[1..])
  }

  function ResponsePayload(r: Response): Bytes
    requires |r.scores| <= U16_MAX
  {
    Header(RESPONSE_KIND, r.task) + (CorrelationBytes(r.correlation) + ([r.status.Code(), 0, 0, 0] +
      (ToLe(|r.scores|, 2) + ScoresBytes(r.scores))))
  }

  /** encode_response */
  function EncodeResponse(r: Response): Result<Bytes, Error> {
    if |r.scores| > r.task.MaxCandidates() then Err(InvalidBounds)
    else if !IdsPresent(r.correlation) then Err(InvariantViolation)
    else if !FingerprintsPresent(r.correlation) then Err(InvariantViolation)
    else if !Bounded(r.scores) then Err(InvalidBounds)
    else if r.status.Unavailable? && r.scores != [] then Err(InvariantViolation)
    else FinishFrame(ResponsePayload(r))
  }

  function TakeStatus(s: Bytes): Parsed<Status> {
    var t :- TakeByte(s);
    match t.0
    case 1 => Ok((Ready, t.1))
    case 2 => Ok((Unavailable, t.1))
    case _ => Err(InvalidEnum)
  }

  function ParseScores(s: Bytes, n: nat): Parsed<seq<Score>> {
    if n == 0 then Ok(([], s))
    else
      var id :- TakeId(s);
      var residual :- TakeResidual(id.1);
      var others :- ParseScores(residual.1, n - 1);
      Ok(([Score(id.0, residual.0)] + others.0, others.1))
  }

  function ParseResponse(payload: Bytes): Parsed<Response> {
    var task :- ParseHeader(payload, RESPONSE_KIND);
    var correlation :- ParseCorrelation(task.1);
    var status :- TakeStatus(correlation.1);
    var reserved :- Take(status.1, 3);
    if reserved.0 != [0, 0, 0] then Err(InvalidEnum)
    else
      var count :- TakeShort(reserved.1);
      if count.0 > task.0.MaxCandidates() then Err(InvalidBounds)
      else
        var scores :- ParseScores(count.1, count.0);
        if status.0.Unavailable? && scores.0 != [] then Err(InvariantViolation)
        else if !Bounded(scores.0) then Err(InvalidBounds)
        else Ok((Response(task.0, correlation.0, status.0, scores.0), scores.1))
  }

  /** decode_response */
  function DecodeResponse(frame: Bytes): Result<Response, Error> {
    var payload :- OpenFrame(frame);
    var parsed :- ParseResponse(payload);
    if parsed.1 != [] then Err(TrailingBytes) else Ok(parsed.0)
  }
}
