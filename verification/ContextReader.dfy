/** The frame writers and the bounds-checked reader, step by step, against the
    functions of ContextFrames. */
module ContextReader {
  import opened Wrappers
  import opened Sequences
  import opened Wire
  import opened Utf8
  import opened ContextFrames

  /** A reader's answer is the parser's, and it stands at the unread rest. */
  ghost predicate Agrees<T>(spec: Parsed<T>, r: Result<T, Error>, rest: Bytes) {
    match spec
    case Ok((value, unread)) => r == Ok(value) && rest == unread
    case Err(e) => r == Err(e)
  }

  class Reader {
    const bytes: Bytes
    var position: nat

    ghost predicate Valid() reads this { position <= |bytes| }

    ghost function Rest(): Bytes
      reads this
      requires Valid()
    {
      bytes[position..]
    }

    constructor (bytes: Bytes)
      ensures Valid() && this.bytes == bytes && Rest() == bytes
    {
      this.bytes, position := bytes, 0;
    }

    method Bytes(length: nat) returns (r: Result<Bytes, Error>)
      requires Valid()
      modifies this`position
      ensures Valid() && Agrees(Take(old(Rest()), length), r, Rest())
    {
      var end := position + length;
      if end > |bytes| { return Err(Truncated); }
      SliceOfSlice(bytes, position, |bytes|, 0, length);
      SliceOfSlice(bytes, position, |bytes|, length, |bytes| - position);
      assert bytes[position..|bytes|] == bytes[position..];
      r := Ok(bytes[position..end]);
      position := end;
    }

    method Byte() returns (r: Result<byte, Error>)
      requires Valid()
      modifies this`position
      ensures Valid() && Agrees(TakeByte(old(Rest())), r, Rest())
    {
      var one :- Bytes(1);
      r := Ok(one[0]);
    }

    method Short() returns (r: Result<u16, Error>)
      requires Valid()
      modifies this`position
      ensures Valid() && Agrees(TakeShort(old(Rest())), r, Rest())
    {
      hide FromLe, Radix;
      var two :- Bytes(2);
      Radixes();
      LeInverse(two);
      r := Ok(FromLe(two));
    }

    method Residual() returns (r: Result<i16, Error>)
      requires Valid()
      modifies this`position
      ensures Valid() && Agrees(TakeResidual(old(Rest())), r, Rest())
    {
      hide FromLe, Radix;
      var two :- Bytes(2);
      Radixes();
      LeInverse(two);
      r := Ok(ToSigned(FromLe(two), 2));
    }

    method Cost() returns (r: Result<i32, Error>)
      requires Valid()
      modifies this`position
      ensures Valid() && Agrees(TakeCost(old(Rest())), r, Rest())
    {
      hide FromLe, Radix;
      var four :- Bytes(4);
      Radixes();
      LeInverse(four);
      r := Ok(ToSigned(FromLe(four), 4));
    }

    method Id() returns (r: Result<u64, Error>)
      requires Valid()
      modifies this`position
      ensures Valid() && Agrees(TakeId(old(Rest())), r, Rest())
    {
      hide FromLe, Radix;
      var eight :- Bytes(8);
      Radixes();
      LeInverse(eight);
      r := Ok(FromLe(eight));
    }

    method ReadText(length: nat) returns (r: Result<Text, Error>)
      requires Valid()
      modifies this`position
      ensures Valid() && Agrees(TakeText(old(Rest()), length), r, Rest())
    {
      hide IsUtf8;
      var text :- Bytes(length);
      if !IsUtf8(text) { return Err(InvalidUtf8); }
      r := Ok(text);
    }

    method ReadFingerprint() returns (r: Result<Fingerprint, Error>)
      requires Valid()
      modifies this`position
      ensures Valid() && Agrees(TakeFingerprint(old(Rest())), r, Rest())
    {
      var all :- Bytes(32);
      r := Ok(all);
    }

    method ReadCorrelation() returns (r: Result<Correlation, Error>)
      requires Valid()
      modifies this`position
      ensures Valid() && Agrees(ParseCorrelation(old(Rest())), r, Rest())
    {
      hide TakeId, TakeFingerprint;
      var requestId :- Id();
      var ownerId :- Id();
      var sessionId :- Id();
      var contextGeneration :- Id();
      var compositionGeneration :- Id();
      var candidateSet :- ReadFingerprint();
      var model :- ReadFingerprint();
      var tokenizer :- ReadFingerprint();
      r := Ok(Correlation(requestId, ownerId, sessionId, contextGeneration, compositionGeneration,
                          candidateSet, model, tokenizer));
    }

    method Task() returns (r: Result<TaskKind, Error>)
      requires Valid()
      modifies this`position
      ensures Valid() && Agrees(TakeTask(old(Rest())), r, Rest())
    {
      var code :- Byte();
      r := match code case 1 => Ok(Prediction) case 2 => Ok(Rerank) case _ => Err(InvalidEnum);
    }

    method Scope() returns (r: Result<ScopeClass, Error>)
      requires Valid()
      modifies this`position
      ensures Valid() && Agrees(TakeScope(old(Rest())), r, Rest())
    {
      var code :- Byte();
      r := match code case 1 => Ok(Normal) case 2 => Ok(Sensitive) case 3 => Ok(Unclassified) case _ => Err(InvalidEnum);
    }

    method Flag() returns (r: Result<bool, Error>)
      requires Valid()
      modifies this`position
      ensures Valid() && Agrees(TakeFlag(old(Rest())), r, Rest())
    {
      var code :- Byte();
      r := match code case 0 => Ok(false) case 1 => Ok(true) case _ => Err(InvalidEnum);
    }

    method ReadAuthority() returns (r: Result<Authority, Error>)
      requires Valid()
      modifies this`position
      ensures Valid() && Agrees(TakeAuthority(old(Rest())), r, Rest())
    {
      var code :- Byte();
      r := match code
        case 0 => Ok(Ordinary)
        case 1 => Ok(ExactLearning)
        case 2 => Ok(UserDictionary)
        case _ => Err(InvalidEnum);
    }

    method ReadStatus() returns (r: Result<Status, Error>)
      requires Valid()
      modifies this`position
      ensures Valid() && Agrees(TakeStatus(old(Rest())), r, Rest())
    {
      var code :- Byte();
      r := match code case 1 => Ok(Ready) case 2 => Ok(Unavailable) case _ => Err(InvalidEnum);
    }

    /** read_header, then TaskKind::decode on the next byte. */
    method ReadHeader(kind: byte) returns (r: Result<TaskKind, Error>)
      requires Valid()
      modifies this`position
      ensures Valid() && Agrees(ParseHeader(old(Rest()), kind), r, Rest())
    {
      hide TakeTask, TakeByte;
      var magic :- Bytes(4);
      if magic != MAGIC { return Err(InvalidMagic); }
      hide Take;
      var version :- Short();
      if version != WIRE_VERSION { return Err(UnsupportedVersion); }
      var found :- Byte();
      if found != kind { return Err(InvalidMessageKind); }
      r := Task();
    }

    method ReadOptions() returns (r: Result<Options, Error>)
      requires Valid()
      modifies this`position
      ensures Valid() && Agrees(ParseOptions(old(Rest())), r, Rest())
    {
      hide TakeScope, TakeFlag, TakeShort;
      var scope :- Scope();
      var testOnly :- Flag();
      var deadlineMs :- Short();
      var contextLen :- Short();
      var readingLen :- Short();
      var count :- Short();
      r := Ok(Options(scope, testOnly, deadlineMs, contextLen, readingLen, count));
    }

    method ReadCandidate() returns (r: Result<Candidate, Error>)
      requires Valid()
      modifies this`position
      ensures Valid() && Agrees(ParseCandidate(old(Rest())), r, Rest())
    {
      hide TakeId, TakeCost, TakeAuthority, TakeByte, TakeShort, TakeText;
      var id :- Id();
      var baseCost :- Cost();
      var authority :- ReadAuthority();
      var reserved :- Byte();
      if reserved != 0 { return Err(InvalidEnum); }
      var size :- Short();
      if size == 0 || size > MAX_TEXT { return Err(InvalidBounds); }
      var surface :- ReadText(size);
      r := Ok(Candidate(id, baseCost, authority, surface));
    }

    method ReadCandidates(count: nat) returns (r: Result<seq<Candidate>, Error>)
      requires Valid()
      modifies this`position
      ensures Valid() && Agrees(ParseCandidates(old(Rest()), count), r, Rest())
    {
      hide ParseCandidate;
      var candidates: seq<Candidate> := [];
      ghost var start := Rest();
      BehindNothing(ParseCandidates(start, count), [], []);
      for done := 0 to count
        invariant Valid()
        invariant ParseCandidates(start, count) == Behind(candidates, ParseCandidates(Rest(), count - done))
      {
        var candidate :- ReadCandidate();
        BehindTwice(candidates, [candidate], ParseCandidates(Rest(), count - done - 1));
        candidates := candidates + [candidate];
      }
      BehindNothing(ParseCandidates(start, count), candidates, Rest());
      r := Ok(candidates);
    }

    method ReadScores(count: nat) returns (r: Result<seq<Score>, Error>)
      requires Valid()
      modifies this`position
      ensures Valid() && Agrees(ParseScores(old(Rest()), count), r, Rest())
    {
      hide TakeId, TakeResidual;
      var scores: seq<Score> := [];
      ghost var start := Rest();
      BehindNothing(ParseScores(start, count), [], []);
      for done := 0 to count
        invariant Valid()
        invariant ParseScores(start, count) == Behind(scores, ParseScores(Rest(), count - done))
      {
        var id :- Id();
        var residual :- Residual();
        BehindTwice(scores, [Score(id, residual)], ParseScores(Rest(), count - done - 1));
        scores := scores + [Score(id, residual)];
      }
      BehindNothing(ParseScores(start, count), scores, Rest());
      r := Ok(scores);
    }
  }

  /** The parsed list put behind what was read before it. */
  ghost function Behind<T>(front: seq<T>, spec: Parsed<seq<T>>): Parsed<seq<T>> {
    match spec
    case Ok((items, rest)) => Ok((front + items, rest))
    case Err(e) => Err(e)
  }

  lemma BehindTwice<T>(a: seq<T>, b: seq<T>, spec: Parsed<seq<T>>)
    ensures Behind(a + b, spec) == Behind(a, Behind(b, spec))
  {
    if spec.Ok? { Regroup(a, b, spec.value.0); }
  }

  lemma BehindNothing<T>(spec: Parsed<seq<T>>, all: seq<T>, rest: Bytes)
    ensures Behind([], spec) == spec
    ensures Behind(all, Ok(([], rest))) == Ok((all, rest))
  {
    assert all + [] == all;
    if spec.Ok? { assert [] + spec.value.0 == spec.value.0; }
  }

  method Open(frame: Bytes) returns (r: Result<Bytes, Error>)
    ensures r == OpenFrame(frame)
  {
    if |frame| < 4 { return Err(Truncated); }
    var declared := FromLe(frame[..4]);
    if declared == 0 || declared > MAX_PAYLOAD || declared != |frame| - 4 { return Err(InvalidFrameLength); }
    r := Ok(frame[4..]);
  }

  method ReadRequest(reader: Reader) returns (r: Result<Snapshot, Error>)
    requires reader.Valid()
    modifies reader`position
    ensures reader.Valid() && Agrees(ParseRequest(old(reader.Rest())), r, reader.Rest())
  {
    hide ParseHeader, ParseCorrelation, ParseOptions, TakeText, ParseCandidates;
    var task :- reader.ReadHeader(REQUEST_KIND);
    var correlation :- reader.ReadCorrelation();
    var o :- reader.ReadOptions();
    if o.contextLen > MAX_TEXT || o.readingLen == 0 || o.readingLen > MAX_TEXT || o.count == 0
       || o.count > task.MaxCandidates() {
      return Err(InvalidBounds);
    }
    var context :- reader.ReadText(o.contextLen);
    var reading :- reader.ReadText(o.readingLen);
    var candidates :- reader.ReadCandidates(o.count);
    r := Ok(Snapshot(task, correlation, o.scope, o.testOnly, o.deadlineMs, context, reading, candidates));
  }

  method DecodeRequestFrame(frame: Bytes) returns (r: Result<Snapshot, Error>)
    ensures r == DecodeRequest(frame)
  {
    hide ParseRequest, CheckSnapshot, OpenFrame;
    var payload :- Open(frame);
    var reader := new Reader(payload);
    var snapshot :- ReadRequest(reader);
    if reader.position != |reader.bytes| {
      assert reader.Rest() != [];
      return Err(TrailingBytes);
    }
    var _ :- Validate(snapshot);
    r := Ok(snapshot);
  }

  method ReadResponse(reader: Reader) returns (r: Result<Response, Error>)
    requires reader.Valid()
    modifies reader`position
    ensures reader.Valid() && Agrees(ParseResponse(old(reader.Rest())), r, reader.Rest())
  {
    hide ParseHeader, ParseCorrelation, TakeStatus, Take, TakeShort, ParseScores;
    var task :- reader.ReadHeader(RESPONSE_KIND);
    var correlation :- reader.ReadCorrelation();
    var status :- reader.ReadStatus();
    var reserved :- reader.Bytes(3);
    if reserved != [0, 0, 0] { return Err(InvalidEnum); }
    var count :- reader.Short();
    if count > task.MaxCandidates() { return Err(InvalidBounds); }
    var scores :- reader.ReadScores(count);
    if status.Unavailable? && scores != [] { return Err(InvariantViolation); }
    for i := 0 to |scores|
      invariant Bounded(scores[..i])
    {
      if scores[i].residual > MAX_RESIDUAL || scores[i].residual < -MAX_RESIDUAL { return Err(InvalidBounds); }
    }
    assert scores[..|scores|] == scores;
    r := Ok(Response(task, correlation, status, scores));
  }

  method DecodeResponseFrame(frame: Bytes) returns (r: Result<Response, Error>)
    ensures r == DecodeResponse(frame)
  {
    hide ParseResponse, OpenFrame;
    var payload :- Open(frame);
    var reader := new Reader(payload);
    var response :- ReadResponse(reader);
    if reader.position != |reader.bytes| {
      assert reader.Rest() != [];
      return Err(TrailingBytes);
    }
    r := Ok(response);
  }

  // ----------------------------------------------------------------- writers

  method WriteCorrelation(payload: Bytes, c: Correlation) returns (out: Bytes)
    ensures out == payload + CorrelationBytes(c)
  {
    hide ToLe;
    out := payload + ToLe(c.requestId, 8);
    out := out + ToLe(c.ownerId, 8);
    out := out + ToLe(c.sessionId, 8);
    out := out + ToLe(c.contextGeneration, 8);
    out := out + ToLe(c.compositionGeneration, 8);
    out := out + c.candidateSet;
    out := out + c.model;
    out := out + c.tokenizer;
  }

  method WriteCandidates(payload: Bytes, candidates: seq<Candidate>) returns (out: Bytes)
    requires Encodable(candidates)
    ensures out == payload + CandidatesBytes(candidates)
  {
    hide CandidateBytes;
    out := payload;
    assert candidates[0..] == candidates;
    for i := 0 to |candidates|
      invariant payload + CandidatesBytes(candidates) == out + CandidatesBytes(candidates[i..])
    {
      assert candidates[i..][1..] == candidates[i + 1..];
      Regroup(out, CandidateBytes(candidates[i]), CandidatesBytes(candidates[i + 1..]));
      out := out + CandidateBytes(candidates[i]);
    }
  }

  /** Pushing the parts one after the other builds the payload. */
  lemma RequestInOrder(s: Snapshot)
    requires |s.context| <= U16_MAX && |s.reading| <= U16_MAX && |s.candidates| <= U16_MAX && Encodable(s.candidates)
    ensures ((((Header(REQUEST_KIND, s.task) + CorrelationBytes(s.correlation)) + OptionsBytes(OptionsOf(s)))
              + s.context) + s.reading) + CandidatesBytes(s.candidates) == RequestPayload(s)
  {
    hide Header, CorrelationBytes, OptionsBytes, CandidatesBytes;
    var header, correlation, options := Header(REQUEST_KIND, s.task), CorrelationBytes(s.correlation), OptionsBytes(OptionsOf(s));
    var candidates := CandidatesBytes(s.candidates);
    Regroup(((header + correlation) + options) + s.context, s.reading, candidates);
    Regroup((header + correlation) + options, s.context, s.reading + candidates);
    Regroup(header + correlation, options, s.context + (s.reading + candidates));
    Regroup(header, correlation, options + (s.context + (s.reading + candidates)));
  }

  method EncodeRequestFrame(s: Snapshot) returns (r: Result<Bytes, Error>)
    ensures r == EncodeRequest(s)
  {
    hide CheckSnapshot, Header, CorrelationBytes, OptionsBytes, CandidatesBytes, FinishFrame, RequestPayload;
    var _ :- Validate(s);
    SnapshotChecked(s);
    var payload := Header(REQUEST_KIND, s.task);
    payload := WriteCorrelation(payload, s.correlation);
    payload := payload + OptionsBytes(OptionsOf(s));
    payload := payload + s.context;
    payload := payload + s.reading;
    payload := WriteCandidates(payload, s.candidates);
    RequestInOrder(s);
    r := FinishFrame(payload);
  }

  method EncodeResponseFrame(response: Response) returns (r: Result<Bytes, Error>)
    ensures r == EncodeResponse(response)
  {
    hide Header, CorrelationBytes, FinishFrame, ToLe;
    if |response.scores| > response.task.MaxCandidates() { return Err(InvalidBounds); }
    if !IdsPresent(response.correlation) { return Err(InvariantViolation); }
    if !FingerprintsPresent(response.correlation) { return Err(InvariantViolation); }
    if !Bounded(response.scores) { return Err(InvalidBounds); }
    if response.status.Unavailable? && response.scores != [] { return Err(InvariantViolation); }
    var payload := Header(RESPONSE_KIND, response.task);
    payload := WriteCorrelation(payload, response.correlation);
    payload := payload + [response.status.Code(), 0, 0, 0];
    payload := payload + ToLe(|response.scores|, 2);
    ghost var front := payload;
    for i := 0 to |response.scores|
      invariant front + ScoresBytes(response.scores) == payload + ScoresBytes(response.scores[i..])
    {
      var score := response.scores[i];
      assert response.scores[i..][1..] == response.scores[i + 1..];
      Radixes();
      var bytes := ToLe(score.id, 8) + ToLe(FromSigned(score.residual, 2), 2);
      Regroup(payload, bytes, ScoresBytes(response.scores[i + 1..]));
      payload := payload + bytes;
    }
    assert payload == front + ScoresBytes(response.scores);
    assert payload == ResponsePayload(response);
    r := FinishFrame(payload);
  }
}
