/** Encoding and decoding of context frames are inverse. Each step is stated as
    an equivalence between what a parser answers and what stands in the bytes. */
module ContextCodec {
  import opened Wrappers
  import opened Sequences
  import opened Wire
  import opened Utf8
  import opened ContextFrames

  // ------------------------------------------------------------- single values

  lemma TakeExact(s: Bytes, a: Bytes, rest: Bytes)
    ensures Take(s, |a|) == Ok((a, rest)) <==> s == a + rest
  {
    if s == a + rest {
      assert s[..|a|] == a && s[|a|..] == rest;
    }
  }

  lemma ByteExact(s: Bytes, b: byte, rest: Bytes)
    ensures TakeByte(s) == Ok((b, rest)) <==> s == [b] + rest
  {
    if s == [b] + rest {
      assert s[1..] == rest;
    } else if s != [] {
      assert s == [s[0]] + s[1..];
    }
  }

  lemma IntExact(s: Bytes, n: nat, width: nat, rest: Bytes)
    requires n < Radix(width)
    ensures TakeInt(s, width) == Ok((n, rest)) <==> s == ToLe(n, width) + rest
  {
    LeRoundTrip(n, width);
    TakeExact(s, ToLe(n, width), rest);
    if width <= |s| {
      LeInverse(s[..width]);
    }
  }

  lemma IdExact(s: Bytes, n: u64, rest: Bytes)
    ensures TakeId(s) == Ok((n, rest)) <==> s == ToLe(n, 8) + rest
  {
    Radixes();
    IntExact(s, n, 8, rest);
  }

  lemma ShortExact(s: Bytes, n: u16, rest: Bytes)
    ensures TakeShort(s) == Ok((n, rest)) <==> s == ToLe(n, 2) + rest
  {
    Radixes();
    IntExact(s, n, 2, rest);
  }

  lemma SignedInverse(n: int, m: nat, width: nat)
    requires width > 0 && 0 <= 2 * n + Radix(width) && 2 * n < Radix(width) && m < Radix(width)
    ensures FromSigned(n, width) < Radix(width)
    ensures ToSigned(m, width) == n <==> m == FromSigned(n, width)
  {}

  lemma CostExact(s: Bytes, n: i32, rest: Bytes)
    ensures 0 <= n + Radix(4)
    ensures TakeCost(s) == Ok((n, rest)) <==> s == ToLe(FromSigned(n, 4), 4) + rest
  {
    Radixes();
    SignedInverse(n, 0, 4);
    IntExact(s, FromSigned(n, 4), 4, rest);
    if 4 <= |s| {
      LeInverse(s[..4]);
      SignedInverse(n, FromLe(s[..4]), 4);
    }
  }

  lemma ResidualExact(s: Bytes, n: i16, rest: Bytes)
    ensures 0 <= n + Radix(2)
    ensures TakeResidual(s) == Ok((n, rest)) <==> s == ToLe(FromSigned(n, 2), 2) + rest
  {
    Radixes();
    SignedInverse(n, 0, 2);
    IntExact(s, FromSigned(n, 2), 2, rest);
    if 2 <= |s| {
      LeInverse(s[..2]);
      SignedInverse(n, FromLe(s[..2]), 2);
    }
  }

  lemma TextExact(s: Bytes, text: Text, rest: Bytes)
    ensures TakeText(s, |text|) == Ok((text, rest)) <==> s == text + rest
  {
    TakeExact(s, text, rest);
  }

  lemma FingerprintExact(s: Bytes, f: Fingerprint, rest: Bytes)
    ensures TakeFingerprint(s) == Ok((f, rest)) <==> s == f + rest
  {
    TakeExact(s, f, rest);
  }

  // -------------------------------------------------------------------- groups

  lemma HeaderShape(kind: byte, task: TaskKind, rest: Bytes)
    ensures Header(kind, task) + rest == MAGIC + (ToLe(WIRE_VERSION, 2) + ([kind] + ([task.Code()] + rest)))
  {
    assert [kind, task.Code()] + rest == [kind] + ([task.Code()] + rest);
    Regroup(MAGIC, ToLe(WIRE_VERSION, 2) + [kind, task.Code()], rest);
    Regroup(ToLe(WIRE_VERSION, 2), [kind, task.Code()], rest);
  }

  lemma TaskExact(s: Bytes, task: TaskKind, rest: Bytes)
    ensures TakeTask(s) == Ok((task, rest)) <==> s == [task.Code()] + rest
  {
    ByteExact(s, task.Code(), rest);
    if s != [] { ByteExact(s, s[0], rest); }
  }

  lemma HeaderExact(s: Bytes, kind: byte, task: TaskKind, rest: Bytes)
    ensures ParseHeader(s, kind) == Ok((task, rest)) <==> s == Header(kind, task) + rest
  {
    hide Take, TakeInt, TakeByte, TakeTask, Header, ToLe;
    Radixes();
    HeaderShape(kind, task, rest);
    var t3 := [task.Code()] + rest;
    var t2 := [kind] + t3;
    var t1 := ToLe(WIRE_VERSION, 2) + t2;
    TakeExact(s, MAGIC, t1);
    IntExact(t1, WIRE_VERSION, 2, t2);
    ByteExact(t2, kind, t3);
    TaskExact(t3, task, rest);
    if ParseHeader(s, kind) == Ok((task, rest)) {
      var s1 := Take(s, 4).value.1;
      var s2 := TakeInt(s1, 2).value.1;
      var s3 := TakeByte(s2).value.1;
      TakeExact(s, MAGIC, s1);
      IntExact(s1, WIRE_VERSION, 2, s2);
      ByteExact(s2, kind, s3);
      TaskExact(s3, task, rest);
    }
  }

  /** What follows each field of a correlation. */
  lemma CorrelationShape(c: Correlation, rest: Bytes)
    ensures CorrelationBytes(c) + rest ==
      ToLe(c.requestId, 8) + (ToLe(c.ownerId, 8) + (ToLe(c.sessionId, 8) + (ToLe(c.contextGeneration, 8) +
        (ToLe(c.compositionGeneration, 8) + (c.candidateSet + (c.model + (c.tokenizer + rest)))))))
  {
    hide ToLe;
    var f2 := c.model + c.tokenizer;
    var f1 := c.candidateSet + f2;
    var n5 := ToLe(c.compositionGeneration, 8) + f1;
    var n4 := ToLe(c.contextGeneration, 8) + n5;
    var n3 := ToLe(c.sessionId, 8) + n4;
    var n2 := ToLe(c.ownerId, 8) + n3;
    Regroup(ToLe(c.requestId, 8), n2, rest);
    Regroup(ToLe(c.ownerId, 8), n3, rest);
    Regroup(ToLe(c.sessionId, 8), n4, rest);
    Regroup(ToLe(c.contextGeneration, 8), n5, rest);
    Regroup(ToLe(c.compositionGeneration, 8), f1, rest);
    Regroup(c.candidateSet, f2, rest);
    Regroup(c.model, c.tokenizer, rest);
  }

  lemma CorrelationReads(c: Correlation, rest: Bytes)
    ensures ParseCorrelation(CorrelationBytes(c) + rest) == Ok((c, rest))
  {
    hide ToLe, TakeId, TakeFingerprint, CorrelationBytes;
    CorrelationShape(c, rest);
    var f3 := c.tokenizer + rest;
    var f2 := c.model + f3;
    var f1 := c.candidateSet + f2;
    var n5 := ToLe(c.compositionGeneration, 8) + f1;
    var n4 := ToLe(c.contextGeneration, 8) + n5;
    var n3 := ToLe(c.sessionId, 8) + n4;
    var n2 := ToLe(c.ownerId, 8) + n3;
    IdExact(ToLe(c.requestId, 8) + n2, c.requestId, n2);
    IdExact(n2, c.ownerId, n3);
    IdExact(n3, c.sessionId, n4);
    IdExact(n4, c.contextGeneration, n5);
    IdExact(n5, c.compositionGeneration, f1);
    FingerprintExact(f1, c.candidateSet, f2);
    FingerprintExact(f2, c.model, f3);
    FingerprintExact(f3, c.tokenizer, rest);
  }

  lemma CorrelationInverts(s: Bytes, c: Correlation, rest: Bytes)
    requires ParseCorrelation(s) == Ok((c, rest))
    ensures s == CorrelationBytes(c) + rest
  {
    hide ToLe, TakeId, TakeFingerprint, CorrelationBytes;
    CorrelationShape(c, rest);
    var n2 := TakeId(s).value.1;
    var n3 := TakeId(n2).value.1;
    var n4 := TakeId(n3).value.1;
    var n5 := TakeId(n4).value.1;
    var f1 := TakeId(n5).value.1;
    var f2 := TakeFingerprint(f1).value.1;
    var f3 := TakeFingerprint(f2).value.1;
    IdExact(s, c.requestId, n2);
    IdExact(n2, c.ownerId, n3);
    IdExact(n3, c.sessionId, n4);
    IdExact(n4, c.contextGeneration, n5);
    IdExact(n5, c.compositionGeneration, f1);
    FingerprintExact(f1, c.candidateSet, f2);
    FingerprintExact(f2, c.model, f3);
    FingerprintExact(f3, c.tokenizer, rest);
  }

  lemma OptionsShape(o: Options, rest: Bytes)
    ensures OptionsBytes(o) + rest ==
      [ScopeCode(o.scope)] + ([if o.testOnly then 1 else 0] + (ToLe(o.deadlineMs, 2) + (ToLe(o.contextLen, 2) +
        (ToLe(o.readingLen, 2) + (ToLe(o.count, 2) + rest)))))
  {
    hide ToLe;
    var n3 := ToLe(o.readingLen, 2) + ToLe(o.count, 2);
    var n2 := ToLe(o.contextLen, 2) + n3;
    var n1 := ToLe(o.deadlineMs, 2) + n2;
    var codes := [ScopeCode(o.scope), if o.testOnly then 1 else 0];
    Regroup(codes, n1, rest);
    assert codes + (n1 + rest) == [codes[0]] + ([codes[1]] + (n1 + rest));
    Regroup(ToLe(o.deadlineMs, 2), n2, rest);
    Regroup(ToLe(o.contextLen, 2), n3, rest);
    Regroup(ToLe(o.readingLen, 2), ToLe(o.count, 2), rest);
  }

  lemma ScopeExact(s: Bytes, scope: ScopeClass, rest: Bytes)
    ensures TakeScope(s) == Ok((scope, rest)) <==> s == [ScopeCode(scope)] + rest
  {
    ByteExact(s, ScopeCode(scope), rest);
    if s != [] { ByteExact(s, s[0], rest); }
  }

  lemma FlagExact(s: Bytes, flag: bool, rest: Bytes)
    ensures TakeFlag(s) == Ok((flag, rest)) <==> s == [if flag then 1 else 0] + rest
  {
    ByteExact(s, if flag then 1 else 0, rest);
    if s != [] { ByteExact(s, s[0], rest); }
  }

  lemma OptionsReads(o: Options, rest: Bytes)
    ensures ParseOptions(OptionsBytes(o) + rest) == Ok((o, rest))
  {
    hide ToLe, TakeShort, TakeScope, TakeFlag, OptionsBytes;
    OptionsShape(o, rest);
    var n4 := ToLe(o.count, 2) + rest;
    var n3 := ToLe(o.readingLen, 2) + n4;
    var n2 := ToLe(o.contextLen, 2) + n3;
    var n1 := ToLe(o.deadlineMs, 2) + n2;
    var n0 := [if o.testOnly then 1 else 0] + n1;
    ScopeExact([ScopeCode(o.scope)] + n0, o.scope, n0);
    FlagExact(n0, o.testOnly, n1);
    ShortExact(n1, o.deadlineMs, n2);
    ShortExact(n2, o.contextLen, n3);
    ShortExact(n3, o.readingLen, n4);
    ShortExact(n4, o.count, rest);
  }

  lemma OptionsInverts(s: Bytes, o: Options, rest: Bytes)
    requires ParseOptions(s) == Ok((o, rest))
    ensures s == OptionsBytes(o) + rest
  {
    hide ToLe, TakeShort, TakeScope, TakeFlag, OptionsBytes;
    OptionsShape(o, rest);
    var n0 := TakeScope(s).value.1;
    var n1 := TakeFlag(n0).value.1;
    var n2 := TakeShort(n1).value.1;
    var n3 := TakeShort(n2).value.1;
    var n4 := TakeShort(n3).value.1;
    ScopeExact(s, o.scope, n0);
    FlagExact(n0, o.testOnly, n1);
    ShortExact(n1, o.deadlineMs, n2);
    ShortExact(n2, o.contextLen, n3);
    ShortExact(n3, o.readingLen, n4);
    ShortExact(n4, o.count, rest);
  }

  lemma AuthorityExact(s: Bytes, a: Authority, rest: Bytes)
    ensures TakeAuthority(s) == Ok((a, rest)) <==> s == [a.Code()] + rest
  {
    ByteExact(s, a.Code(), rest);
    if s != [] { ByteExact(s, s[0], rest); }
  }

  lemma CandidateShape(c: Candidate, rest: Bytes)
    requires |c.surface| <= U16_MAX
    ensures 0 <= c.baseCost + Radix(4)
    ensures CandidateBytes(c) + rest ==
      ToLe(c.id, 8) + (ToLe(FromSigned(c.baseCost, 4), 4) + ([c.authority.Code()] + ([0] +
        (ToLe(|c.surface|, 2) + (c.surface + rest)))))
  {
    hide ToLe, FromSigned;
    Radixes();
    var n3 := ToLe(|c.surface|, 2) + c.surface;
    var codes := [c.authority.Code(), 0];
    var n2 := codes + n3;
    var n1 := ToLe(FromSigned(c.baseCost, 4), 4) + n2;
    Regroup(ToLe(c.id, 8), n1, rest);
    Regroup(ToLe(FromSigned(c.baseCost, 4), 4), n2, rest);
    Regroup(codes, n3, rest);
    assert codes + (n3 + rest) == [codes[0]] + ([codes[1]] + (n3 + rest));
    Regroup(ToLe(|c.surface|, 2), c.surface, rest);
  }

  predicate WireCandidate(c: Candidate) { 0 < |c.surface| <= MAX_TEXT }

  lemma CandidateReads(c: Candidate, rest: Bytes)
    requires WireCandidate(c)
    ensures ParseCandidate(CandidateBytes(c) + rest) == Ok((c, rest))
  {
    hide ToLe, TakeShort, TakeId, TakeCost, TakeAuthority, TakeByte, TakeText, CandidateBytes, FromSigned;
    CandidateShape(c, rest);
    var n5 := c.surface + rest;
    var n4 := ToLe(|c.surface|, 2) + n5;
    var n3 := [0] + n4;
    var n2 := [c.authority.Code()] + n3;
    var n1 := ToLe(FromSigned(c.baseCost, 4), 4) + n2;
    IdExact(ToLe(c.id, 8) + n1, c.id, n1);
    CostExact(n1, c.baseCost, n2);
    AuthorityExact(n2, c.authority, n3);
    ByteExact(n3, 0, n4);
    ShortExact(n4, |c.surface|, n5);
    TextExact(n5, c.surface, rest);
  }

  lemma CandidateInverts(s: Bytes, c: Candidate, rest: Bytes)
    requires ParseCandidate(s) == Ok((c, rest))
    ensures WireCandidate(c) && s == CandidateBytes(c) + rest
  {
    hide ToLe, TakeShort, TakeId, TakeCost, TakeAuthority, TakeByte, CandidateBytes, FromSigned;
    var n1 := TakeId(s).value.1;
    var n2 := TakeCost(n1).value.1;
    var n3 := TakeAuthority(n2).value.1;
    var n4 := TakeByte(n3).value.1;
    var n5 := TakeShort(n4).value.1;
    IdExact(s, c.id, n1);
    CostExact(n1, c.baseCost, n2);
    AuthorityExact(n2, c.authority, n3);
    ByteExact(n3, 0, n4);
    ShortExact(n4, |c.surface|, n5);
    TextExact(n5, c.surface, rest);
    CandidateShape(c, rest);
  }

  predicate WireCandidates(candidates: seq<Candidate>)
    ensures WireCandidates(candidates) ==> Encodable(candidates)
  {
    forall i :: 0 <= i < |candidates| ==> WireCandidate(candidates[i])
  }

  lemma {:induction false} CandidatesRead(candidates: seq<Candidate>, rest: Bytes)
    requires WireCandidates(candidates)
    ensures ParseCandidates(CandidatesBytes(candidates) + rest, |candidates|) == Ok((candidates, rest))
    decreases |candidates|
  {
    hide ParseCandidate, CandidateBytes;
    if candidates == [] {
      assert CandidatesBytes(candidates) + rest == rest;
    } else {
      var first, others := candidates[0], candidates[1..];
      Regroup(CandidateBytes(first), CandidatesBytes(others), rest);
      CandidateReads(first, CandidatesBytes(others) + rest);
      CandidatesRead(others, rest);
      assert candidates == [first] + others;
    }
  }

  lemma {:induction false} CandidatesInvert(s: Bytes, n: nat, candidates: seq<Candidate>, rest: Bytes)
    requires ParseCandidates(s, n) == Ok((candidates, rest))
    ensures |candidates| == n && WireCandidates(candidates) && s == CandidatesBytes(candidates) + rest
    decreases n
  {
    hide ParseCandidate, CandidateBytes;
    if n == 0 {
      assert CandidatesBytes(candidates) + rest == rest;
    } else {
      var first := ParseCandidate(s).value;
      var others := ParseCandidates(first.1, n - 1).value.0;
      CandidateInverts(s, first.0, first.1);
      CandidatesInvert(first.1, n - 1, others, rest);
      assert candidates[0] == first.0 && candidates[1..] == others;
      Regroup(CandidateBytes(first.0), CandidatesBytes(others), rest);
    }
  }

  // ------------------------------------------------------------------ messages

  /** Everything the decoder checks while reading, before validation. */
  predicate WireSnapshot(s: Snapshot) {
    && |s.context| <= MAX_TEXT && 0 < |s.reading| <= MAX_TEXT
    && 0 < |s.candidates| <= s.task.MaxCandidates() && WireCandidates(s.candidates)
  }

  lemma RequestShape(s: Snapshot, rest: Bytes)
    requires WireSnapshot(s)
    ensures RequestPayload(s) + rest == Header(REQUEST_KIND, s.task) + (CorrelationBytes(s.correlation) +
      (OptionsBytes(OptionsOf(s)) + (s.context + (s.reading + (CandidatesBytes(s.candidates) + rest)))))
  {
    hide Header, CorrelationBytes, OptionsBytes, OptionsOf, CandidatesBytes;
    var p4 := s.reading + CandidatesBytes(s.candidates);
    var p3 := s.context + p4;
    var p2 := OptionsBytes(OptionsOf(s)) + p3;
    var p1 := CorrelationBytes(s.correlation) + p2;
    Regroup(Header(REQUEST_KIND, s.task), p1, rest);
    Regroup(CorrelationBytes(s.correlation), p2, rest);
    Regroup(OptionsBytes(OptionsOf(s)), p3, rest);
    Regroup(s.context, p4, rest);
    Regroup(s.reading, CandidatesBytes(s.candidates), rest);
  }

  lemma RequestReads(s: Snapshot)
    requires WireSnapshot(s)
    ensures ParseRequest(RequestPayload(s)) == Ok((s, []))
  {
    hide Header, CorrelationBytes, OptionsBytes, CandidatesBytes, RequestPayload;
    hide ParseHeader, ParseCorrelation, ParseOptions, TakeText, ParseCandidates;
    RequestShape(s, []);
    assert RequestPayload(s) + [] == RequestPayload(s);
    var p5 := CandidatesBytes(s.candidates) + [];
    var p4 := s.reading + p5;
    var p3 := s.context + p4;
    var p2 := OptionsBytes(OptionsOf(s)) + p3;
    var p1 := CorrelationBytes(s.correlation) + p2;
    HeaderExact(Header(REQUEST_KIND, s.task) + p1, REQUEST_KIND, s.task, p1);
    CorrelationReads(s.correlation, p2);
    OptionsReads(OptionsOf(s), p3);
    TextExact(p3, s.context, p4);
    TextExact(p4, s.reading, p5);
    CandidatesRead(s.candidates, []);
  }

  lemma TextLength(s: Bytes, n: nat)
    requires TakeText(s, n).Ok?
    ensures |TakeText(s, n).value.0| == n
  {}

  lemma RequestInverts(payload: Bytes, s: Snapshot)
    requires ParseRequest(payload) == Ok((s, []))
    ensures WireSnapshot(s) && payload == RequestPayload(s)
  {
    hide Header, CorrelationBytes, OptionsBytes, CandidatesBytes, RequestPayload;
    hide ParseHeader, ParseCorrelation, ParseOptions, TakeText, ParseCandidates, WireCandidates;
    var p1 := ParseHeader(payload, REQUEST_KIND).value.1;
    var p2 := ParseCorrelation(p1).value.1;
    var options := ParseOptions(p2).value;
    var o, p3 := options.0, options.1;
    var p4 := TakeText(p3, o.contextLen).value.1;
    var p5 := TakeText(p4, o.readingLen).value.1;
    HeaderExact(payload, REQUEST_KIND, s.task, p1);
    CorrelationInverts(p1, s.correlation, p2);
    OptionsInverts(p2, o, p3);
    TextLength(p3, o.contextLen);
    TextLength(p4, o.readingLen);
    TextExact(p3, s.context, p4);
    TextExact(p4, s.reading, p5);
    CandidatesInvert(p5, o.count, s.candidates, []);
    assert o == OptionsOf(s);
    RequestShape(s, []);
    assert RequestPayload(s) + [] == RequestPayload(s);
  }

  lemma {:induction false} CandidatesLength(candidates: seq<Candidate>)
    requires WireCandidates(candidates)
    ensures |CandidatesBytes(candidates)| <= 528 * |candidates|
    decreases |candidates|
  {
    if candidates != [] {
      CandidatesLength(candidates[1..]);
      assert WireCandidate(candidates[0]);
      Radixes();
      assert |CandidateBytes(candidates[0])| == 16 + |candidates[0].surface|;
    }
  }

  lemma RequestLength(s: Snapshot)
    requires WireSnapshot(s)
    ensures 0 < |RequestPayload(s)| <= 18_074
  {
    hide CandidatesBytes;
    CandidatesLength(s.candidates);
    assert |Header(REQUEST_KIND, s.task)| == 8;
    assert |CorrelationBytes(s.correlation)| == 136;
    assert |OptionsBytes(OptionsOf(s))| == 10;
  }

  /** A finished frame opens to its payload, and every frame that opens was
      finished from what it opens to. */
  lemma FrameExact(frame: Bytes, payload: Bytes)
    ensures OpenFrame(frame) == Ok(payload) <==> FinishFrame(payload) == Ok(frame)
  {
    Radixes();
    if FinishFrame(payload) == Ok(frame) {
      IntExact(frame, |payload|, 4, payload);
      assert frame[4..] == payload;
    }
    if OpenFrame(frame) == Ok(payload) {
      IntExact(frame, |payload|, 4, payload);
    }
  }

  lemma ValidIsWire(s: Snapshot)
    requires Valid(s)
    ensures WireSnapshot(s)
  {}

  /** The codec is a bijection between valid snapshots and accepted frames:
      a frame decodes to a snapshot exactly when the snapshot encodes to it. */
  lemma RequestBijection(s: Snapshot, frame: Bytes)
    ensures DecodeRequest(frame) == Ok(s) <==> EncodeRequest(s) == Ok(frame)
  {
    hide CheckSnapshot, Valid, ParseRequest, RequestPayload, OpenFrame, FinishFrame;
    SnapshotChecked(s);
    if EncodeRequest(s) == Ok(frame) {
      ValidIsWire(s);
      RequestReads(s);
      FrameExact(frame, RequestPayload(s));
    }
    if DecodeRequest(frame) == Ok(s) {
      var payload := OpenFrame(frame).value;
      RequestInverts(payload, s);
      FrameExact(frame, payload);
    }
  }

  /** Encoding fails on invalid snapshots only, with validate's own error; no
      frame is longer than 18,078 bytes. */
  lemma RequestEncodes(s: Snapshot)
    ensures EncodeRequest(s).Ok? <==> Valid(s)
    ensures EncodeRequest(s).Ok? ==> |EncodeRequest(s).value| <= 18_078
    ensures EncodeRequest(s).Err? ==> CheckSnapshot(s) == Err(EncodeRequest(s).error)
  {
    hide CheckSnapshot, Valid, RequestPayload, WireSnapshot;
    SnapshotChecked(s);
    if Valid(s) {
      ValidIsWire(s);
      RequestLength(s);
    }
  }

  // ----------------------------------------------------------------- responses

  lemma StatusExact(s: Bytes, status: Status, rest: Bytes)
    ensures TakeStatus(s) == Ok((status, rest)) <==> s == [status.Code()] + rest
  {
    ByteExact(s, status.Code(), rest);
    if s != [] { ByteExact(s, s[0], rest); }
  }

  lemma {:induction false} ScoresRead(scores: seq<Score>, rest: Bytes)
    ensures ParseScores(ScoresBytes(scores) + rest, |scores|) == Ok((scores, rest))
    decreases |scores|
  {
    hide TakeId, TakeResidual, ToLe, FromSigned;
    if scores == [] {
      assert ScoresBytes(scores) + rest == rest;
    } else {
      Radixes();
      var first, others := scores[0], scores[1..];
      var id, residual := ToLe(first.id, 8), ToLe(FromSigned(first.residual, 2), 2);
      Regroup(id + residual, ScoresBytes(others), rest);
      Regroup(id, residual, ScoresBytes(others) + rest);
      IdExact(id + (residual + (ScoresBytes(others) + rest)), first.id, residual + (ScoresBytes(others) + rest));
      ResidualExact(residual + (ScoresBytes(others) + rest), first.residual, ScoresBytes(others) + rest);
      ScoresRead(others, rest);
      assert scores == [first] + others;
    }
  }

  lemma {:induction false} ScoresInvert(s: Bytes, n: nat, scores: seq<Score>, rest: Bytes)
    requires ParseScores(s, n) == Ok((scores, rest))
    ensures |scores| == n && s == ScoresBytes(scores) + rest
    decreases n
  {
    hide TakeId, TakeResidual, ToLe, FromSigned;
    if n == 0 {
      assert ScoresBytes(scores) + rest == rest;
    } else {
      Radixes();
      var s1 := TakeId(s).value.1;
      var s2 := TakeResidual(s1).value.1;
      var first, others := scores[0], ParseScores(s2, n - 1).value.0;
      assert scores[1..] == others;
      IdExact(s, first.id, s1);
      ResidualExact(s1, first.residual, s2);
      ScoresInvert(s2, n - 1, others, rest);
      var id, residual := ToLe(first.id, 8), ToLe(FromSigned(first.residual, 2), 2);
      Regroup(id + residual, ScoresBytes(others), rest);
      Regroup(id, residual, ScoresBytes(others) + rest);
    }
  }

  /** What decode_response checks; unlike encode_response, not that ids and
      fingerprints are present. */
  predicate WireResponse(r: Response) {
    && |r.scores| <= r.task.MaxCandidates() && Bounded(r.scores)
    && (r.status.Unavailable? ==> r.scores == [])
  }

  lemma ResponseShape(r: Response, rest: Bytes)
    requires |r.scores| <= U16_MAX
    ensures ResponsePayload(r) + rest == Header(RESPONSE_KIND, r.task) + (CorrelationBytes(r.correlation) +
      ([r.status.Code()] + ([0, 0, 0] + (ToLe(|r.scores|, 2) + (ScoresBytes(r.scores) + rest)))))
  {
    hide Header, CorrelationBytes, ToLe, ScoresBytes;
    var p3 := ToLe(|r.scores|, 2) + ScoresBytes(r.scores);
    var codes := [r.status.Code(), 0, 0, 0];
    var p2 := codes + p3;
    Regroup(Header(RESPONSE_KIND, r.task), CorrelationBytes(r.correlation) + p2, rest);
    Regroup(CorrelationBytes(r.correlation), p2, rest);
    Regroup(codes, p3, rest);
    assert codes == [codes[0]] + [0, 0, 0];
    Regroup([codes[0]], [0, 0, 0], p3 + rest);
    Regroup(ToLe(|r.scores|, 2), ScoresBytes(r.scores), rest);
  }

  lemma ResponseReads(r: Response)
    requires WireResponse(r)
    ensures ParseResponse(ResponsePayload(r)) == Ok((r, []))
  {
    hide Header, CorrelationBytes, ToLe, ScoresBytes, ResponsePayload, Take;
    hide ParseHeader, ParseCorrelation, TakeStatus, TakeShort, ParseScores, Bounded;
    ResponseShape(r, []);
    assert ResponsePayload(r) + [] == ResponsePayload(r);
    var p5 := ScoresBytes(r.scores) + [];
    var p4 := ToLe(|r.scores|, 2) + p5;
    var p3 := [0, 0, 0] + p4;
    var p2 := [r.status.Code()] + p3;
    var p1 := CorrelationBytes(r.correlation) + p2;
    HeaderExact(Header(RESPONSE_KIND, r.task) + p1, RESPONSE_KIND, r.task, p1);
    CorrelationReads(r.correlation, p2);
    StatusExact(p2, r.status, p3);
    TakeExact(p3, [0, 0, 0], p4);
    ShortExact(p4, |r.scores|, p5);
    ScoresRead(r.scores, []);
  }

  lemma ResponseInverts(payload: Bytes, r: Response)
    requires ParseResponse(payload) == Ok((r, []))
    ensures WireResponse(r) && payload == ResponsePayload(r)
  {
    hide Header, CorrelationBytes, ToLe, ScoresBytes, ResponsePayload, Take;
    hide ParseHeader, ParseCorrelation, TakeStatus, TakeShort, ParseScores, Bounded;
    var p1 := ParseHeader(payload, RESPONSE_KIND).value.1;
    var p2 := ParseCorrelation(p1).value.1;
    var p3 := TakeStatus(p2).value.1;
    var p4 := Take(p3, 3).value.1;
    var p5 := TakeShort(p4).value.1;
    HeaderExact(payload, RESPONSE_KIND, r.task, p1);
    CorrelationInverts(p1, r.correlation, p2);
    StatusExact(p2, r.status, p3);
    TakeExact(p3, [0, 0, 0], p4);
    ScoresInvert(p5, TakeShort(p4).value.0, r.scores, []);
    ShortExact(p4, |r.scores|, p5);
    ResponseShape(r, []);
    assert ResponsePayload(r) + [] == ResponsePayload(r);
  }

  lemma ResponseLength(r: Response)
    requires |r.scores| <= 32
    ensures 0 < |ResponsePayload(r)| <= MAX_PAYLOAD
  {
    hide ScoresBytes;
    ScoresLength(r.scores);
    assert |Header(RESPONSE_KIND, r.task)| == 8;
    assert |CorrelationBytes(r.correlation)| == 136;
  }

  lemma {:induction false} ScoresLength(scores: seq<Score>)
    ensures |ScoresBytes(scores)| == 10 * |scores|
    decreases |scores|
  {
    if scores != [] { ScoresLength(scores[1..]); }
  }

  /** What encode_response asks beyond what decode_response does. */
  predicate Identified(c: Correlation) { IdsPresent(c) && FingerprintsPresent(c) }

  /** A response frame decodes to a response exactly when it is that response's
      frame; encoding additionally wants ids and fingerprints. So encoded
      responses decode to themselves, and a decoded response encodes back to
      its frame if and only if its correlation is identified. */
  lemma ResponseRoundTrip(r: Response, frame: Bytes)
    ensures EncodeResponse(r) == Ok(frame) <==> DecodeResponse(frame) == Ok(r) && Identified(r.correlation)
    ensures DecodeResponse(frame) == Ok(r) && !Identified(r.correlation) ==> EncodeResponse(r) == Err(InvariantViolation)
  {
    hide ParseResponse, ResponsePayload, OpenFrame, FinishFrame, Bounded, IdsPresent, FingerprintsPresent;
    if EncodeResponse(r) == Ok(frame) {
      ResponseReads(r);
      FrameExact(frame, ResponsePayload(r));
    }
    if DecodeResponse(frame) == Ok(r) {
      var payload := OpenFrame(frame).value;
      ResponseInverts(payload, r);
      FrameExact(frame, payload);
    }
  }

  /** The gap is real: every in-bounds response has a frame that decodes to it,
      whether or not encode_response would write it. */
  lemma EveryResponseHasAFrame(r: Response)
    requires WireResponse(r)
    ensures FinishFrame(ResponsePayload(r)).Ok?
    ensures DecodeResponse(FinishFrame(ResponsePayload(r)).value) == Ok(r)
  {
    hide ParseResponse, ResponsePayload, OpenFrame;
    ResponseLength(r);
    ResponseReads(r);
    FrameExact(FinishFrame(ResponsePayload(r)).value, ResponsePayload(r));
  }

  lemma AnonymousResponseDecodes()
    ensures exists r, frame :: DecodeResponse(frame) == Ok(r) && EncodeResponse(r) == Err(InvariantViolation)
  {
    hide DecodeResponse, FinishFrame, ResponsePayload;
    var zero: Fingerprint := seq(32, _ => 0);
    var r := Response(Prediction, Correlation(0, 0, 0, 0, 0, zero, zero, zero), Unavailable, []);
    EveryResponseHasAFrame(r);
    assert EncodeResponse(r) == Err(InvariantViolation);
  }
}
