/** The bounded semantic context of one session refines the unbounded history of
    what the session committed. */
module SessionContext {
  import opened Wrappers
  import opened Wire
  import opened Utf8
  import opened ContextTail

  const CAPACITY := 256
  const MAX_COMMITS := 8
  const U64_MAX := 0xffff_ffff_ffff_ffff

  datatype InputScope = Normal | Password | Url | Email | Digits | Unclassified

  datatype ClearReason = SensitiveScope | UnclassifiedScope | SessionDeleted | ContextReplaced | Deactivated
                       | OwnershipLost | Explicit

  datatype Mutation = Retained | Appended(truncated: bool, sentenceBoundary: bool) | Cleared(reason: ClearReason)
                    | RejectedTestOnly | RejectedEmpty

  datatype Event = Observe(scope: InputScope, classified: bool)
                 | Commit(scope: InputScope, classified: bool, testOnly: bool, surface: Text)
                 | Clear(reason: ClearReason)

  /** Does a surface close a sentence? */
  type SentenceEnd = Text -> bool

  // ------------------------------------------------------ unbounded histories

  /** All text committed since the last clear, how many commits that were, and
      how often each generation has advanced. */
  datatype History = History(committed: Text, commits: nat, advances: nat, sentences: nat)

  predicate Admits(scope: InputScope, classified: bool) { classified && scope == Normal }

  predicate Clears(e: Event) {
    match e
    case Observe(scope, classified) => !Admits(scope, classified)
    case Commit(scope, classified, testOnly, _) => !testOnly && !Admits(scope, classified)
    case Clear(_) => true
  }

  predicate Accepts(e: Event) {
    e.Commit? && !e.testOnly && Admits(e.scope, e.classified) && e.surface != []
  }

  function After(h: History, e: Event, ends: SentenceEnd): History {
    if Clears(e) then History([], 0, h.advances + 1, h.sentences + 1)
    else if Accepts(e) then
      Concat(h.committed, e.surface);
      History(h.committed + e.surface, h.commits + 1, h.advances + 1, h.sentences + if ends(e.surface) then 1 else 0)
    else h
  }

  const START := History([], 0, 0, 0)

  function Run(events: seq<Event>, ends: SentenceEnd): History {
    if events == [] then START else After(Run(events[..|events| - 1], ends), events[|events| - 1], ends)
  }

  /** The text and number of accepted commits of a stretch of events. */
  function Accepted(events: seq<Event>): (Bytes, nat) {
    if events == [] then ([], 0)
    else
      var front, last := Accepted(events[..|events| - 1]), events[|events| - 1];
      if Accepts(last) then (front.0 + last.surface, front.1 + 1) else front
  }

  /** Whatever came before a clear is forgotten: the history holds exactly the
      surfaces accepted since then. */
  lemma {:induction false} OnlySinceLastClear(before: seq<Event>, clear: Event, since: seq<Event>, ends: SentenceEnd)
    requires Clears(clear) && forall e :: e in since ==> !Clears(e)
    ensures var h := Run(before + [clear] + since, ends);
            (h.committed, h.commits) == Accepted(since)
    decreases |since|
  {
    var events := before + [clear] + since;
    var last := |events| - 1;
    if since == [] {
      assert events[last] == clear;
    } else {
      assert events[..last] == before + [clear] + since[..|since| - 1];
      assert events[last] == since[|since| - 1];
      OnlySinceLastClear(before, clear, since[..|since| - 1], ends);
    }
  }

  lemma {:induction false} SentencesWithinAdvances(events: seq<Event>, ends: SentenceEnd)
    ensures Run(events, ends).sentences <= Run(events, ends).advances
    decreases |events|
  {
    if events != [] {
      SentencesWithinAdvances(events[..|events| - 1], ends);
    }
  }

  predicate Ignored(e: Event) { e.Commit? && e.testOnly }

  function WithoutTests(events: seq<Event>): seq<Event> {
    if events == [] then []
    else
      var front, last := WithoutTests(events[..|events| - 1]), events[|events| - 1];
      if Ignored(last) then front else front + [last]
  }

  /** Test-only commits leave no trace in any run, wherever they stand. */
  lemma {:induction false} TestsLeaveNoTrace(events: seq<Event>, ends: SentenceEnd)
    ensures Run(events, ends) == Run(WithoutTests(events), ends)
    decreases |events|
  {
    if events != [] {
      var front, last := events[..|events| - 1], events[|events| - 1];
      TestsLeaveNoTrace(front, ends);
      var kept := WithoutTests(front);
      assert (kept + [last])[..|kept|] == kept;
    }
  }

  // ------------------------------------------------------ the bounded session

  /** A string in a fixed buffer. */
  class FixedStr {
    const buf: array<byte>
    var len: nat

    ghost predicate Valid()
      reads this, buf
    {
      len <= buf.Length && IsUtf8(buf[..len])
    }

    function AsStr(): Text
      reads this, buf
      requires Valid()
    {
      buf[..len]
    }

    constructor (capacity: nat)
      ensures Valid() && fresh(buf) && buf.Length == capacity && AsStr() == []
    {
      buf := new byte[capacity];
      len := 0;
    }

    /** push_str: all of the text or none of it. */
    method PushStr(s: Text) returns (ok: bool)
      requires Valid()
      modifies this`len, buf
      ensures Valid()
      ensures ok == (|old(AsStr())| + |s| <= buf.Length)
      ensures AsStr() == if ok then old(AsStr()) + s else old(AsStr())
    {
      hide IsUtf8, Width;
      var end := len + |s|;
      if end > buf.Length { return false; }
      Concat(AsStr(), s);
      ghost var was := buf[..len];
      for i := 0 to |s|
        invariant len == old(len) && end <= buf.Length
        invariant buf[..len] == was && buf[len..len + i] == s[..i]
      {
        buf[len + i] := s[i];
      }
      assert buf[..end] == buf[..len] + buf[len..end];
      assert s[..|s|] == s;
      len := end;
      ok := true;
    }

    method Reset()
      modifies this`len
      ensures Valid() && AsStr() == []
    {
      len := 0;
      assert buf[..0] == [];
    }
  }

  method Utf8Suffix(text: Text, maxBytes: nat) returns (r: Text)
    ensures r == Tail(text, maxBytes)
  {
    if |text| <= maxBytes {
      TailOfShort(text, maxBytes);
      return text;
    }
    var start := |text| - maxBytes;
    while !IsBoundary(text, start)
      invariant start <= |text| && NextBoundary(text, |text| - maxBytes) == NextBoundary(text, start)
      decreases |text| - start
    {
      start := start + 1;
    }
    Cut(text, start);
    r := text[start..];
  }

  method AppendUtf8Tail(tail: FixedStr, surface: Text) returns (kept: FixedStr, truncated: bool)
    requires tail.Valid() && tail.buf.Length == CAPACITY
    modifies tail`len, tail.buf
    ensures kept.Valid() && kept.buf.Length == CAPACITY
    ensures kept == tail || (fresh(kept) && fresh(kept.buf))
    ensures var before := old(tail.AsStr());
            kept.AsStr() == if |before| + |surface| <= CAPACITY then before + surface
                            else if |surface| >= CAPACITY then Tail(surface, CAPACITY)
                            else Tail(before, CAPACITY - |surface|) + surface
    ensures truncated == (|old(tail.AsStr())| + |surface| > CAPACITY)
  {
    hide IsUtf8, Tail;
    if tail.len + |surface| <= CAPACITY {
      var _ := tail.PushStr(surface);
      return tail, false;
    }
    kept := new FixedStr(CAPACITY);
    if |surface| >= CAPACITY {
      var suffix := Utf8Suffix(surface, CAPACITY);
      var _ := kept.PushStr(suffix);
      assert [] + suffix == suffix;
    } else {
      var retained := Utf8Suffix(tail.AsStr(), CAPACITY - |surface|);
      var _ := kept.PushStr(retained);
      assert [] + retained == retained;
      var _ := kept.PushStr(surface);
    }
    truncated := true;
  }

  function Saturated(n: nat): u64 { if n > U64_MAX then U64_MAX else n }

  function NextGeneration(n: u64): u64 { if n == U64_MAX then n else n + 1 }

  class SessionSemanticContext {
    const ends: SentenceEnd
    var tail: FixedStr
    var contextGeneration: u64
    var sentenceGeneration: u64
    var commitCount: nat
    /** Every event of the session so far. */
    ghost var events: seq<Event>

    ghost function Past(): History
      reads this
    {
      Run(events, ends)
    }

    /** The bounded fields are what the whole history determines. */
    ghost predicate Valid()
      reads this, tail, tail.buf
    {
      && tail.Valid() && tail.buf.Length == CAPACITY
      && tail.AsStr() == Tail(Past().committed, CAPACITY)
      && commitCount == (if Past().commits < MAX_COMMITS then Past().commits else MAX_COMMITS)
      && contextGeneration == Saturated(1 + Past().advances)
      && sentenceGeneration == Saturated(1 + Past().sentences)
    }

    constructor (ends: SentenceEnd)
      ensures Valid() && fresh(tail) && fresh(tail.buf) && this.ends == ends && events == []
    {
      hide Tail, IsUtf8, Width;
      this.ends := ends;
      tail := new FixedStr(CAPACITY);
      contextGeneration, sentenceGeneration, commitCount, events := 1, 1, 0, [];
      new;
      TailOfShort([], CAPACITY);
    }

    lemma Extended(e: Event)
      ensures Run(events + [e], ends) == After(Run(events, ends), e, ends)
    {
      assert (events + [e])[..|events|] == events;
    }

    method Clear(reason: ClearReason, ghost e: Event) returns (r: Mutation)
      requires Valid() && Clears(e)
      modifies this, tail
      ensures Valid() && tail == old(tail) && events == old(events) + [e]
      ensures r == Cleared(reason) && tail.AsStr() == [] && commitCount == 0
    {
      hide Tail, Run, IsUtf8, Width;
      Extended(e);
      TailOfShort([], CAPACITY);
      tail.Reset();
      commitCount := 0;
      contextGeneration := NextGeneration(contextGeneration);
      sentenceGeneration := NextGeneration(sentenceGeneration);
      events := events + [e];
      r := Cleared(reason);
    }

    method ObserveScope(scope: InputScope, classified: bool, ghost e: Event) returns (r: Mutation)
      requires Valid()
      requires e == Observe(scope, classified) || (e.Commit? && Clears(e) && !Admits(scope, classified))
      modifies this, tail
      ensures Valid() && tail == old(tail) && events == old(events) + [e]
      ensures r == if Admits(scope, classified) then Retained
                   else Cleared(if !classified || scope == Unclassified then UnclassifiedScope else SensitiveScope)
      ensures r.Cleared? ==> tail.AsStr() == []
    {
      hide Tail, Run, IsUtf8, Width;
      if classified && scope == Normal {
        Extended(e);
        events := events + [e];
        return Retained;
      }
      r := Clear(if !classified || scope == Unclassified then UnclassifiedScope else SensitiveScope, e);
    }

    /** The retained text after an accepted commit. */
    lemma AppendedHistory(e: Event)
      requires Accepts(e)
      ensures var tail := Tail(Past().committed, CAPACITY);
              IsUtf8(Past().committed + e.surface)
              && Run(events + [e], ends).committed == Past().committed + e.surface
              && Tail(Past().committed + e.surface, CAPACITY) ==
                   if |tail| + |e.surface| <= CAPACITY then tail + e.surface
                   else if |e.surface| >= CAPACITY then Tail(e.surface, CAPACITY)
                   else Tail(tail, CAPACITY - |e.surface|) + e.surface
    {
      hide Tail, Run, IsUtf8;
      Extended(e);
      AppendKeepsTail(Past().committed, e.surface, CAPACITY);
    }

    /** append_definitive_commit */
    method AppendDefinitiveCommit(scope: InputScope, classified: bool, testOnly: bool, surface: Text)
      returns (r: Mutation)
      requires Valid()
      modifies this, tail, tail.buf
      ensures Valid() && (tail == old(tail) || (fresh(tail) && fresh(tail.buf)))
      ensures events == old(events) + [Commit(scope, classified, testOnly, surface)]
      ensures testOnly ==> r == RejectedTestOnly && unchanged(`contextGeneration, `sentenceGeneration, `commitCount)
      ensures testOnly ==> tail == old(tail) && unchanged(old(tail), old(tail.buf))
      ensures r.Appended? <==> Accepts(Commit(scope, classified, testOnly, surface))
      ensures r.Appended? ==> (r.truncated <==> tail.AsStr() != old(tail.AsStr()) + surface)
      ensures r.Appended? ==> r.sentenceBoundary == ends(surface)
      ensures r.Cleared? ==> tail.AsStr() == []
    {
      hide Tail, Run, IsUtf8, Width;
      ghost var e := Commit(scope, classified, testOnly, surface);
      Extended(e);
      if testOnly {
        events := events + [e];
        return RejectedTestOnly;
      }
      if !classified || scope != Normal {
        r := ObserveScope(scope, classified, e);
        return;
      }
      if surface == [] {
        events := events + [e];
        return RejectedEmpty;
      }
      AppendedHistory(e);
      var truncated;
      tail, truncated := AppendUtf8Tail(tail, surface);
      contextGeneration := NextGeneration(contextGeneration);
      commitCount := if commitCount + 1 < MAX_COMMITS then commitCount + 1 else MAX_COMMITS;
      var sentenceBoundary := ends(surface);
      if sentenceBoundary {
        sentenceGeneration := NextGeneration(sentenceGeneration);
      }
      events := events + [e];
      r := Appended(truncated, sentenceBoundary);
    }

    /** What a reader of the fields can rely on after any run. */
    lemma GenerationsOrdered()
      requires Valid()
      ensures 1 <= sentenceGeneration <= contextGeneration
    {
      SentencesWithinAdvances(events, ends);
    }
  }

  /** Any run of any events ends in the state its history determines. */
  method Replay(events: seq<Event>, ends: SentenceEnd) returns (context: SessionSemanticContext)
    ensures context.Valid() && context.events == events && context.ends == ends
    ensures context.tail.AsStr() == Tail(Run(events, ends).committed, CAPACITY)
    ensures context.sentenceGeneration <= context.contextGeneration
  {
    hide Tail, Run, IsUtf8, Width;
    context := new SessionSemanticContext(ends);
    for i := 0 to |events|
      invariant context.Valid() && fresh(context) && fresh(context.tail) && fresh(context.tail.buf)
      invariant context.ends == ends && context.events == events[..i]
    {
      var e := events[i];
      match e {
        case Observe(scope, classified) => var _ := context.ObserveScope(scope, classified, e);
        case Commit(scope, classified, testOnly, surface) =>
          var _ := context.AppendDefinitiveCommit(scope, classified, testOnly, surface);
        case Clear(reason) => var _ := context.Clear(reason, e);
      }
      assert events[..i + 1] == events[..i] + [e];
    }
    assert events[..|events|] == events;
    context.GenerationsOrdered();
  }
}
