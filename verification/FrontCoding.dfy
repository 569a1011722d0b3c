/** Front-coded surfaces: each record keeps the bytes after the prefix it shares
    with the record before it, with a full record at every restart. */
module FrontCoding {
  import opened Wrappers
  import opened Sequences
  import opened Wire
  import opened Utf8

  datatype BuildError = PrefixTooLong | SuffixTooLong | OffsetTooLong

  // ------------------------------------------------------------ shared prefix

  /** Both texts carry the same character at p. */
  predicate SameCharacter(a: Bytes, b: Bytes, p: nat) {
    && p < |a| && p < |b|
    && Width(a[p..]) > 0 && Width(b[p..]) == Width(a[p..])
    && a[p..p + Width(a[p..])] == b[p..p + Width(a[p..])]
  }

  function PrefixFrom(a: Bytes, b: Bytes, p: nat): (r: nat)
    requires p <= |a| && p <= |b|
    ensures p <= r <= |a| && r <= |b|
    decreases |a| - p
  {
    if SameCharacter(a, b, p) then PrefixFrom(a, b, p + Width(a[p..])) else p
  }

  function CommonPrefix(a: Bytes, b: Bytes): (r: nat)
    ensures r <= |a| && r <= |b|
  {
    PrefixFrom(a, b, 0)
  }

  /** common_prefix_bytes */
  method CommonPrefixBytes(a: Text, b: Text) returns (prefix: nat)
    ensures prefix == CommonPrefix(a, b)
  {
    prefix := 0;
    while SameCharacter(a, b, prefix)
      invariant prefix <= |a| && prefix <= |b| && PrefixFrom(a, b, 0) == PrefixFrom(a, b, prefix)
      decreases |a| - prefix
    {
      prefix := prefix + Width(a[prefix..]);
    }
  }

  lemma {:induction false} PrefixShared(a: Bytes, b: Bytes, p: nat)
    requires IsUtf8(a) && IsUtf8(b) && p <= |a| && p <= |b| && a[..p] == b[..p]
    requires IsBoundary(a, p) && IsBoundary(b, p)
    ensures var r := PrefixFrom(a, b, p); a[..r] == b[..r] && IsBoundary(a, r) && IsBoundary(b, r)
    decreases |a| - p
  {
    hide IsUtf8, Width;
    if SameCharacter(a, b, p) {
      var q := p + Width(a[p..]);
      CharacterEnds(a, p);
      CharacterEnds(b, p);
      assert a[..q] == a[..p] + a[p..q] && b[..q] == b[..p] + b[p..q];
      PrefixShared(a, b, q);
    }
  }

  /** A character ends on a boundary. */
  lemma CharacterEnds(s: Bytes, p: nat)
    requires IsUtf8(s) && p < |s| && IsBoundary(s, p)
    ensures var q := p + Width(s[p..]); q <= |s| && Width(s[p..]) > 0 && IsBoundary(s, q)
  {
    Cut(s, p);
    var q := p + Width(s[p..]);
    assert s[p..][Width(s[p..])..] == s[q..];
    Cut(s, q);
  }

  /** The shared prefix is the longest one ending on a boundary of both texts. */
  lemma {:induction false} PrefixIsLongest(a: Bytes, b: Bytes, p: nat, other: nat)
    requires IsUtf8(a) && IsUtf8(b) && p <= other <= |a| && other <= |b| && a[..other] == b[..other]
    requires IsBoundary(a, p) && IsBoundary(b, p) && IsBoundary(a, other) && IsBoundary(b, other)
    ensures other <= PrefixFrom(a, b, p)
    decreases |a| - p
  {
    hide IsUtf8, Width, IsBoundary;
    if p < other {
      SameInside(a, b, p, other);
      CharacterEnds(a, p);
      CharacterEnds(b, p);
      PrefixIsLongest(a, b, p + Width(a[p..]), other);
    }
  }

  lemma SharedSlice(a: Bytes, b: Bytes, n: nat, i: nat, j: nat)
    requires i <= j <= n <= |a| && n <= |b| && a[..n] == b[..n]
    ensures a[i..j] == b[i..j]
  {
    assert a[i..j] == a[..n][i..j];
    assert b[i..j] == b[..n][i..j];
  }

  lemma SameInside(a: Bytes, b: Bytes, p: nat, other: nat)
    requires IsUtf8(a) && IsUtf8(b) && p < other <= |a| && other <= |b| && a[..other] == b[..other]
    requires IsBoundary(a, p) && IsBoundary(b, p) && IsBoundary(a, other) && IsBoundary(b, other)
    ensures SameCharacter(a, b, p) && p + Width(a[p..]) <= other
  {
    hide IsUtf8, Width;
    WidthReaches(a, p, other);
    WidthReaches(b, p, other);
    var w := Width(a[p..other]);
    SharedSlice(a, b, other, p, other);
    SharedSlice(a, b, other, p, p + w);
  }

  lemma FirstWidth(s: Bytes)
    requires IsUtf8(s) && s != []
    ensures Width(s) > 0
  {}

  lemma Middle(s: Bytes, p: nat, other: nat)
    requires p < other <= |s|
    ensures s[p..][..other - p] == s[p..other]
    ensures s[p..other] + s[other..] == s[p..]
    ensures IsBoundary(s, other) ==> IsBoundary(s[p..], other - p)
  {
    assert other < |s| ==> s[p..][other - p] == s[other];
  }

  /** A character cut off behind is the same character. */
  lemma WidthReaches(s: Bytes, p: nat, other: nat)
    requires IsUtf8(s) && p < other <= |s| && IsBoundary(s, p) && IsBoundary(s, other)
    ensures Width(s[p..other]) > 0 && Width(s[p..]) == Width(s[p..other]) && p + Width(s[p..other]) <= other
  {
    hide Width, IsUtf8, IsBoundary;
    Middle(s, p, other);
    Cut(s, p);
    Cut(s[p..], other - p);
    FirstWidth(s[p..other]);
    WidthOfPrefix(s[p..other], s[other..]);
  }

  // ---------------------------------------------------------------- encoding

  predicate IsRestart(interval: nat, k: nat)
    requires interval > 0
  {
    k % interval == 0
  }

  lemma Multiple(d: nat, m: nat)
    requires m >= 1
    ensures d * m >= d
  {}

  lemma DivisionUnique(n: nat, d: nat, q: nat, r: nat)
    requires d > 0 && r < d && n == d * q + r
    ensures n / d == q && n % d == r
  {
    var p, s := n / d, n % d;
    var more := p - q;
    assert d * more == d * p - d * q == r - s;
    if more > 0 {
      Multiple(d, more);
    } else if more < 0 {
      assert d * -more == -(d * more);
      Multiple(d, -more);
    }
  }

  /** The restart at or before a value. */
  function RestartBefore(interval: nat, id: nat): (r: nat)
    requires interval > 0
    ensures r <= id < r + interval && IsRestart(interval, r) && r == r / interval * interval
  {
    DivisionUnique(id - id % interval, interval, id / interval, 0);
    id - id % interval
  }

  function PrefixLength(values: seq<Text>, interval: nat, k: nat): (r: nat)
    requires interval > 0 && k < |values|
    ensures r <= |values[k]|
  {
    if IsRestart(interval, k) then 0 else CommonPrefix(values[k - 1], values[k])
  }

  function Suffix(values: seq<Text>, interval: nat, k: nat): Bytes
    requires interval > 0 && k < |values|
  {
    values[k][PrefixLength(values, interval, k)..]
  }

  function RecordBytes(values: seq<Text>, interval: nat, k: nat): Bytes
    requires interval > 0 && k < |values|
  {
    ToLe(PrefixLength(values, interval, k), 2) + (ToLe(|Suffix(values, interval, k)|, 2) + Suffix(values, interval, k))
  }

  /** The records of the first n values. */
  function Data(values: seq<Text>, interval: nat, n: nat): Bytes
    requires interval > 0 && n <= |values|
  {
    if n == 0 then [] else Data(values, interval, n - 1) + RecordBytes(values, interval, n - 1)
  }

  /** Where each restart among the first n values begins. */
  function Offsets(values: seq<Text>, interval: nat, n: nat): seq<nat>
    requires interval > 0 && n <= |values|
  {
    if n == 0 then []
    else Offsets(values, interval, n - 1) + if IsRestart(interval, n - 1) then [|Data(values, interval, n - 1)|] else []
  }

  /** What can go wrong with value k: the checks of one turn of the loop. */
  function CheckValue(values: seq<Text>, interval: nat, k: nat): Result<(), BuildError>
    requires interval > 0 && k < |values|
  {
    if IsRestart(interval, k) && |Data(values, interval, k)| > U32_MAX then Err(OffsetTooLong)
    else if PrefixLength(values, interval, k) > U16_MAX then Err(PrefixTooLong)
    else if |Suffix(values, interval, k)| > U16_MAX then Err(SuffixTooLong)
    else Ok(())
  }

  function OffsetBytes(offsets: seq<nat>): Bytes {
    if offsets == [] then [] else OffsetBytes(offsets[..|offsets| - 1]) + ToLe(offsets[|offsets| - 1], 4)
  }

  lemma OffsetsPush(offsets: seq<nat>, n: nat)
    ensures OffsetBytes(offsets + [n]) == OffsetBytes(offsets) + ToLe(n, 4)
  {
    assert (offsets + [n])[..|offsets|] == offsets;
  }

  lemma NoOffsets()
    ensures OffsetBytes([]) == []
  {}

  /** The shared prefix of value k, as the loop computes it. */
  method PrefixOf(values: seq<Text>, interval: nat, k: nat) returns (prefix: nat)
    requires interval > 0 && k < |values|
    ensures prefix == PrefixLength(values, interval, k)
  {
    prefix := 0;
    if k % interval != 0 {
      prefix := CommonPrefixBytes(values[k - 1], values[k]);
    }
  }

  ghost predicate AllFit(values: seq<Text>, interval: nat, n: nat)
    requires interval > 0 && n <= |values|
  {
    forall k :: 0 <= k < n ==> CheckValue(values, interval, k).Ok?
  }

  /** front_code */
  method FrontCode(values: seq<Text>, interval: nat) returns (r: Result<(Bytes, Bytes), BuildError>)
    requires interval > 0
    ensures r.Ok? <==> AllFit(values, interval, |values|)
    ensures r.Ok? ==> r.value == (OffsetBytes(Offsets(values, interval, |values|)), Data(values, interval, |values|))
    ensures r.Err? ==>
      exists k: nat :: k < |values| && AllFit(values, interval, k) && CheckValue(values, interval, k) == Err(r.error)
  {
    hide CommonPrefix, IsUtf8, ToLe, OffsetBytes, PrefixLength;
    var offsets: Bytes, data: Bytes := [], [];
    NoOffsets();
    for k := 0 to |values|
      invariant AllFit(values, interval, k)
      invariant offsets == OffsetBytes(Offsets(values, interval, k)) && data == Data(values, interval, k)
    {
      var restart := k % interval == 0;
      var prefix := PrefixOf(values, interval, k);
      var suffix := values[k][prefix..];
      var fits: Result<(), BuildError> :=
        if restart && |data| > U32_MAX then Err(OffsetTooLong)
        else if prefix > U16_MAX then Err(PrefixTooLong)
        else if |suffix| > U16_MAX then Err(SuffixTooLong)
        else Ok(());
      assert fits == CheckValue(values, interval, k);
      if fits.Err? { return Err(fits.error); }
      ghost var before := Offsets(values, interval, k);
      if restart {
        OffsetsPush(before, |data|);
        offsets := offsets + ToLe(|data|, 4);
      } else {
        assert before + [] == before;
      }
      data := data + (ToLe(prefix, 2) + (ToLe(|suffix|, 2) + suffix));
    }
    r := Ok((offsets, data));
  }

  // ---------------------------------------------------------------- decoding

  datatype ReadError = BadEntry | BadTable | BadUtf8 | TextOverflow

  /** One record at the cursor: the value it makes of the one before it, and
      where the next record begins. */
  function ReadRecord(data: Bytes, cursor: nat, value: Text, first: bool, capacity: nat): Result<(Text, nat), ReadError> {
    var size := Read(data, cursor + 2, 2);
    if size.None? || cursor + 4 + size.value > |data| then Err(BadTable)
    else
      var end := cursor + 4 + size.value;
      var prefix := Read(data[cursor..end], 0, 2);
      if prefix.None? || prefix.value > |value| || !IsBoundary(value, prefix.value) || (first && prefix.value != 0) then
        Err(BadTable)
      else if !IsUtf8(data[cursor + 4..end]) then Err(BadUtf8)
      else if prefix.value + |data[cursor + 4..end]| > capacity then Err(TextOverflow)
      else
        Cut(value, prefix.value);
        Concat(value[..prefix.value], data[cursor + 4..end]);
        Ok((value[..prefix.value] + data[cursor + 4..end], end))
  }

  /** The records from `index` up to the wanted one. */
  function ReadUpTo(data: Bytes, cursor: nat, value: Text, restart: nat, index: nat, wanted: nat, capacity: nat)
    : Result<Text, ReadError>
    requires index <= wanted
    decreases wanted - index
  {
    var step :- ReadRecord(data, cursor, value, index == restart, capacity);
    if index == wanted then Ok(step.0) else ReadUpTo(data, step.1, step.0, restart, index + 1, wanted, capacity)
  }

  /** The surface with this id, from the restart before it. */
  function Surface(offsets: Bytes, data: Bytes, count: nat, interval: nat, id: nat, capacity: nat): Result<Text, ReadError>
    requires interval > 0
  {
    if id >= count then Err(BadEntry)
    else
      var restart := RestartBefore(interval, id);
      match Read(offsets, 4 * (restart / interval), 4)
      case None => Err(BadTable)
      case Some(cursor) => ReadUpTo(data, cursor, EMPTY, restart, restart, id, capacity)
  }

  /** write_surface */
  method WriteSurface(offsets: Bytes, data: Bytes, count: nat, interval: nat, id: nat, capacity: nat)
    returns (r: Result<Text, ReadError>)
    requires interval > 0
    ensures r == Surface(offsets, data, count, interval, id, capacity)
  {
    hide ReadRecord, IsUtf8, Read;
    if id >= count { return Err(BadEntry); }
    var restart := RestartBefore(interval, id);
    var offset := Read(offsets, 4 * (restart / interval), 4);
    if offset.None? { return Err(BadTable); }
    var cursor, value, index := offset.value, EMPTY, restart;
    while true
      invariant restart <= index <= id
      invariant Surface(offsets, data, count, interval, id, capacity)
             == ReadUpTo(data, cursor, value, restart, index, id, capacity)
      decreases id - index
    {
      var step := ReadRecord(data, cursor, value, index == restart, capacity);
      if step.Err? { return Err(step.error); }
      value, cursor := step.value.0, step.value.1;
      if index == id { break; }
      index := index + 1;
    }
    r := Ok(value);
  }

  lemma {:induction false} DataGrows(values: seq<Text>, interval: nat, k: nat, n: nat)
    requires interval > 0 && k <= n <= |values|
    ensures |Data(values, interval, k)| <= |Data(values, interval, n)|
    ensures Data(values, interval, n)[..|Data(values, interval, k)|] == Data(values, interval, k)
    decreases n
  {
    hide RecordBytes;
    if k < n {
      DataGrows(values, interval, k, n - 1);
      var short, front := Data(values, interval, k), Data(values, interval, n - 1);
      assert Data(values, interval, n)[..|short|] == front[..|short|];
    } else {
      assert Data(values, interval, n)[..|Data(values, interval, n)|] == Data(values, interval, n);
    }
  }

  /** Record k stands between the data of k values and that of one more. */
  lemma RecordPlace(values: seq<Text>, interval: nat, k: nat, n: nat)
    requires interval > 0 && k < n <= |values|
    ensures var at, record := |Data(values, interval, k)|, RecordBytes(values, interval, k);
            && at + |record| == |Data(values, interval, k + 1)| <= |Data(values, interval, n)|
            && Data(values, interval, n)[at..at + |record|] == record
  {
    hide RecordBytes;
    DataGrows(values, interval, k + 1, n);
    MiddleSlice(Data(values, interval, n), Data(values, interval, k), RecordBytes(values, interval, k));
  }

  /** A record written at `at` reads back its prefix length and suffix. */
  lemma RecordReads(data: Bytes, at: nat, prefix: u16, suffix: Bytes)
    requires |suffix| <= U16_MAX && at + 4 + |suffix| <= |data|
    requires data[at..at + 4 + |suffix|] == ToLe(prefix, 2) + (ToLe(|suffix|, 2) + suffix)
    ensures Read(data, at + 2, 2) == Some(|suffix|)
    ensures Read(data[at..at + 4 + |suffix|], 0, 2) == Some(prefix)
    ensures data[at + 4..at + 4 + |suffix|] == suffix
  {
    hide ToLe;
    Radixes();
    var record := data[at..at + 4 + |suffix|];
    LeRoundTrip(prefix, 2);
    LeRoundTrip(|suffix|, 2);
    assert record[0..2] == ToLe(prefix, 2);
    assert record[2..4] == ToLe(|suffix|, 2);
    SliceOfSlice(data, at, at + 4 + |suffix|, 2, 4);
    SliceOfSlice(data, at, at + 4 + |suffix|, 4, 4 + |suffix|);
    assert record[4..4 + |suffix|] == suffix;
  }

  /** The value a reader holds before record k. */
  function Held(values: seq<Text>, restart: nat, k: nat): Text
    requires k <= |values|
  {
    if k == restart || k == 0 then EMPTY else values[k - 1]
  }

  lemma PrefixCuts(values: seq<Text>, interval: nat, restart: nat, k: nat)
    requires interval > 0 && restart <= k < |values| && IsRestart(interval, restart) && k - restart < interval
    ensures IsRestart(interval, k) <==> k == restart
    ensures var p := PrefixLength(values, interval, k);
            && p <= |Held(values, restart, k)| && IsBoundary(Held(values, restart, k), p)
            && Held(values, restart, k)[..p] == values[k][..p]
            && IsBoundary(values[k], p)
  {
    hide IsUtf8, Width;
    RestartInside(interval, restart, k);
    StartsText(values[k]);
    if k > restart {
      StartsText(values[k - 1]);
      PrefixShared(values[k - 1], values[k], 0);
    }
  }

  lemma StartsText(s: Text)
    ensures IsBoundary(s, 0)
  {}

  lemma RestartInside(interval: nat, restart: nat, k: nat)
    requires interval > 0 && restart <= k && restart % interval == 0 && k - restart < interval
    ensures k % interval == k - restart
  {
    var q := restart / interval;
    assert k == interval * q + (k - restart);
    DivisionUnique(k, interval, q, k - restart);
  }

  /** Reading record k turns the value before it into value k. */
  lemma RecordStep(values: seq<Text>, interval: nat, restart: nat, k: nat, capacity: nat)
    requires interval > 0 && restart <= k < |values| && IsRestart(interval, restart) && k - restart < interval
    requires CheckValue(values, interval, k).Ok?
    ensures ReadRecord(Data(values, interval, |values|), |Data(values, interval, k)|, Held(values, restart, k),
                       k == restart, capacity)
         == if |values[k]| <= capacity then Ok((values[k], |Data(values, interval, k + 1)|)) else Err(TextOverflow)
  {
    hide IsUtf8, Data, Held, CommonPrefix, ToLe, Read;
    var data, at := Data(values, interval, |values|), |Data(values, interval, k)|;
    var prefix, suffix := PrefixLength(values, interval, k), Suffix(values, interval, k);
    RecordPlace(values, interval, k, |values|);
    RecordReads(data, at, prefix, suffix);
    PrefixCuts(values, interval, restart, k);
    Cut(values[k], prefix);
    assert values[k] == values[k][..prefix] + suffix;
  }

  /** Reading on from record k yields the wanted value. */
  lemma {:induction false} ReadsOn(values: seq<Text>, interval: nat, restart: nat, k: nat, wanted: nat, capacity: nat)
    requires interval > 0 && restart <= k <= wanted < |values|
    requires IsRestart(interval, restart) && wanted - restart < interval
    requires AllFit(values, interval, |values|)
    ensures ReadUpTo(Data(values, interval, |values|), |Data(values, interval, k)|, Held(values, restart, k),
                     restart, k, wanted, capacity)
         == if FitBetween(values, k, wanted, capacity) then Ok(values[wanted]) else Err(TextOverflow)
    decreases wanted - k
  {
    hide Data, ReadRecord, CheckValue;
    RecordStep(values, interval, restart, k, capacity);
    if |values[k]| <= capacity && k < wanted {
      ReadsOn(values, interval, restart, k + 1, wanted, capacity);
    }
  }

  predicate FitBetween(values: seq<Text>, k: nat, wanted: nat, capacity: nat)
    requires wanted < |values|
  {
    forall i :: k <= i <= wanted ==> |values[i]| <= capacity
  }

  /** The offset pushed at restart r. */
  lemma OffsetPushed(values: seq<Text>, interval: nat, r: nat, n: nat)
    requires interval > 0 && n == r * interval < |values| && CheckValue(values, interval, n).Ok?
    ensures Read(OffsetBytes(Offsets(values, interval, n + 1)), 4 * r, 4) == Some(|Data(values, interval, n)|)
  {
    hide Data, OffsetBytes, Read, Ceiling, PrefixLength, Suffix;
    DivisionUnique(n, interval, r, 0);
    CeilingExact(interval, r);
    OffsetCount(values, interval, n);
    var front := Offsets(values, interval, n);
    OffsetsPush(front, |Data(values, interval, n)|);
    LastOffset(front, |Data(values, interval, n)|);
  }

  /** Restart number r stands at offset r of the table. */
  lemma {:induction false} OffsetPlace(values: seq<Text>, interval: nat, n: nat, restart: nat, r: nat)
    requires interval > 0 && n <= |values| && restart < n && restart == r * interval
    requires AllFit(values, interval, n)
    ensures Read(OffsetBytes(Offsets(values, interval, n)), 4 * r, 4) == Some(|Data(values, interval, restart)|)
    decreases n
  {
    hide Data, OffsetBytes, Read, CheckValue, ToLe, IsRestart;
    var front := Offsets(values, interval, n - 1);
    if restart == n - 1 {
      OffsetPushed(values, interval, r, n - 1);
    } else {
      OffsetPlace(values, interval, n - 1, restart, r);
      if IsRestart(interval, n - 1) {
        OffsetsPush(front, |Data(values, interval, n - 1)|);
        ReadPrefix(OffsetBytes(front), ToLe(|Data(values, interval, n - 1)|, 4), 4 * r, 4);
      } else {
        assert front + [] == front;
      }
    }
  }

  lemma LastOffset(front: seq<nat>, n: u32)
    ensures Read(OffsetBytes(front) + ToLe(n, 4), 4 * |front|, 4) == Some(n)
  {
    Radixes();
    OffsetsLength(front);
    ReadBack(OffsetBytes(front), n, 4, []);
    assert OffsetBytes(front) + ToLe(n, 4) + [] == OffsetBytes(front) + ToLe(n, 4);
  }

  lemma {:induction false} OffsetsLength(offsets: seq<nat>)
    ensures |OffsetBytes(offsets)| == 4 * |offsets|
    decreases |offsets|
  {
    if offsets != [] { OffsetsLength(offsets[..|offsets| - 1]); }
  }

  /** Restarts among the first n values. */
  function Ceiling(n: nat, interval: nat): nat
    requires interval > 0
  {
    if n % interval == 0 then n / interval else n / interval + 1
  }

  lemma CeilingExact(interval: nat, r: nat)
    requires interval > 0
    ensures 0 <= r * interval && Ceiling(r * interval, interval) == r
  {
    DivisionUnique(r * interval, interval, r, 0);
  }

  lemma CeilingSteps(n: nat, interval: nat)
    requires interval > 0
    ensures Ceiling(n + 1, interval) == Ceiling(n, interval) + if n % interval == 0 then 1 else 0
  {
    NextQuotient(n, interval);
  }

  lemma NextQuotient(n: nat, interval: nat)
    requires interval > 0
    ensures var q, r := n / interval, n % interval;
            if r + 1 == interval then (n + 1) / interval == q + 1 && (n + 1) % interval == 0
            else (n + 1) / interval == q && (n + 1) % interval == r + 1
  {
    var q, r := n / interval, n % interval;
    assert n == interval * q + r;
    if r + 1 == interval {
      assert n + 1 == interval * (q + 1) + 0;
      DivisionUnique(n + 1, interval, q + 1, 0);
    } else {
      DivisionUnique(n + 1, interval, q, r + 1);
    }
  }

  lemma {:induction false} OffsetCount(values: seq<Text>, interval: nat, n: nat)
    requires interval > 0 && n <= |values|
    ensures |Offsets(values, interval, n)| == Ceiling(n, interval)
    decreases n
  {
    hide Ceiling, Data;
    if n == 0 {
      CeilingExact(interval, 0);
    } else {
      OffsetCount(values, interval, n - 1);
      CeilingSteps(n - 1, interval);
    }
  }

  /** Every surface reads back from its restart, for every restart interval. The
      reader fails exactly when some surface from that restart on up to the
      wanted one is longer than its buffer. */
  lemma SurfacesReadBack(values: seq<Text>, interval: nat, id: nat, capacity: nat)
    requires interval > 0 && AllFit(values, interval, |values|)
    ensures Surface(OffsetBytes(Offsets(values, interval, |values|)), Data(values, interval, |values|), |values|,
                    interval, id, capacity)
         == if id >= |values| then Err(BadEntry)
            else if FitBetween(values, RestartBefore(interval, id), id, capacity) then Ok(values[id])
            else Err(TextOverflow)
  {
    hide Data, OffsetBytes, Offsets, Read, ReadUpTo, AllFit, IsUtf8, FitBetween, IsRestart, RestartBefore;
    if id < |values| {
      var restart := RestartBefore(interval, id);
      OffsetPlace(values, interval, |values|, restart, restart / interval);
      ReadsOn(values, interval, restart, restart, id, capacity);
    }
  }
}
