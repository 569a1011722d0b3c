/** The NODE and ENTR tables of an image (the second half of flatten_trie and
    write_entry), written in level order. */
module NodeTable {
  import opened Wrappers
  import opened Sequences
  import opened Wire
  import opened Trie
  import opened Louds
  import opened Utf8

  datatype SourceEntry = SourceEntry(reading: string, surface: Text, leftId: u16, rightId: u16,
                                     wordCost: i32, predictionCost: i32, flags: u16, annotation: string)

  /** An entry as readers of the image see it. */
  datatype Entry = Entry(surfaceId: u32, leftId: u16, rightId: u16,
                         wordCost: i32, predictionCost: i32, flags: u16)

  datatype Error = MissingSurface | WordCostRange | PredictionRange | PredictionSentinel
                 | IndexOverflow | CountOverflow | UnreachableNodes | LostEntries

  function Readings(source: seq<SourceEntry>): (r: seq<string>)
    ensures |r| == |source| && forall i :: 0 <= i < |r| ==> r[i] == source[i].reading
  {
    seq(|source|, i requires 0 <= i < |source| => source[i].reading)
  }

  /** write_entry: what of an entry is stored, `prediction` still with its sentinel. */
  datatype EntryRecord = EntryRecord(surfaceId: u32, leftId: u16, rightId: u16,
                                     wordCost: u16, prediction: u16, flags: u16)

  function EncodeEntry(e: SourceEntry, ids: map<Text, u32>): Result<EntryRecord, Error> {
    if e.surface !in ids then Err(MissingSurface)
    else if !(0 <= e.wordCost <= U16_MAX) then Err(WordCostRange)
    else if e.predictionCost != I32_MAX && !(0 <= e.predictionCost <= U16_MAX) then Err(PredictionRange)
    else if e.predictionCost == U16_MAX then Err(PredictionSentinel)
    else
      var prediction := if e.predictionCost == I32_MAX then U16_MAX else e.predictionCost;
      Ok(EntryRecord(ids[e.surface], e.leftId, e.rightId, e.wordCost, prediction, e.flags))
  }

  /** The reader's view of a stored entry. */
  function DecodeEntry(r: EntryRecord): Entry {
    Entry(r.surfaceId, r.leftId, r.rightId, r.wordCost,
          if r.prediction == U16_MAX then I32_MAX else r.prediction, r.flags)
  }

  /** What a stored entry must read back as. */
  function Stored(e: SourceEntry, ids: map<Text, u32>): Entry
    requires e.surface in ids
  {
    Entry(ids[e.surface], e.leftId, e.rightId, e.wordCost, e.predictionCost, e.flags)
  }

  /** Exactly the entries in range can be stored, and then nothing of them is
      lost: the unavailable prediction cost survives its 16-bit sentinel. */
  lemma EntryRoundTrip(e: SourceEntry, ids: map<Text, u32>)
    ensures var r := EncodeEntry(e, ids);
            && (r.Ok? <==> e.surface in ids && 0 <= e.wordCost <= U16_MAX
                           && (e.predictionCost == I32_MAX || 0 <= e.predictionCost < U16_MAX))
            && (r.Ok? ==> DecodeEntry(r.value) == Stored(e, ids))
  {
  }

  /** One node as readers see it. */
  datatype NodeRecord = NodeRecord(firstChild: nat, childCount: nat, valueCount: nat, valueStart: nat, scalar: nat)

  predicate Fits(r: NodeRecord) {
    r.firstChild <= U32_MAX && r.childCount <= U16_MAX && r.valueCount <= U16_MAX
    && r.valueStart <= U32_MAX && r.scalar <= U32_MAX
  }

  /** The source entries in the order the tables hold them. */
  function Emitted(nodes: seq<Node>, order: seq<Visit>, j: nat): seq<nat>
    requires InArena(nodes, order) && j <= |order|
  {
    if j == 0 then [] else Emitted(nodes, order, j - 1) + nodes[order[j - 1].node].entries
  }

  /** The record of the j-th visited node. */
  function RecordAt(nodes: seq<Node>, order: seq<Visit>, j: nat): NodeRecord
    requires InArena(nodes, order) && j < |order|
  {
    NodeRecord(if Degree(nodes, order[j]) == 0 then 0 else FirstChild(nodes, order, j),
               Degree(nodes, order[j]), |nodes[order[j].node].entries|,
               |Emitted(nodes, order, j)|, order[j].key as int)
  }

  function Records(nodes: seq<Node>, order: seq<Visit>, j: nat): (r: seq<NodeRecord>)
    requires InArena(nodes, order) && j <= |order|
    ensures |r| == j && forall i :: 0 <= i < j ==> r[i] == RecordAt(nodes, order, i)
  {
    seq(j, i requires 0 <= i < j => RecordAt(nodes, order, i))
  }

  ghost predicate IsEntryTable(table: seq<EntryRecord>, emitted: seq<nat>, source: seq<SourceEntry>, ids: map<Text, u32>) {
    && |table| == |emitted|
    && (forall k :: 0 <= k < |table| ==> emitted[k] < |source| && EncodeEntry(source[emitted[k]], ids) == Ok(table[k]))
  }

  datatype Image = Image(nodes: seq<NodeRecord>, entries: seq<EntryRecord>, bits: seq<bool>, ordinals: seq<nat>)

  /** Everything an image says about the trie it was made from. */
  ghost predicate Describes(image: Image, nodes: seq<Node>, order: seq<Visit>,
                            source: seq<SourceEntry>, ids: map<Text, u32>)
    requires InArena(nodes, order)
  {
    var emitted := Emitted(nodes, order, |order|);
    && image.nodes == Records(nodes, order, |order|)
    && IsEntryTable(image.entries, emitted, source, ids)
    && image.bits == Bits(nodes, order, |order|)
    && (forall j :: 0 <= j < |order| ==> Fits(RecordAt(nodes, order, j)))
    && IsPermutation(emitted, |source|)
    && |image.ordinals| == |source|
    && (forall p :: 0 <= p < |emitted| ==> image.ordinals[emitted[p]] == p)
  }

  /** What the format can hold. */
  ghost predicate Representable(nodes: seq<Node>, order: seq<Visit>, source: seq<SourceEntry>, ids: map<Text, u32>)
    requires InArena(nodes, order)
  {
    && (forall j :: 0 <= j < |order| ==> Fits(RecordAt(nodes, order, j)))
    && |Bits(nodes, order, |order|)| <= U32_MAX
    && (forall i :: 0 <= i < |source| ==> EncodeEntry(source[i], ids).Ok?)
  }

  lemma {:induction false} EmittedPrefix(nodes: seq<Node>, order: seq<Visit>, i: nat, j: nat)
    requires InArena(nodes, order) && i <= j <= |order|
    ensures Emitted(nodes, order, i) <= Emitted(nodes, order, j)
    decreases j
  {
    if i < j { EmittedPrefix(nodes, order, i, j - 1); }
  }

  /** The reading of an emitted entry is the path of an already visited node. */
  ghost predicate VisitedBefore(paths: seq<string>, order: seq<Visit>, j: nat, s: string)
    requires j <= |order|
  {
    exists k :: 0 <= k < j && order[k].node < |paths| && paths[order[k].node] == s
  }

  lemma {:induction false} EmittedDistinct(nodes: seq<Node>, paths: seq<string>, order: seq<Visit>,
                                           readings: seq<string>, j: nat)
    requires Indexes(nodes, paths, readings) && IsLevelOrder(nodes, paths, order) && j <= |order|
    ensures Distinct(Emitted(nodes, order, j))
    ensures forall i :: i in Emitted(nodes, order, j) ==>
      i < |readings| && VisitedBefore(paths, order, j, readings[i])
  {
    hide IsTrie, IsLevelOrder, Indexes, Homophones, VisitedBefore, IsPermutation;
    if j > 0 {
      EmittedDistinct(nodes, paths, order, readings, j - 1);
      VisitFacts(nodes, paths, order, readings, j - 1);
      NewPath(paths, order, |nodes|, j - 1);
      EmitGroup(paths, order, readings, Emitted(nodes, order, j - 1), j - 1);
    }
  }

  lemma VisitFacts(nodes: seq<Node>, paths: seq<string>, order: seq<Visit>, readings: seq<string>, j: nat)
    requires Indexes(nodes, paths, readings) && IsLevelOrder(nodes, paths, order) && j < |order|
    ensures InArena(nodes, order) && Distinct(paths) && |paths| == |nodes| && IsPermutation(Arena(order), |nodes|)
    ensures nodes[order[j].node].entries == Homophones(readings, paths[order[j].node])
  {
    hide EdgesFollow, HasParent, ChildrenAt, FirstChild, Homophones, StartsSome, IsPermutation;
  }

  /** No two visits carry one path. */
  lemma NewPath(paths: seq<string>, order: seq<Visit>, count: nat, j: nat)
    requires Distinct(paths) && |paths| == count && IsPermutation(Arena(order), count) && j < |order|
    ensures order[j].node < |paths| && !VisitedBefore(paths, order, j, paths[order[j].node])
  {
    assert Arena(order)[j] in Arena(order);
    forall k | 0 <= k < j && order[k].node < |paths| ensures paths[order[k].node] != paths[order[j].node] {
      assert Arena(order)[k] != Arena(order)[j];
    }
  }

  /** The entries of one more visit. */
  lemma EmitGroup(paths: seq<string>, order: seq<Visit>, readings: seq<string>, before: seq<nat>, j: nat)
    requires j < |order| && order[j].node < |paths| && Distinct(before)
    requires forall i :: i in before ==> i < |readings| && VisitedBefore(paths, order, j, readings[i])
    requires !VisitedBefore(paths, order, j, paths[order[j].node])
    ensures var all := before + Homophones(readings, paths[order[j].node]);
            && Distinct(all)
            && forall i :: i in all ==> i < |readings| && VisitedBefore(paths, order, j + 1, readings[i])
  {
    var here := Homophones(readings, paths[order[j].node]);
    DistinctAppend(before, here);
    forall i | i in before + here ensures i < |readings| && VisitedBefore(paths, order, j + 1, readings[i]) {
      if i in before {
        var k :| 0 <= k < j && order[k].node < |paths| && paths[order[k].node] == readings[i];
        assert order[k].node < |paths| && paths[order[k].node] == readings[i];
      } else {
        assert i in here && readings[i] == paths[order[j].node];
      }
    }
  }

  /** No source entry is lost and none is written twice. */
  lemma EmittedIsPermutation(nodes: seq<Node>, paths: seq<string>, order: seq<Visit>, readings: seq<string>)
    requires Indexes(nodes, paths, readings) && IsLevelOrder(nodes, paths, order)
    ensures IsPermutation(Emitted(nodes, order, |order|), |readings|)
  {
    var all := Emitted(nodes, order, |order|);
    EmittedDistinct(nodes, paths, order, readings, |order|);
    forall i: nat | i < |readings| ensures i in all {
      EmittedSomewhere(nodes, paths, order, readings, i);
    }
    Pigeonhole(all, |readings|);
  }

  lemma EmittedSomewhere(nodes: seq<Node>, paths: seq<string>, order: seq<Visit>, readings: seq<string>, i: nat)
    requires Indexes(nodes, paths, readings) && IsLevelOrder(nodes, paths, order) && i < |readings|
    ensures i in Emitted(nodes, order, |order|)
  {
    assert readings[i] in paths;
    var m: nat :| m < |paths| && paths[m] == readings[i];
    assert m in Arena(order);
    var j :| 0 <= j < |order| && Arena(order)[j] == m;
    assert nodes[m].entries == Homophones(readings, paths[m]);
    EmittedAt(nodes, order, i, j);
  }

  lemma EmittedAt(nodes: seq<Node>, order: seq<Visit>, i: nat, j: nat)
    requires InArena(nodes, order) && j < |order| && i in nodes[order[j].node].entries
    ensures i in Emitted(nodes, order, |order|)
  {
    assert i in Emitted(nodes, order, j + 1);
    EmittedPrefix(nodes, order, j + 1, |order|);
  }

  /** The records of one node's entries, in their order. */
  method WriteEntries(group: seq<nat>, source: seq<SourceEntry>, ids: map<Text, u32>)
    returns (r: Result<seq<EntryRecord>, Error>)
    requires forall i :: i in group ==> i < |source|
    ensures r.Ok? ==> IsEntryTable(r.value, group, source, ids)
    ensures r.Ok? <==> forall i :: i in group ==> EncodeEntry(source[i], ids).Ok?
  {
    var out := [];
    for k := 0 to |group|
      invariant IsEntryTable(out, group[..k], source, ids)
      invariant forall i :: 0 <= i < k ==> EncodeEntry(source[group[i]], ids).Ok?
    {
      assert group[k] in group;
      var record := EncodeEntry(source[group[k]], ids);
      if record.Err? {
        return Err(record.error);
      }
      out := out + [record.value];
    }
    r := Ok(out);
  }

  /** Arena index to table index. */
  method Renumber(count: nat, bfs: seq<Visit>) returns (oldToNew: seq<nat>)
    requires IsPermutation(Arena(bfs), count)
    ensures |oldToNew| == count
    ensures forall i :: 0 <= i < |bfs| ==> bfs[i].node < count && oldToNew[bfs[i].node] == i
  {
    assert forall i :: 0 <= i < |bfs| ==> Arena(bfs)[i] in Arena(bfs);
    oldToNew := seq(count, _ => 0);
    for k := 0 to |bfs|
      invariant |oldToNew| == count
      invariant forall i :: 0 <= i < k ==> oldToNew[bfs[i].node] == i
    {
      assert forall i :: 0 <= i < k ==> Arena(bfs)[i] != Arena(bfs)[k];
      oldToNew := oldToNew[bfs[k].node := k];
    }
  }

  /** Gives the entries of one node their image ordinals. */
  method PlaceEntries(ordinals: seq<nat>, group: seq<nat>, start: nat, ghost all: seq<nat>)
    returns (placed: seq<nat>)
    requires IsPermutation(all, |ordinals|)
    requires start + |group| <= |all| && all[start..][..|group|] == group
    requires Placed(ordinals, all, start)
    ensures |placed| == |ordinals| && Placed(placed, all, start + |group|)
  {
    placed := ordinals;
    for k := 0 to |group|
      invariant |placed| == |ordinals| && Placed(placed, all, start + k)
    {
      assert group[k] == all[start..][k] == all[start + k];
      assert all[start + k] in all;
      placed := placed[group[k] := start + k];
    }
  }

  ghost predicate Placed(ordinals: seq<nat>, all: seq<nat>, n: nat) {
    forall p :: 0 <= p < n <= |all| ==> all[p] < |ordinals| && ordinals[all[p]] == p
  }

  /** The entries of node j stand at their value start. */
  lemma GroupInPlace(nodes: seq<Node>, order: seq<Visit>, j: nat)
    requires InArena(nodes, order) && j < |order|
    ensures var all, start, group := Emitted(nodes, order, |order|), |Emitted(nodes, order, j)|, nodes[order[j].node].entries;
            start + |group| <= |all| && all[start..][..|group|] == group
  {
    var all, before, group := Emitted(nodes, order, |order|), Emitted(nodes, order, j), nodes[order[j].node].entries;
    EmittedPrefix(nodes, order, j + 1, |order|);
    MiddleSlice(all, before, group);
    assert all[|before|..][..|group|] == all[|before|..|before| + |group|];
  }

  lemma GroupInRange(nodes: seq<Node>, order: seq<Visit>, j: nat, count: nat)
    requires InArena(nodes, order) && j < |order|
    requires IsPermutation(Emitted(nodes, order, |order|), count)
    ensures forall i :: i in nodes[order[j].node].entries ==> i < count
  {
    forall i | i in nodes[order[j].node].entries ensures i < count {
      EmittedAt(nodes, order, i, j);
    }
  }

  /** Where each arena node went. */
  ghost predicate IsRenumbering(oldToNew: seq<nat>, nodes: seq<Node>, order: seq<Visit>)
    requires InArena(nodes, order)
  {
    |oldToNew| == |nodes| && forall i :: 0 <= i < |order| ==> oldToNew[order[i].node] == i
  }

  ghost predicate AllGrouped(nodes: seq<Node>, order: seq<Visit>)
    requires InArena(nodes, order)
  {
    forall j :: 0 <= j < |order| ==> ChildrenAt(nodes, order, j)
  }

  lemma FirstChildRenumbered(nodes: seq<Node>, order: seq<Visit>, j: nat, oldToNew: seq<nat>)
    requires InArena(nodes, order) && j < |order| && ChildrenAt(nodes, order, j)
    requires IsRenumbering(oldToNew, nodes, order)
    requires nodes[order[j].node].edges != []
    ensures nodes[order[j].node].edges[0].child < |nodes|
    ensures oldToNew[nodes[order[j].node].edges[0].child] == FirstChild(nodes, order, j)
  {
    var first := FirstChild(nodes, order, j);
    assert order[first..first + Degree(nodes, order[j])][0] == order[first];
  }

  lemma AllEncodable(table: seq<EntryRecord>, emitted: seq<nat>, source: seq<SourceEntry>, ids: map<Text, u32>)
    requires IsEntryTable(table, emitted, source, ids) && IsPermutation(emitted, |source|)
    ensures forall i :: 0 <= i < |source| ==> EncodeEntry(source[i], ids).Ok?
  {
    forall i: nat | i < |source| ensures EncodeEntry(source[i], ids).Ok? {
      assert i in emitted;
      var k :| 0 <= k < |emitted| && emitted[k] == i;
    }
  }

  /** The NODE record of one node, its first child looked up in the renumbering,
      and the records of its entries. */
  method EncodeNode(nodes: seq<Node>, bfs: seq<Visit>, j: nat, oldToNew: seq<nat>, emitted: nat,
                    source: seq<SourceEntry>, ids: map<Text, u32>)
    returns (r: Result<(NodeRecord, seq<EntryRecord>), Error>)
    requires InArena(nodes, bfs) && j < |bfs| && ChildrenAt(nodes, bfs, j)
    requires IsRenumbering(oldToNew, nodes, bfs)
    requires emitted == |Emitted(nodes, bfs, j)|
    requires forall i :: i in nodes[bfs[j].node].entries ==> i < |source|
    ensures r.Ok? ==> r.value.0 == RecordAt(nodes, bfs, j)
                      && IsEntryTable(r.value.1, nodes[bfs[j].node].entries, source, ids)
    ensures r.Ok? <==> Fits(RecordAt(nodes, bfs, j))
                       && forall i :: i in nodes[bfs[j].node].entries ==> EncodeEntry(source[i], ids).Ok?
  {
    var node := nodes[bfs[j].node];
    if node.edges != [] { FirstChildRenumbered(nodes, bfs, j, oldToNew); }
    var firstChild := if node.edges == [] then 0 else oldToNew[node.edges[0].child];
    var group :- WriteEntries(node.entries, source, ids);
    var record := NodeRecord(firstChild, |node.edges|, |node.entries|, emitted, bfs[j].key as int);
    if record.firstChild > U32_MAX || record.valueStart > U32_MAX {
      return Err(IndexOverflow);
    }
    if record.childCount > U16_MAX || record.valueCount > U16_MAX {
      return Err(CountOverflow);
    }
    r := Ok((record, group));
  }

  /** The tables after the first j nodes. */
  ghost predicate WrittenUpTo(nodes: seq<Node>, bfs: seq<Visit>, source: seq<SourceEntry>, ids: map<Text, u32>, j: nat,
                              table: seq<NodeRecord>, entries: seq<EntryRecord>, bits: seq<bool>)
    requires InArena(nodes, bfs) && j <= |bfs|
  {
    && table == Records(nodes, bfs, j)
    && IsEntryTable(entries, Emitted(nodes, bfs, j), source, ids)
    && bits == Bits(nodes, bfs, j)
    && forall i :: 0 <= i < j ==> Fits(RecordAt(nodes, bfs, i))
  }

  lemma NothingWritten(nodes: seq<Node>, bfs: seq<Visit>, source: seq<SourceEntry>, ids: map<Text, u32>, ordinals: seq<nat>)
    requires InArena(nodes, bfs)
    ensures WrittenUpTo(nodes, bfs, source, ids, 0, [], [], []) && Emitted(nodes, bfs, 0) == []
    ensures Placed(ordinals, Emitted(nodes, bfs, |bfs|), 0)
  {}

  lemma OneMoreWritten(nodes: seq<Node>, bfs: seq<Visit>, source: seq<SourceEntry>, ids: map<Text, u32>, j: nat,
                       table: seq<NodeRecord>, entries: seq<EntryRecord>, bits: seq<bool>, group: seq<EntryRecord>)
    requires InArena(nodes, bfs) && j < |bfs| && WrittenUpTo(nodes, bfs, source, ids, j, table, entries, bits)
    requires Fits(RecordAt(nodes, bfs, j)) && IsEntryTable(group, nodes[bfs[j].node].entries, source, ids)
    ensures WrittenUpTo(nodes, bfs, source, ids, j + 1, table + [RecordAt(nodes, bfs, j)], entries + group,
                        bits + Trues(Degree(nodes, bfs[j])) + [false])
    ensures |Emitted(nodes, bfs, j + 1)| == |Emitted(nodes, bfs, j)| + |nodes[bfs[j].node].entries|
  {
    hide EncodeEntry, RecordAt, Fits, Trues;
    JoinedEntryTable(entries, Emitted(nodes, bfs, j), group, nodes[bfs[j].node].entries, source, ids);
  }

  lemma JoinedEntryTable(a: seq<EntryRecord>, inA: seq<nat>, b: seq<EntryRecord>, inB: seq<nat>,
                         source: seq<SourceEntry>, ids: map<Text, u32>)
    requires IsEntryTable(a, inA, source, ids) && IsEntryTable(b, inB, source, ids)
    ensures IsEntryTable(a + b, inA + inB, source, ids)
  {
    hide EncodeEntry;
  }

  lemma NodeUnfit(nodes: seq<Node>, bfs: seq<Visit>, source: seq<SourceEntry>, ids: map<Text, u32>, j: nat)
    requires InArena(nodes, bfs) && j < |bfs| && forall i :: i in nodes[bfs[j].node].entries ==> i < |source|
    requires !(Fits(RecordAt(nodes, bfs, j))
               && forall i :: i in nodes[bfs[j].node].entries ==> EncodeEntry(source[i], ids).Ok?)
    ensures !Representable(nodes, bfs, source, ids)
  {
    hide EncodeEntry, RecordAt, Fits;
  }

  lemma AllWritten(nodes: seq<Node>, bfs: seq<Visit>, source: seq<SourceEntry>, ids: map<Text, u32>,
                   table: seq<NodeRecord>, entries: seq<EntryRecord>, bits: seq<bool>, ordinals: seq<nat>)
    requires InArena(nodes, bfs) && WrittenUpTo(nodes, bfs, source, ids, |bfs|, table, entries, bits)
    requires IsPermutation(Emitted(nodes, bfs, |bfs|), |source|) && |ordinals| == |source|
    requires Placed(ordinals, Emitted(nodes, bfs, |bfs|), |Emitted(nodes, bfs, |bfs|)|)
    ensures Describes(Image(table, entries, bits, ordinals), nodes, bfs, source, ids)
    ensures Representable(nodes, bfs, source, ids) <==> |bits| <= U32_MAX
  {
    hide EncodeEntry, RecordAt, Fits, IsPermutation, Records, Bits;
    AllEncodable(entries, Emitted(nodes, bfs, |bfs|), source, ids);
  }

  lemma VisitInArena(nodes: seq<Node>, bfs: seq<Visit>, j: nat)
    requires InArena(nodes, bfs) && j < |bfs|
    ensures bfs[j].node < |nodes| && Degree(nodes, bfs[j]) == |nodes[bfs[j].node].edges|
    ensures AllGrouped(nodes, bfs) ==> ChildrenAt(nodes, bfs, j)
  {}

  lemma PermutationLength(s: seq<nat>, n: nat)
    requires IsPermutation(s, n)
    ensures |s| == n
  {}

  /** The loop over the nodes in level order. */
  method WriteNodes(nodes: seq<Node>, bfs: seq<Visit>, oldToNew: seq<nat>, source: seq<SourceEntry>, ids: map<Text, u32>)
    returns (r: Result<Image, Error>, emitted: nat)
    requires InArena(nodes, bfs) && AllGrouped(nodes, bfs)
    requires IsRenumbering(oldToNew, nodes, bfs)
    requires IsPermutation(Emitted(nodes, bfs, |bfs|), |source|)
    ensures r.Ok? ==> emitted == |Emitted(nodes, bfs, |bfs|)| && |r.value.ordinals| == |source|
                      && WrittenUpTo(nodes, bfs, source, ids, |bfs|, r.value.nodes, r.value.entries, r.value.bits)
                      && Placed(r.value.ordinals, Emitted(nodes, bfs, |bfs|), emitted)
    ensures r.Err? ==> !Representable(nodes, bfs, source, ids)
  {
    ghost var all := Emitted(nodes, bfs, |bfs|);
    var table, entries: seq<EntryRecord>, bits: seq<bool> := [], [], [];
    var ordinals := seq(|source|, _ => 0);
    emitted := 0;
    NothingWritten(nodes, bfs, source, ids, ordinals);
    hide *;
    for j := 0 to |bfs|
      invariant WrittenUpTo(nodes, bfs, source, ids, j, table, entries, bits)
      invariant emitted == |Emitted(nodes, bfs, j)| && |ordinals| == |source| && Placed(ordinals, all, emitted)
    {
      VisitInArena(nodes, bfs, j);
      var node := nodes[bfs[j].node];
      GroupInPlace(nodes, bfs, j);
      GroupInRange(nodes, bfs, j, |source|);
      var encoded := EncodeNode(nodes, bfs, j, oldToNew, emitted, source, ids);
      if encoded.Err? {
        NodeUnfit(nodes, bfs, source, ids, j);
        return Err(encoded.error), emitted;
      }
      OneMoreWritten(nodes, bfs, source, ids, j, table, entries, bits, encoded.value.1);
      ordinals := PlaceEntries(ordinals, node.entries, emitted, all);
      table, entries := table + [encoded.value.0], entries + encoded.value.1;
      bits := bits + Trues(|node.edges|) + [false];
      emitted := emitted + |node.entries|;
    }
    r := Ok(Image(table, entries, bits, ordinals));
  }

  /** The tables, written node by node in level order. */
  method WriteTables(nodes: seq<Node>, bfs: seq<Visit>, oldToNew: seq<nat>,
                     source: seq<SourceEntry>, ids: map<Text, u32>)
    returns (r: Result<Image, Error>)
    requires InArena(nodes, bfs) && AllGrouped(nodes, bfs)
    requires IsRenumbering(oldToNew, nodes, bfs)
    requires IsPermutation(Emitted(nodes, bfs, |bfs|), |source|)
    ensures r.Ok? ==> Describes(r.value, nodes, bfs, source, ids)
    ensures r.Ok? <==> Representable(nodes, bfs, source, ids)
  {
    hide *;
    PermutationLength(Emitted(nodes, bfs, |bfs|), |source|);
    var written, emitted := WriteNodes(nodes, bfs, oldToNew, source, ids);
    if written.Err? { return Err(written.error); }
    var image := written.value;
    AllWritten(nodes, bfs, source, ids, image.nodes, image.entries, image.bits, image.ordinals);
    if emitted != |source| {
      return Err(LostEntries);
    }
    if |image.bits| > U32_MAX {
      return Err(IndexOverflow);
    }
    r := Ok(image);
  }

  /** flatten_trie. The level order of a trie is unique, so this fixes the tables. */
  method Flatten(nodes: seq<Node>, ghost paths: seq<string>, source: seq<SourceEntry>, ids: map<Text, u32>)
    returns (r: Result<Image, Error>)
    requires Indexes(nodes, paths, Readings(source))
    ensures exists order :: IsLevelOrder(nodes, paths, order)
    ensures forall order :: IsLevelOrder(nodes, paths, order) ==> (r.Ok? <==> Representable(nodes, order, source, ids))
    ensures forall order :: IsLevelOrder(nodes, paths, order) && r.Ok? ==> Describes(r.value, nodes, order, source, ids)
  {
    var bfs := BreadthFirst(nodes, paths);
    assert |Arena(bfs)| == |bfs|;
    forall order | IsLevelOrder(nodes, paths, order) ensures order == bfs {
      LevelOrderIsUnique(nodes, paths, order, bfs);
    }
    hide Representable, Describes;
    if |bfs| != |nodes| {
      return Err(UnreachableNodes);
    }
    EmittedIsPermutation(nodes, paths, bfs, Readings(source));
    var oldToNew := Renumber(|nodes|, bfs);
    r := WriteTables(nodes, bfs, oldToNew, source, ids);
  }
}
