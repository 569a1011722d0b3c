/** The runtime reader of the NODE and ENTR bytes: child search by label and
    common prefix search, against what the compiled entries say. */
module Lookup {
  import opened Wrappers
  import opened Sequences
  import opened Wire
  import opened Trie
  import opened Louds
  import opened NodeTable
  import opened ImageBytes
  import opened Utf8

  datatype ReadError = BadTree | BadEntry

  /** A visited entry: bytes of the reading consumed, image ordinal, entry. */
  datatype Hit = Hit(matchedBytes: nat, entryIndex: nat, entry: Entry)

  function Utf8Width(c: char): nat {
    var n := c as int;
    if n < 0x80 then 1 else if n < 0x800 then 2 else if n < 0x1_0000 then 3 else 4
  }

  function Utf8Length(s: string): nat {
    if s == "" then 0 else Utf8Length(s[..|s| - 1]) + Utf8Width(s[|s| - 1])
  }

  /** What the reader holds: the bytes of both tables and their counts. */
  datatype Tables = Tables(nodes: seq<byte>, nodeCount: nat, entries: seq<byte>, entryCount: nat)

  function TablesOf(image: Image): Tables {
    Tables(NodeBytes(image.nodes), |image.nodes|, EntryBytes(image.entries), |image.entries|)
  }

  /** The bytes of these node records, all of which fit their fields. */
  ghost predicate HoldsNodes(t: Tables, table: seq<NodeRecord>) {
    t.nodes == NodeBytes(table) && t.nodeCount == |table| && forall i :: 0 <= i < |table| ==> Fits(table[i])
  }

  /** char::from_u32 */
  predicate IsScalar(n: nat) { n < 0xd800 || 0xe000 <= n < 0x11_0000 }

  /** The labels of a child group are in the table and ascend. */
  ghost predicate GroupSorted(table: seq<NodeRecord>, node: NodeRecord) {
    && node.firstChild + node.childCount <= |table|
    && (forall i :: node.firstChild <= i < node.firstChild + node.childCount ==> IsScalar(table[i].scalar))
    && (forall i, k :: node.firstChild <= i < k < node.firstChild + node.childCount ==> table[i].scalar < table[k].scalar)
  }

  /** find_child: binary search over the labels of a child group. */
  method FindChild(t: Tables, ghost table: seq<NodeRecord>, node: NodeRecord, wanted: nat) returns (r: Option<nat>)
    requires HoldsNodes(t, table) && GroupSorted(table, node)
    ensures r.Some? ==> node.firstChild <= r.value < node.firstChild + node.childCount
                        && table[r.value].scalar == wanted
    ensures r.None? ==> forall k :: node.firstChild <= k < node.firstChild + node.childCount ==> table[k].scalar != wanted
  {
    hide NodeBytes, ReadNode, Fits;
    var low, high := node.firstChild, node.firstChild + node.childCount;
    while low < high
      invariant node.firstChild <= low <= high <= node.firstChild + node.childCount
      invariant forall k :: node.firstChild <= k < low ==> table[k].scalar < wanted
      invariant forall k :: high <= k < node.firstChild + node.childCount ==> wanted < table[k].scalar
    {
      var mid := low + (high - low) / 2;
      NodesRoundTrip(table, mid);
      var found := ReadNode(t.nodes, t.nodeCount, mid);
      if found.None? || !IsScalar(found.value.scalar) { return None; }
      if found.value.scalar < wanted {
        low := mid + 1;
      } else if wanted < found.value.scalar {
        high := mid;
      } else {
        return Some(mid);
      }
    }
    r := None;
  }

  lemma ChildPlace(order: seq<Visit>, edges: seq<Edge>, first: nat, i: nat)
    requires first + |edges| <= |order| && order[first..first + |edges|] == Visits(edges)
    requires i < |edges|
    ensures order[first + i] == Visit(edges[i].child, edges[i].key)
  {
    assert order[first..first + |edges|][i] == order[first + i];
  }

  /** Row i of a node's child group is labelled with the node's edge i. */
  lemma ChildScalar(table: seq<NodeRecord>, nodes: seq<Node>, paths: seq<string>, order: seq<Visit>, j: nat, i: nat)
    requires IsLevelOrder(nodes, paths, order) && j < |order| && i < |nodes[order[j].node].edges|
    requires table == Records(nodes, order, |order|)
    ensures FirstChild(nodes, order, j) + i < |table|
    ensures table[FirstChild(nodes, order, j) + i].scalar == nodes[order[j].node].edges[i].key as int
  {
    assert ChildrenAt(nodes, order, j);
    ChildPlace(order, nodes[order[j].node].edges, FirstChild(nodes, order, j), i);
  }

  lemma LabelsAreScalars(edges: seq<Edge>)
    ensures forall i :: 0 <= i < |edges| ==> IsScalar(edges[i].key as int)
  {}

  lemma LabelsRise(nodes: seq<Node>, paths: seq<string>, order: seq<Visit>, j: nat)
    requires IsLevelOrder(nodes, paths, order) && j < |order|
    ensures var edges := nodes[order[j].node].edges;
            forall i, k :: 0 <= i < k < |edges| ==> edges[i].key < edges[k].key
  {}

  lemma GroupOf(table: seq<NodeRecord>, nodes: seq<Node>, paths: seq<string>, order: seq<Visit>, j: nat)
    requires IsLevelOrder(nodes, paths, order) && j < |order|
    requires table == Records(nodes, order, |order|)
    ensures GroupSorted(table, RecordAt(nodes, order, j))
  {
    var first, edges := FirstChild(nodes, order, j), nodes[order[j].node].edges;
    RecordGroup(nodes, paths, order, j);
    LabelsRise(nodes, paths, order, j);
    LabelsAreScalars(edges);
    hide IsLevelOrder, RecordAt, FirstChild, Records;
    forall i: nat | i < |edges|
      ensures first + i < |table| && table[first + i].scalar == edges[i].key as int
    {
      ChildScalar(table, nodes, paths, order, j, i);
    }
    if edges != [] { SortedLabels(table, first, edges, RecordAt(nodes, order, j)); }
  }

  lemma RecordGroup(nodes: seq<Node>, paths: seq<string>, order: seq<Visit>, j: nat)
    requires IsLevelOrder(nodes, paths, order) && j < |order|
    ensures var record := RecordAt(nodes, order, j);
            && record.childCount == |nodes[order[j].node].edges|
            && record.firstChild == (if record.childCount == 0 then 0 else FirstChild(nodes, order, j))
            && record.firstChild + record.childCount <= |order|
  {
    assert ChildrenAt(nodes, order, j);
  }

  lemma SortedLabels(table: seq<NodeRecord>, first: nat, edges: seq<Edge>, record: NodeRecord)
    requires record.firstChild == first && record.childCount == |edges| && first + |edges| <= |table|
    requires forall i: nat :: i < |edges| ==> table[first + i].scalar == edges[i].key as int
    requires forall i, k :: 0 <= i < k < |edges| ==> edges[i].key < edges[k].key
    requires forall i :: 0 <= i < |edges| ==> IsScalar(edges[i].key as int)
    ensures GroupSorted(table, record)
  {
    forall i | first <= i < first + |edges| ensures IsScalar(table[i].scalar) {
      assert table[first + (i - first)].scalar == edges[i - first].key as int;
    }
    forall i, k | first <= i < k < first + |edges| ensures table[i].scalar < table[k].scalar {
      assert table[first + (i - first)].scalar == edges[i - first].key as int;
      assert table[first + (k - first)].scalar == edges[k - first].key as int;
    }
  }

  /** The hits that one reading contributes. */
  function HitsFor(source: seq<SourceEntry>, ids: map<Text, u32>, ordinals: seq<nat>, s: string): seq<Hit>
    requires |ordinals| == |source| && forall i :: 0 <= i < |source| ==> source[i].surface in ids
  {
    var matches := Homophones(Readings(source), s);
    seq(|matches|, k requires 0 <= k < |matches| =>
      assert matches[k] in matches;
      Hit(Utf8Length(s), ordinals[matches[k]], Stored(source[matches[k]], ids)))
  }

  /** What the compiled entries say a prefix search must visit: for every
      nonempty prefix, shortest first, the entries with that reading in source order. */
  function Expected(source: seq<SourceEntry>, ids: map<Text, u32>, ordinals: seq<nat>, reading: string, n: nat): seq<Hit>
    requires |ordinals| == |source| && forall i :: 0 <= i < |source| ==> source[i].surface in ids
    requires n <= |reading|
  {
    if n == 0 then []
    else Expected(source, ids, ordinals, reading, n - 1) + HitsFor(source, ids, ordinals, reading[..n])
  }

  /** Entry k of a node's value range is hit k of its reading. */
  lemma ValueIsHit(image: Image, nodes: seq<Node>, order: seq<Visit>, source: seq<SourceEntry>, ids: map<Text, u32>,
                   j: nat, s: string, k: nat)
    requires InArena(nodes, order) && Describes(image, nodes, order, source, ids)
    requires j < |order| && nodes[order[j].node].entries == Homophones(Readings(source), s)
    requires forall i :: 0 <= i < |source| ==> source[i].surface in ids
    requires k < RecordAt(nodes, order, j).valueCount
    ensures var index, hits := RecordAt(nodes, order, j).valueStart + k, HitsFor(source, ids, image.ordinals, s);
            && index < |image.entries| && |hits| == RecordAt(nodes, order, j).valueCount
            && hits[k] == Hit(Utf8Length(s), index, DecodeEntry(image.entries[index]))
  {
    hide Homophones;
    var all := Emitted(nodes, order, |order|);
    var matches := Homophones(Readings(source), s);
    GroupInPlace(nodes, order, j);
    var index := RecordAt(nodes, order, j).valueStart + k;
    assert all[|Emitted(nodes, order, j)|..][..|matches|][k] == all[index] == matches[k];
    EntryRoundTrip(source[all[index]], ids);
  }

  lemma NoValues(image: Image, nodes: seq<Node>, order: seq<Visit>, source: seq<SourceEntry>, ids: map<Text, u32>,
                 j: nat, s: string)
    requires InArena(nodes, order) && |image.ordinals| == |source|
    requires j < |order| && nodes[order[j].node].entries == Homophones(Readings(source), s)
    requires forall i :: 0 <= i < |source| ==> source[i].surface in ids
    ensures |HitsFor(source, ids, image.ordinals, s)| == RecordAt(nodes, order, j).valueCount
  {}

  /** The visitor sees every hit so far and says whether to go on. */
  type Visitor = seq<Hit> -> bool

  ghost predicate GoesOn(visit: Visitor, hits: seq<Hit>) { forall k :: 0 < k <= |hits| ==> visit(hits[..k]) }

  /** What a visitor gets to see of all hits: everything up to the hit at which it
      stops the search, or all of them. */
  ghost predicate IsVisit(visit: Visitor, all: seq<Hit>, seen: seq<Hit>) {
    && seen <= all
    && (forall k :: 0 < k < |seen| ==> visit(seen[..k]))
    && (seen == all || (seen != [] && !visit(seen)))
  }

  lemma OneMore(visit: Visitor, all: seq<Hit>, n: nat, hit: Hit)
    requires n < |all| && all[n] == hit && GoesOn(visit, all[..n])
    ensures all[..n] + [hit] == all[..n + 1]
    ensures visit(all[..n + 1]) ==> GoesOn(visit, all[..n + 1])
    ensures !visit(all[..n + 1]) ==> IsVisit(visit, all, all[..n + 1])
  {
    var longer := all[..n + 1];
    forall k | 0 < k <= n ensures visit(longer[..k]) {
      assert longer[..k] == all[..n][..k];
    }
    assert longer[..n + 1] == longer;
  }

  /** The hits before a node and its first k, none of which stopped the search. */
  ghost predicate SeenSoFar(visit: Visitor, before: seq<Hit>, here: seq<Hit>, k: nat, hits: seq<Hit>)
    requires k <= |here|
  {
    hits == before + here[..k] && GoesOn(visit, hits)
  }

  lemma SeenStart(visit: Visitor, before: seq<Hit>, here: seq<Hit>)
    requires GoesOn(visit, before)
    ensures SeenSoFar(visit, before, here, 0, before)
  {
    assert before + here[..0] == before;
  }

  lemma SeenStep(visit: Visitor, before: seq<Hit>, here: seq<Hit>, k: nat, hits: seq<Hit>, hit: Hit)
    requires k < |here| && SeenSoFar(visit, before, here, k, hits) && hit == here[k]
    ensures visit(hits + [hit]) ==> SeenSoFar(visit, before, here, k + 1, hits + [hit])
    ensures !visit(hits + [hit]) ==> IsVisit(visit, before + here, hits + [hit])
  {
    hide GoesOn, IsVisit;
    var all := before + here;
    assert all[..|before| + k] == hits && all[..|before| + k + 1] == before + here[..k + 1];
    OneMore(visit, all, |before| + k, hit);
  }

  lemma SeenAll(visit: Visitor, before: seq<Hit>, here: seq<Hit>, hits: seq<Hit>)
    requires SeenSoFar(visit, before, here, |here|, hits)
    ensures hits == before + here && GoesOn(visit, before + here)
  {
    assert here[..|here|] == here;
  }

  /** Entry k of a node's value range, from the bytes. */
  method ReadHit(t: Tables, ghost image: Image, node: NodeRecord, matched: nat, k: nat,
                 ghost nodes: seq<Node>, ghost order: seq<Visit>,
                 ghost source: seq<SourceEntry>, ghost ids: map<Text, u32>, ghost j: nat, ghost s: string)
    returns (r: Result<Hit, ReadError>)
    requires t == TablesOf(image) && InArena(nodes, order) && Describes(image, nodes, order, source, ids)
    requires j < |order| && node == RecordAt(nodes, order, j) && k < node.valueCount
    requires nodes[order[j].node].entries == Homophones(Readings(source), s) && matched == Utf8Length(s)
    requires forall i :: 0 <= i < |source| ==> source[i].surface in ids
    ensures var here := HitsFor(source, ids, image.ordinals, s);
            |here| == node.valueCount && r == Ok(here[k])
  {
    hide RecordAt, HitsFor, Homophones, ReadEntry, EntryBytes, NodeBytes, Describes, Utf8Length;
    var index := node.valueStart + k;
    ValueIsHit(image, nodes, order, source, ids, j, s, k);
    EntriesRoundTrip(image.entries, index);
    var record := ReadEntry(t.entries, t.entryCount, index);
    if record.None? { return Err(BadEntry); }
    r := Ok(Hit(matched, index, DecodeEntry(record.value)));
  }

  /** A node's value range yields exactly the hits of its reading, up to the one
      at which the visitor stops. */
  method VisitValues(t: Tables, ghost image: Image, node: NodeRecord, matched: nat, visit: Visitor, before: seq<Hit>,
                     ghost nodes: seq<Node>, ghost order: seq<Visit>,
                     ghost source: seq<SourceEntry>, ghost ids: map<Text, u32>, ghost j: nat, ghost s: string)
    returns (r: Result<(seq<Hit>, bool), ReadError>)
    requires t == TablesOf(image) && InArena(nodes, order) && Describes(image, nodes, order, source, ids)
    requires j < |order| && node == RecordAt(nodes, order, j)
    requires nodes[order[j].node].entries == Homophones(Readings(source), s) && matched == Utf8Length(s)
    requires forall i :: 0 <= i < |source| ==> source[i].surface in ids
    requires GoesOn(visit, before)
    ensures r.Ok?
    ensures var all := before + HitsFor(source, ids, image.ordinals, s);
            if r.value.1 then r.value.0 == all && GoesOn(visit, all)
            else IsVisit(visit, all, r.value.0) && !visit(r.value.0) && r.value.0 != []
  {
    NoValues(image, nodes, order, source, ids, j, s);
    hide *;
    ghost var here := HitsFor(source, ids, image.ordinals, s);
    var hits: seq<Hit> := before;
    SeenStart(visit, before, here);
    for k := 0 to node.valueCount
      invariant SeenSoFar(visit, before, here, k, hits)
    {
      var hit := ReadHit(t, image, node, matched, k, nodes, order, source, ids, j, s);
      SeenStep(visit, before, here, k, hits, hit.value);
      hits := hits + [hit.value];
      if !visit(hits) { return Ok((hits, false)); }
    }
    SeenAll(visit, before, here, hits);
    r := Ok((hits, true));
  }

  /** One step down the table: either the node of the longer prefix, or proof
      that no longer prefix is a reading. */
  method Step(t: Tables, ghost table: seq<NodeRecord>, nodeIndex: nat, reading: string, depth: nat,
              ghost nodes: seq<Node>, ghost paths: seq<string>, ghost order: seq<Visit>, ghost readings: seq<string>)
    returns (r: Result<Option<nat>, ReadError>)
    requires IsLevelOrder(nodes, paths, order) && Indexes(nodes, paths, readings)
    requires table == Records(nodes, order, |order|) && HoldsNodes(t, table)
    requires nodeIndex < |order| && depth < |reading| && paths[order[nodeIndex].node] == reading[..depth]
    ensures r.Ok?
    ensures r.value.Some? ==> r.value.value < |order| && paths[order[r.value.value].node] == reading[..depth + 1]
    ensures r.value.None? ==> forall n: nat :: depth < n <= |reading| ==> Homophones(readings, reading[..n]) == []
  {
    hide NodeBytes, ReadNode, Fits;
    GroupOf(table, nodes, paths, order, nodeIndex);
    NodesRoundTrip(table, nodeIndex);
    var node := ReadNode(t.nodes, t.nodeCount, nodeIndex);
    if node.None? { return Err(BadTree); }
    var child := FindChild(t, table, node.value, reading[depth] as int);
    if child.None? {
      NothingDeeper(table, nodes, paths, order, readings, nodeIndex, reading, depth);
    } else {
      DescendTo(table, nodes, paths, order, nodeIndex, reading, depth, child.value);
    }
    r := Ok(child);
  }

  /** common_prefix_search. On the bytes of any entries it visits exactly what the
      entries themselves say, until the visitor stops it. */
  method CommonPrefixSearch(t: Tables, ghost image: Image, reading: string, visit: Visitor,
                            ghost nodes: seq<Node>, ghost paths: seq<string>, ghost order: seq<Visit>,
                            ghost source: seq<SourceEntry>, ghost ids: map<Text, u32>)
    returns (r: Result<seq<Hit>, ReadError>)
    requires t == TablesOf(image)
    requires IsLevelOrder(nodes, paths, order) && Indexes(nodes, paths, Readings(source))
    requires Describes(image, nodes, order, source, ids)
    requires forall i :: 0 <= i < |source| ==> source[i].surface in ids
    ensures r.Ok? && IsVisit(visit, Expected(source, ids, image.ordinals, reading, |reading|), r.value)
  {
    hide NodeBytes, EntryBytes, ReadNode, HitsFor, Homophones, Fits;
    ghost var all := Expected(source, ids, image.ordinals, reading, |reading|);
    var nodeIndex: nat, matched: nat, hits: seq<Hit> := 0, 0, [];
    for depth := 0 to |reading|
      invariant nodeIndex < |order| && paths[order[nodeIndex].node] == reading[..depth]
      invariant matched == Utf8Length(reading[..depth])
      invariant hits == Expected(source, ids, image.ordinals, reading, depth) && GoesOn(visit, hits)
    {
      var child := Step(t, image.nodes, nodeIndex, reading, depth, nodes, paths, order, Readings(source));
      if child.value.None? {
        ExpectedStops(source, ids, image.ordinals, reading, depth, |reading|);
        return Ok(hits);
      }
      nodeIndex := child.value.value;
      matched := matched + Utf8Width(reading[depth]);
      assert reading[..depth + 1][..depth] == reading[..depth];
      NodesRoundTrip(image.nodes, nodeIndex);
      var terminal := ReadNode(t.nodes, t.nodeCount, nodeIndex);
      if terminal.None? { return Err(BadTree); }
      var visited := VisitValues(t, image, terminal.value, matched, visit, hits,
                                 nodes, order, source, ids, nodeIndex, reading[..depth + 1]);
      hits := visited.value.0;
      if !visited.value.1 {
        ExpectedGrows(source, ids, image.ordinals, reading, depth + 1, |reading|);
        return Ok(hits);
      }
    }
    r := Ok(hits);
  }

  lemma {:induction false} ExpectedGrows(source: seq<SourceEntry>, ids: map<Text, u32>, ordinals: seq<nat>,
                                         reading: string, n: nat, m: nat)
    requires |ordinals| == |source| && forall i :: 0 <= i < |source| ==> source[i].surface in ids
    requires n <= m <= |reading|
    ensures Expected(source, ids, ordinals, reading, n) <= Expected(source, ids, ordinals, reading, m)
    decreases m
  {
    if n < m { ExpectedGrows(source, ids, ordinals, reading, n, m - 1); }
  }

  lemma DescendTo(table: seq<NodeRecord>, nodes: seq<Node>, paths: seq<string>, order: seq<Visit>, j: nat,
                  reading: string, depth: nat, child: nat)
    requires IsLevelOrder(nodes, paths, order) && table == Records(nodes, order, |order|)
    requires j < |order| && depth < |reading| && paths[order[j].node] == reading[..depth]
    requires var node := RecordAt(nodes, order, j);
             node.firstChild <= child < node.firstChild + node.childCount
    requires child < |table| && table[child].scalar == reading[depth] as int
    ensures paths[order[child].node] == reading[..depth + 1]
  {
    var first, edges := FirstChild(nodes, order, j), nodes[order[j].node].edges;
    var e := edges[child - first];
    assert ChildrenAt(nodes, order, j);
    ChildPlace(order, edges, first, child - first);
    assert EdgesFollow(nodes, paths, order[j].node) && e in edges;
    assert reading[..depth] + [reading[depth]] == reading[..depth + 1];
  }

  /** A label missing from the table group is missing from the trie node. */
  lemma EdgeAbsent(table: seq<NodeRecord>, nodes: seq<Node>, order: seq<Visit>, j: nat, wanted: char)
    requires InArena(nodes, order) && j < |order| && ChildrenAt(nodes, order, j)
    requires table == Records(nodes, order, |order|)
    requires var node := RecordAt(nodes, order, j);
             node.firstChild + node.childCount <= |table|
             && forall k :: node.firstChild <= k < node.firstChild + node.childCount ==> table[k].scalar != wanted as int
    ensures forall e :: e in nodes[order[j].node].edges ==> e.key != wanted
  {
    var edges, first := nodes[order[j].node].edges, FirstChild(nodes, order, j);
    forall e | e in edges ensures e.key != wanted {
      var i :| 0 <= i < |edges| && edges[i] == e;
      ChildPlace(order, edges, first, i);
      assert table[first + i].scalar == e.key as int;
    }
  }

  /** Without a child for the next label, no longer prefix is a reading. */
  lemma NothingDeeper(table: seq<NodeRecord>, nodes: seq<Node>, paths: seq<string>, order: seq<Visit>,
                      readings: seq<string>, j: nat, reading: string, depth: nat)
    requires IsLevelOrder(nodes, paths, order) && Indexes(nodes, paths, readings)
    requires table == Records(nodes, order, |order|)
    requires j < |order| && depth < |reading| && paths[order[j].node] == reading[..depth]
    requires var node := RecordAt(nodes, order, j);
             node.firstChild + node.childCount <= |table|
             && forall k :: node.firstChild <= k < node.firstChild + node.childCount ==>
                  table[k].scalar != reading[depth] as int
    ensures forall n: nat :: depth < n <= |reading| ==> Homophones(readings, reading[..n]) == []
  {
    assert ChildrenAt(nodes, order, j);
    EdgeAbsent(table, nodes, order, j, reading[depth]);
    forall n: nat | depth < n <= |reading| ensures Homophones(readings, reading[..n]) == [] {
      LongerPrefixUnread(nodes, paths, readings, order[j].node, reading, depth, n);
    }
  }

  lemma LongerPrefixUnread(nodes: seq<Node>, paths: seq<string>, readings: seq<string>, at: nat,
                           reading: string, depth: nat, n: nat)
    requires Indexes(nodes, paths, readings) && at < |nodes| && depth < n <= |reading|
    requires paths[at] == reading[..depth]
    requires forall e :: e in nodes[at].edges ==> e.key != reading[depth]
    ensures Homophones(readings, reading[..n]) == []
  {
    if reading[..n] in paths {
      var k: nat :| k < |paths| && paths[k] == reading[..n];
      PrefixNamed(nodes, paths, k, depth + 1);
      assert reading[..n][..depth + 1] == reading[..depth] + [reading[depth]];
      var m: nat :| m < |paths| && paths[m] == paths[at] + [reading[depth]];
      ParentIsUnique(nodes, paths, at, reading[depth], m);
    }
    NoHomophones(readings, paths, reading[..n]);
  }

  lemma {:induction false} ExpectedStops(source: seq<SourceEntry>, ids: map<Text, u32>, ordinals: seq<nat>,
                                         reading: string, depth: nat, n: nat)
    requires |ordinals| == |source| && forall i :: 0 <= i < |source| ==> source[i].surface in ids
    requires depth <= n <= |reading|
    requires forall m: nat :: depth < m <= n ==> Homophones(Readings(source), reading[..m]) == []
    ensures Expected(source, ids, ordinals, reading, n) == Expected(source, ids, ordinals, reading, depth)
  {
    if depth < n {
      ExpectedStops(source, ids, ordinals, reading, depth, n - 1);
      assert HitsFor(source, ids, ordinals, reading[..n]) == [];
    }
  }

  /** The renumbering of entries is itself a permutation. */
  lemma InverseIsPermutation(all: seq<nat>, ordinals: seq<nat>)
    requires IsPermutation(all, |ordinals|)
    requires forall p :: 0 <= p < |all| ==> all[p] < |ordinals| && ordinals[all[p]] == p
    ensures IsPermutation(ordinals, |ordinals|)
  {
    forall i: nat | i < |ordinals| ensures ordinals[i] < |ordinals| && all[ordinals[i]] == i {
      assert i in all;
      var p: nat :| p < |all| && all[p] == i;
    }
    Pigeonhole(ordinals, |ordinals|);
  }
}
