/** Which entries the tables of an image can hold, stated on their readings. */
module Compilation {
  import opened Wrappers
  import opened Sequences
  import opened Wire
  import opened Utf8
  import opened Trie
  import opened Louds
  import opened NodeTable
  import opened Lookup

  /** Every beginning of a reading, the empty one included. */
  ghost function Prefixes(readings: seq<string>): set<string> {
    {""} + set i, n | 0 <= i < |readings| && 0 <= n <= |readings[i]| :: readings[i][..n]
  }

  /** The characters that follow a prefix in some reading. */
  ghost function Labels(readings: seq<string>, p: string): set<char> {
    set i | 0 <= i < |readings| && p <= readings[i] && |p| < |readings[i]| :: readings[i][|p|]
  }

  /** What entries must meet to be stored. */
  ghost predicate Compilable(source: seq<SourceEntry>, ids: map<Text, u32>) {
    && (forall s :: |Homophones(Readings(source), s)| <= MAX_HOMOPHONES)
    && |Prefixes(Readings(source))| <= 0x8000_0000
    && (forall p :: p in Prefixes(Readings(source)) ==> |Labels(Readings(source), p)| <= U16_MAX)
    && (forall i :: 0 <= i < |source| ==> EncodeEntry(source[i], ids).Ok?)
  }

  lemma PathIsPrefix(nodes: seq<Node>, paths: seq<string>, readings: seq<string>, k: nat)
    requires Indexes(nodes, paths, readings) && k < |paths|
    ensures paths[k] in Prefixes(readings)
  {
    if k > 0 {
      assert StartsSome(paths[k], readings);
      var i :| 0 <= i < |readings| && paths[k] <= readings[i];
      assert paths[k] == readings[i][..|paths[k]|];
    }
  }

  lemma PrefixIsPath(nodes: seq<Node>, paths: seq<string>, readings: seq<string>, i: nat, n: nat)
    requires Indexes(nodes, paths, readings) && i < |readings| && n <= |readings[i]|
    ensures readings[i][..n] in paths
  {
    var k :| 0 <= k < |paths| && paths[k] == readings[i];
    PrefixNamed(nodes, paths, k, n);
  }

  /** One node for each prefix. */
  lemma NodesArePrefixes(nodes: seq<Node>, paths: seq<string>, readings: seq<string>)
    requires Indexes(nodes, paths, readings)
    ensures forall p :: p in paths <==> p in Prefixes(readings)
    ensures |nodes| == |Prefixes(readings)|
  {
    forall p | p in paths ensures p in Prefixes(readings) {
      var k :| 0 <= k < |paths| && paths[k] == p;
      PathIsPrefix(nodes, paths, readings, k);
    }
    forall p | p in Prefixes(readings) ensures p in paths {
      if p != "" {
        var i, n :| 0 <= i < |readings| && 0 <= n <= |readings[i]| && readings[i][..n] == p;
        PrefixIsPath(nodes, paths, readings, i, n);
      } else {
        assert paths[0] == "";
      }
    }
    DistinctCount(paths);
    assert (set p | p in paths) == Prefixes(readings);
  }

  function Keys(edges: seq<Edge>): (r: seq<char>)
    ensures |r| == |edges| && forall e :: 0 <= e < |r| ==> r[e] == edges[e].key
  {
    seq(|edges|, e requires 0 <= e < |edges| => edges[e].key)
  }

  lemma KeyIsLabel(nodes: seq<Node>, paths: seq<string>, readings: seq<string>, k: nat, e: Edge)
    requires Indexes(nodes, paths, readings) && k < |nodes| && e in nodes[k].edges
    ensures e.key in Labels(readings, paths[k])
  {
    assert EdgesFollow(nodes, paths, k);
    assert StartsSome(paths[e.child], readings);
    var i :| 0 <= i < |readings| && paths[e.child] <= readings[i];
    assert readings[i][|paths[k]|] == paths[e.child][|paths[k]|] == e.key;
    assert paths[k] <= readings[i];
  }

  lemma LabelIsKey(nodes: seq<Node>, paths: seq<string>, readings: seq<string>, k: nat, c: char)
    requires Indexes(nodes, paths, readings) && k < |nodes| && c in Labels(readings, paths[k])
    ensures c in Keys(nodes[k].edges)
  {
    var n := |paths[k]|;
    var i :| 0 <= i < |readings| && paths[k] <= readings[i] && n < |readings[i]| && readings[i][n] == c;
    PrefixIsPath(nodes, paths, readings, i, n + 1);
    assert readings[i][..n + 1] == paths[k] + [c];
    var m :| 0 <= m < |paths| && paths[m] == paths[k] + [c];
    ParentIsUnique(nodes, paths, k, c, m);
    var e :| 0 <= e < |nodes[k].edges| && nodes[k].edges[e] == Edge(c, m);
    assert Keys(nodes[k].edges)[e] == c;
  }

  /** One child for each label. */
  lemma ChildrenAreLabels(nodes: seq<Node>, paths: seq<string>, readings: seq<string>, k: nat)
    requires Indexes(nodes, paths, readings) && k < |nodes|
    ensures |nodes[k].edges| == |Labels(readings, paths[k])|
  {
    var keys := Keys(nodes[k].edges);
    forall c | c in keys ensures c in Labels(readings, paths[k]) {
      var e :| 0 <= e < |keys| && keys[e] == c;
      KeyIsLabel(nodes, paths, readings, k, nodes[k].edges[e]);
    }
    forall c | c in Labels(readings, paths[k]) ensures c in keys {
      LabelIsKey(nodes, paths, readings, k, c);
    }
    assert Ascending(nodes[k].edges);
    DistinctCount(keys);
    assert (set c | c in keys) == Labels(readings, paths[k]);
  }

  lemma RecordFits(nodes: seq<Node>, paths: seq<string>, order: seq<Visit>, source: seq<SourceEntry>,
                   ids: map<Text, u32>, j: nat)
    requires Indexes(nodes, paths, Readings(source)) && IsLevelOrder(nodes, paths, order) && j < |order|
    requires Compilable(source, ids) && |source| <= U32_MAX
    ensures Fits(RecordAt(nodes, order, j))
  {
    var at := order[j].node;
    NodesArePrefixes(nodes, paths, Readings(source));
    ChildrenAreLabels(nodes, paths, Readings(source), at);
    RecordGroup(nodes, paths, order, j);
    EmittedIsPermutation(nodes, paths, order, Readings(source));
    EmittedPrefix(nodes, order, j, |order|);
    hide IsLevelOrder, Prefixes, Labels, Homophones, Emitted, FirstChild;
    assert paths[at] in paths;
    assert nodes[at].entries == Homophones(Readings(source), paths[at]);
  }

  /** n nodes take 2n - 1 bits, which fit their count as long as n <= 2^31. */
  lemma BitsFit(nodes: seq<Node>, paths: seq<string>, order: seq<Visit>, readings: seq<string>)
    requires Indexes(nodes, paths, readings) && IsLevelOrder(nodes, paths, order)
    ensures |Bits(nodes, order, |order|)| <= U32_MAX <==> |Prefixes(readings)| <= 0x8000_0000
  {
    GroupStart(nodes, order, |order|);
    NodesArePrefixes(nodes, paths, readings);
    assert |Arena(order)| == |order|;
  }

  /** The format holds a trie only if its entries are compilable. */
  lemma HeldIsCompilable(nodes: seq<Node>, paths: seq<string>, order: seq<Visit>,
                         source: seq<SourceEntry>, ids: map<Text, u32>)
    requires Indexes(nodes, paths, Readings(source)) && IsLevelOrder(nodes, paths, order)
    requires Representable(nodes, order, source, ids)
    ensures Compilable(source, ids)
  {
    var readings := Readings(source);
    forall s ensures |Homophones(readings, s)| <= MAX_HOMOPHONES {
      HomophonesFit(nodes, paths, order, readings, s);
    }
    BitsFit(nodes, paths, order, readings);
    NodesArePrefixes(nodes, paths, readings);
    hide Bits, Prefixes, Labels, Homophones, RecordAt, Fits, EncodeEntry, Indexes, IsLevelOrder, Readings;
    forall p | p in Prefixes(readings) ensures |Labels(readings, p)| <= U16_MAX {
      LabelsFit(nodes, paths, order, readings, p);
    }
  }

  /** And it does if they are, as long as entry numbers fit. */
  lemma CompilableIsHeld(nodes: seq<Node>, paths: seq<string>, order: seq<Visit>,
                         source: seq<SourceEntry>, ids: map<Text, u32>)
    requires Indexes(nodes, paths, Readings(source)) && IsLevelOrder(nodes, paths, order)
    requires Compilable(source, ids) && |source| <= U32_MAX
    ensures Representable(nodes, order, source, ids)
  {
    BitsFit(nodes, paths, order, Readings(source));
    hide Bits, Prefixes, Labels, Homophones, RecordAt, Fits, EncodeEntry, Indexes, Readings;
    forall j | 0 <= j < |order| ensures Fits(RecordAt(nodes, order, j)) {
      RecordFits(nodes, paths, order, source, ids, j);
    }
  }

  lemma FormatHolds(nodes: seq<Node>, paths: seq<string>, order: seq<Visit>,
                    source: seq<SourceEntry>, ids: map<Text, u32>)
    requires Indexes(nodes, paths, Readings(source)) && IsLevelOrder(nodes, paths, order)
    ensures Representable(nodes, order, source, ids) ==> Compilable(source, ids)
    ensures Compilable(source, ids) && |source| <= U32_MAX ==> Representable(nodes, order, source, ids)
  {
    hide Compilable, Representable, Indexes, Homophones;
    if Representable(nodes, order, source, ids) { HeldIsCompilable(nodes, paths, order, source, ids); }
    if Compilable(source, ids) && |source| <= U32_MAX { CompilableIsHeld(nodes, paths, order, source, ids); }
  }

  lemma OrdinalsPermute(image: Image, nodes: seq<Node>, order: seq<Visit>, source: seq<SourceEntry>, ids: map<Text, u32>)
    requires InArena(nodes, order) && Describes(image, nodes, order, source, ids)
    ensures IsPermutation(image.ordinals, |source|)
  {
    var all := Emitted(nodes, order, |order|);
    assert forall p :: 0 <= p < |all| ==> all[p] in all;
    InverseIsPermutation(all, image.ordinals);
  }

  lemma LabelsFit(nodes: seq<Node>, paths: seq<string>, order: seq<Visit>, readings: seq<string>, p: string)
    requires Indexes(nodes, paths, readings) && IsLevelOrder(nodes, paths, order) && p in paths
    requires forall j :: 0 <= j < |order| ==> Fits(RecordAt(nodes, order, j))
    ensures |Labels(readings, p)| <= U16_MAX
  {
    var k: nat :| k < |paths| && paths[k] == p;
    ChildrenAreLabels(nodes, paths, readings, k);
    assert k in Arena(order);
    var j :| 0 <= j < |order| && Arena(order)[j] == k;
    assert Fits(RecordAt(nodes, order, j));
  }

  lemma HomophonesFit(nodes: seq<Node>, paths: seq<string>, order: seq<Visit>, readings: seq<string>, s: string)
    requires Indexes(nodes, paths, readings) && IsLevelOrder(nodes, paths, order)
    requires forall j :: 0 <= j < |order| ==> Fits(RecordAt(nodes, order, j))
    ensures |Homophones(readings, s)| <= MAX_HOMOPHONES
  {
    if s in paths {
      var k: nat :| k < |paths| && paths[k] == s;
      assert k in Arena(order);
      var j :| 0 <= j < |order| && Arena(order)[j] == k;
      assert Fits(RecordAt(nodes, order, j));
    } else {
      NoHomophones(readings, paths, s);
    }
  }
}
