/** The reading trie of the dictionary compiler (build_trie): an arena of nodes
    whose labelled edges are kept in label order. */
module Trie {
  import opened Wrappers
  import opened Sequences

  const MAX_HOMOPHONES: nat := 65535

  datatype Edge = Edge(key: char, child: nat)

  /** `edges` is the ordered child map, `entries` the source entries that end here. */
  datatype Node = Node(edges: seq<Edge>, entries: seq<nat>)

  datatype BuildError = TooManyHomophones(entry: nat)

  predicate Ascending(edges: seq<Edge>) {
    forall i, j :: 0 <= i < j < |edges| ==> edges[i].key < edges[j].key
  }

  /** Child of a label in an ordered child map. */
  function Child(edges: seq<Edge>, key: char): (r: Option<nat>)
    ensures r.Some? <==> exists i :: 0 <= i < |edges| && edges[i].key == key
    ensures r.Some? ==> Edge(key, r.value) in edges
  {
    if edges == [] then None
    else if edges[0].key == key then Some(edges[0].child)
    else
      assert forall i :: 0 < i < |edges| ==> edges[1..][i - 1] == edges[i];
      Child(edges[1..], key)
  }

  /** Where an ordered child map takes a new label. */
  function Position(edges: seq<Edge>, key: char): (at: nat)
    requires Ascending(edges)
    ensures at <= |edges|
    ensures forall i :: 0 <= i < at ==> edges[i].key < key
    ensures forall i :: at <= i < |edges| ==> key <= edges[i].key
  {
    if edges == [] || key <= edges[0].key then 0
    else
      var at := Position(edges[1..], key) + 1;
      assert forall i :: 0 < i < |edges| ==> edges[i] == edges[1..][i - 1];
      at
  }

  /** Ordered insertion of a label that is not present yet. */
  function Insert(edges: seq<Edge>, edge: Edge): (r: seq<Edge>)
    requires Ascending(edges)
    requires Child(edges, edge.key) == None
    ensures Ascending(r)
    ensures forall e :: e in r <==> e in edges || e == edge
  {
    var at := Position(edges, edge.key);
    InsertMembers(edges, edge, at);
    InsertAscends(edges, edge, at);
    edges[..at] + [edge] + edges[at..]
  }

  lemma InsertMembers(edges: seq<Edge>, edge: Edge, at: nat)
    requires at <= |edges|
    ensures forall e :: e in edges[..at] + [edge] + edges[at..] <==> e in edges || e == edge
  {
    assert edges == edges[..at] + edges[at..];
    assert forall e :: e in edges ==> e in edges[..at] || e in edges[at..];
  }

  lemma InsertAscends(edges: seq<Edge>, edge: Edge, at: nat)
    requires at <= |edges| && Ascending(edges)
    requires forall i :: 0 <= i < |edges| ==> edges[i].key != edge.key
    requires forall i :: 0 <= i < at ==> edges[i].key < edge.key
    requires forall i :: at <= i < |edges| ==> edge.key <= edges[i].key
    ensures Ascending(edges[..at] + [edge] + edges[at..])
  {
    var r := edges[..at] + [edge] + edges[at..];
    forall i, j | 0 <= i < j < |r| ensures r[i].key < r[j].key {
      assert r[i] == if i < at then edges[i] else if i == at then edge else edges[i - 1];
      assert r[j] == if j < at then edges[j] else if j == at then edge else edges[j - 1];
    }
  }

  /** The source entries with reading `s`, in source order. */
  function Homophones(readings: seq<string>, s: string): (r: seq<nat>)
    ensures forall i :: i in r <==> 0 <= i < |readings| && readings[i] == s
    ensures forall i, j :: 0 <= i < j < |r| ==> r[i] < r[j]
  {
    if readings == [] then []
    else
      var n := |readings| - 1;
      var front := Homophones(readings[..n], s);
      assert forall i :: 0 <= i < |front| ==> front[i] in front;
      if readings[n] == s then front + [n] else front
  }

  /** `paths` names every node by the labels that lead to it from the root. */
  ghost predicate IsTrie(nodes: seq<Node>, paths: seq<string>) {
    && |paths| == |nodes| > 0
    && paths[0] == ""
    && Distinct(paths)
    && (forall n :: 0 <= n < |nodes| ==> Ascending(nodes[n].edges) && EdgesFollow(nodes, paths, n))
    && (forall k {:trigger HasParent(nodes, paths, k)} :: 0 < k < |nodes| ==> HasParent(nodes, paths, k))
  }

  ghost predicate EdgesFollow(nodes: seq<Node>, paths: seq<string>, n: nat)
    requires n < |nodes| == |paths|
  {
    forall e :: e in nodes[n].edges ==> e.child < |nodes| && paths[e.child] == paths[n] + [e.key]
  }

  ghost predicate HasParent(nodes: seq<Node>, paths: seq<string>, k: nat)
    requires k < |nodes| == |paths|
  {
    exists p: nat, key: char ::
      p < |nodes| && Edge(key, k) in nodes[p].edges && paths[k] == paths[p] + [key]
  }

  /** The whole meaning of a built trie: one node per distinct prefix, holding
      exactly the entries whose reading is that prefix. */
  ghost predicate Indexes(nodes: seq<Node>, paths: seq<string>, readings: seq<string>) {
    && IsTrie(nodes, paths)
    && (forall n :: 0 <= n < |nodes| ==> nodes[n].entries == Homophones(readings, paths[n]))
    && (forall i :: 0 <= i < |readings| ==> readings[i] in paths)
    && (forall n {:trigger StartsSome(paths[n], readings)} ::
           0 < n < |nodes| ==> StartsSome(paths[n], readings))
  }

  ghost predicate StartsSome(path: string, readings: seq<string>) {
    exists i :: 0 <= i < |readings| && path <= readings[i]
  }

  lemma ParentIsUnique(nodes: seq<Node>, paths: seq<string>, at: nat, key: char, k: nat)
    requires IsTrie(nodes, paths) && at < |nodes| && k < |nodes|
    requires paths[k] == paths[at] + [key]
    ensures Edge(key, k) in nodes[at].edges
  {
    assert k != 0;
    assert HasParent(nodes, paths, k);
    var p: nat, c: char :| p < |nodes| && Edge(c, k) in nodes[p].edges && paths[k] == paths[p] + [c];
    assert paths[p] == paths[k][..|paths[k]| - 1] == paths[at];
    assert c == paths[k][|paths[k]| - 1] == key;
  }

  /** Adding a child for a label its node lacks keeps a trie. */
  lemma AddChild(nodes: seq<Node>, paths: seq<string>, at: nat, key: char) returns (grown: seq<Node>, named: seq<string>)
    requires IsTrie(nodes, paths) && at < |nodes|
    requires Child(nodes[at].edges, key) == None
    ensures named == paths + [paths[at] + [key]]
    ensures grown == (nodes + [Node([], [])])[at := nodes[at].(edges := Insert(nodes[at].edges, Edge(key, |nodes|)))]
    ensures IsTrie(grown, named)
  {
    named := paths + [paths[at] + [key]];
    grown := (nodes + [Node([], [])])[at := nodes[at].(edges := Insert(nodes[at].edges, Edge(key, |nodes|)))];
    forall k | 0 <= k < |paths| ensures paths[k] != paths[at] + [key] {
      if paths[k] == paths[at] + [key] {
        ParentIsUnique(nodes, paths, at, key, k);
      }
    }
    forall n | 0 <= n < |grown| ensures Ascending(grown[n].edges) && EdgesFollow(grown, named, n) {
      if n < |nodes| {
        assert EdgesFollow(nodes, paths, n);
      }
    }
    forall k | 0 < k < |grown| ensures HasParent(grown, named, k) {
      if k == |nodes| {
        assert Edge(key, k) in grown[at].edges;
      } else {
        assert HasParent(nodes, paths, k);
        var p: nat, c: char :| p < |nodes| && Edge(c, k) in nodes[p].edges && paths[k] == paths[p] + [c];
        assert Edge(c, k) in grown[p].edges;
      }
    }
  }

  /** A new child for a label the node lacks. */
  method GrowChild(nodes: seq<Node>, ghost paths: seq<string>, at: nat, key: char)
    returns (grown: seq<Node>, ghost named: seq<string>)
    requires IsTrie(nodes, paths) && at < |nodes| == |paths| && Child(nodes[at].edges, key) == None
    ensures IsTrie(grown, named) && |grown| == |nodes| + 1 && named == paths + [paths[at] + [key]]
    ensures forall n :: 0 <= n < |nodes| ==> grown[n].entries == nodes[n].entries
    ensures grown[|nodes|].entries == []
  {
    NodeFacts(nodes, paths, at, key);
    hide IsTrie, EdgesFollow, HasParent, Insert, Child;
    ghost var more, names := AddChild(nodes, paths, at, key);
    grown := nodes + [Node([], [])];
    grown := grown[at := grown[at].(edges := Insert(grown[at].edges, Edge(key, |nodes|)))];
    named := names;
  }

  lemma NodeFacts(nodes: seq<Node>, paths: seq<string>, at: nat, key: char)
    requires IsTrie(nodes, paths) && at < |nodes|
    ensures |nodes| == |paths| && paths[0] == "" && Ascending(nodes[at].edges)
    ensures var child := Child(nodes[at].edges, key);
            child.Some? ==> child.value < |nodes| && paths[child.value] == paths[at] + [key]
  {
    hide HasParent;
    assert EdgesFollow(nodes, paths, at);
  }

  /** Old nodes keep their entries; new ones have none and begin the reading. */
  ghost predicate OnlyGrown(nodes: seq<Node>, grown: seq<Node>, named: seq<string>, reading: string) {
    && |nodes| <= |grown| == |named|
    && (forall n :: 0 <= n < |nodes| ==> grown[n].entries == nodes[n].entries)
    && (forall n :: |nodes| <= n < |grown| ==> grown[n].entries == [] && named[n] <= reading)
  }

  lemma GrowsOn(nodes: seq<Node>, grown: seq<Node>, named: seq<string>, more: seq<Node>, path: string, reading: string)
    requires OnlyGrown(nodes, grown, named, reading) && path <= reading && |more| == |grown| + 1
    requires forall n :: 0 <= n < |grown| ==> more[n].entries == grown[n].entries
    requires more[|grown|].entries == []
    ensures OnlyGrown(nodes, more, named + [path], reading)
  {}

  /** Follows a reading from the root and creates the nodes it lacks. */
  method Descend(nodes: seq<Node>, ghost paths: seq<string>, reading: string)
    returns (grown: seq<Node>, ghost named: seq<string>, at: nat)
    requires IsTrie(nodes, paths)
    ensures IsTrie(grown, named) && paths <= named
    ensures at < |grown| && named[at] == reading
    ensures OnlyGrown(nodes, grown, named, reading)
  {
    grown, named, at := nodes, paths, 0;
    NodeFacts(grown, named, at, 'a');
    hide IsTrie, EdgesFollow, HasParent, Insert, Child, OnlyGrown;
    assert OnlyGrown(nodes, grown, named, reading) by { NothingGrown(nodes, named, reading); }
    for depth := 0 to |reading|
      invariant IsTrie(grown, named) && |grown| == |named| && paths <= named
      invariant at < |grown| && named[at] == reading[..depth]
      invariant OnlyGrown(nodes, grown, named, reading)
    {
      var key := reading[depth];
      assert reading[..depth] + [key] == reading[..depth + 1];
      NodeFacts(grown, named, at, key);
      match Child(grown[at].edges, key) {
        case Some(child) =>
          at := child;
        case None =>
          var child := |grown|;
          var more, names := GrowChild(grown, named, at, key);
          GrowsOn(nodes, grown, named, more, named[at] + [key], reading);
          grown, named := more, names;
          at := child;
      }
    }
    assert reading[..|reading|] == reading;
  }

  lemma NothingGrown(nodes: seq<Node>, paths: seq<string>, reading: string)
    requires |nodes| == |paths|
    ensures OnlyGrown(nodes, nodes, paths, reading)
  {}

  /** Recording an entry at the node of its reading. */
  lemma AddEntry(nodes: seq<Node>, paths: seq<string>, grown: seq<Node>, named: seq<string>, at: nat,
                 before: seq<string>, reading: string)
    requires Indexes(nodes, paths, before)
    requires IsTrie(grown, named) && paths <= named && at < |grown| && named[at] == reading
    requires OnlyGrown(nodes, grown, named, reading)
    ensures Indexes(grown[at := grown[at].(entries := grown[at].entries + [|before|])], named, before + [reading])
  {
    var all := before + [reading];
    var done := grown[at := grown[at].(entries := grown[at].entries + [|before|])];
    TrieIgnoresEntries(grown, done, named);
    forall n | 0 <= n < |done| ensures done[n].entries == Homophones(all, named[n]) {
      HomophonesPush(before, reading, named[n]);
      if n >= |nodes| {
        NoHomophones(before, paths, named[n]);
      }
    }
    forall n | 0 < n < |done| ensures StartsSome(named[n], all) {
      if n < |nodes| {
        assert StartsSome(paths[n], before);
        var i :| 0 <= i < |before| && paths[n] <= before[i];
        assert named[n] <= all[i];
      } else {
        assert named[n] <= all[|before|];
      }
    }
    forall i | 0 <= i < |all| ensures all[i] in named {
      if i < |before| {
        assert all[i] in paths;
      }
    }
  }

  lemma HomophonesPush(before: seq<string>, reading: string, s: string)
    ensures Homophones(before + [reading], s)
         == Homophones(before, s) + if reading == s then [|before|] else []
  {
    assert (before + [reading])[..|before|] == before;
  }

  lemma NoHomophones(before: seq<string>, paths: seq<string>, s: string)
    requires forall i :: 0 <= i < |before| ==> before[i] in paths
    requires s !in paths
    ensures Homophones(before, s) == []
  {
    if Homophones(before, s) != [] {
      assert Homophones(before, s)[0] in Homophones(before, s);
    }
  }

  lemma TrieIgnoresEntries(nodes: seq<Node>, other: seq<Node>, paths: seq<string>)
    requires IsTrie(nodes, paths) && |nodes| == |other|
    requires forall n :: 0 <= n < |nodes| ==> other[n].edges == nodes[n].edges
    ensures IsTrie(other, paths)
  {
    forall n | 0 <= n < |other| ensures EdgesFollow(other, paths, n) {
      assert EdgesFollow(nodes, paths, n);
    }
    forall k | 0 < k < |other| ensures HasParent(other, paths, k) {
      assert HasParent(nodes, paths, k);
    }
  }

  lemma RootIndexes()
    ensures Indexes([Node([], [])], [""], [])
    ensures forall s :: |Homophones([], s)| <= MAX_HOMOPHONES
  {}

  lemma EntriesIndexed(nodes: seq<Node>, paths: seq<string>, readings: seq<string>, at: nat)
    requires Indexes(nodes, paths, readings) && at < |nodes|
    ensures |nodes| == |paths| && nodes[at].entries == Homophones(readings, paths[at])
  {}

  /** One more reading, in the trie as built so far. */
  method AddReading(nodes: seq<Node>, ghost paths: seq<string>, ghost before: seq<string>, reading: string, entry: nat)
    returns (grown: seq<Node>, ghost named: seq<string>, at: nat)
    requires Indexes(nodes, paths, before) && entry == |before|
    ensures Indexes(grown, named, before + [reading])
    ensures at < |grown| && |grown[at].entries| == |Homophones(before + [reading], reading)|
  {
    hide Homophones, HasParent, EdgesFollow, StartsSome;
    grown, named, at := Descend(nodes, paths, reading);
    AddEntry(nodes, paths, grown, named, at, before, reading);
    grown := grown[at := grown[at].(entries := grown[at].entries + [entry])];
    EntriesIndexed(grown, named, before + [reading], at);
  }

  /** Only the reading added gains a homophone. */
  lemma StillFew(before: seq<string>, reading: string)
    requires forall s :: |Homophones(before, s)| <= MAX_HOMOPHONES
    requires |Homophones(before + [reading], reading)| <= MAX_HOMOPHONES
    ensures forall s :: |Homophones(before + [reading], s)| <= MAX_HOMOPHONES
  {
    hide Homophones;
    forall s ensures |Homophones(before + [reading], s)| <= MAX_HOMOPHONES {
      HomophonesPush(before, reading, s);
    }
  }

  /** build_trie. The ghost `paths` names the nodes of the result. */
  method Build(readings: seq<string>) returns (r: Result<seq<Node>, BuildError>, ghost paths: seq<string>)
    ensures r.Ok? ==> Indexes(r.value, paths, readings)
    ensures r.Ok? <==> forall s :: |Homophones(readings, s)| <= MAX_HOMOPHONES
  {
    hide Indexes, Homophones;
    var nodes := [Node([], [])];
    paths := [""];
    RootIndexes();
    assert readings[..0] == [];
    for i := 0 to |readings|
      invariant Indexes(nodes, paths, readings[..i])
      invariant forall s :: |Homophones(readings[..i], s)| <= MAX_HOMOPHONES
    {
      TakeMore(readings, i);
      var at;
      nodes, paths, at := AddReading(nodes, paths, readings[..i], readings[i], i);
      if |nodes[at].entries| > MAX_HOMOPHONES {
        HomophonesGrow(readings, i + 1, readings[i]);
        return Err(TooManyHomophones(i)), paths;
      }
      StillFew(readings[..i], readings[i]);
    }
    assert readings[..|readings|] == readings;
    r := Ok(nodes);
  }

  lemma {:induction false} HomophonesGrow(readings: seq<string>, n: nat, s: string)
    requires n <= |readings|
    ensures |Homophones(readings[..n], s)| <= |Homophones(readings, s)|
    decreases |readings|
  {
    if n < |readings| {
      assert readings[..|readings| - 1][..n] == readings[..n];
      HomophonesGrow(readings[..|readings| - 1], n, s);
    } else {
      assert readings[..n] == readings;
    }
  }

  /** Every prefix of a named path is named. */
  lemma {:induction false} PrefixNamed(nodes: seq<Node>, paths: seq<string>, k: nat, n: nat)
    requires IsTrie(nodes, paths) && k < |nodes| && n <= |paths[k]|
    ensures paths[k][..n] in paths
    decreases |paths[k]|
  {
    if n == |paths[k]| {
      assert paths[k][..n] == paths[k];
    } else {
      assert HasParent(nodes, paths, k);
      var p: nat, c: char :| p < |nodes| && Edge(c, k) in nodes[p].edges && paths[k] == paths[p] + [c];
      PrefixNamed(nodes, paths, p, n);
      assert paths[k][..n] == paths[p][..n];
    }
  }
}
