/** Breadth-first renumbering of the reading trie into the node table and the
    LOUDS bits of an image (flatten_trie), and the reader that walks them. */
module Louds {
  import opened Wrappers
  import opened Sequences
  import opened Wire
  import opened Trie

  /** A visited arena node with the label that leads to it. */
  datatype Visit = Visit(node: nat, key: char)

  /** The children of a node in label order, as the traversal queues them. */
  function Visits(edges: seq<Edge>): (r: seq<Visit>)
    ensures |r| == |edges|
  {
    seq(|edges|, i requires 0 <= i < |edges| => Visit(edges[i].child, edges[i].key))
  }

  function Degree(nodes: seq<Node>, v: Visit): nat
    requires v.node < |nodes|
  {
    |nodes[v.node].edges|
  }

  ghost predicate InArena(nodes: seq<Node>, order: seq<Visit>) {
    forall k :: 0 <= k < |order| ==> order[k].node < |nodes|
  }

  /** New index of the first child of the j-th visited node: the root, plus all
      children of the nodes visited before it. */
  function FirstChild(nodes: seq<Node>, order: seq<Visit>, j: nat): nat
    requires InArena(nodes, order) && j <= |order|
  {
    if j == 0 then 1 else FirstChild(nodes, order, j - 1) + Degree(nodes, order[j - 1])
  }

  lemma {:induction false} FirstChildMonotone(nodes: seq<Node>, order: seq<Visit>, i: nat, j: nat)
    requires InArena(nodes, order) && i <= j <= |order|
    ensures FirstChild(nodes, order, i) <= FirstChild(nodes, order, j)
    ensures i < j ==> FirstChild(nodes, order, i) + Degree(nodes, order[i]) <= FirstChild(nodes, order, j)
    decreases j - i
  {
    if i < j { FirstChildMonotone(nodes, order, i, j - 1); }
  }

  lemma {:induction false} FirstChildPrefix(nodes: seq<Node>, order: seq<Visit>, more: seq<Visit>, j: nat)
    requires InArena(nodes, order + more) && j <= |order|
    ensures InArena(nodes, order)
    ensures FirstChild(nodes, order + more, j) == FirstChild(nodes, order, j)
    decreases j
  {
    assert forall k :: 0 <= k < |order| ==> (order + more)[k] == order[k];
    if j > 0 { FirstChildPrefix(nodes, order, more, j - 1); }
  }

  /** The children of order[j] occupy consecutive places from FirstChild(j). */
  ghost predicate ChildrenAt(nodes: seq<Node>, order: seq<Visit>, j: nat)
    requires InArena(nodes, order) && j < |order|
  {
    var first := FirstChild(nodes, order, j);
    && first + Degree(nodes, order[j]) <= |order|
    && order[first..first + Degree(nodes, order[j])] == Visits(nodes[order[j].node].edges)
  }

  /** State of the traversal after `done` nodes left the queue; `order` is the
      visited nodes followed by the queue, `from[k]` the place of k's parent. */
  ghost predicate Traversed(nodes: seq<Node>, paths: seq<string>, order: seq<Visit>, from: seq<nat>, done: nat) {
    && IsTrie(nodes, paths)
    && InArena(nodes, order)
    && done <= |order| == |from|
    && order != [] && order[0] == Visit(0, '\0')
    && (forall i, j :: 0 <= i < j < |order| ==> order[i].node != order[j].node)
    && |order| == FirstChild(nodes, order, done)
    && (forall j :: 0 <= j < done ==> ChildrenAt(nodes, order, j))
    && (forall k {:trigger CameFrom(paths, order, from, done, k)} :: 0 < k < |order| ==>
          CameFrom(paths, order, from, done, k))
  }

  ghost predicate CameFrom(paths: seq<string>, order: seq<Visit>, from: seq<nat>, done: nat, k: nat)
    requires k < |order| && |order| == |from|
  {
    && from[k] < done <= |order|
    && order[k].node < |paths| && order[from[k]].node < |paths|
    && paths[order[k].node] == paths[order[from[k]].node] + [order[k].key]
  }

  lemma NotQueuedYet(nodes: seq<Node>, paths: seq<string>, order: seq<Visit>, from: seq<nat>, done: nat,
                     i: nat, e: Edge)
    requires Traversed(nodes, paths, order, from, done) && done < |order|
    requires i < |order| && e in nodes[order[done].node].edges
    ensures order[i].node != e.child
  {
    var at := order[done].node;
    assert EdgesFollow(nodes, paths, at);
    assert paths[e.child] == paths[at] + [e.key];
    if i > 0 {
      assert CameFrom(paths, order, from, done, i);
      var parent := order[from[i]].node;
      assert parent != at;
      assert paths[parent] != paths[at];
      assert paths[parent] == paths[order[i].node][..|paths[order[i].node]| - 1];
      assert paths[at] == paths[e.child][..|paths[e.child]| - 1];
    }
  }

  lemma NewChildrenDistinct(nodes: seq<Node>, paths: seq<string>, order: seq<Visit>, from: seq<nat>, done: nat,
                            i: nat, j: nat)
    requires Traversed(nodes, paths, order, from, done) && done < |order|
    requires i < j < |order| + Degree(nodes, order[done])
    ensures var next := order + Visits(nodes[order[done].node].edges); next[i].node != next[j].node
  {
    var at := order[done].node;
    var edges := nodes[at].edges;
    assert EdgesFollow(nodes, paths, at);
    if j >= |order| {
      var e := edges[j - |order|];
      if i >= |order| {
        var d := edges[i - |order|];
        assert d in edges && e in edges && d.key < e.key;
        assert paths[d.child][|paths[at]|] == d.key && paths[e.child][|paths[at]|] == e.key;
      } else {
        NotQueuedYet(nodes, paths, order, from, done, i, e);
      }
    }
  }

  lemma ChildrenStay(nodes: seq<Node>, order: seq<Visit>, more: seq<Visit>, j: nat)
    requires InArena(nodes, order + more) && InArena(nodes, order)
    requires j < |order| && ChildrenAt(nodes, order, j)
    ensures ChildrenAt(nodes, order + more, j)
  {
    FirstChildPrefix(nodes, order, more, j);
    var first := FirstChild(nodes, order, j);
    assert (order + more)[first..first + Degree(nodes, order[j])] == order[first..first + Degree(nodes, order[j])];
  }

  lemma QueueChildren(nodes: seq<Node>, paths: seq<string>, order: seq<Visit>, from: seq<nat>, done: nat)
    requires Traversed(nodes, paths, order, from, done) && done < |order|
    ensures Traversed(nodes, paths, order + Visits(nodes[order[done].node].edges),
                      from + seq(Degree(nodes, order[done]), _ => done), done + 1)
  {
    var more := Visits(nodes[order[done].node].edges);
    var next := order + more;
    ChildrenInArena(nodes, paths, order, done);
    hide IsTrie, EdgesFollow, CameFrom, ChildrenAt, FirstChild;
    FirstChildPrefix(nodes, order, more, done);
    NextFirstChild(nodes, next, done);
    forall i, j | 0 <= i < j < |next| ensures next[i].node != next[j].node {
      NewChildrenDistinct(nodes, paths, order, from, done, i, j);
    }
    forall j | 0 <= j < done + 1 ensures ChildrenAt(nodes, next, j) {
      if j < done { ChildrenStay(nodes, order, more, j); } else { NewGroup(nodes, order, done); }
    }
    ChildrenCameFrom(nodes, paths, order, from, done);
  }

  lemma ChildrenInArena(nodes: seq<Node>, paths: seq<string>, order: seq<Visit>, done: nat)
    requires IsTrie(nodes, paths) && InArena(nodes, order) && done < |order|
    ensures InArena(nodes, order + Visits(nodes[order[done].node].edges))
  {
    hide HasParent;
    var edges := nodes[order[done].node].edges;
    assert EdgesFollow(nodes, paths, order[done].node);
    assert forall i :: 0 <= i < |edges| ==> edges[i] in edges;
  }

  lemma NextFirstChild(nodes: seq<Node>, order: seq<Visit>, j: nat)
    requires InArena(nodes, order) && j < |order|
    ensures FirstChild(nodes, order, j + 1) == FirstChild(nodes, order, j) + Degree(nodes, order[j])
  {}

  /** The children queued last are the group of the node that queued them. */
  lemma NewGroup(nodes: seq<Node>, order: seq<Visit>, done: nat)
    requires InArena(nodes, order) && done < |order| && |order| == FirstChild(nodes, order, done)
    requires InArena(nodes, order + Visits(nodes[order[done].node].edges))
    ensures ChildrenAt(nodes, order + Visits(nodes[order[done].node].edges), done)
  {
    var more := Visits(nodes[order[done].node].edges);
    FirstChildPrefix(nodes, order, more, done);
    hide FirstChild, InArena, Visits;
    SecondPart(order, more);
    assert (order + more)[done] == order[done];
  }

  lemma SecondPart(order: seq<Visit>, more: seq<Visit>)
    ensures (order + more)[|order|..|order| + |more|] == more
  {}

  /** Every queued visit has its parent before it. */
  lemma ChildrenCameFrom(nodes: seq<Node>, paths: seq<string>, order: seq<Visit>, from: seq<nat>, done: nat)
    requires Traversed(nodes, paths, order, from, done) && done < |order|
    ensures var next, origin := order + Visits(nodes[order[done].node].edges), from + seq(Degree(nodes, order[done]), _ => done);
            forall k {:trigger CameFrom(paths, next, origin, done + 1, k)} :: 0 < k < |next| ==>
              CameFrom(paths, next, origin, done + 1, k)
  {
    var at := order[done].node;
    var edges := nodes[at].edges;
    var next, origin := order + Visits(edges), from + seq(|edges|, _ => done);
    assert EdgesFollow(nodes, paths, at);
    forall k {:trigger CameFrom(paths, next, origin, done + 1, k)} | 0 < k < |next|
      ensures CameFrom(paths, next, origin, done + 1, k)
    {
      if k < |order| {
        assert CameFrom(paths, order, from, done, k);
      } else {
        assert edges[k - |order|] in edges;
      }
    }
  }

  lemma OrderFits(nodes: seq<Node>, paths: seq<string>, order: seq<Visit>, from: seq<nat>, done: nat)
    requires Traversed(nodes, paths, order, from, done)
    ensures |order| <= |nodes|
  {
    Pigeonhole(Arena(order), |nodes|);
  }

  lemma {:induction false} AllVisited(nodes: seq<Node>, paths: seq<string>, order: seq<Visit>, from: seq<nat>, k: nat)
    requires Traversed(nodes, paths, order, from, |order|) && k < |nodes|
    ensures exists i :: 0 <= i < |order| && order[i].node == k
    decreases |paths[k]|
  {
    if k == 0 {
      assert order[0].node == 0;
    } else {
      assert HasParent(nodes, paths, k);
      var p: nat, c: char :| p < |nodes| && Edge(c, k) in nodes[p].edges && paths[k] == paths[p] + [c];
      AllVisited(nodes, paths, order, from, p);
      var j :| 0 <= j < |order| && order[j].node == p;
      ChildVisited(nodes, order, j, Edge(c, k));
    }
  }

  lemma ChildVisited(nodes: seq<Node>, order: seq<Visit>, j: nat, edge: Edge)
    requires InArena(nodes, order) && j < |order| && ChildrenAt(nodes, order, j)
    requires edge in nodes[order[j].node].edges
    ensures exists i :: 0 <= i < |order| && order[i].node == edge.child
  {
    var edges := nodes[order[j].node].edges;
    var e :| 0 <= e < |edges| && edges[e] == edge;
    var first := FirstChild(nodes, order, j);
    assert order[first + e] == order[first..first + |edges|][e] == Visits(edges)[e];
  }

  function Arena(order: seq<Visit>): (r: seq<nat>)
    ensures |r| == |order| && forall i :: 0 <= i < |r| ==> r[i] == order[i].node
  {
    seq(|order|, i requires 0 <= i < |order| => order[i].node)
  }

  /** Breadth-first order: every node once, children of a node side by side in
      label order, and groups in the order of their parents. */
  ghost predicate IsLevelOrder(nodes: seq<Node>, paths: seq<string>, order: seq<Visit>) {
    && IsTrie(nodes, paths)
    && InArena(nodes, order)
    && order != [] && order[0] == Visit(0, '\0')
    && IsPermutation(Arena(order), |nodes|)
    && |order| == FirstChild(nodes, order, |order|)
    && (forall j :: 0 <= j < |order| ==> ChildrenAt(nodes, order, j))
  }

  lemma TraversalComplete(nodes: seq<Node>, paths: seq<string>, order: seq<Visit>, from: seq<nat>)
    requires Traversed(nodes, paths, order, from, |order|)
    ensures IsLevelOrder(nodes, paths, order)
  {
    forall k: nat | k < |nodes| ensures k in Arena(order) {
      AllVisited(nodes, paths, order, from, k);
      var i :| 0 <= i < |order| && order[i].node == k;
      assert Arena(order)[i] == k;
    }
    Pigeonhole(Arena(order), |nodes|);
  }

  lemma EdgePlace(nodes: seq<Node>, order: seq<Visit>, i: nat, e: nat)
    requires InArena(nodes, order) && i < |order| && ChildrenAt(nodes, order, i) && e < Degree(nodes, order[i])
    ensures FirstChild(nodes, order, i) + e < |order|
    ensures order[FirstChild(nodes, order, i) + e].node == nodes[order[i].node].edges[e].child
  {
    hide FirstChild;
    var first, edges := FirstChild(nodes, order, i), nodes[order[i].node].edges;
    assert order[first..first + |edges|] == Visits(edges);
    assert order[first + e] == order[first..first + |edges|][e] == Visits(edges)[e];
  }

  /** In level order every node but the root stands in its parent's group. */
  lemma InParentsGroup(nodes: seq<Node>, paths: seq<string>, order: seq<Visit>, k: nat) returns (i: nat, e: nat)
    requires IsLevelOrder(nodes, paths, order) && 0 < k < |order|
    ensures i < |order| && |paths[order[i].node]| < |paths[order[k].node]|
    ensures e < Degree(nodes, order[i]) && k == FirstChild(nodes, order, i) + e
  {
    var at := order[k].node;
    assert Arena(order)[0] != Arena(order)[k];
    assert HasParent(nodes, paths, at);
    var p: nat, c: char :| p < |nodes| && Edge(c, at) in nodes[p].edges && paths[at] == paths[p] + [c];
    assert p in Arena(order);
    i :| 0 <= i < |order| && Arena(order)[i] == p;
    e :| 0 <= e < |nodes[p].edges| && nodes[p].edges[e] == Edge(c, at);
    hide IsTrie, EdgesFollow, HasParent, ChildrenAt, FirstChild;
    EdgePlace(nodes, order, i, e);
    assert Arena(order)[FirstChild(nodes, order, i) + e] == Arena(order)[k];
  }

  /** The queue is never empty before the last node: a node's group starts behind it. */
  lemma {:induction false} QueueNotEmpty(nodes: seq<Node>, paths: seq<string>, order: seq<Visit>, j: nat, k: nat)
    requires IsLevelOrder(nodes, paths, order) && j <= k < |order|
    ensures j < FirstChild(nodes, order, j)
    decreases |paths[order[k].node]|
  {
    if k > 0 {
      var i, e := InParentsGroup(nodes, paths, order, k);
      if i < j {
        FirstChildMonotone(nodes, order, i, j);
      } else {
        QueueNotEmpty(nodes, paths, order, j, i);
      }
    }
  }

  ghost predicate Agree(nodes: seq<Node>, a: seq<Visit>, b: seq<Visit>, j: nat)
    requires InArena(nodes, a) && InArena(nodes, b) && j <= |a| && j <= |b|
  {
    var first := FirstChild(nodes, a, j);
    first == FirstChild(nodes, b, j) && first <= |a| && first <= |b| && a[..first] == b[..first]
  }

  /** The group of the next visit extends a common beginning. */
  lemma SameGroup(nodes: seq<Node>, a: seq<Visit>, b: seq<Visit>, j: nat)
    requires InArena(nodes, a) && InArena(nodes, b) && j < |a| && j < |b|
    requires Agree(nodes, a, b, j) && j < FirstChild(nodes, a, j)
    requires ChildrenAt(nodes, a, j) && ChildrenAt(nodes, b, j)
    ensures Agree(nodes, a, b, j + 1)
  {
    var first := FirstChild(nodes, a, j);
    assert a[j] == a[..first][j] == b[..first][j] == b[j];
    var end := first + Degree(nodes, a[j]);
    assert a[..end] == a[..first] + a[first..end] && b[..end] == b[..first] + b[first..end];
  }

  lemma {:induction false} SameStart(nodes: seq<Node>, paths: seq<string>, a: seq<Visit>, b: seq<Visit>, j: nat)
    requires IsLevelOrder(nodes, paths, a) && IsLevelOrder(nodes, paths, b) && j <= |a| == |b|
    ensures Agree(nodes, a, b, j)
  {
    if j == 0 {
      assert a[..1] == [a[0]] && b[..1] == [b[0]];
    } else {
      SameStart(nodes, paths, a, b, j - 1);
      QueueNotEmpty(nodes, paths, a, j - 1, j - 1);
      hide Agree, IsTrie, FirstChild;
      SameGroup(nodes, a, b, j - 1);
    }
  }

  /** A trie has one level order only. */
  lemma LevelOrderIsUnique(nodes: seq<Node>, paths: seq<string>, a: seq<Visit>, b: seq<Visit>)
    requires IsLevelOrder(nodes, paths, a) && IsLevelOrder(nodes, paths, b)
    ensures a == b
  {
    assert |Arena(a)| == |a| && |Arena(b)| == |b|;
    SameStart(nodes, paths, a, b, |a|);
    assert a[..|a|] == a && b[..|b|] == b;
  }

  method BreadthFirst(nodes: seq<Node>, ghost paths: seq<string>) returns (bfs: seq<Visit>)
    requires IsTrie(nodes, paths)
    ensures IsLevelOrder(nodes, paths, bfs)
  {
    var queue := [Visit(0, '\0')];
    bfs := [];
    ghost var from: seq<nat> := [0];
    while queue != []
      invariant Traversed(nodes, paths, bfs + queue, from, |bfs|)
      decreases |nodes| - |bfs|
    {
      ghost var order := bfs + queue;
      assert order[|bfs|] == queue[0];
      QueueChildren(nodes, paths, order, from, |bfs|);
      OrderFits(nodes, paths, order, from, |bfs|);
      var visit := queue[0];
      from := from + seq(Degree(nodes, visit), _ => |bfs|);
      bfs, queue := bfs + [visit], queue[1..] + Visits(nodes[visit.node].edges);
      assert bfs + queue == order + Visits(nodes[visit.node].edges);
    }
    assert bfs + queue == bfs;
    TraversalComplete(nodes, paths, bfs, from);
  }

  function Trues(n: nat): (s: seq<bool>)
    ensures |s| == n && forall i :: 0 <= i < n ==> s[i]
  {
    seq(n, _ => true)
  }

  /** One group of child bits per node in level order, each closed by a zero. */
  function Bits(nodes: seq<Node>, order: seq<Visit>, j: nat): seq<bool>
    requires InArena(nodes, order) && j <= |order|
  {
    if j == 0 then [] else Bits(nodes, order, j - 1) + Trues(Degree(nodes, order[j - 1])) + [false]
  }

  function Ones(bits: seq<bool>): nat {
    if bits == [] then 0 else Ones(bits[..|bits| - 1]) + if bits[|bits| - 1] then 1 else 0
  }

  lemma {:induction false} OnesAppend(bits: seq<bool>, n: nat)
    ensures Ones(bits + Trues(n)) == Ones(bits) + n
    ensures Ones(bits + [false]) == Ones(bits)
  {
    assert (bits + [false])[..|bits|] == bits;
    if n == 0 {
      assert bits + Trues(0) == bits;
    } else {
      OnesAppend(bits, n - 1);
      var more := bits + Trues(n);
      assert more[..|more| - 1] == bits + Trues(n - 1);
    }
  }

  /** The bit groups name the tree by themselves: group j starts after the j
      zeros of the groups before it, and the first child of a node with children
      is one more than the set bits before its group. */
  lemma {:induction false} GroupStart(nodes: seq<Node>, order: seq<Visit>, j: nat)
    requires InArena(nodes, order) && j <= |order|
    ensures FirstChild(nodes, order, j) == 1 + Ones(Bits(nodes, order, j))
    ensures |Bits(nodes, order, j)| == FirstChild(nodes, order, j) - 1 + j
  {
    if j > 0 {
      hide Ones, Trues;
      GroupStart(nodes, order, j - 1);
      var before := Bits(nodes, order, j - 1);
      var n := Degree(nodes, order[j - 1]);
      OnesAppend(before, n);
      OnesAppend(before + Trues(n), 0);
    }
  }

  lemma {:induction false} BitsPrefix(nodes: seq<Node>, order: seq<Visit>, i: nat, j: nat)
    requires InArena(nodes, order) && i <= j <= |order|
    ensures Bits(nodes, order, i) <= Bits(nodes, order, j)
    decreases j
  {
    if i < j { BitsPrefix(nodes, order, i, j - 1); }
  }

  /** Where the bits of group j stand in the whole bit string. */
  lemma GroupBits(nodes: seq<Node>, order: seq<Visit>, j: nat, start: nat)
    requires InArena(nodes, order) && j < |order|
    requires start == FirstChild(nodes, order, j) - 1 + j
    ensures var bits := Bits(nodes, order, |order|);
            && start + Degree(nodes, order[j]) < |bits|
            && bits[..start] == Bits(nodes, order, j)
            && (forall i :: start <= i < start + Degree(nodes, order[j]) ==> bits[i])
            && !bits[start + Degree(nodes, order[j])]
  {
    var bits := Bits(nodes, order, |order|);
    GroupStart(nodes, order, j);
    BitsPrefix(nodes, order, j + 1, |order|);
    var before := Bits(nodes, order, j);
    var here := before + Trues(Degree(nodes, order[j])) + [false];
    assert here == Bits(nodes, order, j + 1);
    assert bits[..|here|] == here;
    assert forall i :: 0 <= i < |here| ==> bits[i] == here[i];
  }

  /** n nodes give 2n - 1 LOUDS bits, and rank over them yields every child group. */
  lemma LoudsNavigates(nodes: seq<Node>, paths: seq<string>, order: seq<Visit>, j: nat, start: nat)
    requires IsLevelOrder(nodes, paths, order) && j < |order|
    requires start == FirstChild(nodes, order, j) - 1 + j
    ensures var bits := Bits(nodes, order, |order|);
            && |bits| == 2 * |nodes| - 1
            && start + Degree(nodes, order[j]) < |bits|
            && FirstChild(nodes, order, j) == 1 + Ones(bits[..start])
            && (forall i :: start <= i < start + Degree(nodes, order[j]) ==> bits[i])
            && !bits[start + Degree(nodes, order[j])]
  {
    GroupStart(nodes, order, |order|);
    GroupStart(nodes, order, j);
    GroupBits(nodes, order, j, start);
  }
}
