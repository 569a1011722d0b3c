/** Glossary prices: the bisection, the pass that yields a reading to its
    upstream owner, and the pass that keeps aliases behind their term. */
module GlossaryPricing {
  import opened Wrappers
  import opened Wire
  import opened Sequences
  import opened Sorting

  const UPSTREAM_LEADER_MARGIN := 60
  const VARIANT_MARGIN := 70
  const IT_BIAS_PER_MILLE := 100
  const MAX_IT_BOOST := 800
  const I64_MAX := 0x7fff_ffff_ffff_ffff

  type Cost = c: int | 0 <= c <= I32_MAX

  /** Connection costs of the sentence start with a left class, and of a right
      class with the sentence end. */
  datatype Links = Links(start: u16 -> u16, end: u16 -> u16)

  datatype Edge = Edge(surface: string, alias: bool, phonetic: bool, matched: bool, source: string, line: nat,
                       leftId: u16, rightId: u16, wordCost: Cost, yielded: bool)

  datatype Owner = Owner(surface: string, total: int)

  function ItBoost(cost: Cost): int {
    var share := cost * IT_BIAS_PER_MILLE / 1000;
    if share < MAX_IT_BOOST then share else MAX_IT_BOOST
  }

  /** Total of an edge at a word cost: links and the reduced cost. */
  function TotalAt(links: Links, e: Edge, cost: Cost): int {
    links.start(e.leftId) + (cost - ItBoost(cost)) + links.end(e.rightId)
  }

  function Total(links: Links, e: Edge): int { TotalAt(links, e, e.wordCost) }

  /** The total at the highest cost an edge can have. */
  function Ceiling(links: Links, e: Edge): int { TotalAt(links, e, I32_MAX) }

  function SaturatingAdd(a: int, b: int): int { if a + b > I64_MAX then I64_MAX else a + b }

  /** Raising the word cost by one raises the total by one or not at all. */
  lemma TotalSteps(links: Links, e: Edge, cost: Cost)
    requires cost < I32_MAX
    ensures TotalAt(links, e, cost) <= TotalAt(links, e, cost + 1) <= TotalAt(links, e, cost) + 1
  {
    assert (cost + 1) * IT_BIAS_PER_MILLE / 1000 <= cost * IT_BIAS_PER_MILLE / 1000 + 1;
  }

  lemma TotalMonotone(links: Links, e: Edge, low: Cost, high: Cost)
    requires low <= high
    ensures TotalAt(links, e, low) <= TotalAt(links, e, high)
    ensures high >= low + VARIANT_MARGIN ==> TotalAt(links, e, high) >= TotalAt(links, e, low) + 63
  {
    assert high * IT_BIAS_PER_MILLE / 1000 <= low * IT_BIAS_PER_MILLE / 1000 + (high - low) / 10 + 1;
  }

  // ------------------------------------------------------------- bisection

  /** The least cost from `from` on whose total reaches the slot, or the ceiling. */
  ghost function LeastCost(links: Links, e: Edge, from: Cost, slot: int): (c: Cost)
    ensures from <= c && (c == I32_MAX || TotalAt(links, e, c) >= slot)
    ensures forall b: Cost :: from <= b < c ==> TotalAt(links, e, b) < slot
    decreases I32_MAX - from
  {
    if from == I32_MAX || TotalAt(links, e, from) >= slot then from else LeastCost(links, e, from + 1, slot)
  }

  lemma LeastCostUnique(links: Links, e: Edge, from: Cost, slot: int, c: Cost)
    requires from <= c && (c == I32_MAX || TotalAt(links, e, c) >= slot)
    requires c > from ==> TotalAt(links, e, c - 1) < slot
    ensures c == LeastCost(links, e, from, slot)
  {
    var least := LeastCost(links, e, from, slot);
    if c > from {
      TotalMonotone(links, e, if least < c then least else from, c - 1);
    }
  }

  /** cheapest_cost_at_or_above */
  method CheapestCostAtOrAbove(links: Links, e: Edge, from: Cost, slot: int) returns (c: Cost)
    ensures c == LeastCost(links, e, from, slot)
  {
    hide TotalAt;
    if TotalAt(links, e, from) >= slot {
      return from;
    }
    if TotalAt(links, e, I32_MAX) < slot {
      TotalMonotone(links, e, I32_MAX - 1, I32_MAX);
      LeastCostUnique(links, e, from, slot, I32_MAX);
      return I32_MAX;
    }
    var cheap, yielding := from, I32_MAX;
    while yielding - cheap > 1
      invariant from <= cheap < yielding <= I32_MAX
      invariant TotalAt(links, e, cheap) < slot <= TotalAt(links, e, yielding)
    {
      var middle := cheap + (yielding - cheap) / 2;
      if TotalAt(links, e, middle) >= slot {
        yielding := middle;
      } else {
        cheap := middle;
      }
    }
    assert cheap == yielding - 1;
    LeastCostUnique(links, e, from, slot, yielding);
    return yielding;
  }

  /** A cost lifted to a slot it can reach lands on it exactly. */
  lemma LiftLandsOnSlot(links: Links, e: Edge, slot: int)
    requires Total(links, e) <= slot
    ensures TotalAt(links, e, LeastCost(links, e, e.wordCost, slot)) <= slot
    ensures Ceiling(links, e) >= slot ==> TotalAt(links, e, LeastCost(links, e, e.wordCost, slot)) == slot
    ensures Ceiling(links, e) < slot ==> TotalAt(links, e, LeastCost(links, e, e.wordCost, slot)) == Ceiling(links, e)
  {
    hide TotalAt;
    var c := LeastCost(links, e, e.wordCost, slot);
    if c > e.wordCost {
      TotalSteps(links, e, c - 1);
    }
    TotalMonotone(links, e, c, I32_MAX);
  }

  // ------------------------------------------------------------ yield pass

  /** One entry of the list the pass sorts. */
  datatype Visit = Visit(total: int, surface: string, index: nat)

  /** By total, then by surface. */
  predicate VisitLeq(a: Visit, b: Visit) {
    a.total < b.total || (a.total == b.total && TextLeq(a.surface, b.surface))
  }

  lemma VisitsAreOrdered()
    ensures IsOrder(VisitLeq)
  {
    hide TextLeq;
    forall a: Visit, b: Visit ensures VisitLeq(a, b) || VisitLeq(b, a) {
      TextTotal(a.surface, b.surface);
    }
    forall a: Visit, b: Visit, c: Visit | VisitLeq(a, b) && VisitLeq(b, c) ensures VisitLeq(a, c) {
      if a.total == c.total { TextTransitive(a.surface, b.surface, c.surface); }
    }
  }

  function Visits(links: Links, edges: seq<Edge>): (s: seq<Visit>)
    ensures |s| == |edges|
    ensures forall i :: 0 <= i < |s| ==> s[i] == Visit(Total(links, edges[i]), edges[i].surface, i)
  {
    seq(|edges|, i requires 0 <= i < |edges| => Visit(Total(links, edges[i]), edges[i].surface, i))
  }

  function Order(links: Links, edges: seq<Edge>): seq<Visit> { SortBy(Visits(links, edges), VisitLeq) }

  ghost predicate Visited(order: seq<Visit>, k: nat) {
    exists i :: 0 <= i < |order| && order[i].index == k
  }

  /** An order that visits every edge once, by rising total. */
  ghost predicate IsOrderOf(links: Links, edges: seq<Edge>, order: seq<Visit>) {
    && |order| == |edges|
    && (forall i :: 0 <= i < |order| ==> order[i].index < |edges| && order[i].total == Total(links, edges[order[i].index]))
    && (forall i, j :: 0 <= i < j < |order| ==> order[i].index != order[j].index && order[i].total <= order[j].total)
    && (forall k {:trigger Visited(order, k)} :: 0 <= k < |edges| ==> Visited(order, k))
  }

  lemma OrderVisitsAll(links: Links, edges: seq<Edge>)
    ensures IsOrderOf(links, edges, Order(links, edges))
  {
    hide Total, SortBy, TextLeq;
    var visits, order := Visits(links, edges), Order(links, edges);
    SortKeeps(visits, VisitLeq);
    VisitsAreOrdered();
    SortSorts(visits, VisitLeq);
    DistinctReordered(order, visits);
    forall i | 0 <= i < |order|
      ensures order[i].index < |edges| && order[i] == visits[order[i].index]
    {
      assert order[i] in multiset(order);
      assert order[i] in visits;
    }
    forall k | 0 <= k < |edges| ensures Visited(order, k) {
      assert visits[k] in multiset(visits);
      var i :| 0 <= i < |order| && order[i] == visits[k];
      assert order[i].index == k;
    }
    assert forall i, j :: 0 <= i < j < |order| ==> VisitLeq(order[i], order[j]);
  }

  /** The edges after lifting those visited from position j on, the first of them
      to `slot`, and the position of the first edge that already ranks behind. */
  ghost function Lift(links: Links, edges: seq<Edge>, order: seq<Visit>, j: nat, slot: int): (r: (seq<Edge>, nat))
    requires j <= |order| && forall i :: 0 <= i < |order| ==> order[i].index < |edges|
    ensures |r.0| == |edges| && j <= r.1 <= |order|
    decreases |order| - j
  {
    if j == |order| || order[j].total >= slot then (edges, j)
    else
      var index := order[j].index;
      var lifted := edges[index].(wordCost := LeastCost(links, edges[index], edges[index].wordCost, slot));
      Lift(links, edges[index := lifted], order, j + 1, SaturatingAdd(Total(links, lifted), 1))
  }

  function Marked(edges: seq<Edge>): (r: seq<Edge>)
    ensures |r| == |edges| && forall i :: 0 <= i < |r| ==> r[i] == edges[i].(yielded := true)
  {
    seq(|edges|, i requires 0 <= i < |edges| => edges[i].(yielded := true))
  }

  /** When the pass acts: an owner the glossary does not supply, and a cheapest
      edge that is a match, not phonetic, and not already behind the owner. */
  predicate Acts(links: Links, edges: seq<Edge>, owner: Owner) {
    && (forall i :: 0 <= i < |edges| ==> edges[i].surface != owner.surface)
    && edges != []
    && var first := Order(links, edges)[..1];
       first != [] && first[0].index < |edges| && first[0].total <= owner.total
       && edges[first[0].index].matched && !edges[first[0].index].phonetic
  }

  function FirstSlot(owner: Owner): int { SaturatingAdd(owner.total, UPSTREAM_LEADER_MARGIN) }

  ghost function AfterYield(links: Links, edges: seq<Edge>, owner: Option<Owner>): (r: seq<Edge>)
    ensures |r| == |edges|
  {
    if owner.None? || !Acts(links, edges, owner.value) then edges
    else
      OrderVisitsAll(links, edges);
      Lift(links, Marked(edges), Order(links, edges), 0, FirstSlot(owner.value)).0
  }

  /** The lifting loop. */
  method LiftInOrder(links: Links, priced: array<Edge>, order: seq<Visit>, firstSlot: int)
    requires forall i :: 0 <= i < |order| ==> order[i].index < priced.Length
    modifies priced
    ensures priced[..] == Lift(links, old(priced[..]), order, 0, firstSlot).0
  {
    hide Total, LeastCost;
    var slot := firstSlot;
    ghost var goal := Lift(links, priced[..], order, 0, slot);
    for j := 0 to |order|
      invariant Lift(links, priced[..], order, j, slot) == goal
    {
      if order[j].total >= slot { break; }
      var index := order[j].index;
      var lifted := CheapestCostAtOrAbove(links, priced[index], priced[index].wordCost, slot);
      assert priced[..][index] == priced[index];
      ghost var was := priced[..];
      priced[index] := priced[index].(wordCost := lifted);
      assert priced[..] == was[index := priced[index]];
      slot := SaturatingAdd(Total(links, priced[index]), 1);
    }
  }

  method MarkAll(priced: array<Edge>)
    modifies priced
    ensures priced[..] == Marked(old(priced[..]))
  {
    for i := 0 to priced.Length
      invariant forall k :: 0 <= k < priced.Length ==>
        priced[k] == if k < i then old(priced[k]).(yielded := true) else old(priced[k])
    {
      priced[i] := priced[i].(yielded := true);
    }
  }

  method Supplies(priced: array<Edge>, surface: string) returns (r: bool)
    ensures r <==> exists i :: 0 <= i < priced.Length && priced[i].surface == surface
  {
    for i := 0 to priced.Length
      invariant forall k :: 0 <= k < i ==> priced[k].surface != surface
    {
      if priced[i].surface == surface { return true; }
    }
    r := false;
  }

  /** yield_to_upstream_leader */
  method YieldToUpstreamLeader(links: Links, priced: array<Edge>, owner: Option<Owner>)
    modifies priced
    ensures priced[..] == AfterYield(links, old(priced[..]), owner)
  {
    hide Total, Order, Lift;
    if owner.None? { return; }
    var supplied := Supplies(priced, owner.value.surface);
    if supplied {
      ghost var i :| 0 <= i < priced.Length && priced[i].surface == owner.value.surface;
      assert priced[..][i].surface == owner.value.surface;
      return;
    }
    var order := Order(links, priced[..]);
    OrderVisitsAll(links, priced[..]);
    if |order| == 0 { return; }
    assert order[..1] == [order[0]];
    var first := priced[order[0].index];
    assert first == priced[..][order[0].index];
    if order[0].total > owner.value.total || !first.matched || first.phonetic { return; }
    MarkAll(priced);
    LiftInOrder(links, priced, order, FirstSlot(owner.value));
  }

  // ------------------------------------------------ what the yield pass keeps

  /** Only cost and mark may differ, and the cost only upwards. */
  predicate Raised(after: Edge, before: Edge) {
    after == before.(wordCost := after.wordCost, yielded := after.yielded) && after.wordCost >= before.wordCost
  }

  /** From position j on the visit list still describes the edges. */
  ghost predicate Pending(links: Links, edges: seq<Edge>, order: seq<Visit>, j: nat) {
    && (forall i :: 0 <= i < |order| ==> order[i].index < |edges|)
    && (forall i, k :: 0 <= i < k < |order| ==> order[i].index != order[k].index && order[i].total <= order[k].total)
    && (forall i :: j <= i < |order| ==> order[i].total == Total(links, edges[order[i].index]))
  }

  /** The edges after one lift. */
  ghost function Lifted(links: Links, edges: seq<Edge>, index: nat, slot: int): (r: seq<Edge>)
    requires index < |edges|
    ensures |r| == |edges|
  {
    edges[index := edges[index].(wordCost := LeastCost(links, edges[index], edges[index].wordCost, slot))]
  }

  lemma {:induction false} LiftOnlyRaises(links: Links, edges: seq<Edge>, order: seq<Visit>, j: nat, slot: int)
    requires j <= |order| && Pending(links, edges, order, j)
    ensures var (final, k) := Lift(links, edges, order, j, slot);
            && (forall n :: 0 <= n < |edges| ==> Raised(final[n], edges[n]))
            && (forall i :: 0 <= i < |order| && !(j <= i < k) ==> final[order[i].index] == edges[order[i].index])
    decreases |order| - j
  {
    hide Total, LeastCost;
    if j < |order| && order[j].total < slot {
      var next := Lifted(links, edges, order[j].index, slot);
      LiftOnlyRaises(links, next, order, j + 1, SaturatingAdd(Total(links, next[order[j].index]), 1));
    }
  }

  lemma RaisedWithinCeiling(links: Links, after: Edge, before: Edge)
    requires Raised(after, before)
    ensures Total(links, before) <= Total(links, after) <= Ceiling(links, before) == Ceiling(links, after)
  {
    TotalMonotone(links, before, before.wordCost, after.wordCost);
    TotalMonotone(links, before, after.wordCost, I32_MAX);
  }

  /** Nothing the pass leaves ranks before `base` if every edge can reach it. */
  lemma {:induction false} LiftKeepsBase(links: Links, edges: seq<Edge>, order: seq<Visit>, j: nat, slot: int, base: int)
    requires j <= |order| && Pending(links, edges, order, j) && base <= slot && base <= I64_MAX
    requires forall i :: j <= i < |order| ==> Ceiling(links, edges[order[i].index]) >= base
    ensures var final := Lift(links, edges, order, j, slot).0;
            forall i :: j <= i < |order| ==> Total(links, final[order[i].index]) >= base
    decreases |order| - j
  {
    hide Total, Ceiling, LeastCost;
    if j < |order| && order[j].total < slot {
      var e := edges[order[j].index];
      var next := Lifted(links, edges, order[j].index, slot);
      var lifted := next[order[j].index];
      LiftBounds(links, e, slot);
      var behind := SaturatingAdd(Total(links, lifted), 1);
      LiftKeepsBase(links, next, order, j + 1, behind, base);
      LiftOnlyRaises(links, next, order, j + 1, behind);
    }
  }

  lemma LiftBounds(links: Links, e: Edge, slot: int)
    requires Total(links, e) <= slot
    ensures var lifted := e.(wordCost := LeastCost(links, e, e.wordCost, slot));
            && Raised(lifted, e)
            && Total(links, lifted) == (if Ceiling(links, e) >= slot then slot else Ceiling(links, e))
  {
    LiftLandsOnSlot(links, e, slot);
  }

  /** Edge i of the visit, lifted from `edges` to `slot`, sits exactly there at
      the least cost that reaches it. */
  ghost predicate Landed(links: Links, final: Edge, before: Edge, slot: int) {
    && Total(links, final) == slot
    && final.wordCost == LeastCost(links, before, before.wordCost, slot)
  }

  /** The slot of visit i. */
  function SlotAt(first: int, i: nat): int { first + i }

  /** Where the slots can be reached, the lifted edges take consecutive totals
      and every other edge stays behind them. */
  lemma {:induction false} LiftLands(links: Links, edges: seq<Edge>, order: seq<Visit>, j: nat, first: int)
    requires j <= |order| && Pending(links, edges, order, j) && first + |order| <= I64_MAX
    requires forall i {:trigger SlotAt(first, i)} :: j <= i < |order| ==>
               Ceiling(links, edges[order[i].index]) >= SlotAt(first, i)
    ensures var (final, k) := Lift(links, edges, order, j, SlotAt(first, j));
            && (forall i {:trigger SlotAt(first, i)} :: j <= i < k ==>
                  Landed(links, final[order[i].index], edges[order[i].index], SlotAt(first, i)))
            && (forall i :: k <= i < |order| ==> order[i].total >= SlotAt(first, k))
    decreases |order| - j
  {
    hide Total, Ceiling, LeastCost, Landed;
    var slot := SlotAt(first, j);
    if j < |order| && order[j].total < slot {
      var e := edges[order[j].index];
      var next := Lifted(links, edges, order[j].index, slot);
      LiftBounds(links, e, slot);
      assert SaturatingAdd(slot, 1) == SlotAt(first, j + 1);
      LiftLands(links, next, order, j + 1, first);
      LiftOnlyRaises(links, next, order, j + 1, SlotAt(first, j + 1));
      LandedHere(links, next[order[j].index], e, slot);
    }
  }

  lemma LandedHere(links: Links, final: Edge, before: Edge, slot: int)
    requires Total(links, final) == slot && final.wordCost == LeastCost(links, before, before.wordCost, slot)
    ensures Landed(links, final, before, slot)
  {}

  lemma OrderIsPending(links: Links, edges: seq<Edge>)
    ensures Pending(links, Marked(edges), Order(links, edges), 0)
  {
    OrderVisitsAll(links, edges);
  }

  /** After the yield pass every edge ranks at least the margin behind the owner
      exactly when every edge can be priced that far back at all. */
  lemma YieldKeepsOwnerFirst(links: Links, edges: seq<Edge>, owner: Owner)
    requires Acts(links, edges, owner)
    ensures var after := AfterYield(links, edges, Some(owner));
            (forall n :: 0 <= n < |edges| ==> Total(links, after[n]) >= FirstSlot(owner))
            <==> (forall n :: 0 <= n < |edges| ==> Ceiling(links, edges[n]) >= FirstSlot(owner))
  {
    hide Acts, Total, Ceiling, Order, Lift;
    var order, after, slot := Order(links, edges), AfterYield(links, edges, Some(owner)), FirstSlot(owner);
    OrderIsPending(links, edges);
    OrderVisitsAll(links, edges);
    LiftOnlyRaises(links, Marked(edges), order, 0, slot);
    forall n | 0 <= n < |edges|
      ensures Total(links, after[n]) <= Ceiling(links, edges[n]) == Ceiling(links, Marked(edges)[n])
    {
      RaisedWithinCeiling(links, after[n], edges[n]);
      RaisedWithinCeiling(links, Marked(edges)[n], edges[n]);
    }
    if forall n :: 0 <= n < |edges| ==> Ceiling(links, edges[n]) >= slot {
      LiftKeepsBase(links, Marked(edges), order, 0, slot, slot);
      forall n | 0 <= n < |edges| ensures Total(links, after[n]) >= slot {
        assert Visited(order, n);
        var i :| 0 <= i < |order| && order[i].index == n;
      }
    }
  }

  /** With room above the owner the pass keeps the glossary's own order: the
      lifted edges take the totals from the first slot on, one apart, each at
      the least cost that gets there; the others keep their price behind them. */
  lemma YieldKeepsOrder(links: Links, edges: seq<Edge>, owner: Owner)
    requires Acts(links, edges, owner)
    requires owner.total + UPSTREAM_LEADER_MARGIN + |edges| <= I64_MAX
    requires forall n :: 0 <= n < |edges| ==>
               Ceiling(links, edges[n]) >= owner.total + UPSTREAM_LEADER_MARGIN + |edges|
    ensures var order, after := Order(links, edges), AfterYield(links, edges, Some(owner));
            exists k: nat :: k <= |order| && InOrder(links, edges, order, after, k, FirstSlot(owner))
  {
    hide Acts, Total, Ceiling, Order, Lift;
    var order, slot := Order(links, edges), FirstSlot(owner);
    OrderIsPending(links, edges);
    OrderVisitsAll(links, edges);
    var marked := Marked(edges);
    forall n | 0 <= n < |edges| ensures Ceiling(links, marked[n]) == Ceiling(links, edges[n]) {
      RaisedWithinCeiling(links, marked[n], edges[n]);
    }
    LiftLands(links, marked, order, 0, slot);
    LiftOnlyRaises(links, marked, order, 0, slot);
    var (after, k) := Lift(links, marked, order, 0, slot);
    assert after == AfterYield(links, edges, Some(owner));
    assert InOrder(links, edges, order, after, k, slot);
  }

  /** The first k visited edges were lifted to consecutive slots, the rest kept. */
  ghost predicate InOrder(links: Links, edges: seq<Edge>, order: seq<Visit>, after: seq<Edge>, k: nat, first: int)
    requires |after| == |edges|
  {
    forall i {:trigger SlotAt(first, i)} :: 0 <= i < |order| ==>
      var n := order[i].index;
      && n < |edges|
      && (i < k ==> Landed(links, after[n], edges[n].(yielded := true), SlotAt(first, i)))
      && (i >= k ==> after[n] == edges[n].(yielded := true) && order[i].total >= SlotAt(first, k))
  }

  // --------------------------------------------------------------- alias pass

  predicate IsAscii(s: string) { forall i :: 0 <= i < |s| ==> s[i] as int < 128 }

  predicate NeedsTerm(e: Edge) { e.alias && !e.phonetic && !e.matched }

  predicate IsTermFor(term: Edge, e: Edge) {
    !term.alias && !IsAscii(term.surface) && term.source == e.source && term.line == e.line
  }

  /** iter().find: the first term from position i on that `e` spells. */
  function TermFrom(edges: seq<Edge>, e: Edge, i: nat): (r: Option<nat>)
    requires i <= |edges|
    ensures r.Some? ==> i <= r.value < |edges| && IsTermFor(edges[r.value], e)
    ensures r.None? ==> forall k :: i <= k < |edges| ==> !IsTermFor(edges[k], e)
    decreases |edges| - i
  {
    if i == |edges| then None else if IsTermFor(edges[i], e) then Some(i) else TermFrom(edges, e, i + 1)
  }

  function SaturatingCost(cost: Cost, extra: nat): Cost { if cost + extra > I32_MAX then I32_MAX else cost + extra }

  function Behind(e: Edge, term: Edge): Edge {
    var floor := SaturatingCost(term.wordCost, VARIANT_MARGIN);
    e.(leftId := term.leftId, rightId := term.rightId, wordCost := if e.wordCost > floor then e.wordCost else floor)
  }

  function Variant(edges: seq<Edge>, e: Edge): Edge {
    if !NeedsTerm(e) then e
    else match TermFrom(edges, e, 0)
      case None => e
      case Some(t) => Behind(e, edges[t])
  }

  function AfterVariants(edges: seq<Edge>): (r: seq<Edge>)
    ensures |r| == |edges| && forall i :: 0 <= i < |r| ==> r[i] == Variant(edges, edges[i])
  {
    seq(|edges|, i requires 0 <= i < |edges| => Variant(edges, edges[i]))
  }

  datatype Reprice = Reprice(index: nat, leftId: u16, rightId: u16, wordCost: Cost)

  predicate Ascending(list: seq<Reprice>, n: nat) {
    && (forall i :: 0 <= i < |list| ==> list[i].index < n)
    && (forall i, j :: 0 <= i < j < |list| ==> list[i].index < list[j].index)
  }

  function Apply(e: Edge, r: Reprice): Edge { e.(leftId := r.leftId, rightId := r.rightId, wordCost := r.wordCost) }

  ghost predicate Untouched(list: seq<Reprice>, i: nat) { forall k :: 0 <= k < |list| ==> list[k].index != i }

  /** What the list makes of edge i. */
  ghost predicate Describes(list: seq<Reprice>, edges: seq<Edge>, i: nat)
    requires i < |edges|
  {
    && (Untouched(list, i) ==> Variant(edges, edges[i]) == edges[i])
    && (forall k :: 0 <= k < |list| && list[k].index == i ==> Variant(edges, edges[i]) == Apply(edges[i], list[k]))
  }

  lemma SkipDescribes(list: seq<Reprice>, edges: seq<Edge>, i: nat)
    requires i < |edges| && Ascending(list, i) && Variant(edges, edges[i]) == edges[i]
    ensures Describes(list, edges, i)
  {}

  lemma PushDescribes(list: seq<Reprice>, edges: seq<Edge>, i: nat, r: Reprice)
    requires i < |edges| && Ascending(list, i) && r.index == i && Variant(edges, edges[i]) == Apply(edges[i], r)
    requires forall k :: 0 <= k < i ==> Describes(list, edges, k)
    ensures forall k :: 0 <= k <= i ==> Describes(list + [r], edges, k)
  {
    hide Variant, Apply;
    var longer := list + [r];
    assert longer[|list|] == r;
    forall k | 0 <= k < i ensures Describes(longer, edges, k) {
      assert Describes(list, edges, k);
      if Untouched(longer, k) {
        assert forall m :: 0 <= m < |list| ==> longer[m] == list[m];
        assert Untouched(list, k);
      }
    }
    assert !Untouched(longer, i);
  }

  /** price_variants_behind_their_term */
  method PriceVariantsBehindTheirTerm(priced: array<Edge>)
    modifies priced
    ensures priced[..] == AfterVariants(old(priced[..]))
  {
    hide IsTermFor, NeedsTerm, TermFrom, Behind;
    ghost var before := priced[..];
    var repriced: seq<Reprice> := [];
    for i := 0 to priced.Length
      invariant priced[..] == before && Ascending(repriced, i)
      invariant forall k :: 0 <= k < i ==> Describes(repriced, before, k)
    {
      var e := priced[i];
      if !NeedsTerm(e) {
        SkipDescribes(repriced, before, i);
        continue;
      }
      var t := TermFrom(priced[..], e, 0);
      if t.None? {
        SkipDescribes(repriced, before, i);
        continue;
      }
      var moved := Behind(e, priced[t.value]);
      assert Variant(before, before[i]) == moved;
      BehindApplies(e, priced[t.value], i);
      PushDescribes(repriced, before, i, Reprice(i, moved.leftId, moved.rightId, moved.wordCost));
      repriced := repriced + [Reprice(i, moved.leftId, moved.rightId, moved.wordCost)];
    }
    for n := 0 to |repriced|
      invariant forall i :: 0 <= i < priced.Length && Untouched(repriced[..n], i) ==> priced[i] == before[i]
      invariant forall k :: 0 <= k < n ==> priced[repriced[k].index] == Apply(before[repriced[k].index], repriced[k])
      invariant forall k :: n <= k < |repriced| ==> priced[repriced[k].index] == before[repriced[k].index]
    {
      priced[repriced[n].index] := Apply(priced[repriced[n].index], repriced[n]);
      assert repriced[..n + 1] == repriced[..n] + [repriced[n]];
      forall i: nat | i < priced.Length && Untouched(repriced[..n + 1], i) ensures priced[i] == before[i] {
        assert repriced[..n + 1][n].index != i;
        assert forall k :: 0 <= k < n ==> repriced[..n + 1][k] == repriced[..n][k];
        assert Untouched(repriced[..n], i);
      }
    }
    forall i | 0 <= i < priced.Length ensures priced[i] == Variant(before, before[i]) {
      assert Describes(repriced, before, i);
      assert repriced[..|repriced|] == repriced;
      if !Untouched(repriced, i) {
        var k :| 0 <= k < |repriced| && repriced[k].index == i;
        assert priced[repriced[k].index] == Apply(before[repriced[k].index], repriced[k]);
      }
    }
  }

  lemma BehindApplies(e: Edge, term: Edge, i: nat)
    ensures Behind(e, term) == Apply(e, Reprice(i, Behind(e, term).leftId, Behind(e, term).rightId, Behind(e, term).wordCost))
  {}

  /** Terms are not aliases, so the pass leaves them alone; an alias it moves
      connects as its term does and ranks behind it, by at least 63 unless the
      cost hits its ceiling. */
  lemma AliasStaysBehindTerm(links: Links, edges: seq<Edge>, i: nat)
    requires i < |edges| && NeedsTerm(edges[i]) && TermFrom(edges, edges[i], 0).Some?
    ensures var t := TermFrom(edges, edges[i], 0).value;
            var after := AfterVariants(edges);
            && after[t] == edges[t]
            && after[i].leftId == edges[t].leftId && after[i].rightId == edges[t].rightId
            && Total(links, after[i]) >= Total(links, after[t])
            && (edges[t].wordCost + VARIANT_MARGIN <= I32_MAX ==> Total(links, after[i]) >= Total(links, after[t]) + 63)
  {
    hide TermFrom;
    var t := TermFrom(edges, edges[i], 0).value;
    TotalMonotone(links, edges[t], edges[t].wordCost, AfterVariants(edges)[i].wordCost);
  }

  /** Both passes in their order. */
  ghost function AfterBoth(links: Links, edges: seq<Edge>, owner: Option<Owner>): seq<Edge> {
    AfterVariants(AfterYield(links, edges, owner))
  }

  /** The alias pass reprices this edge. */
  predicate IsTied(edges: seq<Edge>, n: nat)
    requires n < |edges|
  {
    NeedsTerm(edges[n]) && TermFrom(edges, edges[n], 0).Some?
  }

  /** The yield pass changes nothing the alias pass looks at to find a term. */
  lemma {:induction false} TermsStay(edges: seq<Edge>, after: seq<Edge>, n: nat, i: nat)
    requires |after| == |edges| && n < |edges| && i <= |edges|
    requires forall k :: 0 <= k < |edges| ==> Raised(after[k], edges[k])
    ensures TermFrom(after, after[n], i) == TermFrom(edges, edges[n], i)
    decreases |edges| - i
  {
    if i < |edges| { TermsStay(edges, after, n, i + 1); }
  }

  lemma TiesStay(edges: seq<Edge>, after: seq<Edge>)
    requires |after| == |edges| && forall k :: 0 <= k < |edges| ==> Raised(after[k], edges[k])
    ensures forall n :: 0 <= n < |edges| ==> IsTied(after, n) == IsTied(edges, n)
  {
    hide TermFrom;
    forall n | 0 <= n < |edges| ensures IsTied(after, n) == IsTied(edges, n) { TermsStay(edges, after, n, 0); }
  }

  lemma YieldOnlyRaises(links: Links, edges: seq<Edge>, owner: Option<Owner>)
    ensures forall n :: 0 <= n < |edges| ==> Raised(AfterYield(links, edges, owner)[n], edges[n])
  {
    hide Acts, Total, Order, Lift;
    if owner.Some? && Acts(links, edges, owner.value) {
      OrderIsPending(links, edges);
      OrderVisitsAll(links, edges);
      LiftOnlyRaises(links, Marked(edges), Order(links, edges), 0, FirstSlot(owner.value));
    }
  }

  ghost predicate BehindSomeFree(links: Links, edges: seq<Edge>, e: Edge) {
    exists t :: 0 <= t < |edges| && !IsTied(edges, t) && Total(links, e) >= Total(links, edges[t])
  }

  /** Whatever all free edges are behind, the alias pass puts all edges behind. */
  lemma VariantsFollowTerms(links: Links, edges: seq<Edge>, base: int)
    ensures (forall n :: 0 <= n < |edges| ==> Total(links, AfterVariants(edges)[n]) >= base)
            <==> (forall n :: 0 <= n < |edges| && !IsTied(edges, n) ==> Total(links, edges[n]) >= base)
  {
    hide Total, TermFrom, Behind;
    forall n | 0 <= n < |edges|
      ensures !IsTied(edges, n) ==> AfterVariants(edges)[n] == edges[n]
      ensures IsTied(edges, n) ==> BehindSomeFree(links, edges, AfterVariants(edges)[n])
    {
      if IsTied(edges, n) { AliasStaysBehindTerm(links, edges, n); }
    }
  }

  ghost predicate AllBehind(links: Links, edges: seq<Edge>, base: int) {
    forall n :: 0 <= n < |edges| ==> Total(links, edges[n]) >= base
  }

  ghost predicate FreeBehind(links: Links, edges: seq<Edge>, base: int) {
    forall n :: 0 <= n < |edges| && !IsTied(edges, n) ==> Total(links, edges[n]) >= base
  }

  ghost predicate AllCanReach(links: Links, edges: seq<Edge>, base: int) {
    forall n :: 0 <= n < |edges| ==> Ceiling(links, edges[n]) >= base
  }

  ghost predicate TiedCanReach(links: Links, edges: seq<Edge>, base: int) {
    forall n :: 0 <= n < |edges| && IsTied(edges, n) ==> Ceiling(links, edges[n]) >= base
  }

  /** The two passes together: the owner keeps rank one by the whole margin, for
      every edge, exactly when the yield pass alone gives it that margin over the
      edges the alias pass leaves alone. If repriced aliases can be priced that far
      back, this is the case exactly when every edge can. */
  lemma BothPassesKeepOwnerFirst(links: Links, edges: seq<Edge>, owner: Owner)
    requires Acts(links, edges, owner)
    ensures AllBehind(links, AfterBoth(links, edges, Some(owner)), FirstSlot(owner))
            <==> FreeBehind(links, AfterYield(links, edges, Some(owner)), FirstSlot(owner))
    ensures TiedCanReach(links, edges, FirstSlot(owner)) ==>
      (AllBehind(links, AfterBoth(links, edges, Some(owner)), FirstSlot(owner)) <==> AllCanReach(links, edges, FirstSlot(owner)))
  {
    hide Acts, Total, Ceiling, AfterVariants, AfterYield, IsTied, Raised;
    var yielded, slot := AfterYield(links, edges, Some(owner)), FirstSlot(owner);
    VariantsFollowTerms(links, yielded, slot);
    YieldKeepsOwnerFirst(links, edges, owner);
    YieldOnlyRaises(links, edges, Some(owner));
    TiesStay(edges, yielded);
    forall n | 0 <= n < |edges| ensures Total(links, yielded[n]) <= Ceiling(links, edges[n]) {
      RaisedWithinCeiling(links, yielded[n], edges[n]);
    }
    if TiedCanReach(links, edges, slot) && FreeBehind(links, yielded, slot) {
      forall n | 0 <= n < |edges| ensures Ceiling(links, edges[n]) >= slot {
        assert !IsTied(edges, n) ==> !IsTied(yielded, n);
      }
    }
  }

  /** The ceiling can stop the margin: no price reaches an owner this dear. */
  lemma CeilingStopsMargin(links: Links, e: Edge, owner: Owner)
    requires e.matched && !e.phonetic && !e.alias && e.surface != owner.surface
    requires owner.total == I32_MAX + 0x2_0000
    ensures Acts(links, [e], owner)
    ensures Total(links, AfterBoth(links, [e], Some(owner))[0]) < FirstSlot(owner)
  {
    OrderVisitsAll(links, [e]);
    var order := Order(links, [e]);
    assert Visited(order, 0);
    assert |order| == 1 && order[..1] == order;
    RaisedWithinCeiling(links, e, e);
    YieldOnlyRaises(links, [e], Some(owner));
    var after := AfterYield(links, [e], Some(owner));
    RaisedWithinCeiling(links, after[0], e);
    assert !NeedsTerm(after[0]);
  }
}
