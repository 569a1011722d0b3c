/** Stable sorting by a comparison, and the facts every sorted sweep relies on. */
module Sorting {
  /** Any two elements compare, and comparisons chain. */
  ghost predicate IsOrder<T(!new)>(leq: (T, T) -> bool) {
    && (forall a, b :: leq(a, b) || leq(b, a))
    && (forall a, b, c :: leq(a, b) && leq(b, c) ==> leq(a, c))
  }

  ghost predicate SortedBy<T>(s: seq<T>, leq: (T, T) -> bool) {
    forall i, j :: 0 <= i < j < |s| ==> leq(s[i], s[j])
  }

  function Insert<T>(x: T, s: seq<T>, leq: (T, T) -> bool): seq<T> {
    if s == [] || leq(x, s[0]) then [x] + s else [s[0]] + Insert(x, s[1..], leq)
  }

  /** sort_by: equal elements keep their order. */
  function SortBy<T>(s: seq<T>, leq: (T, T) -> bool): seq<T> {
    if s == [] then [] else Insert(s[0], SortBy(s[1..], leq), leq)
  }

  lemma {:induction false} InsertKeeps<T>(x: T, s: seq<T>, leq: (T, T) -> bool)
    ensures multiset(Insert(x, s, leq)) == multiset(s) + multiset{x}
    ensures |Insert(x, s, leq)| == |s| + 1
    decreases |s|
  {
    if s != [] && !leq(x, s[0]) {
      InsertKeeps(x, s[1..], leq);
      assert s == [s[0]] + s[1..];
    }
  }

  lemma {:induction false} SortKeeps<T>(s: seq<T>, leq: (T, T) -> bool)
    ensures multiset(SortBy(s, leq)) == multiset(s) && |SortBy(s, leq)| == |s|
    decreases |s|
  {
    if s != [] {
      SortKeeps(s[1..], leq);
      InsertKeeps(s[0], SortBy(s[1..], leq), leq);
      assert s == [s[0]] + s[1..];
    }
  }

  lemma {:induction false} InsertSorts<T(!new)>(x: T, s: seq<T>, leq: (T, T) -> bool)
    requires IsOrder(leq) && SortedBy(s, leq)
    ensures SortedBy(Insert(x, s, leq), leq)
    decreases |s|
  {
    if s != [] && !leq(x, s[0]) {
      InsertSorts(x, s[1..], leq);
      InsertKeeps(x, s[1..], leq);
      var rest := Insert(x, s[1..], leq);
      forall k | 0 <= k < |rest| ensures leq(s[0], rest[k]) {
        assert rest[k] in multiset(rest);
        assert rest[k] == x || rest[k] in s[1..];
      }
    } else if s != [] {
      forall k | 0 <= k < |s| ensures leq(x, s[k]) {
        assert leq(x, s[0]) && (k > 0 ==> leq(s[0], s[k]));
      }
    }
  }

  lemma {:induction false} SortSorts<T(!new)>(s: seq<T>, leq: (T, T) -> bool)
    requires IsOrder(leq)
    ensures SortedBy(SortBy(s, leq), leq)
    decreases |s|
  {
    if s != [] {
      SortSorts(s[1..], leq);
      InsertSorts(s[0], SortBy(s[1..], leq), leq);
    }
  }

  /** No two different members tie. */
  ghost predicate NoTies<T(!new)>(s: seq<T>, leq: (T, T) -> bool) {
    forall a, b :: a in s && b in s && leq(a, b) && leq(b, a) ==> a == b
  }

  /** Without ties, the sorted form depends on the members alone. */
  lemma {:induction false} SortedUnique<T(!new)>(a: seq<T>, b: seq<T>, leq: (T, T) -> bool)
    requires NoTies(a, leq) && SortedBy(a, leq) && SortedBy(b, leq) && multiset(a) == multiset(b)
    ensures a == b
    decreases |a|
  {
    assert |multiset(a)| == |a| && |multiset(b)| == |b|;
    if a != [] {
      FirstAgrees(a, b, leq);
      assert a == [a[0]] + a[1..] && b == [b[0]] + b[1..];
      assert multiset(a[1..]) == multiset(a) - multiset{a[0]};
      assert multiset(b[1..]) == multiset(b) - multiset{b[0]};
      SortedUnique(a[1..], b[1..], leq);
    }
  }

  lemma FirstAgrees<T(!new)>(a: seq<T>, b: seq<T>, leq: (T, T) -> bool)
    requires NoTies(a, leq) && SortedBy(a, leq) && SortedBy(b, leq) && multiset(a) == multiset(b)
    requires a != [] && b != []
    ensures a[0] == b[0]
  {
    assert a[0] in multiset(b) && b[0] in multiset(a);
    var i :| 0 <= i < |b| && b[i] == a[0];
    var j :| 0 <= j < |a| && a[j] == b[0];
    if i > 0 && j > 0 {
      assert leq(b[0], b[i]) && leq(a[0], a[j]);
    }
  }

  // ------------------------------------------------- insertion by swapping

  /** Sorted but for the element at `at`, which is in order with all behind it. */
  ghost predicate SortedExcept<T>(s: seq<T>, at: nat, leq: (T, T) -> bool) {
    && at < |s|
    && (forall i, j :: 0 <= i < j < |s| && i != at && j != at ==> leq(s[i], s[j]))
    && (forall j :: at < j < |s| ==> leq(s[at], s[j]))
  }

  lemma LastIsExcept<T>(front: seq<T>, last: T, leq: (T, T) -> bool)
    requires SortedBy(front, leq)
    ensures SortedExcept(front + [last], |front|, leq)
  {}

  function Swapped<T>(s: seq<T>, at: nat): (r: seq<T>)
    requires 0 < at < |s|
    ensures |r| == |s|
  {
    s[at := s[at - 1]][at - 1 := s[at]]
  }

  lemma SwapStep<T(!new)>(s: seq<T>, at: nat, leq: (T, T) -> bool)
    requires IsOrder(leq) && SortedExcept(s, at, leq) && at > 0 && !leq(s[at - 1], s[at])
    ensures SortedExcept(Swapped(s, at), at - 1, leq)
    ensures multiset(Swapped(s, at)) == multiset(s)
  {
    var r := Swapped(s, at);
    forall i, j | 0 <= i < j < |r| && i != at - 1 && j != at - 1 ensures leq(r[i], r[j]) {
      if j == at { assert leq(s[i], s[at - 1]); } else if i == at { assert leq(s[at - 1], s[j]); }
    }
  }

  lemma SwapsSettle<T(!new)>(s: seq<T>, at: nat, leq: (T, T) -> bool)
    requires IsOrder(leq) && SortedExcept(s, at, leq) && (at == 0 || leq(s[at - 1], s[at]))
    ensures SortedBy(s, leq)
  {
    forall i | 0 <= i < at ensures leq(s[i], s[at]) {
      assert i < at - 1 ==> leq(s[i], s[at - 1]);
    }
  }

  // -------------------------------------------------- the order of strings

  /** Lexicographic comparison of code points. */
  predicate TextLeq(a: string, b: string) {
    a == "" || (b != "" && (a[0] < b[0] || (a[0] == b[0] && TextLeq(a[1..], b[1..]))))
  }

  lemma {:induction false} TextTotal(a: string, b: string)
    ensures TextLeq(a, b) || TextLeq(b, a)
    ensures TextLeq(a, b) && TextLeq(b, a) ==> a == b
    decreases |a|
  {
    if a != "" && b != "" && a[0] == b[0] {
      TextTotal(a[1..], b[1..]);
      assert a == [a[0]] + a[1..] && b == [b[0]] + b[1..];
    }
  }

  lemma {:induction false} TextTransitive(a: string, b: string, c: string)
    requires TextLeq(a, b) && TextLeq(b, c)
    ensures TextLeq(a, c)
    decreases |a|
  {
    if a != "" && a[0] == b[0] == c[0] {
      TextTransitive(a[1..], b[1..], c[1..]);
    }
  }

  /** Three-way comparison. */
  function CompareText(a: string, b: string): int { if a == b then 0 else if TextLeq(a, b) then -1 else 1 }

  lemma TextCompares(a: string, b: string, c: string)
    ensures CompareText(a, b) == 0 <==> a == b
    ensures CompareText(a, b) == -CompareText(b, a)
    ensures CompareText(a, b) <= 0 && CompareText(b, c) <= 0 ==> CompareText(a, c) <= 0
    ensures CompareText(a, b) < 0 && CompareText(b, c) <= 0 ==> CompareText(a, c) < 0
    ensures CompareText(a, b) <= 0 && CompareText(b, c) < 0 ==> CompareText(a, c) < 0
  {
    hide TextLeq;
    TextTotal(a, b);
    TextTotal(b, c);
    TextTotal(a, c);
    if TextLeq(a, b) && TextLeq(b, c) { TextTransitive(a, b, c); }
    if TextLeq(b, c) && TextLeq(c, a) { TextTransitive(b, c, a); }
    if TextLeq(c, a) && TextLeq(a, b) { TextTransitive(c, a, b); }
    SelfLeq(a);
    SelfLeq(b);
  }

  lemma {:induction false} SelfLeq(a: string)
    ensures TextLeq(a, a)
  {
    if a != "" { SelfLeq(a[1..]); }
  }

  function CompareInt(a: int, b: int): int { if a < b then -1 else if a == b then 0 else 1 }

  /** Ordering::then */
  function Then(first: int, second: int): int { if first != 0 then first else second }

  // ------------------------------------------------------------ mapped sorting

  function Map<T, U>(f: T -> U, s: seq<T>): (r: seq<U>)
    ensures |r| == |s| && forall i :: 0 <= i < |s| ==> r[i] == f(s[i])
  {
    seq(|s|, i requires 0 <= i < |s| => f(s[i]))
  }

  lemma {:induction false} InsertMaps<T(!new), U>(x: T, s: seq<T>, f: T -> U, leq: (T, T) -> bool, onto: (U, U) -> bool)
    requires forall a, b :: leq(a, b) <==> onto(f(a), f(b))
    ensures Map(f, Insert(x, s, leq)) == Insert(f(x), Map(f, s), onto)
    decreases |s|
  {
    assert Map(f, s) == [] <==> s == [];
    if s == [] || leq(x, s[0]) {
      assert Map(f, [x] + s) == [f(x)] + Map(f, s);
    } else {
      InsertMaps(x, s[1..], f, leq, onto);
      assert Map(f, s)[1..] == Map(f, s[1..]);
      assert Map(f, [s[0]] + Insert(x, s[1..], leq)) == [f(s[0])] + Map(f, Insert(x, s[1..], leq));
    }
  }

  /** Sorting looks at nothing but what the comparison looks at. */
  lemma {:induction false} SortMaps<T(!new), U>(s: seq<T>, f: T -> U, leq: (T, T) -> bool, onto: (U, U) -> bool)
    requires forall a, b :: leq(a, b) <==> onto(f(a), f(b))
    ensures Map(f, SortBy(s, leq)) == SortBy(Map(f, s), onto)
    decreases |s|
  {
    if s != [] {
      SortMaps(s[1..], f, leq, onto);
      InsertMaps(s[0], SortBy(s[1..], leq), f, leq, onto);
      assert Map(f, s)[1..] == Map(f, s[1..]);
    }
  }

  lemma RemoveAt<T>(s: seq<T>, i: nat)
    requires i < |s|
    ensures multiset(s[..i] + s[i + 1..]) == multiset(s) - multiset{s[i]}
  {
    assert s == s[..i] + [s[i]] + s[i + 1..];
  }

  lemma MapAround<T, U>(f: T -> U, s: seq<T>, i: nat)
    requires i < |s|
    ensures multiset(Map(f, s)) == multiset(Map(f, s[..i] + s[i + 1..])) + multiset{f(s[i])}
  {
    var m, rest := Map(f, s), s[..i] + s[i + 1..];
    assert m == m[..i] + [m[i]] + m[i + 1..];
    assert Map(f, rest) == m[..i] + m[i + 1..];
  }

  lemma MapHead<T, U>(f: T -> U, s: seq<T>)
    requires s != []
    ensures multiset(Map(f, s)) == multiset(Map(f, s[1..])) + multiset{f(s[0])}
  {
    MapAround(f, s, 0);
    assert s[..0] + s[0 + 1..] == s[1..];
  }

  /** Taking the head of one out of the other leaves the same members. */
  lemma WithoutHead<T>(a: seq<T>, b: seq<T>) returns (i: nat)
    requires multiset(a) == multiset(b) && a != []
    ensures i < |b| && b[i] == a[0] && multiset(a[1..]) == multiset(b[..i] + b[i + 1..])
  {
    assert a[0] in multiset(b);
    i :| 0 <= i < |b| && b[i] == a[0];
    RemoveAt(b, i);
    assert a == [a[0]] + a[1..];
  }

  lemma {:induction false} MapBag<T, U>(a: seq<T>, b: seq<T>, f: T -> U)
    requires multiset(a) == multiset(b)
    ensures multiset(Map(f, a)) == multiset(Map(f, b))
    decreases |a|
  {
    if a == [] {
      assert |multiset(a)| == |multiset(b)| == |b|;
      assert b == [];
    } else {
      hide Map;
      var i := WithoutHead(a, b);
      var rest := b[..i] + b[i + 1..];
      MapBag(a[1..], rest, f);
      MapHead(f, a);
      MapAround(f, b, i);
    }
  }
}
