/** Facts about sequences that several components share. */
module Sequences {
  ghost predicate Distinct<T>(s: seq<T>) {
    forall i, j :: 0 <= i < j < |s| ==> s[i] != s[j]
  }

  /** Every number below n occurs in s exactly once. */
  ghost predicate IsPermutation(s: seq<nat>, n: nat) {
    |s| == n && Distinct(s) && forall k: nat :: k in s <==> k < n
  }

  lemma {:induction false} DistinctCount<T>(s: seq<T>)
    requires Distinct(s)
    ensures |set x | x in s| == |s|
  {
    if s != [] {
      var front, last := s[..|s| - 1], s[|s| - 1];
      DistinctCount(front);
      assert last !in front;
      assert (set x | x in s) == (set x | x in front) + {last};
    }
  }

  /** The numbers below n. */
  ghost function Below(n: nat): (r: set<nat>)
    ensures |r| == n && forall k: nat :: k in r <==> k < n
  {
    if n == 0 then {} else Below(n - 1) + {n - 1}
  }

  lemma SubsetCount<T>(a: set<T>, b: set<T>)
    requires a <= b
    ensures |a| <= |b|
  {
    assert b == a + (b - a);
  }

  /** Distinct numbers below n are at most n many; if they are n many, none is missing. */
  lemma Pigeonhole(s: seq<nat>, n: nat)
    requires Distinct(s)
    requires forall k :: k in s ==> k < n
    ensures |s| <= n
    ensures |s| == n ==> IsPermutation(s, n)
    ensures (forall k :: 0 <= k < n ==> k in s) ==> |s| == n
  {
    DistinctCount(s);
    var mine, all := (set x | x in s), Below(n);
    SubsetCount(mine, all);
    if |s| == n {
      forall k: nat | k < n ensures k in s {
        if k !in s {
          SubsetCount(mine, all - {k});
        }
      }
    }
    if forall k :: 0 <= k < n ==> k in s {
      assert mine == all;
    }
  }

  /** In a sequence without repetitions every member has multiplicity one. */
  lemma {:induction false} DistinctMultiplicity<T>(s: seq<T>, x: T)
    requires Distinct(s)
    ensures multiset(s)[x] == if x in s then 1 else 0
    decreases |s|
  {
    if s != [] {
      var front, last := s[..|s| - 1], s[|s| - 1];
      DistinctMultiplicity(front, x);
      assert s == front + [last];
      assert last !in front;
    }
  }

  lemma MultiplicityOne<T>(s: seq<T>)
    requires forall x :: x in s ==> multiset(s)[x] == 1
    ensures Distinct(s)
  {
    forall i, j | 0 <= i < j < |s| ensures s[i] != s[j] {
      var before, after := s[..j], s[j..];
      assert s == before + after;
      assert before[i] in multiset(before) && after[0] in multiset(after);
      assert s[i] in s && s[j] in s;
    }
  }

  /** Pigeonhole: distinct members of a distinct list of the same length are all of it. */
  lemma SameLengthIsAll<T>(a: seq<T>, b: seq<T>)
    requires Distinct(a) && Distinct(b) && |a| == |b|
    requires forall x :: x in a ==> x in b
    ensures multiset(a) == multiset(b)
  {
    DistinctCount(a);
    DistinctCount(b);
    var mine, all := (set x | x in a), (set x | x in b);
    forall x | x in b ensures x in a {
      if x !in a {
        SubsetCount(mine, all - {x});
      }
    }
    forall x ensures multiset(a)[x] == multiset(b)[x] {
      DistinctMultiplicity(a, x);
      DistinctMultiplicity(b, x);
    }
  }

  lemma SameSize<T>(a: seq<T>, b: seq<T>)
    requires multiset(a) == multiset(b)
    ensures |a| == |b|
  {
    assert |multiset(a)| == |a| && |multiset(b)| == |b|;
  }

  /** Reordering keeps a sequence free of repetitions. */
  lemma DistinctReordered<T>(a: seq<T>, b: seq<T>)
    requires multiset(a) == multiset(b) && Distinct(b)
    ensures Distinct(a)
  {
    forall x | x in a ensures multiset(a)[x] == 1 {
      assert x in multiset(a);
      DistinctMultiplicity(b, x);
    }
    MultiplicityOne(a);
  }

  lemma DistinctAppend<T>(a: seq<T>, b: seq<T>)
    requires Distinct(a) && Distinct(b)
    requires forall x :: x in a ==> x !in b
    ensures Distinct(a + b)
  {
    var all := a + b;
    forall i, j | 0 <= i < j < |all| ensures all[i] != all[j] {
      if i < |a| <= j {
        assert all[i] in a && all[j] == b[j - |a|] && all[j] in b;
      }
    }
  }

  lemma TakeMore<T>(s: seq<T>, i: nat)
    requires i < |s|
    ensures s[..i + 1] == s[..i] + [s[i]]
  {}

  lemma Regroup<T>(a: seq<T>, b: seq<T>, c: seq<T>)
    ensures (a + b) + c == a + (b + c)
  {}

  lemma MiddleSlice<T>(all: seq<T>, before: seq<T>, middle: seq<T>)
    requires before + middle <= all
    ensures |before| + |middle| <= |all|
    ensures all[|before|..|before| + |middle|] == middle
  {
    var joined := before + middle;
    assert all[..|joined|] == joined;
    assert all[|before|..|joined|] == joined[|before|..] == middle;
  }

  /** No two members conflict. */
  ghost predicate ConflictFree<T>(s: seq<T>, conflict: (T, T) -> bool) {
    forall i, j :: 0 <= i < j < |s| ==> !conflict(s[i], s[j])
  }

  lemma {:induction false} TwoPlaces<T>(s: seq<T>, x: T)
    requires multiset(s)[x] >= 2
    ensures exists i, j :: 0 <= i < j < |s| && s[i] == x && s[j] == x
    decreases |s|
  {
    var front, last := s[..|s| - 1], s[|s| - 1];
    assert s == front + [last];
    if last == x {
      assert x in multiset(front);
      var i :| 0 <= i < |front| && front[i] == x;
      assert s[i] == x && s[|s| - 1] == x;
    } else {
      TwoPlaces(front, x);
      var i, j :| 0 <= i < j < |front| && front[i] == x && front[j] == x;
      assert s[i] == x && s[j] == x;
    }
  }

  lemma TwicePresent<T>(s: seq<T>, i: nat, j: nat)
    requires i < j < |s| && s[i] == s[j]
    ensures multiset(s)[s[i]] >= 2
  {
    assert s == s[..j] + s[j..];
    assert s[..j][i] in multiset(s[..j]) && s[j..][0] in multiset(s[j..]);
  }

  /** Reordering introduces no conflict. */
  lemma ConflictsReordered<T>(a: seq<T>, b: seq<T>, conflict: (T, T) -> bool)
    requires multiset(a) == multiset(b) && ConflictFree(b, conflict)
    requires forall x, y :: x in b && y in b ==> (conflict(x, y) <==> conflict(y, x))
    ensures ConflictFree(a, conflict)
  {
    forall i, j | 0 <= i < j < |a| ensures !conflict(a[i], a[j]) {
      assert a[i] in multiset(b) && a[j] in multiset(b);
      if a[i] == a[j] {
        TwicePresent(a, i, j);
        TwoPlaces(b, a[i]);
      } else {
        var p :| 0 <= p < |b| && b[p] == a[i];
        var q :| 0 <= q < |b| && b[q] == a[j];
      }
    }
  }
}
