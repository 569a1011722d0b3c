/** The longest suffix of a text that fits a byte budget and starts on a
    character boundary, and how it composes. */
module ContextTail {
  import opened Wire
  import opened Utf8

  /** The first boundary at or after i. */
  function NextBoundary(s: Bytes, i: nat): (r: nat)
    requires i <= |s|
    ensures i <= r <= |s| && IsBoundary(s, r)
    ensures forall j :: i <= j < r ==> !IsBoundary(s, j)
    decreases |s| - i
  {
    if IsBoundary(s, i) then i else NextBoundary(s, i + 1)
  }

  function Start(s: Bytes, budget: nat): (r: nat)
    ensures r <= |s| && |s| - r <= budget && IsBoundary(s, r)
  {
    NextBoundary(s, if |s| <= budget then 0 else |s| - budget)
  }

  function Tail(s: Text, budget: nat): (r: Text)
    ensures |r| <= budget && |r| <= |s|
  {
    Cut(s, Start(s, budget));
    s[Start(s, budget)..]
  }

  /** It is the longest: any suffix on a boundary within the budget is shorter. */
  lemma TailIsLongest(s: Text, budget: nat, j: nat)
    requires j <= |s| && IsBoundary(s, j) && |s| - j <= budget
    ensures |s| - j <= |Tail(s, budget)|
    ensures Tail(s, budget)[|Tail(s, budget)| - (|s| - j)..] == s[j..]
  {}

  lemma StartBoundary(s: Text)
    ensures IsBoundary(s, 0)
  {}

  /** Everything fits when the budget allows. */
  lemma TailOfShort(s: Text, budget: nat)
    requires |s| <= budget
    ensures Tail(s, budget) == s
  {
    StartBoundary(s);
  }

  lemma StartUnique(s: Bytes, budget: nat, r: nat)
    requires r <= |s| && |s| - r <= budget && IsBoundary(s, r)
    requires forall j :: 0 <= j < r && IsBoundary(s, j) ==> |s| - j > budget
    ensures Start(s, budget) == r
  {}

  lemma BoundariesOfSuffix(s: Bytes, a: nat)
    requires a <= |s|
    ensures forall j {:trigger IsBoundary(s[a..], j)} :: 0 <= j <= |s| - a ==>
              (IsBoundary(s[a..], j) <==> IsBoundary(s, a + j))
  {
    assert forall j :: 0 <= j < |s| - a ==> s[a..][j] == s[a + j];
  }

  /** A shorter tail can be cut from a longer one. */
  lemma TailOfTail(s: Text, longer: nat, shorter: nat)
    requires shorter <= longer
    ensures Tail(Tail(s, longer), shorter) == Tail(s, shorter)
  {
    hide IsUtf8, Width, IsBoundary;
    var a, b := Start(s, longer), Start(s, shorter);
    var t := s[a..];
    BoundariesOfSuffix(s, a);
    StartUnique(t, shorter, b - a);
    assert t[b - a..] == s[b..];
  }

  /** Appending keeps the boundaries of both texts. */
  lemma BoundariesOfConcat(h: Text, s: Text)
    ensures IsUtf8(h + s)
    ensures forall j {:trigger IsBoundary(h, j)} :: 0 <= j < |h| ==> (IsBoundary(h, j) <==> IsBoundary(h + s, j))
    ensures forall j {:trigger IsBoundary(s, j)} :: 0 <= j <= |s| ==> (IsBoundary(s, j) <==> IsBoundary(h + s, |h| + j))
  {
    Concat(h, s);
    assert forall j :: 0 <= j < |h| ==> (h + s)[j] == h[j];
    assert forall j :: 0 <= j < |s| ==> (h + s)[|h| + j] == s[j];
  }

  lemma StartInLast(h: Text, s: Text, budget: nat)
    requires |s| >= budget
    ensures Start(h + s, budget) == |h| + Start(s, budget)
  {
    hide IsUtf8, Width;
    BoundariesOfConcat(h, s);
    var all, r := h + s, Start(s, budget);
    forall j | 0 <= j < |h| + r && IsBoundary(all, j) ensures |all| - j > budget {
      if j >= |h| {
        assert !IsBoundary(s, j - |h|) || |s| - (j - |h|) > budget;
      }
    }
    StartUnique(all, budget, |h| + r);
  }

  lemma StartInFirst(h: Text, s: Text, budget: nat)
    requires |s| < budget
    ensures Start(h + s, budget) == Start(h, budget - |s|)
  {
    hide IsUtf8, Width;
    BoundariesOfConcat(h, s);
    StartBoundary(s);
    var all, r := h + s, Start(h, budget - |s|);
    forall j | 0 <= j < r && IsBoundary(all, j) ensures |all| - j > budget {
      assert IsBoundary(h, j);
    }
    assert r == |h| ==> IsBoundary(s, 0);
    StartUnique(all, budget, r);
  }

  /** The tail after appending: the new text, with as much before it as still fits. */
  lemma TailOfConcat(h: Text, s: Text, budget: nat)
    ensures IsUtf8(h + s)
    ensures Tail(h + s, budget) == if |s| >= budget then Tail(s, budget) else Tail(h, budget - |s|) + s
  {
    hide IsUtf8, Width, Start;
    Concat(h, s);
    var all := h + s;
    if |s| >= budget {
      StartInLast(h, s, budget);
      assert all[|h| + Start(s, budget)..] == s[Start(s, budget)..];
    } else {
      StartInFirst(h, s, budget);
      assert all[Start(all, budget)..] == h[Start(all, budget)..] + s;
    }
  }

  /** What append_utf8_tail leaves when it held the tail of all text so far. */
  lemma AppendKeepsTail(h: Text, s: Text, budget: nat)
    ensures IsUtf8(h + s)
    ensures var tail := Tail(h, budget);
            Tail(h + s, budget) == if |tail| + |s| <= budget then tail + s
                                   else if |s| >= budget then Tail(s, budget)
                                   else Tail(tail, budget - |s|) + s
  {
    hide Tail, IsUtf8, Width;
    TailOfConcat(h, s, budget);
    var tail := Tail(h, budget);
    if |s| < budget {
      TailOfTail(h, budget, budget - |s|);
      if |tail| + |s| <= budget {
        TailOfShort(tail, budget - |s|);
      }
    } else if |tail| + |s| <= budget {
      TailOfShort(s, budget);
      assert tail == [];
    }
  }
}
