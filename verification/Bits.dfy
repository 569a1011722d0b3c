/** Machine words as their bits, lowest first, and sets packed into them. */
module Bits {
  type Word = seq<bool>

  /** The number a word stands for. */
  function Value(w: Word): nat {
    if w == [] then 0 else (if w[0] then 1 else 0) + 2 * Value(w[1..])
  }

  /** The word of a number, cut to the width. */
  function WordOf(width: nat, n: nat): (w: Word)
    ensures |w| == width
  {
    if width == 0 then [] else [n % 2 == 1] + WordOf(width - 1, n / 2)
  }

  function Pow2(k: nat): (n: nat)
    ensures n > 0
  {
    if k == 0 then 1 else 2 * Pow2(k - 1)
  }

  lemma {:induction false} ZeroBits(width: nat, i: nat)
    requires i < width
    ensures !WordOf(width, 0)[i]
  {
    if i > 0 { ZeroBits(width - 1, i - 1); }
  }

  lemma {:induction false} ShiftBits(width: nat, k: nat, i: nat)
    requires k < width && i < width
    ensures WordOf(width, Pow2(k))[i] <==> i == k
    decreases width
  {
    if k == 0 {
      if i > 0 { ZeroBits(width - 1, i - 1); }
    } else if i > 0 {
      ShiftBits(width - 1, k - 1, i - 1);
    }
  }

  lemma OddHalf(n: nat)
    ensures (2 * n + 1) % 2 == 1 && (2 * n + 1) / 2 == n
  {}

  lemma {:induction false} MaskBits(width: nat, k: nat, i: nat)
    requires i < width
    ensures WordOf(width, Pow2(k) - 1)[i] <==> i < k
    decreases width
  {
    if k == 0 {
      ZeroBits(width, i);
    } else {
      OddHalf(Pow2(k - 1) - 1);
      if i > 0 { MaskBits(width - 1, k - 1, i - 1); }
    }
  }

  /** The word 0. */
  function Zero(width: nat): (w: Word)
    ensures |w| == width && forall i :: 0 <= i < width ==> !w[i]
  {
    var w := WordOf(width, 0);
    assert forall i: nat :: i < width ==> !w[i] by {
      forall i: nat | i < width ensures !w[i] { ZeroBits(width, i); }
    }
    w
  }

  /** 1 << k */
  function OneBit(width: nat, k: nat): (w: Word)
    requires k < width
    ensures |w| == width && forall i :: 0 <= i < width ==> (w[i] <==> i == k)
  {
    var w := WordOf(width, Pow2(k));
    assert forall i: nat :: i < width ==> (w[i] <==> i == k) by {
      forall i: nat | i < width ensures w[i] <==> i == k { ShiftBits(width, k, i); }
    }
    w
  }

  /** (1 << k) - 1 */
  function Mask(width: nat, k: nat): (w: Word)
    ensures |w| == width && forall i :: 0 <= i < width ==> (w[i] <==> i < k)
  {
    var w := WordOf(width, Pow2(k) - 1);
    assert forall i: nat :: i < width ==> (w[i] <==> i < k) by {
      forall i: nat | i < width ensures w[i] <==> i < k { MaskBits(width, k, i); }
    }
    w
  }

  /** a & b */
  function And(a: Word, b: Word): (w: Word)
    requires |a| == |b|
    ensures |w| == |a| && forall i :: 0 <= i < |a| ==> (w[i] <==> a[i] && b[i])
  {
    seq(|a|, i requires 0 <= i < |a| => a[i] && b[i])
  }

  /** a | b */
  function Or(a: Word, b: Word): (w: Word)
    requires |a| == |b|
    ensures |w| == |a| && forall i :: 0 <= i < |a| ==> (w[i] <==> a[i] || b[i])
  {
    seq(|a|, i requires 0 <= i < |a| => a[i] || b[i])
  }

  /** !a */
  function Not(a: Word): (w: Word)
    ensures |w| == |a| && forall i :: 0 <= i < |a| ==> (w[i] <==> !a[i])
  {
    seq(|a|, i requires 0 <= i < |a| => !a[i])
  }

  lemma {:induction false} ZeroValue(w: Word)
    ensures Value(w) == 0 <==> forall i :: 0 <= i < |w| ==> !w[i]
  {
    if w != [] {
      ZeroValue(w[1..]);
      if forall i :: 0 <= i < |w| ==> !w[i] {
        assert forall i :: 0 <= i < |w[1..]| ==> w[1..][i] == w[i + 1];
      } else if !w[0] {
        var i :| 0 < i < |w| && w[i];
        assert w[1..][i - 1];
      }
    }
  }

  /** w & (1 << k) != 0 */
  predicate BitSet(w: Word, k: nat)
    requires k < |w|
    ensures BitSet(w, k) <==> w[k]
  {
    ZeroValue(And(w, OneBit(|w|, k)));
    Value(And(w, OneBit(|w|, k))) != 0
  }

  /** w != 0 */
  predicate NonZero(w: Word)
    ensures NonZero(w) <==> exists i :: 0 <= i < |w| && w[i]
  {
    ZeroValue(w);
    Value(w) != 0
  }

  function CeilDiv(n: nat, d: nat): nat
    requires d > 0
  {
    (n + d - 1) / d
  }

  /** A set of numbers packed into words of one width. */
  ghost predicate IsPacked(words: seq<Word>, width: nat) {
    width > 0 && forall k :: 0 <= k < |words| ==> |words[k]| == width
  }

  predicate Holds(words: seq<Word>, width: nat, id: nat)
    requires IsPacked(words, width)
    requires id / width < |words|
  {
    words[id / width][id % width]
  }

  function Add(words: seq<Word>, width: nat, id: nat): (r: seq<Word>)
    requires IsPacked(words, width) && id / width < |words|
    ensures |r| == |words| && IsPacked(r, width)
  {
    words[id / width := Or(words[id / width], OneBit(width, id % width))]
  }

  lemma AddMeans(words: seq<Word>, width: nat, id: nat, other: nat)
    requires IsPacked(words, width) && id / width < |words| && other / width < |words|
    ensures Holds(Add(words, width, id), width, other) <==> Holds(words, width, other) || other == id
  {
    SamePlace(id, other, width);
  }

  /** Adding one number, for all places at once. */
  lemma AddOne(words: seq<Word>, width: nat, id: nat)
    requires IsPacked(words, width) && id / width < |words|
    ensures forall k: nat :: k / width < |words| ==> (Holds(Add(words, width, id), width, k) <==> Holds(words, width, k) || k == id)
  {
    hide Add, Holds;
    forall k: nat | k / width < |words|
      ensures Holds(Add(words, width, id), width, k) <==> Holds(words, width, k) || k == id
    {
      AddMeans(words, width, id, k);
    }
  }

  lemma NothingHeld(count: nat, width: nat)
    requires width > 0
    ensures IsPacked(seq(count, _ => Zero(width)), width)
    ensures forall k: nat :: k / width < count ==> !Holds(seq(count, _ => Zero(width)), width, k)
  {}

  lemma SamePlace(a: nat, b: nat, width: nat)
    requires width > 0
    ensures a / width == b / width && a % width == b % width <==> a == b
  {
    assert a == (a / width) * width + a % width;
    assert b == (b / width) * width + b % width;
  }

  lemma PlaceBound(n: nat, width: nat, id: nat)
    requires width > 0 && id < n
    ensures id / width < CeilDiv(n, width)
  {
    var q, s := CeilDiv(n, width), id / width;
    var r := (n + width - 1) % width;
    assert n + width - 1 == q * width + r;
    assert id == s * width + id % width;
    MulLess(s, q, width, id, n);
  }

  lemma MulMono(a: nat, b: nat, d: nat)
    requires a <= b
    ensures a * d <= b * d
  {}

  lemma MulLess(s: nat, q: nat, width: nat, id: nat, n: nat)
    requires width > 0 && s * width <= id < n <= q * width
    ensures s < q
  {
    if q <= s {
      MulMono(q, s, width);
    }
  }

  /** Packs a bit string into bytes, setting bit i % 8 of byte i / 8; the bits
      past the end stay zero, and every bit reads back. */
  method PackBits(bits: seq<bool>) returns (bytes: seq<Word>)
    ensures IsPacked(bytes, 8) && |bytes| == CeilDiv(|bits|, 8)
    ensures forall i: nat :: i / 8 < |bytes| ==> (Holds(bytes, 8, i) <==> i < |bits| && bits[i])
  {
    hide Add, Holds, CeilDiv, Zero;
    bytes := seq(CeilDiv(|bits|, 8), _ => Zero(8));
    NothingHeld(|bytes|, 8);
    for index := 0 to |bits|
      invariant IsPacked(bytes, 8) && |bytes| == CeilDiv(|bits|, 8)
      invariant forall i: nat :: i / 8 < |bytes| ==> (Holds(bytes, 8, i) <==> i < index && bits[i])
    {
      if bits[index] {
        PlaceBound(|bits|, 8, index);
        AddOne(bytes, 8, index);
        bytes := Add(bytes, 8, index);
      }
    }
  }
}
