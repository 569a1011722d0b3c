/** Well-formed UTF-8 as section 4 of RFC 3629 defines it, and character boundaries. */
module Utf8 {
  import opened Wire

  predicate IsContinuation(b: byte) { 0x80 <= b < 0xc0 }

  /** The width of the character at the front, 0 where there is none. */
  function Width(s: Bytes): (n: nat)
    ensures n <= 4 && n <= |s|
    ensures n > 0 ==> !IsContinuation(s[0])
    ensures forall i :: 0 < i < n ==> IsContinuation(s[i])
  {
    if s == [] then 0
    else if s[0] < 0x80 then 1
    else if 0xc2 <= s[0] <= 0xdf then (if Continued(s, 2) then 2 else 0)
    else if 0xe0 <= s[0] <= 0xef then (if Continued(s, 3) && SecondFits(s[0], s[1]) then 3 else 0)
    else if 0xf0 <= s[0] <= 0xf4 then (if Continued(s, 4) && SecondFits(s[0], s[1]) then 4 else 0)
    else 0
  }

  predicate Continued(s: Bytes, n: nat) {
    n <= |s| && forall i :: 0 < i < n ==> IsContinuation(s[i])
  }

  /** No overlong form, no surrogate, nothing above U+10FFFF. */
  predicate SecondFits(first: byte, second: byte) {
    match first
    case 0xe0 => second >= 0xa0
    case 0xed => second < 0xa0
    case 0xf0 => second >= 0x90
    case 0xf4 => second < 0x90
    case _ => true
  }

  predicate IsUtf8(s: Bytes)
    decreases |s|
  {
    s == [] || (Width(s) > 0 && IsUtf8(s[Width(s)..]))
  }

  type Text = s: Bytes | IsUtf8(s) witness []

  const EMPTY: Text := []

  /** is_char_boundary: the ends, and every byte that does not continue. */
  predicate IsBoundary(s: Bytes, i: nat) {
    i == |s| || (i < |s| && !IsContinuation(s[i]))
  }

  lemma WidthOfPrefix(s: Bytes, t: Bytes)
    requires Width(s) > 0
    ensures Width(s + t) == Width(s)
  {
    var n := Width(s);
    assert (s + t)[0] == s[0];
    assert forall i :: 0 <= i < n ==> (s + t)[i] == s[i];
  }

  lemma {:induction false} Concat(s: Bytes, t: Bytes)
    requires IsUtf8(s) && IsUtf8(t)
    ensures IsUtf8(s + t)
    decreases |s|
  {
    if s == [] {
      assert s + t == t;
    } else {
      var n := Width(s);
      WidthOfPrefix(s, t);
      assert (s + t)[n..] == s[n..] + t;
      Concat(s[n..], t);
    }
  }

  lemma AfterFirst(s: Bytes, n: nat, i: nat)
    requires n <= i < |s|
    ensures s[n..][i - n..] == s[i..] && s[..i] == s[..n] + s[n..][..i - n] && s[..i][n..] == s[n..][..i - n]
    ensures IsBoundary(s[n..], i - n) <==> IsBoundary(s, i)
  {
    assert s[n..][i - n] == s[i];
  }

  lemma ContinuationStartsNothing(s: Bytes)
    requires s != [] && IsContinuation(s[0])
    ensures !IsUtf8(s)
  {}

  /** Cutting a text at a boundary, and only there, leaves two texts. */
  lemma {:induction false} Cut(s: Bytes, i: nat)
    requires IsUtf8(s) && i <= |s|
    ensures IsBoundary(s, i) <==> IsUtf8(s[..i]) && IsUtf8(s[i..])
    ensures IsBoundary(s, i) <==> IsUtf8(s[i..])
    decreases |s|
  {
    hide Width;
    if i == 0 {
      assert s[..0] == [] && s[0..] == s;
      if s != [] && IsContinuation(s[0]) { ContinuationStartsNothing(s); }
    } else if i == |s| {
      assert s[..i] == s && s[i..] == [];
    } else {
      var n := Width(s);
      if i < n {
        assert s[i..][0] == s[i];
        ContinuationStartsNothing(s[i..]);
      } else {
        AfterFirst(s, n, i);
        Cut(s[n..], i - n);
        if IsBoundary(s, i) {
          WidthAlone(s);
          Concat(s[..n], s[n..][..i - n]);
        }
      }
    }
  }

  lemma WidthAlone(s: Bytes)
    requires Width(s) > 0
    ensures IsUtf8(s[..Width(s)])
  {
    var n := Width(s);
    var c := s[..n];
    assert forall i :: 0 <= i < n ==> c[i] == s[i];
    assert Width(c) == n;
    assert c[n..] == [];
  }
}
