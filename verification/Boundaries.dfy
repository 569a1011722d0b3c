/** The frozen bunsetsu boundary table: a word-parallel evaluation of the ordered
    rule list that must equal "the first matching rule wins". */
module Boundaries {
  import opened Wrappers
  import opened Bits
  import opened Patterns
  import Wire

  datatype Rule = Rule(left: Pattern, right: Pattern, boundary: bool, line: nat)

  datatype BuildError = TooManyClasses | LeftMatchesNothing(line: nat) | RightMatchesNothing(line: nat)

  /** Byte-aligned rows, one after the other. */
  datatype Table = Table(classCount: nat, rows: seq<Word>)

  const WORD := 64
  const BYTE := 8

  predicate Applies(rule: Rule, rightFeature: string, leftFeature: string) {
    Matches(rule.left, rightFeature) && Matches(rule.right, leftFeature)
  }

  /** The first rule that applies says the two classes fuse. */
  ghost predicate Fuses(rules: seq<Rule>, rightFeature: string, leftFeature: string) {
    exists i :: 0 <= i < |rules| && !rules[i].boundary && IsFirst(rules, i, rightFeature, leftFeature)
  }

  ghost predicate IsFirst(rules: seq<Rule>, i: nat, rightFeature: string, leftFeature: string)
    requires i < |rules|
  {
    && Applies(rules[i], rightFeature, leftFeature)
    && forall j :: 0 <= j < i ==> !Applies(rules[j], rightFeature, leftFeature)
  }

  /** Verdict of the first n rules, if any of them applies. */
  function Verdict(rules: seq<Rule>, n: nat, rightFeature: string, leftFeature: string): Option<bool>
    requires n <= |rules|
  {
    if n == 0 then None
    else
      var before := Verdict(rules, n - 1, rightFeature, leftFeature);
      if before.Some? then before
      else if Applies(rules[n - 1], rightFeature, leftFeature) then Some(rules[n - 1].boundary)
      else None
  }

  lemma {:induction false} VerdictStays(rules: seq<Rule>, n: nat, m: nat, r: string, l: string)
    requires n <= m <= |rules| && Verdict(rules, n, r, l).Some?
    ensures Verdict(rules, m, r, l) == Verdict(rules, n, r, l)
    decreases m
  {
    if n < m { VerdictStays(rules, n, m - 1, r, l); }
  }

  lemma {:induction false} VerdictIsFirst(rules: seq<Rule>, n: nat, r: string, l: string)
    requires n <= |rules|
    ensures Verdict(rules, n, r, l).None? <==> forall j :: 0 <= j < n ==> !Applies(rules[j], r, l)
    ensures Verdict(rules, n, r, l).Some? ==>
      exists i :: 0 <= i < n && IsFirst(rules, i, r, l) && Verdict(rules, n, r, l) == Some(rules[i].boundary)
  {
    if n > 0 {
      VerdictIsFirst(rules, n - 1, r, l);
      if Verdict(rules, n - 1, r, l).None? && Applies(rules[n - 1], r, l) {
        assert IsFirst(rules, n - 1, r, l);
      }
    }
  }

  lemma FusesIsVerdict(rules: seq<Rule>, r: string, l: string)
    ensures Fuses(rules, r, l) <==> Verdict(rules, |rules|, r, l) == Some(false)
  {
    VerdictIsFirst(rules, |rules|, r, l);
    if Fuses(rules, r, l) {
      var i :| 0 <= i < |rules| && !rules[i].boundary && IsFirst(rules, i, r, l);
      VerdictIsFirst(rules, i, r, l);
      VerdictStays(rules, i + 1, |rules|, r, l);
    }
  }

  // ------------------------------------------------------------- match sets

  /** `set` holds exactly the classes whose feature the pattern matches. */
  ghost predicate IsMatchSet(set_: seq<Word>, p: Pattern, features: seq<string>) {
    && IsPacked(set_, WORD) && |set_| == CeilDiv(|features|, WORD)
    && (forall id: nat :: id / WORD < |set_| ==>
          (Holds(set_, WORD, id) <==> id < |features| && Matches(p, features[id])))
  }

  predicate MatchesSome(p: Pattern, features: seq<string>) {
    exists id :: 0 <= id < |features| && Matches(p, features[id])
  }

  method MatchSet(p: Pattern, features: seq<string>) returns (r: Option<seq<Word>>)
    ensures r.Some? <==> MatchesSome(p, features)
    ensures r.Some? ==> IsMatchSet(r.value, p, features)
  {
    hide Add, Holds, CeilDiv, Zero, Matches;
    var bits, any := seq(CeilDiv(|features|, WORD), _ => Zero(WORD)), false;
    NothingHeld(|bits|, WORD);
    for id := 0 to |features|
      invariant IsPacked(bits, WORD) && |bits| == CeilDiv(|features|, WORD)
      invariant any <==> exists k :: 0 <= k < id && Matches(p, features[k])
      invariant forall k: nat :: k / WORD < |bits| ==> (Holds(bits, WORD, k) <==> k < id && Matches(p, features[k]))
    {
      if Matches(p, features[id]) {
        PlaceBound(|features|, WORD, id);
        AddOne(bits, WORD, id);
        bits, any := Add(bits, WORD, id), true;
      }
    }
    r := if any then Some(bits) else None;
  }

  datatype Compiled = Compiled(left: seq<Word>, right: seq<Word>, boundary: bool)

  ghost predicate IsCompiled(compiled: seq<Compiled>, rules: seq<Rule>, features: seq<string>) {
    && |compiled| == |rules|
    && (forall k :: 0 <= k < |rules| ==>
          && IsMatchSet(compiled[k].left, rules[k].left, features)
          && IsMatchSet(compiled[k].right, rules[k].right, features)
          && compiled[k].boundary == rules[k].boundary)
  }

  /** Every pattern of the rule file names some class. */
  ghost predicate AllUsed(rules: seq<Rule>, features: seq<string>) {
    forall k :: 0 <= k < |rules| ==> MatchesSome(rules[k].left, features) && MatchesSome(rules[k].right, features)
  }

  method CompileRules(rules: seq<Rule>, features: seq<string>) returns (r: Result<seq<Compiled>, BuildError>)
    ensures r.Ok? <==> AllUsed(rules, features)
    ensures r.Ok? ==> IsCompiled(r.value, rules, features)
  {
    var compiled := [];
    for k := 0 to |rules|
      invariant IsCompiled(compiled, rules[..k], features) && AllUsed(rules[..k], features)
    {
      var left := MatchSet(rules[k].left, features);
      if left.None? {
        return Err(LeftMatchesNothing(rules[k].line));
      }
      var right := MatchSet(rules[k].right, features);
      if right.None? {
        return Err(RightMatchesNothing(rules[k].line));
      }
      compiled := compiled + [Compiled(left.value, right.value, rules[k].boundary)];
      assert rules[..k + 1] == rules[..k] + [rules[k]];
    }
    assert rules[..|rules|] == rules;
    r := Ok(compiled);
  }

  // ------------------------------------------------------------- one row

  /** What the bits of a row mean after n rules: a class is open while no rule
      decided it, and fused once a false rule did. Class 0 is never either. */
  predicate IsOpen(rules: seq<Rule>, features: seq<string>, rid: nat, n: nat, lid: nat)
    requires n <= |rules| && rid < |features|
  {
    0 < lid < |features| && Verdict(rules, n, features[rid], features[lid]).None?
  }

  predicate IsFused(rules: seq<Rule>, features: seq<string>, rid: nat, n: nat, lid: nat)
    requires n <= |rules| && rid < |features|
  {
    0 < lid < |features| && Verdict(rules, n, features[rid], features[lid]) == Some(false)
  }

  /** The words before `done` reflect n + 1 rules, the others n. */
  ghost predicate RowState(rules: seq<Rule>, features: seq<string>, rid: nat, n: nat, done: nat,
                           undecided: seq<Word>, fused: seq<Word>)
    requires n <= |rules| && rid < |features| && (done > 0 ==> n < |rules|)
  {
    && IsPacked(undecided, WORD) && |undecided| == CeilDiv(|features|, WORD)
    && IsPacked(fused, WORD) && |fused| == |undecided|
    && (forall lid: nat :: lid / WORD < |undecided| ==>
          var m := if lid / WORD < done then n + 1 else n;
          && (Holds(undecided, WORD, lid) <==> IsOpen(rules, features, rid, m, lid))
          && (Holds(fused, WORD, lid) <==> IsFused(rules, features, rid, m, lid)))
  }

  /** Nothing is fused yet and every class but 0 is open; padding bits are closed. */
  method StartRow(rules: seq<Rule>, features: seq<string>, rid: nat) returns (undecided: seq<Word>, fused: seq<Word>)
    requires rid < |features|
    ensures RowState(rules, features, rid, 0, 0, undecided, fused)
  {
    var classes, words := |features|, CeilDiv(|features|, WORD);
    fused := seq(words, _ => Zero(WORD));
    undecided := seq(words, _ => Not(Zero(WORD)));
    PlaceBound(classes, WORD, rid);
    undecided := undecided[0 := And(undecided[0], Not(OneBit(WORD, 0)))];
    if classes % WORD != 0 {
      undecided := undecided[words - 1 := And(undecided[words - 1], Mask(WORD, classes % WORD))];
    }
    forall lid: nat | lid / WORD < words
      ensures Holds(undecided, WORD, lid) <==> 0 < lid < classes
    {
      LastWord(classes, lid);
    }
  }

  lemma LastWord(classes: nat, lid: nat)
    requires classes > 0 && lid / WORD < CeilDiv(classes, WORD)
    ensures lid < classes <==> lid / WORD < CeilDiv(classes, WORD) - 1 || classes % WORD == 0 || lid % WORD < classes % WORD
    ensures lid == 0 <==> lid / WORD == 0 && lid % WORD == 0
  {
    assert classes == (classes / WORD) * WORD + classes % WORD;
    assert lid == (lid / WORD) * WORD + lid % WORD;
    assert CeilDiv(classes, WORD) == if classes % WORD == 0 then classes / WORD else classes / WORD + 1;
  }

  /** One rule applied to one word of the row. */
  lemma RuleOnWord(rules: seq<Rule>, features: seq<string>, rid: nat, n: nat, word: nat, compiled: Compiled,
                   undecided: seq<Word>, fused: seq<Word>)
    requires n < |rules| && rid < |features|
    requires RowState(rules, features, rid, n, word, undecided, fused) && word < |undecided|
    requires IsMatchSet(compiled.right, rules[n].right, features) && compiled.boundary == rules[n].boundary
    requires Matches(rules[n].left, features[rid])
    ensures var taken := And(compiled.right[word], undecided[word]);
            RowState(rules, features, rid, n, word + 1,
                     undecided[word := And(undecided[word], Not(taken))],
                     if compiled.boundary then fused else fused[word := Or(fused[word], taken)])
  {
    var taken := And(compiled.right[word], undecided[word]);
    var undecided' := undecided[word := And(undecided[word], Not(taken))];
    var fused' := if compiled.boundary then fused else fused[word := Or(fused[word], taken)];
    forall lid: nat | lid / WORD < |undecided'|
      ensures var m := if lid / WORD < word + 1 then n + 1 else n;
              && (Holds(undecided', WORD, lid) <==> IsOpen(rules, features, rid, m, lid))
              && (Holds(fused', WORD, lid) <==> IsFused(rules, features, rid, m, lid))
    {
      assert Holds(undecided, WORD, lid) <==> IsOpen(rules, features, rid, if lid / WORD < word then n + 1 else n, lid);
      if lid / WORD == word {
        assert Holds(compiled.right, WORD, lid) <==> lid < |features| && Matches(rules[n].right, features[lid]);
      }
    }
  }

  /** A rule that does not apply to the row changes nothing. */
  lemma RuleSkipped(rules: seq<Rule>, features: seq<string>, rid: nat, n: nat, undecided: seq<Word>, fused: seq<Word>)
    requires n < |rules| && rid < |features| && RowState(rules, features, rid, n, 0, undecided, fused)
    requires !Matches(rules[n].left, features[rid])
    ensures RowState(rules, features, rid, n + 1, 0, undecided, fused)
  {
  }

  /** With no class open, the remaining rules cannot change the row. */
  lemma RowClosed(rules: seq<Rule>, features: seq<string>, rid: nat, n: nat, undecided: seq<Word>, fused: seq<Word>)
    requires n <= |rules| && rid < |features| && RowState(rules, features, rid, n, 0, undecided, fused)
    requires forall k :: 0 <= k < |undecided| ==> !NonZero(undecided[k])
    ensures RowState(rules, features, rid, |rules|, 0, undecided, fused)
  {
    forall lid: nat | lid / WORD < |undecided|
      ensures Holds(undecided, WORD, lid) <==> IsOpen(rules, features, rid, |rules|, lid)
      ensures Holds(fused, WORD, lid) <==> IsFused(rules, features, rid, |rules|, lid)
    {
      assert !Holds(undecided, WORD, lid);
      if 0 < lid < |features| {
        VerdictStays(rules, n, |rules|, features[rid], features[lid]);
      }
    }
  }

  /** One rule applied to the whole row, a word at a time. */
  method ApplyRule(rules: seq<Rule>, features: seq<string>, rid: nat, n: nat, rule: Compiled,
                   before: seq<Word>, fusedBefore: seq<Word>)
    returns (undecided: seq<Word>, fused: seq<Word>, open: bool)
    requires n < |rules| && rid < |features| && RowState(rules, features, rid, n, 0, before, fusedBefore)
    requires IsMatchSet(rule.right, rules[n].right, features) && rule.boundary == rules[n].boundary
    requires Matches(rules[n].left, features[rid])
    ensures RowState(rules, features, rid, n + 1, 0, undecided, fused)
    ensures !open ==> forall k :: 0 <= k < |undecided| ==> !NonZero(undecided[k])
  {
    undecided, fused, open := before, fusedBefore, false;
    for word := 0 to |before|
      invariant |undecided| == |before| && RowState(rules, features, rid, n, word, undecided, fused)
      invariant !open ==> forall k :: 0 <= k < word ==> !NonZero(undecided[k])
    {
      var taken := And(rule.right[word], undecided[word]);
      RuleOnWord(rules, features, rid, n, word, rule, undecided, fused);
      undecided := undecided[word := And(undecided[word], Not(taken))];
      if !rule.boundary {
        fused := fused[word := Or(fused[word], taken)];
      }
      open := open || NonZero(undecided[word]);
    }
  }

  /** The verdicts of one row. */
  method FusedRow(rules: seq<Rule>, compiled: seq<Compiled>, features: seq<string>, rid: nat) returns (fused: seq<Word>)
    requires IsCompiled(compiled, rules, features) && 0 < rid < |features|
    ensures IsPacked(fused, WORD) && |fused| == CeilDiv(|features|, WORD)
    ensures forall lid: nat :: lid / WORD < |fused| ==>
      (Holds(fused, WORD, lid) <==> 0 < lid < |features| && Fuses(rules, features[rid], features[lid]))
  {
    hide CeilDiv, Matches, BitSet, Fuses, RowState, IsMatchSet, IsCompiled, NonZero;
    PlaceBound(|features|, WORD, rid);
    var undecided;
    undecided, fused := StartRow(rules, features, rid);
    for n := 0 to |rules|
      invariant RowState(rules, features, rid, n, 0, undecided, fused)
    {
      LeftTest(compiled, rules, features, n, rid);
      if !BitSet(compiled[n].left[rid / WORD], rid % WORD) {
        RuleSkipped(rules, features, rid, n, undecided, fused);
        continue;
      }
      var open;
      undecided, fused, open := ApplyRule(rules, features, rid, n, compiled[n], undecided, fused);
      if !open {
        RowClosed(rules, features, rid, n + 1, undecided, fused);
        break;
      }
    }
    RowDone(rules, features, rid, undecided, fused);
  }

  lemma RowDone(rules: seq<Rule>, features: seq<string>, rid: nat, undecided: seq<Word>, fused: seq<Word>)
    requires 0 < rid < |features| && RowState(rules, features, rid, |rules|, 0, undecided, fused)
    ensures IsPacked(fused, WORD) && |fused| == CeilDiv(|features|, WORD)
    ensures forall lid: nat :: lid / WORD < |fused| ==>
      (Holds(fused, WORD, lid) <==> 0 < lid < |features| && Fuses(rules, features[rid], features[lid]))
  {
    hide CeilDiv, Fuses, Verdict;
    forall lid: nat | lid / WORD < |fused|
      ensures Holds(fused, WORD, lid) <==> 0 < lid < |features| && Fuses(rules, features[rid], features[lid])
    {
      assert Holds(fused, WORD, lid) <==> IsFused(rules, features, rid, |rules|, lid);
      if 0 < lid < |features| {
        FusesIsVerdict(rules, features[rid], features[lid]);
      }
    }
  }

  /** The left test of a compiled rule. */
  lemma LeftTest(compiled: seq<Compiled>, rules: seq<Rule>, features: seq<string>, n: nat, rid: nat)
    requires IsCompiled(compiled, rules, features) && n < |rules| && rid < |features| && rid / WORD < CeilDiv(|features|, WORD)
    ensures n < |compiled|
    ensures IsMatchSet(compiled[n].right, rules[n].right, features) && compiled[n].boundary == rules[n].boundary
    ensures rid / WORD < |compiled[n].left| && |compiled[n].left[rid / WORD]| == WORD
    ensures BitSet(compiled[n].left[rid / WORD], rid % WORD) <==> Matches(rules[n].left, features[rid])
  {
    hide CeilDiv, Matches;
    assert Holds(compiled[n].left, WORD, rid) <==> Matches(rules[n].left, features[rid]);
  }

  // ------------------------------------------------------------- the table

  /** The bits of one byte-aligned row: set where a boundary stands, clear in the padding. */
  ghost predicate IsRow(row: seq<Word>, rules: seq<Rule>, features: seq<string>, rid: nat)
    requires rid < |features|
  {
    && IsPacked(row, BYTE) && |row| == CeilDiv(|features|, BYTE)
    && (forall lid: nat :: lid / BYTE < |row| ==>
          (Holds(row, BYTE, lid) <==>
             lid < |features| && !(0 < rid && 0 < lid && Fuses(rules, features[rid], features[lid]))))
  }

  /** The byte-aligned row: a set bit for every class that is not fused. */
  method RowBits(fused: seq<Word>, classes: nat) returns (row: seq<Word>)
    requires IsPacked(fused, WORD) && |fused| == CeilDiv(classes, WORD)
    ensures IsPacked(row, BYTE) && |row| == CeilDiv(classes, BYTE)
    ensures forall k: nat :: k / BYTE < |row| ==>
      (Holds(row, BYTE, k) <==> k < classes && (k / WORD < |fused| ==> !Holds(fused, WORD, k)))
  {
    hide Add, CeilDiv, Zero, BitSet;
    row := seq(CeilDiv(classes, BYTE), _ => Zero(BYTE));
    NothingHeld(|row|, BYTE);
    for lid := 0 to classes
      invariant IsPacked(row, BYTE) && |row| == CeilDiv(classes, BYTE)
      invariant forall k: nat :: k / BYTE < |row| ==>
        (Holds(row, BYTE, k) <==> k < lid && (k / WORD < |fused| ==> !Holds(fused, WORD, k)))
    {
      PlaceBound(classes, WORD, lid);
      PlaceBound(classes, BYTE, lid);
      var free := !BitSet(fused[lid / WORD], lid % WORD);
      assert free <==> !Holds(fused, WORD, lid);
      if free {
        AddOne(row, BYTE, lid);
        row := Add(row, BYTE, lid);
      }
    }
  }

  method BoundaryRow(rules: seq<Rule>, compiled: seq<Compiled>, features: seq<string>, rid: nat) returns (row: seq<Word>)
    requires IsCompiled(compiled, rules, features) && rid < |features|
    ensures IsRow(row, rules, features, rid)
  {
    hide Fuses, IsCompiled, CeilDiv, Zero, Holds;
    var fused := seq(CeilDiv(|features|, WORD), _ => Zero(WORD));
    NothingHeld(|fused|, WORD);
    if rid != 0 {
      fused := FusedRow(rules, compiled, features, rid);
    }
    row := RowBits(fused, |features|);
    forall lid: nat | lid < |features| ensures lid / WORD < |fused| { PlaceBound(|features|, WORD, lid); }
  }

  /** is_boundary */
  predicate IsBoundary(t: Table, rid: nat, lid: nat)
    requires IsPacked(t.rows, BYTE) && |t.rows| == t.classCount * CeilDiv(t.classCount, BYTE)
  {
    if rid >= t.classCount || lid >= t.classCount then true
    else
      var rowBytes := CeilDiv(t.classCount, BYTE);
      CellPlace(t.classCount, rid, lid);
      BitSet(t.rows[rid * rowBytes + lid / BYTE], lid % BYTE)
  }

  lemma CellPlace(classes: nat, rid: nat, lid: nat)
    requires rid < classes && lid < classes
    ensures lid / BYTE < CeilDiv(classes, BYTE)
    ensures 0 <= rid * CeilDiv(classes, BYTE)
    ensures rid * CeilDiv(classes, BYTE) + CeilDiv(classes, BYTE) <= classes * CeilDiv(classes, BYTE)
  {
    PlaceBound(classes, BYTE, lid);
    MulMono(rid + 1, classes, CeilDiv(classes, BYTE));
    assert (rid + 1) * CeilDiv(classes, BYTE) == rid * CeilDiv(classes, BYTE) + CeilDiv(classes, BYTE);
  }

  /** build_boundaries. It fails exactly when a pattern names no class (or there
      are too many classes); otherwise a cell is fused exactly when both classes
      are in range and nonzero and the first rule that applies says so, and
      every padding bit is zero. */
  method BuildBoundaries(features: seq<string>, rules: seq<Rule>) returns (r: Result<Table, BuildError>)
    ensures r.Ok? <==> |features| <= 0xffff && AllUsed(rules, features)
    ensures r.Ok? ==> r.value.classCount == |features|
    ensures r.Ok? ==> IsPacked(r.value.rows, BYTE) && |r.value.rows| == |features| * CeilDiv(|features|, BYTE)
    ensures r.Ok? ==> forall rid: nat, lid: nat ::
      (!IsBoundary(r.value, rid, lid) <==>
         0 < rid < |features| && 0 < lid < |features| && Fuses(rules, features[rid], features[lid]))
    ensures r.Ok? ==> forall rid: nat, pad: nat :: rid < |features| <= pad && pad / BYTE < CeilDiv(|features|, BYTE) ==>
      var at := rid * CeilDiv(|features|, BYTE) + pad / BYTE;
      0 <= at < |r.value.rows| && !r.value.rows[at][pad % BYTE]
  {
    hide Fuses, IsCompiled, AllUsed, IsRow;
    if |features| > 0xffff {
      return Err(TooManyClasses);
    }
    var compiled := CompileRules(rules, features);
    if compiled.Err? {
      return Err(compiled.error);
    }
    var rows: seq<Word> := [];
    ghost var parts: seq<seq<Word>> := [];
    for rid := 0 to |features|
      invariant |parts| == rid && rows == Wire.Join(parts)
      invariant forall k :: 0 <= k < rid ==> IsRow(parts[k], rules, features, k)
    {
      var row := BoundaryRow(rules, compiled.value, features, rid);
      Wire.JoinPush(parts, row);
      rows, parts := rows + row, parts + [row];
    }
    TableMeans(parts, rules, features);
    r := Ok(Table(|features|, rows));
  }

  /** The rows, read back cell by cell. */
  lemma TableMeans(parts: seq<seq<Word>>, rules: seq<Rule>, features: seq<string>)
    requires |parts| == |features| && forall k :: 0 <= k < |parts| ==> IsRow(parts[k], rules, features, k)
    ensures var rows := Wire.Join(parts);
            && IsPacked(rows, BYTE) && |rows| == |features| * CeilDiv(|features|, BYTE)
            && (forall rid: nat, lid: nat ::
                  (!IsBoundary(Table(|features|, rows), rid, lid) <==>
                     0 < rid < |features| && 0 < lid < |features| && Fuses(rules, features[rid], features[lid])))
            && (forall rid: nat, pad: nat :: rid < |features| <= pad && pad / BYTE < CeilDiv(|features|, BYTE) ==>
                  var at := rid * CeilDiv(|features|, BYTE) + pad / BYTE;
                  0 <= at < |rows| && !rows[at][pad % BYTE])
  {
    hide Fuses, IsRow, IsBoundary, CeilDiv, Wire.Join, Holds, BitSet;
    RowsPacked(parts, rules, features);
    var rowBytes, rows := CeilDiv(|features|, BYTE), Wire.Join(parts);
    forall rid: nat, lid: nat
      ensures !IsBoundary(Table(|features|, rows), rid, lid) <==>
        0 < rid < |features| && 0 < lid < |features| && Fuses(rules, features[rid], features[lid])
    {
      VerdictMeans(parts, rules, features, rid, lid);
    }
    forall rid: nat, pad: nat | rid < |features| <= pad && pad / BYTE < rowBytes
      ensures 0 <= rid * rowBytes + pad / BYTE < |rows| && !rows[rid * rowBytes + pad / BYTE][pad % BYTE]
    {
      PaddingClear(parts, rules, features, rid, pad);
    }
  }

  lemma PaddingClear(parts: seq<seq<Word>>, rules: seq<Rule>, features: seq<string>, rid: nat, pad: nat)
    requires |parts| == |features| && forall k :: 0 <= k < |parts| ==> IsRow(parts[k], rules, features, k)
    requires rid < |features| <= pad && pad / BYTE < CeilDiv(|features|, BYTE)
    ensures var at, rows := rid * CeilDiv(|features|, BYTE) + pad / BYTE, Wire.Join(parts);
            0 <= at < |rows| && |rows[at]| == BYTE && !rows[at][pad % BYTE]
  {
    hide Fuses, IsRow, CeilDiv, Wire.Join;
    CellOf(parts, rules, features, rid, pad, rid * CeilDiv(|features|, BYTE));
  }

  /** One verdict of the table. */
  lemma VerdictMeans(parts: seq<seq<Word>>, rules: seq<Rule>, features: seq<string>, rid: nat, lid: nat)
    requires |parts| == |features| && forall k :: 0 <= k < |parts| ==> IsRow(parts[k], rules, features, k)
    requires IsPacked(Wire.Join(parts), BYTE) && |Wire.Join(parts)| == |features| * CeilDiv(|features|, BYTE)
    ensures !IsBoundary(Table(|features|, Wire.Join(parts)), rid, lid) <==>
      0 < rid < |features| && 0 < lid < |features| && Fuses(rules, features[rid], features[lid])
  {
    hide Fuses, IsRow;
    if rid < |features| && lid < |features| {
      CellPlace(|features|, rid, lid);
      CellOf(parts, rules, features, rid, lid, rid * CeilDiv(|features|, BYTE));
    }
  }

  lemma {:induction false} RowsPacked(parts: seq<seq<Word>>, rules: seq<Rule>, features: seq<string>)
    requires |parts| <= |features| && forall k :: 0 <= k < |parts| ==> IsRow(parts[k], rules, features, k)
    ensures IsPacked(Wire.Join(parts), BYTE)
    ensures |Wire.Join(parts)| == |parts| * CeilDiv(|features|, BYTE)
    decreases |parts|
  {
    if parts != [] {
      var n := |parts| - 1;
      RowsPacked(parts[..n], rules, features);
      assert IsRow(parts[n], rules, features, n);
      assert |parts| * CeilDiv(|features|, BYTE) == n * CeilDiv(|features|, BYTE) + CeilDiv(|features|, BYTE);
    }
  }

  /** The cell of a row inside the whole table. */
  lemma CellOf(parts: seq<seq<Word>>, rules: seq<Rule>, features: seq<string>, rid: nat, lid: nat, base: nat)
    requires |parts| == |features| && forall k :: 0 <= k < |parts| ==> IsRow(parts[k], rules, features, k)
    requires rid < |features| && lid / BYTE < CeilDiv(|features|, BYTE) && base == rid * CeilDiv(|features|, BYTE)
    ensures base + lid / BYTE < |Wire.Join(parts)| && |Wire.Join(parts)[base + lid / BYTE]| == BYTE
    ensures Wire.Join(parts)[base + lid / BYTE][lid % BYTE] <==>
      lid < |features| && !(0 < rid && 0 < lid && Fuses(rules, features[rid], features[lid]))
  {
    hide Fuses, IsRow, CeilDiv, Wire.Join;
    var width := CeilDiv(|features|, BYTE);
    forall k | 0 <= k < |parts| ensures |parts[k]| == width { RowCell(parts[k], rules, features, k, lid); }
    RowCell(parts[rid], rules, features, rid, lid);
    Wire.Locate(parts, width, rid, base);
    assert Wire.Join(parts)[base..base + width][lid / BYTE] == parts[rid][lid / BYTE];
  }

  lemma RowCell(row: seq<Word>, rules: seq<Rule>, features: seq<string>, rid: nat, lid: nat)
    requires rid < |features| && IsRow(row, rules, features, rid) && lid / BYTE < CeilDiv(|features|, BYTE)
    ensures |row| == CeilDiv(|features|, BYTE) && |row[lid / BYTE]| == BYTE
    ensures row[lid / BYTE][lid % BYTE] <==> lid < |features| && !(0 < rid && 0 < lid && Fuses(rules, features[rid], features[lid]))
  {
    hide Fuses, CeilDiv;
    assert Holds(row, BYTE, lid) <==> row[lid / BYTE][lid % BYTE];
  }
}
