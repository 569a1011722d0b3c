/** Base-form details for conjugated rows: inherited only where the parent is
    beyond doubt, and never over a detail that exists. */
module InflectionDetails {
  import opened Wrappers
  import opened Sequences
  import opened Sorting
  import opened Lexicon
  import opened Inflection

  datatype Detail = Detail(identity: Identity, description: string)

  /** Who generates a pair: nobody, one identity, or several. */
  datatype Parent = Unmapped | Unique(word: Entry) | Ambiguous

  datatype DetailError = StaleOverlay | DuplicatePair | DuplicateFinal | DuplicateDetail

  datatype DetailReport = DetailReport(generated: nat, emitted: nat, ambiguous: nat, unmapped: nat, finalChanged: nat,
                                       existing: nat, missingLemma: nat, missingLemmaDetail: nat)

  /** The same row but for where it came from. */
  predicate SameGenerated(a: Entry, b: Entry) {
    IdentityOf(a) == IdentityOf(b) && a.wordCost == b.wordCost && a.predictionCost == b.predictionCost
    && a.flags == b.flags && a.annotation == b.annotation
  }

  predicate Matches(generated: seq<Entry>, expected: seq<Entry>) {
    |generated| == |expected| && forall i :: 0 <= i < |generated| ==> SameGenerated(generated[i], expected[i])
  }

  function Adopt(parent: Parent, word: Entry): Parent {
    match parent
    case Unmapped => Unique(word)
    case Unique(previous) => if IdentityOf(previous) == IdentityOf(word) then parent else Ambiguous
    case Ambiguous => Ambiguous
  }

  /** The parent of a pair after these jobs. */
  function ParentOf(work: seq<Job>, pair: Pair): Parent {
    if work == [] then Unmapped
    else
      var front, last := ParentOf(work[..|work| - 1], pair), work[|work| - 1];
      if FormPair(last.form) == pair then Adopt(front, last.word) else front
  }

  /** Some job generates the pair from a word of this identity. */
  ghost predicate Generates(work: seq<Job>, pair: Pair, id: Identity) {
    exists j :: 0 <= j < |work| && FormPair(work[j].form) == pair && IdentityOf(work[j].word) == id
  }

  /** What the parent says about all jobs of the pair. */
  ghost predicate ParentMeans(work: seq<Job>, pair: Pair, p: Parent) {
    match p
    case Unmapped => forall id {:trigger Generates(work, pair, id)} :: !Generates(work, pair, id)
    case Unique(word) =>
      forall id {:trigger Generates(work, pair, id)} :: Generates(work, pair, id) <==> id == IdentityOf(word)
    case Ambiguous => exists a, b :: a != b && Generates(work, pair, a) && Generates(work, pair, b)
  }

  lemma GeneratesMore(work: seq<Job>, job: Job, pair: Pair, id: Identity)
    ensures Generates(work + [job], pair, id) <==>
      Generates(work, pair, id) || (FormPair(job.form) == pair && IdentityOf(job.word) == id)
  {
    var longer := work + [job];
    if Generates(work, pair, id) {
      var j :| 0 <= j < |work| && FormPair(work[j].form) == pair && IdentityOf(work[j].word) == id;
      assert longer[j] == work[j];
    }
    assert longer[|work|] == job;
  }

  lemma {:induction false} ParentExact(work: seq<Job>, pair: Pair)
    ensures ParentMeans(work, pair, ParentOf(work, pair))
    decreases |work|
  {
    if work != [] {
      var front, last := work[..|work| - 1], work[|work| - 1];
      ParentExact(front, pair);
      assert work == front + [last];
      ParentStep(front, last, pair, ParentOf(front, pair));
    }
  }

  lemma ParentStep(work: seq<Job>, job: Job, pair: Pair, p: Parent)
    requires ParentMeans(work, pair, p)
    ensures ParentMeans(work + [job], pair, if FormPair(job.form) == pair then Adopt(p, job.word) else p)
  {
    hide Generates;
    var longer := work + [job];
    var mine := IdentityOf(job.word);
    forall id ensures Generates(longer, pair, id) <==> Generates(work, pair, id) || (FormPair(job.form) == pair && mine == id) {
      GeneratesMore(work, job, pair, id);
    }
    match p
    case Unmapped =>
    case Unique(word) =>
      assert Generates(work, pair, IdentityOf(word));
      assert Generates(longer, pair, IdentityOf(word));
      if FormPair(job.form) == pair { assert Generates(longer, pair, mine); }
    case Ambiguous =>
      var a, b :| a != b && Generates(work, pair, a) && Generates(work, pair, b);
      assert Generates(longer, pair, a) && Generates(longer, pair, b);
  }

  // ------------------------------------------------------------------- outcomes

  /** Rows by identity; None where one repeats. */
  function IndexRows(rows: seq<Entry>): Option<map<Identity, Entry>> {
    if rows == [] then Some(map[])
    else match IndexRows(rows[..|rows| - 1])
      case None => None
      case Some(front) =>
        var last := rows[|rows| - 1];
        if IdentityOf(last) in front then None else Some(front[IdentityOf(last) := last])
  }

  function IndexDetails(details: seq<Detail>): Option<map<Identity, Detail>> {
    if details == [] then Some(map[])
    else match IndexDetails(details[..|details| - 1])
      case None => None
      case Some(front) =>
        var last := details[|details| - 1];
        if last.identity in front then None else Some(front[last.identity := last])
  }

  datatype Outcome = IsUnmapped | IsAmbiguous | FinalChanged | Existing | MissingLemma | MissingLemmaDetail
                   | Emitted(detail: Detail)

  datatype Indexes = Indexes(final: map<Identity, Entry>, details: map<Identity, Detail>)

  function Inherited(target: Entry, parent: Entry, base: Detail): Detail {
    Detail(IdentityOf(target), "「" + parent.surface + "」の活用形。基本形の意味：" + base.description)
  }

  /** One turn of the loop over the generated rows. */
  function Judge(parent: Parent, ix: Indexes, target: Entry): Outcome {
    match parent
    case Unmapped => IsUnmapped
    case Ambiguous => IsAmbiguous
    case Unique(word) =>
      var mine, base := IdentityOf(target), IdentityOf(word);
      if !(mine in ix.final && SameGenerated(target, ix.final[mine])) then FinalChanged
      else if mine in ix.details then Existing
      else if base !in ix.final then MissingLemma
      else if base !in ix.details then MissingLemmaDetail
      else Emitted(Inherited(target, word, ix.details[base]))
  }

  function Count(r: DetailReport, o: Outcome): DetailReport {
    match o
    case IsUnmapped => r.(unmapped := r.unmapped + 1)
    case IsAmbiguous => r.(ambiguous := r.ambiguous + 1)
    case FinalChanged => r.(finalChanged := r.finalChanged + 1)
    case Existing => r.(existing := r.existing + 1)
    case MissingLemma => r.(missingLemma := r.missingLemma + 1)
    case MissingLemmaDetail => r.(missingLemmaDetail := r.missingLemmaDetail + 1)
    case Emitted(_) => r.(emitted := r.emitted + 1)
  }

  function JudgeAll(work: seq<Job>, ix: Indexes, generated: seq<Entry>, n: nat): (seq<Detail>, DetailReport)
    requires n <= |generated|
  {
    if n == 0 then ([], DetailReport(|generated|, 0, 0, 0, 0, 0, 0, 0))
    else
      var front := JudgeAll(work, ix, generated, n - 1);
      var target := generated[n - 1];
      var o := Judge(ParentOf(work, PairOf(target)), ix, target);
      (if o.Emitted? then front.0 + [o.detail] else front.0, Count(front.1, o))
  }

  /** inherit_inflection_details */
  function Inherit(g: Grammar, c: Catalog, lemmas: seq<Entry>, generated: seq<Entry>, final: seq<Entry>, existing: seq<Detail>)
    : Result<(seq<Detail>, DetailReport), DetailError>
  {
    if !Matches(generated, Expand(g, c, lemmas)) then Err(StaleOverlay)
    else if IndexRows(final).None? then Err(DuplicateFinal)
    else if IndexDetails(existing).None? then Err(DuplicateDetail)
    else Ok(JudgeAll(Work(g, c, lemmas), Indexes(IndexRows(final).value, IndexDetails(existing).value), generated, |generated|))
  }

  // ------------------------------------------------------------------- the code

  method BuildRowIndex(rows: seq<Entry>) returns (r: Option<map<Identity, Entry>>)
    ensures r == IndexRows(rows)
  {
    var index: map<Identity, Entry> := map[];
    for i := 0 to |rows|
      invariant IndexRows(rows[..i]) == Some(index)
    {
      TakeMore(rows, i);
      assert rows[..i + 1][..i] == rows[..i];
      if IdentityOf(rows[i]) in index {
        RowsStayDuplicate(rows, i + 1);
        return None;
      }
      index := index[IdentityOf(rows[i]) := rows[i]];
    }
    assert rows[..|rows|] == rows;
    r := Some(index);
  }

  lemma {:induction false} RowsStayDuplicate(rows: seq<Entry>, n: nat)
    requires n <= |rows| && IndexRows(rows[..n]).None?
    ensures IndexRows(rows).None?
    decreases |rows|
  {
    if n < |rows| {
      var front := rows[..|rows| - 1];
      assert front[..n] == rows[..n];
      RowsStayDuplicate(front, n);
    } else {
      assert rows[..n] == rows;
    }
  }

  method BuildDetailIndex(details: seq<Detail>) returns (r: Option<map<Identity, Detail>>)
    ensures r == IndexDetails(details)
  {
    var index: map<Identity, Detail> := map[];
    for i := 0 to |details|
      invariant IndexDetails(details[..i]) == Some(index)
    {
      TakeMore(details, i);
      assert details[..i + 1][..i] == details[..i];
      if details[i].identity in index {
        DetailsStayDuplicate(details, i + 1);
        return None;
      }
      index := index[details[i].identity := details[i]];
    }
    assert details[..|details|] == details;
    r := Some(index);
  }

  lemma {:induction false} DetailsStayDuplicate(details: seq<Detail>, n: nat)
    requires n <= |details| && IndexDetails(details[..n]).None?
    ensures IndexDetails(details).None?
    decreases |details|
  {
    if n < |details| {
      var front := details[..|details| - 1];
      assert front[..n] == details[..n];
      DetailsStayDuplicate(front, n);
    } else {
      assert details[..n] == details;
    }
  }

  /** The parent map: every generated pair, first without a parent. */
  method CollectPairs(generated: seq<Entry>) returns (r: Option<map<Pair, Parent>>)
    ensures r.None? <==> exists i, j :: 0 <= i < j < |generated| && PairOf(generated[i]) == PairOf(generated[j])
    ensures r.Some? ==> forall pair :: pair in r.value <==> exists i :: 0 <= i < |generated| && PairOf(generated[i]) == pair
    ensures r.Some? ==> forall pair :: pair in r.value ==> r.value[pair] == Unmapped
  {
    var parents: map<Pair, Parent> := map[];
    for i := 0 to |generated|
      invariant forall j, k :: 0 <= j < k < i ==> PairOf(generated[j]) != PairOf(generated[k])
      invariant forall pair :: pair in parents <==> exists j :: 0 <= j < i && PairOf(generated[j]) == pair
      invariant forall pair :: pair in parents ==> parents[pair] == Unmapped
    {
      var pair := PairOf(generated[i]);
      if pair in parents { return None; }
      parents := parents[pair := Unmapped];
    }
    r := Some(parents);
  }

  /** The parents after the forms of one more lemma. */
  method AdoptForms(parents: map<Pair, Parent>, ghost work: seq<Job>, word: Entry, row: PosRow, forms: seq<Form>)
    returns (r: map<Pair, Parent>)
    requires forall pair :: pair in parents ==> parents[pair] == ParentOf(work, pair)
    ensures r.Keys == parents.Keys
    ensures forall pair :: pair in r ==> r[pair] == ParentOf(work + LemmaJobs(word, row, forms), pair)
  {
    r := parents;
    ghost var jobs := LemmaJobs(word, row, forms);
    assert work + jobs[..0] == work;
    for k := 0 to |forms|
      invariant r.Keys == parents.Keys
      invariant forall pair :: pair in r ==> r[pair] == ParentOf(work + jobs[..k], pair)
    {
      var pair := FormPair(forms[k]);
      assert work + jobs[..k + 1] == (work + jobs[..k]) + [jobs[k]];
      assert (work + jobs[..k + 1])[..|work| + k] == work + jobs[..k];
      if pair in r {
        r := r[pair := Adopt(r[pair], word)];
      }
    }
    assert jobs[..|forms|] == jobs;
  }

  method FindParents(g: Grammar, c: Catalog, lemmas: seq<Entry>, pairs: map<Pair, Parent>) returns (parents: map<Pair, Parent>)
    requires forall pair :: pair in pairs ==> pairs[pair] == Unmapped
    ensures parents.Keys == pairs.Keys
    ensures forall pair :: pair in parents ==> parents[pair] == ParentOf(Work(g, c, lemmas), pair)
  {
    hide FormsOf;
    parents := pairs;
    for i := 0 to |lemmas|
      invariant parents.Keys == pairs.Keys
      invariant forall pair :: pair in parents ==> parents[pair] == ParentOf(Work(g, c, lemmas[..i]), pair)
    {
      TakeMore(lemmas, i);
      WorkMore(g, c, lemmas[..i], lemmas[i]);
      ghost var before := Work(g, c, lemmas[..i]);
      assert before + [] == before;
      match FormsOf(g, c, lemmas[i])
      case Forms(row, forms) => parents := AdoptForms(parents, before, lemmas[i], row, forms);
      case _ =>
    }
    assert lemmas[..|lemmas|] == lemmas;
  }

  /** The generated overlay never repeats a pair, so that error cannot occur. */
  lemma GeneratedPairsDiffer(g: Grammar, c: Catalog, lemmas: seq<Entry>, generated: seq<Entry>)
    requires Matches(generated, Expand(g, c, lemmas))
    ensures forall i, j :: 0 <= i < j < |generated| ==> PairOf(generated[i]) != PairOf(generated[j])
  {
    hide Expand;
    ExpansionIsNew(g, c, lemmas);
    var expected := Expand(g, c, lemmas);
    forall i | 0 <= i < |generated| ensures PairOf(generated[i]) == PairOf(expected[i]) {
      assert SameGenerated(generated[i], expected[i]);
    }
  }

  method InheritDetails(g: Grammar, c: Catalog, lemmas: seq<Entry>, generated: seq<Entry>, final: seq<Entry>,
                        existing: seq<Detail>) returns (r: Result<(seq<Detail>, DetailReport), DetailError>)
    ensures r == Inherit(g, c, lemmas, generated, final, existing)
  {
    hide Expand, Work, Judge, IndexRows, IndexDetails, SameGenerated;
    var expected, _ := ExpandInflections(g, c, lemmas);
    if !Matches(generated, expected) { return Err(StaleOverlay); }
    GeneratedPairsDiffer(g, c, lemmas, generated);
    var pairs := CollectPairs(generated);
    var parents := FindParents(g, c, lemmas, pairs.value);
    var finalByKey := BuildRowIndex(final);
    if finalByKey.None? { return Err(DuplicateFinal); }
    var detailByKey := BuildDetailIndex(existing);
    if detailByKey.None? { return Err(DuplicateDetail); }
    var ix := Indexes(finalByKey.value, detailByKey.value);
    var inherited, report := JudgeRows(g, c, lemmas, parents, ix, generated);
    r := Ok((inherited, report));
  }

  /** The loop over the generated rows. */
  method JudgeRows(g: Grammar, c: Catalog, lemmas: seq<Entry>, parents: map<Pair, Parent>, ix: Indexes, generated: seq<Entry>)
    returns (inherited: seq<Detail>, report: DetailReport)
    requires forall i :: 0 <= i < |generated| ==> PairOf(generated[i]) in parents
    requires forall pair :: pair in parents ==> parents[pair] == ParentOf(Work(g, c, lemmas), pair)
    ensures (inherited, report) == JudgeAll(Work(g, c, lemmas), ix, generated, |generated|)
  {
    hide Work, Judge, ParentOf;
    inherited, report := [], DetailReport(|generated|, 0, 0, 0, 0, 0, 0, 0);
    for i := 0 to |generated|
      invariant (inherited, report) == JudgeAll(Work(g, c, lemmas), ix, generated, i)
    {
      var target := generated[i];
      var o := Judge(parents[PairOf(target)], ix, target);
      if o.Emitted? { inherited := inherited + [o.detail]; }
      report := Count(report, o);
    }
  }

  // ------------------------------------------------------- what inheritance keeps

  function OutcomeSum(r: DetailReport): nat {
    r.emitted + r.ambiguous + r.unmapped + r.finalChanged + r.existing + r.missingLemma + r.missingLemmaDetail
  }

  lemma MappedOutcome(parent: Parent, ix: Indexes, target: Entry)
    requires !parent.Unmapped?
    ensures !Judge(parent, ix, target).IsUnmapped?
  {}

  lemma {:induction false} JudgeCounts(work: seq<Job>, ix: Indexes, generated: seq<Entry>, n: nat)
    requires n <= |generated|
    requires forall i :: 0 <= i < n ==> !ParentOf(work, PairOf(generated[i])).Unmapped?
    ensures var (details, r) := JudgeAll(work, ix, generated, n);
            r.generated == |generated| && OutcomeSum(r) == n && r.unmapped == 0 && r.emitted == |details|
    decreases n
  {
    hide ParentOf, Judge;
    if n > 0 {
      JudgeCounts(work, ix, generated, n - 1);
      MappedOutcome(ParentOf(work, PairOf(generated[n - 1])), ix, generated[n - 1]);
    }
  }

  /** Every generated row has a parent: it came from some lemma's form. */
  lemma GeneratedIsMapped(g: Grammar, c: Catalog, lemmas: seq<Entry>, generated: seq<Entry>, i: nat)
    requires Matches(generated, Expand(g, c, lemmas)) && i < |generated|
    ensures !ParentOf(Work(g, c, lemmas), PairOf(generated[i])).Unmapped?
  {
    hide Expand, Work, ResolveForm, PriceOf;
    var ctx, work, expected := Context(g, c, lemmas), Work(g, c, lemmas), Expand(g, c, lemmas);
    ExpansionIsNew(g, c, lemmas);
    assert SameGenerated(generated[i], expected[i]);
    var j :| 0 <= j < |work| && FromJob(ctx, work, expected[i], work[j]);
    var pair := PairOf(generated[i]);
    ParentExact(work, pair);
    assert Generates(work, pair, IdentityOf(work[j].word));
  }

  /** On success nothing is unmapped and the outcomes account for every row. */
  lemma InheritanceAccounts(g: Grammar, c: Catalog, lemmas: seq<Entry>, generated: seq<Entry>, final: seq<Entry>,
                            existing: seq<Detail>)
    requires Inherit(g, c, lemmas, generated, final, existing).Ok?
    ensures var (details, r) := Inherit(g, c, lemmas, generated, final, existing).value;
            r.unmapped == 0 && OutcomeSum(r) == r.generated == |generated| && r.emitted == |details|
  {
    hide Expand, Work, IndexRows, IndexDetails, ParentOf;
    forall i | 0 <= i < |generated| ensures !ParentOf(Work(g, c, lemmas), PairOf(generated[i])).Unmapped? {
      GeneratedIsMapped(g, c, lemmas, generated, i);
    }
    JudgeCounts(Work(g, c, lemmas), Indexes(IndexRows(final).value, IndexDetails(existing).value), generated, |generated|);
  }

  /** The row may inherit from this word: the word's identity alone generates its
      pair, the row reached the final lexicon unchanged and has no detail, and
      the word is there with one. */
  ghost predicate MayInherit(work: seq<Job>, ix: Indexes, target: Entry, word: Entry) {
    && (forall id {:trigger Generates(work, PairOf(target), id)} ::
          Generates(work, PairOf(target), id) <==> id == IdentityOf(word))
    && IdentityOf(target) in ix.final && SameGenerated(target, ix.final[IdentityOf(target)])
    && IdentityOf(target) !in ix.details
    && IdentityOf(word) in ix.final && IdentityOf(word) in ix.details
  }

  /** The detail is this word's own, framed as that of a base form. */
  ghost predicate Bequeaths(work: seq<Job>, ix: Indexes, target: Entry, word: Entry, detail: Detail) {
    MayInherit(work, ix, target, word) && detail == Inherited(target, word, ix.details[IdentityOf(word)])
  }

  /** A detail is emitted exactly for the rows that may inherit, with the base
      form's own description. */
  lemma EmittedExactly(work: seq<Job>, ix: Indexes, target: Entry)
    ensures var o := Judge(ParentOf(work, PairOf(target)), ix, target);
            o.Emitted? <==> exists word :: MayInherit(work, ix, target, word)
    ensures var o := Judge(ParentOf(work, PairOf(target)), ix, target);
            o.Emitted? ==> exists word :: Bequeaths(work, ix, target, word, o.detail)
  {
    hide ParentOf, Generates, SameGenerated, Inherited;
    var pair := PairOf(target);
    var p := ParentOf(work, pair);
    ParentExact(work, pair);
    if Judge(p, ix, target).Emitted? {
      assert MayInherit(work, ix, target, p.word);
      assert Bequeaths(work, ix, target, p.word, Judge(p, ix, target).detail);
    }
    if word :| MayInherit(work, ix, target, word) {
      assert Generates(work, pair, IdentityOf(word));
      OneParent(work, pair, p, IdentityOf(word));
    }
  }

  lemma OneParent(work: seq<Job>, pair: Pair, p: Parent, id: Identity)
    requires ParentMeans(work, pair, p)
    requires forall other {:trigger Generates(work, pair, other)} :: Generates(work, pair, other) <==> other == id
    ensures p.Unique? && IdentityOf(p.word) == id
  {
    hide Generates;
    assert Generates(work, pair, id);
  }

  /** Some word bequeaths this detail to the row. */
  ghost predicate Receives(work: seq<Job>, ix: Indexes, target: Entry, detail: Detail) {
    exists word :: Bequeaths(work, ix, target, word, detail)
  }

  lemma EmittedMeansReceives(work: seq<Job>, ix: Indexes, target: Entry, detail: Detail)
    ensures Judge(ParentOf(work, PairOf(target)), ix, target) == Emitted(detail) <==> Receives(work, ix, target, detail)
  {
    hide ParentOf, Generates, SameGenerated;
    EmittedExactly(work, ix, target);
    var pair := PairOf(target);
    var p := ParentOf(work, pair);
    ParentExact(work, pair);
    if word :| Bequeaths(work, ix, target, word, detail) {
      OneParent(work, pair, p, IdentityOf(word));
    }
    if Judge(p, ix, target) == Emitted(detail) {
      assert Bequeaths(work, ix, target, p.word, detail);
    }
  }

  lemma {:induction false} ListHoldsReceived(work: seq<Job>, ix: Indexes, generated: seq<Entry>, n: nat, detail: Detail)
    requires n <= |generated|
    ensures detail in JudgeAll(work, ix, generated, n).0
            <==> exists i :: 0 <= i < n && Receives(work, ix, generated[i], detail)
    decreases n
  {
    hide ParentOf, Judge, Receives;
    if n > 0 {
      ListHoldsReceived(work, ix, generated, n - 1, detail);
      EmittedMeansReceives(work, ix, generated[n - 1], detail);
      PushedMember(JudgeAll(work, ix, generated, n - 1).0, Judge(ParentOf(work, PairOf(generated[n - 1])), ix, generated[n - 1]), detail);
    }
  }

  lemma PushedMember(front: seq<Detail>, o: Outcome, detail: Detail)
    ensures detail in (if o.Emitted? then front + [o.detail] else front) <==> detail in front || o == Emitted(detail)
  {
    if o.Emitted? {
      var longer := front + [o.detail];
      assert longer[|front|] == o.detail;
      assert forall i :: 0 <= i < |front| ==> longer[i] == front[i];
    }
  }

  /** The returned details are exactly those that some generated row receives. */
  lemma ReturnedExactly(g: Grammar, c: Catalog, lemmas: seq<Entry>, generated: seq<Entry>, final: seq<Entry>,
                        existing: seq<Detail>, detail: Detail)
    requires Inherit(g, c, lemmas, generated, final, existing).Ok?
    ensures var ix := Indexes(IndexRows(final).value, IndexDetails(existing).value);
            detail in Inherit(g, c, lemmas, generated, final, existing).value.0
            <==> exists i :: 0 <= i < |generated| && Receives(Work(g, c, lemmas), ix, generated[i], detail)
  {
    hide Work, Expand, Receives, IndexRows, IndexDetails, JudgeAll;
    ListHoldsReceived(Work(g, c, lemmas), Indexes(IndexRows(final).value, IndexDetails(existing).value), generated,
                      |generated|, detail);
  }
}
