/** Expansion of dictionary-form verbs and adjectives into conjugated rows. */
module Inflection {
  import opened Wrappers
  import opened Sequences
  import opened Sorting
  import opened Lexicon

  const BASE_FORM := "基本形"
  const SUFFIX := "接尾"
  const VOICED_AUX := "でる"
  const I32_MIN := -0x8000_0000
  const I32_MAX := 0x7fff_ffff
  const PREDICTION_OFFSET := 1200
  const PREDICTION_COST_LIMIT := 6000
  const NO_FLAGS := 0
  const PREDICTION := 2

  // ---------------------------------------------------------- classes and forms

  /** A class definition; `word` is its lemma column. */
  datatype PosRow = PosRow(pos: string, subpos: string, ctype: string, cform: string, word: string)

  /** Classes by id, and the first id of each class. */
  datatype Catalog = Catalog(byId: map<nat, PosRow>, byKey: map<PosRow, nat>)

  /** parse_inflection_pos_catalog, line by line. */
  function AddRow(c: Catalog, id: nat, row: PosRow): Option<Catalog> {
    if id in c.byId then None
    else Some(Catalog(c.byId[id := row], if row in c.byKey then c.byKey else c.byKey[row := id]))
  }

  ghost predicate IsCatalog(c: Catalog) {
    forall row :: row in c.byKey ==> c.byKey[row] in c.byId && c.byId[c.byKey[row]] == row
  }

  lemma AddRowKeepsCatalog(c: Catalog, id: nat, row: PosRow)
    requires IsCatalog(c)
    ensures IsCatalog(Catalog(map[], map[]))
    ensures AddRow(c, id, row).Some? ==> IsCatalog(AddRow(c, id, row).value)
  {}

  function RowOf(c: Catalog, id: nat): Option<PosRow> { if id in c.byId then Some(c.byId[id]) else None }

  /** InflectionPosCatalog::lookup: the lemma's own class, else the family's. */
  function ClassOf(c: Catalog, row: PosRow): Option<nat> {
    if row.word != "*" && row in c.byKey then Some(c.byKey[row])
    else if row.(word := "*") in c.byKey then Some(c.byKey[row.(word := "*")])
    else None
  }

  datatype Aux = Aux(pos: string, subpos: string, ctype: string, cform: string, word: string, voicedLemma: string)

  datatype Form = Form(reading: string, surface: string, cforms: seq<string>, aux: Option<Aux>, costDelta: int,
                       predictionDelta: int, predict: bool)

  /** The conjugation tables and the script test. */
  datatype Grammar = Grammar(conjugate: (PosRow, Entry) -> Option<seq<Form>>, isHan: char -> bool)

  datatype LemmaForms = NoPosRow | NotALemma | Unconjugable | Forms(row: PosRow, forms: seq<Form>)

  function FormsOf(g: Grammar, c: Catalog, word: Entry): LemmaForms {
    match RowOf(c, word.leftId)
    case None => NoPosRow
    case Some(row) =>
      if row.cform != BASE_FORM || row.subpos == SUFFIX then NotALemma
      else match g.conjugate(row, word)
        case Some(forms) => if forms == [] then Unconjugable else Forms(row, forms)
        case None => Unconjugable
  }

  /** resolve_form_id: the class of the first 活用形 the catalog has. */
  function ResolveForm(c: Catalog, row: PosRow, cforms: seq<string>): Option<nat> {
    if cforms == [] then None
    else match ClassOf(c, row.(cform := cforms[0]))
      case Some(id) => Some(id)
      case None => ResolveForm(c, row, cforms[1..])
  }

  /** A resolved class is one of the forms asked for. */
  lemma {:induction false} ResolvedForm(c: Catalog, row: PosRow, cforms: seq<string>)
    requires IsCatalog(c) && ResolveForm(c, row, cforms).Some?
    ensures var id := ResolveForm(c, row, cforms).value;
            id in c.byId && c.byId[id].cform in cforms
    decreases |cforms|
  {
    if ClassOf(c, row.(cform := cforms[0])).None? { ResolvedForm(c, row, cforms[1..]); }
  }

  // -------------------------------------------------------------- the work list

  type Pair = (string, string)

  function PairOf(e: Entry): Pair { (e.reading, e.surface) }

  function FormPair(f: Form): Pair { (f.reading, f.surface) }

  /** One form of one lemma. */
  datatype Job = Job(word: Entry, row: PosRow, form: Form)

  function JobsOf(g: Grammar, c: Catalog, word: Entry): (jobs: seq<Job>) {
    var forms := FormsOf(g, c, word);
    if forms.Forms? then LemmaJobs(word, forms.row, forms.forms) else []
  }

  function LemmaJobs(word: Entry, row: PosRow, forms: seq<Form>): (jobs: seq<Job>)
    ensures |jobs| == |forms| && forall i :: 0 <= i < |jobs| ==> jobs[i] == Job(word, row, forms[i])
  {
    seq(|forms|, i requires 0 <= i < |forms| => Job(word, row, forms[i]))
  }

  /** Every form of every lemma, in order. */
  function Work(g: Grammar, c: Catalog, lemmas: seq<Entry>): seq<Job> {
    if lemmas == [] then []
    else Work(g, c, lemmas[..|lemmas| - 1]) + JobsOf(g, c, lemmas[|lemmas| - 1])
  }

  predicate IsNative(lemmas: seq<Entry>, pair: Pair) {
    exists i :: 0 <= i < |lemmas| && PairOf(lemmas[i]) == pair
  }

  predicate IsFormOf(native: PosRow, word: PosRow, cforms: seq<string>) {
    native.pos == word.pos && native.subpos == word.subpos && native.ctype == word.ctype && native.word == word.word
    && native.cform in cforms
  }

  /** A native row of this very form of the job's lemma. */
  predicate IsSiblingRow(c: Catalog, native: Entry, job: Job) {
    PairOf(native) == FormPair(job.form)
    && RowOf(c, native.leftId).Some? && IsFormOf(RowOf(c, native.leftId).value, job.row, job.form.cforms)
  }

  function Least(a: Option<int>, b: int): Option<int> { if a.Some? && a.value <= b then a else Some(b) }

  function Most(a: Option<int>, b: int): Option<int> { if a.Some? && a.value >= b then a else Some(b) }

  /** The cheapest native row of a job's form. */
  function SiblingCost(c: Catalog, lemmas: seq<Entry>, job: Job): Option<int> {
    if lemmas == [] then None
    else
      var front, last := SiblingCost(c, lemmas[..|lemmas| - 1], job), lemmas[|lemmas| - 1];
      if IsSiblingRow(c, last, job) then Least(front, last.wordCost) else front
  }

  datatype Sibling = Sibling(cost: int, lemmaCost: int)

  /** native_siblings of one reading. */
  function Siblings(c: Catalog, lemmas: seq<Entry>, work: seq<Job>, reading: string): seq<Sibling> {
    if work == [] then []
    else
      var front, last := Siblings(c, lemmas, work[..|work| - 1], reading), work[|work| - 1];
      var cost := SiblingCost(c, lemmas, last);
      if last.form.reading == reading && cost.Some? then front + [Sibling(cost.value, last.word.wordCost)] else front
  }

  function Saturate(n: int): int { if n > I32_MAX then I32_MAX else if n < I32_MIN then I32_MIN else n }

  /** One above the dearest sibling whose lemma is at least as common. */
  function Floor(siblings: seq<Sibling>, lemmaCost: int): Option<int> {
    if siblings == [] then None
    else
      var front, last := Floor(siblings[..|siblings| - 1], lemmaCost), siblings[|siblings| - 1];
      if last.lemmaCost <= lemmaCost then Most(front, Saturate(last.cost + 1)) else front
  }

  /** The dearest sibling whose lemma is rarer. */
  function Rarer(siblings: seq<Sibling>, lemmaCost: int): Option<int> {
    if siblings == [] then None
    else
      var front, last := Rarer(siblings[..|siblings| - 1], lemmaCost), siblings[|siblings| - 1];
      if last.lemmaCost > lemmaCost then Most(front, last.cost) else front
  }

  predicate HasHan(g: Grammar, s: string) { exists i :: 0 <= i < |s| && g.isHan(s[i]) }

  /** The cheapest kanji-spelled row of a reading and class. */
  function KanjiCost(g: Grammar, lemmas: seq<Entry>, reading: string, leftId: nat): Option<int> {
    if lemmas == [] then None
    else
      var front, last := KanjiCost(g, lemmas[..|lemmas| - 1], reading, leftId), lemmas[|lemmas| - 1];
      if HasHan(g, last.surface) && last.reading == reading && last.leftId == leftId then Least(front, last.wordCost) else front
  }

  predicate DefersToKanji(g: Grammar, lemmas: seq<Entry>, word: Entry) {
    word.surface == word.reading
    && KanjiCost(g, lemmas, word.reading, word.leftId).Some?
    && KanjiCost(g, lemmas, word.reading, word.leftId).value <= word.wordCost
  }

  // ---------------------------------------------------------------- expansion

  datatype Counters = Counters(skippedExisting: nat, skippedForms: nat, raised: nat, keptUnderRarer: nat, unpredicted: nat)

  datatype State = State(emitted: seq<Entry>, seen: set<Pair>, counters: Counters)

  const START := State([], {}, Counters(0, 0, 0, 0, 0))

  /** What the whole input contributes to each step. */
  datatype Context = Context(g: Grammar, c: Catalog, lemmas: seq<Entry>)

  function EndsWith(s: string, tail: string): bool { |s| >= |tail| && s[|s| - |tail|..] == tail }

  function RightId(ctx: Context, form: Form, classId: nat): nat {
    match form.aux
    case None => classId
    case Some(aux) =>
      var word := if EndsWith(form.reading, VOICED_AUX) then aux.voicedLemma else aux.word;
      match ClassOf(ctx.c, PosRow(aux.pos, aux.subpos, aux.ctype, aux.cform, word))
      case None => classId
      case Some(id) => id
  }

  /** Word cost and prediction base of a job, and which floor applied. */
  datatype Price = Price(wordCost: int, predictionBase: int, raised: bool, underRarer: bool)

  function PriceOf(ctx: Context, work: seq<Job>, job: Job): Price {
    PriceAmong(Siblings(ctx.c, ctx.lemmas, work, job.form.reading), job)
  }

  function PriceAmong(siblings: seq<Sibling>, job: Job): Price {
    var floor, rarer := Floor(siblings, job.word.wordCost), Rarer(siblings, job.word.wordCost);
    var cost := Saturate(job.word.wordCost + job.form.costDelta);
    var base := Saturate(job.word.wordCost + job.form.predictionDelta);
    if floor.Some? && floor.value > cost then
      Price(floor.value, Saturate(base + Saturate(floor.value - cost)), true, false)
    else Price(cost, base, false, rarer.Some? && rarer.value > cost)
  }

  predicate IsWorthy(job: Job, price: Price) {
    job.form.predict && |job.form.reading| >= 2 && price.predictionBase <= PREDICTION_COST_LIMIT
  }

  /** The emitted row; `line` is its place in emission order. */
  function Emit(ctx: Context, job: Job, price: Price, classId: nat, line: nat): Entry {
    EmitRow(ctx, job, price, DefersToKanji(ctx.g, ctx.lemmas, job.word), classId, line)
  }

  function EmitRow(ctx: Context, job: Job, price: Price, defers: bool, classId: nat, line: nat): Entry {
    var worthy := IsWorthy(job, price) && !defers;
    Entry(job.form.reading, job.form.surface, classId, RightId(ctx, job.form, classId), price.wordCost,
          if worthy then Saturate(price.predictionBase + PREDICTION_OFFSET) else I32_MAX,
          if worthy then PREDICTION else NO_FLAGS, "", "inflection-expand", line)
  }

  predicate Unpredicted(ctx: Context, job: Job, price: Price) {
    IsWorthy(job, price) && DefersToKanji(ctx.g, ctx.lemmas, job.word)
  }

  /** One turn of the inner loop. */
  function Step(ctx: Context, work: seq<Job>, s: State, job: Job): State {
    var pair := FormPair(job.form);
    if IsNative(ctx.lemmas, pair) || pair in s.seen then
      s.(counters := s.counters.(skippedExisting := s.counters.skippedExisting + 1))
    else
      var seen := s.seen + {pair};
      match ResolveForm(ctx.c, job.row, job.form.cforms)
      case None => State(s.emitted, seen, s.counters.(skippedForms := s.counters.skippedForms + 1))
      case Some(classId) =>
        var price := PriceOf(ctx, work, job);
        State(s.emitted + [Emit(ctx, job, price, classId, |s.emitted| + 1)], seen,
              s.counters.(raised := s.counters.raised + One(price.raised),
                          keptUnderRarer := s.counters.keptUnderRarer + One(price.underRarer),
                          unpredicted := s.counters.unpredicted + One(Unpredicted(ctx, job, price))))
  }

  /** The state after these jobs; `work` is the whole list, from which floors come. */
  function Run(ctx: Context, work: seq<Job>, done: seq<Job>): State {
    if done == [] then START else Step(ctx, work, Run(ctx, work, done[..|done| - 1]), done[|done| - 1])
  }

  predicate EmissionLeq(a: Entry, b: Entry) {
    Then(CompareText(a.reading, b.reading),
         Then(CompareText(a.surface, b.surface),
              Then(CompareInt(a.leftId, b.leftId), Then(CompareInt(a.rightId, b.rightId), CompareInt(a.wordCost, b.wordCost))))) <= 0
  }

  /** expand_inflections: the rows it returns. */
  function Expand(g: Grammar, c: Catalog, lemmas: seq<Entry>): seq<Entry> {
    var work := Work(g, c, lemmas);
    SortBy(Run(Context(g, c, lemmas), work, work).emitted, EmissionLeq)
  }

  datatype Report = Report(lemmaEntries: nat, emitted: nat, skippedExisting: nat, skippedUnsupported: nat, raised: nat,
                           keptUnderRarer: nat, unpredicted: nat)

  /** Lemmas, and lemmas or rows that yield nothing, among the first n. */
  function LemmaCounts(g: Grammar, c: Catalog, lemmas: seq<Entry>): (nat, nat) {
    if lemmas == [] then (0, 0)
    else
      var front, last := LemmaCounts(g, c, lemmas[..|lemmas| - 1]), FormsOf(g, c, lemmas[|lemmas| - 1]);
      (front.0 + One(last.Unconjugable? || last.Forms?), front.1 + One(last.NoPosRow? || last.Unconjugable?))
  }

  lemma RunMore(ctx: Context, work: seq<Job>, done: seq<Job>, job: Job)
    ensures Run(ctx, work, done + [job]) == Step(ctx, work, Run(ctx, work, done), job)
  {
    assert (done + [job])[..|done|] == done;
  }

  // ------------------------------------------- the maps the expansion looks up

  type Natives = map<Pair, seq<Entry>>

  type SiblingMap = map<string, seq<Sibling>>

  type KanjiMap = map<(string, nat), int>

  /** The rows with this reading and surface, in order. */
  function RowsWith(rows: seq<Entry>, pair: Pair): (r: seq<Entry>)
    ensures r != [] <==> IsNative(rows, pair)
  {
    if rows == [] then []
    else
      var n := |rows| - 1;
      assert IsNative(rows, pair) <==> IsNative(rows[..n], pair) || PairOf(rows[n]) == pair by { NativeLast(rows, pair); }
      if PairOf(rows[n]) == pair then RowsWith(rows[..n], pair) + [rows[n]] else RowsWith(rows[..n], pair)
  }

  lemma NativeLast(rows: seq<Entry>, pair: Pair)
    requires rows != []
    ensures IsNative(rows, pair) <==> IsNative(rows[..|rows| - 1], pair) || PairOf(rows[|rows| - 1]) == pair
  {
    var front := rows[..|rows| - 1];
    assert forall i :: 0 <= i < |front| ==> front[i] == rows[i];
    if IsNative(front, pair) {
      var i :| 0 <= i < |front| && PairOf(front[i]) == pair;
      assert PairOf(rows[i]) == pair;
    }
  }

  ghost predicate AreNatives(natives: Natives, rows: seq<Entry>) {
    forall pair :: RowsWith(rows, pair) == if pair in natives then natives[pair] else []
  }

  method CollectNatives(rows: seq<Entry>) returns (natives: Natives)
    ensures AreNatives(natives, rows)
    ensures forall pair :: pair in natives <==> IsNative(rows, pair)
  {
    natives := map[];
    for i := 0 to |rows|
      invariant AreNatives(natives, rows[..i])
      invariant forall pair :: pair in natives ==> natives[pair] != []
    {
      assert rows[..i + 1][..i] == rows[..i];
      var pair := PairOf(rows[i]);
      natives := natives[pair := (if pair in natives then natives[pair] else []) + [rows[i]]];
    }
    assert rows[..|rows|] == rows;
  }

  /** Only rows of the job's own pair can be its siblings. */
  lemma {:induction false} SiblingCostAmong(c: Catalog, rows: seq<Entry>, job: Job)
    ensures SiblingCost(c, RowsWith(rows, FormPair(job.form)), job) == SiblingCost(c, rows, job)
    decreases |rows|
  {
    hide IsNative;
    if rows != [] {
      var front, last := rows[..|rows| - 1], rows[|rows| - 1];
      SiblingCostAmong(c, front, job);
      var kept := RowsWith(front, FormPair(job.form));
      assert (kept + [last])[..|kept|] == kept;
    }
  }

  ghost predicate AreSiblings(siblings: SiblingMap, c: Catalog, lemmas: seq<Entry>, work: seq<Job>) {
    forall reading :: Siblings(c, lemmas, work, reading) == if reading in siblings then siblings[reading] else []
  }

  lemma SiblingsMore(c: Catalog, lemmas: seq<Entry>, work: seq<Job>, job: Job, reading: string)
    ensures Siblings(c, lemmas, work + [job], reading) ==
      var cost := SiblingCost(c, lemmas, job);
      Siblings(c, lemmas, work, reading)
        + if job.form.reading == reading && cost.Some? then [Sibling(cost.value, job.word.wordCost)] else []
  {
    assert (work + [job])[..|work|] == work;
  }

  /** The siblings after one more form. */
  method AddSibling(siblings: SiblingMap, c: Catalog, ghost lemmas: seq<Entry>, natives: Natives, ghost before: seq<Job>,
                    job: Job) returns (r: SiblingMap)
    requires AreNatives(natives, lemmas) && AreSiblings(siblings, c, lemmas, before)
    ensures AreSiblings(r, c, lemmas, before + [job])
  {
    hide SiblingCost, Siblings, RowsWith;
    r := siblings;
    var pair, reading := FormPair(job.form), job.form.reading;
    forall any ensures Siblings(c, lemmas, before + [job], any) ==
      Siblings(c, lemmas, before, any)
        + if job.form.reading == any && SiblingCost(c, lemmas, job).Some?
          then [Sibling(SiblingCost(c, lemmas, job).value, job.word.wordCost)] else []
    {
      SiblingsMore(c, lemmas, before, job, any);
    }
    SiblingCostAmong(c, lemmas, job);
    assert RowsWith(lemmas, pair) == if pair in natives then natives[pair] else [];
    var rows := if pair in natives then natives[pair] else [];
    var cost := SiblingCost(c, rows, job);
    if cost.Some? {
      r := r[reading := (if reading in r then r[reading] else []) + [Sibling(cost.value, job.word.wordCost)]];
    }
  }

  /** The siblings after the forms of one more lemma. */
  method AddSiblings(siblings: SiblingMap, c: Catalog, ghost lemmas: seq<Entry>, natives: Natives, ghost before: seq<Job>,
                     word: Entry, row: PosRow, forms: seq<Form>) returns (r: SiblingMap)
    requires AreNatives(natives, lemmas) && AreSiblings(siblings, c, lemmas, before)
    ensures AreSiblings(r, c, lemmas, before + LemmaJobs(word, row, forms))
  {
    hide AreNatives, AreSiblings;
    r := siblings;
    ghost var jobs := LemmaJobs(word, row, forms);
    assert before + jobs[..0] == before;
    for k := 0 to |forms|
      invariant AreSiblings(r, c, lemmas, before + jobs[..k])
    {
      TakeMore(jobs, k);
      Regroup(before, jobs[..k], [jobs[k]]);
      r := AddSibling(r, c, lemmas, natives, before + jobs[..k], Job(word, row, forms[k]));
    }
    assert jobs[..|forms|] == jobs;
  }

  /** native_siblings */
  method CollectSiblings(g: Grammar, c: Catalog, lemmas: seq<Entry>, natives: Natives) returns (siblings: SiblingMap)
    requires AreNatives(natives, lemmas)
    ensures AreSiblings(siblings, c, lemmas, Work(g, c, lemmas))
  {
    hide FormsOf, AreNatives, SiblingCost;
    siblings := map[];
    for i := 0 to |lemmas|
      invariant AreSiblings(siblings, c, lemmas, Work(g, c, lemmas[..i]))
    {
      TakeMore(lemmas, i);
      WorkMore(g, c, lemmas[..i], lemmas[i]);
      ghost var before := Work(g, c, lemmas[..i]);
      assert before + [] == before;
      match FormsOf(g, c, lemmas[i])
      case Forms(row, forms) => siblings := AddSiblings(siblings, c, lemmas, natives, before, lemmas[i], row, forms);
      case _ =>
    }
    assert lemmas[..|lemmas|] == lemmas;
  }

  ghost predicate AreKanji(kanji: KanjiMap, g: Grammar, lemmas: seq<Entry>) {
    forall reading, id: nat :: KanjiCost(g, lemmas, reading, id) == if (reading, id) in kanji then Some(kanji[(reading, id)]) else None
  }

  /** kanji_lemma_costs */
  method CollectKanji(g: Grammar, lemmas: seq<Entry>) returns (kanji: KanjiMap)
    ensures AreKanji(kanji, g, lemmas)
  {
    kanji := map[];
    for i := 0 to |lemmas|
      invariant AreKanji(kanji, g, lemmas[..i])
    {
      assert lemmas[..i + 1][..i] == lemmas[..i];
      var e := lemmas[i];
      if HasHan(g, e.surface) {
        var key := (e.reading, e.leftId);
        kanji := kanji[key := (if key in kanji && kanji[key] <= e.wordCost then kanji[key] else e.wordCost)];
      }
    }
    assert lemmas[..|lemmas|] == lemmas;
  }

  /** The three maps of one expansion. */
  datatype Lookups = Lookups(natives: Natives, siblings: SiblingMap, kanji: KanjiMap)

  ghost predicate AreLookups(maps: Lookups, ctx: Context, work: seq<Job>) {
    && (forall pair :: pair in maps.natives <==> IsNative(ctx.lemmas, pair))
    && AreSiblings(maps.siblings, ctx.c, ctx.lemmas, work)
    && AreKanji(maps.kanji, ctx.g, ctx.lemmas)
  }

  // ------------------------------------------------------------------- the loops

  /** The inner loop over the forms of one lemma. */
  method ExpandLemma(ctx: Context, ghost work: seq<Job>, maps: Lookups, ghost before: seq<Job>, s: State, word: Entry, row: PosRow,
                     forms: seq<Form>)
    returns (r: State)
    requires AreLookups(maps, ctx, work) && s == Run(ctx, work, before)
    ensures r == Run(ctx, work, before + LemmaJobs(word, row, forms))
  {
    var key := (word.reading, word.leftId);
    var defers := word.surface == word.reading && key in maps.kanji && maps.kanji[key] <= word.wordCost;
    assert defers == DefersToKanji(ctx.g, ctx.lemmas, word);
    hide Step, AreLookups, DefersToKanji;
    r := s;
    ghost var jobs := LemmaJobs(word, row, forms);
    assert before + jobs[..0] == before;
    for k := 0 to |forms|
      invariant r == Run(ctx, work, before + jobs[..k])
    {
      var job := Job(word, row, forms[k]);
      TakeMore(jobs, k);
      Regroup(before, jobs[..k], [job]);
      RunMore(ctx, work, before + jobs[..k], job);
      r := TakeStep(ctx, work, maps, defers, r, job);
    }
    assert jobs[..|forms|] == jobs;
  }

  method TakeStep(ctx: Context, ghost work: seq<Job>, maps: Lookups, defers: bool, s: State, job: Job) returns (r: State)
    requires AreLookups(maps, ctx, work) && defers == DefersToKanji(ctx.g, ctx.lemmas, job.word)
    ensures r == Step(ctx, work, s, job)
  {
    hide PriceAmong, EmitRow, IsWorthy, ResolveForm, IsNative, Siblings, DefersToKanji, AreKanji;
    var pair := FormPair(job.form);
    if pair in maps.natives || pair in s.seen {
      return s.(counters := s.counters.(skippedExisting := s.counters.skippedExisting + 1));
    }
    var seen := s.seen + {pair};
    var classId := ResolveForm(ctx.c, job.row, job.form.cforms);
    if classId.None? {
      return State(s.emitted, seen, s.counters.(skippedForms := s.counters.skippedForms + 1));
    }
    var reading := job.form.reading;
    var price := PriceAmong(if reading in maps.siblings then maps.siblings[reading] else [], job);
    var counters := s.counters;
    if price.raised {
      counters := counters.(raised := counters.raised + 1);
    }
    if price.underRarer {
      counters := counters.(keptUnderRarer := counters.keptUnderRarer + 1);
    }
    if IsWorthy(job, price) && defers {
      counters := counters.(unpredicted := counters.unpredicted + 1);
    }
    r := State(s.emitted + [EmitRow(ctx, job, price, defers, classId.value, |s.emitted| + 1)], seen, counters);
  }

  lemma WorkMore(g: Grammar, c: Catalog, lemmas: seq<Entry>, word: Entry)
    ensures Work(g, c, lemmas + [word]) == Work(g, c, lemmas) + JobsOf(g, c, word)
    ensures LemmaCounts(g, c, lemmas + [word]) ==
      var forms := FormsOf(g, c, word);
      (LemmaCounts(g, c, lemmas).0 + One(forms.Unconjugable? || forms.Forms?),
       LemmaCounts(g, c, lemmas).1 + One(forms.NoPosRow? || forms.Unconjugable?))
  {
    assert (lemmas + [word])[..|lemmas|] == lemmas;
  }

  lemma NothingDone(ctx: Context, work: seq<Job>, lemmas: seq<Entry>)
    ensures Run(ctx, work, Work(ctx.g, ctx.c, lemmas[..0])) == START && LemmaCounts(ctx.g, ctx.c, lemmas[..0]) == (0, 0)
  {}

  /** One turn of the outer loop. */
  method ExpandNext(ctx: Context, ghost work: seq<Job>, maps: Lookups, ghost before: seq<Job>, s: State, word: Entry)
    returns (r: State, isLemma: bool, unsupported: bool)
    requires AreLookups(maps, ctx, work) && s == Run(ctx, work, before)
    ensures r == Run(ctx, work, before + JobsOf(ctx.g, ctx.c, word))
    ensures var forms := FormsOf(ctx.g, ctx.c, word);
            isLemma == (forms.Unconjugable? || forms.Forms?) && unsupported == (forms.NoPosRow? || forms.Unconjugable?)
  {
    hide FormsOf, Step, AreLookups;
    r := s;
    assert before + [] == before;
    match FormsOf(ctx.g, ctx.c, word) {
      case NoPosRow => isLemma, unsupported := false, true;
      case NotALemma => isLemma, unsupported := false, false;
      case Unconjugable => isLemma, unsupported := true, true;
      case Forms(row, forms) =>
        isLemma, unsupported := true, false;
        r := ExpandLemma(ctx, work, maps, before, s, word, row, forms);
    }
  }

  /** The outer loop. */
  method ExpandAll(ctx: Context, ghost work: seq<Job>, maps: Lookups)
    returns (s: State, lemmaEntries: nat, skippedLemmas: nat)
    requires AreLookups(maps, ctx, work) && work == Work(ctx.g, ctx.c, ctx.lemmas)
    ensures s == Run(ctx, work, work) && (lemmaEntries, skippedLemmas) == LemmaCounts(ctx.g, ctx.c, ctx.lemmas)
  {
    hide Step, FormsOf, Run, Work, LemmaCounts, AreLookups;
    var lemmas := ctx.lemmas;
    s, lemmaEntries, skippedLemmas := START, 0, 0;
    NothingDone(ctx, work, lemmas);
    for i := 0 to |lemmas|
      invariant s == Run(ctx, work, Work(ctx.g, ctx.c, lemmas[..i]))
      invariant (lemmaEntries, skippedLemmas) == LemmaCounts(ctx.g, ctx.c, lemmas[..i])
    {
      TakeMore(lemmas, i);
      WorkMore(ctx.g, ctx.c, lemmas[..i], lemmas[i]);
      var isLemma, unsupported;
      s, isLemma, unsupported := ExpandNext(ctx, work, maps, Work(ctx.g, ctx.c, lemmas[..i]), s, lemmas[i]);
      lemmaEntries, skippedLemmas := lemmaEntries + One(isLemma), skippedLemmas + One(unsupported);
    }
    assert lemmas[..|lemmas|] == lemmas;
  }

  /** expand_inflections */
  method ExpandInflections(g: Grammar, c: Catalog, lemmas: seq<Entry>) returns (emitted: seq<Entry>, report: Report)
    ensures emitted == Expand(g, c, lemmas)
    ensures var work := Work(g, c, lemmas);
            var counters := Run(Context(g, c, lemmas), work, work).counters;
            report == Report(LemmaCounts(g, c, lemmas).0, |emitted|, counters.skippedExisting,
                             LemmaCounts(g, c, lemmas).1 + counters.skippedForms, counters.raised, counters.keptUnderRarer,
                             counters.unpredicted)
  {
    hide SortBy, Run, Work, LemmaCounts, AreNatives, AreSiblings, AreKanji, IsNative;
    var natives := CollectNatives(lemmas);
    var siblings := CollectSiblings(g, c, lemmas, natives);
    var kanji := CollectKanji(g, lemmas);
    var s, lemmaEntries, skippedLemmas :=
      ExpandAll(Context(g, c, lemmas), Work(g, c, lemmas), Lookups(natives, siblings, kanji));
    emitted := SortBy(s.emitted, EmissionLeq);
    report := Report(lemmaEntries, |emitted|, s.counters.skippedExisting, skippedLemmas + s.counters.skippedForms,
                     s.counters.raised, s.counters.keptUnderRarer, s.counters.unpredicted);
  }

  // ----------------------------------------------------------- what is emitted

  /** Row e is what this job emits. */
  ghost predicate FromJob(ctx: Context, work: seq<Job>, e: Entry, job: Job) {
    && PairOf(e) == FormPair(job.form)
    && ResolveForm(ctx.c, job.row, job.form.cforms) == Some(e.leftId)
    && e.wordCost == PriceOf(ctx, work, job).wordCost
  }

  ghost predicate Produced(ctx: Context, work: seq<Job>, done: seq<Job>, e: Entry) {
    exists j :: 0 <= j < |done| && FromJob(ctx, work, e, done[j])
  }

  /** The loop invariant: new pairs, each once, each from a job. */
  ghost predicate Sound(ctx: Context, work: seq<Job>, done: seq<Job>, s: State) {
    && (forall i :: 0 <= i < |s.emitted| ==>
          PairOf(s.emitted[i]) in s.seen && !IsNative(ctx.lemmas, PairOf(s.emitted[i]))
          && Produced(ctx, work, done, s.emitted[i]))
    && (forall i, j :: 0 <= i < j < |s.emitted| ==> PairOf(s.emitted[i]) != PairOf(s.emitted[j]))
    && |s.emitted| + s.counters.skippedExisting + s.counters.skippedForms == |done|
  }

  lemma StillProduced(ctx: Context, work: seq<Job>, done: seq<Job>, job: Job, e: Entry)
    ensures Produced(ctx, work, done, e) ==> Produced(ctx, work, done + [job], e)
    ensures FromJob(ctx, work, e, job) ==> Produced(ctx, work, done + [job], e)
  {
    hide FromJob;
    var longer := done + [job];
    if Produced(ctx, work, done, e) {
      var j :| 0 <= j < |done| && FromJob(ctx, work, e, done[j]);
      assert longer[j] == done[j];
    }
    assert longer[|done|] == job;
  }

  lemma EmitsFromJob(ctx: Context, work: seq<Job>, job: Job, classId: nat, line: nat)
    requires ResolveForm(ctx.c, job.row, job.form.cforms) == Some(classId)
    ensures FromJob(ctx, work, Emit(ctx, job, PriceOf(ctx, work, job), classId, line), job)
  {
    hide ResolveForm, PriceOf, RightId, DefersToKanji;
  }

  lemma SoundStep(ctx: Context, work: seq<Job>, done: seq<Job>, s: State, job: Job)
    requires Sound(ctx, work, done, s)
    ensures Sound(ctx, work, done + [job], Step(ctx, work, s, job))
  {
    hide PriceOf, Emit, ResolveForm, IsNative, FromJob, Produced, Unpredicted;
    var r := Step(ctx, work, s, job);
    forall i | 0 <= i < |s.emitted| ensures Produced(ctx, work, done + [job], s.emitted[i]) {
      StillProduced(ctx, work, done, job, s.emitted[i]);
    }
    if |r.emitted| > |s.emitted| {
      var classId := ResolveForm(ctx.c, job.row, job.form.cforms).value;
      EmitsFromJob(ctx, work, job, classId, |s.emitted| + 1);
      PairFromJob(ctx, work, r.emitted[|s.emitted|], job);
      StillProduced(ctx, work, done, job, r.emitted[|s.emitted|]);
    }
  }

  lemma PairFromJob(ctx: Context, work: seq<Job>, e: Entry, job: Job)
    requires FromJob(ctx, work, e, job)
    ensures PairOf(e) == FormPair(job.form)
  {}

  lemma {:induction false} RunIsSound(ctx: Context, work: seq<Job>, done: seq<Job>)
    ensures Sound(ctx, work, done, Run(ctx, work, done))
    decreases |done|
  {
    hide Step, Sound;
    if done == [] {
      NothingIsSound(ctx, work);
    } else {
      var front, last := done[..|done| - 1], done[|done| - 1];
      RunIsSound(ctx, work, front);
      SoundStep(ctx, work, front, Run(ctx, work, front), last);
      assert done == front + [last];
    }
  }

  lemma NothingIsSound(ctx: Context, work: seq<Job>)
    ensures Sound(ctx, work, [], START)
  {}

  /** Emitted rows carry new pairs, each once, and stem from a lemma's form. */
  lemma ExpansionIsNew(g: Grammar, c: Catalog, lemmas: seq<Entry>)
    ensures var ctx, work, rows := Context(g, c, lemmas), Work(g, c, lemmas), Expand(g, c, lemmas);
            && (forall i :: 0 <= i < |rows| ==>
                  !IsNative(lemmas, PairOf(rows[i])) && Produced(ctx, work, work, rows[i]))
            && (forall i, j :: 0 <= i < j < |rows| ==> PairOf(rows[i]) != PairOf(rows[j]))
  {
    hide SortBy, FromJob, Run, Produced, IsNative;
    var ctx, work := Context(g, c, lemmas), Work(g, c, lemmas);
    RunIsSound(ctx, work, work);
    var emitted := Run(ctx, work, work).emitted;
    SortKeeps(emitted, EmissionLeq);
    var rows := Expand(g, c, lemmas);
    assert ConflictFree(emitted, SamePair);
    ConflictsReordered(rows, emitted, SamePair);
    forall i | 0 <= i < |rows| ensures rows[i] in emitted { assert rows[i] in multiset(rows); }
    forall i, j | 0 <= i < j < |rows| ensures PairOf(rows[i]) != PairOf(rows[j]) { assert !SamePair(rows[i], rows[j]); }
  }

  predicate SamePair(a: Entry, b: Entry) { PairOf(a) == PairOf(b) }

  // ------------------------------------------------------------------ the floor

  lemma {:induction false} FloorBounds(siblings: seq<Sibling>, lemmaCost: int, i: nat)
    requires i < |siblings| && siblings[i].lemmaCost <= lemmaCost
    ensures Floor(siblings, lemmaCost).Some? && Floor(siblings, lemmaCost).value >= Saturate(siblings[i].cost + 1)
    decreases |siblings|
  {
    if i < |siblings| - 1 { FloorBounds(siblings[..|siblings| - 1], lemmaCost, i); }
  }

  /** Every job of the reading with a native row of its form is a sibling. */
  lemma {:induction false} SiblingsComplete(c: Catalog, lemmas: seq<Entry>, work: seq<Job>, reading: string, k: nat)
    returns (i: nat)
    requires k < |work| && work[k].form.reading == reading && SiblingCost(c, lemmas, work[k]).Some?
    ensures i < |Siblings(c, lemmas, work, reading)|
    ensures Siblings(c, lemmas, work, reading)[i] == Sibling(SiblingCost(c, lemmas, work[k]).value, work[k].word.wordCost)
    decreases |work|
  {
    hide SiblingCost;
    if k == |work| - 1 {
      i := |Siblings(c, lemmas, work, reading)| - 1;
    } else {
      i := SiblingsComplete(c, lemmas, work[..|work| - 1], reading, k);
    }
  }

  lemma {:induction false} FloorInRange(siblings: seq<Sibling>, lemmaCost: int)
    ensures Floor(siblings, lemmaCost).Some? ==> I32_MIN <= Floor(siblings, lemmaCost).value <= I32_MAX
    decreases |siblings|
  {
    if siblings != [] { FloorInRange(siblings[..|siblings| - 1], lemmaCost); }
  }

  /** Whatever job a row comes from, it never undercuts a native sibling whose
      lemma is at least as common, and it costs more exactly when that sibling is
      below the highest cost there is. Every emitted row comes from a job
      (ExpansionIsNew). */
  lemma FloorHolds(g: Grammar, c: Catalog, lemmas: seq<Entry>, e: Entry, j: nat, k: nat)
    requires var work := Work(g, c, lemmas);
             && j < |work| && FromJob(Context(g, c, lemmas), work, e, work[j])
             && k < |work| && work[k].form.reading == e.reading && work[k].word.wordCost <= work[j].word.wordCost
             && SiblingCost(c, lemmas, work[k]).Some? && I32_MIN <= SiblingCost(c, lemmas, work[k]).value <= I32_MAX
    ensures var cost := SiblingCost(c, lemmas, Work(g, c, lemmas)[k]).value;
            e.wordCost >= cost && (e.wordCost > cost <==> cost < I32_MAX)
  {
    hide Work, SiblingCost, ResolveForm, Siblings, Floor, Rarer;
    var work := Work(g, c, lemmas);
    var i := SiblingsComplete(c, lemmas, work, e.reading, k);
    var siblings := Siblings(c, lemmas, work, e.reading);
    FloorBounds(siblings, work[j].word.wordCost, i);
    FloorInRange(siblings, work[j].word.wordCost);
  }

  /** Whatever was seen, some job had. */
  lemma {:induction false} SeenFromJobs(ctx: Context, work: seq<Job>, done: seq<Job>, pair: Pair)
    requires pair in Run(ctx, work, done).seen
    ensures exists i :: 0 <= i < |done| && FormPair(done[i].form) == pair
    decreases |done|
  {
    hide PriceOf, Emit, ResolveForm, IsNative, Unpredicted;
    var front, last := done[..|done| - 1], done[|done| - 1];
    if FormPair(last.form) != pair {
      SeenFromJobs(ctx, work, front, pair);
      var i :| 0 <= i < |front| && FormPair(front[i].form) == pair;
      assert done[i] == front[i];
    }
  }

  /** The first job of a new pair whose class resolves. */
  ghost predicate IsFresh(ctx: Context, work: seq<Job>, j: nat)
    requires j < |work|
  {
    && !IsNative(ctx.lemmas, FormPair(work[j].form))
    && (forall i :: 0 <= i < j ==> FormPair(work[i].form) != FormPair(work[j].form))
    && ResolveForm(ctx.c, work[j].row, work[j].form.cforms).Some?
  }

  /** Such a job is always emitted. */
  lemma FreshIsEmitted(g: Grammar, c: Catalog, lemmas: seq<Entry>, j: nat) returns (e: Entry)
    requires var work := Work(g, c, lemmas);
             j < |work| && IsFresh(Context(g, c, lemmas), work, j)
    ensures e in Expand(g, c, lemmas) && FromJob(Context(g, c, lemmas), Work(g, c, lemmas), e, Work(g, c, lemmas)[j])
  {
    hide PriceOf, Emit, ResolveForm, IsNative, Unpredicted, Run, SortBy, Work, FromJob;
    var ctx, work := Context(g, c, lemmas), Work(g, c, lemmas);
    var job, s := work[j], Run(ctx, work, work[..j]);
    if FormPair(job.form) in s.seen {
      SeenFromJobs(ctx, work, work[..j], FormPair(job.form));
    }
    TakeMore(work, j);
    RunMore(ctx, work, work[..j], job);
    var classId := ResolveForm(c, job.row, job.form.cforms).value;
    e := Emit(ctx, job, PriceOf(ctx, work, job), classId, |s.emitted| + 1);
    EmitsFromJob(ctx, work, job, classId, |s.emitted| + 1);
    var after, final := Run(ctx, work, work[..j + 1]), Run(ctx, work, work);
    assert after.emitted == s.emitted + [e];
    RunSettles(ctx, work, work[..j + 1], work[j + 1..]);
    assert work[..j + 1] + work[j + 1..] == work;
    assert final.emitted[|s.emitted|] == after.emitted[|s.emitted|] == e;
    SortKeeps(final.emitted, EmissionLeq);
    assert e in multiset(final.emitted);
  }

  /** At the ceiling the floor is not strict, whatever the tables: next to a native
      sibling at the highest cost every fresh form of a rarer or equally common
      lemma is emitted at that same cost. */
  lemma CeilingIsShared(g: Grammar, c: Catalog, lemmas: seq<Entry>, j: nat, k: nat) returns (e: Entry)
    requires var work := Work(g, c, lemmas);
             && j < |work| && IsFresh(Context(g, c, lemmas), work, j)
             && k < |work| && work[k].form.reading == work[j].form.reading && work[k].word.wordCost <= work[j].word.wordCost
             && SiblingCost(c, lemmas, work[k]) == Some(I32_MAX)
    ensures e in Expand(g, c, lemmas) && FromJob(Context(g, c, lemmas), Work(g, c, lemmas), e, Work(g, c, lemmas)[j])
    ensures e.wordCost == I32_MAX
  {
    hide Expand, Work, SiblingCost, IsFresh, ResolveForm;
    var ctx, work := Context(g, c, lemmas), Work(g, c, lemmas);
    e := FreshIsEmitted(g, c, lemmas, j);
    FloorHolds(g, c, lemmas, e, j, k);
    PriceInRange(ctx, work, work[j]);
  }

  lemma PriceInRange(ctx: Context, work: seq<Job>, job: Job)
    ensures I32_MIN <= PriceOf(ctx, work, job).wordCost <= I32_MAX
  {
    hide Siblings, Floor, Rarer;
    FloorInRange(Siblings(ctx.c, ctx.lemmas, work, job.form.reading), job.word.wordCost);
  }

  /** For example: next to 描き at the highest cost the expansion of the equally
      common 書く emits 書き at that same cost, whatever else the tables yield. */
  lemma FloorStopsAtCeiling(g: Grammar, c: Catalog, kaku: Entry, egaku: Entry, egaki: Entry,
                            kakuForms: seq<Form>, egakuForms: seq<Form>, m: nat, n: nat) returns (e: Entry)
    requires c.byId == map[1 := PosRow("動詞", "自立", "五段", BASE_FORM, "*"), 2 := PosRow("動詞", "自立", "五段", "連用形", "*")]
    requires c.byKey == map[c.byId[1] := 1, c.byId[2] := 2]
    requires kaku == Entry("かく", "書く", 1, 1, 4000, I32_MAX, NO_FLAGS, "", "", 1)
    requires egaku == Entry("かく", "描く", 1, 1, 4000, I32_MAX, NO_FLAGS, "", "", 2)
    requires egaki == Entry("かき", "描き", 2, 2, I32_MAX, I32_MAX, NO_FLAGS, "", "", 3)
    requires g.conjugate(c.byId[1], kaku) == Some(kakuForms) && g.conjugate(c.byId[1], egaku) == Some(egakuForms)
    requires m < |kakuForms| && FormPair(kakuForms[m]) == ("かき", "書き") && kakuForms[m].cforms == ["連用形"]
    requires forall i :: 0 <= i < m ==> FormPair(kakuForms[i]) != ("かき", "書き")
    requires n < |egakuForms| && FormPair(egakuForms[n]) == ("かき", "描き") && egakuForms[n].cforms == ["連用形"]
    ensures e in Expand(g, c, [kaku, egaku, egaki])
    ensures PairOf(e) == ("かき", "書き") && e.wordCost == egaki.wordCost
  {
    var lemmas, row := [kaku, egaku, egaki], c.byId[1];
    CeilingWork(g, c, kaku, egaku, egaki, LemmaJobs(kaku, row, kakuForms), LemmaJobs(egaku, row, egakuForms));
    var ctx, work, second := Context(g, c, lemmas), Work(g, c, lemmas), Job(egaku, row, egakuForms[n]);
    var k := |kakuForms| + n;
    assert work[m] == Job(kaku, row, kakuForms[m]) && work[k] == second;
    assert IsSiblingRow(c, egaki, second) && !IsSiblingRow(c, kaku, second) && !IsSiblingRow(c, egaku, second);
    ThreeRows(c, kaku, egaku, egaki, second);
    assert row.(cform := "連用形") == c.byId[2];
    assert ResolveForm(c, row, ["連用形"]) == Some(2);
    hide Work, Expand, SiblingCost, IsSiblingRow, ResolveForm, PriceOf;
    assert IsFresh(ctx, work, m) by {
      assert forall i :: 0 <= i < m ==> work[i] == Job(kaku, row, kakuForms[i]);
    }
    e := CeilingIsShared(g, c, lemmas, m, k);
  }

  lemma CeilingWork(g: Grammar, c: Catalog, kaku: Entry, egaku: Entry, egaki: Entry, first: seq<Job>, second: seq<Job>)
    requires JobsOf(g, c, kaku) == first && JobsOf(g, c, egaku) == second && JobsOf(g, c, egaki) == []
    ensures Work(g, c, [kaku, egaku, egaki]) == first + second
  {
    assert Work(g, c, []) == [];
    hide JobsOf, Work, FormsOf, LemmaCounts;
    WorkMore(g, c, [], kaku);
    assert [] + [kaku] == [kaku] && [] + first == first;
    WorkMore(g, c, [kaku], egaku);
    assert [kaku] + [egaku] == [kaku, egaku];
    WorkMore(g, c, [kaku, egaku], egaki);
    assert [kaku, egaku] + [egaki] == [kaku, egaku, egaki];
    assert first + second + [] == first + second;
  }

  lemma ThreeRows(c: Catalog, a: Entry, b: Entry, last: Entry, job: Job)
    requires !IsSiblingRow(c, a, job) && !IsSiblingRow(c, b, job)
    ensures SiblingCost(c, [a, b, last], job) == if IsSiblingRow(c, last, job) then Some(last.wordCost) else None
  {
    hide IsSiblingRow;
    assert [a][..0] == [] && [a, b][..1] == [a] && [a, b, last][..2] == [a, b];
    assert SiblingCost(c, [a], job) == None;
    assert SiblingCost(c, [a, b], job) == None;
  }

  // --------------------------------------------------------------- the fixpoint

  /** No conjugated form is the dictionary form itself. */
  ghost predicate NeverBase(work: seq<Job>) { forall j :: 0 <= j < |work| ==> BASE_FORM !in work[j].form.cforms }

  /** An emitted row is no lemma. */
  lemma EmittedIsNoLemma(g: Grammar, c: Catalog, lemmas: seq<Entry>, e: Entry)
    requires IsCatalog(c) && NeverBase(Work(g, c, lemmas)) && e in Expand(g, c, lemmas)
    ensures JobsOf(g, c, e) == []
  {
    hide Expand, Work, PriceOf, IsCatalog;
    var ctx, work := Context(g, c, lemmas), Work(g, c, lemmas);
    ExpansionIsNew(g, c, lemmas);
    var j :| 0 <= j < |work| && FromJob(ctx, work, e, work[j]);
    ResolvedForm(c, work[j].row, work[j].form.cforms);
  }

  /** Rows that are no lemmas add no work. */
  lemma {:induction false} WorkIgnores(g: Grammar, c: Catalog, lemmas: seq<Entry>, others: seq<Entry>)
    requires forall e :: e in others ==> JobsOf(g, c, e) == []
    ensures Work(g, c, lemmas + others) == Work(g, c, lemmas)
    decreases |others|
  {
    hide JobsOf;
    if others == [] {
      assert lemmas + others == lemmas;
    } else {
      var front, last := others[..|others| - 1], others[|others| - 1];
      WorkIgnores(g, c, lemmas, front);
      assert lemmas + others == (lemmas + front) + [last];
      assert (lemmas + others)[..|lemmas + others| - 1] == lemmas + front;
      assert Work(g, c, lemmas) + [] == Work(g, c, lemmas);
    }
  }

  ghost predicate AmongPairs(rows: seq<Entry>, pair: Pair) { exists i :: 0 <= i < |rows| && PairOf(rows[i]) == pair }

  /** Once a pair has been seen it is emitted or never will be. */
  ghost predicate Settled(s: State, final: State) {
    forall pair {:trigger AmongPairs(final.emitted, pair)} :: pair in s.seen && AmongPairs(final.emitted, pair) ==>
      AmongPairs(s.emitted, pair)
  }

  lemma SettledStep(ctx: Context, work: seq<Job>, s: State, final: State, job: Job)
    requires s.emitted <= final.emitted && s.seen <= final.seen && Settled(s, final)
    ensures var r := Step(ctx, work, final, job);
            s.emitted <= r.emitted && s.seen <= r.seen && Settled(s, r)
  {
    hide PriceOf, Emit, ResolveForm, IsNative, Unpredicted;
    var r := Step(ctx, work, final, job);
    if r.emitted != final.emitted {
      var e := r.emitted[|final.emitted|];
      EmitPair(ctx, work, job, ResolveForm(ctx.c, job.row, job.form.cforms).value, |final.emitted| + 1);
      forall pair {:trigger AmongPairs(r.emitted, pair)} | pair in s.seen && AmongPairs(r.emitted, pair)
        ensures AmongPairs(s.emitted, pair)
      {
        var i :| 0 <= i < |r.emitted| && PairOf(r.emitted[i]) == pair;
        assert i < |final.emitted|;
        assert final.emitted[i] == r.emitted[i];
        assert AmongPairs(final.emitted, pair);
      }
    }
  }

  lemma EmitPair(ctx: Context, work: seq<Job>, job: Job, classId: nat, line: nat)
    ensures PairOf(Emit(ctx, job, PriceOf(ctx, work, job), classId, line)) == FormPair(job.form)
  {
    hide PriceOf, RightId, DefersToKanji;
  }

  lemma {:induction false} RunSettles(ctx: Context, work: seq<Job>, done: seq<Job>, more: seq<Job>)
    ensures var s, final := Run(ctx, work, done), Run(ctx, work, done + more);
            s.emitted <= final.emitted && s.seen <= final.seen && Settled(s, final)
    decreases |more|
  {
    hide Step;
    if more == [] {
      assert done + more == done;
    } else {
      var front, last := more[..|more| - 1], more[|more| - 1];
      RunSettles(ctx, work, done, front);
      assert done + more == (done + front) + [last];
      RunMore(ctx, work, done + front, last);
      SettledStep(ctx, work, Run(ctx, work, done), Run(ctx, work, done + front), last);
    }
  }

  /** Two runs side by side: the second also has the first one's output as native
      rows, and emits nothing. */
  ghost predicate Shadows(s: State, again: State, final: State) {
    && again.emitted == []
    && forall pair {:trigger pair in s.seen} {:trigger pair in again.seen} ::
         pair in again.seen <==> pair in s.seen && !AmongPairs(final.emitted, pair)
  }

  lemma NativeSplits(a: seq<Entry>, b: seq<Entry>, pair: Pair)
    ensures IsNative(a + b, pair) <==> IsNative(a, pair) || AmongPairs(b, pair)
  {
    var all := a + b;
    if IsNative(a, pair) {
      var i :| 0 <= i < |a| && PairOf(a[i]) == pair;
      assert all[i] == a[i];
    }
    if AmongPairs(b, pair) {
      var i :| 0 <= i < |b| && PairOf(b[i]) == pair;
      assert all[|a| + i] == b[i];
    }
    if IsNative(all, pair) {
      var i :| 0 <= i < |all| && PairOf(all[i]) == pair;
      assert if i < |a| then all[i] == a[i] else all[i] == b[i - |a|];
    }
  }

  /** Same pairs in any order. */
  lemma SortedPairs(rows: seq<Entry>, sorted: seq<Entry>, pair: Pair)
    requires multiset(rows) == multiset(sorted)
    ensures AmongPairs(rows, pair) <==> AmongPairs(sorted, pair)
  {
    if AmongPairs(rows, pair) {
      var i :| 0 <= i < |rows| && PairOf(rows[i]) == pair;
      assert rows[i] in multiset(sorted);
      var k :| 0 <= k < |sorted| && sorted[k] == rows[i];
    }
    if AmongPairs(sorted, pair) {
      var i :| 0 <= i < |sorted| && PairOf(sorted[i]) == pair;
      assert sorted[i] in multiset(rows);
      var k :| 0 <= k < |rows| && rows[k] == sorted[i];
    }
  }

  /** The second run knows its natives and the first run's output. */
  ghost predicate Extends(ctx: Context, again: Context, final: State) {
    && again.g == ctx.g && again.c == ctx.c
    && forall pair {:trigger IsNative(again.lemmas, pair)} ::
         IsNative(again.lemmas, pair) <==> IsNative(ctx.lemmas, pair) || AmongPairs(final.emitted, pair)
  }

  lemma ShadowStep(ctx: Context, again: Context, work: seq<Job>, s: State, t: State, final: State, job: Job)
    requires Extends(ctx, again, final) && Shadows(s, t, final)
    requires var r := Step(ctx, work, s, job);
             r.emitted <= final.emitted && Settled(r, final)
    requires forall pair {:trigger AmongPairs(s.emitted, pair)} :: AmongPairs(s.emitted, pair) ==> pair in s.seen
    ensures Shadows(Step(ctx, work, s, job), Step(again, work, t, job), final)
  {
    hide PriceOf, Emit, ResolveForm, IsNative, Unpredicted, AmongPairs;
    var pair, r, u := FormPair(job.form), Step(ctx, work, s, job), Step(again, work, t, job);
    assert IsNative(again.lemmas, pair) <==> IsNative(ctx.lemmas, pair) || AmongPairs(final.emitted, pair);
    if IsNative(ctx.lemmas, pair) || pair in s.seen {
      assert r.seen == s.seen && u.seen == t.seen && u.emitted == t.emitted;
    } else if ResolveForm(ctx.c, job.row, job.form.cforms).None? {
      assert r.seen == s.seen + {pair} && r.emitted == s.emitted;
      assert !AmongPairs(s.emitted, pair);
      assert !AmongPairs(final.emitted, pair);
      assert u.seen == t.seen + {pair} && u.emitted == t.emitted;
    } else {
      EmitPair(ctx, work, job, ResolveForm(ctx.c, job.row, job.form.cforms).value, |s.emitted| + 1);
      LastAmong(r.emitted, final.emitted, pair);
      assert r.seen == s.seen + {pair} && u.seen == t.seen && u.emitted == t.emitted;
    }
  }

  lemma LastAmong(rows: seq<Entry>, longer: seq<Entry>, pair: Pair)
    requires rows != [] && PairOf(rows[|rows| - 1]) == pair && rows <= longer
    ensures AmongPairs(longer, pair)
  {
    assert longer[|rows| - 1] == rows[|rows| - 1];
  }

  lemma {:induction false} RunShadows(ctx: Context, again: Context, work: seq<Job>, done: seq<Job>, rest: seq<Job>)
    requires Extends(ctx, again, Run(ctx, work, done + rest))
    ensures Shadows(Run(ctx, work, done), Run(again, work, done), Run(ctx, work, done + rest))
    decreases |done|
  {
    hide Step, Extends, Shadows, Settled, AmongPairs;
    var final := Run(ctx, work, done + rest);
    if done == [] {
      StartShadows(final);
    } else {
      var front, last := done[..|done| - 1], done[|done| - 1];
      assert front + ([last] + rest) == done + rest;
      RunShadows(ctx, again, work, front, [last] + rest);
      RunSettles(ctx, work, done, rest);
      EmittedAreSeen(ctx, work, front);
      ShadowStep(ctx, again, work, Run(ctx, work, front), Run(again, work, front), final, last);
    }
  }

  lemma StartShadows(final: State)
    ensures Shadows(START, START, final)
  {}

  lemma EmittedAreSeen(ctx: Context, work: seq<Job>, done: seq<Job>)
    ensures var s := Run(ctx, work, done);
            forall pair {:trigger AmongPairs(s.emitted, pair)} :: AmongPairs(s.emitted, pair) ==> pair in s.seen
  {
    hide Run, Produced, IsNative;
    RunIsSound(ctx, work, done);
  }

  /** Expanding the lemmas together with their own expansion emits nothing. */
  lemma ExpansionIsFixpoint(g: Grammar, c: Catalog, lemmas: seq<Entry>)
    requires IsCatalog(c) && NeverBase(Work(g, c, lemmas))
    ensures Expand(g, c, lemmas + Expand(g, c, lemmas)) == []
  {
    hide Run, SortBy, IsNative, AmongPairs, IsCatalog, NeverBase;
    var rows := Expand(g, c, lemmas);
    var ctx, again, work := Context(g, c, lemmas), Context(g, c, lemmas + rows), Work(g, c, lemmas);
    forall e | e in rows ensures JobsOf(g, c, e) == [] { EmittedIsNoLemma(g, c, lemmas, e); }
    WorkIgnores(g, c, lemmas, rows);
    var final := Run(ctx, work, work);
    SortKeeps(final.emitted, EmissionLeq);
    forall pair {:trigger IsNative(again.lemmas, pair)}
      ensures IsNative(again.lemmas, pair) <==> IsNative(ctx.lemmas, pair) || AmongPairs(final.emitted, pair)
    {
      NativeSplits(lemmas, rows, pair);
      SortedPairs(final.emitted, rows, pair);
    }
    assert work + [] == work;
    RunShadows(ctx, again, work, work, []);
    assert Run(again, work, work).emitted == [];
    NothingToSort();
  }

  lemma NothingToSort()
    ensures SortBy([], EmissionLeq) == []
  {}
}
