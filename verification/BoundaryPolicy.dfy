/** Which lexicon rows may begin a query: the allomorph classifier, and the
    review policy that must rule on every pair the classifier would hide. */
module BoundaryPolicy {
  import opened Wrappers
  import opened Sequences
  import opened Sorting
  import opened Lexicon

  const INDEPENDENT_SUFFIX := "接尾"
  const PREFIX := "接頭詞"
  const DEPENDENT := "非自立"
  const CONTINUATIVE := "連用形"
  const NOUN := "名詞"
  const NON_INITIAL_BIT := 8
  const BOUNDARY_ALIAS_BIT := 32
  const ALIAS_CLASS := 1851

  /** A lexicon row with the two boundary flags apart from the others. */
  datatype Row = Row(entry: Entry, nonInitial: bool, boundaryAlias: bool)

  /** POS labels of a class, and the unvoiced initials of a character. */
  datatype Catalog = Catalog(labels: nat -> Option<seq<string>>, unvoiced: char -> seq<char>)

  type Pair = (string, string)

  function PairOf(r: Row): Pair { (r.entry.reading, r.entry.surface) }

  // ------------------------------------------------------------- the classifier

  function UnvoicedReadings(c: Catalog, reading: string): (s: seq<string>) {
    if reading == "" then []
    else
      var initials := c.unvoiced(reading[0]);
      seq(|initials|, i requires 0 <= i < |initials| => [initials[i]] + reading[1..])
  }

  predicate IsIndependent(labels: seq<string>) {
    INDEPENDENT_SUFFIX !in labels && PREFIX !in labels && DEPENDENT !in labels
  }

  /** A continuative form whose unvoiced reading is a row with the same classes. */
  predicate IsContinuative(c: Catalog, rows: seq<Row>, r: Row, labels: seq<string>) {
    CONTINUATIVE in labels
    && exists i :: 0 <= i < |rows| && rows[i].entry.surface == r.entry.surface
         && rows[i].entry.leftId == r.entry.leftId && rows[i].entry.rightId == r.entry.rightId
         && rows[i].entry.reading in UnvoicedReadings(c, r.entry.reading)
  }

  /** Evidence that a reading of a surface stands alone. */
  predicate StandsAlone(c: Catalog, rows: seq<Row>, evidence: seq<bool>, surface: string, reading: string)
    requires |evidence| == |rows|
  {
    exists i :: 0 <= i < |rows| && evidence[i] && rows[i].entry.surface == surface && rows[i].entry.reading == reading
      && IsWitness(c, rows, rows[i])
  }

  predicate IsWitness(c: Catalog, rows: seq<Row>, r: Row) {
    var labels := c.labels(r.entry.leftId);
    labels.Some? && IsIndependent(labels.value) && !IsContinuative(c, rows, r, labels.value)
  }

  predicate IsVoicedSuffix(c: Catalog, rows: seq<Row>, evidence: seq<bool>, r: Row, labels: seq<string>)
    requires |evidence| == |rows|
  {
    && INDEPENDENT_SUFFIX in labels
    && !StandsAlone(c, rows, evidence, r.entry.surface, r.entry.reading)
    && exists k :: 0 <= k < |UnvoicedReadings(c, r.entry.reading)|
         && StandsAlone(c, rows, evidence, r.entry.surface, UnvoicedReadings(c, r.entry.reading)[k])
  }

  /** The row is usable only after preceding text. */
  predicate IsFragment(c: Catalog, rows: seq<Row>, evidence: seq<bool>, r: Row)
    requires |evidence| == |rows|
  {
    var labels := c.labels(r.entry.leftId);
    labels.Some? && (IsVoicedSuffix(c, rows, evidence, r, labels.value) || IsContinuative(c, rows, r, labels.value))
  }

  function Marked(c: Catalog, rows: seq<Row>, evidence: seq<bool>): (m: seq<Row>)
    requires |evidence| == |rows|
    ensures |m| == |rows|
    ensures forall i :: 0 <= i < |m| ==> m[i] == rows[i].(nonInitial := rows[i].nonInitial || IsFragment(c, rows, evidence, rows[i]))
  {
    seq(|rows|, i requires 0 <= i < |rows| => rows[i].(nonInitial := rows[i].nonInitial || IsFragment(c, rows, evidence, rows[i])))
  }

  // What mark_non_initial_allomorphs_by collects before it marks anything.

  function Respelled(r: Row, reading: string): Identity {
    Identity(reading, r.entry.surface, r.entry.leftId, r.entry.rightId)
  }

  ghost predicate AreIdentities(identities: set<Identity>, rows: seq<Row>) {
    forall id :: id in identities <==> exists i :: 0 <= i < |rows| && IdentityOf(rows[i].entry) == id
  }

  ghost predicate AreStandalone(c: Catalog, standalone: set<Pair>, rows: seq<Row>, evidence: seq<bool>)
    requires |evidence| == |rows|
  {
    forall p :: p in standalone <==> StandsAlone(c, rows, evidence, p.1, p.0)
  }

  /** is_voiced_continuative_allomorph, over the set of identities. */
  predicate IsKnownContinuative(c: Catalog, identities: set<Identity>, r: Row, labels: seq<string>) {
    CONTINUATIVE in labels
    && exists k :: 0 <= k < |UnvoicedReadings(c, r.entry.reading)|
         && Respelled(r, UnvoicedReadings(c, r.entry.reading)[k]) in identities
  }

  lemma KnownMeans(c: Catalog, identities: set<Identity>, rows: seq<Row>, r: Row, labels: seq<string>)
    requires AreIdentities(identities, rows)
    ensures IsKnownContinuative(c, identities, r, labels) <==> IsContinuative(c, rows, r, labels)
  {
    var readings := UnvoicedReadings(c, r.entry.reading);
    if IsContinuative(c, rows, r, labels) {
      var i :| 0 <= i < |rows| && rows[i].entry.surface == r.entry.surface && rows[i].entry.leftId == r.entry.leftId
        && rows[i].entry.rightId == r.entry.rightId && rows[i].entry.reading in readings;
      var k :| 0 <= k < |readings| && readings[k] == rows[i].entry.reading;
      assert IdentityOf(rows[i].entry) == Respelled(r, readings[k]);
    }
  }

  method CollectIdentities(rows: array<Row>) returns (identities: set<Identity>)
    ensures AreIdentities(identities, rows[..])
  {
    identities := {};
    for i := 0 to rows.Length
      invariant forall id :: id in identities <==> exists k :: 0 <= k < i && IdentityOf(rows[k].entry) == id
    {
      identities := identities + {IdentityOf(rows[i].entry)};
    }
  }

  predicate IsKnownWitness(c: Catalog, identities: set<Identity>, r: Row) {
    var labels := c.labels(r.entry.leftId);
    labels.Some? && IsIndependent(labels.value) && !IsKnownContinuative(c, identities, r, labels.value)
  }

  method CollectStandalone(c: Catalog, rows: array<Row>, evidence: seq<bool>, identities: set<Identity>)
    returns (standalone: set<Pair>)
    requires |evidence| == rows.Length && AreIdentities(identities, rows[..])
    ensures AreStandalone(c, standalone, rows[..], evidence)
  {
    hide IsKnownContinuative, IsContinuative, IsIndependent, AreIdentities;
    standalone := {};
    for i := 0 to rows.Length
      invariant forall p :: p in standalone <==>
        exists k :: 0 <= k < i && evidence[k] && PairOf(rows[k]) == p && IsWitness(c, rows[..], rows[k])
    {
      forall labels
        ensures IsKnownContinuative(c, identities, rows[i], labels) <==> IsContinuative(c, rows[..], rows[i], labels)
      {
        KnownMeans(c, identities, rows[..], rows[i], labels);
      }
      if evidence[i] && IsKnownWitness(c, identities, rows[i]) {
        standalone := standalone + {PairOf(rows[i])};
      }
    }
  }

  /** The test of the marking loop, over both sets. */
  predicate IsKnownFragment(c: Catalog, identities: set<Identity>, standalone: set<Pair>, r: Row) {
    var labels, readings := c.labels(r.entry.leftId), UnvoicedReadings(c, r.entry.reading);
    labels.Some?
    && ((INDEPENDENT_SUFFIX in labels.value && PairOf(r) !in standalone
         && exists k :: 0 <= k < |readings| && (readings[k], r.entry.surface) in standalone)
        || IsKnownContinuative(c, identities, r, labels.value))
  }

  lemma KnownFragmentMeans(c: Catalog, identities: set<Identity>, standalone: set<Pair>, rows: seq<Row>,
                           evidence: seq<bool>, r: Row)
    requires |evidence| == |rows| && AreIdentities(identities, rows) && AreStandalone(c, standalone, rows, evidence)
    ensures IsKnownFragment(c, identities, standalone, r) <==> IsFragment(c, rows, evidence, r)
  {
    hide IsKnownContinuative, IsContinuative, AreIdentities, StandsAlone;
    var labels, readings := c.labels(r.entry.leftId), UnvoicedReadings(c, r.entry.reading);
    if labels.Some? {
      KnownMeans(c, identities, rows, r, labels.value);
      assert PairOf(r) in standalone <==> StandsAlone(c, rows, evidence, r.entry.surface, r.entry.reading);
      forall k | 0 <= k < |readings|
        ensures (readings[k], r.entry.surface) in standalone <==> StandsAlone(c, rows, evidence, r.entry.surface, readings[k])
      {}
    }
  }

  /** mark_non_initial_allomorphs_by */
  method MarkNonInitial(c: Catalog, rows: array<Row>, evidence: seq<bool>) returns (marked: nat)
    requires |evidence| == rows.Length
    modifies rows
    ensures rows[..] == Marked(c, old(rows[..]), evidence)
    ensures marked + Hidden(old(rows[..])) == Hidden(rows[..])
  {
    hide IsFragment, IsKnownFragment, AreIdentities, AreStandalone;
    ghost var before := rows[..];
    var identities := CollectIdentities(rows);
    var standalone := CollectStandalone(c, rows, evidence, identities);
    marked := 0;
    for i := 0 to rows.Length
      invariant forall k :: 0 <= k < i ==> rows[k] == Marked(c, before, evidence)[k]
      invariant forall k :: i <= k < rows.Length ==> rows[k] == before[k]
      invariant marked + Hidden(before[..i]) == Hidden(Marked(c, before, evidence)[..i])
    {
      HiddenTake(before, i);
      HiddenTake(Marked(c, before, evidence), i);
      KnownFragmentMeans(c, identities, standalone, before, evidence, rows[i]);
      if IsKnownFragment(c, identities, standalone, rows[i]) && !rows[i].nonInitial {
        rows[i] := rows[i].(nonInitial := true);
        marked := marked + 1;
      }
    }
    assert rows[..] == Marked(c, before, evidence);
    assert before[..rows.Length] == before && Marked(c, before, evidence)[..rows.Length] == Marked(c, before, evidence);
  }

  /** How many rows carry the flag. */
  function Hidden(rows: seq<Row>): nat {
    if rows == [] then 0 else Hidden(rows[..|rows| - 1]) + if rows[|rows| - 1].nonInitial then 1 else 0
  }

  lemma HiddenTake(rows: seq<Row>, i: nat)
    requires i < |rows|
    ensures Hidden(rows[..i + 1]) == Hidden(rows[..i]) + if rows[i].nonInitial then 1 else 0
  {
    assert rows[..i + 1][..i] == rows[..i];
  }

  // ---------------------------------------------------------------- rescued rows

  /** Some added row is the unvoiced sibling that makes r a continuative form. */
  predicate MakesContinuative(c: Catalog, more: seq<Row>, r: Row) {
    var labels := c.labels(r.entry.leftId);
    labels.Some? && IsContinuative(c, more, r, labels.value)
  }

  ghost predicate SameFragments(c: Catalog, rows: seq<Row>, more: seq<Row>, evidence: seq<bool>, late: seq<bool>)
    requires |evidence| == |rows| && |late| == |more|
  {
    forall r :: r in rows ==> (IsFragment(c, rows + more, evidence + late, r) <==> IsFragment(c, rows, evidence, r))
  }

  /** Whatever the added rows make a continuative form was a fragment before. */
  ghost predicate HidesNothingNew(c: Catalog, rows: seq<Row>, more: seq<Row>, evidence: seq<bool>)
    requires |evidence| == |rows|
  {
    forall r :: r in rows && MakesContinuative(c, more, r) ==> IsFragment(c, rows, evidence, r)
  }

  lemma ContinuativeSplits(c: Catalog, rows: seq<Row>, more: seq<Row>, r: Row, labels: seq<string>)
    ensures IsContinuative(c, rows + more, r, labels)
            <==> IsContinuative(c, rows, r, labels) || IsContinuative(c, more, r, labels)
  {
    var all := rows + more;
    assert forall i :: 0 <= i < |rows| ==> all[i] == rows[i];
    assert forall i :: 0 <= i < |more| ==> all[|rows| + i] == more[i];
    assert forall i :: |rows| <= i < |all| ==> all[i] == more[i - |rows|];
  }

  /** A row that only now becomes a continuative form was a voiced suffix, so it
      never was a witness. */
  lemma WitnessKept(c: Catalog, rows: seq<Row>, more: seq<Row>, evidence: seq<bool>, r: Row)
    requires |evidence| == |rows| && HidesNothingNew(c, rows, more, evidence) && r in rows
    ensures IsWitness(c, rows + more, r) <==> IsWitness(c, rows, r)
  {
    hide IsContinuative, StandsAlone;
    var labels := c.labels(r.entry.leftId);
    if labels.Some? {
      ContinuativeSplits(c, rows, more, r, labels.value);
      assert MakesContinuative(c, more, r) ==> IsFragment(c, rows, evidence, r);
    }
  }

  lemma StandingKept(c: Catalog, rows: seq<Row>, more: seq<Row>, evidence: seq<bool>, late: seq<bool>,
                     surface: string, reading: string)
    requires |evidence| == |rows| && |late| == |more| && (forall i :: 0 <= i < |late| ==> !late[i])
    requires HidesNothingNew(c, rows, more, evidence)
    ensures StandsAlone(c, rows + more, evidence + late, surface, reading) <==> StandsAlone(c, rows, evidence, surface, reading)
  {
    var all, marks := rows + more, evidence + late;
    forall i | 0 <= i < |rows| ensures IsWitness(c, all, all[i]) <==> IsWitness(c, rows, rows[i]) {
      assert all[i] == rows[i] && rows[i] in rows;
      WitnessKept(c, rows, more, evidence, rows[i]);
    }
    hide IsWitness, HidesNothingNew;
    if StandsAlone(c, rows, evidence, surface, reading) {
      var i :| 0 <= i < |rows| && evidence[i] && rows[i].entry.surface == surface && rows[i].entry.reading == reading
        && IsWitness(c, rows, rows[i]);
      assert marks[i] && all[i] == rows[i];
    }
    if StandsAlone(c, all, marks, surface, reading) {
      var i :| 0 <= i < |all| && marks[i] && all[i].entry.surface == surface && all[i].entry.reading == reading
        && IsWitness(c, all, all[i]);
      assert i < |rows|;
    }
  }

  lemma FragmentKept(c: Catalog, rows: seq<Row>, more: seq<Row>, evidence: seq<bool>, late: seq<bool>, r: Row)
    requires |evidence| == |rows| && |late| == |more| && (forall i :: 0 <= i < |late| ==> !late[i])
    requires HidesNothingNew(c, rows, more, evidence) && r in rows
    ensures IsFragment(c, rows + more, evidence + late, r) <==> IsFragment(c, rows, evidence, r)
  {
    var labels := c.labels(r.entry.leftId);
    forall reading ensures StandsAlone(c, rows + more, evidence + late, r.entry.surface, reading)
                      <==> StandsAlone(c, rows, evidence, r.entry.surface, reading) {
      StandingKept(c, rows, more, evidence, late, r.entry.surface, reading);
    }
    hide StandsAlone, IsContinuative;
    if labels.Some? {
      ContinuativeSplits(c, rows, more, r, labels.value);
      assert MakesContinuative(c, more, r) ==> IsFragment(c, rows, evidence, r);
    }
  }

  /** Rows without legacy evidence leave the classification of the rows before
      them alone exactly when every row of which they make a continuative form was
      a fragment already. */
  lemma RescuedRowsLeaveClassification(c: Catalog, rows: seq<Row>, more: seq<Row>, evidence: seq<bool>, late: seq<bool>)
    requires |evidence| == |rows| && |late| == |more| && (forall i :: 0 <= i < |late| ==> !late[i])
    ensures SameFragments(c, rows, more, evidence, late) <==> HidesNothingNew(c, rows, more, evidence)
  {
    hide IsContinuative, IsVoicedSuffix;
    if HidesNothingNew(c, rows, more, evidence) {
      forall r | r in rows ensures IsFragment(c, rows + more, evidence + late, r) <==> IsFragment(c, rows, evidence, r) {
        FragmentKept(c, rows, more, evidence, late, r);
      }
    }
    if SameFragments(c, rows, more, evidence, late) {
      forall r | r in rows && MakesContinuative(c, more, r) ensures IsFragment(c, rows, evidence, r) {
        ContinuativeSplits(c, rows, more, r, c.labels(r.entry.leftId).value);
        assert IsFragment(c, rows + more, evidence + late, r);
      }
    }
  }

  /** One rescued row is enough to hide a row that was usable alone: any
      continuative form that is no suffix and had no unvoiced sibling so far. */
  lemma RescuedRowCanHide(c: Catalog, rows: seq<Row>, evidence: seq<bool>, r: Row, rescued: Row)
    requires |evidence| == |rows| && r in rows
    requires c.labels(r.entry.leftId).Some?
    requires var labels := c.labels(r.entry.leftId).value;
             CONTINUATIVE in labels && INDEPENDENT_SUFFIX !in labels && !IsContinuative(c, rows, r, labels)
    requires rescued.entry.reading in UnvoicedReadings(c, r.entry.reading)
    requires IdentityOf(rescued.entry) == Respelled(r, rescued.entry.reading)
    ensures !IsFragment(c, rows, evidence, r)
    ensures IsFragment(c, rows + [rescued], evidence + [false], r)
    ensures !SameFragments(c, rows, [rescued], evidence, [false])
  {
    assert [rescued][0] == rescued;
    ContinuativeSplits(c, rows, [rescued], r, c.labels(r.entry.leftId).value);
  }

  /** For example 張り read ばり, once the same form read はり is rescued. */
  lemma RescuedHariHidesBari(c: Catalog, bari: Row, hari: Row)
    requires c.labels(722) == Some(["動詞", "自立", "連用形"])
    requires c.unvoiced('ば') == ['は']
    requires bari == Row(Entry("ばり", "張り", 722, 722, 5000, 5000, 0, "", "", 0), false, false)
    requires hari == Row(bari.entry.(reading := "はり"), false, false)
    ensures !IsFragment(c, [bari], [true], bari)
    ensures IsFragment(c, [bari] + [hari], [true] + [false], bari)
  {
    var readings := UnvoicedReadings(c, "ばり");
    assert readings[0] == "はり";
    assert "ばり"[0] != "はり"[0];
    assert forall s :: s in readings ==> s == "はり";
    RescuedRowCanHide(c, [bari], [true], bari, hari);
  }
}
