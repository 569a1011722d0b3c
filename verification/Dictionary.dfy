/** compile_with_tables and the runtime dictionary over the bytes it writes: from
    unsorted entries to the hits and surfaces a search reads. */
module Dictionary {
  import opened Wrappers
  import opened Sequences
  import opened Sorting
  import opened Wire
  import opened Utf8
  import opened Trie
  import opened Louds
  import opened NodeTable
  import opened Lookup
  import opened Compilation
  import FrontCoding

  const RESTART_INTERVAL := 16

  // ------------------------------------------------------------ sorted entries

  /** A text as one character for each byte, so that texts compare bytewise. */
  function AsText(b: Bytes): (s: string)
    ensures |s| == |b| && forall i :: 0 <= i < |s| ==> s[i] as int == b[i]
  {
    seq(|b|, i requires 0 <= i < |b| => b[i] as char)
  }

  lemma AsTextInjective(a: Bytes, b: Bytes)
    requires AsText(a) == AsText(b)
    ensures a == b
  {
    assert |AsText(a)| == |a| && |AsText(b)| == |b|;
    forall i | 0 <= i < |a| ensures a[i] == b[i] {
      assert AsText(a)[i] as int == a[i];
    }
  }

  function CompareEntry(a: SourceEntry, b: SourceEntry): int {
    Then(CompareText(a.reading, b.reading),
         Then(CompareInt(a.wordCost, b.wordCost),
              Then(CompareText(AsText(a.surface), AsText(b.surface)),
                   Then(CompareInt(a.leftId, b.leftId),
                        Then(CompareInt(a.rightId, b.rightId),
                             Then(CompareInt(a.flags, b.flags), CompareText(a.annotation, b.annotation)))))))
  }

  predicate EntryLeq(a: SourceEntry, b: SourceEntry) { CompareEntry(a, b) <= 0 }

  predicate SameIdentity(a: SourceEntry, b: SourceEntry) {
    a.reading == b.reading && a.surface == b.surface && a.leftId == b.leftId && a.rightId == b.rightId
  }

  lemma EntryCompares(a: SourceEntry, b: SourceEntry, c: SourceEntry)
    ensures CompareEntry(a, b) == -CompareEntry(b, a)
    ensures CompareEntry(a, b) == 0 ==> SameIdentity(a, b)
    ensures CompareEntry(a, b) <= 0 && CompareEntry(b, c) <= 0 ==> CompareEntry(a, c) <= 0
    ensures CompareEntry(a, b) <= 0 && a.reading == b.reading ==> a.wordCost <= b.wordCost
  {
    hide CompareText, AsText;
    TextCompares(a.reading, b.reading, c.reading);
    TextCompares(AsText(a.surface), AsText(b.surface), AsText(c.surface));
    TextCompares(a.annotation, b.annotation, c.annotation);
    TextCompares(a.reading, c.reading, b.reading);
    if AsText(a.surface) == AsText(b.surface) { AsTextInjective(a.surface, b.surface); }
  }

  lemma EntriesAreOrdered()
    ensures IsOrder(EntryLeq)
  {
    hide CompareEntry;
    forall a: SourceEntry, b: SourceEntry ensures EntryLeq(a, b) || EntryLeq(b, a) { EntryCompares(a, b, b); }
    forall a: SourceEntry, b: SourceEntry, c: SourceEntry
      ensures EntryLeq(a, b) && EntryLeq(b, c) ==> EntryLeq(a, c)
    {
      EntryCompares(a, b, c);
    }
  }

  function Sorted(entries: seq<SourceEntry>): (s: seq<SourceEntry>)
    ensures |s| == |entries| && multiset(s) == multiset(entries)
  {
    SortKeeps(entries, EntryLeq);
    SortBy(entries, EntryLeq)
  }

  lemma SortedInOrder(entries: seq<SourceEntry>)
    ensures SortedBy(Sorted(entries), EntryLeq)
  {
    EntriesAreOrdered();
    SortSorts(entries, EntryLeq);
  }

  // ---------------------------------------------------------------- duplicates

  /** The window check: two neighbours of one identity. */
  ghost predicate RepeatsNext(s: seq<SourceEntry>) {
    exists k :: 0 <= k < |s| - 1 && SameIdentity(s[k], s[k + 1])
  }

  ghost predicate Before(a: SourceEntry, b: SourceEntry) { EntryLeq(a, b) && !EntryLeq(b, a) }

  /** Two entries of one identity with no entry sorted strictly between them. */
  ghost predicate HasCloseDuplicates(entries: seq<SourceEntry>) {
    exists i, j :: 0 <= i < |entries| && 0 <= j < |entries| && i != j && AreClose(entries, entries[i], entries[j])
  }

  ghost predicate AreClose(entries: seq<SourceEntry>, a: SourceEntry, b: SourceEntry) {
    SameIdentity(a, b) && EntryLeq(a, b) && forall x :: x in entries ==> !(Before(a, x) && Before(x, b))
  }

  /** Two places of one list are two places of every reordering. */
  lemma TwoPlacesMove<T>(s: seq<T>, t: seq<T>, p: nat, q: nat) returns (i: nat, j: nat)
    requires multiset(s) == multiset(t) && p < |s| && q < |s| && p != q
    ensures i < |t| && j < |t| && i != j && t[i] == s[p] && t[j] == s[q]
  {
    assert s[p] in multiset(t) && s[q] in multiset(t);
    if s[p] == s[q] {
      TwicePresent(s, if p < q then p else q, if p < q then q else p);
      TwoPlaces(t, s[p]);
      i, j :| 0 <= i < j < |t| && t[i] == s[p] && t[j] == s[p];
    } else {
      i :| 0 <= i < |t| && t[i] == s[p];
      j :| 0 <= j < |t| && t[j] == s[q];
    }
  }

  lemma CloseMoves(s: seq<SourceEntry>, t: seq<SourceEntry>, a: SourceEntry, b: SourceEntry)
    requires multiset(s) == multiset(t) && AreClose(s, a, b)
    ensures AreClose(t, a, b)
  {
    hide EntryLeq, SameIdentity;
    forall x | x in t ensures !(Before(a, x) && Before(x, b)) {
      assert x in multiset(s);
    }
  }

  lemma NeighboursAreClose(s: seq<SourceEntry>, k: nat)
    requires SortedBy(s, EntryLeq) && k + 1 < |s| && SameIdentity(s[k], s[k + 1])
    ensures AreClose(s, s[k], s[k + 1])
  {
    hide EntryLeq, SameIdentity;
    forall x | x in s ensures !(Before(s[k], x) && Before(x, s[k + 1])) {
      var m :| 0 <= m < |s| && s[m] == x;
      if m < k { assert EntryLeq(s[m], s[k]); }
      if m > k + 1 { assert EntryLeq(s[k + 1], s[m]); }
    }
  }

  lemma CloseAreNeighbours(s: seq<SourceEntry>, p: nat, q: nat)
    requires SortedBy(s, EntryLeq) && p < q < |s| && (AreClose(s, s[p], s[q]) || AreClose(s, s[q], s[p]))
    ensures SameIdentity(s[p], s[p + 1])
  {
    hide CompareEntry;
    assert s[p + 1] in s && EntryLeq(s[p], s[p + 1]) && EntryLeq(s[p], s[q]) && (p + 1 < q ==> EntryLeq(s[p + 1], s[q]));
    EntryCompares(s[p], s[p + 1], s[q]);
    EntryCompares(s[p + 1], s[q], s[p]);
    EntryCompares(s[p], s[q], s[p]);
    EntryCompares(s[p + 1], s[p], s[q]);
    EntryCompares(s[q], s[p], s[p + 1]);
    if p + 1 < q && !EntryLeq(s[p + 1], s[p]) {
      assert Before(s[p], s[p + 1]);
      assert EntryLeq(s[q], s[p + 1]);
    }
  }

  /** Duplicates are found exactly when nothing is sorted between two of them. */
  lemma DuplicatesFound(entries: seq<SourceEntry>)
    ensures RepeatsNext(Sorted(entries)) <==> HasCloseDuplicates(entries)
  {
    SortedInOrder(entries);
    if RepeatsNext(Sorted(entries)) { NeighboursGiveClose(entries, Sorted(entries)); }
    if HasCloseDuplicates(entries) { CloseGiveNeighbours(entries, Sorted(entries)); }
  }

  lemma NeighboursGiveClose(entries: seq<SourceEntry>, s: seq<SourceEntry>)
    requires multiset(s) == multiset(entries) && SortedBy(s, EntryLeq) && RepeatsNext(s)
    ensures HasCloseDuplicates(entries)
  {
    hide EntryLeq, SameIdentity, AreClose, SortedBy;
    var k :| 0 <= k < |s| - 1 && SameIdentity(s[k], s[k + 1]);
    NeighboursAreClose(s, k);
    CloseMoves(s, entries, s[k], s[k + 1]);
    var i, j := TwoPlacesMove(s, entries, k, k + 1);
  }

  lemma CloseGiveNeighbours(entries: seq<SourceEntry>, s: seq<SourceEntry>)
    requires multiset(s) == multiset(entries) && SortedBy(s, EntryLeq) && HasCloseDuplicates(entries)
    ensures RepeatsNext(s)
  {
    hide EntryLeq, SameIdentity, AreClose, SortedBy;
    var i, j :| 0 <= i < |entries| && 0 <= j < |entries| && i != j && AreClose(entries, entries[i], entries[j]);
    var p, q := TwoPlacesMove(entries, s, i, j);
    CloseMoves(entries, s, entries[i], entries[j]);
    CloseAreNeighbours(s, if p < q then p else q, if p < q then q else p);
  }

  // ------------------------------------------------------------ surface numbers

  predicate TextLess(a: Bytes, b: Bytes) { CompareText(AsText(a), AsText(b)) < 0 }

  /** BTreeSet::insert, the set as its ascending list. */
  function AddSurface(table: seq<Text>, s: Text): (r: seq<Text>)
    ensures forall x :: x in r <==> x in table || x == s
  {
    if table == [] then [s]
    else if table[0] == s then table
    else if TextLess(s, table[0]) then [s] + table
    else
      assert table == [table[0]] + table[1..];
      [table[0]] + AddSurface(table[1..], s)
  }

  /** The distinct surfaces, ascending. */
  function Surfaces(source: seq<SourceEntry>): (r: seq<Text>)
    ensures forall x :: x in r <==> exists i :: 0 <= i < |source| && source[i].surface == x
  {
    if source == [] then []
    else
      var front, last := Surfaces(source[..|source| - 1]), source[|source| - 1];
      assert forall i :: 0 <= i < |source| - 1 ==> source[..|source| - 1][i] == source[i];
      AddSurface(front, last.surface)
  }

  ghost predicate Ascends(table: seq<Text>) { forall i, j :: 0 <= i < j < |table| ==> TextLess(table[i], table[j]) }

  lemma {:induction false} AddAscends(table: seq<Text>, s: Text)
    requires Ascends(table)
    ensures Ascends(AddSurface(table, s))
    decreases |table|
  {
    hide CompareText, AsText;
    if table != [] && table[0] != s {
      if TextLess(s, table[0]) {
        forall j | 0 < j < |table| ensures TextLess(s, table[j]) {
          TextCompares(AsText(s), AsText(table[0]), AsText(table[j]));
        }
      } else {
        AddAscends(table[1..], s);
        TextCompares(AsText(s), AsText(table[0]), AsText(s));
        if AsText(s) == AsText(table[0]) { AsTextInjective(s, table[0]); }
        var rest := AddSurface(table[1..], s);
        forall j | 0 <= j < |rest| ensures TextLess(table[0], rest[j]) {
          assert rest[j] in rest;
          assert rest[j] in table[1..] || rest[j] == s;
        }
      }
    }
  }

  lemma {:induction false} SurfacesAscend(source: seq<SourceEntry>)
    ensures Ascends(Surfaces(source))
    decreases |source|
  {
    hide TextLess, AddSurface;
    if source != [] {
      SurfacesAscend(source[..|source| - 1]);
      AddAscends(Surfaces(source[..|source| - 1]), source[|source| - 1].surface);
    }
  }

  /** The position of each surface in the table. */
  function SurfaceIds(table: seq<Text>): (ids: map<Text, u32>)
    requires |table| <= U32_MAX + 1
    ensures forall s :: s in ids <==> s in table
  {
    if table == [] then map[]
    else
      var n := |table| - 1;
      assert table == table[..n] + [table[n]];
      SurfaceIds(table[..n])[table[n] := n]
  }

  lemma {:induction false} IdsIndex(table: seq<Text>, i: nat)
    requires |table| <= U32_MAX + 1 && Ascends(table) && i < |table|
    ensures SurfaceIds(table)[table[i]] == i
    decreases |table|
  {
    hide CompareText, AsText;
    var n := |table| - 1;
    if i < n {
      assert TextLess(table[i], table[n]);
      SelfCompares(table[i]);
      assert table[..n][i] == table[i];
      IdsIndex(table[..n], i);
    }
  }

  lemma SelfCompares(s: Bytes)
    ensures !TextLess(s, s)
  {}

  // ------------------------------------------------------------------ the image

  datatype CompileError = ClassOutOfRange(entry: nat) | BracketAnnotation(entry: nat) | DuplicateEntry(entry: nat)
                        | SurfaceIdOverflow | TrieError | TableError | SurfaceError

  function CheckEntry(source: seq<SourceEntry>, k: nat, classCount: nat): Option<CompileError>
    requires k < |source|
  {
    var e := source[k];
    if e.leftId >= classCount || e.rightId >= classCount then Some(ClassOutOfRange(k))
    else if e.annotation != "" && e.annotation[0] == '[' then Some(BracketAnnotation(k))
    else None
  }

  ghost predicate EntriesPass(source: seq<SourceEntry>, classCount: nat) {
    forall k :: 0 <= k < |source| ==> CheckEntry(source, k, classCount).None?
  }

  ghost predicate IsFirstFault(source: seq<SourceEntry>, k: nat, classCount: nat, fault: Option<CompileError>)
    requires k < |source|
  {
    fault.Some? && fault == CheckEntry(source, k, classCount) && EntriesPass(source[..k], classCount)
  }

  method CheckEntries(source: seq<SourceEntry>, classCount: nat) returns (r: Option<CompileError>)
    ensures r.None? <==> EntriesPass(source, classCount)
    ensures r.Some? ==> exists k: nat :: k < |source| && IsFirstFault(source, k, classCount, r)
    ensures r.Some? ==> !r.value.DuplicateEntry?
  {
    for k := 0 to |source|
      invariant forall i :: 0 <= i < k ==> CheckEntry(source, i, classCount).None?
    {
      r := CheckEntry(source, k, classCount);
      if r.Some? {
        assert forall i :: 0 <= i < k ==> CheckEntry(source[..k], i, classCount) == CheckEntry(source, i, classCount);
        assert IsFirstFault(source, k, classCount, r);
        return;
      }
    }
    r := None;
  }

  method CheckDuplicates(source: seq<SourceEntry>) returns (r: Option<CompileError>)
    ensures r.Some? <==> RepeatsNext(source)
    ensures r.Some? ==> r.value.DuplicateEntry?
  {
    for k := 0 to |source|
      invariant forall i :: 0 <= i < k && i < |source| - 1 ==> !SameIdentity(source[i], source[i + 1])
    {
      if k + 1 < |source| && SameIdentity(source[k], source[k + 1]) { return Some(DuplicateEntry(k + 1)); }
    }
    r := None;
  }

  /** The bytes of the tables a search reads, and the number of each sorted entry. */
  datatype DictionaryImage = DictionaryImage(tables: Tables, offsets: Bytes, surfaces: Bytes, surfaceCount: nat,
                                             ordinals: seq<nat>)

  /** What entries must meet to be compiled. */
  ghost predicate Acceptable(entries: seq<SourceEntry>, classCount: nat) {
    var source := Sorted(entries);
    var surfaces := Surfaces(source);
    && EntriesPass(source, classCount) && !HasCloseDuplicates(entries)
    && |surfaces| <= U32_MAX + 1 && Compilable(source, SurfaceIds(surfaces))
    && FrontCoding.AllFit(surfaces, RESTART_INTERVAL, |surfaces|)
  }

  ghost predicate Stands(d: DictionaryImage, source: seq<SourceEntry>, image: Image, nodes: seq<Node>, paths: seq<string>,
                         order: seq<Visit>) {
    var surfaces := Surfaces(source);
    && |surfaces| <= U32_MAX + 1
    && Indexes(nodes, paths, Readings(source)) && IsLevelOrder(nodes, paths, order)
    && Describes(image, nodes, order, source, SurfaceIds(surfaces))
    && d.tables == TablesOf(image) && d.ordinals == image.ordinals && d.surfaceCount == |surfaces|
    && FrontCoding.AllFit(surfaces, RESTART_INTERVAL, |surfaces|)
    && d.offsets == FrontCoding.OffsetBytes(FrontCoding.Offsets(surfaces, RESTART_INTERVAL, |surfaces|))
    && d.surfaces == FrontCoding.Data(surfaces, RESTART_INTERVAL, |surfaces|)
  }

  /** The image of these entries. */
  ghost predicate IsImageOf(d: DictionaryImage, entries: seq<SourceEntry>) {
    exists image, nodes, paths, order :: Stands(d, Sorted(entries), image, nodes, paths, order)
  }

  /** build_trie and flatten_trie on the sorted entries. */
  method CompileTables(source: seq<SourceEntry>, ids: map<Text, u32>)
    returns (r: Result<Image, CompileError>, ghost nodes: seq<Node>, ghost paths: seq<string>, ghost order: seq<Visit>)
    ensures r.Ok? ==> Compilable(source, ids)
    ensures |source| <= U32_MAX && Compilable(source, ids) ==> r.Ok?
    ensures r.Err? ==> r.error in {TrieError, TableError}
    ensures r.Ok? ==> Indexes(nodes, paths, Readings(source)) && IsLevelOrder(nodes, paths, order)
                      && Describes(r.value, nodes, order, source, ids)
  {
    hide IsTrie, Homophones, Representable, Describes, Prefixes, Labels;
    nodes, order := [], [];
    var trie, named := Build(Readings(source));
    paths := named;
    if trie.Err? { return Err(TrieError), nodes, paths, order; }
    nodes := trie.value;
    var flat := Flatten(trie.value, paths, source, ids);
    order :| IsLevelOrder(nodes, paths, order);
    FormatHolds(nodes, paths, order, source, ids);
    r := if flat.Err? then Err(TableError) else Ok(flat.value);
  }

  /** compile_with_tables, as far as readings, entries and surfaces go. It succeeds
      exactly on acceptable entries, and then yields their image. */
  method Compile(entries: seq<SourceEntry>, classCount: nat) returns (r: Result<DictionaryImage, CompileError>)
    ensures r.Ok? ==> Acceptable(entries, classCount) && IsImageOf(r.value, entries)
    ensures |entries| <= U32_MAX && Acceptable(entries, classCount) ==> r.Ok?
    ensures r.Err? && r.error.DuplicateEntry? <==> EntriesPass(Sorted(entries), classCount) && HasCloseDuplicates(entries)
  {
    hide Sorted, Surfaces, SurfaceIds, Compilable, Describes, Indexes, IsLevelOrder, EntriesPass, HasCloseDuplicates, RepeatsNext;
    hide FrontCoding.AllFit, FrontCoding.OffsetBytes, FrontCoding.Data;
    var source := Sorted(entries);
    DuplicatesFound(entries);
    var fault := CheckEntries(source, classCount);
    if fault.Some? { return Err(fault.value); }
    var duplicate := CheckDuplicates(source);
    if duplicate.Some? { return Err(duplicate.value); }
    var surfaces := Surfaces(source);
    if |surfaces| > U32_MAX + 1 { return Err(SurfaceIdOverflow); }
    var image, nodes, paths, order := CompileTables(source, SurfaceIds(surfaces));
    if image.Err? { return Err(image.error); }
    var coded := FrontCoding.FrontCode(surfaces, RESTART_INTERVAL);
    if coded.Err? { return Err(SurfaceError); }
    r := Ok(DictionaryImage(TablesOf(image.value), coded.value.0, coded.value.1, |surfaces|, image.value.ordinals));
    assert Stands(r.value, source, image.value, nodes, paths, order);
  }

  // ------------------------------------------------------------------ searching

  /** All hits of a query, as the entries alone determine them. */
  ghost predicate CanAnswer(entries: seq<SourceEntry>, ordinals: seq<nat>) {
    |ordinals| == |entries| && |Surfaces(Sorted(entries))| <= U32_MAX + 1
  }

  lemma AllNumbered(source: seq<SourceEntry>)
    requires |Surfaces(source)| <= U32_MAX + 1
    ensures forall i :: 0 <= i < |source| ==> source[i].surface in SurfaceIds(Surfaces(source))
  {}

  ghost function HitsOf(entries: seq<SourceEntry>, ordinals: seq<nat>, reading: string): seq<Hit>
    requires CanAnswer(entries, ordinals)
  {
    AllNumbered(Sorted(entries));
    HitsFor(Sorted(entries), SurfaceIds(Surfaces(Sorted(entries))), ordinals, reading)
  }

  /** The hits of every nonempty prefix of the query up to length n, shortest first. */
  ghost function PrefixHits(entries: seq<SourceEntry>, ordinals: seq<nat>, query: string, n: nat): seq<Hit>
    requires CanAnswer(entries, ordinals) && n <= |query|
  {
    if n == 0 then [] else PrefixHits(entries, ordinals, query, n - 1) + HitsOf(entries, ordinals, query[..n])
  }

  lemma {:induction false} ExpectedIsPrefixHits(entries: seq<SourceEntry>, ordinals: seq<nat>, query: string, n: nat)
    requires CanAnswer(entries, ordinals) && n <= |query|
    ensures forall i :: 0 <= i < |entries| ==> Sorted(entries)[i].surface in SurfaceIds(Surfaces(Sorted(entries)))
    ensures PrefixHits(entries, ordinals, query, n)
         == Expected(Sorted(entries), SurfaceIds(Surfaces(Sorted(entries))), ordinals, query, n)
    decreases n
  {
    hide Sorted, Surfaces, SurfaceIds, HitsFor;
    AllNumbered(Sorted(entries));
    if n > 0 { ExpectedIsPrefixHits(entries, ordinals, query, n - 1); }
  }

  /** common_prefix_search over the image. */
  method Search(d: DictionaryImage, query: string, visit: Visitor, ghost entries: seq<SourceEntry>)
    returns (r: Result<seq<Hit>, ReadError>)
    requires IsImageOf(d, entries)
    ensures CanAnswer(entries, d.ordinals) && r.Ok?
    ensures IsVisit(visit, PrefixHits(entries, d.ordinals, query, |query|), r.value)
  {
    hide Sorted, Surfaces, SurfaceIds, Indexes, IsLevelOrder, Expected, PrefixHits, TablesOf, FrontCoding.AllFit;
    ghost var source := Sorted(entries);
    ghost var ids := SurfaceIds(Surfaces(source));
    ghost var image, nodes, paths, order :| Stands(d, source, image, nodes, paths, order);
    assert InArena(nodes, order) by { LevelOrderInArena(nodes, paths, order); }
    ExpectedIsPrefixHits(entries, d.ordinals, query, |query|);
    r := CommonPrefixSearch(d.tables, image, query, visit, nodes, paths, order, source, ids);
  }

  lemma LevelOrderInArena(nodes: seq<Node>, paths: seq<string>, order: seq<Visit>)
    requires IsLevelOrder(nodes, paths, order)
    ensures InArena(nodes, order)
  {}

  /** The renumbering of the entries is a permutation. */
  lemma OrdinalsAreNumbers(d: DictionaryImage, entries: seq<SourceEntry>)
    requires IsImageOf(d, entries)
    ensures IsPermutation(d.ordinals, |entries|)
  {
    hide Sorted, Surfaces, SurfaceIds, Indexes, Describes;
    var source := Sorted(entries);
    var image, nodes, paths, order :| Stands(d, source, image, nodes, paths, order);
    OrdinalsPermute(image, nodes, order, source, SurfaceIds(Surfaces(source)));
  }

  // ---------------------------------------------------- what the hits tell us

  /** The entries with a reading. */
  function EntriesOf(entries: seq<SourceEntry>, s: string): seq<SourceEntry> {
    if entries == [] then []
    else
      var front, last := EntriesOf(entries[..|entries| - 1], s), entries[|entries| - 1];
      if last.reading == s then front + [last] else front
  }

  lemma {:induction false} EntriesAt(source: seq<SourceEntry>, s: string)
    ensures var found, places := EntriesOf(source, s), Homophones(Readings(source), s);
            |found| == |places| && forall k :: 0 <= k < |places| ==> places[k] < |source| && found[k] == source[places[k]]
    decreases |source|
  {
    if source != [] {
      var n := |source| - 1;
      EntriesAt(source[..n], s);
      LastHomophone(source, s);
      hide Homophones, Readings;
    }
  }

  lemma LastHomophone(source: seq<SourceEntry>, s: string)
    requires source != []
    ensures var n := |source| - 1;
            Homophones(Readings(source), s)
            == Homophones(Readings(source[..n]), s) + if source[n].reading == s then [n] else []
  {
    var n := |source| - 1;
    HomophonesPush(Readings(source[..n]), source[n].reading, s);
    assert Readings(source) == Readings(source[..n]) + [source[n].reading];
  }

  lemma {:induction false} EntriesCount(source: seq<SourceEntry>, s: string, e: SourceEntry)
    ensures multiset(EntriesOf(source, s))[e] == if e.reading == s then multiset(source)[e] else 0
    decreases |source|
  {
    if source != [] {
      var n := |source| - 1;
      EntriesCount(source[..n], s, e);
      assert source == source[..n] + [source[n]];
    }
  }

  /** The k-th hit is the entry, and its surface number reads back its surface; the
      buffer must hold every surface since the restart. */
  ghost predicate Reports(d: DictionaryImage, entries: seq<SourceEntry>, hit: Hit, reading: string, e: SourceEntry)
    requires CanAnswer(entries, d.ordinals)
  {
    var surfaces := Surfaces(Sorted(entries));
    var id := hit.entry.surfaceId;
    && hit.matchedBytes == Utf8Length(reading) && id < |surfaces| && surfaces[id] == e.surface
    && hit.entry == Entry(id, e.leftId, e.rightId, e.wordCost, e.predictionCost, e.flags)
    && forall capacity: nat {:trigger FrontCoding.FitBetween(surfaces, FrontCoding.RestartBefore(RESTART_INTERVAL, id), id, capacity)} ::
         FrontCoding.Surface(d.offsets, d.surfaces, d.surfaceCount, RESTART_INTERVAL, id, capacity)
         == if FrontCoding.FitBetween(surfaces, FrontCoding.RestartBefore(RESTART_INTERVAL, id), id, capacity)
            then Ok(e.surface) else Err(FrontCoding.TextOverflow)
  }

  /** A hit carries the fields of its entry and the number of its surface. */
  lemma HitCarries(entries: seq<SourceEntry>, ordinals: seq<nat>, reading: string, k: nat)
    requires CanAnswer(entries, ordinals) && k < |EntriesOf(Sorted(entries), reading)|
    ensures |HitsOf(entries, ordinals, reading)| == |EntriesOf(Sorted(entries), reading)|
    ensures var hit, e := HitsOf(entries, ordinals, reading)[k], EntriesOf(Sorted(entries), reading)[k];
            var surfaces, id := Surfaces(Sorted(entries)), hit.entry.surfaceId;
            && hit.matchedBytes == Utf8Length(reading) && id < |surfaces| && surfaces[id] == e.surface
            && hit.entry == Entry(id, e.leftId, e.rightId, e.wordCost, e.predictionCost, e.flags)
  {
    hide Sorted, EntriesOf, Homophones, Utf8Length;
    var source := Sorted(entries);
    var surfaces := Surfaces(source);
    EntriesAt(source, reading);
    AllNumbered(source);
    var e := EntriesOf(source, reading)[k];
    assert e.surface in surfaces;
    var i :| 0 <= i < |surfaces| && surfaces[i] == e.surface;
    SurfacesAscend(source);
    IdsIndex(surfaces, i);
    assert HitsOf(entries, ordinals, reading)[k].entry == Stored(e, SurfaceIds(surfaces));
  }

  lemma SurfaceReads(d: DictionaryImage, entries: seq<SourceEntry>, id: nat, capacity: nat)
    requires IsImageOf(d, entries) && id < |Surfaces(Sorted(entries))|
    ensures var surfaces := Surfaces(Sorted(entries));
            FrontCoding.Surface(d.offsets, d.surfaces, d.surfaceCount, RESTART_INTERVAL, id, capacity)
            == if FrontCoding.FitBetween(surfaces, FrontCoding.RestartBefore(RESTART_INTERVAL, id), id, capacity)
               then Ok(surfaces[id]) else Err(FrontCoding.TextOverflow)
  {
    hide Sorted, Surfaces, FrontCoding.Surface, FrontCoding.AllFit, FrontCoding.FitBetween, FrontCoding.OffsetBytes;
    hide FrontCoding.Offsets, FrontCoding.Data, Indexes, IsLevelOrder, Describes;
    var image, nodes, paths, order :| Stands(d, Sorted(entries), image, nodes, paths, order);
    FrontCoding.SurfacesReadBack(Surfaces(Sorted(entries)), RESTART_INTERVAL, id, capacity);
  }

  lemma HitReports(d: DictionaryImage, entries: seq<SourceEntry>, reading: string, k: nat)
    requires IsImageOf(d, entries) && CanAnswer(entries, d.ordinals)
    requires k < |EntriesOf(Sorted(entries), reading)|
    ensures |HitsOf(entries, d.ordinals, reading)| == |EntriesOf(Sorted(entries), reading)|
    ensures Reports(d, entries, HitsOf(entries, d.ordinals, reading)[k], reading, EntriesOf(Sorted(entries), reading)[k])
  {
    hide Sorted, Surfaces, EntriesOf, HitsOf, IsImageOf, Utf8Length, FrontCoding.Surface, FrontCoding.FitBetween;
    hide FrontCoding.RestartBefore;
    HitCarries(entries, d.ordinals, reading, k);
    var id := HitsOf(entries, d.ordinals, reading)[k].entry.surfaceId;
    forall capacity: nat
      ensures FrontCoding.Surface(d.offsets, d.surfaces, d.surfaceCount, RESTART_INTERVAL, id, capacity)
           == if FrontCoding.FitBetween(Surfaces(Sorted(entries)), FrontCoding.RestartBefore(RESTART_INTERVAL, id), id, capacity)
              then Ok(Surfaces(Sorted(entries))[id]) else Err(FrontCoding.TextOverflow)
    {
      SurfaceReads(d, entries, id, capacity);
    }
  }

  /** The hits of a reading are its entries, each as often as it was given, by
      rising cost; every surface number reads back the surface from the bytes. */
  lemma HitsAreEntriesByCost(d: DictionaryImage, entries: seq<SourceEntry>, reading: string)
    requires IsImageOf(d, entries) && CanAnswer(entries, d.ordinals)
    ensures var hits, found := HitsOf(entries, d.ordinals, reading), EntriesOf(Sorted(entries), reading);
            && multiset(found) == multiset(EntriesOf(entries, reading)) && |hits| == |found|
            && (forall k :: 0 <= k < |hits| ==> Reports(d, entries, hits[k], reading, found[k]))
            && (forall i, j :: 0 <= i < j < |hits| ==> hits[i].entry.wordCost <= hits[j].entry.wordCost)
  {
    hide Sorted, Homophones, Reports, IsImageOf, CompareEntry;
    var source := Sorted(entries);
    var hits, found := HitsOf(entries, d.ordinals, reading), EntriesOf(source, reading);
    EntriesAt(source, reading);
    forall e ensures multiset(found)[e] == multiset(EntriesOf(entries, reading))[e] {
      EntriesCount(source, reading, e);
      EntriesCount(entries, reading, e);
    }
    forall k | 0 <= k < |hits| ensures Reports(d, entries, hits[k], reading, found[k]) { HitReports(d, entries, reading, k); }
    SortedInOrder(entries);
    var places := Homophones(Readings(source), reading);
    forall i, j | 0 <= i < j < |hits| ensures hits[i].entry.wordCost <= hits[j].entry.wordCost {
      assert places[i] in places && places[j] in places;
      assert EntryLeq(source[places[i]], source[places[j]]);
      EntryCompares(source[places[i]], source[places[j]], source[places[j]]);
    }
  }

  // ------------------------------------------------- a duplicate that is accepted

  /** Classes, costs, annotation and surface of one entry fit the format. */
  predicate InFormat(e: SourceEntry, classCount: nat) {
    && e.leftId < classCount && e.rightId < classCount && (e.annotation == "" || e.annotation[0] != '[')
    && 0 <= e.wordCost <= U16_MAX && (e.predictionCost == I32_MAX || 0 <= e.predictionCost < U16_MAX)
    && |e.surface| <= U16_MAX
  }

  ghost function PrefixesOf(r: string, n: nat): (s: set<string>)
    requires n <= |r|
    ensures |s| <= n + 1 && forall k :: 0 <= k <= n ==> r[..k] in s
  {
    if n == 0 then {""} else PrefixesOf(r, n - 1) + {r[..n]}
  }

  lemma OneReading(readings: seq<string>, r: string)
    requires forall i :: 0 <= i < |readings| ==> readings[i] == r
    ensures |Prefixes(readings)| <= |r| + 1
    ensures forall p :: |Labels(readings, p)| <= 1
  {
    assert r[..0] == "";
    SubsetCount(Prefixes(readings), PrefixesOf(r, |r|));
    forall p ensures |Labels(readings, p)| <= 1 {
      SubsetCount(Labels(readings, p), if |p| < |r| then {r[|p|]} else {});
    }
  }

  lemma {:induction false} FewHomophones(readings: seq<string>, s: string)
    ensures |Homophones(readings, s)| <= |readings|
    decreases |readings|
  {
    if readings != [] { FewHomophones(readings[..|readings| - 1], s); }
  }

  lemma {:induction false} OneMoreSurface(table: seq<Text>, s: Text)
    ensures |AddSurface(table, s)| <= |table| + 1
    decreases |table|
  {
    if table != [] { OneMoreSurface(table[1..], s); }
  }

  lemma {:induction false} FewSurfaces(source: seq<SourceEntry>)
    ensures |Surfaces(source)| <= |source|
    decreases |source|
  {
    hide AddSurface;
    if source != [] {
      FewSurfaces(source[..|source| - 1]);
      OneMoreSurface(Surfaces(source[..|source| - 1]), source[|source| - 1].surface);
    }
  }

  lemma ShortTableFits(values: seq<Text>)
    requires |values| <= RESTART_INTERVAL && forall i :: 0 <= i < |values| ==> |values[i]| <= U16_MAX
    ensures FrontCoding.AllFit(values, RESTART_INTERVAL, |values|)
  {
    hide IsUtf8, FrontCoding.CommonPrefix;
    forall k | 0 <= k < |values| ensures FrontCoding.CheckValue(values, RESTART_INTERVAL, k).Ok? {
      assert k % RESTART_INTERVAL == 0 ==> k == 0;
      assert FrontCoding.Data(values, RESTART_INTERVAL, 0) == [];
    }
  }

  /** Up to sixteen entries of one reading, in format and without close
      duplicates, are accepted. */
  lemma FewEntriesAccepted(entries: seq<SourceEntry>, reading: string, classCount: nat)
    requires |entries| <= RESTART_INTERVAL && |reading| < 0x8000_0000 && !HasCloseDuplicates(entries)
    requires forall e :: e in entries ==> e.reading == reading && InFormat(e, classCount)
    ensures Acceptable(entries, classCount)
  {
    hide Sorted, HasCloseDuplicates, FrontCoding.AllFit, Prefixes, Labels, Homophones;
    var source := Sorted(entries);
    var surfaces := Surfaces(source);
    forall i | 0 <= i < |source| ensures source[i].reading == reading && InFormat(source[i], classCount) {
      assert source[i] in multiset(entries);
    }
    OneReading(Readings(source), reading);
    forall s ensures |Homophones(Readings(source), s)| <= MAX_HOMOPHONES { FewHomophones(Readings(source), s); }
    FewSurfaces(source);
    AllNumbered(source);
    forall i | 0 <= i < |surfaces| ensures |surfaces[i]| <= U16_MAX {
      assert surfaces[i] in surfaces;
      var k :| 0 <= k < |source| && source[k].surface == surfaces[i];
    }
    ShortTableFits(surfaces);
  }

  lemma DistantDuplicatesUnseen(cheap: SourceEntry, middle: SourceEntry, dear: SourceEntry)
    requires SameIdentity(cheap, dear) && !SameIdentity(cheap, middle) && middle.reading == cheap.reading
    requires cheap.wordCost < middle.wordCost < dear.wordCost
    ensures !HasCloseDuplicates([cheap, middle, dear])
  {
    hide CompareText, AsText;
    TextCompares(cheap.reading, middle.reading, dear.reading);
    assert Before(cheap, middle) && Before(middle, dear);
    assert !EntryLeq(dear, cheap);
    var entries := [cheap, middle, dear];
    assert middle in entries;
    assert !AreClose(entries, cheap, dear);
  }

  /** A duplicate with another cost is accepted once an entry of the reading is
      priced between its copies. */
  lemma DistantDuplicatesPass(cheap: SourceEntry, middle: SourceEntry, dear: SourceEntry, classCount: nat)
    requires SameIdentity(cheap, dear) && !SameIdentity(cheap, middle) && middle.reading == cheap.reading
    requires cheap.wordCost < middle.wordCost < dear.wordCost && |cheap.reading| < 0x8000_0000
    requires InFormat(cheap, classCount) && InFormat(middle, classCount) && InFormat(dear, classCount)
    ensures Acceptable([cheap, middle, dear], classCount)
  {
    hide Acceptable, HasCloseDuplicates, InFormat;
    DistantDuplicatesUnseen(cheap, middle, dear);
    FewEntriesAccepted([cheap, middle, dear], cheap.reading, classCount);
  }
}
