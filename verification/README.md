# Verified model of the Sakura dictionary compiler and context protocols

This Dafny project models how the repository compiles its Japanese input-method dictionary and how its context
prediction exchanges, bounds and measures data, and proves that the packed, priced, bounded or sorted forms agree with
simple meanings. `dafny verify dfyconfig.toml` checks everything.

## What is modelled

- **Dictionary image.** `Trie`, `Louds`, `NodeTable`, `ImageBytes`, `Lookup`, `Compilation` and `Dictionary` follow
  unsorted entries through sorting, the arena trie, the breadth-first renumbering, the LOUDS bits and the byte tables to
  the runtime search over those bytes, which is shown to visit exactly the entries, by rising cost, with their surfaces.
  `FrontCoding` packs the surfaces, `Matrix` the connection costs.
- **Segmenter.** `Patterns` covers the regex subset and its matcher, `Boundaries` (with `Bits`) the word-parallel table
  against "the first matching rule wins".
- **Lexicon stages.** `Trim` sorts, deduplicates and caps; `GlossaryPricing` lifts prices in two passes;
  `Inflection` and `InflectionDetails` expand conjugations and inherit details; `BoundaryPolicy` and `PolicyPass`
  classify rows and apply the exhaustive review. `Lexicon` holds their common row, `Sorting` and `Sequences` the facts
  about sorted sweeps.
- **Commit protocol and gates.** `BatchPlans`, `BatchCommit` and `BatchRuns` treat `write_batches` as a state machine
  over file writes with crashes; `JsonScan` and `JsonKeys` cover the duplicate-key scanner; `DatasetKeys` and `Dataset`
  the duplicate removal and the verification of its own output.
- **Context prediction.** `ContextFrames`, `ContextCodec`, `ContextReader` and `ContextScores` are the wire contract,
  `ContextTail` and `SessionContext` the bounded session context (on `Utf8`, section 4 of RFC 3629), `Baseline`,
  `Snapshots` and `Replay` ranking and metrics.
- **Calendar.** `Calendar` and `DateText` (with `Decimal`) cover day stepping, weekdays, eras and written dates.
- `Wire` holds the little-endian integers and record tables that image and frames share, `Wrappers` the result types.

Where the code loops or updates in place, the model has a method with loop invariants, proved against a function;
the lemmas are about those functions. Where it computes with expressions, the model has functions.

## What the proofs found

- Batch names with seven digits are not recognized as managed files. With a million batches or more a foreign file
  under such a name survives the pre-check and makes the committed directory fail its own verification;
  `BatchRuns.CommitVerifiesExactly` gives the exact condition and `BatchRuns.OverflowBreaksCommit` an instance.
- `decode_response` accepts frames that `encode_response` refuses, namely those with a zero id or fingerprint;
  `ContextCodec.ResponseRoundTrip` says exactly when the two are inverse.
- The documentation of the legacy-evidence classifier says newly rescued rows cannot turn an independently usable
  reading into a compound-only fragment. The code keeps that for the suffix rule, but the continuative rule reads all
  rows: `BoundaryPolicy.RescuedRowCanHide` shows which rows a rescued one hides (`RescuedHariHidesBari` is an instance),
  and `BoundaryPolicy.RescuedRowsLeaveClassification` is the exact condition under which nothing changes. The model
  follows the code.
- The yield pass keeps its margin if and only if every edge can reach it at the highest cost
  (`GlossaryPricing.YieldKeepsOwnerFirst`; `CeilingStopsMargin` is an instance where none can).
- The inflection floor is strict if and only if the sibling is below the highest cost, where the saturating add stops
  (`Inflection.FloorHolds`; `CeilingIsShared` says what happens there, `FloorStopsAtCeiling` is an instance).
- Duplicate removal looks at content keys only, and a sample id ignores context and candidates. A built dataset
  therefore verifies if and only if of any two records with one sample id at least one shares a key with a record before
  it in the order by sample id (`Dataset.BuiltDatasetVerifies`, with the instance `SharedIdFails`).
- The image compiler refuses duplicate entries only when they end up next to each other after sorting by cost:
  `Dictionary.DuplicatesFound` is the exact condition on the entries, `DistantDuplicatesPass` a case that is accepted.
- A surface is readable exactly when every surface since its restart fits the reader's buffer, not only the surface
  itself (`FrontCoding.SurfacesReadBack`).

## Assumptions that appear as parameters

- Digests, candidate hashes and surface hashes are functions. `DatasetKeys.ExactMeansNear` and the batch theorems name
  injectivity or collision freedom where they need it.
- JSON decoding of string literals, rendering and parsing of batch files, and the manifest codec are functions; the
  batch theorems require the codecs to be inverse.
- The connection costs of the sentence boundary, the conjugation tables, POS labels, unvoiced initials, the
  sentence-end test, NFC simplification and character counts are functions.
- Word costs in `GlossaryPricing` are nonnegative, as shape and phonetic pricing make them for a nonnegative base cost.
- `Inflection.ExpansionIsFixpoint` asks that no conjugated form is the dictionary form, which holds of every form table
  in the source.

## Model

| member | source | states |
|---|---|---|
| Trie.Build | crates/dictc-core/src/lib.rs:1438-1463 | building succeeds exactly when no reading has more homophones than a node can count; the arena is then a trie in which each node holds exactly the entries of its reading, in source order |
| Trie.ParentIsUnique | crates/dictc-core/src/lib.rs:1441-1456 | a path extended by one character is reachable only through the edge of its own parent |
| Trie.PrefixNamed | crates/dictc-core/src/lib.rs:1441-1456 | every prefix of a node's path is itself a node's path |
| Louds.BreadthFirst | crates/dictc-core/src/lib.rs:1482-1493 | the queue visits every arena node exactly once, level by level, children contiguous and in label order |
| Louds.LevelOrderIsUnique | crates/dictc-core/src/lib.rs:1482-1493 | a trie has one level order only, so its tables are determined |
| Louds.AllVisited | crates/dictc-core/src/lib.rs:1482-1493 | no node of the arena is left unvisited |
| Louds.GroupBits | crates/dictc-core/src/lib.rs:1544-1545 | the child group of a node is a run of set bits closed by a zero, at the place its number fixes |
| Louds.LoudsNavigates | crates/dictc-core/src/lib.rs:1511-1560 | n nodes give 2n-1 LOUDS bits, and the first child of a node is one plus the set bits before its group |
| NodeTable.EntryRoundTrip | crates/dictc-core/src/lib.rs:1573-1622 | exactly the entries with a known surface and costs in range can be written, and they read back unchanged, the unavailable prediction cost included |
| NodeTable.EncodeNode | crates/dictc-core/src/lib.rs:1508-1546 | one node's record names its renumbered children and its value range; it fails exactly when a number does not fit or an entry cannot be written |
| NodeTable.EmittedIsPermutation | crates/dictc-core/src/lib.rs:1517-1551 | the entry renumbering loses no source entry and repeats none |
| NodeTable.Flatten | crates/dictc-core/src/lib.rs:1476-1571 | flattening yields tables that describe the trie in its level order, and fails exactly when something does not fit its field |
| ImageBytes.NodesRoundTrip | crates/sakura-core/src/dictionary/louds.rs:18-54 | every node index reads back its record from the bytes and every other index fails |
| ImageBytes.EntriesRoundTrip | crates/sakura-core/src/dictionary/mod.rs:423-464 | every entry index reads back its record from the bytes and every other index fails |
| Lookup.FindChild | crates/sakura-core/src/dictionary/louds.rs:56-69 | binary search over the label bytes finds the child with a label or proves that there is none |
| Lookup.CommonPrefixSearch | crates/sakura-core/src/dictionary/lookup.rs:159-190 | on the table bytes the search visits exactly the entries whose reading is a nonempty prefix of the query, shortest first, in table order, up to the hit at which the visitor stops it |
| Lookup.LongerPrefixUnread | crates/sakura-core/src/dictionary/lookup.rs:166-170 | stopping where no child matches loses no longer prefix |
| Compilation.NodesArePrefixes | crates/dictc-core/src/lib.rs:1438-1463 | the trie has exactly one node for each beginning of a reading |
| Compilation.ChildrenAreLabels | crates/dictc-core/src/lib.rs:1441-1456 | a node has exactly one child for each character that follows its path in some reading |
| Compilation.HeldIsCompilable | crates/dictc-core/src/lib.rs:1508-1554 | a trie fits the format only if homophones, prefixes, branching and entry costs are within its limits |
| Compilation.CompilableIsHeld | crates/dictc-core/src/lib.rs:1508-1554 | and it does fit then, as long as entry numbers fit 32 bits |
| Dictionary.DuplicatesFound | crates/dictc-core/src/lib.rs:873-894 | the window check over the sorted entries finds a duplicate exactly when two entries of one identity have no entry sorted strictly between them |
| Dictionary.FewEntriesAccepted | crates/dictc-core/src/lib.rs:827-945 | up to sixteen entries of one reading, in format and without close duplicates, are always accepted |
| Dictionary.DistantDuplicatesPass | crates/dictc-core/src/lib.rs:873-894 | so a duplicate with another cost is accepted, with everything else in format, once an entry of the reading is priced between its copies |
| Dictionary.SurfacesAscend | crates/dictc-core/src/lib.rs:895-905 | the surface table holds the distinct surfaces in bytewise order |
| Dictionary.IdsIndex | crates/dictc-core/src/lib.rs:901-905 | a surface's number is its position in that table |
| Dictionary.Compile | crates/dictc-core/src/lib.rs:827-945 | from unsorted entries compiling succeeds only when they pass the entry checks, no duplicate is found and readings, costs and surfaces are within the limits of the format, and for up to 4,294,967,295 entries exactly then; it yields the bytes of their image |
| Dictionary.Search | crates/sakura-core/src/dictionary/lookup.rs:159-190 | searching the bytes of an image visits exactly the hits its entries determine, until the visitor stops |
| Dictionary.OrdinalsAreNumbers | crates/dictc-core/src/lib.rs:924-945 | the entry numbers of an image are a permutation |
| Dictionary.HitsAreEntriesByCost | crates/dictc-core/src/lib.rs:832-854 | the hits of a reading are exactly its entries, each as often as given, by rising cost, and each hit's surface number reads its entry's surface back from the surface bytes |
| Lookup.InverseIsPermutation | crates/dictc-core/src/lib.rs:1506-1551 | the ordinals handed to the entries are a permutation |
| FrontCoding.CommonPrefixBytes | crates/dictc-core/src/lib.rs:1787-1803 | the character-wise loop computes the shared prefix |
| FrontCoding.PrefixShared | crates/dictc-core/src/lib.rs:1787-1803 | the shared prefix is shared and ends on a character boundary of both texts |
| FrontCoding.PrefixIsLongest | crates/dictc-core/src/lib.rs:1787-1803 | no longer boundary prefix is shared |
| FrontCoding.FrontCode | crates/dictc-core/src/lib.rs:1624-1645 | succeeds exactly when every restart offset, prefix and suffix fits, with the first misfit as its error, and then writes all records and restart offsets |
| FrontCoding.WriteSurface | crates/sakura-core/src/dictionary/lookup.rs:399-467 | the reader's loop from a restart, with its checks, as a function of the bytes |
| FrontCoding.SurfacesReadBack | crates/dictc-core/src/lib.rs:1624-1645 | for every restart interval each surface reads back; the reader fails exactly when a surface from the restart up to the wanted one exceeds its buffer |
| Matrix.RowMode | crates/dictc-core/src/lib.rs:1373-1384 | the sweep over frequencies picks the most frequent cost, the smallest on ties |
| Matrix.ModeIsUnique | crates/dictc-core/src/lib.rs:1373-1384 | a row has exactly one mode |
| Matrix.OverridesExact | crates/dictc-core/src/lib.rs:1386-1391 | overrides are exactly the cells that differ from the default, by ascending column |
| Matrix.ModeIsBest | crates/dictc-core/src/lib.rs:1373-1391 | no other default of a row needs fewer overrides |
| Matrix.Pack | crates/dictc-core/src/lib.rs:1360-1398 | every row is described by its mode and a stretch of the overrides; truncation is the only error |
| Matrix.ConnectionCost | crates/sakura-core/src/dictionary/lookup.rs:125-155 | the binary search in the packed bytes, as a function of the bytes |
| Matrix.LookupReturnsCell | crates/sakura-core/src/dictionary/lookup.rs:125-155 | in a readable image the lookup answers the original cell, override or default |
| Matrix.EncodeMatrix | crates/dictc-core/src/lib.rs:1360-1430 | a matrix of enough costs is accepted exactly when header, modes, row records and one record for each cell off its row's mode fit the budget; it then looks up to every original cell and to nothing outside |
| Patterns.MatcherIsExact | crates/dictc-core/src/segmenter.rs:338-357 | the backtracking matcher accepts exactly when some prefix of the feature (all of it when anchored) splits into pieces in the tokens' languages |
| Patterns.ParsePattern | crates/dictc-core/src/segmenter.rs:251-327 | the accumulator loop answers what the recursive parser answers, errors included |
| Patterns.ScanGroup | crates/dictc-core/src/segmenter.rs:290-308 | the group loop ends behind the closing bracket with the alternatives, or with the parser's error |
| Patterns.ParseInvertsPrint | crates/dictc-core/src/segmenter.rs:251-327 | parsing inverts printing of every normal pattern, with or without caret, except the lone unanchored star, which means every class |
| Patterns.PrintInvertsParse | crates/dictc-core/src/segmenter.rs:251-327 | every accepted text is the print of its pattern, which is normal |
| Boundaries.VerdictIsFirst | crates/dictc-core/src/segmenter.rs:147-230 | the reference verdict is that of the first rule matching both features |
| Boundaries.FusesIsVerdict | crates/dictc-core/src/segmenter.rs:147-230 | a pair is fused exactly when that first rule says there is no boundary |
| Boundaries.MatchSet | crates/dictc-core/src/segmenter.rs:162-179 | a pattern compiles to the set of classes it matches; a pattern that matches no class is refused |
| Boundaries.FusedRow | crates/dictc-core/src/segmenter.rs:193-221 | the word-parallel rule loop with its early exit fuses exactly the pairs the first matching rule fuses |
| Boundaries.BuildBoundaries | crates/dictc-core/src/segmenter.rs:147-230 | builds exactly when there are at most 65,535 classes and every rule is used; is_boundary then equals the rule verdict and padding bits are zero |
| Boundaries.TableMeans | crates/dictc-core/src/segmenter.rs:41-49 | cell by cell, the packed rows say what the rules say, for all class pairs in or out of range |
| Bits.OneBit | crates/dictc-core/src/lib.rs:1558-1560 | the word of two to the k has exactly bit k |
| Bits.Mask | crates/dictc-core/src/segmenter.rs:201-203 | the word of two to the k less one has exactly the bits below k |
| Bits.NonZero | crates/dictc-core/src/segmenter.rs:215-215 | a word is a nonzero number exactly when it has a bit, which is the test of the early exit |
| Bits.PackBits | crates/dictc-core/src/lib.rs:1552-1560 | every bit reads back from the packed bytes and the padding is zero |
| Trim.DedupExact | crates/dictc-core/src/lib.rs:229-242 | from sorted rows the loop keeps one row for each identity, the cheapest, in identity order |
| Trim.Sweep | crates/dictc-core/src/lib.rs:262-312 | the cap loop with its running sets and counters computes what each row is: kept or capped, within the row cap or not, first of its surface or not |
| Trim.MozcTrimmer.constructor | crates/dictc-core/src/lib.rs:168-187 | only a policy that passes the three checks makes a trimmer, which starts empty |
| Trim.MozcTrimmer.PushShard | crates/dictc-core/src/lib.rs:189-197 | pushing keeps exactly the affordable rows, in order, and counts all |
| Trim.MozcTrimmer.Finish | crates/dictc-core/src/lib.rs:208-316 | finishing yields the trim of everything pushed |
| Trim.RankedExact | crates/dictc-core/src/lib.rs:208-260 | the swept rows hold each identity once at its cheapest, ordered by reading and cost |
| Trim.TrimKeepsFirstSurfaces | crates/dictc-core/src/lib.rs:262-312 | kept are exactly the rows with one of the first `cap` surfaces of their reading, in order; evidence marks exactly those within the legacy row cap |
| Trim.TrimAccounts | crates/dictc-core/src/lib.rs:189-316 | cost-eligible rows are duplicates, output or capped, each counted once |
| Trim.TrimIgnoresShardOrder | crates/dictc-core/src/lib.rs:208-316 | the same rows in any order give the same rows but for annotation, source and line, the same evidence and the same report |
| Trim.ShardsCommute | crates/dictc-core/src/lib.rs:189-316 | two shards may arrive in either order |
| GlossaryPricing.TotalMonotone | crates/dictc-core/src/glossary.rs:741-753 | a total never falls as the cost rises, and a cost higher by the variant margin ranks at least 63 further back |
| GlossaryPricing.CheapestCostAtOrAbove | crates/dictc-core/src/glossary.rs:869-886 | the bisection finds the least cost whose total reaches the slot, or the ceiling |
| GlossaryPricing.YieldToUpstreamLeader | crates/dictc-core/src/glossary.rs:773-822 | the in-place pass as a function of the edges: when it acts, which edges it marks and lifts, and to what |
| GlossaryPricing.OrderVisitsAll | crates/dictc-core/src/glossary.rs:786-794 | the pass visits every edge once, by rising total |
| GlossaryPricing.YieldKeepsOwnerFirst | crates/dictc-core/src/glossary.rs:773-822 | after the pass every edge is at least the margin behind the owner if and only if every edge can be priced that far back |
| GlossaryPricing.YieldKeepsOrder | crates/dictc-core/src/glossary.rs:804-821 | with room above the owner the lifted edges take consecutive totals from the first slot, each at the least cost that gets there, and the others keep their price behind them |
| GlossaryPricing.PriceVariantsBehindTheirTerm | crates/dictc-core/src/glossary.rs:837-863 | the collect-then-write pass as a function of the edges |
| GlossaryPricing.AliasStaysBehindTerm | crates/dictc-core/src/glossary.rs:837-863 | a repriced alias takes its unchanged term's classes and ranks behind it, by at least 63 below the ceiling |
| GlossaryPricing.BothPassesKeepOwnerFirst | crates/dictc-core/src/glossary.rs:773-863 | after both passes the owner leads every edge by the margin exactly when the yield pass alone gives it that lead over the edges the alias pass leaves alone; if the repriced aliases can be priced that far back, exactly when every edge can |
| GlossaryPricing.CeilingStopsMargin | crates/dictc-core/src/glossary.rs:869-886 | an owner dear enough is never led by the margin: the ceiling stops it |
| Inflection.AddRowKeepsCatalog | crates/dictc-core/src/inflection.rs:101-119 | every id the catalog finds for a class is that class |
| Inflection.ResolvedForm | crates/dictc-core/src/inflection.rs:1447-1456 | a resolved class is one of the forms asked for |
| Inflection.CollectSiblings | crates/dictc-core/src/inflection.rs:1010-1043 | the map of native siblings by reading, built from the map of native rows |
| Inflection.ExpandInflections | crates/dictc-core/src/inflection.rs:866-997 | the nested loops compute the expansion and its report |
| Inflection.ExpansionIsNew | crates/dictc-core/src/inflection.rs:866-997 | emitted pairs are not native, never repeat, and each stems from a lemma's form at that form's price and class |
| Inflection.FreshIsEmitted | crates/dictc-core/src/inflection.rs:866-997 | the first job of a pair that is no native row is emitted whenever its class resolves |
| Inflection.FloorHolds | crates/dictc-core/src/inflection.rs:928-949 | whatever job a row comes from, it never costs less than a native sibling whose lemma is at least as common, and costs more if and only if that sibling is below the highest cost |
| Inflection.CeilingIsShared | crates/dictc-core/src/inflection.rs:928-946 | whatever the tables, next to a native sibling at the highest cost every such form of a lemma no more common is emitted at that same cost |
| Inflection.FloorStopsAtCeiling | crates/dictc-core/src/inflection.rs:928-946 | an instance with one verb pair, whatever other forms the tables yield |
| Inflection.ExpansionIsFixpoint | crates/dictc-core/src/inflection.rs:866-997 | expanding the lemmas together with their own expansion emits nothing |
| InflectionDetails.ParentExact | crates/dictc-core/src/inflection.rs:240-260 | the parent of a pair is unmapped, unique or ambiguous exactly as no, one or several lemma identities generate it |
| InflectionDetails.GeneratedPairsDiffer | crates/dictc-core/src/inflection.rs:229-239 | an overlay that matches the generator never repeats a pair, so that error cannot occur |
| InflectionDetails.InheritDetails | crates/dictc-core/src/inflection.rs:209-324 | the loops over maps compute the inherited details, the report and the errors in the code's order |
| InflectionDetails.InheritanceAccounts | crates/dictc-core/src/inflection.rs:274-323 | on success nothing is unmapped and the seven outcomes add up to the generated rows |
| InflectionDetails.EmittedExactly | crates/dictc-core/src/inflection.rs:279-322 | a detail is emitted exactly where one lemma identity alone generates the pair, the row reached the final lexicon unchanged and has no detail, and the lemma is there with one; the text is that lemma's own |
| InflectionDetails.ReturnedExactly | crates/dictc-core/src/inflection.rs:279-322 | a detail is in the returned list if and only if some generated row receives it from the one word it may inherit from |
| BoundaryPolicy.MarkNonInitial | crates/dictc-core/src/category.rs:711-758 | collecting identities and standalone readings and then marking in place, as a function of the rows, with the count of rows marked |
| BoundaryPolicy.RescuedRowsLeaveClassification | crates/dictc-core/src/category.rs:437-458 | rows without legacy evidence leave the classification of all earlier rows alone if and only if every row of which they make a continuative form was a fragment already |
| BoundaryPolicy.RescuedRowCanHide | crates/dictc-core/src/category.rs:437-458 | one rescued row hides any continuative form that is no suffix and had no unvoiced sibling, whatever its evidence |
| BoundaryPolicy.RescuedHariHidesBari | crates/dictc-core/src/category.rs:437-458 | for example the row for one verb stem, hidden by its rescued unvoiced reading |
| PolicyPass.CoverCheck | crates/dictc-core/src/category.rs:470-505 | the set comparison decides whether the policy rules on exactly the blocked pairs |
| PolicyPass.LexiconRows.ApplyPolicy | crates/dictc-core/src/category.rs:462-637 | the pass succeeds exactly for a covering policy whose boundary preferences find the free 1851/1851 identity; then blocked pairs are exactly the retained ones, allowed is released plus generated, remaining is raw minus released, identities stay distinct and every row survives with its costs and ids; on failure rows differ in released flags only |
| PolicyPass.LexiconRows.MarkWithPolicy | crates/dictc-core/src/category.rs:462-637 | classifier and review together: the error cases, and on success the outcome of the review for the rows as classified |
| PolicyPass.LoopSucceeds | crates/dictc-core/src/category.rs:512-581 | plain approvals never fail; the only errors of the loop are the two about boundary preferences |
| PolicyPass.PassHolds | crates/dictc-core/src/category.rs:512-637 | what a completed decision loop leaves behind after sorting |
| PolicyPass.ApprovedAvailable | crates/dictc-core/src/category.rs:602-616 | the final availability check never fires |
| BatchPlans.NamesAreDistinct | crates/dictc-core/src/llm_detail_targets.rs:430-503 | no two batches share a file name |
| BatchPlans.ManagedNames | crates/dictc-core/src/llm_detail_targets.rs:723-727 | batch names are recognized as managed exactly below one million batches |
| BatchPlans.ChunksKeepAll | crates/dictc-core/src/llm_detail_targets.rs:430-503 | splitting into batches loses and reorders nothing |
| BatchPlans.PlannedMeans | crates/dictc-core/src/llm_detail_targets.rs:430-503 | the planned files are exactly the rendered batches under their names |
| BatchCommit.VerifyBatches | crates/dictc-core/src/llm_detail_targets.rs:507-608 | the loop accepts exactly when every listed batch matches the manifest and no target hash repeats, and returns the targets in order |
| BatchCommit.LoadCommitted | crates/dictc-core/src/llm_detail_targets.rs:613-660 | loading succeeds exactly on a consistent directory and yields the listed targets in order |
| BatchCommit.Directory.WriteBatches | crates/dictc-core/src/llm_detail_targets.rs:430-503 | whatever the number of writes before a crash, the result is a lawful attempt; enough writes commit a resumable plan; a committed directory accepts only the identical manifest |
| BatchCommit.NothingIsOverwritten | crates/dictc-core/src/llm_detail_targets.rs:430-503 | over every run of any plans and crashes no file is overwritten or removed |
| BatchRuns.CommitVerifies | crates/dictc-core/src/llm_detail_targets.rs:507-660 | a completed well-formed invocation verifies and loads exactly its targets in order, unless a foreign seven-digit batch stood in the way |
| BatchRuns.CommitVerifiesExactly | crates/dictc-core/src/llm_detail_targets.rs:507-660 | success means a consistent directory if and only if no foreign file has the name of a planned batch that is not recognized as managed |
| BatchRuns.OverflowBreaksCommit | crates/dictc-core/src/llm_detail_targets.rs:662-691 | with a million batches such a file is accepted, kept, and breaks the committed directory |
| BatchRuns.SmallPlansVerify | crates/dictc-core/src/llm_detail_targets.rs:430-660 | below a million batches every commit verifies |
| BatchRuns.ManifestIsCommitMarker | crates/dictc-core/src/llm_detail_targets.rs:430-660 | over every history that starts without a manifest, a directory with one serves exactly the targets of one completed invocation and is never changed again |
| BatchRuns.RetryCompletes | crates/dictc-core/src/llm_detail_targets.rs:430-503 | however often a plan crashes the directory stays resumable, and completing it gives what an uninterrupted run gives |
| JsonScan.ReadString | crates/dictc-core/src/llm_details.rs:1463-1483 | the cursor loop consumes and decodes what the functional scanner does |
| JsonScan.ReadValue | crates/dictc-core/src/llm_details.rs:1391-1409 | the mutually recursive cursor code agrees with the functional scanner on every input, errors included, and terminates |
| JsonScan.ReadObject | crates/dictc-core/src/llm_details.rs:1411-1440 | the member loop with its key set agrees with the functional scanner |
| JsonScan.ReadArray | crates/dictc-core/src/llm_details.rs:1442-1461 | the element loop agrees with the functional scanner |
| JsonScan.RejectDuplicateKeys | crates/dictc-core/src/llm_details.rs:1379-1389 | the whole check agrees with the functional scanner on every input |
| JsonKeys.TextIsConsumed | crates/dictc-core/src/llm_details.rs:1463-1483 | a printed string is consumed exactly and decoded as a whole |
| JsonKeys.ValueIsScanned | crates/dictc-core/src/llm_details.rs:1391-1461 | at every nesting depth a printed value is consumed exactly when no object in it repeats a decoded name, and is otherwise reported as a duplicate |
| JsonKeys.DocumentIsJudged | crates/dictc-core/src/llm_details.rs:1379-1389 | a printed document is accepted if and only if no object of it repeats a decoded name; the duplicate is the only complaint |
| DatasetKeys.PartsInjective | crates/dictc-core/src/context_dataset.rs:1025-1031 | length framing is injective on lists of arbitrary byte strings |
| DatasetKeys.ExactMeansNear | crates/dictc-core/src/context_dataset.rs:888-925 | under an injective digest equal exact keys mean equal near keys |
| Dataset.RemoveDuplicates | crates/dictc-core/src/context_dataset.rs:285-312 | sorting by sample id and the loop over both maps compute the tally; accepted records stay in that order and never share an exact or near key, and every input is accepted, exact or near, counted once |
| Dataset.LoopIsClean | crates/dictc-core/src/context_dataset.rs:294-312 | the loop invariant over any prefix of any input |
| Dataset.DropsAreRepresented | crates/dictc-core/src/context_dataset.rs:294-312 | every dropped record shares a key with an accepted one |
| Dataset.AcceptedShareNoEarlierKey | crates/dictc-core/src/context_dataset.rs:292-312 | accepted are exactly the records that share no key with an earlier one |
| Dataset.FindLeak | crates/dictc-core/src/context_dataset.rs:484-494 | the three-set sweep finds a leak exactly when two records share an id or a key |
| Dataset.AuditReselects | crates/dictc-core/src/context_dataset.rs:927-944 | selecting again as many records as were selected selects the same ones |
| Dataset.StoredPool | crates/dictc-core/src/context_dataset.rs:927-944 | audit pool and gate do not depend on reading the records back split by split |
| Dataset.BuiltDatasetVerifies | crates/dictc-core/src/context_dataset.rs:254-536 | a dataset built from valid inputs verifies if and only if, in the order by sample id, of any two records with one id at least one shares a key with an earlier record, and otherwise verification reports the leak |
| Dataset.DistinctIdsVerify | crates/dictc-core/src/context_dataset.rs:254-536 | inputs with distinct sample ids always verify |
| Dataset.SharedIdFails | crates/dictc-core/src/context_dataset.rs:484-494 | two records with one sample id and different short contexts fail |
| Utf8.Cut | crates/sakura-context-research/src/context_intelligence.rs:268-277 | cutting a well-formed text gives two well-formed texts exactly at character boundaries |
| ContextFrames.Validate | crates/sakura-context-proto/src/lib.rs:174-216 | the checks in the code's order and with its errors |
| ContextFrames.SnapshotChecked | crates/sakura-context-proto/src/lib.rs:174-216 | validate accepts exactly the snapshots in scope, identified, within bounds and with distinct nonzero candidate ids |
| ContextCodec.RequestBijection | crates/sakura-context-proto/src/lib.rs:316-405 | a frame decodes to a snapshot exactly when the snapshot encodes to it |
| ContextCodec.RequestEncodes | crates/sakura-context-proto/src/lib.rs:316-338 | encoding fails exactly on invalid snapshots, with validate's error, and no frame exceeds 18,078 bytes |
| ContextCodec.FrameExact | crates/sakura-context-proto/src/lib.rs:608-632 | opening and finishing a frame are inverse |
| ContextCodec.CorrelationReads | crates/sakura-context-proto/src/lib.rs:532-541 | a written correlation reads back |
| ContextCodec.CorrelationInverts | crates/sakura-context-proto/src/lib.rs:696-707 | what a correlation is read from is how it is written |
| ContextCodec.ResponseRoundTrip | crates/sakura-context-proto/src/lib.rs:407-487 | encoded responses decode to themselves; a decoded response encodes back to its frame if and only if its ids and fingerprints are present, and is otherwise refused as an invariant violation |
| ContextCodec.EveryResponseHasAFrame | crates/sakura-context-proto/src/lib.rs:443-487 | every in-bounds response, identified or not, has a frame that decodes to it |
| ContextCodec.AnonymousResponseDecodes | crates/sakura-context-proto/src/lib.rs:407-487 | some frame decodes to a response that encode_response refuses |
| ContextReader.Reader.Bytes | crates/sakura-context-proto/src/lib.rs:657-662 | a read takes the next bytes and moves the cursor past them, or reports truncation |
| ContextReader.Reader.ReadCandidates | crates/sakura-context-proto/src/lib.rs:363-382 | the candidate loop reads what the parser reads, with its errors |
| ContextReader.DecodeRequestFrame | crates/sakura-context-proto/src/lib.rs:340-405 | the cursor code decodes what the parser decodes, errors included |
| ContextReader.DecodeResponseFrame | crates/sakura-context-proto/src/lib.rs:443-487 | the cursor code decodes what the parser decodes, errors included |
| ContextReader.EncodeRequestFrame | crates/sakura-context-proto/src/lib.rs:316-338 | pushing the parts onto the payload writes the specified frame |
| ContextReader.EncodeResponseFrame | crates/sakura-context-proto/src/lib.rs:407-441 | pushing the parts onto the payload writes the specified frame |
| ContextScores.ValidateAgainst | crates/sakura-context-proto/src/lib.rs:258-313 | the loop with its searches and counts answers the checks in the code's order |
| ContextScores.AcceptanceMeans | crates/sakura-context-proto/src/lib.rs:258-313 | a Ready response is accepted exactly when it answers this valid snapshot, its ids are a permutation of the candidate ids, residuals are within 1,024 and protected residuals are zero; an Unavailable one exactly when it scores nothing |
| ContextScores.AcceptedEncodes | crates/sakura-context-proto/src/lib.rs:407-441 | every accepted response can be sent |
| ContextTail.TailIsLongest | crates/sakura-context-research/src/context_intelligence.rs:268-277 | the kept suffix is the longest one on a character boundary within the budget |
| ContextTail.AppendKeepsTail | crates/sakura-context-research/src/context_intelligence.rs:247-266 | what the append leaves, given the tail of the text so far, is the tail of the longer text |
| SessionContext.FixedStr.PushStr | crates/sakura-values/src/fixed.rs:86-95 | a push appends all of a text or nothing |
| SessionContext.Utf8Suffix | crates/sakura-context-research/src/context_intelligence.rs:268-277 | the boundary loop yields the longest fitting suffix |
| SessionContext.AppendUtf8Tail | crates/sakura-context-research/src/context_intelligence.rs:247-266 | the three cases of the append, and truncated exactly when bytes are dropped |
| SessionContext.OnlySinceLastClear | crates/sakura-context-research/src/context_intelligence.rs:219-225 | whatever came before a clear is forgotten: text and count are those of the commits accepted since |
| SessionContext.TestsLeaveNoTrace | crates/sakura-context-research/src/context_intelligence.rs:181-212 | test-only commits leave no trace in any run |
| SessionContext.SessionSemanticContext.AppendDefinitiveCommit | crates/sakura-context-research/src/context_intelligence.rs:181-212 | the bounded fields stay what the whole history determines; test-only commits change no field, foreign scopes clear, and truncation is reported exactly when bytes are dropped |
| SessionContext.SessionSemanticContext.ObserveScope | crates/sakura-context-research/src/context_intelligence.rs:162-173 | only a classified normal scope retains text; the reason tells unclassified from sensitive |
| SessionContext.SessionSemanticContext.Clear | crates/sakura-context-research/src/context_intelligence.rs:219-225 | clearing empties tail and count and advances both generations |
| SessionContext.Replay | crates/sakura-context-research/src/context_intelligence.rs:111-225 | over every run the tail is the longest fitting suffix of all text committed since the last clear, the count is min(8, commits), and the sentence generation never exceeds the context generation |
| Baseline.ResidualBounds | crates/sakura-context-research/src/context_baseline.rs:133-153 | residuals only promote, by at most 904, and protected candidates get none |
| Baseline.MoveForward | crates/sakura-context-research/src/context_baseline.rs:122-128 | the swap loop puts the last row in its place and keeps the rows |
| Baseline.RankLocalBaseline | crates/sakura-context-research/src/context_baseline.rs:93-131 | the in-place insertion sort yields the ranking, and fails exactly on more than 32 or repeated candidates |
| Baseline.RankingRows | crates/sakura-context-research/src/context_baseline.rs:93-131 | the ranking holds each candidate once, with its own row |
| Baseline.ProtectedLead | crates/sakura-context-research/src/context_baseline.rs:53-63 | protected candidates lead in the order offered whatever the signals say; the others follow by cost and then by that order |
| Snapshots.Build | crates/sakura-context-research/src/prediction_snapshot.rs:109-184 | the checks and the loop that fills the candidate arrays, in the code's order and with its errors; every built snapshot has at most 32 candidates under distinct ids |
| Snapshots.AdmitsFirstOccurrences | crates/sakura-context-research/src/prediction_snapshot.rs:134-170 | the kept candidates are exactly the first occurrences, in offered order, under distinct nonzero ids |
| Replay.ValidateObservation | crates/sakura-context-research/src/context_evaluation.rs:240-290 | the checks, with the collected protected ids, in the code's order and with its errors |
| Replay.ObservationAccepted | crates/sakura-context-research/src/context_evaluation.rs:240-290 | accepted are exactly the rankings of distinct snapshot candidates that begin with the protected ones in snapshot order |
| Replay.ProtectedChecksMeanPrefix | crates/sakura-context-research/src/context_evaluation.rs:256-287 | the four protected checks together say that the protected ids are a prefix |
| Replay.BaselineIsAccepted | crates/sakura-context-research/src/context_baseline.rs:93-131 | the baseline ranking of a built snapshot is always a valid observation of it |
| Replay.EvaluateReplay | crates/sakura-context-research/src/context_evaluation.rs:143-238 | over every replay top 1 <= top 3 <= top 9 <= oracle 32, the sources account for all top-9 hits and all oracle-32 opportunities, and no numerator exceeds its denominator |
| Replay.StepConsistent | crates/sakura-context-research/src/context_evaluation.rs:149-236 | one observation keeps every relation between the counters |
| Calendar.DayNumberOrders | crates/sakura-core/src/calendar.rs:231-239 | the closed-form day number orders dates as cmp_ymd does, and no two dates share one |
| Calendar.SuccessorIsNextDay | crates/sakura-core/src/calendar.rs:176-185 | stepping forward is one day later and fails on the last day only |
| Calendar.PredecessorIsPreviousDay | crates/sakura-core/src/calendar.rs:187-197 | stepping back is one day earlier and fails on the first day only |
| Calendar.StepsUndo | crates/sakura-core/src/calendar.rs:176-197 | the two steps undo each other |
| Calendar.AddDays | crates/sakura-core/src/calendar.rs:156-174 | succeeds exactly when the day number plus n stays in years 1 to 9999, and lands on it |
| Calendar.WeekdayOfDayNumber | crates/sakura-core/src/calendar.rs:199-217 | the Sakamoto formula is the day number modulo seven |
| Calendar.WeekdaysAdvance | crates/sakura-core/src/calendar.rs:199-217 | weekdays advance with the days |
| DateText.FindEra | crates/sakura-core/src/calendar.rs:219-229 | the table loop finds the era the specification names |
| DateText.EraIsLatestBegun | crates/sakura-core/src/calendar.rs:219-229 | a date has an era exactly from 25 January 1868 on, the latest one begun, with years from one |
| DateText.WritingInjective | crates/sakura-core/src/calendar.rs:306-351 | no two dates and no two forms are ever written alike |
| DateText.WrittenWhereSupported | crates/sakura-core/src/calendar.rs:270-290 | a form is written exactly for the dates it supports |
| Decimal.WriteNumber | crates/sakura-core/src/calendar.rs:357-371 | the digit loop writes the numeral, zero-padded to at most ten digits |
| Decimal.DigitsValue | crates/sakura-core/src/calendar.rs:357-371 | a numeral reads back as its number and wastes no digit |

## Left out

- Reading and writing real files, SHA-256, FNV and serde: files are a map from names to bytes, hashes and decoders are
  parameters; a file is written whole or not at all.
- Error texts, and the error kinds of `verify_committed_batches`: only success and its result are modelled there.
- BatchCommit.Directory.WriteBatches: planned files are created in an arbitrary order, which covers the map order of the
  code; the order is not fixed to it.
- `merge_entries`, `encode_details`, the annotation tables and the TSV reader and writer of the image compiler.
- The version 1 image layout, the table directory of an image, and predictive search.
- Dictionary.Compile: beyond 4,294,967,295 entries, where entry numbers may overflow, only that success implies the other
  limits is stated; the matrix, detail, boundary and single-kanji tables are written apart from it.
- Dictionary.Search: readings are compared by code points, the order of their UTF-8 bytes.
- Parsing of the POS taxonomy, the segmenter rule file and the boundary policy file; the glossary JSON parser, readings
  and `katakana_surface`.
- GlossaryPricing.YieldToUpstreamLeader: report lines and the choice of the reading's owner are not modelled.
- Inflection.ExpandInflections: the conjugation tables and `replace_mora_ending` are a parameter, so which spellings a
  verb yields is not modelled.
- `inherit_native_inflection_details`: the same accounting over native rows.
- PolicyPass.LexiconRows.ApplyPolicy: the report's pair counts other than allowed and retained are not modelled.
- Category classification, address layers and the other flag passes of `category.rs`.
- `select_targets`, `promote_drafts` and the text validators of the detail pipeline.
- Dataset.BuiltDatasetVerifies: manifest constants, artifact hashes and file names are not modelled; each record's own
  checks are one predicate.
- SessionContext.Replay: the sentence-end test is a parameter and the fingerprint is left out.
- Replay.EvaluateReplay: reciprocal ranks and nDCG are floating point and left out; counters are unbounded.
- DateText.WritingInjective: the sink never overflows.
- The widths of counters that saturate in the code (trim, inflection and classifier reports) are not modelled.
- `sakura-ai-proto`, `sakura-ai-worker`, installation, `context_corpus.rs`, `wordnet.rs` and
  `context_rerank_import.rs`.
