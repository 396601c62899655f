# Verified models of the stel pipeline

stel turns documents into warehouse tables: it renders and chunks text, ranks search results, derives
content-addressed identities, runs a graph of models, and keeps publication state in step with what
was published. This project models the algorithms and protocols those promises rest on and proves
them in Dafny 4.11 for every input, every run and every interleaving. `dafny verify dfyconfig.toml`
checks everything.

Code that changes state or loops in the source is a class or a method here, proved against a
specification function; the properties are then lemmas about that function. Code made of expressions
and recursion is functions and lemmas. The `...Laws` files and `CanonicalForm.dfy` say what those
functions mean in terms that do not use them: which chunks, which order, which bytes.

| file | what it models |
|---|---|
| `Chunking.dfy`, `ChunkLaws.dfy` | the recursive splitter with overlap, section attribution, token windows |
| `Metrics.dfy`, `MetricLaws.dfy`, `Search.dfy`, `SearchLaws.dfy` | recall, precision, hit rate, MRR, NDCG; ranking tables and reciprocal-rank fusion |
| `Utf8.dfy`, `Json.dfy`, `Fingerprint.dfy`, `CanonicalForm.dfy` | the byte stream behind canonical fingerprints |
| `Graph.dfy`, `Dag.dfy`, `Build.dfy` | the project graph, selection, generations, the build loop and the batch runner |
| `Base64.dfy`, `StateStore.dfy`, `StateTable.dfy`, `TableRead.dfy`, `Paging.dfy`, `Reconcile.dfy`, `Replace.dfy` | publication state: the table's rows, keyed reads of a relation, cursors and paging, reconciliation, fenced replacement |
| `Html.dfy`, `HtmlLaws.dfy` | the structured HTML renderer and its character offsets |
| `Temporal.dfy` | bitemporal validation and queries as of two instants |
| `Budget.dfy` | execution budgets under concurrent workers |
| `Migration.dfy` | the resumable rename migration |
| `Arithmetic.dfy`, `Text.dfy`, `Sorting.dfy` | division, Python string operations, `sorted` and lists without repetitions |

## What the proofs found

- The configuration docstring promises that with `in_text_metadata` "a chunk never exceeds the size"
  (`src/stel/config/model.py:330-332`); `docs/reference.md:1519-1521` admits that overlap merging can.
  For the recursive strategy the promise holds for all texts if and only if the overlap is 0
  (`WithinSizeIffNoOverlap`); the exact bound for a positive overlap is `size + 2 * overlap - 1`, kept
  by every text (`ChunksFaithful`) and reached by some, for every size and every overlap below it
  (`LongestChunk`).
- NDCG@k stays within 1 for all grades if and only if the first k ids are distinct
  (`NdcgBoundedIffDistinct`): a repeated id is counted twice against an ideal that counts it once.
  Search results are distinct, so they meet the condition (`ExecuteQuery`). Recall and precision count
  the same hits under the corresponding condition on the relevant ids (`RecallMeetsPrecision`).
- NDCG@k of distinct ids is 1 if and only if nothing helps: no exchange of two of them, no judged id
  in place of one of them, and none behind them where they are fewer than k (`PerfectIff`).
- The order of the hashed and paged keys is the same whether characters or UTF-8 bytes are compared, so
  the reader's comparison of Python strings agrees with a warehouse that compares bytes (`BytesInOrder`).
- In fusion, second place in two rankings beats first place in one; rank 62 in two is the tie, which
  the ids decide (`Tradeoff`).
- BigQuery enforces no key, so a state table may hold several rows under one. Paging through the stale
  keys then succeeds if and only if the page size is in range, the probed relation is there, every key
  that ends a full page has at most 6117 UTF-8 bytes, only such page-ending keys have several rows,
  and the first row of every key is well formed (`OpenStatePageReader`, `Drive`, `PassesIff`,
  `CursorFitsIff`). A second row of a page-ending key is skipped without a complaint, inside a page it
  is an error (`TwoRowsOfOneKey`); a key of 6118 characters fails where it ends a page
  (`LongBoundaryKeyFails`). A run that succeeds has yielded every stale key exactly once, on any table
  (`FetchedKeys`). With one well-formed row per key only the length of page-ending keys is left
  (`KeyedTablePasses`).
- Reconciliation reads its relation through a snapshot that refuses a NULL or repeated key before the
  first batch (`KeyDomainIff`, `ReadBatches`). This check makes publication idempotent: in whatever
  order the rows come, the next unforced pass over the unchanged relation succeeds with nothing to
  write and nothing to delete (`ReconcileScope`, `SecondPassIsIdle`). Without it, that would hold if
  and only if no key carried two fingerprints (`SecondPassIdleIff`, `KeyCheckIsNeeded`). A pass that
  was cut off anywhere, by a lost lease or a store that did not acknowledge, can be run again
  (`CutOffResumes`).
- A fenced replacement makes the scope exactly the staged records if and only if the target table did
  not already hold two rows under one staged key: the MERGE updates both (`ReplacementIsExact`,
  `TwoRowsBothUpdated`).
- The run's budget total never leads the sum of its models' totals, and equals it in a column exactly
  when every worker between its two charges has a response that used nothing in that column
  (`UsageConserved`); with one call in between, the run's total does lag (`TotalsDisagreeMidCharge`).
  The bounds on how far usage passes its caps are exact: calls and tokens reach them and cost comes as
  near as one likes, for every number of workers, every response and every batch (up to the cap on
  calls) (`CapsHold`, `CallBoundIsReached`, `TokenBoundIsReached`, `CostBoundIsApproached`).
- The legacy-table guard opens during a migration as soon as the fixed tables have landed, which the
  plan puts first, also while failure tables are still to be renamed (`GuardOpens`).

## Model

| member | source | states |
|---|---|---|
| Chunking.Choose | src/stel/chunking.py:178-188 | the separator taken is the first of the hierarchy that occurs in the text, the empty one always |
| Chunking.Recurse | src/stel/chunking.py:175-209 | the recursive splitter returns exactly the pieces of the specification, at every level |
| Chunking.HardCut | src/stel/chunking.py:190-192 | the hard cut takes `chunk_size` characters at a time |
| Chunking.RecurseParts | src/stel/chunking.py:194-209 | segments get their separator back, short ones are kept, long ones go to the finer separators |
| Chunking.PiecesTile | src/stel/chunking.py:175-209 | pieces are non-empty, at most `chunk_size` long, and concatenate to the text |
| Chunking.Nearest | src/stel/chunking.py:298-298 | `min` by distance: no candidate is closer to the requested cut |
| Chunking.CandidatesIn | src/stel/chunking.py:288-292 | the `find` loop collects the specified candidates |
| Chunking.CandidatesInBand | src/stel/chunking.py:280-292 | candidates are exactly the positions just after an occurrence inside the band, overlapping ones included |
| Chunking.SnapTo | src/stel/chunking.py:283-298 | the loop over separators computes the specified cut |
| Chunking.SnapFromMeaning | src/stel/chunking.py:283-301 | the cut lies after the highest-priority separator with any boundary in the band, closest to the target, the earlier of two as close; a plain slice exactly when there is none |
| Chunking.SnapBounds | src/stel/chunking.py:280-301 | a snapped cut keeps less than twice the overlap and at least half of it less the separator |
| Chunking.OverlapTail | src/stel/chunking.py:254-301 | the carried tail is the specified one on every branch |
| Chunking.TailBounds | src/stel/chunking.py:254-301 | the tail is a suffix of its chunk of at most `2 * overlap - 1` characters, empty without overlap |
| Chunking.TailSnapped | src/stel/chunking.py:276-301 | a tail of another length than asked starts at a boundary and is at least `max(1, overlap // 2) + 1 - len(separator)` long |
| Chunking.MergeWithOverlap | src/stel/chunking.py:212-241 | the packing loop with `current`, `current_start` and `position` computes the specified chunks |
| Chunking.PackStep | src/stel/chunking.py:227-239 | one split keeps the invariant: the open chunk is the source text between its start and the position, and everything before is covered |
| Chunking.CloseChunk | src/stel/chunking.py:244-251 | appending the stripped chunk with the shifted offset keeps slices exact, coverage, and ascending starts |
| Chunking.PackAllInv | src/stel/chunking.py:227-241 | the invariant holds after any list of splits |
| Chunking.SplitRecursive | src/stel/chunking.py:161-172 | splitting and merging composed |
| Chunking.ChunksFaithful | src/stel/chunking.py:161-251 | every chunk is an exact slice of the source at its offset, every non-blank character is in some chunk, no chunk exceeds `size + 2 * overlap - 1`, starts never decrease |
| Chunking.OverlapOverruns | src/stel/chunking.py:190-234 | a long word makes a chunk of `size + overlap` characters, for every positive overlap |
| Chunking.LongestChunk | src/stel/chunking.py:161-301 | the bound is exact: for every size and every overlap below it some text has a chunk of that length |
| Chunking.WithinSizeIffNoOverlap | src/stel/config/model.py:323-332 | "a chunk never exceeds the size" holds for all texts if and only if the overlap is 0 |
| Chunking.BisectRight | src/stel/chunking.py:153-153 | the insertion point: offsets before it are at most the start, those from it on are greater |
| Chunking.SectionIsLastHeading | src/stel/chunking.py:141-154 | the section is the last heading at or before the start, none exactly when all come later |
| Chunking.SectionsMoveForward | src/stel/chunking.py:108-113 | along the chunks of any text, attribution never goes back to an earlier heading |
| Chunking.WindowCount | src/stel/chunking.py:318-326 | there are `ceil((n - chunk_size) / step) + 1` windows when n > chunk_size, one or none below |
| Chunking.WindowsShare | src/stel/chunking.py:318-326 | no window is empty and each consecutive pair shares exactly `overlap` tokens |
| Chunking.WindowsReassemble | src/stel/chunking.py:318-326 | the first window and every later one without its shared tokens concatenate to the token list |
| Chunking.SplitTokens | src/stel/chunking.py:313-327 | the range loop with its two breaks decodes and strips exactly those windows and drops the empty pieces |
| Chunking.SplitText | src/stel/chunking.py:74-113 | blank text, no room, overlap too large, and both strategies with indices and sections |
| ChunkLaws.PiecesMeaning | src/stel/chunking.py:175-209 | a text that fits is one piece; every cut divides a stretch that is too long, after an occurrence of the coarsest separator that divides it, and so do all its occurrences there; without any separator every `chunk_size` characters |
| ChunkLaws.PackingIsGreedy | src/stel/chunking.py:212-251 | the chunks are what stripping leaves of open texts, each a slice that starts one carried tail before the previous cut; a new one is opened only when the next piece no longer fits, and none grows past the size after its first piece |
| ChunkLaws.GreedyIsUnique | src/stel/chunking.py:212-251 | there is only one such list of open texts |
| ChunkLaws.TailMeaning | src/stel/chunking.py:254-301 | where the tail starts, with the band's numbers: the coarsest separator with a boundary there, the closest boundary, the earlier of two |
| ChunkLaws.NonEmptyKeeps | src/stel/chunking.py:327-327 | dropping empty pieces keeps the others in order |
| Metrics.DcgOf | src/stel/retrieval_metrics.py:75-81 | the accumulator loop sums the discounted grades of the first k ids |
| Metrics.NdcgAtK | src/stel/retrieval_metrics.py:66-87 | the ratio to the ideal order's gain, an error when that is 0 |
| Metrics.IdealOrder | src/stel/retrieval_metrics.py:83-83 | the ideal order lists every graded id once, by descending grade |
| Metrics.BestHead | src/stel/retrieval_metrics.py:83-84 | no distinct ids gain more than equally many at the head of the ideal order |
| Metrics.DiscountKeepsOrder | src/stel/retrieval_metrics.py:75-81 | when every head of one list gains at most the other's, so do the discounted sums, for any positive discount that never grows |
| Metrics.DcgAtMostIdeal | src/stel/retrieval_metrics.py:66-87 | rearrangement: distinct ids in any order gain between 0 and the ideal |
| Metrics.RepetitionBeatsIdeal | src/stel/retrieval_metrics.py:66-87 | for every ranking with a repetition some grades push NDCG above 1 |
| Metrics.NdcgBoundedIffDistinct | src/stel/retrieval_metrics.py:66-87 | NDCG@k is in [0, 1] for all grades if and only if the first k ids are distinct |
| Metrics.FirstHit | src/stel/retrieval_metrics.py:59-63 | the reported rank is that of the first relevant id, nothing above it is relevant |
| Metrics.MrrAtK | src/stel/retrieval_metrics.py:59-63 | the early-return loop gives the reciprocal of that rank, or 0 |
| Metrics.HitsDedup | src/stel/retrieval_metrics.py:38-52 | counting distinct hits never exceeds counting positions, and equals it exactly when no relevant id repeats |
| Metrics.RecallMeetsPrecision | src/stel/retrieval_metrics.py:38-52 | recall and precision count the same hits if and only if no relevant id repeats in the first k |
| Metrics.MetricsAgreeOnMiss | src/stel/retrieval_metrics.py:38-63 | hit rate is 1 exactly when recall, precision and MRR are positive |
| MetricLaws.TopIs | src/stel/retrieval_metrics.py:75-75 | `ids[:k]`: the first `k`, or all but the last `-k` |
| MetricLaws.SingleGain | src/stel/retrieval_metrics.py:73-81 | a judged id alone gains its grade times the first discount, an unjudged one nothing |
| MetricLaws.ExchangeGain | src/stel/retrieval_metrics.py:73-81 | exchanging two ids changes DCG by the difference of their grades times that of their discounts |
| MetricLaws.PerfectIff | src/stel/retrieval_metrics.py:66-87 | under a falling discount NDCG@k of distinct ids is 1 if and only if no exchange, no replacement and no addition of a judged id would help |
| MetricLaws.SharesAre | src/stel/retrieval_metrics.py:38-52 | recall counts the relevant ids among the first `k`, precision the places that hold one; the exact errors |
| Search.RankTable | src/stel/search.py:735-767 | fails exactly on an invalid id; otherwise each id once, in order of first appearance, with the columns and the raw score of its first row |
| Search.FirstScore | src/stel/search.py:744-754 | the raw score is the first score column with a finite number, under its name without the underscore |
| Search.Fuse | src/stel/search.py:792-801 | after all rankings every id has the sum of its contributions, its merged values and its rank per ranking |
| Search.SortedIds | src/stel/search.py:803-803 | the fused ids, each once, by descending score and then by id |
| Search.Rrf | src/stel/search.py:784-814 | a fusion: each id of the union once, rightly scored, with its merged values and ranks, in order; empty rankings are ignored |
| Search.ScoreRange | src/stel/search.py:795-802 | a sum of contributions is at most the maximum, positive exactly when listed, and the maximum exactly when first everywhere |
| Search.FusedScoreRange | src/stel/search.py:802-808 | the score is in (0, 1] and is 1 exactly for the id that heads every non-empty ranking |
| Search.RanksMeaning | src/stel/search.py:801-811 | contributing ranks are exactly the id's ranks in the rankings that list it |
| Search.ValuesMeaning | src/stel/search.py:795-800 | of an id's rows, that of the last ranking by name which has a column decides its value |
| Search.ColumnsOf | src/stel/search.py:795-800 | a fused row has exactly the columns of the id's rows |
| Search.RawScoreIs | src/stel/search.py:744-754 | distance before score before relevance score, by name |
| Search.PayloadIs | src/stel/search.py:758-762 | a row's values are all its columns but those three |
| Search.DominatorPrecedes | src/stel/search.py:795-803 | an id ranked at least as well everywhere and better somewhere always precedes the other |
| Search.FusionMeaning | src/stel/search.py:795-808 | in a fusion scores are in (0, 1], 1 exactly for an id that heads every non-empty ranking, and a dominating id comes first |
| Search.RankVector | src/stel/search.py:692-704 | each id of the table once, in order of first appearance, scored by the reciprocal rank |
| Search.RankText | src/stel/search.py:706-726 | one such ranking per text field, fused unless there is only one; fails exactly on an invalid id |
| Search.ExecuteQuery | src/stel/search.py:677-732 | in every mode, each id of the consulted tables once, in the order and with the scores of the mode, or a failure exactly on an invalid id; NDCG on the result is within [0, 1] for all grades |
| Search.HybridMeaning | src/stel/search.py:728-732 | a hybrid result ranks the ids of the vector table and of the text result: scores in (0, 1], dominating ids first |
| SearchLaws.NamedIff | src/stel/search.py:739-741 | a usable id is a non-empty text in the id column |
| SearchLaws.SingleRows | src/stel/search.py:770-781 | the row at place `i` scores `1 / (i + 1)`, reports that rank and carries a row of the table with its id |
| SearchLaws.FieldRankings | src/stel/search.py:706-726 | a field's ranking is named `text:` and the field, and lists the ids of its own table |
| SearchLaws.FusedScoreIs | src/stel/search.py:784-808 | a row's score is the sum of `1 / (60 + rank)` over the rankings that list it, relative to `n / 61` |
| SearchLaws.OrderOfRows | src/stel/search.py:803-803 | rows come in descending order of those sums, equal ones in ascending order of ids |
| SearchLaws.Tradeoff | src/stel/search.py:784-808 | an id at rank `r` in two rankings comes before one that heads a single ranking if and only if `r < 62`, at 62 the smaller id |
| Utf8.RoundTrip | src/stel/hashing.py:33-34 | encoding every scalar value and decoding gives the text back |
| Utf8.EncodeInjective | src/stel/hashing.py:33-34 | different texts have different bytes |
| Utf8.DecodeStrict | src/stel/adapters/base.py:349-352 | what decodes is the encoding of its text: overlong forms and surrogates are refused |
| Utf8.CharBytes | src/stel/hashing.py:33-34 | lead bytes, lengths and bits of section 3 of RFC 3629 |
| Utf8.BytesInOrder | src/stel/adapters/base.py:358-361 | the order of the bytes is the order of the code points |
| Sorting.StrLeIff | src/stel/adapters/base.py:358-361 | code-point order: a prefix comes first, otherwise the first difference decides |
| Sorting.DedupOrder | src/stel/search.py:739-743 | elements stay in the order of their first occurrence |
| Json.PrintCancel | src/stel/hashing.py:72-79 | text and whatever follows can both be read off: no printed value begins another |
| Json.PrintInjective | src/stel/hashing.py:72-79 | different lists, strings, booleans and bits print differently |
| Fingerprint.SetsIff | src/stel/hashing.py:120-123 | two sets' sorted items agree if and only if some rearrangement matches them |
| Fingerprint.EntriesIff | src/stel/hashing.py:104-107 | two mappings' sorted entries agree if and only if some rearrangement matches them |
| Fingerprint.CanonicalIffSame | src/stel/hashing.py:82-152 | canonical forms agree if and only if the values agree up to set and mapping order, kinds and type names included |
| Fingerprint.BigEndianRoundTrip | src/stel/hashing.py:68-68 | the 8-byte length can be read back |
| Fingerprint.FrameCancel | src/stel/hashing.py:65-69 | frame and rest can both be read off the stream |
| Fingerprint.StreamIffSame | src/stel/hashing.py:37-62 | the bytes hashed agree if and only if domain, version and value agree |
| Fingerprint.UpdateFrame | src/stel/hashing.py:65-69 | feeds the length and the bytes, or fails on a length that needs more than 8 bytes |
| Fingerprint.CanonicalFingerprint | src/stel/hashing.py:37-62 | the three argument checks in order, and otherwise a digest of exactly the specified stream |
| CanonicalForm.DecimalIsStr | src/stel/hashing.py:60-60 | numbers are plain digits without a leading zero, negative ones behind a minus |
| CanonicalForm.OneTextPerNumber | src/stel/hashing.py:60-60 | there is only one such text for a number |
| CanonicalForm.BareText | src/stel/hashing.py:72-79 | characters that need no escape stand for themselves |
| CanonicalForm.EscapesOfSpecials | src/stel/hashing.py:72-79 | the seven short escapes, and four hexadecimal digits for other control characters |
| CanonicalForm.PrintList | src/stel/hashing.py:72-79 | arrays are printed with commas and no white space |
| CanonicalForm.CanonicalJsonIs | src/stel/hashing.py:29-30 | the canonical JSON of every kind of value, written out: tags, type names, digits, and items and entries sorted by their text |
| CanonicalForm.SortedHolds | src/stel/hashing.py:106-122 | the entries of a mapping and the items of a set are ordered by their texts, none lost |
| CanonicalForm.BigEndianAt | src/stel/hashing.py:68-68 | the most significant byte of a length comes first |
| CanonicalForm.StreamIs | src/stel/hashing.py:57-61 | prefix, domain, version and value in this order, the last three behind their lengths |
| Graph.Bfs | src/stel/dag.py:60-70 | the work list visits exactly the transitive closure of the start |
| Graph.MirrorReaches | src/stel/dag.py:101-107 | reaching over successors is reaching back over predecessors |
| Graph.TopologicalReach | src/stel/dag.py:109-112 | in a topological order every ancestor comes earlier |
| Graph.TopologicalIsAcyclic | src/stel/dag.py:109-115 | a graph with a topological order has no cycle |
| Graph.StuckIsCyclic | src/stel/dag.py:109-115 | when no node is ready among those left, there is a cycle |
| Dag.TopologicalSorter.constructor | src/stel/dag.py:162-162 | a sorter starts with nothing handed out and nothing done |
| Dag.TopologicalSorter.Prepare | src/stel/dag.py:163-163 | preparing fails exactly on a cyclic graph |
| Dag.TopologicalSorter.GetReady | src/stel/dag.py:166-166 | hands out exactly the nodes whose predecessors are done and that were not handed out yet |
| Dag.TopologicalSorter.Done | src/stel/dag.py:168-169 | marks one handed-out node as done and changes nothing else |
| Dag.StaticOrder | src/stel/dag.py:109-115 | gives a topological order exactly when the graph has no cycle |
| Dag.BatchIsLongestChain | src/stel/dag.py:152-170 | a node's batch number is the length of the longest chain of edges within the names that ends at it |
| Dag.NoShorterSchedule | src/stel/dag.py:152-170 | no schedule of the same nodes has fewer batches |
| Dag.PlaceOf | src/stel/dag.py:166-166 | the sort key of a node is its place in the global order |
| Dag.InOrder | src/stel/dag.py:166-166 | a batch is its ready nodes in the global order |
| Dag.SubgraphAcyclic | src/stel/dag.py:159-163 | the edges within any names have no cycle, so preparing cannot fail |
| Dag.ParallelBatches | src/stel/dag.py:152-170 | the batches are the generations of the names, each in global order |
| Dag.MapsHold | src/stel/dag.py:79-99 | under distinct names every declaration's node and references are found under its name |
| Dag.ProjectDag.constructor | src/stel/dag.py:73-115 | a valid graph, or the error: duplicate name exactly when names repeat, an unknown reference, or a cycle |
| Dag.ProjectDag.AddNodes | src/stel/dag.py:79-99 | the loop over declarations fills the three maps, or stops at a duplicate |
| Dag.ProjectDag.Connect | src/stel/dag.py:101-107 | successors become exactly the reversed predecessors, or an unknown reference is reported |
| Dag.ProjectDag.Descendants | src/stel/dag.py:131-133 | everything reachable downstream |
| Dag.ProjectDag.RequiredSources | src/stel/dag.py:135-150 | exactly the source ancestors of the models, in graph order; fails exactly on an unknown name |
| Dag.ProjectDag.ExpandToken | src/stel/dag.py:215-252 | which nodes a selector token stands for, and which tokens are refused |
| Dag.ProjectDag.Apply | src/stel/dag.py:209-213 | the union over tokens, refused exactly when some token is |
| Dag.ProjectDag.SelectModels | src/stel/dag.py:172-207 | exactly the chosen models and search indexes, in topological order |
| Dag.NameSelects | src/stel/dag.py:181-189 | `name`, `+name` with ancestors, `name+` with descendants, `+name+` with both; accepted exactly when the name is known |
| Dag.FilteredInOrder | src/stel/dag.py:203-207 | the chosen names keep the global order |
| Dag.ChosenIs | src/stel/dag.py:172-207 | sources are never chosen; without selectors all models and search indexes are; an excluded name is not chosen even where it is selected |
| Dag.TagSelects | src/stel/dag.py:235-239 | `tag:x` stands for the nodes with that tag |
| Dag.ModifiedSelects | src/stel/dag.py:222-229 | `state:modified` stands for the modified nodes of the graph, and needs a previous manifest |
| Dag.Refusals | src/stel/dag.py:219-238 | empty names and tags and unknown states are refused |
| Build.RunSelected | src/stel/runner.py:410-466 | each selected model is skipped exactly when a model above it ran and failed, and otherwise runs once; tests run for those without errors |
| Build.FilteredDownward | src/stel/dag.py:202-207 | a filtered topological order never puts a descendant first |
| Build.BuildProject | src/stel/runner.py:344-466 | selection and the build loop composed: refused exactly when a selector is; otherwise the chosen models, distinct and in topological order, each run once or skipped once |
| Build.DecidedOnce | src/stel/runner.py:410-466 | each selected model ran once or was skipped once, and nothing else did |
| Build.NoRunBelowFailure | src/stel/runner.py:410-466 | nothing runs below a model that raised, ran with errors or, search models apart, failed its tests hard, also through unselected nodes; nothing is skipped without one of these; tests run exactly after runs without errors |
| Build.StepKeepsInv | src/stel/runner.py:480-489 | every step of the threads keeps the runner's invariant |
| Build.RunKeepsInv | src/stel/runner.py:480-489 | the invariant holds in every state of every run |
| Build.StartsAfterDependencies | src/stel/runner.py:469-490 | in any interleaving a model starts once, after its direct selected dependencies finished |
| Build.CompleteRunFinishes | src/stel/runner.py:469-490 | a run past its last batch has finished every model |
| Build.RunnerProgresses | src/stel/runner.py:469-490 | until then some step is always possible |
| Base64.Base64RoundTrip | src/stel/adapters/base.py:333-350 | the URL-safe alphabet of section 5 of RFC 4648 decodes to what was encoded |
| Base64.EncodedLength | src/stel/adapters/base.py:333-333 | four letters for every three bytes begun |
| Base64.AlphabetIs | src/stel/adapters/base.py:333-333 | the 64 letters by their code points |
| Base64.GroupBits | src/stel/adapters/base.py:333-333 | three bytes and their four letters make up the same 24 bits |
| Base64.EncodeGroups | src/stel/adapters/base.py:333-333 | whole groups of three bytes stand side by side |
| Base64.PaddedEnds | src/stel/adapters/base.py:333-333 | one or two bytes at the end are filled with zero bits and padded |
| StateStore.Ascending | src/stel/adapters/base.py:358-361 | the one strictly ascending list of a set of keys |
| StateStore.AscendingAfter | src/stel/adapters/bigquery.py:3291-3309 | the keys after a page's last key are the rest of the list |
| StateTable.MergeValues | src/stel/adapters/bigquery.py:3429-3460 | a MERGE gives every row of a matched key the source's value, inserts one row for a key without any, deletes what a replacement leaves unmatched, and keeps other scopes as they were, in order |
| StateTable.DeleteValues | src/stel/adapters/bigquery.py:3204-3220 | a DELETE removes all rows of the named keys in the scope and no others |
| StateTable.RowMergeIsMapMerge | src/stel/adapters/bigquery.py:3049-3195 | on a table with one row per key the MERGE on rows is the MERGE on a map, and the table stays keyed |
| StateTable.RowDeleteIsMapDelete | src/stel/adapters/bigquery.py:3204-3220 | and so is the DELETE |
| TableRead.KeyDomainIff | src/stel/adapters/bigquery.py:1318-1328 | the two counts are zero if and only if every row has a key and no key has two rows |
| TableRead.ReadBatches | src/stel/adapters/bigquery.py:1364-1403 | refused before the first batch exactly on a batch size out of range or an invalid key domain; otherwise the delivered rows in slices |
| TableRead.SlicesAreFull | src/stel/adapters/bigquery.py:1400-1401 | every batch of a page but the last is of the size asked for |
| TableRead.BatchesCarryRelation | src/stel/adapters/base.py:1232-1236 | in whatever order the rows are delivered, the batches hold the relation's records, every key once |
| Paging.CursorRoundTrip | src/stel/adapters/base.py:331-352 | a reader gets its key back from its cursor and refuses every other reader's |
| Paging.CursorFitsIff | src/stel/adapters/base.py:324-336 | a cursor can be built if and only if the key has at most 6117 UTF-8 bytes |
| Paging.LongKeyDoesNotFit | src/stel/adapters/base.py:324-336 | a key of 6118 one-byte characters is one too long |
| Paging.Warehouse.Interfere | src/stel/adapters/bigquery.py:3255-3259 | anything may be written between pages; past snapshots stay |
| Paging.OpenStatePageReader | src/stel/adapters/bigquery.py:3254-3287 | a reader pinned to the snapshot at its opening; refused exactly on a page size out of range or a probe relation or column that is not there |
| Paging.AnswerHolds | src/stel/adapters/bigquery.py:3289-3309 | what a reader has to show: sorted, its keys those of the scope absent upstream, and under each as many rows as the table has |
| Paging.AnswerBeyond | src/stel/adapters/bigquery.py:3291-3309 | the query after a key continues the whole answer behind all rows of that key |
| Paging.StatePageReader.FetchPage | src/stel/adapters/base.py:383-398 | a page and its cursor; refused exactly when closed, on a bad cursor, on a malformed record, on keys that do not strictly ascend, or when the next cursor does not fit |
| Paging.PageStream.Pull | src/stel/state_reconciliation.py:84-113 | one `next()` of the generator: a page that was let through, the end of a run that passes, or the failure that shows it does not; the checks across pages never fail |
| Paging.FetchCount | src/stel/adapters/bigquery.py:3329-3333 | a full last page costs one more fetch: `n // page_size + 1` in all |
| Paging.FetchedKeys | src/stel/state_reconciliation.py:84-113 | on any table, a run that succeeds yields every stale key exactly once, ascending, in that many fetches |
| Paging.PassesIff | src/stel/adapters/base.py:383-398 | a run over any rows succeeds if and only if page-ending keys fit a cursor, only they have several rows, and first rows are well formed |
| Paging.KeyedTablePasses | src/stel/adapters/bigquery.py:3289-3333 | with one well-formed row per key it succeeds if and only if page-ending keys fit a cursor |
| Paging.TwoRowsOfOneKey | src/stel/adapters/base.py:391-397 | two rows of one key: the second is skipped across a page boundary, an error inside a page |
| Paging.LongBoundaryKeyFails | src/stel/adapters/base.py:331-336 | a well-formed row with a key of 6118 characters fails where it ends a page, and not before |
| Paging.EmptyFieldFails | src/stel/adapters/bigquery.py:3317-3325 | a row without a key, a fingerprint or a code version is refused |
| Paging.BoundariesFitMeaning | src/stel/adapters/base.py:324-336 | keys of at most 6117 bytes never trip paging |
| Paging.Drive | src/stel/state_reconciliation.py:84-113 | whatever the consumer and others write between pages, a run succeeds exactly when every page of the pinned snapshot is let through, and then yields the records of all pages |
| Reconcile.StateAdapter.ReadChunk | src/stel/adapters/bigquery.py:3231-3251 | one request takes in every row it returns; a second row under a key or a malformed one is an error |
| Reconcile.StateAdapter.FetchStateSubset | src/stel/adapters/bigquery.py:3224-3252 | batched lookups answer as one lookup would; refused exactly on empty, repeated or too many keys, and on a key with several rows or a malformed one |
| Reconcile.StateAdapter.DeleteState | src/stel/adapters/bigquery.py:3204-3220 | batched deletes remove exactly the rows of the keys in the scope |
| Reconcile.StateAdapter.MergeState | src/stel/adapters/bigquery.py:3049-3195 | inline and staged merges have the same effect |
| Reconcile.StateAdapter.UpsertState | src/stel/adapters/bigquery.py:3039-3043 | updates and inserts the records, or refuses repeated keys and changes nothing |
| Reconcile.StateAdapter.ReplaceState | src/stel/adapters/bigquery.py:3045-3077 | the scope becomes the records, or repeated keys are refused and nothing changes |
| Reconcile.ClassifyBatch | src/stel/state_reconciliation.py:52-81 | new, changed and unchanged records, each list in batch order |
| Reconcile.ClassesAre | src/stel/state_reconciliation.py:52-81 | new without a row in the table, unchanged with the same fingerprint and code version unless forced, changed otherwise |
| Reconcile.MergeSnoc | src/stel/adapters/bigquery.py:3049-3195 | merging one record more is merging it afterwards, row for row |
| Reconcile.UpsertPublishes | src/stel/adapters/bigquery.py:3039-3043 | upserting a batch is publishing its records one after another |
| Reconcile.PendingPublishesBatch | src/stel/state_reconciliation.py:69-80 | leaving the unchanged records out makes no difference to the table |
| Reconcile.PublishBatches | src/stel/execution/search.py:155-260 | looking up, classifying and upserting batch by batch publishes a prefix of the batches; all of them exactly when each is valid, meets no unreadable key, and is granted if it has anything to write; no other scope is touched |
| Reconcile.DeleteStalePages | src/stel/execution/search.py:265-301 | each stale page, once granted, leaves the table before the next is fetched, which the pinned reader does not notice: in the end exactly the stale keys are gone; it fails exactly when a page is not let through or not granted |
| Reconcile.ReconcileBatches | src/stel/state_reconciliation.py:116-163 | publishing and deleting composed: exactly when it succeeds, the classes and the table after it, and where it stands if it is cut off |
| Reconcile.PublishableIff | src/stel/execution/search.py:155-179 | however the relation is delivered and cut up, its batches can be published if and only if every row can be stored and meets no unreadable key |
| Reconcile.ReconcileScope | src/stel/execution/search.py:108-301 | the whole pass: exactly when it succeeds; the scope is then in line with the relation, and the next unforced pass succeeds with nothing to do; refused before any change on an invalid key domain; no other scope is touched however it ends |
| Reconcile.CutOffResumes | src/stel/execution/search.py:244-260 | wherever a pass was cut off, what could be published before can be published again |
| Reconcile.PublishableIsSingle | src/stel/adapters/bigquery.py:3224-3252 | the lookups of a pass that publishes have seen at most one row per upstream key |
| Reconcile.PassConverges | src/stel/state_reconciliation.py:116-163 | afterwards the scope holds one row for each upstream key, with its last fingerprint, and no other row; other scopes are as they were |
| Reconcile.PassBringsInLine | src/stel/state_reconciliation.py:116-163 | every finished pass leaves the scope in line with its upstream |
| Reconcile.IdlePassIff | src/stel/state_reconciliation.py:52-81 | a pass has nothing to publish if and only if every upstream record agrees with the table |
| Reconcile.SecondPassIsIdle | src/stel/execution/search.py:108-301 | on a relation with a valid key domain, delivered in any order, a pass over a scope that is in line has nothing to write and nothing to delete |
| Reconcile.SecondPassIdleIff | src/stel/state_reconciliation.py:52-163 | for any batches, a second pass is idle if and only if no upstream key carries two fingerprints, and finds no stale key |
| Reconcile.KeyCheckIsNeeded | src/stel/adapters/bigquery.py:1374-1398 | one key in two batches with two fingerprints would pass the checks on each batch and make the next pass not idle; the key check refuses it |
| Replace.Dataset.RunMerge | src/stel/adapters/bigquery.py:3379-3484 | succeeds exactly when the fence holds and staged keys are unique; otherwise the table is unchanged and the error names a failed condition |
| Replace.Dataset.ReplaceStateScope | src/stel/adapters/bigquery.py:3340-3377 | all or nothing over streamed batches, with the error cases and the staging table always dropped |
| Replace.FenceIs | src/stel/adapters/bigquery.py:3391-3408 | a fence holds when exactly one ledger row names the scope, the publication and its token |
| Replace.MergeReplacesScope | src/stel/adapters/bigquery.py:3413-3460 | a successful MERGE keeps other scopes as they were, and makes the scope exactly the staged records if and only if no staged key had two rows |
| Replace.TwoRowsBothUpdated | src/stel/adapters/bigquery.py:3429-3460 | two target rows under one staged key: the MERGE succeeds and leaves both |
| Replace.SentinelGuardsEmptyStaging | src/stel/adapters/bigquery.py:3425-3427 | without the sentinel an empty staging set would empty the scope under a lost fence; with it the statement fails |
| Replace.ReplacementIsExact | src/stel/adapters/base.py:1565-1578 | the same for the whole replacement of a scope |
| Text.WhiteSpaceIs | src/stel/backends/html_backend.py:318-318 | white space is Python's 29 characters, written out |
| Html.NormalizedIsLine | src/stel/backends/html_backend.py:318-318 | normalized text is one line without white space at its ends, or empty exactly without words |
| Html.NormalizedKeepsWords | src/stel/backends/html_backend.py:318-318 | normalizing keeps the words |
| Html.Renderer.Emit | src/stel/backends/html_backend.py:300-304 | appends to the text; `length` stays the total of `parts` |
| Html.Renderer.Newline | src/stel/backends/html_backend.py:306-308 | brings the text to a fresh line, adding at most one newline |
| Html.Renderer.EmitHeading | src/stel/backends/html_backend.py:282-298 | a non-empty heading is recorded and written on lines of its own, an empty one only breaks the line |
| Html.Renderer.EmitTable | src/stel/backends/html_backend.py:339-360 | the table entry and its rendered rows on lines of their own |
| Html.Renderer.EmitText | src/stel/backends/html_backend.py:317-323 | normalized text, parted by a space where the text does not already end in white space |
| Html.Renderer.Walk | src/stel/backends/html_backend.py:310-367 | the recursive walk turns any document into the rendered one, for every kind of node |
| Html.HeadingKeepsSound | src/stel/backends/html_backend.py:282-298 | recording a heading keeps all offsets pointing at their text |
| Html.TableKeepsSound | src/stel/backends/html_backend.py:339-360 | recording a table does |
| Html.RenderedIsSound | src/stel/backends/html_backend.py:310-367 | walking any node does |
| Html.OffsetsIndexText | src/stel/backends/html_backend.py:265-370 | for any tree the stripped text at each offset is the heading or the non-empty table's rows, on lines of their own; section offsets strictly increase; no line is blank |
| Html.TableTextWords | src/stel/backends/html_backend.py:341-358 | a rendered table holds the words of its non-empty rows, cells parted by bars |
| Html.RenderKeepsContents | src/stel/backends/html_backend.py:310-370 | sections, tables and the words of the text are exactly those of the tree, in document order |
| Html.RenderStructured | src/stel/backends/html_backend.py:265-370 | the renderer returns that text with those sections and tables |
| HtmlLaws.KindIs | src/stel/backends/html_backend.py:326-339 | silent elements and tables by their names |
| HtmlLaws.HeadingKindIs | src/stel/backends/html_backend.py:335-337 | h1 to h6 are headings of levels 1 to 6 |
| HtmlLaws.BlockKindIs | src/stel/backends/html_backend.py:362-367 | the block elements by their names |
| HtmlLaws.MappedKindIs | src/stel/backends/html_backend.py:326-339 | an entry of the heading map makes any element a heading, silent ones excepted |
| HtmlLaws.StandsAlone | src/stel/backends/html_backend.py:306-308 | headings, tables and block elements begin on a fresh line and leave one behind |
| HtmlLaws.AllInlineStay | src/stel/backends/html_backend.py:317-323 | text and inline elements stay on their line |
| HtmlLaws.AllRenderedSettle | src/stel/backends/html_backend.py:310-367 | the text of a tree without tables has exactly one space or newline between any two words |
| HtmlLaws.TableTextIs | src/stel/backends/html_backend.py:358-358 | rows are lines, cells are parted by bars |
| HtmlLaws.AllRenderedAreShaped | src/stel/backends/html_backend.py:349-357 | every table entry has its matrix's rows and its widest row's columns |
| Temporal.OverlapUnlessEndsBefore | src/stel/agent_context.py:997-1005 | two non-empty half-open intervals share an instant unless the earlier one ended |
| Temporal.ChainedIffApart | src/stel/agent_context.py:1216-1228 | on a list sorted by start, comparing neighbours finds an overlap if and only if there is one |
| Temporal.GroupByDocument | src/stel/agent_context.py:1212-1214 | each document's rows in row order, documents by first appearance |
| Temporal.FirstOverlap | src/stel/agent_context.py:1217-1228 | the scan accepts exactly chained lists and otherwise names an offender |
| Temporal.ValidateVersions | src/stel/agent_context.py:1211-1228 | accepts if and only if no two rows of one document overlap, otherwise names a row that does |
| Temporal.ValidateRegistry | src/stel/agent_context.py:1198-1228 | accepts if and only if every row is well formed and no document has two versions at once; otherwise the first bad row or an overlapping one |
| Temporal.ActiveAsOf | src/stel/agent_context.py:1008-1043 | the active rows sorted by ids; fails exactly on a known validity without a start |
| Temporal.OneVersionAsOf | src/stel/agent_context.py:1008-1043 | on an accepted registry the query returns exactly the active rows, never two versions of one document |
| Temporal.OpenEndedIsLatest | src/stel/agent_context.py:1221-1228 | every other version of the document ended before an open-ended one began |
| Temporal.IntervalIs | src/stel/agent_context.py:997-1005 | intervals are half-open |
| Temporal.TemporalRowIs | src/stel/agent_context.py:1187-1205 | a row is well formed exactly when it was recorded at some instant and its known validity has a start and an end after it, an unknown one neither |
| Temporal.ActiveIs | src/stel/agent_context.py:1008-1043 | active: recorded and not superseded at the one instant, valid at the other or, if asked for, of unknown validity |
| Temporal.ResultAscends | src/stel/agent_context.py:1033-1043 | on an accepted registry the documents of a result strictly ascend |
| Budget.BudgetLedger.EnsureHeadroom | src/stel/budget.py:110-139 | passes exactly when the next calls fit and no measured cap is used up; reported first are calls, then input, output and cost |
| Budget.HeadroomIs | src/stel/budget.py:110-139 | calls may come up to their cap, tokens and cost must be below theirs |
| Budget.ChargedIs | src/stel/budget.py:141-157 | negative and non-finite figures are charged as nothing, others as they are |
| Budget.BudgetGuard.constructor | src/stel/budget.py:178-188 | the ledgers that exist, the model's before the run's |
| Budget.BudgetGuard.EnsureHeadroom | src/stel/budget.py:206-208 | passes exactly when every ledger has room |
| Budget.BudgetGuard.ChargeUsage | src/stel/budget.py:210-224 | charges every ledger the same |
| Budget.BudgetGuard.ChargeDocuments | src/stel/budget.py:194-196 | charges up to and including the first ledger that complains, none after it |
| Budget.ViewStepKeeps | src/stel/budget.py:110-157 | every gate, charge or failure of a worker keeps a ledger's bound even if all owed responses are charged in full |
| Budget.RunViewSteps | src/stel/budget.py:206-224 | every lock-granular step of a worker is a gate, a charge, a failure or nothing to the run's ledger |
| Budget.ModelViewSteps | src/stel/budget.py:206-224 | and to each model's ledger |
| Budget.CapsHold | src/stel/budget.py:110-157 | in every interleaving calls pass a cap by at most the largest bill of every worker's batch less one batch, so with one call per response by one batch of each other worker; tokens and cost by less than one batch of largest responses of each worker |
| Budget.UsageConserved | src/stel/budget.py:171-224 | in every interleaving the models' usage is the run's plus what is charged to a model only; they agree in a column if and only if every worker between its two charges used nothing there |
| Budget.CallBoundIsReached | src/stel/budget.py:110-157 | the bound on calls is reached by some interleaving, for every cap, number of workers, bill, and batch up to the cap |
| Budget.TokenBoundIsReached | src/stel/budget.py:110-157 | so is the bound on input and on output tokens: one below the cap and a full round of responses |
| Budget.CostBoundIsApproached | src/stel/budget.py:110-157 | cost reaches every figure below the cap and a full round of responses |
| Budget.TotalsDisagreeMidCharge | src/stel/budget.py:210-224 | between a worker's two charges the run's total lags behind, in every setting |
| Migration.PlanNameMigration | src/stel/adapters/migration.py:40-80 | the two loops give the specified plan: all renames in order, or the conflicts |
| Migration.SpellingsApart | src/stel/adapters/base.py:164-196 | no legacy name is a current one, and each name determines its rename |
| Migration.SpelledIs | src/stel/adapters/base.py:164-196 | the three fixed renames and the prefix of failure tables, by name |
| Migration.PlanInOrder | src/stel/adapters/migration.py:40-80 | a plan has the fixed tables first, in their order, then the failure tables by name |
| Migration.PlanLosesHead | src/stel/adapters/migration.py:83-106 | after the first rename, planning again gives the rest in order |
| Migration.MigrationResumes | src/stel/adapters/migration.py:40-106 | after any number of renames planning gives exactly the remaining ones, and each table's rows are under exactly one name |
| Migration.NothingPlannedIff | src/stel/adapters/migration.py:43-48 | the plan is empty if and only if no legacy name is left |
| Migration.GuardOpens | src/stel/adapters/base.py:1009-1026 | during a migration the guard refuses exactly until the fixed tables have landed |
| Migration.MigrationCompletes | src/stel/adapters/migration.py:83-106 | at the end all rows are under exactly one name, no legacy name remains, the plan is empty, the guard passes |
| Migration.Schema.RenameTable | src/stel/adapters/migration.py:97-98 | one atomic rename that may fail and then changes nothing |
| Migration.Schema.ApplyNameMigration | src/stel/adapters/migration.py:83-106 | of any list, the longest prefix that can land does; of a fresh plan only an outage stops it, no row is lost, and a new plan carries on from what landed |

## Left out

- Chunking.SplitText: heading offsets come sorted from a regular expression, the reserved size from measuring the metadata block, and tokens and their decoding from tiktoken; these are inputs.
- Chunking.SplitTokens: decoding a window is an arbitrary function, so what stripping and dropping does to the decoded text is not related to the source text.
- Metrics.NdcgAtK: scores are reals, and `1 / log2(i + 1)` is any positive sequence that never grows; floating-point rounding is not modelled.
- Search.ExecuteQuery: the stores' answers are inputs; request checks, leases and the projection of a row's values onto declared fields are not modelled.
- Fingerprint.CanonicalIffSame: ISO and POSIX texts, a float's eight bytes, type names, model dumps and the conversion of special values are inputs; values that cannot be fingerprinted and Python's limit on converting very long integers to text are not modelled.
- Fingerprint.CanonicalFingerprint: BLAKE2b is not modelled; the result is what it is fed.
- Json.PrintInjective: covers the lists, strings, booleans and the numbers 0 and 1 that canonical values consist of; lone surrogates cannot be encoded in UTF-8 and are not characters of the model.
- Base64.Base64RoundTrip: Python's decoder also skips foreign letters; the model's refuses them, which concerns only cursors that no reader issued.
- Dag.StaticOrder: graphlib's order among ready nodes is left open, and its search for the cycle to report is replaced by the fact that one exists.
- Dag.ProjectDag.ExpandToken: tokens come split; parsing `ref(...)` and test specifications is an input.
- Build.BuildProject: running a model and its tests is an arbitrary outcome per model; discovery, validation, refused `dbt_ref` models, capability checks, refused full refreshes and budget exhaustion outside it are not modelled.
- Paging.StatePageReader.FetchPage: the SQL text is modelled by its meaning on a snapshot, `last_run_at` and warehouse failures are not modelled; rows of one key come in table order, which stands for any order the warehouse chooses.
- Reconcile.DeleteStalePages: the lease check and the store's receipt of a page are one grant, given or not; what the store itself holds is not modelled, nor the receipts' contents.
- Reconcile.PublishBatches: the same of the lease, the governed revocation and the upsert receipt of a batch; which row contents cannot be published is an input.
- Reconcile.ReconcileScope: the final check that the relation did not change while it was read, and configuration checks before the pass, are not modelled; nobody else writes the scope during a pass.
- Reconcile.StateAdapter.MergeState: Parquet loads, query parameters and `last_run_at` are not modelled.
- Replace.Dataset.RunMerge: which error surfaces when both gate conditions fail is left open, as the warehouse leaves it; row order within the table has no meaning in the warehouse.
- Html.RenderStructured: BeautifulSoup's tree, gathered text, cell lookup and anchors are inputs, and so is the heading map; an empty table's offset may lie past the stripped text and is not claimed to index it.
- Temporal.ValidateRegistry: instants are integers; identity, policy, freshness and citation rules of a row are not modelled.
- Budget.CapsHold: how many calls, tokens and dollars one response is billed as at most is a parameter; the code sets no bound of its own.
- Budget.UsageConserved: every model has its own ledger here, and a worker is not interrupted between its two charges. Costs are reals.
- Migration.Schema.ApplyNameMigration: BigQuery's rename by copy and delete is one atomic step; any failure of a rename other than a missing source or a taken target is one outage.
- `evaluate_query`, `aggregate_metrics`, `check_file_bytes` and `charge_metrics`: they only assemble results of what is modelled.
- The DuckDB adapter, state clearing, schema guards and table listings.
- The command line, documentation site, progress reporting, configuration parsing, provider selection and compile rules.
