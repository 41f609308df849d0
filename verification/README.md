# PEBRA: verified models of the adapters and protocols around the scoring core

PEBRA scores a proposed code edit, remembers the assessment, gates edits against it, and applies approved
candidates. This project models the algorithms and protocols that decision rests on and proves what they promise:
for all inputs, all runs, and all interleavings where several processes are involved.

| part | modules |
|---|---|
| import graph: cycle search, blast walk, incremental cache | `Reachability`, `TarjanInvariant`, `ImportCycles`, `CycleSearch`, `Distance`, `BlastWalk`, `GraphUncertainty`, `ImportFacts`, `ParsedFile`, `Payload`, `ImportGraphCache`, `ImportGraphRuns` |
| symbol graph: reach, diff ranges, owners, fences | `CodeGraphReach`, `DiffRanges`, `DiffRoundTrip`, `GraphOwners`, `GraphFence` |
| the pre-edit gate and its wire contract | `HumanReview`, `Gate`, `GateConsult`, `GateHistory`, `GateTiers`, `GateContract` |
| applying a candidate | `CandidateBinding`, `Transaction`, `ReplayCache`, `ApplyProtocol` |
| the rename witness | `WitnessLexer`, `Witness`, `WitnessSound`, `WitnessComplete`, `WitnessCode`, `WitnessCollapse`, `WitnessRename`, `WitnessCuts`, `WitnessSpacing`, `WitnessMembers`, `WitnessJoins`, `WitnessLimits` |
| assessment and its end | `Refinement`, `Recommendation`, `Finalization` |
| shared | `Wrappers`, `Decimals` |

`dafny verify dfyconfig.toml` checks everything.

## How things are modelled

- Files of the repository are values of a one-field datatype around their path. Sorted orders that nothing depends
  on (files, edges, cycle files, rollback order within a set) are arbitrary orders.
- A SHA-256 digest is an injective constructor, or a function of which a lemma assumes that it tells apart what the two
  candidates it is about leave at the paths they share. Floats are reals.
- What a file yields is a function of its path, its content and the file set (`ImportFacts.Reading` makes it from a
  parser); the cache theorems hold for every such function.
- The Python parser, patch materialization, the spelling and identity of paths, the Unicode character classes, the
  graph provider and `git` are function parameters or values observed at a time; a lemma holds for every choice of
  them. What is assumed of the Unicode classes is `WitnessLexer.Sane`.
- A file operation may fail before or after taking effect. What becomes of it is a parameter: a schedule for all
  operations of a transaction, a fate for each operation of the replay cache. The theorems hold for every choice, and
  say for which choices an operation succeeds.
- Concurrency is a step relation over a shared state and one program counter per process (`ApplyProtocol.Step`,
  `Finalization.Step`); a run is any sequence of such steps, crashes included.
- SQL is modelled by its meaning: a recursive query is its least fixpoint (`CodeGraphReach.IsQueryResult`), an
  assessment query is the rows newest first.

## Results that differ from what one might expect

- `GateHistory.NoDecisionIff`: the exact condition under which the gate raises instead of deciding. The event or the
  graph cannot be read, what git says of HEAD is no text, or looking for the store raises, as it does in a directory
  that may not be searched; or, on an edit that is only checked for restrictions, a stored decision whose content is
  JSON but not an object, or nested deeper than the reader goes, is newer than every restriction at HEAD; or an edit
  that is put to the assessments meets content nested too deep among the rows considered, or goes by a rejection whose
  gate evidence holds an integer too large for a float. `UnsearchableStoreIsFatal`, `OversizeEvidenceIsFatal` and
  `DeepContentIsFatal` are such inputs. The hook then lets the edit pass in silence (`pebra/cli/gate_hook.py` swallows
  the exception; it is not part of this model).
- `GateHistory.ForcedEditOutlivesRestriction`: on an edit the graph calls impactful a newer restriction does not
  stick; an older approval of the same edit still allows it. `ForcedContinuesIff` gives the exact condition there,
  `RestrictionsStick` the one where restrictions are checked.
- `CodeGraphReach.ImpactAgreesAtZero`: with depth limit 0 the query still returns its base rows, so it agrees with the
  in-memory search exactly when the targets have no importer outside themselves. The code uses limit 3.
- `CodeGraphReach.OwnerComparableIff`: the value ranked for one owner of an edit leaves out what the whole edit
  targets, the distribution it is ranked in leaves out nothing, so the two are comparable exactly when nothing else
  that the edit targets is within the owner's reach. The value of a whole edit is a union over its roots
  (`EditImpactIsUnion`) and is an entry of the distribution only for an edit with one root.
- `WitnessRename.AcceptedIsRenameIff`: an accepted pair need not be a rename. Comments are dropped from the canonical
  form, so a comment without a newline may join a word to what follows (`WitnessJoins.CommentsCanJoinWords`), and a
  word that is the marker itself is taken for the binding (`MarkerIsMistaken`). If in one of the two sources neither is
  the case, the second is the first renamed, token by token, exactly when neither is the case in the other. For every
  accepted pair, such sources on both sides included, `WitnessCuts.AcceptedIsRenameIfLaidOutAlike` gives the condition:
  their code is cut into tokens of the same lengths, and the same tokens are the name. `JoinsOnBothSides` shows both
  outcomes. Whitespace is collapsed inside quoted text, too (`QuotedBlanksAreLost`); `AcceptedIsExactRenameIff` adds
  what it takes for quoted text to agree to the letter. The scanner's tokens are single characters outside words and
  quotes; for numbers and operators `WitnessSpacing.AcceptedIsSameTextIff` and, for every accepted pair,
  `AcceptedIsSameTextIfAsLong` give the condition on the text itself.
- `WitnessMembers.AcceptedTouchesNoMemberIff`: the witness looks for dots and colons in the text as it stands, so a
  comment hides them: `x./**/foo` is counted and renamed (`MembersHideBehindComments`). Acceptance means that no
  member or key is touched exactly when no comment stands between an occurrence and its dot or colon.
- `Witness.HasWordIff`: quoted text mentions the name where it stands between word boundaries, and a dollar sign is no
  word character; so a name that starts with one is not found where it stands alone in quotes (`DollarsAreMissed`).
- `DiffRoundTrip.UnifiedHunkReadIff`: a removed line that starts with `-- `, or an added line that starts with `++ `
  and is followed by removed lines, makes the parser lose lines, and nothing else does. The removed line also passes for
  the header of another file, so that the hunks after it are entered for that file (`RemovedLineRenames`).
  `UnifiedPatchReadIff` is the exact condition for whole diffs: every hunk of a file that was there before is entered
  right, and none but the last of its file makes another file current.
- `GraphFence.ReturningHeadIsMissed`: a HEAD that leaves and comes back during the sync goes unnoticed; if values
  never come back, `FencedIsConstant` rules that out.
- `Transaction.ReportIsLostIff`: after a failed swap, a failure to remove a staged file replaces the report, so
  targets that could not be restored go unnamed. `ReplaceTransaction` knows of every one of them, and a changed target
  goes unnamed exactly when the cleanup fails and not everything is as it was; `ReportCanBeLost` is such a run.
- `ReplayCache.Cache.Store`: storing again does not renew an entry, so a normal return means a usable entry unless the
  old one was stale and could not be reaped.

## Model

| member | source | states |
|---|---|---|
| `Reachability.ClosedWalkIffInCycle` | pebra/adapters/ast_import_graph.py:110-132 | without self-imports, lying on a closed walk and sharing a component with another file are the same, which is what makes the two cycle tests comparable |
| `TarjanInvariant.EnterKeepsInv` | pebra/adapters/import_graph_cache.py:138-142 | a first visit keeps the search invariant: numbers in stack order, low links reached and reported by open files, finished files closed under imports |
| `TarjanInvariant.LookKeepsInv` | pebra/adapters/import_graph_cache.py:145-155 | taking a low link from a successor on the stack keeps the invariant |
| `TarjanInvariant.LeaveInsideKeepsInv` | pebra/adapters/import_graph_cache.py:168-171 | finishing a file that is no root and handing its low link to its parent keeps the invariant |
| `TarjanInvariant.LeaveRootKeepsInv` | pebra/adapters/import_graph_cache.py:158-171 | popping a component keeps the invariant, and its files are cycle files exactly when there is more than one |
| `TarjanInvariant.ComponentIsScc` | pebra/adapters/import_graph_cache.py:158-167 | what is popped at a root is exactly one strongly connected component |
| `ImportCycles.PopComponent` | pebra/adapters/import_graph_cache.py:159-165 | the pop loop takes exactly the files from the root up, and unmarks exactly those |
| `ImportCycles.CycleFiles` | pebra/adapters/import_graph_cache.py:116-172 | the iterative search terminates and returns exactly the files that reach and are reached by another file, whatever the edge order |
| `CycleSearch.SearchFrom` | pebra/adapters/ast_import_graph.py:115-131 | one start: a cycle is found only if one lies ahead, otherwise the start and all it reaches are closed off as cycle-free |
| `CycleSearch.HasCycleFrom` | pebra/adapters/ast_import_graph.py:110-132 | true if and only if some start reaches a file on a closed walk, whatever order successors are tried in |
| `Distance.BallIsWalks` | pebra/adapters/ast_import_graph.py:69-90 | the files within n steps are exactly those a walk of at most n imports reaches |
| `Distance.HuntFinished` | pebra/adapters/ast_import_graph.py:69-90 | when the queue is empty the visited files are exactly those within the depth limit and each bucket counts the files at exactly that distance |
| `BlastWalk.Dependents` | pebra/adapters/ast_import_graph.py:69-90 | every file within three reverse imports is visited once and counted at its shortest distance; each recorded confidence is that of the first importer entry that discovers its dependent, from a file one step nearer |
| `BlastWalk.Statistics` | pebra/adapters/ast_import_graph.py:91-107 | the minimum is the least of the confidences, the mean their mean and no less; both are 0 when nothing depends |
| `BlastWalk.Walk` | pebra/adapters/ast_import_graph.py:69-107 | bucket d counts exactly the files at distance d; direct plus transitive is the number of dependents, each with the one confidence it is discovered with; the cycle flag is true iff a cycle lies ahead |
| `CodeGraphReach.QueryResult` | pebra/adapters/codegraph_adapter.py:1811-1845 | the recursive query has exactly one result: the rows of all ways within the limit |
| `CodeGraphReach.QueryReportsDistance` | pebra/adapters/codegraph_adapter.py:1800-1845 | grouping its rows by minimum depth reports exactly the shortest distances along edges that enter no blocked node, whatever is blocked, on cyclic graphs too |
| `CodeGraphReach.ImpactFromReverse` | pebra/adapters/codegraph_adapter.py:1873-1893 | the in-memory search counts exactly the nodes within the limit, each in the bucket of its distance |
| `CodeGraphReach.ImpactAgrees` | pebra/adapters/codegraph_adapter.py:1800-1893 | with the targets alone blocked, query and search report the same nodes and the same per-depth groups |
| `CodeGraphReach.ImpactAgreesAtZero` | pebra/adapters/codegraph_adapter.py:1811-1893 | at limit 0 they agree if and only if no node outside the targets points at one |
| `CodeGraphReach.ContainerTargets` | pebra/adapters/codegraph_adapter.py:1856-1871 | the containers found in memory are exactly the root and what contains it within 8 levels, each once, root first |
| `CodeGraphReach.ContainersAgree` | pebra/adapters/codegraph_adapter.py:1654-1677 | for any roots, they are the roots and the rows of the hierarchy query |
| `CodeGraphReach.ModifyImpactAgrees` | pebra/adapters/codegraph_adapter.py:1788-1893 | for an edit of any number of symbols, containers and reach composed give the same impact whether taken from queries or from memory |
| `CodeGraphReach.OwnerComparableIff` | pebra/adapters/codegraph_adapter.py:1378-1412 | the value ranked for one owner counts like its entry in the distribution if and only if nothing else the edit targets is within its reach |
| `CodeGraphReach.OwnersCoverEdit` | pebra/adapters/codegraph_adapter.py:1373-1389 | although each owner leaves out what the whole edit targets, the owners together reach exactly what the edit reaches |
| `CodeGraphReach.EditImpactIsUnion` | pebra/adapters/codegraph_adapter.py:1594-1596 | the impact of a whole edit is what any of its roots reaches and the edit does not target |
| `ImportFacts.TreeEdges` | pebra/adapters/_ast_utils.py:222-265 | every resolved import names a file of the file set |
| `ImportFacts.SplitJoin` | pebra/adapters/_ast_utils.py:94-105 | splitting a path at its slashes gives back the parts it was joined from |
| `ImportFacts.RelativeImportResolves` | pebra/adapters/_ast_utils.py:82-105 | a relative import climbs one package less than it has dots; below its module part each name is a module there or else the package itself, a wildcard the package; above the root nothing is found |
| `ImportFacts.AbsoluteImportResolves` | pebra/adapters/_ast_utils.py:222-265 | each name of an absolute import by itself: what it resolves to from the root, static if found or due in the repository, else external; a wildcard is its module |
| `ImportFacts.ResolveIff` | pebra/adapters/_ast_utils.py:82-91 | a module wins over a package, a package over a stub of the module, and that over a stub of the package |
| `ImportFacts.TopLevelNameIs` | pebra/adapters/_ast_utils.py:64-76 | a file goes by its first directory, or at the root by its stem |
| `ImportFacts.TreeEdgesAt` | pebra/adapters/_ast_utils.py:222-265 | every statement yields its imports, in order |
| `ParsedFile.ParseFile` | pebra/adapters/import_graph_cache.py:57-79 | one file's edges: resolved targets once, unresolved imports one by one, self-imports dropped |
| `ParsedFile.BestOfIsBest` | pebra/adapters/import_graph_cache.py:67-78 | each resolved target keeps a kind it is really imported as and that no other import of it outranks |
| `ParsedFile.BestKindIs` | pebra/adapters/import_graph_cache.py:67-78 | the kind kept is the first of static, relative and wildcard that occurs |
| `ParsedFile.UnresolvedAreKept` | pebra/adapters/import_graph_cache.py:71-74 | unresolved imports are kept one by one, as often as written, with kind and name |
| `Payload.Assemble` | pebra/adapters/import_graph_cache.py:175-211 | the metrics of a payload are what its edges say: degrees, scores, anchors, cycle files, totals |
| `Payload.TallyOrder` | pebra/adapters/import_graph_cache.py:180-200 | counts over edges depend on the edges as a multiset only |
| `Payload.DerivedOrder` | pebra/adapters/import_graph_cache.py:175-211 | two payloads with the same multiset of edges have the same metrics |
| `Payload.PercentileMeaning` | pebra/adapters/import_graph_cache.py:99-113 | a score is the share of files imported no more often, files without importers included |
| `Payload.ScoredIff` | pebra/adapters/import_graph_cache.py:99-113 | exactly the files imported at least three times get a score, and those no less imported than nine tenths of all files are anchors |
| `ImportGraphCache.ParseMany` | pebra/adapters/import_graph_cache.py:82-97 | parsing several files yields each file's edges with their multiplicities, in some order |
| `ImportGraphCache.BuildImportGraph` | pebra/adapters/import_graph_cache.py:214-261 | every branch of a build: unreadable, empty, first, file set changed, unmodified, and modified files parsed again beside carried edges |
| `ImportGraphCache.CarriedIsFull` | pebra/adapters/import_graph_cache.py:230-258 | carrying from a coherent cache yields the graph of the current files |
| `ImportGraphCache.BuildIsFull` | pebra/adapters/import_graph_cache.py:214-261 | a Fresh or Rebuilt build from a coherent cache is a graph of the current files, and coherent itself |
| `ImportGraphCache.GraphsAgree` | pebra/adapters/import_graph_cache.py:175-261 | all graphs of the same files are the same up to edge order, cycle files included |
| `ImportGraphRuns.Repository.GetImportGraph` | pebra/adapters/import_graph_cache.py:299-306 | loads, builds, and saves a first build or a rebuild; saving may fail |
| `ImportGraphRuns.CacheStaysCoherent` | pebra/adapters/import_graph_cache.py:214-306 | over every history of edits, reads, failed saves and lost caches, the stored cache is a graph of the files its own hashes describe |
| `ImportGraphRuns.IncrementalIsFull` | pebra/adapters/import_graph_cache.py:214-306 | over every history, a Fresh or Rebuilt payload is the one a build from scratch would return |
| `ImportGraphRuns.AskedAgainIsFresh` | pebra/adapters/import_graph_cache.py:299-306 | once a build is stored, asking again without an edit is answered from the cache, with the same graph |
| `ImportGraphRuns.FreshnessIff` | pebra/adapters/import_graph_cache.py:214-261 | stale only if reading failed, unknown only if there is nothing to read, fresh exactly if nothing was cached or nothing differs from it |
| `ImportGraphRuns.DeriveReverse` | pebra/adapters/import_graph_cache.py:326-332 | the reverse map lists the importers of each file, in edge order, with their confidence |
| `ImportGraphRuns.BlastOf` | pebra/adapters/ast_import_graph.py:45-66 | blast evidence for the changed files that exist, from one payload: counts, cycle and entrypoint flags, each confidence that of an import edge that leads one step nearer, and the doubt its graph leaves |
| `ImportGraphRuns.DoubtIsSettled` | pebra/adapters/ast_import_graph.py:135-183 | carried over or built from scratch, graphs of the same files leave an edit in the same doubt |
| `GraphUncertainty.NoDoubtIff` | pebra/adapters/ast_import_graph.py:144-179 | the score stays within its cap, and is zero exactly when every expected file is there and parses, its imports resolve, and no import anywhere can hide an importer, or when there is no graph |
| `GraphUncertainty.ScoreAddsUp` | pebra/adapters/ast_import_graph.py:144-179 | the score adds up each missing and each unparsed file and what every single import costs, more at a changed file than elsewhere, up to a quarter |
| `GraphUncertainty.ChargedOnce` | pebra/adapters/ast_import_graph.py:151-167 | an import that cannot be followed counts at a changed file or elsewhere, never for both |
| `GraphUncertainty.MoreImportsMoreDoubt` | pebra/adapters/ast_import_graph.py:144-179 | one more import never lowers the score, and one from outside the repository is free |
| `GraphUncertainty.DoubtIgnoresOrder` | pebra/adapters/ast_import_graph.py:135-183 | the doubt depends on the edges as a multiset only |
| `ImportGraphRuns.NoSelfEdges` | pebra/adapters/import_graph_cache.py:69-70 | a payload has no self-edges, and every resolved edge is an import its file really has |
| `ImportGraphRuns.ReadingStaysInside` | pebra/adapters/_ast_utils.py:189-203 | whatever the parser, what a file yields resolves inside the file set |
| `ImportGraphRuns.ConfidencesAre` | pebra/adapters/import_graph_cache.py:326-332 | a resolved edge is static, relative or a wildcard, trusted in this order, and only a wildcard counts as low |
| `ImportGraphRuns.CycleTestsAgree` | pebra/adapters/ast_import_graph.py:49-52 | the depth-first test finds a cycle ahead exactly when the changed files reach a file the component search listed |
| `ImportGraphRuns.ScoresRank` | pebra/adapters/import_graph_cache.py:99-113 | on a payload of the repository every score ranks its file among all files |
| `DiffRanges.ScanBody` | pebra/adapters/codegraph_adapter.py:102-117 | the body loop collects exactly the removed lines up to the end of the body |
| `DiffRanges.MergeContiguous` | pebra/adapters/codegraph_adapter.py:123-137 | ranges come sorted, disjoint and non-adjacent and cover exactly the given lines |
| `DiffRanges.RangesAreUnique` | pebra/adapters/codegraph_adapter.py:123-137 | such ranges are determined by the lines they cover |
| `DiffRanges.ParseOldSideRanges` | pebra/adapters/codegraph_adapter.py:73-120 | every file that a hunk contributes to gets separated ranges covering exactly its contributions |
| `DiffRoundTrip.HeaderIsRead` | pebra/adapters/codegraph_adapter.py:70-70 | a written hunk header is read back with its old start line |
| `DiffRoundTrip.HunkReadIff` | pebra/adapters/codegraph_adapter.py:102-117 | for any line syntax, a hunk's removed lines are read right if and only if none is removed from the first colliding line on |
| `DiffRoundTrip.UnifiedHunkReadIff` | pebra/adapters/codegraph_adapter.py:101-117 | the same for the prefixes the parser uses |
| `DiffRoundTrip.PatchIsReadAs` | pebra/adapters/codegraph_adapter.py:86-120 | what is entered for every patch whose headers are found: bodies up to their first colliding line, for whatever file a line before passes for the header of |
| `DiffRoundTrip.PatchIsRightIff` | pebra/adapters/codegraph_adapter.py:86-120 | that is what the patch touches if and only if every hunk is entered right and none but the last of its file names another |
| `DiffRoundTrip.UnifiedPatchReadIff` | pebra/adapters/codegraph_adapter.py:73-120 | the exact condition under which a written diff is read right, for every diff with its headers in place |
| `DiffRoundTrip.RemovedLineRenames` | pebra/adapters/codegraph_adapter.py:93-117 | a removed line `-- a/q` ends its hunk, is lost, and hands the next hunk to `q`, for all files and hunks |
| `DiffRoundTrip.PatchIsRead` | pebra/adapters/codegraph_adapter.py:86-120 | files and hunks are told apart, new files contribute nothing, a pure insertion contributes its start |
| `DiffRoundTrip.RoundTrip` | pebra/adapters/codegraph_adapter.py:73-120 | reading a written diff yields exactly what it touches |
| `DiffRoundTrip.RangesOfPatch` | pebra/adapters/codegraph_adapter.py:73-137 | the reported ranges cover exactly the old lines the diff removes, per old path |
| `GraphOwners.OwnersAt` | pebra/adapters/codegraph_adapter.py:1112-1135 | exactly the overlapping owners inside which no other lies strictly |
| `GraphOwners.OverlapsIff` | pebra/adapters/codegraph_adapter.py:1112-1135 | overlapping is having a line in common |
| `GraphOwners.StrictlyIff` | pebra/adapters/codegraph_adapter.py:1112-1135 | lying strictly inside is having fewer lines and none of one's own |
| `GraphOwners.OwnerHasTightest` | pebra/adapters/codegraph_adapter.py:1112-1135 | every overlapping owner contains one that is returned |
| `GraphFence.TryOnce` | pebra/adapters/codegraph_adapter.py:263-374 | one attempt, with the exact condition for each of its ends: held by equal readings of HEAD and configuration around both statuses, moved, stale after the sync, or unavailable |
| `GraphFence.PrepareDefault` | pebra/adapters/codegraph_adapter.py:251-374 | none, one or two attempts, the second exactly when the fences of the first moved; available exactly when the last one succeeded, fenced in it, stale exactly when it found the index outdated or moved again; a healthy repository is available after one attempt, one without an engine after none is not |
| `GraphFence.FencedIsConstant` | pebra/adapters/codegraph_adapter.py:340-362 | if values never recur, HEAD and configuration were constant over the whole window |
| `GraphFence.MissedHasReturned` | pebra/adapters/codegraph_adapter.py:340-362 | a HEAD or configuration that changes unnoticed inside the window has left and come back |
| `GraphFence.ReturningHeadIsMissed` | pebra/adapters/codegraph_adapter.py:340-362 | a HEAD that returns is not noticed |
| `GraphFence.GraphAdapter.Prepare` | pebra/adapters/codegraph_adapter.py:460-521 | prepares a repository once, a healthy one successfully, and leaves every cached answer alone |
| `GraphFence.GraphAdapter.BindAssessedCommit` | pebra/adapters/codegraph_adapter.py:570-580 | trusts the graph for exactly the snapshot's HEAD; a refusal withdraws the status, of this repository alone |
| `GraphFence.GraphAdapter.ReadStatus` | pebra/adapters/codegraph_adapter.py:582-584 | no later read gets a status for a repository once refused, whatever else is called |
| `GraphFence.GraphAdapter.PrepareInjected` | pebra/adapters/codegraph_adapter.py:467-509 | an injected status is taken if well-formed and accepted; the snapshot is available exactly if it is also current, of this worktree, and the configuration can be read |
| `GraphFence.GraphAdapter.PreparedStatus` | pebra/adapters/codegraph_adapter.py:523-525 | returns only what is cached: nothing for a repository that was refused or never prepared |
| `GraphFence.GraphAdapter.RevalidateSnapshot` | pebra/adapters/codegraph_adapter.py:527-568 | of a snapshot that may still be used, succeeds if and only if one more look at provider, HEAD and configuration, later than the window it was fenced in, agrees with it |
| `Gate.QueryPendingRestriction` | pebra/adapters/gate_check_adapter.py:709-746 | the scan over stored decisions finds the pending restriction |
| `Gate.FindMatchedRow` | pebra/adapters/gate_check_adapter.py:749-779 | the two scans pick the newest eligible row with the attempted binding, else the newest eligible row, or raise |
| `Gate.ScopeCovers` | pebra/adapters/gate_check_adapter.py:863-876 | the loops over targets and candidates decide whether a scope covers the targets |
| `GateConsult.CoversIff` | pebra/adapters/gate_check_adapter.py:863-885 | it does if and only if it lists every target as a file, in any spelling that leads to the same place, with no file before it that leads nowhere; symbols and other values do not count |
| `GateConsult.MatchedIsNewestExact` | pebra/adapters/gate_check_adapter.py:749-779 | the picked row binds the attempted edit if and only if it is the newest eligible row that does |
| `GateConsult.ComparisonIsEquality` | pebra/adapters/gate_check_adapter.py:293-317 | passing the algorithm, path and digest checks leaves the two bindings equal |
| `HumanReview.RejectOverrideGate` | pebra/core/human_review.py:41-82 | the scan over the fired gates decides whether a rejection may be overridden, or raises |
| `HumanReview.OverrideGateMeans` | pebra/core/human_review.py:41-82 | it may exactly when every record is well-formed and the first that is not advisory is one of three gates, under its own name, on finite evidence; it raises exactly on an oversize number before any non-finite one |
| `Gate.AnyImpactful` | pebra/adapters/gate_check_adapter.py:617-636 | the first target at the 90th percentile of fan-in or with a score of three quarters makes the edit impactful unless an earlier one cannot be read; without any evidence the verdict is unknown |
| `GateConsult.ConsultErrsIff` | pebra/adapters/gate_check_adapter.py:269-447 | a consultation decides unless it meets content nested too deep or goes by a rejection whose gate evidence cannot be read |
| `GateConsult.ConsultContinuesIff` | pebra/adapters/gate_check_adapter.py:269-446 | a consultation that gets through allows exactly when the newest exact row is an unconfirmed proceed, and names it |
| `GateConsult.OlderRowsHaveNoSay` | pebra/adapters/gate_check_adapter.py:749-779 | rows older than an exact match never change the outcome of a consultation, unless reading them fails |
| `GateConsult.HumanIsAskedIff` | pebra/adapters/gate_check_adapter.py:345-440 | a human is asked exactly when the newest exact row asks, needs confirmation or is an overridable rejection, and can be replayed; never by a caller that only consults |
| `GateHistory.OlderHistoryHasNoSay` | pebra/adapters/gate_check_adapter.py:208-317 | nor the whole decision, the 200-row limit included |
| `GateHistory.PendingIsNewest` | pebra/adapters/gate_check_adapter.py:709-746 | the pending restriction is the newest one at HEAD, 0 if none |
| `GateHistory.PendingRaisesIff` | pebra/adapters/gate_check_adapter.py:730-743 | reading restrictions fails exactly on content that is no object, or nested too deep, newer than all of them |
| `GateHistory.RestrictionsStick` | pebra/adapters/gate_check_adapter.py:208-290 | with a restriction on record, an edit is allowed exactly when a strictly newer row at HEAD binds it and is an unconfirmed proceed |
| `GateHistory.ForcedContinuesIff` | pebra/adapters/gate_check_adapter.py:246-290 | an impactful or exact-mode edit is allowed exactly when the newest exact row of all readable history is an unconfirmed proceed |
| `GateHistory.ForcedEditOutlivesRestriction` | pebra/adapters/gate_check_adapter.py:269-290 | there an older approval outlives a newer restriction |
| `GateHistory.NeverRefused` | pebra/adapters/gate_check_adapter.py:83-104 | no event, history, graph verdict or flag makes the gate build a decision its constructor refuses |
| `GateHistory.NoDecisionIff` | pebra/adapters/gate_check_adapter.py:176-447 | the exact condition under which no decision is returned, for every event, graph, HEAD, store, history and flag |
| `GateHistory.OversizeEvidenceIsFatal` | pebra/adapters/gate_check_adapter.py:500-530 | a rejection on file whose evidence is too large for a float is such an input |
| `GateHistory.DeepContentIsFatal` | pebra/adapters/gate_check_adapter.py:764-773 | so is any row whose content is nested too deep |
| `GateHistory.UnsearchableStoreIsFatal` | pebra/adapters/gate_check_adapter.py:684-712 | so is a store that may not be looked up, whatever is in it |
| `GateTiers.MatchedIff` | pebra/adapters/gate_check_adapter.py:749-779 | what the scans find is the newest row that binds the attempted edit, or if there is none the newest eligible one, and nothing just when none is eligible |
| `GateTiers.ConsultTierIff` | pebra/adapters/gate_check_adapter.py:269-446 | every answer of a consultation with its exact condition: consult first, unbound, unverifiable, incomplete, mismatch, revise, prerequisite, review, review unavailable, or go on |
| `GateTiers.ConsultCarries` | pebra/adapters/gate_check_adapter.py:318-446 | an answer names the newest exact row and carries its own scores, or names none |
| `GateTiers.DecideTierIff` | pebra/adapters/gate_check_adapter.py:176-446 | every decision of the gate with its exact condition over event, graph, HEAD, store and history, failing open included |
| `GateTiers.DecideIsWellSaid` | pebra/adapters/gate_check_adapter.py:176-446 | a warning comes with failing open and with nothing else, a reason with every answer that stops the edit |
| `GateTiers.AllowedIsApproved` | pebra/adapters/gate_check_adapter.py:176-446 | what is let through by consultation is an edit that a row stored at HEAD approves without reservation: same paths, same digests, scope listing every target |
| `GateTiers.EligibleIff` | pebra/adapters/gate_check_adapter.py:760-773 | which rows are considered, in terms of what is stored |
| `GateTiers.RestrictsIff` | pebra/adapters/gate_check_adapter.py:719-743 | which rows restrict, in terms of what is stored |
| `GateTiers.StoredBindingIff` | pebra/adapters/gate_check_adapter.py:782-802 | which stored candidates count: whole, of the one algorithm, with digests in lower-case hexadecimal |
| `GateContract.TierTableAgrees` | e2e/utils/cli_harness.py:31-45 | producer and consumer keep the same permission and tier pairs |
| `GateContract.RiskTableAgrees` | e2e/utils/cli_harness.py:56-64 | and the same risk decisions per pair |
| `GateContract.TablesAgree` | e2e/utils/cli_harness.py:67-150 | the consumer accepts an envelope if and only if the producer's constructor accepts the decision |
| `GateContract.ContractHolds` | e2e/utils/cli_harness.py:97-163 | every decision of the gate is accepted by the consumer |
| `GateContract.PassesIff` | pebra/adapters/gate_check_adapter.py:176-245 | an edit passes without a consultation or a warning exactly when there is nothing to edit, or the graph has spoken and nothing is pending at HEAD |
| `GateContract.AllReadNeverFailsOpen` | pebra/adapters/gate_check_adapter.py:198-268 | the gate never fails open when everything it needs could be read |
| `CandidateBinding.NormalIsIdempotent` | pebra/adapters/candidate_binding.py:45-46 | normalizing line ends twice changes nothing more |
| `CandidateBinding.NormalEnds` | pebra/adapters/candidate_binding.py:45-46 | each of the three ways to end a line becomes a single newline, and nothing else changes |
| `CandidateBinding.NormalIsLines` | pebra/adapters/candidate_binding.py:45-46 | texts normalize alike if and only if they have the same lines |
| `CandidateBinding.BoundIsRead` | pebra/adapters/gate_check_adapter.py:782-802 | what is bound at assessment is found again by the gate |
| `CandidateBinding.Bind` | pebra/adapters/candidate_binding.py:87-98 | the loop digests path by path, and gives up exactly when two paths are the same path |
| `CandidateBinding.BindingIdentifies` | pebra/adapters/candidate_binding.py:45-98 | a candidate has a binding exactly when no two of its paths are the same path, and equal bindings mean the same paths with the same lines, a deletion never passing for a text, whatever paths are recognised by |
| `Transaction.Stage` | pebra/adapters/candidate_application.py:102-126 | staging captures every original and prepares every new content without touching a target |
| `Transaction.Swap` | pebra/adapters/candidate_application.py:128-138 | the swap changes recorded targets only, and all of them as wanted if nothing fails |
| `Transaction.Rollback` | pebra/adapters/candidate_application.py:139-157 | after a rollback every target that differs from its original is reported |
| `Transaction.ReplaceTransaction` | pebra/adapters/candidate_application.py:96-167 | all or nothing under any schedule of failures: done exactly when no operation it needs fails and every target can be replaced or removed, undone whenever a single operation fails, else every changed target named, unless the cleanup fails with a target left changed, and only then; no other file touched, no temporary file left after success |
| `Transaction.ReportIsLostIff` | pebra/adapters/candidate_application.py:139-166 | the report of a rollback is replaced exactly when staging or swapping failed and then removing a staged file fails; the files are then as the rollback left them |
| `Transaction.ReportCanBeLost` | pebra/adapters/candidate_application.py:139-166 | a schedule under which a target is left changed and the outcome does not say so |
| `Transaction.Apply` | pebra/adapters/candidate_application.py:56-94 | refuses exactly when the materialized files are not the expected ones, else the transaction's guarantee; succeeds exactly when they are and nothing stands in the way |
| `Transaction.EnvelopeIsExact` | pebra/adapters/candidate_application.py:75-93 | an accepted envelope lists exactly the materialized paths, all safe, none twice |
| `Transaction.EnvelopeIff` | pebra/adapters/candidate_application.py:75-93 | and every envelope that does is accepted |
| `Transaction.Recovers` | pebra/adapters/candidate_application.py:96-167 | one failing operation never leaves the tree in between |
| `ReplayCache.Cache.Store` | pebra/adapters/candidate_replay_cache.py:58-85 | succeeds exactly when the size fits, there is a place, and the entry is there or can be written; stale entries that can be removed go, other entries stay, and there is no second entry for the same content |
| `ReplayCache.Cache.Load` | pebra/adapters/candidate_replay_cache.py:87-105 | exactly a present, readable, unexpired entry within the size limit loads |
| `ReplayCache.Cache.Consume` | pebra/adapters/candidate_replay_cache.py:112-125 | spending renames the entry onto its tombstone, and succeeds exactly when it is there and the rename works; failing may have spent it |
| `ReplayCache.Cache.Delete` | pebra/adapters/candidate_replay_cache.py:107-110 | removes entry and then tombstone, up to the first failure, and nothing else |
| `ReplayCache.Cache.ReapEntries` | pebra/adapters/candidate_replay_cache.py:130-143 | removes exactly the stale entries that can be removed |
| `ReplayCache.StoreIsSteps` | pebra/adapters/candidate_replay_cache.py:58-85 | whatever storing does to entries and tombstones is a sequence of protocol steps |
| `ReplayCache.ApplyCandidate` | pebra/app/candidate_apply_controller.py:76-130 | nothing is written unless the gate names this assessment on this tree, whenever something was written the token is gone, each way to end has its exact condition, success included, and the whole call is a run of one process of the protocol |
| `ApplyProtocol.ApplySectionsExclude` | pebra/app/candidate_apply_controller.py:98-122 | in every interleaving, apply sections of one repository never overlap |
| `ApplyProtocol.AuthorizedBytesAreWritten` | pebra/app/candidate_apply_controller.py:98-122 | a successful application leaves, for every path the matched assessment binds, content with exactly the bound digest, and nothing else changed |
| `ApplyProtocol.AtMostOnce` | pebra/adapters/candidate_replay_cache.py:58-143 | in every interleaving of store, reap, consume, apply, delete and crash, successful consumptions plus a live token never exceed the creating stores, nor do writes to the tree |
| `WitnessLexer.LexIsPartition` | pebra/adapters/continuity_witness.py:35-108 | the scan cuts the source into tokens that together are the source |
| `WitnessLexer.First` | pebra/adapters/continuity_witness.py:35-108 | every step of the scan advances |
| `WitnessLexer.FirstIs` | pebra/adapters/continuity_witness.py:35-108 | what the tokens are: where line and block comments, quoted text with its escapes, and words begin and end, closed or not |
| `WitnessLexer.NextToken` | pebra/adapters/continuity_witness.py:35-108 | the scanning loops, escapes and unclosed quotes included, compute the token |
| `Witness.CanonicalIdentifierSource` | pebra/adapters/continuity_witness.py:19-109 | the scan computes the canonical form and the number of occurrences, or gives up |
| `Witness.UnixEnds` | pebra/adapters/continuity_witness.py:23-23 | a return before a newline is dropped before the scan, and nothing else |
| `Witness.HasWordIff` | pebra/adapters/continuity_witness.py:77-77 | quoted text mentions the name where it can be split around it with word boundaries at both ends |
| `Witness.LastSolidIs` | pebra/adapters/continuity_witness.py:53-61 | what stands before an occurrence or a slash is the last character that is no whitespace |
| `Witness.FirstSolidIs` | pebra/adapters/continuity_witness.py:57-61 | and what follows it the first |
| `Witness.CleanIff` | pebra/adapters/continuity_witness.py:52-100 | the scan gives up exactly when some token, wherever it stands, makes it |
| `Witness.AcceptedTokens` | pebra/adapters/continuity_witness.py:52-100 | in the text as it stands, comments included, no counted occurrence follows a dot or precedes a colon, no quoted text mentions the name, and every slash closes or opens a tag |
| `Witness.IdentifierOnlyMigration` | pebra/adapters/continuity_witness.py:140-155 | accepts when both canonical forms exist, agree, and the name occurs |
| `WitnessSound.CollapseUnmark` | pebra/adapters/continuity_witness.py:109-109 | putting the new name for the marker commutes with collapsing whitespace |
| `WitnessSound.CollapseJoinsWords` | pebra/adapters/continuity_witness.py:109-109 | collapsing is splitting into words and joining them with single spaces |
| `WitnessSound.MarkerMarksOccurrences` | pebra/adapters/continuity_witness.py:82-106 | where nothing is joined the marker stands for the occurrences of the name and nothing else |
| `WitnessCode.StripKeepsCode` | pebra/adapters/continuity_witness.py:38-51 | leaving comments out keeps the code tokens exactly when no word is joined; a join always loses one |
| `WitnessCollapse.SqueezeKeepsCode` | pebra/adapters/continuity_witness.py:109-109 | collapsing whitespace changes no code token but quoted text |
| `WitnessRename.AcceptedIsRenameIff` | pebra/adapters/continuity_witness.py:140-155 | soundness with its exact condition: of an accepted pair of which one source joins no word and has no word that is the marker, the second is the first renamed, token by token, if and only if the same is true of the other |
| `WitnessRename.AcceptedIsExactRenameIff` | pebra/adapters/continuity_witness.py:140-155 | and to the letter if and only if the quoted text of both is tidy, too |
| `WitnessCuts.AcceptedIsRenameIfLaidOutAlike` | pebra/adapters/continuity_witness.py:140-155 | for every accepted pair, comments and markers included: the second is the first renamed if and only if the code of both is cut into tokens of the same lengths and the same tokens are the name |
| `WitnessCuts.StripRunsOn` | pebra/adapters/continuity_witness.py:38-51 | the code without its comments reads as the code tokens run together, however words are joined |
| `WitnessSpacing.SpacedAlike` | pebra/adapters/continuity_witness.py:38-51 | where no comment has code directly on both sides, leaving comments out and reading them as blanks collapse to the same text |
| `WitnessSpacing.AcceptedIsSameTextIff` | pebra/adapters/continuity_witness.py:140-155 | of an accepted pair of which one source has no such comment, the texts agree, comments read as blanks, if and only if the other has none either |
| `WitnessSpacing.AcceptedIsSameTextIfAsLong` | pebra/adapters/continuity_witness.py:140-155 | for every accepted pair, the texts agree, comments read as blanks, if and only if their runs of code are as many and as long |
| `WitnessSound.AcceptedIsRenameOfText` | pebra/adapters/continuity_witness.py:140-155 | on comment-free sources without the marker, the texts themselves are a rename up to whitespace |
| `WitnessComplete.FirstKept` | pebra/adapters/continuity_witness.py:35-108 | what is scanned first does not change when the rest starts alike |
| `WitnessComplete.LexRenamed` | pebra/adapters/continuity_witness.py:35-108 | renaming occurrences renames the tokens and moves no token boundary |
| `WitnessComplete.RenamedIsClean` | pebra/adapters/continuity_witness.py:52-100 | where the scan did not give up on the old name it does not give up on a fresh one |
| `WitnessComplete.RenameAcceptedIff` | pebra/adapters/continuity_witness.py:140-155 | completeness: renaming every counted occurrence is accepted if and only if the new name is fresh |
| `WitnessJoins.CommentsCanJoinWords` | pebra/adapters/continuity_witness.py:38-51 | a comment between two words makes them count as one: accepted, and not the same code |
| `WitnessJoins.JoinsOnBothSides` | pebra/adapters/continuity_witness.py:38-51 | when both sources join words, an accepted pair is the same code exactly when the words were split alike |
| `WitnessLimits.MarkerIsMistaken` | pebra/adapters/continuity_witness.py:102-103 | a word that is the marker is taken for the binding: accepted, and not the same code |
| `WitnessLimits.QuotedBlanksAreLost` | pebra/adapters/continuity_witness.py:109-109 | quoted blanks of any number are taken for the same |
| `WitnessLimits.DollarsAreMissed` | pebra/adapters/continuity_witness.py:77-77 | a name that starts with a dollar sign is not found where it stands alone in quotes |
| `WitnessMembers.GivesUpIff` | pebra/adapters/continuity_witness.py:90-101 | when an occurrence makes the scan give up, in terms of the code and the comments around it |
| `WitnessMembers.AcceptedTouchesNoMemberIff` | pebra/adapters/continuity_witness.py:90-101 | an accepted source touches a member or key if and only if a comment hides the dot or colon |
| `WitnessMembers.CommentFreeTouchesNoMember` | pebra/adapters/continuity_witness.py:90-101 | so an accepted source without comments touches none |
| `WitnessMembers.MembersHideBehindComments` | pebra/adapters/continuity_witness.py:90-101 | a member access behind an empty comment is accepted and counted, for every object and name |
| `Refinement.AnalyseRanked` | pebra/app/assess_controller.py:1200-1257 | the loop analyses down the ranking within the budget and stops at the first that proceeds |
| `Refinement.AnalysedAreFirst` | pebra/app/assess_controller.py:1193-1213 | the analysed are the first of the ranking with a scope, at most the budget, and all of them if neither budget nor a proceed ends the loop |
| `Refinement.AnalysedAreRescored` | pebra/app/assess_controller.py:1207-1254 | analysing replaces each analysed candidate by what rescoring makes of it, at its rank, once, and changes no other |
| `Refinement.StopsAtProceed` | pebra/app/assess_controller.py:1255-1257 | the loop stops early if and only if an analysed candidate proceeds |
| `Refinement.LastProceeds` | pebra/app/assess_controller.py:1200-1257 | no analysed candidate but the last proceeds, and the last does just when the loop stopped there |
| `Refinement.Budget` | pebra/app/assess_controller.py:1194-1198 | what is configured, but never more than two or less than none, and one where it is no number |
| `Refinement.Refine` | pebra/app/assess_controller.py:1184-1266 | request order is kept, unranked candidates are untouched, ranked ones are rescored if chosen within the budget, else labelled with what ended the loop |
| `Refinement.OutcomeIsSettled` | pebra/app/assess_controller.py:1258-1266 | no status stays pending; the label for what was not analysed says whether a proceed or the budget ended the loop |
| `Recommendation.Recommended` | pebra/app/assess_controller.py:837-855 | of the actions that proceed, or else are no rejection, or else all: none has more risk-adjusted utility, at the same utility none less loss, then none more benefit, then none an earlier patch hash or id |
| `Recommendation.BeforeIff` | pebra/app/assess_controller.py:844-855 | texts are ordered by the first position where they differ, a text before its extensions |
| `Recommendation.RecommendationIgnoresOrder` | pebra/app/assess_controller.py:837-855 | with distinct ids the choice is the same for every order of the request |
| `Finalization.Lifecycle.MeasureLearning` | pebra/app/learning_controller.py:45-105 | undisturbed, appends one measurement of all predictions, or says exactly why not, a second measurement included |
| `Finalization.Lifecycle.FinalizeOutcome` | pebra/app/finalize_outcome_controller.py:34-92 | undisturbed: records the outcome unless there is one, goes on only if it is the call's own, measures unless that is done; returns normally, or fails with each failure, exactly when |
| `Finalization.FinalizationIsSafe` | pebra/app/finalize_outcome_controller.py:34-92 | in every interleaving of retries and crashes: at most one outcome and one measurement, and a call that returned left both with its own status and detail |
| `Finalization.NothingIsTakenBack` | pebra/adapters/store/db.py:1285-1320 | what is recorded stays recorded |
| `Finalization.FinalizedIsIdempotent` | pebra/app/finalize_outcome_controller.py:34-42 | calling twice is calling once |
| `Finalization.AloneIsUndisturbed` | pebra/app/finalize_outcome_controller.py:34-92 | the atomic steps of a call, taken with nobody in between, end within five in what the undisturbed call does |
| `Finalization.MatchesIff` | pebra/app/finalize_outcome_controller.py:28-60 | a record is the call's own if status and detail agree, whatever the call said of its label source |
| `Finalization.RestartsEndAlike` | pebra/app/finalize_outcome_controller.py:34-92 | after a crash at any point, starting over ends where an undisturbed call would |
| `Finalization.ReturnedCallFinalizes` | pebra/app/finalize_outcome_controller.py:34-92 | in every interleaving, a call that has returned leaves the store as one undisturbed call |

## Left out

- Scoring itself (`pebra/core`), the dashboard, explanation texts and command-line output: results or presentation.
- Beta-posterior fit of the continuity benchmark: closed-form arithmetic over a count.
- Reading of host events, of Codex patches and of unified patches into after-contents: a function parameter of the
  protocol; the gate and the applier use the same one, as in the code.
- `ImportGraphRuns.IncrementalIsFull`: files do not change between hashing and parsing within one build.
- Validation of a stored cache on loading, and its analyzer version: a rejected cache is a lost cache.
- The per-provider memo of the import graph; the texts and provenance lists that explain graph uncertainty.
- Walking the repository for Python files: the file map is what the walk found.
- Reason texts of gate decisions are short stand-ins; only that they are not blank matters.
- Numbers too large for a float in risk summaries, which the code catches. How deep is too deep is a property of the
  stored content here; in the code it also depends on the reader's stack.
- Reading a host event is one bit in the gate: an event on which the code raises (an unhashable tool name, say) cannot be read.
- `GateHistory.NoDecisionIff`: the candidate an event amounts to is a binding or none, as its reader promises; errors any statement may raise (memory, interrupts) are not modelled.
- `Transaction.ReplaceTransaction`: file modes, directory creation and interrupts are not modelled; temporary files of failed writes may stay, as in the code.
- `ApplyProtocol.AuthorizedBytesAreWritten`: every writer of the tree takes the lock; a tree changed by others between gate and application is outside it.
- `ReplayCache.Cache.Load`: tampered entry contents are not modelled, because a file is named by the digest that loading checks.
- `WitnessLexer.NextToken`: the ECMAScript family only; other languages differ in comment marks and case.
- `WitnessRename.AcceptedIsRenameIff`: the tokens are the scanner's, to which every character of a number or an operator is a token; what a comment between two of them joins (`1/**/2`) is the subject of `WitnessSpacing.AcceptedIsSameTextIff`.
- `DiffRanges.ParseOldSideRanges`: lines are given; the rarer line separators of Python's `splitlines` and non-ASCII digits are not modelled.
- `GraphOwners.OwnersAt`: the database query is given by its meaning; ids are unique.
- `GraphFence.PrepareDefault`: provider output is classified as missing, malformed or a status; time-outs and cancellation are a missing answer or a failed sync.
- `Refinement.Refine`: ranking and rescoring are parameters; the ranking only names requested actions, each once.
- `Finalization.FinalizationIsSafe`: promotions after the measurement are not modelled; the store's two transactions are atomic and check inside their lock, as `pebra/adapters/store/db.py` does.
