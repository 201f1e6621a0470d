# Entity resolution and mapping, verified

A Dafny model of two services. Lotus maps source documents to target documents through a graph of links and
steps. Ivy stages entities, finds which of them match, merges them into clusters and relates the clusters.
The project models their control flow and data, and proves what every run keeps.

- `LotusSteps`, `Compile`, `Scheduler`, `Processing`, `Execution`, `Dataflow`: compiling a mapping, the pending
  counters that fire a step when its last link is processed, and what a finished execution means.
- `FieldPaths`, `TargetTree`, `Targets`, `TargetWriter`, `Assign`, `Output`, `OutputReads`, `ArrayOutput`,
  `TargetOutput`: target writes, deferred broadcasts and the output document.
- `TreeView`, `Schedules`, `DocumentOrder`, `Documents`: the document does not depend on the order of any map.
- `FieldPlaces`, `DocumentPlaces`: where each field stands in the document, told from the tree of fields.
- `MappingRun`, `MappingPool`, `MappingCache`: one execution end to end, executions on reused objects, and the bounded
  cache of compiled mappings.
- `ClusterStore`, `MergeEngine`, `ClusterInvariants`, `ClusterMerges`, `ClusterEdges`, `ClusterRuns`,
  `ClusterRedelivery`, `ClusterConnectivity`: the tables behind clusters, the merge, deletion and relationship consumers, and whole runs.
- `Texts`, `Levenshtein`, `Jaro`, `Matching`, `MatchFinding`: string metrics, rules, and candidate generation.
- `Criteria`, `CriteriaSplit`, `CriteriaJoin`, `CriteriaHistory`, `CriteriaEvaluator`: criteria, and the relationships
  they define as a join kept by concurrent messages.
- `Canonical`, `Fingerprint`: the canonical text of a document without its excluded fields.
- `Basics`: optional values, clearing a map, and facts on numbers and sets.

An operation that changes state is a method of a class, or a method with a loop where the code has one. Its contract
ties it to a function of the old state, and the lemmas are about that function. Strings of the metrics are bytes;
document strings are sequences of characters.

## Where the code and its description part

- A merge with at least one unblocked match also merges the blocked ones (`ClusterRedelivery.BlockedMatchIsMerged`).
- `source_count` counts the entities of the last step, not the members (`ClusterRedelivery.SourceCountIsStepSize`).
- An inactive membership row left by a deletion can make a consolidation fail for ever
  (`ClusterInvariants.MergeEffect`, `ClusterRedelivery.ConsolidationCanGetStuck`).
- Nothing fills `relationship_clusters`, so deleting a staged relationship never reaches the merged one
  (`ClusterRuns.RelationshipDeletionDoesNothing`).
- A step that receives nothing returns before its child links are processed, so everything downstream waits for ever
  (`Dataflow.SilentStepStarves`); a failing validator is silent (`LotusSteps.FailingValidatorActsAsCondition`); a
  condition fed several values hands on whichever link came first (`Dataflow.ConditionHandsOnFirst`).
- Compiling enters a step again while it is being built, and then does not return (`Compile.DivergesExactly`). Where
  nothing is rejected it returns exactly for acyclic definitions (`Compile.ReturnsIffAcyclic`).
- Consolidating clusters that are related leaves the survivor related to itself (`ClusterEdges.SelfLoopExactly`).
- A write to a nested container erases what was written below it (`TargetTree.WriteErasesBelow`), and a broadcast
  overrides direct writes to the same field (`Targets.FinalReading`).
- Candidate generation ANDs optional exact conditions (`MatchFinding.OptionalConditionDrops`), and the query of a purely
  fuzzy rule asks for identical text as well as similarity (`MatchFinding.FuzzyNeedsEqualText`), so such a rule
  finds no entity that is merely similar. `MatchFinding.NothingLost` says exactly when nothing is lost. The placeholder
  in that query is written as the sixth argument, which by position is the normalizer and not the source text; what
  it is bound to is a parameter here.
- A criteria row that is revived rather than inserted is not evaluated (`CriteriaJoin.RevivalMissesMatches`;
  `CriteriaHistory.RevivedCriteriaExactly` says what is missing), and no message takes a match back.
- Containment and evaluation of criteria differ across types and on overlapping fields, and only there
  (`CriteriaSplit.SplitExactly`).
- A key with a dot is excluded like a nested path (`Fingerprint.PrefixTestAddsNothing`).
- Tenants whose identifiers continue one another after a colon can share a cache key
  (`MappingCache.KeysCollideExactly`), and a store can follow an invalidation of what it stores
  (`MappingCache.StaleExactly`).

## Model

| member | source | states |
|---|---|---|
| MergeEngine.Engine.MergeWithMatches | ivy/pkg/merging/engine.go:57-107 | the merge step changes the tables exactly as MergeEntity says; a failed step leaves them alone |
| MergeEngine.Engine.UpsertSingleEntity | ivy/pkg/merging/engine.go:109-195 | an entity without usable matches joins its existing cluster or gets a new one; all or nothing |
| MergeEngine.Engine.MergeEntityWithMatches | ivy/pkg/merging/engine.go:197-285 | create, extend or consolidate, chosen by how many live clusters hold a collected entity; all or nothing |
| MergeEngine.Engine.ConsolidateClusters | ivy/pkg/merging/engine.go:379-450 | the loop over the younger clusters moves, rewires and soft-deletes each, then adds the loaded entities to the oldest |
| MergeEngine.Engine.AddEntities | ivy/pkg/merging/engine.go:300-330 | adding entities one by one, in any order, adds them all or fails |
| MergeEngine.Engine.RewireMergedEntity | ivy/internal/repositories/mergedrelationship/repository.go:179-263 | every live edge of the absorbed entity goes over to the survivor, in any order of the edges: edges that become the same merge into one, and an edge between the two stays as a self-loop |
| ClusterEdges.MergeFoldsEdges | ivy/internal/repositories/mergedrelationship/repository.go:179-263 | the live edges after a merge are exactly the live edges before with every involved cluster replaced by the surviving one |
| ClusterEdges.SelfLoopExactly | ivy/internal/repositories/mergedrelationship/repository.go:179-263 | the surviving cluster has a live edge to itself if and only if two of the involved clusters, or one with itself, were related before |
| ClusterEdges.AbsorbEdges | ivy/pkg/merging/engine.go:395-429 | absorbing a list of clusters folds their edges onto the survivor |
| MergeEngine.Engine.ProcessEntityDeletion | ivy/pkg/processor/deletion_processor.go:78-159 | the deletion consumer takes the row out, soft-deletes an emptied cluster and cascades to its relationships |
| MergeEngine.Engine.CreateMergedRelationships | ivy/pkg/processor/relationship_processor.go:140-181 | the nested loops add an edge for every pair of live homes |
| ClusterInvariants.MergeEffect | ivy/pkg/merging/engine.go:197-450 | a merge fails if and only if a leftover inactive row of the oldest cluster collides with a member to be moved; otherwise the invariant is kept, the new cluster is the union of the involved clusters and the joined entities, and every other cluster is untouched |
| ClusterInvariants.AbsorbAll | ivy/pkg/merging/engine.go:395-429 | absorbing a list of clusters fails exactly on a colliding row, and pools exactly their members |
| ClusterMerges.MergePlainly | ivy/pkg/merging/engine.go:87-285 | told by blocked flags, staged rows and memberships alone: one cluster, the oldest folded in or else a new one, ends with the source, with every match whose row is live if some match is not blocked, and with all members of the clusters that held any of them; those are emptied, all other memberships and the rows of former members stay, and it fails exactly on a leftover row in the way |
| ClusterMerges.MatchesDecide | ivy/pkg/merging/engine.go:87-105 | if some match is not blocked, source and every match with a live row end in one cluster; if none is, no other entity does that did not share a cluster with the source before |
| ClusterRuns.DeletionEffect | ivy/pkg/processor/deletion_processor.go:105-155 | a deletion removes exactly that member, leaves every other membership, keeps live exactly the clusters with another member, and exactly the edges between clusters that are still live |
| ClusterMerges.RelationshipEdges | ivy/pkg/processor/relationship_processor.go:140-181 | a relationship event adds an edge of its kind from every live cluster of a from-entity to every live cluster of a to-entity, and changes nothing else |
| ClusterMerges.CompletionEdges | ivy/pkg/processor/merge_processor.go:220-331 | completing rules adds exactly the edges between the merged entity, on its side of each rule, and every cluster of an entity on the other side, whether that cluster is live or not |
| ClusterRuns.RunKeepsInv | ivy/pkg/merging/engine.go:57-450 | over every run of merges, deletions and relationship events: each staged entity in at most one live cluster, live merged entities have a member, soft-deleted ones none, no live relationship touches a soft-deleted entity |
| ClusterRuns.LateCompletionDangles | ivy/pkg/processor/merge_processor.go:220-331 | completing any rules, on either side, for an entity soft-deleted meanwhile keeps the invariant if and only if no rule finds a partner: the step must be atomic |
| ClusterRuns.RelationshipDeletionDoesNothing | ivy/pkg/processor/deletion_processor.go:161-230 | on every run nothing is ever added to relationship_clusters, so deleting a staged relationship changes nothing |
| ClusterMerges.RelationshipRowEffect | ivy/pkg/processor/deletion_processor.go:161-230 | with such a row there, deletion would take it out, and its edge with it exactly when no other active row holds that edge up |
| ClusterRedelivery.Redelivery | ivy/pkg/merging/engine.go:57-450 | delivering any event twice in a row leaves the tables as delivering it once, failures included |
| ClusterRedelivery.MergeAgain | ivy/pkg/merging/engine.go:197-450 | merging again finds the one cluster the first merge left and changes nothing |
| ClusterRedelivery.BlockedMatchIsMerged | ivy/pkg/merging/engine.go:87-105 | a blocked match whose row is live ends in the cluster of the source if and only if some other match was not blocked or they shared a cluster before; the comment says it is filtered out |
| ClusterRedelivery.SourceCountIsStepSize | ivy/pkg/merging/engine.go:334-352 | source_count is the number of entities of the step, at most the cluster size, and equal to it if and only if the involved clusters held nothing else |
| ClusterRedelivery.ConsolidationCanGetStuck | ivy/internal/repositories/mergedentity/repository.go:297-327 | a reachable run after which one merge fails for ever, because moving a member violates the unique row of an earlier membership |
| ClusterConnectivity.ClustersAreComponents | ivy/pkg/merging/engine.go:109-450 | over every run without removals two staged entities share a live cluster if and only if a chain of collected pairs connects them |
| ClusterConnectivity.NoRemovalsNoFailure | ivy/pkg/merging/engine.go:379-450 | and on such runs no merge fails |
| ClusterConnectivity.ComponentsOfEvents | ivy/pkg/merging/engine.go:109-450 | where moreover no staged row is deleted and every collected match was upserted before, the edges are told by the events alone |
| Compile.Compiler.CreateStep | lotus/pkg/mapping/validate.go:97-149 | on an acyclic graph building a step terminates, agrees with the direct recursive definition, and keeps the memo closed under feeding steps, whatever was built before |
| Compile.Compiler.ValidateLink | lotus/pkg/mapping/validate.go:22-95 | a link is accepted exactly when its source and target are well formed and the types fit |
| Compile.StepTypes | lotus/pkg/steps/steps.go:82-141 | a condition or validator needs an action that answers with a bool and has the type of its first input; a transformer has the type its action makes |
| Compile.Compiler.GenerateMappingPlan | lotus/pkg/mapping/validate.go:10-20 | compiling an acyclic definition succeeds if and only if every link is valid, and if and only if there is some way to give all steps and links types that fit: a step takes what each link into it brings, in order, and the links fit their targets; then the memo holds those types for every step a link names, so execution never meets an undefined step |
| Compile.CycleNeverBuilt | lotus/pkg/mapping/validate.go:97-149 | where each step of a set has some parent in the set, none of them is ever built, whatever the other links and at whatever depth |
| Compile.DivergesExactly | lotus/pkg/mapping/validate.go:97-149 | for any definition, building a step returns if and only if no step is entered again while it is being built, and then does what it would do with a guard against that: the memo, filled only after the recursion, is no such guard |
| Compile.CycleReturnsOnlyRejected | lotus/pkg/mapping/validate.go:97-149 | a step on a cycle returns if and only if building it with that guard rejects it |
| Compile.CycleDiverges | lotus/pkg/mapping/validate.go:97-149 | in a definition that rejects nothing (fields known, steps defined and fed, every action taking its inputs), no depth is enough for a step on a cycle |
| Compile.ReturnsIffAcyclic | lotus/pkg/mapping/validate.go:97-149 | such a definition is compiled in finite time, from every step a link names, if and only if its steps can be ranked along the links |
| Compile.AcyclicReturns | lotus/pkg/mapping/validate.go:97-149 | on an acyclic definition the rank of a step is depth enough |
| Execution.Mapping.Begin | lotus/pkg/mapping/mapping.go:281-301 | counting into the map of an object that is blank, new or reused, makes the pending count of each step the number of links into it |
| Execution.Mapping.Reset | lotus/pkg/mapping/pool.go:43-92 | after a reset every field of the link state is blank, whatever an execution left |
| Execution.Mapping.ExecuteLink | lotus/pkg/mapping/mapping.go:391-481 | processing a link processes it once, fires each step whose last link it was, and recurses over its child links, with the unprocessed links as measure; counters stay equal to the unprocessed links, and the outcome is a function of the plan |
| Execution.Mapping.ReachStep | lotus/pkg/mapping/mapping.go:425-481 | a link to a known step takes the counter down and collects its inputs; at zero, with some inputs, the step executes |
| Execution.Mapping.ExecuteChildren | lotus/pkg/mapping/mapping.go:467-477 | after a step fires all its child links are processed |
| Execution.Mapping.WriteTarget | lotus/pkg/mapping/mapping.go:394-423 | a link from an item field adds each value of that field, in order, at its own index; any other link adds the one value it carries, without an index, or nothing; it fails exactly if one of these is refused |
| Scheduler.LinkInputsExactly | lotus/pkg/mapping/mapping.go:532-557 | a link delivers to a step all values of its source field in order, or what the source step handed on unless it broke, or its constant |
| LotusSteps.HandsOn | lotus/pkg/steps/steps.go:163-229 | a step hands on what its action makes or, as a condition or validator, its first input exactly if the action agrees, null counting as no and inverted ones turned round; it errs exactly where the action does or does not answer with a bool |
| LotusSteps.HandsOnNothing | lotus/pkg/steps/steps.go:163-229 | without inputs it hands on nothing, and is no error |
| Execution.Mapping.Run | lotus/pkg/mapping/mapping.go:296-314 | a successful execution is complete and has performed exactly the writes of its processed links; a failed one is a sound prefix with a reason |
| Dataflow.ProcessedWhenAvailable | lotus/pkg/mapping/mapping.go:425-478 | a link is processed if and only if its source is available, and at most once |
| Dataflow.RunsExactlyWhenFed | lotus/pkg/mapping/mapping.go:425-478 | a step runs if and only if every step feeding it ran and something was delivered; its inputs are exactly the delivered values as a multiset |
| Dataflow.SilentStepStarves | lotus/pkg/mapping/mapping.go:455-458 | a step without inputs starves everything downstream, against the description at lines 54-63 |
| Dataflow.OrderIrrelevant | lotus/pkg/mapping/mapping.go:296-314 | where no step that ran depends on the order of what it was fed, every priority order of the links gives the same results |
| Dataflow.FailureIrrelevant | lotus/pkg/mapping/mapping.go:296-314 | and if such an order succeeds no other order fails, at whatever point |
| Dataflow.OrderFreeExactly | lotus/pkg/steps/steps.go:163-229 | with an action that ignores order, a step does so on given inputs if and only if it does not hand on its first input or all inputs are one value |
| Dataflow.NoChoiceExactly | lotus/pkg/mapping/mapping.go:425-478 | so a run of such actions has no step depending on order if and only if no condition or validator that held was fed two different values |
| Dataflow.ActionsIgnoreOrder | lotus/pkg/mapping/mapping.go:296-314 | and then every priority order gives the same results |
| Dataflow.ConditionHandsOnFirst | lotus/pkg/steps/steps.go:202-225 | otherwise not: a condition that always holds, fed two different values, hands on whichever comes first |
| FieldPaths.GetFieldPaths | lotus/pkg/fields/fields.go:191-245 | the flattened parent table of a field tree, rows in the order of the code |
| FieldPaths.RowsFit | lotus/pkg/fields/fields.go:191-245 | every row of the table is the last hop of the chain of its field, and its parent has the rest of that chain |
| FieldPaths.ChainShape | lotus/pkg/fields/fields.go:191-245 | a chain starts at a root, each hop names the one before as its parent, and is an item hop or a field hop but not both |
| FieldPaths.GetPathToField | lotus/pkg/fields/fields.go:247-269 | looking a path up terminates and answers with exactly the root-to-field chain, or an error for an unknown field |
| Output.GetFieldAgrees | lotus/pkg/fields/fields.go:122-161 | GetField finds exactly the fields of the tree and flags exactly those with an array on the way |
| TargetTree.SetChild | lotus/pkg/mapping/mapping.go:660-764 | the recursive upsert fails if and only if an item lies on the way and there is no index; otherwise it stores the leaf, creating containers |
| TargetTree.ReadBack | lotus/pkg/mapping/mapping.go:660-764 | a written leaf is read back |
| TargetTree.Frame | lotus/pkg/mapping/mapping.go:660-764 | a write changes nothing that is neither above nor below it |
| TargetTree.WriteErasesBelow | lotus/pkg/mapping/mapping.go:663-711 | a write to a nested container erases everything below it |
| TargetTree.PutPresent | lotus/pkg/mapping/mapping.go:718-761 | a write makes present exactly the nodes on its way |
| TargetWriter.Target.GetArrayRoot | lotus/pkg/mapping/mapping.go:326-340 | the array root of a field is the parent of the first item hop of its chain |
| TargetWriter.Target.Set | lotus/pkg/mapping/mapping.go:486-530 | a write is refused exactly for an unknown field or, unless it is put off, a value the field cannot take; otherwise the state is again that of the log of writes |
| TargetWriter.Target.Reset | lotus/pkg/mapping/pool.go:43-92 | after a reset every field of the target state is blank |
| TargetWriter.Target.ApplyBroadcasts | lotus/pkg/mapping/mapping.go:367-389 | arrays and indices being visited in any order, it fails if and only if some waiting value for an array with indices cannot be converted; otherwise every leaf reads as the log of writes says |
| Targets.WriteOneReads | lotus/pkg/mapping/mapping.go:486-530 | one write is read back at its field and index and leaves every other leaf alone |
| Targets.FinalReading | lotus/pkg/mapping/mapping.go:357-389 | broadcasts reach exactly the recorded indices and win over direct writes, whatever the order of arrays and indices |
| Targets.ExpectedExactly | lotus/pkg/mapping/mapping.go:357-389 | told by positions in the log: outside arrays the last write to a field; in an array, at an index some write under it used, the last scalar write to the field wherever it stands, else the last write at that index; at other indices nothing |
| Output.RankIsPosition | lotus/pkg/mapping/mapping.go:850-854 | the stable sort puts an item at the position given by how many items have a smaller index |
| Output.GetTargetRawObject | lotus/pkg/mapping/mapping.go:881-918 | the object is built by assigning each value at the path of its field |
| Output.GetTargetRawArrays | lotus/pkg/mapping/mapping.go:850-879 | the array lists the values by ascending index |
| OutputReads.OutputReadsTree | lotus/pkg/mapping/mapping.go:850-918 | following paths and ranks through the output finds exactly the leaves of the tree |
| OutputReads.ObjectOrderIrrelevant | lotus/pkg/mapping/mapping.go:836-845 | the output does not depend on the order in which the map hands out the root values |
| FieldPlaces.PlacesFollow | lotus/pkg/mapping/mapping.go:881-918 | the places of a field, told from the tree of fields by their paths, and by their identifiers where the path is empty, follow its chain |
| DocumentPlaces.PlainDocument | lotus/pkg/mapping/mapping.go:830-918 | in a generated document each leaf stands where the paths of the fields around it lead, in arrays at the rank of its index among those recorded, with the value the log gives it; siblings having paths apart |
| DocumentPlaces.TopFieldStands | lotus/pkg/mapping/mapping.go:881-918 | so a leaf at the top stands under its own path, or its identifier when that is empty |
| TargetOutput.GenerateTargetRaw | lotus/pkg/mapping/mapping.go:830-848 | it succeeds if and only if every waiting value for an array with recorded indices converts; then the document is one the writes may give, and every leaf holds what the log of writes says, broadcasts included; where siblings have paths apart it holds it at the paths of the fields around it |
| Documents.OneDocument | lotus/pkg/mapping/mapping.go:367-389 | the writes give one document, whatever order arrays, indices and root values are visited in, where siblings have paths apart |
| Documents.OnlyWritten | lotus/pkg/mapping/mapping.go:660-764 | whatever the tree holds lies on the way of some write |
| Documents.WrittenBelow | lotus/pkg/mapping/mapping.go:830-918 | every field below a node of the final tree is there because some write of the log passes through it |
| Documents.NothingBeside | lotus/pkg/mapping/mapping.go:881-918 | an object of the document holds nothing at a path apart from those of its fields |
| ArrayOutput.ItemsAreRecorded | lotus/pkg/mapping/mapping.go:342-355 | an array has an item for an index if and only if that index was recorded |
| ArrayOutput.ArrayFollowsIndices | lotus/pkg/mapping/mapping.go:850-879 | the output array has one element per recorded index, element number k being the item with the k-th smallest |
| MappingRun.Execute | lotus/pkg/mapping/mapping.go:273-324 | on blank objects, new or reused: success means complete, each leaf of the output holding what the writes of the processed links say; failure means the links failed, or a waiting value for an array with recorded indices does not convert |
| MappingRun.ExecuteMapping | lotus/pkg/mapping/mapping.go:273-324 | the same on new objects |
| MappingRun.AnswersAgree | lotus/pkg/mapping/mapping.go:273-324 | any two executions of a definition on the same values both succeed or both fail, and where siblings have paths apart their documents are equal, whatever order either visits its maps in |
| MappingRun.ItemsArrive | lotus/pkg/mapping/mapping.go:273-324 | for one link from an item field to a field in an array, the last value extracted for an index arrives, converted, in the element of that rank |
| Assign.AssignMapValue | lotus/pkg/utils/assign_map_value.go:5-27 | the recursion over the joined remainder of the path is assignment along its segments |
| Assign.ReadBack | lotus/pkg/utils/assign_map_value.go:5-27 | an assigned path reads back the value, unless its last segment is empty: then it reads what was there before |
| Assign.Frame | lotus/pkg/utils/assign_map_value.go:5-27 | an assignment leaves every path alone that is neither above nor below it |
| Assign.CommuteExactly | lotus/pkg/utils/assign_map_value.go:5-27 | two assignments commute on all maps and values if and only if neither path is a prefix of the other |
| Assign.OrderIrrelevant | lotus/pkg/utils/assign_map_value.go:5-27 | any number of prefix-free assignments give the same map in every order |
| MappingPool.Mapping.Reset | lotus/pkg/mapping/pool.go:43-92 | after a reset the object is as a new one, whatever it held |
| MappingPool.Pool.ExecuteMappingPooled | lotus/pkg/mapping/pool.go:104-176 | the engine runs on the object from the pool: it succeeds exactly when a new object would, leaves an answer a new object may give, touches no object lent out before, and keeps idle objects blank on failure too |
| MappingPool.Pool.GiveBack | lotus/pkg/mapping/pool.go:34-40 | a released object becomes idle and blank; the others are not touched |
| MappingPool.Replay | lotus/pkg/mapping/pool.go:28-40 | after any history of executions, failures and releases each borrower holds what an execution on new objects may leave |
| MappingPool.SameAsNew | lotus/pkg/mapping/pool.go:94-176 | so whatever a new object answers agrees with it: success, and the whole document where siblings have paths apart, with map orders of its own in each execution |
| MappingCache.MappingCache.GetCompiledMapping | lotus/pkg/processor/mapping_cache.go:63-110 | a hit is an unexpired entry and changes nothing but the count of hits; a miss counts, loads and stores under the key of the request |
| MappingCache.MappingCache.Store | lotus/pkg/processor/mapping_cache.go:95-110 | at capacity half the entries, at least one, make room; then the definition is stored |
| MappingCache.MappingCache.EvictHalf | lotus/pkg/processor/mapping_cache.go:113-123 | the loop changes no entry and leaves nothing of one entry, and otherwise half of them rounded up |
| MappingCache.MappingCache.InvalidateTenant | lotus/pkg/processor/mapping_cache.go:134-143 | deleting while ranging drops exactly the keys with the prefix of the tenant |
| MappingCache.AlwaysBounded | lotus/pkg/processor/mapping_cache.go:58-150 | under every interleaving of the locked sections: at most max(1, maxSize) entries, and, where the repository answers with the definition asked for, each under the key of its own tenant and mapping |
| MappingCache.HitsAreOwnAndCurrent | lotus/pkg/processor/mapping_cache.go:63-76 | for tenants that cannot collide a hit hands out what an earlier section stored for this very tenant and mapping, less than the time to live ago, with no invalidation of it since |
| MappingCache.TenantMatches | lotus/pkg/processor/mapping_cache.go:134-143 | for tenants that cannot collide a key matches the tenant if and only if it is of that tenant and its mapping identifier is not empty |
| MappingCache.InvalidateTenantExact | lotus/pkg/processor/mapping_cache.go:134-143 | so invalidating a tenant removes exactly its entries |
| MappingCache.KeysCollideExactly | lotus/pkg/processor/mapping_cache.go:58-60 | two tenants can share a key if and only if one identifier continues the other after a colon |
| MappingCache.ColonFree | lotus/pkg/processor/mapping_cache.go:58-60 | which colon-free identifiers never do |
| MappingCache.StaleExactly | lotus/pkg/processor/mapping_cache.go:63-143 | on every run no hit hands out a definition loaded before an invalidation of it, if and only if no request stores one invalidated between its load and its store |
| MappingCache.StaleStoreAfterInvalidate | lotus/pkg/processor/mapping_cache.go:83-107 | a request that loads before an invalidation and stores after it brings the old definition back |
| Levenshtein.LevenshteinDistance | ivy/pkg/matching/scoring.go:129-161 | the two-row loop computes the recursive edit distance |
| Levenshtein.ScriptsAreLonger | ivy/pkg/matching/scoring.go:128-161 | no sequence of single-byte insertions, deletions and substitutions is shorter than the distance |
| Levenshtein.ShortestScript | ivy/pkg/matching/scoring.go:128-161 | and one is exactly as long |
| Levenshtein.DistZero | ivy/pkg/matching/scoring.go:128-161 | the distance is zero if and only if the strings are equal |
| Levenshtein.DistSymmetric | ivy/pkg/matching/scoring.go:128-161 | it is symmetric |
| Levenshtein.DistTriangle | ivy/pkg/matching/scoring.go:128-161 | it satisfies the triangle inequality |
| Levenshtein.DistBounds | ivy/pkg/matching/scoring.go:128-161 | it lies between the difference of the lengths and the longer length |
| Levenshtein.SimilarityBounds | ivy/pkg/matching/scoring.go:119-126 | the similarity is symmetric, lies in [0,1], is 1 if and only if the strings are equal, and lacks to 1 the distance as a share of the longer length |
| Levenshtein.Levenshtein | ivy/pkg/matching/scoring.go:119-126 | the method returns that similarity |
| Jaro.FindMatches | ivy/pkg/matching/scoring.go:76-90 | the nested scan marks exactly the greedy pairing |
| Jaro.PartnersAreGreedy | ivy/pkg/matching/scoring.go:76-90 | a pairing is greedy, each byte taking the first free equal byte in its window, if and only if it is the one computed |
| Jaro.PairingIsMaximal | ivy/pkg/matching/scoring.go:76-90 | two equal bytes within reach are never both left unmarked |
| Jaro.PartnersAreNear | ivy/pkg/matching/scoring.go:76-90 | partners are equal bytes, no two bytes share one, and their places differ by at most half the longer length less one |
| Jaro.SameBytesKept | ivy/pkg/matching/scoring.go:76-109 | both strings mark the same bytes, equally often |
| Jaro.CountTranspositions | ivy/pkg/matching/scoring.go:96-109 | so the second scan stays within bounds, and counts the places where the marked bytes differ |
| Jaro.Jaro | ivy/pkg/matching/scoring.go:56-115 | the method computes the score from the pairing |
| Jaro.JaroBounds | ivy/pkg/matching/scoring.go:56-115 | over the reals the Jaro score lies in [0,1] and is 1 if and only if the strings are equal |
| Jaro.JaroExactly | ivy/pkg/matching/scoring.go:111-114 | three times the score is the share of bytes marked in either string plus the share of those not transposed |
| Jaro.JaroWinkler | ivy/pkg/matching/scoring.go:32-53 | the prefix loop, at most four bytes, gives the Jaro-Winkler score |
| Jaro.JaroWinklerBounds | ivy/pkg/matching/scoring.go:32-53 | Jaro-Winkler lies between Jaro and 1, and is 1 if and only if the strings are equal |
| Jaro.JaroWinklerExactly | ivy/pkg/matching/scoring.go:44-52 | each byte of the common prefix, up to four, takes a tenth off what the Jaro score lacks to one |
| Matching.ScoreRule | ivy/pkg/matching/service.go:639-779 | the loop returns the weighted mean, or nothing when a required condition fails or no weight counts |
| Matching.ScoreBounds | ivy/pkg/matching/service.go:771-778 | with weights that are not negative a score lies between zero and the weight of its rule, and reaches it if and only if everything that counts does so in full |
| Matching.JudgeExactly | ivy/pkg/matching/service.go:660-768 | what one condition adds to score and weight: the full weight where the rows agree or, inverted, do not; its share by similarity for fuzzy ones; a missing value fails a required condition and skips an optional one |
| Matching.ScoreExactly | ivy/pkg/matching/service.go:771-778 | the score is to the weight of the rule as the points of its conditions are to their weight |
| Matching.RuleHasNoMergeMatch | ivy/pkg/matching/service.go:575-634 | true if and only if some no-merge condition tells the rows to be the same or, inverted, apart, a missing row counting as apart |
| Matching.BlocksExactly | ivy/pkg/matching/service.go:600-631 | on rows: equal present texts or tokens, or a similarity at the threshold, trigger exactly the plain no-merge conditions; different ones, one below it or a missing row exactly the inverted ones; numbers and dates present on both sides none |
| Matching.EvaluateSingleCandidate | ivy/pkg/matching/service.go:527-570 | blocked if and only if some rule has a no-merge condition that triggers so; otherwise the score is the highest any rule gives |
| Matching.SelectBestFuzzyAnchor | ivy/pkg/matching/service.go:436-449 | the first condition with the highest anchor score |
| Matching.AnchorIsRequired | ivy/pkg/matching/service.go:451-462 | with thresholds of at most one a required condition is always preferred |
| Matching.QuerySelectsExactly | ivy/internal/repositories/matchfield/repository.go:147-343 | a query selects the rows with the same text or token, for fuzzy conditions the same text where it is near what the query compares with, and none for other kinds |
| Matching.AnchoredExactly | ivy/pkg/matching/service.go:358-432 | the query of a rule selects nothing when the source lacks a value for a required plain condition; else what is the same on every plain exact or phonetic condition the source has a value for or, without one, has the text of the source, near enough, on the fuzzy condition of highest threshold, required ones first, the first of equals |
| MatchFinding.Query | ivy/internal/repositories/matchfield/repository.go:147-343 | a limited query returns selected rows only, and all of them when they fit the limit |
| MatchFinding.GenerateCandidatesForRule | ivy/pkg/matching/service.go:358-432 | the candidates of a rule are exactly the rows its query selects, unless the limit cuts them |
| MatchFinding.GenerateCandidates | ivy/pkg/matching/service.go:318-355 | the candidates are the union over the rules, unless the cap is reached |
| MatchFinding.FindMatches | ivy/pkg/matching/service.go:212-307 | outcomes come by descending score, cut at the maximum: one for each candidate that some rule blocks, with score 0, and one for each other whose best rule score, which it carries, reaches the minimum; below the cap the candidates are the rows some query selects |
| MatchFinding.EvaluateCandidates | ivy/pkg/matching/service.go:471-524 | the candidates with rows that are blocked, or whose best rule score is enough, have one outcome each with that score, and no other has any |
| MatchFinding.SafeLosesNothing | ivy/pkg/matching/service.go:318-462 | a rule whose usable exact and phonetic conditions are all required, and whose fuzzy ones do not stand alone, selects everything it accepts |
| MatchFinding.OptionalConditionsDecide | ivy/pkg/matching/service.go:390-413 | of a rule with exact or phonetic conditions, the query selects an accepted candidate if and only if the candidate has the value of the source on every optional one of them |
| MatchFinding.FuzzyNeedsEqualText | ivy/internal/repositories/matchfield/repository.go:190-207 | a purely fuzzy rule selects what it accepts if and only if the text at its anchor is identical and is similar enough to the text the query compares with |
| MatchFinding.SourcePasses | ivy/internal/repositories/matchfield/repository.go:190-207 | which it is when that text is the source text |
| MatchFinding.NothingLost | ivy/pkg/matching/service.go:207-211 | below the caps generate-then-evaluate agrees with evaluating everything if and only if each match has equal values where the query of a rule accepting it looks, or happens to be selected by another rule |
| MatchFinding.NothingLostByOneRule | ivy/pkg/matching/service.go:207-211 | with one rule: if and only if every match has the value of the source on the optional exact and phonetic conditions, or on the fuzzy anchor, where the query takes it |
| MatchFinding.SafeRulesLoseNothing | ivy/pkg/matching/service.go:207-211 | safe rules lose nothing |
| MatchFinding.OptionalConditionDrops | ivy/pkg/matching/service.go:390-413 | an optional exact condition is ANDed into the query and drops a candidate that scores one half |
| MatchFinding.SimilarTextDropped | ivy/internal/repositories/matchfield/repository.go:190-207 | a purely fuzzy rule never reaches an entity that is only similar |
| Criteria.EvaluateCondition | ivy/pkg/criteria/criteria.go:110-175 | a condition is evaluated by its operator; an unknown operator is never met |
| Criteria.MeetsExactly | ivy/pkg/criteria/criteria.go:110-175 | what each operator asks of the value at the path of its field, absent values, non-lists and unknown operators included |
| Criteria.ComparesNumbers | ivy/pkg/criteria/criteria.go:234-279 | ordering operators compare values that are numbers or texts that parse to one, and accept nothing else |
| Criteria.TakenForSame | ivy/pkg/criteria/criteria.go:178-194 | values are taken for the same when they are or are formatted alike; null only for itself |
| Criteria.ParseCriteria | ivy/pkg/criteria/criteria.go:38-63 | exactly the conditions the criteria map stands for, in any order |
| Criteria.MatchesCriteria | ivy/pkg/criteria/criteria.go:65-86 | true if and only if every condition of the map is met |
| Criteria.SplitCriteria | ivy/pkg/criteria/criteria.go:315-336 | the equalities on one side, exactly the operator conditions on the other |
| Criteria.BuildJSONBContainment | ivy/pkg/criteria/criteria.go:340-354 | the containment document, built in whatever order the fields come |
| Criteria.ContainsBuilt | ivy/pkg/criteria/criteria.go:340-371 | for scalar values at prefix-free paths a document contains it if and only if it has every value at its path, in any order |
| Criteria.SplitAgrees | ivy/pkg/criteria/criteria.go:315-371 | containment of the simple part and evaluation of the rest accept exactly what evaluating everything accepts, where equal values of a field are the same value |
| CriteriaSplit.SplitExactly | ivy/pkg/criteria/criteria.go:315-371 | for criteria asking for scalars they agree on every document, in whatever order the containment document was built, if and only if no field lies above another and no other value is taken for one asked for |
| Criteria.SameTypeSuffices | ivy/pkg/criteria/criteria.go:178-194 | which holds wherever document and criterion have scalars of one type |
| Criteria.CoercionDiverges | ivy/pkg/criteria/criteria.go:192-193 | across types the evaluation accepts a number written as text, containment does not |
| Criteria.OverlapDiverges | ivy/pkg/criteria/criteria.go:357-371 | where one field lies above another, containment loses a condition in either order |
| CriteriaJoin.EveryMatchRecorded | ivy/pkg/processor/processor.go:97-154 | for every interleaving of single statements: once all messages have finished, every never-deleted criteria and every live entity of matching type, integration and current data have a recorded match |
| CriteriaJoin.EveryMatchWasTrue | ivy/pkg/processor/processor.go:211-258 | a recorded match has the right target and was true of the entity at some time |
| CriteriaHistory.MatchesAreOffers | ivy/pkg/processor/processor.go:97-258 | once all messages have finished, a pair is recorded if and only if some read statement of the run found the criteria live and of the right target and the condition true of the data its message carried |
| CriteriaHistory.LastWriteWins | ivy/internal/repositories/stagedentity/repository.go:229-257 | on every run a key of an entity has the value of the last message for it that carried the key, and no key is there that none carried |
| CriteriaHistory.RevivedCriteriaExactly | ivy/pkg/processor/processor.go:587-652 | after a message revives a criteria, its matches are complete if and only if every entity that now satisfies it was found by some earlier statement |
| CriteriaJoin.RevivalMissesMatches | ivy/internal/repositories/stagedrelationshipcriteria/repository.go:71-94 | so a match can be missing for good when the entity came while the row was deleted |
| CriteriaEvaluator.Evaluator.ProcessEntity | ivy/pkg/processor/processor.go:443-474 | alone, an entity message stores each key it carries, keeps every other key and adds none, and records exactly the live criteria of its type and integration whose every condition that data meets, and counts them |
| CriteriaEvaluator.Evaluator.EvaluateCriteriaForNewEntity | ivy/pkg/processor/processor.go:97-154 | the loop over criteria is a run of statements of the join, and records and counts exactly the matching ones |
| CriteriaEvaluator.Evaluator.ProcessCriteria | ivy/pkg/processor/processor.go:587-652 | alone, a criteria message records exactly the matching live entities if the row is new, and nothing otherwise |
| CriteriaEvaluator.Evaluator.EvaluateCriteriaForNewCriteria | ivy/pkg/processor/processor.go:211-258 | the loop over entities is a run of statements of the join, and records and counts exactly the matching ones |
| Canonical.PrintPrefix | ivy/pkg/fingerprint/fingerprint.go:51-109 | no canonical text followed by a delimiter can be read as the text of another document (sections 2 and 7 of RFC 8259) |
| Canonical.PrintInjective | ivy/pkg/fingerprint/fingerprint.go:51-109 | two documents have the same text if and only if they are equal |
| Canonical.AscendingUnique | ivy/pkg/fingerprint/fingerprint.go:65-70 | sorting the keys removes the order of the map |
| Canonical.LessExactly | ivy/pkg/fingerprint/fingerprint.go:65-70 | and that order is by characters: a proper beginning comes first, else the first difference decides |
| Canonical.EscapedReadsBack | ivy/pkg/fingerprint/fingerprint.go:58-61 | a reader of section 7 of RFC 8259 gets back every string that is written, and what is written has no control characters and none of the five that are special to HTML |
| Fingerprint.CanonicalizeWithExclusions | ivy/pkg/fingerprint/fingerprint.go:51-62 | the canonical text is the text of the document without its excluded fields |
| Fingerprint.CanonicalizeMap | ivy/pkg/fingerprint/fingerprint.go:64-96 | the loop over sorted keys prints exactly the retained fields |
| Fingerprint.CanonicalizeArray | ivy/pkg/fingerprint/fingerprint.go:98-109 | array elements keep the path of their array |
| Fingerprint.ShouldExcludeField | ivy/pkg/fingerprint/fingerprint.go:113-131 | excluded if and only if listed as true, or below any listed path whatever its value |
| Fingerprint.SameTextSameData | ivy/pkg/fingerprint/fingerprint.go:51-131 | two documents have the same text if and only if they are equal after removing the excluded paths |
| Fingerprint.PruneTwice | ivy/pkg/fingerprint/fingerprint.go:72-85 | removing excluded paths twice is removing them once |
| Fingerprint.GenerateFromJSON | ivy/pkg/fingerprint/fingerprint.go:35-41 | the fingerprint of an object is that of the text of its retained fields, null reads as an empty object, and anything else is an error |
| Fingerprint.PrefixTestExactly | ivy/pkg/fingerprint/fingerprint.go:111-131 | the prefix test never changes the result of exact matching, whatever is excluded, if and only if what stands before a dot in the path of a field is always the path of a field around it |
| Fingerprint.PrefixTestAddsNothing | ivy/pkg/fingerprint/fingerprint.go:111-131 | where no key is empty: if and only if no key has a dot |
| Fingerprint.DottedKeyDiffers | ivy/pkg/fingerprint/fingerprint.go:123-128 | a top-level key with a dot is taken for a nested path |

## Left out

- Tenant scoping, identifiers, timestamps, versions, the primary flag and the merged data of entities: one tenant is modelled, and identifiers are abstract values.
- MergeEngine.Engine.ProcessEntityDeletion: one atomic step, where the consumer issues separate statements without a transaction and can crash or be overtaken between them; `ClusterRuns.LateCompletionDangles` shows for completion what atomicity is needed for.
- Hard deletes of entities or criteria, which take their matches along by cascading.
- Database errors other than the unique rows of memberships, and messages lost or out of order before they reach a consumer.
- The repositories behind the services are modelled as tables with the effect of their statements; jsonb merging is the union of top-level keys.
- Aliasing of Go maps and slices: nested maps, items and fields are values, reassigned by the methods that change them.
- Actions, action types and conversions of values to field types: uninterpreted functions, the shared-rule mutation of action definitions is not modelled.
- Extraction of source values from a document, lookup by path beyond the plain walk along present keys, brackets in paths, and aggregation over slices.
- Arrays directly inside arrays: the parent table has no rows for them, and `FieldPaths.Unique` excludes them.
- MappingRun.Execute: performs the target writes after the links instead of between them; a refused write fails both.
- MappingPool.Pool.ExecuteMappingPooled: an execution starts from the source values already extracted, which the plan carries; trace identifiers are not modelled.
- Match details, rule names and the order of outcomes with equal scores.
- Keys of match-field rows are triples here, joined with a bar in the code; fields containing a bar could collide there.
- Trigram similarity, `%v` formatting, number parsing, hashing and shortest decimals of floating-point numbers are known only by their results.
- Floating-point rounding: scores are real numbers.
- Invalid UTF-8: documents come from the JSON decoder, which leaves none.
- Criteria.SplitAgrees: assumes scalar values, prefix-free fields and equal values being identical; `CriteriaSplit.SplitExactly` shows that none of it can be dropped where all conditions ask for scalars. Arrays as simple values are not covered.
- The Soundex code and the normalizers: stored texts and tokens are given.
- Merging of field values by strategy (`ivy/pkg/merging/field_merger.go`), validation of documents against a schema, and extraction of match fields and relationships from documents.
- The separate matching engine of `ivy/pkg/matching/engine.go` with its own index table and scoring by match criteria; only the rule-based service of `service.go` is modelled.
- The deletion engine and its strategies, relationship embedding, Kafka, graph, HTTP and tracing code: I/O and wrappers.
