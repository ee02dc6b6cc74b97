# A verified model of libopenapi's stateful and recursive core

This project models the parts of libopenapi whose correctness depends on state, on schedules or on
recursion over graphs, and proves properties of them for all inputs and all runs. The modules follow
the components of the program:

- **Ordered parallel translation** (`TranslateJob`, `TranslateParallel`, `TranslatePipeline`): worker
  pools as transition systems over the atomic actions of feeder, workers and collector. A schedule is
  any sequence of enabled actions. The pool is proved to refine the sequential loop, the pipeline to send
  an honest prefix; both always end, and only by returning.
- **Arazzo scheduling** (`ArazzoModel`, `DependencyGraph`, `TopologicalSort`, `ValidatorCycles`,
  `ArazzoTrace`, `ArazzoEngine`): the topological sort, the validator's own cycle search, and the engine
  as a class that runs workflows on a shared execution state. The executor is an arbitrary function of the
  number of the call. Criteria, inputs and outputs, where a step or workflow has any, answer arbitrarily, and so
  does the context, if it can be cancelled. What a run did is a ghost trace of steps, from state to state, with the
  actions selected and the decisions; retry and length bounds are proved of all legal traces.
- **Graphs of YAML nodes** (`YamlNode`, `CloneNode`, `HashNode`, `CircularReferences`): nodes are heap
  objects that may be shared and form cycles.
- **References and merge keys** (`ResolveRefs`, `MergeKeys`, `MergeKeyPairs`): local `$ref` expansion with
  sibling override on trees, and YAML merge keys on the heap.
- **Overlays** (`OverlayMerge`, `OverlayTree`, `OverlayClone`, `OverlayNode`, `OverlayForest`,
  `OverlayWorld`, `OverlayRelation`, `OverlayKeyPath`, `OverlayMerging`, `OverlayPrune`, `OverlayIndex`,
  `OverlayRemove`, `OverlayQuery`, `OverlaySteps`, `OverlayEngine`, `OverlayTangle`): documents are trees of
  heap nodes changed in place. Ghost snapshots say what trees the heap holds: the document, the updates and
  whatever was cut off. The meaning of merging and of removing is given on snapshots and plain values. The
  JSONPath engine is an arbitrary function from a path and a document's value to positions in it.
- **Text transforms** (`JsonEscapes`, `Expressions`): the JSON escape normaliser (RFC 8259 section 7,
  RFC 2781 section 2.2, RFC 3629 section 3) and the tokenizer for embedded runtime expressions.

The file `Common.dfy` holds the usual option and result datatypes.

What the proofs brought to light about the code:

- `isInfiniteCircularDependency` does not see a cycle that the start merely leads into
  (`CircularReferences.InnerCycleIsNotInfinite`); what it does decide is stated exactly.
- Reference resolution can make a new `$ref`, resolvable and not being expanded, where a `$ref` key's value
  is itself a mapping that resolves to a scalar (`ResolveRefs.ResolutionCanMakeARef`). A mapping keeps its
  own ref on all targets exactly if no ref value collapses in this way
  (`ResolveRefs.RefIsKeptUnlessItCollapses`), and every leftover ref has an excuse on all targets exactly if
  no mapping below is one that collapses (`ResolveRefs.PlainExactly`).
- The topological sort answers correctly for all dependencies exactly if the workflow ids are unique
  (`TopologicalSort.RightExactlyOnUniqueIds`). A repeated id makes it report a cycle where nothing depends
  on anything; it can also hide a cycle (`TopologicalSort.RepeatedIdHidesCycle`).
- The validator's search leaves ids on its recursion stack after it has found a cycle, so only the first
  path it records is known to be a real cycle. Validator and engine treat unnamed and repeated workflow ids
  differently; that they agree is proved for unique, non-empty ids.
- The update of an overlay is idempotent on every target exactly if it has no sequence items, given that
  none of its mappings repeats a key (`OverlayMerge.IdempotentWithoutItems`). Merging a scalar into a
  scalar takes over the value only; the target's tag and style stay.
- Copying a mapping into a mapping that has it below can merge into the source while its pairs are being
  read, and then read beyond its end (`OverlayTangle.TangledCopyReadsTooFar`). With distinct keys the merge
  comes to the source exactly if the source itself has a value at the keys that lead from the target to it
  (`OverlayMerging.MergeNode`, `OverlayKeyPath.NeverMet`); in every other copy the source stays as it is, or
  has the target in its own tree.
- Merge keys stay in place when the merge yields nothing: exactly in a mapping without pairs of its own whose
  sources all yield nothing (`MergeKeys.MergeKeysStay`), such as one that merges a scalar only
  (`MergeKeys.ScalarMergeStays`).
- Tokens of `ParseEmbedded` alternate between literals and expressions exactly if no two expression blocks are
  adjacent (`Expressions.AlternatesWhenSeparated`, `Expressions.AdjacentBlocks`); literals are never adjacent.
- In the map variant of the parallel translation, `Continue` is an ordinary error, unlike in the slice
  variant.

## Model

| member | source | states |
|---|---|---|
| TranslateParallel.TranslateInline | datamodel/translate.go:56-81 | the inline loop calls result and stops as the sequential meaning says |
| TranslateParallel.SequentialStopsFirst | datamodel/translate.go:58-80 | the sequential meaning: outputs of all indices before the first stop, in order, skipping Continue, and that stop's error with EOF masked |
| TranslateParallel.FirstErrorIsReturned | datamodel/translate.go:58-80 | in terms of what translate() and result() answer alone: the loop stops at the first index where one of them gives an error other than a Continue of the slice variant, and returns that error exactly if it is not EOF |
| TranslateParallel.StepKeepsInv | datamodel/translate.go:95-171 | every action of feeder, workers and collector keeps the invariant: each index is in at most one place, records are genuine, what was delivered is the sequential prefix |
| TranslateParallel.DeliverRefines | datamodel/translate.go:147-168 | delivering the next record in order does what the sequential loop does at that index |
| TranslateParallel.EverythingArrived | datamodel/translate.go:119-137 | when doneChan is closed and drained without a stop, every index has been delivered |
| TranslateParallel.SendNeverBlocks | datamodel/translate.go:88-89 | the buffer of doneChan always has room, so a worker never blocks on sending |
| TranslateParallel.NeverStuck | datamodel/translate.go:95-171 | in every reachable state that has not returned some action is enabled |
| TranslateParallel.EveryScheduleRefinesTheLoop | datamodel/translate.go:46-51 | for every schedule: no index is translated twice, what is delivered is a prefix of the sequential deliveries, and a return is the sequential outcome, with every index translated if nothing stopped |
| TranslateParallel.EveryScheduleReturns | datamodel/translate.go:86-171 | schedules are bounded in length, and one cannot be continued exactly when the call has returned |
| TranslateParallel.ThresholdIsUnobservable | datamodel/translate.go:56-58 | what the pool may return is exactly what the inline loop returns, for both the slice and the map variant |
| TranslatePipeline.StepKeepsInv | datamodel/translate.go:316-417 | every action, including a dropped error result and an early cancel, keeps the invariant |
| TranslatePipeline.OutputIsAnHonestPrefix | datamodel/translate.go:390-416 | in every reachable state the values sent are the in-order outputs, Continue left out, of a prefix of the inputs that contains no failed input |
| TranslatePipeline.ReturnTellsTheTruth | datamodel/translate.go:394-417 | a nil return means every input was translated, none failed and all outputs were sent; an error return is the error of some failed input |
| TranslatePipeline.NoFailureLosesNothing | datamodel/translate.go:300-305 | when no input fails, a return is nil with every output sent |
| TranslatePipeline.NeverStuck | datamodel/translate.go:316-417 | unless the call has returned and its goroutines ended, some action is enabled |
| TranslatePipeline.EveryScheduleReturns | datamodel/translate.go:300-314 | no input is translated twice; every schedule is bounded, and one cannot be continued exactly when the call has returned and all goroutines have ended |
| DependencyGraph.OrderedHasNoCycle | arazzo/engine.go:345-407 | a graph whose ids can be listed dependencies first has no cycle |
| DependencyGraph.DeadEndIsCycle | arazzo/engine.go:402-404 | ids that each depend on one another of their number contain a cycle |
| DependencyGraph.LassoIsCycle | arazzo/validation.go:829-832 | a dependency chain that runs back into itself contains a cycle |
| TopologicalSort.CountDegrees | arazzo/engine.go:350-376 | adjacency lists and in-degrees count exactly the dependsOn entries that name known workflows, repeated ones included |
| TopologicalSort.InitialQueue | arazzo/engine.go:378-387 | the queue starts with the workflows of in-degree zero, in document order |
| TopologicalSort.Release | arazzo/engine.go:394-399 | one decrement keeps in-degree equal to the dependencies still pending and queues the dependent exactly at zero |
| TopologicalSort.ReleaseAll | arazzo/engine.go:389-400 | taking one id from the queue releases all its dependents |
| TopologicalSort.QueueDecides | arazzo/engine.go:402-406 | at the end the queue lists all ids exactly when the graph has no cycle, and then dependencies first |
| TopologicalSort.TopologicalSort | arazzo/engine.go:345-407 | with unique ids: the circular error exactly when the graph restricted to known ids has a cycle, and otherwise every id once with every known dependency before its dependent; with any ids, when nothing depends on one of in-degree zero: those ids in document order, or the error if their number differs from that of all ids |
| TopologicalSort.RightExactlyOnUniqueIds | arazzo/engine.go:350-354 | over all dependsOn lists for given ids, the error tells whether there is a cycle exactly if the ids are unique |
| TopologicalSort.RepeatedIdHidesCycle | arazzo/engine.go:402-404 | an id listed twice makes up for one on a cycle: no error is reported |
| ValidatorCycles.CycleSearch.Dfs | arazzo/validation.go:818-837 | the recursive search finishes ids after their dependencies, and the first path it records is a chain into itself |
| ValidatorCycles.CycleSearch.CheckAll | arazzo/validation.go:839-843 | taking the ids in any order, an error is recorded exactly when there is a cycle |
| ValidatorCycles.BuildAdjacency | arazzo/validation.go:806-812 | the map of the named workflows' dependsOn lists |
| ValidatorCycles.CheckCircularDependencies | arazzo/validation.go:805-844 | at least one circular error exactly when the named workflows' dependencies have a cycle, and the first recorded path is a real one |
| ValidatorCycles.ValidatorAgreesWithSort | arazzo/validation.go:805-844 | with unique non-empty ids the validator reports a circular error exactly when the engine's sort fails |
| ArazzoTrace.RetriesAreCapped | arazzo/actions.go:123-131 | in every legal trace, jumps or not, a retry counter never exceeds the largest limit selectable for its step |
| ArazzoTrace.ReportedRetriesAreCapped | arazzo/engine.go:277-279 | every reported StepResult.Retries is at most that limit |
| ArazzoTrace.ForwardProgress | arazzo/engine.go:262-328 | without gotos to steps, a trace up to a position is no longer than the budget of the steps before it |
| ArazzoTrace.RunsAreBounded | arazzo/engine.go:262-328 | without gotos to steps, a run executes at most the sum over its steps of one plus the limit |
| ArazzoTrace.CapIsOutOfReach | arazzo/engine.go:269-274 | if that sum is at most 1024 and no action jumps to a step, the transition cap is never hit |
| ArazzoTrace.ExtendRun | arazzo/engine.go:276-328 | one more step and decision extends a legal trace and its reported results |
| ArazzoTrace.WithoutActions | arazzo/engine.go:281-327 | without actions, every successful step is followed by the next one, and a failed one ends the run with its error |
| ArazzoTrace.FirstActionIsTaken | arazzo/actions.go:142-192 | a first action that has no criteria is selected, and end, goto step and retry then decide as specified |
| ArazzoEngine.Engine.constructor | arazzo/engine.go:103-114 | the engine's table holds exactly the document's ids, each with the last workflow that has it |
| ArazzoEngine.Engine.FindMatchingAction | arazzo/actions.go:168-192 | the action picked is the first that may match; none is picked only if each has criteria; it fails only at the first action that does not resolve, with that error, or at one that has criteria |
| ArazzoEngine.Engine.SelectAction | arazzo/actions.go:142-154 | a step's own actions come before the workflow's, for a choice, for none, and for a failure |
| ArazzoEngine.Engine.ProcessAction | arazzo/actions.go:92-140 | end, goto step and retry within its limit decide as specified and change nothing; a goto to a workflow runs it, and ends or fails exactly as that run did |
| ArazzoEngine.Engine.ExecuteStep | arazzo/step.go:17-118 | unless its inputs fail, a step makes exactly one executor call and takes over an error it answers, or runs its workflow and takes over an error of that run; only its own criteria and outputs can fail it afterwards |
| ArazzoEngine.Engine.Act | arazzo/engine.go:281-327 | after a step, success or failure actions are selected and processed; nothing else happens unless a workflow was chosen |
| ArazzoEngine.Engine.Decide | arazzo/engine.go:281-327 | the loop's next position, end or error, determined by the selected action and the step's outcome |
| ArazzoEngine.Engine.TakeTurn | arazzo/engine.go:276-327 | one iteration: execute, report the error and the retry count, update it, decide, from state to state |
| ArazzoEngine.Engine.IndexSteps | arazzo/engine.go:256-260 | the index of a step id is the last step that has it |
| ArazzoEngine.Engine.RunSteps | arazzo/engine.go:254-328 | the loop terminates on every document and leaves a legal trace of steps that were executed one after the other; without a cancellable context it stops only at the end, by an action, by a failure or at the cap |
| ArazzoEngine.Engine.RunWorkflow | arazzo/engine.go:222-343 | refused, changing nothing, exactly for an active id, at depth 32 or for an unknown id, in that order; otherwise the result concludes a legal trace of executed steps, and is recorded on the state the last of them left; on every exit the active set and depth are as before, and every recorded result a nested run has changed concludes some legal trace |
| ArazzoEngine.Engine.CallsDecide | arazzo/engine.go:262-342 | a workflow of at most 1024 plain executor steps without actions, uncancelled, takes its steps in order, one call each, up to the first answer that is an error, which is its own error; otherwise it succeeds |
| ArazzoEngine.Engine.RunWorkflowById | arazzo/engine.go:147-157 | from a fresh state, at most 1025 to the power of min(32, number of workflows) executor calls |
| ArazzoEngine.Engine.DependencyError | arazzo/engine.go:409-423 | no error exactly when every dependency has a successful recorded result, and otherwise that of the first one that is missing or has failed |
| ArazzoEngine.Engine.RunOne | arazzo/engine.go:178-208 | a known workflow is run exactly if all its dependencies' latest results are successes; then its result concludes the legal trace of that run, and otherwise it has no steps and nothing but that result is recorded |
| ArazzoEngine.Engine.KnownDependenciesRecorded | arazzo/engine.go:184-194 | when a workflow's turn comes, each known dependency has a recorded result |
| ArazzoEngine.Engine.RunAll | arazzo/engine.go:159-213 | unless cancelled: the circular error exactly on a cycle, else one result per workflow, dependencies first; success exactly if all succeeded. The turns form a chain from the empty state to the final one, each starting from the recorded results that the one before left; in each the body is started exactly if the results recorded by then of all dependencies are successes, and the reported result is the one recorded |
| ArazzoEngine.CostFits | arazzo/engine.go:269-274 | the executor calls of 1024 transitions fit the bound of the next depth |
| CloneNode.Cloner.Register | utils/clone_node.go:45-51 | a fresh copy with equal fields, the anchor cleared under the flag, is registered before anything below it is copied |
| CloneNode.Cloner.Clone | utils/clone_node.go:37-63 | terminates on cycles; the seen map only grows, by fresh copies, and finished copies mirror their originals |
| CloneNode.CloneYAMLNodeWithFlags | utils/clone_node.go:25-35 | on any finite graph the copy is an isomorphic image on fresh nodes of everything below the node, or below the first child of a document that is to be unwrapped: same sharing, same cycles, same fields; nothing that existed changes |
| CloneNode.CopyIsEqual | utils/clone_node.go:45-61 | field by field: a copied node has all fields of the original but a stripped anchor, and its alias and children are the copies of the original ones |
| CloneNode.CopyIsSeparate | utils/clone_node.go:20-35 | no reference leads from the copy into the original |
| HashNode.DecimalMeans | index/utility_methods.go:711-727 | the decimal digits denote the number, without leading zeros |
| HashNode.Hasher.WriteInt | index/utility_methods.go:713-727 | filling the buffer backwards writes the decimal digits; a negative number writes nothing |
| HashNode.DfsAllAppend | index/utility_methods.go:764-789 | the recursive preorder of a list of nodes is that of its parts in turn |
| HashNode.ExpandTop | index/utility_methods.go:779-788 | replacing the top of the stack by its children leaves the preorder stream to be written |
| HashNode.Feed | index/utility_methods.go:747-789 | on any graph, shared or cyclic, the stack loop writes the stream of the recursive preorder that skips visited nodes |
| HashNode.ParentThenChildren | index/utility_methods.go:779-788 | for a node with different childless children: its tag, line and column in decimal and value, and then those of the children in order |
| HashNode.NodeHasher.HashNode | index/utility_methods.go:732-799 | with or without the cache, the result is the hash of that stream |
| CircularReferences.Search.IsInfinite | index/resolver_circular.go:91-129 | the recursive search with its shared visited map: a true answer is a real infinite chain, a false one leaves only harmless edges |
| CircularReferences.HarmlessIsFinite | index/resolver_circular.go:111-128 | if all visited definitions are harmless, nothing infinite is reachable |
| CircularReferences.IsInfiniteCircularDependency | index/resolver_circular.go:91-129 | true exactly when the start lies on a cycle of required edges or reaches a definition with an edge to itself, in any key order |
| CircularReferences.InnerCycleIsNotInfinite | index/resolver_circular.go:103-110 | a cycle the start merely leads into is not reported |
| ResolveRefs.MergeResolvedMappingWithSiblings | index/resolve_refs_node.go:134-164 | the loop with the position map computes the merge that puts each sibling in turn |
| ResolveRefs.Resolver.ResolveNode | index/resolve_refs_node.go:19-37 | computes the recursive meaning and restores the set of refs being expanded |
| ResolveRefs.Resolver.ResolveMappingNode | index/resolve_refs_node.go:39-83 | the same for mappings: expansion, siblings and all fall-backs |
| ResolveRefs.ResolveRefsInNode | index/resolve_refs_node.go:9-17 | terminates on cyclic refs; without an index the node itself |
| ResolveRefs.UnexpandedIsCloned | index/resolve_refs_node.go:41-64 | a mapping whose first scalar `$ref` does not begin with `#/`, is being expanded or is not found keeps its fields and keys, with its values resolved |
| ResolveRefs.OutsideRefStays | index/resolve_refs_node.go:46-49 | a ref that does not begin with `#/` stays, unless a `$ref` value before it becomes a scalar |
| ResolveRefs.InsideRefIsReplaced | index/resolve_refs_node.go:51-68 | a ref that begins with `#/`, is found, is not being expanded and stands alone is replaced by its target's resolution |
| ResolveRefs.InsideRefIsOverridden | index/resolve_refs_node.go:70-82 | with other keys beside it, the target's resolution with these keys' resolved values in it, if it is a mapping or a document of one; else the mapping stays, with its values resolved |
| ResolveRefs.OthersKeepTheirFields | index/resolve_refs_node.go:24-36 | a sequence keeps its fields with its items resolved in place, any other node stays as it is |
| ResolveRefs.SiblingsWin | index/resolve_refs_node.go:149-161 | a key of the merge has its sibling value if it has one, else its resolved value |
| ResolveRefs.MergeKeepsKeyOrder | index/resolve_refs_node.go:140-161 | the keys of the merge are the resolved keys in their places, followed by the new names of the siblings, each once and in their order |
| ResolveRefs.RefIsKeptUnlessItCollapses | index/resolve_refs_node.go:96-106 | a mapping keeps the local ref it has, or its lack of one, on all targets, exactly if no ref value collapses |
| ResolveRefs.MarkIsSound | index/resolve_refs_node.go:19-132 | with every mapping marked by the refs expanded above it, which never changes the result: each local ref left in a resolved tree is one of its own mark, unresolvable there, or has siblings beside a target that resolves there to no mapping |
| ResolveRefs.LeftoversAreExcused | index/resolve_refs_node.go:39-83 | the same for the whole result; moreover every ref of a leftover's mark leads to it, so that one left below itself is circular |
| ResolveRefs.PlainExactly | index/resolve_refs_node.go:96-106 | for mappings without nil or repeated `$ref` keys, that holds on all plain targets exactly if no ref value below collapses |
| ResolveRefs.ResolutionCanMakeARef | index/resolve_refs_node.go:96-106 | an input on which a local ref without an excuse is left |
| MergeKeys.Expander.ExpandMergeContent | utils/utils.go:355-400 | computes the recursive meaning and restores the visited set; terminates on alias cycles through mappings |
| MergeKeys.Expander.AppendExpandedMergeContent | utils/utils.go:402-437 | appends the pairs of a source whose keys are new |
| MergeKeys.CheckForMergeNodes | utils/utils.go:1282-1297 | replaces the content by its expansion unless there is nothing to merge or the expansion is empty, and changes no other field |
| MergeKeys.EmptyExpansion | utils/utils.go:355-400 | an expansion is empty exactly if there is no local pair and no source yields one |
| MergeKeys.MergeKeysStay | utils/utils.go:1291-1294 | the merge keys stay exactly then |
| MergeKeys.ScalarMergeStays | utils/utils.go:1291-1294 | a mapping that merges only a scalar is such an input |
| MergeKeys.ExpandHasNoMerge | utils/utils.go:355-400 | no merge key is left in an expansion |
| MergeKeys.LocalPairsFirst | utils/utils.go:377-399 | local pairs stay in front in order; every merged-in key is new and appears once |
| MergeKeys.ExpandMeansLookup | utils/utils.go:355-437 | looking up a key: its local value, else that of the first merge source that has it, recursively |
| MergeKeys.LookupIsPlain | utils/utils.go:363-367 | for acyclic merges the guard against cycles is invisible |
| MergeKeyPairs.OneMerge | utils/utils.go:369-436 | from the node fields alone: a mapping with one merge key for a mapping, direct or through an alias, becomes all its local pairs in order and then the pairs of the other whose names are new, each key with its own value |
| MergeKeyPairs.AliasIsItsTarget | utils/utils.go:720-730 | an alias is expanded and merged as what it points to, whatever name it carries |
| MergeKeyPairs.FirstIsItsValue | utils/utils.go:389-392 | looking up a name, as in the statements on expansions, gives the value of its first key |
| MergeKeyPairs.PlainIsItself | utils/utils.go:359-371 | a mapping, by kind or tag, without merge keys is its own expansion; anything else has none |
| JsonEscapes.EncodeRune | datamodel/spec_info.go:545-547 | the four bytes are well-formed UTF-8 for the code point (RFC 3629 section 3) and contain no backslash |
| JsonEscapes.DecodeJSONUnicodeEscape | datamodel/spec_info.go:560-574 | the value of four hex digits, or nothing |
| JsonEscapes.JsonEscapeReplacement | datamodel/spec_info.go:516-551 | exactly the escaped slash and an escaped surrogate pair are replaced |
| JsonEscapes.NormalizeJSONForYAMLParser | datamodel/spec_info.go:473-514 | the scan with its two cursors computes the rewriting; the input itself if nothing is rewritten |
| JsonEscapes.MeaningPreserved | datamodel/spec_info.go:473-475 | the decoded code points are unchanged, for all bytes whatever |
| JsonEscapes.NothingIsLeft | datamodel/spec_info.go:521-550 | the result has no escaped slash and no escaped surrogate pair |
| JsonEscapes.UnchangedAndIdempotent | datamodel/spec_info.go:508-510 | unchanged exactly when nothing needs rewriting; rewriting twice is rewriting once |
| JsonEscapes.WrittenPairBecomesItsCharacter | datamodel/spec_info.go:525-547 | every code point beyond the basic plane, written as the two escaped surrogates of RFC 2781 section 2.1 in small or capital hex digits, becomes its four bytes of UTF-8 |
| JsonEscapes.OtherUnitsStay | datamodel/spec_info.go:525-543 | any other escaped code unit stays as it is written |
| JsonEscapes.ShortEscapes | datamodel/spec_info.go:521-524 | an escaped slash loses its backslash, other two-byte escapes stay |
| JsonEscapes.Utf8Means | datamodel/spec_info.go:473-475 | the decoding under which the meaning is preserved reads every code point from its UTF-8 (RFC 3629 section 3) |
| JsonEscapes.ShortEscapesMean | datamodel/spec_info.go:473-475 | and the two-byte escapes as RFC 8259 section 7 has them |
| Expressions.ParseIsWritten | arazzo/expression/parser.go:36-234 | a text is accepted with given parts exactly when the grammar of runtime expressions writes these parts so |
| Expressions.PartsDetermineText | arazzo/expression/parser.go:128-234 | two accepted texts with equal type, name, tail, property and pointer are equal, but for a trailing dot after a name or component, or number sign after a body |
| Expressions.HeaderNames | arazzo/expression/parser.go:136-149 | a header name is accepted exactly if it is one or more visible ASCII characters without the delimiters of RFC 7230, and is the property |
| Expressions.ParseEmbedded | arazzo/expression/parser.go:236-280 | the loop computes the tokens as read block by block |
| Expressions.OpenIsFirst | arazzo/expression/parser.go:247-253 | no opening before the one found |
| Expressions.WriteAfterParse | arazzo/expression/parser.go:236-280 | accepted tokens are well-formed (no opening in a literal, no two literals adjacent) and writing them gives the text back |
| Expressions.ParseAfterWrite | arazzo/expression/parser.go:236-280 | every well-formed token list is read back from its written form |
| Expressions.RoundTrips | arazzo/expression/parser.go:37-280 | both round trips for the runtime expressions |
| Expressions.AlternatesWhenSeparated | arazzo/expression/parser.go:236-280 | the tokens of an accepted text alternate between literals and expressions exactly when no block directly follows another |
| Expressions.AdjacentBlocks | arazzo/expression/parser.go:236-280 | any two expressions without a closing brace in adjacent blocks are read as two tokens without a literal between them |
| OverlayMerge.KeysStayInPlace | overlay/engine.go:227-243 | existing keys keep their places, new keys follow in the update's order, each once |
| OverlayMerge.LookupOfMerge | overlay/engine.go:227-243 | each key's value is its old one merged with the update's values for that key |
| OverlayMerge.Idempotent | overlay/engine.go:212-250 | an update with distinct keys and no sequence items can be merged twice with the same outcome |
| OverlayMerge.IdempotentWithoutItems | overlay/engine.go:212-250 | for updates with distinct keys, that is so on every target exactly if there are no items |
| OverlayClone.CloneTree | overlay/engine.go:212-250 | the deep copies that merges insert are equal trees on new nodes |
| OverlayTree.SnapshotIsComplete | overlay/engine.go:212-220 | the snapshots that all statements on overlays are about hold every field of the nodes |
| OverlayNode.Overwrite | overlay/engine.go:213-216 | a target of another kind becomes a copy of the update |
| OverlayNode.SetValue | overlay/engine.go:217-220 | a scalar takes over the value and nothing else |
| OverlayNode.AppendCopy | overlay/engine.go:242-249 | a copy of a node, in a mapping with its key, goes to the end of the content |
| OverlayNode.FindKey | overlay/engine.go:233-240 | the first key of that name |
| OverlayWorld.SubAfter | overlay/engine.go:212-225 | a subtree apart from the target is the same after a merge; one around the target has the target's new subtree in the same place |
| OverlayMerging.MergeSequence | overlay/engine.go:245-250 | copies of all items are appended; the value is the merge of the two also for a sequence appended to itself, and only not for a target inside an item |
| OverlayMerging.MergeEntry | overlay/engine.go:229-242 | one pair is merged into the value of its key or appended, unless that value is the source of the copy |
| OverlayMerging.MergeMapping | overlay/engine.go:227-243 | all pairs are merged in order, the number of pairs being read anew at each, unless the merge comes to the source; it ends even if the target is the merged mapping or part of it |
| OverlayMerging.MergeNode | overlay/engine.go:212-225 | in place, however target, merged node and source lie: only the target's tree changes, nodes that stay keep their parents in any index, new nodes are fresh. A source below the target is unchanged, and with distinct keys the merge comes to it exactly if what is merged has a value at the keys that lead to it. The target becomes the merge of the two values, unless it is inside the merged node or is a mapping with repeated keys that is merged with itself |
| OverlayKeyPath.NeverMet | overlay/engine.go:227-243 | with distinct keys, if no single pair comes to a node, then no key path through mappings that leads from the target to it leads to a value in what is merged |
| OverlayForest.SubOfReplace | overlay/engine.go:163-170 | replacing one subtree leaves every other subtree as it was, but for that replacement |
| OverlayPrune.PruneTwice | overlay/engine.go:157-161 | removing some nodes and then others is removing them all |
| OverlayPrune.RemovedIsGone | overlay/engine.go:191-210 | a removed node is in no mapping or sequence |
| OverlayPrune.KeptInOrder | overlay/engine.go:198-206 | what is kept keeps its order, and each value its key |
| OverlayIndex.IndexNodeRecursively | overlay/engine.go:180-185 | every value node below ends up with its true parent |
| OverlayIndex.NewParentIndex | overlay/engine.go:174-178 | a fresh index of a tree is complete and right |
| OverlayRemove.CutOut | overlay/engine.go:198-206 | cutting the value, with its key in a mapping, prunes exactly that node |
| OverlayRemove.RemoveNode | overlay/engine.go:191-210 | exactly the node goes away from the forest; one that is nobody's child, or a document node's, stays |
| OverlayEngine.ApplyRemoveAction | overlay/engine.go:157-161 | the document afterwards is the one before, pruned of exactly the given nodes |
| OverlayTangle.TangledCopyReadsTooFar | overlay/engine.go:212-243 | on {k: {k: [v, v, v]}}, merging the inner mapping, of one pair, into the outer comes to the inner one, unchanged, with the list; merging it with the list, as the engine does, leaves it with three children, so that the next pair has a key and no value |
| OverlaySteps.ApplyUpdateAction | overlay/engine.go:163-170 | every target in turn is merged with the update, and nothing else changes; a zero update does nothing |
| OverlaySteps.SourceStays | overlay/engine.go:145-152 | a copy source with no target in its tree never changes, even if it is in theirs, and every target is merged with its value |
| OverlaySteps.ApplyCopyAction | overlay/engine.go:125-155 | every target in turn is merged with the one node that the copy path selects, as it then is, wherever the two lie, up to the first target in which the merge comes to the source; the engine's errors arise exactly for an invalid path, no source, several sources, or the first target of another kind, after the merges before it |
| OverlayEngine.UpdatePhase | overlay/engine.go:104-115 | refused exactly when some target is a scalar after the copy, and then nothing is done; otherwise all targets are merged with the update |
| OverlayEngine.RemovalsKeepIndex | overlay/engine.go:48-52 | removals leave the index good for later ones |
| OverlayEngine.FreshIndexIsGood | overlay/engine.go:37-40 | a rebuilt index serves all removals |
| OverlayQuery.Query | overlay/engine.go:73-80 | what a path selects: the nodes at the positions that the document's value determines |
| OverlayEngine.PerformAction | overlay/engine.go:89-122 | the three phases on the nodes that the target path selects come to what the action should; an index built before an action still serves its removals after its own copy and update |
| OverlayEngine.RefusedExactly | overlay/engine.go:73-115 | whether an action without a copy is refused can be told from the document's value beforehand: exactly if its path is invalid, or it is an update whose path selects a scalar |
| OverlayEngine.ApplyAction | overlay/engine.go:66-123 | copy, then update, then removal, on exactly the nodes that the target path selects in the document and on nothing else, up to the first error; nothing happens without a target or a match |
| OverlayEngine.ApplyNext | overlay/engine.go:36-53 | the index is good whenever it is not marked stale; an action without a copy is refused as its input says |
| OverlayEngine.Apply | overlay/engine.go:30-53 | every action is performed so on what the ones before it left, with exact removals throughout, up to the first action that is refused; an action without a copy is refused exactly for an invalid path or a scalar update target in the document as it then is |

## Left out

- The Go memory model and `sync` primitives: goroutine actions are atomic steps, and `translate` and `result` are deterministic functions of the item.
- Progress of the pipeline beyond its own code: the producer of `in` is taken to send all its values and to close the channel, and the consumer of `out` to be willing to receive.
- Nil workflows, steps and actions, workflow contexts and expression data, what requests and responses contain, timers: they are absent; error texts and durations are not modelled.
- ArazzoEngine.Engine.ExecuteStep: whether existing inputs, criteria and outputs can be evaluated, and whether criteria hold, are arbitrary answers; an executor's answer depends on the number of the call only, and so does an error in its response.
- ArazzoEngine.Engine.FindMatchingAction: does not say which criteria pass, because their evaluation is an arbitrary answer.
- TopologicalSort.TopologicalSort: for repeated workflow ids it says what is returned only where nothing depends on an id of in-degree zero; that the error cannot be right for all dependencies is `TopologicalSort.RightExactlyOnUniqueIds`.
- ValidatorCycles.CheckCircularDependencies: says nothing about recorded paths after the first, which need not be cycles.
- CircularReferences.IsInfiniteCircularDependency: every required edge is taken to resolve, as the code takes it.
- ResolveRefs.LeftoversAreExcused: is stated for trees in which no `$ref` key's own value collapses, which `ResolveRefs.PlainExactly` shows to be the exact condition for trees without nil or repeated `$ref` keys; refs inside document and alias nodes are not followed, and nodes are values there, so that the input is unchanged holds by construction.
- MergeKeys.Expander.ExpandMergeContent: nesting of sequences through aliases is taken to be finite, since the code does not end on a sequence that contains itself.
- HashNode.Feed: the stream has no separators between fields, so different graphs may have equal streams; the hash function, its seed and the pools are abstract, and cached nodes are taken not to change.
- OverlaySteps.ApplyCopyAction: stops, with an outcome that the engine does not have, where the merge comes to the copy's source, which the engine would then change while it is being read; `OverlayTangle` shows an input on which it reads out of range afterwards. What the engine makes of other such inputs is not said. For sources with repeated keys only one half of the condition is stated: the merge comes to the source only if the source has a value at the keys that lead to it.
- OverlayMerging.MergeNode: for a target inside the merged node, or a mapping with repeated keys merged with itself, the new value is not said, only that nothing else changes.
- OverlayQuery.Query: the JSONPath engine is an arbitrary function to positions of value nodes; which paths are valid and what they select is not modelled, and key nodes, which the property-name extension may select, are not covered.
- OverlayClone.CloneTree: documents are trees without YAML aliases; slices are values, so sharing of backing arrays between slices is not captured.
- Parsing and marshalling of YAML and JSON, overlay validation of required fields, warnings.
- The prefix syntax of component references in Arazzo actions: components are looked up by their full reference key.
- Rolodex, file systems, HTTP, bundling, mock rendering and the rest of the Arazzo validator: plumbing over external state, or case tables.
