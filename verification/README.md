# Tesserix MCP runtime: a verified model

This project models the parts of the Tesserix MCP runtime whose correctness is hardest to see from
the code, and proves what they promise. Everything is checked by `dafny verify dfyconfig.toml`.

**Schemas.** Tools are published with schemas in a bounded subset of JSON Schema 2020-12. `Schema`
holds the language and its meaning: `Accepts` is the least fixed point of the keywords of
section 6 of JSON Schema Validation and sections 8.2.3.1, 10.2.1.2 and 10.3 of JSON Schema Core, and
gives no meaning of its own to `format` and to foreign keywords. `Registration` is the walk that
decides what may be registered, with its shared node counter and its memo of definition depths;
`RegistrationBounds` proves what that walk is for. `RegistrationCount` says what its counter counts and
`RegistrationFaults` what its refusals mean. `SchemaComparison` is the comparison of two
schemas with its shared budget; `SchemaWidening` says exactly when its verdict is positive, and
`SchemaSoundness`, `SchemaCompleteness`, `SchemaExactness` and `SchemaWitnesses` when it can be relied on. `SchemaContent` is equality of documents up
to the order of their mappings. `SchemaChanges` and `Migration` build the change classification and
the cutover decision on all this.

**Content-addressed resolution.** `Canonical` is the canonical printer with a parser that undoes it.
`Registry` is the content digest, the exact-identity check and the resolver with its cache.
`LeaseCache` is the finite cache with leases.

**Execution.** `JsonWorklist` is the bounded check of a value. `Bulkhead` and `Observability` are
admission, release and the gauges. `Retry`, `Backing` and `KeyedWrites` are the retry loop, the
idempotent order store, and the two together. `Approvals` is authorization. `Lifecycle` and `Drain`
are start, drain and stop, first as one caller sees them and then interleaved with invocations;
`DrainRefinement` proves that the second does what the first does.
`Jwks` is the key cache.

Where the source changes fields in place, a class with the same fields does so here
(`ComparisonState`, `SchemaValidationState`, `LeasedLru`, `RuntimeObservability`,
`ExecutionController`, `BackingStore`, `LifecycleController`), and each of its methods is proved equal
to a function of the old state; the results are then proved of those functions over every run.
Protocols that wait (`Approvals`, `Drain`, `Jwks`, `Bulkhead` runs) are step systems in which every
wait is a point where any other step may happen.

## What is assumed

- SHA-256 on text is collision free in `Registry` and `Backing`. Fingerprints of schema documents and
  of call arguments are only asked not to collide on the documents or arguments that are compared;
  two documents that differ only in the order of their mappings may, and in the source do, share one.
- Times are real numbers; clocks, digests behind the jitter, hook failures, store faults and what
  other callers do are arbitrary parameters.
- Keyword values are well typed, and `propertyNames` holds only lengths. Numbers are one kind, so
  `1` and `1.0` are the same number.
- A verdict of the comparison is proved sound when every node of the candidate is clear: what stands
  beside a union refuses nothing that the union accepts, a constant refuses no value of the node that
  Python takes for it, and the rest is what registration sees to. `SchemaExactness` proves that
  nothing weaker would do: the nodes of a registered document are all judged soundly exactly when they
  are all clear. Nothing is asked of the baseline.
- The results about changes and cutovers ask for something that can be read off a document: it was
  registered, a node with `anyOf` has no other constraint, no node has both `const` and `enum`, and no
  constant is one that Python's `==` takes for another value of the node's type. The last rules out 0
  and 1 in a boolean node, booleans in a number node, and 0, 1 and booleans anywhere inside the
  constant of an array or object node, and nothing else.
- The manifests of a surface come from a catalogue, so that the normalized name is the case-folded
  exposed name; exposed names are ASCII, as `ToolMetadata` demands.
- The clock of the key cache does not go back. Only `PauseIsKept` and `PauseIsLostExactly` assume more:
  that the timeout ends a fetch in time by that clock.

## What the proofs found

- Constraints beside `anyOf`, and an `enum` beside `const`, pass registration but never count in the
  comparison, and since `True == 1` in Python a boolean `const: true` may be replaced by `const: 1`.
  For each there are two registered documents whose change is called non-breaking and loses a value.
  Such a node is judged soundly against every baseline exactly when the other constraints refuse
  nothing that the union accepts; when the constant is listed or refused anyway; when the constant of
  a boolean node is neither 0 nor 1. An object with both `properties` and a schema for other members
  would be misjudged too, but registration refuses it.
- A migration record matches tools by case-folded name, and callers use the exact one. Renaming
  `Catalog.Search` to `catalog.search` is ready for cutover and shows as no change, and the name that
  callers know is gone. After a ready cutover a tool is still found exactly when its namesake has the
  very same name. Every call that was admitted is still admitted exactly when, besides, no tool that can
  be called asks for a new scope, which a ready cutover does not rule out.
- A record without any drift says nothing of titles, of the discovery texts beside the lifecycle and of
  the case of names; those are all that can change in a tool unseen.
- Route identifiers are ambiguous: two different valid routes can have the same one, and exchanging
  them then shows as no change in a migration record. A route is told apart from all others exactly
  when its identifier can be cut at a colon and an arrow into valid parts in only one way.
- Stopping an application that was never drained leaves its state ready until the last stop hook has
  ended, so invocations still begin while ordinary components are being stopped. After a drain, even
  a cancelled one, none can.
- The drain waits for invocations. Tool work that outlived its invocation may still run while
  ordinary components are drained: from anywhere in a drain that can happen exactly when work is in
  flight or detached there, and once the invocations have been drained, exactly when some is detached.
- The back-off after a failing key fetch is counted from the start of the fetch, so a fetch that
  fails slowly leaves a shorter pause after it: at least the retry window less the timeout, three
  seconds under the defaults, and possibly none under exactly the configurations whose timeout reaches
  the retry window, which validation admits.

## Model

| member | source | states |
|---|---|---|
| SchemaComparison.Compare | src/tesserix_mcp_runtime/schema_compatibility.py:339-371 | the recursion over the mutable budget computes the functional comparison, and leaves the budget at what that consumed |
| SchemaComparison.CompareResolved | src/tesserix_mcp_runtime/schema_compatibility.py:354-434 | the comparison of two resolved nodes, type by type, on the shared budget |
| SchemaComparison.CompareVariants | src/tesserix_mcp_runtime/schema_compatibility.py:358-371 | all baseline variants against any candidate variant, stopping as Python's `all` and `any` do |
| SchemaComparison.CompareObjects | src/tesserix_mcp_runtime/schema_compatibility.py:258-319 | required names, declared and additional properties, and sizes, in the source's order |
| SchemaComparison.ComparisonState.Consume | src/tesserix_mcp_runtime/schema_compatibility.py:57-65 | one unit is taken even when none is left, and the answer says whether there was one |
| SchemaComparison.BudgetIrrelevant | src/tesserix_mcp_runtime/schema_compatibility.py:347-348 | a comparison that did not run out gives the same verdict and uses the same amount under any larger budget |
| SchemaComparison.TrueVerdictIsStable | src/tesserix_mcp_runtime/schema_compatibility.py:339-434 | a positive verdict never met exhaustion, so it stands for every larger budget |
| SchemaWidening.MinimumIsWiderExactly | src/tesserix_mcp_runtime/schema_compatibility.py:206-215 | a minimum is called wider exactly when every number that the baseline's lets through passes the candidate's |
| SchemaWidening.MaximumIsWiderExactly | src/tesserix_mcp_runtime/schema_compatibility.py:218-227 | the same for a maximum |
| SchemaWidening.LowerIsWiderExactly | src/tesserix_mcp_runtime/schema_compatibility.py:150-189 | the combined lower bound is called wider exactly when every number that meets the baseline's `minimum` and `exclusiveMinimum` meets the candidate's |
| SchemaWidening.UpperIsWiderExactly | src/tesserix_mcp_runtime/schema_compatibility.py:162-203 | the same for the upper bound |
| SchemaWidening.RequiresNoMoreExactly | src/tesserix_mcp_runtime/schema_compatibility.py:251-272 | required names are called fewer exactly when neither list names one twice and every set of names with all of the baseline's has all of the candidate's |
| SchemaWidening.AllowsEveryValueExactly | src/tesserix_mcp_runtime/schema_compatibility.py:120-139 | listed values are called allowed exactly when every value that Python takes for one the baseline lists, or any value when it lists none, is taken for one of the candidate's |
| SchemaWidening.TypeWidensExactly | src/tesserix_mcp_runtime/schema_compatibility.py:372-386 | the types that may stand for one another are exactly those whose values include the other's |
| SchemaWidening.ResolveExactly | src/tesserix_mcp_runtime/schema_compatibility.py:79-103 | a reference resolves exactly when a path of bare local references ends, and to where it ends, although the code keeps a stack to stop circles |
| SchemaWidening.VerdictIsExact | src/tesserix_mcp_runtime/schema_compatibility.py:339-434 | unless the budget ran out, the verdict is positive exactly when some finite derivation shows that each keyword and each schema below is widened, variant by variant, said of what the keywords let through and without the comparison |
| SchemaSoundness.BoundsMeaning | src/tesserix_mcp_runtime/schema_compatibility.py:150-173 | the combined lower and upper bounds hold of a number exactly when the four separate keywords do |
| SchemaSoundness.NumberSound | src/tesserix_mcp_runtime/schema_compatibility.py:176-203 | wider number rules accept every number that the narrower ones accept |
| SchemaSoundness.ValuesSound | src/tesserix_mcp_runtime/schema_compatibility.py:120-139 | a value that the baseline lists is one that Python takes for the constant, and is the constant, or one of the enumeration, where Python confuses it with no other value of the type |
| SchemaSoundness.ResolveSound | src/tesserix_mcp_runtime/schema_compatibility.py:79-103 | following references to their end changes no accepted value |
| SchemaSoundness.ObjectSound | src/tesserix_mcp_runtime/schema_compatibility.py:258-336 | an object the baseline accepts is accepted by the candidate, in both registered shapes |
| SchemaSoundness.EveryVariantSound | src/tesserix_mcp_runtime/schema_compatibility.py:358-371 | a value that some baseline variant accepts is accepted by some candidate variant |
| SchemaSoundness.SupersetSound | src/tesserix_mcp_runtime/schema_compatibility.py:339-434 | on a candidate whose nodes are all clear, a positive verdict at any budget means that the candidate accepts every JSON value the baseline accepts, through references, unions, bounds, arrays and objects |
| SchemaExactness.DocumentIsSoundExactly | src/tesserix_mcp_runtime/schema_compatibility.py:120-434 | every node of a registered document is judged soundly against every baseline exactly when every node is clear: what stands beside a union refuses nothing the union accepts, and no constant is taken by Python for a value that the node refuses |
| SchemaWitnesses.MixedObjectIsMisjudged | src/tesserix_mcp_runtime/schema_compatibility.py:282-313 | with declared and additional schemas in one object a positive verdict can be wrong |
| SchemaSoundness.ExactForExactly | src/tesserix_mcp_runtime/schema_compatibility.py:120-139 | the constants asked for are exactly those that Python equality takes for no other value of the node's type |
| SchemaWitnesses.UnionSiblingIsMisjudged | src/tesserix_mcp_runtime/schema_compatibility.py:358-371 | two registered documents, the second with a type beside a union, whose change is called non-breaking and loses a value |
| SchemaExactness.SiblingsNeverCount | src/tesserix_mcp_runtime/schema_compatibility.py:354-371 | for every candidate with a union the verdict is the one of its union alone |
| SchemaExactness.UnionIsSoundExactly | src/tesserix_mcp_runtime/schema_compatibility.py:354-371 | in a registered document a node with a union, below which all is clear, is judged soundly against every baseline exactly when its other constraints refuse nothing that the union alone accepts |
| SchemaWitnesses.ConstantWithEnumIsMisjudged | src/tesserix_mcp_runtime/schema_compatibility.py:120-126 | two registered documents, the second with `const` and `enum` in one node, whose change is called non-breaking and loses a value |
| SchemaExactness.ConstantIsSoundExactly | src/tesserix_mcp_runtime/schema_compatibility.py:120-139 | in a registered document a node with a constant, below which all is clear, is judged soundly against every baseline exactly when it accepts every value that its other keywords accept and that Python takes for the constant |
| SchemaExactness.EnumBesideConstIsSoundExactly | src/tesserix_mcp_runtime/schema_compatibility.py:120-126 | in such a node `enum` beside a constant of its type leaves the verdict right exactly when it lists the constant or the other keywords refuse it |
| SchemaExactness.ConstantAloneIsSoundExactly | src/tesserix_mcp_runtime/schema_compatibility.py:129-139 | in such a node without `enum`, the constant leaves the verdict right exactly when Python takes no other value that the node's keywords accept for it |
| SchemaExactness.BooleanConstantIsSoundExactly | src/tesserix_mcp_runtime/schema_compatibility.py:129-139 | the constant of a boolean node leaves the verdict right exactly when it is neither 0 nor 1 |
| SchemaWitnesses.MisjudgedConstantsAreRuledOut | src/tesserix_mcp_runtime/schema_compatibility.py:120-139 | the exact conditions apply to the two constants of the witness documents and rule them out |
| SchemaWitnesses.MisjudgedUnionIsRuledOut | src/tesserix_mcp_runtime/schema_compatibility.py:354-371 | the exact condition applies to the union of the witness documents and rules it out |
| SchemaWitnesses.EnumBesideConstNeverCounts | src/tesserix_mcp_runtime/schema_compatibility.py:120-139 | for every candidate node with `const` the verdict is the same whatever `enum` says |
| SchemaWitnesses.BooleanConstantIsMisjudged | src/tesserix_mcp_runtime/schema_compatibility.py:129-139 | two registered documents, a boolean `true` constant replaced by 1, whose change is called non-breaking and loses a value |
| SchemaCompleteness.ComparisonEnds | src/tesserix_mcp_runtime/schema_compatibility.py:339-434 | between registered documents some budget is enough, and from there on the verdict is one and the same |
| SchemaCompleteness.RegisteredCoversItself | src/tesserix_mcp_runtime/schema_compatibility.py:339-434 | a registered document covers itself under any budget that does not run out |
| SchemaChanges.ClassifySchemaChange | src/tesserix_mcp_runtime/schema_compatibility.py:437-468 | identical by fingerprint, else non-breaking or breaking by the comparison in the direction asked for, with a fresh budget; with a fingerprint that tells these documents apart by content, identical exactly when they differ in nothing but the order of their mappings |
| SchemaChanges.ClassifiedExactly | src/tesserix_mcp_runtime/schema_compatibility.py:437-468 | a change is identical exactly for equal content, and else non-breaking exactly when the current document widens the previous one on input, or the previous the current one on output, within the budget |
| SchemaWitnesses.TextBoundIsClassifiedExactly | src/tesserix_mcp_runtime/schema_compatibility.py:394-401 | for every two bounds: between closed objects with one bounded text, raising the bound on input and lowering it on output is non-breaking, and the contrary breaking |
| SchemaWitnesses.EachPairCostsOne | src/tesserix_mcp_runtime/schema_compatibility.py:57-65 | each pair of schemas that is compared costs one: for every number of levels a nest of arrays covers itself exactly under a budget for all its levels |
| SchemaContent.ReorderingKeepsContent | src/tesserix_mcp_runtime/tool_manifest.py:36-46 | listing the entries of a mapping in another order keeps its content |
| SchemaContent.SameContentAccepts | src/tesserix_mcp_runtime/tool_manifest.py:64-67 | schemas of the same content accept the same values, through references, unions, arrays and objects |
| SchemaChanges.RegisteredDocumentIsFaithful | src/tesserix_mcp_runtime/tool.py:322-534 | what registration checks, with plainness, is all that the soundness of the comparison needs |
| SchemaChanges.InputChangeKeepsCallers | src/tesserix_mcp_runtime/schema_compatibility.py:437-468 | unless an input change is breaking, the current schema accepts all that the previous one accepted |
| SchemaChanges.OutputChangeKeepsReaders | src/tesserix_mcp_runtime/schema_compatibility.py:437-468 | unless an output change is breaking, the previous schema accepts all that the current one does |
| Registration.CheckValue | src/tesserix_mcp_runtime/tool.py:322-424 | the walk over one node reports the violation, or leaves the counter and memo, that its function describes |
| Registration.CheckDefinition | src/tesserix_mcp_runtime/tool.py:427-450 | a definition is walked again only when it is met deeper than before, and never from inside itself |
| Registration.CheckObject | src/tesserix_mcp_runtime/tool.py:482-544 | the two object shapes with their limits, required names and children, in the source's order |
| Registration.CheckDocument | src/tesserix_mcp_runtime/tool.py:267-319 | the whole walk from empty state, with size, definition names and unreached definitions |
| Registration.ValidationRegisters | src/tesserix_mcp_runtime/tool.py:427-450 | after success the final memo places every definition, and every node fits there although the memo skipped repeated visits |
| RegistrationCount.NodeCountIsExact | src/tesserix_mcp_runtime/tool.py:332-337 | on success the counter is the schemas of the body and of each definition once per time it is met deeper than ever before, within the limit, each meeting being real; and nodes run out only when these are more than the limit |
| RegistrationCount.NodeLimitBounds | src/tesserix_mcp_runtime/tool.py:332-337 | whatever its references a registered document has no more schemas than the limit, and nodes never run out when the limit leaves room for each definition at every depth |
| RegistrationCount.AcceptedExactly | src/tesserix_mcp_runtime/tool.py:267-319 | a document without references is accepted exactly when size, number and names of definitions, number of schemas and every node are within the limits |
| RegistrationFaults.RefusalIsForAFault | src/tesserix_mcp_runtime/tool.py:267-544 | every refusal names a fault that some schema of the document has at a depth at which it stands: for a circle there is a circle of references, for a limit the keyword over it, and so on for each code |
| Registration.DefinitionNamesAreExact | src/tesserix_mcp_runtime/tool.py:56 | definition names are exactly the strings of the pattern |
| Registration.SupportedExactly | src/tesserix_mcp_runtime/tool.py:339-347 | keyword by keyword: each stands only beside the type it speaks of, and annotations, those of the root and foreign keywords only where they may |
| Registration.EnumFitsExactly | src/tesserix_mcp_runtime/tool.py:452-480 | an enumeration fits exactly when it lists one value to the member limit, beside a scalar type, all of that type |
| Registration.TextLimitExactly | src/tesserix_mcp_runtime/tool.py:398-407 | the limit of a text is its own, else the length of the longest value it lists, else none |
| Registration.RequiredFitsExactly | src/tesserix_mcp_runtime/tool.py:524-533 | required names fit exactly when each is declared and named once |
| RegistrationBounds.ReferencesAreAcyclic | src/tesserix_mcp_runtime/tool.py:427-450 | after success no path of references repeats a definition, and no path is longer than the depth limit |
| RegistrationBounds.RegistrationBoundsData | src/tesserix_mcp_runtime/tool.py:322-544 | every value a registered document accepts has nesting, string lengths, array lengths and member counts within the policy, and every key that the document does not declare by name is no longer than a string may be |
| RegistrationBounds.ValidationIsExact | src/tesserix_mcp_runtime/tool.py:267-534 | unless nodes run out, within the size limits a document passes exactly when its definitions can be placed so that every node fits |
| Migration.SharedDiffs | src/tesserix_mcp_runtime/migration.py:141-169 | one difference per shared name, of the two tools with that name |
| Migration.DiffsAreOfSharedNames | src/tesserix_mcp_runtime/migration.py:183-186 | the record holds a difference for each shared tool name and for nothing else |
| Migration.SidesAreExact | src/tesserix_mcp_runtime/migration.py:184-200 | for any two surfaces the lists of added tools, destinations and routes hold exactly what only the current one has, those of removed ones what only the previous one has, each strictly increasing |
| Migration.DiffsAreInOrder | src/tesserix_mcp_runtime/migration.py:184-186 | differences of tools stand in strictly increasing order of their names |
| Migration.FlagsAreExact | src/tesserix_mcp_runtime/migration.py:141-169 | each flag and change of a difference says exactly whether its own field of the two tools of that name changed, and how the two schemas relate |
| Migration.CutoverExactly | src/tesserix_mcp_runtime/migration.py:104-133 | a cutover is ready exactly when the target is stateless and each previous tool has a successor with compatible schemas and the same policy |
| Migration.CutoverPreservesCallers | src/tesserix_mcp_runtime/migration.py:104-200 | after a ready cutover each previous tool has a namesake, by case-folded name, that keeps its accepted arguments, output contract, effect, approval and idempotency, and callers find it under the name they use exactly when that exposed name is the same |
| Migration.CutoversCompose | src/tesserix_mcp_runtime/migration.py:104-200 | the same holds between the first and the third of three surfaces joined by two ready cutovers, whatever name a tool had in between |
| Migration.FoundExactly | src/tesserix_mcp_runtime/tool.py:613-630 | a name that a caller uses is found exactly when the tool with its case-folded form is exposed under that very name |
| Migration.CasefoldExactly | src/tesserix_mcp_runtime/tool.py:91-94 | a name is normalized by making each capital letter small and keeping all else |
| Migration.CallsAreKeptExactly | src/tesserix_mcp_runtime/policy.py:360-367 | where each tool has a namesake keeping its contract, every call that was admitted still is exactly when no tool that accepts anything changed its exposed name or asks for a scope it did not ask for |
| Migration.RenamingIsMissed | src/tesserix_mcp_runtime/migration.py:182-186 | two valid surfaces, one tool renamed in case only: ready for cutover, no drift at all in the record, and the old name not found |
| Migration.ScopeGrowthIsCleared | src/tesserix_mcp_runtime/migration.py:104-133 | a tool that asks for one more scope is ready for cutover, and a call it used to admit is refused |
| Migration.RecordIgnoresOrder | src/tesserix_mcp_runtime/migration.py:172-200 | the record is the same however tools and routes are listed |
| Migration.NoDriftExactly | src/tesserix_mcp_runtime/migration.py:141-200 | a record without any drift is given exactly for surfaces whose tools agree in case-folded name, description, scopes, lifecycle, effect, approval, idempotency and the content of both schemas, and that have the same egress, route identifiers and statelessness |
| Migration.UnseenDriftExactly | src/tesserix_mcp_runtime/migration.py:141-169 | behind a record without any drift the tools are the same exactly when namesakes agree in exposed name, title and discovery texts as well |
| Migration.RelabellingIsMissed | src/tesserix_mcp_runtime/migration.py:136-169 | any other title and any other discovery texts with the same lifecycle show as no change |
| Migration.RouteChangeIsMissed | src/tesserix_mcp_runtime/migration.py:57-59 | two different valid routes with one identifier, whose exchange shows as no change |
| Migration.RouteIsToldApartExactly | src/tesserix_mcp_runtime/migration.py:21-59 | a valid route shares its identifier with no other valid route exactly when the identifier has one cut into valid parts |
| Migration.RouteDriftIsExact | src/tesserix_mcp_runtime/migration.py:189-197 | between surfaces whose routes all have one cut, no route drift is reported exactly when the routes are the same |
| Migration.SeparableRoutesAreToldApart | src/tesserix_mcp_runtime/migration.py:57-59 | a quick check besides the exact one: two routes with no colon in the name and no `>` in the public path have equal identifiers exactly when they are equal |
| Ordering.Sorted | src/tesserix_mcp_runtime/migration.py:184-197 | the sorted tuple holds exactly the members of the set, each once |
| Ordering.SortedIsOrdered | src/tesserix_mcp_runtime/migration.py:184-197 | it is strictly increasing by code points |
| Ordering.OrderedByFirstDifference | src/tesserix_mcp_runtime/migration.py:184-197 | of two strings the one is first that ends, or has the smaller code point, where they first differ |
| Canonical.StringRoundTrip | src/tesserix_mcp_runtime/registry_discovery.py:199-207 | a parser reads back every string from its rendering with the extra escapes |
| Canonical.RoundTrip | src/tesserix_mcp_runtime/registry_discovery.py:228-253 | the parser reads back every value whose numbers are integers, whatever text follows it |
| Canonical.OrderedObjectRoundTrip | src/tesserix_mcp_runtime/registry_discovery.py:241-250 | an object reads back whatever the order its members are written in |
| Canonical.TextIsInjective | src/tesserix_mcp_runtime/registry_discovery.py:228-253 | two such values with the same rendering are equal |
| Canonical.EscapeExactly | src/tesserix_mcp_runtime/registry_discovery.py:199-207 | a character stays as it is unless JSON or Go escapes it, seven have their short escape, and the others the four lower-case digits of their code |
| Canonical.IntegerTextExactly | src/tesserix_mcp_runtime/registry_discovery.py:237-238 | an integer is its sign when negative and its digits, without a leading zero |
| Canonical.TextIsSafe | src/tesserix_mcp_runtime/registry_discovery.py:199-253 | no text holds a control character, `<`, `>`, `&` or a line separator |
| Registry.DigestDeterminesContent | src/tesserix_mcp_runtime/registry_discovery.py:311-336 | two artifacts have the same computed digest exactly when kind, name, namespace, tag, labels and spec are all equal |
| Registry.DigestCoversInOrder | src/tesserix_mcp_runtime/registry_discovery.py:311-336 | the digested text is the object of the six fields by name, in the registry's order |
| Registry.VerifiedArtifactIsUnique | src/tesserix_mcp_runtime/registry_discovery.py:1300-1319 | at most one artifact passes the identity check for a stub |
| Registry.FirstAccepted | src/tesserix_mcp_runtime/registry_discovery.py:1135-1149 | the loop finds the first stub that no filter rejects and explains each one before it |
| Registry.SelectedIsListed | src/tesserix_mcp_runtime/registry_discovery.py:1137-1149 | the selected stub is one of the list that no filter rejects, and none is selected exactly when every one is rejected |
| Registry.FirstIsSelected | src/tesserix_mcp_runtime/registry_discovery.py:1137-1149 | the stub that no filter rejects and before which each is rejected is the one selected, and exactly those before it are explained, each with its reasons |
| Registry.Resolve | src/tesserix_mcp_runtime/registry_discovery.py:1100-1226 | the resolver's branches over search, cache, network and stale cache give this outcome and this cache write |
| Registry.FirstIsResolved | src/tesserix_mcp_runtime/registry_discovery.py:1160-1226 | the server and the last explanation are the projection of the first unrejected stub's artifact, fresh, fetched or stale in that order, after the explanations of the stubs before it, unless the identity differs (a race) or the content's digest does (a mismatch) |
| Registry.UndeliveredIsRaised | src/tesserix_mcp_runtime/registry_discovery.py:1173-1191 | when no artifact can be had for that stub the failure of its fetch is raised |
| Registry.RejectedAreResolved | src/tesserix_mcp_runtime/registry_discovery.py:1150-1159 | when all stubs are rejected nothing is resolved and each is explained |
| Registry.SearchFailuresAreRaised | src/tesserix_mcp_runtime/registry_discovery.py:1121-1134 | a failed search is raised, and so is a list over the limit, from the cache or not |
| Registry.CacheIsInvisible | src/tesserix_mcp_runtime/registry_discovery.py:1135-1226 | for one stub list any two resolutions that return agree on server and explanations, whatever the caches hold and whoever answered |
| Registry.OnlyVerifiedIsStored | src/tesserix_mcp_runtime/registry_discovery.py:1192-1201 | what is written to the cache came from the network for a listed stub and passed the check for it |
| Registry.StoredExactly | src/tesserix_mcp_runtime/registry_discovery.py:1192-1201 | an artifact is written exactly when it was fetched for the first unrejected stub and is exactly the advertised one |
| Registry.SearchIsStoredExactly | src/tesserix_mcp_runtime/registry_discovery.py:1121-1132 | a list of stubs is written exactly when it was searched and is within the limit |
| Registry.SourceIsHonest | src/tesserix_mcp_runtime/registry_discovery.py:1214-1226 | offline is reported exactly when the fetch of the selected stub found the registry unavailable and the cache's stale artifact for that stub was projected, and cache only when the network could not have mattered |
| LeaseCache.LeasedLru.PutEntry | src/tesserix_mcp_runtime/registry_discovery.py:885-952 | a put replaces its key, makes it youngest and evicts the oldest over capacity; a bad lease is refused and changes nothing |
| LeaseCache.LeasedLru.GetEntry | src/tesserix_mcp_runtime/registry_discovery.py:868-925 | a read past the lease deletes, a stale read without leave misses and keeps, a hit makes its key youngest |
| LeaseCache.RunKeepsInv | src/tesserix_mcp_runtime/registry_discovery.py:847-947 | over every sequence of operations the entries are part of an unbounded timed map, in order of use, and absent keys of that map were evicted late |
| LeaseCache.SizeIsBounded | src/tesserix_mcp_runtime/registry_discovery.py:940-947 | the size never exceeds the capacity and no key stands twice |
| LeaseCache.HitIsLatestPut | src/tesserix_mcp_runtime/registry_discovery.py:868-925 | a hit returns the value of the latest put of its key, within that put's lease |
| LeaseCache.LeaseIsKept | src/tesserix_mcp_runtime/registry_discovery.py:940-947 | with a monotone clock a live lease is served unless at least capacity-many other keys were put or hit since its key was |
| LeaseCache.RefusedExactly | src/tesserix_mcp_runtime/registry_discovery.py:926-955 | a put is refused exactly for a negative time or a lease that ends before it stops being fresh, a read for a negative time, and what is refused changes nothing |
| JsonWorklist.ValidateJsonValue | src/tesserix_mcp_runtime/execution.py:298-340 | the stack returns exactly when node count, container depth, object and array widths, leaf kinds, key kinds and encoded size of the whole value are within the limits |
| JsonWorklist.PassingIsMeasured | src/tesserix_mcp_runtime/execution.py:306-328 | passing node by node is the same as whole-value measures staying within the limits |
| JsonWorklist.PopKeepsMeaning | src/tesserix_mcp_runtime/execution.py:306-323 | replacing the top of the stack by its children keeps both the nodes still to be counted and the verdict |
| Observability.RuntimeObservability.MoveInFlight | src/tesserix_mcp_runtime/observability.py:404-445 | the gauges after a change, with what is learnt and what is dropped |
| Observability.RuntimeObservability.CountLimit | src/tesserix_mcp_runtime/observability.py:390-402 | a limit is counted, or dropped past the cardinality bound |
| Observability.RuntimeObservability.CountRetry | src/tesserix_mcp_runtime/observability.py:381-388 | a retry is counted, or dropped past the cardinality bound |
| Observability.CountersAreExact | src/tesserix_mcp_runtime/observability.py:381-402 | after any counts each counter kept is the number of its own, an uncounted one found the counters full, and nothing was dropped unless some were |
| Observability.FittingChangeIsRecorded | src/tesserix_mcp_runtime/observability.py:404-445 | a change of work in flight that agrees with the known capacities, has a gauge or room for one and keeps both gauges within their capacities moves both by one |
| Observability.OtherChangeIsDropped | src/tesserix_mcp_runtime/observability.py:404-445 | every other change is counted as dropped and moves no gauge |
| Bulkhead.ExecutionController.Admit | src/tesserix_mcp_runtime/execution.py:244-268 | the four limits in their order, the new counters, and what is told to the gauges |
| Bulkhead.ExecutionController.Release | src/tesserix_mcp_runtime/execution.py:270-287 | all three counters go down by the lease, keys that reach zero are deleted, and the gauges are told |
| Bulkhead.LedgerIsExact | src/tesserix_mcp_runtime/execution.py:244-287 | in every run, detached work included, the counters equal the leases held, hold no zero, stay within every limit, and no release underflows |
| Bulkhead.AdmissionExactly | src/tesserix_mcp_runtime/execution.py:244-258 | in every reachable state work is admitted exactly when the leases held with it added stay within all four limits |
| Bulkhead.RefusalNamesTheFirstLimit | src/tesserix_mcp_runtime/execution.py:247-258 | the limit that a refusal records is the first in order that the leases held use up |
| Bulkhead.IdleTenantIsAdmitted | src/tesserix_mcp_runtime/execution.py:244-258 | in every reachable state a tenant without work is admitted while the active tenants at their own limit could not fill the global, server or tool limit |
| Bulkhead.GaugesEqualCounters | src/tesserix_mcp_runtime/observability.py:404-445 | while at most 128 tools are named, the gauges equal the controller's counters in every run and nothing is dropped |
| Retry.Run | src/tesserix_mcp_runtime/execution.py:185-212 | the loop makes exactly the attempts of the recursive definition, with its state, ending, runs and delays |
| Retry.Delay | src/tesserix_mcp_runtime/execution.py:214-218 | every delay is positive and at most the maximum |
| Retry.RunsAreBounded | src/tesserix_mcp_runtime/execution.py:193-212 | from any attempt on: one run per attempt, a positive bounded delay between two, and a transient failure raised only when every allowed attempt was made |
| Retry.DelayDoubles | src/tesserix_mcp_runtime/execution.py:214-218 | up to the maximum the delay is a doubling of the base, give or take one half |
| Retry.DelayExactly | src/tesserix_mcp_runtime/execution.py:214-218 | the delay is the jittered doubling of the base, cut off at the maximum |
| Retry.JitterIsEven | src/tesserix_mcp_runtime/execution.py:215-216 | the jitter grows in even steps from one half to three halves |
| Retry.RetryIsBounded | src/tesserix_mcp_runtime/execution.py:185-212 | at most the allowed attempts are made, one when unsafe, for every pattern of failures |
| Retry.CallIsRetriedExactly | src/tesserix_mcp_runtime/execution.py:193-212 | an attempt is made again exactly after a lost connection, a timeout, an overload or an unavailability, while attempts and time are left and the call is not cancelled, and the first that is not made again decides the ending |
| Retry.AttemptsExactly | src/tesserix_mcp_runtime/execution.py:193-212 | the same from any attempt on, with the delay of its own attempt before each further one |
| Retry.BoundedDeadline | src/tesserix_mcp_runtime/execution.py:138-144 | the deadline is the least of the two duration limits and the caller's own |
| Retry.BackoffFitsTheCall | src/tesserix_mcp_runtime/execution.py:138-212 | when the clock advances by at least each delay between two of them, all delays together are less than deadline minus start, and so than both duration limits |
| Retry.RetryKeeps | src/tesserix_mcp_runtime/execution.py:185-212 | what every attempt and back-off keeps, the whole call keeps |
| Retry.ValueIsOfLastRun | src/tesserix_mcp_runtime/execution.py:193-195 | a returned value is the one of the last attempt |
| Backing.BackingStore.Put | integration/journey/backing.py:167-199 | refusals in their order, replay of a known key, or one new effect with its order |
| Backing.BackingStore.Get | integration/journey/backing.py:156-165 | the tenant's order or its absence, with the observation |
| Backing.WriteAnswersExactly | integration/journey/backing.py:167-199 | after any run each refusal of a write has its exact reason, a conflict that of a key missing or standing for another write, and every other write is answered with its order and observed |
| Backing.ReadIsRefusedExactly | integration/journey/backing.py:156-165 | each refusal of a read has its exact reason, and reads change no effect and no order |
| Backing.ReadAnswersLastWrite | integration/journey/backing.py:160-163 | after any run a read gives what the last effective write of the tenant's order was answered, and nothing exactly when there was none |
| Backing.FingerprintSeparates | integration/journey/backing.py:183 | the fingerprint tells every two pairs of order and status apart |
| Backing.GrammarsAreExact | integration/journey/backing.py:31-32 | order ids and statuses are exactly the strings of the two patterns |
| Backing.RunIsSound | integration/journey/backing.py:167-199 | in every run effects are counted once, numbered apart, match their fingerprints, and orders show only effects of their tenant |
| Backing.RepeatedWriteReplays | integration/journey/backing.py:184-189 | a second success under a key asked for the same write, gets the same answer and changes no effect and no order |
| Backing.OneEffectPerKey | integration/journey/backing.py:182-196 | of two writes under one key at most one changes effects or orders, however they are interleaved with others |
| KeyedWrites.KeyedWriteHasOneEffect | src/tesserix_mcp_runtime/application.py:730-748 | over every pattern of lost requests, lost answers and other users, all attempts of one keyed write change the store at most once, are answered alike, and the call returns that answer |
| KeyedWrites.UnkeyedMutationIsNotRepeated | src/tesserix_mcp_runtime/application.py:730-748 | a mutation without a key is run once, reaches the store at most once and changes nothing there |
| KeyedWrites.ValueIsAnAnswer | integration/journey/reference_server.py:250-287 | an order the client returns is the store's answer to one of the call's own attempts |
| KeyedWrites.LostAttemptsAreRepeated | src/tesserix_mcp_runtime/application.py:730-748 | a call that may be repeated outlives every lost request and answer while attempts and time are left, and returns the order that its first delivered attempt is answered |
| KeyedWrites.OthersAreNotRepeated | src/tesserix_mcp_runtime/application.py:730-733 | a mutation without a demanded and given key is attempted once |
| Approvals.RunKeepsInv | src/tesserix_mcp_runtime/policy.py:342-494 | in every interleaving each phase of each call carries the entitlement it rests on, and no approval is held by two calls |
| Approvals.OneTimeApprovalIsUsedOnce | src/tesserix_mcp_runtime/policy.py:479-494 | in every interleaving of authorizations over an atomic store at most one call returns per one-time approval |
| Approvals.ReturnedCallWasApproved | src/tesserix_mcp_runtime/policy.py:342-472 | a call that returns had its scopes, rule and key, is audited as allowed, and matched an unexpired record in tenant, subject, tool and digest of arguments |
| Approvals.ReturnedCallHadTheIssuedArguments | src/tesserix_mcp_runtime/policy.py:453-470 | its arguments are the ones the record was issued for, unless the digests of these two collide |
| Approvals.DeniedAtOnceExactly | src/tesserix_mcp_runtime/policy.py:349-383 | a call is denied before any wait exactly when it is not entitled or lacks the approval it needs, with the same code for unknown and for unscoped tools |
| Approvals.UndisturbedApprovalIsGranted | src/tesserix_mcp_runtime/policy.py:342-494 | a call with an unspent matching approval that meets no fault is granted |
| Approvals.ReusableApprovalIsGranted | src/tesserix_mcp_runtime/policy.py:479-494 | after any run, whoever used the record before, an entitled call with a matching unexpired record that is not for one use is granted after its fetch, and spends nothing |
| Approvals.EntitledCallIsGranted | src/tesserix_mcp_runtime/policy.py:361-395 | an entitled call whose tool needs no approval is granted at once |
| Approvals.FetchedExactly | src/tesserix_mcp_runtime/policy.py:445-494 | in every run, what a call becomes when its record has come: refused, waiting to consume, granted or unavailable, each exactly by the record's fields, expiry and use, the clock and the audit |
| Approvals.BrokenStoreIsUnavailable | src/tesserix_mcp_runtime/policy.py:441-444 | a call whose record cannot be had is unavailable |
| Approvals.ConsumedExactly | src/tesserix_mcp_runtime/policy.py:479-494 | a store that fails makes the call unavailable, one that refuses makes it need an approval, and one that consumed grants it if it can be audited |
| Approvals.AuditIsExact | src/tesserix_mcp_runtime/policy.py:396-438 | in every run a call is in the audit as allowed exactly when it returned, as denied only when it was raised, and never twice |
| Lifecycle.LifecycleController.StartAll | src/tesserix_mcp_runtime/lifecycle.py:57-77 | hooks up to the first that raises, and then the stops of that one and of all before it |
| Lifecycle.LifecycleController.DrainAll | src/tesserix_mcp_runtime/lifecycle.py:79-103 | every drain hook in reverse, whichever raise, with the first failure and their number |
| Lifecycle.LifecycleController.StopAll | src/tesserix_mcp_runtime/lifecycle.py:106-128 | every stop hook in reverse, whichever raise, with the first failure and their number |
| Lifecycle.HooksRunOnceAndUnwind | src/tesserix_mcp_runtime/lifecycle.py:57-128 | over every sequence of calls no hook runs twice for a component, and stops are the exact reverse of the attempted starts |
| Lifecycle.CallsMoveForward | src/tesserix_mcp_runtime/lifecycle.py:57-128 | no call moves the state back or forgets a hook, and a failure is reported exactly when hooks of the call raised, with the first one and their number |
| Lifecycle.StartExactly | src/tesserix_mcp_runtime/lifecycle.py:57-77 | where no start raises, all components are started in order and the application is ready |
| Lifecycle.FailedStartExactly | src/tesserix_mcp_runtime/lifecycle.py:57-77 | where component k is the first to raise, it and those before it are stopped in reverse, and it is reported with one more than the stops that raise |
| Lifecycle.DrainExactly | src/tesserix_mcp_runtime/lifecycle.py:79-103 | draining a ready application runs the drain of every started component in reverse and reports the first that raised with the number of all; any other drain changes nothing, with its own answer |
| Lifecycle.StopExactly | src/tesserix_mcp_runtime/lifecycle.py:106-128 | the same for stops, from every state but stopped |
| Drain.DrainIsSafe | src/tesserix_mcp_runtime/application.py:243-285 | while an ordinary component is drained no invocation is in flight, and none ever will be |
| Drain.StopAfterDrainIsSafe | src/tesserix_mcp_runtime/lifecycle.py:106-122 | once a drain has begun, no invocation is in flight when an ordinary component is stopped |
| Drain.StopAdmitsExactlyUndrained | src/tesserix_mcp_runtime/application.py:616-635 | while an ordinary component is stopped an invocation can begin exactly when the state is still ready |
| Drain.AdmitsExactly | src/tesserix_mcp_runtime/application.py:616-635 | an invocation is let in exactly while the application is ready, and stays in flight until it ends or is abandoned |
| Drain.HookWaitsExactly | src/tesserix_mcp_runtime/application.py:267-285 | of all hooks only two wait: the drain of the invocations exactly while one is in flight, their stop exactly while one is that was when it began |
| DrainRefinement.RunRefinesCalls | src/tesserix_mcp_runtime/lifecycle.py:53-128 | in every run without a cancelled drain, whatever invocations do in between, the hooks that have ended and the state are, whenever no lifecycle call is going on, those of some sequence of uninterrupted calls |
| Drain.UndrainedStopAdmits | src/tesserix_mcp_runtime/lifecycle.py:110-122 | a run that admits an invocation while an ordinary component's stop hook is running |
| Drain.DetachedOnlyShrinks | src/tesserix_mcp_runtime/execution.py:220-242 | after the drain hook of the invocations has ended, detached work only gets less |
| Drain.DetachedReachesDrainExactly | src/tesserix_mcp_runtime/application.py:243-285 | from anywhere in a drain, work can still be running when an ordinary component is drained exactly when some is in flight or detached, and no invocation is left once ordinary components are being drained |
| Drain.DetachedWorkOutlivesDrain | src/tesserix_mcp_runtime/execution.py:220-242 | a run in which detached work is still going on while an ordinary component is drained |
| Jwks.KeyIsLatestAndNotTooOld | src/tesserix_mcp_runtime/adapters/gateway_identity.py:415-461 | in every interleaving a key comes from the latest fetch that brought a document, at a decision-time age of at most the stale limit |
| Jwks.OneFetchAtATime | src/tesserix_mcp_runtime/adapters/gateway_identity.py:424-437 | at most one fetch is in flight |
| Jwks.RetryWindowIsKept | src/tesserix_mcp_runtime/adapters/gateway_identity.py:431-448 | after a fetch that failed or lacked the key none starts within the retry window, counted from the start of that fetch |
| Jwks.FetchStartsExactly | src/tesserix_mcp_runtime/adapters/gateway_identity.py:424-434 | in every run a waiting caller that gets the lock fetches exactly when the latest document has no fresh key for it and the windows of all failing fetches, counted from their starts, are over |
| Jwks.EveryFetchIsDue | src/tesserix_mcp_runtime/adapters/gateway_identity.py:424-436 | in every run a caller that is fetching found nothing fresh, the cache is still the one it found, and every earlier failing fetch had its window behind it |
| Jwks.AskedExactly | src/tesserix_mcp_runtime/adapters/gateway_identity.py:415-424 | in every run a new caller gets the key of a fresh document, or while the window of a failing fetch is open that of a usable one, is refused if that has none, and else waits |
| Jwks.LockedExactly | src/tesserix_mcp_runtime/adapters/gateway_identity.py:424-436 | a caller that gets the lock decides the same again, and fetches instead of waiting |
| Jwks.FetchEndsExactly | src/tesserix_mcp_runtime/adapters/gateway_identity.py:438-461 | a failing fetch is bridged by the document that was usable when it started, exactly if that has the key; a new document replaces the old one, and gives the key exactly if it has it |
| Jwks.PauseExactly | src/tesserix_mcp_runtime/adapters/gateway_identity.py:431-441 | after a failing fetch the next one can start exactly when the time that the fetch took and the pause after it make up the retry window |
| Jwks.FullPauseExactly | src/tesserix_mcp_runtime/adapters/gateway_identity.py:439-441 | a failing fetch is followed by a full window without a fetch exactly when it failed at the instant it was started |
| Jwks.PauseIsKept | src/tesserix_mcp_runtime/adapters/gateway_identity.py:434-441 | in every run in which the timeout ends fetches in time, a pause of at least retry window less timeout follows each failing fetch |
| Jwks.PauseIsLostExactly | src/tesserix_mcp_runtime/adapters/gateway_identity.py:131-141 | a run in which the next fetch follows a failing one without a pause exists exactly under the configurations whose timeout is at least the retry window |
| Jwks.SlowFailureLeavesNoPause | src/tesserix_mcp_runtime/adapters/gateway_identity.py:434-441 | under each configuration whose timeout is at least the retry window, a timely run in which a failed fetch is followed by the next one at once |

## Left out

- SchemaSoundness.SupersetSound: goes one way, since the comparison by design also refuses changes that are harmless.
- SchemaWidening.VerdictIsExact: says nothing of a comparison that ran out of budget, which is negative whatever the schemas; `SchemaCompleteness.ComparisonEnds` gives registered documents a budget that is enough.
- RegistrationFaults.RefusalIsForAFault: does not say which of several faults is reported first.
- RegistrationCount.AcceptedExactly: is stated for documents without references; with references the order of the walk decides how often a definition is counted, and `NodeLimitBounds` gives the least and the most.
- SchemaChanges.ClassifySchemaChange: takes 1 and 1.0 in a document for the same content, although their encodings differ.
- SchemaExactness.UnionIsSoundExactly: asks that all below the node and in the definitions is clear already; without that `DocumentIsSoundExactly` speaks of all nodes together.
- SchemaExactness.ConstantIsSoundExactly: asks the same.
- SchemaExactness.EnumBesideConstIsSoundExactly: asks the same.
- SchemaExactness.ConstantAloneIsSoundExactly: asks the same.
- SchemaExactness.BooleanConstantIsSoundExactly: asks the same.
- SchemaExactness.DocumentIsSoundExactly: like all exact conditions, is stated for documents with nothing but annotations beside `$ref` and no name required twice; one node may be judged soundly by chance although a node below it is not.
- Migration.CallsAreKeptExactly: a call is admitted here by name, scopes and published input schema; approvals and idempotency keys depend on fields that a ready cutover keeps, and the rules of a tool policy, which are keyed by exposed name, are left out.
- SchemaCompleteness.RegisteredCoversItself: is stated for documents with nothing but annotations beside `$ref` and no name required twice, and only while the budget lasts, because the fixed budget of 10000 may run out on a registered document.
- RegistrationBounds.RegistrationBoundsData: does not bound the lengths of declared property names, which the source does not limit either.
- DrainRefinement.RunRefinesCalls: leaves out runs in which a drain is cancelled, since these have done part of the hooks of a call.
- Jwks.KeyIsLatestAndNotTooOld: bounds the age by the clock reading that the decision uses; after a failed fetch that reading is as old as the fetch.
- Approvals.OneTimeApprovalIsUsedOnce: rests on a store whose `consume` is atomic and whose records are fixed; the store itself is not part of this model.
- HTTP, TLS, JWT signatures, the MCP SDK, OpenTelemetry, signals and subprocesses: foreign code.
- Redaction and egress rules: their meaning rests on regular expressions and address libraries.
- Float rendering in the canonical printer: specs are taken to hold integers only.
- The lease times that a resolution writes with what it caches.
- The stub filter and the projection of an artifact to a server: functions the resolver is given.
- The API version of an artifact, which has a single value, and the identity scope in cache keys.
- Error paths and texts of schema violations; the model adds which limit was exceeded.
- `format` values and keywords outside the bounded language: left without meaning of their own.
- Text grammars of names, tenants, scopes and tokens, except tool names, order ids, statuses and definition names.
- Cyclic Python values, and encoder failures other than as a missing encoded size.
- Double cancellation while work is being stopped, and cancellation inside a lifecycle hook other than of a whole drain.
- Call histograms, queue depth, cancellation counts, exporters, spans, logs and Prometheus text.
- Construction of catalogues, policies and applications: their configuration errors would add only easy members.
- The secret canary endpoint, observations as documents, and the HTTP service of the order store.
