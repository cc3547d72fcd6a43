# Configuration library: a verified model

This project models a C++ library that keeps versioned configuration trees, and proves what its comments and
documents promise. The Dafny files follow its layers.

* **Paths** (`config_path.dfy`, `path_grammar.dfy`): the parser of dotted paths as its loop, and the grammar it is
  meant to accept.
* **Trees** (`tree.dfy`, `tree_laws.dfy`, `locations.dfy`, `write_laws.dfy`): the configuration tree as a value with its
  pure operations, the laws that relate reading, writing and removing, and when each of these succeeds.
* **Arena** (`ownership.dfy`, `node_arena.dfy`, `subtrees.dfy`, `writes.dfy`, `model_state.dfy`): the mutable slots with
  their free list, parent links and generations. A ghost tree annotated with slot ids says what the slots represent.
  `ModelState.Represents` is the invariant: every live slot is reached from the root exactly once and holds what the
  tree says, every parent link names the container, and `NodeArena.FreeList` lists exactly the dead slots.
  Growing the slot vector, a container, a member list or a copy of the arena goes through `Heap.Request`, which may
  fail, so unwinding is part of what is proved; between calls the budget may change to anything.
* **Model and handles** (`config_model.dfy`, `config_value.dfy`, `handles.dfy`, `lifetimes.dfy`, `wrap_around.dfy`): the
  path API on the arena, the value builder with its hash index, the read-only handles, and how long they stay valid over
  all runs.
* **Upgrade** (`merge.dfy`, `repair.dfy`, `version_catalog.dfy`, `migration_registry.dfy`, `migration_engine.dfy`,
  `config_runtime.dfy`): repair, migration and `synchronize`. A migration is an arbitrary function from the tree to
  the writes it makes and its verdict; a default factory is one fixed value or failure per version.
* **JSON** (`json_sax.dfy`, `json_meaning.dfy`, `json_interface.dfy`, `json_laws.dfy`): the SAX stack machine against a
  recursive meaning, that meaning against a direct description, the round trips, and which documents are accepted as
  what, position by position.
* **XML** (`utf8.dfy`, `xml_text.dfy`, `xml_meaning.dfy`, `xml_parse.dfy`, `xml_print.dfy`, `xml_interface.dfy`,
  `xml_laws.dfy`): the strict decoder and name checks against their standards, the reader and writer over element trees,
  the round trips, and which documents are accepted as what, element by element.
* **Checkpoints** (`filenames.dfy`, `ranking.dfy`, `disk.dfy`, `checkpoint_store.dfy`, `checkpoint_prune.dfy`,
  `checkpoint_restore.dfy`, `checkpoint_runs.dfy`, `checkpoint_recovery.dfy`, `checkpoint_rollback.dfy`): the store over
  two directories of files whose operations are atomic steps that may fail, with a crash possible after each; what
  recovery commits, and that a configuration captured before an upgrade is the one found after a downgrade.
* **Backends** (`backends.dfy`): the JSON and XML interfaces with their two load limits, as the loaders and savers the
  checkpoint store is given.

The code that updates state is modelled by classes and methods with loops; each is tied by its contract to a function
on values, and the laws are proved about that function. Methods that may run out of memory return an `Outcome`:
done, refused with an error code, or out of memory.

Where the repository's code and words differ, the code is followed.
`backends/xml/include/configmanager/backends/xml_interface.hpp` (lines 32-33) still says names are ASCII only; the
code accepts the full `Name` production without colons. The comment at
`backends/json/src/json_interface.cpp:85-86` says only negative integers reach `number_integer`; the model allows any
64-bit value there. Handles are documented as never becoming valid again once stale; because the generation is a
32-bit counter this holds up to 2^32 releases of one slot. `Lifetimes.ValidityOverRuns` gives the exact condition, and
`WrapAround.StaleHandleRevives` a run of sets and removes from a default model in which a stale handle is valid again;
`WrapAround.Revive` makes the arena itself go through the releases and allocations.

Saving does not look at the load limits, and neither does `cpCommit`. Repair may take a configuration over them, so a
committed configuration need not load again. `CheckpointRecovery.RecoveredLoads` gives the exact condition and
`Backends.RepairOutgrows` a configuration that fails it with both backends.

Parameters stand for what the library calls: the text of a double and its reading back (hypotheses `Pointed` and
`ReadsBack`), the backend of the checkpoint store as a function on bytes, clocks and file system failures as arbitrary
choices.

## Model

| member | source | states |
|---|---|---|
| `ConfigPath.ParsePath` | src/config_path.cpp:20-91 | the parsing loop returns exactly the specification's segments, or `InvalidPath`, for every byte string |
| `PathGrammar.ParseAcceptsExactlyTheGrammar` | src/config_path.cpp:20-91 | a text parses to given segments if and only if the documented grammar derives it from tokens of that meaning, indices below 2^64 |
| `PathGrammar.ParseErrors` | src/config_path.cpp:20-91 | the only error of a path is `InvalidPath` |
| `PathGrammar.ParsePrint` | src/config_path.cpp:20-91 | printing a segment list that starts with a key, with addressable keys, and parsing it gives the list back |
| `PathGrammar.PrintChild` | src/config_runtime.cpp:28-30 | the printed path of a child is its parent's path, a dot, and the key: what repair concatenates |
| `NodeArena.NodeArena.Allocate` | src/node_arena.hpp:43-61 | the head of the free list becomes live, or a new slot at the end if the list is empty; every other slot is untouched, the free list stays acyclic and duplicate-free and covers exactly the dead slots; running out of memory changes nothing |
| `NodeArena.NodeArena.Release` | src/node_arena.hpp:63-73 | the slot is cleared, its generation is bumped, and it becomes the head of the free list; nothing else changes |
| `Subtrees.BuildFromValue` | src/config_model.cpp:100-131 | builds a detached subtree that represents exactly the value, in slots that were not live; if memory runs out anywhere, every slot it took is released again and all live slots are as before |
| `Subtrees.FreeSubtree` | src/config_model.cpp:148-151 | exactly the slots of the subtree die, each released once |
| `Subtrees.FreeChildren` | src/config_model.cpp:135-146 | exactly the descendants' slots die, each released once; the node itself keeps its slot and generation |
| `Writes.AssignContents` | src/config_model.cpp:160-176 | same-type replacement: the target keeps its slot, generation and parent, its old descendants die, its new ones name it as parent; a failure while building changes no live slot |
| `Writes.BuildChain` | src/config_model.cpp:298-317 | the chain of containers is assembled bottom-up around the value, detached, or nothing of it is left when memory runs out |
| `Writes.Join` | src/config_model.cpp:318-325 | the chain becomes the anchor's last child in one step, or is freed and the anchor is untouched |
| `ModelState.MutationRepresents` | src/config_model.cpp:286-326 | a local rewrite of one part, whatever slots came and went, leaves an arena whose live slots are exactly those of the rewritten tree, each once, with parents right and the rest untouched |
| `ModelState.UnwoundRepresents` | src/config_model.cpp:78-98 | after an unwound write the arena represents the very same tree in the very same slots |
| `Handles.ValidNamesOne` | src/node_arena.hpp:84-87 | a handle is valid if and only if it names some node of the tree, and then it names exactly one |
| `ConfigModels.BuildValue` | src/config_model.cpp:178-207 | extracting a subtree gives back exactly the value it represents, order kept |
| `ConfigModels.ConfigModel.Resolve` | src/config_model.cpp:444-475 | following a path through the slots finds the slot of the node the tree-level lookup finds, with the same error otherwise |
| `ConfigModels.ConfigModel.ReadValue` | src/config_model.cpp:354-364 | reads exactly what the tree holds at the path, or the same error |
| `ConfigModels.ConfigModel.Contains` | src/config_model.cpp:387-393 | true exactly when the path parses and leads to a node |
| `ConfigModels.ConfigModel.NodeAt` | src/config_model.cpp:425-435 | the handle names the node at the path, in its present life |
| `ConfigModels.ConfigModel.PlanWrite` | src/config_model.cpp:235-284 | the plan made on the slots is the plan of the tree: same target or anchor, same creation point, same error |
| `ConfigModels.ConfigModel.Overwrite` | src/config_model.cpp:160-176 | a replacement at an existing node, refined: the new tree is the old one with that node replaced |
| `ConfigModels.ConfigModel.Create` | src/config_model.cpp:298-326 | a creation, refined: the new tree is the old one with the chain appended to the anchor |
| `ConfigModels.ConfigModel.Set` | src/config_model.cpp:366-385 | equals the pure upsert on success; an error changes no slot at all; running out of memory changes no live slot, no handle and not the tree |
| `ConfigModels.ConfigModel.Remove` | src/config_model.cpp:395-423 | equals the pure removal on success; an error changes nothing |
| `ConfigModels.ConfigModel.Cut` | src/config_model.cpp:404-421 | unlinking through the parent link and freeing detaches exactly the target, even among equal-looking siblings |
| `ConfigModels.ConfigModel.Clone` | src/config_model.cpp:437-442 | a separate arena with the same slots, generations and tree, or no memory for it and nothing changed |
| `ConfigModels.ConfigModel.FromValue` | src/config_model.cpp:338-348 | accepts exactly the values with an object root, unique addressable keys and depth at most 128, and holds exactly that value; the root's error code is told apart from the keys' and depth's |
| `Locations.UpsertByPlan` | src/config_model.cpp:209-326 | planning the whole write first and then applying it is the recursive upsert, in result and in error |
| `Locations.RemoveByLocate` | src/config_model.cpp:395-423 | removal by locating the target and detaching it from its container is the recursive removal |
| `TreeLaws.ReadAfterWrite` | src/config_model.cpp:366-393 | after a successful write, reading at the path or anywhere below it reads the written value |
| `TreeLaws.ReadApartFromWrite` | src/config_model.cpp:366-393 | after a successful write a path of which the written one is no prefix, and which is no prefix of it, is present exactly if it was before, and then with the same value |
| `TreeLaws.SetThenGet` | src/config_model.cpp:366-385 | the two laws on the path API: set then get returns the value, and disjoint paths keep their values |
| `TreeLaws.RemoveUndoesCreate` | src/config_model.cpp:395-423 | removing a node that a write has just added to an existing container gives back the tree before the write |
| `TreeLaws.ReadAfterRemove` | src/config_model.cpp:395-423 | after a removal every surviving node is read at its old path, or one index lower if it stood later in the same array |
| `TreeLaws.RemovedIsGone` | src/config_model.cpp:395-423 | a removed member is absent; at a removed index the next element or nothing is found |
| `TreeLaws.WritesKeepModels` | src/config_model.cpp:366-423 | writes and removals keep an object root, unique addressable keys and depth at most 128 |
| `WriteLaws.LookupChild` | src/config_model.cpp:444-475 | one segment more reads the first member of that key or the element at that index, and nothing else is read |
| `WriteLaws.LookupRefused` | src/config_model.cpp:444-475 | a read is refused with `InvalidType` if and only if some segment meets the wrong kind of node, with `NodeNotFound` if and only if some segment names a missing child, and never otherwise |
| `WriteLaws.UpsertAccepted` | src/config_model.cpp:213-284 | a write succeeds if and only if a node of the same type is there, or a missing key or the next index is met and all later indices are 0; each of the two codes has its exact cause |
| `WriteLaws.SetAccepted` | src/config_model.cpp:366-385 | the same on path texts, with `InvalidPath` if and only if the text is no path or the value does not fit below it |
| `WriteLaws.HolesAreRefused` | src/config_model.cpp:217-231 | where there is no "a", "a[0].b" can be set and "a[n].b" for any other digit is `NodeNotFound` |
| `WriteLaws.RemoveRefused` | src/config_model.cpp:395-423 | a removal is refused exactly where a read is, with the same code |
| `WriteLaws.AddressableIs` | src/config_path.cpp:20-91 | the addressable keys are the non-empty texts without dot and brackets, which are the texts that parse as a single key |
| `WriteLaws.FitsEverywhere` | src/config_model.cpp:44-71 | a tree fits if and only if every position in it is at depth 128 or less and has addressable keys |
| `Locations.EveryNodeHasAPath` | src/config_path.cpp:20-91 | in every model each node but the root has a printed path that parses and leads back to it |
| `ConfigValues.ConfigValue.Set` | src/config_value.cpp:19-34 | replaces in place or appends, keeping the hash index equal to a linear search of the members; a failed append withdraws its index entry |
| `ConfigValues.ConfigValue.Contains` | src/config_value.cpp:36-38 | the hash lookup says what a linear search of the ordered members would say |
| `ConfigValues.ConfigValue.Push` | src/config_value.cpp:40-44 | appends one element, or changes nothing when memory runs out |
| `ConfigValues.SetMemberDistinct` | src/config_value.cpp:19-34 | setting a member of a value without repeated keys gives one without repeated keys |
| `Handles.Descend` | src/config_node.cpp:44-77 | `child` and `at`: a stale handle is refused, a valid one moves to exactly the child the tree has there |
| `Handles.Keys` | src/config_node.cpp:79-93 | the member names in order, an error for a stale handle or another type, or no memory for the list |
| `Handles.Members` | src/config_node.cpp:95-112 | each member's name with a handle that names that member, in order, with the same errors |
| `Handles.ScalarValue` | src/config_node.cpp:114-123 | the scalar the tree holds, or `InvalidType` for containers |
| `Lifetimes.HandlesAfterOverwrite` | src/config_model.cpp:153-176 | after a same-type overwrite the target's handles and all unrelated ones name the same nodes, and exactly the handles below the target are stale |
| `Lifetimes.HandlesAfterCreate` | src/config_model.cpp:291-326 | after a creation every handle names the node it named |
| `Lifetimes.HandlesAfterRemove` | src/config_model.cpp:395-423 | after a removal exactly the handles in the removed subtree are stale; the others follow their nodes across index shifts |
| `Lifetimes.HandlesAfterFailure` | src/config_model.cpp:78-98 | after a write that ran out of memory exactly the handles that were valid are valid, and each points where it pointed |
| `Lifetimes.RunEvolves` | src/node_arena.hpp:63-73 | over every run release counts never go back and a slot leaves its life only by being released |
| `Lifetimes.ValidityOverRuns` | src/node_arena.hpp:84-87 | over every run a handle is valid if and only if its slot is live and was freed a multiple of 2^32 times since: the exact reach of the 32-bit counter |
| `Lifetimes.ValidUntilFreed` | src/node_arena.hpp:63-87 | with fewer than 2^32 releases of its slot a handle is valid exactly until the first, and once stale it stays stale through every reuse |
| `Lifetimes.NamesOverRuns` | src/config_node.cpp:12-24 | over every run a handle keeps naming the same node while that node is not freed: a trail of positions leads from the first state to the last, one removal at a time moving it, and the handle points along all of it |
| `WrapAround.StaleHandleRevives` | src/node_arena.hpp:63-87 | the bound is sharp: a run from a default model in which a handle is stale after its first release and valid again after 2^32 |
| `WrapAround.Revive` | src/node_arena.hpp:43-87 | the arena reuses the slot released last, so 2^32 releases, each followed by an allocation, make a handle into it stale and then good again |
| `Lifetimes.Replay` | src/config_model.cpp:366-423 | any sequence of sets and removes on a model, whatever each returns and whatever memory each finds, is such a run, and every state of it represents its tree |
| `Repair.FillMissing` | src/config_runtime.cpp:21-64 | repair by concatenated, re-parsed and re-resolved paths never reports an error and equals the structural merge at its place; its flag is true exactly when something changed |
| `Repair.FillFromRoot` | src/config_runtime.cpp:152-159 | repair from the root is the merge of the two trees, and the flag says whether the tree changed |
| `Merging.MergeKeeps` | src/config_runtime.cpp:14-20 | whatever the model holds at a path stays there: scalars, arrays and mismatched types unchanged, objects with at least their members |
| `Merging.MergeShape` | src/config_runtime.cpp:28-62 | the model's members come first in their own order, the added ones follow in the defaults' order |
| `Merging.MergeCompletes` | src/config_runtime.cpp:14-20 | every default key whose ancestors are objects in both trees is present afterwards |
| `Merging.MergeValid` | src/config_runtime.cpp:21-64 | the merge of two models is a model |
| `Merging.MergeTwice` | src/config_runtime.cpp:21-64 | a second repair adds nothing |
| `VersionCatalogs.VersionCatalog.FindEntry` | src/version_catalog.cpp:15-21 | the binary search returns the number of entries below the version |
| `VersionCatalogs.VersionCatalog.RegisterVersion` | src/version_catalog.cpp:25-39 | inserts at the sorted position, refuses duplicates and empty factories, and keeps the catalog strictly ascending |
| `VersionCatalogs.InsertCommutes` | src/version_catalog.cpp:25-39 | two versions may be registered in either order: the catalog is the same |
| `VersionCatalogs.AscendingUnique` | src/version_catalog.cpp:25-39 | a strictly ascending catalog is determined by its set of entries, so by what was registered and not when |
| `VersionCatalogs.VersionCatalog.Contains` | src/version_catalog.cpp:41-44 | true exactly for registered versions |
| `VersionCatalogs.VersionCatalog.NextVersion` | src/version_catalog.cpp:53-66 | the next version of the catalog or `InvalidVersion`, found by the binary search |
| `VersionCatalogs.NextIsLeast` | src/version_catalog.cpp:53-66 | the next version is the least registered one above a registered version, and there is none exactly for an unregistered or the latest one |
| `VersionCatalogs.VersionCatalog.LatestVersion` | src/version_catalog.cpp:46-51 | the greatest registered version |
| `VersionCatalogs.VersionCatalog.CreateDefault` | src/version_catalog.cpp:68-89 | the factory's value as a model, or the error of an unknown version, a throwing factory or a value no model can hold |
| `VersionCatalogs.DefaultIs` | src/version_catalog.cpp:68-89 | the default of a version is the value its own factory makes, if and only if that is a legal model; `MigrationFailed` if and only if the factory throws, `InvalidType` or `InvalidPath` by the value |
| `VersionCatalogs.NoDefault` | src/version_catalog.cpp:68-74 | `InvalidVersion` if and only if the version is not registered |
| `VersionCatalogs.DefaultStays` | src/version_catalog.cpp:25-39 | registering another version leaves the default of a version as it is |
| `MigrationRegistries.MigrationRegistry.RegisterMigration` | src/migration_registry.cpp:18-34 | adds one edge, refusing empty callables and repeated pairs |
| `MigrationRegistries.MigrationRegistry.FindMigration` | src/migration_registry.cpp:36-47 | the edge registered for exactly this pair, or `MissingMigration` |
| `MigrationRegistries.MigrationRegistry.Validate` | src/migration_registry.cpp:49-80 | succeeds if and only if the edges are precisely the consecutive pairs of the catalog, each once |
| `MigrationRegistries.AdjacentIsNext` | src/migration_registry.cpp:58-64 | the consecutive pairs of the sorted catalog are exactly the pairs `nextVersion` relates |
| `MigrationEngines.Migrate` | src/migration_engine.cpp:41-95 | the loop ends at the version, tree and error of the walk, for every catalog and registry; it terminates on the number of versions left |
| `MigrationEngines.WalkStops` | src/migration_engine.cpp:55-93 | over a validated registry the walk applies the edges between two versions in ascending order, stops before the first that fails, with `MigrationFailed` as the only error and the version of the last completed step |
| `MigrationEngines.ComposeKeeps` | src/migration_engine.cpp:66-92 | whatever the callbacks do through the API, the composed chain keeps the model invariant |
| `MigrationEngines.PlayOneMore` | src/migration_engine.cpp:66-92 | a callback's writes take effect in their order, and a refused one changes nothing |
| `ConfigRuntimes.NeverOvershoots` | src/migration_engine.cpp:55-93 | the walk's version stays between its start and its target, and without an error is the target |
| `ConfigRuntimes.ConfigRuntime.Create` | src/config_runtime.cpp:68-79 | a runtime exists if and only if the catalog is not empty and the registry validates; `InvalidVersion` for an empty catalog or a stray edge, else `MissingMigration` |
| `ConfigRuntimes.ConfigRuntime.Inspect` | src/config_runtime.cpp:81-90 | upgrade, downgrade or in sync, by comparing the two versions |
| `ConfigRuntimes.ConfigRuntime.RepairModel` | src/config_runtime.cpp:152-159 | the model becomes its merge with the version's defaults, or is unchanged with the defaults' error |
| `ConfigRuntimes.ConfigRuntime.Synchronize` | src/config_runtime.cpp:96-133 | one transaction: the outcome is the pipeline's on values; on an error, a downgrade or exhausted memory the configuration still holds the same version and the same model object; a call that changes nothing commits nothing |
| `ConfigRuntimes.ConfigRuntime.SynchronizeLatest` | src/config_runtime.cpp:135-142 | the same towards the latest registered version, errors and exhausted memory included |
| `ConfigRuntimes.SyncIs` | src/config_runtime.cpp:96-133 | between registered versions: the composed migration chain merged with the supported version's defaults, at exactly that version, if every edge succeeds; else `MigrationFailed`, or the defaults' own error |
| `ConfigRuntimes.SyncKeeps` | src/config_runtime.cpp:96-133 | unregistered versions are refused before any work and a newer configuration is left as it is; otherwise `InSync` at exactly the supported version; always a model |
| `ConfigRuntimes.SyncTwice` | src/config_runtime.cpp:125-132 | an immediate second call finds the same version and tree, so it commits nothing |
| `JsonSax.ValueBuilder.AttachValue` | backends/json/src/json_interface.cpp:271-285 | depth, then the node limit, then the value joins the container on top under its pending key |
| `JsonSax.ValueBuilder.OnScalar` | backends/json/src/json_interface.cpp:80-134 | every scalar event: what the recursive meaning gives for it, or the carrier's version, or the error |
| `JsonSax.ValueBuilder.Key` | backends/json/src/json_interface.cpp:151-174 | addressability, the top-level carrier, and duplicates, in this order |
| `JsonSax.ValueBuilder.PopFrame` | backends/json/src/json_interface.cpp:287-297 | a finished container becomes a member of the one below, or the root |
| `JsonSax.Feed` | backends/json/src/json_interface.cpp:76-297 | driven by the events of any value on any stack, the machine ends where the recursive meaning says, and at its first error |
| `JsonSax.FeedDocument` | backends/json/src/json_interface.cpp:76-308 | the same for whole documents, carrier included |
| `JsonMeaning.EvalIsSpelled` | backends/json/src/json_interface.cpp:245-285 | a value is accepted if and only if its keys are addressable and unique, its numbers in range, nothing is below depth 128, and it fits the node limit; then it means its own tree, order kept |
| `JsonMeaning.DocumentMeaning` | backends/json/src/json_interface.cpp:140-174 | a document is accepted with a version if and only if it is an object with exactly one valid top-level carrier around a lawful body within the limit; the tree is the document minus the carrier |
| `JsonMeaning.AcceptedFits` | backends/json/src/json_interface.cpp:390-394 | whatever the builder accepts can be adopted by a model, so `fromValue` cannot refuse |
| `JsonInterfaces.ToJson` | backends/json/src/json_interface.cpp:325-371 | the node's document if all its doubles are finite, else `SerializationError` |
| `JsonInterfaces.Save` | backends/json/src/json_interface.cpp:407-425 | refuses exactly the models with a reserved member or a non-finite double; otherwise writes the carrier and then the members in order |
| `JsonInterfaces.Load` | backends/json/src/json_interface.cpp:375-395 | accepts exactly the accepted documents, with their version and tree; every refusal has the code of the first offence |
| `JsonInterfaces.SaveThenLoad` | backends/json/src/json_interface.cpp:375-425 | what was saved loads back as the same version and tree, if and only if the tree has at most `maxNodes` nodes |
| `JsonInterfaces.LoadThenSave` | backends/json/src/json_interface.cpp:375-425 | what was loaded can be saved and loads again unchanged within the same limit |
| `JsonLaws.LoadedMeans` | backends/json/src/json_interface.cpp:72-320 | a document loads if and only if exactly one member is called `__version` and is an unsigned integer below 2^32, and everywhere else keys are addressable and unique, literals in range and depth at most 128, within the node limit; the tree has the same positions and at each the value that stands there |
| `JsonLaws.LiteralLoads` | backends/json/src/json_interface.cpp:74-135 | a literal loads if and only if it is an integer below 2^63, a float with a point or an exponent, or no number, and then as itself; otherwise `ParseError` |
| `JsonLaws.LoadedCodes` | backends/json/src/json_interface.cpp:375-395 | the code is `InvalidVersion` if and only if the first fault is a carrier that is no version, or the only one is that there is none; every other refusal is a `ParseError` |
| `JsonLaws.SavedMeans` | backends/json/src/json_interface.cpp:397-425 | a model is saved if and only if it has no member called `__version` and no double that is not finite; the carrier comes first and the rest holds at each position what the tree does |
| `Utf8.Decode` | backends/xml/src/xml_interface.cpp:109-141 | returns the character encoded at the position and the position after it, if and only if some character is encoded there |
| `Utf8.EncodeIsGrammar` | backends/xml/src/xml_interface.cpp:106-141 | the encoded characters are exactly the `UTF8-char` sequences of section 4 of RFC 3629 |
| `Utf8.WellFormedIsGrammar` | backends/xml/src/xml_interface.cpp:109-141 | the decoder's checks of lead byte, tails, shortest form, surrogates and range are that grammar |
| `Utf8.ReadingIsUnique` | backends/xml/src/xml_interface.cpp:166-195 | a text splits into characters in at most one way |
| `XmlText.IsValidElementName` | backends/xml/src/xml_interface.cpp:166-177 | true exactly for the encodings of the `Name` production of section 2.3 of XML 1.0 without colons |
| `XmlText.IsXmlRepresentable` | backends/xml/src/xml_interface.cpp:186-195 | true exactly for the encodings of sequences of `Char`s of section 2.2 of XML 1.0 other than U+000D |
| `XmlText.NameCharIs` | backends/xml/src/xml_interface.cpp:143-159 | the two character tables are the standard's, less the colon |
| `XmlText.ParseVersionCarrier` | backends/xml/src/xml_interface.cpp:197-219 | accepts exactly non-empty digit strings of value below 2^32, leading zeros included |
| `Decimals.ReadShownInt` | backends/xml/src/xml_interface.cpp:341-357 | every 64-bit integer reads back from its printed form |
| `XmlParse.NodeBudget.Consume` | backends/xml/src/xml_interface.cpp:68-85 | counts up to the limit and then refuses |
| `XmlParse.ScalarText` | backends/xml/src/xml_interface.cpp:233-250 | the concatenated character data, refused as soon as there is a child element |
| `XmlParse.ParseValue` | backends/xml/src/xml_interface.cpp:374-448 | accepts an element if and only if it is lawful at its depth and the budget covers its elements; the value is its meaning and the count is exact |
| `XmlParse.ParseObjectMembers` | backends/xml/src/xml_interface.cpp:253-296 | the same for the members of an object: names addressable, valid and unique, only white space between them |
| `XmlParse.ParseArrayItems` | backends/xml/src/xml_interface.cpp:298-330 | the same for the items of an array |
| `XmlMeaning.LawfulFits` | backends/xml/src/xml_interface.cpp:374-448 | whatever is accepted has unique addressable keys and depth within the limit |
| `XmlMeaning.StripMeans` | backends/xml/src/xml_interface.cpp:283-294 | white space between the children of non-empty containers changes neither acceptance nor meaning nor count |
| `XmlPrint.AppendValueElement` | backends/xml/src/xml_interface.cpp:517-579 | the element of a node if its name, keys, strings and doubles can be carried, else `SerializationError` |
| `XmlPrint.AppendMembers` | backends/xml/src/xml_interface.cpp:469-478 | the elements of the members in order, or the first refusal |
| `XmlPrint.AppendItems` | backends/xml/src/xml_interface.cpp:480-489 | the `item` elements in order, or the first refusal |
| `XmlPrint.ShowMeans` | backends/xml/src/xml_interface.cpp:462-579 | a printed element spells exactly the printed tree, node for node, and is lawful exactly where the tree fits |
| `XmlPrint.LawfulPrints` | backends/xml/src/xml_interface.cpp:161-195 | whatever is accepted can be printed, and has as many nodes as its tree |
| `XmlInterfaces.FindRoot` | backends/xml/src/xml_interface.cpp:597-623 | exactly one root element, named `config`, with only white space around it |
| `XmlInterfaces.ScanRoot` | backends/xml/src/xml_interface.cpp:625-662 | accepts exactly one version attribute and at most one `type="object"`, in either order; otherwise the code of the first fault |
| `XmlInterfaces.Load` | backends/xml/src/xml_interface.cpp:583-680 | accepts exactly the accepted documents, with their version and tree; the model's own refusal cannot occur |
| `XmlInterfaces.Save` | backends/xml/src/xml_interface.cpp:692-711 | refuses exactly the trees the mapping cannot carry; otherwise the version attribute and the members in order |
| `XmlInterfaces.SaveThenLoad` | backends/xml/src/xml_interface.cpp:583-711 | parse undoes print for every printable model within the limit, under any formatting white space |
| `XmlInterfaces.LoadThenSave` | backends/xml/src/xml_interface.cpp:583-711 | what was loaded can be saved and loads again unchanged within the same limit |
| `XmlLaws.LoadedMeans` | backends/xml/src/xml_interface.cpp:583-680 | a document loads if and only if it has one root called `config` that carries one version below 2^32, and every element in it is sound where it stands, within the node limit; then as that version and what the root means |
| `XmlLaws.LawfulEverywhere` | backends/xml/src/xml_interface.cpp:253-448 | an element is accepted if and only if within it everywhere member names are addressable, new and XML names, items are called `item`, only white space stands between children, scalar texts spell a value of their type, and depth is at most 128 |
| `XmlLaws.MeaningIs` | backends/xml/src/xml_interface.cpp:374-448 | an accepted object or array means its child elements in order, an accepted scalar what its text spells |
| `XmlLaws.ScalarMeans` | backends/xml/src/xml_interface.cpp:332-448 | by type: null is empty, bool is exactly "true" or "false", int is an optional minus and digits of a 64-bit value, double is what the reader makes of it if finite, untyped is a string of representable characters; nothing else is accepted |
| `XmlLaws.ScalarLoads` | backends/xml/src/xml_interface.cpp:583-680 | the same for whole documents with one such member; any other text is a `ParseError` |
| `XmlLaws.LoadedCodes` | backends/xml/src/xml_interface.cpp:597-662 | the code is `InvalidVersion` if and only if there is a proper root whose first faulty attribute is a version that is none, or that only lacks a version; every other refusal is a `ParseError` |
| `XmlLaws.SavedMeans` | backends/xml/src/xml_interface.cpp:692-711 | a model is saved if and only if everywhere keys are XML names, strings representable and doubles finite; the root carries the version and means the tree |
| `Filenames.CheckpointNameIs` | checkpoint/src/checkpoint_store.cpp:242-256 | a checkpoint's file name is recognised as one and tells its version |
| `Filenames.CheckpointNameInjective` | checkpoint/src/checkpoint_store.cpp:242-246 | two versions never share a file name |
| `Filenames.CheckpointNamesAre` | checkpoint/src/checkpoint_store.cpp:248-256 | checkpoint names are exactly ten digits followed by the canonical file's extension |
| `Filenames.PrecedesIs` | checkpoint/src/checkpoint_store.cpp:573-579 | names are compared bytewise: the first difference decides, or the length |
| `Filenames.TempIsNoCheckpoint` | checkpoint/src/checkpoint_store.cpp:49-57 | no temporary name is ever taken for a checkpoint, nor is it the destination's own |
| `Disks.WriteTemporary` | checkpoint/src/checkpoint_store.cpp:159-220 | creates a sibling that did not exist and fills it; a failure leaves the destination and every other file alone |
| `Disks.ReplaceThrough` | checkpoint/src/checkpoint_store.cpp:399-411 | at every moment the destination is its old file or holds the new bytes whole, and nothing else has changed but a temporary sibling |
| `CheckpointStores.Capture` | checkpoint/src/checkpoint_store.cpp:362-412 | copies the canonical bytes unchanged to the checkpoint of the version they carry; refuses without touching the disk when they cannot be read or carry another version |
| `CheckpointStores.Commit` | checkpoint/src/checkpoint_store.cpp:504-529 | replaces the canonical file by what the backend saved, through every intermediate state whole |
| `CheckpointStores.CheckpointFiles` | checkpoint/src/checkpoint_store.cpp:258-295 | exactly the checkpoint-shaped files, each once, in some order |
| `CheckpointRuns.Perform` | checkpoint/src/checkpoint_store.cpp:362-606 | every state of the disk during a call, where a crash may leave it, is one the theorems below allow |
| `CheckpointRuns.CanonicalStaysWhole` | checkpoint/src/checkpoint_store.cpp:504-529 | after every run of captures, commits and prunes cut short anywhere, the canonical file is the initial one or exactly what some commit saved |
| `CheckpointRuns.CheckpointsStayWhole` | checkpoint/src/checkpoint_store.cpp:362-412 | after every such run a checkpoint is one that was there, or holds the complete canonical bytes of the version in its name |
| `CheckpointRuns.NamesStayTrue` | checkpoint/src/checkpoint_store.cpp:362-412 | if the names and contents of all checkpoints agree at the start, they do after every such run |
| `CheckpointRuns.LeftoversAreTemporary` | checkpoint/src/checkpoint_store.cpp:49-57 | anything else such a run leaves behind has a temporary name |
| `Ranking.NewerIsStrict` | checkpoint/src/checkpoint_store.cpp:573-579 | time stamp, then name, is a strict order that decides between any two files |
| `Ranking.HigherIsStrict` | checkpoint/src/checkpoint_store.cpp:470-479 | so is version, then time stamp, then name |
| `Ranking.KeptFacts` | checkpoint/src/checkpoint_store.cpp:569-595 | kept are as many files as the retention or the versions allow, none of one version, each the newest of its version and above every newest file that is not kept |
| `Ranking.KeptTwice` | checkpoint/src/checkpoint_store.cpp:569-595 | choosing among the kept files keeps all of them |
| `Ranking.KeptAreLatest` | checkpoint/src/checkpoint_store.cpp:569-595 | by time stamp, then bytewise smaller name: a kept file is no older than any of its version, nor than the latest of any version that is not kept |
| `CheckpointPruning.Choose` | checkpoint/src/checkpoint_store.cpp:569-595 | grouping, sorting and cutting off chooses exactly the verified files that are not kept |
| `CheckpointPruning.Prune` | checkpoint/src/checkpoint_store.cpp:531-606 | a success removes exactly these and reports exactly the unverifiable files, each once and with its reason; at every moment, also on failure, nothing else is missing |
| `CheckpointPruning.PrunePartition` | checkpoint/src/checkpoint_store.cpp:531-606 | every checkpoint-shaped file is kept, removed or rejected, and only one of these |
| `CheckpointPruning.PruneTwice` | checkpoint/src/checkpoint_store.cpp:531-606 | afterwards exactly the kept files are verified, and pruning again removes nothing |
| `CheckpointPruning.PruneKeepsLatest` | checkpoint/src/checkpoint_store.cpp:569-606 | the same about the files on disk: no checkpoint that survives has an earlier time stamp than another of its version, or than the latest of a version that is removed |
| `CheckpointStores.RejectionIs` | checkpoint/src/checkpoint_store.cpp:531-568 | a checkpoint is verified if and only if it can be read within the size limit, loads, and has a time stamp; the backend's code if it does not load, else `StorageError` |
| `CheckpointRestore.Try` | checkpoint/src/checkpoint_store.cpp:480-500 | a candidate that is not newer ends at exactly the supported version or in an error: the status check never fires |
| `CheckpointRestore.PrepareRestore` | checkpoint/src/checkpoint_store.cpp:414-502 | finds the highest-ranked eligible checkpoint that synchronizes, at exactly the supported version with the synchronized tree; everything above it and everything unfit is rejected with its reason; no file changes |
| `CheckpointRestore.FoundIsLatest` | checkpoint/src/checkpoint_store.cpp:470-501 | what is found can be restored, and no checkpoint that can be has a higher version, nor the same version and a later time stamp, nor the same stamp and a smaller name |
| `CheckpointRestore.UnfitCodes` | checkpoint/src/checkpoint_store.cpp:435-466 | why a file is no candidate, in this order: unreadable or too big, not loadable, newer than supported, without time stamp |
| `CheckpointRestore.NoneMeansAllRejected` | checkpoint/src/checkpoint_store.cpp:470-501 | without a candidate every checkpoint-shaped file is rejected |
| `CheckpointRecovery.Recover` | docs/checkpoint-recovery.md:82-97 | the documented recovery: a success replaces the canonical file, and only it, by the saved form of what the highest-ranked checkpoint that synchronizes comes to; no candidate is reported only if all fail; any other outcome leaves the file as it was |
| `CheckpointRecovery.RecoveredLoads` | docs/checkpoint-recovery.md:82-97 | afterwards the canonical file loads as that configuration if and only if it is within the backend's byte and node limits, and can be captured if and only if it is moreover readable and within the store's size limit |
| `Backends.JsonLoadUndoesSave` | backends/json/src/json_interface.cpp:375-425 | the JSON interface loads nothing but models, and loads what it saved exactly within its byte and node limits |
| `Backends.XmlLoadUndoesSave` | backends/xml/src/xml_interface.cpp:583-711 | so does the XML interface |
| `Backends.JsonRecovered` | docs/checkpoint-recovery.md:82-97 | the condition for reloading and recapturing what was recovered, with the JSON interface |
| `Backends.XmlRecovered` | docs/checkpoint-recovery.md:82-97 | the same with the XML interface |
| `Backends.RepairOutgrows` | include/configmanager/load_limits.hpp:15-18 | at every node limit there is a configuration that both interfaces save and load, and whose repair both save and neither loads |
| `CheckpointRollback.RollbackFinds` | checkpoint/src/checkpoint_store.cpp:469-501 | with checkpoints named by their contents, the search ends at a given one if and only if it synchronizes and none of a higher supported version does |
| `CheckpointRollback.CheckpointLasts` | docs/checkpoint-recovery.md:71-76 | through every run, crashes included, a checkpoint is unchanged or gone unless its version is captured again |
| `CheckpointRollback.PruneSpares` | docs/checkpoint-recovery.md:127-131 | with one checkpoint per version, pruning spares one if and only if fewer verified ones than are retained are newer |
| `CheckpointRollback.RollbackRestores` | docs/checkpoint-recovery.md:46-108 | a captured configuration is found by firmware of its version after any run of other captures, commits and prunes if and only if its file is still there and usable and the defaults can be made; what is restored is the captured tree, repaired |
| `CheckpointRollback.UpgradeAndBack` | docs/checkpoint-recovery.md:46-108 | after capture, commit and prune the old firmware gets its configuration back if and only if fewer verified checkpoints than are retained were newer |

## Left out

- The text layers of nlohmann/json and pugixml, with the byte stream readers and stream failures while writing: documents are event sequences and element trees, and in `Backends` a written document is taken to be read as the one that was written, XML formatting aside. The JSON writer may refuse any document, as it does for strings that are not valid UTF-8; a JSON text with a syntax error is a parse error whatever the builder met before it.
- Typed reads: the scalar conversions of `include/configmanager/config_node.hpp` and IEEE arithmetic. A double is its bit pattern with a finite flag.
- Error messages; only codes are kept. Exceptions other than memory exhaustion, where the library turns them into a code, are that code.
- Slot ids are unbounded and the end of the free list is an option value, so exhausting 2^32-1 slots is not modelled. Generations are stored as full release counts and compared modulo 2^32.
- Handles into a destroyed or move-assigned model, which the library declares undefined, and the preconditions of `type()` and `size()` on stale handles.
- Stateful migration callbacks and factories, callbacks that replace the model they were given by move assignment, and callbacks that keep handles.
- The children of a value under construction are plain values rather than objects of their own, and the containers on the JSON and XML readers' stacks are values too; what the value class does in place is proved for one object, `ConfigValues.ConfigValue`.
- Capacities of vectors: growing one is a request that may fail, `reserve` included, and its amount is not modelled. Copies of strings outside the slots (parsed paths, scalars read through handles, messages) request nothing. Memory exhaustion inside the two readers and writers and in the checkpoint store is not modelled except where a model is built.
- The pugixml document is not updated in place: the writer returns element trees.
- JsonSax.Feed: the events are sent by a recursive driver, which stands for the parser; the machine itself is the source's.
- Utf8.Decode: masks and shifts are written as the arithmetic they are on bytes.
- Ranking.Sort: the library's sort is replaced by an insertion sort; any sort gives the same list.
- CheckpointPruning.Prune: the versions are visited in an arbitrary order, the source in ascending order; this can only be seen in which files are already gone when a removal fails.
- CheckpointRestore.PrepareRestore: a candidate's model is built when it is tried, the source builds it when the file is loaded.
- Disks.ReplaceThrough: retry counts, permissions, partial directory listings and the Windows variant are arbitrary failures; that a rename survives a power loss is not claimed, as the documentation does not.
- Creating the store and normalising its paths: the canonical file and the checkpoint directory are apart by construction.
- Concurrent writers, which the documentation excludes, and the planned YAML and INI mappings.
