# A verified model of the blueprint engine

This project models the parts of the repository whose correctness is not visible from
reading one function, and proves what they are for. Everything is plain Dafny 4.11;
`dafny verify dfyconfig.toml` checks all of it, with no further options.

| file | what it models |
|---|---|
| `Common`, `Blueprint` | shared types: JSON values whose string leaves carry what the decoder and the two regular expressions report about them |
| `TopoSort`, `SortOrder` | Kahn's algorithm over resources, as loops proved against a function of the graph, and which order it gives |
| `Decode`, `DecodeLoops` | `decodeBlueprint`: validation, reference collection, resolution, outputs, first as a function of the draft and then as the loops that compute it |
| `Readings`, `Acceptance` | what addresses, markers and texts are read as, and when a draft is accepted, stated as an author would read the conditions |
| `Identifiers`, `AuthoredNames` | authored names to identifiers, letter by letter, qualification of contested ones, `wrap` |
| `Splice`, `Restacking` | cutting a string at its embedded references, and moving a text from one stack to another |
| `Interpolation` | placeholders down to the characters of a TypeScript template, a Python f-string and a Go format |
| `Codegen` | the generator, for the three languages: a small syntax tree with an evaluator, rendering, and an independent meaning of blueprints |
| `CodegenProofs`, `CodegenScoping` | what the emitted code reads, when it is bound, and what is bound in vain |
| `CodegenAccepts` | which accepted drafts code is generated for |
| `CodegenTexts`, `CodegenMeaning`, `CodegenTheorem`, `CodegenExact` | what emitted strings, values, statements and programs evaluate to, and exactly when that is what they mean |
| `Delivery` | what a caller of the generated function gets, in terms of the draft |
| `CodegenWitness` | accepted drafts for which generation fails in each of its four ways |
| `Calling`, `CallBinding` | the three call writers, and each language's rules for binding arguments to the generated signature |
| `Outputs`, `Expansion` | output markers, call expansion and overrides of a document, in place |
| `StackLock`, `StackLockFile` | the lock file's policy over histories of runs, and the object and loops that implement one run |
| `ContentStore` | concurrent fetches into the content-addressed store, one file operation at a time |
| `KeyPath`, `ConfigCascade` | rendered key paths, and the in-place merge with its two side maps |
| `Package`, `Extraction` | manifest, verification, copying, archiving and extraction over directory trees |
| `Transfer` | the shared byte counter under interleaved goroutines |
| `CidrSubnet` | the generated `cidrsubnet` helper, over address bytes |
| `Reconcile` | comparing used blueprints with declared ones, for every map iteration order |

What the program changes step by step is written that way here: maps and queues are
updated in loops, the lock, the document, the cascade's side maps and the counter are
objects, the result buffer is an array. Each such method is proved against a function,
and the theorems are about that function. Go's map iteration is an arbitrary order
(`Common.InSomeOrder`), also where the source sorts for the sake of output, so no result
depends on an order. Error texts are not modelled, only whether an operation fails.
Regular expressions, JSON text, hashing, tar and gzip are functions given as parameters.

The compiler's promise is that every blueprint decoding accepts is generated, and that the
code, wherever it is called, creates what the blueprint means with every reference naming
its resource. Three things stand in the way of that, and the theorems say exactly when
they do not: code is generated exactly when the draft's values fit (`CodegenAccepts.CompilesIff`),
and it then means the blueprint, for all arguments in all stacks, exactly when captured
addresses are bound in time and every text is faithful
(`CodegenExact.CompiledCodeMeansBlueprintIff`).

Ten expectations turned out false of the code. Each is stated with the exact condition
under which it holds, or with a concrete case that shows why a hypothesis is needed:

* Not every accepted draft is generated: decoding does not look at placeholders, at what
  only the regular expression captures, or at function calls (`CodegenAccepts.CompilesIff`,
  and `CodegenWitness.AcceptedButNotGenerated`).
* An embedded reference can read a local that nothing bound, because the regular
  expression captures an address the decoder did not collect. Exactly when
  (`CodegenProofs.ScopedIffCapturesBound`, `CodegenScoping.CompiledCodeScopedIff`), and an
  accepted draft for which it happens (`CodegenWitness.AcceptedCodeGetsStuck`).
* A reference the decoder collects from a JSON text and the regular expression misses stays
  as it was written, with the blueprint's own stack name. A text means the same in code and
  in the blueprint, in every stack, exactly when the captured addresses and the collected
  references stand at the same places (`CodegenTexts.StringMeansIff`,
  `Restacking.RestackedAlikeIff`), and an accepted draft keeps the old name with every read
  bound in time (`CodegenWitness.AcceptedCodeKeepsOldStack`, `NestedKeepsOldStack`).
* A local is bound for a resource that another only names in its depends_on, though the
  generator binds locals for what is read so as to avoid Go's error about unused ones. No
  local is unused exactly when every such resource is read elsewhere
  (`CodegenScoping.NoUnusedLocalIff`), and an accepted draft where one is
  (`CodegenWitness.DependsOnLeavesALocalUnread`).
* A TypeScript template reads a carriage return back as a line feed
  (`Interpolation.TSTemplateFaithfulIff`).
* A Go format takes a literal percent sign for a directive: it prints the filled text for
  all values of the arguments exactly when the text has none
  (`Interpolation.GoFormatFaithfulIff`).
* Output markers survive expansion when no call has any output
  (`Expansion.ExpansionSettlesMarkersIff`).
* A pin of the lock is let go without an update: a successful write that does not declare
  the name releases it, and a write for the calls of a stack so releases what only its
  table declares, since both clients prune one lock. Exactly which runs release a pin, and so
  exactly which histories keep it (`StackLock.RunKeepsPinIff`, `PinHeldThroughoutIff`), and
  a history that loses one (`AWriteThatOmitsTheNameReleasesThePin`).
* A subnet of an IPv4-mapped IPv6 prefix lies outside it, and past 63 new bits the subnets
  do not cover the prefix (`CidrSubnet.SubnetInsidePrefixIff`, `SubnetsCoverIff`).
* Which declaration a use pairs with can depend on map order. The pairings some order
  gives, exactly (`Reconcile.PairingOutcomes`), and when a use of a declaration's source
  pairs with it in every order (`PairsInEveryOrderIff`).

## Model

| member | source | states |
|---|---|---|
| TopoSort.SortSucceedsIffAcyclic | blueprint/decode.go:502-546 | the sort succeeds if and only if every dependency is listed and no chain of dependencies loops |
| TopoSort.SortedOrderIsTopological | blueprint/decode.go:520-545 | a successful sort lists each resource once, each strictly after all it depends on |
| TopoSort.SortedCorrect | blueprint/decode.go:502-546 | the same of resources: failure exactly on a cycle or dangling dependency, else a permutation with dependencies earlier |
| TopoSort.CountDependencies | blueprint/decode.go:503-520 | the counting loops give in-degrees and waiting lists that are functions of the graph, whatever order dependency sets are walked in |
| TopoSort.Release | blueprint/decode.go:530-540 | one pass over a waiting list decrements and enqueues exactly what reaches zero |
| TopoSort.SortAddresses | blueprint/decode.go:502-546 | the queue loop computes that function of the graph, so the order of dependency sets cannot show |
| TopoSort.TopoSortResources | blueprint/decode.go:502-546 | the whole method returns the specified order of resources or its failure |
| SortOrder.SortedIffPromised | blueprint/decode.go:495-546 | the order is determined: the sort gives an order if and only if in it dependencies come first, then what was ready first, then what was declared first |
| SortOrder.ResourcesInPromisedOrder | blueprint/decode.go:502-546 | the resources stand in that order of their addresses |
| DecodeLoops.FillDeps | blueprint/decode.go:319-347 | one resource's dependencies are the targets of every address it mentions, or decoding fails on one that does not resolve |
| DecodeLoops.FillAllDeps | blueprint/decode.go:214-226 | the reference loop fills every resource's dependencies and the set of referenced resources |
| DecodeLoops.FindForEach | blueprint/decode.go:145-170 | accepts exactly when at most one resource iterates, over a declared list, with no clashing index name and no outputs, and says which it is |
| DecodeLoops.CheckCreateIf | blueprint/decode.go:181-212 | accepts exactly terms that name distinct boolean parameters, of a resource that does not iterate |
| DecodeLoops.ResolveOutputTarget | blueprint/decode.go:298-317 | gives the one resource with the slug and the path after it, or fails when none or several carry it |
| DecodeLoops.ResolveDeclaredOutputs | blueprint/decode.go:234-241 | the output loop resolves every target in order and adds the resources they name, or fails on the first that does not resolve |
| DecodeLoops.CheckReferences | blueprint/decode.go:243-285 | accepts exactly when nothing iterated or conditional is referenced and an iterated name varies |
| DecodeLoops.DecodeDraft | blueprint/decode.go:116-288 | the validation, reference, sorting and output loops together accept exactly the drafts the specification accepts and build the same decoded blueprint |
| Readings.AddressResolvesIff | blueprint/decode.go:349-371 | an address resolves to a resource and a path exactly when it is written as this stack, the type, the name and the path with dots between |
| Readings.MarkersAreWritten | blueprint/decode.go:376-436 | which objects are taken for a reference to an address, and which for a function call, by their keys |
| Readings.CollectedIffStands | blueprint/decode.go:438-493 | an address is collected exactly when a reference to it stands at some path of the value, or in a text that shows one, and not inside another reference |
| Acceptance.AcceptedIff | blueprint/decode.go:116-288 | a draft is accepted if and only if it meets every condition on operations, addresses, iteration, flags, references, cycles, outputs and what may be referenced, each as the author would read it |
| Acceptance.AcceptedMeans | blueprint/decode.go:116-288 | it then decodes to each resource with exactly the resources it mentions, in the promised order, and the outputs as declared |
| Acceptance.OutputResolvesIff | blueprint/decode.go:298-317 | a target resolves to a resource and a path exactly when it is written as that resource's name, borne by no other, and the path |
| Acceptance.OutputsInOrder | blueprint/decode.go:234-241 | all outputs resolve exactly when each is so written, and they come under their names in declared order |
| Identifiers.PascalCaseAuthored | blueprint/identifier.go:50-85 | the builder loop computes the capitalized concatenation of the name's parts, or fails on a bad one |
| AuthoredNames.PascalReads | blueprint/identifier.go:50-108 | an identifier is the name's letters and digits in order, capital exactly where a part starts, and its local the same with the first letter as written; a name converts exactly when it has one and otherwise only hyphens and underscores |
| AuthoredNames.SourceIdentifier | blueprint/decode.go:648-683 | a resource whose identifier another also derives is called by type and then name, any other by name alone |
| AuthoredNames.LoopIdentifier | blueprint/identifier.go:133-159 | an iterated resource's identifier is that of its name with the placeholders taken out |
| AuthoredNames.OnePlaceholderIdentifier | blueprint/identifier.go:133-159 | so with one placeholder it is that of the text around it |
| Identifiers.LocalsFollowIdentifiers | blueprint/identifier.go:103-108 | lower-casing the first letter of two identifiers never makes them collide |
| Identifiers.IdentSources | blueprint/decode.go:648-683 | a name is qualified by its type exactly when another resource derives the same identifier |
| Identifiers.Wrap | blueprint/gogen.go:221-252 | accepts exactly the resources whose identifiers all convert and are distinct |
| Identifiers.WrappedLocalsDistinct | blueprint/gogen.go:221-252 | after wrap no two resources share a local variable |
| Splice.RenderEmbedded | blueprint/gogen.go:461-498 | the cursor loop emits the specified pieces for any ordered, non-overlapping spans |
| Splice.PiecesReplaceAddresses | blueprint/tsgen.go:379-410 | the emitted concatenation is the source with exactly the captured addresses replaced, for any way of computing them |
| Splice.PiecesRestoreSource | blueprint/pygen.go:398-434 | with each reference put back as captured, the pieces are the source byte for byte |
| CodegenProofs.AcceptedIsSound | blueprint/decode.go:215-288 | in an accepted blueprint dependencies come first, are referenced, and what is referenced exists exactly once |
| CodegenProofs.ReadsAreCollected | blueprint/decode.go:472-493 | rendering reads only resources the decoder collected, but for what only the regular expression sees |
| CodegenProofs.CollectedAreReadIff | blueprint/gogen.go:394-499 | the other half: the code reads all the decoder collected if and only if it reads those that stand outside the matches of the regular expression or beside a function's arguments |
| CodegenProofs.ScopedIffCapturesBound | blueprint/gogen.go:394-499 | every read is of an earlier resource if and only if that is so of the addresses the regular expression captured |
| CodegenProofs.CollectedCapturesAreBound | blueprint/gogen.go:452-499 | a check on the draft alone that implies it: each captured address is one the decoder collected |
| CodegenProofs.NestedMarkerEscapesCollection | blueprint/gogen.go:452-499 | a text from which the decoder collects one resource, and the code reads only another |
| CodegenWitness.AcceptedCodeGetsStuck | blueprint/gogen.go:800-884 | a draft holding such a text is accepted and generated without error in every language, and its code reads a local nothing bound and gets stuck on it |
| CodegenWitness.AcceptedCodeKeepsOldStack | blueprint/gogen.go:452-499 | with one depends_on more every read is bound in time, and the code still does not mean the blueprint |
| CodegenWitness.NestedKeepsOldStack | blueprint/gogen.go:461-498 | in another stack that code relocates the captured address and leaves the collected one as written |
| CodegenWitness.AcceptedButNotGenerated | blueprint/gogen.go:563-578 | a placeholder that names no parameter is accepted by decoding and refused by every generator |
| CodegenWitness.DependsOnLeavesALocalUnread | blueprint/decode.go:218-225 | a resource another is only placed after is bound to a local nothing reads |
| CodegenWitness.NestedIsMisplaced | blueprint/tsgen.go:379-410 | a marker inside a marker is such a text |
| CodegenScoping.CompiledCodeScopedIff | blueprint/gogen.go:800-898 | in the emitted code every local read by a statement or a returned output is bound by an earlier, unconditional, top-level statement if and only if captured addresses are bound in time |
| CodegenScoping.NoUnusedLocalIff | blueprint/gogen.go:661-669 | no emitted local is unused if and only if every resource named in a depends_on, or by a collected reference the code does not read, is read by some statement or is an output's |
| CodegenAccepts.CompilesIff | blueprint/gogen.go:254-499 | code is emitted for an accepted draft if and only if its placeholders are in force and of the right type, its embedded texts have matches that resolve, and its function calls are ones the language has |
| Restacking.RestackedAlikeIff | blueprint/gogen.go:461-498 | replacing the stack names at two lists of places gives one text under every name if and only if the lists are the same |
| CodegenTexts.EmbeddedEval | blueprint/gogen.go:452-499 | the code for a JSON text evaluates to the text with exactly the stack names of the captured addresses replaced |
| CodegenTexts.TemplateMeansIff | blueprint/tsgen.go:312-355 | the code for a text with placeholders evaluates to the filled text exactly where the language's template reads the literal text back |
| CodegenTexts.StringMeansIff | blueprint/gogen.go:414-499 | the code for a string evaluates to what it means in a stack exactly when its collected references and its captured addresses, moved there, give one text, and its template reads back |
| CodegenMeaning.ValueMeansIff | blueprint/gogen.go:309-405 | the code for a config value, nested, in function arguments or inside a string, evaluates to what the value means in every runtime and stack if and only if every text in it is faithful |
| CodegenMeaning.CallCreates | blueprint/gogen.go:254-301 | one emitted call creates the resource its template means |
| CodegenTheorem.StepCreates | blueprint/gogen.go:800-884 | a looping, conditional, bound or bare statement creates exactly its resource's instances and leaves the right locals bound |
| CodegenTheorem.InstancesAreDeclared | blueprint/gogen.go:800-866 | a resource is made once per element, in order, under the element and its position counted from zero; or once if every create_if term says so, "!p" that p is false and any other p that it is true; or not at all |
| CodegenTheorem.OneFlagDecides | blueprint/decode.go:611-616 | under [p] it is made exactly when p is true, under ["!p"] exactly when p is false |
| CodegenTheorem.LoopStep | blueprint/gogen.go:800-830 | an iterated statement creates one instance per element and collects them in order |
| CodegenMeaning.WrapSeparatesLocals | blueprint/tsgen.go:146-168 | the check in wrap is what keeps the theorem's locals apart |
| CodegenTheorem.CompiledCodeMeansBlueprint | blueprint/gogen.go:680-898 | where captured addresses are bound in time and texts are faithful, emitted code, called with arguments of the declared types in any stack, creates exactly the resources the blueprint means, each collected reference the resource named, and returns its outputs |
| CodegenTheorem.RunMakesAsDeclared | blueprint/gogen.go:800-866 | running the emitted code makes each resource as often as its for_each or create_if declares, between what those before and after it make |
| Delivery.RunReturnsDeclared | blueprint/gogen.go:885-897 | and returns the outputs in declared order, each an attribute of the one resource its target names, or the list of what the loop made |
| Delivery.TextMeans | blueprint/gogen.go:414-440 | a lone placeholder stands for its argument whatever its type; a text around one has the argument printed in its place |
| CodegenExact.CompiledCodeMeansBlueprintIff | blueprint/gogen.go:680-898 | and only there: the code means the blueprint, for all arguments, stacks and runtimes, if and only if captured addresses are bound in time and every text is faithful |
| CodegenMeaning.EqualElementsOneAddress | blueprint/decode.go:264-285 | a loop over equal elements gives one address more than once, unless the name mentions the position |
| Interpolation.LiteralsCoverSource | blueprint/tsgen.go:312-347 | the segments and the placeholders between them are the whole string |
| CodegenTexts.MeaningIsFilled | blueprint/gogen.go:414-440 | what a string means is its segments with its arguments' values in the holes |
| Interpolation.TSSegmentReads | blueprint/tsgen.go:352-355 | an escaped segment reads back as its own text and neither ends the literal nor opens a substitution, wherever it stands |
| Interpolation.TSTemplateReads | blueprint/tsgen.go:312-355 | for any text the template evaluates to the filled string with line ends normalized |
| Interpolation.TSTemplateFaithfulIff | blueprint/tsgen.go:312-355 | the template evaluates to the filled source if and only if the text holds no carriage return |
| Interpolation.PySegmentReads | blueprint/pygen.go:370-376 | an escaped and brace-doubled segment reads back as its own text, whatever it holds |
| Interpolation.PyTemplateFaithful | blueprint/pygen.go:326-376 | the f-string evaluates to the filled source, for every text |
| Interpolation.GoFormatFaithfulIff | blueprint/gogen.go:414-440 | the Go format gives the filled source for all values of the arguments if and only if the text holds no percent sign |
| Interpolation.GoFormatWithinDirectives | blueprint/gogen.go:414-440 | for given values, where only the two directives the generator knows occur, it does so if and only if the text holds no percent sign |
| Interpolation.RenderTSTemplate | blueprint/tsgen.go:330-347 | the cursor loop writes that template |
| Calling.ParseParams | blueprint/ubxfile.go:312-339 | accepts exactly lists of parsable entries with unique names |
| Calling.RequiredFirstOrder | blueprint/ubxfile.go:83-96 | the two loops give the required parameters, then the defaulted ones |
| Calling.RequiredFirstIsStableGrouping | blueprint/ubxfile.go:57-96 | that order is a permutation, required before defaulted, each group in declaration order |
| Calling.ResolveCallArgs | blueprint/invoke.go:155-165 | fails exactly on a missing required parameter, else pairs each parameter with its text |
| Calling.WriteTSCaller | blueprint/invoke.go:622-645 | the positional arguments in the signature's order, through the map keyed by name |
| Calling.WritePyCaller | blueprint/invoke.go:699-713 | a keyword for every given parameter, in declaration order |
| Calling.WriteGoCaller | blueprint/invoke.go:784-817 | plain values for the required parameters, then an option for each given default |
| CallBinding.CallersAgreeOnWhatReads | blueprint/invoke.go:216-326 | the three callers accept exactly the same complete arguments |
| CallBinding.TSCallBinds | blueprint/tsgen.go:629-646 | the positional call gives every parameter of the generated signature its given value or default |
| CallBinding.PyCallBinds | blueprint/pygen.go:626-653 | the keyword call does |
| CallBinding.GoCallBinds | blueprint/gogen.go:757-799 | the call with options over the seeded struct does |
| CallBinding.ThreeCallsBindTheSame | blueprint/invoke.go:622-817 | so the three calls bind every parameter to the same value |
| Outputs.RewriteFailsIff | blueprint/outputs.go:161-213 | the rewrite fails exactly when some marker, at any depth, names an undeclared or unset output |
| Outputs.MarkersLeftIff | blueprint/outputs.go:161-213 | a marker is left exactly when some replacement address was itself provisional |
| Outputs.RewriteIsFinal | blueprint/outputs.go:161-213 | with no provisional address none is left, the value changes exactly when it held one, and a second pass does nothing |
| Outputs.OnlyMarkersAreReplaced | blueprint/outputs.go:161-213 | node by node, a marker becomes the reference to its own output and nothing else is touched |
| Outputs.MarkerIsWritten | core/resolver/resolver.go:447-447 | a provisional marker is exactly an object holding just "$ref", holding just "to", a string of the prefix and the key |
| Outputs.RewriteOutputRefsInValue | blueprint/outputs.go:161-213 | the recursive walk, in any map order, computes that value and its changed flag |
| Outputs.DocumentCleanIff | blueprint/outputs.go:136-159 | after a pass over a document markers remain exactly when the output map was empty and there were some |
| Outputs.CutAtFirstDot | blueprint/outputs.go:100-104 | a target is cut at its first dot, and only a target without one is refused |
| Outputs.LastNamedIs | blueprint/outputs.go:31-115 | of several outputs of one name the last is meant |
| Outputs.ResolveCallOutputs | blueprint/outputs.go:31-115 | for an Ubxfile succeeds exactly when each target has a dot and one resource of its slug, and gives that resource's address; for a schema-described blueprint gives each declared output the reported address or the empty one |
| Expansion.Document.AppendCalls | blueprint/invoke.go:68-95 | appends every call's resources in order, fails exactly on a failed call or a repeated address, and gathers the named outputs |
| Expansion.Document.ExpandCalls | blueprint/invoke.go:49-105 | the document afterwards is the specified expansion, or the call fails exactly when that does |
| Expansion.Document.RewriteBlueprintOutputRefs | blueprint/outputs.go:136-159 | every config is rewritten in place, and on failure each is rewritten or as it was |
| Expansion.ExpansionAppendsInCallOrder | blueprint/invoke.go:68-95 | distinct addresses stay distinct, earlier resources first and in order, then each call's in call order |
| Expansion.ProducedInCallOrder | blueprint/invoke.go:78-91 | what is produced is each call's resources, one call after another |
| Expansion.LastGivenIsKept | blueprint/invoke.go:92-97 | the output map holds, under the call's name, a colon and the output, what the last call to give it gives, and nothing else |
| Expansion.MarkerBecomesOutput | blueprint/outputs.go:161-213 | a document's reference to "$blueprint_output:<call>:<output>" becomes one to the address the last such call gave, or the document is refused when that is missing or empty |
| Expansion.ExpansionResolvesMarkers | blueprint/outputs.go:136-213 | so at any depth of any resource, the document's own or a produced one |
| Expansion.ExpansionSucceedsIff | blueprint/invoke.go:49-105 | expansion succeeds exactly when every call was invoked, no produced address is taken, and, unless no call gives any output, every marker is answered and every config is JSON |
| Expansion.OutputsNameProducedResources | blueprint/outputs.go:31-115 | every replacement address is an attribute of a resource some call produced, or what a schema-described blueprint reported |
| Expansion.ExpansionSettlesMarkersIff | blueprint/invoke.go:76-104 | expansion leaves markers exactly when no call had outputs and there were some |
| Expansion.FullAddressNamesResource | core/proposal.go:310-316 | a full address parses to the resource it was read off, whatever dots its name holds |
| Expansion.AttributeNamesResource | blueprint/outputs.go:100-115 | an output's address parses to its resource and attribute |
| Expansion.AppliesIff | blueprint/override.go:46-80 | an override applies exactly when its address is written for a resource of this stack whose config is an object or null |
| Expansion.OverridesFailIff | blueprint/override.go:46-80 | the overrides fail exactly when one has a bad address, another stack, an unknown resource or a config that is not an object |
| Expansion.FieldFollowsLastOverride | blueprint/override.go:56-88 | each field is the last override naming it, else its expanded value; untargeted resources are unchanged |
| Expansion.ExpandThenOverride | blueprint/override.go:46-92 | both together, from distinct addresses |
| Expansion.Document.ApplyOverrides | blueprint/override.go:46-92 | the loops leave the specified document and no overrides, or fail exactly when that does |
| StackLock.WriteRecordsExactlyTheDeclared | blueprint/stacklock.go:176-209 | a successful write leaves for its stack exactly the declared names, each its last declaration; other stacks are untouched |
| StackLock.VerifyRunSucceedsIff | blueprint/pydeps.go:284-325 | a verify run against a lock file succeeds if and only if every declaration is answered, under its name where that is asked, with exactly its locked source and content, and it never changes the file |
| StackLock.WriteRunSucceedsIff | blueprint/pydeps.go:284-325 | a write run succeeds if and only if each is answered, what is locked agrees, and repeated names agree; unlocked names are let through |
| StackLock.UncheckedRunSucceedsIff | blueprint/pydeps.go:291-300 | a run that updates, ignores the lock, or verifies where there is none succeeds exactly when every declaration is answered |
| StackLock.RunHonoursPin | blueprint/stacklock.go:229-241 | a run that succeeds without updating resolves a pinned name to its pinned content under its pinned source, whatever registry and store serve |
| StackLock.WriteKeepsPinIff | blueprint/stacklock.go:176-209 | a successful write of the stack leaves the pin exactly when its last declaration of the name is the pinned entry again |
| StackLock.RunKeepsPinIff | blueprint/pydeps.go:246-345 | a pinned name stays pinned through a run if and only if the run fails or does not release it, by an omission in a write or by an update to something else |
| StackLock.PinHeldThroughoutIff | blueprint/pydeps.go:229-345 | a pin is held through a whole history if and only if none of its runs releases it |
| StackLock.PinHoldsThroughHistory | blueprint/pydeps.go:229-345 | as long as no run has released the pin, every successful verify or write run resolves to the first recorded content |
| StackLock.DeclaringRunsNeverRelease | blueprint/invokedeps.go:166-202 | a history whose writes of the stack are ordinary ones that still declare the name keeps the pin |
| StackLock.WritePinsWhatItDeclares | blueprint/pydeps.go:290-345 | where pins come from: a successful write pins all it declares |
| StackLock.AWriteThatOmitsTheNameReleasesThePin | blueprint/invokedeps.go:166-202 | the history condition is needed: a write by the other client forgets the pin |
| StackLockFile.Lock.Set | blueprint/stacklock.go:176-184 | one entry is put on record, all others kept |
| StackLockFile.Lock.Prune | blueprint/stacklock.go:192-209 | exactly the undeclared entries of the stack go, listed once each, and an emptied stack with them |
| StackLockFile.LedgerDir.Resolve | blueprint/deps.go:58-101 | the load, resolve, prune, save pipeline is the specified run on the file |
| StackLockFile.MergeDeclared | blueprint/stacklock.go:327-362 | the table's declarations, then the requirements it does not name |
| StackLockFile.UnlistedInOrder | blueprint/stacklock.go:327-362 | a requirement is kept exactly when the table does not name it, and in its order |
| StackLockFile.DistinctCalls | blueprint/invokedeps.go:132-165 | one declaration per name, refused exactly when one name has two sources |
| ContentStore.StepKeepsInv | blueprint/contentstore.go:267-320 | every atomic step of every process keeps the invariant |
| ContentStore.EveryScheduleIsSafe | blueprint/contentstore.go:267-320 | so it holds in every interleaving, whatever is pulled and whoever crashes |
| ContentStore.ReturnedDirectoryMatchesManifest | blueprint/contentstore.go:267-320 | a returned directory verifies to exactly the returned manifest's hash |
| ContentStore.FetchOutcome | blueprint/contentstore.go:267-320 | what an undisturbed fetch comes to, from any store: it returns the pulled manifest and its place, stored and listed, if and only if something was pulled, its recomputed hash is the declared one, and it could be moved in or was there; otherwise it fails and changes nothing |
| ContentStore.LookupOutcome | blueprint/contentstore.go:269-278 | a fetch of known content returns it without a pull if and only if the store holds it genuine under its hash, and otherwise goes to the registry |
| ContentStore.IndexedSourcesResolved | blueprint/contentstore.go:181-203 | a listed source did resolve to that stored content |
| ContentStore.StoreOnlyGrows | blueprint/contentstore.go:301-320 | stored content is never replaced or removed |
| ContentStore.LostRaceIsHarmless | blueprint/contentstore.go:308-318 | the directory that won the rename race holds the same files |
| ContentStore.AnEntryCanBeLost | blueprint/contentstore.go:149-203 | index entries can be lost: two overlapping updates leave the later one's |
| KeyPath.SegmentUnique | cli/configcascade.go:356-365 | a bare or quoted key is recovered from the text it starts |
| KeyPath.RenderInjective | cli/configcascade.go:346-365 | two different key paths never render alike |
| KeyPath.BareIff | cli/configcascade.go:346-365 | a key is written as it is exactly when it is letters, digits and underscores and does not start with a digit, else in quotes |
| KeyPath.BarePathIsDotted | cli/configcascade.go:346-365 | a path of such keys is the keys with dots between |
| ConfigCascade.ShadowsMeans | cli/configcascade.go:328-344 | shadowing is a leaf on a proper prefix, or anything at the path |
| ConfigCascade.MergedLeaf | cli/configcascade.go:328-344 | a leaf of one merge is the nearer tree's, or an unshadowed one of the farther |
| ConfigCascade.MergedLeafIffSurvives | cli/configcascade.go:121-133 | a path is a leaf of the merged tree exactly when some layer's leaf there survives all nearer layers |
| ConfigCascade.LayerKeepsFaithful | cli/configcascade.go:328-344 | folding one more layer keeps the side maps faithful |
| ConfigCascade.SideMapsAgreeWithTree | cli/configcascade.go:121-133 | every merged leaf is in both side maps with its value and the nearest layer's file |
| ConfigCascade.Cascade.MergeGeneric | cli/configcascade.go:328-344 | the recursive merge returns the specified tree and records every leaf it took, in any key order |
| ConfigCascade.Cascade.Load | cli/configcascade.go:121-133 | the fold over layers gives that tree and faithful side maps |
| Package.ArchivedNamesComeBack | blueprint/oci.go:390-449 | every archived name is accepted by extraction and lands at its own path |
| Package.PackagedVerifies | blueprint/package.go:40-107 | a packaged directory verifies |
| Package.CopyVerifies | blueprint/pull.go:169-201 | so does any copy of it, with the same hash |
| Package.ArchiveVerifies | blueprint/oci.go:354-450 | so does the extraction of its archive, in any member order |
| Package.TamperingIsEvident | blueprint/verify.go:17-43 | of a directory that keeps a packaged manifest, verification succeeds if and only if the covered files are what was packaged, given hashes that do not collide |
| Package.UnreadableManifestFails | blueprint/verify.go:17-43 | without a readable manifest it fails |
| Package.PackagingIsAFixpoint | blueprint/package.go:40-107 | packaging again changes nothing |
| Package.HashSeesExactlyCovered | blueprint/manifest.go:109-204 | with hashes that do not collide, two trees have one content hash if and only if they agree on what a walk covers |
| Package.SameCopySameManifest | blueprint/pull.go:169-201 | trees with one copy have one manifest |
| Package.SkippedEntriesAreInvisible | blueprint/manifest.go:109-167 | a skipped entry, or anything below one, added, changed or removed at any depth changes neither the copy nor the manifest |
| Extraction.CoveredIff | blueprint/manifest.go:109-167 | the covered files are exactly those reached through no hidden entry, node_modules, vendor, venv or __pycache__, but for the manifest at the root |
| Package.FilesDoNotNest | blueprint/manifest.go:118-167 | no file's path runs through another file |
| Package.ExtractTarGz | blueprint/oci.go:354-450 | the member loop builds the specified tree, or fails on a name that escapes or a write that cannot be made |
| Extraction.DestinationIff | blueprint/oci.go:390-449 | a member has a destination, inside the directory, unless its name is absolute or its segments lead above the directory |
| Extraction.ExtractionIff | blueprint/oci.go:354-450 | an archive extracts if and only if every regular member stays inside and has a place among those before it; the directory then holds at each path the last member that lands there, and no other file |
| Package.WriteTarGz | blueprint/package.go:117-156 | the archive loop lists each path under its slashed name |
| Package.PackageBlueprint | blueprint/package.go:40-107 | the manifest is written and the archive lists every covered file and the manifest once |
| Transfer.EveryRunKeepsInv | blueprint/transfer.go:81-132 | in every interleaving bytes moved are the bytes read, and each digest is declared by one stream |
| Transfer.TotalIsDistinctAnnounced | blueprint/transfer.go:169-188 | the total is the sizes of the distinct digests announced, short only of announcements under way |
| Transfer.ReportsStayWithinTotal | blueprint/transfer.go:107-132 | with digests opened once and no overlong stream, no report ever exceeds its total |
| Transfer.ReopenedDigestOverReports | blueprint/transfer.go:169-228 | opening once is needed |
| Transfer.OverlongStreamOverReports | blueprint/transfer.go:107-132 | staying within the declared size is needed |
| Transfer.CountingStore.Expect | blueprint/transfer.go:169-188 | one uninterrupted announcement is its atomic steps |
| Transfer.CountingStore.Add | blueprint/transfer.go:107-115 | one uninterrupted read and report is its atomic steps |
| CidrSubnet.Cidrsubnet | blueprint/cidrsubnet.go:48-77 | accepts exactly the arguments that fit, and its bytes are the prefix plus the shifted number, copied within bounds |
| CidrSubnet.OrIsStart | blueprint/cidrsubnet.go:62-75 | the bitwise or is addition, and the sum fits the address width |
| CidrSubnet.SubnetInsidePrefixIff | blueprint/cidrsubnet.go:48-77 | a subnet lies inside its prefix if and only if the prefix is not IPv4-mapped IPv6 |
| CidrSubnet.MappedIff | blueprint/cidrsubnet.go:62-65 | those are the addresses of ::ffff:0:0/96 |
| CidrSubnet.SubnetIsMasked | blueprint/cidrsubnet.go:48-77 | it is itself a masked network |
| CidrSubnet.SubnetsAreDisjoint | blueprint/cidrsubnet.go:48-77 | different numbers give ranges that do not meet |
| CidrSubnet.SubnetsCoverIff | blueprint/cidrsubnet.go:48-60 | the subnets cover the prefix exactly when newbits is under 64 |
| Reconcile.TagDoesNotMatter | blueprint/invoke.go:360-382 | a registry reference's identity is its repository's name, whatever its tag |
| Reconcile.DigestDoesNotMatter | blueprint/invoke.go:360-382 | nor does a digest matter, with a tag before it or without |
| Reconcile.PathNames | blueprint/invoke.go:360-382 | a blueprint inside a repository is called by the last segment of its path |
| Reconcile.DirectoryNames | blueprint/invoke.go:360-382 | a directory by its last segment, whatever slashes follow |
| Reconcile.RepositoryNames | blueprint/invoke.go:360-382 | a repository by its last segment without ".git" |
| Reconcile.BlueprintsUsedAt | cli/blueprintreconcile.go:125-184 | the record loop gathers per packaged name what the records say |
| Reconcile.UseMeans | cli/blueprintreconcile.go:125-184 | its hashes and called names, its declarations in order of first appearance, and how often none was recorded, each read off the records |
| Reconcile.StackDeclarations | cli/blueprintreconcile.go:223-241 | the table's entries, and the lock's for names the table does not mention |
| Reconcile.PairDeclaration | cli/blueprintreconcile.go:508-531 | the result is one the three rules allow, in their order |
| Reconcile.IndexDeclarations | cli/blueprintreconcile.go:308-320 | the two indexes hold, for each key, the declaration walked last, in one order of the map |
| Reconcile.ReconcileBlueprints | cli/blueprintreconcile.go:245-361 | the report is one that some order of the maps gives: every use paired as that order allows, each line as the switch adds it, and the declarations the walk did not match unused |
| Reconcile.UnusedIffUnpaired | cli/blueprintreconcile.go:325-361 | in every report a declaration is unused exactly when no use paired with it |
| Reconcile.EveryUseIsListed | cli/blueprintreconcile.go:325-350 | which of the conflict, unknown and missing lists a use is on, from its records and its pairing, in every report |
| Reconcile.PairedIsNeverMissing | cli/blueprintreconcile.go:325-351 | in every report a paired use is never missing, and a use pairs with a declaration or with nothing |
| Reconcile.DifferencesAre | cli/blueprintreconcile.go:325-350 | the differences are exactly the uses of one recorded source paired with a declaration of another, each with both sources |
| Reconcile.PairingOutcomes | cli/blueprintreconcile.go:308-531 | the names some order of the maps pairs a use with, exactly: its own declaration, else the declarations of its sources, else those of its hashes, else itself |
| Reconcile.CandidatesRead | cli/blueprintreconcile.go:308-531 | whose candidates these are, by what their sources are called and the hashes they are locked to |
| Reconcile.PairsInEveryOrderIff | cli/blueprintreconcile.go:308-531 | a use of a declaration's identity pairs with it in every order if and only if it is packaged under its name, or under no declared one and no other declaration has that identity |
| Reconcile.VersionMoveIsOneDifference | cli/blueprintreconcile.go:325-350 | a use with one recorded source that moved is one difference, naming both sources, and neither missing nor unused |
| Reconcile.TagMoveIsOneDifference | cli/blueprintreconcile.go:125-350 | the same from the records themselves, for a registry tag, beside any records without a declaration |

## Left out

- Python resource locals are not qualified by type (blueprint/pygen.go:314), so two resources can share one and the later rebinds it; the compiler theorems cover Python only where identifiers do not clash.
- CodegenTheorem.CompiledCodeMeansBlueprint: takes resource locals, parameters and loop variables to be distinct, which no single check in the source establishes for every language.
- CodegenExact.CompiledCodeMeansBlueprintIff: takes parameters to have distinct identifiers as well; and for Go a format with a directive other than %v and %% counts as wrong, whatever it prints.
- CodegenAccepts.CompilesIff: a generator also refuses identifiers that do not convert or that clash, which is not part of it; for resources that is Identifiers.Wrap.
- CodegenTheorem.LoopStep: creating one address twice is not an error here, while a stack refuses it; CodegenMeaning.EqualElementsOneAddress says when a loop does so.
- A JSON text that holds references keeps its placeholders, since the generators look for references first; its meaning here keeps them too.
- Escaping an address that is put into a JSON text: the generators do not, and addresses are taken to need none.
- Config field identifiers and their collisions (`pascalCaseWire`), names of SDK packages and fixed identifiers of the generated files, and import lists.
- Arithmetic placeholders: division differs between the languages, so an operation is an abstract function of the host.
- Numbers beyond the 64-bit integers and floating-point printing; a config whose markers are rewritten goes through float64 in the source.
- A string leaf's decoded JSON, the places of the references in it, marker spans and placeholder spans are given with it; that a given leaf's are the ones the decoder and the regular expressions would report is not modelled, only their order, nesting, and that the references placed are the collected ones.
- Interpolation.PyTemplateFaithful: a rendered parameter expression holds no brace, quote or backslash, and invalid UTF-8 is not represented; the same for the TypeScript reading.
- Calling.WriteGoCaller: a list of numbers with a fraction is a value like any other here, while the generated Go would not compile.
- Expansion.ExpansionSettlesMarkersIff: the addresses a schema-described blueprint's evaluation reports are given, and taken not to be provisional themselves.
- Interpolation.GoFormatFaithfulIff: only the directives %v and %% are modelled; a format with any other is taken not to print the filled text.
- The empty policy hook `checkOverridePolicy`, which always allows.
- ContentStore.EveryScheduleIsSafe: tampering from outside the program, disk exhaustion half-way through a write, and the byte sizes the index records are not modelled.
- StackLock.RunKeepsPinIff: a document with no calls returns before it reaches the lock (blueprint/invokedeps.go:133-135) and is no run here; one whose calls are all local is a run that declares nothing.
- StackLock.PinHoldsThroughHistory: one run reads and writes the lock without another in between; the source takes no file lock.
- Failures of reading and writing the lock file other than its absence, and its JSON form.
- ConfigCascade.MergedLeafIffSurvives: starts from the list of parsed layers; the upward walk with its ceilings and the user-global file's filter are not modelled, that file counts as the farthest layer.
- KeyPath.RenderInjective: ranges over every key that is a sequence of characters; a key that is not valid UTF-8 is not represented.
- Symbolic links, file modes and times, and special tar members that extraction ignores or refuses beyond not being regular files.
- Transfer.ReportsStayWithinTotal: counters are unbounded, the source's are 64-bit.
- CidrSubnet.Cidrsubnet: starts from a parsed prefix; newbits so large that adding the mask length would overflow is refused here, and in the source only fails if the network number is not zero.
- Reconcile.ReconcileBlueprints: lists come in any order where the source sorts, and ledger reads are given as records.
- Registry, git and credential clients, the guest evaluators and extractors, dependency preparation for npm, Go and Deno, receipts, rendering and command wiring.
