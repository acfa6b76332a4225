# Monosecret, modelled and verified in Dafny

Monosecret is a secrets manager. This project models the parts of it that are
algorithms or protocols rather than provider I/O, and proves what they promise.

| file | what it models |
|---|---|
| `AuditChain.dfy`, `AuditTamper.dfy`, `AuditLog.dfy` | the hash-chained, size-capped audit log: the one-pass checker, what it accepts and catches, and the logger and file over whole runs |
| `ResolverSession.dfy`, `SessionSafety.dfy`, `SessionHandlers.dfy` | path leases of a resolver session: `get`, `release`, `request_finished`, `shutdown` over the lease tables and the session directory; what every run keeps; the handlers in place |
| `CompiledSpec.dfy` | what a declared secret compiles to: missing policy, parsed template, dependencies |
| `Digraph.dfy`, `DependencyGraph.dfy` | the three-colour search for derived-secret cycles |
| `ExtendsLoader.dfy`, `Overlay.dfy` | loading `extends` graphs, and the merge the loaded documents are folded with |
| `Composition.dfy` | composed-secret templates: parser, printer, renderer |
| `CacheEnvelope.dfy` | cache entries: encoding, freshness, ownership |
| `Fingerprint.dfy`, `CacheKeys.dfy` | length-delimited hashing and the cache fingerprint |
| `Codegen.dfy` | union and per-profile fields and the JSON Schemas emitted from them |
| `PlanGroups.dfy`, `CacheDuration.dfy`, `AddressTemplate.dfy`, `IniPointer.dfy` | planning and grouping, and three small exact parsers |
| `Prelude.dfy` | options and results, UTF-8, text order and search |

`dafny verify dfyconfig.toml` checks everything.

How the model is built:

- Objects the program updates in place are classes whose methods are proved
  against a step function on values (`WriteStep`, `RecordStep`, `GetStep`,
  `Visit`, `Overlay`, ...). The properties are then lemmas about those
  functions, for every input or every run.
- SHA-256, the JSON and Base64 libraries and the printed hash are
  function-valued parameters with the laws they are relied on for
  (`Codec.Lawful`, and `NoCollision` only for the texts actually hashed). The
  audit digest is built as the program builds it, `prev`, a newline, the
  canonical entry, and its injectivity is proved from those laws: the text `genesis` stands for a
  missing predecessor and could also be a recorded one, and it is the `prev`
  field inside the entry that tells them apart.
- Clocks, random names, cancellation and the outcomes of file-system calls are
  parameters: in the log whether `stat`, truncation and the write succeed, in
  the session whether a file can be placed, identified and deleted, each lease
  on its own. The session handlers ignore a deletion that fails, and between
  handlers anyone may replace or delete files in the session directory, so the
  run theorems keep two sets beside the tables: paths whose removal failed and
  paths others touched.
- Each session handler is one atomic step; lease tokens are never reused. Where
  a result says so (`AllHeld`) it relies on the operating system not to give a
  new file the identity of one that a live lease still holds open.
- Text is a sequence of Unicode scalar values and lengths that the program
  counts in bytes are UTF-8 lengths.

Where the code and its comments disagree, the model follows the code. Two cases
matter. `audit.rs` says that editing, reordering or removing an entry inside
the log is detectable. No break is reported where entries from a first entry
on, of this log or another, are put behind others: that shows only as one more
chain start, and the command line prints "chain intact" for it.
`WholeChainSpliceUnseen` gives such inputs, `UnbrokenExactly` says which logs
have no break, and `SpliceIsCaught` and `ReorderingIsCaught` say what is seen.

`cache.rs` says that reconstructing the write time from the expiry
preserves clock-rollback detection. That holds for entries that live their full
maximum age. An entry cut short by the secret's own expiry is given too early a
write time, so it can be served before it was written, or, when the expiry
falls below the maximum age, never. `RollbackServed` and `FreshOnWrite` say
exactly when.

## Model

| member | source | states |
|---|---|---|
| `AuditChain.VerifyChain` | crates/monosecret/src/audit.rs:632-694 | the one-pass report equals the per-line verdicts against what precedes each line, its counters equal the independent counts, and on every input entries = chained + legacy + breaks other than BrokenLink |
| `AuditTamper.AcceptedIffChain` | crates/monosecret/src/audit.rs:632-694 | the checker reports no break and at most one start exactly on logs that are digest-free lines followed by entries each naming the digest before it |
| `AuditTamper.ChainIsAccepted` | crates/monosecret/src/audit.rs:632-694 | a chain has no break, one start if anything is chained, and its legacy and chained counts |
| `AuditTamper.PrefixIsAccepted` | crates/monosecret/src/audit.rs:615-631 | every prefix of a chain still verifies: tail deletion cannot be seen |
| `AuditTamper.DigestInjective` | crates/monosecret/src/audit.rs:542-551 | unless the hash collides on the two texts, equal digests over `prev`, newline, canonical entry mean equal entries and equal predecessors, no predecessor counting as the text `genesis` |
| `AuditTamper.DigestsDistinct` | crates/monosecret/src/audit.rs:542-551 | no digest repeats along a chain, unless the hash collides on its own entries |
| `AuditTamper.EqualHeadsFixTheLog` | crates/monosecret/src/audit.rs:542-551 | two all-chained logs that verify with one start and end in the same digest hold the same entries, and equally many |
| `AuditTamper.EditIsCaught` | crates/monosecret/src/audit.rs:632-694 | rewriting an entry but keeping its digest gives exactly a DigestMismatch there and a BrokenLink on the next line if there is one |
| `AuditTamper.DeletionIsCaught` | crates/monosecret/src/audit.rs:632-694 | deleting a block is reported exactly when it takes a chained entry and something follows, and then as one BrokenLink at the first survivor |
| `AuditTamper.SpliceIsCaught` | crates/monosecret/src/audit.rs:605-694 | for any cut points in any two chains, the first lines of one followed by the rest of the other: one BrokenLink at the joint if the graft starts after the second chain's first entry, unless the entries cut off equal those kept; otherwise only digest-free lines behind a chained entry are reported; and the number of starts |
| `AuditTamper.WholeChainSpliceUnseen` | crates/monosecret/src/audit.rs:679-690 | the splice no break reports: a whole chain behind entries of another passes, with two starts |
| `AuditTamper.ReorderingIsCaught` | crates/monosecret/src/audit.rs:615-694 | a log made only of a chain's lines, however reordered, repeated or thinned out, passes with at most one start exactly when it is digest-free lines followed by the chain's entries from the first on, in order |
| `AuditTamper.UnbrokenExactly` | crates/monosecret/src/audit.rs:632-694 | the checker reports no break exactly on digest-free lines followed by chains end to end |
| `AuditLog.JsonlSink.WriteLine` | crates/monosecret/src/audit.rs:339-382 | the file and the reported outcome after a write, for every mix of failing stat, truncation and write |
| `AuditLog.AuditLogger.RecordEvent` | crates/monosecret/src/audit.rs:463-535 | the file, the remembered digest and the sequence number after recording one event |
| `AuditLog.RecordedContent` | crates/monosecret/src/audit.rs:463-535 | a successful record puts one line behind the lines kept, plain write and cap restart alike, which carries exactly the event's fields and the logger's current number; a failed one adds none; the lines before are all kept or all gone |
| `AuditLog.RunJournal` | crates/monosecret/src/audit.rs:463-535 | after any run of records and reopenings the file is what it started with, or nothing of it, and then the latest successful records without a gap, in order, each with its own event and its number since the last opening |
| `AuditLog.WriteKeepsUnlessOver` | crates/monosecret/src/audit.rs:348-372 | a successful write keeps every earlier line and adds the new one unchanged, unless a non-empty file would outgrow the cap in bytes and can be truncated; then it is one line |
| `AuditLog.RestartReanchors` | crates/monosecret/src/audit.rs:553-568 | exactly objects with a digest are re-anchored, as a sealed first entry that differs in `prev` and `sha` only |
| `AuditLog.SealedLineReads` | crates/monosecret/src/audit.rs:508-520 | a line the logger writes reads back as a sealed entry with the intended predecessor and digest |
| `AuditLog.RecordKeepsInStep` | crates/monosecret/src/audit.rs:463-535 | every record, including restarts at the cap and failures before or after truncation, leaves a chain whose tip the logger knows |
| `AuditLog.ReopenKeepsInStep` | crates/monosecret/src/audit.rs:574-579 | a new process reads back exactly the digest the old one held |
| `AuditLog.ResumesFromLast` | crates/monosecret/src/audit.rs:570-579 | whatever the log holds, a new process resumes from the digest recorded by the last line that is not empty |
| `AuditLog.EveryRunVerifies` | crates/monosecret/src/audit.rs:463-535 | after any run of records and process restarts from an empty or digest-free log the checker finds no break, exactly one start if anything is chained, and the logger holds the last chained digest |
| `AuditLog.WriteBounds` | crates/monosecret/src/audit.rs:348-372 | a write with a working file system leaves the file within the cap or with exactly one line, whatever was there |
| `AuditLog.RunStaysBounded` | crates/monosecret/src/audit.rs:348-372 | a bounded log stays bounded through any run in which stat and truncation work |
| `DependencyGraph.ValidateCompositionGraph` | crates/monosecret/src/config.rs:1414-1547 | stated over the declared settings: accepted exactly when no secret needs itself, none needs an undeclared one and no chain of needs closes, a need being a template reference, a `from` source or a credential; every refusal names a real need or cycle; the first secret with a bad need is the one reported |
| `CompiledSpec.DependenciesExactly` | crates/monosecret/src/compiled_spec.rs:87-105 | a compiled secret's dependencies are exactly the references of its template if that parses, its `from` source and its credentials |
| `DependencyGraph.SearchRoots` | crates/monosecret/src/config.rs:1533-1544 | the search with colours shared across roots accepts exactly the acyclic graphs |
| `DependencyGraph.CycleSearch.Walk` | crates/monosecret/src/config.rs:1496-1531 | the in-place recursive walk terminates and leaves the colours, stack and cycle of the functional walk |
| `DependencyGraph.VisitSound` | crates/monosecret/src/config.rs:1496-1531 | the stack stays the active path, finished names admit a dependency-first order, and a reported cycle is one |
| `DependencyGraph.ClosedCycleIsCycle` | crates/monosecret/src/config.rs:1504-1514 | the repeated name is on the stack, so the reported path starts and ends with it and the fallback index is never used |
| `ExtendsLoader.ConfigGraphLoader.VisitFile` | crates/monosecret/src/config.rs:1610-1642 | the in-place visit emits exactly what the functional walk emits and restores the active set |
| `ExtendsLoader.ConfigGraphLoader.VisitParents` | crates/monosecret/src/config.rs:1585-1608 | the loop over `extends` entries does what the functional walk does |
| `ExtendsLoader.LoadIsSound` | crates/monosecret/src/config.rs:1549-1643 | a load that succeeds emits every reachable document once, after everything it extends, the root last; a load that fails names a reachable document that is on a cycle or missing |
| `ExtendsLoader.LoadOutcome` | crates/monosecret/src/config.rs:1549-1643 | success exactly when no cycle and no missing document is reachable; with none missing, a circular error exactly when a cycle is reachable |
| `ExtendsLoader.Load` | crates/monosecret/src/config.rs:1559-1577 | loading a path yields the fold of the emitted documents |
| `ExtendsLoader.FromRootIn` | crates/monosecret/src/config.rs:1675-1694 | merging a parsed root yields the fold of what it extends, then the root |
| `ExtendsLoader.EntryPointsAgree` | crates/monosecret/src/config.rs:1559-1577 | loading a path and merging its parsed root succeed on the same graphs and then give the same configuration |
| `ExtendsLoader.LoadedSecrets` | crates/monosecret/src/config.rs:1559-1577 | end to end: a loaded secret is declared by a reachable document and by none that extends that one, is absent only if no reachable document declares it, and the root's own declaration wins |
| `ExtendsLoader.LoadedTables` | crates/monosecret/src/config.rs:1559-1577 | the same for every loaded provider, group and scope |
| `Overlay.MergedConfig.OverlayWith` | crates/monosecret/src/config.rs:1242-1280 | the in-place merge of a later document equals the merge function |
| `Overlay.MergedConfig.MergeProfiles` | crates/monosecret/src/config.rs:1250-1257 | profiles merged entry by entry, in any order of the later map, give the merged map |
| `Overlay.OverlayAssociative` | crates/monosecret/src/config.rs:1242-1280 | the merge of whole configurations is associative |
| `Overlay.OverlayProfileAssociative` | crates/monosecret/src/config.rs:2095-2105 | the merge of profiles, with defaults inherited field by field, is associative |
| `Overlay.FoldSplits` | crates/monosecret/src/config.rs:1235-1241 | any grouping of the linearised documents merges to the same configuration |
| `Overlay.FoldSecrets` | crates/monosecret/src/config.rs:2095-2105 | every secret of the merged configuration is the last document's that declares it, and absent exactly if none does |
| `Overlay.FoldTables` | crates/monosecret/src/config.rs:1263-1279 | the same for every provider, group and scope |
| `Overlay.FoldProject` | crates/monosecret/src/config.rs:1243-1248 | `require_reason` and the project defaults come from the last document setting them, the rest of the project table from the last document |
| `Overlay.FoldDefaults` | crates/monosecret/src/config.rs:2016-2027 | each field of a profile's defaults comes from the last document setting that field |
| `SessionSafety.EveryRunIsSafe` | crates/monosecret/src/serve.rs:211-487 | in every state any run reaches, with any removals failing and others changing the directory: off the paths others touched, every live lease owns its file at a path of its own and the directory is exactly those files and the ones whose removal failed; at most 1024 leases and 4096 retained plus pending files exist, every granted lease is live or has ended, `release` replies add up to the leases released, and a pending lease belongs to its request |
| `SessionSafety.DirectoryIsExact` | crates/monosecret/src/serve.rs:211-487 | in a run where nobody else touches the directory it is the live leases' files and, apart from those, the failed removals, so it is exactly the live leases' files if and only if no removal has failed |
| `SessionSafety.UndisturbedLeavesNoMarks` | crates/monosecret/src/serve.rs:211-487 | a run in which every attempted removal works and nobody interferes has no failed removal and no touched path |
| `SessionSafety.FailedRemovalLeavesFile` | crates/monosecret/src/serve.rs:587-598 | a lease whose file cannot be removed is still counted as released, and its file stays |
| `SessionSafety.HandlersDeleteOnlyTheirOwn` | crates/monosecret/src/serve.rs:587-598 | in any state no handler overwrites a file or deletes one that is not the very file an ended lease was granted for; only removing the directory after a shutdown takes others |
| `SessionSafety.OthersKeepTheirFiles` | crates/monosecret/src/serve.rs:587-598 | in any run, however others rearranged the directory, no handler takes the file of a live lease it does not end |
| `SessionSafety.FailedGetUndoesItself` | crates/monosecret/src/serve.rs:299-379 | every failing `get` leaves the directory as it was but for a file it placed and could not delete, so exactly as it was if and only if no removal failed; only the lease-cap exit touches a table, clearing this request's pending files |
| `SessionSafety.GetAnswers` | crates/monosecret/src/serve.rs:211-382 | for every state and everything `get` may learn: the exact condition of each failure kind and of each answer, representation by representation, with both caps as numbers, and the path is the first free name offered |
| `SessionSafety.PlacementExactly` | crates/monosecret/src/serve.rs:506-543 | placing a file succeeds exactly if one of eight names is free before any other failure, fails for good exactly at such a failure, and gives up exactly if all eight are taken |
| `SessionSafety.AbortUndoesGet` | crates/monosecret/src/serve.rs:448-471 | aborting a request right after its `get` restores every table and the directory but for failed removals, so it restores the exact state if and only if no removal failed |
| `SessionSafety.CommitKeepsGet` | crates/monosecret/src/serve.rs:460-464 | committing keeps the lease and its file and moves the supporting files to the retained ones |
| `SessionSafety.AbortRemovesOnlyItsOwn` | crates/monosecret/src/serve.rs:466-470 | in any reachable state an abort removes only a lease granted to that request; every other lease stays and keeps its file if it had it |
| `SessionSafety.ShutdownLeavesNothing` | crates/monosecret/src/serve.rs:473-487 | shutdown empties every table; of the untouched files exactly those stay whose removal failed and that did not go with the directory, so with none touched nothing stays if and only if there are none of those |
| `SessionHandlers.ResolverHandler.GetSecret` | crates/monosecret/src/serve.rs:211-382 | tables, directory and reply of `get` on each of its exits |
| `SessionHandlers.ResolverHandler.GetFile` | crates/monosecret/src/serve.rs:315-381 | the file placed before the later checks is deleted again on every failing exit, or stays if that deletion fails |
| `SessionHandlers.ResolverHandler.AdmitLease` | crates/monosecret/src/serve.rs:329-368 | a lease is admitted exactly when both caps allow it; otherwise its file is deleted again, or stays if that deletion fails |
| `SessionHandlers.ResolverHandler.PersistLeaseFile` | crates/monosecret/src/serve.rs:506-543 | the file lands under the first free random name of eight, and an existing file is never overwritten |
| `SessionHandlers.ResolverHandler.RetainPendingSupportingFiles` | crates/monosecret/src/serve.rs:561-585 | files are retained exactly when retained, pending and new ones together stay within 4096 |
| `SessionHandlers.ResolverHandler.ReleaseLeases` | crates/monosecret/src/serve.rs:424-446 | releases the live ids given, with each removal succeeding or failing on its own, and counts exactly the distinct ids that were live |
| `SessionHandlers.ResolverHandler.RequestFinished` | crates/monosecret/src/serve.rs:448-471 | settles a request's pending lease and files; on abort the lease's file goes if it is its own and can be removed |
| `SessionHandlers.ResolverHandler.RemoveLease` | crates/monosecret/src/serve.rs:587-598 | a lease's file is deleted exactly when what is at its path can be identified, is still the file it was granted for, and can be deleted |
| `SessionHandlers.ResolverHandler.ShutdownSession` | crates/monosecret/src/serve.rs:473-487 | removes the leases one by one, ends the session, and the directory goes as far as it can be removed |
| `Composition.ParseTemplate` | crates/monosecret/src/composition.rs:24-89 | the single pass gives the grouping of what the text denotes character by character, or the first error |
| `Composition.ParsedIsCanonical` | crates/monosecret/src/composition.rs:24-89 | no empty or adjacent literals, valid names only, dependencies exactly the referenced names in order |
| `Composition.PrintParseRoundTrip` | crates/monosecret/src/composition.rs:24-89 | printing any canonical template with each dollar doubled and parsing it gives the template back |
| `Composition.AcceptedExactly` | crates/monosecret/src/composition.rs:24-89 | a text is accepted exactly when it spells pieces of which one is a reference, and what it spells is unique; a lone dollar sign is literal unless it would open something |
| `Composition.ValidNamesExactly` | crates/monosecret/src/composition.rs:126-130 | a reference name is an uppercase letter followed by uppercase letters, digits and underscores |
| `Composition.Render` | crates/monosecret/src/composition.rs:97-123 | succeeds exactly when every reference resolves and the total is at most 16 MiB, and yields the concatenation |
| `Composition.RenderingSubstitutes` | crates/monosecret/src/composition.rs:95-123 | the rendering of a parsed text is the text with each reference replaced once, inserted values never read |
| `CacheEnvelope.FreshWindow` | crates/monosecret/src/cache.rs:349-387 | an entry is fresh exactly to its owner on its route with its maximum age M while E - M <= t < E; it gives back bytes, revision, expiry and the refresh time if that fits 64 bits, and the secret has then not expired |
| `CacheEnvelope.FreshOnWrite` | crates/monosecret/src/cache.rs:366-372 | an entry can be read back at once exactly when M is positive and a secret expiry, in seconds, is at least M |
| `CacheEnvelope.WrittenButNeverFresh` | crates/monosecret/src/cache.rs:366-372 | a concrete entry the encoder writes and no clock makes fresh |
| `CacheEnvelope.RollbackServed` | crates/monosecret/src/cache.rs:364-372 | an entry is served at some clock before it was written exactly when a secret expiry shortened its lifetime without falling below the maximum age |
| `CacheEnvelope.RollbackUndetected` | crates/monosecret/src/cache.rs:364-372 | a concrete entry served five hundred seconds before its write time |
| `CacheEnvelope.EncodedDecodes` | crates/monosecret/src/cache.rs:428-467 | an encoded entry decodes to the envelope that was written |
| `CacheEnvelope.EncodeOutcome` | crates/monosecret/src/cache.rs:436-450 | encoding fails exactly on overflow or on a secret already expired to the second |
| `CacheEnvelope.Version4Window` | crates/monosecret/src/cache.rs:282-387 | any stored bytes that decode as version 4: fresh exactly to owner, route and maximum age inside the window with the secret unexpired and the value decodable; and what is returned, the refresh time included |
| `CacheEnvelope.Version3Window` | crates/monosecret/src/cache.rs:309-387 | the same for version 3, which returns its text value and no revision |
| `CacheEnvelope.Version2Window` | crates/monosecret/src/cache.rs:321-347 | version 2 is fresh exactly to owner and route from its write time through the reader's maximum age, and returns its text value |
| `CacheEnvelope.WithoutClock` | crates/monosecret/src/cache.rs:271-352 | the answer for each version when the clock cannot be read |
| `CacheEnvelope.OwnerExactly` | crates/monosecret/src/cache.rs:203-248 | exactly when stored bytes are ours, expired, foreign, unreadable or unrecognised, version by version |
| `CacheEnvelope.MarkersDecode` | crates/monosecret/src/cache.rs:159-191 | each marker selects its version's reader, and bytes without one of the three are no entry |
| `CacheEnvelope.ClassifiersAgree` | crates/monosecret/src/cache.rs:203-388 | for any stored bytes at one clock: fresh implies ours, expired implies stale, and inspection says foreign exactly when ownership does and the secret has not expired |
| `CacheEnvelope.EncodedForeignAgrees` | crates/monosecret/src/cache.rs:203-388 | on encoder-made entries the two classifiers agree on foreign |
| `Fingerprint.StreamInjective` | crates/monosecret/src/plan.rs:1000-1011 | the byte stream fed to the hash determines the list of parts |
| `Fingerprint.PartLayout` | crates/monosecret/src/plan.rs:1003-1008 | a part is fed as its byte length in eight bytes, least significant first, and its UTF-8 bytes |
| `Fingerprint.HashParts` | crates/monosecret/src/plan.rs:1000-1011 | the nested loop over parts and bytes hashes exactly that stream |
| `Fingerprint.FnvOfA` | crates/monosecret/src/plan.rs:1001-1008 | the step and offset give the published FNV-1a value of the text `a` |
| `CacheKeys.ListCoordinates` | crates/monosecret/src/plan.rs:1017-1036 | the loop lists the kind, then every coordinate's name, presence and value |
| `CacheKeys.CoordinatesInjective` | crates/monosecret/src/plan.rs:1013-1036 | coordinate lists can be read back from their parts, values and absences included |
| `CacheKeys.OrderIrrelevant` | crates/monosecret/src/plan.rs:178-186 | the iteration order of `refs` does not show in the fingerprint |
| `CacheKeys.FingerprintSeparates` | crates/monosecret/src/plan.rs:169-197 | unless the hash collides on something fed to it, fingerprints agree exactly when project, profile, route, name and address agree, across all three address modes |
| `CacheKeys.ByteHashSeparates` | crates/monosecret/src/plan.rs:169-197 | the same for a hash of the byte stream |
| `CacheKeys.StableFingerprint` | crates/monosecret/src/plan.rs:1000-1011 | the hashing loop prints exactly the fingerprint the separation results speak of, with FNV-1a as the byte hash |
| `CacheKeys.ComputeCacheFingerprint` | crates/monosecret/src/plan.rs:169-197 | the program's steps, coordinates, sorted aliases and the five key parts, produce the fingerprint the separation results speak of |
| `Codegen.BuildUnion` | crates/monosecret/src/codegen.rs:78-122 | the counting pass marks a field optional exactly when some profile does not guarantee it, a path exactly when some profile says so, described by the first profile that describes it |
| `Codegen.UnionAcceptsEveryProfile` | crates/monosecret/src/codegen.rs:210-252 | an object valid against any profile's schema is valid against the union schema |
| `Codegen.UnionIsTight` | crates/monosecret/src/codegen.rs:78-122 | a union field is required exactly when every object valid for any profile carries it as a string |
| `Codegen.BuildIr` | crates/monosecret/src/codegen.rs:155-187 | every emitted profile schema, also with no declared profile, is contained in the union schema |
| `Codegen.ObjectSchema` | crates/monosecret/src/codegen.rs:232-252 | the emitter's loop gives every field a property and requires exactly the guaranteed ones |
| `CompiledSpec.OmittedExactlyWhenOptional` | crates/monosecret/src/compiled_spec.rs:54-76 | a secret may be missing exactly when nothing supplies it and it is explicitly or conditionally optional |
| `CompiledSpec.MissingExactly` | crates/monosecret/src/compiled_spec.rs:54-76 | the exact settings behind each missing policy and behind being required |
| `Codegen.ProfileFieldsDescribe` | crates/monosecret/src/codegen.rs:135-147 | a profile has one field a secret, optional exactly if the secret may be omitted, with the secret's own path flag and description |
| `Codegen.ValidExactly` | crates/monosecret/src/codegen.rs:210-252 | the objects a profile's schema accepts, in terms of its secrets: strings, null or absent only where a secret may be omitted, and nothing else |
| `PlanGroups.Groups` | crates/monosecret/src/plan.rs:291-315 | the index-backed loop groups the routed secrets by primary, in first-seen order, members in plan order |
| `PlanGroups.GroupsPartition` | crates/monosecret/src/plan.rs:283-315 | the groups together hold every routed secret exactly as often as the plan does |
| `PlanGroups.KeysDistinct` | crates/monosecret/src/plan.rs:283-315 | keys are distinct and are exactly the primaries in use |
| `PlanGroups.KeysInFirstUseOrder` | crates/monosecret/src/plan.rs:283-315 | keys appear in the order of their first use |
| `PlanGroups.MembersExactly` | crates/monosecret/src/plan.rs:299-303 | a group holds exactly the secrets routed to its primary, so none without a route |
| `PlanGroups.BuildPlan` | crates/monosecret/src/plan.rs:462-500 | planning succeeds exactly when every name has usable `refs` and is derived or has a usable route; each entry then has its name, its own settings, and no route if derived, else exactly the route looked up |
| `PlanGroups.GroupedByOwnRoute` | crates/monosecret/src/plan.rs:566-589 | a planned secret is in a group exactly when it is not derived, and then only in the one keyed by the primary of the route looked up for it |
| `CacheDuration.ParseCacheMaxAge` | crates/monosecret/src/config.rs:540-605 | succeeds exactly when the trimmed text scans and its unbounded total is between 1 and 2^64 - 1, with that total; empty and zero are told apart and any other failure is the first problem from the left |
| `CacheDuration.AcceptedExactly` | crates/monosecret/src/config.rs:540-605 | scanning agrees with the grammar: a non-empty sequence of digits-plus-unit terms and their sum over unbounded integers |
| `CacheDuration.SumFromMeans` | crates/monosecret/src/config.rs:551-598 | the checked left-to-right sum succeeds exactly when the terms scan and their unbounded total fits, and equals it |
| `CacheDuration.UnitsWorth` | crates/monosecret/src/config.rs:565-590 | for every n, written in decimal, what n of each unit comes to in seconds |
| `AddressTemplate.ExpandAddressTemplate` | crates/monosecret/src/config.rs:2442-2487 | the single pass gives the expansion of the character-by-character reading, or its first error |
| `AddressTemplate.ExpansionMeaning` | crates/monosecret/src/config.rs:2436-2487 | expansion succeeds exactly on texts that spell literals and placeholders, whatever the arguments, and replaces each placeholder once |
| `AddressTemplate.PlaceholdersTakeTheirOwn` | crates/monosecret/src/config.rs:2470-2480 | `{project}`, `{profile}` and `{key}` between literals are replaced by the project, the profile and the key |
| `AddressTemplate.Expand` | crates/monosecret/src/config.rs:2386-2417 | expands for every project, profile and key exactly when each coordinate is absent, or not blank and made of literals and placeholders, which is what validation with dummy arguments tests; each coordinate is filled in its own place |
| `IniPointer.ValidateJsonPointer` | crates/monosecret/src/config.rs:2898-2923 | accepts the empty pointer and exactly the slash-led texts whose tildes are all followed by 0 or 1 |
| `IniPointer.AcceptedDecodes` | crates/monosecret/src/ini_field.rs:39-58 | on every accepted pointer the two whole-string replacements equal a single left-to-right decoder (section 4 of RFC 6901) |
| `IniPointer.AcceptedIsJoined` | crates/monosecret/src/ini_field.rs:17-58 | every accepted pointer is the escaped, joined form of the non-empty names it decodes to |
| `IniPointer.PointerRoundTrip` | crates/monosecret/src/ini_field.rs:17-58 | escaping and joining any non-empty names gives an accepted pointer that decodes to exactly those names |

## Left out

- Provider I/O, alias lookup (planning takes its answers as parameters), storage identities and `secrets.rs`: they rest on external stores.
- SHA-256, FNV-1a collision behaviour, Base64, JSON and TOML: taken as functions with stated laws, not proved.
- The route fingerprint: an input to the cache key; how it is built from an alias's fallback list is not modelled.
- Partly written log lines, several processes writing one log, unreadable logs and symlinked manifests: outside what the program guarantees or dependent on the file system.
- Object key order in log lines: JSON objects are maps, so the sorting inside the digest is invisible.
- File-size arithmetic at the top of the 64-bit range: log sizes are unbounded integers.
- Lock-level interleavings, prompting, file hardening and stale-directory clean-up of the session server: every handler is one step. Between its two locks `request_finished` holds files in neither table, so the 4096 cap is claimed only between handlers.
- The `.owner` marker of a session directory: "directory" means the files besides it, and random names never equal it. A file replaced within a handler, between an identity test and the deletion after it, is not seen either, since handlers are atomic.
- Partial failure inside placing a lease file: an attempt that fails leaves nothing at its path.
- Supporting temporary files on disk: only their number and which table holds them are modelled, not their deletion on drop.
- Type and credential checks interleaved with the dependency check, and the error texts of every parser.
- DependencyGraph.ValidateCompositionGraph: does not fix which of several bad dependencies of one secret is reported, nor which of several cycles; the order of names is a parameter.
- `Secret::resolved`, constraint groups and profile inheritance in `CompiledSpec::compile`: field-by-field selection, each settled by reading it; planning, graph check and code generation start from the effective secrets.
- Codegen.BuildUnion: fields are kept by name, not as the sorted list the emitter prints; the order does not affect validity.
- Texts of 2^62 characters or more in fingerprints, and targets whose `usize` is not 64 bits wide.
- The per-type option checks of `validate_semantics`, URI redaction, the generator, typed secrets, the manifest editor and the language bindings.
