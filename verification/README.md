# Trellis cores, modelled and proved in Dafny

Trellis is a contract-first service platform over NATS. This project models the parts of it
whose correctness no finite set of examples settles, and proves what they promise for every
input and every run:

- the **package resolver and lock verifier** of the command line: a recursive resolution and
  an independent re-derivation from the flat lock that must agree, and the content-addressed
  cache of released packages underneath them;
- the **boxing of recursive types** in the Rust generator, which decides whether generated
  structs have finite size;
- the **windowed credit transfer** of the runtime benchmarks, a two-party protocol with
  safety, progress and delivery;
- the **incremental NATS record splitter and response gate** of the browser checks;
- the **NATS configuration** tokenizer, listener parser and printers, and the **consumer
  listing** with its subject filter and cursor paging;
- **all-or-nothing publication** of generated directories under arbitrary failures, and
  **single-use nonces** under a time window.

Each module follows one component. Code that works by loops and updates is a method or a
class, tied by its `ensures` to a specification function or a stated property; code that only
computes is a function. Digests, compilers, archives, JSON, TOML, versions, file systems,
registries and clocks are parameters: the `World` and `Host` datatypes hold them as functions,
and a predicate (`Lawful`, `CollisionFree`, `JsonRoundTrips`) names the few laws a theorem
needs of them. Failures of renames, removals and downloads are oracles, so a theorem about a
method holds under every schedule of failures.

Some properties hold only under a condition that the code itself decides. Those are stated
as equivalences: a project resolves exactly when no name is met again below the directory that
carries it and no two origins share one, a resolved lock verifies exactly when the recorded paths lead back, a
verified and current lock is exactly the resolved one, chunking is irrelevant exactly when control lines are short
enough, a rendered configuration parses back exactly when the server is not named like a
listener key and the accounts declare no listener, the transfer never deadlocks exactly when
the window reaches a credit threshold, intersection is exact exactly for well-formed patterns,
paging is complete exactly when keys are distinct, a held reply is lost exactly when another is
to be held under it, and a request proof is single-use, under a clock that never goes back,
exactly when its timestamp reads as a number; for every other clock it is stated exactly when
a proof is accepted again.

The resolver theorems assume `Lawful`: the file tree is canonical, the compiler roots a graph
at its package and keeps the digests of the members it is given, and the cache holds what was
pulled. The `cached` function of a `World` is the cache as installing has left it; that
installing leaves every registry package a hit is proved in `SourceCache`. The theorem about
the outcome of resolution assumes `Orderly` besides: every directory the project reaches holds
a valid manifest, its local dependencies are found, its releases are pulled and verify, it
compiles and can be archived with what resolution gathers for it, and recorded paths lead back.
Nothing is asked about graphs that resolution would not supply. `OrderlyExample` exhibits such
projects under a compiler that refuses a dependency without the types it should export.

Where the code and its comments differ, the model follows the code. Some places are worth
knowing. The resolver's stack holds names, not directories, so a project whose dependency has
a dependency of the project's own name fails with a cycle error although no directory depends
on itself; `CycleErrorWithoutCycle` gives the input. The path of a local package is recorded
with bytes that are not UTF-8 replaced, so a project that reaches such a directory through a
link resolves to a lock that does not verify; `StrayNameIsNotFoundAgain` gives the input. The
TLS block inside the WebSocket block is indented by replacing every line break,
so a line break inside a quoted path gains two spaces; `ReindentQuote` states it. A reply
that is held while the same reply is already held replaces the earlier record, which is lost;
`RunLosesExactly` states when, and `SecondAnswerLosesFirst` gives a run. And the verifier of
request proofs forgets old nonces at any request within the skew, signed or not, so a proof can
be accepted again after the clock was set back; `AcceptedAgainExactly` states when, and
`AcceptedTwiceWhenClockGoesBack` gives a run.

`dafny verify dfyconfig.toml` checks the whole project.

## Model

| member | source | states |
|---|---|---|
| `LockModel.MergeIsUnion` | crates/cli/src/package.rs:891-904 | Merging two closures succeeds exactly when no name stands for two different entries, and then it is their sorted union |
| `LockModel.MergeOrderIsIrrelevant` | crates/cli/src/package.rs:473-485 | Merging the same child closures in any order, with any repetition, gives the same result or fails in both |
| `LockModel.MergePackages` | crates/cli/src/package.rs:891-904 | The in-place merge loop computes that merge, including the conflict error |
| `ProjectPaths.RelativePathRoundTrip` | crates/cli/src/package.rs:387-405 | Where its names below the common ancestor are text, the path recorded for a directory leads from the project back to that very directory, through symbolic links |
| `ProjectPaths.RecordedExactlyWhenText` | crates/cli/src/package.rs:387-405 | Where no link lies under a name with the replacement character, the recorded path leads back if and only if those names are text |
| `ProjectPaths.StrayNameIsNotFoundAgain` | crates/cli/src/package.rs:397-405 | A link to a directory whose name is one stray byte: the declared path arrives there, the recorded one leads nowhere |
| `ProjectPaths.CanonicalizeIsCanonical` | crates/cli/src/package.rs:661-666 | A declared path that resolves leads to an existing canonical directory |
| `Resolver.CollectClosure` | crates/cli/src/package.rs:827-877 | The worklist loop over the flat lock returns the closure of a package in lock order, or nothing when an edge is missing |
| `ResolverSoundness.ResolveIsSound` | crates/cli/src/package.rs:376-512 | Every successful resolution is exactly the set reachable from its root, closed, acyclic and sorted; each edge's version and digest are the target's; the graph's digests are the lock's |
| `ResolverSoundness.GatherIsSound` | crates/cli/src/package.rs:473-485 | Adding one resolved dependency keeps everything that makes the gathered closure sound |
| `ResolverSoundness.ReleaseIsSound` | crates/cli/src/package.rs:407-461 | A registry dependency is accepted only with a frozen lock that is itself sound for it |
| `ResolverAgreement.WorklistIsMergedClosure` | crates/cli/src/package.rs:827-877 | The worklist closure over the flat lock equals the recursively merged closure of the same package |
| `ResolverAgreement.CompileLockedMonotone` | crates/cli/src/package.rs:618-751 | A release verified against its own frozen lock verifies to the same graph against any larger lock that contains it |
| `ResolverAgreement.ResolveAgrees` | crates/cli/src/package.rs:618-751 | Whatever resolves verifies: re-deriving a resolved package from any lock that contains its closure gives the same graph |
| `ResolverAgreement.ResolvedLockVerifies` | crates/cli/src/package.rs:598-751 | For every project that resolves and whose recorded paths lead back, path and registry dependencies alike, the lock is valid and compiling from it gives the same graph and root digest |
| `RecordedPaths.ResolvedLockVerifiesExactly` | crates/cli/src/package.rs:598-751 | The lock of every project that resolves is valid; compiling from it succeeds if and only if every recorded path leads back, and then with the graph that was resolved |
| `RecordedPaths.TextPathsLeadBack` | crates/cli/src/package.rs:661-666 | Textual names lead back; where no link hides under a replaced name, no others do |
| `RecordedPaths.LocalPackagesAreReached` | crates/cli/src/package.rs:368-514 | Besides the project, the local packages of a resolved lock are exactly those of the directories it depends on, directly or not, each under its recorded path |
| `ResolverConverse.VerifiesOnlyTheResolvedLock` | crates/cli/src/package.rs:598-751 | With path and registry dependencies: a lock compiles to a graph, records paths canonically and holds what the registry now gives, if and only if resolution produces exactly that lock and graph and its paths lead back |
| `DirectoryWalks.RepeatedNameNeverResolves` | crates/cli/src/package.rs:368-482 | In every world a project with a walk of dependencies that meets a package name twice does not resolve |
| `ResolverCycles.ResolveIgnoresStack` | crates/cli/src/package.rs:376-512 | The stack of names decides only whether a directory resolves, never to what |
| `ResolverCycles.WalkDecides` | crates/cli/src/package.rs:368-514 | Where everything reached is found and builds with what resolution gathers for it, resolving a directory ends as a depth-first walk over directories, names and frozen entries does: the same cycle name, a conflict, or one entry for each origin found |
| `ResolverCycles.ReleaseMatches` | crates/cli/src/package.rs:407-461 | A dependency on a release adds to the closure exactly the entries frozen into the release, as they are |
| `ResolverOutcomes.FrozenNameNeverResolves` | crates/cli/src/package.rs:478-482 | A project that meets a directory above a release holding a package of the directory's own name does not resolve |
| `ResolverOutcomes.SharedNameNeverResolves` | crates/cli/src/package.rs:891-904 | Where recorded paths lead back, a project that meets two origins of one package name, directories or releases, does not resolve |
| `ResolverOutcomes.ResolutionFollowsWalk` | crates/cli/src/package.rs:368-514 | The whole resolution, registry dependencies included, ends as that walk does, with the names the walk found |
| `ResolverOutcomes.OutcomeExactly` | crates/cli/src/package.rs:368-514 | With path and registry dependencies, a project resolves if and only if no name is met again below the directory that carries it and no two origins share one; otherwise it ends in a cycle error, only where a name is met again, or in a conflict, only where a name is shared |
| `ResolverOutcomes.CycleErrorExactly` | crates/cli/src/package.rs:376-482 | Without shared names a project resolves if and only if no directory it reaches depends on itself, and otherwise ends in the cycle error |
| `ResolverOutcomes.CycleErrorWithoutCycle` | crates/cli/src/package.rs:376-380 | Package a depends on b, which depends on another package a in a third directory: a cycle error although the directories are acyclic |
| `OrderlyExample.PlainIsOrderly` | crates/cli/src/package.rs:487-499 | Under a compiler that accepts a dependency only with the types it exports, every project of local packages with textual, found directories meets the assumptions of the outcome theorem |
| `OrderlyExample.TwoPackagesAreOrderly` | crates/cli/src/package.rs:368-514 | The project with two packages a is one of them |
| `ResolverOrder.GatheringIsMerging` | crates/cli/src/package.rs:384-485 | The loop over dependencies succeeds if and only if every child resolves without the package itself and the closures can be merged, and it gathers the merged closures |
| `ResolverOrder.ManifestOrderIsIrrelevant` | crates/cli/src/package.rs:368-514 | However each manifest orders its dependencies, the project resolves to the same lock and graph, or to none |
| `Relocking.VerifiedCovers` | crates/cli/src/package.rs:618-751 | A package verified against a lock compiles to exactly the names the lock reaches from it, with the digests the lock records |
| `Relocking.LockedPatched` | crates/cli/src/package.rs:618-751 | Below the project, verification does not see the digests of the project's own entry |
| `Relocking.RelockedLockVerifies` | crates/cli/src/package.rs:570-595 | After re-recording, the lock differs at most in the digests of the project's own entry, and it verifies if and only if that entry is the lock's root and names the project directory |
| `Relocking.VerifiedLockIsKept` | crates/cli/src/package.rs:589-591 | Re-recording leaves a lock that verifies as it is |
| `LockValidation.Visit` | crates/idl/src/project.rs:319-340 | The depth-first visit fails only on a cycle; otherwise it leaves a larger closed set from which no cycle starts, all of it reached |
| `LockValidation.Validate` | crates/idl/src/project.rs:238-347 | Validation accepts a lock if and only if it is sorted, its edges agree, it is acyclic and exactly the closure of its root |
| `LockValidation.CheckPreserved` | crates/cli/src/package.rs:194-231 | The update check passes if and only if everything reachable from the dependencies that were not updated is unchanged |
| `ResolverMethods.CompileFromLock` | crates/cli/src/package.rs:618-751 | The recursive verifier with its shared name stack computes the specified verification, and on success leaves the stack as it was |
| `ResolverMethods.ResolveFromRelease` | crates/cli/src/package.rs:437-461 | Validating and compiling a pulled release is the specified release verification |
| `ResolverMethods.ResolvePackage` | crates/cli/src/package.rs:368-514 | The recursive resolver with its shared name stack computes the specified resolution, and on success leaves the stack as it was |
| `ResolverMethods.MatchLock` | crates/cli/src/package.rs:765-796 | The final comparison accepts exactly the locks whose members, root and digests are the compiled graph's |
| `SourceCache.ExtractArchive` | crates/cli/src/oci.rs:465-507 | Unpacking entry by entry yields the files exactly when every entry is acceptable, no path repeats, the limits hold and packing again gives the same bytes |
| `SourceCache.DigestNamesOnePackage` | crates/cli/src/oci.rs:306-371 | With collision-free digests two images that open under one manifest digest are the same image and the same package |
| `SourceCache.CacheAndRegistryAgree` | crates/cli/src/oci.rs:207-259 | Whatever bytes two disks hold and the registry serves, wherever they yield a locked package they yield the same one |
| `SourceCache.StoredImageOpens` | crates/cli/src/oci.rs:290-304 | The image written for a well-formed package reads back as that package |
| `SourceCache.Cache.WriteCache` | crates/cli/src/oci.rs:721-764 | Success means the entry reads back, and no other digest's entry changes, whatever the directory operations do |
| `SourceCache.Cache.PullLocked` | crates/cli/src/oci.rs:207-242 | A returned package is what the cache holds for the lock entry afterwards; a hit is returned without touching the disk |
| `SourceCache.Cache.InstallLocked` | crates/cli/src/package.rs:533-568 | After success every registry package of the lock is a cache hit, and nothing was pulled if and only if all were hits before |
| `Boxing.FindDirectModel` | crates/codegen-rust/src/lib.rs:2662-2681 | The alias-chasing loop finds the model an expression holds directly |
| `Boxing.ChaseIsExact` | crates/codegen-rust/src/lib.rs:2662-2681 | Chasing finds a model if and only if a chain of aliases without repetition leads to it |
| `Boxing.Reachable` | crates/codegen-rust/src/lib.rs:2690-2704 | The search with a shared visited set is sound, and when it finds nothing everything it newly visited is closed |
| `Boxing.RecursiveModelEdges` | crates/codegen-rust/src/lib.rs:2617-2658 | The result is exactly the field references whose model reaches the declaring model by directly held fields |
| `Boxing.FieldIsBoxedExactly` | crates/codegen-rust/src/lib.rs:768-813 | A generated field is boxed if and only if its target model, through aliases and nullables, reaches the declaring model |
| `Boxing.NoStructContainsItself` | crates/codegen-rust/src/lib.rs:768-813 | In the generated layout no walk from a struct returns to it without passing a box |
| `Boxing.LayoutIsFinite` | crates/codegen-rust/src/lib.rs:2617-2704 | The generated layout is acyclic if and only if the type aliases alone are |
| `Payload.FillFixture` | benchmarks/runtime/model.ts:81-85 | The fill loop gives the byte at each index as the index modulo 251 |
| `Payload.PatternWindow` | benchmarks/runtime/model.ts:100-104 | The slice taken from the repeated pattern is always in bounds and is the fixture at that offset |
| `Payload.StreamChunks` | benchmarks/runtime/model.ts:88-105 | The generator rejects exactly the invalid sizes; otherwise its chunks concatenate to the fixture, for every size and chunk length |
| `CreditTransfer.FramesAreTheChunks` | benchmarks/runtime/raw_transfer.ts:93-105 | The frames are the generator's chunks in order, and there are as many as the frame count |
| `CreditTransfer.StepKeepsInvariant` | benchmarks/runtime/raw_transfer.ts:54-122 | No sequence, length or credit check ever rejects, and every step of either task keeps the protocol invariant |
| `CreditTransfer.RunIsSafe` | benchmarks/runtime/raw_transfer.ts:54-122 | In every run consumed <= credited <= received <= sent <= frame count, the frames in flight fit the window and 4 MiB, and the received bytes are a prefix of the fixture |
| `CreditTransfer.RequestedWindowSuffices` | benchmarks/runtime/raw_transfer.ts:22-30 | Frames of 1 byte to 1 MiB with a requested window of at least 8 frames always suffice |
| `CreditTransfer.DeadlockFreeExactly` | benchmarks/runtime/raw_transfer.ts:87-121 | For every positive size no run can get stuck if and only if the whole transfer fits the window or a full window reaches a credit threshold |
| `CreditTransfer.RunsAreShort` | benchmarks/runtime/raw_transfer.ts:54-122 | Every step uses up a measure, so no run is longer than three steps per frame |
| `CreditTransfer.EmptyTransferIsStuck` | benchmarks/runtime/raw_transfer.ts:59-86 | A transfer of size zero never finishes: the receiver waits for a frame that is never sent |
| `CreditTransfer.FinishedRunDelivers` | benchmarks/runtime/raw_transfer.ts:82-86 | A finished run has received exactly the fixture, so its digest is the expected one |
| `CreditTransfer.Transfer` | benchmarks/runtime/raw_transfer.ts:54-122 | With a sufficient window every interleaving of the two tasks ends with the fixture delivered |
| `NatsRecords.FindCrlf` | ts/browser/nats_response_gate.ts:35-40 | The search returns the first line end |
| `NatsRecords.ProtocolParser.TakeRecords` | ts/browser/nats_response_gate.ts:98-106 | The loop takes all complete records and leaves the rest of the buffer, or fails as the whole buffer does |
| `NatsChunking.ParseLosesNothing` | ts/browser/nats_response_gate.ts:98-211 | The raw bytes of the records followed by the leftover are the input |
| `NatsChunking.ParseContinues` | ts/browser/nats_response_gate.ts:91-211 | Parsing more bytes later continues exactly where parsing them at once would |
| `NatsChunking.ChunkingTheorem` | ts/browser/nats_response_gate.ts:91-211 | For a stream that parses, every way of cutting it gives the same records and leftover if and only if every control line is strictly shorter than 64 KiB |
| `NatsCodec.EncodedMessagesParse` | ts/browser/nats_response_gate.ts:544-565 | Any sequence of encoded messages with arbitrary payload bytes parses back to the same subjects, sids, replies and payloads |
| `NatsCodec.EncodedMessagesArrive` | ts/browser/nats_response_gate.ts:154-261 | The same messages arrive whatever chunks the bytes come in |
| `ResponseGate.Gate.FindArm` | ts/browser/nats_response_gate.ts:499-509 | The arm found is the first whose route was asked with that reply after it was set, and whose predicate holds |
| `ResponseGate.Gate.ConsiderServerRecord` | ts/browser/nats_response_gate.ts:486-532 | One record is forwarded, paused, held or refused by a limit as decided, with every field updated accordingly |
| `ResponseGate.Gate.IngestServer` | ts/browser/nats_response_gate.ts:456-465 | A chunk is split and its records considered in turn, up to the first error; a disposed gate passes it through |
| `ResponseGate.Gate.IngestClient` | ts/browser/nats_response_gate.ts:468-484 | Client records all pass in order and each published message with a subject is remembered as a request |
| `ResponseGate.Gate.TakeHeldRaw` | ts/browser/nats_response_gate.ts:534-541 | The record held under a reply is handed out and no longer held or counted |
| `GateRuns.EveryRecordHasOnePlace` | ts/browser/nats_response_gate.ts:424-541 | In every run without a limit error each server record has exactly one fate; forwarded, paused and resumed bytes are in arrival order, claimed and released ones were handed out once each with their own bytes, held entries are their records, the limits hold, and the retained count is exact while nothing is lost |
| `GateRuns.NextKeepsSound` | ts/browser/nats_response_gate.ts:424-541 | Every operation of the gate keeps that invariant |
| `GateRuns.LostExactly` | ts/browser/nats_response_gate.ts:499-527 | A server record makes a record lost if and only if it is to be held and its reply is already held |
| `GateRuns.RunLosesExactly` | ts/browser/nats_response_gate.ts:424-541 | In every run a record is lost if and only if some record was to be held while its reply was already held; no other operation loses one |
| `GateRuns.SecondAnswerLosesFirst` | ts/browser/nats_response_gate.ts:499-527 | Two arms, one request and two answers to it: the first answer is lost and the second is held |
| `GateRuns.ChunkIsRun` | ts/browser/nats_response_gate.ts:456-465 | What a chunk returns to forward is what its records add to the forwarded bytes |
| `NatsTokens.Tokenize` | crates/bootstrap/src/nats_config.rs:328-432 | The index loop with its comment, quote and word scans yields the tokens of the recursive lexical grammar |
| `NatsListeners.ReadListenPorts` | crates/bootstrap/src/nats_config.rs:203-279 | The state-variable loop with its accumulator computes the one-pass parser on the tokens |
| `NatsListeners.RunFollowsReading` | crates/bootstrap/src/nats_config.rs:203-279 | On every balanced stretch the depth counters record what a recursive block-structured reading declares, in order |
| `NatsListeners.ParserAgreesWithBlocks` | crates/bootstrap/src/nats_config.rs:149-288 | Parsing succeeds with given ports if and only if the braces balance and each of the three listeners is declared exactly once with that port |
| `NatsRender.QuotePath` | crates/bootstrap/src/nats_config.rs:443-454 | The escaping loop quotes a path |
| `NatsRender.TokensOfQuote` | crates/bootstrap/src/nats_config.rs:443-454 | Any quoted path, whatever its characters, is read back as one token |
| `NatsRender.ReindentQuote` | crates/bootstrap/src/nats_config.rs:34-56 | Indenting a quoted path is quoting the path with its line breaks indented |
| `NatsRender.TemplateSpells` | crates/bootstrap/src/nats_config.rs:62-109 | The rendered text reads as the intended blocks and settings followed by the accounts text, in all TLS and WebSocket modes |
| `NatsRoundTrip.SlugFromName` | crates/bootstrap/src/nats_config.rs:534-558 | The slug loop with its separator flag computes a slug of the name, and every name gives one |
| `NatsRoundTrip.SlugIsIdempotent` | crates/bootstrap/src/nats_config.rs:534-558 | A slug is its own slug |
| `NatsRoundTrip.TrimIsInvisible` | crates/bootstrap/src/nats_config.rs:537-541 | White space around a name leaves no trace in its slug |
| `NatsRoundTrip.AddressHasPort` | crates/bootstrap/src/nats_config.rs:297-326 | A rendered bind address with a nonzero port is read back as that port |
| `NatsRoundTrip.RenderedConfigParses` | crates/bootstrap/src/nats_config.rs:62-109 | A rendered configuration parses to its ports if and only if the server is not named `listen` or `http` and the accounts are balanced and declare no listener |
| `NatsRoundTrip.RenderedLocalConfigParses` | crates/bootstrap/src/nats_config.rs:463-510 | The same for a host configuration with any store directory |
| `Subjects.SubjectMatches` | crates/events-runtime/src/projector.rs:484-496 | The matcher accepts exactly the subjects a filter covers token by token |
| `Subjects.SubjectsIntersect` | crates/events-runtime/src/consumers.rs:145-158 | The two-iterator loop computes the intersection test |
| `Subjects.IntersectExactly` | crates/events-runtime/src/consumers.rs:145-158 | Some concrete subject matches both patterns if and only if the test holds and both have `>` only as last token |
| `Subjects.IllFormedPatternIntersects` | crates/events-runtime/src/consumers.rs:145-158 | A pattern with an inner `>` passes the test although it matches nothing |
| `ConsumerJoin.Join` | crates/events-runtime/src/consumers.rs:58-91 | Each binding gets one row and each live durable consumer is behind exactly one row; a binding is missing only when every consumer it names is claimed by an earlier one |
| `ConsumerPages.SortSorts` | crates/events-runtime/src/consumers.rs:121-121 | Sorting orders the rows by key and keeps them all |
| `ConsumerPages.PagingIsCompleteExactly` | crates/events-runtime/src/consumers.rs:121-142 | For every filter, following the cursors with any limits visits each selected row once in key order if and only if no two selected rows share a key |
| `ConsumerPages.JoinedKeysAreDistinct` | crates/events-runtime/src/consumers.rs:58-91 | The joined rows have distinct keys only if the bindings have; where a stream names its durable consumers uniquely, whenever the bindings have |
| `ConsumerPages.ListingIsCompleteExactly` | crates/events-runtime/src/consumers.rs:58-142 | Where a stream names its durable consumers uniquely, paging is complete for every query if and only if no two bindings give one resource to one consumer of one stream |
| `ConsumerPages.QueryConsumers` | crates/events-runtime/src/consumers.rs:13-142 | One call refuses exactly the bad limits and foreign cursors, and otherwise returns the page of the joined, filtered and sorted rows |
| `Publication.RenameMovesOne` | xtask/src/main.rs:403-409 | A rename inside one output leaves every other output where it stands |
| `Publication.UnchangedExactly` | xtask/src/main.rs:410-427 | The file map is the starting one if and only if every output is untouched |
| `Publication.Install` | xtask/src/main.rs:404-409 | Installing ends with the output replaced, or on failure untouched or set aside; no rename overwrites anything |
| `Publication.Recover` | xtask/src/main.rs:410-427 | After recovery nothing is lost, and the file map is the starting one if and only if no recovery rename failed |
| `Publication.Publish` | xtask/src/main.rs:395-441 | Under every schedule of failures: refused exactly when a backup exists; on failure every old output is at its target or backup and every staged one at its staging path or target; on success every target holds its staged tree |
| `GeneratedPackages.UndoOne` | crates/cli/src/generate.rs:308-319 | Undoing one entry leaves the old output at its destination or in staging, and restores it when no step failed |
| `GeneratedPackages.Rollback` | crates/cli/src/generate.rs:306-319 | Rolling back in reverse saves every old output, and restores every destination when no step failed |
| `GeneratedPackages.PublishChanged` | crates/cli/src/generate.rs:288-333 | Every changed output is published or every destination is as before; if neither, staging is kept and holds what was not restored |
| `Nonces.Verifier.Evict` | benchmarks/runtime/http_security.ts:188-189 | The eviction loop drops exactly the nonces older than twice the skew |
| `Nonces.Verifier.Check` | benchmarks/runtime/http_security.ts:171-204 | One request is judged in the order of the checks, and an accepted nonce is remembered |
| `Nonces.AcceptedByAnyClock` | benchmarks/runtime/http_security.ts:169-204 | In every run, whatever the clock does, a request is accepted if and only if its proof is present, in the window and signed, and every earlier acceptance of its nonce was forgotten by a request more than twice the skew later |
| `Nonces.AcceptedExactly` | benchmarks/runtime/http_security.ts:169-204 | In every run with a non-decreasing clock a request is accepted if and only if its proof is present, in the window, signed, and its nonce was not accepted within twice the skew: the evicting memory is as good as the whole history |
| `Nonces.AcceptedAgainExactly` | benchmarks/runtime/http_security.ts:169-204 | With any clock, a proof with a numeric timestamp that was accepted is accepted again if and only if a request in between was checked more than twice the skew after the first acceptance, and then the clock has gone back |
| `Nonces.AcceptedTwiceWhenClockGoesBack` | benchmarks/runtime/http_security.ts:185-204 | A run of three requests in which a proof is accepted, forgotten and, after the clock was set back, accepted again |
| `Nonces.AcceptedAtMostOnce` | benchmarks/runtime/http_security.ts:169-204 | Where the clock never goes back, a proof with a given numeric timestamp and nonce is accepted at most once |
| `Nonces.SingleUseExactly` | benchmarks/runtime/http_security.ts:185-204 | A signed request is single-use in all runs whose clock never goes back if and only if its timestamp reads as a number |

## Left out

- ResolverOutcomes.OutcomeExactly: where a name is both met again and shared, either error is possible; which one the walk meets first is what ResolverOutcomes.ResolutionFollowsWalk gives.
- ResolverMethods.ResolveFromRelease: the cache is as installing has left it, so pulling during resolution is not threaded through; SourceCache.Cache.InstallLocked is where a cold cache is filled.
- Relocking.RelockedLockVerifies: states what a successful re-recording leaves, not when the edited project compiles.
- LockValidation.Validate: does not model the syntax checks of names, paths and digests, which are independent of each other and of the graph.
- ResponseGate.Gate.IngestServer: promises, timers and the waiters of an armed reply are not modelled; an armed push is a counter.
- GateRuns.EveryRecordHasOnePlace: covers runs up to a limit or protocol error or disposal, after which the source itself drops records.
- NatsListeners.ReadListenPorts: errors carry their kind but not the line number.
- NatsRecords.ProtocolParser.TakeRecords: text is its bytes, so decoding of invalid UTF-8 and the byte order mark is not modelled.
- CreditTransfer.RunIsSafe: the frame count is an exact quotient; rounding of a floating-point division above 2^53 is not modelled.
- Publication.Publish: a directory tree is one value at one path, so nested outputs and other processes are not modelled.
- Nonces.Verifier.Check: the signature check and the reading of numbers are parameters.
- Editing the root manifest, and the generated-file ownership checks before publication.
- The generated Rust and TypeScript text apart from which fields are boxed, including the collection of used types.
- Cryptography, tar layout, TOML, canonical JSON, SemVer matching and the IDL compiler, which are parameters here.
- Network, process and browser drivers, reports and statistics, argument parsing, telemetry, TLS and key material, the events store and its dead-letter state.
