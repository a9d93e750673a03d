# RGit: verified models

A Dafny 4.11 model of the logic RGit depends on most, with proofs about every run, every
input and every reachable state. `dafny verify dfyconfig.toml` checks all of it.

**Command journal and working tree** (`WorkingTree`, `Publication`, `WorkingPlan`,
`CheckoutPaths`, `Transaction`, `JournalGuarantees`, `Checkout`, `CheckoutGuarantees`). The file system is a map from component
paths to directories, files and links. Publication is a step relation (delete a leaf,
remove an empty directory, make a directory, put a leaf); the imperative `publish`,
`recover` and `commit` are classes proved to take only those steps. A crash hook may stop
them after any step. Results: crash convergence, one final disk whatever the crashes were,
untracked leaves never touched, refusal before any effect, records only after files, local
work kept by a checkout, and no second spelling of a name on disk. The `Guarantees` modules
state what a user sees, from trees, manifests and journaled bytes alone.

**Verified store** (`StoreModel`, `StoreActions`, `StoreClosure`, `StoreRuns`,
`MemoryStore`, `StoreGuarantees`, `StoreProgress`). Publishers stage, validate and commit in separate critical sections, in
any interleaving with puts, promises and quarantines. Results: every interleaving equals a
sequence of atomic operations, generations count successful updates, one expectation wins
once, the closure invariant holds in every reachable state, nothing quarantined is ever
published, lines and operation heads keep their history, the head can always advance, and
first-match consumption of actions succeeds exactly when a one-to-one assignment exists.

**Canonical encoding** (`Canonical`, `CanonicalLaws`, `Codec`, `Decoder`, `Identity`,
`LooseFrame`, `LooseStore`, `Layouts`). The restricted CBOR of sections 3.1 and 4.2.1 of RFC 8949,
varints, identifiers, hash preimages, and loose-record frames, each with a round trip and
its converse, their bytes written out, plus the no-replace publication protocol.

**Merging** (`MergePlan`, `MergeLaws`, `Integration`, `ResolutionLaws`, `TextMerge`,
`TextMergeLaws`, `TextPass`, `LineIntegration`, `SharedHash`, `MergeBase`). Planning, subtree grouping,
resolutions, text merges, the final check of paths and contents, and the choice of the
merge base.

**Graphs, tries and streams** (`Graph`, `GraphIndex`, `DepthFirst`, `Ancestry`,
`PortableTree`, `FastCdc`, `Blobs`). Worklists, Kahn's algorithm, depth-first walks with an explicit
stack, the portable-collision trie and the incremental chunker, each equal to a plain
definition.

Hashes, text tests, field schemas, case folding, the line diff, blob contents and access
decisions are function-typed parameters; what is assumed of them is written as a predicate
(`LawfulDiff`, `StrictOrder`, `Lawful`) where anything is assumed at all. Where the source
iterates in key order, the model takes elements in any order, so the results do not depend
on it.

What the proofs say about the code itself:

- The `NonCanonical` comparison at the end of decoding, the `export parent missing` error,
  the generation-overflow checks, the chunk-identifier error and the path check after an
  integration can never fire on the inputs they receive.
- The content check after an integration can refuse a valid merge: a symbolic link whose
  target text is also the result of a text merge shares its hash (`SharedHash`). It does so
  exactly in that case (`LineIntegration.AcceptedExactly`).
- A staged checkout is journaled with fewer paths than it was checked with, and passes the
  checks of commit exactly when its links are sane; an executable link is accepted by
  staging and refused by commit (`Checkout.CheckoutIsCommittable`).

## Model

| member | source | states |
|---|---|---|
| Publication.StepKeepsForm | src/transaction/working_plan.rs:235-308 | a publication step leaves a well-formed tree |
| Publication.StepUntouched | src/transaction/working_plan.rs:205-308 | a step keeps every leaf outside the update set, bytes and kind |
| Publication.StepKeepsExisting | src/transaction/working_plan.rs:87-94 | a step never creates an entry whose folded spelling clashes with a planned one |
| Publication.StepKeepsValidated | src/transaction/working_plan.rs:116-159 | whatever recovery validated before a step still validates after it, so a crash between steps is recoverable |
| Publication.StepKeepsFinal | src/transaction/working_plan.rs:235-308 | the final tree of the updates is the same before and after every step |
| Publication.StepKeepsAfter | src/transaction/working_plan.rs:249-267 | an update that reached its after state stays there during all later steps |
| Publication.StepKeepsLeavesDone | src/transaction/working_plan.rs:243-264 | once all deletions are done no later step undoes one |
| Publication.DoneIsFinal | src/transaction/working_plan.rs:235-308 | when every key reads as its after state the tree is the declared final tree |
| Publication.FinalIsUnique | src/transaction/working_plan.rs:235-308 | the declared final tree is determined by the starting tree and the updates |
| Publication.RunUntouched | src/transaction/working_plan.rs:205-308 | over any run, complete or cut short, leaves outside the updates are unchanged |
| Publication.RunKeeps | src/transaction/working_plan.rs:235-308 | over any run from a validated tree: still validated, same final tree |
| Publication.OnlyDirsRemain | src/transaction/working_plan.rs:278-280 | after the deletions a directory to be replaced contains only directories |
| Publication.WayIsClear | src/transaction/working_plan.rs:281-298 | after the deletions no file or link stands above a path to be created |
| WorkingPlan.WorkingDirectory.DirectoryCanBeReplaced | src/transaction/working_plan.rs:96-114 | true exactly when every leaf below, at any depth, is a planned deletion with a safe name |
| WorkingPlan.WorkingDirectory.ReadCurrent | src/transaction/working_plan.rs:116-159 | the walk down the components equals the declarative reading of a path, with the same refusals |
| WorkingPlan.WorkingDirectory.WorkingPathOk | src/transaction.rs:504-533 | true exactly when only directories stand above the key and none at it |
| WorkingPlan.WorkingDirectory.RemoveEmptyTree | src/transaction/working_plan.rs:205-233 | only empty directories at or below the path go, by publication steps; done means it is gone; directories only means it cannot refuse |
| WorkingPlan.WorkingDirectory.MakeParents | src/transaction/working_plan.rs:284-298 | creates exactly missing parents by publication steps |
| WorkingPlan.WorkingDirectory.PublishOne | src/transaction/working_plan.rs:265-306 | brings one created key to its after state, keeping finished keys finished |
| WorkingPlan.WorkingDirectory.DeleteLeaves | src/transaction/working_plan.rs:241-264 | all deletions done, by steps only, and never refused on a validated tree |
| WorkingPlan.WorkingDirectory.Publish | src/transaction/working_plan.rs:235-308 | changes the tree only by publication steps even when it crashes or refuses; cannot refuse a validated tree; done means every key is in its after state |
| CheckoutPaths.ValidateAliases | src/checkout_paths.rs:16-34 | accepts exactly the safe key sets in which no two prefixes differ but fold alike |
| CheckoutPaths.CollisionFree | src/transaction/working_plan.rs:50-75 | true exactly when no key is a proper prefix of another |
| CheckoutPaths.ValidateShape | src/transaction/working_plan.rs:47-77 | accepts exactly alias-free plans whose before side and after side are each prefix-free |
| CheckoutPaths.ValidateUpdates | src/transaction/working_plan.rs:176-195 | accepts exactly updates whose link sides have a valid target and no executable flag |
| CheckoutPaths.KeyFitsOnDisk | src/checkout_paths.rs:44-82 | true exactly when no existing entry on the way folds like the key's name with another spelling, and only planned files block |
| CheckoutPaths.ValidateExisting | src/checkout_paths.rs:38-85 | all keys of the plan fit the tree on disk |
| Transaction.StageCommitReopen | src/transaction.rs:89-171 | after any stage calls and a commit that succeeds, a fresh transaction on that disk reads and lists at every queried path exactly what the old one showed before it committed |
| Transaction.CrashConvergence | src/transaction.rs:122-264 | over any disk run from a committed journal: recovery still validates, untracked leaves are intact, a changed record implies complete working files, and without a journal both trees are the declared final ones |
| Transaction.SameOutcome | src/transaction.rs:177-264 | two histories of one journal end on the same disk wherever their crashes fell |
| Transaction.Reopen | src/transaction.rs:59-60 | after any sequence of crashing reopenings, one that does not crash publishes everything and clears the journal |
| JournalGuarantees.CommitExpects | src/transaction.rs:129-143 | commit goes ahead only when at every path the file or link is the one its update says was there, or there is none |
| JournalGuarantees.FinalLeaves | src/transaction/working_plan.rs:265-306 | a finished publication leaves at each path the file or link its update describes or none, keeps an unstated executable bit, and changes and adds no other file or link |
| JournalGuarantees.EveryMoment | src/transaction.rs:177-264 | at every moment of every history of a journal, crashes included, each path is as before or as after, every other file and link is intact, and records differ only once all paths are as after |
| JournalGuarantees.JournalIsFulfilled | src/transaction.rs:177-264 | when the journal is gone every path is as after, every record has its bytes, and nothing else differs in either tree |
| JournalGuarantees.FinalIsPortable | src/checkout_paths.rs:16-85 | publication leaves no two entries of a directory with names that fold alike, if there were none |
| JournalGuarantees.GuardedNames | src/transaction.rs:484-502 | working paths are exactly the nonempty ones without an empty, `.` or `..` component, a slash inside one, or one that is `.git` or `.rgit` in any case |
| Transaction.CommandTransaction.Read | src/transaction.rs:89-96 | the staged bytes; otherwise the bytes of a record file below directories; otherwise nothing; in all cases what publishing everything staged would leave |
| Transaction.CommandTransaction.Stage | src/transaction.rs:98-103 | stages exactly acceptable record paths and changes nothing on disk |
| Transaction.CommandTransaction.List | src/transaction.rs:105-120 | fails exactly where there is no directory; otherwise exactly the staged records and the JSON entries directly in it, which is what publishing everything staged would leave there |
| Transaction.StageThenRead | src/transaction.rs:89-103 | a staged record is read back at once, and every other path reads as it did |
| Transaction.StageThenList | src/transaction.rs:98-120 | a staged record is added to the listing of its directory and to no other |
| Transaction.CommandTransaction.StageWorking | src/transaction.rs:457-482 | stages exactly safe keys with valid link targets |
| Transaction.CommandTransaction.Check | src/transaction.rs:229-242 | accepts exactly the validated updates; for commit, exactly those all of whose keys are in their before state |
| Transaction.CommandTransaction.RecordsFit | src/transaction.rs:243-250 | accepts exactly journals all of whose records may be written |
| Transaction.CommandTransaction.PublishRecords | src/transaction.rs:252-255 | writes every record by record moves after the working files, never refusing |
| Transaction.CommandTransaction.Recover | src/transaction.rs:177-264 | refuses exactly unrecoverable disks, with the whole disk unchanged; otherwise only journal moves, and done means the journal is cleared |
| Transaction.CommandTransaction.Commit | src/transaction.rs:122-171 | refusal leaves disk and staging as they were; success is the final trees; a crash leaves a disk on the way to them |
| Checkout.StageCheckout | src/transaction.rs:413-455 | stages exactly when every path of both manifests passes, and then exactly the paths off their target |
| Checkout.CheckoutIsCommittable | src/transaction.rs:413-455 | what an accepted checkout stages passes the stricter checks of commit on the smaller plan exactly when no target is an executable link and every link on disk that is to change has a valid target |
| Checkout.ExecutableLinkIsRefused | src/transaction/working_plan.rs:186-191 | an input on which it does not: an executable link is staged and then refused by commit |
| Checkout.CheckoutLands | src/transaction.rs:413-455 | publishing the staged updates puts every path of both manifests on its target |
| CheckoutGuarantees.LocalWorkSurvives | src/transaction.rs:439-449 | after an accepted checkout every untracked file or link is still there unchanged, and without discard so is every tracked one that was changed locally |
| CheckoutGuarantees.CheckoutIsExact | src/transaction.rs:413-455 | every path of the new manifest ends with its bytes, link kind and executable flag, every path only the old one had with no file or link |
| CheckoutGuarantees.CleanTreePasses | src/transaction.rs:439-455 | on a tree that holds exactly the old manifest every path passes its check, with or without discard |
| CheckoutGuarantees.CleanTreeIsAccepted | src/transaction.rs:413-455 | such a tree is accepted as a whole, unless something on disk is another spelling of a planned path |
| StoreModel.AdmitKeeps | crates/rgit-store/src/memory.rs:129-141 | admission keeps stored objects, adds exactly the candidates, and leaves everything digest-verified |
| StoreModel.AdmitExactly | crates/rgit-store/src/memory.rs:129-141 | candidates are admitted exactly when each decodes and none disagrees with what is stored or with another about the bytes of an identifier; those bytes are then stored |
| StoreModel.StoredUnderItsHash | crates/rgit-store/src/memory.rs:71-74 | with the verifying decoder each object sits under the hash over the domain text, the kind and schema in its fields 0 and 1, and its exact bytes |
| StoreModel.MovedExactly | crates/rgit-store/src/memory.rs:178-183 | each updated key gets its next state, every other key keeps its own |
| StoreActions.MatchIsSignature | crates/rgit-store/src/memory.rs:594-634 | an action matches an update exactly when their signatures are equal |
| StoreActions.FirstMatchSuffices | crates/rgit-store/src/memory.rs:234-253 | if a complete assignment exists, a partial greedy one never runs out of free matches |
| StoreActions.FirstFree | crates/rgit-store/src/memory.rs:234-241 | the first unconsumed matching action, or none exists |
| StoreActions.ValidateOperation | crates/rgit-store/src/memory.rs:187-261 | accepts exactly when every update passes its checks and a bijection between non-head updates and actions exists |
| StoreClosure.ClosureFrom | crates/rgit-store/src/memory.rs:263-292 | succeeds exactly when every edge reachable from the roots finds a visible object of its kind, and returns exactly the reachable objects |
| StoreClosure.ValidateAncestry | crates/rgit-store/src/memory.rs:293-324 | true exactly when both ancestry graphs are parent-closed and acyclic |
| StoreClosure.WholeGrows | crates/rgit-store/src/memory.rs:263-324 | an object whose closure is complete and acyclic stays so when objects are added |
| StoreClosure.CheckedIsWhole | crates/rgit-store/src/memory.rs:165-176 | passing the two checks makes every root's transitive closure complete, of the expected kinds, with acyclic ancestry |
| StoreRuns.RevisionTellsChange | crates/rgit-store/src/memory.rs:363-429 | an operation changes nothing or raises the revision by one |
| StoreRuns.LineGenerationAgrees | crates/rgit-store/src/memory.rs:572-593 | the line state's generation field equals the generation its reference receives |
| StoreRuns.PublishKeepsSound | crates/rgit-store/src/memory.rs:118-185 | a publication keeps the store invariant |
| StoreRuns.ApplyKeepsSound | crates/rgit-store/src/memory.rs:363-429 | put, promise, quarantine and publish keep the store invariant |
| StoreRuns.NoGenerationOverflow | crates/rgit-store/src/memory.rs:101-116 | in a sound store, once the revision can advance no generation overflows |
| StoreRuns.StepIsAtomic | crates/rgit-store/src/memory.rs:458-492 | a winning commit is an acceptable atomic publish of the state found at the commit step; every other publisher step leaves the store unchanged |
| StoreRuns.StepKeepsFlights | crates/rgit-store/src/memory.rs:458-492 | while the revision is unchanged a staged state is what staging would give now |
| StoreRuns.Linearizable | crates/rgit-store/src/memory.rs:363-492 | every interleaving ends in the state of its operations applied one after another |
| StoreRuns.AlwaysSound | crates/rgit-store/src/memory.rs:118-185 | in every reachable state: objects verified, promised disjoint from stored, every reference target and its closure complete with expected kinds and acyclic ancestry, line generations equal to the target's field |
| StoreRuns.GenerationsCount | crates/rgit-store/src/memory.rs:101-116 | over every run a key's generation is the number of winning commits that updated it, less one |
| StoreRuns.ExpectationWinsOnce | crates/rgit-store/src/memory.rs:92-100 | two winning commits never carry the same expectation of one key |
| StoreGuarantees.NothingQuarantinedIsPublished | crates/rgit-store/src/memory.rs:263-291 | nothing reachable, over all admitted objects, from an accepted operation or target is quarantined or missing |
| StoreGuarantees.NoWinnerPublishesQuarantined | crates/rgit-store/src/memory.rs:458-492 | the same of every winning commit of every run |
| StoreGuarantees.WinnerSeesAndInstalls | crates/rgit-store/src/memory.rs:92-116 | a winning update expected exactly the state its key had, and installs its target, its operation and the next generation |
| StoreGuarantees.WinnerInstallsItsKind | crates/rgit-store/src/memory.rs:148-161 | a winning update installs a stored, visible object of the kind its key stands for, which for lines, changes and releases carries the key's identity in field 3 |
| StoreGuarantees.WinnerLeavesOthers | crates/rgit-store/src/memory.rs:178-183 | keys that a winner does not update keep their state |
| StoreGuarantees.EveryEdgeLeadsSomewhere | crates/rgit-store/src/memory.rs:263-291 | in every reachable state every edge of everything below a reference leads to a stored object of the kind the edge expects |
| StoreGuarantees.EdgeIsFollowed | crates/rgit-store/src/memory.rs:263-291 | every edge of a stored object to a stored object is followed |
| StoreGuarantees.NoOwnAncestor | crates/rgit-store/src/memory.rs:293-324 | in every reachable state no snapshot or operation below a reference is its own ancestor |
| StoreGuarantees.LineNamesPrevious | crates/rgit-store/src/memory.rs:572-592 | each line state that a winner installs carries the line id, names the publishing operation and the replaced target, and counts one more than it |
| StoreGuarantees.HeadAdvances | crates/rgit-store/src/memory.rs:206-221 | one event leaves the operation head, or the old head is an ancestor of the new one |
| StoreGuarantees.EarlierHeadsAreAncestors | crates/rgit-store/src/memory.rs:206-221 | over every run each earlier operation head is an ancestor of each later one |
| StoreGuarantees.FirstHeadIsRoot | crates/rgit-store/src/memory.rs:206-221 | the first operation head has no operation parents |
| StoreGuarantees.MatchRecords | crates/rgit-store/src/memory.rs:594-634 | a matching action names the kinds and identifiers before and after, or declares fields 2 to 11 of the new line state |
| StoreGuarantees.AcceptedIsRecorded | crates/rgit-store/src/memory.rs:187-261 | the actions of an accepted operation record its effects one to one |
| StoreGuarantees.EffectsExactly | crates/rgit-store/src/memory.rs:202-256 | the effects are exactly the updates of keys other than the head |
| StoreProgress.CheckedExactly | crates/rgit-store/src/memory.rs:165-176 | the closure walk and the ancestry indexes accept exactly the roots that exist with their kind and are whole |
| StoreProgress.AdvanceIsAccepted | crates/rgit-store/src/memory.rs:118-185 | in a sound store whose head reaches nothing quarantined, an operation on top of the head is accepted |
| StoreProgress.HeadCanAdvance | crates/rgit-store/src/memory.rs:458-492 | from every such reachable state a publisher that is not disturbed makes it the head |
| StoreProgress.PutStores | crates/rgit-store/src/memory.rs:363-383 | put stores exactly a verified new object with its bytes, drops its promise, and changes nothing otherwise |
| StoreProgress.PromiseMarks | crates/rgit-store/src/memory.rs:402-413 | a missing object becomes promised and nothing else changes |
| StoreProgress.QuarantineLasts | crates/rgit-store/src/memory.rs:415-429 | over every run what is quarantined stays quarantined |
| StoreProgress.QuarantinedNeverPublished | crates/rgit-store/src/memory.rs:415-429 | after a known object is quarantined no winning commit publishes anything that reaches it |
| MemoryStores.AddCandidates | crates/rgit-store/src/memory.rs:129-141 | the candidate loop equals admission, with the candidates' promises dropped |
| MemoryStores.CheckUpdates | crates/rgit-store/src/memory.rs:148-161 | accepts exactly distinct keys whose expectations hold in the base state and whose targets fit the staged one |
| MemoryStores.Stage | crates/rgit-store/src/memory.rs:118-185 | succeeds exactly on acceptable publications and returns exactly the staged state |
| MemoryStores.MemoryStore.Put | crates/rgit-store/src/memory.rs:363-383 | one atomic put; new exactly when the state changed; afterwards the bytes are stored |
| MemoryStores.MemoryStore.MarkPromised | crates/rgit-store/src/memory.rs:402-413 | one atomic promise; fails only when the revision is exhausted |
| MemoryStores.MemoryStore.Quarantine | crates/rgit-store/src/memory.rs:415-429 | one atomic quarantine; on success the object is no longer visible |
| MemoryStores.MemoryStore.Begin | crates/rgit-store/src/memory.rs:463-474 | the staging section changes nothing and succeeds exactly on acceptable publications |
| MemoryStores.MemoryStore.Commit | crates/rgit-store/src/memory.rs:480-491 | all or nothing: an atomic publish with the new reference states in update order, or no change |
| CanonicalLaws.HeadParses | crates/rgit-objects/src/canonical.rs:393-433 | a shortest-form head is read back, whatever follows |
| CanonicalLaws.HeadSound | crates/rgit-objects/src/canonical.rs:393-433 | any accepted head is the shortest form of what it says |
| CanonicalLaws.DecodeEmit | crates/rgit-objects/src/canonical.rs:282-347 | the decoder reads back every canonical value that fits the limits |
| CanonicalLaws.DecodeSound | crates/rgit-objects/src/canonical.rs:282-347 | whatever the decoder returns is canonical, fits the limits, and emits exactly the consumed bytes |
| CanonicalLaws.NormalIsCanonical | crates/rgit-objects/src/canonical.rs:150-208 | sorting entries and reading non-negative signed numbers as unsigned makes a value canonical |
| CanonicalLaws.CanonicalIsNormal | crates/rgit-objects/src/canonical.rs:150-208 | canonical values are already normal |
| CanonicalLaws.RoundTrip | crates/rgit-objects/src/canonical.rs:139-273 | decoding an encoding gives the normal form of the value |
| Layouts.NormalSaysTheSame | crates/rgit-objects/src/canonical.rs:150-208 | the normal form, at every depth, is the value itself but for the order of entries and the spelling of non-negative numbers |
| CanonicalLaws.DecodeExactly | crates/rgit-objects/src/canonical.rs:256-273 | an input decodes to a value exactly when the value is canonical, fits, and encodes to that input |
| CanonicalLaws.EncodingUnique | crates/rgit-objects/src/canonical.rs:139-208 | values with equal encodings have equal normal forms |
| CanonicalLaws.FitsMonotone | crates/rgit-objects/src/canonical.rs:150-208 | what fits limits fits larger ones |
| CanonicalLaws.KeyOrder | crates/rgit-objects/src/canonical.rs:192-200 | numeric key order is bytewise order of the encoded keys |
| Layouts.HeadBytes | crates/rgit-objects/src/canonical.rs:230-254 | the bytes of a head: major type in the high three bits, then the argument in the shortest of the five forms of section 3.1 of RFC 8949, most significant byte first |
| Layouts.ItemForms | crates/rgit-objects/src/canonical.rs:150-208 | the major type and content of each kind of item, and the single bytes of false, true and null |
| Layouts.MembersFollow | crates/rgit-objects/src/canonical.rs:182-206 | items and entries follow one after another, a key before its value |
| Layouts.FitsExactly | crates/rgit-objects/src/canonical.rs:150-222 | a value fits exactly when every value nested in it at any depth is within the limits of its kind and not too deep |
| Codec.PushHead | crates/rgit-objects/src/canonical.rs:230-254 | appends the shortest head or reports the size limit |
| Codec.EncodeInto | crates/rgit-objects/src/canonical.rs:150-208 | appends exactly the normal form's bytes, or fails exactly when the value does not fit or the buffer would overflow |
| Codec.HasRepeatedKey | crates/rgit-objects/src/canonical.rs:192-196 | on sorted entries, finds a repeated key exactly when there is one |
| Codec.EncodeWithLimits | crates/rgit-objects/src/canonical.rs:144-148 | succeeds exactly on encodable values, with their encoding |
| CanonicalDecoder.Decoder.ReadArgument | crates/rgit-objects/src/canonical.rs:393-433 | equals the functional argument reader and advances past what it used |
| CanonicalDecoder.Decoder.ReadValue | crates/rgit-objects/src/canonical.rs:282-347 | equals the functional decoder and leaves exactly its rest |
| CanonicalDecoder.Decoder.ReadEntries | crates/rgit-objects/src/canonical.rs:320-338 | equals the functional map reader, keys strictly rising |
| CanonicalDecoder.DecodeAndCompare | crates/rgit-objects/src/canonical.rs:256-273 | the final comparison never fails: `NonCanonical` is never returned and an accepted value encodes to exactly the input |
| Identity.PushVarint | crates/rgit-objects/src/id.rs:146-158 | appends the minimal base-128 form |
| Identity.ReadVarintAt | crates/rgit-objects/src/id.rs:159-179 | the shifting loop equals the functional reader, minimality and 64-bit bound included |
| Identity.VarintRoundTrip | crates/rgit-objects/src/id.rs:146-179 | every 64-bit number is read back, whatever follows |
| Identity.VarintSound | crates/rgit-objects/src/id.rs:159-179 | whatever is read was written minimally |
| Identity.IdRoundTrip | crates/rgit-objects/src/id.rs:80-113 | identifiers survive encoding |
| Identity.IdUnique | crates/rgit-objects/src/id.rs:88-113 | every accepted byte string is the encoding of the identifier it gives |
| Layouts.VarintForm | crates/rgit-objects/src/id.rs:146-158 | seven bits a byte, least significant first, the high bit on every byte but the last, no zero byte at the end of a longer form |
| Layouts.IdentifierLayout | crates/rgit-objects/src/id.rs:80-86 | format 0, the multicodec number of the hash, the digest length 32, the digest |
| Identity.PreimageInjective | crates/rgit-objects/src/id.rs:60-66 | the hash preimage determines kind, schema and payload |
| Identity.PreimageLayout | crates/rgit-objects/src/id.rs:60-66 | the preimage is the text RGIT-OBJECT and a zero byte, then the kind, then the schema version, then exactly the payload |
| Identity.PreimageUnique | crates/rgit-objects/src/id.rs:60-66 | nothing else has that layout |
| Identity.RestrictedBy | crates/rgit-objects/src/canonical.rs:86-94 | the greatest limits within both |
| Identity.IdentityIsOverExactBytes | crates/rgit-objects/src/decode.rs:194-314 | for every accepted input and caller limits the identifier exists and is the hash over the domain text, the kind and schema of fields 0 and 1, and the exact input bytes |
| Identity.VerifiedExactly | crates/rgit-objects/src/decode.rs:254-264 | an object is accepted under an identifier exactly when it decodes and the identifier is that hash |
| Layouts.ObjectExactly | crates/rgit-objects/src/decode.rs:194-252 | the decoder accepts exactly canonical encodings, within the limits of caller and kind, of maps that name a registered kind and supported schema in fields 0 and 1 and follow it |
| Identity.KindLimitsSuffice | crates/rgit-objects/src/decode.rs:194-252 | what decodes under any limits decodes alike under its kind's own limits |
| LooseFrame.EncodeFrame | crates/rgit-store/src/loose.rs:569-591 | builds the frame of the record |
| Layouts.FrameLayout | crates/rgit-store/src/loose.rs:569-591 | magic text, version 0, identifier, kind, schema, length, payload, and SHA-256 over the checksum text and everything before it |
| LooseFrame.FrameRoundTrip | crates/rgit-store/src/loose.rs:569-732 | parsing a frame of a valid record returns the record |
| LooseFrame.ParseIsFrame | crates/rgit-store/src/loose.rs:666-732 | any stream that parses is the frame of a valid record |
| LooseFrame.AdmittedIsValid | crates/rgit-store/src/loose.rs:228-245 | what passes the checks of `put` is a valid record |
| LooseFrame.FrameFits | crates/rgit-store/src/loose.rs:27 | no valid record's frame exceeds the absolute maximum |
| LooseStore.LooseFormatIsLawful | crates/rgit-store/src/loose.rs:643-664 | verification accepts exactly complete frames of the identifier |
| LooseStore.EventKeepsSound | crates/rgit-store/src/loose.rs:228-295 | every writer event, crash included, leaves at each final path one complete frame for its identifier and changes none that exists; a put reports a collision exactly when another frame is there, and then raises the incident and sets its own frame aside |
| LooseStore.HistoryKeepsSound | crates/rgit-store/src/loose.rs:228-295 | the same over every interleaving of writers and crashes |
| LooseStore.FinalsAreImmutable | crates/rgit-store/src/loose.rs:458-503 | between any two moments of a history a final path never changes or disappears |
| Graph.Above | src/ancestry.rs:39-48 | the worklist visits exactly the roots and everything reachable from them |
| GraphIndex.ComputeGeneration | crates/rgit-graph/src/reachability.rs:29-36 | zero without parents, otherwise one more than the largest |
| GraphIndex.Release | crates/rgit-graph/src/reachability.rs:127-135 | decrementing the children keeps counts and ready set exact |
| GraphIndex.Sort | crates/rgit-graph/src/reachability.rs:108-136 | an order with parents first and exact generations, after which nothing is ready |
| GraphIndex.CycleMembers | crates/rgit-graph/src/reachability.rs:205-242 | exactly the nodes that lie on some cycle |
| GraphIndex.Build | crates/rgit-graph/src/reachability.rs:69-163 | succeeds exactly for duplicate-free, parent-closed DAGs; each error says what is wrong, a duplicate error names an id that repeats, a cycle error names exactly the nodes on cycles |
| GraphIndex.IsReachable | crates/rgit-graph/src/reachability.rs:172-197 | equals existence of an ancestry path |
| GraphIndex.GenerationIsLongestPath | crates/rgit-graph/src/reachability.rs:113-136 | a generation is the longest path to a root and below the node count |
| DepthFirst.OpenAgainIsCycle | src/ancestry.rs:19-23 | meeting an open node again shows a cycle |
| Ancestry.Explore | src/ancestry.rs:13-34 | a failed walk proves the graph invalid; a finished one extends a parents-first order |
| Ancestry.ValidateGraph | src/ancestry.rs:10-37 | succeeds exactly when the graph is parent-closed, free of duplicate parents and acyclic |
| Ancestry.LoadGraph | src/ancestry.rs:59-68 | loads exactly the ancestors of the roots, or fails exactly when one is missing |
| Ancestry.PostOrder | src/git_bridge.rs:52-67 | each ancestor once, parents before children, head last |
| Ancestry.OrderedHistory | src/git_bridge.rs:40-69 | succeeds exactly on sane ancestry and lists each ancestor of the head once, parents first, head last |
| Ancestry.ExportHistory | src/git_bridge.rs:291-293 | on a parents-first history no parent lookup fails |
| MergeBase.UnparentedIsMaximal | src/ancestry.rs:73-78 | being no direct parent of a common ancestor is being a maximal one |
| MergeBase.RemoveParents | src/ancestry.rs:73-78 | leaves exactly the common ancestors that are no common ancestor's parent |
| MergeBase.BestBases | src/ancestry.rs:70-78 | exactly the maximal common ancestors |
| MergeBase.SingleIsGreatest | src/ancestry.rs:79-84 | a single maximal common ancestor has every common ancestor above it or equal |
| MergeBase.CommonMeansMaximal | src/ancestry.rs:82-86 | the fallback base is taken only when nothing is in common |
| MergeBase.FindMergeBase | src/ancestry.rs:50-87 | the one maximal common ancestor; failure on two or on invalid ancestry; the recorded base when nothing is in common |
| MergeBase.NewHeadIsGood | src/main.rs:1911-1926 | above a new identifier whose parents were good the graph has no missing parent and no cycle, whatever the rest of the graph holds |
| MergeBase.SaneBeforeAndAfter | src/ancestry.rs:59-69 | the ancestry of the new head validates exactly when that of the two merged snapshots did |
| MergeBase.RecordedAncestors | src/main.rs:1911-1926 | after an integration the old head and the incoming snapshot are ancestors of the new head, and the incoming snapshot is the one best base |
| MergeBase.IntegratingAgainIsNoOp | src/main.rs:1866-1879 | searching again on the new repository reports the incoming snapshot as its own base, the early-return case, exactly when the ancestry of the two merged snapshots is sane, and fails otherwise |
| MergeBase.LoadedMaximal | src/ancestry.rs:59-78 | maximal common ancestors of the loaded part are those of the repository |
| MergePlan.ManifestMapExactly | src/main.rs:2920-2925 | the map of a manifest has its paths and, for distinct paths, exactly its entries |
| MergePlan.DecideExactly | src/main.rs:2294-2330 | one-sided and equal changes are taken; a conflict arises exactly when both sides changed differently, is add/add exactly without a base entry and delete/modify exactly when a side has none; the sides may be exchanged |
| MergePlan.FindRoots | src/tree_conflicts.rs:19-28 | exactly the uppermost paths that have another below them |
| MergePlan.LoneIsRootless | src/tree_conflicts.rs:45-48 | a path survives grouping exactly when nothing is above or below it |
| MergePlan.Group | src/tree_conflicts.rs:12-59 | lone paths stay as they were, all others become one file/directory conflict at their uppermost path |
| MergePlan.GroupedIsApart | src/tree_conflicts.rs:12-59 | after grouping no file or conflict path equals or contains another |
| MergePlan.PlanMerge | src/main.rs:2271-2339 | for any three manifests: exact merged files and conflicts, with paths that never nest |
| MergeLaws.OneSideDecides | src/main.rs:2271-2339 | if one side decides every path, the plan is that manifest, without conflict exactly when it has no file/directory collision |
| MergeLaws.TwoAgree | src/main.rs:2294-2321 | if two of three inputs agree the result is the remaining side without conflicts |
| MergeLaws.SidesExchange | src/main.rs:2271-2360 | exchanging line and incoming keeps merged files, conflict paths and kinds |
| Integration.VerifyManifestPaths | src/verify.rs:357-374 | accepts exactly unique safe paths none of which is an ancestor of another |
| Integration.ReplaceConflict | src/resolution.rs:190-233 | files under a conflict's path can replace it without nesting |
| Integration.ResolvedFits | src/resolution.rs:113-188 | whatever the decision, the chosen files stay under the conflict's path and do not collide |
| Integration.ResolvedTreeFits | src/tree_conflicts.rs:61-120 | a side's subtree stays under the root and is a valid manifest |
| Integration.ApplyResolutions | src/resolution.rs:190-233 | fails exactly when some matching resolution fails; otherwise exactly the answered conflicts are replaced by their files, and a plan of separate paths stays one |
| ResolutionLaws.FileMeans | src/resolution.rs:113-188 | a decision about a file gives exactly the chosen side's file there, or none, or the replacement, with hash, length and flags kept and the policy kept unless the sides differ |
| ResolutionLaws.FileRefusedExactly | src/resolution.rs:113-188 | such a decision fails exactly when a source is closed to the actor, or a replacement is missing, at another path, unreadable, unsafe or unverified |
| ResolutionLaws.TreeMeans | src/tree_conflicts.rs:61-120 | a decision about a subtree gives exactly the chosen side's files under the path |
| ResolutionLaws.ClosedTreeIsRefused | src/tree_conflicts.rs:61-120 | a subtree decision fails when it is custom or a source is closed to the actor |
| ResolutionLaws.OpenTreeIsVerified | src/tree_conflicts.rs:61-120 | otherwise it fails exactly when the chosen side's files are no valid manifest or one does not verify |
| ResolutionLaws.DecisionIsTaken | src/resolution.rs:190-233 | with one current accessible record for a conflict, the new plan has at and under its path exactly the files that decision means |
| ResolutionLaws.UnusableRecordFails | src/resolution.rs:204-226 | two current records for one conflict, or one without access or decision, make the integration fail |
| ResolutionLaws.UndecidedStays | src/resolution.rs:190-233 | a conflict without a record stays, and no file appears at its path |
| TextPass.ApplyTexts | src/text_merge.rs:77-136 | fails exactly when a source it has to read fails; otherwise exactly the conflicts that could not be merged within the total are left, exactly the merged ones have their file, exactly their contents are kept under their hashes, separate paths stay separate and the total is bounded |
| TextPass.EligibleExactly | src/text_merge.rs:103-111 | a text merge is tried exactly at a conflict of two modifications whose three plain files of at most 1 MiB differ in content alone, while at most 63 MiB have been merged |
| TextPass.MergedFileIs | src/text_merge.rs:97-131 | a file of the pass is at a conflict for which all three manifests have plain files that differ in content alone; it has the hash and length of the merge of base, line and incoming, in that order, and the rest from the base |
| TextPass.MergedTextIsBounded | src/text_merge.rs:59-60 | the text merge of three blobs never exceeds the file limit, so the total stays within its bound |
| LineIntegration.Integrate | src/main.rs:1880-1905 | the exact plan after each stage; with safe input paths the path check never refuses, only a file's content can; an integrated result passes both checks |
| LineIntegration.OneSidedChangeArrives | src/main.rs:1880-1905 | a file that one side changed or added and the other left alone is integrated as that side has it, whatever becomes of the conflicts |
| LineIntegration.TwoSidedChangeConflicts | src/main.rs:1880-1905 | a path that both sides changed, and not alike, is a conflict and not among the merged files of the plan |
| LineIntegration.VerifyMerged | src/text_merge.rs:140-152 | accepts exactly valid manifests whose files are, where their hash was generated, no links of the generated length, and verify in the repository otherwise |
| LineIntegration.AcceptedExactly | src/text_merge.rs:140-152 | with a collision-free hash, after the text pass over verified files the check accepts exactly when no link among them has the hash of a generated text |
| SharedHash.TouchingDeletionsMerge | src/text_merge.rs:40-58 | two deletions that touch merge to the remaining line |
| SharedHash.LinkIsRefused | src/text_merge.rs:140-152 | an input on which a valid merge is rejected: a link whose target text is also the merged text |
| TextMerge.NeighboursMeanClear | src/text_merge.rs:40-45 | on sorted edits the neighbour check means every pair is clear, and the edits are in order |
| TextMerge.CombinedSymmetric | src/text_merge.rs:36-39 | the combined edits do not depend on the order of the sides |
| TextMerge.CombinedAbsorbs | src/text_merge.rs:36-39 | shared edits count once, an unchanged side adds none |
| TextMerge.Splice | src/text_merge.rs:46-58 | the cursor loop equals applying the edits |
| TextMerge.Merge | src/text_merge.rs:35-60 | returns the combined edits applied, or nothing when a pair is not clear or the result is too large |
| TextMergeLaws.Diamond | src/text_merge.rs:35-60 | a merge is incoming's remaining edits, shifted, applied to line's text |
| TextMergeLaws.DiamondBothWays | src/text_merge.rs:35-60 | the same from the other side, and the merge is symmetric |
| TextMergeLaws.UncontestedIsTheSide | src/text_merge.rs:35-60 | merge(base,x,x), merge(base,base,x) and merge(base,x,base) give x, size permitting |
| TextMergeLaws.RefusedExactly | src/text_merge.rs:40-60 | refused exactly when an edit of one side overlaps a different edit of the other, or touches it while one of them is an insertion, or the result is too large |
| TextMergeLaws.ClearExactly | src/text_merge.rs:40-45 | two edits are clear exactly when no base line is replaced by both and no insertion is inside the other or at its border |
| TextMergeLaws.OneEdit | src/text_merge.rs:46-58 | an edit cuts its lines out and puts its replacement there |
| PortableTree.Insert | crates/rgit-graph/src/tree.rs:21-57 | grows the trie by the path, or reports the path with the first inserted one it collides with, or with one below it |
| PortableTree.HeldIsPortable | crates/rgit-graph/src/tree.rs:17-59 | paths held by a trie have no prefix relation and no two spellings of one sibling |
| PortableTree.FirstPortableCollision | crates/rgit-graph/src/tree.rs:17-59 | none exactly when all paths can coexist; for entries in key order, the earliest entry that collides with an earlier one, paired with the first it collides with |
| PortableTree.PrefixComesFirst | crates/rgit-graph/src/tree.rs:44-55 | in key order nothing comes after a path below it, so the descendant case does not arise |
| FastCdc.FastCdcV0.Push | crates/rgit-objects/src/fastcdc.rs:47-74 | the byte loop equals feeding the specification |
| FastCdc.SegmentsDoNotMatter | crates/rgit-objects/src/fastcdc.rs:30-33 | any split across pushes gives the chunks and state of one push |
| FastCdc.FeedKeepsBytes | crates/rgit-objects/src/fastcdc.rs:47-74 | completed chunks and pending bytes are exactly the input, in order |
| FastCdc.ChunksExactly | crates/rgit-objects/src/fastcdc.rs:47-93 | chunks join to the input; completed ones are within minimum and maximum; the finishing one is nonempty and below the maximum |
| FastCdc.ChunksEnd | crates/rgit-objects/src/fastcdc.rs:47-93 | each chunk ends at its first boundary, from 256 KiB on where the low 21 bits of the rolled sum are zero, from 1 MiB on the low 19, or at 4 MiB; only the last may have none |
| Blobs.SumIsLength | crates/rgit-objects/src/object.rs:286-297 | the checked sum of chunk lengths does not overflow and equals the byte length |
| Blobs.ValidExactly | crates/rgit-objects/src/object.rs:265-308 | a blob is valid exactly when it holds up to 64 KiB inline, or chunks of 1 byte to 4 MiB that add up to its greater length under the one profile |
| Blobs.FromBytes | crates/rgit-objects/src/fastcdc.rs:103-146 | fails exactly when a chunk has no identifier; otherwise a blob that passes validation, inline exactly up to 64 KiB, with the chunks' own identifiers and lengths |
| Blobs.ChunkHasId | crates/rgit-objects/src/object.rs:181-194 | a chunk within the maximum encodes within its limits, so its identifier exists and is the hash over kind 1, schema 0 and that encoding |
| Blobs.ChunkFields | crates/rgit-objects/src/object.rs:181-194 | the fields of an encoded chunk are exactly kind, schema, policy reference and bytes |
| Blobs.BlobOf | crates/rgit-objects/src/fastcdc.rs:103-146 | with the program's own chunk identifiers any bytes have a blob, and it passes validation |

## Left out

- File permissions other than the executable bit, fsync, and the temporary file behind an
  atomic publication: a completed step is durable, and a crash between steps leaves no
  stray temporary.
- The non-Unix branches, names that are not UTF-8, and Windows key rules.
- Linked worktrees: the journal's workspace resolves to one tree.
- Lock files and SQLite: a journal commit is atomic and a lock is exclusive.
- Error kinds: errors that lead to the same effect share one value.
- Case folding of a path is taken name by name.
- Paths are sequences of names instead of slash-separated strings.
- Sorting of merged files, conflicts and listings: the model speaks of members, not order.
- PortableTree.Insert: rebuilds the trie as a value where the source updates it in place;
  when entries are not in key order, the path below may be any child's representative.
- The policies attached to pending conflicts, and access decisions (parameters here).
- The contents of repository blobs: whether a stored file verifies is a parameter.
- The gear table of the chunker is any table; its formula is not part of this model.
- Object schemas, reference extraction, hashes, text tests and the line diff are
  parameters.
- TextPass.ApplyTexts: takes reading and merging of three blobs as one function;
  `MergesText` ties it to the merge of `TextMerge`, and reading blobs is not modelled.
- `usize` is 64 bits wide, and collections fit in memory.
- Store queries `get`, `presence`, `reference`, `generation` and `is_reachable`, and
  `compare_and_swap` (a publication with one update): they would only add easy members.
- `MemoryStore::replace` and `replace_if_revision`, whose callers are elsewhere.
- Git transport and import, command-line parsing, output, worktree and backup handling.
- `crates/rgit-graph/src/merge.rs` and `diff.rs`: the case split of the merge plan again,
  without grouping.
