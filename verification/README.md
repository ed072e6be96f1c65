# Mineral, verified

A Dafny model of Mineral's private backup pipeline and of the code around it, with proofs of what
that code is for. Mineral backs a vault of notes up into a Git repository and its LFS endpoint,
reads vaults from remote namespaces, resolves the references between notes, names published
assets, and schedules its work once a day.

The model follows the program file by file. Code that computes values became datatypes and
functions; code that works by changing things became methods with loops, and classes where the
program keeps state in objects. Every such method is proved equal to a function of its inputs, or
to a step of a state machine, and the theorems are about those functions and machines.

- **Text, Utf8, Order, Encoding, Wrappers**: byte strings, UTF-8 boundaries, splitting, decimal
  and hexadecimal printing, sorting and deduplication, hashed encodings.
- **ContentPath, Snapshot, Delivery, Manifest, Wire, LfsPointer, DeliveryBuild, IdentityCollision**:
  the backup's data path, its three printers with exactly the texts their parsers accept, and its
  hashed identities with exactly the inputs they confuse.
- **Verification, VerificationOutcomes, EndToEnd**: the tree of a backup, `verify_backup` and each
  of its answers, and the whole path from a snapshot to a restored vault.
- **BackupProtocol, BackupExecutor, BackupLanding, BackupOutcomes, BackupSafety**:
  `execute_backup` among other executors, crashes, foreign writers and lost answers; what an
  undisturbed run does, and how every other one ends; and what a backup ref promises, from the
  objects to the restored vault.
- **ReferenceParser, ReferenceSyntax, ReferenceProperties, ReferenceWriting**: the Markdown and wiki
  reference parser, and what its answers mean.
- **ReferenceReading, ReferenceLayout, ReferenceDocuments**: that it misses nothing, at one place, on
  one line and in one document.
- **ReferenceResolver, ReferenceTargets**: from a reference to the file it means.
- **SourceInventory, SourceRefresh, SourceScan, ScannedVault**: listing a remote namespace, reusing
  what was read before, accepting only a namespace that held still, and the way from there to a
  restored vault.
- **Schedules, Scheduler, SchedulerOutcomes, SchedulerHost**: clock arithmetic, the daily slots, how
  each tick ends, and `tick`.
- **AssetKeys, AssetNames**: filenames, content-addressed keys and public URLs of published assets.

Conventions of the model:

- Text is a sequence of UTF-8 bytes, one `char` a byte, so every index and length is the byte
  index or length the program uses. Places where Rust would panic on a slice inside a character
  are calls with a boundary precondition.
- SHA-256 is an arbitrary function `H` into 32-byte digests. Freedom from collisions is a
  hypothesis of the theorems that need it, and only on the finitely many contents concerned.
- Sizes are `u64`. Other integers are unbounded.
- Remote refs, the run store, the LFS endpoint, object databases, blob stores and the scheduler's database are
  values or objects answered by an adversary; what an honest one promises is a named predicate.

## Model

| member | source | states |
|---|---|---|
| `BackupSafety.BackupRefIsRestorable` | crates/mineral-core/src/backup/execute.rs:41-155 | in every interleaving of executors, crashes, resumes, foreign writers and lost swap answers, over an honest endpoint, a ref that names a frozen run's commit names a backup whose every LFS object is present; start and foreign writers are only asked not to break this for this one run |
| `BackupSafety.ReachedRefRestoresTheVault` | crates/mineral-core/src/backup/execute.rs:350-455 | in every world the protocol reaches whose ref names a frozen run's confirmed commit, verifying the ref succeeds with all files and objects, restoring gives back exactly the bytes of the run's vault, and the tree carries the policy's attributes file |
| `BackupSafety.SiblingsShareTheDelivery` | crates/mineral-core/src/backup/run.rs:47-104 | runs that freeze the same commit for one ref freeze the same delivery, so they require the same objects |
| `BackupSafety.TreeFixesDelivery` | crates/mineral-core/src/backup/tree.rs:102-130 | two built deliveries have one tree exactly when they are one delivery, whatever their source ids hold |
| `BackupProtocol.RefStaysRestorable` | crates/mineral-core/src/backup/execute.rs:76-131 | for one run, among any runs whose namesakes agree on its objects: over an honest endpoint, and while nobody else writes its commit too early, no behaviour makes its ref name its commit while an object is missing |
| `BackupLanding.QuietRunBacksUp` | crates/mineral-core/src/backup/execute.rs:76-137 | an undisturbed run over an honest endpoint uploads exactly the objects reported missing, moves its ref and leaves every object present |
| `BackupLanding.ForgetfulEndpointLosesObjects` | crates/mineral-core/src/backup/lfs.rs:101-103 | without the endpoint contract the same run reaches its swap from every start without an upload, and its ref is restorable exactly if every object was there before |
| `BackupLanding.OtherRunIsNotCovered` | crates/mineral-core/src/backup/run.rs:61-92 | another run that claims the same commit name is restorable afterwards exactly if its own objects were there, or the object database shows the commit is not the one it describes |
| `BackupOutcomes.LandedRunIsConfirmed` | crates/mineral-core/src/backup/execute.rs:77-87 | from every world whose ref already names the frozen commit, the run ends as already backed up exactly if the endpoint reports nothing missing, and with the objects it reports otherwise; no object is uploaded and no ref moved |
| `BackupOutcomes.DivergedRunStops` | crates/mineral-core/src/backup/execute.rs:88-95 | from every world whose ref names neither base nor frozen commit, the run ends reporting the base and what the ref holds, and changes nothing |
| `BackupOutcomes.OtherCommitIsRefused` | crates/mineral-core/src/backup/execute.rs:165-177 | a commit of the frozen name with another parent or tree ends the run with that mismatch, and nothing changes |
| `BackupOutcomes.WrongRebuildIsRefused` | crates/mineral-core/src/backup/execute.rs:180-199 | a missing commit whose rebuilt tree or commit is another one ends the run with that mismatch, expected and actual, and no ref moves |
| `BackupOutcomes.RebuiltRunBacksUp` | crates/mineral-core/src/backup/execute.rs:180-201 | a missing commit that is rebuilt as it was frozen lets the run land: objects uploaded, ref moved, commit recreated with the frozen parent and tree |
| `BackupOutcomes.FailedUploadStops` | crates/mineral-core/src/backup/execute.rs:104-118 | the upload that cannot be done ends the run, naming its object when the bytes are missing, with the objects before it uploaded and no ref moved |
| `BackupOutcomes.IncompleteGateStops` | crates/mineral-core/src/backup/execute.rs:120-121 | after all uploads the run still ends with whatever the endpoint reports missing, and the ref does not move |
| `BackupOutcomes.LandedSwapAnsweredRejected` | crates/mineral-core/src/backup/execute.rs:138-147 | a swap that landed and was answered as rejected ends as already backed up, by the fresh observation |
| `BackupOutcomes.LostRaceIsReported` | crates/mineral-core/src/backup/execute.rs:138-154 | a writer between gate and swap keeps what it wrote, and the run ends reporting the base and that, or as already backed up if it is the frozen commit |
| `BackupOutcomes.LostAnswerIsRecovered` | crates/mineral-core/src/backup/execute.rs:130-133 | when the answer to a landed swap is lost the run ends with the failure of the remote, and the next one finds the commit on the ref and confirms it |
| `BackupOutcomes.PortFailureStops` | crates/mineral-core/src/backup/execute.rs:72-154 | at every point of an execution a failing port ends it with that port named, and changes nothing else |
| `BackupProtocol.OutcomeIsTrue` | crates/mineral-core/src/backup/execute.rs:76-154 | from every world, a ref that already names the commit with objects missing included: a success is only returned for a ref seen or set at the desired commit, with all objects held, and on a backed-up run uploads and already-present objects partition the required ones; the part about refs and commits needs nothing of the endpoint |
| `BackupProtocol.SwapsAreExact` | crates/mineral-core/src/backup/execute.rs:123-131 | from every world and under any endpoint, every swap that ever lands goes from exactly the frozen base to exactly the frozen commit, which is another one |
| `BackupProtocol.AtMostOneSwap` | crates/mineral-core/src/backup/execute.rs:123-154 | from every world and under any endpoint: unless somebody rewinds the ref to its base, at most one swap of a run lands, however many executors race or resume |
| `BackupProtocol.ActRefs` | crates/mineral-core/src/backup/execute.rs:98-131 | an executor changes a ref only by moving its own target from base to desired, with the commit confirmed and, over an honest endpoint, all objects held |
| `BackupProtocol.StepKeeps` | crates/mineral-core/src/backup/execute.rs:57-155 | every step of every party keeps the protocol invariant, its part about refs and commits for any set of runs and any endpoint, its part about objects while the endpoint keeps its contract |
| `BackupProtocol.AskPhase` | crates/mineral-core/src/backup/execute.rs:204-220 | the gate passes only when what the next phase relies on, every object held, is true |
| `BackupExecutor.ExecuteBackup` | crates/mineral-core/src/backup/execute.rs:57-155 | whatever the ports answer, the run store included, and whoever interferes, the call performs only steps of the machine and returns what its executor finished with, or that the run could not be had; every error is an answer some port gave or what the commit database shows, never the executor's own |
| `BackupExecutor.Ports.GetRun` | crates/mineral-core/src/backup/execute.rs:72-74 | the run store gives the stored run, none, or an error, and an executor exists only once it has its run |
| `BackupExecutor.SwapRef` | crates/mineral-core/src/backup/execute.rs:123-154 | the last step ends where the swap or the fresh observation after a rejected one says |
| `BackupExecutor.EnsureCommit` | crates/mineral-core/src/backup/execute.rs:159-201 | succeeds only at the point where the frozen commit exists with the frozen parent and tree, and fails only with the answer that stopped it: the commit's other facts, another tree, another commit, or a failed port |
| `BackupExecutor.RequireLfsComplete` | crates/mineral-core/src/backup/execute.rs:204-220 | lets the run go on to its swap, or report it landed, exactly when an answer of the endpoint misses nothing, and otherwise fails with what that answer misses |
| `BackupExecutor.UploadMissing` | crates/mineral-core/src/backup/execute.rs:104-118 | uploads exactly the missing objects in order, or stops with the first failure |
| `BackupExecutor.SafeExecution` | crates/mineral-core/src/backup/execute.rs:41-155 | run against any ports from any world no executor touched, what the code did is a behaviour of the machine, a reported success is true, of the objects too when the endpoint kept its contract, and every restorable run nobody planted stays restorable |
| `LfsPointers.CompleteMeansHeld` | crates/mineral-core/src/backup/lfs.rs:101-108 | an answer that accounts for every object asked about and misses none proves that all are held |
| `LfsPointers.ForgetfulAnswerLooksComplete` | crates/mineral-core/src/backup/lfs.rs:101-103 | whatever an endpoint claims to be present, an answer that forgets an object asked about passes the test of completeness, and no endpoint can give it under the contract |
| `LfsPointers.EvidenceExact` | crates/mineral-core/src/backup/lfs.rs:75-108 | the true claims of presence in an answer prove that everything asked about is held, for every state of the endpoint, exactly when every object asked about is among them |
| `LfsPointers.ObjectOrder` | crates/mineral-core/src/backup/lfs.rs:19-26 | objects order by digest and then size, totally and without ties |
| `LfsPointers.CanonicalObjects` | crates/mineral-core/src/backup/delivery.rs:149-197 | sorting and deduplicating leaves a strictly ordered list of exactly the objects given |
| `LfsPointers.Parse` | crates/mineral-core/src/backup/lfs.rs:188-226 | the line by line parser, digest buffer included, returns the value `PointerExact` is about |
| `LfsPointers.PointerExact` | crates/mineral-core/src/backup/lfs.rs:162-226 | a text is accepted with a result exactly when it is the printed pointer of that result up to the spelling of its size |
| `LfsPointers.PointerRefusal` | crates/mineral-core/src/backup/lfs.rs:188-201 | a pointer is refused as not text exactly when it is not, and as of an unknown version exactly when its first line names another one |
| `LfsPointers.PointerRoundTrip` | crates/mineral-core/src/backup/lfs.rs:162-226 | a built pointer parses to its digest and size, for every digest and size |
| `LfsPointers.PointerInjective` | crates/mineral-core/src/backup/lfs.rs:162-165 | different objects have different pointers |
| `Snapshots.TakeSnapshot` | crates/mineral-core/src/domain/snapshot.rs:128-146 | the scan over a set of seen paths finds a repeated path exactly when sorted neighbours repeat, and reports that path |
| `Snapshots.NewSnapshotExact` | crates/mineral-core/src/domain/snapshot.rs:128-146 | a snapshot is refused exactly for a repeated path, and names the least one; otherwise it holds every file once, in path order |
| `Snapshots.ProjectionFaithful` | crates/mineral-core/src/backup/projection.rs:66-102 | the projection of a snapshot fails exactly for a control character in a path, and names such a path; otherwise it keeps ids and every file, under the hash of their encoding |
| `Snapshots.ProjectionIdentity` | crates/mineral-core/src/backup/projection.rs:152-168 | the hasher loop hashes exactly the length-prefixed encoding |
| `Snapshots.ProjectionIdentityInjective` | crates/mineral-core/src/backup/projection.rs:152-168 | two projections hash the same bytes only when snapshot id and files agree |
| `ContentPaths.New` | crates/mineral-core/src/domain/content_path.rs:11-31 | accepts exactly the canonical relative paths, unchanged |
| `ContentPaths.TreePathDisjoint` | crates/mineral-core/src/backup/projection.rs:146-149 | shifting paths under the vault root is injective and never meets the two metadata files |
| `Deliveries.FromPartsExact` | crates/mineral-core/src/backup/delivery.rs:149-197 | assembling fails exactly for a repeated path, naming the least, or else one digest with two sizes, naming it; otherwise it keeps ids, digests, files and objects, in canonical order under the recomputed identity |
| `Deliveries.FromPartsIdentity` | crates/mineral-core/src/backup/delivery.rs:149-197 | taking a well-formed delivery apart and assembling it again changes nothing |
| `Deliveries.ConflictExact` | crates/mineral-core/src/backup/delivery.rs:149-197 | the neighbour test after sorting finds a conflict exactly when some digest has two sizes |
| `Deliveries.Identity` | crates/mineral-core/src/backup/delivery.rs:305-335 | the hasher loops hash exactly the identity encoding |
| `Deliveries.PreimageExact` | crates/mineral-core/src/backup/delivery.rs:305-335 | two deliveries with any object lists hash the same bytes exactly when they agree before the files and the object records of one spell the further files of the other and then its objects |
| `Deliveries.SameDeliveryIdentity` | crates/mineral-core/src/backup/delivery.rs:149-197 | two assembled deliveries share an identity exactly then, unless the hash collides on the two encodings |
| `Deliveries.RecordsExact` | crates/mineral-core/src/backup/delivery.rs:320-333 | two lists of file records and what follows them are the same bytes exactly when one list continues the other with what follows the shorter one |
| `Deliveries.PreimageInjective` | crates/mineral-core/src/backup/delivery.rs:305-335 | the identity encoding determines snapshot id, projection, metadata and files although nothing separates files from objects, for every delivery whose objects are those of its files |
| `Deliveries.FilesCut` | crates/mineral-core/src/backup/delivery.rs:320-333 | a file list that ends early cannot be completed by the object records, because more files never need fewer objects |
| `IdentityCollisions.IdentityCollision` | crates/mineral-core/src/backup/delivery.rs:149-197 | assembling accepts two deliveries with different files and one identity when the object list is not that of the files |
| `DeliveryBuild.BuildDelivery` | crates/mineral-core/src/backup/delivery.rs:248-303 | the build returns the delivery `BuildExact`, `BuiltHeader` and `BuiltFiles` are about, and adds to the store exactly the pointers, the attributes and the manifest |
| `DeliveryBuild.ChooseAll` | crates/mineral-core/src/backup/delivery.rs:253-280 | one file for each projected file in order, one required object and one stored pointer for each LFS file |
| `DeliveryBuild.BuiltIsCanonical` | crates/mineral-core/src/backup/delivery.rs:248-303 | a built delivery is well-formed, keeps the file order and carries exactly the canonical objects of its files |
| `DeliveryBuild.BuiltHeader` | crates/mineral-core/src/backup/delivery.rs:282-303 | a built delivery carries the ids of its projection, the digest of the rendered manifest and the digest of the policy's attributes file |
| `DeliveryBuild.BuiltFiles` | crates/mineral-core/src/backup/delivery.rs:253-280 | each file is stored as the policy chose: as its own blob, or as the blob of the pointer to it |
| `EndToEnd.BuildExact` | crates/mineral-core/src/backup/delivery.rs:248-303 | a projection becomes a delivery exactly when every path can be written and no two LFS files claim one digest with two sizes, and the error names such a path or digest |
| `Manifests.Render` | crates/mineral-core/src/backup/delivery.rs:342-368 | the text grown line by line, or the first path that cannot be written, is what `ManifestRoundTrip` is about |
| `Manifests.Parse` | crates/mineral-core/src/backup/delivery.rs:424-475 | the one-pass parser returns what `ManifestRoundTrip` is about, error cases included |
| `Manifests.ManifestExact` | crates/mineral-core/src/backup/delivery.rs:424-497 | a text is accepted with a manifest exactly when it is the header, one line an entry and then nothing or an empty line and anything, with numbers spelled as the number parser allows |
| `Manifests.ManifestTextInjective` | crates/mineral-core/src/backup/delivery.rs:342-368 | different manifests render to different texts, for every source id, those with newlines included |
| `Manifests.ManifestRoundTrip` | crates/mineral-core/src/backup/delivery.rs:342-475 | rendering fails exactly for a control character in a path, and names such a path; what is rendered parses back to the same ids and entries if and only if the source id has no newline |
| `Manifests.ManifestRefusal` | crates/mineral-core/src/backup/delivery.rs:424-475 | a manifest is refused for its version exactly when its first line is another one, and for anything else as damaged |
| `Manifests.ParsedSourceId` | crates/mineral-core/src/backup/delivery.rs:435-436 | no parsed manifest has a newline in its source id |
| `DeliveryWire.Encode` | crates/mineral-core/src/backup/wire.rs:22-62 | the text pushed line by line is the encoding `WireRoundTrip` is about |
| `DeliveryWire.Decode` | crates/mineral-core/src/backup/wire.rs:64-134 | the loop over lines and fields decodes, or fails, as the function `WireRoundTrip` is about |
| `DeliveryWire.WireRoundTrip` | crates/mineral-core/src/backup/wire.rs:22-134 | a delivery is read back unchanged, order, deduplication and identity included, if and only if source id and paths have no newline and no Git-stored path has a space |
| `DeliveryWire.WireReadsCut` | crates/mineral-core/src/backup/wire.rs:64-134 | a stored delivery without newlines is read back exactly when each Git-stored path is still a path once cut at its first space and the cut paths differ; it comes back with those paths in order and a recomputed identity, and otherwise as damage or as a repeated path |
| `DeliveryWire.SpaceTruncates` | crates/mineral-core/src/backup/wire.rs:90-100 | one Git record whose path is cut at a space onto another path is read without an error |
| `DeliveryWire.WireExact` | crates/mineral-core/src/backup/wire.rs:64-134 | a text is accepted with a delivery exactly when it is the header and then records and empty lines that assemble to it |
| `DeliveryWire.ItemExact` | crates/mineral-core/src/backup/wire.rs:84-125 | a record line is accepted with an item exactly when it is one way to write that item, surplus fields included |
| `DeliveryWire.WireRefusal` | crates/mineral-core/src/backup/wire.rs:64-134 | a stored text is refused for its version exactly when its first line is another one, and a delivery only for what its parts are |
| `DeliveryWire.DecodedIsStorable` | crates/mineral-core/src/backup/wire.rs:64-134 | whatever is decoded is well-formed and can be written again |
| `Text.ParseSha256` | crates/mineral-core/src/backup/wire.rs:147-162 | filling the buffer two digits at a time yields the digest the text names, and fails exactly when the text is not 64 lowercase digits |
| `Text.DigestRoundTrip` | crates/mineral-core/src/domain/snapshot.rs:63-69 | a printed digest parses back to itself |
| `Text.DigestCanonical` | crates/mineral-core/src/backup/delivery.rs:483-497 | every accepted digest text is the printed form of its value |
| `Text.NumberExact` | crates/mineral-core/src/backup/lfs.rs:213-220 | a number is accepted exactly if it is a plus sign or none, any zeros and the decimal digits of a value that fits into 64 bits |
| `Verification.TreeIsDistinct` | crates/mineral-core/src/backup/tree.rs:82-130 | the tree of a delivery has `len()` entries at as many different paths |
| `Verification.VerifyBackup` | crates/mineral-core/src/backup/execute.rs:350-455 | the walk over the entries answers, with the same error in each case, as the function all the theorems on verification are about |
| `Verification.VerificationIsSound` | crates/mineral-core/src/backup/execute.rs:381-448 | a verified commit holds exactly the shifted manifest paths and the metadata files, and every entry restores to bytes of its digest and size |
| `Verification.VerifiedVaultsAgree` | crates/mineral-core/src/backup/execute.rs:350-455 | two verified commits with equal entries restore equal vaults, whatever their trees and endpoints |
| `Verification.CheckedRestores` | crates/mineral-core/src/backup/delivery.rs:538-549 | an entry that passed its check, pointer or bytes, restores to its digest and size |
| `VerificationOutcomes.AskedCommitIsVerified` | crates/mineral-core/src/backup/execute.rs:365-375 | an asked commit is the one read and reported, whatever the ref holds; without one the ref's commit is verified as if it had been asked for, and only with neither there is nothing to verify |
| `VerificationOutcomes.ManifestProblem` | crates/mineral-core/src/backup/execute.rs:377-383 | a commit without a manifest is reported as such exactly, and one whose manifest does not parse with the parser's error |
| `VerificationOutcomes.PathMismatchExact` | crates/mineral-core/src/backup/execute.rs:385-410 | a tree with other paths is refused; missing are exactly the expected paths the commit does not hold, and unexpected exactly the paths it holds that are not expected |
| `VerificationOutcomes.EntryProblemExact` | crates/mineral-core/src/backup/execute.rs:412-436 | the first entry the commit does not bear out is the one the error is about, and the error, missing, different or with a wrong pointer, is true of it |
| `VerificationOutcomes.EndpointDecides` | crates/mineral-core/src/backup/execute.rs:438-454 | when paths and entries hold, the endpoint is asked for exactly the distinct objects of the LFS entries in order, and the commit verifies with those counts, or is refused with what the endpoint misses |
| `VerificationOutcomes.VerifiesExactly` | crates/mineral-core/src/backup/execute.rs:350-455 | a commit with a manifest verifies exactly when its paths are the expected ones, every entry is borne out, and the endpoint misses none of the entries' objects |
| `EndToEnd.PipelineSucceeds` | crates/mineral-core/src/backup/projection.rs:66-102 | projection and delivery succeed for every snapshot with writable paths and one size for each digest |
| `EndToEnd.BuiltStoreServes` | crates/mineral-core/src/backup/delivery.rs:253-303 | a store that held the source bytes of the Git files holds, after the build, every blob the backup's tree names |
| `EndToEnd.BackupRestoresTheVault` | crates/mineral-core/src/backup/execute.rs:350-455 | from the store the build left, a backed-up vault verifies with all its files and all its distinct LFS objects, restoring it gives back exactly the bytes at every path, and its attributes file is the policy's |
| `EndToEnd.MetadataReads` | crates/mineral-core/src/backup/tree.rs:102-130 | the two metadata files of a checked-out tree hold the rendered manifest and the policy's attributes |
| `EndToEnd.ManifestOfBuilt` | crates/mineral-core/src/backup/delivery.rs:285-292 | the stored manifest of a built delivery parses to exactly that delivery's entries |
| `EndToEnd.CheckoutReads` | crates/mineral-core/src/backup/tree.rs:102-130 | checking the tree out gives every path its bytes or the pointer to them |
| `ReferenceParser.Parse` | crates/mineral-core/src/content/reference.rs:53-78 | the loop over lines with its fence and offset returns what the document theorems, `EveryTextLineIsRead` first, are about, for every valid document, without slicing inside a character |
| `ReferenceParser.ParseLine` | crates/mineral-core/src/content/reference.rs:80-145 | the loop over bytes pushes exactly the line's references, the ones `LineExact` determines, moved to the line's offset |
| `ReferenceParser.ScanOnce` | crates/mineral-core/src/content/reference.rs:86-144 | one round always moves on, stands on a character boundary whenever no code span is open, and leaves exactly the rest of the line's references to be found |
| `ReferenceParser.ParseContent` | crates/mineral-core/src/content/reference.rs:56-77 | a line contributes references only outside fences and indented code, and leaves the fence its text demands |
| `ReferenceParser.FenceIndentIsBoundary` | crates/mineral-core/src/content/reference.rs:166-174 | cutting the indent before a fence never cuts a character of a valid line |
| `ReferenceProperties.SpansAreGood` | crates/mineral-core/src/content/reference.rs:53-246 | in every valid document the spans are in bounds, on characters, ordered, disjoint, within one line, and spelled as their kind and target say |
| `ReferenceProperties.ParsingIsCompositional` | crates/mineral-core/src/content/reference.rs:53-78 | cutting a document after a newline outside fences parses the parts independently, the second shifted by the length of the first |
| `ReferenceProperties.LineEndingsDoNotMatter` | crates/mineral-core/src/content/reference.rs:53-78 | with `\r\n` for `\n` every kind and target stays and every span moves by the number of line breaks before it |
| `ReferenceProperties.FencedLinesAreSilent` | crates/mineral-core/src/content/reference.rs:61-66 | nothing inside an open fence is a reference |
| `ReferenceProperties.CodeSpanIsSilent` | crates/mineral-core/src/content/reference.rs:107-110 | nothing inside a code span is a reference, up to the next backtick |
| `ReferenceProperties.LinesArePlaced` | crates/mineral-core/src/content/reference.rs:56-77 | the running offset is where each line stands in the document |
| `ReferenceSyntax.FoundIsSpelled` | crates/mineral-core/src/content/reference.rs:186-246 | each syntax only finds text that is written in that syntax with that target |
| `ReferenceSyntax.WikiRoundTrip` | crates/mineral-core/src/content/reference.rs:186-203 | a written wiki link or embed, with or without an alias, is parsed back as exactly its kind, target and span, unless something inside closes it |
| `ReferenceSyntax.LinkRoundTrip` | crates/mineral-core/src/content/reference.rs:205-229 | a written Markdown link or image is parsed back as exactly its kind, target and span, unless caption and target together read as a wiki reference |
| `ReferenceWriting.WikiRoundTripExact` | crates/mineral-core/src/content/reference.rs:186-203 | a written wiki link or embed comes back whole if and only if nothing inside it closes it early, single brackets notwithstanding |
| `ReferenceWriting.LinkRoundTripExact` | crates/mineral-core/src/content/reference.rs:205-229 | a written Markdown link or image comes back whole if and only if its caption and target together do not read as a wiki reference |
| `ReferenceSyntax.UrlKeepsScheme` | crates/mineral-core/src/content/reference.rs:231-246 | trimming a bare URL never cuts into its scheme |
| `ReferenceReading.FoundExact` | crates/mineral-core/src/content/reference.rs:112-138 | at every place where the parser looks, it finds a reference exactly if one is spelled there: a wiki reference first, else a Markdown one, or a URL as far as it goes without its trailing punctuation |
| `ReferenceReading.NothingFoundExact` | crates/mineral-core/src/content/reference.rs:112-138 | it finds none exactly if no reference of any syntax is spelled there |
| `ReferenceReading.UrlStopExact` | crates/mineral-core/src/content/reference.rs:231-246 | a bare URL ends exactly at the first white space, quote or angle bracket after it, less the punctuation at its end |
| `ReferenceLayout.LaidIsRead` | crates/mineral-core/src/content/reference.rs:80-145 | any line laid out as prose, escapes, backtick runs and written references is read as exactly those references, with their spans, in order |
| `ReferenceLayout.EveryLineIsLaid` | crates/mineral-core/src/content/reference.rs:80-145 | every line is laid out in that way |
| `ReferenceLayout.LineExact` | crates/mineral-core/src/content/reference.rs:80-145 | completeness: the references of a line are exactly those written in it outside code spans and escapes and not inside one another, in order, with their spans |
| `ReferenceDocuments.FenceOpenExact` | crates/mineral-core/src/content/reference.rs:148-174 | a line opens a fence exactly if it is at most three spaces, then a whole run of three or more backticks or tildes, and, for backticks, no other backtick |
| `ReferenceDocuments.FenceCloseExact` | crates/mineral-core/src/content/reference.rs:158-174 | a line closes a fence exactly if it is at most three spaces, then a run of the same marker that is as long or longer, and then white space only |
| `ReferenceDocuments.TextExact` | crates/mineral-core/src/content/reference.rs:56-77 | outside a fence a line is text exactly if it neither opens one nor starts with a tab or four spaces |
| `ReferenceDocuments.EveryTextLineIsRead` | crates/mineral-core/src/content/reference.rs:53-78 | in any document a line of text contributes exactly its written references, moved to where it stands, between those before it and those after it |
| `ReferenceDocuments.IndentedLineIsSilent` | crates/mineral-core/src/content/reference.rs:175-177 | a line that starts with a tab or four spaces holds no reference and opens no fence |
| `ReferenceDocuments.FencedBlockIsSkipped` | crates/mineral-core/src/content/reference.rs:53-78 | from the line that opens a fence to the first that closes it nothing is a reference, and after it parsing starts anew |
| `ReferenceDocuments.SpacedNotesAreRead` | crates/mineral-core/src/content/reference.rs:80-145 | any number of wiki links with spaces between them come back one by one, each with its target and span |
| `ReferenceResolver.NormalizeRelative` | crates/mineral-core/src/content/reference_resolver.rs:250-277 | the stack of parts lands where the recursive directory walk does, with the same refusals |
| `ReferenceResolver.EscapeExact` | crates/mineral-core/src/content/reference_resolver.rs:250-277 | an escape is reported exactly when some prefix leads below the content root before any empty part |
| `ReferenceResolver.RootRelativeIsIdentity` | crates/mineral-core/src/content/reference_resolver.rs:250-277 | one `../` for each directory of the source, followed by a path, is that path |
| `ReferenceResolver.ChildIsAppended` | crates/mineral-core/src/content/reference_resolver.rs:250-277 | a plain path is appended to the source's directory, and is canonical again |
| `ReferenceResolver.DotPrefix` | crates/mineral-core/src/content/reference_resolver.rs:254-276 | a leading `./` changes the answer for a target exactly when the target has a drive prefix, no backslash or NUL, and a walk that lands or escapes; without it every target with a drive prefix is refused |
| `ReferenceResolver.DotHidesDrive` | crates/mineral-core/src/content/reference_resolver.rs:254-276 | for every source and every drive-prefixed target made of names: after `./` it is that path below the source's directory, or refused when the source is in the content root |
| `ReferenceResolver.ResolutionsAreHonest` | crates/mineral-core/src/content/reference_resolver.rs:73-97 | every resolution names files of the snapshot, typed by their names, ambiguity means at least two of them in order, and images never resolve to notes |
| `ReferenceResolver.CandidatesDecide` | crates/mineral-core/src/content/reference_resolver.rs:209-226 | missing, resolved or ambiguous exactly as no, one or several files match, and ambiguity lists all of them |
| `ReferenceResolver.WikiNameDecides` | crates/mineral-core/src/content/reference_resolver.rs:99-126 | a wiki link by name means the one note of that file name, all of them, or none |
| `ReferenceResolver.WikiEmbedDecides` | crates/mineral-core/src/content/reference_resolver.rs:128-168 | an embed means the file it names or, without an extension, the note of that name, by path or by name |
| `ReferenceResolver.RelativeLinkResolves` | crates/mineral-core/src/content/reference_resolver.rs:170-192 | every file can be linked from every file by the relative spelling of its path |
| `ReferenceTargets.ExternalExact` | crates/mineral-core/src/content/reference_resolver.rs:73-84 | a reference is external exactly if it is a bare URL or its target has a web scheme |
| `ReferenceTargets.FragmentMeansSource` | crates/mineral-core/src/content/reference_resolver.rs:99-103 | a target that is only a fragment means the file it stands in, for an image only if that is not a note; an embed of it is invalid |
| `ReferenceTargets.WikiPathDecides` | crates/mineral-core/src/content/reference_resolver.rs:105-116 | a wiki link with a path means exactly the note at that path, with or without its `.md`, is missing without it, and is invalid for a path that is not canonical |
| `ReferenceTargets.EmbedInvalidExact` | crates/mineral-core/src/content/reference_resolver.rs:128-149 | an embed is invalid exactly without a file part or with a path that is not canonical |
| `ReferenceTargets.MarkdownDecides` | crates/mineral-core/src/content/reference_resolver.rs:170-207 | a Markdown target means the file its directory walk lands on; a link takes any file of the snapshot, an image only what is not a note, and a walk that fails says why |
| `ReferenceTargets.DetourCancels` | crates/mineral-core/src/content/reference_resolver.rs:250-277 | going into a directory and back out of it changes nothing |
| `SourceInventories.NewInventoryExact` | crates/mineral-core/src/source/inventory.rs:63-77 | a listing is refused exactly for a repeated path, naming the least, and otherwise keeps source and every entry once, in order |
| `SourceInventories.ListingOrderDoesNotMatter` | crates/mineral-core/src/source/inventory.rs:63-77 | the order in which a remote lists its objects does not reach the inventory |
| `SourceInventories.InventoryIdentity` | crates/mineral-core/src/source/inventory.rs:99-120 | the hasher loop hashes exactly the length-prefixed encoding |
| `SourceInventories.InventoryIdentityInjective` | crates/mineral-core/src/source/inventory.rs:99-120 | the encoding determines source, paths, revisions and sizes |
| `SourceInventories.SameIdentity` | crates/mineral-core/src/source/inventory.rs:99-120 | identities agree exactly when the inventories do, unless the hash collides on these two encodings |
| `SourceRefresh.PlanSourceRefresh` | crates/mineral-core/src/source/refresh.rs:174-232 | the loop returns the step of every entry in order, or the error of the first entry that has one |
| `SourceRefresh.StepsMatchEntries` | crates/mineral-core/src/source/refresh.rs:174-232 | nothing is skipped, added or reordered between inventory and plan |
| `SourceRefresh.PlanExists` | crates/mineral-core/src/source/refresh.rs:184-227 | a plan exists exactly when every entry's facts were answered about its own key and consistently |
| `SourceRefresh.StepExact` | crates/mineral-core/src/source/refresh.rs:184-227 | an entry is reused exactly if a fact binds its very revision and a blob of the bound size is stored, fetched exactly if nothing is bound or the blob is gone, and otherwise refused with an error that is true of it |
| `SourceRefresh.FirstRefusal` | crates/mineral-core/src/source/refresh.rs:174-232 | a plan is refused for its first refused entry |
| `SourceRefresh.CountersExact` | crates/mineral-core/src/source/refresh.rs:141-164 | each counter counts its own kind: reused the reusable entries, to-fetch the others, and the fetch paths are exactly those of the others, in order |
| `SourceRefresh.HonestStep` | crates/mineral-core/src/source/refresh.rs:184-227 | with honest facts an entry is reused exactly when it is bound and its bytes are still stored, and is fetched otherwise |
| `SourceRefresh.CountersPartition` | crates/mineral-core/src/source/refresh.rs:141-164 | reused and to-fetch partition the inventory |
| `SourceRefresh.RefreshRefinesFetching` | crates/mineral-core/src/source/refresh.rs:141-232 | carrying out the plan proves exactly the facts a full fetch would, leaves the bytes of every fact stored, and drops nothing |
| `SourceRefresh.CacheStaysHonest` | crates/mineral-core/src/source/refresh.rs:85-94 | refreshes carried out to any step and recorded, with losses of blobs and bindings between them, leave every binding and every stored blob true |
| `SourceRefresh.EveryRefreshRefinesFetching` | crates/mineral-core/src/source/refresh.rs:141-232 | so after any such history the next refresh still proves exactly the facts of a full fetch |
| `SourceScan.NewMaterializationSetExact` | crates/mineral-core/src/source/scan.rs:73-86 | a fact set is refused exactly for a path materialized twice, naming the least |
| `SourceScan.Get` | crates/mineral-core/src/source/scan.rs:100-105 | binary search finds the fact for a path whenever there is one |
| `SourceScan.ValidateMaterialization` | crates/mineral-core/src/source/scan.rs:214-241 | the two passes report the problem `ValidationExact` is about, in the same order |
| `SourceScan.ValidationExact` | crates/mineral-core/src/source/scan.rs:214-241 | validation accepts exactly the facts that equal the listing path by path and size by size |
| `SourceScan.StabilizeScan` | crates/mineral-core/src/source/scan.rs:189-212 | the retry loop answers with the first attempt that saw no change, or with the number of attempts that all saw one |
| `SourceScan.StableMeansUnchanged` | crates/mineral-core/src/source/scan.rs:189-212 | a scan that succeeds saw the same listing before and after materializing, and returns it fact for fact |
| `SourceScan.UnstableExact` | crates/mineral-core/src/source/scan.rs:189-212 | instability is reported exactly when each of the budgeted attempts saw a change |
| `SourceScan.QuietExact` | crates/mineral-core/src/source/scan.rs:192-200 | an attempt counts as changed exactly when its two listings differ, unless the hash collides on them |
| `SourceScan.ScanAnswer` | crates/mineral-core/src/source/scan.rs:189-241 | the first attempt that failed or saw no change decides: its failure is passed on, facts that do not match the listing are refused with an error that is true of them, and anything else is returned as it was seen |
| `SourceScan.NoFileIsLost` | crates/mineral-core/src/source/scan.rs:154-174 | the snapshot of a stable scan cannot report a duplicate and holds every listed path with the size and digest of the fact materialized for it |
| `SourceScan.HonestScanIsAccepted` | crates/mineral-core/src/source/scan.rs:20-34 | facts from an honest refresh are refused only when a reported size is not the size of the bytes served |
| `ScannedVault.SnapshotDescribesRemote` | crates/mineral-core/src/source/scan.rs:154-174 | with facts an honest refresh proved, the snapshot holds every listed path with the size and digest of the bytes the remote serves |
| `ScannedVault.RemoteIsRestored` | crates/mineral-core/src/source/scan.rs:129-174 | the whole way: what was listed, refreshed, scanned and backed up verifies and restores exactly what the remote served |
| `Schedules.MinuteExact` | crates/mineral-host/src/service.rs:54-65 | exactly the 1440 clock times are accepted, each as the minute it shows |
| `Schedules.Validate` | crates/mineral-host/src/service.rs:82-91 | accepts exactly the two kinds, a clock time and an offset from -720 to 840 |
| `Schedules.SlotWindow` | crates/mineral-host/src/service.rs:92-96 | a day's slot is open exactly from its time of day to local midnight |
| `Schedules.NoSlotOpensUnseen` | crates/mineral-host/src/service.rs:92-104 | the next opening is ahead by at most a day, is the first millisecond of its slot, and no other slot opens before it |
| `Scheduler.StartedAtMostOnce` | crates/mineral-host/src/service.rs:312-342 | over every run of ticks, edits, failing store calls, crashes and reopenings each kind starts at most once a day, no tick starts twice, and never do two operations run at once |
| `Scheduler.StepKeeps` | crates/mineral-host/src/service.rs:111-178 | every step of every party keeps claims, starts and the running operation consistent |
| `Scheduler.SettledForGood` | crates/mineral-host/src/service.rs:120-127 | a taken slot nobody works on is never started again, crash or no crash |
| `Scheduler.CrashSettles` | crates/mineral-host/src/service.rs:312-313 | after a crash every taken slot is of that kind: an uncertain dispatch is never retried |
| `Scheduler.FailedStartReleases` | crates/mineral-host/src/service.rs:333-337 | a failed start leaves the day claimable exactly when the release took effect |
| `Scheduler.QuietTickStartsFirstDue` | crates/mineral-host/src/service.rs:314-342 | a tick that meets no failure and no company starts exactly the first due slot nobody took, and records it |
| `SchedulerOutcomes.FirstDueExact` | crates/mineral-host/src/service.rs:318-330 | that slot is the first in schedule order that is open and not taken, and there is none exactly if no schedule has one |
| `SchedulerOutcomes.BusyTickDoesNothing` | crates/mineral-host/src/service.rs:314-317 | while an operation runs a tick does nothing and reports no error |
| `SchedulerOutcomes.FailedRequestClaimsNothing` | crates/mineral-host/src/service.rs:320-326 | a request that cannot be built fails the tick before anything is claimed, and a publish needs no building |
| `SchedulerOutcomes.FailedClaimEndsTick` | crates/mineral-host/src/service.rs:327-329 | a failed claim fails the tick and starts nothing, and the slot is taken exactly if the statement took effect or it was taken before |
| `SchedulerOutcomes.TakenSlotIsPassed` | crates/mineral-host/src/service.rs:318-329 | a slot that is not open or already taken is passed over and left as it is |
| `SchedulerOutcomes.RefusedStartGivesBack` | crates/mineral-host/src/service.rs:335-338 | a start the supervisor refuses starts nothing and frees the slot exactly if the release took effect |
| `SchedulerOutcomes.StartedSlotStaysTaken` | crates/mineral-host/src/service.rs:331-334 | a slot whose operation started stays taken whatever becomes of the record |
| `SchedulerOutcomes.OpeningExact` | crates/mineral-host/src/service.rs:120-144 | opening interrupts exactly the open claims, keeps every stored schedule, and adds each missing one at its configured time, or disabled at 03:00 |
| `SchedulerHost.ServiceStore.constructor` | crates/mineral-host/src/service.rs:111-144 | opening turns exactly the claimed rows into interrupted ones, keeps every stored schedule, and adds the missing ones, enabled at their configured time or disabled at 03:00 |
| `SchedulerHost.ServiceStore.Schedules` | crates/mineral-host/src/service.rs:145-150 | the schedules come back in the order `InOrderExact` is about, or an error |
| `Scheduler.InOrderExact` | crates/mineral-host/src/service.rs:145-150 | the query lists every stored schedule exactly once, in the order of the kinds they are stored under |
| `SchedulerHost.ServiceStore.SaveSchedule` | crates/mineral-host/src/service.rs:151-158 | a valid schedule replaces the one of its kind, an invalid one changes nothing |
| `SchedulerHost.ServiceStore.Claim` | crates/mineral-host/src/service.rs:159-164 | answers true exactly when the row was not there, and never changes a row that was |
| `SchedulerHost.ServiceStore.RecordDispatched` | crates/mineral-host/src/service.rs:165-171 | marks the row of the slot and no other |
| `SchedulerHost.ServiceStore.ReleaseClaim` | crates/mineral-host/src/service.rs:172-178 | removes a row only while it is claimed |
| `SchedulerHost.Supervisor.Start` | crates/mineral-host/src/operations/supervisor.rs:257-283 | refuses while an operation is active, and otherwise makes the new one active |
| `SchedulerHost.Tick` | crates/mineral-host/src/service.rs:314-342 | whatever the store answers and whoever interferes, the call performs only steps of the machine, ends as its result says, starts at most one operation, and fails only when some store call or request did |
| `SchedulerHost.RunTicks` | crates/mineral-host/src/service.rs:111-342 | after opening any database and ticking at any times, no kind was started twice a day, no slot taken before was started, and one operation ran at most |
| `AssetKeys.PercentEncodeSegment` | crates/mineral-core/src/workflow/asset_delivery.rs:564-575 | the loop over bytes yields the encoding `DecodeInvertsEncode` is about |
| `AssetKeys.DecodeInvertsEncode` | crates/mineral-core/src/workflow/asset_delivery.rs:564-575 | decoding `%XX` and unreserved characters gives back every segment |
| `AssetKeys.EncodedIsSafe` | crates/mineral-core/src/workflow/asset_delivery.rs:564-575 | an encoded segment holds only unreserved characters and `%` (section 2.3 of RFC 3986) and is empty only for the empty segment |
| `AssetKeys.EncodedKeepsUnreserved` | crates/mineral-core/src/workflow/asset_delivery.rs:564-575 | exactly the segments made of unreserved characters are left as they are |
| `AssetKeys.NewFilename` | crates/mineral-core/src/workflow/asset_delivery.rs:118-135 | accepts exactly the single, non-relative, control-free segments of at most 255 bytes, unchanged |
| `AssetNames.FilenameRefusal` | crates/mineral-core/src/workflow/asset_delivery.rs:118-135 | the reason for refusing a filename is true of it |
| `AssetKeys.RehydrateExact` | crates/mineral-core/src/workflow/asset_delivery.rs:455-484 | a stored key is accepted exactly when it is the printed form of some digest and filename, legacy or named |
| `AssetKeys.PrintedIsAccepted` | crates/mineral-core/src/workflow/asset_delivery.rs:417-484 | a printed key is read back as itself |
| `AssetKeys.PublishedSha256` | crates/mineral-core/src/workflow/asset_delivery.rs:508-527 | the buffer loop reads the digest whose hexadecimal form the key embeds |
| `AssetKeys.RecoverDigest` | crates/mineral-core/src/workflow/asset_delivery.rs:419-527 | the digest read from a key is the digest it was made from |
| `AssetKeys.UrlKeepsSegments` | crates/mineral-core/src/workflow/asset_delivery.rs:495-505 | a filename never adds a segment to a URL path, nor takes one away |
| `AssetKeys.PublicUrlInjective` | crates/mineral-core/src/workflow/asset_delivery.rs:316-322 | under one base two keys, legacy or named, share a URL exactly when digest and filename agree |
| `AssetNames.PublicUrlExact` | crates/mineral-core/src/workflow/asset_delivery.rs:316-322 | a public URL is the base, the fixed prefix, the fan-out, the digest and the encoded filename, one segment each |
| `AssetKeys.BaseIsCanonical` | crates/mineral-core/src/workflow/asset_delivery.rs:330-372 | an accepted base is the value without its trailing slashes, and is accepted as itself |
| `AssetNames.BaseExact` | crates/mineral-core/src/workflow/asset_delivery.rs:330-372 | a base is accepted exactly if it is `https`, an authority without credentials, a path of names and trailing slashes, in printable ASCII without query and fragment; all but the trailing slashes is kept |
| `AssetNames.BaseRefusal` | crates/mineral-core/src/workflow/asset_delivery.rs:330-372 | the reason for refusing a base is true of it |
| `AssetKeys.FilenameIsTruthful` | crates/mineral-core/src/workflow/asset_delivery.rs:146-179 | a published filename keeps the authored name or carries an extension its media type allows |
| `AssetKeys.DerivedNameIsTruthful` | crates/mineral-core/src/workflow/asset_delivery.rs:153-178 | an allowed extension is kept as written, and deriving again changes nothing |
| `AssetNames.ExtensionIsReplaced` | crates/mineral-core/src/workflow/asset_delivery.rs:153-178 | an extension that is allowed, whatever its case, is kept with its name; another is replaced by the one written for the media type, and the stem before it kept without trailing dots |
| `AssetNames.ExtensionIsAdded` | crates/mineral-core/src/workflow/asset_delivery.rs:153-178 | a name without an extension is given the one that is written, and one with nothing but dots is refused |
| `AssetNames.RuleExact` | crates/mineral-core/src/workflow/asset_delivery.rs:208-232 | the media types that can be named, each with its extensions |
| `AssetNames.ExtensionNamesOneType` | crates/mineral-core/src/workflow/asset_delivery.rs:208-232 | no extension belongs to two media types |
| `AssetNames.CaseExact` | crates/mineral-core/src/workflow/asset_delivery.rs:164-166 | extensions are compared letter by letter without regard to ASCII case |

## Left out

- `BackupSafety.BackupRefIsRestorable`: the environment keeps three promises: the endpoint only ever gains objects, its answers account for every object asked about (`is_complete` looks at the uploads only, crates/mineral-core/src/backup/lfs.rs:101), and nobody else writes this run's commit while its objects are missing. The run, and the stored runs with its ref, base, commit and tree, were frozen by the program; a run built from other parts is accepted by crates/mineral-core/src/backup/run.rs:61-92, and `BackupLanding.OtherRunIsNotCovered` shows it cannot be promised the same.
- `BackupSafety.ReachedRefRestoresTheVault`: the commit is read as the tree it names, and SHA-256 and Git's tree names do not collide on the contents concerned.
- `Deliveries.PreimageInjective`: holds for deliveries whose objects are those of their files, as every build produces them. Assembling from parts does not check this, and `IdentityCollisions.IdentityCollision` shows two deliveries it accepts under one identity; `Deliveries.PreimageExact` says exactly which ones do.
- `DeliveryWire.WireRoundTrip`: the code promises to store the delivery in full (crates/mineral-core/src/backup/wire.rs:13-18); it does so exactly for the deliveries named in the condition, and `DeliveryWire.WireReadsCut` says what becomes of the others without newlines.
- `Verification.VerificationIsSound`: the manifest parser does not refuse repeated paths. The theorem speaks about each entry, and restoring uses the first entry of a path.
- `EndToEnd.BackupRestoresTheVault`: paths and source id are valid UTF-8, which Rust strings always are, the endpoint answers honestly and serves the source bytes, and the source id has no newline: with one, the stored manifest does not parse back.
- `Scheduler.StartedAtMostOnce`: a day is the local day of the schedule at the moment of the tick, so a schedule whose offset is edited can start twice within 24 hours, on two different days.
- `Schedules.NoSlotOpensUnseen`: integers are unbounded and the time is not negative, as the clock reading guarantees.
- `AssetKeys.FilenameIsTruthful`: the path is made of bytes, as every Rust string is.
- Errors of readers, stores and ports are one failure for each port; their payloads are not modelled. A blob store that refuses a write, and a tree reader that fails, end the operation in the program and are not modelled. The creation time and snapshot fields of a run, which its constructor compares with the delivery's, are not part of the model either.
- The type-first representation policy and its attributes file: the policy is a parameter, so the theorems hold for every policy.
- Content types of snapshot files, creation times and source metadata, which no modelled decision reads.
- The upload and verify instructions inside an LFS upload plan, which only the endpoint interprets.
- The SQLite history and step journal, the panic wrapper and the process lease of the scheduler; only one process at a time opens the store.
- Partial effects inside one SQL statement: a statement takes effect as a whole or not at all, though its caller may not learn which.
- The order in which a supervisor's worker reports its end, and the eviction of finished operations.
- Durable revision versions, source identities and their constructors; a revision is a bounded text without control characters.
- YAML frontmatter, privacy and asset classification, reviewer reports, publication reconciliation, change sets and asset dependencies.
- The web, HTTP, object-store and command-line adapters.
- CommonMark conformance of fences and code spans: the parser has rules of its own, and those are the ones specified.
