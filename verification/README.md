# Release tooling: a verified model

The crate `rust-release-manifest` prepares, audits and seals the release candidates of a desktop application. This
project models the parts of it in which a mistake would be quiet and expensive, and proves what they promise:

* **Reserved paths** (`ReservedPath*.dfy`, `PortablePath.dfy`): the closed catalogue of paths the tooling may touch and
  how each one, quarantines of quarantines included, renders to path components.
* **The boundary** (`FileTree.dfy`, `Boundary.dfy`): the checkout as a tree of nodes with identities, the kernel's walk
  over it with its symbolic links, and the resolver that never meets one.
* **The cleanup transaction** (`Cleanup*.dfy`): preflight, move to quarantine, delete, with two points per target at
  which the rest of the world may rewrite the whole tree and any call may fail.
* **Staging** (`Staging.dfy`): furnishing a staging directory, or cleaning it up again.
* **The candidate lock** (`CandidateLock.dfy`, `LockProtocol.dfy`): the lock object against one tree, and the protocol
  between any number of processes in every interleaving.
* **The ELF64 linkage reader**, the file format in the numbers of its specification, and the image builder of the
  reader's tests (`Elf*.dfy`).
* **Dependency notices** (`Dependency*.dfy`, `Notices*.dfy`): the dependency worklist, the licence buffer with its
  byte ranges, and the generator and checker that must agree.
* **Hashes and canonical forms** (`Md5*.dfy`, `Xxh64*.dfy`, `DigestStream.dfy`, `SemVer.dfy`, `ArtifactName.dfy`).
* **The transparency ledger** (`Transparency.dfy`), **the source archive's shape** (`TarTopology.dfy`) and **the
  canonical form of release documents** (`CanonicalJson.dfy`).
* **Debian control data** (`Control*.dfy`, `Md5sums.dfy`, `NormalizedPath.dfy`) and **redaction** (`Redaction.dfy`).

Loops and objects of the crate are methods and classes here, proved against predicates and functions whose own
properties are lemmas. What a loop and its specification share, such as tags, alphabets, names, layouts and orders, is
pinned once more by value (`ElfFormat.LinksIff`, `TransparencyLedger.LedgerIff`, `DigestStream.StreamSays` and others).
`dafny verify dfyconfig.toml` checks everything.

## What the proofs brought to light

* A quiet cleanup completes exactly when every entry names an exact type and its quarantine name is free *or is itself
  an earlier target of the plan* (`CleanupQuiet.QuietRunCompletesIff`).
* An entry of type `Any` passes preflight and can reach the `unreachable!` of the deletion. The model gives that run the
  ending `Aborted` instead of excluding it. `CleanupQuiet.QuietRunAbortsIff` says exactly when an undisturbed run ends
  there, `CleanupQuiet.OpenTypeAborts` shows one that does, and `CleanupSafety.ExactTypesNeverAbort` that plans of exact
  types never do, whatever the world does.
* The lock excludes a second holder as long as nobody *removes* the file under a holder; replacing it, even between a
  check and its removal, does not break exclusion. It keeps a replacement only when the swap does not fall between a
  check and its removal. Each rule is shown to be needed.
* When a segment's offset and size add up beyond 64 bits, the ELF reader reports an integer overflow with index 0,
  whichever program header it was (`ElfLinkage.OverflowNamesNoHeader`); only a segment that merely leaves the file is
  reported with its own index.
* The reader of ELF files checks that the *start* of the string table is mapped by a LOAD segment; its end is checked
  against the file only. `ElfLinkage.ParseElf64` states exactly that.
* The image builder leaves room for fifteen dynamic strings: with fifteen the value of the terminating entry falls into
  the string table, and nothing ever reads it.
* A notices index is keyed by name and version, so the checker accepts the generator's output exactly when packages that
  share both also share source and licences, and different licence bodies have different digests.
* A value is kept out of every text redacted of every list that holds it exactly when it disagrees with the marker
  `[REDACTED]` wherever the two could overlap (`Redaction.SafeIffApart`). Redacted alone, it survives in some text
  exactly when it can be reassembled around the marker.
* The transparency ledger is not compared with the tip when it stops short of it or runs past it; that its last line
  has the tip's digest is a separate test, and together they pin every byte (`TransparencyLedger.TipPinsLedger`).
* The source archive may hold a file whose name is an ancestor of another member but for its case
  (`TarTopology.FoldedAncestorAccepted`).
* A fetched ledger with a line that reads but has no canonical form, for instance because of a letter outside ASCII,
  makes the comparison with the locked entries fail when it is reached, and with it the fallback to them
  (`TransparencyLedger.FormlessBlocksFetch`). A line that is partial, unreadable, not canonical or not linked only ends
  the comparison. Whatever the unsigned ledger says, fetches under one tip that succeed return the same bytes, when
  digests tell the lines apart (`TransparencyLedger.FetchIsPinned`).
* The backward walk from the tip validates neither the entry it stops at nor the form of the tip's own bytes. What it
  finds is a ledger exactly when the one is a genesis and the other canonical (`TransparencyLedger.DerivedAcceptedIff`);
  the validation that follows the walk decides both.
* The order of a release document's array disappears in the canonical form exactly when different items have different
  sort keys (`CanonicalJson.OrderFreeIff`). Two payload records of one path show theirs (`CanonicalJson.PathTwice`).
* A control file that the strict parser accepts can be refused by the loose one because two *continuation* lines have
  the same text before a colon; `ControlAgree.LooseAcceptsIff` gives the exact condition.
* The adjacent-only duplicate test of the digest stream is complete, because the sort puts equal paths next to each
  other.

## Model

| member | source | states |
|---|---|---|
| ReservedPaths.ComponentsInjective | crates/rust-release-manifest/src/lib.rs:415-481 | two reserved paths with the same components are the same path, over the whole recursive catalogue |
| ReservedPathsPortable.ComponentsPlain | crates/rust-release-manifest/src/lib.rs:3474-3495 | every component of every reserved path passes the portability test the resolver applies |
| PortablePaths.PortableIff | crates/rust-release-manifest/src/lib.rs:3474-3496 | a component is portable if and only if it is not empty, ends in no dot or space, has none of the seven characters, and what comes before its first dot is, but for case and white space after it, none of the 22 device names |
| ReservedPaths.FixedPaths | crates/rust-release-manifest/src/lib.rs:415-433 | the fixed paths, each below its parent |
| ReservedPaths.EvidencePaths | crates/rust-release-manifest/src/lib.rs:421-432 | the evidence of a version and its ledger |
| ReservedPaths.ProofsPaths | crates/rust-release-manifest/src/lib.rs:457-460 | its proofs and its proof runner |
| ReservedPaths.ProofPaths | crates/rust-release-manifest/src/lib.rs:461-463 | a proof |
| ReservedPaths.AttemptPaths | crates/rust-release-manifest/src/lib.rs:464-467 | an attempt at it |
| ReservedPaths.OutputPaths | crates/rust-release-manifest/src/lib.rs:468-471 | and the attempt's output |
| ReservedPaths.StagingPaths | crates/rust-release-manifest/src/lib.rs:435-447 | an invocation and three of its rooms |
| ReservedPaths.MoreStagingPaths | crates/rust-release-manifest/src/lib.rs:448-456 | the other three |
| ReservedPaths.QuarantinePaths | crates/rust-release-manifest/src/lib.rs:472-479 | a quarantine stands beside its target, under the target's name between a dot and the transaction |
| FileTrees.WalkReachesDestination | crates/rust-release-manifest/src/lib.rs:642-656 | `symlink_metadata` finds something exactly when the kernel's walk, following the links on the way, has a destination, and reports the node there |
| FileTrees.LstatBelowRealDirectories | crates/rust-release-manifest/src/lib.rs:642-656 | below real directories the answer is that of the tree itself: no link is traversed |
| Boundary.PresentIff | crates/rust-release-manifest/src/lib.rs:658-783 | Present exactly when the anchor holds, every ancestor is a real directory and the leaf matches; leaf and parent identities are the true ones |
| Boundary.AbsentIff | crates/rust-release-manifest/src/lib.rs:658-783 | Absent exactly when the path is missing below an unbroken chain of real directories and absence is tolerated, or only the leaf is missing and was to be; the parent identity is that of the last directory of the chain |
| Boundary.RefusedIff | crates/rust-release-manifest/src/lib.rs:658-783 | each refusal of the resolver, with the depth it names, if and only if what it says is so |
| Boundary.OwnedIff | crates/rust-release-manifest/src/lib.rs:828-846 | identity resolution succeeds exactly on the node of the expected type and identity |
| Boundary.VacantIff | crates/rust-release-manifest/src/lib.rs:802-810 | resolution for creation succeeds exactly on a missing leaf below real directories |
| Boundary.Checkout.ChildState | crates/rust-release-manifest/src/lib.rs:676-697 | one step of the walk, its parent checks before and after: on a stable tree they never fail and the child is seen as it is |
| Boundary.Checkout.ResolveComponents | crates/rust-release-manifest/src/lib.rs:658-783 | the resolver's loop computes the resolution, never reaches its unreachable branch |
| Boundary.Checkout.ResolvePresence | crates/rust-release-manifest/src/lib.rs:658-783 | the same for every reserved path |
| Boundary.Checkout.ResolveIdentity | crates/rust-release-manifest/src/lib.rs:828-846 | presence plus the owned identity |
| FileTrees.DetachStat | crates/rust-release-manifest/src/lib.rs:1011-1020 | removal takes away the subtree at the path and changes nothing else |
| FileTrees.AttachStat | crates/rust-release-manifest/src/lib.rs:1001-1003 | what arrives at a free name changes nothing outside the new subtree |
| Cleanup.Register | crates/rust-release-manifest/src/lib.rs:903-929 | a target is refused as duplicate exactly when already rendered, and accepted exactly when it overlaps none before it |
| Cleanup.Preflight | crates/rust-release-manifest/src/lib.rs:899-935 | accepts exactly the plans whose rendered targets are pairwise prefix-incomparable and all owned |
| Cleanup.ExecuteMoveAside | crates/rust-release-manifest/src/lib.rs:966-1004 | resolve, barrier, resolve again, vacancy of the quarantine, rename: the whole new tree, log and residual |
| Cleanup.ExecuteDelete | crates/rust-release-manifest/src/lib.rs:1005-1022 | barrier, resolve in quarantine, delete by type: the whole new tree, log and residual |
| Cleanup.ExecuteAttempt | crates/rust-release-manifest/src/lib.rs:966-1022 | the two halves in order |
| Cleanup.ExecuteWith | crates/rust-release-manifest/src/lib.rs:957-1036 | the loop with its report vectors is the run its specification describes, for every world |
| CleanupTrace.AttemptIs | crates/rust-release-manifest/src/lib.rs:966-1022 | in any world an entry is deleted if and only if its own node is there before and after a final barrier that does not refuse, the quarantine name is free, the rename works, the second barrier does not refuse, its own node is in quarantine, the type is exact and the removal works; otherwise it stays in place, or in quarantine, with the error of the step that stopped it |
| CleanupTrace.RunClassified | crates/rust-release-manifest/src/lib.rs:957-1036 | every run, in any world: entries pass one after the other until one cannot, and there the run ends, its log two calls for each entry that passed and those of the last |
| CleanupTrace.RunCompletesIff | crates/rust-release-manifest/src/lib.rs:957-1036 | a run completes with a checkout if and only if every entry can pass in turn and that is the checkout left |
| CleanupTrace.FaultStops | crates/rust-release-manifest/src/lib.rs:974-1022 | a refusing barrier or a failing call stops every run at its entry: a refusal of the final barrier or a failed rename before any call for the entry, its own path being what is left; a refusal of the second barrier before any removal; a failed removal before a whole one |
| CleanupTrace.StillRunStopsIff | crates/rust-release-manifest/src/lib.rs:957-1036 | where nobody touches the checkout, whatever refuses or fails, a preflighted plan gets through exactly the entries before the first that is hindered, and completes if and only if none is |
| CleanupSafety.OnlyRecordedNodesTouched | crates/rust-release-manifest/src/lib.rs:957-1036 | whatever the world does at the barriers, every node renamed or removed has the type and identity in the plan, and moves only between its own path and its quarantine |
| CleanupSafety.ReportPartitionsPlan | crates/rust-release-manifest/src/lib.rs:957-1036 | deleted, then the failing entry as the one residual at its own or its quarantine path, then preserved: together the plan in order |
| CleanupSafety.ExactTypesNeverAbort | crates/rust-release-manifest/src/lib.rs:1011-1020 | in no world does a plan of exact types reach the unreachable branch |
| CleanupQuiet.QuietRunAbortsIff | crates/rust-release-manifest/src/lib.rs:957-1036 | an undisturbed run of a preflighted plan reaches the unreachable branch if and only if some entry has type `Any` and a free quarantine name, and every entry before it an exact type and a free name |
| CleanupQuiet.OpenTypeAborts | crates/rust-release-manifest/src/lib.rs:1011-1020 | a concrete checkout and plan that pass preflight and abort |
| CleanupQuiet.QuietRunCompletesIff | crates/rust-release-manifest/src/lib.rs:899-1036 | without interference or failure a preflighted plan completes if and only if every type is exact and every quarantine name is absent or is an earlier target; then everything is attempted and deleted in order and the tree has lost the planned subtrees |
| CleanupQuiet.PlannedSubtreesGone | crates/rust-release-manifest/src/lib.rs:957-1036 | path by path: gone below a planned target, unchanged elsewhere |
| CleanupQuiet.StillAttempt | crates/rust-release-manifest/src/lib.rs:966-1022 | an uninterfered attempt that fails leaves the target where the residual says, whole or in part, and everything beside it alone |
| CleanupQuiet.OutsideUntouched | crates/rust-release-manifest/src/lib.rs:957-1036 | however such a run ends, nothing beside the targets and their quarantines changes |
| Staging.Setup | crates/rust-release-manifest/src/lib.rs:1240-1271 | the six rooms are created in order; success exactly when none existed and no creation fails |
| Staging.SixRooms | crates/rust-release-manifest/src/lib.rs:1242-1266 | the rooms are the six of the source, in its order |
| Staging.InitializeReserved | crates/rust-release-manifest/src/lib.rs:1181-1287 | success exactly when the owned root is in place, no room exists and every creation works, and then exactly six empty directories are new; otherwise the cleanup confines every change to the root and its quarantine, and without failing calls and with a free quarantine name the invocation is gone without trace |
| Staging.CleanupRollsBack | crates/rust-release-manifest/src/lib.rs:1272-1286 | the rollback of an owned invocation finishes exactly when its quarantine name is free, and removes exactly the staging subtree |
| CandidateLocks.CandidateLock.Acquire | crates/rust-release-manifest/src/lib.rs:1064-1093 | acquisition succeeds exactly when `dist` is or becomes a real directory and nothing is at the lock path; it then adds the lock file and at most `dist` |
| CandidateLocks.CandidateLock.RemoveOwned | crates/rust-release-manifest/src/lib.rs:1105-1119 | removes what the kernel finds at the path if and only if it is the lock's own file |
| CandidateLocks.CandidateLock.Release | crates/rust-release-manifest/src/lib.rs:1099-1103 | released exactly when the own file was found and removed; a failed release still drops |
| CandidateLocks.CandidateLock.Drop | crates/rust-release-manifest/src/lib.rs:1121-1136 | an unreleased lock removes its own file and only that |
| CandidateLocks.ReleaseUndoesAcquire | crates/rust-release-manifest/src/lib.rs:1063-1119 | releasing right after acquiring restores the tree, up to a new `dist` |
| LockProtocol.MutualExclusion | crates/rust-release-manifest/src/lib.rs:1063-1136 | in every interleaving of any number of processes, with checks and removals as separate steps, crashes and failing removals, and with the outside replacing the lock file at any time, at most one process holds the lock; only removal under a holder is excluded |
| LockProtocol.ReplacementSurvives | crates/rust-release-manifest/src/lib.rs:1099-1136 | however often the outside swaps the file between operations, nobody removes a file that is not its own |
| LockProtocol.WindowIsExposed | crates/rust-release-manifest/src/lib.rs:1105-1136 | a file swapped in between a check and its removal is removed: the rule of `ReplacementSurvives` cannot be dropped |
| LockProtocol.RemovalInWindow | crates/rust-release-manifest/src/lib.rs:1078-1136 | a removal there lets another process acquire the lock, whose file is then removed under it |
| LockProtocol.RemovalUnderHolder | crates/rust-release-manifest/src/lib.rs:1078-1090 | removing the lock under a holder admits a second one in two steps: what the rule of `MutualExclusion` excludes does break it |
| LockProtocol.ReleaseFrees | crates/rust-release-manifest/src/lib.rs:1099-1119 | a release with the own file at the path removes that file, frees the path and ends |
| LockProtocol.DropFrees | crates/rust-release-manifest/src/lib.rs:1121-1136 | so does a drop, and the drop that follows a release whose removal failed |
| LockProtocol.ForeignStays | crates/rust-release-manifest/src/lib.rs:1105-1136 | with another file at the path, or none, neither removes anything |
| LockProtocol.AcquiresIffFree | crates/rust-release-manifest/src/lib.rs:1063-1093 | an idle process acquires a free lock, and none that is taken when it looks or when it creates |
| LockProtocol.SwapCostsReplacement | crates/rust-release-manifest/src/lib.rs:1063-1136 | from the start, the windows of release and of drop are reached, and a file swapped in there is removed |
| LockProtocol.RemovalCostsHolder | crates/rust-release-manifest/src/lib.rs:1063-1136 | from the start, a removal in a window ends with another holder whose file is gone |
| LockProtocol.RemovalMakesTwo | crates/rust-release-manifest/src/lib.rs:1063-1136 | from the start, a removal under a holder ends with two |
| ElfParser.ReadProgramHeader | crates/rust-release-manifest/src/elf64.rs:302-329 | the unchecked additions to a header's offset never overflow and its reads never fail |
| ElfParser.ScanSegments | crates/rust-release-manifest/src/elf64.rs:299-376 | the loop finds one interpreter, one dynamic table and at least one LOAD, in file order, or no choice of segments exists; then the error is that of the first header at fault, all before it having been taken, with its index except for an offset overflow, which is reported with index 0; or every header was taken and the error names the first segment lacking |
| ElfParser.SegmentFaultUnique | crates/rust-release-manifest/src/elf64.rs:299-376 | of no file are two errors of the scan true: which one is reported is determined |
| ElfDynamic.ScanDynamic | crates/rust-release-manifest/src/elf64.rs:386-428 | the entries before the first null, singletons at most once, or the table has no reading and the error says why |
| ElfLinkage.Locate | crates/rust-release-manifest/src/elf64.rs:438-448 | the file offset a LOAD segment maps the string table's start to, or none does |
| ElfParser.ReadHeader | crates/rust-release-manifest/src/elf64.rs:235-297 | succeeds exactly on shared objects for one of the two machines whose program header table is in the file; the error gives the field that is wrong and its value |
| ElfLinkage.ReadTable | crates/rust-release-manifest/src/elf64.rs:433-454 | the string table whose start is mapped and whose bytes are in the file, or none exists and the error says which of the two failed |
| ElfLinkage.ReadText | crates/rust-release-manifest/src/elf64.rs:470-488 | the bytes up to the first NUL within the limit, or no such text |
| ElfLinkage.ParseElf64 | crates/rust-release-manifest/src/elf64.rs:235-506 | returns a linkage exactly when the declarative relation between file and linkage holds of it, fails exactly when it holds of none, and then names the first stage that failed with a true reason |
| ElfLinkage.OverflowNamesNoHeader | crates/rust-release-manifest/src/elf64.rs:173-233 | an integer overflow is reported with index 0 and the offset of a program header whose end exceeds 64 bits |
| ElfLinkage.LinksUnique | crates/rust-release-manifest/src/elf64.rs:235-506 | no file has two linkages |
| ElfFormat.LinksIff | crates/rust-release-manifest/src/elf64.rs:8-22 | with every number written out: a file has a linkage if and only if it is laid out as the format asks, and the linkage is what the layout says: the texts of the entries of tag 1 before the first of tag 0, in order, those of tags 14, 15 and 29, the string table of tags 5 and 10 placed by the first header of kind 1 that holds its address, the interpreter of the one header of kind 3, the table of the one of kind 2, within the limits of the source |
| Utf8.Utf8Iff | crates/rust-release-manifest/src/elf64.rs:345-352 | bytes pass the UTF-8 test if and only if they encode code points that are no surrogates, by the table of RFC 3629 |
| Octet.LeDigits | crates/rust-release-manifest/src/elf64.rs:196-223 | fields of two, four and eight bytes have the least significant byte first |
| ElfRoundTrip.LinkageWellFormed | crates/rust-release-manifest/src/elf64.rs:235-506 | whatever the reader reports is well formed: machine, type, string sizes and alphabet, counts |
| ElfImage.Build | crates/rust-release-manifest/src/elf64.rs:567-646 | the builder's in-place writes produce the image: zeros under a list of patches |
| ElfRoundTrip.ImageLinksIff | crates/rust-release-manifest/src/elf64.rs:567-646 | for an interpreter of at most 63 bytes and at most 15 strings, the image has the given linkage exactly when the linkage is well formed |
| ElfRoundTrip.RoundTrip | crates/rust-release-manifest/src/elf64.rs:567-646 | build, then parse: returns exactly the given linkage if and only if it is well formed |
| DependencyGraph.Visit | crates/rust-release-manifest/src/dependency_notices.rs:225-255 | the worklist terminates with exactly the ids reachable over edges that are not dev-only, whatever the order |
| DependencyGraph.ResolveExternalCrates | crates/rust-release-manifest/src/dependency_notices.rs:192-300 | computes the resolved population |
| DependencyGraph.ExternalCratesAreReachable | crates/rust-release-manifest/src/dependency_notices.rs:225-298 | the population is exactly the reachable packages with a source, sorted by name and version |
| DependencyGraph.ResolutionSucceedsIff | crates/rust-release-manifest/src/dependency_notices.rs:192-300 | resolution fails exactly for want of a root, a package, a field or any external crate |
| DependencyDocument.CratesDescribed | crates/rust-release-manifest/src/dependency_notices.rs:185-300 | in terms of the document: a crate is in the result if and only if some package entry, the last with its id, has exactly its name, version, source, licence and directory, and a route leads to that id from the first package named as the window application, over dependencies with no kinds or one that is null, "normal" or "build" |
| DependencyDocument.ResolvesIff | crates/rust-release-manifest/src/dependency_notices.rs:185-300 | resolution succeeds if and only if there is such a root, every id reached has a package that is complete if it has a source, and some package reached has one |
| DependencyDocument.OneCrateAnId | crates/rust-release-manifest/src/dependency_notices.rs:256-289 | as many crates as ids reached whose package has a source |
| Notices.LayOut | crates/rust-release-manifest/src/dependency_notices.rs:609-633 | the buffer loop lays the bodies out by digest with their separators and records every range |
| Notices.RangeHoldsBody | crates/rust-release-manifest/src/dependency_notices.rs:613-633 | each recorded range slices exactly its body |
| Notices.RangesDisjoint | crates/rust-release-manifest/src/dependency_notices.rs:613-633 | the ranges come in order and do not overlap |
| NoticesCheck.MembersHaveRanges | crates/rust-release-manifest/src/dependency_notices.rs:635-655 | the generator's missing-record and missing-range errors cannot occur |
| NoticesCheck.Generate | crates/rust-release-manifest/src/dependency_notices.rs:575-700 | when the generator succeeds, and what notices and index it writes |
| NoticesIndex.IndexSays | crates/rust-release-manifest/src/dependency_notices.rs:599-674 | the index names the fixed schema, query, root and platform, the digests of the lock file and the notices, and every crate in order with its own name, version, source and licence and its licence members, each with digest, origin, path and a range of the notices that has the digest; the notices begin with the heading and end with the runtime notices |
| NoticesIndex.Separated | crates/rust-release-manifest/src/dependency_notices.rs:609-622 | between two licence bodies stands one line feed if the first ends in one, else two |
| NoticesIndex.Ends | crates/rust-release-manifest/src/dependency_notices.rs:601-622 | the first body follows the heading and a line feed, and nothing follows the last |
| NoticesCheck.CheckDependencyNotices | crates/rust-release-manifest/src/dependency_notices.rs:722-921 | accepts exactly the notices and index that hold together with the workspace |
| NoticesCheck.CheckCovered | crates/rust-release-manifest/src/dependency_notices.rs:924-938 | accepts exactly when every other platform's crates are among the primary's |
| NoticesAgree.EveryLicenceReproduced | crates/rust-release-manifest/src/dependency_notices.rs:837-919 | acceptance means every licence of every reachable external crate is in the notices byte for byte at a recorded range; nothing is assumed of the digest |
| NoticesAgree.EveryPlatformCovered | crates/rust-release-manifest/src/dependency_notices.rs:924-938 | acceptance means every crate reachable on a covered platform is one of those crates |
| NoticesAgree.GeneratedAcceptedIff | crates/rust-release-manifest/src/dependency_notices.rs:575-921 | the checker accepts what the generator wrote from the same state if and only if name and version determine source and licences, digests determine bodies, and the platforms are covered |
| NoticesAgree.GenerateThenCheck | crates/rust-release-manifest/src/dependency_notices.rs:575-921 | the two run one after the other |
| Md5.Pad | crates/rust-release-manifest/src/package_audit.rs:472-478 | the padding loop ends in the padded message of sections 3.1 and 3.2 of RFC 1321 |
| Md5Spec.PaddedBlocks | crates/rust-release-manifest/src/package_audit.rs:472-478 | padding adds 9 to 72 bytes and ends on a block boundary |
| Md5Spec.PaddingIsInjective | crates/rust-release-manifest/src/package_audit.rs:472-478 | no two messages of any length pad alike |
| Md5Spec.LengthReadsBackIff | crates/rust-release-manifest/src/package_audit.rs:472-478 | the last eight bytes give the length back exactly below 2^61 bytes |
| Md5.WordIndexIsOrder | crates/rust-release-manifest/src/package_audit.rs:487-492 | the index formulas give the word tables of section 3.4 |
| Md5.TurnIsStep | crates/rust-release-manifest/src/package_audit.rs:485-503 | one turn of the loop, which renames its registers, is one operation of the standard, which leaves them in place |
| Md5.Absorb | crates/rust-release-manifest/src/package_audit.rs:480-508 | one chunk takes the state through the standard's four rounds |
| Md5.Md5Digest | crates/rust-release-manifest/src/package_audit.rs:454-514 | the text is the MD5 digest of the bytes in lower-case hexadecimal |
| Md5.DigestUnique | crates/rust-release-manifest/src/package_audit.rs:454-514 | a message has one digest, of 32 digits |
| Md5Vectors.AbcDigest | crates/rust-release-manifest/src/package_audit.rs:1363-1364 | the digest of "abc" is the pinned one |
| NormalizedPaths.NormalizedPath | crates/rust-release-manifest/src/package_audit.rs:317-335 | the component loop computes the normal form |
| NormalizedPaths.FixedIffNormal | crates/rust-release-manifest/src/package_audit.rs:317-335 | a path is its own normal form exactly when it is relative and has no empty, dot or dot-dot part |
| NormalizedPaths.NormalizedIsNormal | crates/rust-release-manifest/src/package_audit.rs:317-335 | normalising twice changes nothing more |
| Md5sums.ReadListing | crates/rust-release-manifest/src/package_audit.rs:516-552 | succeeds exactly when the lines are those of well-formed entries with distinct paths, and returns the map they declare |
| Md5sums.SumIff | crates/rust-release-manifest/src/package_audit.rs:516-545 | a sum is 32 hexadecimal digits of either case |
| Md5sums.VerifyMd5sums | crates/rust-release-manifest/src/package_audit.rs:516-572 | accepts exactly the listings that give every data member once, under its own path, with its digest, and nothing else |
| Md5sums.WrittenIsAccepted | crates/rust-release-manifest/src/package_audit.rs:516-572 | the listing a package builder writes is accepted |
| Xxh64.Hash | crates/rust-release-manifest/src/lib.rs:3392-3455 | the loops compute XXH64 as the xxHash fast digest algorithm specification describes it, for every seed and input |
| Xxh64.TakeLanes | crates/rust-release-manifest/src/lib.rs:3413-3419 | one stripe: every accumulator takes its own lane |
| Xxh64.HashStripes | crates/rust-release-manifest/src/lib.rs:3405-3432 | all stripes are taken and the remainder is what is left over |
| Xxh64.HashRest | crates/rust-release-manifest/src/lib.rs:3434-3449 | the eight-byte, four-byte and byte phases take the remainder chunk by chunk |
| Xxh64Spec.InputPartition | crates/rust-release-manifest/src/lib.rs:3404-3449 | stripes and chunks, in the order they are taken, concatenate to the input: every byte once |
| Xxh64Spec.ChunkSizes | crates/rust-release-manifest/src/lib.rs:3434-3449 | every chunk is as large as what remains allows |
| Xxh64Tail.SingleChunkNeverCollides | crates/rust-release-manifest/src/lib.rs:3433-3454 | inputs of one length with the same stripes that differ in one chunk of the remainder have different hashes |
| Xxh64Tail.AvalancheInjective | crates/rust-release-manifest/src/lib.rs:3450-3454 | the final mixing loses nothing |
| Xxh64Vectors.HundredHashes | crates/rust-release-manifest/src/proof_tests.rs:328-337 | the hash of the bytes 0 to 99, three stripes and a chunk, is the pinned one |
| Xxh64Vectors.HelloHashes | crates/rust-release-manifest/src/proof_tests.rs:328-337 | so is that of "Hello, world!" and a NUL, with chunks of all three sizes |
| Xxh64Vectors.ByteHashes | crates/rust-release-manifest/src/proof_tests.rs:328-337 | so is that of one byte |
| Xxh64Vectors.NothingHashes | crates/rust-release-manifest/src/proof_tests.rs:328-337 | so are those of the empty input under two seeds |
| DigestStream.CandidateDigestInput | crates/rust-release-manifest/src/lib.rs:1759-1794 | accepts exactly five acceptable files with distinct paths, and returns their lines in path order; every refusal states a true reason |
| DigestStream.AdjacentTestIsComplete | crates/rust-release-manifest/src/lib.rs:1766-1781 | comparing neighbours after sorting finds every duplicate path |
| DigestStream.SameStreamIff | crates/rust-release-manifest/src/lib.rs:1759-1794 | two accepted payloads have the same bytes if and only if they are permutations of each other |
| DigestStream.StreamSays | crates/rust-release-manifest/src/lib.rs:1767-1790 | the stream of an accepted payload has five lines; each is 64 digits, two spaces, the size in decimal, two spaces and the path of its file, and the paths ascend byte by byte |
| DigestStream.AcceptableIff | crates/rust-release-manifest/src/lib.rs:3457-3593 | a payload record is acceptable if and only if its path is one portable component without slash, backslash or control character, its digest 64 lower-case hexadecimal digits and its size not zero |
| Ordering.LessIff | crates/rust-release-manifest/src/lib.rs:1767 | the order of texts: they agree up to a place where the first ends or has the smaller letter |
| SemVer.ValidIffRendering | crates/rust-release-manifest/src/lib.rs:3538-3586 | the validator accepts exactly the renderings of SemVer 2.0.0 versions (clauses 2, 9 and 10) with core numbers below 2^64 |
| SemVer.ReadRender | crates/rust-release-manifest/src/lib.rs:3538-3586 | every rendering is accepted and reads back as the version rendered |
| SemVer.RenderRead | crates/rust-release-manifest/src/lib.rs:3538-3586 | every accepted text is the rendering of its reading |
| SemVer.UniqueDecomposition | crates/rust-release-manifest/src/lib.rs:3538-3586 | no text has two decompositions |
| SemVer.GrammarIff | crates/rust-release-manifest/src/lib.rs:3573-3586 | the decomposition is that of the grammar, letter by letter: 64-bit core numbers and identifiers of ASCII letters, digits and hyphens, numeric ones before the build without leading zero |
| ArtifactNames.ParseInvertsPrint | crates/rust-release-manifest/src/lib.rs:2444-2503 | printing and parsing artifact names are inverse over every kind, architecture and valid version |
| ArtifactNames.SixNames | crates/rust-release-manifest/src/lib.rs:2484-2503 | the six names of a release, letter by letter |
| ControlFiles.ParseStrict | crates/rust-release-manifest/src/package_audit.rs:642-706 | succeeds exactly on single-paragraph control files with the mandatory fields, with the values of their one reading; the error is that of the first unreadable line, or a missing field; a continuation always finds its field |
| ControlFiles.ScanDecides | crates/rust-release-manifest/src/package_audit.rs:642-696 | the line scanner accepts exactly the texts of the grammar, with the one possible parse |
| ControlFiles.ScanFailsFirst | crates/rust-release-manifest/src/package_audit.rs:645-696 | the fault of the whole text is that of its first unreadable line |
| ControlFiles.ReadingUnique | crates/rust-release-manifest/src/package_audit.rs:642-696 | a control file has one reading |
| ControlFiles.FieldNameIff | crates/rust-release-manifest/src/package_audit.rs:677-688 | a field name is a non-empty text of ASCII letters, digits and hyphens |
| ControlFiles.ContinuationIff | crates/rust-release-manifest/src/package_audit.rs:660 | a continuation begins with a space or a tab |
| Text.LinesOfLine | crates/rust-release-manifest/src/package_audit.rs:645 | a line ends at a line feed and loses one carriage return before it |
| Text.TrimIs | crates/rust-release-manifest/src/package_audit.rs:690 | trimming takes white space from both ends, all of it and nothing else |
| Text.WhitespaceIs | crates/rust-release-manifest/src/package_audit.rs:690 | the 25 code points that are white space |
| ControlPrint.PrintedReads | crates/rust-release-manifest/src/package_audit.rs:642-706 | a printed single-paragraph file (Debian Policy, section 5.1) is accepted and reads as what was printed |
| ControlPrint.PrintThenParse | crates/rust-release-manifest/src/package_audit.rs:642-706 | print, then parse: every field with all its lines, and nothing else |
| ControlAgree.ParseLoose | crates/rust-release-manifest/src/lib.rs:2870-2908 | succeeds exactly on bodies with distinct keys and three sound fields, the version with a release |
| ControlAgree.ParsersAgree | crates/rust-release-manifest/src/lib.rs:2870-2890 | on a body both accept, name, architecture and version-release are the first lines of the strict values |
| ControlAgree.LooseAcceptsIff | crates/rust-release-manifest/src/lib.rs:2870-2908 | which control files the loose reader accepts as well |
| ControlAgree.LooseUnique | crates/rust-release-manifest/src/lib.rs:2870-2890 | a body has one loose identity |
| Redaction.RedactedIsClean | crates/rust-release-manifest/src/audit.rs:77-83 | a value that disagrees with the marker wherever they could overlap is in no redacted text, for every list of values |
| Redaction.ReplacesFirst | crates/rust-release-manifest/src/audit.rs:77-83 | where a value first occurs, `[REDACTED]` takes its place, and what follows is redacted in turn |
| Redaction.LongerRedactedWhole | crates/rust-release-manifest/src/audit.rs:61-75 | of two values the one with more bytes is redacted first, so that it is redacted whole though the other occurs in it |
| Redaction.PlainValuesAreApart | crates/rust-release-manifest/src/audit.rs:77-83 | values without brackets that are not part of the marker's word are of that kind |
| Redaction.SingleValueLeaksIff | crates/rust-release-manifest/src/audit.rs:77-83 | a single value survives in some text if and only if it can be reassembled around the marker |
| Redaction.SafeIffApart | crates/rust-release-manifest/src/audit.rs:53-83 | a value is in no text redacted of any list that holds it if and only if it disagrees with the marker wherever they could overlap; restricting to sorted lists without repeats changes nothing |
| Redaction.SensitiveValues.constructor | crates/rust-release-manifest/src/audit.rs:53-65 | holds exactly the non-empty values given |
| Redaction.SensitiveValues.AddPath | crates/rust-release-manifest/src/audit.rs:67-75 | adds a non-empty value and keeps the others |
| Redaction.SensitiveValues.RedactText | crates/rust-release-manifest/src/audit.rs:77-83 | whatever was ever added and is apart from the marker is gone |
| TransparencyLedger.ReadLedger | crates/rust-release-manifest/src/transparency.rs:1284-1313 | succeeds exactly on ledgers, with the entries of their lines |
| TransparencyLedger.LedgerIff | crates/rust-release-manifest/src/transparency.rs:440-535 | bytes are a ledger if and only if their lines are the canonical forms of entries that have the fixed schema and product, hexadecimal bindings, a time and name-ordered arrays, are numbered from one, and are bound to 64 zeros and no version, or to the digest and version of the line before, and later than it |
| TransparencyLedger.ValidateLedger | crates/rust-release-manifest/src/transparency.rs:1239-1282 | accepts exactly the ledgers whose last entry, if it has the tip's number, is the tip |
| TransparencyLedger.NumbersArePositions | crates/rust-release-manifest/src/transparency.rs:440-535 | in a ledger the sequence number of an entry is its position |
| TransparencyLedger.TimesIncrease | crates/rust-release-manifest/src/transparency.rs:440-535 | publication times increase along the whole ledger |
| TransparencyLedger.InventoryIsSorted | crates/rust-release-manifest/src/transparency.rs:467-482 | an accepted entry's arrays are sorted by name |
| TransparencyLedger.TipPinsLedger | crates/rust-release-manifest/src/transparency.rs:1239-1360 | two accepted ledgers whose last lines have one digest are the same bytes, when digests tell their lines apart |
| TransparencyLedger.EarlierTipIsPrefix | crates/rust-release-manifest/src/transparency.rs:1239-1360 | a ledger whose tip occurs in another ledger is a prefix of it |
| TransparencyLedger.RejectContradiction | crates/rust-release-manifest/src/transparency.rs:1316-1353 | passes exactly when the locked bytes are a ledger and no line reached in the fetched bytes lacks a canonical form or contradicts the locked line of its number; the error is that of the first such line; the other faulty lines end the reading |
| TransparencyLedger.PassingMeansAgreeing | crates/rust-release-manifest/src/transparency.rs:1316-1353 | then the fetched lines, as far as they are a chain, are the locked lines |
| TransparencyLedger.FormlessNeverPasses | crates/rust-release-manifest/src/transparency.rs:1331-1332 | fetched bytes that begin with a readable line whose version is not ASCII pass against no locked bytes |
| TransparencyLedger.NoOverflow | crates/rust-release-manifest/src/transparency.rs:503 | the addition to the previous sequence number cannot overflow while a ledger in memory is read |
| TransparencyLedger.Rederive | crates/rust-release-manifest/src/transparency.rs:1362-1414 | the backward walk terminates for every store, fails with the first fault on its way, and otherwise gives the lines before the tip in ledger order; `DerivedAcceptedIff` says when they are a ledger |
| TransparencyLedger.DerivedAcceptedIff | crates/rust-release-manifest/src/transparency.rs:1362-1414 | what the walk finds is a ledger, and an accepted one, exactly when its oldest entry is a genesis and the tip's bytes are its canonical form, neither of which the walk tests |
| TransparencyLedger.FetchLedger | crates/rust-release-manifest/src/transparency.rs:1511-1547 | returns the unsigned ledger if it is accepted and has the tip, else the derived one if the unsigned does not contradict it and it is accepted; fails exactly when neither can be had |
| TransparencyLedger.FetchedHasTip | crates/rust-release-manifest/src/transparency.rs:1511-1547 | whatever a fetch returns is a ledger whose last line has the digest of the tip's canonical form, which the pointer holds |
| TransparencyLedger.FetchIsPinned | crates/rust-release-manifest/src/transparency.rs:1511-1547 | two fetches under one tip return the same bytes, whatever unsigned ledgers and stores they met, when digests tell the lines apart |
| TransparencyLedger.FormlessBlocksFetch | crates/rust-release-manifest/src/transparency.rs:1523-1545 | no fetch succeeds that meets an unsigned ledger beginning with a line as in `FormlessNeverPasses` |
| TransparencyLedger.RederivesLedger | crates/rust-release-manifest/src/transparency.rs:1362-1414 | from a store of a ledger's lines the walk gives the ledger back byte for byte, starting from its tip alone |
| TarTopology.CheckTopology | crates/rust-release-manifest/src/lib.rs:2651-2696 | accepts exactly the archives with one root, no file at the top or above another member, and no two paths equal but for case; every refusal states a true reason |
| TarTopology.TopologyIsTree | crates/rust-release-manifest/src/lib.rs:2664-2696 | in an accepted archive no file lies on the way to another member and no path repeats |
| TarTopology.FoldedAncestorAccepted | crates/rust-release-manifest/src/lib.rs:2683-2695 | only whole folded paths are compared |
| Text.ToLowerIs | crates/rust-release-manifest/src/lib.rs:2683-2695 | folding maps the 26 capitals and nothing else |
| CanonicalJson.NormalizeIdempotent | crates/rust-release-manifest/src/lib.rs:1717-1757 | the canonical form is its own canonical form |
| CanonicalJson.SortedForm | crates/rust-release-manifest/src/lib.rs:1727-1747 | arrays under the three names of text sets are sorted by their texts, payload by path, package members by package file, in byte order and items without the key first; every other array keeps its order |
| CanonicalJson.TiesStay | crates/rust-release-manifest/src/lib.rs:1727-1747 | items that tie keep their order |
| CanonicalJson.OrderFreeIff | crates/rust-release-manifest/src/lib.rs:1727-1747 | for every array under every field name: all orders of its items have one canonical form if and only if items with different canonical forms have different sort keys, and without a sort key if and only if all items are equal in canonical form |
| CanonicalJson.PathTwice | crates/rust-release-manifest/src/lib.rs:1735-1739 | two payload records of one path that differ in size or digest have one canonical form in each order |

## Left out

- ControlFiles.ParseStrict: ends before the dependency-field grammar and the forbidden names, which are independent checks of single values.
- ControlAgree.ParseLoose: tells duplicate keys from the other errors, but not which of the three fields is reported first.
- Md5sums.VerifyMd5sums: tells a mismatch from a malformed listing, but not which path is reported.
- DigestStream.CandidateDigestInput: when several reasons for a refusal hold, it does not say which one is reported.
- LockProtocol.ReplacementSurvives: a file kept open keeps its inode, so identities are not reused under a holder; hard links to the lock file are not modelled.
- Cleanup.ExecuteWith: a check and the call that follows it are one step except at the two barriers, as the comment at lib.rs:1001 concedes; hard links and inode reuse are not modelled.
- Staging.InitializeReserved: the transaction id of the rollback is a parameter and its generation never fails; nothing interferes between the steps.
- Md5Spec.PaddedBlocks: the sine table is taken as the constants of the source; sines are not modelled.
- NoticesCheck.Generate: licence discovery on disk, the prebuilt scan and the runtime notices are functions of the workspace; SHA-256 is a function parameter, assumed collision-free only where a statement says so.
- SHA-256, JSON, TOML, schema validation, gzip, xz, zstd, tar, ar and rpm decoding: the model starts from decoded bytes and members.
- The repository root itself: it is the root of the tree and keeps its place; device boundaries, permissions and I/O errors of `lstat` are not modelled.
- UTF-8: texts are sequences of code points; only the ELF strings are bytes with the validity test of RFC 3629. Ordering by code point is the ordering of the encoded bytes.
- Error texts, command lines, containers, signing tools and everything else that runs a subprocess.
- TransparencyLedger.ValidateLedger: states when a ledger is refused, not which error is reported; JSON, canonical JSON, SHA-256 and timestamps are parameters; what a statement assumes of them (`WritesLines`, `ReadsOneDocument`, `RefusesNonAscii`, `DigestsTell`) it names.
- TransparencyLedger.Rederive: the successor of the last 64-bit number ends the run, as in a build with overflow checks (`Makefile` runs the crate in the development profile); without them it would be 0. The signature of each stored entry is checked by the store, which holds one body a version.
- Of the transparency module, the publication protocol, pointers, signatures and transports; the `transaction` module as a whole.
- `inspect_payload`, dependency grammar, lane and manifest comparisons, privacy filters, copy wording and the fixed tables of paths and tools: lists of independent checks.
- CanonicalJson.NormalizeIdempotent: the JSON writer that turns the canonical form into bytes is not modelled.
- TarTopology.CheckTopology: starts from members that passed the checks of their own headers, and ends before the root's name is taken apart.
