# Verified models of Tonepoet's coordination, persistence and parsing cores

Tonepoet converts audio collections from several sessions at once. This project models, in Dafny,
the parts of it whose correctness does not show in any one function, and proves what they are for.
`dafny verify dfyconfig.toml` checks everything.

**Leases and claims** (`src/concurrency.rs`). `Claims` is the conflict and coverage algebra on paths.
`FileTree`, `Resolution`, `Discovery` and `ClaimIdentity` are the sequential core that turns a path into
a claim: a finite file tree with the kernel's lookup (at most 40 links), the ordered resolution that
refines it, and the discovery of every link a lookup crosses. `ClaimVerdicts` says when claims made this
way conflict or cover each other, in terms of the trees they were made in. `DescriptorCodec` is the
interning codec that stores claims. `LeaseProtocol` is the cross-process protocol as a state machine:
descriptors, open file descriptions, owners, exported and forked file descriptors, the process-local
registration and the registry lock. Each region under a lock is one step, except that a scan is one
step per descriptor, so that guards can be dropped and processes can die in the middle of it.
`LeaseSafety` proves what every run keeps; `LeaseAdmission` runs the admission loop on the protocol's
state.

**Crash safety** (`src/concurrency.rs`, `src/config.rs`, `src/secret_store.rs`). `CrashDisk` is a
directory whose entries and file contents are certain only after a sync. Its system calls follow a
script that can make any of them fail or kill the process; power loss afterwards may bring back every
binding that was not yet synced away. `LeasePublication` publishes and sweeps lease files on it,
`ConfigArtifacts` publishes the configuration and recovers stale artifacts, and `SecretRotation` rotates
the archive password between two secret-store slots under a journal. A theorem about "every script" is a
theorem about every crash point.

**Parsers and rewriters** (`src/metadata_persistence.rs`, `src/flac_envelope.rs`,
`reference_source_lock.rs`, `scripts/dvda_mlp_fixture_check.py`). `ApeTag` is the bounded APEv2 reader
against its encoder; `ChangeNormalizer` the merge of metadata edits; `FlacScanners` and `FlacEnvelope`
the two ID3v2 prefix scanners, the range that normalisation keeps and the decode guard (STREAMINFO is
section 8.2 of RFC 9639); `SourceLock` (with `Lines`, `Assignments`, `LineRewriting` and `SourceSites`)
and `HashPreimage` the source-lock hash input; `MlpReassembly` the MLP reframer. `Text` is trimming,
case folding and the order of strings.

Where code and promise part, the code is kept and the exact condition is proved:

- Coverage does not always carry conflicts over. `CoverageIsConflictMonotoneExactly` says when it does,
  for every pair of claims, and `NamespaceOnlyCoverageFails` gives an input.
- A claim on a missing path is a claim on where its suffix leads lexically. That is not where the path
  leads later if it runs into a link of today: a dangling link, or one that `..` leads back to.
  `LaterLookupLandsAsResolved` is the exact condition, which can be computed before the claim is made;
  without `..` it is that the first missing component is no dangling link (`DanglingLinksDecide`). Claims
  on a dangling link and on its referent do not conflict (`DanglingLinksHideAConflict`).
- Retaining a secret reference that is neither published nor stored publishes it all the same.
  `ConfigStore.Save` proves that this is the only way to publish a reference without a secret, and
  `Accepts` that from then on every new password is refused.
- `canonicalize_assignment_value` appends the comment twice. Erasure is still exact, because the doubled
  comment can be halved again.
- A lone zero byte pending between MLP packets is dropped as padding. `FramingIsIndependentOfCuts` is an
  equivalence with the absence of such cuts.
- The two ID3v2 scanners treat the footer bit of version 2 and 3 tags differently. `ScannersAgree` is an
  equivalence, and `ScannersCanDisagree` gives a family of files.

## Model

| member | source | states |
|---|---|---|
| Claims.ConflictIsSymmetric | src/concurrency.rs:678-732 | conflicting is symmetric over inode, resolved, namespace and dependency clauses |
| ClaimVerdicts.ConflictIsExactly | src/concurrency.rs:678-732 | two resolved claims conflict if and only if one writes and they share an inode, or one reaches the other where their paths lead or as they are spelled, or a writer reaches a link that the other's lookup follows |
| ClaimVerdicts.ReadersNeverConflict | src/concurrency.rs:679-681 | two read claims never conflict, whatever they claim |
| ClaimVerdicts.SeparatedClaimsDoNotConflict | src/concurrency.rs:678-732 | claims on objects that are found apart, under spellings apart, do not conflict if the objects are not hard links of one file and no writer reaches a link that leads to the other |
| ClaimVerdicts.HardLinksConflict | src/concurrency.rs:475-491 | claims on two names of one file conflict if either writes, whether the names or what they lead to are claimed |
| ClaimVerdicts.CoverageIsExactly | src/concurrency.rs:735-767 | one resolved claim covers another if and only if it is as strong and as broad, reaches it where it leads or as it is spelled, and every link the other depends on is one of its own or within its reach |
| Claims.CoverageIsConflictMonotoneExactly | src/concurrency.rs:735-767 | for claims with absolute pathnames, a covering claim blocks everything the covered one blocks if and only if it claims the whole tree, or the inode, both pathnames and every dependency stay guarded |
| Claims.AliasFreeCoverageIsConflictMonotone | src/concurrency.rs:735-767 | between claims that cross no alias, the covered one without inode, coverage always carries conflicts over |
| ClaimIdentity.NamespaceOnlyCoverageFails | src/concurrency.rs:762-766 | a claim made before a link is retargeted covers, by namespace alone, one made after it, and misses a claim that conflicts with that one |
| FileTree.WalkComposes | src/concurrency.rs:326-424 | looking a path up is looking up its front and then its rest, with the links followed adding up |
| FileTree.CanonicalizationIsIdempotent | src/concurrency.rs:332-424 | a canonical path looks up to itself without crossing a link |
| Resolution.NormalizeProspective | src/concurrency.rs:366-390 | the suffix loop succeeds exactly when no prefix climbs above the anchor, and yields the lexical form |
| Resolution.ResolveFollowReferentOrdered | src/concurrency.rs:332-424 | the prefix-pushing loop is the tree's own lookup where everything exists, else the canonical longest existing prefix with the normalised rest, with the same errors |
| Resolution.LaterLookupIsDetermined | src/concurrency.rs:332-424 | whatever directories and files are added, a later lookup that succeeds finds what following the links of today and assuming the missing names predicts |
| Resolution.LaterLookupLandsAsResolved | src/concurrency.rs:366-399 | in every later tree in which the path exists its lookup lands on the resolved path if and only if the predicted one does, and always does so for a path that exists already |
| Resolution.ProspectiveSuffixIsTheFutureLookup | src/concurrency.rs:366-399 | a missing path lands on the resolved path in every later tree if no name on the lexical way is a link |
| Resolution.DanglingLinksDecide | src/concurrency.rs:366-399 | where the missing part has no `..`, the later lookup lands on the resolved path if and only if the first missing component is not a dangling link |
| Resolution.DotDotLeavesTheReferent | src/concurrency.rs:366-390 | with `..` a dangling link can be left again: a path that lands on its resolved path all the same |
| Resolution.DotDotLeadsToALink | src/concurrency.rs:366-390 | with `..` a missing name can lead back to a link: a path that does not land on its resolved path |
| Resolution.ResolvedPathLiesUnderAncestor | src/concurrency.rs:332-424 | the resolved path is the ancestor followed by a suffix free of parent steps |
| Discovery.LookupStaysWithin | src/concurrency.rs:540-646 | a set of links that is closed under the targets of its members contains every link a lookup follows |
| Discovery.NamespaceDiscovery.Visit | src/concurrency.rs:540-646 | exploring one link, new or seen, terminates and leaves the visited set closed |
| Discovery.NamespaceDiscovery.Discover | src/concurrency.rs:540-646 | the recursive scan closes the visited set over a path and adds only links the lookup follows |
| Discovery.NamespaceSymlinkDependencies | src/concurrency.rs:514-538 | the list has no duplicates, and whenever the lookup does not fail it is exactly the links that the lookup follows, those behind other links' targets too; success means that whatever precedes a name, in the path or in a listed link's target, is missing or leads to a directory |
| ClaimIdentity.ResolveWithSemantics | src/concurrency.rs:431-508 | succeeds exactly when the path resolves (and ends in a name, for namespace claims), and its identity is the lookup's; a path that is found records its inode exactly if it leads to a regular file, an entry of a directory that is found exactly if it is a file or a link |
| ClaimIdentity.FilesAreRecorded | src/concurrency.rs:475-491 | the inode recorded through the resolved path is that of the object the claimed path leads to |
| ClaimIdentity.AliasesCannotHideAConflict | src/concurrency.rs:426-510 | two claims conflict if their paths lead to one object now or in any later tree, whatever spelling and links they use, provided that missing paths are anticipated to land where they resolve |
| ClaimIdentity.DanglingLinksHideAConflict | src/concurrency.rs:366-399 | without that proviso: write claims on a dangling link and on its missing referent do not conflict, and both paths lead to one file once it is created |
| ClaimIdentity.SubtreeClaimsGuardTheirContents | src/concurrency.rs:678-732 | under the same proviso a subtree claim conflicts with every claim on what is, or comes to be, below its object, by whatever path |
| ClaimIdentity.ReplacingAFollowedLinkConflicts | src/concurrency.rs:706-732 | writing the entry of any link that a reader's lookup follows conflicts with the reader |
| DescriptorCodec.DescriptorPathInterner.Intern | src/concurrency.rs:885-904 | interning only appends, keeps the table free of duplicates, and fails exactly when a new path finds the table full |
| DescriptorCodec.DescriptorPathInterner.CompactClaimV3 | src/concurrency.rs:931-952 | the compact claim expands to the claim in the table as it then is |
| DescriptorCodec.ClaimsSurviveGrowth | src/concurrency.rs:954-1012 | claims compacted earlier expand the same after the table has grown |
| DescriptorCodec.ExpansionRejectsExactlyOutOfRange | src/concurrency.rs:954-1012 | expansion fails exactly when some index is out of range |
| DescriptorCodec.SchemasAgree | src/concurrency.rs:960-1012 | schema 2 and schema 3 expand to the same claims |
| DescriptorCodec.EncodeClaims | src/concurrency.rs:1014-1040 | encoding any list of claims decodes to that list, and succeeds exactly when it mentions at most 2^32 distinct paths |
| LeaseSafety.StepKeepsInvariant | src/concurrency.rs:2214-2293 | every step of every kind keeps shape, ownership, lock exclusion, claim exclusion and scan soundness |
| LeaseSafety.RunKeepsInvariant | src/concurrency.rs:2214-2293 | so does every run |
| LeaseSafety.ConflictingClaimsNeverCoexist | src/concurrency.rs:2214-2293 | in every state of every run, two published descriptors that are locked or outlive their owner hold no conflicting claims unless they are of one group or one queue execution |
| LeaseSafety.DeadOwnersLeaseCanBeRecovered | src/concurrency.rs:1860-1990 | when the only process that holds a lease dies, an ephemeral mutation stops being held; any other lease stays held until it is recovered, which any process then can do and which locks it |
| LeaseSafety.OwnersNeverLoseTheirLock | src/concurrency.rs:1219-1284 | in every state of every run every live owner holds its lock, an unlocked description has no owner and was never exported, and a descriptor has one lock holder |
| LeaseSafety.OwnersNeverReturn | src/concurrency.rs:1219-1284 | an owner count that is zero stays zero in every continuation |
| LeaseSafety.FinalOwnersLetGo | src/concurrency.rs:2134-2165 | the final owner of a lease that was never exported lets go: a journal's lock is gone at once even if forked processes have the file open, any other lock once the file is closed that nobody else has open; no registration is left |
| LeaseSafety.DroppedGuardsRetire | src/concurrency.rs:2050-2090 | a dropped guard takes an ephemeral descriptor's name away unless authority was exported, no other name, and no lock |
| LeaseSafety.ExportedIsNeverUnlocked | src/concurrency.rs:2026-2037 | an exported description is never explicitly unlocked in any continuation |
| LeaseSafety.UnscannedPublicationCanCollide | src/concurrency.rs:1629-1637 | two publications of claims without a scan break exclusion |
| LeaseAdmission.CoordinationRoot.ScanAll | src/concurrency.rs:2225-2276 | the scan stops exactly when some descriptor blocks the request, and takes away only abandoned ephemeral descriptors |
| LeaseAdmission.CoordinationRoot.AcquireGrouped | src/concurrency.rs:2214-2293 | an admission succeeds exactly when no published journal, claim, staging or live ephemeral descriptor of another group and execution holds a conflicting claim, and its lifecycle is free; it is a run of the protocol, and ends with the descriptor published and locked; a refusal changes neither files nor bodies |
| LeaseAdmission.SiblingsAreTolerated | src/concurrency.rs:2229-2233 | descriptors of the request's group or of its queue execution never refuse it, however their claims conflict |
| LeaseAdmission.CoordinationRoot.AcquireTwo | src/concurrency.rs:2229-2276 | after one admission another succeeds if and only if it would have before and the first does not stand in its way: it is a sibling, or no claims conflict, and not the same singular lifecycle |
| LeaseAdmission.RetiringKeepsBlocks | src/concurrency.rs:2719-2736 | retiring abandoned descriptors during the scan neither creates nor removes a reason to refuse |
| CrashDisk.PowerLossIsAChoice | src/concurrency.rs:1753-1840 | power loss as a choice of possible bindings and unsynced contents is what the relation allows |
| CrashDisk.EveryPowerLossIsAChoice | src/concurrency.rs:1753-1840 | and everything the relation allows is such a choice |
| LeasePublication.PowerLossKeepsLeaseSafe | src/concurrency.rs:1739-1827 | power loss leaves every durable lease name absent or complete |
| LeasePublication.CleanUp | src/concurrency.rs:1326-1375 | cleanup removes a name only while it still leads to the file it was armed for |
| LeasePublication.Create | src/concurrency.rs:1739-1843 | wherever creation fails or dies, every lease name stays absent or complete and no name is clobbered; on success the name survives power loss; on failure with cleanups done the names are as before, except where the guard itself could not be armed; without faults it succeeds exactly when both names are free |
| LeasePublication.SweepStaging | src/concurrency.rs:1579-1626 | sweeping never takes a published name or the name of a locked file, and on success leaves no abandoned staging name; without faults it succeeds exactly when every abandoned name leads to a regular file |
| LeasePublication.RunDirectory | src/concurrency.rs:1561-1626 | in every run of creations, sweeps, owner deaths and power losses each moment follows from the one before by its action, lease names are absent or complete throughout, and a settled lease stays settled in all later moments |
| ConfigArtifacts.RecoverableNow | src/config.rs:1149-1255 | a directory is acceptable and settles at a content if and only if it satisfies the invariant for its present bindings |
| ConfigArtifacts.Recover | src/config.rs:1149-1296 | refused directories stay unchanged; otherwise any failure or death keeps what recovery settles on, now and after power loss, and success settles it durably with no artifact left; without faults it succeeds exactly when the directory is not refused and a temporary name is free if one is needed |
| ConfigArtifacts.RestoreBackup | src/config.rs:1369-1484 | restoring through the first free of 128 temporary names never loses the sole valid copy, and without faults succeeds exactly when one is free |
| ConfigArtifacts.PowerLossKeepsRecoverable | src/config.rs:1263-1295 | every power loss leaves a directory that settles at the same content |
| ConfigArtifacts.RecoverThroughCrashes | src/config.rs:1149-1296 | recovery interrupted anywhere any number of times keeps what one uninterrupted recovery of the first directory reaches; an undisturbed last attempt reaches it exactly when a temporary name is free or none is needed, so whenever one of its names is new |
| ConfigArtifacts.RecoverAfterBoot | src/config.rs:1149-1296 | from any acceptable directory as a boot leaves it, an undisturbed attempt with a new name after any interrupted ones settles it, and other names lead where they did |
| ConfigArtifacts.WriteAndPublish | src/config.rs:1517-1566 | during publication the target is the old or the new file; a durable outcome is certain, a failed one leaves the old; without faults it is durable exactly when the temporary name is free |
| ConfigArtifacts.PowerLossDuringPublication | src/config.rs:1517-1566 | power loss during publication settles at the old or the new file |
| SecretRotation.ConfigStore.Reconcile | src/secret_store.rs:418-470 | reconciliation deletes only journalled references that are not published, and drops the journal only when all of them are gone; without faults it fails exactly on an invalid journal |
| SecretRotation.ConfigStore.Save | src/config.rs:2098-2273 | at every death and after every failure the password is the old or the requested one, the live slot is untouched and stored slots are accounted for; the published reference is stored exactly unless an unbacked reference was retained; a full success leaves only the published slot; without faults it succeeds exactly on the requests of `Accepts`, and a refused one changes nothing but what reconciliation clears; a full success ends in the one state `SavedAs` |
| SecretRotation.PasswordsRotateOnlyWhenTheyChange | src/config.rs:2123-2184 | setting the password in force publishes what was published and takes from the store only what reconciliation does; another password is published by another reference and the old secret is revoked |
| SecretRotation.HintsAreAdopted | src/config.rs:2123-2150 | with nothing published, a hint that holds the password is published as it is and the store does not change |
| SecretRotation.SettingAgainChangesNothing | src/config.rs:2123-2184 | setting the same password again leaves everything as it is |
| SecretRotation.ConfigStore.Load | src/config.rs:1815-1980 | migration of a cleartext password keeps the password at every death and failure; without faults loading fails exactly on a file that does not parse or whose reference contradicts its cleartext, and a successful load ends in the one state `LoadedAs`, with no cleartext and no journal unless the journal is refused |
| SecretRotation.RunSessions | src/config.rs:1809-1980 | in every run of saves and loads each state follows from the one before by its session, stored slots are accounted for throughout, and the published reference is stored in every state before which no save adopted an unbacked reference; no journal means nothing but the published slot is stored |
| SecretRotation.AdoptingAnUnstoredReference | src/config.rs:2123-2184 | a save that retains an unstored reference when none is published publishes it; then every new password is refused and clearing succeeds |
| ApeTag.EntryAtSound | src/metadata_persistence.rs:515-562 | reading an item yields an entry whose encoding is the bytes read |
| ApeTag.ValidKeysAre | src/metadata_persistence.rs:346-353 | a key is valid if and only if it has 2 to 255 printable ASCII bytes and is none of the four reserved words in any mix of cases |
| ApeTag.HeadersRepeatTheirFooter | src/metadata_persistence.rs:396-510 | a header agrees with its footer if and only if version, size and count are the same bytes and its header bit is set |
| ApeTag.DescriptorFlagsAreBits | src/metadata_persistence.rs:396-510 | the three flag tests, as bits of the four bytes they are read from |
| ApeTag.RegionsParseUniquely | src/metadata_persistence.rs:510-571 | a region parses into a list of entries if and only if it is that list's encoding |
| ApeTag.CapacityNeverFallsShort | src/metadata_persistence.rs:388-394 | the allocation clamp never falls below the count of a region that parses |
| ApeTag.TagsTileTheirRegion | src/metadata_persistence.rs:510-571 | the raw items of an accepted tag tile the item region in order and the footer counts them |
| ApeTag.ReadItems | src/metadata_persistence.rs:510-571 | the cursor loop succeeds exactly when the region parses, with the same first error |
| ApeTag.ReadNativeApeTag | src/metadata_persistence.rs:396-580 | the reader's result, repairs and errors for every file |
| ApeTag.TaggedFilesAreLaidOut | src/metadata_persistence.rs:396-480 | audio, optional header, region, footer and optional ID3v1 tag are where the reader looks, unless the tail accidentally looks like ID3v1 |
| ApeTag.WrittenTagsReadBack | src/metadata_persistence.rs:396-580 | every bounded list of entries that is written reads back as that list, from exactly the bytes written |
| Listings.ListingIsUnique | src/metadata_persistence.rs:1505-1507 | a set has one listing in the order of names |
| ChangeNormalizer.RemovalsStayWithTheirCarrier | src/metadata_persistence.rs:1215-1350 | every spelling that a change removes belongs to the change's own carrier |
| ChangeNormalizer.NamesMeanTheirField | src/metadata_persistence.rs:1223-1300 | free text means a numbering field to a backend if and only if it is one of the field's names there, in any mix of cases, with blanks around it or not |
| ChangeNormalizer.EverySpellingIsRemoved | src/metadata_persistence.rs:1322-1350 | the aliases that a change removes are all the names of its field in that backend and no others |
| ChangeNormalizer.UntypedBackendsAreRefused | src/metadata_persistence.rs:1417-1433 | which backends are refused before anything else |
| ChangeNormalizer.ResultDependsOnTheSetOnly | src/metadata_persistence.rs:1417-1530 | a set of changes has one result, success or error, so order and repetition cannot matter |
| ChangeNormalizer.ErrsExactlyOnDisagreement | src/metadata_persistence.rs:1509-1519 | changes are refused exactly when two to one carrier say different texts, or one a text and the other a deletion, an empty value being one |
| ChangeNormalizer.NormalizedTypedLoftyChanges | src/metadata_persistence.rs:1417-1530 | the merging loop returns the result that the set of changes has |
| FlacScanners.SynchsafeInverse | src/flac_envelope.rs:395-406 | four-byte decoding is the exact inverse of 28-bit synchsafe encoding |
| FlacScanners.DetectFlacStreamOffset | src/metadata_persistence.rs:889-952 | the scanner's result for every file, however the reads are cut |
| FlacScanners.ScannersAgree | src/flac_envelope.rs:302-379 | where both scanners see a stream they report the same offset if and only if no version 2 or 3 tag sets the footer bit |
| FlacScanners.ScannersCanDisagree | src/flac_envelope.rs:317-336 | on such a file the offsets are 10 and 20 |
| FlacScanners.TotalSamplesAreRead | src/flac_envelope.rs:356-363 | whatever rate, channels and sample size a STREAMINFO block declares, its total is read from the 36 bits behind them, zero meaning unknown |
| FlacScanners.StreamsAreMarked | src/flac_envelope.rs:336-356 | which bytes make a native stream with a STREAMINFO block in front |
| FlacEnvelope.WrappedFlacNormalizationRange | src/flac_envelope.rs:230-285 | nothing for an unwrapped source; of a conversion exactly the body; for any pair of files nothing is cut off but one complete leading tag and the source's own trailing tag, and where nothing is cut off neither is left |
| FlacEnvelope.ExactlyTheBodyIsKept | src/flac_envelope.rs:230-285 | for optional prefix, native body and optional copy of the source's tag, the range is exactly the body |
| FlacEnvelope.RerunStripsNothing | src/flac_envelope.rs:230-285 | rerunning on the body strips nothing if and only if the body does not end in a tag block |
| FlacEnvelope.RunsStayWithinTheExtent | src/flac_envelope.rs:140-174 | a decode run is accepted exactly while the sum fits 64 bits and the extent, and then counts the samples |
| FlacEnvelope.AcceptedErrorsAreAtTheEnd | src/flac_envelope.rs:134-174 | an error is accepted only where completion validates and no further sample would be |
| FlacEnvelope.UnverifiedFilesAcceptNothing | src/flac_envelope.rs:113-138 | only a whole file with a trailing tag and a declared extent ever has an error accepted |
| FlacEnvelope.TaggedFilesAcceptTheirEnd | src/flac_envelope.rs:113-138 | of an optional prefix, a native body and a trailing tag, an error is accepted if and only if the whole file is decoded and exactly the samples that the body declares have been |
| Lines.SplitLosesNothing | reference_source_lock.rs:122-135 | splitting into lines loses and reorders nothing |
| Lines.SplitOfJoin | reference_source_lock.rs:99-110 | lines put together split into the same lines |
| Assignments.CanonicalLineParses | reference_source_lock.rs:37-68 | a canonical line has the same parts, the value replaced and the comment doubled |
| Assignments.CanonicalEqualExactly | reference_source_lock.rs:37-68 | two assignment lines have the same canonical form if and only if their texts before and behind the value are the same, so that one is the other with its own value put in |
| LineRewriting.LockTextKeepsOthers | reference_source_lock.rs:83-136 | lines without a root block come out unchanged and in order |
| LineRewriting.LockTextAtTheSite | reference_source_lock.rs:83-136 | with one root block the output is the input with its one version line made canonical |
| LineRewriting.RewriteLock | reference_source_lock.rs:70-148 | the block loop writes that text, and fails exactly when a root block has no version or there is not exactly one |
| LineRewriting.RewriteFirst | reference_source_lock.rs:170-205 | the line loop makes the first version line of the section canonical and keeps the rest |
| SourceLock.CanonicalizeManifest | reference_source_lock.rs:156-219 | if some line assigns a version behind a `[package]` line with no other bracketed line in between, the first such line gets its value replaced and nothing else changes; if none does, the version is missing |
| SourceLock.PackageVersionIsErased | reference_source_lock.rs:156-219 | a manifest cut at its first `[package]` line and at the first version behind it comes out with that one value replaced, whatever stands before and behind |
| SourceLock.CanonicalizeRootLockPackageVersion | reference_source_lock.rs:70-148 | the root blocks are those opened by `[[package]]` that have the root's name line and no `source =` line; if one of them has no version that is the error, else if there is not exactly one their number is, else its first version gets its value replaced and nothing else changes |
| SourceSites.TestsRead | reference_source_lock.rs:89-125 | each test of a line as the letters on it with blanks around |
| SourceLock.CanonicalTextsEqualExactly | reference_source_lock.rs:150-219 | two accepted manifests, or two accepted lock files, have the same canonical text if and only if they agree everywhere outside the one version value |
| HashPreimage.PreimageIsInjective | reference_source_lock.rs:221-238 | different lists of paths and contents never give the same stream |
| HashPreimage.FramesTellTheirLength | reference_source_lock.rs:232-235 | a frame is the length in eight big-endian bytes and then the bytes |
| HashPreimage.HashReferenceSourceFiles | reference_source_lock.rs:150-238 | the hasher is fed the framed stream of all files, the Cargo files in canonical form, or nothing counts if one cannot be read or made canonical |
| HashPreimage.SourceLockIsExact | reference_source_lock.rs:150-238 | two source trees give the same stream if and only if all files agree byte for byte and the two Cargo files agree outside the root package version |
| MlpReassembly.Reassemble | scripts/dvda_mlp_fixture_check.py:54-104 | output, pending bytes, all counts with the exact peak of pending bytes, and errors of the reassembly loops for every list of packets |
| MlpReassembly.HeadersCarryTheLength | scripts/dvda_mlp_fixture_check.py:40-53 | the length of a unit is twice the twelve low bits of its first two bytes, whatever the check nibble, and less than two words is refused |
| MlpReassembly.TheFirstPointerLeads | scripts/dvda_mlp_fixture_check.py:70-83 | the first packet's pointer minus five says how much is skipped, as a leading fragment or as padding if it is all zeros; a short pointer, or one past the payload, is refused |
| MlpReassembly.ReassemblyConservesBytes | scripts/dvda_mlp_fixture_check.py:54-104 | all input, in order, is leading fragment, zero padding, whole units or carry; the output is the units |
| MlpReassembly.OutputReframesToItself | scripts/dvda_mlp_fixture_check.py:54-104 | the output fed back as one packet comes out unchanged with nothing pending or dropped |
| MlpReassembly.FramingIsIndependentOfCuts | scripts/dvda_mlp_fixture_check.py:82-101 | a stream of units comes out whole if and only if no packet ends right after the zero first byte of a unit |
| MlpReassembly.UncleanCutLosesTheUnit | scripts/dvda_mlp_fixture_check.py:82-101 | one unit cut after its zero first byte: the byte is dropped as padding and the unit never comes out |

## Left out

- LeaseSafety.ConflictingClaimsNeverCoexist: covers descriptors published through the scan; `PersistentLease::create` called with claims, and reopening an ephemeral descriptor, bypass it in the program and are no events of the protocol (`UnscannedPublicationCanCollide` shows why).
- ClaimIdentity.ResolveWithSemantics: works on a tree that does not change meanwhile; renames between the calls of one resolution are not modelled.
- Resolution.ResolveFollowReferentOrdered: paths are sequences of components without `.`, and every absolute path starts at one root; Windows prefixes are not modelled.
- Resolution.LaterLookupLandsAsResolved: later trees keep every entry and gain directories and files only; entries that are removed, replaced or added as links in between are not modelled.
- Discovery.NamespaceSymlinkDependencies: the kernel's link limit is 40; other platforms' limits would change that one constant.
- ClaimVerdicts.ConflictIsExactly: speaks of the dev and inode numbers that the claims recorded; `FilesAreRecorded` ties them to the tree for paths that are found. A missing path whose resolved path exists, which `..` can bring about, records that file's.
- DescriptorCodec.EncodeClaims: JSON, UUID checks, the size limit of a descriptor file and schema 1 with its empty namespace paths are not modelled, and paths round-trip up to component equality.
- LeaseAdmission.CoordinationRoot.AcquireGrouped: runs alone; its steps interleaved with every other process are in `LeaseProtocol`. I/O errors while reading descriptors, and reclaiming empty or invalid descriptor files, are not modelled.
- LeasePublication.Create: encoding is one opaque content, permissions are one fallible step, and the registry lock keeps other writers out of the directory.
- ConfigArtifacts.Recover: artifacts are visited in any order, where the program sorts them; identity changes of a file between two checks are not modelled, and a parse is a property of the contents.
- ConfigArtifacts.WriteAndPublish: one temporary name; the loop over 128 of them around it is that of `RestoreBackup`. It assumes that recovery came first, as it does in a save, and a regular or missing target.
- SecretRotation.ConfigStore.Save: safety is for process deaths; power loss after an unconfirmed rename is not modelled, nor is a configuration that is valid TOML but fails the schema. References are deleted one by one, which also covers backends that delete them in one transaction.
- SecretRotation.RunSessions: retiring the journal without the secret backend, an explicit repair command that accepts orphans, is no session.
- ApeTag.ReadNativeApeTag: reads a file held in memory; I/O errors are not modelled, and keys stay bytes where the program also makes a string of the valid ones.
- ChangeNormalizer.NormalizedTypedLoftyChanges: the library's sort is an insertion sort here; all typed keys but the numbering fields are one constructor with their debug name.
- FlacScanners.DetectFlacStreamOffset: read errors are not modelled.
- SourceLock.CanonicalizeManifest: works on decoded text; `HashPreimage` puts the decoding in front, for any encoding that reads back what it wrote.
- HashPreimage.HashReferenceSourceFiles: SHA-256 itself is not modelled; the theorem is about the bytes it is given.
- MlpReassembly.Reassemble: the constant `resync_bytes` and the sector parser in front are left out.
- SQLite containment records, supervisor processes, process identity and task-local test roots: foreign calls and test support.
- Field taxonomies, capability tables, the UI, log writing, and the Reed-Solomon probes: settled by one branch, reporting, or not part of this model.
