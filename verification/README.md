# ConfHub, verified

ConfHub is a multi-tenant configuration store. Every (namespace, key) holds an append-only chain of
versions with two pointers, Head and Stable. Around the store sit an access list, quotas, gray
release, signatures, watching, an audit trail and a binary snapshot format. This project models
those components in Dafny and proves what they are for.

## How it is laid out

| files | source | role |
|---|---|---|
| `LineDiff`, `Sequences` | `internal/version/diff.go` | the edit script, and that it is optimal |
| `Wire`, `SnapshotCodec`, `SnapshotWriter`, `SnapshotReader` | `internal/snapshot` | the byte format, its printer and its parser |
| `StoreEntry`, `StoreMemory` | `internal/store` | one version chain; the map of all chains |
| `Gray`, `Signing`, `Validate`, `Access`, `Quota`, `ClientTags` | `internal/gray`, `internal/sign`, `internal/ns`, `internal/quota`, `internal/clientctx` | the checks around the store |
| `Audit` | `internal/audit` | the ring buffer |
| `Watch`, `WatchWait`, `WatchRace` | `internal/watch` | subscriptions as a machine of channel operations; the long poll among publishers; cancellation during a send |
| `HubModel`, `HubInvariants`, `HubRuns` | `put.go`, `get.go`, `hub.go` | the hub as a state machine, its invariants, its runs |
| `HubLaws`, `HubPromises` | the same files | for each call: when it succeeds, why it fails, and the whole state after it; what callers can rely on over runs |
| `HubSnapshot`, `HubSizes`, `HubImport`, `HubSamples` | `snap.go` | export and import; that exports fit the format; what importing an arbitrary snapshot promises; short runs used as inputs |
| `Hub` | the same files | the hub object; every method is proved to be the step of the machine |
| `Base`, `Meta`, `Order`, `Text` | `internal/errors`, `internal/meta`, Go's standard library | shared vocabulary |

Strings and byte slices are sequences of bytes. Objects whose methods change fields are classes;
each mutating method is tied to a function on the object's abstract value, and the theorems are
about those functions. Every hub method runs under one mutex, so a run of the hub is a list of
calls (`HubModel.Op`), and the theorems about runs hold for every list, every configuration and
every key ring.

What the source takes from outside is an argument here: clock readings, SHA-256, HMAC, Ed25519,
CRC-32, JSON decoding, the bucket hash of a client id, the order in which Go iterates a map, and what arrives on a
channel while `Wait` blocks. The theorems hold for all of them; those that need an assumption
about a primitive state it: `Signing.VerifyAcceptsSign`, and the ones about a MAC that belongs to one
message (`Signing.MACIsForOneMessage`, `HubPromises.AcceptedMACIsForOneMessage`,
`HubPromises.SignaturesCannotMove`).

Where the code and its comments differ the model follows the code. The comment above `Eval`
(`internal/gray/eval.go:5-10`) says that percent 0 without an allow list is a miss; that holds exactly
for rules with tags (`Gray.PercentZeroMissesIff`), as `IsZero` is tested first. A refused actor is
recorded by `Put` and `RollbackActor` but not by `DeleteKey` and `DeleteNSActor`; `Grant` does not
ask whether the hub is closed; a created namespace is audited under its owner, a refused one under
the actor.

## What fails, and exactly when it holds

* A signed 64-bit number survives the varint exactly when it is in range (`Wire.I64RoundTrip`).
* Tags survive the header exactly when they are printable (`ClientTags.RoundTripIffPrintable`,
  `ClientTags.TagsCanBeLost`).
* A pair of names shares its map key with another pair exactly when one of the two contains a NUL
  byte (`StoreEntry.NsKeyCollidesIff`); validated names contain none.
* A rule with percent 0 and no allow list misses every client exactly when it has tags
  (`Gray.PercentZeroMissesIff`, `Gray.PercentZeroCanHit`).
* Normalising a rule is a function of the rule exactly when it is refused anyway or no two tag keys
  trim to the same key with different values (`Gray.NormalFormIgnoresOrderIff`,
  `Gray.OrderCanShow`).
* Normalising a rule keeps every client's answer exactly for the rules that pass a test on the rule
  (`Gray.NormalFormKeepsAnswersIff`). The rule with percent 0 and the one id " " does not: Put turns it
  into no rule at all and releases the version to everyone (`Gray.NormalFormCanReleaseToAll`,
  `HubSamples.PutCanReleaseToAll`).
* Decoding can end in a panic (`SnapshotCodec.DecodeCanPanic`). Reading a string panics exactly when
  its length and the cursor add up to 2^63 or more (`Wire.BytesPanicIff`), reading an allow list also
  when it announces more strings than Go can allocate. The parser has such inputs as an outcome of
  its own, so `SnapshotReader.Decode` says for every input whether decoding returns an error, panics
  or yields a blob.
* A damaged snapshot is refused (`SnapshotCodec.DamagedIsRefused`), but only if it still begins with the
  magic: any other text of at least 8 bytes is taken if it is JSON, which has no checksum, while shorter
  JSON is refused (`SnapshotCodec.ForeignIsJson`).
* Rolling back to the current head is not always a no-op (`StoreEntry.RollbackToHeadCanMoveStable`);
  it moves Stable exactly when a version skipped by the latest rollback was released and the head has
  passed it (`StoreEntry.RollbackToHeadMovesStableIff`).
* An import accepts chains that no run produces (`HubImport.ImportAcceptsUnreleasedStable`). A chain
  can come about by creating, appending and rolling back exactly when its pointers pass a test on the
  chain alone (`StoreEntry.LivedIffAttainable`), and after a successful import all pointers are in
  closed form exactly when every stored chain passes it (`HubImport.ImportedChainsHaveHistoryIff`).
* A failed import is not atomic (`HubImport.RejectedImportCanChangeHub`): import is all or nothing
  exactly when no chain is malformed or the snapshot brings the namespaces, owners and grants that
  the hub has already (`HubImport.ImportIsAtomicIff`).
* A successful import can break what every run keeps. Importing a well-formed snapshot into a safe hub
  leaves a safe hub exactly when the snapshot is sound for that hub (`HubImport.ImportIsSafeIff`).
  Part by part: counters can be stale or wrong (`HubImport.ImportCanLeaveStaleCounter`,
  `HubImport.ImportCanTrustWrongCounter`, `HubImport.ImportedCountersExactIff`); an owner can keep a
  role in a namespace that is gone (`HubImport.ImportCanKeepOwner`,
  `HubImport.ImportedRegistryIff`); unsigned versions are stored although signing is required
  (`HubImport.ImportAcceptsUnsigned`, `HubImport.ImportedChainsVerifyIff`); the index of last events
  can speak of keys that are gone (`HubImport.ImportCanLeaveStaleEvent`,
  `HubImport.ImportedIndexAgreesIff`).
* A subscription cancelled in the middle of a send crashes the publisher
  (`WatchRace.CancelCanCrash`), exactly at a channel send that follows a cancellation
  (`WatchRace.CrashIff`); cancellations between sends are harmless
  (`WatchRace.IdleCancelsAreAtomic`).
* A wait can time out although a newer event was published: it can exactly when the index knows
  nothing newer at the start and at the timer, and it must exactly when, in addition, nothing newer
  was published while it was subscribed (`WatchWait.WaitCanTimeOutIff`,
  `WatchWait.WaitMustTimeOutIff`, `WatchWait.GapEventCanBeMissed`). A wait for a whole namespace
  never finds what fell between its first look and its subscription
  (`WatchWait.NamespaceWaitIgnoresGap`).

## Model

| member | source | states |
|---|---|---|
| LineDiff.LcsIsUpperBound | internal/version/diff.go:90-100 | no common subsequence of two line lists is longer than the value of the table's recurrence |
| LineDiff.RewriteKeepsCommon | internal/version/diff.go:84-127 | any edit script from a to b, not only this one, keeps a common subsequence, and its length is fixed by how much it keeps |
| LineDiff.ScriptRewrites | internal/version/diff.go:101-127 | from any cell, eq and del texts are exactly the rest of a, eq and add texts exactly the rest of b, and as many lines are kept as the cell says |
| LineDiff.ScriptNumbered | internal/version/diff.go:101-127 | old line numbers run on without gaps over eq and del, new ones over eq and add, and each is absent on the side not touched |
| LineDiff.ScriptKeepsLongestCommon | internal/version/diff.go:84-127 | the kept lines are a common subsequence of a and b and no common subsequence is longer |
| LineDiff.ScriptIsShortest | internal/version/diff.go:84-127 | no script that rewrites a into b has fewer operations, or fewer deletions and additions; the length is the sum of the two minus what is kept |
| LineDiff.DeletionsComeFirst | internal/version/diff.go:110-117 | ties go to deletions, so an addition is never directly followed by a deletion |
| LineDiff.ScriptIsTrivialIffSame | internal/version/diff.go:84-127 | the script shows no change if and only if the line lists are equal |
| LineDiff.DiffShowsNothingIffOnlyEndingsDiffer | internal/version/diff.go:48-82 | the diff of two payloads shows no change if and only if they differ at most in line endings |
| LineDiff.EndingsBecomeLF | internal/version/diff.go:48-56 | CR LF becomes one LF wherever it stands, a CR that no LF follows becomes an LF, and text without CR stays as it is |
| LineDiff.LinesReadBack | internal/version/diff.go:48-56 | lines joined by line feeds are read back as they were, and the empty payload has none |
| LineDiff.FillTable | internal/version/diff.go:85-100 | filling backwards in place leaves in every cell the length of the longest common subsequence of the two suffixes, all indices in bounds |
| LineDiff.LcsChanges | internal/version/diff.go:84-127 | the table and the greedy walk emit exactly the script the theorems are about |
| LineDiff.Diff | internal/version/diff.go:58-82 | a summary only exactly when the payloads are equal, contain NUL or invalid UTF-8, or have more than 400 lines; otherwise joining either side of the changes gives that payload back up to line endings |
| Wire.UvarintRoundTrip | internal/snapshot/import.go:19-26 | reading a written 64-bit number gives it back and stops exactly behind it (ULEB128, section 7.6 of DWARF version 5) |
| Wire.UvarintIsLEB128 | internal/snapshot/codec.go:11-15 | the bytes written carry seven bits of the number each, lowest first, marked by the top bit except the last, and none is wasted (section 7.6 of DWARF version 5) |
| Wire.I64RoundTrip | internal/snapshot/import.go:28-31 | a signed number sent as unsigned comes back if and only if it is a 64-bit integer, negative ones included |
| Wire.BytesRoundTrip | internal/snapshot/import.go:33-46 | a length-prefixed string comes back and the cursor stops behind it, whatever follows |
| Wire.SliceFailsIff | internal/snapshot/import.go:38-41 | in 64-bit arithmetic the slice expression fails if and only if length and cursor add up to 2^63 or more; otherwise the bound check is exact |
| Wire.BytesPanicIff | internal/snapshot/import.go:33-46 | on any rest of a body, reading a string panics if and only if a length is read that adds up with the cursor to 2^63 or more |
| Wire.ListRoundTrip | internal/snapshot/import.go:138-168 | a counted list comes back if each of its elements does |
| Wire.GrayRoundTrip | internal/snapshot/import.go:53-98 | an optional rule with its id list and tag map is self-delimiting |
| Wire.NamespaceRoundTrip | internal/snapshot/import.go:142-167 | a namespace is self-delimiting |
| Wire.VersionRoundTrip | internal/snapshot/import.go:195-228 | a version is self-delimiting |
| Wire.EntryRoundTrip | internal/snapshot/import.go:173-230 | an entry with all its versions is self-delimiting |
| Wire.AuditRoundTrip | internal/snapshot/import.go:236-285 | an audit record is self-delimiting |
| Wire.GrantRoundTrip | internal/snapshot/import.go:292-314 | the grants of one namespace are self-delimiting |
| Wire.UsageRoundTrip | internal/snapshot/import.go:321-335 | one usage counter is self-delimiting |
| Wire.BlobRoundTrip | internal/snapshot/codec.go:48-122 | the whole body followed by any bytes decodes to the same value and leaves exactly those bytes |
| Wire.BlobCodeIsPrefixFree | internal/snapshot/codec.go:48-122 | two bodies that begin the same byte stream are the same body, with the same bytes behind them |
| Wire.LastItemCounts | internal/snapshot/import.go:287-335 | of several items with the same key the last one counts |
| SnapshotCodec.DecodeInvertsEncode | internal/snapshot/import.go:100-338 | for every blob, every map iteration order and every checksum, decoding an encoding yields the blob with its counts tallied, up to missing versus empty |
| SnapshotCodec.DamagedIsRefused | internal/snapshot/import.go:115-120 | any input with the magic whose last four bytes are not the big-endian checksum of its body is refused as such |
| SnapshotCodec.ForeignIsJson | internal/snapshot/import.go:100-114 | without the magic an input is taken exactly if it has 8 bytes and is JSON, with the magic filled in if it names none; otherwise it is refused |
| SnapshotCodec.DecodedIsFramed | internal/snapshot/import.go:100-120 | whatever is decoded is the magic, a body and the checksum of that body, or has no magic and is JSON |
| SnapshotCodec.ChangedIsRefused | internal/snapshot/import.go:115-120 | an encoding with its body changed is refused if the checksums differ, and one with its checksum changed always |
| SnapshotCodec.BigEndianIs | internal/snapshot/codec.go:124-131 | four bytes are the form of a number exactly when the most significant comes first |
| SnapshotCodec.DecodeCanPanic | internal/snapshot/import.go:115-125 | a correctly framed body that is the number 2^63 alone makes decoding panic |
| SnapshotCodec.EncodingsIdentifyBlobs | internal/snapshot/codec.go:48-132 | two blobs that share an encoding are the same blob after tallying, up to missing versus empty |
| SnapshotCodec.Tally | internal/snapshot/types.go:34-44 | the loop over possibly nil entries computes the header's counts |
| SnapshotCodec.VersionCountAdds | internal/snapshot/types.go:37-43 | the count of versions adds up entry by entry, nil entries adding nothing |
| SnapshotWriter.Writer.PutUvarint | internal/snapshot/codec.go:11-15 | appends the encoding of the number, so that whatever is appended later follows it |
| SnapshotWriter.Writer.PutBytes | internal/snapshot/codec.go:17-20 | appends length and bytes |
| SnapshotWriter.Writer.PutStringMap | internal/snapshot/codec.go:41-45 | whatever order the map is visited in, the items appended are those of the map, each key once |
| SnapshotWriter.Writer.PutGray | internal/snapshot/codec.go:30-46 | appends the encoding of the rule or of its absence |
| SnapshotWriter.Writer.PutEntries | internal/snapshot/codec.go:67-86 | appends the encoding of all entries, or stops at a nil one exactly when there is one |
| SnapshotWriter.Writer.PutGrants | internal/snapshot/codec.go:107-115 | appends the two nested maps, each in its own iteration order, each key once |
| SnapshotWriter.Writer.PutBody | internal/snapshot/codec.go:53-122 | appends an encoding of the blob, succeeding exactly when no entry is nil |
| SnapshotWriter.Encode | internal/snapshot/codec.go:48-132 | succeeds exactly on a blob without nil entries and then returns an encoding of it; otherwise the stated error |
| SnapshotReader.Reader.Uvarint | internal/snapshot/import.go:19-26 | the cursor moves exactly as far as the parser says |
| SnapshotReader.Reader.ByteString | internal/snapshot/import.go:33-46 | likewise for a length-prefixed string, with the 64-bit bound check of the source and the panic it lets through |
| SnapshotReader.Reader.Strings | internal/snapshot/import.go:67-78 | likewise for an allow list, whose announced length is allocated first |
| SnapshotReader.Reader.Gray | internal/snapshot/import.go:53-98 | likewise for an optional rule |
| SnapshotReader.Reader.Entries | internal/snapshot/import.go:169-230 | the nested loops read what the parser on values reads |
| SnapshotReader.Reader.Grants | internal/snapshot/import.go:287-314 | the nested loops fill the map the parsed items stand for, later items overriding earlier ones |
| SnapshotReader.Reader.Body | internal/snapshot/import.go:121-337 | the cursor-based parse of a whole body agrees with the parser on values, on every input: blob, error or panic |
| SnapshotReader.Decode | internal/snapshot/import.go:100-338 | for every input, the outcome that DamagedIsRefused, ForeignIsJson, DecodedIsFramed and DecodeInvertsEncode speak of: refused unless framed by magic and checksum or JSON without the magic, else read by the parser, with its panics |
| StoreEntry.NsKeyIsFaithful | internal/store/entry.go:11 | a pair of names without NUL shares its map key with no other pair whatsoever |
| StoreEntry.NsKeyNamesSpace | internal/store/entry.go:11 | with NUL in neither namespace, equal map keys mean equal namespaces and keys, whatever bytes the keys hold |
| StoreEntry.NsKeyCollides | internal/store/entry.go:11 | with NUL bytes two different pairs do collide |
| StoreEntry.NsKeyCollidesIff | internal/store/entry.go:11 | a pair shares its map key with some other pair if and only if one of its names contains NUL |
| StoreEntry.AppendVersion | internal/store/entry.go:21-41 | the assignments compute the appended chain, or the revision error |
| StoreEntry.LastStableAtOrBefore | internal/store/entry.go:77-88 | the backward loop finds the largest released revision up to rev, 0 if there is none |
| StoreEntry.RollbackHead | internal/store/entry.go:59-75 | both branches amount to: Head is rev and Stable the largest released revision up to it |
| StoreEntry.BytesOf | internal/store/entry.go:90-99 | the sum of the payload lengths |
| StoreEntry.ValidateChain | internal/store/entry.go:112-132 | accepts exactly a non-empty chain of revisions 1 to n with Head from 1 to n and Stable from 0 to n, and refuses any other with the revision error |
| StoreEntry.CreatedTracks | internal/store/entry.go:43-57 | a new chain's pointers are the closed form with no rollback |
| StoreEntry.AppendedTracks | internal/store/entry.go:21-41 | appending keeps the closed form for the same latest rollback, and returns length plus one as revision |
| StoreEntry.RolledBackTracks | internal/store/entry.go:59-88 | rolling back succeeds exactly for existing revisions and establishes the closed form for that rollback |
| StoreEntry.TrackedPointers | internal/store/entry.go:21-88 | Stable never passes Head, names only released versions, and equals Head if and only if the head is released |
| StoreEntry.RollbackToHeadIsNoOpIff | internal/store/entry.go:59-75 | for any chain, rolling back to the head changes nothing if and only if Stable is 0 or a released revision up to it and no later one up to it is released |
| StoreEntry.RollbackToHeadMovesStableIff | internal/store/entry.go:59-88 | in a hub's life it moves Stable if and only if a version skipped by the latest rollback was released and lies between Stable and Head |
| StoreEntry.RollbackToHeadCanMoveStable | internal/store/entry.go:59-88 | a concrete chain on which rolling back to the head moves Stable from 1 to 2 |
| StoreEntry.TracksIffAttainable | internal/store/entry.go:21-88 | the pointers are the closed form for some latest rollback if and only if they pass a test on the chain alone, which also yields that rollback |
| StoreEntry.LivedIffAttainable | internal/store/entry.go:21-88 | a chain is the outcome of some creation followed by appends and rollbacks if and only if it passes the test |
| StoreMemory.CountsAfterStore | internal/store/memory.go:140-162 | storing a chain moves the key and byte counts of its namespace by what is new and leaves all others alone |
| StoreMemory.CountsAfterRemove | internal/store/memory.go:140-162 | removing a chain lowers the counts of its namespace by exactly what it held |
| StoreMemory.CountsAfterRemoveNS | internal/store/memory.go:93-105 | removing a namespace zeroes its counts and no others |
| StoreMemory.RestoreOfListing | internal/store/memory.go:164-180 | replacing the store by its own listing gives the same store back |
| StoreMemory.ListedOnce | internal/store/memory.go:124-138 | a listing holds no entry twice |
| StoreMemory.ListingIsOrdered | internal/store/memory.go:124-138 | a listing runs strictly upwards by namespace, and by key within one |
| StoreMemory.LastEntryCounts | internal/store/memory.go:164-180 | of several entries with the same name the last one is stored |
| StoreMemory.UsageOfListing | snap.go:57-72 | adding up a listing entry by entry gives every namespace's key and byte count |
| StoreMemory.NoErrorAmongValid | internal/store/memory.go:164-175 | replacing the store is refused exactly when some non-nil chain is malformed |
| StoreMemory.Memory.PutVersion | internal/store/memory.go:42-63 | stores the created or appended chain under its name, and nothing when an error is returned |
| StoreMemory.Memory.Rollback | internal/store/memory.go:65-79 | replaces only that chain, and nothing when an error is returned |
| StoreMemory.Memory.DeleteKey | internal/store/memory.go:81-91 | removes exactly that chain and returns it |
| StoreMemory.Memory.DeleteNS | internal/store/memory.go:93-105 | removes exactly the namespace's chains and returns each of them once, sorted, whatever the iteration order |
| StoreMemory.Memory.AllEntries | internal/store/memory.go:124-138 | lists every chain once, by namespace and key, whatever the iteration order |
| StoreMemory.Memory.CountKeys | internal/store/memory.go:140-150 | the loop counts the namespace's keys, whatever the iteration order |
| StoreMemory.Memory.CountBytes | internal/store/memory.go:152-162 | the loop adds up the namespace's payload bytes, whatever the iteration order |
| StoreMemory.Memory.ReplaceAll | internal/store/memory.go:164-180 | all or nothing: the first malformed chain is reported and the store left alone |
| Gray.CleanAllowIDs | internal/gray/rule.go:22-34 | the ids trimmed, without blanks and repetitions, in order of first appearance |
| Gray.CleanMatchTags | internal/gray/rule.go:38-48 | fails exactly when some tag key is blank, whatever the iteration order |
| Gray.Normalize | internal/gray/rule.go:13-53 | fails exactly for a percent outside 0..100 or a blank tag key; otherwise the loops compute the normal form for the order in which the tags were visited |
| Gray.NormalIDs | internal/gray/rule.go:21-37 | the ids of a normal form are strictly sorted and exactly the trimmed, non-blank inputs |
| Gray.NormalFormIsIdempotent | internal/gray/rule.go:13-53 | normalising a normal form changes nothing, however its tags are iterated |
| Gray.NormalFormKeepsAnswers | internal/gray/eval.go:11-52 | for a rule that passes the test, the normal form gives every client the same answer, also when it collapses to no rule |
| Gray.NormalFormKeepsAnswersIff | internal/gray/rule.go:13-53 | the normal form gives every client the same answer, whatever the buckets, if and only if the rule passes the test |
| Gray.NormalFormCanReleaseToAll | internal/gray/rule.go:21-51 | percent 0 with the one id " " misses everyone else, and its normal form hits everyone |
| Gray.NormalFormIsCanonical | internal/gray/rule.go:13-53 | rules whose allow lists stand for the same set have the same normal form, for each iteration of their tags |
| Gray.NormalFormIgnoresOrderIff | internal/gray/rule.go:38-48 | all iterations give the same result if and only if the rule is refused or no two tag keys trim to the same key with different values |
| Gray.OrderCanShow | internal/gray/rule.go:38-48 | tags "a" and " a" with different values give two normal forms |
| Gray.PercentZeroMissesIff | internal/gray/eval.go:5-25 | a rule with percent 0 and no allow list misses a client if and only if it has tags |
| Gray.PercentZeroCanHit | internal/gray/eval.go:5-25 | the empty rule with percent 0 hits every client |
| Gray.EvalIffFor | internal/gray/eval.go:11-25 | a client is hit exactly if there is no rule or an unrestricted one, its id is listed, or its bucket lies below the percentage and it reads every needed tag as needed |
| Gray.PercentIsShare | internal/gray/hash.go:14-22 | a client that is not listed and has the tags is let in from exactly as many of the 100 buckets as the percentage says |
| Gray.MorePercentLosesNobody | internal/gray/eval.go:11-25 | raising the percentage of a rule that is not for everyone loses no client |
| Gray.LowerBucketsLoseNobody | internal/gray/hash.go:14-22 | whoever is hit is hit from every lower bucket too |
| Validate.ScanSegments | internal/ns/validate.go:51-75 | the one-pass scan accepts exactly when all characters are allowed and every slash-separated segment is proper; its inner test at i == 0 is never reached |
| Validate.ValidKey | internal/ns/validate.go:41-81 | accepts exactly the keys of the split-based description |
| Validate.ValidNSID | internal/ns/validate.go:17-38 | accepts exactly a lower-case letter followed by lower-case letters, digits, underscores and hyphens, 64 at most |
| Validate.ValidNamesHaveNoNul | internal/ns/validate.go:17-81 | validated ids and keys contain no NUL byte |
| Validate.LengthLimits | internal/ns/validate.go:10-14 | a key may have 192 bytes, a namespace, owner or actor 64, and no more |
| Validate.SegmentsMakeKeyIff | internal/ns/validate.go:40-81 | slash-free segments make a key exactly if none is empty, "." or "..", and the whole is within the length, of the allowed characters, and begins with a letter or digit |
| Text.Utf8ValidIff | internal/ns/validate.go:83-91 | a text is valid exactly when it is the encoding of Unicode scalar values (section 3 of RFC 3629) |
| Text.TrimSpaceTakesSpace | internal/gray/rule.go:20-60 | trimming takes nothing but white space from either end |
| Signing.WriteCanonical | internal/sign/canonical.go:16-38 | writing piece by piece yields the lines joined by line breaks |
| Signing.CanonicalIsInjective | internal/sign/canonical.go:16-38 | for names without line breaks, equal messages mean equal namespace, key, bound revision, payload length and payload digest |
| Signing.CanonicalText | internal/sign/canonical.go:16-38 | the signed text, line by line, for all arguments |
| Signing.VerifyIff | internal/sign/keyring.go:131-162 | a signature is accepted exactly if it is not empty and is the MAC of the message under the namespace's own secret, or failing that the shared one, or verifies under the public key found that way with both sizes right, as the algorithm's spelling says |
| Signing.VerifyRefuses | internal/sign/keyring.go:131-162 | which of the three errors a refused signature gets |
| Signing.SignIff | internal/sign/keyring.go:110-129 | signing succeeds exactly when there is a key for the algorithm, and yields what the primitive makes of the message |
| Signing.MACIsForOneMessage | internal/sign/keyring.go:141-149 | if no two messages share a MAC, a good MAC is good for one namespace, key, bound revision, length and digest only |
| Signing.NormalizeAlgoIsIdempotent | internal/sign/canonical.go:44-56 | a stored algorithm name is its own normal form |
| Signing.VerifyAcceptsSign | internal/sign/keyring.go:110-162 | whatever a consistent ring signs it verifies, under any spelling of the algorithm; VerifyIff says what else it verifies |
| Signing.Keyring.PutHMAC | internal/sign/keyring.go:49-62 | stores the secret under the given or default id, where the lookup then finds it, or refuses an empty one |
| Signing.Keyring.PutEd | internal/sign/keyring.go:64-78 | likewise for a pair whose public half has the right size |
| ClientTags.ParseTags | internal/clientctx/context.go:18-45 | the loop computes the tags the parts stand for, nothing for a header without any |
| ClientTags.PrintTags | internal/clientctx/context.go:59-71 | prints the tags in the order visited; printable tags are read back from it |
| ClientTags.RoundTripIffPrintable | internal/clientctx/context.go:18-71 | for every map order, printing and parsing gives the same tags if and only if keys are non-blank, trimmed and free of comma and equals sign, and values trimmed and free of comma |
| ClientTags.TagsCanBeLost | internal/clientctx/context.go:18-71 | a tag key with a comma does not come back |
| ClientTags.ParsedIsPrintable | internal/clientctx/context.go:18-45 | whatever is parsed can be printed again |
| ClientTags.PartForms | internal/clientctx/context.go:25-40 | a part is read around its first "=", or else around its first ":", or else as a key alone |
| Access.ParseRoleInvertsName | internal/ns/acl.go:19-45 | parsing a role's name gives the role back |
| Access.ImportInvertsExport | internal/ns/acl.go:157-185 | exporting grants as nested maps of names and importing them loses nothing |
| Access.LastNamespaceCounts | internal/ns/registry.go:132-140 | of several namespaces with the same id the last one counts, for registry and owners |
| Access.UnlistedOwnersStay | internal/ns/registry.go:132-140 | an owner whose namespace is not in the list stays |
| Access.ACL.RemoveNS | internal/ns/acl.go:79-88 | drops exactly the owner and the grants of that namespace |
| Access.ACL.Grant | internal/ns/acl.go:90-107 | validates first, then sets the role, or removes it when it is none |
| Access.ACL.Check | internal/ns/acl.go:121-130 | the error is the one that HubLaws.CheckIff characterises: none exactly for the owner and holders of a sufficient role |
| Access.ACL.Export | internal/ns/acl.go:157-170 | the loop builds the nested map, whatever the iteration order |
| Access.ACL.Import | internal/ns/acl.go:172-185 | the nested loops keep exactly the grants whose role name is known and not none |
| Access.RegisterListing | internal/ns/registry.go:132-140 | replacing the registry by its own listing gives the same registry and exactly its owners |
| Access.Registry.Create | internal/ns/registry.go:41-72 | checks in order, fills in default limits, never overwrites, and makes the owner known to the access list |
| Access.Registry.Delete | internal/ns/registry.go:89-99 | removes the namespace with its owner and grants |
| Access.Registry.List | internal/ns/registry.go:101-110 | lists every namespace once in the order of ids, whatever the iteration order |
| Access.Registry.ReplaceAll | internal/ns/registry.go:132-140 | replaces the namespaces, and adds owners without forgetting any |
| Quota.Limiter.Check | internal/quota/limiter.go:25-45 | passes exactly when the namespace has a name and the counters with the addition stay within every positive limit |
| Quota.Limiter.Commit | internal/quota/usage.go:10-20 | moves only that namespace's counter, clamped at zero |
| Quota.Limiter.Recalc | internal/quota/usage.go:43-51 | sets the counter, dropping it when it is zero |
| Audit.LogIsLastOfHistory | internal/audit/log.go:32-113 | after any sequence of appends and replacements the log holds the last cap records of everything written, in order |
| Audit.NumbersGrow | internal/audit/log.go:32-49 | every append gets exactly one more than the previous counter, which is larger than every number still kept |
| Audit.QuerySelects | internal/audit/log.go:55-70 | a query yields the wanted records among the newest ones, newest first, each as often as it is there, and stops early only at the limit, which is 100 unless positive |
| Audit.ReplayKeepsCounter | internal/audit/log.go:95-113 | replaying the records of a log that ended with an append restores its counter |
| Audit.Log.Append | internal/audit/log.go:32-49 | the circular buffer, unrolled, is the last cap records with the stamped one added |
| Audit.Log.All | internal/audit/log.go:72-81 | unrolls the buffer, oldest first |
| Audit.Log.Query | internal/audit/log.go:55-70 | the first Limit matches of the unrolled buffer reversed |
| Audit.Log.ReplaceAll | internal/audit/log.go:95-113 | keeps the last cap records given and the largest number among them |
| Watch.StepIsSafe | internal/watch/sub.go:20-47 | every channel operation, receive and cancellation, in any phase of a send, keeps the delivery invariant |
| Watch.Delivery | internal/watch/sub.go:20-40 | for every interleaving: the last default is never taken, the buffer stays within capacity and is the newest part of what was sent, sent = received + dropped + buffered + pending, receives are in order, and after a send the newest event is buffered or was the last received |
| Watch.SendNeverBlocks | internal/watch/sub.go:20-40 | a publisher inside send can always take its next step, and at most three end it |
| Watch.CancelStopsDelivery | internal/watch/sub.go:42-47 | after cancellation nothing more is sent, and only buffered events remain readable |
| Watch.Send | internal/watch/sub.go:20-40 | the three selects, with any number of receives before each later one, publish exactly one event; the innermost default is dead code |
| Watch.SentIsMatching | internal/watch/sub.go:20-47 | for every interleaving a subscription is sent exactly the matching part of what is published from its start to its cancellation, in order |
| Watch.MatchingSelects | internal/watch/event.go:13-21 | of what is published exactly the events of the namespace and key asked for match, an empty name asking for all |
| Watch.LatestIsIndexed | internal/watch/hub.go:62-80 | the index holds the latest event of each name |
| Watch.WatchHub.SubscribeBuf | internal/watch/hub.go:32-48 | a fresh id gets an empty channel of at least one slot, and is owed everything published from now on |
| Watch.WatchHub.Subscribe | internal/watch/hub.go:28-30 | likewise with the default capacity |
| Watch.WatchHub.Receive | internal/watch/sub.go:12-18 | takes the oldest buffered event, if there is one |
| Watch.WatchHub.Publish | internal/watch/hub.go:62-73 | records the last event of that key and sends to every subscription once, in any order; each has then been sent the matching part of all that was published since it joined, and the index is that of all that was ever published |
| WatchRace.CrashIff | internal/watch/sub.go:20-47 | with cancellation at any time, a publisher's step panics if and only if it sends on the channel and a cancellation came before |
| WatchRace.IdleCancelsAreAtomic | internal/watch/hub.go:50-73 | if every cancellation falls between sends, nothing panics and the run is one of the machine with atomic cancellation |
| WatchRace.CancelCanCrash | internal/watch/sub.go:20-47 | a cancellation right after the check in send makes the first channel send panic |
| WatchWait.Wait | internal/watch/hub.go:83-107 | returns a known newer event at once, otherwise the first newer one to arrive before the timer, otherwise what the timer finds; never an old one |
| WatchWait.OldEventsDoNotWake | internal/watch/hub.go:91-106 | events without a newer revision, such as rollbacks, do not end a wait |
| WatchWait.FirstNewsDecides | internal/watch/hub.go:91-106 | the first arrival that is not an old event decides what the wait returns |
| WatchWait.WaitCanTimeOutIff | internal/watch/hub.go:83-107 | among publishers, before and after it subscribes, some interleaving lets a wait time out if and only if the index knows nothing newer at the first look and at the timer |
| WatchWait.WaitMustTimeOutIff | internal/watch/hub.go:83-107 | every interleaving does so if and only if, in addition, no newer matching event was published while it was subscribed |
| WatchWait.GapEventCanBeMissed | internal/watch/hub.go:84-87 | a newer event between the first look and Subscribe, then a rollback below it, is missed by every interleaving |
| WatchWait.NamespaceWaitIgnoresGap | internal/watch/hub.go:84-87 | a wait without a key times out on every interleaving if and only if nothing newer was published while it was subscribed, whatever came before |
| HubInvariants.FoundUnderOwnName | internal/store/memory.go:21-26 | a lookup finds only the entry that carries the name, whatever bytes the caller passes |
| HubInvariants.AdmittedIsStored | internal/store/memory.go:42-63 | once Put's checks pass, storing cannot fail, and the chain grows by exactly the new version |
| HubInvariants.DeleteSubtractsExactly | get.go:98-102 | the clamps at zero never fire when a key is deleted |
| HubInvariants.PutKeepsInv | put.go:17-108 | Put keeps registry, store, quota, limit and audit invariants |
| HubInvariants.RollbackKeepsInv | get.go:56-80 | a rollback keeps them |
| HubInvariants.DeleteKeyKeepsInv | get.go:82-107 | deleting a key keeps them |
| HubInvariants.CreateNSKeepsInv | hub.go:78-92 | creating a namespace keeps them; nothing is stored or counted for it yet |
| HubInvariants.DeleteNSKeepsInv | hub.go:98-126 | deleting a namespace keeps them, removing chains, grants and counter together |
| HubInvariants.GrantKeepsInv | hub.go:140-156 | granting keeps them |
| HubRuns.PutEffect | put.go:94-105 | a successful Put appends exactly the admitted version and publishes the new head; a failed one touches neither store nor index |
| HubRuns.StepKeepsWatch | put.go:94-105 | every call keeps the agreement of the index of last events with the store |
| HubRuns.StepIsChronicled | internal/store/entry.go:21-88 | every call keeps both pointers in closed form, for every key |
| HubRuns.RunKeeps | hub.go:50-126 | every run from a safe state ends in a safe state |
| HubRuns.RunsAreSafe | hub.go:33-126 | every run from a new hub ends in a safe state |
| HubRuns.QuotasAreExactAndKept | put.go:70-103 | on every run each counter equals the recount of the store, and no namespace exceeds its real limits |
| HubRuns.PointersInClosedForm | internal/store/entry.go:21-88 | on every run, if the latest rollback went to r at length L, Stable is the largest released revision in 1..r or after L, 0 if there is none, and Head is r until something is appended |
| HubRuns.WatchIndexAgrees | internal/watch/hub.go:62-80 | on every run an entry exists exactly when its last event exists and is not a deletion, and that event carries its Head |
| HubRuns.PutNumbersItsVersions | put.go:44-107 | on every run Put succeeds exactly when its checks pass, and the n-th success since creation returns n whatever was rolled back |
| HubRuns.FailedPutChangesNothing | put.go:17-98 | a failed Put changes nothing but the audit trail, by at most one record |
| HubRuns.StepExtendsChain | internal/store/entry.go:21-41 | no call changes or drops a version of a chain that survives it |
| HubRuns.ChainsOnlyGrow | internal/store/memory.go:42-79 | while a key exists its old chain stays a prefix of the current one |
| HubRuns.SelectIsSafe | internal/gray/eval.go:56-75 | on pointers in closed form selection gives the head to those its rule admits, else an earlier released version, else a refusal exactly when Stable is 0 |
| HubRuns.GetIsSafe | get.go:11-33 | on every run: the errors of a closed hub, an unregistered namespace and a missing key; otherwise the head, field by field, to the clients its rule is for, to all others the stable version, which is an earlier one released to everyone, or the refusal exactly when there is none |
| HubRuns.GetRevIsExact | get.go:35-50 | on every run exactly the revisions up to the length of the chain can be read, each field by field as stored, a hit exactly for the head; otherwise the stated error |
| HubRuns.AdmittedRuleAnswersAlike | put.go:39-93 | the rule stored with an admitted version answers every client as the rule that was passed, if that rule passes the test |
| HubRuns.AdmittedRuleMeansPassedIff | put.go:39-93 | the two answer every client alike, whatever the buckets, if and only if the passed rule does |
| HubRuns.PutReleasesAsAsked | put.go:17-108 | on every run, after a successful Put with a rule that passes the test Get gives the new payload to exactly the clients that rule is for by its fields, and an older release or a refusal to all others |
| HubSamples.PutCanReleaseToAll | put.go:39-93 | a concrete Put whose rule misses a client, after which Get gives that client the new version and Stable is its revision |
| HubRuns.StepKeepsSigned | put.go:54-68 | with signing required every call keeps every stored version verifiable |
| HubRuns.EverythingStoredVerifies | put.go:44-98 | with signing required, on every run every stored signature is good by the key maps and primitives, under the stored algorithm and payload, bound to no revision or its own |
| HubRuns.BoundSignaturesStayBound | put.go:45-53 | a signature bound to a revision is stored under that revision or not at all |
| HubLaws.CheckIff | internal/ns/acl.go:47-52 | the access list lets a named actor write exactly if it owns the namespace or was granted writer or admin, and administer exactly if it owns it or was granted admin |
| HubLaws.QuotaErrorIs | internal/quota/limiter.go:25-45 | a write is refused exactly when what is really stored and the addition exceed a limit, keys before bytes |
| HubLaws.PutLaw | put.go:17-108 | Put fails with the first of its checks that fails, changing at most the audit trail by one record, or leaves exactly the state with the new version, counters, record and event |
| HubLaws.RollbackLaw | get.go:56-80 | likewise for a rollback: Head is the revision, Stable the largest released one up to it, nothing else in the store changes |
| HubLaws.DeleteKeyLaw | get.go:82-107 | likewise for deleting a key |
| HubLaws.CreateNSLaw | hub.go:78-92 | likewise for creating a namespace, with the default limits 1024 and 33554432 |
| HubLaws.DeleteNSLaw | hub.go:98-126 | likewise for deleting a namespace: nothing of it is left, and each entry is published as deleted |
| HubLaws.GrantLaw | hub.go:140-156 | likewise for granting: one grant is set or removed, nothing is recorded |
| HubPromises.OnlyTheEntitledChange | internal/ns/acl.go:47-52 | on every run a call by a named actor that changes more than the audit trail is by the owner or a holder of admin, or of writer for calls on keys |
| HubPromises.ForbiddenIff | internal/ns/acl.go:121-130 | on every run a call is answered as forbidden exactly when the checks before the access list pass and its named actor is not entitled |
| HubPromises.FailedCallsAreSilent | hub.go:78-156 | on every run a failed call changes nothing but the audit trail |
| HubPromises.ClosedHubIsFrozen | hub.go:61-66 | no call changes a closed hub except Grant, which changes the access list alone |
| HubPromises.NamespacesAreIsolated | internal/store/memory.go:21-105 | on every run a call on one namespace changes neither registration, owner, grants, chains, counter nor last events of another |
| HubPromises.PutThenGetRev | get.go:35-50 | on every run what a Put stored under revision n is what GetRev gives for n after any further calls that leave the key in place and the hub open |
| HubPromises.AcceptedSignatureIsGood | put.go:54-68 | on every run a signature that Put accepts is good by the key maps and primitives, and none is missing where one is required |
| HubPromises.AcceptedMACIsForOneMessage | internal/sign/keyring.go:141-149 | if no two messages share a MAC, two Puts on whatever runs that accept the same MAC agree in namespace, key, bound revision, length and digest |
| HubPromises.SignaturesCannotMove | internal/sign/canonical.go:16-38 | if no two messages share a MAC, two versions stored with the same MAC on a run that requires signing lie under one key and agree in length and digest |
| HubPromises.TrailAccountsForStore | put.go:94-107 | on every run no longer than the trail has room, every stored version has its record: namespace, key, revision, author, size |
| HubSnapshot.ImportInvertsExported | snap.go:8-51 | importing the export of a safe hub into a new one gives registry, access list, store and counters back, and the audit trail plus one record as far as it fits |
| HubSnapshot.SameAnswers | get.go:11-50 | two hubs with the same contents answer every Get, GetRev, role and usage question alike |
| HubSnapshot.BytesCarryTheBlob | snap.go:78-92 | going through the bytes changes nothing about an export |
| HubSnapshot.DamagedSnapshotIsRefused | snap.go:86-92 | a snapshot whose last four bytes are not the checksum of its body is answered with the checksum error and changes nothing |
| HubSnapshot.OnlyFramedIsImported | snap.go:86-92 | whatever changes the hub or is answered without error is framed by the magic and the checksum of its body, or has no magic and is JSON |
| HubSnapshot.AlteredExportIsRefused | snap.go:78-92 | an export whose body was altered so that the checksum differs leaves any hub as it was |
| HubSnapshot.ExportImportIsIdentity | snap.go:8-92 | for every run, map order and audit capacity: the exported bytes import without error and the new hub answers every question as the old one does; numbering goes on where it was |
| HubSnapshot.ImportedHubIsSafe | snap.go:24-51 | the imported hub satisfies all invariants, now and over every further run, but its watch index agrees only if nothing was stored |
| HubSizes.RunFits | hub.go:33-156 | after a run of calls whose arguments fit Go's types with room to spare, everything the hub holds fits |
| HubSizes.ExportFits | snap.go:8-22 | every export after such a run can be encoded without loss |
| HubSizes.FittingExportImportIsIdentity | snap.go:78-92 | for such runs export and import is the identity with nothing assumed of the blob |
| HubImport.FailedImportReplacesRegistry | snap.go:33-39 | an import fails exactly when some chain is malformed, and has then replaced the registry and the access list and nothing else |
| HubImport.ImportIsAtomicIff | snap.go:24-51 | a failed import leaves the hub as it was if and only if no chain is malformed or the snapshot's namespaces, owners and grants are the hub's own |
| HubImport.ImportNeedsOpenHub | snap.go:27-32 | a closed hub refuses every import, and importing nothing changes nothing |
| HubImport.ImportedTrail | snap.go:45-48 | after a successful import the trail holds the newest of the snapshot's records, or of the hub's own if it brings none, then the import; numbering goes on from the largest number |
| HubImport.RejectedImportCanChangeHub | snap.go:33-39 | a concrete snapshot that a new hub rejects and is changed by |
| HubImport.RecountIsExactIff | snap.go:53-76 | the recount is exact for every namespace if and only if no non-zero counter belongs to a namespace that is neither registered nor stored |
| HubImport.ImportedCountersExactIff | snap.go:24-51 | after a successful import all counters are exact if and only if the snapshot's counters count its entries, or, without any, the hub held no non-zero counter for a namespace the snapshot neither registers nor holds entries of |
| HubImport.ImportCanLeaveStaleCounter | snap.go:42-44 | a hub that put one key and imports an empty snapshot still counts the key |
| HubImport.ImportCanTrustWrongCounter | snap.go:40-41 | a new hub takes over a counter for a key it does not hold |
| HubImport.ImportedChainsHaveHistoryIff | snap.go:37-39 | after a successful import all pointers are in closed form if and only if every stored chain passes the test |
| HubImport.RunsHoldAttainable | internal/store/entry.go:21-88 | on every run every stored chain passes the test |
| HubImport.ImportAcceptsUnreleasedStable | internal/store/entry.go:112-132 | a concrete snapshot that a new hub imports without error, although no run of any hub leads to what it then stores |
| HubImport.ImportedChainsVerifyIff | snap.go:37-39 | after a successful import everything stored verifies if and only if every chain the snapshot stores does |
| HubImport.ImportAcceptsUnsigned | snap.go:37-39 | a new hub that requires signatures imports an unsigned version |
| HubImport.ImportedRegistryIff | snap.go:33-36 | after an import, failed or not, registry and access list agree if and only if the snapshot's namespaces are proper, cover the hub's, and its grants are for them |
| HubImport.ImportCanKeepOwner | internal/ns/registry.go:132-140 | after a hub imports an empty snapshot, the owner of a namespace that is gone still has the administrator's role there |
| HubImport.ImportIsSafeIff | snap.go:24-51 | importing a well-formed snapshot into a safe hub leaves registry, store, counters, limits, audit trail and pointers safe if and only if the snapshot is sound for it |
| HubImport.SoundImportStaysSafe | snap.go:24-51 | after importing a sound snapshot every further run is safe |
| HubImport.ImportedIndexAgreesIff | snap.go:24-51 | for any hub whose index agrees with its store, it does so after an import if and only if the snapshot stores chains under the same names with the same heads |
| HubImport.ImportCanLeaveStaleEvent | snap.go:24-51 | after a hub with one key imports an empty snapshot the index still knows the key |
| HubSnapshot.RecountIs | snap.go:53-76 | dropping the registered counters and assigning the sums of the listing is the recount |
| Hub.Hub.constructor | hub.go:33-48 | a new hub is the initial state |
| Hub.Hub.Close | hub.go:50-59 | closes once and drops all subscriptions |
| Hub.Hub.Admit | put.go:20-93 | the checks of Put in their order, for an order that is an iteration of the rule's tags, writing nothing; what is admitted has a valid key, a registered namespace, the next revision, and the bound revision if there is one |
| Hub.Hub.Put | put.go:17-108 | the writes to store, quota, audit and watch add up to the step of the machine, for an order that is an iteration of the rule's tags; HubLaws.PutLaw states that step |
| Hub.Hub.Get | get.go:11-33 | the branches compute the answer of the machine, which HubRuns.GetIsSafe states |
| Hub.Hub.GetRev | get.go:35-50 | likewise for one revision, which HubRuns.GetRevIsExact states |
| Hub.Hub.RollbackActor | get.go:56-80 | the step of the machine, with the failed attempts it records |
| Hub.Hub.DeleteKey | get.go:82-107 | the step of the machine |
| Hub.Hub.CreateNSSpec | hub.go:78-92 | the step of the machine |
| Hub.Hub.DeleteNSActor | hub.go:98-126 | the step of the machine |
| Hub.Hub.PublishRemoved | hub.go:120-122 | one deletion event per removed entry, leaving the index as if all were deleted |
| Hub.Hub.Grant | hub.go:140-156 | the step of the machine |
| Hub.Hub.Build | internal/snapshot/export.go:22-38 | a blob of the given parts with its counts tallied, stamped by the system clock if the hub's clock is at the zero time |
| Hub.Hub.ExportSnapshot | snap.go:8-22 | returns an export of the current state |
| Hub.Hub.ImportSnapshot | snap.go:24-51 | replaces the components in the source's order, stopping where it stops |
| Hub.Hub.RecalcQuota | snap.go:53-76 | the three loops leave the recounted counters |
| Hub.Hub.ExportBytes | snap.go:78-84 | returns an encoding of an export of the current state |
| Hub.Hub.ImportBytes | snap.go:86-92 | decodes first, then imports, even when the hub is closed; HubSnapshot.DamagedSnapshotIsRefused and OnlyFramedIsImported say what is not imported |

## Left out

- HTTP handlers, static files, the web UI, `cmd`, `query.go` and `options.go`: input, output and plumbing.
- Saving to disk: `maybePersistLocked` does nothing here; `SaveJSON`, `LoadJSON` and `AtomicWriteFile` are not part of this model.
- SnapshotReader.Decode: what encoding/json makes of a text is an argument, a blob or nothing; how a blob is written in JSON is not modelled.
- SnapshotReader.Reader.Strings: allocation fails beyond 2^44 strings, the limit of 64-bit Linux; running out of memory below that, here or for a map, is not modelled.
- SnapshotCodec.DecodeInvertsEncode: a missing audit list, grant map or usage map comes back as the format can tell (Settled); inside a rule and a version, missing and empty slices and maps are one value from the start. Times are nanoseconds; locations and monotonic readings are not modelled, and Fits asks for times within 64-bit nanoseconds, which Go's zero time is not. The encoding itself has a length that Go can hold.
- SnapshotWriter.Encode: the source tallies the caller's blob in place; here the tallied blob is a new value. The loops of Encode and Decode that sit inline in the source are methods of the writer and the reader.
- Quota.Limiter.Commit: counters are mathematical integers; 64-bit wrap-around is modelled in the codec only. The limiter and the counter it owns are one object.
- Signing.VerifyAcceptsSign: HMAC, SHA-256 and Ed25519 are parameters; that a private key's signatures verify under its public key and that a MAC is never empty are assumptions of this lemma.
- HubRuns.EverythingStoredVerifies: the key ring does not change during the run, as deleting or replacing keys would void earlier signatures.
- Watch.CancelStopsDelivery: cancellation is atomic with respect to a send in this machine; WatchRace says what happens when it is not.
- WatchWait.Wait: the method takes what arrives as an argument; which arrivals are possible among publishers is what Schedule and the lemmas about it say. Closing the hub during a wait is an arrival of the method but not part of a Schedule.
- Watch.WatchHub.Publish: subscriptions and channels are values held in the hub's map; what a receiver holds after `Close` or an unsubscription is not modelled there.
- Hub.Hub.Put: the checks up to the quota test are a method of their own; `Exists`, `NextRev` and `Check` read the store without its inner lock.
- Hub.Hub.RecalcQuota: its three loops are three methods; the accumulator holds values instead of pointers.
- Inner mutexes of store, registry, access list, quota, audit and watch: hub methods are atomic steps already, and the components are not used outside them here.
- Clones: entries, payloads and rules are values, so aliasing between callers and the store cannot be expressed.
- `Registry.UpdateQuota`, `ACL.List`, history and diff queries, `Unified`, `KeysSorted`, `ListKeys`, revision parsing and other small helpers: they would only add easy members.
