# secretbae, modelled and proved in Dafny

secretbae is a secrets daemon: a versioned store of encrypted secrets, a hash-chained audit log, policies that
decide who may read what, and a socket that hands values to services. This project models the logic of that
daemon and proves what it is for: values come back as they were written over every run and across master-key
rotation, the audit log shows every kind of tampering, a backup reproduces the store, a batch is granted exactly
when every path in it is, and the wire format loses nothing.

Check it with `dafny verify dfyconfig.toml`.

## How the model is built

- Values first. Each component is given as functions on values (tables as maps, the log as a sequence of rows),
  and the properties are proved about those functions.
- Objects where the program updates in place. `AuditTable`, `Store`, `DaemonState`, `Reader`, `Writer` and
  `Buffer` are classes whose methods carry the loops and the statement order of the source, each proved equal to
  its function on values. `Store` keeps the normalised tables of the schema; its abstract value is their join.
- Nothing is assumed of the cryptography. The keyed hash and the key derivation are parameters, so every result
  holds for all of them; where a collision would be the only way out, the collision is exhibited at a row of the
  log. The AEAD is a term algebra: a ciphertext is a key, a nonce, associated data and a plaintext, and opening
  compares the first three.
- Randomness, clocks and ids are parameters. A plaintext that was written is remembered by the specification
  only (`World.written`).

| module | what it holds |
|---|---|
| `ByteStrings` | bytes, little-endian words, results |
| `AuditEntries` | the canonical encoding of an audit entry and exactly how far it is injective |
| `HashChain`, `TamperEvidence` | the verifying walk, the anchor, and what each kind of tampering is reported as |
| `AuditLog`, `AuditRows`, `AuditTables` | rows and what they parse to, append, verify and re-key, on values and as an object |
| `Envelope`, `SealFormat` | sealed versions, wrapped keys, the sealed master key and its stored form |
| `SecretTables`, `Rotation`, `TagTables` | the store's operations on values, what they keep, and rotation |
| `Stores` | the store as an object over normalised tables |
| `Daemon`, `Effects`, `Trail`, `Handlers` | runs of the daemon with their invariant, what each event changes, the audit trail over runs, and the daemon as an object |
| `RotationWindow` | what happens between the last commit of a rotation and the adoption of its key |
| `Backup`, `Restoring`, `Recovery` | backup and restore, and both end to end |
| `Paths`, `Glob`, `Patterns`, `Policy` | paths, the glob matcher, which patterns can match, decisions |
| `ResolveRoute`, `WireText`, `ResolveSocket` | the batch read and its line protocol |

## Where the code and its documentation part

The model follows the code.

- A rotation is described as leaving store and daemon agreeing on the old key after any failure
  (crates/sbae-daemon/src/maintenance.rs:24-27). That holds for the secrets at every commit boundary, and not for
  the audit chain, which is committed first: see `Daemon.SecretsHoldAtEveryBoundary`,
  `Daemon.ChainHoldsExceptBetweenCommits` and `Daemon.CutShortRotationStaysBroken`.
- The locks are released before the new key is adopted. Whatever handlers run in that window, the daemon is coherent
  after adoption exactly when the guard of every one of them stopped it before it recorded anything
  (`RotationWindow.WindowIsCoherentExactly`). A version written there stays lost over every later run
  (`RotationWindow.WindowWriteStaysLost`), and nothing older can be read while the window is open
  (`RotationWindow.WindowReadsFail`).
- The canonical encoding is injective for token prefixes and paths shorter than 1279 bytes and for no larger
  bound: `AuditEntries.InjectiveBelowExactly`. What the daemon itself writes is far shorter.
- Stored patterns are described as never unmatchable (crates/sbae-policy/src/glob.rs:52-53). A literal of 65
  letters is stored and matches nothing; `Patterns.PatternCanMatch` gives the exact condition.
- `list` ignores any number of trailing slashes of a prefix and `starts_with_prefix` one. They part on a lone slash
  (`Paths.LoneSlashDisagrees`) and on a doubled one (`Paths.DoubledSlashDisagrees`). Over all strings they agree
  exactly for the empty prefix and for one that keeps something after losing at most one slash
  (`Paths.PrefixTestsAgreeExactly`); over secret paths they part exactly on a lone slash and on a valid path followed
  by several (`Paths.PrefixTestsAgreeOnPaths`).
- A delete is two statements without a transaction. Between them the current version may name a deleted one:
  `SecretTables.DeleteCutShort` says exactly when.
- Adding and removing tags are statements without a transaction too. `TagTables.AddTagsCutShort` and
  `TagTables.RemoveTagsCutShort` say exactly when a tag row is left that no secret carries, and
  `TagTables.RemovalMends` that the next removal sweeps it. An audit entry is a transaction of its own: cut short
  before it, every handler leaves a coherent daemon that lacks that entry (`Trail.UnrecordedIsCoherent`).
- An anchor that does not authenticate makes `verify` fail with an error; the verdict `AnchorInvalid` is kept for a
  missing anchor or one that names another tail.

## Model

| member | source | states |
|---|---|---|
| `AuditEntries.Buffer.EncodeField` | crates/sbae-audit/src/canonical.rs:10-15 | appends a length and the bytes to what the buffer held |
| `AuditEntries.Buffer.EncodeOptField` | crates/sbae-audit/src/canonical.rs:17-23 | appends the absent marker or a field to what the buffer held |
| `AuditEntries.Buffer.WriteCanonical` | crates/sbae-audit/src/canonical.rs:34-65 | appends exactly the canonical encoding of the entry |
| `AuditEntries.CanonicalInjective` | crates/sbae-audit/src/canonical.rs:10-66 | two entries with one encoding are one entry, when prefix and path are shorter than 1279 bytes, although the absent marker overlaps with length bytes |
| `AuditEntries.CollisionAt1279` | crates/sbae-audit/src/canonical.rs:12-21 | two different entries with one encoding, one of them with a 1279-byte token prefix and ASCII columns throughout |
| `AuditEntries.InjectiveBelowExactly` | crates/sbae-audit/src/canonical.rs:10-66 | the encoding is injective below a bound exactly when the bound is at most 1279 |
| `HashChain.AnchorRoundTrips` | crates/sbae-audit/src/anchor.rs:31-62 | an anchor decodes to itself under the key it was encoded with |
| `HashChain.WalkConcat` | crates/sbae-audit/src/verify.rs:242-284 | walking two stretches of links is walking the first and resuming in the second |
| `HashChain.CleanMeansChained` | crates/sbae-audit/src/verify.rs:242-284 | the walk ends clean exactly when every link has its number, its predecessor's hash and its own hash |
| `HashChain.WalkStopsAt` | crates/sbae-audit/src/verify.rs:242-284 | after a clean prefix the walk's result is that of the first link that fails |
| `TamperEvidence.ValidMeans` | crates/sbae-audit/src/verify.rs:230-307 | the verdict is Valid exactly for a chained log whose authenticated anchor names its length and tail |
| `TamperEvidence.AgreeBackwards` | crates/sbae-audit/src/hash.rs:78-88 | chains that agree on one hash agree on all links before it, or two links at one position collide |
| `TamperEvidence.AnchoredRowsAreTheOriginals` | crates/sbae-audit/src/verify.rs:230-307 | under any anchor the daemon ever wrote, even a stale one, only the rows it was written for verify, or a collision is at hand |
| `TamperEvidence.TamperEvident` | crates/sbae-audit/src/verify.rs:230-307 | rows replaced under the last anchor verify only if they are the originals, or a collision is at hand |
| `TamperEvidence.ModifiedIsNamed` | crates/sbae-audit/src/verify.rs:272-279 | changing one link's canonical content is reported as Modified at that number with both hashes, or is a collision; `ModifiedRowIsNamed` lifts it to rows |
| `TamperEvidence.RelinkedIsNamed` | crates/sbae-audit/src/verify.rs:264-270 | changing one row's previous hash is reported as BrokenLink at that number |
| `TamperEvidence.DeletedStretchIsAGap` | crates/sbae-audit/src/verify.rs:257-262 | deleting any stretch that is not the tail is reported as a Gap with both numbers |
| `TamperEvidence.DeletedTailIsTruncated` | crates/sbae-audit/src/verify.rs:286-306 | deleting the last rows is reported as Truncated with the true and the remaining count |
| `TamperEvidence.DeletedAnchorIsInvalid` | crates/sbae-audit/src/verify.rs:286-306 | deleting the anchor of a non-empty log is reported as AnchorInvalid |
| `TamperEvidence.ReplacedAnchorIsNoticed` | crates/sbae-audit/src/verify.rs:288-306 | any other anchor over a valid log is an error if forged, Truncated if it names more entries, AnchorInvalid otherwise |
| `TamperEvidence.DamagedIsNamed` | crates/sbae-audit/src/verify.rs:117-203 | a row that no longer parses is reported as Corrupt at its number with what is wrong, and as an error if a column does not fit |
| `TamperEvidence.BlamedAfterVerifiedPrefix` | crates/sbae-audit/src/verify.rs:47-67 | whatever row a verdict blames, all rows before it are a verified prefix and it is the first that fails |
| `TamperEvidence.AppendsNeverRepair` | crates/sbae-audit/src/verify.rs:242-284 | a row-level verdict is the same whatever is appended and whatever anchor is written |
| `TamperEvidence.ExtendedIsValid` | crates/sbae-audit/src/log.rs:16-77 | one more linked row keeps the log valid exactly when it takes the next number, and is a Gap otherwise |
| `TamperEvidence.ValidUnderTwoKeys` | crates/sbae-audit/src/verify.rs:230-307 | a log valid under one key is valid under another exactly when both hash every link and the anchor alike |
| `TamperEvidence.ExtendedUnderOtherKey` | crates/sbae-audit/src/log.rs:16-77 | what the verdict is, case by case, after a row and anchor written under another key |
| `AuditLog.RowOfReadsBack` | crates/sbae-audit/src/verify.rs:117-224 | the row written for an entry parses back to that entry, number and hashes |
| `AuditLog.AnchorInputIsNoEntryInput` | crates/sbae-audit/src/anchor.rs:31-37 | the hash input of an anchor is never that of an entry |
| `AuditLog.AppendedLinks` | crates/sbae-audit/src/log.rs:16-77 | an append adds one row holding the entry under the next number and leaves all others |
| `AuditLog.AppendSucceedsExactly` | crates/sbae-audit/src/log.rs:16-58 | an append succeeds exactly when the tail hash has its length and a row number is left |
| `AuditLog.AppendAnchorsTheRows` | crates/sbae-audit/src/log.rs:61-68 | whatever the log held, an append leaves an authentic anchor that counts the rows and names the last hash |
| `AuditLog.AppendKeepsValid` | crates/sbae-audit/src/log.rs:16-77 | an append to a valid log is valid exactly when no number is missing at the end, and a Gap otherwise |
| `AuditLog.AppendAllKeepsValid` | crates/sbae-audit/src/log.rs:16-77 | any number of appends keeps a valid log valid and only extends it |
| `AuditLog.BuiltLogVerifies` | crates/sbae-audit/src/log.rs:16-77 | a log built by appends verifies and holds exactly the entries appended, in order |
| `AuditLog.SameLinkSameEntry` | crates/sbae-audit/src/verify.rs:117-203 | two rows with one link hold one entry, below the injectivity bound |
| `AuditLog.ModifiedRowIsNamed` | crates/sbae-audit/src/verify.rs:117-279 | changing any columns of one row, all short, is reported as Modified at its number with both hashes, or is a collision at that row |
| `AuditRows.ReadsExactly` | crates/sbae-audit/src/verify.rs:117-224 | a row reads as an entry exactly when its number is not negative, both hashes have 32 bytes and its columns spell that entry |
| `AuditRows.RejectedExactly` | crates/sbae-audit/src/verify.rs:117-203 | from the columns alone: which rows are damaged and by what, which make the query fail, and which are links, in the order the columns are read |
| `AuditRows.ChangedColumnIsNamed` | crates/sbae-audit/src/verify.rs:230-256 | one column of one row of a valid log changed to what no entry has there is reported as Corrupt at its number with what is wrong, version 0 included, or fails the query if out of range |
| `AuditRows.NegativeNumberIsNamed` | crates/sbae-audit/src/verify.rs:121-127 | a row renumbered below zero is reported first, as Corrupt |
| `AuditRows.SameLinkSameRow` | crates/sbae-audit/src/verify.rs:117-203 | two rows with short text that differ in any column give different links |
| `AuditRows.ValidLogIsUnique` | crates/sbae-audit/src/verify.rs:230-307 | under one anchor any other rows verify only if every column of every row is the same, or two rows collide |
| `AuditLog.ReplacedRowsAreDetected` | crates/sbae-audit/src/verify.rs:230-307 | rows of a log built by appends replaced by any others verify only if numbers, hashes and canonical contents are those written, or two colliding inputs sit at one position |
| `AuditLog.BreaksSurviveAppends` | crates/sbae-audit/src/log.rs:16-77 | a row-level break is reported word for word the same after any number of appends |
| `AuditLog.CutTailShowsAsGap` | crates/sbae-store/src/migrations/001_initial.sql:79 | cutting the tail and appending on is a Gap at the first missing number, for ever, because numbers are not reused |
| `AuditLog.RekeyPreservesHistory` | crates/sbae-audit/src/rekey.rs:26-82 | re-keying a valid log gives one valid under the new key with the same count, numbers, contents and order |
| `AuditLog.RekeyRefusesBrokenChains` | crates/sbae-audit/src/rekey.rs:26-34 | re-keying succeeds exactly on logs valid under the old key and reports the verdict otherwise |
| `AuditLog.RetiredKeyRejects` | crates/sbae-audit/src/rekey.rs:36-82 | after a re-key the retired key blames the first entry, unless both keys hash it alike |
| `AuditLog.AppendUnderOtherKey` | crates/sbae-audit/src/log.rs:16-77 | one append under another key makes the log invalid under its own, unless both keys hash row and anchor alike |
| `AuditTables.AuditTable.Append` | crates/sbae-audit/src/log.rs:16-77 | the table after an append is the log with the entry appended, or untouched with the error |
| `AuditTables.AuditTable.Verify` | crates/sbae-audit/src/verify.rs:230-307 | the loop over rows with running number and hash gives the verdict of the walk on values |
| `AuditTables.AuditTable.RekeyChain` | crates/sbae-audit/src/rekey.rs:26-82 | the loop that rewrites hashes in place gives the re-keyed log, or leaves the table untouched with the error |
| `Envelope.PayloadAadInjective` | crates/sbae-core/src/envelope.rs:27-32 | associated data of payloads tells every two slots apart |
| `Envelope.WrapAadInjective` | crates/sbae-core/src/envelope.rs:37-42 | associated data of wrapped keys tells every two slots and generations apart |
| `Envelope.OpensOnlyInItsSlot` | crates/sbae-core/src/envelope.rs:105-138 | a sealed version opens under its master key in its slot to its plaintext, and under no other key and in no other slot |
| `Envelope.RewrapMovesTheKey` | crates/sbae-core/src/envelope.rs:59-92 | after a rewrap the version opens as before under the new key and not at all under any other |
| `Envelope.GenerationIsBound` | crates/sbae-core/src/envelope.rs:79-92 | a wrapped key recorded under another generation is refused |
| `Envelope.MasterUnsealsAtItsGeneration` | crates/sbae-core/src/seal.rs:96-137 | the sealed master key opens exactly with its key-encryption key and its own generation |
| `SealFormat.EncodeRecord` | crates/sbae-core/src/seal.rs:57-66 | the bytes built up read back to the record, unless its ciphertext is empty |
| `SealFormat.FormatIsCanonical` | crates/sbae-core/src/seal.rs:57-91 | bytes read as a record exactly when they are that record's encoding with a non-empty ciphertext |
| `SecretTables.WriteKeepsStoreOk` | crates/sbae-store/src/secrets.rs:45-149 | a write takes the number after the highest, keeps every store invariant, and only moves history on |
| `SecretTables.WriteSucceedsExactly` | crates/sbae-store/src/secrets.rs:103-149 | a slot is refused exactly for a taken id or when 32-bit version numbers are used up |
| `SecretTables.RollbackKeepsStoreOk` | crates/sbae-store/src/secrets.rs:217-239 | a rollback keeps every store invariant and discards nothing |
| `SecretTables.DeleteKeepsStoreOk` | crates/sbae-store/src/secrets.rs:242-286 | a delete keeps every store invariant and only moves history on |
| `SecretTables.DeleteCutShort` | crates/sbae-store/src/secrets.rs:250-284 | stopped between the two statements of a delete, the row is sound exactly when the deleted version was not current, and reading it is not-found otherwise |
| `SecretTables.WriteIsReadBack` | crates/sbae-store/src/secrets.rs:45-99 | a write is read back as current in its slot with its provenance, a new secret starts at version 1 and keeps 10, exactly what leaves the retention window is destroyed, and no other secret is touched |
| `SecretTables.RollbackIsReadBack` | crates/sbae-store/src/secrets.rs:217-239 | a rollback succeeds exactly for a readable version, which is then what current reads; nothing else changes |
| `SecretTables.DeleteHidesExactlyOne` | crates/sbae-store/src/secrets.rs:242-286 | the deleted version is not found again; a soft delete changes its state alone and a destroy clears all four payload columns; all other versions are as before, and current is the highest active one |
| `SecretTables.DeleteSucceedsExactly` | crates/sbae-store/src/secrets.rs:250-267 | a soft delete succeeds exactly on an active version, a destroy exactly on one not destroyed, soft-deleted ones included |
| `SecretTables.CurrentIsReadable` | crates/sbae-store/src/secrets.rs:429-466 | the current version reads exactly when some version is active and never reports corruption |
| `SecretTables.ExactIsReadable` | crates/sbae-store/src/secrets.rs:152-182 | an exact version reads exactly when it is active, and is not-found otherwise |
| `SecretTables.ReadMeans` | crates/sbae-store/src/secrets.rs:152-182 | a read gives back exactly the columns of the version asked for, bound to its own slot |
| `SecretTables.CorruptionIsReported` | crates/sbae-store/src/secrets.rs:429-466 | exactly which active rows are corrupt and which are crypto errors |
| `SecretTables.RetentionBound` | crates/sbae-store/src/secrets.rs:85-99 | at most max(1, max_versions) versions of a secret keep ciphertext |
| `Rotation.RotatedVersion` | crates/sbae-store/src/maintenance.rs:73-98 | one rewrapped version opens to its plaintext under the new key in its slot only, all columns but the wrap unchanged |
| `Rotation.RotationKeepsEverything` | crates/sbae-store/src/maintenance.rs:47-113 | a readable store always rotates, and every retained version then opens under the new key to what was written |
| `Rotation.RotatesExactly` | crates/sbae-store/src/maintenance.rs:58-100 | a rotation goes through exactly when the data key of every version not destroyed opens under the old key |
| `Rotation.RotationTouchesOnlyWraps` | crates/sbae-store/src/maintenance.rs:87-98 | rotation changes no column but nonce, wrap and generation of the data key |
| `Rotation.RetiredKeyOpensNothing` | crates/sbae-store/src/maintenance.rs:47-113 | after rotation no retained version opens under the retired key |
| `Rotation.CommitKeepsReadable` | crates/sbae-store/src/secrets.rs:45-99 | after a write every retained version, the new one included, opens to what was written |
| `Rotation.DeleteKeepsReadable` | crates/sbae-store/src/secrets.rs:242-286 | after a delete every retained version still opens to what was written |
| `Rotation.ReadsWhatWasWritten` | crates/sbae-store/src/secrets.rs:152-182 | a version that is read opens to the plaintext it was written with |
| `TagTables.AddTagsMeans` | crates/sbae-store/src/tags.rs:11-29 | adding tags adds exactly those to exactly that secret, with unique tag rows and no orphan |
| `TagTables.RemoveTagsMeans` | crates/sbae-store/src/tags.rs:33-59 | removing by tag or key removes exactly the selected ones from exactly that secret, with no orphan |
| `TagTables.AddTagsCutShort` | crates/sbae-store/src/tags.rs:11-29 | cut short, the tags added so far are there and no other; a row is orphaned exactly when it was new and not yet linked |
| `TagTables.RemoveTagsCutShort` | crates/sbae-store/src/tags.rs:33-59 | cut short before the sweep, what the selectors so far select is gone; sound exactly when every tag still has a carrier |
| `TagTables.RemovalMends` | crates/sbae-store/src/tags.rs:53-56 | the next completed removal leaves no orphan, whatever was left before |
| `TagTables.TablesAreAPlainMap` | crates/sbae-store/src/tags.rs:11-59 | over any run of adds and removes the normalised tables stand for a plain map from secret to set of tags |
| `TagTables.DistinctTagsAreCarried` | crates/sbae-store/src/tags.rs:84-98 | the distinct tags are exactly those some secret carries |
| `TagTables.HasTagRowMeans` | crates/sbae-store/src/secrets.rs:314-324 | the subquery of a tag filter holds exactly for a tag the secret carries |
| `Stores.JoinAfter` | crates/sbae-store/src/secrets.rs:45-79 | statements on one secret's rows change that one row of the joined tables |
| `Stores.RotatedJoin` | crates/sbae-store/src/maintenance.rs:73-98 | tables with every row rotated join to the rotated store |
| `Stores.ListsLiveSecrets` | crates/sbae-store/src/secrets.rs:289-354 | with or without a prefix, and whatever slashes follow it, a listing selects exactly the secrets at or below it, segment by segment, that are live and carry every requested tag |
| `Stores.Store.MaxVersion` | crates/sbae-store/src/secrets.rs:137-141 | the aggregate is the highest version, or the highest active one, and 0 for none |
| `Stores.Store.BeginWrite` | crates/sbae-store/src/secrets.rs:103-149 | the slot reserved, or the refusal, is that of the joined tables |
| `Stores.Store.Prune` | crates/sbae-store/src/secrets.rs:85-99 | exactly the versions outside the retention window are destroyed |
| `Stores.Store.Commit` | crates/sbae-store/src/secrets.rs:45-79 | the joined tables after insert, publish and prune are the committed store |
| `Stores.Store.ReadVersion` | crates/sbae-store/src/secrets.rs:152-182 | the version or error read from the tables is that of the joined row |
| `Stores.Store.Rollback` | crates/sbae-store/src/secrets.rs:217-239 | the joined tables are rolled back, or untouched with the error |
| `Stores.Store.DeleteVersion` | crates/sbae-store/src/secrets.rs:242-286 | the joined tables after both statements are those of the delete, or untouched with the error |
| `Stores.Store.AddTags` | crates/sbae-store/src/tags.rs:11-29 | the loop of inserts gives the tables with the tags added; an unknown path changes nothing |
| `Stores.Store.RemoveTags` | crates/sbae-store/src/tags.rs:33-59 | the loop of deletes and the sweep give the tables with the tags removed; an unknown path changes nothing |
| `Stores.CountMeans` | crates/sbae-store/src/secrets.rs:290-296 | the count shown is the number of versions not destroyed, and within the retention limit |
| `Stores.Store.List` | crates/sbae-store/src/secrets.rs:289-354 | exactly the selected secrets, once each and in the order of their paths, with current version, retained count and tags |
| `Stores.Store.RekeyWith` | crates/sbae-store/src/maintenance.rs:47-113 | the loop over retained versions gives the rotated store, its count and the new sealed master key, or changes nothing at all |
| `Daemon.InitialIsCoherent` | crates/sbae-daemon/src/startup.rs:142-187 | a newly initialised daemon is coherent |
| `Daemon.StepSound` | crates/sbae-daemon/src/routes.rs:291-632 | every handler keeps the daemon coherent and history moving on |
| `Daemon.RekeyStepSound` | crates/sbae-daemon/src/maintenance.rs:28-83 | a rotation that completes alone keeps the daemon coherent |
| `Daemon.RestartStepSound` | crates/sbae-daemon/src/startup.rs:23-54 | a restart unseals the very keys that were in memory and keeps the daemon coherent |
| `Daemon.RunsStayCoherent` | crates/sbae-daemon/src/routes.rs:291-632 | over every run of writes, reads, rollbacks, deletes, tags, batches, refusals, rotations and restarts: the sealed master key unseals to the key in memory at its generation, every retained version opens to what was written, tags have no orphans, the log verifies, and history only moves on |
| `Daemon.ReadsAreFaithful` | crates/sbae-daemon/src/routes.rs:291-330 | in a coherent daemon a read yields what was written or a plain not-found |
| `Effects.ReadsExactly` | crates/sbae-daemon/src/routes.rs:291-330 | in a coherent daemon a read gives what was written to the version asked for exactly when that is active |
| `Effects.WriteEffect` | crates/sbae-daemon/src/routes.rs:332-380 | what a write changes for readers: its value is current under the next number, older versions read on within the limit and not beyond, its tags are added, nothing else changes; and exactly when it is refused |
| `Effects.RollBackEffect` | crates/sbae-daemon/src/routes.rs:484-508 | a rollback succeeds exactly on a version that reads, which current then reads; every other read, all tags and the keys are as before |
| `Effects.DeleteEffect` | crates/sbae-daemon/src/routes.rs:510-545 | which deletes succeed, what becomes of the version, that every other read is as before and that current is the highest version that still reads |
| `Effects.DeleteOfNothing` | crates/sbae-daemon/src/routes.rs:510-545 | a delete that names no version changes nothing |
| `Effects.TagEffect` | crates/sbae-daemon/src/routes.rs:547-597 | tag events add and remove exactly the tags asked for, by tag or bare key, on the one secret, and change no read |
| `Effects.ObservingEffect` | crates/sbae-daemon/src/auth.rs:174-230 | refusals, reads and batches change nothing but the log |
| `Effects.RekeyEffect` | crates/sbae-daemon/src/maintenance.rs:28-83 | a rotation succeeds whenever the generation has a successor: new key, audit key and generation in memory and on disk, every retained version wrapped for it, every read and tag as before |
| `Effects.RestartEffect` | crates/sbae-daemon/src/startup.rs:23-54 | a restart finds the same keys and changes no read and no tag |
| `Effects.InitialEffect` | crates/sbae-daemon/src/startup.rs:142-187 | a new daemon has generation 1, a sealed master key that unseals, nothing stored and one entry |
| `Daemon.SecretsHoldAtEveryBoundary` | crates/sbae-daemon/src/maintenance.rs:28-83 | at every commit boundary of a rotation the recorded master key unseals and opens every retained version to its plaintext, nothing but wraps changed |
| `Daemon.ChainHoldsExceptBetweenCommits` | crates/sbae-daemon/src/maintenance.rs:48-68 | at a boundary the log verifies under the recorded key exactly when the boundary is not the one between the two commits, or both keys agree on every link and the anchor |
| `Daemon.CutShortRotationStaysBroken` | crates/sbae-audit/src/rekey.rs:26-82 | a rotation stopped there has its first entry blamed, now and after any appends, and every later rotation refused |
| `Daemon.QuietWindowIsCoherent` | crates/sbae-daemon/src/state.rs:86-93 | adopting right after the store has committed completes a coherent rotation |
| `Daemon.WindowWriteIsLost` | crates/sbae-daemon/src/maintenance.rs:64-68 | a version written before adoption with the old key in memory does not open right after it |
| `Daemon.WindowEntryIsBlamed` | crates/sbae-daemon/src/maintenance.rs:64-68 | an entry recorded there under the old key leaves the log valid under the new one exactly when both keys hash entry and anchor alike, and is otherwise reported as Modified if the entry's hashes differ |
| `Trail.RunsKeepTheTrail` | crates/sbae-daemon/src/auth.rs:204-230 | over any run, rotations included, every entry ever recorded stays under its number with its contents, and each step adds at most one |
| `Trail.AccessIsRecorded` | crates/sbae-daemon/src/routes.rs:291-545 | every read, write, rollback and delete that succeeds adds exactly one entry, given field by field, and every other adds none |
| `Trail.OtherEventsAreRecorded` | crates/sbae-daemon/src/auth.rs:174-230 | so do tag changes, batches and listings; a denial adds one with its detail and path and without a token |
| `Trail.KeyEventsAreRecorded` | crates/sbae-daemon/src/maintenance.rs:68-76 | so do rotations, under the new key, and restarts |
| `Trail.StepRecords` | crates/sbae-daemon/src/routes.rs:291-632 | every ordinary event is stopped by its guard and changes nothing, or changes its tables and then appends its entry under the key in memory |
| `Trail.UnrecordedIsCoherent` | crates/sbae-daemon/src/auth.rs:204-230 | cut short after its tables have changed and before its entry, every handler leaves a coherent daemon |
| `Trail.WriteCutAmongTags` | crates/sbae-daemon/src/routes.rs:350-366 | so does a write cut short after any number of its tags |
| `RotationWindow.WindowIsCoherentExactly` | crates/sbae-daemon/src/maintenance.rs:64-68 | for every sequence of ordinary events between the store commit and adoption, the daemon is coherent afterwards exactly when each was stopped by its guard, where the keys tell the first recorded entry apart |
| `RotationWindow.ForeignRun` | crates/sbae-audit/src/log.rs:16-77 | events recorded under another audit key either all leave a log alone or leave it with a row-level break |
| `RotationWindow.WindowWriteStaysLost` | crates/sbae-daemon/src/maintenance.rs:64-68 | a version written there, between whatever other events, opens in no later state of any run, rotations and restarts included, and no later rotation succeeds |
| `RotationWindow.WindowReadsFail` | crates/sbae-store/src/maintenance.rs:102-108 | while the retired key is still in memory nothing stored before the rotation can be read |
| `Handlers.DaemonState.constructor` | crates/sbae-daemon/src/startup.rs:142-187 | a new daemon object stands for the initial state |
| `Handlers.DaemonState.Record` | crates/sbae-daemon/src/auth.rs:204-230 | appends under the audit key in memory and changes nothing else; succeeds exactly when the log has room for an entry |
| `Handlers.DaemonState.Write` | crates/sbae-daemon/src/routes.rs:332-380 | reserve, seal, commit, tag and record are together the write step of the model; it reports success exactly when a slot was there and the entry fitted |
| `Handlers.DaemonState.Read` | crates/sbae-daemon/src/routes.rs:291-330 | is the read step; returns the opened value or its error, and an error if the entry does not fit |
| `Handlers.DaemonState.RollBack` | crates/sbae-daemon/src/routes.rs:484-508 | is the rollback step, and reports success exactly when the version is readable and the entry fits |
| `Handlers.DaemonState.Delete` | crates/sbae-daemon/src/routes.rs:510-545 | is the delete step, and reports the deleted version exactly when there was one and the entry fits |
| `Handlers.DaemonState.ChangeTags` | crates/sbae-daemon/src/routes.rs:547-597 | is the tag step, and reports success exactly when the path exists and the entry fits |
| `Handlers.DaemonState.List` | crates/sbae-daemon/src/routes.rs:382-443 | shows, in the order of paths and with what the store holds, exactly the secrets the filter selects that no policy prohibits and some policy grants |
| `Handlers.DaemonState.Resolve` | crates/sbae-daemon/src/routes.rs:164-225 | the batch read on the daemon object answers and records as the batch on values, and is one step of a run |
| `Handlers.DaemonState.BackUp` | crates/sbae-daemon/src/maintenance.rs:90-172 | gives a backup in path order exactly when every payload opens and the entry fits |
| `Handlers.DaemonState.Restore` | crates/sbae-daemon/src/maintenance.rs:178-278 | restores exactly into a daemon without secrets and a bundle whose every secret imports, and leaves one with secrets alone |
| `Handlers.DaemonState.AdoptRotatedKey` | crates/sbae-daemon/src/state.rs:86-93 | memory agrees with the store afterwards, so that a restart would change nothing, exactly when the store recorded this master key at this generation |
| `Handlers.DaemonState.Rekey` | crates/sbae-daemon/src/maintenance.rs:28-83 | chain, store, memory and audit entry in this order are the rotation step; a failure keeps the old keys in memory |
| `Backup.ExportVersions` | crates/sbae-store/src/maintenance.rs:142-193 | every version is carried once, in ascending order, with state, provenance and value; it fails exactly when some payload is malformed or does not open |
| `Backup.BackUp` | crates/sbae-daemon/src/maintenance.rs:109-140 | every secret is carried once, in the order of paths, with tags, limit, current version and versions; it fails exactly when some payload is malformed or does not open |
| `Backup.ImportedRowSound` | crates/sbae-store/src/maintenance.rs:208-260 | a secret imported from a backup looks like the original and is sound and readable under the new key |
| `Backup.ImportSucceedsExactly` | crates/sbae-store/src/maintenance.rs:208-260 | a secret imports into any store exactly if path and id are free, its numbers are distinct and every live version has a value |
| `Backup.ImportedAsBundled` | crates/sbae-store/src/maintenance.rs:208-260 | what was imported is what the bundle says: limit, current version, exactly its versions with states, provenance and values, and its tags |
| `Backup.RestoreReproducesTheStore` | crates/sbae-daemon/src/maintenance.rs:178-278 | restoring a backup of a sound store under any master key and fresh ids gives the same paths, tags, limits, current versions, numbers, states and values, and the next write takes the same number |
| `Backup.SoundStoreBacksUp` | crates/sbae-store/src/maintenance.rs:116-193 | backing up a sound store whose payloads open never fails |
| `Recovery.ReadsAreSeen` | crates/sbae-store/src/secrets.rs:152-182 | in a coherent daemon what can be seen of the store answers every read |
| `Recovery.BackupMovesADaemon` | crates/sbae-daemon/src/maintenance.rs:90-278 | a coherent daemon always backs up, and the backup restored into any other coherent daemon without secrets leaves that one coherent, looking the same and answering every read alike |
| `Restoring.ImportInto` | crates/sbae-store/src/maintenance.rs:208-260 | one import gives the tables of the imported secret, or leaves them untouched with the error |
| `Restoring.RestoreInto` | crates/sbae-daemon/src/maintenance.rs:196-250 | a store that holds secrets is left alone; a bundle that fails part-way leaves exactly the secrets before the failing one |
| `Paths.PrefixOfPieces` | crates/sbae-proto/src/path.rs:70-78 | the segments of one path lead those of another exactly when it is the path itself or a prefix ending at a slash |
| `Paths.PathChars` | crates/sbae-proto/src/path.rs:81-103 | a path with valid segments holds only slashes and segment characters |
| `Paths.ValidPathMeans` | crates/sbae-proto/src/path.rs:24-103 | the limits and characters of a path in figures |
| `Paths.PrefixTestsAgreeExactly` | crates/sbae-store/src/secrets.rs:298-308 | over all strings the two prefix tests agree exactly for the empty prefix and for one that is not a lone slash and has at most one trailing slash |
| `Paths.PrefixTestsAgreeOnPaths` | crates/sbae-proto/src/path.rs:70-78 | over secret paths they agree exactly unless the prefix is a lone slash or a valid path with more than one slash after it |
| `Paths.LoneSlashDisagrees` | crates/sbae-proto/src/path.rs:70-78 | a lone slash, on which the two prefix tests part |
| `Paths.DoubledSlashDisagrees` | crates/sbae-store/src/secrets.rs:298-308 | a doubled trailing slash on which the two prefix tests part |
| `Paths.PrecedesMeans` | crates/sbae-store/src/secrets.rs:325 | the order listings come in: the path that ends first, or has the smaller character at the first difference |
| `Paths.LeastPath` | crates/sbae-store/src/secrets.rs:325 | the first of a set of paths in the order listings and exports come in |
| `Glob.NextRow` | crates/sbae-policy/src/glob.rs:22-42 | one row of the table says which path prefixes one more pattern segment can reach |
| `Glob.MatchesByTable` | crates/sbae-policy/src/glob.rs:14-49 | the table, early exit included, answers exactly the recursive meaning of literals, one-segment and any-segment wildcards |
| `Glob.MatchesConcat` | crates/sbae-policy/src/glob.rs:14-49 | a pattern in two parts matches exactly where the path can be cut in two |
| `Glob.UnderAgreesThreeWays` | crates/sbae-policy/src/glob.rs:14-49 | under a valid path means the same to the glob, the prefix test and the listing |
| `Patterns.PatternCanMatch` | crates/sbae-policy/src/glob.rs:51-66 | a well-formed pattern matches some secret path exactly when its literals fit a segment and its shortest filling has at most 16 segments and 512 bytes |
| `Patterns.LiteralPatternsArePaths` | crates/sbae-policy/src/glob.rs:51-66 | a path is exactly a well-formed pattern without wildcards within the limits of a path |
| `Patterns.PatternsJoin` | crates/sbae-policy/src/glob.rs:51-66 | well-formed patterns are closed under joining, and both wildcards are such |
| `Patterns.UnmatchableButValid` | crates/sbae-policy/src/glob.rs:51-66 | a well-formed pattern that no secret path matches |
| `Policy.DecisionMeans` | crates/sbae-policy/src/policy.rs:139-163 | allowed exactly when no deny rule of an attached policy matches the path by the glob and covers the capability, and some rule matches it, carries the capability and finds its tags |
| `Policy.FirstGrantingRuleIsNamed` | crates/sbae-policy/src/policy.rs:149-163 | the decision names the pattern of a rule that grants, and none before it does |
| `Policy.SubtreeRuleGrants` | crates/sbae-policy/src/policy.rs:139-163 | a rule over a subtree grants exactly its capabilities to exactly the paths under it that carry its tags |
| `Policy.SubtreeProhibitionDenies` | crates/sbae-policy/src/policy.rs:76-80 | attaching a prohibition over a subtree takes away exactly what lies under it, every capability if it names none |
| `Policy.OrderOfPoliciesIsIrrelevant` | crates/sbae-policy/src/policy.rs:139-163 | the same policies in any order decide alike |
| `Policy.MorePoliciesKeepProhibitions` | crates/sbae-policy/src/policy.rs:139-147 | attaching a policy never lifts a prohibition |
| `Policy.RequiredTagsOnlyNarrow` | crates/sbae-policy/src/policy.rs:149-163 | dropping tag requirements never takes access away |
| `Policy.MoreTagsKeepAccess` | crates/sbae-policy/src/policy.rs:149-163 | more tags on a secret never take access away |
| `Policy.PathlessGateAdmits` | crates/sbae-daemon/src/auth.rs:167-172 | the pathless gate admits every caller some path is granted to |
| `ResolveRoute.ResolveBatch` | crates/sbae-daemon/src/routes.rs:164-225 | the loop over targets and its closing entry give the answer of the batch on values and the daemon after it |
| `ResolveRoute.CheckMeans` | crates/sbae-daemon/src/auth.rs:106-161 | the check passes exactly for a known, unrevoked, unexpired token from its own uid that may read the path |
| `ResolveRoute.DenialMeans` | crates/sbae-policy/src/token.rs:240-265 | why a check fails: exactly when for a wrong secret, revocation, expiry, the peer or the policies, in this order |
| `ResolveRoute.BatchMeans` | crates/sbae-daemon/src/routes.rs:164-225 | a non-empty batch succeeds exactly when the token is valid to the end, every path is granted and the version its target asks for reads, and the closing entry can be appended; each result is of the version pinned, or of the current one, in order |
| `ResolveRoute.RefusalNamesTheFirst` | crates/sbae-daemon/src/routes.rs:186-213 | a batch refused for want of a grant names the first target that may not be read |
| `ResolveRoute.EmptyBatchMeans` | crates/sbae-daemon/src/routes.rs:164-185 | an empty batch succeeds exactly with a valid token whose policies grant read somewhere, if its entry can be appended |
| `ResolveRoute.PathlessGateAdmitsReader` | crates/sbae-daemon/src/auth.rs:106-172 | the first gate never rejects a valid token that may read some path |
| `ResolveRoute.BatchIsFaithful` | crates/sbae-daemon/src/routes.rs:164-225 | in a coherent daemon a batch yields what was written to the versions asked for, or is denied, or is a plain not-found, unless the log is full; the daemon stays coherent |
| `ResolveRoute.BatchIsAStep` | crates/sbae-daemon/src/routes.rs:164-225 | every batch, granted, denied or failed, is one step of the run model |
| `WireText.ValidUtf8Means` | crates/sbae-daemon/src/resolve_socket.rs:199-202 | text is valid UTF-8 exactly when it is the shortest encoding of some Unicode scalar values |
| `WireText.Utf8Around` | crates/sbae-daemon/src/resolve_socket.rs:199-202 | text cut at an ASCII byte is valid UTF-8 exactly when both sides are |
| `WireText.NextLineMeans` | crates/sbae-daemon/src/resolve_socket.rs:182-203 | a line is read exactly when it is newline-free valid UTF-8 under the cap with a newline after it |
| `WireText.Reader.ReadCappedLine` | crates/sbae-daemon/src/resolve_socket.rs:182-203 | the byte loop consumes exactly one capped line of the stream |
| `ResolveSocket.ReadRequest` | crates/sbae-daemon/src/resolve_socket.rs:104-167 | the line loop understands exactly what the parser on values does and leaves the same rest |
| `ResolveSocket.RequestRoundTrips` | crates/sbae-daemon/src/resolve_socket.rs:104-167 | a printed request is read back, with its rest untouched, exactly when the token is non-empty valid text without space or newline, there are at most 256 paths, and the first line is under the cap |
| `WireText.ParseUintMeans` | crates/sbae-daemon/src/resolve_socket.rs:124-135 | a number is read exactly from its decimal digits after any zeros and at most one plus sign, if it fits |
| `ResolveSocket.RequestLineMeans` | crates/sbae-daemon/src/resolve_socket.rs:111-135 | a first line is accepted for a token and a count exactly when it is the verb, some spelling of 1, the token and some spelling of the count |
| `ResolveSocket.RequestLineRefusals` | crates/sbae-daemon/src/resolve_socket.rs:111-135 | what is wrong with a line of four fields, in the order of the checks |
| `ResolveSocket.TargetMeans` | crates/sbae-daemon/src/resolve_socket.rs:145-161 | a target line is accepted exactly when it is a path, alone or with an at sign and some spelling of a version |
| `ResolveSocket.VersionZeroIsRefused` | crates/sbae-daemon/src/resolve_socket.rs:155-160 | version 0 is refused however it is spelled |
| `ResolveSocket.AcceptedRequestIsSelfDelimiting` | crates/sbae-daemon/src/resolve_socket.rs:104-167 | an accepted request consumes at most 257 capped lines and nothing after them has any influence |
| `ResolveSocket.ReprintingIsUnderstood` | crates/sbae-daemon/src/resolve_socket.rs:104-167 | whatever spelling a request came in, its printed form means the same |
| `ResolveSocket.RespondValues` | crates/sbae-daemon/src/resolve_socket.rs:205-221 | the loop writes one block for each value, in order |
| `ResolveSocket.ValuesRoundTrip` | crates/sbae-daemon/src/resolve_socket.rs:205-221 | a client recovers every version and value from concatenated blocks whatever bytes the values hold |
| `ResolveSocket.RefusalRoundTrips` | crates/sbae-daemon/src/resolve_socket.rs:219-228 | a client that expects a value recovers the message of a refusal |
| `ResolveSocket.ViolationIsAnswered` | crates/sbae-daemon/src/resolve_socket.rs:72-92 | a broken framing rule draws the same refusal as a denial and one entry that names the rule |
| `ResolveSocket.SilenceIsIgnored` | crates/sbae-daemon/src/resolve_socket.rs:77-79 | a peer that closes without a word gets nothing and leaves no trace |
| `ResolveSocket.InternalErrorExactly` | crates/sbae-daemon/src/routes.rs:144-155 | the internal error is sent exactly for a broken store or a batch that cannot be recorded |
| `ResolveSocket.ClientGetsTheBatch` | crates/sbae-daemon/src/resolve_socket.rs:72-100 | a whole exchange, closing entry included, gives the client exactly what the batch gave, or its refusal |
| `ResolveSocket.ClientGetsWhatWasWritten` | crates/sbae-daemon/src/routes.rs:144-155 | against a coherent daemon whose log is not full the client ends with the values written to the versions it asked for, pinned or current, one for each path, or with the one denial message, never the internal error |
| `ResolveSocket.AnyConnectionKeepsCoherence` | crates/sbae-daemon/src/resolve_socket.rs:72-100 | whatever bytes a connection sends, the daemon stays coherent, loses no entry and gains at most one |

## Left out

- The insides of BLAKE3, XChaCha20-Poly1305, HKDF, Argon2id, SHA-256, base32 and base64: libraries, taken symbolically.
- SQLite: WAL, pragmas, busy timeouts and I/O errors; a statement or transaction is one atomic update of the tables.
- Text columns hold any bytes; that SQLite text is valid UTF-8 is not used.
- ORDER BY key and value of tags: the tags of a secret are a set, and a backup carries them in any order.
- The created and updated times of a `secrets` row, and `versions`, which only lists metadata.
- JSON, TOML, HTTP, the CLI, privilege drop, keyfile handling, systemd: plumbing around the logic.
- Read and connection timeouts of the resolve socket.
- Mutexes and lock poisoning: handlers are atomic steps, except for the commit points of a rotation and the window before the new key is adopted.
- Token issue and lookup, policy storage and JSON documents: the token record and the attached policies are parameters of a batch. Policies carried in a backup bundle and the passphrase encryption of the bundle are not modelled.
- A bundle that is not the backup of a sound store: `Restoring.RestoreInto` says what is imported, not that the result is sound, because the schema does not check it.
- The rewrap of a `WrappedKey` is modelled on values: update in place and aliasing are not captured.
- Glob.NextRow: the one-segment wildcard and literals share one loop over path segments, where the source copies a slice for the wildcard.
- ResolveRoute.ResolveBatch: the time an entry is stamped with is one parameter for the whole batch, and the last-used time of the token is not kept.
- Stores.Store.List: a summary carries no created and updated time, because `SecretRow` does not keep them.
- Handlers.DaemonState.List: its summaries carry no updated time, for the same reason.
- Backup.BackUp: the policies a bundle carries are left out, and so is its creation time.
- Daemon.RunsStayCoherent: restores are not steps of a run; a restored store is shown sound on its own.
- ResolveSocket.RefusalRoundTrips: a client that asked for no path reads no line and so sees no refusal.
