# Verification of the Meridian S3 object adapter

The adapter keeps immutable object versions in an S3 bucket. A put writes a blob, then a write-once
reference record with the digests of its integrity chunks, then a latest pointer; a delete removes
blob and reference, rewrites or removes the pointer, and leaves evidence. This project models that
protocol, and the algorithms around it, and proves what they keep. `dafny verify dfyconfig.toml`
checks the whole project.

How the pieces fit:

- `Bucket` is the store as the transport sees it: each key family of the layout has its own map from
  keys to stacks of versions, with atomic put-if-absent and delete-by-version. `Layout` proves that the
  key families really are disjoint and that listing prefixes select what they should.
- `Publication` makes a put and a delete into machines that perform one transport call at each step.
  `Interleaving`, `StoredBytes` and `Accounting` run any number of puts, each free to stop anywhere: what
  pointers and records name, what bytes are stored for them, and who wrote them. `Deletion`, `Holding`,
  `Pointers`, `StaleDeletes` and `Safekeeping` add deletes, `StoppedPuts` runs a stopped put again,
  `Leftovers` accounts for blobs and for removed records. `Answers` gives the cause of every answer, `Trails`,
  `AnsweredPuts` and `AnsweredDeletes` what a task has done by then. `Keys` carries the typed bucket over to one flat
  store of key strings, and `KeyListing` what is listed of it.
- `Serial` gives closed forms of whole operations and proves that they are the machines run to their end.
  `Catalog` and `History` show what these do to a simple catalog (published versions, current version).
- `Transport` and `Adapter` are the classes with their methods, each proved equal to the closed form that
  the theorems are about. `Integrity` (spool, limited reader, verified range source), `Multipart` and
  `Listing` are the stream and paging algorithms in the form the source has them.
- `Registers` and `Migration` are the write-once documents; `Json` and `Base64Url` are what list cursors are made of.
- `Limits` collects what serial operations do not give, `Races` the runs in which interleaving breaks
  something, and `Configurations` which settings rule these out.

Conventions. SHA-256 is a function parameter: safety is stated as equality of digests, and exact bytes are
claimed only where a hypothesis rules out collisions or the bytes are known to have landed. Timestamps are
integers. What the surroundings contribute to a step (the clock, the bytes the provider keeps, the answer of
a scan) is an arbitrary input unless a theorem says that scans answer with what they find. An `Orderly` bucket
is one on which whole operations ran one after the other with an increasing clock; a `Careful` operation is one
whose clock has moved on, whose upload lands or is read back, whose scan was complete, and which does not leave
a strand.

## What turned out not to hold

- In a versioned bucket, deleting the last version of an object by its pointer's version id uncovers an
  older version of the pointer, which then names nothing. Reads treat it as absent, but a put that may only
  create the pointer fails on it after having published its reference, which stays listed without ever being
  current. `Catalog.DeleteRefines` and `History.TidyUnlessStranded` give the exact conditions,
  `Limits.StrandIsReachable` a run.
- A retained record is safe unless a delete of the same version is already past its retention check when the
  record is published. `Holding.SafeIffUnthreatened` is exact, `Races.OverlappingDeletesLoseRetention` a run.
- That a record's bytes are stored is not a matter of read-back alone. Without versioning the multipart path is
  unconditional and replaces the blob of a published version before it is verified, so a put that fails its
  read-back can break the pointer of another that succeeded (`Races.OverwriteBreaksPointer`).
  `StoredBytes.UploadIsSafeIff` gives the exact condition on an upload, `Configurations.BytesHoldIff` the exact
  condition on the configuration and the size of payloads.
- With deletes in the run, what is stored for a record can be wrong, and not just gone, unless uploads are read
  back and the bucket keeps versions: `Configurations.RightOrGoneIff` is exact. `Races.StaleDropBreaksRecord` is
  the run without versions, for a payload of any size and with every upload read back.
- A put that has succeeded can be undone by a delete of an older version of the object that read the pointer
  before: it rewrites the pointer to what its scan found, or drops it, whatever it has become.
  `StaleDeletes.PointerSafeIff` is exact, with `StaleDeletes.MissesFewRecords` for up to 10,000 versions;
  `Races.StaleDeleteLosesUpdate` is a run.
- That a delete answers does not mean that it removed the record itself. When two deletes of a version overlap,
  the one that removed it can fail while the other, which removed nothing, answers that it deleted
  (`Races.OtherDeleteAnswers`). `AnsweredDeletes.DropRemovesWhatWasFound` says when a drop removes what it found.
- A put can be retried or repeated only within the condition of `Limits.PutPublishesIff`: an older version
  that is still published, or a blob left by a put that stopped, makes it fail. A put that stopped between its
  record and its pointer is not completed by running it again, unless a dangling pointer names its version
  already (`StoppedPuts.PutAgainAfterStop`).
- A cursor for a suffix that JSON escapes can be longer than decoding admits: `Layout.CursorRoundTrip` is exact.
  The layout's own reference keys never come near that (`Layout.Layout.ReferenceKeysAreCursorable`).
- A list call never fetches more than two pages, although its bound is ten: once a second non-empty page has
  been read the call always ends with a cursor, even if nothing is left behind it.

## Model

| member | source | states |
|---|---|---|
| `Interleaving.LatestResolvesToRecord` | src/meridian_storage/adapters/s3/adapter.py:488-541 | In every state that interleaved puts can reach, each free to stop after any call and none a delete, whatever their uploads stored: a latest pointer resolves to a reference record of its object that carries the pointer's digest. |
| `Interleaving.RunKeepsLinks` | src/meridian_storage/adapters/s3/adapter.py:488-541 | The invariant behind it, over whole runs: records sit under their own identity, pointers and the puts about to move one have their record, and references once there stay as they are. |
| `Interleaving.PutStepKeepsLinks` | src/meridian_storage/adapters/s3/adapter.py:488-540 | Each single call of a put keeps that invariant. |
| `StoredBytes.LatestResolvesToBytes` | src/meridian_storage/adapters/s3/adapter.py:488-541 | In a delete-free run whose uploads are safe, every reference record names a blob version that is stored, hashes to its digest and has the recorded length, and so does the record behind every latest pointer. |
| `StoredBytes.UploadIsSafeIff` | src/meridian_storage/adapters/s3/transport.py:158-216 | Which uploads are safe, exactly: in any state that safe uploads reach, one more upload leaves every record its bytes in every further run of safe uploads if and only if what lands serves everyone who needs it, namely, without versioning, the record that is there or else the puts about to write it, and, without read-back, its own put; a single request that is refused stores nothing. |
| `StoredBytes.UploadHoldsIff` | src/meridian_storage/adapters/s3/transport.py:158-216 | The same for one step: an upload that is not refused keeps the invariant if and only if it is safe. |
| `StoredBytes.RunHolds` | src/meridian_storage/adapters/s3/adapter.py:488-541 | The invariant behind it, over whole runs of safe uploads. |
| `StoredBytes.ReadBackSuffices` | src/meridian_storage/adapters/s3/transport.py:212-216 | When every upload is read back, nothing more is asked of uploads in a bucket that keeps versions, nor in any bucket whose puts all stay below the multipart threshold: every delete-free run is safe. |
| `Races.OverwriteBreaksPointer` | src/meridian_storage/adapters/s3/transport.py:178-215 | A reachable run in which the condition fails: without versioning and with every upload read back, two puts of one large payload pass their checks, one publishes, and the upload of the other leaves other bytes stored under the blob version behind the latest pointer; a stat still answers if they have the recorded length. |
| `Configurations.BytesHoldIff` | src/meridian_storage/adapters/s3/transport.py:178-216 | What a caller can check: for payloads up to a given size, every delete-free run leaves each record its bytes if and only if uploads are read back and the bucket keeps versions or that size stays below the multipart threshold. |
| `Safekeeping.StatNamesRightBytes` | src/meridian_storage/adapters/s3/adapter.py:549-563 | In a bucket that keeps versions, after any interleaving of puts and deletes whose uploads are read back or land well, the blob version of every record is gone or has its digest and length, and every stat that succeeds names a stored blob version with the digest and length that it answers. |
| `Configurations.RightOrGoneIff` | src/meridian_storage/adapters/s3/adapter.py:549-563 | With deletes in the run both hold in every run, whatever lands, if and only if uploads are read back and the bucket keeps versions. |
| `Safekeeping.RunKeepsIds` | src/meridian_storage/adapters/s3/adapter.py:403-705 | Over any run of puts and deletes the ids of blob versions are handed out once, and a blob version stays what it is until it is gone. |
| `Races.StaleDropBreaksRecord` | src/meridian_storage/adapters/s3/adapter.py:675-687 | The run behind the failing half with read-back on, for every payload size and without versioning: a delete past its checks frees the key between a later put's read-back and its record, another upload takes the key, and the put publishes; wrong bytes are then stored, not missing, under the blob version that its record names, and a stat of the object answers with that record if they have its length. |
| `Configurations.LonePutMisleads` | src/meridian_storage/adapters/s3/transport.py:212-216 | The run behind it without read-back, versioned or not: a put that runs alone publishes whatever landed, and is answered for by a stat in the same way. |
| `Accounting.EveryReferenceIsAccountedFor` | src/meridian_storage/adapters/s3/adapter.py:515-539 | In every delete-free run, whatever the uploads stored, each reference record was written by exactly one put, which is still under way or stopped, or moved the pointer, which named it after some prefix of the run, or left an orphan record, whose reason is the lost race for the pointer; a put that looks for a winner never finds its own digest, so the exemption from the orphan record is never taken. |
| `Accounting.RunKeepsAccount` | src/meridian_storage/adapters/s3/adapter.py:515-539 | The bookkeeping invariant behind it, over whole runs. |
| `Accounting.MovedNamedOnce` | src/meridian_storage/adapters/s3/adapter.py:521-532 | Over any run, deletes included, a put that counts as having moved the pointer did make it name its own version: some prefix of the run ends with that pointer. |
| `Accounting.MovingNames` | src/meridian_storage/adapters/s3/adapter.py:521-532 | The step that does it. |
| `Leftovers.EveryBlobIsAccountedFor` | src/meridian_storage/adapters/s3/adapter.py:488-541 | In every delete-free run, whatever the uploads stored, each blob version that is stored belongs to a put of its key, and no two to the same: that put is on its way to the record, or the record names this blob version, or the put has failed. |
| `Leftovers.RunOwns` | src/meridian_storage/adapters/s3/adapter.py:488-541 | The invariant behind it, over whole runs. |
| `Leftovers.EveryRemovalIsAccountedFor` | src/meridian_storage/adapters/s3/adapter.py:675-704 | In every run of puts and deletes, a version that had a record at some moment and has none at the end has evidence of its deletion, or a delete that dropped its record in the run has yet to leave the evidence, or failed or stopped in between. |
| `AnsweredPuts.PublishedDidItsWork` | src/meridian_storage/adapters/s3/adapter.py:457-541 | In every run of puts and deletes, a put that answers that it published has, in this order, passed both checks, stored a blob version, on a free key where the upload is a single request, found it there with the payload's length and digest where uploads are read back, written the record of what was submitted for that blob version where there was none, and moved the pointer, which was not there if it may only be created; the answer is the metadata of that record. |
| `AnsweredPuts.OrphanHasItsCause` | src/meridian_storage/adapters/s3/adapter.py:521-539 | In every run each orphan record was left by a put of its version that had gone the same way up to its record, then found a pointer that it may only create, and then saw that the pointer leads nowhere or to another version. |
| `Leftovers.WrittenOnce` | src/meridian_storage/adapters/s3/adapter.py:696-704 | Over every run orphan records and deletion evidence stay as they are, once there. |
| `Trails.PutActLeaves` | src/meridian_storage/adapters/s3/adapter.py:488-539 | What each call of a put on this way leaves in the bucket: the blob, the record, the pointer, or the orphan record with its reason, and nothing otherwise. |
| `Trails.DeleteActLeaves` | src/meridian_storage/adapters/s3/adapter.py:675-704 | The same for a delete: exactly the named blob version, record, or pointer version is gone, a rewritten pointer leads to what the scan found, the evidence says the time, and nothing changes otherwise. |
| `AnsweredDeletes.DeletedDidItsWork` | src/meridian_storage/adapters/s3/adapter.py:674-705 | In every run of puts and deletes, a delete that answers that it deleted has, in this order, found a record of the version that permitted deletion at that time, looked whether the pointer leads to the version, scanned, headed the record, dropped the blob version that the record names, dropped the headed record, rewritten a pointer that led to the version to what the scan found or dropped its current version when the scan found nothing, and left the evidence where there was none, with the time of that call. The evidence is there, unchanged, at every later moment, and no other delete of the version answers so. |
| `AnsweredDeletes.DropRemovesWhatWasFound` | src/meridian_storage/adapters/s3/adapter.py:674-687 | The drop removes the very record that was headed, unless some delete of the version has dropped it in between; afterwards it is gone. |
| `Races.OtherDeleteAnswers` | src/meridian_storage/adapters/s3/adapter.py:674-705 | A reachable run, versioned or not, of the exception: two deletes of a version overlap, the first removes the record after both have headed it, and the second removes nothing, leaves the evidence and answers that it deleted; the first can then only fail. |
| `Answers.EveryAnswerHasItsCause` | src/meridian_storage/adapters/s3/adapter.py:403-705 | In every run of puts and deletes each answer is the one that its cause calls for: the task met the cause in one of its calls, as written out for every outcome and failure of puts and deletes, or was a put whose retention could not be enforced. |
| `Accounting.CreateOnlyObjectHasOneWinner` | src/meridian_storage/adapters/s3/adapter.py:457-476 | When every put of an object may only create it, in any delete-free interleaving, whatever the uploads stored, at most one put publishes through the write path, a pointer once set never changes, and every successful put, winner or repeat, answers with the metadata behind the pointer. |
| `Accounting.RunKeepsWinner` | src/meridian_storage/adapters/s3/adapter.py:515-541 | The invariant behind it, over whole runs. |
| `Deletion.OthersDoNotDisturb` | src/meridian_storage/adapters/s3/adapter.py:403-547 | Whatever interleaved puts and deletes of other objects do, an object keeps every blob, reference, pointer, orphan and deletion record, and stats the same. |
| `Keys.ObjectsKeepApart` | src/meridian_storage/adapters/s3/layout.py:69-121 | The same on the flat store of key strings: whatever puts and deletes of other objects do, no string of an object changes, provided the tokens tell the names in use apart. The store may hold anything outside the layout's root. |
| `Keys.RunChangesOwnStrings` | src/meridian_storage/adapters/s3/layout.py:69-121 | Over any run the flat store goes on holding exactly what the typed bucket says, and changes only at the strings of the versions that the run's tasks are about; schemas, resources, migration records and whatever lies outside the root among the others. |
| `Keys.TaskChangesOneString` | src/meridian_storage/adapters/s3/layout.py:69-121 | Each call of a put or delete is the change of one string, a key of its own version or its object's pointer. |
| `Keys.ChangeIsOneString` | src/meridian_storage/adapters/s3/layout.py:69-121 | A change of one typed key is the change of the string it renders to. |
| `Keys.OwnStringsApart` | src/meridian_storage/adapters/s3/layout.py:69-121 | Two versions share no key string, except the pointer when they belong to one object. |
| `KeyListing.ScanOfStrings` | src/meridian_storage/adapters/s3/adapter.py:792-815 | Scanning the flat store under the object's key prefix selects exactly the record that scanning the object's records by digest selects, with the same bound. |
| `KeyListing.WalkStore` | src/meridian_storage/adapters/s3/adapter.py:614-655 | List calls on the flat store, repeated until no cursor comes back, answer with the metadata of exactly the bucket's current records of that resource whose object id has the prefix, each record once, for every limit. |
| `KeyListing.StoreIsResumable` | src/meridian_storage/adapters/s3/layout.py:123-133 | Every key that such a listing can read can be named by a cursor. |
| `KeyListing.EnumerationListsRecords` | src/meridian_storage/adapters/s3/layout.py:93-94 | An enumeration of the resource's key prefix lists exactly the resource's records, each once. |
| `KeyListing.WalkDuringRun` | src/meridian_storage/adapters/s3/adapter.py:614-655 | List calls while a run of puts and deletes goes on, each on the flat store as it is at its moment of the run: an item is the record as it is at its call, no version is listed twice, and once no cursor comes back every version that had a matching record at each call is listed. |
| `KeyListing.WalkedIsListedOnce` | src/meridian_storage/adapters/s3/adapter.py:614-655 | What a walk over changing stores scanned, in terms of the records that these stores hold. |
| `Keys.ReachableIsRepresented` | src/meridian_storage/adapters/s3/layout.py:69-121 | Starting from a store with nothing under the layout's root, what any run of puts and deletes makes of the empty bucket is the content of a flat store to which all this applies; strings outside the root stay as they were. |
| `Deletion.PutStepTouchesOwn` | src/meridian_storage/adapters/s3/adapter.py:488-539 | A call of a put changes nothing but keys of its own version and its object's pointer. |
| `Deletion.DeleteStepTouchesOwn` | src/meridian_storage/adapters/s3/adapter.py:675-704 | The same for every call of a delete. |
| `Holding.SafeIffUnthreatened` | src/meridian_storage/adapters/s3/adapter.py:663-687 | In any reachable state, a record with retention and its blob version outlive every further run of puts and deletes in which each retention check of it is refused, if and only if no delete of that version is already past its check and can still remove them. When the stored bytes are to stay as well, the runs are those in which no unconditional upload replaces them by others, which only a multipart upload without versioning can do. |
| `Holding.RetainedRecordStays` | src/meridian_storage/adapters/s3/adapter.py:461-521 | The direction that protects: in such a run no event, put or delete, removes or changes the record, and none removes the blob version it names, or, where no upload overwrites them with others, changes its bytes. |
| `Holding.ThreatRemoves` | src/meridian_storage/adapters/s3/adapter.py:663-687 | The direction that does not: a delete already past its check, left to itself, removes the record or its blob without looking at the retention again. |
| `StaleDeletes.PointerSafeIff` | src/meridian_storage/adapters/s3/adapter.py:663-694 | In any reachable state, the current pointer version of an object outlives every further run in which scans answer with what they find, no put of the object writes a record or the pointer and no delete of the version it names reads it, if and only if no delete of the object that read the pointer when it named the delete's own version can still rewrite or drop it. Where versions are kept any rewrite does that, because it makes a new pointer version; without versions the delete's scan must have answered, or be able to answer, with something else than the pointed version. |
| `StaleDeletes.MissesFewRecords` | src/meridian_storage/adapters/s3/adapter.py:792-815 | Up to 10,000 versions a scan can come to answer with something else just when it does so already, or when a delete of the pointed version, past its own read of the pointer, can still remove that version's record. |
| `StaleDeletes.UnendangeredPointerStays` | src/meridian_storage/adapters/s3/adapter.py:663-694 | The direction that protects, over whole runs. |
| `StaleDeletes.EndangeringDisplaces` | src/meridian_storage/adapters/s3/adapter.py:685-694 | The direction that does not: with scans that answer with what they find, such a delete displaces the pointer without reading it again, after others have removed what they still can. |
| `Pointers.FreshPointerStays` | src/meridian_storage/adapters/s3/adapter.py:663-694 | Whatever records are written meanwhile and whatever scans answer: while no delete of the object acts on a read of the pointer that named the delete's own version, the current pointer version stays until a put of the object moves the pointer or a delete of its version reads it. |
| `Races.StaleDeleteLosesUpdate` | src/meridian_storage/adapters/s3/adapter.py:663-694 | A reachable run, versioned or not, that loses an update: a delete that found its version current goes on after another put of the object has succeeded, and drops the pointer that this put has just written; the new version still stats by its digest, but the object is not found. |
| `Holding.RunIdentified` | src/meridian_storage/adapters/s3/adapter.py:515-520 | Over any run of puts and deletes each reference key has at most one record, filed under its own object and digest. |
| `Holding.PutStepKeepsReference` | src/meridian_storage/adapters/s3/adapter.py:515-520 | A put never replaces an existing reference record. |
| `Races.OverlappingDeletesLoseRetention` | src/meridian_storage/adapters/s3/adapter.py:657-705 | A reachable run in which a record whose policy never permits deletion, or its blob, is removed: two deletes of a version overlap and the version is published again, with that policy, in between. |
| `Retention.FromRequest` | src/meridian_storage/adapters/s3/retention.py:25-48 | Enforcement that is required but not configured is refused, and nothing else is; a record carries over the deadline, the policy and whether enforcement is required, and is marked provider-enforced exactly when there is a lock mode and a deadline. |
| `Retention.GuardTurnsAtDeadline` | src/meridian_storage/adapters/s3/retention.py:89-97 | What is requested with a deadline is refused until the deadline and granted from it on; under a policy alone it is refused forever. |
| `Serial.RunPutIsSteps` | src/meridian_storage/adapters/s3/adapter.py:403-547 | A put that makes its calls one after the other without interruption ends as one closed form says. |
| `Serial.RunDeleteIsSteps` | src/meridian_storage/adapters/s3/adapter.py:657-705 | The same for a delete. |
| `Catalog.PutRefines` | src/meridian_storage/adapters/s3/adapter.py:457-541 | A put that runs alone is an operation on the catalog of published versions: success publishes the version and makes it current, a repeat changes nothing and answers with the current version under the same attributes, immutability and retention, and a failure changes nothing except in one exactly described case, a create-only put that meets a dangling pointer. |
| `Catalog.AdmissionDecides` | src/meridian_storage/adapters/s3/adapter.py:457-487 | Which puts reach the upload, and the answer to each of the others, depends on the catalog alone. |
| `Catalog.WritingPutRefines` | src/meridian_storage/adapters/s3/adapter.py:488-541 | What a put that reaches the upload does to the published versions and to what is current. |
| `Catalog.DeleteRefines` | src/meridian_storage/adapters/s3/adapter.py:657-705 | A delete that runs alone retracts exactly its version when it is published and released, removes the recorded blob version, passes what is current on to the successor and leaves evidence; earlier evidence only turns the answer into a conflict. Deleting the last version leaves the pointer dangling if and only if the pointer key had more than one version. |
| `Catalog.RepointRefines` | src/meridian_storage/adapters/s3/adapter.py:688-694 | Rewriting or removing the pointer makes exactly the successor current. |
| `History.TidyUnlessStranded` | src/meridian_storage/adapters/s3/adapter.py:403-547 | Each serial operation keeps the newest surviving version current, present exactly when any survives, if and only if it is not a put that publishes past a pointer to another, vanished version. |
| `History.HistoryIsTidy` | src/meridian_storage/adapters/s3/adapter.py:657-705 | So the newest surviving version is current after any serial history without such a put. |
| `History.UnversionedHistoryIsTidy` | src/meridian_storage/adapters/s3/adapter.py:657-705 | In a bucket without versioning no serial history leaves a pointer dangling, and the newest surviving version is current after each. |
| `History.ScanFindsSuccessor` | src/meridian_storage/adapters/s3/adapter.py:792-815 | A complete scan over records with distinct times finds the newest other version, and nothing exactly when there is no other. |
| `History.StatReadsCatalog` | src/meridian_storage/adapters/s3/adapter.py:549-563 | Stat answers with the published version asked for, or with the current one, and with not-found otherwise. |
| `History.StatFindsNewest` | src/meridian_storage/adapters/s3/adapter.py:549-563 | After any careful serial history on a fresh bucket an exact stat finds a version just when it is published, and a stat of the object finds its newest surviving version, or nothing just when none survives. |
| `History.OrderlyHistory` | src/meridian_storage/adapters/s3/adapter.py:403-547 | The invariant behind it: the bucket stays sound, the newest version current, every recorded blob stored, and creation times of an object distinct. |
| `History.ReadsOwnWrite` | src/meridian_storage/adapters/s3/adapter.py:515-541 | After a successful put the next stat answers with the metadata that the put answered with. |
| `Publication.StatAnswers` | src/meridian_storage/adapters/s3/adapter.py:549-563 | For every bucket: stat answers with a record if and only if it is the one asked for, by digest or through the pointer, says so of itself, and names a blob version that is stored with its length and digest; with not-found if and only if there is no such record or no such blob version; and with a mismatch otherwise. |
| `Limits.PutPublishesIff` | src/meridian_storage/adapters/s3/adapter.py:457-541 | Exactly when a put that runs alone publishes: it is admitted, no unreferenced blob blocks its upload, the upload reads back, the version has no record, and a pointer that may only be created does not exist. |
| `Limits.OlderVersionStaysOld` | src/meridian_storage/adapters/s3/adapter.py:488-520 | A version that is still published but not current cannot be made current again by a put. |
| `Limits.ReuploadReplacesPublished` | src/meridian_storage/adapters/s3/transport.py:178-215 | Without versioning, a multipart upload of an already published version replaces its blob by whatever landed, although the put then fails; a stat notices a wrong length only. |
| `Limits.StrandIsReachable` | src/meridian_storage/adapters/s3/adapter.py:521-539 | Five serial operations on a versioned bucket after which a create-only put is answered with a conflict while its version stays published without ever being current. |
| `Deletion.StoppedDeleteKeepsTheRest` | src/meridian_storage/adapters/s3/adapter.py:675-704 | Wherever a delete stops, every other version keeps its blob and reference and stats as before. |
| `Deletion.StoppedDeleteReads` | src/meridian_storage/adapters/s3/adapter.py:739-767 | While a delete stands anywhere, its object reads as before, as the successor that the scan found, or as not found; between the drop of the reference and the pointer's rewrite always as not found, never as another version. |
| `Deletion.HalfDeletedIsNotFound` | src/meridian_storage/adapters/s3/adapter.py:675-687 | Once a delete has removed anything, wherever it stops, its version stats as not found. |
| `Deletion.RunAgainAfterStop` | src/meridian_storage/adapters/s3/adapter.py:657-705 | Running a stopped delete again gets past the lookup exactly while the reference record is still there, and then ends as one undisturbed delete of the original bucket would; otherwise it finds nothing and changes nothing. |
| `Deletion.StepsStand` | src/meridian_storage/adapters/s3/adapter.py:657-705 | Where a lone delete can stand after any number of calls, relative to the bucket it started from. |
| `StoppedPuts.StoppedPutKeepsTheRest` | src/meridian_storage/adapters/s3/adapter.py:488-539 | Wherever a put stops, every other version keeps its blob and reference and stats as before, and so does every other object. |
| `StoppedPuts.StoppedPutReads` | src/meridian_storage/adapters/s3/adapter.py:488-541 | While a put stands anywhere, its version reads as before until its record is written and as that record from then on, with the digest, length, chunk digests and blob version of this put, and stats as it when uploads are read back; the object reads as before until the latest pointer names the recorded version, which a dangling pointer may do already. |
| `StoppedPuts.PutAgainAfterStop` | src/meridian_storage/adapters/s3/adapter.py:403-541 | How the same put ends when it is run again after it stopped anywhere: as at first while nothing is written; after the upload, in a conflict with its own blob on the single-request path and in the same answer on the multipart path; with the record written, in a repeat, or in a conflict if create-only, when the latest pointer names the version, and otherwise in a conflict on the blob, or in that of the read-back or on the record, with neither record nor pointer written. |
| `StoppedPuts.PublishesAgainIff` | src/meridian_storage/adapters/s3/adapter.py:403-541 | Running it again publishes if and only if the undisturbed put would, no record was written, and no blob was on the single-request path. |
| `Adapter.S3ObjectAdapter.PutObject` | src/meridian_storage/adapters/s3/adapter.py:403-547 | The put as its method performs it, payload in any fragments: it either ends exactly as the closed form, or stopped in a failed upload with at most the blob written. |
| `Adapter.S3ObjectAdapter.Publish` | src/meridian_storage/adapters/s3/adapter.py:488-541 | From the upload on: blob, write-once reference with the spooled chunk digests, pointer. |
| `Adapter.S3ObjectAdapter.MakeCurrent` | src/meridian_storage/adapters/s3/adapter.py:521-539 | The conditional pointer write and what follows when it loses. |
| `Adapter.S3ObjectAdapter.DeleteVersion` | src/meridian_storage/adapters/s3/adapter.py:657-705 | The delete as its method performs it ends exactly as the closed form; up to 10,000 versions its scan is complete. |
| `Adapter.S3ObjectAdapter.RepointAndRecord` | src/meridian_storage/adapters/s3/adapter.py:688-704 | The pointer's rewrite or removal, then the evidence. |
| `Adapter.S3ObjectAdapter.NewestOther` | src/meridian_storage/adapters/s3/adapter.py:792-815 | The successor scan answers with the newest of the other records that it reads, the first of equals: all of them, or the first 10,000 by key; up to 10,000 its answer is that of the whole catalog. |
| `Adapter.S3ObjectAdapter.StatObject` | src/meridian_storage/adapters/s3/adapter.py:549-563 | The stat method computes what the stat theorems are about. |
| `Adapter.S3ObjectAdapter.ReadSelected` | src/meridian_storage/adapters/s3/adapter.py:745-767 | The envelope lookup, by digest or through the pointer. |
| `Adapter.S3ObjectAdapter.TryReadLatest` | src/meridian_storage/adapters/s3/adapter.py:739-743 | Only not-found counts as absence. |
| `Adapter.S3ObjectAdapter.ReadRange` | src/meridian_storage/adapters/s3/adapter.py:581-612 | The method answers, without fetching a byte, as the theorems on range reads say. |
| `Adapter.RangeReadAnswers` | src/meridian_storage/adapters/s3/adapter.py:581-612 | For every bucket and configuration: a range read succeeds if and only if the stat does, the range resolves, has at most the configured length, and the record has the configured chunk size; it then answers with exactly the stat's metadata and a payload for the resolved range of the recorded blob version with the recorded chunk digests. Otherwise it fails as the stat or the resolution did, as an invalid request, or with a mismatch, in this order. |
| `Adapter.S3ObjectAdapter.OpenRange` | src/meridian_storage/adapters/s3/adapter.py:163-217 | Opening such a payload at any later time yields exactly the range of the bytes stored then if and only if the blob version is there and every touched chunk is whole with its recorded digest. It is not found exactly when the blob version is missing, not satisfiable exactly when the stored bytes end at or before the first touched chunk, and a mismatch exactly when they reach into it and some touched chunk is short or has another digest. |
| `Adapter.OpensTheSameLater` | src/meridian_storage/adapters/s3/adapter.py:142-217 | Where versions are kept it does not matter when a payload is opened: after any interleaving of puts and deletes its blob version is there with the same bytes, and opens just when it would have at once, or is gone. |
| `Adapter.PublishedIsStored` | src/meridian_storage/adapters/s3/adapter.py:501-541 | After a published put a stat finds the written envelope, and the blob version it names holds what landed. |
| `Adapter.PublishedRangeReads` | src/meridian_storage/adapters/s3/adapter.py:581-612 | Of a payload that landed intact, exactly the ranges that resolve within the reader's limit can be read, by exactly the readers configured with the chunk size it was written with; the answer carries the metadata that the put wrote, and the payloads open. |
| `Adapter.PublishThenReadRange` | src/meridian_storage/adapters/s3/adapter.py:403-612 | Put in any fragments, read back by range at any pace and in pieces of any size: the bytes are exactly those asked for. |
| `Transport.S3Transport.PutFile` | src/meridian_storage/adapters/s3/transport.py:158-216 | What storing a file leaves behind and answers, on the conditional single-request path and on the unconditional multipart path; a request that fails may have taken effect or not; with an unthrottled source a multipart upload fails exactly when the transfer cannot be accepted. |
| `Transport.S3Transport.VerifyDigest` | src/meridian_storage/adapters/s3/transport.py:320-347 | Reading back in 1 MiB units reports a missing version, then a wrong length, then a wrong digest, and nothing exactly when the content is right. |
| `Transport.S3Transport.PutReference` | src/meridian_storage/adapters/s3/transport.py:218-249 | A conditional write fails exactly when the key has a current version (RFC 9110, section 13.1.2). |
| `Transport.S3Transport.PutLatest` | src/meridian_storage/adapters/s3/transport.py:218-249 | The same, conditional or not. |
| `Transport.S3Transport.GetBody` | src/meridian_storage/adapters/s3/transport.py:137-156 | A body delivers, at any pace, the version or the requested bytes of it; it fails exactly when the version is missing or the range starts behind its end. |
| `Integrity.IntegritySpool.Write` | src/meridian_storage/adapters/s3/adapter.py:74-87 | The spooled content grows by what the file takes; a short write is reported and not hashed; the chunk state is that of all bytes hashed so far. |
| `Integrity.IntegritySpool.Finish` | src/meridian_storage/adapters/s3/adapter.py:94-97 | The digests of all consecutive chunks with one short tail; finishing again returns the same tuple. |
| `Integrity.SpoolFragments` | src/meridian_storage/adapters/s3/adapter.py:74-97 | Digests depend on the concatenation of the writes alone, however it was cut. |
| `Integrity.ChunkDigestAt` | src/meridian_storage/adapters/s3/adapter.py:74-97 | There are ceil(n / chunk) digests, and digest i is the hash of the i-th fixed-size slice. |
| `Integrity.LimitedReader.Read` | src/meridian_storage/adapters/s3/adapter.py:129-138 | A read hands out the next bytes, never beyond the limit, and nothing only for size zero or at the end. |
| `Integrity.LimitedReader.Drain` | src/meridian_storage/adapters/s3/adapter.py:124-138 | Reading in pieces of any size yields exactly the limited rest. |
| `Integrity.VerifiedRangeSource.Open` | src/meridian_storage/adapters/s3/adapter.py:163-217 | For an arbitrary response the source raises a mismatch exactly when some covered chunk that arrived whole has a wrong digest, reports an incomplete response exactly when it is otherwise too short, and else yields exactly the requested slice; its loops end. |
| `Integrity.VerifiedRangeSource.Receive` | src/meridian_storage/adapters/s3/adapter.py:184-213 | The reading loop: it spools what is delivered and compares each covered chunk that arrives whole. |
| `Integrity.VerifiedRangeSource.HashRead` | src/meridian_storage/adapters/s3/adapter.py:197-212 | One read, hashed across chunk boundaries. |
| `Integrity.VerifiedRangeSource.FetchBound` | src/meridian_storage/adapters/s3/adapter.py:168-177 | At most length + 2 * (chunk - 1) bytes are requested. |
| `Integrity.VerifiedRangeSource.CoveringBounds` | src/meridian_storage/adapters/s3/adapter.py:168-172 | The request is cut at multiples of the chunk size and at the object's end. |
| `Integrity.VerifiedRangeSource.AcceptedIffOriginal` | src/meridian_storage/adapters/s3/adapter.py:201-217 | Where digests do not collide, a complete response passes if and only if it is the original slice. |
| `Integrity.VerifiedRangeSource.AcceptedRangeIsOriginal` | src/meridian_storage/adapters/s3/adapter.py:214-217 | Where digests do not collide, what an accepted response hands out is exactly the requested slice of the object. |
| `Integrity.VerifiedRangeSource.OriginalIsAccepted` | src/meridian_storage/adapters/s3/adapter.py:163-217 | The uncorrupted covering range always passes and holds the requested slice. |
| `Integrity.VerifiedRangeSource.AcceptedIffIntact` | src/meridian_storage/adapters/s3/adapter.py:163-217 | The covering slice of stored content passes if and only if the touched chunks have their recorded digests. |
| `Integrity.WriteThenReadRange` | src/meridian_storage/adapters/s3/adapter.py:74-217 | Spool in any fragments, read the covering range back at any pace: exactly bytes[start..end+1). |
| `Multipart.UploadMultipart` | src/meridian_storage/adapters/s3/multipart.py:26-112 | For every read schedule and every provider answer: success means parts 1..ceil(length / part size), each non-empty and at most the part size, whose concatenation is the whole stream of the declared length; every session that obtained an upload id ends in one complete and no abort, or in an error and one abort; with an unthrottled stream success happens if and only if the transfer is acceptable, and the parts are then the fixed-size chunks. A transfer is invalid exactly when it has too many parts, a client failure exactly when some request raised, and otherwise an incomplete upload. |
| `Multipart.TransferParts` | src/meridian_storage/adapters/s3/multipart.py:60-108 | The guarded region: parts are sent only before the one completion. |
| `Multipart.UploadAllParts` | src/meridian_storage/adapters/s3/multipart.py:61-93 | The part loop up to the length comparison. |
| `Multipart.SendPart` | src/meridian_storage/adapters/s3/multipart.py:80-89 | A part counts exactly when the provider returns an entity tag and no other checksum. |
| `Multipart.TooManyPartsIff` | src/meridian_storage/adapters/s3/multipart.py:41-43 | The count check refuses exactly the lengths above 10,000 * part size. |
| `Multipart.FullPartsAreChunks` | src/meridian_storage/adapters/s3/multipart.py:61-91 | Full parts have the digests of the fixed-size chunks. |
| `Listing.ListKeys` | src/meridian_storage/adapters/s3/transport.py:294-318 | A page is the first keys in order under the prefix behind the start position, truncated exactly when more follow. |
| `Listing.List` | src/meridian_storage/adapters/s3/adapter.py:614-655 | One call reads an initial segment of what lies behind the cursor, answers with the matching items of it, at most the limit; no cursor comes back exactly when nothing is left and one page held it all, and otherwise the cursor resumes right behind the last key read; at most two pages are fetched. |
| `Listing.ScanPages` | src/meridian_storage/adapters/s3/adapter.py:622-648 | The paging loop, and exactly when it leaves something for a cursor. |
| `Listing.ScanPage` | src/meridian_storage/adapters/s3/adapter.py:635-645 | The inner loop stops exactly at the limit. |
| `Listing.Walk` | src/meridian_storage/adapters/s3/adapter.py:614-655 | Calls repeated until no cursor comes back enumerate exactly the matching references of the resource, in key order and each once, for every limit; the walk ends. |
| `Listing.EnumerationIsUnique` | src/meridian_storage/adapters/s3/adapter.py:614-655 | That enumeration is unique, whatever the limit: walks with different limits give the same items. |
| `Listing.WalkWhileChanging` | src/meridian_storage/adapters/s3/adapter.py:614-655 | When records change between calls no key is scanned twice, and every key present throughout has been scanned once the walk ends. |
| `Listing.NewestVersion` | src/meridian_storage/adapters/s3/adapter.py:792-815 | The scan selects the newest other record among those read, the first of equals, and has read all of them or 10,000. |
| `Listing.FullScanIsComplete` | src/meridian_storage/adapters/s3/adapter.py:801-814 | With at most 10,000 records the bound of the scan hides none. |
| `Layout.CursorRoundTrip` | src/meridian_storage/adapters/s3/layout.py:33-63 | For every suffix, escapes included: its cursor decodes to it if and only if the suffix has a slash, at most 1024 characters, and a JSON form of at most 1536 bytes; otherwise it is refused. |
| `Layout.CursorDecodesIff` | src/meridian_storage/adapters/s3/layout.py:45-63 | For every value given as a cursor: it decodes to a suffix if and only if it is not empty and has at most 2048 characters, the suffix has a slash and at most 1024 characters, and the value is base64url of the compact object whose only members are a last member, a string literal in any spelling of the suffix, and version 1. Everything else is refused. |
| `Json.LiteralReadsIff` | src/meridian_storage/adapters/s3/layout.py:50-51 | Reading a literal succeeds if and only if the text before a closing quote spells a value character by character, as itself or by any escape (RFC 8259, section 7), and gives that value. |
| `Base64Url.DecodesIff` | src/meridian_storage/adapters/s3/layout.py:49-50 | For every text: it decodes to some bytes if and only if it agrees with their encoding in length, padding and sextets, up to the bits that padding leaves over and the two characters of the other alphabet; everything else is refused. |
| `Json.LiteralRoundTrip` | src/meridian_storage/adapters/s3/layout.py:37-42 | Any text written as an ASCII JSON string literal reads back as itself, surrogate pairs included (RFC 8259, section 7). |
| `Json.EscapeSpells` | src/meridian_storage/adapters/s3/layout.py:37-42 | What is written as a literal spells the text, with one character for printable ASCII and the shortest escape otherwise. |
| `Layout.Layout.ResumeAtKey` | src/meridian_storage/adapters/s3/layout.py:123-133 | Resuming at the cursor of a reference key is resuming right behind that key. |
| `Layout.Layout.ReferenceKeysAreCursorable` | src/meridian_storage/adapters/s3/layout.py:87-94 | Every reference key of a resource can be resumed at, within the bounds of decoding. |
| `Layout.Layout.RenderedKeys` | src/meridian_storage/adapters/s3/layout.py:83-121 | Every kind of key, written out with its segments and tokens. |
| `Layout.Layout.RenderInjective` | src/meridian_storage/adapters/s3/layout.py:69-121 | Equal keys stand for the same thing: the families are disjoint and each is injective, provided the tokens tell the names in use apart. |
| `Layout.Layout.ReferencePrefixSelects` | src/meridian_storage/adapters/s3/layout.py:93-94 | A resource's listing prefix selects exactly that resource's references. |
| `Layout.Layout.ObjectPrefixSelects` | src/meridian_storage/adapters/s3/adapter.py:799 | An object's scanning prefix selects exactly that object's references. |
| `Layout.Layout.ListedInDigestOrder` | src/meridian_storage/adapters/s3/layout.py:87-91 | One object's references are listed in the order of their digests. |
| `Base64Url.DecodeEncodePadded` | src/meridian_storage/adapters/s3/layout.py:43-50 | Decoding the padded base64url encoding gives the bytes back (RFC 4648, section 5). |
| `Base64Url.RepadStripped` | src/meridian_storage/adapters/s3/layout.py:43-50 | Stripping the padding loses nothing, for all three residues of the length. |
| `Base64Url.GroupNumber` | src/meridian_storage/adapters/s3/layout.py:43 | The four sextets of a group are the number that its three bytes are (RFC 4648, section 4). |
| `Registers.RegistersAgree` | src/meridian_storage/adapters/s3/adapter.py:348-401 | Schema publication, resource creation and migration records under any interleaving of callers: documents never change, a finished call succeeded if and only if it submitted the stored document, and otherwise reports a conflict, and a free key is written by exactly one call, the only one to report that it created. |
| `Registers.Documents.Register` | src/meridian_storage/adapters/s3/adapter.py:362-370 | One caller: conditional write, comparison on conflict. |
| `Registers.CallIsRegistered` | src/meridian_storage/adapters/s3/adapter.py:388-400 | The interleaved machine, run alone, is that caller. |
| `Migration.PlanAccepted` | src/meridian_storage/adapters/s3/migration.py:26-43 | Exactly the plans from revision 0 to 1 over a non-empty list of distinct Object Resources are accepted; they keep both revisions and the actions, and their resources come out in canonical order. |
| `Migration.PlannedIsStored` | src/meridian_storage/adapters/s3/migration.py:22-118 | An accepted plan can be applied, and where the key is free it leaves the document that says revisions 0 and 1, its actions, and its resources in canonical order, and changes no other document. |
| `Migration.ApplyPlan` | src/meridian_storage/adapters/s3/migration.py:100-118 | Applying a plan to a bucket that is there is one write-once registration under the migration key; when the bucket is not there nothing is written. |
| `Migration.ReorderedPlanIsApplied` | src/meridian_storage/adapters/s3/migration.py:38-118 | The same resources in another order make the same plan, so applying it again succeeds without a second write. |

## Left out

- Layout.DecodeCursor: accepts any JSON string for the suffix, in ASCII and without lone surrogates, but only in the compact object spelling that the encoder writes; other spellings of the object, which the source's JSON parser also takes, are refused here.
- StoredBytes.LatestResolvesToBytes: runs with deletes are excluded, because a delete removes the blob before the reference; with deletes, Safekeeping.StatNamesRightBytes and Deletion.StoppedDeleteReads say what stays readable.
- Listing.List: one call sees one snapshot of the records; a record removed between the listing of its key and its reading, on which the source's call fails, is not modelled. The same holds for Listing.NewestVersion.
- Deletion.StoppedDeleteReads: speaks of one delete running alone and of scans that answered rightly. In interleavings the answer of a scan is arbitrary, except in the theorems of StaleDeletes, where a scan answers with what one snapshot of the records gives.
- Adapter.S3ObjectAdapter.PutObject: one reading of the clock and one answer about what landed stand for the whole operation.
- Transport.S3Transport.PutFile: failures of a request other than the conflict are one failure, not classified; in the step machines a put whose call fails is one that stops.
- Keys.RunChangesOwnStrings: digests are those of well-formed SHA-256 form; a malformed one, for which the source builds no key, has none here either.
- Migration.ApplyPlan: failures to reach the bucket are one failure, not classified.
- SDK retries and responses that get lost: every transport call is atomic and happens at most once.
- Delete markers and "null" versions: a key holds versions with ids, or one version without; every delete names the version that was read.
- Provider object lock: the recorded retention and its guard are modelled, not the provider's own refusal.
- Corrupt JSON documents: stored records are typed, and only a record whose identity disagrees with its key is read as corrupt; the 4 MiB bound of internal documents is not modelled.
- Dictionary conversions of envelopes and retention records, and the reserved provenance key.
- Encryption arguments, checksum headers, content type, metadata beyond the digest: passed through.
- Spooling to disk and its memory limit, closing of streams, streams that raise or return non-binary data, cancellation by deadline.
- Configuration parsing, credentials, client construction, error classification, health probe, descriptor: independent range checks, foreign calls and declarative data.
- Signed references, `PutStateMachine`, `ByteRange.resolve`, `transfer_payload` and `effective_immutability`: defined in a library that is not part of this model; range resolution is a parameter with its contract, immutability a field of the request.
- Reading the resource profile before a put, and `get`, which hands out a body without verification.
- Canonical JSON of write-once documents: documents are compared as values.
- Order of resources in a migration plan: that of catalog, namespace and name, as the library's reference type is not part of this model.
