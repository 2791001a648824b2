# CDS videos maintenance commands: a Dafny model

This project models the maintenance command-line module of CDS Videos
(`cds/modules/maintenance/cli.py`). It covers two things:

- **Deposit-bucket reconciliation.** This is `_force_sync_deposit_bucket`, the body of
  `videos fix_bucket_conflict`. It replaces a video deposit's file bucket with
  a fresh, unlocked snapshot of the published record's bucket. It repoints the
  one `RecordsBuckets` row that referenced the old bucket. It rewrites the
  `master` tag of every slave rendition so that the tag names the master
  video's object in the new bucket. Finally it removes the old bucket, points
  `_buckets.deposit` of both metadata documents at the new bucket, and copies
  `_deposit` from the deposit to the record.
- **Option rules shared by the commands.** These are the `--recid`/`--depid`
  selection (an error when neither is given, `recid` wins when both are), the
  quality membership check of `subformats recreate quality`, the
  `--recid`-only guard of `fix_bucket_conflict`, and the choice of deposit and
  tasks in `videos extract_frames`.

Modules:

- `Wrappers` (wrappers.dfy) defines `Option` and `Result`. An `Err` stands for
  a raised exception.
- `CliOptions` (cli_options.dfy) holds the pure option rules. An option is
  "given" when Python would treat it as true: it is not `None` and not `""`.
- `FrameTasks` (frame_tasks.dfy) models Python's substring test, the
  `ExtractFramesTask` filter and the restart loop.
- `Buckets` (buckets.dfy) holds the values: buckets, head object versions,
  tags, `str(id)` as decimal text, `ObjectVersion.get`, and the tag step as
  the function `PropagateMaster`.
- `FilesStore` (files_store.dfy) holds the class `Store`. It keeps the live
  buckets, the `RecordsBuckets` rows and generators of fresh ids. Its
  invariant keeps every id below its generator and every row pointing at a
  live bucket. Its methods update them in place: snapshot, unlock, `.one()`, repoint, the tag
  loop, remove.
- `Reconcile` (reconcile.dfy) holds the metadata `Document` class, the
  reconciliation method, and the lemmas that tie its final state to the tag
  step.

Behaviour of the code that the model keeps as it is:

- `missing`, `recreate quality`, `recreate all` and `extract_frames` accept
  both options, and `recid` wins. The subformat commands then pass id type
  `recid`, and `extract_frames` uses the resolved record's `_deposit.id` and
  ignores `--depid`. `fix_bucket_conflict` takes only `--recid`.
- The copy's lock flag is cleared explicitly right after the snapshot
  (cli.py:159).
- There is no optimistic-conflict check on the association row. `.one()`
  raises `NoResultFound` or `MultipleResultsFound` instead, after the snapshot
  has already been committed.
- A missing master file is not fatal (tags stay as they are). But a master
  key with no object in the new bucket raises as soon as one slave exists:
  `None.version_id` is evaluated. By then the row has been repointed and
  committed, and the old bucket has not yet been removed.
- Intermediate commits are not made atomic. The state after each raised
  exception is stated as the committed steps leave it.

## Model

| member | source | states |
|---|---|---|
| CliOptions.SelectId | cds/modules/maintenance/cli.py:59-63 | Fails with the missing-option error exactly when neither option is given. Otherwise the id type is `recid` exactly when `--recid` is given, and the value is the option that type names. |
| CliOptions.RecidTakesPrecedence | cds/modules/maintenance/cli.py:62-63 | With `--recid` given, the selection is `(recid, recid value)` whatever `--depid` is. |
| CliOptions.CheckQuality | cds/modules/maintenance/cli.py:95-100 | Proceeds exactly when the quality is one of the configured quality keys, and keeps it. Otherwise it fails, naming the configured keys. |
| CliOptions.MissingCommand | cds/modules/maintenance/cli.py:57-66 | Requests all missing subformats exactly when an id is given, with the selection `SelectId` makes; otherwise the missing-option error. |
| CliOptions.QualityCommand | cds/modules/maintenance/cli.py:87-104 | Requests one subformat exactly when an id is given and the quality is configured. The missing-id error is reported before the quality error. The request carries the selection and the quality. |
| CliOptions.AllCommand | cds/modules/maintenance/cli.py:126-134 | Requests all subformats exactly when an id is given, with the selected id; otherwise the missing-option error. |
| CliOptions.RequireRecid | cds/modules/maintenance/cli.py:203-204 | `fix_bucket_conflict` proceeds exactly when `--recid` is given, with that value. |
| CliOptions.ExtractFramesDeposit | cds/modules/maintenance/cli.py:221-228 | Neither option gives the missing-option error. With `--recid`, the deposit is the resolved record's `_deposit.id`, or not-found, whatever `--depid` is. Otherwise it is `--depid` as given. |
| CliOptions.NoIdentifierNoRequest | cds/modules/maintenance/cli.py:59-60 | Every command fails with the missing-option error, and makes no request, when no identifier is given. For `missing`, `all` and `extract_frames` this holds in both directions; for `extract_frames` it holds with any resolver. |
| FrameTasks.ContainsIffOccurs | cds/modules/maintenance/cli.py:231 | The substring scan answers true exactly when the fragment occurs at some position of the name. |
| FrameTasks.ExtractFramesTasksMembers | cds/modules/maintenance/cli.py:230-232 | A task is selected for restart exactly when it belongs to the flow and its name contains `ExtractFramesTask`. |
| FrameTasks.ExtractFramesTasksCount | cds/modules/maintenance/cli.py:230-232 | Each matching task is restarted as many times as it occurs in the flow; a non-matching task is never restarted. |
| FrameTasks.RestartExtractFrames | cds/modules/maintenance/cli.py:230-232 | The loop's restart requests are exactly the selected tasks, in flow order. |
| Buckets.IdTextInjective | cds/modules/maintenance/cli.py:184 | Distinct version ids give distinct `str(version_id)` texts, so a `master` tag names exactly one version. |
| Buckets.PropagateMaster | cds/modules/maintenance/cli.py:169-187 | Without a master file nothing changes. It fails exactly when the master key has no object and some slave exists. Otherwise keys, version ids, files and tag keys are kept, non-slaves are untouched, and only the `master` tag of slaves changes. With the master object found, every slave's `master` tag is its version id. |
| Buckets.PropagateMasterIdempotent | cds/modules/maintenance/cli.py:169-187 | A second tag step changes nothing. |
| Buckets.StaleTagScenario | cds/modules/maintenance/cli.py:169-187 | A slave tagged with a stale version id ends up tagged with the master's version in the same bucket, and the master is untouched. |
| FilesStore.Store.Snapshot | cds/modules/maintenance/cli.py:158 | Adds a bucket under a fresh id and changes no other bucket. It has the same keys, files and tags as the source, with fresh, pairwise distinct version ids. |
| FilesStore.Store.SetLocked | cds/modules/maintenance/cli.py:159 | Sets the lock flag of one bucket and changes nothing else. |
| FilesStore.Store.OneRowReferencing | cds/modules/maintenance/cli.py:161-163 | `.one()`: returns the single row referencing the bucket. It raises no-result when there is none and multiple-results when there are several. |
| FilesStore.Store.Repoint | cds/modules/maintenance/cli.py:164-166 | The row now references the new bucket, which must be live; every other row is unchanged. |
| FilesStore.Store.RetagSlaves | cds/modules/maintenance/cli.py:175-187 | The loop over slave heads leaves the bucket's heads equal to `RetagAll` of the old heads, and no other bucket changes. |
| FilesStore.Store.SyncMasterTags | cds/modules/maintenance/cli.py:169-187 | The tag block raises exactly when `PropagateMaster` fails, and then writes nothing. Otherwise the bucket's heads become `PropagateMaster` of the old heads. |
| FilesStore.Store.Remove | cds/modules/maintenance/cli.py:191 | The old bucket, which no row references any more, leaves the store; no other bucket changes. |
| Reconcile.SnapshotKeepsSlaves | cds/modules/maintenance/cli.py:175-182 | A snapshot has the same slaves, and the same master-object presence, as its source. |
| Reconcile.NoStaleMasterTags | cds/modules/maintenance/cli.py:169-187 | After reconciliation, with the master object found, every slave's `master` tag names that object's version in the new bucket and no other version. Without it, every tag is the record's. |
| Reconcile.SyncedCopyIsPropagation | cds/modules/maintenance/cli.py:158-187 | The new bucket is exactly the tag step applied to a snapshot of the record's bucket. |
| Reconcile.TagStepSynced | cds/modules/maintenance/cli.py:158-187 | The tag step applied to an unlocked snapshot gives the synchronised copy the reconciliation promises. |
| Reconcile.RepointOne | cds/modules/maintenance/cli.py:161-166 | Repointing the one row of the old bucket to a different bucket leaves no row referencing the old bucket. The new bucket gains exactly that row, and every other row is unchanged. |
| Reconcile.RetireOldBucket | cds/modules/maintenance/cli.py:190-195 | The old bucket is removed. Both documents' `_buckets.deposit` hold the new bucket id. The record's `_deposit` equals the deposit's. |
| Reconcile.ForceSyncDepositBucket | cds/modules/maintenance/cli.py:153-201 | The new bucket is fresh, distinct from the record and old deposit buckets, and unlocked. Zero or several rows raise with only the snapshot added. A missing master object with a slave raises after the repoint. On success it returns (old id, new id) and repoints the row, so no row references the removed bucket. The new bucket backs exactly the row the old one backed, and no other. It removes only the old bucket, leaves no stale `master` tag, and both documents' pointers agree with the row. |

## Left out

- Click groups, options, prompts, `abort_if_false` and every `click.echo` message are command-line presentation and are not modelled.
- Flask's application context and `current_app` are framework state. The configured quality keys (`CDS_OPENCAST_QUALITIES`) are a parameter.
- The intermediate `db.session.commit()` calls, `deposit.commit()` and `record.commit()` are durability concerns. The model states the final state, and the state after each exception, not crashes between commits.
- `create_all_missing_subformats`, `create_subformat` and `create_all_subformats` belong to the transcoding subsystem. The model states only the request each command makes.
- `record_resolver.resolve` is an external lookup. It is a map from record pid to `_deposit.id`, and an unknown pid is an error. In `fix_bucket_conflict`, the resolved record, `Video.get_record(record.depid.object_uuid)` and the buckets behind `record.files` and `deposit.files` are inputs to `ForceSyncDepositBucket`.
- `Flow.get_for_deposit` and `restart_task` are workflow-engine calls. The flow is given as its task sequence, and the restarts are returned as the ordered list of requests.
- `CDSVideosFilesIterator.get_master_video_file` chooses the master by rules not part of this model. Its answer is an input: the master file's key, or none.
- `Bucket.snapshot`, `ObjectVersion.get`, `query_heads_by_bucket`, `ObjectVersionTag.create_or_update` and `bucket.remove` are file-store library calls not part of this model. They are given simple definitions: snapshot copies every head with fresh ids and keeps the source's lock flag; `get` returns the head unless it is absent or a delete marker; removal takes the bucket out of the live store.
- `deposit['_files'] = deposit.files.dumps()` (cli.py:196) is a library serialisation and is not modelled.
- Metadata documents are reduced to `_buckets` and `_deposit`. A document missing either key, which would raise `KeyError`, is not modelled. `record['_deposit'] = deposit['_deposit']` is modelled as a copy of the value, not as two references to one dictionary.
- Version and bucket ids are natural numbers from counters, not UUIDs, and `str(id)` is their decimal text.
