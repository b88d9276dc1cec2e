# Import ledger model

This project models, in Dafny, the record ledger of the G.R. (government
resolution) import pipeline, together with the jobs around it that read and
write that ledger.

The ledger tracks every G.R. record through discovery, download, Wayback
capture, archive.org upload and PDF metadata extraction. Records live in
year-partitioned JSONL files (`"unknown"` for a record without a date). An
in-memory index maps each `unique_code` to its partition and row, and a
lifecycle state machine (`FETCHED`, `DOWNLOAD_SUCCESS`, …,
`ARCHIVE_UPLOADED_WITH_WAYBACK_URL`) guards every stage result. The model
covers both store generations:

- `ledger_engine.dfy` (module `LedgerEngine`): the single-ledger store
  `LedgerStore`. It holds the state machine, the row normalisation, insert,
  update, upsert, stage results and the index refresh.
- `info_store.dfy` (module `Infos`): the three-namespace store `InfoStore`
  (URL info, upload info, PDF info). It covers the merged read view, inserts,
  upserts, staged multi-record updates and stage results.
- `partitions.dfy` (module `Partitions`): the partition files as a map from
  partition name to rows, the index invariants, the index rebuild and the
  re-indexing of one partition. Both stores share this module.

The secondary jobs each have a module of their own:

- `readme_status.dfy`: the README status block.
- `department_codes.dfy`: department names and codes.
- `codes.dfy`: the `unique_code` normalisers.
- `gr_site.dfy`: the daily site crawl.
- `gr_monthly.dfy`: the monthly full crawl.
- `backfill_hf.dfy`: the PDF backfill queue.
- `prune_pdfinfo.dfy`: pruning of the PDF-info fields.
- `migrate_infos.dfy`: the migration to the three namespaces.
- `build_baseline.dfy` and `build_baseline_records.dfy`: the baseline ledger
  build.
- `import_pdfs.dfy`: the local PDF import.
- `import_config.dfy`: the configuration file.
- `job_utils.dfy`: the stage-job helpers.
- `local_env.dfy`: the `.env` loader.
- `sync_hf.dfy`: the remote-sync planning.
- `pdf_info.dfy`: the PDF metadata rows.
- `validate_ledger.dfy`: the ledger validator.

Three helper modules hold shared pieces:

- `py.dfy`: the Python values a JSON row holds, and the `str` and `int`
  helpers the jobs use.
- `order.dfy`: code-point string order and a stable sort.
- `dates.dfy`: `strptime("%Y-%m-%d")` and `date.fromisoformat`.

Each source function is a Dafny function when it only computes a value. A
function that loops over a collection becomes a method proved against a
specification function. A store is a class whose methods state the new
partitions and index. Errors the source raises become `Result` values. The
rest of the system appears only as parameters:

- the clock, given as the timestamp text;
- file contents, given as the decoded rows;
- file-existence probes;
- `sha1`;
- URL unquoting;
- the conversion to ledger-relative paths.

## Model

| member | source | states |
|---|---|---|
| LedgerEngine.ParseState | import/src/ledger_engine.py:22-31 | a name is recognised exactly when it is one of the eight `ALLOWED_STATES`, and it maps back to that state's name |
| LedgerEngine.ParseStateName | import/src/ledger_engine.py:13-31 | every state's name is recognised as that state |
| LedgerEngine.AllowedShape | import/src/ledger_engine.py:56-90 | every state may stay where it is; the two archived-with-document states are final; `FETCHED` may go only to itself, `DOWNLOAD_SUCCESS` or `DOWNLOAD_FAILED`; neither `FETCHED` nor `DOWNLOAD_SUCCESS` may go to `ARCHIVE_UPLOADED_WITHOUT_DOCUMENT` |
| LedgerEngine.ValidateState | import/src/ledger_engine.py:268-271 | no error exactly when the value is a string naming a known state; an unhashable list or dict raises TypeError, anything else InvalidTransitionError |
| LedgerEngine.ValidateTransition | import/src/ledger_engine.py:273-278 | no error exactly when both states are known and the next one is in the current one's allowed set |
| LedgerEngine.ParseStage | import/src/ledger_engine.py:33-36 | a name is recognised exactly when it is `download`, `wayback` or `archive` |
| LedgerEngine.StageKey | import/src/ledger_engine.py:33-36 | each stage's row key is the stage's own name and one of the three counter keys |
| LedgerEngine.NextStateForStage | import/src/ledger_engine.py:280-312 | the current state is validated first, then the stage; download and wayback results decide the state from success alone; a failed archive keeps the current state; a successful archive gives WITHOUT_DOCUMENT, WITH_WAYBACK_URL or WITHOUT_WAYBACK_URL |
| LedgerEngine.WithoutDocumentUnreachable | import/src/ledger_engine.py:56-90 | from `FETCHED` and `DOWNLOAD_SUCCESS`, a successful archive without a document computes `ARCHIVE_UPLOADED_WITHOUT_DOCUMENT`, yet the transition table refuses that move |
| LedgerEngine.FailedArchiveKeepsState | import/src/ledger_engine.py:302-304 | a failed archive leaves every state where it is, and the table accepts the self-move |
| LedgerEngine.ParseIsoDate | import/src/ledger_engine.py:134-143 | a date only for a string whose stripped text parses as `%Y-%m-%d`, and then a valid calendar date |
| LedgerEngine.ParseIsoDateOfIsoFormat | import/src/ledger_engine.py:134-143 | parsing a valid date's ISO spelling gives the date back |
| LedgerEngine.PartitionForGrDate | import/src/ledger_engine.py:146-150 | `"unknown"` exactly when the date does not parse, else the year's decimal digits |
| LedgerEngine.PartitionOfIsoDate | import/src/ledger_engine.py:146-150 | a valid date's ISO spelling lands in its year's partition |
| LedgerEngine.NormalizeRunType | import/src/ledger_engine.py:153-156 | the result is `daily` or `monthly`, and `monthly` exactly when the input was `monthly` |
| LedgerEngine.NormalizeCrawlDate | import/src/ledger_engine.py:159-166 | the result always parses; a parsable input is re-spelled canonically, anything else becomes today |
| LedgerEngine.Template | import/src/ledger_engine.py:202-265 | the template carries the code, the state `FETCHED`, zero counters, and passes validation |
| LedgerEngine.ApplyMutableUpdate | import/src/ledger_engine.py:588-603 | refused, with ImmutableFieldUpdateError, exactly on an update where some incoming immutable field contradicts a set one |
| LedgerEngine.AnyConflictExists | import/src/ledger_engine.py:588-598 | the refusal happens exactly when some incoming key conflicts |
| LedgerEngine.AppliedAt | import/src/ledger_engine.py:588-603 | an accepted update leaves, at each key, the incoming value when that key is taken and the old value otherwise |
| LedgerEngine.ImmutableFieldsKept | import/src/ledger_engine.py:588-598 | an accepted update never changes an immutable field that was already set |
| LedgerEngine.OtherFieldsKept | import/src/ledger_engine.py:588-603 | keys outside both field lists are never written |
| LedgerEngine.ValidateAttemptCounts | import/src/ledger_engine.py:560-569 | no error exactly when `attempt_counts` is an object and every stage counter is an int in [0, 2] |
| LedgerEngine.ValidateNonDecreasing | import/src/ledger_engine.py:571-586 | no error exactly when a side is not an object or no int counter went down |
| LedgerEngine.ValidateRecordState | import/src/ledger_engine.py:554-558 | no error exactly when `state` is a string naming a known state |
| LedgerEngine.Validated | import/src/ledger_engine.py:403-404 | the row passes exactly when it is well formed (counters in range, known state), and is then unchanged |
| LedgerEngine.StampNew | import/src/ledger_engine.py:398-402 | the insert path sets the first-seen run type, both crawl dates and both timestamps, and nothing else |
| LedgerEngine.WellFormedOn | import/src/ledger_engine.py:554-569 | validation looks only at the counters and the state |
| LedgerEngine.InsertInto | import/src/ledger_engine.py:396-404 | a new row carries the record's `unique_code` (or the template's), the run's first-seen fields and the clock, and is well formed; a record without counters or state is always accepted |
| LedgerEngine.NewRecordAsWritten | import/src/ledger_engine.py:394-404 | as written: the new row's `unique_code` is the record's raw value, not the stripped code that was looked up |
| LedgerEngine.AsWrittenStoresPaddedCode | import/src/ledger_engine.py:385-412 | for the record `{unique_code: " 1 "}` the lookup code is `"1"`, the as-written row is keyed `" 1 "`, and the corrected row is keyed `"1"` |
| LedgerEngine.NewRecord | import/src/ledger_engine.py:394-404 | corrected: the new row is keyed by the stripped code, is well formed and carries the run's first-seen fields and the clock |
| LedgerEngine.CheckStateChange | import/src/ledger_engine.py:420-424 | no error exactly when the state is unchanged or the move is an allowed transition |
| LedgerEngine.AdvanceLastSeen | import/src/ledger_engine.py:426-430 | only `last_seen_crawl_date` may change, only on a monthly run, and it never moves back; on a monthly run it ends at or after the crawl date |
| LedgerEngine.AfterApply | import/src/ledger_engine.py:420-435 | an accepted update is well formed, stamped now, with no counter gone down, with a changed state only along an allowed transition, and `last_seen_crawl_date` advanced on a monthly run |
| LedgerEngine.UpdatedRecord | import/src/ledger_engine.py:414-435 | the whole update path: an immutable conflict is refused; an accepted row has every property `AfterApply` states |
| LedgerEngine.UpdatedKeepsImmutable | import/src/ledger_engine.py:414-435 | an accepted update keeps every immutable field that was already set |
| LedgerEngine.UpdatedCopiesMutable | import/src/ledger_engine.py:414-435 | an accepted update stores every non-None mutable value the record carries, apart from the two fields it sets itself |
| LedgerEngine.FailureError | import/src/ledger_engine.py:502-503 | the explicit error if given, else the metadata's error, else the stage's default text |
| LedgerEngine.StageObject | import/src/ledger_engine.py:489-535 | the stage object records `success` with an empty error, or `failed` with the failure text; on success the stage's metadata keys are copied; every other field is kept |
| LedgerEngine.CountAttempt | import/src/ledger_engine.py:479-487 | a non-object `attempt_counts` fails; a counter at 2 or more raises RetryLimitExceededError; otherwise that counter goes up by one and the others are kept |
| LedgerEngine.RecordStage | import/src/ledger_engine.py:489-535 | a non-object stage slot fails with TypeError; otherwise the slot holds the new stage object; a successful download sets `lfs_path` from the file probe; nothing else changes |
| LedgerEngine.HasWaybackUrl | import/src/ledger_engine.py:537-539 | the given flag, or for an archive result whether the stripped `wayback.url` is non-blank |
| LedgerEngine.Advance | import/src/ledger_engine.py:541-550 | accepted exactly when the next state is computed and the table allows it; the row then holds that state and the new update time |
| LedgerEngine.StageRecord | import/src/ledger_engine.py:477-550 | the record handed to `upsert`: the stage counter one higher (refused at 2), the stage object records the result, the state moves only along an allowed transition, the code is unchanged |
| LedgerEngine.StageRecordFrame | import/src/ledger_engine.py:477-550 | a stage result changes only the counters, its own stage object, `lfs_path`, the state and the update time, and only its own counter |
| LedgerEngine.UpdateKeepsStaged | import/src/ledger_engine.py:414-435 | writing a staged result back through the update path keeps its counters, stage object and state |
| LedgerEngine.StagedIsApplied | import/src/ledger_engine.py:477-550 | a row holding a staged result's counters, stage object and state records that result |
| LedgerEngine.UpsertCode | import/src/ledger_engine.py:385-388 | accepted exactly when `unique_code` is a non-blank string; the code is its stripped text; otherwise LedgerError |
| LedgerEngine.LedgerStore.constructor | import/src/ledger_engine.py:316-321 | the store holds the rows on disk, not yet indexed |
| LedgerEngine.LedgerStore.RefreshIndex | import/src/ledger_engine.py:323-338 | the rows are untouched; it succeeds exactly when no code repeats, and the index is then exact; otherwise DuplicateUniqueCodeError |
| LedgerEngine.LedgerStore.ListPartitions | import/src/ledger_engine.py:357-358 | every partition name once, in string order |
| LedgerEngine.LedgerStore.IterRecords | import/src/ledger_engine.py:360-366 | the rows of every partition, partition by partition in listing order; every stored row appears and nothing else |
| LedgerEngine.LedgerStore.Exists | import/src/ledger_engine.py:368-369 | true exactly when some stored row carries the code |
| LedgerEngine.LedgerStore.Find | import/src/ledger_engine.py:371-376 | a row exactly when the code exists, and that row carries the code |
| LedgerEngine.LedgerStore.Records | import/src/ledger_engine.py:368-376 | the ledger as `find` shows it: `find(code)` is the row of the code in this map, or `None` when the code is not in it |
| LedgerEngine.LedgerStore.PutNew | import/src/ledger_engine.py:406-412 | the new row is found under its code, its partition is sorted, every other partition is untouched, the index stays exact; the ledger gains that one code's row and no other row changes |
| LedgerEngine.LedgerStore.PutInPlace | import/src/ledger_engine.py:437-444 | the replaced row is found under its code, its partition is sorted, every other partition is untouched; in the ledger only that code's row changes |
| LedgerEngine.LedgerStore.PutMoved | import/src/ledger_engine.py:446-457 | the moved row is found in the target partition, the target is sorted, only the source and target partitions change; in the ledger only that code's row changes |
| LedgerEngine.LedgerStore.Upsert | import/src/ledger_engine.py:378-457 | a blank code raises LedgerError and any error leaves the store as it was; an insert happens exactly for an unknown code and stores `NewRecord`; an update stores `UpdatedRecord` of the old row; the row lands in its `gr_date` partition, sorted; only the partitions written change; on success the ledger changes at that one code only; for a known code the call fails exactly when `UpdatedRecord` fails, with its error (corrected; see Findings) |
| LedgerEngine.LedgerStore.UpsertStripped | import/src/ledger_engine.py:388-457 | the same promises once the code is stripped and the run type and crawl date are normalised; it fails exactly when `UpdatedRecord` (known code) or `NewRecord` (new code) fails, with that error |
| LedgerEngine.LedgerStore.ApplyStageResult | import/src/ledger_engine.py:459-552 | an unknown stage raises LedgerError, an unknown code RecordNotFoundError, and any error changes nothing; on success the `StageRecord` was accepted and the stored row records the stage result |
| Partitions.SortRows | import/src/ledger_engine.py:409 | sorting keeps the length |
| Partitions.SortRowsCorrect | import/src/ledger_engine.py:409 | the sorted rows are a permutation of the input, in key order |
| Partitions.ExactUnique | import/src/ledger_engine.py:323-338 | an exact index exists only when keys are unique |
| Partitions.ExactDeterministic | import/src/ledger_engine.py:323-338 | the exact index of a set of partitions is determined by its rows |
| Partitions.Lookup | import/src/ledger_engine.py:371-376 | a row found under a key carries that key |
| Partitions.LookupFinds | import/src/ledger_engine.py:368-376 | through an exact index, a key is found exactly when some row carries it |
| Partitions.BuildIndex | import/src/ledger_engine.py:323-338 | the scan succeeds exactly when keys are unique, yields the exact index, and otherwise reports a duplicate |
| Partitions.ScanPartition | import/src/ledger_engine.py:327-338 | scanning one partition extends an exact index of the partitions done, or finds a duplicate |
| Partitions.ReindexPartition | import/src/ledger_engine.py:340-355 | the loop computes the reindex of a rewritten partition |
| Partitions.ReindexExact | import/src/ledger_engine.py:340-355 | rewriting one partition and reindexing it keeps the index exact when the new rows repeat no key |
| Partitions.InsertExact | import/src/ledger_engine.py:406-412 | appending a row with a new key, sorting and reindexing keeps the index exact |
| Partitions.ReplaceExact | import/src/ledger_engine.py:437-444 | replacing a row by one with the same key, sorting and reindexing keeps the index exact |
| Partitions.MoveExact | import/src/ledger_engine.py:446-457 | filtering the key out of both partitions, appending to the target, sorting and reindexing both keeps the index exact |
| Partitions.InsertLands | import/src/ledger_engine.py:406-412 | after an insert the key finds the inserted row in the partition, which is sorted |
| Partitions.ReplaceLands | import/src/ledger_engine.py:437-444 | after a replacement the key finds the new row, and the partition is sorted |
| Partitions.MoveLands | import/src/ledger_engine.py:446-457 | after a move the key finds the row in the target, which is sorted |
| Partitions.Without | import/src/ledger_engine.py:446-448 | filtering never adds rows |
| Partitions.WithoutProps | import/src/ledger_engine.py:446-448 | the filtered rows lack the key and are a sub-multiset of the input |
| Partitions.TableAfterWrite | import/src/ledger_engine.py:406-457 | a write that lands a row under its key and looks every other key up as before changes the ledger at that key only |
| Partitions.InsertKeepsLookups | import/src/ledger_engine.py:406-412 | after inserting a new key every other key is found as before |
| Partitions.ReplaceKeepsLookups | import/src/ledger_engine.py:437-444 | after an in-place replacement every other key is found as before |
| Partitions.MoveKeepsLookups | import/src/ledger_engine.py:446-457 | after a move between partitions every other key is found as before |
| Partitions.InsertTable | import/src/ledger_engine.py:406-412 | inserting a new key changes the ledger at that key alone |
| Partitions.ReplaceTable | import/src/ledger_engine.py:437-444 | replacing a row in place changes the ledger at its key alone |
| Partitions.MoveTable | import/src/ledger_engine.py:446-457 | moving a row to another partition changes the ledger at its key alone |
| Partitions.RowsIn | import/src/ledger_engine.py:360-366 | the rows of the named partitions, one after another |
| Partitions.RowsInMembers | import/src/ledger_engine.py:360-366 | a row is read exactly when it sits in one of the named partitions |
| Partitions.LookupAgrees | import/src/info_store.py:412-440 | two exact stores holding the same rows with a key look that key up alike |
| Infos.NamespaceOrder | import/src/info_store.py:39-45 | year partitions come first, the latest year first, other names next, `unknown` last |
| Infos.NamespaceSortKeyInjective | import/src/info_store.py:39-45 | distinct names have distinct sort keys, so the order is total |
| Py.ParseSignedOfDigits | import/src/info_store.py:57-68 | `int()` reads a plain decimal numeral, with an optional `-` or `+`, as its value |
| Py.ParseSignedGrouped | import/src/info_store.py:57-68 | `int()` reads a single underscore between two digit groups as nothing: `1_0` is 10 |
| Py.ParseSignedRefusesLooseUnderscore | import/src/info_store.py:57-68 | `int()` refuses a doubled underscore, and an underscore before the first or after the last digit |
| Infos.ToInt | import/src/info_store.py:57-68 | a bool gives the default, an int itself, blank text the default |
| Infos.ToIntOfText | import/src/info_store.py:57-68 | an int written as text reads back as itself |
| Infos.ToIntOfNonNumeral | import/src/info_store.py:57-68 | text that `int()` refuses (no ASCII numeral, or one with a loose underscore) reads as the default |
| Infos.RowKeyStripped | import/src/info_store.py:152-157 | a row key is stripped text |
| Infos.RecordKeyOf | import/src/info_store.py:536 | the record key is stripped text |
| Infos.RowKeyOfKeyed | import/src/info_store.py:152-157 | a row whose `record_key` is a stripped non-blank key is keyed by it |
| Infos.FindRow | import/src/info_store.py:248-253 | a row exactly when the key is indexed, and that row carries the key |
| Infos.UpsertRow | import/src/info_store.py:412-440 | the row is found under its key in the given partition, which is sorted; only that partition and the key's old one change |
| Infos.UpsertRowKeepsOthers | import/src/info_store.py:412-440 | every other key still finds the row it found before |
| Infos.ApplyUrlPatch | import/src/info_store.py:317-334 | refused, with ImmutableFieldUpdateError, exactly on an update whose record contradicts a set immutable field |
| Infos.UrlPatchAt | import/src/info_store.py:317-334 | field by field: a non-None mutable field the record carries is taken, every other field is kept |
| Infos.UrlPatchSettles | import/src/info_store.py:317-334 | after an accepted update the same record no longer conflicts |
| Infos.UrlPatchIdempotent | import/src/info_store.py:317-334 | applying the same record twice changes nothing more |
| Infos.UrlPatchKeepsKey | import/src/info_store.py:317-334 | a patched url row keeps its key |
| Infos.NewUrlRow | import/src/info_store.py:259-273 | a new url row is keyed by the record key |
| Infos.NewUrlRowFields | import/src/info_store.py:259-273 | the new url row carries the key as both keys, the run's first-seen fields, the clock, and the record's `gr_date` when given |
| Infos.AdvanceLastSeenText | import/src/info_store.py:614-617 | only a monthly run with a crawl date writes `last_seen_crawl_date`, and then the value is at or after both the crawl date and the old value, as strings |
| Infos.LastSeenMonotone | import/src/info_store.py:614-617 | the monthly rule never moves `last_seen_crawl_date` backwards |
| Infos.UploadPatchFrame | import/src/info_store.py:342-372 | an upload patch writes only the state and the four stage objects |
| Infos.NoUploadPatchIdentity | import/src/info_store.py:374-375 | a record without upload fields leaves the upload row as it is |
| Infos.UploadPatchKeepsKey | import/src/info_store.py:342-372 | the upload row stays keyed by the record key |
| Infos.HfSlotKept | import/src/info_store.py:342-372 | an `hf` slot that held an object still holds one when `lfs_path` is applied |
| Infos.PdfRowFromPdfInfo | import/src/info_store.py:377-410 | the pdf row carries the record key and the given creation time |
| Infos.TextOrIdempotent | import/src/info_store.py:52-54 | `_normalize_text(v) or d` read back is itself, when `d` is already normalised |
| Infos.PdfView | import/src/info_store.py:491-506 | a record without a pdf row shows `pdf_info` as not attempted |
| Infos.PdfRoundTrip | import/src/info_store.py:377-410 | a `pdf_info` stored as a pdf row reads back, in the merged record, as what the record's object itself reads as |
| Infos.Overlay | import/src/info_store.py:442-507 | the merged record holds each derived field |
| Infos.MergeKeepsUrlFields | import/src/info_store.py:442-449 | the merged record keeps every url field it does not derive |
| Infos.MergeWithoutUpload | import/src/info_store.py:452-453 | a record without an upload row reads as freshly fetched, with zero counters, no `lfs_path` and no stage attempted |
| Infos.StateRoundTrip | import/src/info_store.py:343-344 | a state written by an upload patch is the state the merged record shows |
| Infos.LfsRoundTrip | import/src/info_store.py:366-372 | an `lfs_path` written by an upload patch is the `lfs_path` the merged record shows (None for a blank one) |
| Infos.InPlace | import/src/info_store.py:625 | replacing a row in place keeps the index and finds the new row |
| Infos.Appended | import/src/info_store.py:646-656 | an appended row is found under its key in the partition given, which gains exactly that row |
| Infos.UrlUpdate | import/src/info_store.py:612-617 | refused exactly on an immutable conflict; an accepted row keeps its key |
| Infos.UpdateUploadRow | import/src/info_store.py:628-662 | a stored upload row is patched in place; a record with upload fields and no row appends the patched default row; otherwise nothing changes; other keys are kept |
| Infos.UpdatePdfRow | import/src/info_store.py:664-706 | a stored pdf row in another partition is refused; with `pdf_info` the row is rebuilt (keeping its creation time) in place or appended; without it nothing changes |
| Infos.StageUpdate | import/src/info_store.py:597-708 | a blank key raises ValueError, an unknown key RecordNotFoundError; an accepted record keeps the url index, reports `updated`, and has the effect stated by `UpdateEffect` |
| Infos.StageAll | import/src/info_store.py:596-708 | a staged batch keeps the url index and gives one result per record |
| Infos.StageBatch | import/src/info_store.py:596-708 | the loop over the batch computes `StageAll` |
| Infos.StageAllResults | import/src/info_store.py:596-708 | every record of an accepted batch names a stored key, and its result reports it as updated |
| Infos.StageAllFailsFrom | import/src/info_store.py:596-716 | once a prefix of the batch fails, the whole batch fails with that error |
| Infos.InsertedUpload | import/src/info_store.py:551-554 | the patched default upload row is written only when the record has upload fields |
| Infos.InsertedPdf | import/src/info_store.py:556-563 | the pdf row is written only when the record has `pdf_info` |
| Infos.InsertFresh | import/src/info_store.py:546-565 | a new key's url, upload and pdf rows go to its `gr_date` partition, with the effect `InsertEffect` states |
| Infos.UpsertStored | import/src/info_store.py:759-793 | refused exactly on an immutable conflict; otherwise the url row is patched and written to its partition and the upload and pdf rows follow |
| Infos.UpsertedUpload | import/src/info_store.py:768-774 | the stored (or default) upload row is patched and written when there is one or the record has upload fields |
| Infos.UpsertedPdf | import/src/info_store.py:776-791 | a pdf row rebuilt from `pdf_info`, else the stored pdf row rewritten into the target partition |
| Infos.CopyKeys | import/src/info_store.py:850-860 | each listed key present in the metadata is copied; every other field is kept |
| Infos.StageOutcome | import/src/info_store.py:829-873 | the stage object records status and error (the explicit, the metadata's, or the default text), keeping its attempt counter |
| Infos.SyncHf | import/src/info_store.py:833-842 | a download's `path` marks hf as synced now (a blank one clears it and keeps the status); `hash` sets the hash; nothing else changes |
| Infos.UploadStage | import/src/info_store.py:815-888 | the retry limit is checked first, then the stage name; accepted exactly when the counter is below 2, the stage is known and the row's state is valid |
| Infos.UploadStageOutcome | import/src/info_store.py:820-873 | an accepted result records success or failure in the stage object and adds one attempt |
| Infos.UploadStageCopies | import/src/info_store.py:846-870 | a successful wayback or archive copies the metadata keys it names |
| Infos.UploadStageFrame | import/src/info_store.py:815-893 | only the stage's object changes, and `hf` after a successful download; the state is never written |
| Infos.DownloadSyncsHf | import/src/info_store.py:829-842 | after a successful download `hf` is synced from the metadata |
| Infos.RetryLimitAfterTwo | import/src/info_store.py:824-827 | each stage may run at most twice from a fresh row: a third result is refused |
| Infos.UploadStageKeepsKey | import/src/info_store.py:815-893 | the recorded row is keyed as before |
| Infos.StageBase | import/src/info_store.py:815-818 | the upload row a stage result starts from is keyed by the record |
| Infos.MergedShows | import/src/info_store.py:518-527 | a stored key's merged record exists, carries the key, keeps the url fields, shows the pdf view, and reads `FETCHED` without an upload row |
| Infos.CollectedRecords | import/src/info_store.py:509-516 | collecting stored keys finds each one: the i-th record is the i-th key's |
| Infos.ListedRecords | import/src/info_store.py:509-516 | every stored key's record appears once, in code order |
| Infos.InsertRecord | import/src/info_store.py:529-565 | a blank key raises ValueError, a stored one DuplicateUniqueCodeError; any other key is inserted with `InsertEffect` |
| Infos.UpsertRecord | import/src/info_store.py:720-793 | a blank key raises ValueError; a new key is inserted as `insert` does; a stored key is updated and moved with its `gr_date`, refused exactly on an immutable conflict |
| Infos.StageResultSpaces | import/src/info_store.py:795-894 | an unknown code raises RecordNotFoundError; otherwise the upload row records the stage result and is written to the url row's partition; url and pdf rows and the row's state are untouched |
| Infos.Open | import/src/info_store.py:82-112 | opening succeeds exactly when each namespace's keys are unique; the store then holds the rows on disk, indexed |
| Infos.InfoStore.constructor | import/src/info_store.py:82-112 | the store holds the three directories' rows, not yet indexed |
| Infos.InfoStore.RefreshIndex | import/src/info_store.py:209-228 | rows untouched; succeeds exactly when every namespace's keys are unique; a valid store is rebuilt to the same state |
| Infos.InfoStore.ListPartitions | import/src/info_store.py:196-197 | every url partition once, sorted newest year first and `unknown` last |
| Infos.InfoStore.Exists | import/src/info_store.py:255-257 | true exactly when a url row carries the stripped code |
| Infos.InfoStore.Find | import/src/info_store.py:518-527 | a record exactly when the stripped code exists; it carries the key, keeps the url fields and shows the pdf view |
| Infos.InfoStore.IterRecords | import/src/info_store.py:509-516 | every stored record once, merged as `find` merges it, in code order |
| Infos.InfoStore.Commit | import/src/info_store.py:710-716 | a staged result is applied whole, or nothing changes on an error |
| Infos.InfoStore.Insert | import/src/info_store.py:529-565 | the store's new state and result are those of `InsertRecord` |
| Infos.InfoStore.Upsert | import/src/info_store.py:720-793 | the store's new state and result are those of `UpsertRecord` |
| Infos.InfoStore.UpdateMany | import/src/info_store.py:579-718 | the store's new state and result are those of `StageAll`: the first failing record's error with nothing changed, or every record applied in order |
| Infos.InfoStore.Rollback | import/src/info_store.py:713-716 | rebuilding the index of a valid store leaves its state as it was |
| Infos.InfoStore.Update | import/src/info_store.py:567-577 | `update_many` of the one record: its state and result are those of `StageUpdate` |
| Infos.InfoStore.ApplyStageResult | import/src/info_store.py:795-894 | the store's new state and result are those of `StageResultSpaces` |
| ReadmeStatus.StageStatus | import/src/readme_status.py:63-68 | a stage's status is never blank: a missing, non-dict or blank stage reads as `not_attempted` |
| ReadmeStatus.StateLabel | import/src/readme_status.py:108 | the state a record is counted under is never blank (`UNKNOWN` stands in for a blank state) |
| ReadmeStatus.CountMono | import/src/readme_status.py:107-140 | a stricter condition holds for no more records |
| ReadmeStatus.CountSplit | import/src/readme_status.py:107-140 | two exclusive conditions and the rest partition the records |
| ReadmeStatus.TallyDownload | import/src/readme_status.py:115-120 | the download counters are the number of records whose download succeeded, failed, or failed with fewer than two attempts |
| ReadmeStatus.TallyWayback | import/src/readme_status.py:122-129 | the wayback counters count success, failure, retryable failure, and records not attempted whose download succeeded |
| ReadmeStatus.TallyArchive | import/src/readme_status.py:131-140 | the archive counters count success, failure, retryable failure, and records not attempted after a settled wayback or a failed download |
| ReadmeStatus.TallyStates | import/src/readme_status.py:107-109 | every record is counted under exactly one non-blank state, so the state counts add up to the total |
| ReadmeStatus.ComputeRepositoryStatus | import/src/readme_status.py:87-162 | the loop computes exactly the status defined record by record over the store's records |
| ReadmeStatus.CountRecord | import/src/readme_status.py:108-140 | one pass of the loop bumps the counters of one record |
| ReadmeStatus.CountStage | import/src/readme_status.py:115-136 | the success / failed / retryable branch bumps exactly the counter the status selects |
| ReadmeStatus.CountPending | import/src/readme_status.py:128-140 | a pending counter grows by one exactly when the record is pending |
| ReadmeStatus.StatusFacts | import/src/readme_status.py:87-162 | pending downloads are the records whose download neither succeeded nor failed, so `max(0, ...)` never clips; retryable stages are among the failed ones; wayback success, failure and pending never exceed the total; state counts add up to the total |
| ReadmeStatus.RenderStatusMarkdown | import/src/readme_status.py:165-199 | the rendered text is the header, the state rows and the stage table joined by line breaks, the extra states being those outside `STATE_ORDER`, sorted |
| ReadmeStatus.AppendStateRows | import/src/readme_status.py:180-184 | each loop appends one row per state name, with its count or 0 |
| ReadmeStatus.StateOrderDistinct | import/src/readme_status.py:30-39 | the eight `STATE_ORDER` names are distinct |
| ReadmeStatus.RenderRows | import/src/readme_status.py:166-199 | the document has 28 lines plus one per extra state; the eight ordered states come first, then the extras in sorted order, each row carrying its state's count |
| ReadmeStatus.RenderedStates | import/src/readme_status.py:179-184 | every counted state gets a row and no state gets two |
| ReadmeStatus.MarkerFacts | import/src/readme_status.py:26-28 | the two markers are HTML comments of 27 and 25 characters that differ, and the section title holds no `<` |
| ReadmeStatus.UpdateWith | import/src/readme_status.py:202-223 | the update fails (`str.index` raises `ValueError`) exactly when both markers occur but no end marker follows the first start marker; otherwise it reports a change exactly when the text changed |
| ReadmeStatus.SpliceFixed | import/src/readme_status.py:209-212 | a block spliced into text holding no start marker is left as it is by a second update |
| ReadmeStatus.SplicedIdempotent | import/src/readme_status.py:209-221 | with both markers present, a second update with the same content changes nothing and returns `False` |
| ReadmeStatus.AppendedIdempotent | import/src/readme_status.py:213-221 | after the section was appended, a second update with the same content changes nothing and returns `False` |
| ReadmeStatus.UpdateReadmeIdempotent | import/src/readme_status.py:202-223 | for status content that does not contain the end marker, and a README that has the end marker whenever it has the start marker, a second update with the same content (after a first that succeeded) returns `False` and leaves the text unchanged |
| ReadmeStatus.UpdateReadmeAppends | import/src/readme_status.py:213-218 | without both markers the section is appended after the original text, ending with the marked block and a line break, and the call reports a change |
| DepartmentCodes.AsciiText | import/src/department_codes.py:46-48 | the result is pure ASCII, and an ASCII text is kept as it is |
| DepartmentCodes.NormalizeNameShape | import/src/department_codes.py:51-55 | a normalised name uses `[a-z0-9 ]` only, with single interior spaces and no outer blanks |
| DepartmentCodes.NormalizeNameIdempotent | import/src/department_codes.py:51-55 | normalising a normalised name changes nothing |
| DepartmentCodes.AmpersandIsAnd | import/src/department_codes.py:52-59 | `&` reads as the word "and" in both the normalised name and the fallback slug |
| DepartmentCodes.FallbackSlugShape | import/src/department_codes.py:58-61 | the slug is non-empty, uses `[a-z0-9_]` only and neither starts nor ends with `_` |
| DepartmentCodes.NameToCode | import/src/department_codes.py:64-67 | every value of the name-to-code map is a code of the table |
| DepartmentCodes.NameToCodeAt | import/src/department_codes.py:64-67 | for a table with distinct normalised names, each name's normal form maps to that entry's own code |
| DepartmentCodes.CodeFromName | import/src/department_codes.py:70-83 | a blank name gives `unknown`; a known code in any case, with outer blanks, gives that code in lower case; any other result is a table code or the name's fallback slug |
| DepartmentCodes.DepartmentCodeFromName | import/src/department_codes.py:9-83 | the same over the fixed code table |
| DepartmentCodes.KnownCodeAnyCase | import/src/department_codes.py:75-77 | every code of the fixed table, in any letter case and with surrounding blanks, gives the lower-case code |
| DepartmentCodes.RoundTrip | import/src/department_codes.py:64-83 | looking up an entry's department name gives back the entry's code, for a table whose normalised names are distinct, stripped and not themselves codes |
| Codes.DropControls | import/src/gr_site_job.py:24-58 | the kept characters are those of the text outside `Cc` and `Cf`, so none of them is a control or format character and the text gets no longer |
| Codes.DropControlsOfClean | import/src/gr_site_job.py:58 | a text without control or format characters is kept whole |
| Codes.CleanTextOfPlain | import/src/gr_site_job.py:54-59 | a printable ASCII text without surrounding blanks comes out of `clean_text` unchanged |
| Codes.LongDigits | import/src/gr_site_job.py:107-109 | a match is 16 to 22 ASCII digits, and there is none exactly when no 16-digit run occurs |
| Codes.LongRunStart | import/src/gr_site_job.py:107 | the search finds the leftmost position where 16 digits start, or reports that there is none |
| Codes.LongDigitsLeftmost | import/src/gr_site_job.py:107-109 | the match sits at the leftmost place where 16 digits start and takes the run greedily, up to 22 digits |
| Codes.LongDigitsOfDigits | import/src/gr_site_job.py:23 | a text of at least 16 digits matches from its start: all of it, or its first 22 digits |
| Codes.LongDigitsOfPrefix | import/src/gr_site_job.py:23 | a text starting with 16 to 22 digits and then a non-digit matches exactly those digits |
| Codes.CodeFromTextsCases | import/src/gr_site_job.py:102-121 | the precedence: a long digit run in the code text, then in the URL text, then the code's digits (the first 18 when there are at least 18, all when 16 or 17), then the code text, then the URL text |
| Codes.CodeFromTextsBlank | import/src/gr_site_job.py:117-121 | the derived code is blank exactly when both texts are blank |
| Codes.CodeFromTextsIdempotent | import/src/gr_site_job.py:102-121 | deriving the code again from a derived code, with the same URL, gives it back |
| Codes.RFind | import/src/import_pdfs_job.py:72 | the position found holds the last occurrence of the character, and none means the character does not occur |
| Codes.PathName | import/src/import_pdfs_job.py:72 | a path's name holds no `/` and is not `.` |
| Codes.StemOfFile | import/src/import_pdfs_job.py:72-73 | the stem of `<dir>/<base>.<ext>` and of `<base>.<ext>` is `<base>` |
| Codes.PathNameOfLast | import/src/import_pdfs_job.py:72 | the name of `<dir>/<name>` is `<name>`, and a bare name is its own name |
| GrSite.GrDateOf | import/src/gr_site_job.py:74-78 | a date read by one of the three formats is a valid calendar date |
| GrSite.ParseGrDate | import/src/gr_site_job.py:70-79 | the result is blank or an ISO date that reads back as a date |
| GrSite.ParseGrDateOfIso | import/src/gr_site_job.py:70-79 | an ISO date reads back as itself; neither day-first format accepts it |
| GrSite.StrptimeDmyOfDate | import/src/gr_site_job.py:74-76 | a day-first format reads a zero-padded day-first date as that date |
| GrSite.GrDateOfDayFirst | import/src/gr_site_job.py:74-78 | a day-first date with `-` or `/` is read by its own format, the earlier one failing on the other separator |
| GrSite.ParseGrDateOfDayFirst | import/src/gr_site_job.py:70-79 | a day-first date with either separator comes back as that date in ISO form |
| GrSite.TrailingDigits | import/src/gr_site_job.py:25 | the run counted is all digits and is preceded by a non-digit or the start |
| GrSite.PageIndexOf | import/src/gr_site_job.py:128-134 | the page index is `10**9` or a non-negative number |
| GrSite.ParsePageIndex | import/src/gr_site_job.py:124-134 | the same after `clean_text`, a blank name giving `10**9` |
| GrSite.PageIndexOfName | import/src/gr_site_job.py:128-131 | a name ending in `-<digits>.html` gives those digits' value |
| GrSite.PageIndexShape | import/src/gr_site_job.py:128-134 | conversely, a name with a page index ends in `-<digits>.html` and the index is those digits' value |
| GrSite.RecordPatchFields | import/src/gr_site_job.py:212-221 | the patch carries the record's code as its key, its title, GR date, URL, department code and name, `state = FETCHED`, and no other field |
| GrSite.DeptKey | import/src/gr_site_job.py:204 | the department key is never blank: a blank code becomes `unknown` |
| GrSite.SelectMembers | import/src/gr_site_job.py:203-205 | a page's selection holds exactly the records of that department and page |
| GrSite.GroupDaily | import/src/gr_site_job.py:201-209 | the loop builds exactly the grouping defined by department key and page, each page sorted |
| GrSite.GroupedShape | import/src/gr_site_job.py:201-209 | every record sits under its department key and its page; each page holds exactly the records of that department and page, as a permutation sorted by `order_index`, and nothing else |
| GrSite.PageOrder | import/src/gr_site_job.py:295 | the pages in strictly ascending order, each once |
| GrSite.PageLists | import/src/gr_site_job.py:295-296 | the page lists in page order |
| GrSite.Departments | import/src/gr_site_job.py:294 | the departments walked are exactly the grouping's keys |
| GrSite.ScanPage | import/src/gr_site_job.py:298-304 | the inner loop keeps exactly the records read so far whose code is neither known nor already kept, and the seen set is their codes |
| GrSite.WalkPage | import/src/gr_site_job.py:296-307 | a page with a known code ends the department's walk with that page as its stop page; otherwise the walk continues with the next page |
| GrSite.WalkDepartment | import/src/gr_site_job.py:295-307 | one department's pages are read in ascending order until the first page with a known code, which is its stop page |
| GrSite.StopIsFirst | import/src/gr_site_job.py:297-307 | the walk stops at a page only when it is the first with a known code |
| GrSite.DiscoverDaily | import/src/gr_site_job.py:290-307 | the discovery loop finds exactly the defined discoveries; a department has a stop page exactly when some page of it holds a known code, and that page is the first such |
| GrSite.WalkIndex | import/src/gr_site_job.py:295-307 | a walk over page lists reads a record exactly when its list comes before any list with a known code or is the first such |
| GrSite.WalkMembers | import/src/gr_site_job.py:295-307 | one department's walk reads a record exactly when its page comes no later than the first known page |
| GrSite.VisitMembers | import/src/gr_site_job.py:294-307 | the walks of several departments read exactly what one of them reads |
| GrSite.VisitReached | import/src/gr_site_job.py:294-307 | `run_daily` reads a record exactly when the record is reached in its department |
| GrSite.FreshFrom | import/src/gr_site_job.py:299-304 | every record kept was read and has a code the store does not know |
| GrSite.FreshDistinct | import/src/gr_site_job.py:301-304 | no code is kept twice |
| GrSite.FreshComplete | import/src/gr_site_job.py:299-304 | every code read and not known is kept |
| GrSite.FreshFirst | import/src/gr_site_job.py:301-303 | the record kept for a code is the first read with that code |
| GrSite.DiscoverFrom | import/src/gr_site_job.py:287-307 | every discovered record is reached in its department and has a code the store does not know |
| GrSite.DiscoverFirst | import/src/gr_site_job.py:294-304 | each discovered record is the first with its code in reading order (departments by key, pages ascending, records by `order_index`) |
| GrSite.DiscoverDistinct | import/src/gr_site_job.py:301-304 | no code is discovered twice |
| GrSite.DiscoverComplete | import/src/gr_site_job.py:294-304 | every code reached and not known is discovered |
| GrSite.Limit | import/src/gr_site_job.py:309-310 | a positive `max_records` below the length cuts the list to that many; otherwise it is kept whole; the result is always a prefix |
| GrSite.CodeList | import/src/gr_site_job.py:319 | the reported codes are the records' codes, in order |
| GrSite.KnownCodesOfRecords | import/src/gr_site_job.py:287 | the known codes read off the records are exactly the codes the store holds |
| GrSite.InsertAll | import/src/gr_site_job.py:312-314 | the inserts, stopping at the first that raises, leave a valid store |
| GrSite.InsertAllFits | import/src/gr_site_job.py:312-314 | the inserts succeed exactly when every code is non-blank, new to the store and distinct from the others |
| GrSite.InsertAllKeys | import/src/gr_site_job.py:312-314 | after successful inserts the store holds exactly its old codes and the records' codes |
| GrSite.InsertAllFails | import/src/gr_site_job.py:312-314 | a failed insert is a blank code (`ValueError`) or a duplicate code |
| GrSite.InsertCrawledKeys | import/src/gr_site_job.py:314 | one insert succeeds exactly on a non-blank new code, which it adds to the store's codes |
| GrSite.InsertDiscovered | import/src/gr_site_job.py:312-314 | the insert loop leaves the store and error the inserts define |
| GrSite.RunDaily | import/src/gr_site_job.py:274-322 | a dry run changes nothing; otherwise the store is the result of inserting the discoveries cut to `max_records`, and the run fails exactly when an insert raises; the report gives the input count, the codes found, the number of departments that stopped early, and whether writes were enabled |
| GrMonthly.Score | import/src/gr_site_job.py:397-398 | the completeness score counts the non-blank of title, department name, GR date and source URL: at most 4, exactly 4 when all are set, 0 when none is |
| GrMonthly.BeatsStrict | import/src/gr_site_job.py:399-403 | replacement (a higher score, or an equal score and a strictly later crawl date) is a strict order: irreflexive, transitive and asymmetric |
| GrMonthly.DedupeByCode | import/src/gr_site_job.py:391-403 | the loop builds exactly the map of the best record per code |
| GrMonthly.BestByCodeProps | import/src/gr_site_job.py:391-403 | one record per code read, that record is from the input and carries the code, and no input record with that code beats it |
| GrMonthly.ByCodeProps | import/src/gr_site_job.py:405 | the listed records are the kept ones, one per code, in strictly ascending code order |
| GrMonthly.ClassifyProps | import/src/gr_site_job.py:413-428 | every record counts once, as inserted or touched; inserted codes were not known; with distinct codes the touched ones are exactly the known ones |
| GrMonthly.MonthlyWrites | import/src/gr_site_job.py:414-421 | the writes, up to the first that raises, leave a valid store |
| GrMonthly.TouchCrawledKeys | import/src/gr_site_job.py:416 | a touch fails on a code the store does not hold and otherwise keeps the store's codes |
| GrMonthly.MonthlyWritesGrow | import/src/gr_site_job.py:414-421 | the writes never lose a code |
| GrMonthly.MonthlyWritesKeys | import/src/gr_site_job.py:414-421 | when all writes succeed, the store holds exactly its old codes and the inserted ones |
| GrMonthly.ClassifyMonthly | import/src/gr_site_job.py:423-428 | the dry-run loop reports exactly the codes the classification would insert and touch |
| GrMonthly.WriteOne | import/src/gr_site_job.py:415-421 | one write updates a known code or inserts a new one, and the store becomes what that write leaves |
| GrMonthly.WriteMonthly | import/src/gr_site_job.py:413-421 | the write loop leaves the store and error the writes define and, when no write raised, reports the classification's inserted and touched codes |
| GrMonthly.RunMonthly | import/src/gr_site_job.py:382-436 | a dry run leaves the store unchanged and reports the classification; otherwise the store is the result of the writes, the run fails exactly when a write raised, and the report gives the input count and the inserted and touched codes |
| BackfillHF.ExtractRepoIdAgrees | import/src/onetime/backfill_hf_path.py:101-110 | the repository id read from a URL is the one the sync job reads |
| BackfillHF.ResolveRepoId | import/src/onetime/backfill_hf_path.py:113-124 | a failure is a `ValueError`; a resolved id has exactly one `/`, neither first nor last |
| BackfillHF.ResolveRepoIdSources | import/src/onetime/backfill_hf_path.py:114-116 | a usable id argument wins over the URL, which is read only when the argument is blank after stripping blanks and `/` |
| BackfillHF.ResolveRepoIdOfId | import/src/onetime/backfill_hf_path.py:113-124 | a clean `namespace/name` id resolves to itself, whatever the URL |
| BackfillHF.CodeCandidates | import/src/onetime/backfill_hf_path.py:81-91 | a stem yields at most two candidate codes |
| BackfillHF.CodeCandidatesMembers | import/src/onetime/backfill_hf_path.py:81-91 | a code is a candidate exactly when the stripped stem is non-blank and the code is that stem or its long digit run, and no candidate repeats |
| BackfillHF.CodeCandidatesOfCodeFile | import/src/onetime/backfill_hf_path.py:81-149 | a PDF named `<code>.pdf` for a 16 to 22 digit code is found under that code only |
| BackfillHF.CarriersOfListing | import/src/onetime/backfill_hf_path.py:147-149 | a path carries a code exactly when it is listed and its stem yields the code |
| BackfillHF.IndexDescribes | import/src/onetime/backfill_hf_path.py:147-160 | for every code, the index records the paths that carry it: one path, none, or two distinct ones |
| BackfillHF.BuildIndexMeaning | import/src/onetime/backfill_hf_path.py:142-162 | a code is indexed exactly when one path carries it, and then it maps to that path; it is ambiguous exactly when two distinct paths carry it; no code is both |
| BackfillHF.BuildPdfIndex | import/src/onetime/backfill_hf_path.py:142-162 | the loop builds exactly that index and counts every listed path |
| BackfillHF.ClassifyCandidate | import/src/onetime/backfill_hf_path.py:216-233 | a row is queued exactly when it has a key, has no `hf.path`, and exactly one listed PDF carries that key at a non-empty path |
| BackfillHF.UpdateOf | import/src/onetime/backfill_hf_path.py:234-239 | the update carries the row's key and the PDF's path as `hf.path` |
| BackfillHF.CountWhere | import/src/onetime/backfill_hf_path.py:213-233 | a count is at most the number of rows |
| BackfillHF.CountsAddUp | import/src/onetime/backfill_hf_path.py:222-233 | every row missing `hf.path` is counted once, as ambiguous, without a PDF or queued, and one update is queued per queued row |
| BackfillHF.ApplyBatches | import/src/onetime/backfill_hf_path.py:208-211 | the batches, each through `update_many`, up to the first that fails, leave a valid store |
| BackfillHF.ApplyBatchesStops | import/src/onetime/backfill_hf_path.py:208 | once a batch fails, the batches after it change nothing |
| BackfillHF.ChunksAfterFull | import/src/onetime/backfill_hf_path.py:241-244 | full batches split off first leave the batching of the rest unchanged |
| BackfillHF.Flush | import/src/onetime/backfill_hf_path.py:200-211 | a dry run only counts the queue and changes nothing; otherwise one `update_many` writes it, and the flush fails exactly when that call does |
| BackfillHF.FailedBatchStops | import/src/onetime/backfill_hf_path.py:208-242 | once a full batch fails, no later batch of the whole run is written |
| BackfillHF.Enqueue | import/src/onetime/backfill_hf_path.py:234-242 | one update joins the queue; a queue reaching the batch size is flushed; a rejected flush has written exactly what the whole run writes |
| BackfillHF.QueueRows | import/src/onetime/backfill_hf_path.py:213-242 | the loop counts each row by its verdict and queues each candidate's update; on a failing flush the store is what the whole run's batches leave, and otherwise the counts and batches written so far are those of all the rows |
| BackfillHF.LastFlush | import/src/onetime/backfill_hf_path.py:244 | the final, shorter batch ends the run, with its error if `update_many` rejects it |
| BackfillHF.ReportOfRun | import/src/onetime/backfill_hf_path.py:191-245 | the counts of a completed run make up its report |
| BackfillHF.RunBackfill | import/src/onetime/backfill_hf_path.py:188-245 | the updates are written in consecutive batches of `max(1, batch_size)`, the last possibly shorter; a dry run writes nothing; a failing `update_many` stops the run and keeps the earlier batches; a completed run reports every count |
| PrunePdfInfo.IntOrNone | import/src/onetime/prune_pdfinfo_fields.py:42-54 | an int gives itself; a value that is neither int nor text (a bool included) gives None |
| PrunePdfInfo.IntOrNoneOfText | import/src/onetime/prune_pdfinfo_fields.py:47-53 | on text, a value given agrees with `int()`; an ASCII numeral that `int()` reads is refused exactly when it has a leading `+` or a digit-group underscore, which `isdigit()` rejects |
| PrunePdfInfo.IntOrNoneOfIntToStr | import/src/onetime/prune_pdfinfo_fields.py:47-53 | the text of any int reads back as that int |
| PrunePdfInfo.NormalizedFontWordCount | import/src/onetime/prune_pdfinfo_fields.py:57-64 | a count given is positive |
| PrunePdfInfo.NormalizedFontWordCountPrecedence | import/src/onetime/prune_pdfinfo_fields.py:57-64 | `word_count` wins whenever it is present and not None, even when it does not parse; `words` is read only when `word_count` is missing or None; a count comes from one of the two keys |
| PrunePdfInfo.KeptFields | import/src/onetime/prune_pdfinfo_fields.py:19-74 | the rebuilt font copies exactly the fields outside `DROP_FONT_FIELDS`, `words` and `word_count`, unchanged |
| PrunePdfInfo.ScrubbedFont | import/src/onetime/prune_pdfinfo_fields.py:76-79 | a font is dropped exactly when it has no positive word count |
| PrunePdfInfo.ScrubbedFontShape | import/src/onetime/prune_pdfinfo_fields.py:67-85 | a surviving font holds exactly the kept fields, unchanged, plus its positive `word_count` |
| PrunePdfInfo.ScrubbedFontFixed | import/src/onetime/prune_pdfinfo_fields.py:67-85 | the scrub leaves a font as it is exactly when it has nothing to drop, no `words`, and its count is already the plain positive int |
| PrunePdfInfo.ScrubbedFontIdempotent | import/src/onetime/prune_pdfinfo_fields.py:67-85 | a scrubbed font scrubs to itself |
| PrunePdfInfo.CopyFields | import/src/onetime/prune_pdfinfo_fields.py:70-74 | the copy loop keeps exactly the fields not dropped and reports whether it met a flagged key |
| PrunePdfInfo.ScrubFontObjAsWritten | import/src/onetime/prune_pdfinfo_fields.py:67-85 | as written, the scrubbed font is right but the change flag is always set |
| PrunePdfInfo.AsWrittenReportsUnchangedFont | import/src/onetime/prune_pdfinfo_fields.py:71-83 | a font `{word_count: 5}`, which the scrub leaves as it is, is still reported changed as written |
| PrunePdfInfo.ScrubFontObj | import/src/onetime/prune_pdfinfo_fields.py:67-85 | the scrubbed font, with the flag set exactly when the font really changes: dropped metadata, a `words` key, or a count that is not already the plain int (corrected; see Findings) |
| PrunePdfInfo.ScrubbedFonts | import/src/onetime/prune_pdfinfo_fields.py:113-125 | exactly the dict fonts with a positive count survive, each scrubbed |
| PrunePdfInfo.ScrubbedFontsChanged | import/src/onetime/prune_pdfinfo_fields.py:113-128 | the font map changes exactly when some entry counts as updated |
| PrunePdfInfo.ScrubbedFontsIdempotent | import/src/onetime/prune_pdfinfo_fields.py:113-128 | scrubbing the surviving fonts again changes nothing and counts no update |
| PrunePdfInfo.ScrubbedRowRenames | import/src/onetime/prune_pdfinfo_fields.py:91-107 | after the scrub no `updated_at_utc`, `updated_at` or `font_count` is left; `total_font_count` is present exactly when it or `font_count` was, and an existing value wins over the renamed one |
| PrunePdfInfo.ScrubbedRowFonts | import/src/onetime/prune_pdfinfo_fields.py:109-128 | a dict of fonts is replaced by the surviving fonts; any other `fonts` value is kept |
| PrunePdfInfo.ScrubbedRowKeepsOthers | import/src/onetime/prune_pdfinfo_fields.py:88-131 | every other field of the row is left alone |
| PrunePdfInfo.ScrubbedRowChanged | import/src/onetime/prune_pdfinfo_fields.py:88-131 | the scrub changes a row exactly when it has a stamp, a `font_count` or an updated font |
| PrunePdfInfo.ScrubbedRowIdempotent | import/src/onetime/prune_pdfinfo_fields.py:88-131 | scrubbing twice gives what scrubbing once gave, and the second scrub finds no font to update |
| PrunePdfInfo.UpdatedFonts | import/src/onetime/prune_pdfinfo_fields.py:115-125 | the updated fonts are exactly the entries that are not dicts or whose scrub changes them |
| PrunePdfInfo.ScrubFontEntry | import/src/onetime/prune_pdfinfo_fields.py:116-125 | one pass keeps an entry exactly when it survives, scrubbed, and bumps `fonts_updated` exactly when it counts as updated |
| PrunePdfInfo.FontsLoop | import/src/onetime/prune_pdfinfo_fields.py:113-125 | the loop handles every entry once, in any order, and counts each updated one |
| PrunePdfInfo.ScrubFonts | import/src/onetime/prune_pdfinfo_fields.py:113-128 | the loop yields the surviving fonts, reports a change exactly when some entry was updated, and adds the number of updated entries to `fonts_updated` |
| PrunePdfInfo.ScrubRow | import/src/onetime/prune_pdfinfo_fields.py:88-131 | the row becomes its scrubbed form; the flag is set exactly when the row changed; the counters grow by one for a removed stamp, one for a renamed `font_count`, and by the number of updated fonts (corrected; see Findings) |
| PrunePdfInfo.PruneReport.constructor | import/src/onetime/prune_pdfinfo_fields.py:22-30 | a new report starts with every counter at zero |
| MigrateInfos.NonEmptyText | import/src/onetime/migrate_infos.py:131-133 | the result is the default, or the non-blank stripped text of the value; a blank value gives the default |
| MigrateInfos.OptionalText | import/src/onetime/migrate_infos.py:136-138 | None exactly when the stripped text is blank, else that text |
| MigrateInfos.NonEmptyTextOfStripped | import/src/onetime/migrate_infos.py:131-133 | a stripped non-blank text reads back as itself |
| MigrateInfos.BoolOrNone | import/src/onetime/migrate_infos.py:156-165 | a bool gives itself; a value that is neither bool nor text gives None |
| MigrateInfos.BoolOrNoneOfText | import/src/onetime/migrate_infos.py:159-164 | a text gives True exactly when it strips and lower-cases to `true`, `1` or `yes`, and False exactly for `false`, `0` or `no` |
| MigrateInfos.BoolOrNoneOfPyStr | import/src/onetime/migrate_infos.py:156-165 | `str()` of a bool and its lower-case spelling both read back as that bool |
| MigrateInfos.Status | import/src/onetime/migrate_infos.py:168-170 | an allowed default gives an allowed result; an allowed text gives itself; any other non-blank text gives the default |
| MigrateInfos.StatusCases | import/src/onetime/migrate_infos.py:168-170 | a missing value gives the default, and an allowed status with surrounding blanks gives that status |
| MigrateInfos.Attempts | import/src/onetime/migrate_infos.py:249-259 | a non-negative count gives itself; a missing, unparsable or negative one gives 0; there is no upper clamp |
| MigrateInfos.AttemptsOfIntToStr | import/src/onetime/migrate_infos.py:249-259 | a count written as an int or as its text reads back clamped below at 0 only |
| MigrateInfos.HfAttempts | import/src/onetime/migrate_infos.py:252-259 | the hf count is `attempt_counts.hf` when it parses, else `attempt_counts.lfs` |
| MigrateInfos.AsciiSlug | import/src/onetime/migrate_infos.py:177-180 | the slug uses `[A-Za-z0-9._-]` only and neither starts nor ends with `_` |
| MigrateInfos.Prefix | import/src/onetime/migrate_infos.py:203 | `s[:n]` is a prefix of `s` of at most `n` characters |
| MigrateInfos.RecordKeyRefused | import/src/onetime/migrate_infos.py:198-208 | no key can be derived, a `MigrationError`, exactly when both the code text and the URL text are blank |
| MigrateInfos.RecordKeyAgreesWithBaseline | import/src/onetime/migrate_infos.py:183-196 | wherever a digit run or the digit count decides, the key is the baseline's canonical code of the same texts |
| MigrateInfos.RecordKeyShape | import/src/onetime/migrate_infos.py:183-204 | a key is 16 to 22 digits, a slug, or `ucode_` followed by at most 20 digest characters |
| MigrateInfos.RecordKeyStable | import/src/onetime/migrate_infos.py:183-204 | for a non-blank code text with a non-empty slug, deriving the key again from the key with the same URL gives it back, and the key is non-blank and made of safe characters |
| MigrateInfos.CanonicalDepartmentCode | import/src/onetime/migrate_infos.py:211-222 | a known code in any case gives that code in lower case; with neither code nor name the result is `unknown`; any result is `unknown`, a table code, or the slug of the name or code |
| MigrateInfos.Stamps | import/src/onetime/migrate_infos.py:173-227 | `created_at_utc` defaults to now and `updated_at_utc` to `created_at_utc` |
| MigrateInfos.UrlJson | import/src/onetime/migrate_infos.py:228-241 | the url info row has exactly the listed fields, with `record_key` and `unique_code` both the key |
| MigrateInfos.UrlInfoOf | import/src/onetime/migrate_infos.py:225-241 | the url info carries the key, the stamps, the stripped URL, the canonical department code, and `daily` as the default first run type |
| MigrateInfos.UrlInfoRekeys | import/src/onetime/migrate_infos.py:183-241 | migrating a url info row again derives the key it is filed under |
| MigrateInfos.StageJson | import/src/onetime/migrate_infos.py:271-294 | a stage object carries its status and attempt count |
| MigrateInfos.HfJson | import/src/onetime/migrate_infos.py:295-304 | the hf object carries the path, the sync stamp, `success` exactly when there is a path (else `not_attempted`), and the attempt count |
| MigrateInfos.UploadJson | import/src/onetime/migrate_infos.py:268-307 | the upload info row has exactly the listed fields, each stage object with its fields, and `archive_length` in the wayback object |
| MigrateInfos.UploadInfoOf | import/src/onetime/migrate_infos.py:244-307 | the upload info carries the key and the stamps; every stage status is one its stage allows; the attempt counts are parsed and clamped; the hf path is the stripped `lfs_path`, synced at the update stamp when present |
| MigrateInfos.UploadInfoHf | import/src/onetime/migrate_infos.py:265-304 | the hf object is `success`, with the stripped `lfs_path` and the update stamp, exactly when `lfs_path` is not blank, and otherwise `not_attempted` with neither |
| MigrateInfos.MetricsJson | import/src/onetime/migrate_infos.py:344-351 | the metric fields of a successful analysis are exactly the listed ones, each as parsed |
| MigrateInfos.PdfBaseJson | import/src/onetime/migrate_infos.py:314-319 | every pdf info row has the key, the status and the two stamps |
| MigrateInfos.WithMetrics | import/src/onetime/migrate_infos.py:329-332 | the base fields, then `error`, then the metric fields, each unchanged |
| MigrateInfos.PdfJson | import/src/onetime/migrate_infos.py:314-352 | an unattempted analysis has the base fields only; an attempted one also has `error` and the metrics, all None for an unreadable PDF |
| MigrateInfos.PdfStatus | import/src/onetime/migrate_infos.py:321-326 | the status is always one of the allowed pdf statuses |
| MigrateInfos.PdfResultOf | import/src/onetime/migrate_infos.py:321-351 | the analysis read has that status, and kept `fonts` and `language` values are dicts or None |
| MigrateInfos.PdfInfoShape | import/src/onetime/migrate_infos.py:310-352 | a row without an attempted analysis gets only the four base fields; a missing or failed PDF gets every metric as None; a successful one gets each count as an int or None, `has_any_page_image` as a bool or None, and `fonts`/`language` as a dict or None |
| MigrateInfos.RowsShareKeyAndStamps | import/src/onetime/migrate_infos.py:225-319 | the three rows built from one ledger row share its key and its two stamps |
| MigrateInfos.LineKey | import/src/onetime/migrate_infos.py:183-208 | a line that is not a JSON object, or has no key, fails with `MigrationError` |
| MigrateInfos.Bump | import/src/onetime/migrate_infos.py:369 | a counter update adds one to that partition and leaves the others |
| MigrateInfos.CountLinesTally | import/src/onetime/migrate_infos.py:367-369 | each partition's count grows by the number of lines that fall in it |
| MigrateInfos.MigrateInfosReport.CountRow | import/src/onetime/migrate_infos.py:367-369 | one more source row, counted in its partition, and nothing else changes |
| MigrateInfos.ScanSource | import/src/onetime/migrate_infos.py:355-370 | the scan succeeds exactly when every line has a key and no key repeats, failing otherwise with `MigrationError`; on success every line is counted once in its partition and the unique codes equal the line count |
| MigrateInfos.RequireTargetEmpty | import/src/onetime/migrate_infos.py:104-112 | a target is accepted exactly when it is absent or a directory without `.jsonl` files; a refusal is a `MigrationError` |
| MigrateInfos.ListSourceFiles | import/src/onetime/migrate_infos.py:90-101 | every source partition once, years newest first, then other names, `unknown` last |
| BuildBaseline.FirstNonEmpty | import/src/build_baseline_ledger.py:33-108 | the result is blank exactly when every cleaned value is an empty text (`""`, `-`, `None`, `null`, `NULL`); otherwise it is the first cleaned value that is not |
| BuildBaseline.FirstNonEmptyStripped | import/src/build_baseline_ledger.py:95-108 | the chosen text is already stripped |
| BuildBaseline.GrDateOf | import/src/build_baseline_ledger.py:115-119 | a date read by one of the two formats is a valid calendar date |
| BuildBaseline.ParseGrDate | import/src/build_baseline_ledger.py:111-120 | a date given is an ISO date that reads back as a date |
| BuildBaseline.ParseGrDateOfIso | import/src/build_baseline_ledger.py:111-120 | an ISO date reads back as itself; the day-first format does not accept it |
| BuildBaseline.ParseGrDateOfDayFirst | import/src/build_baseline_ledger.py:115-117 | a zero-padded `dd-mm-YYYY` date reads as that date |
| BuildBaseline.ParseGrDateNeedsDash | import/src/build_baseline_ledger.py:115 | a text without `-` is never a date here, so `dd/mm/YYYY` is not accepted |
| BuildBaseline.Prefix | import/src/build_baseline_ledger.py:464-465 | `s[:n]` is a prefix of `s` of at most `n` characters |
| BuildBaseline.PartitionKeyAgrees | import/src/build_baseline_ledger.py:463-464 | the baseline files a record under the partition the ledger computes from its `gr_date`, for a four-digit year without a leading zero, and a record without a date under `unknown` |
| BuildBaseline.PartitionKeyOfEarlyYear | import/src/build_baseline_ledger.py:464 | for a year below 1000 the two differ: the baseline keeps the zero padding (`0999`), the ledger does not (`999`) |
| BuildBaseline.SafeFilename | import/src/build_baseline_ledger.py:196-198 | the file name is non-empty, uses `[A-Za-z0-9._-]` only, and neither starts nor ends with `_` |
| BuildBaseline.SafeFilenameOfSafe | import/src/build_baseline_ledger.py:196-198 | a name already safe, with no `_` at either end, is its own file name |
| BuildBaseline.SafeFilenameIdempotent | import/src/build_baseline_ledger.py:196-198 | making a file name safe twice changes nothing |
| BuildBaseline.SafeFilenameOfUnsafe | import/src/build_baseline_ledger.py:196-198 | a name with nothing safe in it becomes `unknown` |
| BuildBaseline.ScoreMerged | import/src/build_baseline_ledger.py:228-237 | the merged score has five places: completeness 0 to 5, a valid-date flag set exactly when the G.R. date parses, a 0/1 crawl-time flag, the time, and the priority last |
| BuildBaseline.ScoreWayback | import/src/build_baseline_ledger.py:240-246 | the wayback score has five 0/1 flags, the first set exactly when `link_success` is `True`, and the priority last |
| BuildBaseline.ScoreArchive | import/src/build_baseline_ledger.py:249-254 | the archive score has four 0/1 flags, the first set exactly when `upload_success` is `True`, and the priority last |
| BuildBaseline.ScorePdf | import/src/build_baseline_ledger.py:257-261 | the pdf score has a success flag set exactly when `download_success` is `True`, a time flag, the time, and the priority last |
| BuildBaseline.GreaterByLast | import/src/build_baseline_ledger.py:272 | of two scores equal but for their last place, the greater is the one with the greater last place |
| BuildBaseline.WaybackTieGoesToPriority | import/src/build_baseline_ledger.py:240-272 | of two wayback rows of the same quality, the one from the higher-priority source wins |
| BuildBaseline.UpdateBestRow | import/src/build_baseline_ledger.py:264-274 | a strictly greater score, or the first score of a code, replaces the code's row and score; anything else leaves both dicts alone |
| BuildBaseline.BestIsFirstHighest | import/src/build_baseline_ledger.py:264-274 | after any sequence of offers, each code holds the first offer with the highest score |
| BuildBaseline.ObservationsOf | import/src/build_baseline_ledger.py:284 | the merged sightings when there are any, else the fallback ones |
| BuildBaseline.MinDay | import/src/build_baseline_ledger.py:292 | the earliest day is one of the sightings and no sighting is earlier |
| BuildBaseline.MonthlyDays | import/src/build_baseline_ledger.py:296 | exactly the days of the monthly sightings |
| BuildBaseline.MaxDay | import/src/build_baseline_ledger.py:297 | the latest day is one of them and none is later |
| BuildBaseline.CrawlDaysOf | import/src/build_baseline_ledger.py:277-299 | with no sightings, the default date twice and `monthly` exactly when a monthly source saw the code; otherwise the earliest date, the latest monthly date (or the earliest when none), `monthly` exactly when a monthly source saw the code on the earliest date; first never after last |
| BuildBaseline.CrawlFieldsValid | import/src/build_baseline_ledger.py:277-299 | the two crawl dates parse back as ISO dates in order, and the run type is `daily` or `monthly` |
| BuildBaseline.DeriveState | import/src/build_baseline_ledger.py:302-333 | an archive upload decides first (split by wayback success), then a wayback success, then a wayback attempt, then the download outcome; never `ARCHIVE_UPLOADED_WITHOUT_DOCUMENT` |
| BuildBaseline.DeriveStateIgnoresArchiveAttempt | import/src/build_baseline_ledger.py:314-333 | a failed archive attempt never changes the state: both branches agree |
| BuildBaseline.FactsOf | import/src/build_baseline_ledger.py:467-508 | every stage status is one the ledger allows; a status is `success` exactly when its stage succeeded; a wayback URL means a wayback success; a later stage's success means a successful download unless the PDF row says outright that it failed |
| BuildBaseline.LinkOnlyWaybackRejected | import/src/build_baseline_ledger.py:309-312 | as written, a wayback row with `link_success` but no URL, for a code whose archive upload succeeded, gives `ARCHIVE_UPLOADED_WITH_WAYBACK_URL` with a blank `wayback.url`, which the validator's state table reports as an error |
| BuildBaseline.RecordState | import/src/build_baseline_ledger.py:302-333 | the state as written, except that an archived record is split by whether it has a wayback URL |
| BuildBaseline.RecordStateIsArchiveTransition | import/src/build_baseline_ledger.py:309-312 | for an archived record, that is the state the ledger's own archive transition gives |
| BuildBaseline.Clamp | import/src/build_baseline_ledger.py:569-571 | `min(2, max(0, x))` lies in 0 to 2 and keeps a value already there |
| BuildBaseline.AttemptObject | import/src/build_baseline_ledger.py:527-572 | `attempt_counts` has the three stage counters, each in 0 to 2 |
| BuildBaseline.GrDateIso | import/src/build_baseline_ledger.py:463 | a G.R. date given is an ISO date |
| BuildBaseline.DownloadPath | import/src/build_baseline_ledger.py:542-545 | a download path, when there is a source URL, lies under `LFS/` |
| BuildBaseline.DownloadObject | import/src/build_baseline_ledger.py:535-578 | the download object has every field the validator expects, with the derived status |
| BuildBaseline.WaybackObject | import/src/build_baseline_ledger.py:580-590 | the wayback object has every field the validator expects, with the derived status and URL |
| BuildBaseline.ArchiveObject | import/src/build_baseline_ledger.py:591-596 | the archive object has every field the validator expects, with the derived status |
| BuildBaseline.LfsPath | import/src/build_baseline_ledger.py:546-550 | `lfs_path` is None, or the non-blank download path when a file is there |
| BuildBaseline.RowReads | import/src/build_baseline_ledger.py:559-602 | each key of the record reads as the field it was built from |
| BuildBaseline.BaselineReads | import/src/build_baseline_ledger.py:559-602 | the record reads back the code, the ISO G.R. date, the counters, the path, the state, the crawl fields and the build time as both stamps |
| BuildBaseline.StagesClean | import/src/build_baseline_ledger.py:568-596 | stage objects with every expected key and an allowed status give the validator's stage checks nothing to report |
| BuildBaseline.StateMeets | import/src/build_baseline_ledger.py:467-516 | the corrected state meets what the validator's state table demands of stage objects built from the same facts |
| BuildBaseline.RecordValidOf | import/src/build_baseline_ledger.py:559-602 | a record whose fields read as the build writes them passes every error check of the ledger validator |
| BuildBaseline.BaselineRecordValid | import/src/build_baseline_ledger.py:446-603 | a record the build writes, with its state corrected, passes every error check of the validator in the partition it is filed under, given a non-blank new code, a four-digit year and a parsable build time |
| BuildBaselineRecords.StandardRepos | import/src/build_baseline_ledger.py:627-640 | a run reads two repositories: the monthly full crawl, then the daily crawl, with the daily one given the higher priority |
| BuildBaselineRecords.ObsOf | import/src/build_baseline_ledger.py:367-368 | one observation per row of the dataset, in file order, labelled with its source's run type and priority |
| BuildBaselineRecords.ReadFeed | import/src/build_baseline_ledger.py:367-437 | reading one dataset of one source leaves the tables as offering its rows one after another does |
| BuildBaselineRecords.RunRepo | import/src/build_baseline_ledger.py:366-437 | a source's datasets are read in the order merged, wayback, archive, pdfs |
| BuildBaselineRecords.Gather | import/src/build_baseline_ledger.py:366-437 | the first loop leaves exactly the tables of reading every source's rows in order |
| BuildBaselineRecords.StepTables | import/src/build_baseline_ledger.py:369-383 | a row with a code is offered to its own dataset's table only; a row without a code is skipped |
| BuildBaselineRecords.StepRunTypes | import/src/build_baseline_ledger.py:373-426 | a row adds its source's run type to its own code's run types and no other |
| BuildBaselineRecords.StepAttempts | import/src/build_baseline_ledger.py:392-427 | a wayback, archive or pdf row adds one attempt to its own code; a merged row adds none |
| BuildBaselineRecords.TablesAreBest | import/src/build_baseline_ledger.py:377-437 | each dataset's table is what offering its rows one after another leaves |
| BuildBaselineRecords.GatheredBest | import/src/build_baseline_ledger.py:377-437 | after the first loop each dataset's table holds, for every code one of its rows was filed under and no other, the first row with the highest score |
| BuildBaselineRecords.CodesGathered | import/src/build_baseline_ledger.py:364-372 | the codes collected are exactly the non-empty codes of the rows read |
| BuildBaselineRecords.GatheredCodes | import/src/build_baseline_ledger.py:364-437 | the codes of the build are exactly the non-empty canonical codes read from some row of some source |
| BuildBaselineRecords.RunTypesGathered | import/src/build_baseline_ledger.py:357-426 | a code's run types are exactly the run types of the sources whose rows were filed under it |
| BuildBaselineRecords.AttemptsGathered | import/src/build_baseline_ledger.py:358-427 | a stage's attempt count for a code is the number of that dataset's rows filed under the code |
| BuildBaselineRecords.SightingsGathered | import/src/build_baseline_ledger.py:355-430 | a code's merged and fallback sightings are the parsed crawl dates of its rows, in order |
| BuildBaselineRecords.StateOf | import/src/build_baseline_ledger.py:467-516 | the state of a code's record, corrected for a wayback success without a URL, is never `ARCHIVE_UPLOADED_WITHOUT_DOCUMENT` |
| BuildBaselineRecords.RecordOf | import/src/build_baseline_ledger.py:447-602 | the record built for a code carries that code |
| BuildBaselineRecords.EntryOf | import/src/build_baseline_ledger.py:446-603 | the entry for a code carries the code, a record with that code and a state that is never archived without a document |
| BuildBaselineRecords.Emit | import/src/build_baseline_ledger.py:443-603 | the second loop appends each code's record to its partition in the order of the codes and counts its state |
| BuildBaselineRecords.SortedCodes | import/src/build_baseline_ledger.py:446 | every code once, in strictly ascending order |
| BuildBaselineRecords.SortPartitions | import/src/build_baseline_ledger.py:605-606 | every partition is sorted by `unique_code`; no partition is added or removed |
| BuildBaselineRecords.FiledProps | import/src/build_baseline_ledger.py:603 | a partition holds exactly the entries filed under its key, in their order |
| BuildBaselineRecords.SortLeavesPartition | import/src/build_baseline_ledger.py:605-606 | a partition already in code order is left as it is by the final sort |
| BuildBaselineRecords.SortKeepsPartitions | import/src/build_baseline_ledger.py:605-606 | sorting partitions built from ascending codes changes nothing |
| BuildBaselineRecords.EmitSorted | import/src/build_baseline_ledger.py:443-606 | the partitions and counts are those of the codes' entries in ascending order |
| BuildBaselineRecords.BuildRecords | import/src/build_baseline_ledger.py:343-608 | the partitions and state counts are those of the build's entries, and the total is the number of codes gathered |
| BuildBaselineRecords.FiledOnce | import/src/build_baseline_ledger.py:446-603 | every code is filed once, under its own partition key, and nowhere else |
| BuildBaselineRecords.PartitionsAscending | import/src/build_baseline_ledger.py:603-606 | every partition lists its records in strictly ascending `unique_code` order |
| BuildBaselineRecords.TallyTotal | import/src/build_baseline_ledger.py:444-517 | the tallies of the eight states add up to the number of entries |
| BuildBaselineRecords.NoDocumentlessArchive | import/src/build_baseline_ledger.py:302-333 | no entry of the build ends in `ARCHIVE_UPLOADED_WITHOUT_DOCUMENT` |
| BuildBaselineRecords.StateCountsTotal | import/src/build_baseline_ledger.py:444-517 | the state counts add up to the number of records, with none archived without a document |
| BuildBaselineRecords.BuiltRecordValid | import/src/build_baseline_ledger.py:343-608 | the record the build writes for a code passes every error check of the ledger validator in its partition, given a non-blank new code, a four-digit year and a parsable build time |
| ImportPdfs.ExtractUniqueCode | import/src/import_pdfs_job.py:21-78 | the code is empty or 16 to 22 digits |
| ImportPdfs.ExtractUniqueCodeOfRun | import/src/import_pdfs_job.py:69-71 | a name with a run of 16 or more digits yields the first such run, cut at 22 |
| ImportPdfs.ExtractUniqueCodeOfCopyName | import/src/import_pdfs_job.py:65-78 | the name of a copy, `<unique_code>.pdf`, yields that code again |
| ImportPdfs.YearMonthFromGrDate | import/src/import_pdfs_job.py:81-85 | `unknown`, or a seven-character prefix of the cleaned date with `-` at position 4 |
| ImportPdfs.YearMonthOfIsoDate | import/src/import_pdfs_job.py:81-85 | an ISO date gives its `YYYY-MM` |
| ImportPdfs.SuffixOfName | import/src/import_pdfs_job.py:134 | the suffix of a name completes its stem to the whole name |
| ImportPdfs.SuffixOfDotted | import/src/import_pdfs_job.py:134 | the suffix of `<base>.<ext>`, for an extension without a dot, is `.<ext>` |
| ImportPdfs.IsPdfOfName | import/src/import_pdfs_job.py:134 | a file `<base>.<ext>`, with `ext` any casing of `pdf`, is taken as a PDF |
| ImportPdfs.Destination | import/src/import_pdfs_job.py:155 | the destination lies under the PDF root and ends in `<unique_code>.pdf` |
| ImportPdfs.DestinationOf | import/src/import_pdfs_job.py:149-155 | the destination for a ledger row lies under the PDF root and ends in `<unique_code>.pdf` |
| ImportPdfs.CopyPdfCases | import/src/import_pdfs_job.py:105-122 | `copied` exactly when the destination is missing; `identical` when the hashes agree; `conflict` when they differ without overwrite; `overwritten` when they differ with it; only a copy or an overwrite that is not a dry run writes, and it writes the source content |
| ImportPdfs.CopyPdfAgain | import/src/import_pdfs_job.py:105-122 | after a real copy the destination exists; unless it was a conflict, copying again finds it identical and writes nothing |
| ImportPdfs.TriageOf | import/src/import_pdfs_job.py:134-142 | a file passed on to the ledger lookup has a code of 16 to 22 digits |
| ImportPdfs.CountTriage | import/src/import_pdfs_job.py:133-142 | a count of listed files is at most the number of files |
| ImportPdfs.Tally | import/src/import_pdfs_job.py:133-169 | each file adds one to exactly one of `scanned_pdf_files` or `skipped_non_pdf` |
| ImportPdfs.TallyBalanced | import/src/import_pdfs_job.py:138-169 | every scanned PDF lands in exactly one of the other buckets |
| ImportPdfs.CopyPdfUnder | import/src/import_pdfs_job.py:105-155 | a copy writes the source content to its destination under the root, or nothing |
| ImportPdfs.LinkedRow | import/src/import_pdfs_job.py:172-180 | the row the link upsert makes of an existing row: well-formed, `lfs_path` set to the destination's ledger path, `updated_at_utc` stamped |
| ImportPdfs.LinkedRowKeeps | import/src/import_pdfs_job.py:172-180 | the link keeps every immutable field the row already had |
| ImportPdfs.JobOf | import/src/import_pdfs_job.py:125-160 | the job sends every file to a PDF path under the PDF root and triages paths by name |
| ImportPdfs.Place | import/src/import_pdfs_job.py:156-180 | the copy decides the bucket and the files; a dry run changes neither files nor ledger; an error leaves the ledger unchanged |
| ImportPdfs.PlaceLinks | import/src/import_pdfs_job.py:172-180 | after a placement that is not a dry run and did not fail, the code's row names the destination in `lfs_path`, is unchanged or is the linked row, and every other row is as it was |
| ImportPdfs.ImportOne | import/src/import_pdfs_job.py:133-180 | one file never adds or removes a ledger code and never removes a file |
| ImportPdfs.ImportOneProps | import/src/import_pdfs_job.py:133-148 | the bucket follows the file's triage; a file without a ledger row changes nothing; only the row of the file's own code can change |
| ImportPdfs.ImportOneWrites | import/src/import_pdfs_job.py:156-163 | one file writes nothing, or its own content at a PDF path under the root |
| ImportPdfs.ImportStep | import/src/import_pdfs_job.py:132-180 | one more file keeps every file and every ledger code; once stopped by an error the job stays stopped |
| ImportPdfs.ImportAll | import/src/import_pdfs_job.py:132-180 | the run over the listed files keeps every file and every ledger code |
| ImportPdfs.ImportAllStops | import/src/import_pdfs_job.py:172-180 | an upsert error ends the run where it happened |
| ImportPdfs.ImportAllNext | import/src/import_pdfs_job.py:132-180 | the run over one more file is one step on from the run before it |
| ImportPdfs.ImportAllAdvance | import/src/import_pdfs_job.py:132-180 | one file either moves the run on with its bucket tallied, or ends it with that file's error |
| ImportPdfs.ImportAllDryRun | import/src/import_pdfs_job.py:132-180 | a dry run writes neither files nor the ledger and never fails |
| ImportPdfs.ImportAllKeeps | import/src/import_pdfs_job.py:132-180 | the row of a code that no listed file carries is left as it was |
| ImportPdfs.PlaceFile | import/src/import_pdfs_job.py:149-180 | the copy decides the bucket; a dry run, or a row that already names the destination, leaves the ledger alone; otherwise the row's `lfs_path` becomes the destination's ledger path; the bucket, files and ledger afterwards are exactly `Place` |
| ImportPdfs.ImportFile | import/src/import_pdfs_job.py:133-180 | a non-PDF or code-less file is only counted; a code without a ledger row counts as `missing_ledger_record` and changes nothing; otherwise the file is placed; the bucket, files and ledger afterwards are exactly `ImportOne` |
| ImportPdfs.LinkRecord | import/src/import_pdfs_job.py:172-180 | the upsert fails exactly when `LinkedRow` does, with its error, and then leaves the ledger unchanged; otherwise the code's row becomes the linked row and no other row changes |
| ImportPdfs.RunImportPdfs | import/src/import_pdfs_job.py:125-182 | a missing source directory raises FileNotFoundError; every listed file is counted in exactly one bucket; a dry run writes neither files nor the ledger; every file written is a PDF under the root holding some listed file's content; the report, files and ledger are those of `ImportAll` over the listed files, and the run fails exactly when it stops there, with that error |
| ImportConfig.Lookup | import/src/import_config.py:151-163 | a key is found exactly when the dict holds it |
| ImportConfig.Put | import/src/import_config.py:88-97 | the written key reads as its new value, every other key as before, and no key appears that was not there or written |
| ImportConfig.PutDistinct | import/src/import_config.py:88-97 | writing a key keeps the dict's keys distinct |
| ImportConfig.ParseScalar | import/src/import_config.py:15-60 | a blank value is `""`; a value in matching quotes is what lies between them; `true`/`false` in any casing are booleans; a `-?\d+` value is that integer; anything else is the stripped text |
| ImportConfig.ParseScalarOfInt | import/src/import_config.py:55-57 | a whole number written in decimal reads back as that number |
| ImportConfig.Classify | import/src/import_config.py:67-83 | a top-level value line has a non-blank stripped key and a non-empty stripped value; a section or nested line has a non-blank stripped key |
| ImportConfig.YamlStepKeeps | import/src/import_config.py:67-97 | each line keeps the parser's invariants: the current section exists in the document and every key is non-blank and stripped |
| ImportConfig.YamlOf | import/src/import_config.py:63-99 | the document after any lines meets those invariants |
| ImportConfig.ParseSimpleYaml | import/src/import_config.py:63-99 | the loop over the lines gives the document of the lines in order |
| ImportConfig.SkippedLine | import/src/import_config.py:68-83 | a blank line, a comment, an indent other than 0 or 2, or a line without `:` changes nothing |
| ImportConfig.OpensSection | import/src/import_config.py:85-89 | a top-level key without a value opens an empty section and makes it current |
| ImportConfig.NestedOutsideSection | import/src/import_config.py:95-96 | a nested line outside any section is ignored |
| ImportConfig.NestedSetsCurrent | import/src/import_config.py:97 | a nested line sets its key in the current section and changes nothing else |
| ImportConfig.AsString | import/src/import_config.py:102-108 | None gives the default; a string gives itself stripped |
| ImportConfig.AsStringPresent | import/src/import_config.py:102-108 | a value that is there comes back stripped, and a non-string value never gives an empty text |
| ImportConfig.AsInt | import/src/import_config.py:111-127 | None gives the default; a string gives the default or the integer it spells, and the integer whenever it matches `-?\d+` |
| ImportConfig.AsIntOfNumeral | import/src/import_config.py:55-115 | a numeral in the file reads back as its number |
| ImportConfig.AsIntOfQuotedNumeral | import/src/import_config.py:48-124 | a quoted numeral is read as text, and converts to the same number |
| ImportConfig.AsIntDict | import/src/import_config.py:130-139 | every key kept is non-blank and stripped |
| ImportConfig.AsIntDictOfParsed | import/src/import_config.py:130-139 | for a section the parser produced, a key is kept exactly when the section has it, with the integer of its value (default 0) |
| ImportConfig.LookupSnoc | import/src/import_config.py:134 | a dict with one more entry at the end finds an old key as before and the new key as its value |
| ImportConfig.ConfigOf | import/src/import_config.py:151-171 | the upload threshold is at least 1 and the upload mode is never empty; without an `hf` section every HF field takes its default |
| ImportConfig.LoadImportConfig | import/src/import_config.py:142-171 | without a readable file, no thresholds and the default HF settings; otherwise the settings of the parsed file |
| ImportConfig.ThresholdAsWritten | import/src/import_config.py:157-160 | a threshold written in the `hf` section is used as given when at least 1, and 1 otherwise |
| JobUtils.ChunksOfShape | import/src/job_utils.py:34-36 | the chunks put back together are the input; each holds 1 to `size` items and all but the last hold exactly `size` |
| JobUtils.ChunkedShape | import/src/job_utils.py:34-36 | `chunked` does the same with a size of `max(1, chunk_size)` |
| JobUtils.ParseStateList | import/src/job_utils.py:77-80 | None gives the empty set |
| JobUtils.ParseStateListMembers | import/src/job_utils.py:77-80 | every listed state is stripped and non-blank, and the stripped form of every non-blank value is listed |
| JobUtils.ParseDate | import/src/job_utils.py:83-99 | a date given is a valid calendar date; a blank text gives none |
| JobUtils.ParseDateIsoOnly | import/src/job_utils.py:88-93 | an ISO-shaped text is read from its first ten characters by `date.fromisoformat` and by nothing else |
| JobUtils.ParseDateOfIso | import/src/job_utils.py:88-93 | an ISO date, or an ISO date-time starting with it, reads back as that date |
| JobUtils.WithinLookback | import/src/job_utils.py:102-112 | a window of 0 days or fewer takes every record; the date subtraction overflows exactly when the window reaches before 0001-01-01 |
| JobUtils.RecentAtAsDate | import/src/job_utils.py:109-110 | comparing ordinals is comparing dates |
| JobUtils.WithinLookbackAsDates | import/src/job_utils.py:102-112 | with a positive window, a record is recent exactly when its last-seen, first-seen or G.R. date is on or after the cutoff |
| JobUtils.CollectMembers | import/src/job_utils.py:127-142 | when no record fails, exactly the taken entries are collected |
| JobUtils.CollectFails | import/src/job_utils.py:127-142 | when some record fails, the loop stops with an error |
| JobUtils.CollectStopped | import/src/job_utils.py:127-142 | once a prefix has failed, the whole loop fails the same way |
| JobUtils.JudgeCases | import/src/job_utils.py:128-142 | a record yields an entry exactly when its stripped code is non-blank and passes the filter, one of its dates is in the window, and its stage attempts are not used up; it fails exactly when the code checks pass and the window overflows |
| JobUtils.SelectionMembers | import/src/job_utils.py:124-142 | without an overflowing window the selection succeeds and holds exactly the entries of the records that yield one |
| JobUtils.SelectionOverflow | import/src/job_utils.py:127-133 | an overflowing window is an error as soon as one record passes the code checks |
| JobUtils.FilterStageRecords | import/src/job_utils.py:115-144 | the selected records sorted by code, or the selection's error; `allowed_states` is not consulted |
| JobUtils.CollectLoop | import/src/job_utils.py:127-142 | the loop judges each record in turn and stops at the first error |
| JobUtils.FilterResultSorted | import/src/job_utils.py:143 | the result is sorted by code and is a permutation of the selected records |
| JobUtils.ServiceFailureClasses | import/src/job_utils.py:147-154 | an exception, a 429 or a status of 500 or more is a service failure; no status, or any other status below 500, is not |
| LocalEnv.ParseAssignment | import/src/local_env.py:23-38 | an assignment found has a non-blank, stripped key without `=`; a blank or `#` line assigns nothing |
| LocalEnv.ParseAssignmentOf | import/src/local_env.py:23-38 | a line `KEY=value`, with or without a leading `export `, assigns `value`, its matching quotes removed, to `KEY` |
| LocalEnv.Assignments | import/src/local_env.py:54-55 | one parsed assignment per line of the file, in order |
| LocalEnv.MergeAppend | import/src/local_env.py:54-61 | applying two runs of lines one after the other is applying them together |
| LocalEnv.MergeKeys | import/src/local_env.py:54-61 | keys are only added: the environment afterwards holds the old keys and the assigned ones, and no others |
| LocalEnv.KeptWithoutOverride | import/src/local_env.py:59-60 | without override a key already set is never replaced |
| LocalEnv.UntouchedKey | import/src/local_env.py:54-61 | lines that assign other keys leave a key's value alone |
| LocalEnv.FirstAssignmentWins | import/src/local_env.py:59-61 | without override the first assignment of a new key decides its value |
| LocalEnv.LastAssignmentWins | import/src/local_env.py:61 | with override the last assignment of a key decides its value |
| LocalEnv.MergeInto | import/src/local_env.py:54-61 | the loop over the lines leaves the environment the assignments give, in order |
| LocalEnv.Process.constructor | import/src/local_env.py:9 | a process starts with its environment and no `.env` file loaded |
| LocalEnv.Process.LoadLocalEnv | import/src/local_env.py:41-64 | returns the file found; without one, or with one already loaded, nothing changes; otherwise the file's assignments are merged into the environment and the file is remembered as loaded |
| SyncHF.PlaceholderCases | import/src/sync_hf_job.py:75-81 | a blank text is never a placeholder; a text with `<` and `>` always is; a placeholder stays one once stripped |
| SyncHF.NormalizeRepoRelpathShape | import/src/sync_hf_job.py:106-115 | a result has no backslash, no `//` and no `/` at either end; blank and `.` give the empty path; a `..` traversal is refused exactly when the tidied text is not `.`, and no result traverses |
| SyncHF.NormalizeRepoRelpathOfClean | import/src/sync_hf_job.py:106-115 | a path already in normal form, without traversal, is its own normalisation |
| SyncHF.NormalizeRepoRelpathIdempotent | import/src/sync_hf_job.py:106-115 | normalising a result again gives it back |
| SyncHF.ExtractRepoIdShape | import/src/sync_hf_job.py:118-127 | the id read from a URL holds at most one `/` |
| SyncHF.RepoIdAtMarker | import/src/sync_hf_job.py:122-124 | the dataset marker followed by `<ns>/<name>` and the end of the text captures `<ns>/<name>` |
| SyncHF.ExtractRepoIdOfDatasetUrl | import/src/sync_hf_job.py:118-127 | the address `huggingface.co/datasets/<ns>/<name>` gives `<ns>/<name>` |
| SyncHF.ResolveHfRepoId | import/src/sync_hf_job.py:130-143 | an id resolved is non-empty, not a placeholder, and of the form `namespace/name` |
| SyncHF.ResolveHfRepoIdSources | import/src/sync_hf_job.py:131-133 | a refused id setting is an error; a blank one defers to the URL; a non-blank one is used and the URL is not read |
| SyncHF.ResolveHfRepoIdOfId | import/src/sync_hf_job.py:130-143 | a clean `ns/name` id resolves to itself, whatever the URL says |
| SyncHF.PathParts | import/src/sync_hf_job.py:173 | the parts of a normalised path are its pieces, without `.` pieces |
| SyncHF.ContainsLedgerSegment | import/src/sync_hf_job.py:169-177 | fails exactly when the normalisation refuses the path; the empty path is not in the ledger tree |
| SyncHF.PathPartsKeepPair | import/src/sync_hf_job.py:173-176 | dropping `.` parts never separates `import` from a following `grinfo` |
| SyncHF.LedgerSegmentOfPieces | import/src/sync_hf_job.py:169-177 | a normalised path with adjacent pieces `import` and `grinfo` is in the ledger tree |
| SyncHF.NormalizeLargeFolderMode | import/src/sync_hf_job.py:261-267 | succeeds exactly when the stripped, lower-cased mode (`auto` when empty) is `auto`, `always` or `never`, and returns that mode |
| SyncHF.ShouldUseLargeFolderCases | import/src/sync_hf_job.py:270-296 | `never` is always false; `always` fails without client support and otherwise follows the directory target; `auto` needs a directory target, at least `max(threshold, 1)` files and support; a large-folder upload is only chosen for a directory target with support |
| PdfInfo.NormalizeFontName | import/src/pdf_info_job.py:137-142 | the normalised name holds only lower-case letters and digits |
| PdfInfo.NormalizeFontNameIdempotent | import/src/pdf_info_job.py:137-142 | a normalised name is its own normal form |
| PdfInfo.NormalizeFontNameDropsTag | import/src/pdf_info_job.py:137-142 | a six-capital subset tag `ABCDEF+` is dropped before the name is lower-cased and cut down to letters and digits |
| PdfInfo.ResolveFontKey | import/src/pdf_info_job.py:274-294 | none exactly when the normalised name is blank or known neither on the page nor globally; otherwise the least page-level key, and only without one the least global key |
| PdfInfo.SafeInt | import/src/pdf_info_job.py:154-162 | a bool gives the default; an int gives itself |
| PdfInfo.SafeIntOfNumeral | import/src/pdf_info_job.py:158-160 | a decimal numeral reads back as its value |
| PdfInfo.RunLen | import/src/pdf_info_job.py:18 | a run of word characters is maximal: it stops at the first other character |
| PdfInfo.ExtractWords | import/src/pdf_info_job.py:215-220 | every word kept is a non-empty run of word characters that holds a letter |
| PdfInfo.ExtractWordsSplit | import/src/pdf_info_job.py:215-220 | a non-word character separates: the words of `a c b` are those of `a`, then those of `b` |
| PdfInfo.ExtractWordsOfRun | import/src/pdf_info_job.py:215-220 | a single run of word characters is one word exactly when it holds a letter |
| PdfInfo.ScriptRangesDisjoint | import/src/pdf_info_job.py:223-251 | no code point lies in two ranges of the table, so the order of the tests does not matter |
| PdfInfo.ScriptForCodepointInTable | import/src/pdf_info_job.py:223-251 | a code point in a range of the table gets that range's script |
| PdfInfo.ScriptForCodepointOutside | import/src/pdf_info_job.py:251 | a code point outside every range is `Other` |
| PdfInfo.Bump | import/src/pdf_info_job.py:266-267 | the counter gains the key and keeps all others |
| PdfInfo.CountKeyLe | import/src/pdf_info_job.py:271 | the sort key `(-count, name)` puts a larger count first, then the smaller name |
| PdfInfo.Top | import/src/pdf_info_job.py:263-311 | `max(sorted(counts), key=counts.get)` is a key with the largest count, the least such in name order |
| PdfInfo.ScriptCountsMeaning | import/src/pdf_info_job.py:257-260 | the tally holds exactly the scripts of the word's letters, each with the number of its letters |
| PdfInfo.ScriptCountsEmpty | import/src/pdf_info_job.py:261-262 | the tally is empty exactly when the word has no letter |
| PdfInfo.ScriptForWord | import/src/pdf_info_job.py:255-263 | a word without letters is `Other`; otherwise the majority script of its letters, ties to the alphabetically smallest |
| PdfInfo.Considered | import/src/pdf_info_job.py:308 | the counts considered are exactly those not `Other` and above 0 |
| PdfInfo.InferredLanguage | import/src/pdf_info_job.py:307-312 | `unknown` when nothing is considered; otherwise the language of the top script considered |
| PdfInfo.InferredLanguageIgnoresOther | import/src/pdf_info_job.py:308 | the `Other` count never changes the language |
| PdfInfo.InferredLanguageIgnoresZero | import/src/pdf_info_job.py:308 | nor does a script with a count below 1 |
| PdfInfo.InferredLanguageOfOne | import/src/pdf_info_job.py:307-312 | a single script seen gives its language |
| PdfInfo.SortedCountDict | import/src/pdf_info_job.py:270-271 | the same entries, each key once, by descending count and then by name |
| PdfInfo.BuildFailedInfo | import/src/pdf_info_job.py:445-462 | the error is the stripped message, or `pdf_info_failed` when it is blank; the path is the one given |
| PdfInfo.EmptyInfos | import/src/pdf_info_job.py:425-462 | neither the missing nor the failed info saw a page: no sizes, no image, zero counts and an `unknown` language; they differ only in status, error and path |
| ValidateLedger.ErrorIf | import/src/validate_ledger.py:102-118 | one error issue exactly when the condition holds |
| ValidateLedger.WarningIf | import/src/validate_ledger.py:102-118 | at most one issue, and never an error |
| ValidateLedger.NoErrorsAppend | import/src/validate_ledger.py:102-118 | issues appended one after another are error-free exactly when both runs are |
| ValidateLedger.ZuluToOffset | import/src/validate_ledger.py:139-140 | a trailing `Z` becomes `+00:00`; any other text is unchanged |
| ValidateLedger.ParseIsoTimestamp | import/src/validate_ledger.py:133-144 | only a non-blank string is parsed, as its stripped text with `Z` rewritten |
| ValidateLedger.PartitionIssues | import/src/validate_ledger.py:147-186 | no issue exactly when `partition_for_gr_date` would place the record in this partition; at most one error, and in `unknown` it is `unknown_partition_has_valid_gr_date` |
| ValidateLedger.PartitionOfPlacedRow | import/src/validate_ledger.py:147-186 | a row is valid in the partition the ledger places it in, and gets one error in any other |
| ValidateLedger.CounterIssues | import/src/validate_ledger.py:217-237 | no issue exactly when the counter is an int (a bool passes) in [0, 2] |
| ValidateLedger.AttemptIssues | import/src/validate_ledger.py:189-237 | no issue exactly when `attempt_counts` is an object with the three counters, each an int in [0, 2]; a non-object is one `attempt_counts_not_object` error; every issue is an error, at most four |
| ValidateLedger.AttemptsAcceptedByEngine | import/src/validate_ledger.py:189-237 | counters the validator accepts are counters the ledger engine's own check accepts |
| ValidateLedger.EngineAcceptsMissingCounters | import/src/ledger_engine.py:560-569 | the converse fails: the engine reads a missing counter as 0, where the validator reports four errors |
| ValidateLedger.NotIn | import/src/validate_ledger.py:296-314 | `v not in names` raises TypeError exactly for an unhashable value, and otherwise is true unless `v` is one of the names |
| ValidateLedger.StageObjectIssuesProps | import/src/validate_ledger.py:240-322 | raises only when all three objects are dicts and a status is unhashable; otherwise reports an error exactly when a stage object is not a dict or has a status outside its allowed set, and nothing at all exactly when every expected key is there too |
| ValidateLedger.LfsIssues | import/src/validate_ledger.py:325-352 | no issue exactly when `lfs_path` is None or a non-blank string; at most one error |
| ValidateLedger.MergedLfsPathValid | import/src/validate_ledger.py:325-352 | every `lfs_path` the merged read model shows passes the check |
| ValidateLedger.StateTableProps | import/src/validate_ledger.py:381-539 | the per-state table raises only for a FETCHED record with an unhashable download status, and reports an error exactly when the stage statuses do not meet the state's demands |
| ValidateLedger.StateIssues | import/src/validate_ledger.py:355-371 | an unhashable state raises TypeError; a state outside the allowed set is one `state_invalid` error and ends the check (corrected; see Findings) |
| ValidateLedger.StateIssuesProps | import/src/validate_ledger.py:355-539 | the state check raises only TypeError, and reports no error exactly when the state is allowed and its stage demands are met |
| ValidateLedger.StateIssuesAsWritten | import/src/validate_ledger.py:373-379 | when every stage entry is a dict or missing, the check as written agrees with the corrected one |
| ValidateLedger.NullDownloadRaises | import/src/validate_ledger.py:373-376 | a FETCHED record whose `download` is null: the stage check lists an error, the state check as written raises AttributeError, and the corrected check carries on |
| ValidateLedger.DateIssuesProps | import/src/validate_ledger.py:542-617 | raises exactly on an unhashable run type or a naive and an aware timestamp compared; otherwise reports an error exactly when a crawl date is invalid, they are out of order, the run type is neither daily nor monthly, or a timestamp does not parse; `created > updated` is only a warning |
| ValidateLedger.StampedDatesValid | import/src/validate_ledger.py:542-617 | a record stamped as the ledger engine stamps one has no date error |
| ValidateLedger.Bump | import/src/validate_ledger.py:769-771 | `state_counts[state] += 1` adds one to that state and leaves the others |
| ValidateLedger.CodeCheck | import/src/validate_ledger.py:693-718 | a blank or non-string code is one error; a code seen before is one `duplicate_unique_code` error; a new code is remembered with its place, and earlier places are kept |
| ValidateLedger.CheckLineExtends | import/src/validate_ledger.py:652-656 | a blank line changes nothing and is not counted; any other is counted once and its issues follow the earlier ones |
| ValidateLedger.CheckLineSkips | import/src/validate_ledger.py:657-691 | a line that does not decode to an object holding every required field gets exactly one error and no further check |
| ValidateLedger.DuplicateReported | import/src/validate_ledger.py:704-716 | a record whose code was seen earlier gets the duplicate error, and the first place is kept |
| ValidateLedger.FrontIssuesErrors | import/src/validate_ledger.py:693-729 | the code and URL checks report no error exactly when the code is a new non-blank string |
| ValidateLedger.RecordIssuesErrors | import/src/validate_ledger.py:693-767 | a record the checks get through without raising adds no error exactly when it is valid (corrected; see Findings) |
| ValidateLedger.ScanLinesExtends | import/src/validate_ledger.py:651-771 | a file's scan keeps what came before and counts exactly its non-blank lines |
| ValidateLedger.JsonlNames | import/src/validate_ledger.py:626 | the names ending in `.jsonl`, each once, in code-point order |
| ValidateLedger.ValidateFile | import/src/validate_ledger.py:638-771 | the loop over one file: a bad file name is one error, otherwise each line in turn (corrected; see Findings) |
| ValidateLedger.ErrorPersists | import/src/validate_ledger.py:651-771 | once a line raises, the scan of every longer prefix raises the same |
| ValidateLedger.FileErrorPersists | import/src/validate_ledger.py:638-771 | once a file raises, the scan of every longer list of files raises the same |
| ValidateLedger.ValidateLedgerDir | import/src/validate_ledger.py:620-773 | the loop over the sorted partition files gives the run's issues, state counts and record total (corrected; see Findings) |
| ValidateLedger.ScanFilesExtends | import/src/validate_ledger.py:620-773 | the run keeps every earlier issue and first place, and `total_records` counts the non-blank lines of the well-named files |
| ValidateLedger.CountLevelZero | import/src/validate_ledger.py:783-784 | there are no issues of a severity exactly when none has it |
| ValidateLedger.ExitCode | import/src/validate_ledger.py:815-830 | 1 exactly on an error; 2 exactly when there is none, warnings fail the run and there is a warning; 0 otherwise |
| ValidateLedger.EmptyLedgerFails | import/src/validate_ledger.py:626-636 | a directory without a partition file gives one error, no records, and exit code 1 |

## Left out

- Disk I/O: a partition file is its list of decoded rows. `_write_partition`'s write to a temporary file followed by a rename is one assignment of the partition's rows, so a crash between the two steps is not modelled.
- JSON encoding and decoding: the text of a JSONL line is not modelled. Where a job reads a line, the decoder is a function parameter that yields a value or an error.
- Floating-point numbers: a JSON value is null, a boolean, an integer, a string, a list or an object. The float branches of `_as_int`/`_to_int` are left out, because Dafny has no IEEE doubles.
- build_baseline_ledger's `parse_int`, `parse_size_bytes` and its own `parse_datetime_utc` are function parameters of the build (`BuildBaseline.Env`). None of their branches is modelled, the integer ones included: the build relies on them only for the values they return.
- InfoStore's `_is_partition_allowed` filter: the store is always opened on all partitions. A store opened on a subset of years, and the writes it refuses, are therefore not modelled.
- Unicode NFKD decomposition in `department_codes.py:46-48` and in the slug helper of the infos migration: the model keeps only the ASCII characters of the text as given. An accented letter is dropped rather than decomposed to its base letter.
- Character classes: `str.isdigit` and `\d` are taken to be ASCII-only. The Unicode classes `\w` (the word pattern of pdf_info_job) and `str.isalpha` are the predicate parameters `word` and `alpha` of `PdfInfo.ExtractWords`. Which characters are in Unicode's `Cf` category (used by `clean_text`) is a predicate parameter too.
- Infos.ToInt: `int()` of text is modelled by `Py.ParseInt`. That reads an optional sign and ASCII digits, with single underscores allowed between digits. Python's `int()` also reads the other Unicode decimal digits (such as `"٥"`), for which the model gives the default.
- PdfInfo.SafeInt: the same `int()` of text as `Infos.ToInt`, so a numeral in non-ASCII decimal digits gives the default in the model.
- PrunePdfInfo.IntOrNone: `isdigit()` and `int()` are taken over ASCII digits, so a numeral in other Unicode decimal digits gives None in the model where `_int_or_none` reads it.
- Case mapping: `str.lower()` is taken to be ASCII lowering. This applies to `PdfInfo.NormalizeFontName` and to migrate_infos' `code_raw.lower()`, among others. A non-ASCII letter keeps its case, so `"É"` is not lowered to `"é"`.
- `datetime.strptime("%Y-%m-%d")` and `date.fromisoformat`: both are written out as hand-made parsers that follow CPython's accepted forms. Other formats and time zones are not modelled.
- `str()` of a value: exact for null, booleans, integers and strings. A non-empty list or dict prints as `[...]` / `{...}`, since only its emptiness matters to the callers.
- The clock, file-existence probes, `sha1`, `urllib.parse.unquote` and `to_ledger_relative_path` are function parameters; their properties are not modelled.
- `update_many`'s `RecordNotFound` checks for an index entry that points at the wrong row: with the index invariant proved exact, that case cannot arise and is not modelled.
- prune_pdfinfo_fields: `_process_file` (reading, rewriting and renaming one JSONL file) and `run_from_args` are file and argument handling around `ScrubRow`, and are left out.
- migrate_infos: the write and commit phase (writing the three namespace files and swapping directories) is left out. The planning of every row is modelled.
- gr_site: these are left out as network and HTML handling: `normalize_rows`, `parse_datetime_utc`, `parse_crawl_date`, `run_weekly` and the download stage. The pages a crawl fetches are inputs.
- build_baseline_ledger: these are file and console I/O and are left out: `read_json_rows`, `existing_stage_files`, `write_partitions`, `atomic_write_text` and the printing in `run_from_args`.
- job_utils: `load_code_filter`'s file and JSON reading, `sha1_file` and `print_stage_report` are left out as I/O.
- import_pdfs: `iter_pdf_files` is replaced by the list of paths it would yield. `_run_hf_sync` and the argument parser are left out.
- backfill_hf_path: `_list_remote_pdf_paths` (`backfill_hf_path.py:127-139`) lists the remote repository. Its result is the `pdfPaths` input of `RunBackfill`, so three things are not modelled: the `.pdf` filter, the sort, and the RuntimeError raised when the listing fails.
- sync_hf: these touch the file system or the remote and are left out: `resolve_hf_repo_path`, `_iter_upload_targets`, `_run_upload`, `_run_download`, `_upload_target`, `_verify_remote_targets`, `_env_int` and `_count_files`.
- import_config's `_find_config_file` and local_env's `_find_env_file` search the file system. Their result is an input.
- pdf_info: `extract_pdf_info`, the PyMuPDF calls and `run_pdf_info` read PDF files and are left out. The rows they produce are inputs.
- validate_ledger: `print_report`'s output is left out. The report's issue lists and counts are modelled.
- DepartmentCodes.RoundTrip: proved for any table whose normalised names are distinct, already stripped and not themselves codes. That the fixed 33-entry table meets this is not proved, because evaluating the name normaliser on its 33 literal names is too costly for the verifier.
- The lifecycle table is taken from `ledger_engine.py:56-90`. There `ARCHIVE_UPLOADED_WITHOUT_DOCUMENT` may still move on to `DOWNLOAD_SUCCESS`, `DOWNLOAD_FAILED` and the archived-with-document states, so it is not a final state.

## Findings

| source | as written | input that shows it | evidently intended | confidence | as-written member | corrected member |
|---|---|---|---|---|---|---|
| import/src/ledger_engine.py:385-404 | an insert by `upsert` looks the record up under the stripped code, but applying the record copies its raw `unique_code` over the stripped one | upsert `{unique_code: " 1 "}` twice: the row is stored and indexed under `" 1 "`, the second lookup of `"1"` misses, and a second row is inserted | the row is stored under the stripped code it was looked up by, so a second upsert updates it | not executed | LedgerEngine.AsWrittenStoresPaddedCode | LedgerEngine.LedgerStore.Upsert |
| import/src/onetime/prune_pdfinfo_fields.py:70-72 | `_scrub_font_obj` sets the change flag for every `word_count` or `words` key it pops, even when the font comes out unchanged | a row `{fonts: {F: {word_count: 5}}}` is reported changed and counted in `fonts_updated` | the flag is set only when the font really changes, so a re-run over pruned files reports nothing | not executed | PrunePdfInfo.AsWrittenReportsUnchangedFont | PrunePdfInfo.ScrubRow |
| import/src/build_baseline_ledger.py:309-312 | a successful archive upload gives `ARCHIVE_UPLOADED_WITH_WAYBACK_URL` whenever the Wayback link succeeded, whether or not a URL was found | a wayback row with `link_success` true and no `archive_url`, for a code whose archive upload succeeded: the record has a blank `wayback.url`, which the validator reports as an error | the state says "with Wayback URL" only when there is a URL, so every record the build writes passes the validator | not executed | BuildBaseline.LinkOnlyWaybackRejected | BuildBaseline.BaselineRecordValid |
| import/src/validate_ledger.py:373-376 | the state check calls `.get` on the download stage entry without checking that it is a dict | a `FETCHED` record whose `download` is `null`: the stage check lists the error, then the state check raises AttributeError and the run stops | the state check treats a non-dict stage like a missing one and goes on, since the stage check already reports it | not executed | ValidateLedger.NullDownloadRaises | ValidateLedger.StateIssuesProps |
