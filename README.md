# ORA preservation sync and datamodel helpers, modelled in Dafny

This project models two parts of the ORA repository application.

**The DPS engine `ORA::DPS` (lib/ora/dps.rb).** It copies one repository
object into a Fedora 6 archive (the DPS, the digital preservation service),
all inside one transaction:

- it creates the archival container when it is absent;
- it lists the binaries already archived, leaving out the two metadata files;
- it writes the object's metadata JSON, and the DataCite XML only when the
  object has a public URL;
- it uploads each binary from the first source that applies: the pair-tree
  path on disk, the path named by a file-by-reference, or the original content;
- it deletes every archived binary that is no longer a file set of the object;
- it commits, then polls the transaction status. A 410 reply (section 15.5.11
  of RFC 9110) means committed; a 204 reply (section 15.3.5 of RFC 9110)
  means still pending.

The Fedora store is the class `Fedora.Store`. It has a committed archive, the
archive the open transaction stages, the transaction state, and the status
codes it will answer to the next polls, as an input sequence. A 410 reply
applies the staged archive; a rollback discards it.

- `DpsSyncSpec` states what one run of the `save` begin-block does, as a
  function.
- `DpsCommit` states the commit poller, both as written and corrected.
- `DpsEngine` holds the methods on the store, each proved against those
  functions.

The poller as written has four defects, listed under "## Findings". The
model keeps them in `DpsCommit.AsWrittenCommit`,
`DpsCommit.CommitTransactionAsWritten` and `DpsEngine.Save`. The corrected
poller is `DpsCommit.Commit`, `DpsCommit.CommitTransaction` and
`DpsEngine.SaveCorrected`.

**The datamodel helpers of `DataModelObject`
(app/models/concerns/data_model_object.rb).** These are:

- the in-place hash clean-ups `remove_blank_values` and `clean_object_metadata`;
- the recursive key sort `sort_hash`;
- the binary-file key rewrites on export and on import;
- where an imported binary is read from (`interpret_binary_file_path_from_source`);
- the import decisions: the work identifier, `generate_uuid`, the default
  `date_modified`, and the history entries `set_sipity_entity_and_tagging`
  takes the modification date, the responsible user, the tag and the
  workflow action from.

**How Ruby values are modelled.**

- A Ruby hash is an association list (`RubyValue.Entries`) with distinct keys,
  because `sort_hash` and the key-by-key loops depend on insertion order.
  Hashes the source mutates in place are objects of `RubyValue.RubyHash`.
- Rails `blank?` is `RubyValue.Blank`. It holds for `nil`, `false`, strings
  made only of Unicode white space (`RubyText.IsBlankChar`), and empty arrays
  and hashes; integers are never blank.
- `||` tests truthiness (`RubyValue.Truthy`), not presence.
- Every error the Ruby code would raise is an `Exceptions.Exception` in a
  `Result`: a call on `nil`, a string given to `to_a`, a non-string given to
  `File.exists?`, and so on.
- The file system and URL checks are inputs: `disk`, `files` and `urls` are
  the paths that exist.

**Where the code and its description differ, the model follows the code.**

- Blank strings include strings of Unicode white space such as U+00A0, as in
  Rails.
- `interpret_binary_file_path_from_source` raises rather than returning `''`
  in three cases:
  - a present `file_path` that is not a string;
  - a present `file_sha1` that is not a string;
  - a digest with no `:`-separated field.
- `split(" ")` of a tag description splits on runs of ASCII white space
  (`RubyText.IsSpace`).
- An empty-string `pid` is kept, because `||` tests truthiness
  (`DatamodelImport.EmptyPidKept`).
- A `history` given as a hash goes through `Hash#select`: `{}` reads as an
  empty history (`DatamodelImport.EmptyHashHistory`), and a non-empty hash
  raises `TypeError`, because its keys are symbols.

## Model

| member | source | states |
|---|---|---|
| DpsNaming.Initialize | lib/ora/dps.rb:21-27 | an instance is built exactly when `enabled` is present, else a DPSException "DPS is not enabled"; its base URL is `https://server:port/root_path` |
| DpsNaming.ObjectMetadataJsonFile | lib/ora/dps.rb:97-99 | the name of the metadata JSON is the uuid followed by exactly `.metadata.ora.v2.json` |
| DpsNaming.PublicMetadataDataciteFile | lib/ora/dps.rb:101-103 | the name of the DataCite XML is the uuid followed by exactly `.public_metadata.datacite.v4.xml` |
| DpsNaming.MetadataFileNames | lib/ora/dps.rb:97-103 | the JSON and DataCite names never coincide for any two uuids, and each name determines its uuid |
| DpsNaming.ShardedPath | lib/ora/dps.rb:169-171 | the pair-tree path fails exactly when the digest has fewer than four characters (a nil slice given to `File.join`) |
| DpsNaming.ShardedPathShape | lib/ora/dps.rb:169-171 | for a digest of six or more characters the path is `root/h[0,2]/h[2,2]/h[4,2]/h` |
| DpsNaming.ShardedPathInjective | lib/ora/dps.rb:169-171 | two digests of six or more characters share a path only if they are equal |
| DpsNaming.ParseFileSet | lib/ora/dps.rb:167-177 | the entry for one file set keeps its id and mime type and has local and remote paths sharded from the second `:` field of the digest; it fails when that field is missing or too short |
| DpsNaming.DigestSha1OfSha1Path | lib/ora/dps.rb:167-168 | for a digest `sha1:h` with no colon in `h`, the digest taken is `h` |
| DpsNaming.ParseAll | lib/ora/dps.rb:163-180 | `parse_binary_files` as a function: the file sets' entries in order, or the first error; its meaning is stated by `ParseAllOk`, `ParseAllEntries` and `ParseAllFirstError` below |
| DpsNaming.ParseAllSnoc | lib/ora/dps.rb:165-179 | one more file set extends the parse by its entry, or ends it with its error |
| DpsNaming.ParseAllStops | lib/ora/dps.rb:165-179 | once a prefix of the file sets fails, the whole parse fails with that error |
| DpsNaming.ParseAllOk | lib/ora/dps.rb:163-180 | `parse_binary_files` succeeds exactly when every file set parses |
| DpsNaming.ParseAllEntries | lib/ora/dps.rb:163-180 | a successful parse has one entry per file set, in order, each the entry of that file set |
| DpsNaming.ParseAllFirstError | lib/ora/dps.rb:163-180 | a failed parse raises the error of a file set all of whose predecessors parse |
| DpsNaming.ListMinus | lib/ora/dps.rb:151 | array difference holds exactly the elements of the first list that are not in the second, and is no longer than the first |
| DpsNaming.ListMinusCount | lib/ora/dps.rb:151 | an element not in the second list occurs in the difference exactly as often as in the first; one in the second list not at all |
| DpsNaming.ListMinusAppend | lib/ora/dps.rb:151 | the difference of a concatenation is the concatenation of the differences, so the kept elements stay in the first list's order |
| DpsNaming.ListMinusSingle | lib/ora/dps.rb:151 | a one-element list keeps its element exactly when the second list lacks it |
| DpsNaming.LastSegment | lib/ora/dps.rb:149 | `split("/").last` of a child URI, with the empty name for Ruby's `nil`; `LastSegmentOfChild` gives its value on `container/name` |
| DpsNaming.LastSegmentOfChild | lib/ora/dps.rb:149 | the last `/` segment of `container/name` is `name` for a single-segment name |
| DpsNaming.ChildNames | lib/ora/dps.rb:148-149 | one name per child URI, in order, each its last segment |
| DpsNaming.OcflBinaryFiles | lib/ora/dps.rb:146-152 | empty for an absent container; otherwise the child names less the two metadata names, so a metadata file is never a binary |
| DpsNaming.FormatFields | lib/ora/dps.rb:66 | the documented `file_format` splits on `;` into its three fields |
| DpsNaming.UrlQuoted | lib/ora/dps.rb:67 | the last `"` segment of `url="<full>"` is `<full>` |
| DpsNaming.FileScheme | lib/ora/dps.rb:68 | the text after `file://` in `file://<path>` is `<path>` |
| DpsNaming.ReferencePath | lib/ora/dps.rb:66-68 | a `file_format` with fewer than three `;` fields raises (`nil.split`); a path it gives is never empty; `ReferencePathOfFileUrl` gives the path of the documented form |
| DpsNaming.ReferencePathOfFileUrl | lib/ora/dps.rb:64-68 | a file by reference in the documented form is streamed from the path in its URL |
| DpsSyncSpec.IdList | lib/ora/dps.rb:155 | the ids of the files, one per file, in order |
| DpsSyncSpec.Sync | lib/ora/dps.rb:37-81 | the begin-block as a function: container and metadata, then the uploads, then the deletes, the first error ending the run; what the run leaves is stated by the `Sync…` lemmas below |
| DpsSyncSpec.BinarySource | lib/ora/dps.rb:57-75 | the on-disk path with the file's mime type wins; else a file by reference streams its referenced path as application/octet-stream (or fails as its parsing does); else the original content |
| DpsSyncSpec.UploadOne | lib/ora/dps.rb:55-75 | one turn of the upload loop: a skipped file leaves the container, otherwise its source is written under its id or the error is raised; `UploadOneEffect` states the key change |
| DpsSyncSpec.UploadOneEffect | lib/ora/dps.rb:55-75 | one turn adds exactly the file's id unless the file is skipped, and every other name keeps its payload |
| DpsSyncSpec.UploadAll | lib/ora/dps.rb:53-77 | the upload loop over the file sets in order, the first error ending it; its meaning is stated by `UploadAllEffect` and `UploadAllPayload` |
| DpsSyncSpec.UploadAllEffect | lib/ora/dps.rb:53-77 | after the upload loop the container holds its old names plus exactly the uploaded ids, and every name not uploaded keeps its payload |
| DpsSyncSpec.UploadAllPayload | lib/ora/dps.rb:53-77 | with distinct ids, every file not skipped holds what its source gives |
| DpsSyncSpec.DeleteAll | lib/ora/dps.rb:157-160 | the delete loop of `remove_deleted_files`, the first failed delete ending it; its meaning is stated by `DeleteAllEffect` and `DeleteAllSucceeds` |
| DpsSyncSpec.DeleteAllEffect | lib/ora/dps.rb:157-160 | a delete loop with no error removes exactly the listed names, each of which was present and deletable |
| DpsSyncSpec.DeleteAllSucceeds | lib/ora/dps.rb:157-160 | distinct names that are all present and deletable are all deleted without error |
| DpsSyncSpec.WithMetadata | lib/ora/dps.rb:38-51 | the container once it exists and its metadata is written, or the error of the step that failed; what it holds is stated by `WithMetadataKeys` |
| DpsSyncSpec.WithMetadataKeys | lib/ora/dps.rb:38-51 | after the container and metadata step, the JSON is written, the DataCite file is written exactly when the public URL is present, and every archived binary is kept as it was |
| DpsSyncSpec.IdListSet | lib/ora/dps.rb:155 | the set of listed ids is the set of the files' ids |
| DpsSyncSpec.NotUploadedIsArchived | lib/ora/dps.rb:55 | the uploaded ids are ids of the files, and a file that is not uploaded is already archived |
| DpsSyncSpec.SyncLeavesDesiredBinaries | lib/ora/dps.rb:37-81 | after a run with no error, the container's names other than the two metadata files are exactly the object's file-set ids |
| DpsSyncSpec.SyncWritesMetadata | lib/ora/dps.rb:45 | after a run with no error the metadata JSON is in the container with the object's JSON |
| DpsSyncSpec.SyncPublicMetadata | lib/ora/dps.rb:48-51 | the DataCite file is written when the public URL is present; when it is blank, a DataCite file archived earlier stays and none is added |
| DpsSyncSpec.SyncUploads | lib/ora/dps.rb:53-77 | a skipped file keeps its archived content; every other file holds what its source gives |
| DpsSyncSpec.ResyncUploadsNothing | lib/ora/dps.rb:53-55 | a second run without `update_files` on what the first run left uploads nothing |
| DpsSyncSpec.SyncDeletes | lib/ora/dps.rb:78 | what is deleted is the archived binaries that are not file sets of the object, whatever `update_files` is |
| Fedora.Store.Begin | lib/ora/dps.rb:33 | a fresh transaction that stages the committed archive |
| Fedora.Store.Children | lib/ora/dps.rb:148 | the names of an existing committed container, each exactly once |
| Fedora.Store.CreateContainer | lib/ora/dps.rb:39 | stages an empty container exactly when the transaction is open, the container is absent and the name is not refused |
| Fedora.Store.Write | lib/ora/dps.rb:58 | stages the payload under the name unless the store refuses it |
| Fedora.Store.Delete | lib/ora/dps.rb:159 | stages the removal of a present name unless the store refuses it |
| Fedora.Store.Commit | lib/ora/dps.rb:109 | the request succeeds unless the store refuses commits, and then marks an open transaction as requested |
| Fedora.Store.Status | lib/ora/dps.rb:111 | consumes the next reply; a 410 to a requested commit applies the staged archive |
| Fedora.Store.Rollback | lib/ora/dps.rb:116 | discards the staged archive unless the transaction is already committed |
| DpsCommit.AsWrittenCommit | lib/ora/dps.rb:105-130 | the poller as written returns normally exactly when the commit request succeeds, the cap is not passed and the first reply is 410; it polls at most once and only rolls back when it raises `NoMethodError` |
| DpsCommit.PendingReplyEscapesWithoutRollback | lib/ora/dps.rb:120-123 | a 204 reply ends in `NoMethodError` for `transaction_commit`, with no retry and no rollback |
| DpsCommit.FailureReplyRaisesNoMethodError | lib/ora/dps.rb:124-128 | a failure code is rolled back but raises `NoMethodError`, not the intended DPSException |
| DpsCommit.CapIgnoresCommittedStatus | lib/ora/dps.rb:113-117 | past the cap even a 410 reply is rolled back and raised |
| DpsCommit.CommitErrorEscapesWithoutRollback | lib/ora/dps.rb:108-112 | a commit request that raises escapes without a rollback |
| DpsCommit.Commit | lib/ora/dps.rb:105-130 | the corrected poller raises exactly when it rolls back; what it raises is the failed-commit DPSException, the timeout DPSException or the status-fetch error, never a `NoMethodError`; it makes no more polls than there are replies or than the cap allows |
| DpsCommit.FailureReplyRollsBack | lib/ora/dps.rb:124-128 | before the cap, a failure status is rolled back after one poll and raises the failed-commit DPSException |
| DpsCommit.CommitSucceedsIff | lib/ora/dps.rb:105-130 | the corrected poller returns normally exactly when a 410 arrives after at most six 204 replies |
| DpsCommit.PendingExhaustsRetries | lib/ora/dps.rb:113-123 | seven 204 replies in a row give a rollback and the timeout after seven polls |
| DpsCommit.CommitTransactionAsWritten | lib/ora/dps.rb:105-130 | on the store, raises what `AsWrittenCommit` says; it applies the staged archive exactly on a first 410 after a successful request, and rolls back exactly when `AsWrittenCommit` does |
| DpsCommit.CommitTransaction | lib/ora/dps.rb:105-130 | the polling loop on the store matches `Commit`; on success the staged archive is committed, otherwise the committed archive is unchanged and the transaction is rolled back |
| DpsEngine.ParseBinaryFiles | lib/ora/dps.rb:163-180 | the loop returns exactly `ParseAll` of the file sets, so the three `ParseAll` lemmas above describe its result |
| DpsEngine.RemoveDeletedFiles | lib/ora/dps.rb:154-161 | deletes, in the transaction, exactly the archived binaries that are not file sets, and returns that list; otherwise the first delete error |
| DpsEngine.DeleteAllStops | lib/ora/dps.rb:157-160 | once a delete fails, the later deletes do not change the outcome |
| DpsEngine.UploadAllStops | lib/ora/dps.rb:53-77 | once an upload fails, the later uploads do not change the outcome |
| DpsEngine.GetOcflBinaryFiles | lib/ora/dps.rb:146-152 | the names returned are the committed binaries of the container, without the metadata files |
| DpsEngine.WriteMetadata | lib/ora/dps.rb:38-51 | the staged container is the one `WithMetadata` describes, or the same error |
| DpsEngine.UploadBinaries | lib/ora/dps.rb:53-77 | the staged container is the one `UploadAll` describes, or the same error |
| DpsEngine.Sync | lib/ora/dps.rb:37-81 | the begin-block stages exactly the container `DpsSyncSpec.Sync` describes and returns the deleted names, or the same error |
| DpsEngine.SaveTransaction | lib/ora/dps.rb:33-91 | the begin-block as written: a sync error is rolled back and gives false with the archive unchanged; otherwise true and the synced container committed, or the exception `AsWrittenCommit` raises with the archive unchanged |
| DpsEngine.Save | lib/ora/dps.rb:29-95 | as written: a `parse_binary_files` error escapes with the store untouched; otherwise `files` is the parse; a sync error is rolled back and gives false with the archive unchanged; after a sync the outcome is that of `AsWrittenCommit`: true with the synced container committed, or its exception escaping with the archive unchanged |
| DpsEngine.SaveTransactionCorrected | lib/ora/dps.rb:33-91 | the begin-block with the corrected poller: false after a rolled-back sync error; otherwise committed with the synced container exactly when `Commit` returns normally, and rolled back with the archive unchanged when it raises |
| DpsEngine.SaveCorrected | lib/ora/dps.rb:29-95 | with the corrected poller: a parse error escapes with the store untouched; true is returned exactly when the parse, the sync and `Commit` succeed, and the archive then holds the synced container; on every other outcome after the parse the archive is unchanged and the transaction is rolled back |
| RubyValue.Blank | app/models/concerns/data_model_object.rb:336-338 | Rails `blank?` holds of `nil`, `false`, a string made only of Unicode white space, and an empty array or hash, and never of an integer |
| DatamodelHash.RejectBlank | app/models/concerns/data_model_object.rb:336 | keeps exactly the present elements, and changes nothing when all are present; `RejectBlankCount` and `RejectBlankAppend` give multiplicity and order |
| DatamodelHash.RejectBlankCount | app/models/concerns/data_model_object.rb:336 | each present value is kept as often as it occurs and each blank one is dropped entirely |
| DatamodelHash.RejectBlankAppend | app/models/concerns/data_model_object.rb:336 | rejecting distributes over concatenation, so the kept elements stay in their order |
| DatamodelHash.Kept | app/models/concerns/data_model_object.rb:335-338 | the value left under a key is present, or the key is gone |
| DatamodelHash.WithoutBlanks | app/models/concerns/data_model_object.rb:333-341 | the hash `remove_blank_values` leaves, its keys visited in order; its meaning is stated by `WithoutBlanksHasKey`, `WithoutBlanksLookup`, `WithoutBlanksNoBlanks` and `RemoveBlankValuesIdempotent` |
| DatamodelHash.RemoveBlankValues | app/models/concerns/data_model_object.rb:333-341 | changes the hash in place to its cleaned form and returns the same object |
| DatamodelHash.CleanKey | app/models/concerns/data_model_object.rb:334-339 | one loop turn cleans exactly the current key and leaves the rest as it was |
| DatamodelHash.CleanArray | app/models/concerns/data_model_object.rb:335-337 | an array under the current key loses its blank elements; no other entry changes |
| DatamodelHash.DropIfBlank | app/models/concerns/data_model_object.rb:338 | the current key is deleted exactly when its cleaned value is blank; no other entry changes |
| DatamodelHash.CleanPrefixSnoc | app/models/concerns/data_model_object.rb:334-339 | the cleaned prefix grows by exactly the current entry's cleaned form |
| DatamodelHash.CleanPrefixFresh | app/models/concerns/data_model_object.rb:334-339 | the key being cleaned does not occur in the already-cleaned prefix, because the keys are distinct |
| DatamodelHash.CleanPrefixJoin | app/models/concerns/data_model_object.rb:334-339 | once the current entry is replaced by its cleaned form, the hash equals the cleaned prefix one entry longer followed by the untouched rest |
| DatamodelHash.KeyNotBefore | app/models/concerns/data_model_object.rb:334 | in a hash with distinct keys, a key is not among the keys before it |
| DatamodelHash.WithoutBlanksHasKey | app/models/concerns/data_model_object.rb:333-341 | a key survives exactly when an entry under it has a present cleaned value; only keys of the hash survive |
| DatamodelHash.WithoutBlanksLookup | app/models/concerns/data_model_object.rb:333-341 | each surviving key holds its value with blank array elements removed; keys stay distinct |
| DatamodelHash.CleanEntryLookup | app/models/concerns/data_model_object.rb:334-339 | visiting one more key adds at most that key, with its cleaned value, and keeps the keys distinct |
| DatamodelHash.WithoutBlanksAscending | app/models/concerns/data_model_object.rb:333-341 | cleaning keeps the key order |
| DatamodelHash.WithoutBlanksNoBlanks | app/models/concerns/data_model_object.rb:333-341 | nothing blank is left, not even inside an array |
| DatamodelHash.WithoutBlanksOfClean | app/models/concerns/data_model_object.rb:333-341 | a hash with nothing blank is unchanged |
| DatamodelHash.RemoveBlankValuesIdempotent | app/models/concerns/data_model_object.rb:333-341 | cleaning twice is cleaning once |
| DatamodelHash.Insert | app/models/concerns/data_model_object.rb:357 | one sorting step is a permutation that adds the entry |
| DatamodelHash.SortHash | app/models/concerns/data_model_object.rb:354-363 | the rebuilt hash has one entry per entry of the hash; its keys, values and order are the `SortHash…` lemmas below |
| DatamodelHash.SortValue | app/models/concerns/data_model_object.rb:358 | a value that is not a hash is stored unchanged |
| DatamodelHash.InsertLookup | app/models/concerns/data_model_object.rb:357-358 | inserting adds exactly the entry's key and keeps every other key's value |
| DatamodelHash.SortHashLookup | app/models/concerns/data_model_object.rb:354-363 | keeps every key once, with its value, sorted if it is a hash |
| DatamodelHash.InsertDistinct | app/models/concerns/data_model_object.rb:357 | inserting a new key keeps the keys distinct |
| DatamodelHash.InsertAscending | app/models/concerns/data_model_object.rb:357 | inserting into ascending keys stays ascending |
| DatamodelHash.SortHashAscending | app/models/concerns/data_model_object.rb:354-363 | top-level keys come out in ascending `String#<=>` order |
| DatamodelHash.InsertNested | app/models/concerns/data_model_object.rb:358 | inserting keeps every nested hash sorted |
| DatamodelHash.SortHashDeepSorted | app/models/concerns/data_model_object.rb:354-363 | keys are ascending at every nested-hash level |
| DatamodelHash.SortHashOfSorted | app/models/concerns/data_model_object.rb:354-363 | a hash already sorted at every level is rebuilt unchanged |
| DatamodelHash.SortedTail | app/models/concerns/data_model_object.rb:354-363 | the rest of a sorted hash is sorted and its first key is above the head key |
| DatamodelHash.InsertBeforeHead | app/models/concerns/data_model_object.rb:354-363 | an entry whose key is below the first key goes to the front |
| DatamodelHash.SortHashIdempotent | app/models/concerns/data_model_object.rb:354-363 | sorting twice is sorting once |
| DatamodelClean.HyraxClassName | app/models/concerns/data_model_object.rb:228-247 | the fourteen datamodel types and their Hyrax classes, nothing else mapped; `RecordRoundTrip` states that only `Record` maps to `UniversalTestObject` |
| DatamodelClean.First | app/models/concerns/data_model_object.rb:367 | `first` fails exactly on nil, booleans and integers, and takes an array's first element |
| DatamodelClean.CleanedMetadata | app/models/concerns/data_model_object.rb:365-381 | the clean-up fails exactly when the title has no `first` |
| DatamodelClean.CleanObjectMetadata | app/models/concerns/data_model_object.rb:365-381 | cleans the hash in place to `CleanedMetadata`, or raises its error |
| DatamodelClean.RenameAll | app/models/concerns/data_model_object.rb:368-373 | the rename loop over a table, entry by entry in table order; its meaning is stated by `RenameFieldLookup` and `RenamedLookup` |
| DatamodelClean.DropAll | app/models/concerns/data_model_object.rb:374-376 | the admin loop over a list of fields in order; its meaning is stated by `DropLookup` and `DroppedLookup` |
| DatamodelClean.WithRecordType | app/models/concerns/data_model_object.rb:377-379 | the `UniversalTestObject` rewrite; its meaning is stated by `WithRecordTypeLookup` |
| DatamodelClean.RenameField | app/models/concerns/data_model_object.rb:369-372 | one rename turn; its meaning is stated by `RenameFieldLookup` |
| DatamodelClean.DropIfPresent | app/models/concerns/data_model_object.rb:375 | one admin-field turn; its meaning is stated by `DropLookup` |
| DatamodelClean.ExportTypeOfWork | app/models/concerns/data_model_object.rb:377-379 | `UniversalTestObject` becomes `Record`, every other value is kept; `RecordRoundTrip` relates it to the import table |
| DatamodelClean.Staged | app/models/concerns/data_model_object.rb:366-376 | the hash after the title, rename and admin steps; its meaning is stated by `StagedLookup` |
| DatamodelClean.RenameFields | app/models/concerns/data_model_object.rb:368-373 | the rename loop leaves the hash equal to `RenameAll` of the old hash over the whole table |
| DatamodelClean.DeleteAdminFields | app/models/concerns/data_model_object.rb:374-376 | the admin loop leaves the hash equal to `DropAll` of the old hash over the whole table |
| DatamodelClean.RecordRoundTrip | app/models/concerns/data_model_object.rb:242 | only `Record` maps to `UniversalTestObject`, which exports as `Record`; other types export unchanged |
| DatamodelClean.RenameFieldLookup | app/models/concerns/data_model_object.rb:369-372 | a present old key moves to its new key and is removed; other keys are unchanged |
| DatamodelClean.DropLookup | app/models/concerns/data_model_object.rb:375 | a present field is deleted; others are unchanged |
| DatamodelClean.TablesUnrolled | app/models/concerns/data_model_object.rb:212-226 | the rename and admin loops are the three renames and four deletions of the tables, in table order |
| DatamodelClean.RenamedLookup | app/models/concerns/data_model_object.rb:368-373 | after the renames each new key holds its old key's present value, and each present old key is gone |
| DatamodelClean.DroppedLookup | app/models/concerns/data_model_object.rb:374-376 | after the admin loop no admin field holds a present value |
| DatamodelClean.StagedLookup | app/models/concerns/data_model_object.rb:366-376 | after the title, rename and admin steps: the title holds its first element, the renames and deletions hold per key, other keys are unchanged, keys stay distinct |
| DatamodelClean.WithRecordTypeLookup | app/models/concerns/data_model_object.rb:377-379 | only `type_of_work` changes, and only from `UniversalTestObject` to `Record`; the key set is unchanged |
| DatamodelClean.CleanedMetadataLookup | app/models/concerns/data_model_object.rb:365-381 | per key: the title's first element, the renames, the admin deletions, `Record` for `UniversalTestObject`, and every other key unchanged |
| DatamodelBinary.InterpretBinaryFilePath | app/models/concerns/data_model_object.rb:263-288 | the path is `''`, an existing file, an existing URL, or the DPS URL of the file set; a present `file_path` that is not a string raises (`File.exists?` on a non-string) |
| DatamodelBinary.DpsBinaryUrl | app/models/concerns/data_model_object.rb:273-275 | the DPS URL starts with `https://` and ends with `/` and the file-set identifier |
| DatamodelBinary.Fedora4BinaryPath | app/models/concerns/data_model_object.rb:280-281 | the Fedora 4 path starts with the local root and `/` and ends with `/` and the digest; `Fedora4PathIsShardedPath` gives its whole shape |
| DatamodelBinary.Fedora4PathIsShardedPath | app/models/concerns/data_model_object.rb:279-281 | the Fedora 4 path is the pair-tree path the DPS engine builds |
| DatamodelBinary.DigestPath | app/models/concerns/data_model_object.rb:276-284 | the digest branch gives `''` for a blank digest; it raises exactly when the digest is not a string or splits on `:` into nothing; otherwise it gives the pair-tree path of the last `:` field when that path exists, else `''` |
| DatamodelBinary.DigestPathOfField | app/models/concerns/data_model_object.rb:276-284 | a digest `h` written bare or after any prefix ending in `:` is looked for at the pair-tree path of `h` |
| DatamodelBinary.FieldDigest | app/models/concerns/data_model_object.rb:279 | `split(':').last` of a bare digest, or of one after a prefix ending in `:`, is the digest itself |
| DatamodelBinary.InterpretFallsToDigest | app/models/concerns/data_model_object.rb:267-284 | with a blank `file_path`, or a string one that is neither an existing file nor an existing URL, and no DPS source, the result is exactly that of the digest branch `DigestPath` |
| DatamodelBinary.InterpretSha1Fallback | app/models/concerns/data_model_object.rb:267-284 | with a blank `file_path`, or a string one that is neither an existing file nor an existing URL, and no DPS source, a digest `h` written bare (as the export writes it), as `urn:sha1:h`, as `sha1:h` or after any other prefix ending in `:` gives the pair-tree path of `h` if it exists, else `''` |
| DatamodelBinary.InterpretPrefersLocalFile | app/models/concerns/data_model_object.rb:267-269 | an existing `file_path` wins over every other source |
| DatamodelBinary.InterpretPrefersUrl | app/models/concerns/data_model_object.rb:270-271 | a `file_path` that is not on disk but answers as a URL wins over the DPS server and the digest |
| DatamodelBinary.InterpretDpsSource | app/models/concerns/data_model_object.rb:272-275 | with no usable `file_path`, a `dps` source with DPS enabled gives the DPS URL of the file set, whatever the digest |
| DatamodelBinary.InterpretOtherSources | app/models/concerns/data_model_object.rb:263-288 | for any other source, or with DPS disabled, a non-empty result is an existing file or URL, never a DPS URL |
| DatamodelBinary.ToAFirst | app/models/concerns/data_model_object.rb:540 | `to_a.first` fails exactly on strings, integers and booleans, and takes an array's first element |
| DatamodelBinary.ExportRewrites | app/models/concerns/data_model_object.rb:538-547 | the export's key rewrites before sorting, or the error of `to_a` or `gsub`; its meaning is stated by `ExportRewritesLookup` |
| DatamodelBinary.ExportedBinaryFile | app/models/concerns/data_model_object.rb:536-551 | the export fails exactly when its rewrites do |
| DatamodelBinary.ExportBinaryRewrites | app/models/concerns/data_model_object.rb:538-547 | rewrites the hash in place to `ExportRewrites`, or raises its error |
| DatamodelBinary.BinaryFileMetadataToDatamodel2 | app/models/concerns/data_model_object.rb:536-551 | a new hash holding `ExportedBinaryFile`, or its error |
| DatamodelBinary.SetIdentifiers | app/models/concerns/data_model_object.rb:538-539 | the two identifier copies of the export; their meaning is stated by `SetIdentifiersLookup` |
| DatamodelBinary.StripSha1 | app/models/concerns/data_model_object.rb:542 | the digest rewrite of the export; its meaning is stated by `StripSha1Lookup` |
| DatamodelBinary.DropIds | app/models/concerns/data_model_object.rb:543-547 | the key deletions of the export; their meaning is stated by `DropIdsLookup` |
| DatamodelBinary.SetIdentifiersLookup | app/models/concerns/data_model_object.rb:538-539 | the file-set id and access condition are copied to their datamodel keys |
| DatamodelBinary.StripSha1Lookup | app/models/concerns/data_model_object.rb:542 | a present string digest loses every `urn:sha1:` |
| DatamodelBinary.DropIdsLookup | app/models/concerns/data_model_object.rb:543-547 | the old access key goes, and `id` goes unless the minor version is above 3 |
| DatamodelBinary.ExportRewritesLookup | app/models/concerns/data_model_object.rb:538-547 | per key: the copied identifiers, the first `file_size`, the stripped digest, no old access key, `id` only above 2.3, everything else unchanged |
| DatamodelBinary.ExportedBinaryFileLookup | app/models/concerns/data_model_object.rb:536-551 | the result is sorted by key with nothing blank and holds, per key, the rewritten value sorted and cleaned |
| DatamodelBinary.FillBlank | app/models/concerns/data_model_object.rb:565 | the value is present or `''` |
| DatamodelBinary.FillBlanks | app/models/concerns/data_model_object.rb:565 | every entry keeps its key and gets its value or `''` |
| DatamodelBinary.ImportedBinaryFile | app/models/concerns/data_model_object.rb:553-567 | the import fails exactly when the path resolution does |
| DatamodelBinary.ImportRewrites | app/models/concerns/data_model_object.rb:558-562 | the import's key rewrites; its meaning is stated by `SetHyraxFieldsLookup` and `ImportRewritesLookup` |
| DatamodelBinary.ImportBinaryRewrites | app/models/concerns/data_model_object.rb:558-562 | rewrites the hash in place to `ImportRewrites` |
| DatamodelBinary.FillBlankValues | app/models/concerns/data_model_object.rb:565 | fills the hash in place to `FillBlanks` |
| DatamodelBinary.BinaryFileDatamodel2MetadataToHyrax | app/models/concerns/data_model_object.rb:553-567 | a new hash holding `ImportedBinaryFile`, or its error |
| DatamodelBinary.FillKey | app/models/concerns/data_model_object.rb:565 | one loop turn fills exactly the current key |
| DatamodelBinary.FillStepSnoc | app/models/concerns/data_model_object.rb:565 | the filled prefix grows by the current entry, filled |
| DatamodelBinary.FillStepFresh | app/models/concerns/data_model_object.rb:565 | the key being filled does not occur in the already-filled prefix, because the keys are distinct |
| DatamodelBinary.FillBlanksHasKey | app/models/concerns/data_model_object.rb:565 | filling keeps exactly the keys |
| DatamodelBinary.FillBlanksLookup | app/models/concerns/data_model_object.rb:565 | each key holds its value filled, and keys stay distinct |
| DatamodelBinary.SetHyraxFields | app/models/concerns/data_model_object.rb:558-560 | the three field settings of the import; their meaning is stated by `SetHyraxFieldsLookup` |
| DatamodelBinary.SetHyraxFieldsLookup | app/models/concerns/data_model_object.rb:558-560 | `file_size` is wrapped in an array, the access condition is copied back, and a blank `id` is replaced by the file-set identifier |
| DatamodelBinary.ImportRewritesLookup | app/models/concerns/data_model_object.rb:558-562 | per key, the rewrites above with both datamodel-only keys gone |
| DatamodelBinary.ImportedBinaryFileFilled | app/models/concerns/data_model_object.rb:565 | no value is blank except the `''` the import writes |
| DatamodelBinary.ImportedBinaryFileKeys | app/models/concerns/data_model_object.rb:553-567 | the keys are the rewritten fields, `file_path`, and every other key except the datamodel-only ones, so no key is dropped for being blank |
| DatamodelBinary.ImportStageLookup | app/models/concerns/data_model_object.rb:558-564 | before blanks are filled: `file_path` holds the resolved path and every other key holds its rewritten value, with the key set stated exactly |
| DatamodelBinary.ImportedBinaryFileLookup | app/models/concerns/data_model_object.rb:553-567 | per key: the resolved `file_path`, the wrapped `file_size`, the copied access condition, the chosen `id`, every other kept value, each filled |
| DatamodelBinary.ImportedRewrittenFields | app/models/concerns/data_model_object.rb:558-565 | after the import, `id`, `access_condition_at_deposit` and `file_size` hold the values rewritten from the datamodel keys |
| DatamodelBinary.ExportedForImport | app/models/concerns/data_model_object.rb:536-551 | at 2.3 or below the export has no `id` and holds the identifier, the access condition and the single file size under the datamodel keys |
| DatamodelBinary.ImportRecovers | app/models/concerns/data_model_object.rb:553-567 | a hash in that exported shape imports with the identifier, the access condition and a one-element `file_size` back in their Hyrax places |
| DatamodelBinary.ExportImportRoundTrip | app/models/concerns/data_model_object.rb:536-567 | a binary exported at 2.3 or below loses `id` but the import takes it back from the file-set identifier; the access condition and a one-element `file_size` come back too |
| DatamodelImport.HistoryEntries | app/models/concerns/data_model_object.rb:81-82 | the history is read when every entry is a hash, else it raises as indexing the first other entry does |
| DatamodelImport.History | app/models/concerns/data_model_object.rb:81 | `select` on an array of hashes reads them or raises as indexing the first other entry does; on `{}` it gives no entries; on a non-empty hash it raises `TypeError`; on anything else `NoMethodError` |
| DatamodelImport.FirstWithComment | app/models/concerns/data_model_object.rb:81 | none exactly when no entry has the comment; otherwise the entry at the first index that has it, and that entry whenever one is first |
| DatamodelImport.ReviewHistories | app/models/concerns/data_model_object.rb:82 | exactly the `review_workflow` entries with a present date |
| DatamodelImport.TaggingHistories | app/models/concerns/data_model_object.rb:110 | holds exactly the `tagging` entries, and its last element is the last `tagging` entry of the history |
| DatamodelImport.TaggingHistoriesAppend | app/models/concerns/data_model_object.rb:110 | selecting from a concatenation is concatenating the selections, so the entries keep the history order |
| DatamodelImport.LatestByDate | app/models/concerns/data_model_object.rb:93 | an entry of the list whose date string is greatest |
| DatamodelImport.WordsFrom | app/models/concerns/data_model_object.rb:114 | every word is non-empty and has no whitespace |
| DatamodelImport.Words | app/models/concerns/data_model_object.rb:114 | `split(" ")` gives non-empty words with no whitespace |
| DatamodelImport.WordsFromWord | app/models/concerns/data_model_object.rb:114 | reading a word with no whitespace extends the current word |
| DatamodelImport.WordsJoin | app/models/concerns/data_model_object.rb:114 | joining words with spaces and splitting gives the words back |
| DatamodelImport.ReviewDate | app/models/concerns/data_model_object.rb:84-97 | the first "Last updated by" entry gives the date; without one, the first "First reviewed by" entry; without either, a review entry with the greatest date string; unset exactly when there is none of the three |
| DatamodelImport.TagChoice | app/models/concerns/data_model_object.rb:110-116 | no tag exactly when there is no tagging entry |
| DatamodelImport.SipityDecisions | app/models/concerns/data_model_object.rb:78-143 | the decisions are made exactly when `select` on the history succeeds (an array of hashes, or `{}`) and the last tagging description is a string |
| DatamodelImport.LastUpdatedWins | app/models/concerns/data_model_object.rb:84-85 | the first "Last updated by" entry gives both the date and the responsible user |
| DatamodelImport.FirstReviewedDecides | app/models/concerns/data_model_object.rb:86-90 | with no "Last updated by" entry, the first "First reviewed by" entry gives the date |
| DatamodelImport.ReviewerFallsBackToRecord | app/models/concerns/data_model_object.rb:119-123 | with no "Last updated by" entry, the responsible user is `record_first_reviewed_by` when it is present, else none |
| DatamodelImport.EmptyHashHistory | app/models/concerns/data_model_object.rb:78-143 | a `{}` history gives no date and no tag, the responsible user from the record, and the `submit` action |
| DatamodelImport.LatestReviewDecides | app/models/concerns/data_model_object.rb:92-94 | otherwise, when there is a review, the date and the workflow action come from a review with the greatest date string |
| DatamodelImport.SubmitWithoutReviews | app/models/concerns/data_model_object.rb:141-142 | with no review entry the workflow action is `submit` |
| DatamodelImport.TagOfDescription | app/models/concerns/data_model_object.rb:112-115 | a description `context action value` tags `value` under `context` |
| DatamodelImport.Pid | app/models/concerns/data_model_object.rb:573 | the first truthy of `pid`, `identifier_uuid` and a generated identifier, so the result is always truthy |
| DatamodelImport.EmptyPidKept | app/models/concerns/data_model_object.rb:573 | an empty `pid` is kept, blank though it is |
| DatamodelImport.DefaultDateModified | app/models/concerns/data_model_object.rb:898-909 | raises exactly when a present history is not an array of hashes; a blank history gives today |
| DatamodelImport.DefaultDateModifiedIsLatest | app/models/concerns/data_model_object.rb:901-909 | the date is today or the present date of an entry with the greatest date string; when every entry has a present date, it is one of them |
| DatamodelImport.Hex | app/models/concerns/data_model_object.rb:30 | two lower-case hex digits per byte, high nibble first |
| DatamodelImport.GenerateUuid | app/models/concerns/data_model_object.rb:27-32 | a 41-character identifier that starts with `uuid_`; its digits are `GenerateUuidFormat` |
| DatamodelImport.GenerateUuidFormat | app/models/concerns/data_model_object.rb:27-32 | `uuid_` then 8-4-4-4-12 lower-case hex digits, with version digit `4` and a variant digit in `89ab` |
| DatamodelImport.Versioned | app/models/concerns/data_model_object.rb:30 | the version and variant bits are set on sixteen bytes |
| DatamodelImport.UuidGroups | app/models/concerns/data_model_object.rb:30 | the five groups are the hex of bytes 0-3, 4-5, 6-7, 8-9 and 10-15 |
| DatamodelImport.GenerateUuidKeepsRandomBits | app/models/concerns/data_model_object.rb:27-32 | two draws with the same identifier agree on every random bit the format keeps |
| DatamodelImport.HexInjective | app/models/concerns/data_model_object.rb:30 | the hex form determines the bytes |

## Left out

- The Fedora 6 client and HTTP are not modelled. The store is an abstract class whose refusals (`rejected`, `commitRaises`) and status replies are inputs.
- `File.exists?` and `file_url_exists?` are not modelled; they are the input sets `disk`, `files` and `urls`.
- Logging and `sleep 300` have no logical content.
- `OraBase.find` and `FileSet.find` are inputs. `DpsSyncSpec.OraObject` and `DpsNaming.FileSetRecord` hold the fields `save` reads from them.
- `export('json')` and `export_datacite_metadata` are not modelled; the payloads are the values `ObjectJson(uuid)` and `DataciteXml(uuid)`.
- `convert_to_hash`, a JSON round trip of a Hyrax object, is not modelled. The binary export starts from the hash it gives.
- `deep_symbolize_keys` and `deep_stringify_keys` are not modelled: keys are strings throughout.
- The Hyrax and Sipity writes are not modelled, because they are persistence: `date_modified=`, entity creation, `set_tag_list_on`, the priority list and its `log_to_proxy_history` (lines 125-132), and `WorkflowActionService.run`. `DatamodelImport.SipityDecisions` returns what they would be given.
- DatamodelImport.ReviewDate, DatamodelImport.DefaultDateModified: `to_datetime` parsing of action dates is not modelled; the raw value is kept, so the `ArgumentError` Ruby raises on a malformed date is not modelled either, and these return a value where Ruby raises.
- `SecureRandom` is not modelled; its sixteen random bytes are the parameter of `DatamodelImport.GenerateUuid`.
- app/workers/dps_worker.rb, app/services/hyrax/workflow/send_to_dps.rb and `call_code` are out of scope.
- DpsNaming.ShardedPath: `File.join`'s removal of doubled slashes is not modelled. It matters only for a root ending in `/` or a four-character digest, whose empty third pair the model keeps as an empty segment.
- DatamodelImport.LatestByDate: Ruby's `sort_by` is not stable, so among entries with equal date strings the model picks the last and Ruby may pick any.
- RubyValue.ToS: arrays and hashes are rendered without Ruby's string escaping. This only affects sort keys and URLs built from such values.
- RubyText.ToI is modelled only for strings that begin with their digits. Leading whitespace, signs and underscores are not handled.
- DatamodelBinary.InterpretSha1Fallback: stated for a digest of six or more characters, with no colon and a non-blank first character, after an empty prefix or one ending in `:`; the other digests (shorter, ending in a colon, starting with white space) are covered only by `DigestPath`'s contract, which still says what they give.
- DpsNaming.LastSegment: a child URI that is empty or made only of slashes gives `nil` in Ruby, and that `nil` stays in the `file_ids - metadata_files` list (lib/ora/dps.rb:149-151); the model uses the empty name instead.
- DpsCommit.Commit: the corrected failure message is the fixed text "Transaction failed to commit"; the status code that lib/ora/dps.rb:128 appends to it is not part of the modelled exception.
- DpsSyncSpec.Sync: the object's id stands for both `uuid` (lib/ora/dps.rb:35) and `ocfl_object.identifier` (lib/ora/dps.rb:150), and for `ora_object.id` in `save_object_metadata` (lib/ora/dps.rb:133); these are assumed to be the same string.
- DatamodelBinary.InterpretBinaryFilePath: a nil `source` behaves like any string other than `dps`, which is what Ruby does.
- DpsEngine.Save: after a sync that succeeds, the contract states the outcome, the committed archive and the replies read, but not the transaction state or the staged archive the as-written poller leaves.
- DpsCommit.CommitTransaction: a reply fetch that fails is modelled as the end of the reply sequence.

## Findings

| source | as written | input that shows it | evidently intended | confidence | as-written member | corrected member |
|---|---|---|---|---|---|---|
| lib/ora/dps.rb:123 | the retry calls `transaction_commit`, which is not defined | a first status reply of 204 | retry `commit_transaction` with `current_retries + 1` | high, not executed | DpsCommit.PendingReplyEscapesWithoutRollback | DpsCommit.CommitSucceedsIff |
| lib/ora/dps.rb:117 | `DPSException("...")` is a method call, so the timeout raises `NoMethodError` | `current_retries` of 6 | raise a `DPSException` after rolling back | high, not executed | DpsCommit.CapIgnoresCommittedStatus | DpsCommit.PendingExhaustsRetries |
| lib/ora/dps.rb:128 | `DPSException("...")` is a method call, so a failed commit raises `NoMethodError` | a status reply of 500 | raise a `DPSException` after rolling back | high, not executed | DpsCommit.FailureReplyRaisesNoMethodError | DpsCommit.Commit |
| lib/ora/dps.rb:113 | the cap is compared before the status is read, so a 410 past the cap is rolled back and reported as a failure | `current_retries` of 6 and a reply of 410 | test for 410 first | medium, not executed | DpsCommit.CapIgnoresCommittedStatus | DpsCommit.CommitSucceedsIff |
| lib/ora/dps.rb:108-112 | an exception from `tx.commit` escapes `commit_transaction` and `save` without a rollback | a commit request that raises | roll back on every failure | medium, not executed | DpsCommit.CommitErrorEscapesWithoutRollback | DpsEngine.SaveCorrected |
