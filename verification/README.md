# Karing: a verified model of the slot store, the search query and the download header

Karing keeps text notes and uploaded files in a fixed table of slots `1..max_items`. A rotating cursor
`next_id` names the slot the next insert overwrites; uploads live in a directory and the rows point into it.
The model covers three parts.

**The slot store.** `StoreMachine` defines the durable state (`Snapshot`: database and upload directory), every
request (`Op`) and what a successful request does (`Apply`). `Backend.Store` is the imperative counterpart: SQLite
and the directory as primitive steps, each of which may fail. `EntryStore`, `SchemaInit`, `DaoRead` and
`EntryRepository` are the source's methods on it, written in its order of steps. The contract of a request is
`Store.Outcome`: success means the state is `Apply`'s, failure means it is the old one (up to leftover files when a
clean-up failed), at every step in between a crash would find the one or the other, and without any failure the
request is accepted exactly when `Accepts` says so. The theorems are about `Apply` and about whole runs of `Next`, which adds
failures and crashes.

- `Sorting`, `Rows`: sorting by a nullable column and id; rows, tables, statements.
- `Compaction`, `CompactionLaws`: resequencing and resizing, what they keep, and that they agree.
- `Canonical`: what exactly resequencing forgets of a table, and which swaps it undoes.
- `AgeOrder`, `Rotation`: first in, first out over whole runs; rotation in closed form.
- `Answers`: which requests succeed and what is read back after them, in records, files and slot numbers.
- `Refinement`, `Payloads`: rows plus files refine a plain map of records; when the size column is right.

**The search query.** `SearchQuery` proves the character scanner against a grammar and the printer against a reader;
`SearchQueryLaws` has the builders and what follows: failure, length, well-formedness, pass-through of phrases.

**The download header.** `ContentDisposition` proves the header's round trip.

## Where the code and its documentation differ

The model follows the code.

- `DELETE /` is documented to delete the latest record. The code deletes the slot behind the cursor;
  `DeletesLatestExactly` says when that is the same, `ForcedShrinkHidesLatest` that after a forced shrink which
  leaves a slot free it never is.
- `server/utils/search_query.h` documents `foo*` as a prefix search. The code quotes the star with the word
  (`BareWordIsTerm`, `WordAnywhere`).
- The scan of `resequence_entries` takes a failing step for the end of the table (sqlite/store/entry_store.cpp:387).
  Only the delivered rows are then resequenced: `Resequence(scanned)`. No entry is lost
  (`PartResequencePermutes`), but the age order can be: `PartResequenceBreaksOrder` is a case,
  `PartResequenceExactly` says when.
- `shrink_slots` takes a failing count for 0 (sqlite/db/db_resize.cpp:105). `BlindPlainShrinkExactly` and
  `BlindForcedShrinkExactly` say when that is harmless, and what is lost otherwise;
  `BlindRestartOrphansExactly` when it leaves files behind.
- A failed read of the old file's path is taken for "no file" (sqlite/store/entry_store.cpp:25-26), so that file stays
  on disk. In `Store.Outcome` this counts as a failed clean-up.
- The forced shrink reads sizes as 32-bit integers (sqlite/db/db_resize.cpp:38): `CompactionsAgree`,
  `Payloads.ReloadedSize`.
- Text is bound as a NUL-terminated string but its size is taken before (sqlite/store/entry_store.cpp:42-43):
  `Payloads.StoredSizes`.

## Assumptions

- Requests run one after another.
- A transaction, and a statement outside one, takes effect as a whole or not at all.
- `write_for_slot` builds a path that is not in the directory (`Fresh`). `UploadNeedsFreshPath` says exactly how
  much of this the store's invariant needs.
- The clock does not run backwards; only `AgeOrder` and what builds on it needs this, and says so (`ClockedRun`);
  `InsertKeepsAgeExactly` says how much of it.
- A `char` stands for one byte of a `std::string`.

## Model

| member | source | states |
|---|---|---|
| Rows.CString | sqlite/store/entry_store.cpp:42-43 | a bound text is stored up to its first NUL |
| Sorting.OrderedUnique | sqlite/store/entry_store.cpp:451-456 | ids break ties, so there is only one sorted arrangement: `std::sort` and `ORDER BY` have no freedom |
| Sorting.SortPermutes | sqlite/store/entry_store.cpp:451-456 | sorting loses and duplicates nothing |
| Sorting.SortOrders | sqlite/db/db_resize.cpp:14-17 | sorting by column and id gives a strictly ordered sequence |
| Rows.ByAgeSound | sqlite/db/db_resize.cpp:14-17 | the rows selected by age are used rows with their ids, each once, strictly ordered |
| Rows.ByAgeComplete | sqlite/db/db_resize.cpp:14-17 | no used row is missing among them |
| Compaction.EnsureSlotsRows | sqlite/db/db_init_common.cpp:94-121 | ensuring slots adds exactly the missing ids as empty rows and touches no other |
| Compaction.ResequencedGood | sqlite/store/entry_store.cpp:445-487 | resequencing keeps the slot domain, row shapes and unshared files, and refers to exactly the same files |
| Compaction.WholeTableScanned | sqlite/store/entry_store.cpp:387-402 | a scan that delivers every row resequences the whole table |
| Compaction.ResequencedPartGood | sqlite/store/entry_store.cpp:378-403 | resequencing only the rows a broken-off scan delivered still keeps a good table and the same files |
| CompactionLaws.PartResequencePermutes | sqlite/store/entry_store.cpp:378-487 | and loses or duplicates no entry |
| Compaction.ResizeGood | sqlite/db/db_resize.cpp:97-174 | growing and both shrinks keep a good table of the new size; each file is afterwards either referred to or listed for removal, never both |
| Compaction.ResizeBlindGood | sqlite/db/db_resize.cpp:103-108 | with an unreadable count the table is still good and refers to no new file |
| Compaction.Int32Exact | sqlite/db/db_resize.cpp:38 | a size survives the 32-bit column read exactly when it is below 2 GiB |
| CompactionLaws.ResequencePermutes | sqlite/store/entry_store.cpp:445-487 | every used row moves with all columns to slots 1..k in order of (stored_at, old id), the rest is cleared, the cursor is at k+1 or at 1 when full, and the collection of used rows is unchanged |
| CompactionLaws.ResequenceIdempotent | sqlite/store/entry_store.cpp:439-470 | resequencing twice is resequencing once |
| CompactionLaws.ResequenceCanonical | sqlite/store/entry_store.cpp:439-487 | with distinct storing times the result depends only on the collection of used rows |
| CompactionLaws.SwapsUndoneByResequence | sqlite/store/entry_store.cpp:265-358 | with distinct storing times any sequence of swaps followed by a resequence equals the resequence alone |
| Canonical.ResequenceCanonicalExactly | sqlite/store/entry_store.cpp:451-470 | two tables of one size have the same result exactly when for each time they list the same used rows in the same id order |
| Canonical.SwapsUndoneExactly | sqlite/store/entry_store.cpp:451-456 | so swaps are undone exactly when they leave the entries of each time in their order |
| Canonical.SwapUndoneExactly | sqlite/store/entry_store.cpp:345-355 | and one swap exactly when it takes neither entry past a different one stored at the same time |
| Canonical.TiedSwapStays | sqlite/store/entry_store.cpp:455 | two texts stored in the same second whose swap a resequence does not undo |
| CompactionLaws.SwapUsedRows | sqlite/store/entry_store.cpp:345-355 | a swap keeps the slot domain and the collection of used rows |
| CompactionLaws.ForcedShrinkKeepsNewest | sqlite/db/db_resize.cpp:114-139 | the forced shrink keeps exactly the newest min(k, limit) rows in order from slot 1 on, and lists exactly the files of the others |
| CompactionLaws.CompactionsAgree | sqlite/db/db_resize.cpp:54-87 | the forced shrink leaves in each slot the record that resequencing puts `drop` slots further on; equal in all columns exactly when the size fits 32 bits |
| CompactionLaws.ResequenceThenShrink | sqlite/db/db_resize.cpp:97-139 | resequencing before a forced shrink does not change its result, files included |
| CompactionLaws.PlainShrinkLosesNothing | sqlite/db/db_resize.cpp:108-150 | the plain shrink succeeds exactly when no used slot is above the limit, and then keeps every row in place |
| CompactionLaws.BlindPlainShrinkExactly | sqlite/db/db_resize.cpp:104-112 | with an unreadable count the plain shrink does what it should exactly when no used slot is above the limit; otherwise it deletes one |
| CompactionLaws.BlindForcedShrinkExactly | sqlite/db/db_resize.cpp:134-139 | with an unreadable count the forced shrink does what it should exactly if all used rows fit, or sizes that turn negative stop it either way, or all are texts of one time and those dropped read like those kept |
| Compaction.BlindResizeForgetsExactly | sqlite/db/db_resize.cpp:103-139 | with an unreadable count a shrink lists no file for removal, and forgets none exactly when no dropped row has one |
| StoreMachine.RefusedChangesNothing | sqlite/store/entry_store.cpp:59-65 | a request that is not accepted changes nothing |
| StoreMachine.ApplyKeepsInv | sqlite/store/entry_store.cpp:16-487 | every request keeps: ids exactly 1..max with the cursor among them, the row shapes, no shared file, every referenced file on disk; and no other file on disk exactly if it is no restart that drops rows with files uncounted |
| StoreMachine.BlindRestartOrphansExactly | sqlite/db/db_resize.cpp:103-139 | a restart that could not read its count leaves no file behind exactly when no row it drops has one |
| StoreMachine.BlindRestartLeavesFile | sqlite/db/db_resize.cpp:105 | an upload in slot 2 whose file stays on disk after such a shrink to one slot |
| StoreMachine.InsertsAccepted | sqlite/store/entry_store.cpp:47-50 | in a good state there is always a row at the cursor: an insert is refused exactly where there is no store |
| StoreMachine.UploadNeedsFreshPath | sqlite/storage/file_storage.cpp:13-25 | an insert, update or patch that writes a file keeps the invariant exactly when no row refers to the path it writes |
| StoreMachine.NextKeepsInv | sqlite/store/entry_store.cpp:50-56 | so does a request that fails or is cut short anywhere |
| StoreMachine.ReachableStatesAreGood | sqlite/db/db_init_common.cpp:60-160 | every state of every run from an empty directory, with failures and crashes, satisfies the invariant |
| StoreMachine.TidyRunHasNoOrphans | sqlite/storage/file_storage.cpp:34-38 | in a run in which requests may fail but every clean-up succeeds the files on disk are exactly those that rows refer to |
| AgeOrder.ApplyKeepsAge | sqlite/dao/karing_dao_common.cpp:116-129 | a request leaves an ordered ring of slots in age order from the cursor on exactly if `KeepsAge` holds, as it does for all but some swaps and some broken-off resequences |
| AgeOrder.PartResequenceExactly | sqlite/store/entry_store.cpp:378-487 | resequencing the first n slots orders the table exactly when the ages rise behind them and those n hold nothing newer than the rest if full, nothing older if not |
| AgeOrder.InsertKeepsAgeExactly | sqlite/store/entry_store.cpp:28-48 | whatever the clock reads, an insert keeps the age order exactly if no entry that stays is newer than the one it stores |
| AgeOrder.PartResequenceBreaksOrder | sqlite/store/entry_store.cpp:387 | three slots in age order that a scan broken off after two leaves out of order |
| AgeOrder.ResequenceOrdersAges | sqlite/store/entry_store.cpp:445-487 | resequencing re-establishes the age order from any table |
| AgeOrder.ForcedShrinkOrdersAges | sqlite/db/db_init_common.cpp:123-138 | so does the forced shrink, which resets the cursor to 1 |
| AgeOrder.RunStoredBy | sqlite/store/entry_store.cpp:16-263 | in a run with a clock that does not run backwards, swaps or not, nothing is ever newer than the clock |
| AgeOrder.RunKeepsAge | sqlite/store/entry_store.cpp:16-263 | once the table is in order, as at the start or after any complete resequence or forced shrink, it stays so until a request breaks it |
| AgeOrder.InsertEvictsOldest | sqlite/store/entry_store.cpp:16-57 | until then an insert that overwrites an entry overwrites one of least stored_at, and stores one of greatest |
| AgeOrder.SwapKeepsAgeExactly | sqlite/store/entry_store.cpp:345-355 | a swap keeps the age order exactly when the ages are equal or the moved entry passes none of another age |
| Rotation.RotationClosedForm | sqlite/dao/karing_dao_common.cpp:116-129 | after n inserts into a fresh store of N slots the cursor is n mod N + 1 and the store is exactly the last min(n, N) inserts, each in its slot |
| Rotation.SlotIsModulo | sqlite/dao/karing_dao_common.cpp:118-120 | the k-th insert goes to slot (k - 1) mod N + 1 |
| Refinement.ApplyRefines | sqlite/store/entry_store.cpp:16-487 | every request on rows and files, seen with payloads inlined, is the abstract step on records |
| Refinement.NextRefines | sqlite/store/entry_store.cpp:125-162 | a request that fails or is cut short shows the abstract state before or after |
| Refinement.OtherSlotsUnchanged | sqlite/dao/karing_dao_read.cpp:13-28 | what readers get for slot j is unchanged by any insert, update, patch or delete on another slot |
| Refinement.SwapExchangesViews | sqlite/store/entry_store.cpp:345-355 | a swap exchanges what readers get for the two slots and touches no other |
| Refinement.ResequenceMovesViews | sqlite/store/entry_store.cpp:445-470 | a resequence shows the entries in slots 1..k from oldest to newest, files included, and nothing behind |
| Refinement.ResizeKeepsViews | sqlite/db/db_resize.cpp:108-174 | growing or shrinking without force changes nothing for readers |
| Refinement.ForcedShrinkMovesViews | sqlite/db/db_resize.cpp:114-139 | a forced shrink shows the newest entries that fit, from the oldest of them to the newest, files included, and nothing behind |
| Answers.DeleteAccepted | sqlite/store/entry_store.cpp:59-65 | a slot can be deleted, used or not, exactly if it exists |
| Answers.UpdateAccepted | sqlite/store/entry_store.cpp:168-172 | an entry can be replaced exactly if it is there |
| Answers.TextPatchAccepted | sqlite/store/entry_store.cpp:233-240 | a text can be patched exactly if its record is no file and there is no file to read |
| Answers.FilePatchAccepted | sqlite/store/entry_store.cpp:242-263 | a file can be patched exactly if it can be read |
| Answers.SwapAccepted | sqlite/store/entry_store.cpp:265-343 | two slots can be swapped exactly if they are the same or both exist |
| Answers.DeleteLatestAccepted | sqlite/store/entry_store.cpp:81-110 | the latest entry can be deleted exactly if the slot behind the cursor has one created within the limit |
| Answers.RestartAccepted | sqlite/db/db_resize.cpp:97-151 | a store can be opened with at least one slot; smaller without force if no entry is above the new end, and by force if no kept size reads as negative |
| Answers.BlindRestartAccepted | sqlite/db/db_resize.cpp:103-139 | with an unreadable count only a size that reads as negative stops a shrink; nothing stops a resequence |
| Answers.RestartCursor | sqlite/db/db_init_common.cpp:123-138 | the cursor goes back to 1 when the table shrinks by force or loses the cursor's slot, and else stays |
| Answers.NewStoreIsEmpty | sqlite/db/db_init_common.cpp:60-121 | a new store has empty slots only, no file, and its cursor at 1 |
| Answers.TextReadsBack | sqlite/dao/karing_dao_common.cpp:141-153 | an inserted text reads back up to its first NUL, as no file, with its MIME type and both times |
| Answers.UpdatedTextReadsBack | sqlite/store/entry_store.cpp:168-191 | so does an updated one, with the time it was created at and the time of the update |
| Answers.PatchedTextReadsBack | sqlite/store/entry_store.cpp:233-240 | and a patched one, which keeps its content if none is given |
| Answers.KindOfUpload | sqlite/dao/karing_dao_common.cpp:59-73 | the media column of an upload, by the part of its MIME type before the slash and seven other types |
| Answers.UploadReadsBack | sqlite/dao/karing_dao_read.cpp:18-28 | an upload reads back byte for byte, with default MIME type and name where empty, and is a file unless its MIME type is one of text |
| Answers.UpdatedFileReadsBack | sqlite/store/entry_store.cpp:193-231 | so does an updated file, with the time it was created at |
| Answers.PatchedFileReadsBack | sqlite/store/entry_store.cpp:242-263 | and a patched one, which keeps the name, the MIME type or the bytes that are not given |
| Answers.DeletedIsGone | sqlite/store/entry_store.cpp:67-78 | nothing can be read from a deleted slot |
| Answers.DeletedLatestIsGone | sqlite/store/entry_store.cpp:81-110 | nor from the one deleted as the latest |
| Payloads.StoredSizes | sqlite/store/entry_store.cpp:42-43 | the size of a text is right exactly when it has no NUL; that of an upload always |
| Payloads.ReloadedSize | sqlite/db/db_resize.cpp:38 | a right size stays right through the forced shrink exactly when it is below 2 GiB |
| Payloads.ShrinkKeepsSizesExactly | sqlite/db/db_resize.cpp:38 | a forced shrink that goes through leaves all sizes right exactly when each entry it keeps is below 2 GiB |
| Payloads.StepKeepsSizesExactly | sqlite/store/entry_store.cpp:16-263 | a request leaves right sizes right exactly when the text it stores has no NUL and a forced shrink keeps no entry of 2 GiB or more |
| Payloads.ReachableSizesAreRight | sqlite/store/entry_store.cpp:16-263 | in every state of a run from an empty directory under these conditions every size is the length of the payload |
| Backend.SafeAround | sqlite/store/entry_store.cpp:50-56 | each state between two steps of a request is good, so a crash there is safe |
| Backend.Store.OutcomeIsNext | sqlite/store/entry_store.cpp:50-56 | what a request leaves, and what a crash finds at any point of it, is a step of `Next`; with no failed clean-up it is the old state or the full effect |
| Backend.Store.WriteForSlot | sqlite/storage/file_storage.cpp:13-25 | writes the file, or fails with nothing or a part of it left |
| Backend.Store.Read | sqlite/storage/file_storage.cpp:27-32 | reads the bytes of an existing file |
| Backend.Store.RemoveIfAny | sqlite/storage/file_storage.cpp:34-38 | removes the file, or silently leaves it |
| Backend.Store.LoadEntry | sqlite/dao/karing_dao_common.cpp:131-159 | fills in record and path of the row; fails exactly for a missing or unused row or when the row cannot be read |
| EntryStore.FetchState | sqlite/dao/karing_dao_common.cpp:96-107 | the cursor and the size, if there is a store |
| EntryStore.PreviousSlotId | sqlite/dao/karing_dao_common.cpp:109-114 | the slot behind the cursor |
| EntryStore.StoreAtCursor | sqlite/store/entry_store.cpp:128-162 | the insert transaction commits row and cursor together or not at all, and succeeds only if the row is there |
| EntryStore.LocateSlot | sqlite/store/entry_store.cpp:16-26 | the slot at the cursor and its file; a file path that cannot be read looks like none |
| EntryStore.InsertText | sqlite/store/entry_store.cpp:16-57 | `Outcome` of inserting a text |
| EntryStore.InsertFile | sqlite/store/entry_store.cpp:112-166 | `Outcome` of inserting a file: the new file is removed on failure, the old one after the commit |
| EntryStore.LogicalDelete | sqlite/store/entry_store.cpp:59-79 | `Outcome` of deleting a slot; without a failure it succeeds exactly if the slot exists |
| EntryStore.LogicalDeleteLatestRecent | sqlite/store/entry_store.cpp:81-110 | `Outcome` of deleting behind the cursor within the age limit |
| EntryStore.UpdateText | sqlite/store/entry_store.cpp:168-191 | `Outcome` of replacing an entry by a text; stored_at stays |
| EntryStore.UpdateFile | sqlite/store/entry_store.cpp:193-231 | `Outcome` of replacing an entry by a file |
| EntryStore.PatchText | sqlite/store/entry_store.cpp:233-240 | `Outcome` of patching a text entry |
| EntryStore.PatchFile | sqlite/store/entry_store.cpp:242-263 | `Outcome` of patching a file entry, keeping what is not given |
| EntryStore.SwapEntries | sqlite/store/entry_store.cpp:265-358 | `Outcome` of swapping two slots |
| EntryStore.LoadAllStates | sqlite/store/entry_store.cpp:378-403 | the rows in id order, so that vector index + 1 is the id; all of them unless a read failed |
| EntryStore.Arrange | sqlite/store/entry_store.cpp:445-461 | filtering, sorting and refilling the vectors gives the resequenced rows |
| EntryStore.WriteBack | sqlite/store/entry_store.cpp:463-468 | the loop writes exactly these rows |
| EntryStore.ResequenceEntries | sqlite/store/entry_store.cpp:360-507 | `Outcome` of resequencing; the records returned are those of slots 1..k, and after a commit none are returned exactly if one of them could not be read |
| SchemaInit.EnsureSlotRows | sqlite/db/db_init_common.cpp:94-121 | the loop ensures exactly the slots lo..hi |
| SchemaInit.EnsureStoreState | sqlite/db/db_init_common.cpp:60-92 | finds the size of the store or creates it |
| SchemaInit.UpdateStoreState | sqlite/db/db_init_common.cpp:123-138 | sets the size and resets or clamps the cursor; fails below 1 |
| SchemaInit.LoadActiveEntries | sqlite/db/db_resize.cpp:12-52 | the used rows by age, with sizes cut to 32 bits |
| SchemaInit.RepopulateActiveEntries | sqlite/db/db_resize.cpp:54-87 | fills slots 1, 2, ..; fails on a negative size |
| SchemaInit.KeepNewest | sqlite/db/db_resize.cpp:117-127 | splits into the newest that fit and the files of the others |
| SchemaInit.ShrinkSlots | sqlite/db/db_resize.cpp:97-151 | all four branches together do what `Resize` says |
| SchemaInit.ApplyResize | sqlite/db/db_resize.cpp:153-174 | grows, shrinks or leaves alone |
| SchemaInit.RemoveFiles | sqlite/db/db_resize.cpp:89-95 | removes exactly the listed files, and every state on the way is safe |
| SchemaInit.InitSchemaFile | sqlite/db/db_init.cpp:6-77 | `Outcome` of opening the store with a given size: nothing changes before the commit, files go after it |
| DaoRead.ReadById | sqlite/dao/karing_dao_read.cpp:13-16 | the record of a used slot |
| DaoRead.ReadFileBlob | sqlite/dao/karing_dao_read.cpp:18-28 | row joined with its file |
| DaoRead.BlobIffUpload | sqlite/dao/karing_dao_read.cpp:22-24 | in every good state exactly the uploads have a readable file |
| EntryRepository.LatestId | sqlite/repository/entry_repository.cpp:9-20 | the id of the latest entry |
| EntryRepository.LatestIsNewest | sqlite/repository/entry_repository.cpp:13 | it is the used slot greatest by (stored_at, id), and there is one unless the store is empty |
| EntryRepository.LatestAfterResequence | sqlite/store/entry_store.cpp:470-487 | after a resequence the slot behind the cursor is the latest entry, even with tied times |
| EntryRepository.UpdateKeepsLatest | sqlite/store/entry_store.cpp:168-263 | updating an entry never changes which one is the latest |
| EntryRepository.DeleteLatestTakesNewest | sqlite/store/entry_store.cpp:81-110 | in age order a successful delete-latest removes an entry of greatest age within the limit, and a repeat removes nothing |
| EntryRepository.DeleteLatestInRun | sqlite/store/entry_store.cpp:81-110 | the same, limit and repeat included, over whole runs as long as the order is not broken |
| EntryRepository.DeletesLatestExactly | sqlite/dao/karing_dao_common.cpp:109-114 | the slot behind the cursor is the latest entry exactly when it is used and no higher slot is as new |
| EntryRepository.ForcedShrinkHidesLatest | sqlite/db/db_init_common.cpp:125-127 | after a forced shrink with a free slot the latest entry cannot be deleted this way |
| EntryRepository.ListFiltered | sqlite/repository/entry_repository.cpp:124-161 | the list, or a prefix of it after a read error |
| EntryRepository.CountFiltered | sqlite/repository/entry_repository.cpp:163-183 | the number of matching rows, or 0 after an error |
| EntryRepository.ListingIsTopOfMatches | sqlite/dao/karing_dao_common.cpp:51-57 | a list has min(limit, count) matching records in strict (column, id) order, and every other match comes after them |
| EntryRepository.ListingFits | sqlite/repository/entry_repository.cpp:131-157 | every listed record is a file or not, has the MIME type and has the filename as asked for, is what get_by_id gives, and they stand in the order asked for |
| EntryRepository.FittingAreListed | sqlite/repository/entry_repository.cpp:131-157 | without a limit an entry is listed, and counted, exactly if its record fits; a text is found under no filename |
| EntryRepository.EverySlotListed | sqlite/repository/entry_repository.cpp:132 | with empty slots included and no filter every slot is listed |
| EntryRepository.TextAndFilePartition | sqlite/repository/entry_repository.cpp:133 | text and file entries make up the active ones under any other filter |
| EntryRepository.ActiveCount | sqlite/repository/entry_repository.cpp:97-107 | the active count is the number of used rows |
| SearchQuery.Trim | server/utils/search_query.cpp:7-12 | the loops drop white space at both ends |
| SearchQuery.TrimUndoesPadding | server/utils/search_query.cpp:7-12 | white space put around a text with bare ends is undone |
| SearchQuery.TrimTakesPadding | server/utils/search_query.cpp:7-12 | and it is all that is ever taken |
| SearchQuery.QuoteTerm | server/utils/search_query.cpp:14-23 | the loop quotes a term and doubles its quotes |
| SearchQuery.ScanParts | server/utils/search_query.cpp:49-78 | the scanner yields exactly the parts of the grammar, and fails exactly when the grammar does |
| SearchQuery.PrintParts | server/utils/search_query.cpp:80-92 | the loop prints the parts, AND between adjacent terms |
| SearchQuery.PrintingIsUnambiguous | server/utils/search_query.cpp:80-92 | a string reads back as some parts exactly when it is what these parts print as |
| SearchQueryLaws.UnclosedIffOdd | server/utils/search_query.cpp:51-77 | the scan ends inside a quote exactly when the number of quotes is odd |
| SearchQueryLaws.CostBound | server/utils/search_query.cpp:80-92 | n characters print as at most 5n - 2 (4 for one character) |
| SearchQueryLaws.CostBoundIsTight | server/utils/search_query.cpp:80-92 | and this is reached for every n of the form 3k + 1, such as 4096 |
| SearchQueryLaws.BuildFtsQuery | server/utils/search_query.cpp:42-95 | fails exactly on an empty query or an odd number of quotes; else reads back as the parts of the query cut at 4096 characters, non-empty and within the bound |
| SearchQueryLaws.BareWordIsTerm | server/utils/search_query.cpp:78-86 | a bare word is a term whatever it spells, OR and a trailing star included |
| SearchQueryLaws.TokensJoin | server/utils/search_query.cpp:49-78 | two texts that meet outside a quote and not inside a word have the parts of the first and then those of the second |
| SearchQueryLaws.WordAnywhere | server/utils/search_query.cpp:69-78 | so a word anywhere outside quotes is one term, whatever it spells |
| SearchQueryLaws.OrsAreOpenBars | server/utils/search_query.cpp:49-78 | the number of OR operators is the number of bars outside quotes |
| SearchQueryLaws.CharBetweenWords | server/utils/search_query.cpp:69-78 | what one character between two words makes of them: blank, tab, line feed, vertical tab, form feed and carriage return separate, a bar is OR, a quote leaves a phrase open, any other belongs to the word |
| SearchQueryLaws.TwoWordsPrinted | server/utils/search_query.cpp:80-92 | the exact strings printed for two words, for two words with a bar, and for a live query of two words |
| SearchQueryLaws.QuoteInPhrase | server/utils/search_query.cpp:14-23 | a quote inside a phrase is printed twice |
| SearchQueryLaws.CharTrimmed | server/utils/search_query.cpp:7-12 | the same six characters are trimmed |
| SearchQueryLaws.CharBetweenRuns | server/utils/search_query.cpp:29-38 | and separate the terms of a live query |
| SearchQueryLaws.PhrasesPassThrough | server/utils/search_query.cpp:56-59 | quoted phrases joined by spaces come back as the same phrases joined by AND |
| SearchQueryLaws.QueryIsExpression | server/utils/search_query.cpp:83-92 | the result is a boolean expression exactly when no OR is first, last or next to another |
| SearchQueryLaws.SplitTerms | server/utils/search_query.cpp:25-40 | the loop yields the maximal runs without white space |
| SearchQueryLaws.RunsSplit | server/utils/search_query.cpp:29-38 | the terms of two texts with white space between them are those of the first and then those of the second |
| SearchQueryLaws.RunStands | server/utils/search_query.cpp:35-39 | a non-empty text without white space is one term |
| SearchQueryLaws.BuildLiveFtsQuery | server/utils/search_query.cpp:97-120 | fails on an empty query only, the second check never fires, and the result reads back as the terms of the query cut at 512 characters |
| ContentDisposition.AsciiFallbackFilename | server/http/download_response.cpp:15-24 | the loop masks every character that is not plain |
| ContentDisposition.FallbackIsPlain | server/http/download_response.cpp:18-23 | the fallback is non-empty and needs no escaping; a plain name is kept |
| ContentDisposition.PercentEncodeUtf8 | server/http/download_response.cpp:26-40 | the loop percent-encodes the name |
| ContentDisposition.EncodingRoundTrip | server/http/download_response.cpp:26-40 | decoding gives back every byte |
| ContentDisposition.EncodingInjective | server/http/download_response.cpp:26-40 | different names have different encodings |
| ContentDisposition.EncodingShape | server/http/download_response.cpp:30-37 | only unreserved characters and %, and three characters for each escaped byte |
| ContentDisposition.EncodingAlphabet | server/http/download_response.cpp:30-37 | only letters, digits and - . _ ~ go out as they are, and each % is followed by two upper-case hexadecimal digits |
| ContentDisposition.EncodedAsItIs | server/http/download_response.cpp:30-34 | a name is its own encoding exactly if it has no other characters |
| ContentDisposition.EscapedByte | server/http/download_response.cpp:36 | every other byte becomes % and its two digits |
| ContentDisposition.FallbackMasks | server/http/download_response.cpp:18-22 | the fallback of an empty name is "download"; else exactly control characters, bytes above 126, quotes, backslashes and semicolons become underscores |
| ContentDisposition.HeaderOfSimpleName | server/http/download_response.cpp:42-47 | the exact header of a name that needs no escaping |
| ContentDisposition.BuildHeader | server/http/download_response.cpp:42-47 | puts the header together |
| ContentDisposition.HeaderRoundTrip | server/http/download_response.cpp:42-47 | a reader splitting at ; and quotes recovers disposition, fallback and encoded name, and from it the filename |

## Left out

- SQLite itself, connections, PRAGMAs and the integrity check: statements are updates of the table that may fail.
- The FTS5 index and its triggers, and so what a search finds.
- Interleaved requests: the cursor and the old path are read before the transaction begins.
- The spelling of file names: a path is the pair of slot and stamp that write_for_slot puts into it.
- Error texts of the start-up, and `created` when the catalogue cannot be read.
- search_fts, count_search_fts and list_latest: the first two depend on FTS5, the last is list_filtered without filters.
- Controllers, JSON, multipart parsing, the CLI, MIME tables, options and logging: plumbing with only easy claims.
- How SQLite and `std::sort` sort: ordering is the function `Sort`, and Sorting.OrderedUnique shows that no other ordering of distinct keys exists.
