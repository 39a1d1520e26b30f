# Subversion shelves, FSX node-revision IDs, working-copy cropping and client delete, in Dafny

This project models four pieces of Subversion's C code and proves what they
promise.

- **The shelf store** (`libsvn_client/shelve.c`). A shelf named N lives in
  the working copy's shelves directory as three kinds of file:
  - the version pointer `N.current`, which holds the decimal `max_version`;
  - the revprop file `N.log`;
  - one patch file `N-<version as %03d>.patch` per version 1..max_version.

  The directory is a map from file name to content (`Shelve.ShelvesDir`).
  An open shelf is a class with the fields the C struct keeps: name,
  `max_version` and revprops (`Shelve.Shelf`). Each state-changing operation
  is a method proved against a specification function on the directory:
  - `DeleteNewerSpec` is the shared descending deletion loop;
  - the others are `SetCurrentVersionSpec`, `SaveNewVersionSpec` and
    `DeleteSpec`.

  The listing method `ListShelves` changes nothing and returns `ListSpec`.

  The lemmas about these functions state the store's promises:
  - rollback removes exactly the newer patch files;
  - publishing keeps every older one;
  - an empty diff is not published;
  - delete is idempotent;
  - a shelf is listed exactly when its pointer file exists;
  - the pointer round-trips through `printf("%d")`/`fscanf("%d")`.

  Names and digits are in `ShelfNames`, `Decimal` and `Radix`.
- **FSX node-revision IDs** (`libsvn_fs_x/id.c`, module `FsxId`). This covers
  the change-set encoding of revisions and transactions, and the base-36
  text form of ID parts, with parse/unparse round trips. The unparsers are
  methods writing into a `char` array as `part_unparse` does. It also covers
  the order on parts, the relation between whole IDs, and ID creation.
- **Working-copy cropping** (`libsvn_wc/crop.c`, module `Crop`). The working
  copy is a map from directory path to that directory's entries table.
  `Crop.WorkingCopy` holds it together with the trace of delete
  notifications. `crop_children` and `svn_wc_crop_tree` are methods, with a
  loop over the entries and a recursive call. Their results are tied to the
  function `Cropped` and to the predicates `CropOk` (success) and `Noted`
  (the notified paths). Lemmas state the per-child rules the C code
  implements.
- **Client delete** (`libsvn_client/delete.c`, module `ClientDelete`). This
  covers the per-status verdict of `svn_client__can_delete`, its loop over
  the gathered statuses, and the local branch of `svn_client_delete`, which
  checks before it deletes.

Collaborators the core calls but does not contain are parameters of the
model:
- the diff engine's output;
- the patch parser and the patch applier;
- the log-message callback;
- `svn_wc_remove_from_revision_control`'s outcome per path;
- what `svn_wc_statuses` gathered;
- `svn_wc_delete`'s result;
- `svn_wc_is_wc_root`'s answer.

Three behaviours of the C code a reader may not expect:
- Patch file names are `%03d`, which grows to four digits past 999 rather
  than being unrepresentable (`ShelfNames.PatchFileNameExamples`).
- `svn_client_shelf_set_current_version` does not check its argument. A
  version above `max_version` deletes nothing and moves the pointer up. A
  negative version deletes every patch file and then fails the range check
  at version 0 (`Shelve.NegativeVersionLeavesDanglingPointer`).
- `svn_client_shelf_set_log_message` returns early only when the callback
  returns no message. An empty message is stored like any other. Without a
  callback, `""` is stored.

## Model

| member | source | states |
|---|---|---|
| Radix.ValueOfDigits | subversion/libsvn_fs_x/id.c:122-131 | the digits written for n in any base 2..36 read back as n (the base-36 codec round trip) |
| Radix.DigitRunOfDigits | subversion/libsvn_fs_x/id.c:99-107 | a digit run stops exactly where the digits end, whatever non-digit follows |
| Radix.ZerosValue | subversion/libsvn_client/shelve.c:68 | leading zeros, as `%03d` writes them, do not change the value read |
| Radix.DigitsLength | subversion/libsvn_fs_x/id.c:169 | a number below base^k has at most k digits |
| Decimal.SkipSpace | subversion/libsvn_client/shelve.c:228 | skipping white space leaves a suffix that starts with no white space |
| Decimal.ScanFormatted | subversion/libsvn_client/shelve.c:216-244 | what `fprintf("%d")` or `%03d` writes, `fscanf("%d")` reads back, for every int |
| Decimal.FormatInjective | subversion/libsvn_client/shelve.c:68 | different numbers never print to the same text |
| ShelfNames.ValidNames | subversion/libsvn_client/shelve.c:44-54 | empty names and names with '/' are refused; names with '\\' or '.' are accepted |
| ShelfNames.PatchFileNameExamples | subversion/libsvn_client/shelve.c:68 | version 1 gives "foo-001.patch", 7 gives "foo-007.patch", 1000 gives "foo-1000.patch" |
| ShelfNames.PatchFileNameInjective | subversion/libsvn_client/shelve.c:59-71 | two versions of one shelf never share a patch file |
| ShelfNames.FileKindsDistinct | subversion/libsvn_client/shelve.c:112-123 | patch, revprop and pointer files never share a name, for any shelves |
| ShelfNames.ShelfOfPointerFile | subversion/libsvn_client/shelve.c:620-627 | listing recovers the shelf name from every pointer file |
| ShelfNames.OnlyPointerFilesNameShelves | subversion/libsvn_client/shelve.c:620-627 | an entry that names a shelf is that shelf's pointer file |
| ShelfNames.AsWrittenAgreesFromEightChars | subversion/libsvn_client/shelve.c:620-623 | for entries of 8 or more characters the guard as written decides like the intended one |
| ShelfNames.AsWrittenReadsBeforeSevenCharEntry | subversion/libsvn_client/shelve.c:620-623 | the 7-character entry "current" passes the guard as written and is listed as a shelf, though it is no pointer file |
| Shelve.ExistingPatchFile | subversion/libsvn_client/shelve.c:76-95 | succeeds exactly for 1 <= version <= max_version, with the patch file name; otherwise "no versions" when max_version <= 0, else "has no version" |
| Shelve.PointerRoundTrip | subversion/libsvn_client/shelve.c:216-244 | the pointer file written for v reads back as v, whatever was read before |
| Shelve.RollbackRemovesOnlyNewer | subversion/libsvn_client/shelve.c:483-499 | set_current_version(v), v >= 0: patch files v+1..max_version are gone, all others are untouched, the pointer reads v, and the range check refuses every version above v |
| Shelve.NegativeVersionLeavesDanglingPointer | subversion/libsvn_client/shelve.c:490-496 | a negative version deletes all patch files, then fails at version 0 with the pointer still at max_version |
| Shelve.SetCurrentVersionKeepsConsistent | subversion/libsvn_client/shelve.c:483-499 | rollback, or publishing a written next version, keeps a patch file for every version 1..max_version |
| Shelve.SaveNewVersionPublishes | subversion/libsvn_client/shelve.c:527-543 | a non-empty diff becomes version max_version + 1, with every earlier patch file kept and the pointer advanced |
| Shelve.SaveNewVersionEmptyKeepsVersion | subversion/libsvn_client/shelve.c:538-543 | an empty diff leaves max_version and the pointer, and leaves the empty patch file on disk |
| Shelve.SaveNewVersionKeepsConsistent | subversion/libsvn_client/shelve.c:520-545 | saving, successful or not, keeps every valid version's patch file |
| Shelve.DeleteAbsentShelfIsNoOp | subversion/libsvn_client/shelve.c:359-389 | deleting a shelf with no pointer and no revprop file succeeds and changes nothing |
| Shelve.DeleteIdempotent | subversion/libsvn_client/shelve.c:376-385 | after a successful delete, a second delete succeeds, changes nothing, and the shelf is not listed |
| Shelve.ListedIffPointer | subversion/libsvn_client/shelve.c:614-629 | a shelf is listed exactly when its pointer file exists |
| Shelve.ShelvesDir.RemoveFile | subversion/libsvn_client/shelve.c:106-107 | removal with ENOENT ignored: the file is gone and nothing else changes |
| Shelve.Shelf.Open | subversion/libsvn_client/shelve.c:322-350 | fails on a bad name or a malformed revprop file; otherwise a fresh shelf with the revprops and pointer on disk |
| Shelve.Shelf.ReadRevprops | subversion/libsvn_client/shelve.c:127-150 | no revprop file reads as no revprops; a malformed one fails |
| Shelve.Shelf.WriteRevprops | subversion/libsvn_client/shelve.c:154-172 | the whole map replaces the revprop file and reads back unchanged |
| Shelve.Shelf.ReadCurrent | subversion/libsvn_client/shelve.c:216-231 | max_version becomes the pointer on disk: 0 without a pointer file, unchanged when fscanf reads nothing |
| Shelve.Shelf.WriteCurrent | subversion/libsvn_client/shelve.c:234-244 | the pointer file holds max_version and reads back as it |
| Shelve.Shelf.RevpropSet | subversion/libsvn_client/shelve.c:174-184 | the property is set, get returns it, and the whole map is rewritten to disk |
| Shelve.Shelf.RevpropGet | subversion/libsvn_client/shelve.c:186-194 | a property is found exactly when set, with its value |
| Shelve.Shelf.GetLogMessage | subversion/libsvn_client/shelve.c:547-559 | the svn:log revprop, or "" when it is absent |
| Shelve.Shelf.SetLogMessage | subversion/libsvn_client/shelve.c:561-590 | a callback failure is returned; a withdrawn message or a dry run changes nothing; otherwise svn:log is the message ("" without a callback) and is persisted |
| Shelve.Shelf.DeletePatchFile | subversion/libsvn_client/shelve.c:97-109 | range-checked removal: an out-of-range version fails and changes nothing |
| Shelve.Shelf.DeleteNewerThan | subversion/libsvn_client/shelve.c:490-494 | the descending loop has exactly the effect of DeleteNewerSpec |
| Shelve.Shelf.SetCurrentVersion | subversion/libsvn_client/shelve.c:483-499 | error, directory and max_version are those of SetCurrentVersionSpec |
| Shelve.Shelf.SaveNewVersion | subversion/libsvn_client/shelve.c:520-545 | error, directory and max_version are those of SaveNewVersionSpec |
| Shelve.Shelf.GetPaths | subversion/libsvn_client/shelve.c:391-427 | out of range fails the range check; a missing patch file is NotFound; otherwise the parser's result |
| Shelve.Shelf.HasChanges | subversion/libsvn_client/shelve.c:429-441 | true exactly when the patch touches at least one path; an out-of-range version or a missing patch file fails exactly as get_paths does; otherwise the parser's error or whether it found paths |
| Shelve.Shelf.Apply | subversion/libsvn_client/shelve.c:443-461 | range-checked, then the patch engine forward on that version's file |
| Shelve.Shelf.Unapply | subversion/libsvn_client/shelve.c:463-481 | range-checked, then the patch engine in reverse on that version's file |
| Shelve.Shelf.ExportPatch | subversion/libsvn_client/shelve.c:501-518 | range-checked; the patch file's content, or NotFound when it is missing |
| Shelve.Shelf.VersionGetInfo | subversion/libsvn_client/shelve.c:648-669 | range-checked; the patch file and whether it exists, with no error when it is absent |
| Shelve.Delete | subversion/libsvn_client/shelve.c:359-389 | error and directory are those of DeleteSpec |
| Shelve.ListShelves | subversion/libsvn_client/shelve.c:592-632 | lists exactly the shelves whose pointer files exist, which is `ListSpec` of the directory |
| Shelve.AnyShelves | subversion/libsvn_client/shelve.c:634-646 | true exactly when some pointer file exists |
| FsxId.ChangeSetKinds | subversion/libsvn_fs_x/id.c:49-59 | at most one of is_txn and is_revision holds, and neither only for the invalid change set |
| FsxId.GetRevnum | subversion/libsvn_fs_x/id.c:61-67 | a revision's change set is its number, >= 0; anything else is SVN_INVALID_REVNUM |
| FsxId.GetTxnId | subversion/libsvn_fs_x/id.c:69-75 | a transaction's id is >= 0; anything else is the invalid txn id |
| FsxId.ChangeSetByRev | subversion/libsvn_fs_x/id.c:78-83 | a valid revision gives a revision change set, never a transaction one |
| FsxId.ChangeSetByTxn | subversion/libsvn_fs_x/id.c:85-90 | a valid txn id gives a transaction change set, and the invalid one the invalid change set |
| FsxId.RevisionRoundTrip | subversion/libsvn_fs_x/id.c:61-83 | get_revnum undoes change_set_by_rev and the reverse; a transaction has no revision number |
| FsxId.TxnRoundTrip | subversion/libsvn_fs_x/id.c:69-90 | get_txn_id undoes change_set_by_txn and the reverse; a revision has no txn id |
| FsxId.IdPartCompare | subversion/libsvn_fs_x/id.c:247-257 | 0 exactly for equal parts (id_part_eq), -1 and 1 exactly by the lexicographic order on (change set, number) |
| FsxId.IdPartIsRootMeaning | subversion/libsvn_fs_x/id.c:141-145 | a part is root exactly when it is number 0 of revision 0: used, a revision, below every other revision part; the noderev part of a root node (item 2) is not one |
| FsxId.IdPartCompareOrder | subversion/libsvn_fs_x/id.c:247-257 | the comparison is antisymmetric and transitive |
| FsxId.IdPartReset | subversion/libsvn_fs_x/id.c:175-180 | a reset part is unused, with number 0 |
| FsxId.InitTxnRoot | subversion/libsvn_fs_x/id.c:188-194 | the root node of transaction txn: its change set decodes to txn, item number 2; for the invalid txn id the part is unused |
| FsxId.InitRevRoot | subversion/libsvn_fs_x/id.c:196-202 | the root node of revision rev: its change set decodes to rev, item number 2; for SVN_INVALID_REVNUM the part is unused |
| FsxId.IdPartParse | subversion/libsvn_fs_x/id.c:154-163 | fails with MALFORMED_NODEREV_ID exactly when the character after the leading number is neither '+' nor '-' |
| FsxId.ParseUnparse | subversion/libsvn_fs_x/id.c:95-135 | part_parse undoes part_unparse and stops right behind the text, whatever non-digit follows |
| FsxId.IdPartParseUnparse | subversion/libsvn_fs_x/id.c:154-173 | id_part_parse of id_part_unparse gives the part back |
| FsxId.PartTextInjective | subversion/libsvn_fs_x/id.c:118-135 | different parts have different texts |
| FsxId.PartTextLength | subversion/libsvn_fs_x/id.c:165-173 | a part's text is at most 27 characters, which fits the 2 * SVN_INT64_BUFFER_SIZE + 1 buffer |
| FsxId.WriteText | subversion/libsvn_fs_x/id.c:122-126 | copies the text at the cursor, returns the position behind it, and leaves the rest of the buffer unchanged |
| FsxId.PartUnparse | subversion/libsvn_fs_x/id.c:118-135 | the buffer holds the part's text at the cursor, with the cursor advanced past it |
| FsxId.IdPartUnparse | subversion/libsvn_fs_x/id.c:165-173 | returns the part's text, which parses back to the part |
| FsxId.IdTextParts | subversion/libsvn_fs_x/id.c:208-220 | both parts of an ID's text parse back: the node part stops at the '.' |
| FsxId.IdUnparse | subversion/libsvn_fs_x/id.c:208-220 | the node part's text, '.', then the node-revision part's text |
| FsxId.IdCompare | subversion/libsvn_fs_x/id.c:225-245 | same exactly when the node-revision parts are equal; common ancestor exactly when they differ, are not in two different transactions, and the node parts are equal |
| FsxId.IdCompareProperties | subversion/libsvn_fs_x/id.c:225-245 | the relation is symmetric and reflexive, and nodes of two different transactions are unrelated |
| FsxId.IdCreate | subversion/libsvn_fs_x/id.c:268-286 | no ID exactly when the node-revision part is unused; otherwise the ID of the two parts |
| FsxId.CreateFromResetOrRoot | subversion/libsvn_fs_x/id.c:175-202 | a reset part makes no ID; a transaction or revision root does |
| Crop.IgnoreLocalMod | subversion/libsvn_wc/crop.c:34-44 | a removal that succeeds or fails only with LEFT_LOCAL_MOD is no error; any other failure is returned |
| Crop.CropOnlyBelow | subversion/libsvn_wc/crop.c:54-186 | cropping a directory changes no table outside its subtree |
| Crop.CropDepthLowered | subversion/libsvn_wc/crop.c:75-82 | the directory's own depth is lowered to the requested one when deeper, never raised |
| Crop.CropFileChild | subversion/libsvn_wc/crop.c:104-122 | a file child stays, unchanged, exactly when the depth is not empty, and is notified exactly when it goes |
| Crop.CropExcludedChild | subversion/libsvn_wc/crop.c:126-137 | an excluded subdirectory's entry stays exactly when the depth is at least immediates, and is never notified |
| Crop.CropRemovedSubdir | subversion/libsvn_wc/crop.c:138-152 | below immediates, a subdirectory goes with its whole subtree and is notified |
| Crop.CropDescendedSubdir | subversion/libsvn_wc/crop.c:153-164 | at immediates or deeper, a subdirectory keeps its entry, is cropped to empty, and is not notified itself |
| Crop.CropUnknownKindFails | subversion/libsvn_wc/crop.c:166-171 | a child that is neither file nor directory makes cropping fail |
| Crop.NotedBelowDir | subversion/libsvn_wc/crop.c:173-180 | only paths strictly below the directory are notified |
| Crop.EmptyCropLocal | subversion/libsvn_wc/crop.c:155-162 | the recursive crop to empty depends only on the child's own subtree |
| Crop.ExcludeOutcome | subversion/libsvn_wc/crop.c:217-269 | after an exclude the target's subtree is gone; its entry stays, marked excluded, exactly when the exclusion is recorded; every other table is unchanged |
| Crop.ExcludeAnchorRecordsNothing | subversion/libsvn_wc/crop.c:238-259 | excluding with an empty target records nothing: whatever entry of the anchor's own table gets marked goes with the anchor's tables, and the anchor's entry in its parent's table is never marked, so it is removed unless it was excluded already |
| Crop.WorkingCopy.EntryRemove | subversion/libsvn_wc/crop.c:133-134 | the entry leaves its directory's table and nothing else changes |
| Crop.WorkingCopy.RemoveFromRevisionControl | subversion/libsvn_wc/crop.c:144-151 | on failure nothing changes; otherwise a directory goes with its subtree, or a file's entry goes |
| Crop.WorkingCopy.Notify | subversion/libsvn_wc/crop.c:173-180 | the path is appended to the notification trace |
| Crop.WorkingCopy.CropChildren | subversion/libsvn_wc/crop.c:54-186 | succeeds exactly when CropOk; the tables become Cropped, and exactly the Noted paths are notified |
| Crop.WorkingCopy.CropEntries | subversion/libsvn_wc/crop.c:87-181 | after the loop every child is handled as Cropped and Noted describe; an error means CropOk fails |
| Crop.WorkingCopy.CropChild | subversion/libsvn_wc/crop.c:96-180 | handling one child succeeds exactly when ChildOk, and moves the tables and the trace by that child's rule |
| Crop.WorkingCopy.CropTree | subversion/libsvn_wc/crop.c:188-275 | nothing changes unless the depth is restrictive and the target is a directory; exclude removes and notifies the target (the anchor itself for an empty target), marking the entry named by the target's basename in the anchor's table when the exclusion is recorded; other depths crop the target's children |
| ClientDelete.Verdict | subversion/libsvn_client/delete.c:68-93 | no error exactly for a clean status; otherwise obstructed, then unversioned, then modified, whichever comes first |
| ClientDelete.ObstructionFirst | subversion/libsvn_client/delete.c:68-74 | an obstructed path is reported as obstructed, whatever else holds |
| ClientDelete.VerdictNamesPath | subversion/libsvn_client/delete.c:68-93 | every verdict names the path it was found at |
| ClientDelete.CanDelete | subversion/libsvn_client/delete.c:39-97 | no error exactly when every gathered status is clean; an error is the verdict of some status; a gathering failure is passed on |
| ClientDelete.DeleteLocal | subversion/libsvn_client/delete.c:209-216 | svn_wc_delete is reached exactly when forced or when the check passes, and its result is then returned; otherwise the check's error, the status-gathering failure or the verdict of a failing status |

## Left out

- The diff engine (`write_patch`, shelve.c:256-320) is left out. Its output is a parameter of `SaveNewVersion`: the bytes written and the error it stopped with.
- Patch parsing and application (`svn_diff_*` in get_paths, `svn_client_patch`) belong to other libraries. They are the parameters `parser` and `patcher`.
- The on-disk revprop hash format (`svn_hash_read2`/`svn_hash_write2`) belongs to another library. A revprop file holds the map itself, and any other content is malformed.
- `fopen`/`fprintf` failures in the pointer file's reader and writer are not modelled, because the source does not check them.
- Shelve.ShelvesDir.RemoveFile: file-system errors other than a missing file (`svn_io_remove_file2` at shelve.c:106, 383 and 385) are not modelled, because the shelves directory is a map. Removal always succeeds, so `DeleteNewerThan`, `SetCurrentVersion` and `Delete` never stop partway on an I/O error, as the C code can.
- Shelve.Shelf.WriteRevprops: failures of `svn_io_file_open`, `svn_hash_write2` and `svn_stream_close` (shelve.c:164-170) are not modelled. The write always happens, so `RevpropSet` and `SetLogMessage` never fail after updating the in-memory map, as the C code can.
- Shelve.Shelf.ReadRevprops: errors of `svn_stream_open_readonly` other than a missing file (shelve.c:138-146) are not modelled. Only a malformed file fails.
- Shelve.Shelf.SaveNewVersion: a failure of `svn_io_stat` (shelve.c:538) is not modelled. The size is the length of the bytes written.
- Shelve.Shelf.Open: a malformed pointer file leaves `max_version` uninitialised in the C struct; the model starts the handle at 0.
- File modification times in `svn_client_shelves_list` and `svn_client_shelf_version_get_info` are not kept. `VersionGetInfo` reports only whether the file exists.
- Working-copy root and shelves-directory discovery, and `svn_client_shelf_close` (a no-op), are I/O plumbing. The shelves directory is a parameter.
- `svn_client__shelf_revprop_list` returns the revprops hash itself. The `Shelf.revprops` field is that hash.
- Shelve.Delete: its `dry_run` argument is not consulted, as in the source.
- Shelve.Shelf.SaveNewVersion: `max_version + 1` is unbounded here, whereas the C `int` would overflow at INT_MAX.
- Decimal.ScanInt: `fscanf("%d")` is read as an unbounded number. For a pointer file whose value does not fit an `int` the C behaviour is undefined, and the model instead returns the full value.
- FsxId.ChangeSetByTxn: the int64 arithmetic of id.c:86-90 is unbounded here. At txn = INT64_MAX the C expression `-txn_id + SVN_FS_X__INVALID_CHANGE_SET - 1` overflows; that is undefined, and with wrap-around it gives INT64_MAX, a revision change set. The model gives -2^63-1, a transaction, so `FsxId.TxnRoundTrip` and `FsxId.InitTxnRoot` also hold at that input where the C does not. Likewise `FsxId.GetTxnId` (id.c:70-75) negates INT64_MIN, which is undefined in C; wrap-around happens to give the model's value there.
- FsxId.IdPartUnparse: requires an unsigned 64-bit number and a change set other than INT64_MIN, because the C negation of INT64_MIN overflows.
- FsxId.IdUnparse: requires the same bound as IdPartUnparse, for the same reason.
- FsxId.PartParse: reads the full digit run as an unbounded number. The C base-36 reader's 64-bit wrap-around and its fixed digit buffer are not modelled.
- `SVN_FS_X__INVALID_CHANGE_SET`, `SVN_FS_X__INVALID_TXN_ID` and `SVN_FS_X__ITEM_INDEX_ROOT_NODE` come from headers that are not part of this model. They are the upstream values -1, -1 and 2.
- The serializer vtable and `fsap_data` wiring of `svn_fs_x__id_create` are not modelled. An ID is a value.
- Admin-area locking and entries-file I/O in crop.c are not modelled. `svn_wc_adm_retrieve` fails only when the directory has no entries table (`NotLocked`), and the entries are written back at once.
- Cancel callbacks and a NULL notification callback are not modelled. Every notification is appended to the trace.
- Crop.WorkingCopy.CropTree: `svn_wc_is_wc_root`'s answer is the parameter `isRoot`, since the source ignores its error.
- Crop.WorkingCopy.CropTree: one case is required away (`ExcludeDefined`): an empty target whose exclusion would be recorded while the anchor's basename is not an entry of the anchor's own table. There crop.c:242-246 looks that basename up in the anchor's own entries and dereferences the NULL it gets. When the name is an entry, the C code marks that unrelated child and the model does the same (`ExcludeAnchorRecordsNothing` shows that nothing is recorded). The other empty-target branches are modelled: a working-copy root, an anchor added without history, and a parent depth of files or less.
- Crop.WorkingCopy.CropChildren: the tables after a failed removal or another error are not specified beyond the trace.
- Crop.WorkingCopy.RemoveFromRevisionControl: the collaborator's effect is the removal of the subtree's tables, or of the file's entry. Its own partial effects on failure are not modelled.
- Crop.WorkingCopy.RemoveFromRevisionControl: the collaborator (in adm_ops.c, which is not part of this model) is assumed to remove a removed directory's entry from its parent's table unless that entry is marked excluded (`RemoveDir`). It is assumed to do so whether or not the directory is a working-copy root, whatever `isRoot` says. `Crop.ExcludeOutcome`'s "its entry stays, marked excluded" rests on this assumption: the mark set at crop.c:242-247 survives the removal at crop.c:251-258 only because of it.
- ClientDelete.CanDelete: the hash is visited in an unspecified order. The error is stated as the verdict of some failing status, not of the first in any order.
- The failures of `svn_io_check_path` and `svn_wc_statuses` in `svn_client__can_delete` are one `Foreign` error code.
- The remote (URL) branch of `svn_client_delete`, `svn_wc_adm_open`/`close`, `svn_wc_delete` itself, and notifications are left out. They are network or foreign calls, and `wcDelete` is the parameter for their outcome.
- `clients/cmdline/status-cmd.c` and `svnrdump/load_editor.c` are CLI and RA plumbing with no logic of the core.
- Cross-process races on shelf files are not modelled, because the source makes no attempt to handle them.

## Findings

| source | as written | input that shows it | evidently intended | confidence | as-written member | corrected member |
|---|---|---|---|---|---|---|
| subversion/libsvn_client/shelve.c:620-622 | the guard is `len > 6`, but the suffix ".current" is 8 characters, so for a 7-character entry `strcmp` starts one byte before the name, and `len - 8` wraps round in `apr_pstrndup` | directory entry "current" preceded in memory by '.' is listed as a shelf named "current" | a shelf exactly for entries of at least 8 characters ending in ".current", named by what precedes the suffix | not executed | ShelfNames.AsWrittenReadsBeforeSevenCharEntry | ShelfNames.ShelfOfEntry |
