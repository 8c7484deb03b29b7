# Splice: backup, restore and request rules, in Dafny

Splice is a small Flask application. Technicians use it to log fibre-fusion
work records with photos, and an administrator uses it to manage users and
reports and to back up and restore the application's SQLite database and
data directories. This project models the decision logic underneath those
routes, over abstract state, and proves what it promises:

- `pystr.dfy` (`PyStr`): the Python string and `posixpath` operations the
  code relies on: `strip`, ASCII `lower`, `split`, `rsplit`, `splitext`,
  `os.path.join`/`basename` and `sorted` on names.
- `filesystem.dfy` (`FileSystem`): the abstract disk, a map from path to
  content. Content is raw bytes, a JSON manifest or a zip archive, where an
  archive is the sequence of its members in archive order. The file also
  holds `z.read` (the last member with a name wins), `os.listdir` and the
  regular-file filter.
- `full_backup.dfy` (`FullBackup`, `backup_bp.py`):
  - `guess_data_dirs` as its three appending loops and the final
    de-duplication loop;
  - archive and member naming, and the snapshot `build_full_backup_zip`
    writes;
  - `restore_from_full_zip`: the safety guard, the database precedence, the
    `groups` and `mapping` loops, the clear-then-copy of each group, and the
    path-stripping rule;
  - the `upload` and `restore` routes.
- `legacy_backup.dfy` (`LegacyBackup`, `templates/backup_bp.py`): the older
  database-only blueprint. It covers the allow-list, the listing, the upload
  naming, the best-effort safety copy and the extension dispatch.
- `db_helper.dfy` (`DbHelper`, `db_helper.py`): `resolve_db_url` and
  `resolve_db_path`.
- `persist_guard.dfy` (`PersistGuard`, `persist_guard.py`):
  - the destructive-SQL detector `\b(DROP\s+TABLE|DROP\s+SCHEMA|TRUNCATE)\b`
    (case-insensitive), given both as a declarative predicate and as the scan
    a regex search performs, with the two proved equal;
  - the connection wrapper;
  - the boot backup.
- `app_rules.dfy` (`SpliceRules`) and `app_store.dfy` (`SpliceStore`,
  `app_main.py`):
  - the photo-name tests, the new-record field validation, the work-map
    access check and the report WHERE builder;
  - a `Store` class holding the users, records and photos tables, whose
    methods are the `register`, `new_record`, `view_record`, `delete_record`
    and `admin_toggle_admin` routes.

The following become parameters:

- environment variables;
- timestamps;
- `secure_filename` and the password hash;
- what SQLite makes of a replayed script (`replay`);
- whether a safety copy or a photo save succeeds (the copies of a restore always do, unless they copy a file onto itself);
- what the safety build left on disk.

## Model

| member | source | states |
|---|---|---|
| PyStr.Lower | templates/backup_bp.py:10 | `str.lower` keeps the length and lowers each ASCII letter in place |
| PyStr.Split | backup_bp.py:46 | `split(c)` yields one more piece than there are separators, and no piece holds the separator |
| PyStr.SplitJoin | backup_bp.py:46 | joining the pieces of `split(c)` with `c` gives back the original string |
| PyStr.AfterLastIsSuffix | app_main.py:268 | `rsplit(c, 1)[-1]` is a suffix without `c`, preceded by `c` whenever `c` occurs |
| PyStr.AfterFirst | backup_bp.py:184-185 | `split(c, 1)[-1]` is the suffix after the first `c`, or the whole string without one |
| PyStr.BeforeFirst | db_helper.py:12 | the piece before the first occurrence of a separator: a prefix of the string with no occurrence starting inside it, followed by the separator or by the end of the string |
| PyStr.RStripChar | backup_bp.py:100 | `rstrip(c)` removes exactly the trailing run of `c` |
| PyStr.Strip | backup_bp.py:47 | the stripped string neither starts nor ends with whitespace |
| PyStr.StripIsTrim | backup_bp.py:47 | stripping removes only whitespace, at the two ends: the result is a slice with nothing but whitespace outside it |
| PyStr.StripFixed | db_helper.py:8 | stripping a string with no whitespace at either end leaves it unchanged |
| PyStr.PathJoin | backup_bp.py:79 | `os.path.join(a, b)` is `b` for an absolute `b`; otherwise it starts with `a` and ends with `b` |
| PyStr.Basename | backup_bp.py:100 | a basename holds no separator |
| PyStr.Ext | templates/backup_bp.py:10 | the `splitext` extension is empty, or a dot-led suffix of the last component with no further dot |
| PyStr.ExtOfStemDot | templates/backup_bp.py:10 | a dot in the last component with a non-dot character before it yields a non-empty extension |
| PyStr.StemDotOfExt | templates/backup_bp.py:10 | a non-empty extension starts at the last dot, which follows a non-dot character of the last component |
| PyStr.ExtNonEmpty | templates/backup_bp.py:10 | the extension is non-empty exactly when the last component has a dot after some non-dot character |
| PyStr.Sort | templates/backup_bp.py:33 | `sorted` returns a permutation of its input |
| PyStr.SortIsSorted | templates/backup_bp.py:33 | `sorted` returns its input in lexicographic order |
| PyStr.SortSameElements | templates/backup_bp.py:33 | `sorted` keeps exactly the same names |
| FileSystem.Names | backup_bp.py:137 | `namelist()` lists every member's name, in archive order |
| FileSystem.ReadIsLast | backup_bp.py:120 | reading a name yields the content of the last member written under it |
| FileSystem.ListDir | templates/backup_bp.py:33 | `os.listdir` reports every child name of the folder exactly once |
| FileSystem.FilesOnly | templates/backup_bp.py:33-36 | the filter keeps exactly the names that are regular files of the folder |
| FileSystem.FilesOnlySorted | templates/backup_bp.py:32-36 | filtering a sorted listing keeps it sorted |
| FullBackup.DedupLoop | backup_bp.py:66-72 | the `out`/`seen` loop computes the order-preserving de-duplication of `dirs` |
| FullBackup.DedupSameElements | backup_bp.py:66-72 | de-duplication keeps every element and adds none |
| FullBackup.DedupNoDup | backup_bp.py:66-72 | the de-duplicated list holds no repeats |
| FullBackup.DedupFirstOccurrenceOrder | backup_bp.py:66-72 | the de-duplicated entries keep the order of their first occurrences |
| FullBackup.KeepElements | backup_bp.py:44-64 | a candidate is kept exactly when it is non-empty and names a directory |
| FullBackup.IncludedDirs | backup_bp.py:44-49 | the first loop keeps each stripped BACKUP_INCLUDE_DIRS item that is a directory, repeats included |
| FullBackup.AddEnvDirs | backup_bp.py:51-55 | the environment loop keeps the list equal, up to de-duplication and as a set, to the eligible values seen so far |
| FullBackup.AddCandidates | backup_bp.py:57-64 | the root-candidate loop keeps the same invariant over the candidates |
| FullBackup.GuessDataDirs | backup_bp.py:42-72 | the result is duplicate-free, in first-occurrence order, and holds exactly the eligible include items, environment values and root candidates |
| FullBackup.ArchivePath | backup_bp.py:77-79 | the archive is `dest_folder/<label>-<ts>.zip`, whose basename is exactly that name |
| FullBackup.ArchiveNameBasename | backup_bp.py:78-79 | with a `/`-free label and timestamp, the archive path's basename is `<label>-<ts>.zip` |
| FullBackup.ArchivePathIsZip | backup_bp.py:78-79 | every archive path ends in `.zip` |
| FullBackup.BaseOf | backup_bp.py:100 | the archive folder of a data directory is non-empty and `/`-free (`files` when the basename is empty) |
| FullBackup.BaseOfNamedDir | backup_bp.py:100 | `parent/name`, with any number of trailing separators, is archived under `name` |
| FullBackup.ArcNameShape | backup_bp.py:105 | the member name of a relative file `rel` is `files/<base>/<rel>` |
| FullBackup.ArcNameInjective | backup_bp.py:104-105 | distinct relative paths under one base get distinct archive names |
| FullBackup.DirEntryInjective | backup_bp.py:101-106 | two files below one data directory never share an archive entry |
| FullBackup.WalkDir | backup_bp.py:101-106 | the walk of `d` writes the entry of every file below `d` and nothing else, with no entry twice |
| FullBackup.CollectMembers | backup_bp.py:93-106 | the archive is the manifest first, then `db/app.db` exactly when the database exists, then one walk per data directory in the order of the data directories, each holding exactly that directory's entries once |
| FullBackup.WalksSnoc | backup_bp.py:99-106 | appending the walk of one more directory extends the walks of the earlier directories, in order |
| FullBackup.WalksCoverDirs | backup_bp.py:99-106 | the walks of the data directories, taken together, hold exactly the entries of those directories |
| FullBackup.BuildFullBackupZip | backup_bp.py:75-108 | the archive is created at its path (truncating any file there) before anything is read, so it holds a snapshot of the files in which the archive itself holds its partial bytes; no other file changes |
| FullBackup.DirSetIgnoresOutside | backup_bp.py:99-106 | a file outside a data directory does not change that directory's walk |
| FullBackup.ArchiveBelowDirIsWalked | backup_bp.py:95-106 | an archive written below a data directory is walked, and its partial bytes become one of its own entries |
| FullBackup.WalksTransfer | backup_bp.py:99-106 | the walks depend only on the entries of the data directories |
| FullBackup.SnapshotOfOldFiles | backup_bp.py:95-106 | when the archive is neither the database nor below a data directory, the snapshot is one of the files as they were before the build |
| FullBackup.DbStep | backup_bp.py:137-150 | `db/app.db` wins over `db.sql`; with neither, the files are untouched; no file other than the database and its `.tmp` changes |
| FullBackup.GroupKeyShape | backup_bp.py:153-159 | a member is grouped under `b` exactly when its name starts with `files/<b>/` and `b` has no separator |
| FullBackup.GroupKeyOfPrefixed | backup_bp.py:153-159 | every name `files/<b>/<rest>` with a `/`-free `b` is grouped under `b` |
| FullBackup.PrefixedOfGroupKey | backup_bp.py:153-159 | a name grouped under `b` starts with `files/<b>/` |
| FullBackup.GroupOf | backup_bp.py:153-159 | a group holds only archive names keyed by that base |
| FullBackup.GroupStep | backup_bp.py:156-159 | one step of the `groups` loop extends both the groups and their insertion order to one more name |
| FullBackup.GroupMembers | backup_bp.py:153-159 | the `groups` dict maps each base to its members in archive order, and iterates bases in first-insertion order without repeats |
| FullBackup.KeyedByKeys | backup_bp.py:161-165 | the keys of a dict filled in a loop are exactly the keys of the elements |
| FullBackup.KeyedByLastWins | backup_bp.py:161-165 | each key maps to the last element with that key |
| FullBackup.KeyedByKeyOf | backup_bp.py:161-165 | every element is stored under its own key |
| FullBackup.MappingLaterWins | backup_bp.py:161-165 | the mapping holds the bases of the manifest directories, and a later directory with the same base overrides an earlier one |
| FullBackup.BuildMapping | backup_bp.py:161-165 | the `mapping` loop covers every manifest directory's base, and each entry maps back to its own base |
| FullBackup.DestFor | backup_bp.py:168 | the destination is the mapped directory, or `<root>/uploads/<base>`; it is never empty |
| FullBackup.ClearDir | backup_bp.py:170-179 | clearing removes exactly the files below the destination and keeps every other file as it was |
| FullBackup.CopyMembersKeeps | backup_bp.py:180-188 | copying a group never removes a file |
| FullBackup.CopyMembersAdds | backup_bp.py:180-188 | copying adds no path other than the targets of the group's non-directory members |
| FullBackup.CopyMembersUntouched | backup_bp.py:180-188 | a file that is no member's target keeps its content |
| FullBackup.MergeNeverDeletes | backup_bp.py:167-188 | in merge mode, restoring the groups deletes no existing file |
| FullBackup.ReplaceLeavesOnlyGroupFiles | backup_bp.py:170-188 | in replace mode, after a group is restored its destination holds only what the group copied there |
| FullBackup.RestoreRelOfArcName | backup_bp.py:184-186 | `files/<base>/<rel>` is restored at `rel` when `rel` is a plain name, and at `rel` minus its first directory otherwise |
| FullBackup.FileRoundTrip | backup_bp.py:184-186 | a data file archived and restored into its own directory comes back to its own path exactly when it is not nested |
| FullBackup.NestedFilesCollide | backup_bp.py:184-186 | two different nested members `a1/x` and `a2/x` are restored onto the same path |
| FullBackup.CopyGroup | backup_bp.py:180-188 | the copy loop writes each non-directory member of the group to its target below the destination |
| FullBackup.RestoreGroups | backup_bp.py:167-188 | the group loop clears (unless merging) and then copies each group in order |
| FullBackup.RestoreFromFullZip | backup_bp.py:111-188 | without a non-empty safety archive nothing changes; otherwise the snapshot of the current files, in which the safety archive holds its partial bytes, is written first; then an unreadable archive, or a database path without a directory part (`os.makedirs("")` raises), stops the restore; otherwise the database step, then the groups |
| FullBackup.GetDbPath | backup_bp.py:20-33 | a non-empty SQLITE_PATH wins; otherwise the first existing candidate; otherwise `instance/app.db` |
| FullBackup.Index | backup_bp.py:200-204 | the listing is sorted and holds exactly the regular files of the backup folder |
| FullBackup.Upload | backup_bp.py:243-257 | an absent or unnamed file is refused; the sanitised name's extension is checked; an accepted file is stored as `<ts>__<name>`, and nothing else changes |
| FullBackup.MergeRequested | backup_bp.py:263 | merge mode is on exactly for the form value `"1"` |
| FullBackup.ZipNameExt | backup_bp.py:16-17 | a name ending in `.zip` has extension `.zip` or none, never a database extension |
| FullBackup.DbExtNotZipName | backup_bp.py:16-17 | a name with a database extension does not end in `.zip` |
| FullBackup.ZipIsNotDbExt | backup_bp.py:16-17 | the two allow-lists are disjoint |
| FullBackup.RestoreDbFile | backup_bp.py:276-299 | an exception from the safety build stops the restore with nothing changed; otherwise, on the files after the safety archive (when one was written), a database path without a directory part fails, a `.sql` file empties the database and replays into it, a source that is `<db>.tmp` fails, and any other file replaces the live database |
| FullBackup.DispatchResult | backup_bp.py:272-310 | only an extension on neither allow-list is refused, and the refusal changes nothing |
| FullBackup.ArchiveRestoreSucceeds | backup_bp.py:113-188 | after a written safety archive, a chosen archive other than the safety archive is restored with success exactly when it is a readable archive, the database path has a directory part, and a database taken from `db.sql` replays without error |
| FullBackup.DbFileRestoreOk | backup_bp.py:287-299 | the database-file restore succeeds exactly when the database path has a directory part and either the script's replay succeeds (`.sql`; the database itself is read after being emptied) or the copied file is not `<db>.tmp` |
| FullBackup.DbFileRestoreSucceeds | backup_bp.py:276-299 | unless the safety build raised, a chosen database file is restored with success exactly in the cases of `DbFileRestoreOk`, whether or not the safety archive was written |
| FullBackup.Dispatch | backup_bp.py:272-310 | the outcome and the new files are those of `DispatchResult` on the old files and the safety snapshot, which is what the safety build collects from the old files with the safety archive holding its partial bytes; an archive without a written safety archive, or a safety build that raises, fails with nothing changed; a database path without a directory part fails; a copied database file replaces the live one |
| FullBackup.RestoreRoute | backup_bp.py:260-314 | no choice, a missing file or an unsupported extension changes nothing; otherwise the outcome and the new files are those of `DispatchResult` on the chosen file, with the safety snapshot the build collects from the old files with the safety archive holding its partial bytes; a safety build that fails makes the restore fail with the files unchanged; a database path without a directory part fails; a copied database file replaces the live one |
| LegacyBackup.ExtensionsAreLower | templates/backup_bp.py:7 | the allowed extensions are lower case, start with a dot and hold no further dot |
| LegacyBackup.AllowedExtHasSuffix | templates/backup_bp.py:9-11 | an allowed name ends, ignoring ASCII case, with one of the allowed extensions |
| LegacyBackup.AllowedExtOfSuffix | templates/backup_bp.py:9-11 | conversely, a stem that does not end in `.` or `/`, followed by an allowed extension, is allowed |
| LegacyBackup.AllowedExtIgnoresCase | templates/backup_bp.py:9-11 | the test does not depend on ASCII case |
| LegacyBackup.Index | templates/backup_bp.py:28-37 | the listing is sorted and holds exactly the regular files of the backup folder |
| LegacyBackup.StoredName | templates/backup_bp.py:56-58 | the stored name is the timestamp, `__`, then the sanitised name |
| LegacyBackup.StoredPathIsChild | templates/backup_bp.py:57-59 | the upload lands directly in the backup folder under its stored name |
| LegacyBackup.Upload | templates/backup_bp.py:44-62 | an absent or unnamed file, or a raw name with a refused extension, is not saved; otherwise the file is saved under its stored name |
| LegacyBackup.SafetyCopyPath | templates/backup_bp.py:77-79 | the safety copy lies in `_auto_safety` and is named `safety__<ts>__<basename(db)>` |
| LegacyBackup.Dispatch | templates/backup_bp.py:85-104 | the dispatch outcome is unsupported, failed or succeeded |
| LegacyBackup.Restore | templates/backup_bp.py:64-106 | the route takes the early returns; a database path without a directory part then raises outside the `try` (an HTTP 500) with nothing changed; otherwise the safety copy, then the dispatch |
| LegacyBackup.EarlyExitsChangeNothing | templates/backup_bp.py:66-76 | an empty choice or a missing file returns early, and a database path without a directory part ends the request with an uncaught error, each exactly in its case and without changing a file |
| LegacyBackup.SafetyCopyOnlyOfExistingDb | templates/backup_bp.py:77-84 | the safety copy holds the old database exactly when the database existed and the copy succeeded |
| LegacyBackup.SafetyCopyFailureIsHarmless | templates/backup_bp.py:80-84 | a failed safety copy does not change the restore's outcome, nor any file other than the copy |
| LegacyBackup.DispatchIgnoresOtherFile | templates/backup_bp.py:85-104 | the dispatch does not depend on a file other than the chosen one |
| LegacyBackup.DispatchDatabase | templates/backup_bp.py:85-100 | copy extensions put the chosen file over the database, `.sql` leaves the replayed script's database, and any other extension is refused without change |
| DbHelper.LastSegment | db_helper.py:13 | `split("/")[-1]` if there is a `/`, else the whole text: the last `/`-segment |
| DbHelper.LastSegmentUnique | db_helper.py:13 | the last `/`-segment of a text is determined uniquely |
| DbHelper.RelativeTail | db_helper.py:11-13 | the kept file name is the last `/`-segment of the piece after `sqlite:///`: the whole piece when it has no `/`, else the text after its last `/` |
| DbHelper.ResolveDbPath | db_helper.py:18-22 | the path is DATABASE_FILE joined onto DATA_DIR |
| DbHelper.ResolveDbUrl | db_helper.py:4-16 | the URL is never empty |
| DbHelper.DefaultUrlEmbedsPath | db_helper.py:16-22 | without a usable DATABASE_URL, the URL is `sqlite:////` followed by exactly the path `resolve_db_path` gives |
| DbHelper.RelativeUrlRebuilt | db_helper.py:11-14 | a relative SQLite URL is rebuilt as `sqlite:////` plus DATA_DIR joined with the last `/`-segment of its tail |
| DbHelper.OtherUrlsKept | db_helper.py:8-15 | an absolute SQLite URL, or any other URL, is returned as given apart from the strip |
| DbHelper.BuiltUrlIsAbsolute | db_helper.py:14-16 | every URL the function builds itself is absolute |
| DbHelper.KeptUrlIsFixed | db_helper.py:8-15 | a stripped, non-relative URL given as DATABASE_URL comes back unchanged |
| DbHelper.ResolveIdempotent | db_helper.py:8-16 | feeding the result back as DATABASE_URL gives the same URL, provided it has no trailing whitespace |
| DbHelper.NotIdempotentWithTrailingSpace | db_helper.py:8-16 | a DATABASE_FILE ending in a space makes the result change when it is resolved again |
| PersistGuard.ScanSound | persist_guard.py:22 | a position the scan accepts starts a match of the pattern |
| PersistGuard.ScanComplete | persist_guard.py:22 | every match start is a position the scan accepts |
| PersistGuard.MatchStartsAtCorrect | persist_guard.py:22 | the scan at one position agrees with the pattern |
| PersistGuard.Search | persist_guard.py:22 | `_DANGEROUS.search` finds a match exactly when the pattern matches somewhere |
| PersistGuard.MatchNeedsKeyword | persist_guard.py:21-22 | every match starts with `DROP` or `TRUNCATE` |
| PersistGuard.MatchIsWholeWords | persist_guard.py:22 | the characters just outside a match are not word characters |
| PersistGuard.NoKeywordNoMatch | persist_guard.py:21-22 | a statement without either keyword, such as a plain `DELETE ... WHERE`, never matches |
| PersistGuard.TruncateRunOnNoMatch | persist_guard.py:22 | a word running on past `TRUNCATE` starts no match |
| PersistGuard.DropRunOnNoMatch | persist_guard.py:22 | `DROP` followed by a word running on past `TABLE` starts no match |
| PersistGuard.TruncatedPasses | persist_guard.py:22 | `TRUNCATED` is not dangerous |
| PersistGuard.XDropTablePasses | persist_guard.py:22 | `XDROP TABLE` is not dangerous |
| PersistGuard.LowerCaseDropCaught | persist_guard.py:22 | case and the amount of whitespace do not matter: `drop \t table` is caught |
| PersistGuard.AllowDrop | persist_guard.py:23 | destructive SQL is allowed exactly for ALLOW_DESTRUCTIVE_SQL = `"1"` |
| PersistGuard.Connection.Execute | persist_guard.py:32-35 | a guarded `execute` raises exactly on a dangerous string, without forwarding it; otherwise it forwards the same arguments |
| PersistGuard.Connection.ExecuteScript | persist_guard.py:36-39 | the same for `executescript` |
| PersistGuard.ConnectGuard | persist_guard.py:26-42 | a new connection is wrapped unless destructive SQL is allowed |
| PersistGuard.BootBackupPath | persist_guard.py:16-17 | the boot backup is `<DATA_DIR>/backups/boot-<ts>.db` |
| PersistGuard.BootBackup | persist_guard.py:13-19 | the boot backup copies the database only when it exists, and a failed copy changes nothing |
| SpliceRules.PhotoExt | app_main.py:268 | the photo extension has no dot, and is the whole lowered name when there is no dot |
| SpliceRules.AllowedFileIsPhotoAcceptedWithDot | app_main.py:96-97 | `allowed_file` and the `new_record` test agree exactly on names with a dot |
| SpliceRules.DotlessPngAcceptedByNewRecordOnly | app_main.py:264-270 | the dot-less name `png` passes `new_record` but not `allowed_file` |
| SpliceRules.AllowedFileOfExtension | app_main.py:96-97 | `<stem>.<ext>` with an allowed extension, in any ASCII case, is allowed |
| SpliceRules.DigitsValue | app_main.py:256 | `int()` of a single digit is that digit's value, and a digit string of length n is worth less than 10^n |
| SpliceRules.DigitsValueConcat | app_main.py:256 | positional notation: the digits in front are worth 10^(number of digits after them) times their own value |
| SpliceRules.LeadingZeroIgnored | app_main.py:256 | a leading zero does not change the value |
| SpliceRules.LeadingDigitBound | app_main.py:256 | a count with no leading zero is worth at least 10^(n-1) |
| SpliceRules.CountWidth | app_main.py:252-256 | counts of up to eighteen digits fit SQLite's signed 64-bit integers; counts of twenty or more digits without a leading zero do not |
| SpliceRules.FieldsOkCases | app_main.py:238-245 | a missing device name or count is refused; an accepted count has no sign and no inner space |
| SpliceRules.MapAccessRules | app_main.py:248 | a non-admin naming an inaccessible non-zero map is refused; an absent id, id 0, an admin or an accessible map never are |
| SpliceRules.OversizedMapIdNeedsAdmin | app_main.py:247-256 | when the shared map ids fit SQLite's integers, a work map id that does not fit is refused exactly for a non-admin, so only an admin's request reaches the overflowing INSERT |
| SpliceRules.OneMarkEach | app_main.py:515-523 | every clause holds exactly one placeholder |
| SpliceRules.JoinedMarks | app_main.py:525 | joining the clauses with ` AND ` gives one placeholder per clause |
| SpliceRules.ActiveFiltersChosen | app_main.py:507-523 | each filter is present exactly when its argument is given, `user_id=0` counts as absent, and the order is start, end, user |
| SpliceRules.WhereSql | app_main.py:525 | `where_sql` is empty exactly without filters and holds one placeholder per filter |
| SpliceRules.ReportFilter | app_main.py:511-525 | clauses and parameters are appended together, so the k-th parameter binds the k-th clause, and the placeholders match the parameters |
| SpliceStore.Viewable | app_main.py:318-327 | a record is visible exactly when it exists, its author row exists, and the caller owns it or is an admin |
| SpliceStore.ViewableIsDeletable | app_main.py:360-366 | whoever may view a record may delete it; the converse needs the author's row |
| SpliceStore.StrangersLockedOut | app_main.py:323 | a user who is neither owner nor admin can neither view nor delete the record |
| SpliceStore.PhotosOf | app_main.py:330-335 | a record's photos are exactly the photo rows with its id |
| SpliceStore.PhotosWithout | app_main.py:381 | the photo delete keeps exactly the rows of other records |
| SpliceStore.RecordsWithout | app_main.py:382 | the record delete keeps exactly the rows with other ids |
| SpliceStore.RecordsWithoutKeepsUnique | app_main.py:382 | deleting records keeps ids unique |
| SpliceStore.ToggledUsers | app_main.py:470-472 | only the flag of the user with that id flips; every other field and row is unchanged |
| SpliceStore.ToggleTwice | app_main.py:470-472 | toggling twice restores the table |
| SpliceStore.Window | app_main.py:264 | `files[:6]` is the first six files, or all of them when fewer |
| SpliceStore.KeptUploads | app_main.py:264-289 | an upload yields a photo exactly when its name is accepted and its save succeeds |
| SpliceStore.FinalName | app_main.py:273-275 | the saved name is the timestamp, `_`, then the sanitised name |
| SpliceStore.PhotoRows | app_main.py:282-285 | each kept upload yields its photo row, in order |
| SpliceStore.SavedNames | app_main.py:287 | each kept upload yields its saved name, in order |
| SpliceStore.StoreAllKeys | app_main.py:276-279 | saving creates exactly the kept uploads' paths |
| SpliceStore.StoreAllKeepsOthers | app_main.py:276-279 | a file at any other path keeps its content |
| SpliceStore.LastUploadWins | app_main.py:276-279 | the path of the last kept upload holds its bytes |
| SpliceStore.AtMostSixPhotos | app_main.py:264-270 | at most six photos are saved, each among the first six files and accepted by name |
| SpliceStore.SeventhFileIgnored | app_main.py:264 | a seventh file changes nothing |
| SpliceStore.RemovePhotoFiles | app_main.py:372-378 | the removal loop removes exactly the record's photo files that exist |
| SpliceStore.SavePhotos | app_main.py:264-289 | the photo loop writes each kept upload and yields its row and name |
| SpliceStore.Store.Register | app_main.py:117-156 | registration is closed once any user exists; otherwise a complete POST creates the first user, as an admin |
| SpliceStore.Store.ViewRecord | app_main.py:310-345 | the visible record and its photos, or 404 |
| SpliceStore.Store.DeleteRecord | app_main.py:352-390 | an allowed delete removes the record, its photo rows and its files, and nothing else; otherwise nothing changes |
| SpliceStore.Store.ToggleAdmin | app_main.py:461-482 | an unknown id changes nothing; otherwise only that user's flag flips |
| SpliceStore.Store.NewRecord | app_main.py:225-308 | invalid fields, a refused map, or a count of more than 4300 digits, leading zeros included (on which `int()` raises), or a count or work map id outside SQLite's signed 64-bit integers (on which the INSERT raises) change nothing, each exactly in its case; otherwise a draft record and the kept photos are inserted |

## Left out

- Byte formats are not modelled: zip compression, the JSON text of the manifest and the UTF-8 decoding of scripts. An archive is its sequence of members, and a manifest is a record.
- The SQL engine is not modelled. Tables are sequences and SQLite is the `replay` parameter. The SQL text of queries other than the report's WHERE clause is not modelled.
- The following are process control and concurrency, and are left out:
  - the self-restart thread of `restore` (SIGTERM, `os._exit`);
  - the SQLAlchemy engine dispose.
- The temporary extraction directory is left out: members are read straight from the archive.
- Directories are implicit, as the paths below them, and the directory branch of the clearing loop (`shutil.rmtree`) is one with the file branch. `os.makedirs` fails in the model only on an empty name, which the database's directory is when the database path has no `/` (PyStr.NoDirPart); the group destinations and member targets always have one. An `os.makedirs` that fails because a file sits where a directory is needed is not modelled.
- `create_backup`, `create_full` and `download` in both blueprints are left out. They are thin wrappers around a copy, the full build and a file send.
- `get_backup_dir` is left out: the backup folder is a parameter.
- Several library calls are parameters:
  - `secure_filename` is the `sanitize` function;
  - `generate_password_hash` is the `hash` function;
  - `time.strftime` / `datetime.now` are the `ts` strings.
- `log_user_action`, `flash`, templates, redirects, sessions and the login/admin decorators are left out.
- PersistGuard.IsWord: `\w` is restricted to ASCII letters, digits and `_`. Python's Unicode `\w` also counts other letters. `\s` and the case folding of `re.I` are modelled exactly for the pattern's letters.
- PyStr.Lower: folds only ASCII letters. Python's `str.lower` also lowers other scripts, which cannot affect the ASCII extension tests except through the Kelvin sign.
- The `IntegrityError` branch of `register` is not modelled: the insert runs only on an empty users table, so it cannot occur.
- A failed photo save leaves no file in the model. The source may leave a partial file behind.
- PersistGuard.BootBackup, LegacyBackup.SafetyCopyOnlyOfExistingDb, LegacyBackup.SafetyCopyFailureIsHarmless and LegacyBackup.Restore: a failed safety copy (`copyOk` false) leaves no file in the model. A `shutil.copy2` that fails partway can leave a partial file at the target, and one whose `copystat` fails after the data was copied leaves a complete copy.
- FullBackup.RestoreDbFile: a failed `shutil.copy2` or `os.replace` is not modelled (see the next line): a copied file always replaces the database.
- FullBackup.Dispatch: through RestoreFromFullZip and RestoreDbFile, the copies of a restore always succeed (see the next line).
- FullBackup.RestoreRoute: the copies of a restore always succeed (see the next line), and the chosen path `backup_dir/<name>` is compared as a raw string, without normalisation (see the paths line below).
- LegacyBackup.Restore, FullBackup.RestoreDbFile, FullBackup.CopyGroup, FullBackup.RestoreGroups, FullBackup.RestoreFromFullZip, FullBackup.Dispatch and FullBackup.RestoreRoute: the copies of a restore (`shutil.copy2` over the database or to `<db>.tmp`, `os.replace`, and the copy of each group member) always succeed in the model, apart from the copy of a file onto itself. A disk or permission error there, the failure outcome it gives and the partial files it leaves are not modelled.
- `os.remove` failures while deleting a record are not modelled: every existing file is removed.
- SpliceStore.Store.ViewRecord: the LEFT JOIN with `work_maps` only adds a title and is left out.
- SpliceStore.Store.ViewRecord: photos come back in insertion order. The source orders them by `uploaded_at`, a column default that is not part of this model; photos saved in the same second tie, and SQL leaves the order of ties unspecified. Insertion order is the model's choice of tie-break.
- SpliceStore.Store.Register and SpliceStore.Store.NewRecord take the form values after `.strip()` (`FormText`, `ReadRecordForm`) rather than the raw form.
- DbHelper.ResolveIdempotent: holds only for a result without trailing whitespace. DbHelper.NotIdempotentWithTrailingSpace shows the proviso is needed.
- The `DELETE ... WHERE` example is stated for every statement without either keyword (PersistGuard.NoKeywordNoMatch).
- The monkey-patching of `sqlite3.connect` is left out: the model is the wrapper's decision.
- FullBackup.RestoreFromFullZip, FullBackup.RestoreDbFile, FullBackup.Dispatch and FullBackup.RestoreRoute: the result of the safety build is the `safety` parameter. When the build leaves an empty archive (`EmptyOrMissing`), the model does not record the empty file: the archive route keeps the files unchanged, and the database-file route goes on from the files as they were.
- FullBackup.BuildFullBackupZip, FullBackup.RestoreFromFullZip, FullBackup.RestoreDbFile, FullBackup.Dispatch and FullBackup.RestoreRoute: the archive being written is read back as one `partial` content for every read of it (the database read when it is the database, and its walk entry when it lies below a data directory). The bytes that are actually read depend on how far the writing has got, which the model does not follow.
- FullBackup.RestoreFromFullZip, FullBackup.RestoreDbFile, FullBackup.Dispatch and FullBackup.RestoreRoute: when the safety build raises partway through writing (a file that vanished or cannot be read), the source still closes the archive and leaves a partial `safety-<ts>.zip` in the backup folder. The model leaves the files unchanged on `BuildRaised` and does not record that partial archive.
- SpliceRules.FieldsOkCases, SpliceRules.FieldsOk and PyStr.IsDigits: the count must be ASCII digits. Python's `str.isdigit` also accepts other Unicode digits: `"３"` or `"٣"` is accepted by the source and stored as 3, where the model refuses it, and `"²"` passes `isdigit` but makes `int()` raise (an HTTP 500).
- Paths are compared as raw strings, with `os.path.join` modelled exactly (PyStr.PathJoin). PersistGuard.BootBackup, FullBackup.GetDbPath, FullBackup.RestoreRoute and LegacyBackup.Restore therefore do not capture path normalisation or aliasing: `Path(DATA_DIR) / DB_FILE` turns `./data` into `data` and collapses `//`, and two spellings of one file are two keys of the model's disk. `os.path.exists` is also true for a directory, where the model tests for a file key.
- The `.mkdir` calls of `db_helper.py` and `persist_guard.py` are left out.
