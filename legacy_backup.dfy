/**
 * The older, database-only backup blueprint (`templates/backup_bp.py`):
 * the extension allow-list, the listing of the backup folder, the upload
 * naming rule and the restore route with its best-effort safety copy.
 * The database path comes from the same `get_db_path` rule as the full
 * blueprint (`FullBackup.GetDbPath`); it is a parameter here.
 */
module LegacyBackup {
  import opened PyStr
  import opened FileSystem
  import FullBackup

  const ALLOWED_EXTENSIONS: set<string> := {".db", ".sqlite", ".sqlite3", ".sql"}

  /** The extensions that `restore` copies straight over the database. */
  const COPY_EXTENSIONS: set<string> := {".db", ".sqlite", ".sqlite3"}

  // =====================================================================
  // The allow-list
  // =====================================================================

  /** `allowed_ext`: the `splitext` extension of the lower-cased name. */
  predicate AllowedExt(filename: string) {
    Ext(Lower(filename)) in ALLOWED_EXTENSIONS
  }

  /** An allowed name ends, ignoring ASCII case, with one of the extensions. */
  lemma AllowedExtHasSuffix(filename: string)
    requires AllowedExt(filename)
    ensures exists e :: e in ALLOWED_EXTENSIONS && EndsWith(Lower(filename), e) && |e| < |filename|
  {
    var q := Lower(filename);
    var e := Ext(q);
    var sepIndex := LastIndexOf(q, '/');
    var dotIndex := LastIndexOf(q, '.');
    assert e == q[dotIndex..];
    assert e in ALLOWED_EXTENSIONS && EndsWith(q, e);
  }

  /** `splitext` on a name whose last component ends in `.<tail>`, with a
      character other than `.` right before the dot. */
  lemma ExtOfDotTail(q: string, n: nat)
    requires 1 <= n < |q| && q[n] == '.' && '.' !in q[n + 1..] && '/' !in q[n..]
    requires q[n - 1] != '.' && q[n - 1] != '/'
    ensures Ext(q) == q[n..]
  {
    var dotIndex := LastIndexOf(q, '.');
    assert dotIndex == n;
    var sepIndex := LastIndexOf(q, '/');
    assert sepIndex < n - 1;
    assert sepIndex + 1 <= n - 1 < dotIndex;
  }

  /** The allowed extensions are already lower case. */
  lemma ExtensionsAreLower(e: string)
    requires e in ALLOWED_EXTENSIONS
    ensures Lower(e) == e
    ensures e[0] == '.' && '.' !in e[1..] && '/' !in e
  {
    if e == ".db" {
      assert Lower(e) == ".db";
    } else if e == ".sqlite" {
      assert Lower(e) == ".sqlite";
    } else if e == ".sqlite3" {
      assert Lower(e) == ".sqlite3";
    } else {
      assert Lower(e) == ".sql";
    }
  }

  /** Conversely, any stem whose last character is neither `.` nor `/`,
      followed by an allowed extension, is an allowed name. */
  lemma {:induction false} AllowedExtOfSuffix(stem: string, e: string)
    requires e in ALLOWED_EXTENSIONS
    requires stem != "" && stem[|stem| - 1] != '.' && stem[|stem| - 1] != '/'
    ensures AllowedExt(stem + e)
  {
    ExtensionsAreLower(e);
    var n := |stem|;
    var q := Lower(stem + e);
    assert q[n..] == Lower(e) by {
      forall i | 0 <= i < |e|
        ensures q[n..][i] == Lower(e)[i]
      {
        assert (stem + e)[n + i] == e[i];
      }
    }
    assert q[n - 1] == LowerChar(stem[n - 1]);
    ExtOfDotTail(q, n);
  }

  /** The test ignores ASCII case. */
  lemma AllowedExtIgnoresCase(filename: string)
    ensures AllowedExt(Lower(filename)) == AllowedExt(filename)
  {
    assert Lower(Lower(filename)) == Lower(filename);
  }

  // =====================================================================
  // index
  // =====================================================================

  /** `index`: walks the sorted directory listing and keeps the regular files. */
  method Index(files: map<string, Content>, backupFolder: string) returns (listing: seq<string>)
    ensures Sorted(listing)
    ensures forall f :: f in listing <==> f in Children(files, backupFolder) && IsFile(files, backupFolder, f)
  {
    var names := ListDir(files, backupFolder);
    var sorted := Sort(names);
    SortIsSorted(names);
    SortSameElements(names);
    listing := [];
    for i := 0 to |sorted|
      invariant listing == FilesOnly(files, backupFolder, sorted[..i])
    {
      FilesOnlyStep(files, backupFolder, sorted, i);
      if IsFile(files, backupFolder, sorted[i]) {
        listing := listing + [sorted[i]];
      }
    }
    assert sorted[..|sorted|] == sorted;
    FilesOnlySorted(files, backupFolder, sorted);
  }

  // =====================================================================
  // upload
  // =====================================================================

  /** The name an upload is stored under: `<ts>__<sanitised name>`. */
  function StoredName(ts: string, sanitized: string): (name: string)
    ensures StartsWith(name, ts) && EndsWith(name, sanitized) && |name| == |ts| + 2 + |sanitized|
  {
    ts + "__" + sanitized
  }

  /** The stored file is a direct child of the backup folder, under exactly
      its stored name, whenever the timestamp and the sanitised name hold no `/`. */
  lemma StoredPathIsChild(backupFolder: string, ts: string, sanitized: string)
    requires '/' !in ts && '/' !in sanitized
    ensures Basename(PathJoin(backupFolder, StoredName(ts, sanitized))) == StoredName(ts, sanitized)
  {
    var name := StoredName(ts, sanitized);
    assert '/' !in name;
    BasenameOfJoin(backupFolder, name);
  }

  /**
   * `upload`: an absent or unnamed file is refused; the extension test is
   * made on the RAW client name; the file is then saved under
   * `<ts>__<secure_filename(name)>` (`sanitize` stands for
   * `secure_filename`).
   */
  method Upload(disk: Disk, backupFolder: string, ts: string, file: Option<FullBackup.UploadFile>,
                sanitize: string -> string)
    returns (r: FullBackup.UploadOutcome)
    modifies disk
    ensures r == FullBackup.NoFile <==> file.None? || file.value.filename == ""
    ensures r == FullBackup.Rejected <==>
      file.Some? && file.value.filename != "" && !AllowedExt(file.value.filename)
    ensures !r.Stored? ==> disk.files == old(disk.files)
    ensures r.Stored? ==>
      && AllowedExt(file.value.filename)
      && r.path == PathJoin(backupFolder, StoredName(ts, sanitize(file.value.filename)))
      && disk.files == old(disk.files)[r.path := file.value.content]
  {
    if file.None? || file.value.filename == "" {
      return FullBackup.NoFile;
    }
    if !AllowedExt(file.value.filename) {
      return FullBackup.Rejected;
    }
    var stored := StoredName(ts, sanitize(file.value.filename));
    var dest := PathJoin(backupFolder, stored);
    disk.files := disk.files[dest := file.value.content];
    r := FullBackup.Stored(dest);
  }

  // =====================================================================
  // restore
  // =====================================================================

  /** Where the safety copy goes: `_auto_safety/safety__<ts>__<basename(db)>`
      inside the backup folder. */
  function SafetyCopyPath(backupFolder: string, ts: string, dbPath: string): (p: string)
    ensures StartsWith(p, DirPrefix(PathJoin(backupFolder, "_auto_safety")))
    ensures '/' !in ts ==> Basename(p) == "safety__" + ts + "__" + Basename(dbPath)
  {
    var safedir := PathJoin(backupFolder, "_auto_safety");
    var name := "safety__" + ts + "__" + Basename(dbPath);
    JoinIsPrefixPlus(safedir, name);
    SafetyNameIsChild(safedir, ts, Basename(dbPath));
    PathJoin(safedir, name)
  }

  lemma SafetyNameIsChild(safedir: string, ts: string, base: string)
    requires '/' !in base
    ensures '/' !in ts ==> Basename(PathJoin(safedir, "safety__" + ts + "__" + base)) == "safety__" + ts + "__" + base
  {
    if '/' !in ts {
      var name := "safety__" + ts + "__" + base;
      assert '/' !in name;
      BasenameOfJoin(safedir, name);
    }
  }

  /** The files after the safety copy: made only when the database exists,
      and only if `shutil.copy2` does not fail (`copyOk`). */
  function WithSafetyCopy(files: map<string, Content>, dbPath: string, safetyPath: string, copyOk: bool)
    : map<string, Content>
  {
    if dbPath in files && copyOk then files[safetyPath := files[dbPath]] else files
  }

  /**
   * The extension dispatch: `.db`/`.sqlite`/`.sqlite3` are copied over the
   * database (`shutil.copy2` refuses to copy a file onto itself); `.sql`
   * removes the database, opens a fresh empty one in its place, reads the
   * script from `src` and replays it; anything else is refused.
   */
  function Dispatch(files: map<string, Content>, src: string, dbPath: string, replay: Content -> Replay)
    : (r: (FullBackup.RouteOutcome, map<string, Content>))
    requires src in files
    ensures r.0 in {FullBackup.Unsupported, FullBackup.Failed, FullBackup.Succeeded}
  {
    var ext := Ext(Lower(src));
    if ext in COPY_EXTENSIONS then
      if src == dbPath then (FullBackup.Failed, files)
      else (FullBackup.Succeeded, files[dbPath := files[src]])
    else if ext == ".sql" then
      var emptied := files[dbPath := Blob([])];
      var out := replay(emptied[src]);
      (if out.ok then FullBackup.Succeeded else FullBackup.Failed, emptied[dbPath := out.db])
    else (FullBackup.Unsupported, files)
  }

  /** The outcome and the files after `restore`. */
  function RestoreResult(files: map<string, Content>, chosen: Option<string>, backupFolder: string,
                         ts: string, dbPath: string, copyOk: bool, replay: Content -> Replay)
    : (FullBackup.RouteOutcome, map<string, Content>)
  {
    if chosen.None? || chosen.value == "" then (FullBackup.NoChoice, files)
    else
      var src := PathJoin(backupFolder, chosen.value);
      if src !in files then (FullBackup.NotFound, files)
      else if NoDirPart(dbPath) then (FullBackup.Crashed, files)
      else Dispatch(WithSafetyCopy(files, dbPath, SafetyCopyPath(backupFolder, ts, dbPath), copyOk),
                    src, dbPath, replay)
  }

  /**
   * `restore`, step by step: the early returns, the directory of the
   * database (whose failure escapes the route), the best-effort safety copy
   * (a failing copy is only logged), then the dispatch by extension.
   */
  method Restore(disk: Disk, chosen: Option<string>, backupFolder: string, ts: string, dbPath: string,
                 copyOk: bool, replay: Content -> Replay)
    returns (r: FullBackup.RouteOutcome)
    modifies disk
    ensures (r, disk.files) == RestoreResult(old(disk.files), chosen, backupFolder, ts, dbPath, copyOk, replay)
  {
    if chosen.None? || chosen.value == "" {
      return FullBackup.NoChoice;
    }
    var src := PathJoin(backupFolder, chosen.value);
    if src !in disk.files {
      return FullBackup.NotFound;
    }
    if NoDirPart(dbPath) {
      // `os.makedirs` raises outside the `try`: nothing after it runs
      return FullBackup.Crashed;
    }
    var safetyCopy := SafetyCopyPath(backupFolder, ts, dbPath);
    if dbPath in disk.files && copyOk {
      disk.files := disk.files[safetyCopy := disk.files[dbPath]];
    }
    var ext := Ext(Lower(src));
    if ext in COPY_EXTENSIONS {
      if src == dbPath {
        return FullBackup.Failed;
      }
      disk.files := disk.files[dbPath := disk.files[src]];
      r := FullBackup.Succeeded;
    } else if ext == ".sql" {
      disk.files := disk.files[dbPath := Blob([])];
      var out := replay(disk.files[src]);
      disk.files := disk.files[dbPath := out.db];
      r := if out.ok then FullBackup.Succeeded else FullBackup.Failed;
    } else {
      r := FullBackup.Unsupported;
    }
  }

  /** With no choice, a chosen file that does not exist, or a database path
      without a directory part, nothing changes. */
  lemma EarlyExitsChangeNothing(files: map<string, Content>, chosen: Option<string>, backupFolder: string,
                                ts: string, dbPath: string, copyOk: bool, replay: Content -> Replay)
    ensures RestoreResult(files, chosen, backupFolder, ts, dbPath, copyOk, replay).0 == FullBackup.NoChoice
            <==> chosen.None? || chosen.value == ""
    ensures RestoreResult(files, chosen, backupFolder, ts, dbPath, copyOk, replay).0 == FullBackup.NotFound
            <==> chosen.Some? && chosen.value != "" && PathJoin(backupFolder, chosen.value) !in files
    ensures RestoreResult(files, chosen, backupFolder, ts, dbPath, copyOk, replay).0 == FullBackup.Crashed
            <==> chosen.Some? && chosen.value != "" && PathJoin(backupFolder, chosen.value) in files && NoDirPart(dbPath)
    ensures RestoreResult(files, chosen, backupFolder, ts, dbPath, copyOk, replay).0
              in {FullBackup.NoChoice, FullBackup.NotFound, FullBackup.Crashed}
            ==> RestoreResult(files, chosen, backupFolder, ts, dbPath, copyOk, replay).1 == files
  {
  }

  /** The safety copy exists afterwards, holding the old database, exactly
      when the database existed and the copy succeeded; the dispatch never
      touches it (unless it is the database itself). */
  lemma SafetyCopyOnlyOfExistingDb(files: map<string, Content>, src: string, dbPath: string, safetyPath: string,
                                   copyOk: bool, replay: Content -> Replay)
    requires src in files && safetyPath != dbPath
    ensures var after := Dispatch(WithSafetyCopy(files, dbPath, safetyPath, copyOk), src, dbPath, replay).1;
      && (dbPath in files && copyOk ==> safetyPath in after && after[safetyPath] == files[dbPath])
      && (!(dbPath in files && copyOk) ==>
            (safetyPath in after <==> safetyPath in files) &&
            (safetyPath in files ==> after[safetyPath] == files[safetyPath]))
  {
  }

  /**
   * A failed safety copy does not abort the restore: unless the chosen
   * file IS the safety copy, the outcome is the same whether the copy
   * succeeded or not, and so is every file other than the copy itself.
   */
  lemma {:induction false} SafetyCopyFailureIsHarmless(files: map<string, Content>, src: string, dbPath: string,
                                                        safetyPath: string, replay: Content -> Replay)
    requires src in files && src != safetyPath
    ensures var withCopy := Dispatch(WithSafetyCopy(files, dbPath, safetyPath, true), src, dbPath, replay);
      var without := Dispatch(WithSafetyCopy(files, dbPath, safetyPath, false), src, dbPath, replay);
      && withCopy.0 == without.0
      && forall k :: k != safetyPath ==>
           (k in withCopy.1 <==> k in without.1) && (k in without.1 ==> withCopy.1[k] == without.1[k])
  {
    var staged := WithSafetyCopy(files, dbPath, safetyPath, true);
    assert WithSafetyCopy(files, dbPath, safetyPath, false) == files;
    DispatchIgnoresOtherFile(staged, files, src, dbPath, safetyPath, replay);
  }

  /** Two file maps that differ at most at one path other than the chosen
      file give the same dispatch outcome, and files that still differ at
      most at that path. */
  lemma {:induction false} DispatchIgnoresOtherFile(a: map<string, Content>, b: map<string, Content>, src: string,
                                                    dbPath: string, p: string, replay: Content -> Replay)
    requires src in a && src in b && src != p
    requires forall k :: k != p ==> (k in a <==> k in b) && (k in b ==> a[k] == b[k])
    ensures var ra := Dispatch(a, src, dbPath, replay);
      var rb := Dispatch(b, src, dbPath, replay);
      && ra.0 == rb.0
      && forall k :: k != p ==> (k in ra.1 <==> k in rb.1) && (k in rb.1 ==> ra.1[k] == rb.1[k])
  {
    var ext := Ext(Lower(src));
    assert a[src] == b[src];
    if ext in COPY_EXTENSIONS {
    } else if ext == ".sql" {
      assert a[dbPath := Blob([])][src] == b[dbPath := Blob([])][src];
    }
  }

  /**
   * What the dispatch does to the database: a copy extension puts the
   * chosen file's content there (unless it is the database itself, which
   * fails); `.sql` leaves what the replay of the script built; any other
   * extension is refused and leaves the files as they were.
   */
  lemma DispatchDatabase(files: map<string, Content>, src: string, dbPath: string, replay: Content -> Replay)
    requires src in files
    ensures var ext := Ext(Lower(src));
      var (r, after) := Dispatch(files, src, dbPath, replay);
      && (r == FullBackup.Unsupported <==> ext !in ALLOWED_EXTENSIONS)
      && (r == FullBackup.Unsupported ==> after == files)
      && (ext in COPY_EXTENSIONS && src != dbPath ==>
            r == FullBackup.Succeeded && dbPath in after && after[dbPath] == files[src])
      && (ext in COPY_EXTENSIONS && src == dbPath ==> r == FullBackup.Failed && after == files)
      && (ext == ".sql" && src != dbPath ==>
            var out := replay(files[src]);
            && (r == FullBackup.Succeeded <==> out.ok)
            && dbPath in after && after[dbPath] == out.db)
  {
  }
}
