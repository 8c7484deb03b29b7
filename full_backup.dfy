/**
 * The full backup / restore blueprint (`backup_bp.py`): which directories a
 * full backup includes, how the archive and its members are named, how a
 * restore guards itself with a safety snapshot, which database entry wins,
 * and where each archived file lands when it is restored.
 */
module FullBackup {
  import opened PyStr
  import opened FileSystem

  const ALLOWED_DB_EXT: set<string> := {".db", ".sqlite", ".sqlite3", ".sql"}
  const ALLOWED_ZIP_EXT: set<string> := {".zip"}

  const MANIFEST_NAME := "manifest.json"
  const DB_MEMBER := "db/app.db"
  const SQL_MEMBER := "db.sql"
  const MANIFEST_TYPE := "splice-full-backup"

  // =====================================================================
  // Order-preserving de-duplication
  // =====================================================================

  predicate NoDup<T(==)>(s: seq<T>) {
    forall i, j :: 0 <= i < j < |s| ==> s[i] != s[j]
  }

  /** `s` with every element after its first occurrence dropped. */
  function Dedup<T(==)>(s: seq<T>): seq<T> {
    if s == [] then []
    else
      var init := s[..|s| - 1];
      if s[|s| - 1] in init then Dedup(init) else Dedup(init) + [s[|s| - 1]]
  }

  lemma DedupSnoc<T>(s: seq<T>, x: T)
    ensures Dedup(s + [x]) == if x in s then Dedup(s) else Dedup(s) + [x]
  {
    assert (s + [x])[..|s|] == s;
  }

  lemma {:induction false} DedupSameElements<T>(s: seq<T>)
    ensures forall x :: x in Dedup(s) <==> x in s
  {
    if s != [] {
      var init := s[..|s| - 1];
      DedupSameElements(init);
      assert s == init + [s[|s| - 1]];
    }
  }

  lemma {:induction false} DedupNoDup<T>(s: seq<T>)
    ensures NoDup(Dedup(s))
  {
    if s != [] {
      DedupNoDup(s[..|s| - 1]);
      DedupSameElements(s[..|s| - 1]);
    }
  }

  /** Position of the first occurrence of `x` in `s`. */
  function FirstIndex<T(==)>(s: seq<T>, x: T): (i: nat)
    requires x in s
    ensures i < |s| && s[i] == x && x !in s[..i]
  {
    var init := s[..|s| - 1];
    assert s == init + [s[|s| - 1]];
    if x in init then FirstIndex(init, x) else |s| - 1
  }

  /** The de-duplicated list keeps the order of first occurrences. */
  lemma {:induction false} DedupFirstOccurrenceOrder<T>(s: seq<T>)
    ensures forall x :: x in Dedup(s) ==> x in s
    ensures forall i, j :: 0 <= i < j < |Dedup(s)| ==>
      FirstIndex(s, Dedup(s)[i]) < FirstIndex(s, Dedup(s)[j])
  {
    DedupSameElements(s);
    if s != [] {
      var init := s[..|s| - 1];
      var d := Dedup(init);
      DedupFirstOccurrenceOrder(init);
      forall y | y in init ensures FirstIndex(s, y) == FirstIndex(init, y) {
      }
      forall i, j | 0 <= i < j < |Dedup(s)|
        ensures FirstIndex(s, Dedup(s)[i]) < FirstIndex(s, Dedup(s)[j])
      {
        assert Dedup(s)[i] == d[i];
        if j < |d| {
          assert Dedup(s)[j] == d[j];
        }
      }
    }
  }

  // =====================================================================
  // guess_data_dirs
  // =====================================================================

  /** The environment variables `guess_data_dirs` reads. */
  datatype DirEnv = DirEnv(
    includeDirs: Option<string>,    // BACKUP_INCLUDE_DIRS
    uploadFolder: Option<string>,   // UPLOAD_FOLDER
    mediaRoot: Option<string>,      // MEDIA_ROOT
    dataDir: Option<string>,        // DATA_DIR
    staticUploads: Option<string>)  // STATIC_UPLOADS

  function StripEach(items: seq<string>): (r: seq<string>)
    ensures |r| == |items|
  {
    if items == [] then [] else StripEach(items[..|items| - 1]) + [Strip(items[|items| - 1])]
  }

  /** The stripped comma-separated items of BACKUP_INCLUDE_DIRS (none when unset or empty). */
  function IncludeItems(csv: Option<string>): seq<string> {
    if csv.Some? && csv.value != "" then StripEach(Split(csv.value, ',')) else []
  }

  function EnvValues(env: DirEnv): seq<Option<string>> {
    [env.uploadFolder, env.mediaRoot, env.dataDir, env.staticUploads]
  }

  /** The values that are set, in order. */
  function Present(vals: seq<Option<string>>): seq<string> {
    if vals == [] then []
    else
      var last := vals[|vals| - 1];
      Present(vals[..|vals| - 1]) + (if last.Some? then [last.value] else [])
  }

  /** `uploads`, `media` and `static/uploads` under the application root. */
  function RootCandidates(root: string): seq<string> {
    [PathJoin(root, "uploads"), PathJoin(root, "media"), PathJoin(PathJoin(root, "static"), "uploads")]
  }

  /** Every path `guess_data_dirs` considers, in the order it considers them. */
  function Candidates(env: DirEnv, root: string): seq<string> {
    IncludeItems(env.includeDirs) + Present(EnvValues(env)) + RootCandidates(root)
  }

  /** A candidate is taken when it is non-empty and names an existing directory. */
  predicate Eligible(p: string, isDir: set<string>) {
    p != "" && p in isDir
  }

  function Keep(s: seq<string>, isDir: set<string>): seq<string> {
    if s == [] then []
    else
      var last := s[|s| - 1];
      Keep(s[..|s| - 1], isDir) + (if Eligible(last, isDir) then [last] else [])
  }

  lemma KeepSnoc(s: seq<string>, x: string, isDir: set<string>)
    ensures Keep(s + [x], isDir) == Keep(s, isDir) + (if Eligible(x, isDir) then [x] else [])
  {
    assert (s + [x])[..|s|] == s;
  }

  lemma {:induction false} KeepElements(s: seq<string>, isDir: set<string>)
    ensures forall p :: p in Keep(s, isDir) <==> p in s && Eligible(p, isDir)
  {
    if s != [] {
      KeepElements(s[..|s| - 1], isDir);
      assert s == s[..|s| - 1] + [s[|s| - 1]];
    }
  }

  /** The list built so far is, deduplicated and as a set, the eligible
      candidates seen so far. */
  ghost predicate Tracks(dirs: seq<string>, seen: seq<string>, isDir: set<string>) {
    && Dedup(dirs) == Dedup(Keep(seen, isDir))
    && forall x :: x in dirs <==> x in Keep(seen, isDir)
  }

  /** One step of the second and third loops: append `p` when eligible and not yet listed. */
  lemma AppendNewStep(dirs: seq<string>, t: seq<string>, p: string, isDir: set<string>)
    requires Tracks(dirs, t, isDir)
    ensures Eligible(p, isDir) && p !in dirs ==> Tracks(dirs + [p], t + [p], isDir)
    ensures !(Eligible(p, isDir) && p !in dirs) ==> Tracks(dirs, t + [p], isDir)
  {
    KeepSnoc(t, p, isDir);
    if Eligible(p, isDir) {
      DedupSnoc(Keep(t, isDir), p);
      DedupSnoc(dirs, p);
      if p in dirs {
        assert p in Keep(t, isDir);
        assert Keep(t + [p], isDir) == Keep(t, isDir) + [p];
        assert Dedup(Keep(t + [p], isDir)) == Dedup(dirs);
      } else {
        assert Dedup(Keep(t + [p], isDir)) == Dedup(dirs) + [p];
      }
    } else {
      assert Keep(t, isDir) + [] == Keep(t, isDir);
    }
  }

  /** The BACKUP_INCLUDE_DIRS loop: every stripped item that is a directory, repeats kept. */
  method IncludedDirs(csv: Option<string>, isDir: set<string>) returns (dirs: seq<string>)
    ensures dirs == Keep(IncludeItems(csv), isDir)
  {
    dirs := [];
    if csv.Some? && csv.value != "" {
      var items := Split(csv.value, ',');
      for i := 0 to |items|
        invariant dirs == Keep(StripEach(items[..i]), isDir)
      {
        assert items[..i + 1][..i] == items[..i];
        var p := Strip(items[i]);
        KeepSnoc(StripEach(items[..i]), p, isDir);
        if p != "" && p in isDir {
          dirs := dirs + [p];
        }
      }
      assert items[..|items|] == items;
    }
  }

  /** The environment-variable loop: each set variable naming a directory not yet listed. */
  method AddEnvDirs(dirs: seq<string>, t: seq<string>, vals: seq<Option<string>>, isDir: set<string>)
    returns (dirs': seq<string>)
    requires Tracks(dirs, t, isDir)
    ensures Tracks(dirs', t + Present(vals), isDir)
  {
    dirs' := dirs;
    assert t + Present(vals[..0]) == t;
    for k := 0 to |vals|
      invariant Tracks(dirs', t + Present(vals[..k]), isDir)
    {
      assert vals[..k + 1][..k] == vals[..k];
      if vals[k].Some? {
        var p := vals[k].value;
        assert t + Present(vals[..k + 1]) == (t + Present(vals[..k])) + [p];
        AppendNewStep(dirs', t + Present(vals[..k]), p, isDir);
        if Eligible(p, isDir) && p !in dirs' {
          dirs' := dirs' + [p];
        }
      } else {
        assert t + Present(vals[..k + 1]) == t + Present(vals[..k]);
      }
    }
    assert vals[..|vals|] == vals;
  }

  /** The root-candidate loop: each candidate directory not yet listed. */
  method AddCandidates(dirs: seq<string>, t: seq<string>, cands: seq<string>, isDir: set<string>)
    returns (dirs': seq<string>)
    requires Tracks(dirs, t, isDir)
    ensures Tracks(dirs', t + cands, isDir)
  {
    dirs' := dirs;
    ghost var seen := t;
    for k := 0 to |cands|
      invariant seen == t + cands[..k]
      invariant Tracks(dirs', seen, isDir)
    {
      var c := cands[k];
      AppendNewStep(dirs', seen, c, isDir);
      if Eligible(c, isDir) && c !in dirs' {
        dirs' := dirs' + [c];
      }
      assert t + cands[..k + 1] == seen + [c];
      seen := seen + [c];
    }
    assert cands[..|cands|] == cands;
  }

  /** The final "deduplicate preserving order" loop. */
  method DedupLoop(dirs: seq<string>) returns (out: seq<string>)
    ensures out == Dedup(dirs)
  {
    out := [];
    var seen: set<string> := {};
    for i := 0 to |dirs|
      invariant out == Dedup(dirs[..i])
      invariant forall x :: x in seen <==> x in dirs[..i]
    {
      var d := dirs[i];
      assert dirs[..i + 1] == dirs[..i] + [d];
      DedupSnoc(dirs[..i], d);
      if d !in seen {
        out := out + [d];
        seen := seen + {d};
      }
    }
    assert dirs[..|dirs|] == dirs;
  }

  /**
   * `guess_data_dirs`: the stripped, non-empty BACKUP_INCLUDE_DIRS items that
   * are directories, then the set environment directories, then the root
   * candidates, each once, in first-occurrence order.
   */
  method GuessDataDirs(env: DirEnv, rootPath: string, isDir: set<string>) returns (out: seq<string>)
    ensures out == Dedup(Keep(Candidates(env, rootPath), isDir))
    ensures NoDup(out)
    ensures forall p :: p in out <==> p in Candidates(env, rootPath) && Eligible(p, isDir)
  {
    var dirs := IncludedDirs(env.includeDirs, isDir);
    var t := IncludeItems(env.includeDirs);
    KeepElements(t, isDir);
    dirs := AddEnvDirs(dirs, t, EnvValues(env), isDir);
    dirs := AddCandidates(dirs, t + Present(EnvValues(env)), RootCandidates(rootPath), isDir);
    out := DedupLoop(dirs);
    var all := Keep(Candidates(env, rootPath), isDir);
    DedupNoDup(all);
    DedupSameElements(all);
    KeepElements(Candidates(env, rootPath), isDir);
  }

  // =====================================================================
  // Names: archive, base, member
  // =====================================================================

  /** `os.path.join(dest_folder, f"{tag}-{ts}.zip")`. */
  function ArchivePath(destFolder: string, tag: string, ts: string): (p: string)
    ensures EndsWith(p, tag + "-" + ts + ".zip")
    ensures '/' !in tag + ts ==> Basename(p) == tag + "-" + ts + ".zip"
  {
    var name := tag + "-" + ts + ".zip";
    ArchiveNameBasename(destFolder, tag, ts);
    PathJoin(destFolder, name)
  }

  lemma ArchiveNameBasename(destFolder: string, tag: string, ts: string)
    ensures '/' !in tag + ts ==> Basename(PathJoin(destFolder, tag + "-" + ts + ".zip")) == tag + "-" + ts + ".zip"
  {
    var name := tag + "-" + ts + ".zip";
    if '/' !in tag + ts {
      forall i | 0 <= i < |name| ensures name[i] != '/' {
        if i < |tag| {
          assert name[i] == (tag + ts)[i];
        } else if |tag| < i < |tag| + 1 + |ts| {
          assert name[i] == (tag + ts)[i - 1];
        }
      }
      BasenameOfJoin(destFolder, name);
    }
  }

  /** `os.path.basename(d.rstrip(os.sep)) or "files"`: the archive folder of data directory `d`. */
  function BaseOf(d: string): (b: string)
    ensures b != "" && '/' !in b
  {
    var name := Basename(RStripChar(d, '/'));
    if name == "" then "files" else name
  }

  function Slashes(k: nat): (s: string)
    ensures |s| == k && forall i :: 0 <= i < k ==> s[i] == '/'
  {
    if k == 0 then "" else Slashes(k - 1) + "/"
  }

  /** A directory `parent/name`, written with any number of trailing separators,
      is archived under `name`. */
  lemma BaseOfNamedDir(parent: string, name: string, k: nat)
    requires name != "" && '/' !in name
    ensures BaseOf(PathJoin(parent, name) + Slashes(k)) == name
  {
    var p := PathJoin(parent, name);
    assert EndsWith(p, name);
    assert p[|p| - 1] == name[|name| - 1] != '/';
    var r := RStripChar(p + Slashes(k), '/');
    assert (p + Slashes(k))[|p| - 1] != '/';
    assert r == p;
    BasenameOfJoin(parent, name);
  }

  /** `os.path.join("files", base, rel)`: the archive name of a data file. */
  function ArcName(base: string, rel: string): string {
    PathJoin(PathJoin("files", base), rel)
  }

  lemma ArcNameShape(base: string, rel: string)
    requires base != "" && '/' !in base && !StartsWith(rel, "/")
    ensures ArcName(base, rel) == "files/" + base + "/" + rel
  {
    assert base[0] in base;
    JoinIsPrefixPlus("files", base);
    JoinIsPrefixPlus("files/" + base, rel);
  }

  /** An archive name is absolute exactly when its relative part is. */
  lemma ArcNameLeadingSlash(base: string, rel: string)
    requires base != "" && '/' !in base
    ensures StartsWith(ArcName(base, rel), "/") <==> StartsWith(rel, "/")
  {
    if !StartsWith(rel, "/") {
      ArcNameShape(base, rel);
    }
  }

  /** Distinct relative names under one base give distinct archive names. */
  lemma ArcNameInjective(base: string, r1: string, r2: string)
    requires base != "" && '/' !in base
    requires ArcName(base, r1) == ArcName(base, r2)
    ensures r1 == r2
  {
    ArcNameLeadingSlash(base, r1);
    ArcNameLeadingSlash(base, r2);
    if !StartsWith(r1, "/") {
      ArcNameShape(base, r1);
      ArcNameShape(base, r2);
      var p := "files/" + base + "/";
      assert r1 == (p + r1)[|p|..];
      assert r2 == (p + r2)[|p|..];
    }
  }

  /** Two files below one data directory never share an archive entry. */
  lemma DirEntryInjective(files: map<string, Content>, d: string, k1: string, k2: string)
    requires k1 in files && Under(k1, d) && k2 in files && Under(k2, d)
    requires DirEntry(files, d, k1) == DirEntry(files, d, k2)
    ensures k1 == k2
  {
    var n := |DirPrefix(d)|;
    ArcNameInjective(BaseOf(d), k1[n..], k2[n..]);
    assert k1 == k1[..n] + k1[n..] && k2 == k2[..n] + k2[n..];
  }

  // =====================================================================
  // Building a full backup
  // =====================================================================

  /** The archive entry for file `k` below data directory `d`. */
  function DirEntry(files: map<string, Content>, d: string, k: string): Member
    requires k in files && Under(k, d)
  {
    Member(ArcName(BaseOf(d), k[|DirPrefix(d)|..]), files[k])
  }

  /** Every entry `os.walk(d)` contributes. */
  function DirSet(files: map<string, Content>, d: string): set<Member> {
    set k | k in files && Under(k, d) :: DirEntry(files, d, k)
  }

  function DirMembers(files: map<string, Content>, dirs: seq<string>): set<Member> {
    if dirs == [] then {}
    else DirMembers(files, dirs[..|dirs| - 1]) + DirSet(files, dirs[|dirs| - 1])
  }

  function ManifestFor(ts: string, dbPath: string, dataDirs: seq<string>, appRoot: string): Manifest {
    Manifest(MANIFEST_TYPE, ts, dbPath, dataDirs, appRoot, 1)
  }

  /** What a full backup of `files` contains: the manifest first, then the
      database as `db/app.db` exactly when it exists, then one walk per data
      directory, in the order of `dataDirs`; within one directory the walk
      chooses the order. */
  ghost predicate IsSnapshot(members: seq<Member>, files: map<string, Content>, dbPath: string,
                             dataDirs: seq<string>, manifest: Manifest)
  {
    var start := if dbPath in files then 2 else 1;
    && |members| >= start
    && members[0] == Member(MANIFEST_NAME, ManifestDoc(manifest))
    && (dbPath in files ==> members[1] == Member(DB_MEMBER, files[dbPath]))
    && WalksInOrder(members[start..], files, dataDirs)
  }

  /** A walk of `d`: the entry of every file below `d`, each once. */
  ghost predicate IsWalk(seg: seq<Member>, files: map<string, Content>, d: string) {
    && (forall m :: m in seg <==> m in DirSet(files, d))
    && NoDup(seg)
  }

  /** `rest` is a walk of each of `dirs`, one after another, in that order. */
  ghost predicate WalksInOrder(rest: seq<Member>, files: map<string, Content>, dirs: seq<string>)
    decreases |dirs|
  {
    if dirs == [] then rest == []
    else exists k :: 0 <= k <= |rest| && WalksInOrder(rest[..k], files, dirs[..|dirs| - 1])
                     && IsWalk(rest[k..], files, dirs[|dirs| - 1])
  }

  /** One more walk, of one more directory, at the end. */
  lemma WalksSnoc(rest: seq<Member>, seg: seq<Member>, files: map<string, Content>, dirs: seq<string>, d: string)
    requires WalksInOrder(rest, files, dirs) && IsWalk(seg, files, d)
    ensures WalksInOrder(rest + seg, files, dirs + [d])
  {
    var all, dd := rest + seg, dirs + [d];
    assert dd[..|dd| - 1] == dirs && dd[|dd| - 1] == d;
    assert all[..|rest|] == rest && all[|rest|..] == seg;
  }

  /** The walks in order hold exactly the entries of the data directories. */
  lemma {:induction false} WalksCoverDirs(rest: seq<Member>, files: map<string, Content>, dirs: seq<string>)
    requires WalksInOrder(rest, files, dirs)
    ensures forall m :: m in rest <==> m in DirMembers(files, dirs)
    decreases |dirs|
  {
    if dirs != [] {
      var k :| 0 <= k <= |rest| && WalksInOrder(rest[..k], files, dirs[..|dirs| - 1])
               && IsWalk(rest[k..], files, dirs[|dirs| - 1]);
      WalksCoverDirs(rest[..k], files, dirs[..|dirs| - 1]);
      assert rest == rest[..k] + rest[k..];
    }
  }

  /** `seg[i]` is the entry of file `keys[i]` below `d`. */
  ghost predicate EntriesOf(files: map<string, Content>, d: string, keys: seq<string>, seg: seq<Member>) {
    && |keys| == |seg|
    && forall i :: 0 <= i < |keys| ==> keys[i] in files && Under(keys[i], d) && seg[i] == DirEntry(files, d, keys[i])
  }

  /** Walking one more file that was not walked before keeps the entries
      distinct. */
  lemma WalkStep(files: map<string, Content>, d: string, keys: seq<string>, seg: seq<Member>, k: string)
    requires EntriesOf(files, d, keys, seg) && NoDup(seg)
    requires k in files && Under(k, d) && k !in keys
    ensures EntriesOf(files, d, keys + [k], seg + [DirEntry(files, d, k)])
    ensures NoDup(seg + [DirEntry(files, d, k)])
  {
    forall i | 0 <= i < |seg|
      ensures seg[i] != DirEntry(files, d, k)
    {
      if seg[i] == DirEntry(files, d, k) {
        DirEntryInjective(files, d, keys[i], k);
      }
    }
  }

  /** The `os.walk(d)` loop: one entry per file below `d`; the order of
      the walk is not determined. */
  method WalkDir(files: map<string, Content>, d: string) returns (seg: seq<Member>)
    ensures forall m :: m in seg <==> m in DirSet(files, d)
    ensures NoDup(seg)
  {
    var todo := set k | k in files && Under(k, d);
    seg := [];
    ghost var keys: seq<string> := [];
    while todo != {}
      invariant todo <= set k | k in files && Under(k, d)
      invariant forall k :: k in files && Under(k, d) && k !in todo ==> DirEntry(files, d, k) in seg
      invariant EntriesOf(files, d, keys, seg) && NoDup(seg)
      invariant forall k :: k in keys ==> k !in todo
      decreases todo
    {
      var k :| k in todo;
      WalkStep(files, d, keys, seg, k);
      seg := seg + [DirEntry(files, d, k)];
      keys := keys + [k];
      todo := todo - {k};
    }
  }

  /** The body of the `with zipfile.ZipFile(...)` block. */
  method CollectMembers(files: map<string, Content>, dbPath: string, dataDirs: seq<string>, manifest: Manifest)
    returns (members: seq<Member>)
    ensures IsSnapshot(members, files, dbPath, dataDirs, manifest)
  {
    members := [Member(MANIFEST_NAME, ManifestDoc(manifest))];
    if dbPath in files {
      members := members + [Member(DB_MEMBER, files[dbPath])];
    }
    var start := |members|;
    for i := 0 to |dataDirs|
      invariant |members| >= start
      invariant members[..start] == if dbPath in files
        then [Member(MANIFEST_NAME, ManifestDoc(manifest)), Member(DB_MEMBER, files[dbPath])]
        else [Member(MANIFEST_NAME, ManifestDoc(manifest))]
      invariant WalksInOrder(members[start..], files, dataDirs[..i])
    {
      var seg := WalkDir(files, dataDirs[i]);
      assert dataDirs[..i + 1] == dataDirs[..i] + [dataDirs[i]];
      assert (members + seg)[start..] == members[start..] + seg;
      WalksSnoc(members[start..], seg, files, dataDirs[..i], dataDirs[i]);
      members := members + seg;
    }
    assert dataDirs[..|dataDirs|] == dataDirs;
  }

  /**
   * `build_full_backup_zip`: writes the archive `dest_folder/tag-ts.zip`
   * and changes nothing else.  The archive is created (truncating any file
   * of that name) before anything is read, so it holds a snapshot of the
   * files in which the archive itself is the partly written file: `partial`
   * stands for the bytes the build reads back from it when the archive lies
   * below a data directory (or is the database).
   */
  method BuildFullBackupZip(disk: Disk, destFolder: string, tag: string, ts: string, dbPath: string,
                            env: DirEnv, isDir: set<string>, appRoot: string, partial: Content)
    returns (outZip: string)
    modifies disk
    ensures outZip == ArchivePath(destFolder, tag, ts)
    ensures outZip in disk.files && disk.files[outZip].Zip?
    ensures disk.files == old(disk.files)[outZip := disk.files[outZip]]
    ensures IsSnapshot(disk.files[outZip].members, old(disk.files)[outZip := partial], dbPath,
                       Dedup(Keep(Candidates(env, appRoot), isDir)),
                       ManifestFor(ts, dbPath, Dedup(Keep(Candidates(env, appRoot), isDir)), appRoot))
  {
    outZip := ArchivePath(destFolder, tag, ts);
    var dataDirs := GuessDataDirs(env, appRoot, isDir);
    var manifest := ManifestFor(ts, dbPath, dataDirs, appRoot);
    var members := CollectMembers(disk.files[outZip := partial], dbPath, dataDirs, manifest);
    disk.files := disk.files[outZip := Zip(members)];
  }

  /** A file that is neither below `d` nor its content changes nothing in the walk of `d`. */
  lemma DirSetIgnoresOutside(files: map<string, Content>, d: string, p: string, c: Content)
    requires !Under(p, d)
    ensures DirSet(files[p := c], d) == DirSet(files, d)
  {
    var f2 := files[p := c];
    forall m | m in DirSet(f2, d) ensures m in DirSet(files, d) {
      var k :| k in f2 && Under(k, d) && m == DirEntry(f2, d, k);
      assert k != p && DirEntry(f2, d, k) == DirEntry(files, d, k);
    }
    forall m | m in DirSet(files, d) ensures m in DirSet(f2, d) {
      var k :| k in files && Under(k, d) && m == DirEntry(files, d, k);
      assert k != p && DirEntry(f2, d, k) == DirEntry(files, d, k);
    }
  }

  /** An archive written below a data directory is walked: its partial bytes
      become one of its own entries. */
  lemma ArchiveBelowDirIsWalked(files: map<string, Content>, d: string, outZip: string, partial: Content)
    requires Under(outZip, d)
    ensures DirEntry(files[outZip := partial], d, outZip) in DirSet(files[outZip := partial], d)
    ensures DirEntry(files[outZip := partial], d, outZip).content == partial
  {
  }

  /** Walks are the same for two file maps whose data directories hold the same entries. */
  lemma {:induction false} WalksTransfer(rest: seq<Member>, f1: map<string, Content>, f2: map<string, Content>,
                                         dirs: seq<string>)
    requires forall i :: 0 <= i < |dirs| ==> DirSet(f1, dirs[i]) == DirSet(f2, dirs[i])
    requires WalksInOrder(rest, f1, dirs)
    ensures WalksInOrder(rest, f2, dirs)
    decreases |dirs|
  {
    if dirs != [] {
      var init := dirs[..|dirs| - 1];
      var k :| 0 <= k <= |rest| && WalksInOrder(rest[..k], f1, init) && IsWalk(rest[k..], f1, dirs[|dirs| - 1]);
      assert forall i :: 0 <= i < |init| ==> init[i] == dirs[i];
      WalksTransfer(rest[..k], f1, f2, init);
      assert IsWalk(rest[k..], f2, dirs[|dirs| - 1]);
    }
  }

  /**
   * When the archive lies below no data directory and is not the database,
   * the build's snapshot is a snapshot of the files as they were.
   */
  lemma SnapshotOfOldFiles(members: seq<Member>, files: map<string, Content>, dbPath: string, dirs: seq<string>,
                           manifest: Manifest, outZip: string, partial: Content)
    requires outZip != dbPath && forall i :: 0 <= i < |dirs| ==> !Under(outZip, dirs[i])
    requires IsSnapshot(members, files[outZip := partial], dbPath, dirs, manifest)
    ensures IsSnapshot(members, files, dbPath, dirs, manifest)
  {
    var f2 := files[outZip := partial];
    forall i | 0 <= i < |dirs| ensures DirSet(f2, dirs[i]) == DirSet(files, dirs[i]) {
      DirSetIgnoresOutside(files, dirs[i], outZip, partial);
    }
    var start := if dbPath in files then 2 else 1;
    WalksTransfer(members[start..], f2, files, dirs);
  }

  // =====================================================================
  // Restoring: database entry, grouping, mapping, paths
  // =====================================================================

  /**
   * The database step of a restore: `db/app.db` wins over `db.sql`; with
   * neither the database is untouched.  The first component is false when
   * replaying the script raised, which ends the restore there.
   */
  function DbStep(files: map<string, Content>, members: seq<Member>, dbPath: string,
                  replay: Content -> Replay): (r: (bool, map<string, Content>))
    ensures DB_MEMBER in Names(members) ==>
      r.0 && dbPath in r.1 && r.1[dbPath] == Read(members, DB_MEMBER) && dbPath + ".tmp" !in r.1
    ensures DB_MEMBER !in Names(members) && SQL_MEMBER in Names(members) ==>
      var out := replay(Read(members, SQL_MEMBER));
      r.0 == out.ok && dbPath in r.1 && r.1[dbPath] == out.db
    ensures DB_MEMBER !in Names(members) && SQL_MEMBER !in Names(members) ==> r == (true, files)
    ensures forall k :: k != dbPath && k != dbPath + ".tmp" ==> (k in r.1 <==> k in files)
    ensures forall k :: k in files && k != dbPath && k != dbPath + ".tmp" ==> r.1[k] == files[k]
  {
    var names := Names(members);
    if DB_MEMBER in names then
      // copied to `db_path + ".tmp"`, which `os.replace` then moves over the database
      (true, (files - {dbPath + ".tmp"})[dbPath := Read(members, DB_MEMBER)])
    else if SQL_MEMBER in names then
      // the database is removed and the script replayed into a fresh one
      var out := replay(Read(members, SQL_MEMBER));
      (out.ok, files[dbPath := out.db])
    else (true, files)
  }

  /** The folder a member is grouped under: the segment after `files/`,
      for names with at least three `/`-separated parts. */
  function GroupKey(n: string): Option<string> {
    if StartsWith(n, "files/") then
      var parts := Split(n, '/');  // n.split("/", 3) has the same first three parts
      if |parts| >= 3 then Some(parts[1]) else None
    else None
  }

  lemma {:induction false} SplitAtFirst(x: string, y: string, c: char)
    requires c !in x
    ensures Split(x + [c] + y, c) == [x] + Split(y, c)
  {
    var s := x + [c] + y;
    if x == [] {
      assert s[0] == c && s[1..] == y;
    } else {
      var t := x[1..] + [c] + y;
      assert s == [x[0]] + t;
      SplitAtFirst(x[1..], y, c);
      var rest := Split(t, c);
      assert rest[0] == x[1..] && rest[1..] == Split(y, c);
      SplitCons(x[0], t, c);
      assert [x[0]] + x[1..] == x;
    }
  }

  /** Splitting behind a character other than the separator extends the
      first piece. */
  lemma SplitCons(ch: char, t: string, c: char)
    requires ch != c
    ensures Split([ch] + t, c) == [[ch] + Split(t, c)[0]] + Split(t, c)[1..]
  {
    var u := [ch] + t;
    assert u[0] == ch && u[1..] == t;
  }

  /** A member is grouped under `b` exactly when it is named `files/<b>/...`
      and `b` has no separator. */
  lemma GroupKeyOfPrefixed(b: string, rest: string)
    requires '/' !in b
    ensures GroupKey("files/" + b + "/" + rest) == Some(b)
  {
    var n := "files/" + b + "/" + rest;
    var inner := b + ['/'] + rest;
    assert n == "files/" + inner by {
      ConcatRegroup("files/", b, "/", rest);
    }
    GroupKeyOfSplit(n, inner, b, rest);
  }

  lemma GroupKeyOfSplit(n: string, inner: string, b: string, rest: string)
    requires '/' !in b && inner == b + ['/'] + rest && n == "files/" + inner
    ensures GroupKey(n) == Some(b)
  {
    assert n == "files" + ['/'] + inner;
    SplitAtFirst("files", inner, '/');
    SplitAtFirst(b, rest, '/');
    assert n[..6] == "files/";
  }

  /** A string with at least two `c`-pieces is its first piece, `c`, and the rest. */
  lemma SplitFirstPiece(t: string, c: char)
    requires |Split(t, c)| >= 2
    ensures |Split(t, c)[0]| < |t| && t[..|Split(t, c)[0]|] == Split(t, c)[0] && t[|Split(t, c)[0]|] == c
  {
    var i := IndexOf(t, c);
    assert i >= 0 by {
      assert CountChar(t, c) >= 1;
    }
    var x, y := t[..i], t[i + 1..];
    assert t == x + [c] + y;
    SplitAtFirst(x, y, c);
  }

  /** The group key is the first piece of what follows `files/`. */
  lemma GroupKeyIsFirstPiece(n: string, b: string)
    requires GroupKey(n) == Some(b)
    ensures |n| >= 6 && n == n[..6] + n[6..] && n[..6] == "files/"
    ensures |Split(n[6..], '/')| >= 2 && Split(n[6..], '/')[0] == b && '/' !in b
  {
    var t := n[6..];
    assert n == "files" + ['/'] + t by {
      assert n[..6] == "files/";
    }
    SplitAtFirst("files", t, '/');
  }

  lemma PrefixedOfGroupKey(n: string, b: string)
    requires GroupKey(n) == Some(b)
    ensures '/' !in b && StartsWith(n, "files/" + b + "/")
  {
    GroupKeyIsFirstPiece(n, b);
    SplitFirstPiece(n[6..], '/');
    PrefixedOfFirstPiece(n, b);
  }

  lemma PrefixedOfFirstPiece(n: string, b: string)
    requires |n| >= 6 && n == n[..6] + n[6..] && n[..6] == "files/"
    requires |b| < |n[6..]| && n[6..][..|b|] == b && n[6..][|b|] == '/'
    ensures StartsWith(n, "files/" + b + "/")
  {
    var t := n[6..];
    var rest := t[|b| + 1..];
    assert t == b + "/" + rest by {
      assert t == t[..|b|] + t[|b|..];
      assert t[|b|..] == "/" + rest;
    }
    var p := "files/" + b + "/";
    assert n == p + rest by {
      ConcatRegroup("files/", b, "/", rest);
    }
    assert n[..|p|] == p;
  }

  lemma ConcatRegroup(w: string, x: string, y: string, z: string)
    ensures w + x + y + z == w + (x + y + z)
  {
  }

  lemma GroupKeyShape(n: string, b: string)
    ensures GroupKey(n) == Some(b) <==> StartsWith(n, "files/" + b + "/") && '/' !in b
  {
    if StartsWith(n, "files/" + b + "/") && '/' !in b {
      var rest := n[|"files/" + b + "/"|..];
      assert n == "files/" + b + "/" + rest;
      GroupKeyOfPrefixed(b, rest);
    }
    if GroupKey(n) == Some(b) {
      PrefixedOfGroupKey(n, b);
    }
  }

  /** `n.split("/", 2)[-1]` and then, when that still has a separator, the
      text after its first one (otherwise its basename). */
  function RestoreRel(n: string): string {
    var rel := AfterFirst(AfterFirst(n, '/'), '/');
    if '/' in rel then AfterFirst(rel, '/') else Basename(rel)
  }

  lemma AfterFirstOfPrefixed(x: string, y: string, c: char)
    requires c !in x
    ensures AfterFirst(x + [c] + y, c) == y
  {
    var s := x + [c] + y;
    assert s[|x|] == c;
    var r := AfterFirst(s, c);
    var i := |s| - |r| - 1;
  }

  /**
   * Where the restore puts the member `files/<base>/<rel>` below its
   * destination: `rel` itself when it is a plain file name, but with its first
   * directory dropped when it is nested, so nested paths do not round-trip.
   */
  lemma RestoreRelOfArcName(base: string, rel: string)
    requires base != "" && '/' !in base && !StartsWith(rel, "/")
    ensures GroupKey(ArcName(base, rel)) == Some(base)
    ensures RestoreRel(ArcName(base, rel)) == (if '/' in rel then AfterFirst(rel, '/') else rel)
    ensures RestoreRel(ArcName(base, rel)) == rel <==> '/' !in rel
  {
    ArcNameShape(base, rel);
    var n := ArcName(base, rel);
    GroupKeyShape(n, base);
    ArcNameInner(base, rel);
    if '/' !in rel {
      AfterLastIsSuffix(rel, '/');
      assert Basename(rel) == rel;
    }
  }

  /** The two separators `RestoreRel` skips are the ones after "files" and `base`. */
  lemma ArcNameInner(base: string, rel: string)
    requires '/' !in base
    ensures AfterFirst(AfterFirst("files/" + base + "/" + rel, '/'), '/') == rel
  {
    assert "files/" + base + "/" + rel == "files/" + (base + "/" + rel);
    AfterFilesPrefix(base + "/" + rel);
    assert base + "/" + rel == base + ['/'] + rel;
    AfterFirstOfPrefixed(base, rel, '/');
  }

  lemma AfterFilesPrefix(inner: string)
    ensures AfterFirst("files/" + inner, '/') == inner
  {
    assert "files/" + inner == "files" + ['/'] + inner;
    AfterFirstOfPrefixed("files", inner, '/');
  }

  /** `m[key(x)] = x` for every `x` of `xs`, in order. */
  function KeyedBy(xs: seq<string>, key: string -> string): map<string, string> {
    if xs == [] then map[]
    else KeyedBy(xs[..|xs| - 1], key)[key(xs[|xs| - 1]) := xs[|xs| - 1]]
  }

  /** The keys of `KeyedBy` are exactly the keys of the elements. */
  lemma {:induction false} KeyedByKeys(xs: seq<string>, key: string -> string)
    ensures forall k :: k in KeyedBy(xs, key) <==> exists i :: 0 <= i < |xs| && key(xs[i]) == k
  {
    if xs != [] {
      var n := |xs| - 1;
      var init := xs[..n];
      KeyedByKeys(init, key);
      assert KeyedBy(xs, key) == KeyedBy(init, key)[key(xs[n]) := xs[n]];
      forall k | k in KeyedBy(xs, key)
        ensures exists i :: 0 <= i < |xs| && key(xs[i]) == k
      {
        if k != key(xs[n]) {
          assert k in KeyedBy(init, key);
          var i :| 0 <= i < |init| && key(init[i]) == k;
          assert key(xs[i]) == k;
        } else {
          assert key(xs[n]) == k;
        }
      }
      forall k | exists i :: 0 <= i < |xs| && key(xs[i]) == k
        ensures k in KeyedBy(xs, key)
      {
        var i :| 0 <= i < |xs| && key(xs[i]) == k;
        if i < n {
          assert init[i] == xs[i];
          assert key(init[i]) in KeyedBy(init, key);
        }
      }
    }
  }

  predicate LastWithItsKey(xs: seq<string>, key: string -> string, i: int)
    requires 0 <= i < |xs|
  {
    forall j :: i < j < |xs| ==> key(xs[j]) != key(xs[i])
  }

  /** Each key is mapped to the LAST element with that key. */
  lemma {:induction false} KeyedByLastWins(xs: seq<string>, key: string -> string)
    ensures forall i :: 0 <= i < |xs| && LastWithItsKey(xs, key, i) ==>
      key(xs[i]) in KeyedBy(xs, key) && KeyedBy(xs, key)[key(xs[i])] == xs[i]
  {
    if xs != [] {
      var n := |xs| - 1;
      var init := xs[..n];
      KeyedByLastWins(init, key);
      forall i | 0 <= i < n && LastWithItsKey(xs, key, i)
        ensures key(xs[i]) in KeyedBy(xs, key) && KeyedBy(xs, key)[key(xs[i])] == xs[i]
      {
        assert init[i] == xs[i];
        assert LastWithItsKey(init, key, i);
      }
    }
  }

  /** Every element is stored under its own key. */
  lemma {:induction false} KeyedByKeyOf(xs: seq<string>, key: string -> string)
    ensures forall k :: k in KeyedBy(xs, key) ==> key(KeyedBy(xs, key)[k]) == k
  {
    if xs != [] {
      KeyedByKeyOf(xs[..|xs| - 1], key);
    }
  }

  /** `mapping[base] = td` for every manifest directory, in order. */
  function Mapping(targetDirs: seq<string>): map<string, string> {
    KeyedBy(targetDirs, BaseOf)
  }

  /** The mapping holds the bases of the manifest directories, and maps each
      to the LAST directory with that base. */
  lemma MappingLaterWins(targetDirs: seq<string>)
    ensures forall b :: b in Mapping(targetDirs) <==> exists i :: 0 <= i < |targetDirs| && BaseOf(targetDirs[i]) == b
    ensures forall i :: 0 <= i < |targetDirs| && LastWithItsKey(targetDirs, BaseOf, i) ==>
      Mapping(targetDirs)[BaseOf(targetDirs[i])] == targetDirs[i]
  {
    KeyedByKeys(targetDirs, BaseOf);
    KeyedByLastWins(targetDirs, BaseOf);
  }

  /** The `mapping` loop. */
  method BuildMapping(targetDirs: seq<string>) returns (mapping: map<string, string>)
    ensures mapping == Mapping(targetDirs)
    ensures forall i :: 0 <= i < |targetDirs| ==> BaseOf(targetDirs[i]) in mapping
    ensures forall b :: b in mapping ==> BaseOf(mapping[b]) == b
  {
    mapping := map[];
    for i := 0 to |targetDirs|
      invariant mapping == Mapping(targetDirs[..i])
    {
      assert targetDirs[..i + 1][..i] == targetDirs[..i];
      var td := targetDirs[i];
      mapping := mapping[BaseOf(td) := td];
    }
    assert targetDirs[..|targetDirs|] == targetDirs;
    KeyedByKeys(targetDirs, BaseOf);
    KeyedByKeyOf(targetDirs, BaseOf);
  }

  /** `manifest.get("data_dirs") or []`, with an unreadable or missing manifest read as `{}`. */
  function TargetDirs(members: seq<Member>): seq<string> {
    if MANIFEST_NAME in Names(members) && Read(members, MANIFEST_NAME).ManifestDoc? then
      Read(members, MANIFEST_NAME).manifest.dataDirs
    else []
  }

  /** `mapping.get(base) or os.path.join(root, "uploads", base)`. */
  function DestFor(mapping: map<string, string>, appRoot: string, base: string): (dest: string)
    ensures dest != ""
  {
    if base in mapping && mapping[base] != "" then mapping[base]
    else PathJoin(PathJoin(appRoot, "uploads"), base)
  }

  /** The members grouped under `base`, in archive order. */
  function GroupOf(names: seq<string>, base: string): (g: seq<string>)
    ensures forall n :: n in g ==> n in names && GroupKey(n) == Some(base)
  {
    if names == [] then []
    else
      var last := names[|names| - 1];
      GroupOf(names[..|names| - 1], base) + (if GroupKey(last) == Some(base) then [last] else [])
  }

  /** The group keys of the grouped names, in archive order, repeats kept. */
  function KeysInOrder(names: seq<string>): seq<string> {
    if names == [] then []
    else
      var last := names[|names| - 1];
      KeysInOrder(names[..|names| - 1]) + (if GroupKey(last).Some? then [GroupKey(last).value] else [])
  }

  /** The iteration order of the `groups` dict: first insertion order. */
  function GroupOrder(names: seq<string>): seq<string> {
    Dedup(KeysInOrder(names))
  }

  lemma GroupOfSnoc(names: seq<string>, n: string, base: string)
    ensures GroupOf(names + [n], base) == GroupOf(names, base) + (if GroupKey(n) == Some(base) then [n] else [])
  {
    assert (names + [n])[..|names|] == names;
  }

  lemma KeysInOrderSnoc(names: seq<string>, n: string)
    ensures KeysInOrder(names + [n]) == KeysInOrder(names) + (if GroupKey(n).Some? then [GroupKey(n).value] else [])
  {
    assert (names + [n])[..|names|] == names;
  }

  /** A base that no member is grouped under has an empty group. */
  lemma {:induction false} GroupOfUnkeyed(names: seq<string>, base: string)
    requires base !in KeysInOrder(names)
    ensures GroupOf(names, base) == []
  {
    if names != [] {
      GroupOfUnkeyed(names[..|names| - 1], base);
    }
  }

  /** One step of the `groups` loop. */
  lemma GroupStep(names: seq<string>, n: string, groups: map<string, seq<string>>, order: seq<string>)
    requires order == GroupOrder(names)
    requires forall b :: b in groups <==> b in order
    requires forall b :: b in groups ==> groups[b] == GroupOf(names, b)
    ensures var key := GroupKey(n);
      var groups' := if key.Some? then groups[key.value := (if key.value in groups then groups[key.value] else []) + [n]] else groups;
      var order' := if key.Some? && key.value !in groups then order + [key.value] else order;
      && order' == GroupOrder(names + [n])
      && (forall b :: b in groups' <==> b in order')
      && (forall b :: b in groups' ==> groups'[b] == GroupOf(names + [n], b))
  {
    KeysInOrderSnoc(names, n);
    DedupSameElements(KeysInOrder(names));
    var key := GroupKey(n);
    if key.Some? {
      var k := key.value;
      DedupSnoc(KeysInOrder(names), k);
      if k !in groups {
        GroupOfUnkeyed(names, k);
      }
      var groups' := groups[k := (if k in groups then groups[k] else []) + [n]];
      forall b | b in groups' ensures groups'[b] == GroupOf(names + [n], b) {
        GroupOfSnoc(names, n, b);
      }
    } else {
      assert KeysInOrder(names + [n]) == KeysInOrder(names);
      forall b | b in groups ensures groups[b] == GroupOf(names + [n], b) {
        GroupOfSnoc(names, n, b);
      }
    }
  }

  /** The `groups` loop. */
  method GroupMembers(names: seq<string>) returns (groups: map<string, seq<string>>, order: seq<string>)
    ensures order == GroupOrder(names) && NoDup(order)
    ensures forall b :: b in groups <==> b in order
    ensures forall b :: b in groups ==> groups[b] == GroupOf(names, b)
  {
    groups, order := map[], [];
    for i := 0 to |names|
      invariant order == GroupOrder(names[..i])
      invariant forall b :: b in groups <==> b in order
      invariant forall b :: b in groups ==> groups[b] == GroupOf(names[..i], b)
    {
      var n := names[i];
      assert names[..i + 1] == names[..i] + [n];
      GroupStep(names[..i], n, groups, order);
      var key := GroupKey(n);
      if key.Some? {
        var base := key.value;
        if base !in groups {
          groups := groups[base := []];
          order := order + [base];
        }
        groups := groups[base := groups[base] + [n]];
      }
    }
    assert names[..|names|] == names;
    DedupNoDup(KeysInOrder(names));
  }

  /** `shutil.rmtree` / `os.remove` of every entry of `dest`. */
  function ClearDir(files: map<string, Content>, dest: string): (r: map<string, Content>)
    ensures forall k :: k in r <==> k in files && !Under(k, dest)
    ensures forall k :: k in r ==> r[k] == files[k]
  {
    map k | k in files && !Under(k, dest) :: files[k]
  }

  function Target(dest: string, n: string): string {
    PathJoin(dest, RestoreRel(n))
  }

  /** Copying the members of one group into `dest`, skipping directory entries. */
  function CopyMembers(files: map<string, Content>, members: seq<Member>, dest: string, group: seq<string>)
    : map<string, Content>
    requires forall n :: n in group ==> n in Names(members)
  {
    if group == [] then files
    else
      var n := group[|group| - 1];
      var before := CopyMembers(files, members, dest, group[..|group| - 1]);
      if EndsWith(n, "/") then before else before[Target(dest, n) := Read(members, n)]
  }

  function ApplyGroup(files: map<string, Content>, members: seq<Member>, mapping: map<string, string>,
                      appRoot: string, merge: bool, base: string): map<string, Content>
  {
    var dest := DestFor(mapping, appRoot, base);
    CopyMembers(if merge then files else ClearDir(files, dest), members, dest, GroupOf(Names(members), base))
  }

  function ApplyGroups(files: map<string, Content>, members: seq<Member>, mapping: map<string, string>,
                       appRoot: string, merge: bool, bases: seq<string>): map<string, Content>
  {
    if bases == [] then files
    else
      ApplyGroup(ApplyGroups(files, members, mapping, appRoot, merge, bases[..|bases| - 1]),
                 members, mapping, appRoot, merge, bases[|bases| - 1])
  }

  /** The files after the file groups of `members` have been restored. */
  function RestoredFiles(files: map<string, Content>, members: seq<Member>, merge: bool, appRoot: string)
    : map<string, Content>
  {
    ApplyGroups(files, members, Mapping(TargetDirs(members)), appRoot, merge, GroupOrder(Names(members)))
  }

  // ---------------------------------------------------------------------
  // Properties of the restore specification
  // ---------------------------------------------------------------------

  /** The paths a group's members are copied to. */
  ghost predicate CopiedTo(k: string, dest: string, group: seq<string>) {
    exists n :: n in group && !EndsWith(n, "/") && k == Target(dest, n)
  }

  /** Copying never removes a file. */
  lemma {:induction false} CopyMembersKeeps(files: map<string, Content>, members: seq<Member>, dest: string,
                                            group: seq<string>)
    requires forall n :: n in group ==> n in Names(members)
    ensures files.Keys <= CopyMembers(files, members, dest, group).Keys
  {
    if group != [] {
      CopyMembersKeeps(files, members, dest, group[..|group| - 1]);
    }
  }

  /** Copying adds no path other than the targets of the group's members. */
  lemma {:induction false} CopyMembersAdds(files: map<string, Content>, members: seq<Member>, dest: string,
                                           group: seq<string>)
    requires forall n :: n in group ==> n in Names(members)
    ensures forall k :: k in CopyMembers(files, members, dest, group) && k !in files ==> CopiedTo(k, dest, group)
  {
    if group != [] {
      var init := group[..|group| - 1];
      CopyMembersAdds(files, members, dest, init);
      forall k | k in CopyMembers(files, members, dest, group) && k !in files
        ensures CopiedTo(k, dest, group)
      {
        if k in CopyMembers(files, members, dest, init) {
          var n :| n in init && !EndsWith(n, "/") && k == Target(dest, n);
          assert n in group;
        } else {
          assert group[|group| - 1] in group;
        }
      }
    }
  }

  /** A file that is no member's target keeps its content. */
  lemma {:induction false} CopyMembersUntouched(files: map<string, Content>, members: seq<Member>, dest: string,
                                                group: seq<string>, k: string)
    requires forall n :: n in group ==> n in Names(members)
    requires k in files && !CopiedTo(k, dest, group)
    ensures k in CopyMembers(files, members, dest, group) && CopyMembers(files, members, dest, group)[k] == files[k]
  {
    if group != [] {
      var init := group[..|group| - 1];
      assert !CopiedTo(k, dest, init);
      CopyMembersUntouched(files, members, dest, init, k);
      assert group[|group| - 1] in group;
    }
  }

  /** In merge mode no existing file is ever deleted; only the database's
      temporary `.tmp` sibling may disappear. */
  lemma {:induction false} MergeNeverDeletes(files: map<string, Content>, members: seq<Member>,
                                             mapping: map<string, string>, appRoot: string, bases: seq<string>)
    ensures files.Keys <= ApplyGroups(files, members, mapping, appRoot, true, bases).Keys
  {
    if bases != [] {
      var before := ApplyGroups(files, members, mapping, appRoot, true, bases[..|bases| - 1]);
      MergeNeverDeletes(files, members, mapping, appRoot, bases[..|bases| - 1]);
      var base := bases[|bases| - 1];
      CopyMembersKeeps(before, members, DestFor(mapping, appRoot, base), GroupOf(Names(members), base));
    }
  }

  /** In replace mode, right after a group is restored its destination holds
      exactly what the group copied there and nothing older. */
  lemma ReplaceLeavesOnlyGroupFiles(files: map<string, Content>, members: seq<Member>,
                                    mapping: map<string, string>, appRoot: string, base: string)
    ensures var dest := DestFor(mapping, appRoot, base);
      forall k :: k in ApplyGroup(files, members, mapping, appRoot, false, base) && Under(k, dest) ==>
        CopiedTo(k, dest, GroupOf(Names(members), base))
  {
    var dest := DestFor(mapping, appRoot, base);
    CopyMembersAdds(ClearDir(files, dest), members, dest, GroupOf(Names(members), base));
  }

  /**
   * The round trip of one data file: a file at `rel` below data directory `d`,
   * archived as `files/<base>/<rel>` and restored with `d` as the manifest's
   * directory for that base, comes back to its own path exactly when `rel` is a
   * plain file name.  A nested file loses its first directory.
   */
  lemma FileRoundTrip(d: string, k: string, targetDirs: seq<string>, appRoot: string)
    requires Under(k, d) && !StartsWith(k[|DirPrefix(d)|..], "/")
    requires BaseOf(d) in Mapping(targetDirs) && Mapping(targetDirs)[BaseOf(d)] == d
    ensures var rel := k[|DirPrefix(d)|..];
      var n := ArcName(BaseOf(d), rel);
      && GroupKey(n) == Some(BaseOf(d))
      && DestFor(Mapping(targetDirs), appRoot, BaseOf(d)) == d
      && (Target(d, n) == k <==> '/' !in rel)
  {
    var rel := k[|DirPrefix(d)|..];
    assert k == DirPrefix(d) + rel;
    RestoreRelOfArcName(BaseOf(d), rel);
    var n := ArcName(BaseOf(d), rel);
    if '/' !in rel {
      JoinIsPrefixPlus(d, rel);
    } else {
      var r := RestoreRel(n);
      assert |r| < |rel|;
      if !StartsWith(r, "/") {
        JoinIsPrefixPlus(d, r);
      }
    }
  }

  lemma NestedRel(a: string, x: string)
    requires a != "" && '/' !in a
    ensures '/' in a + "/" + x && !StartsWith(a + "/" + x, "/")
    ensures AfterFirst(a + "/" + x, '/') == x
  {
    assert (a + "/" + x)[|a|] == '/';
    assert (a + "/" + x)[0] == a[0] && a[0] in a;
    AfterFirstOfPrefixed(a, x, '/');
  }

  lemma DistinctHeads(a1: string, a2: string, x: string)
    requires '/' !in a1 && '/' !in a2 && a1 != a2
    ensures a1 + "/" + x != a2 + "/" + x
  {
    SplitAtFirst(a1, x, '/');
    SplitAtFirst(a2, x, '/');
    assert Split(a1 + "/" + x, '/')[0] == a1;
    assert Split(a2 + "/" + x, '/')[0] == a2;
  }

  /** Two nested files `a1/x` and `a2/x` of the same data directory are both
      restored onto the same path `dest/x`. */
  lemma NestedFilesCollide(base: string, a1: string, a2: string, x: string, dest: string)
    requires base != "" && '/' !in base && '/' !in a1 && '/' !in a2 && a1 != a2 && a1 != "" && a2 != ""
    ensures ArcName(base, a1 + "/" + x) != ArcName(base, a2 + "/" + x)
    ensures Target(dest, ArcName(base, a1 + "/" + x)) == Target(dest, ArcName(base, a2 + "/" + x))
  {
    NestedRel(a1, x);
    NestedRel(a2, x);
    RestoreRelOfArcName(base, a1 + "/" + x);
    RestoreRelOfArcName(base, a2 + "/" + x);
    ArcNameShape(base, a1 + "/" + x);
    ArcNameShape(base, a2 + "/" + x);
    DistinctHeads(a1, a2, x);
    var p := "files/" + base + "/";
    assert ArcName(base, a1 + "/" + x) == p + (a1 + "/" + x);
    assert ArcName(base, a2 + "/" + x) == p + (a2 + "/" + x);
  }

  // =====================================================================
  // restore_from_full_zip
  // =====================================================================

  /** What the safety build left behind, as seen by the guard. */
  datatype SafetyOutcome =
    | BuildRaised      // build_full_backup_zip raised
    | EmptyOrMissing   // no exception, but the archive is missing or has size 0
    | Written          // a non-empty safety archive exists

  datatype RestoreOutcome =
    | Restored
    | SafetyFailed   // RuntimeError: no safety archive
    | NotAZip        // the chosen file is not a readable archive
    | ScriptFailed   // replaying `db.sql` raised
    | NoDbDir        // `os.makedirs` of the database's directory raised

  /** The files once the safety archive holding `snapshot` is written. */
  function Staged(files: map<string, Content>, backupDir: string, ts: string, snapshot: seq<Member>)
    : (staged: map<string, Content>)
    ensures staged.Keys == files.Keys + {ArchivePath(backupDir, "safety", ts)}
  {
    files[ArchivePath(backupDir, "safety", ts) := Zip(snapshot)]
  }

  /** `snapshot` is what the safety build collects from `files`, reading
      `partial` from the safety archive it is writing. */
  ghost predicate SafetySnapshot(snapshot: seq<Member>, files: map<string, Content>, backupDir: string, ts: string,
                                 dbPath: string, env: DirEnv, isDir: set<string>, appRoot: string, partial: Content)
  {
    var dirs := Dedup(Keep(Candidates(env, appRoot), isDir));
    IsSnapshot(snapshot, files[ArchivePath(backupDir, "safety", ts) := partial], dbPath, dirs,
               ManifestFor(ts, dbPath, dirs, appRoot))
  }

  /** One more member of the group: copied to its target unless it is a directory entry. */
  lemma CopyMembersStep(files: map<string, Content>, members: seq<Member>, dest: string, group: seq<string>,
                        j: int)
    requires forall m :: m in group ==> m in Names(members)
    requires 0 <= j < |group|
    ensures CopyMembers(files, members, dest, group[..j + 1]) ==
      if EndsWith(group[j], "/") then CopyMembers(files, members, dest, group[..j])
      else CopyMembers(files, members, dest, group[..j])[Target(dest, group[j]) := Read(members, group[j])]
  {
    assert group[..j + 1][..j] == group[..j];
  }

  /** The copy loop of one group: every member that is not a directory entry
      is copied to its target below `dest`. */
  method CopyGroup(disk: Disk, members: seq<Member>, dest: string, group: seq<string>)
    requires forall n :: n in group ==> n in Names(members)
    modifies disk
    ensures disk.files == CopyMembers(old(disk.files), members, dest, group)
  {
    ghost var files0 := disk.files;
    for j := 0 to |group|
      invariant disk.files == CopyMembers(files0, members, dest, group[..j])
    {
      var n := group[j];
      CopyMembersStep(files0, members, dest, group, j);
      if !EndsWith(n, "/") {
        var rel := RestoreRel(n);
        var target := PathJoin(dest, rel);
        disk.files := disk.files[target := Read(members, n)];
      }
    }
    assert group[..|group|] == group;
  }

  /** The `for base, members in groups.items()` loop. */
  method RestoreGroups(disk: Disk, members: seq<Member>, groups: map<string, seq<string>>, order: seq<string>,
                       mapping: map<string, string>, appRoot: string, mergeFiles: bool)
    requires forall b :: b in groups <==> b in order
    requires forall b :: b in groups ==> groups[b] == GroupOf(Names(members), b)
    modifies disk
    ensures disk.files == ApplyGroups(old(disk.files), members, mapping, appRoot, mergeFiles, order)
  {
    for i := 0 to |order|
      invariant disk.files == ApplyGroups(old(disk.files), members, mapping, appRoot, mergeFiles, order[..i])
    {
      assert order[..i + 1][..i] == order[..i];
      var base := order[i];
      var dest := DestFor(mapping, appRoot, base);
      if !mergeFiles {
        disk.files := ClearDir(disk.files, dest);
      }
      CopyGroup(disk, members, dest, groups[base]);
    }
    assert order[..|order|] == order;
  }

  /** The archive part of the restore, on the files as they are after the
      safety snapshot: the archive is opened, then the database's directory
      made, then the database and the file groups restored. */
  function ZipRestore(staged: map<string, Content>, zipPath: string, merge: bool, dbPath: string,
                      appRoot: string, replay: Content -> Replay): (RestoreOutcome, map<string, Content>)
  {
    if zipPath in staged && staged[zipPath].Zip? then
      var members := staged[zipPath].members;
      if NoDirPart(dbPath) then (NoDbDir, staged)
      else
        var db := DbStep(staged, members, dbPath, replay);
        if !db.0 then (ScriptFailed, db.1)
        else (Restored, RestoredFiles(db.1, members, merge, appRoot))
    else (NotAZip, staged)
  }

  /**
   * `restore_from_full_zip`: a safety archive of the current state is
   * required before anything is touched; then the database entry, then each
   * group of files.  `replay` stands for what sqlite3 makes of a script;
   * `safety` for what the safety build left on disk.
   */
  method RestoreFromFullZip(disk: Disk, zipPath: string, mergeFiles: bool, backupDir: string, ts: string,
                            dbPath: string, env: DirEnv, isDir: set<string>, appRoot: string,
                            safety: SafetyOutcome, partial: Content, replay: Content -> Replay)
    returns (r: RestoreOutcome, ghost snapshot: seq<Member>)
    modifies disk
    ensures r == SafetyFailed <==> safety != Written
    ensures safety != Written ==> disk.files == old(disk.files)
    ensures safety == Written ==>
      && SafetySnapshot(snapshot, old(disk.files), backupDir, ts, dbPath, env, isDir, appRoot, partial)
      && (r, disk.files) == ZipRestore(Staged(old(disk.files), backupDir, ts, snapshot), zipPath, mergeFiles,
                                       dbPath, appRoot, replay)
  {
    snapshot := [];
    if safety != Written {
      // the build raised, or the guard found no non-empty archive: RuntimeError before any change
      r := SafetyFailed;
      return;
    }
    var safetyZip := BuildFullBackupZip(disk, backupDir, "safety", ts, dbPath, env, isDir, appRoot, partial);
    snapshot := disk.files[safetyZip].members;
    ghost var staged := disk.files;
    if zipPath !in disk.files || !disk.files[zipPath].Zip? {
      r := NotAZip;  // zipfile.ZipFile raises
      return;
    }
    var members := disk.files[zipPath].members;
    var names := Names(members);
    if NoDirPart(dbPath) {
      r := NoDbDir;
      return;
    }

    var db := DbStep(disk.files, members, dbPath, replay);
    disk.files := db.1;
    if !db.0 {
      r := ScriptFailed;  // executescript raised
      return;
    }

    var groups, order := GroupMembers(names);
    var mapping := BuildMapping(TargetDirs(members));
    RestoreGroups(disk, members, groups, order, mapping, appRoot, mergeFiles);
    r := Restored;
  }

  // =====================================================================
  // get_db_path
  // =====================================================================

  /** The places `get_db_path` looks for an existing `app.db`, in order. */
  function DbCandidates(instancePath: string, rootPath: string, cwd: string): seq<string> {
    [PathJoin(instancePath, "app.db"), PathJoin(rootPath, "app.db"), PathJoin(cwd, "app.db")]
  }

  /**
   * `get_db_path`: a non-empty SQLITE_PATH wins; otherwise the first
   * candidate that exists; otherwise `instance/app.db`.
   */
  method GetDbPath(files: map<string, Content>, sqlitePath: Option<string>, instancePath: string,
                   rootPath: string, cwd: string)
    returns (p: string)
    ensures sqlitePath.Some? && sqlitePath.value != "" ==> p == sqlitePath.value
    ensures !(sqlitePath.Some? && sqlitePath.value != "") ==>
      var cands := DbCandidates(instancePath, rootPath, cwd);
      if exists i :: 0 <= i < |cands| && cands[i] in files then
        exists i :: 0 <= i < |cands| && cands[i] == p && p in files &&
          forall j :: 0 <= j < i ==> cands[j] !in files
      else p == PathJoin(instancePath, "app.db")
  {
    if sqlitePath.Some? && sqlitePath.value != "" {
      return sqlitePath.value;
    }
    var cands := DbCandidates(instancePath, rootPath, cwd);
    for i := 0 to |cands|
      invariant forall j :: 0 <= j < i ==> cands[j] !in files
    {
      if cands[i] in files {
        return cands[i];
      }
    }
    p := PathJoin(instancePath, "app.db");
  }

  // =====================================================================
  // Routes: index, upload, restore
  // =====================================================================

  /** `index`: the regular files of the backup folder, in sorted order. */
  method Index(files: map<string, Content>, backupFolder: string) returns (listing: seq<string>)
    ensures Sorted(listing)
    ensures forall f :: f in listing <==> f in Children(files, backupFolder) && IsFile(files, backupFolder, f)
  {
    var names := ListDir(files, backupFolder);
    var sorted := Sort(names);
    SortIsSorted(names);
    SortSameElements(names);
    listing := FilesOnly(files, backupFolder, sorted);
    FilesOnlySorted(files, backupFolder, sorted);
  }

  /** A file field of a request: its client-side name and its bytes. */
  datatype UploadFile = UploadFile(filename: string, content: Content)

  datatype UploadOutcome = NoFile | Rejected | Stored(path: string)

  /** The extension test of `upload`, applied to the sanitised name. */
  predicate UploadAccepted(filename: string) {
    Ext(Lower(filename)) in ALLOWED_DB_EXT + ALLOWED_ZIP_EXT
  }

  /**
   * `upload`: an absent or unnamed file is refused; the name is sanitised
   * (`sanitize` stands for `secure_filename`) and its extension checked; an
   * accepted file is stored as `<ts>__<name>` in the backup folder.
   */
  method Upload(disk: Disk, backupDir: string, ts: string, file: Option<UploadFile>, sanitize: string -> string)
    returns (r: UploadOutcome)
    modifies disk
    ensures r == NoFile <==> file.None? || file.value.filename == ""
    ensures r == Rejected <==> file.Some? && file.value.filename != "" && !UploadAccepted(sanitize(file.value.filename))
    ensures !r.Stored? ==> disk.files == old(disk.files)
    ensures r.Stored? ==>
      var name := ts + "__" + sanitize(file.value.filename);
      && r.path == PathJoin(backupDir, name)
      && EndsWith(r.path, name)
      && disk.files == old(disk.files)[r.path := file.value.content]
  {
    if file.None? || file.value.filename == "" {
      return NoFile;
    }
    var filename := sanitize(file.value.filename);
    if !UploadAccepted(filename) {
      return Rejected;
    }
    var dest := PathJoin(backupDir, ts + "__" + filename);
    disk.files := disk.files[dest := file.value.content];
    r := Stored(dest);
  }

  /** How a restore request ends: the early refusals, a refused extension,
      a failure the route catches and reports, success, or an exception the
      route does not catch (an HTTP 500). */
  datatype RouteOutcome = NoChoice | NotFound | Unsupported | Failed | Succeeded | Crashed

  /** `merge_files` is on only for the exact form value "1". */
  function MergeRequested(mergeFlag: Option<string>): (merge: bool)
    ensures merge <==> mergeFlag == Some("1")
  {
    mergeFlag.Some? && mergeFlag.value == "1"
  }

  /** The files after restoring the single database file `src`. */
  function DbFileRestore(files: map<string, Content>, src: string, ext: string, dbPath: string,
                         replay: Content -> Replay): (r: (bool, map<string, Content>))
    requires src in files
  {
    if NoDirPart(dbPath) then
      // `os.makedirs` raises before the database is touched
      (false, files)
    else if ext == ".sql" then
      // remove the database, open a new empty one, then replay the script
      // read from `src` into it
      var emptied := files[dbPath := Blob([])];
      var out := replay(emptied[src]);
      (out.ok, emptied[dbPath := out.db])
    else if src == dbPath + ".tmp" then
      // `shutil.copy2` refuses to copy a file onto itself
      (false, files)
    else
      // copy to `db_path + ".tmp"`, then `os.replace` it over the database
      (true, (files - {dbPath + ".tmp"})[dbPath := files[src]])
  }

  /** A name ending in `.zip` never has a database extension. */
  lemma ZipNameExt(p: string)
    requires EndsWith(p, ".zip")
    ensures Ext(Lower(p)) == "" || Ext(Lower(p)) == ".zip"
  {
    var q := Lower(p);
    var n := |q|;
    LowerKeepsZipSuffix(p);
    assert q[n - 4] == '.' && '.' !in q[n - 3..] by {
      assert q[n - 4..][0] == '.';
      assert q[n - 3..] == q[n - 4..][1..];
    }
    LastIndexAtLeast(q, '.', n - 4);
    LastIndexBelow(q, '.', n - 3);
  }

  lemma LowerKeepsZipSuffix(p: string)
    requires EndsWith(p, ".zip")
    ensures |p| >= 4 && Lower(p)[|p| - 4..] == ".zip"
  {
    var q := Lower(p);
    var n := |p|;
    assert p[n - 4..] == ".zip";
    forall i | n - 4 <= i < n
      ensures q[i] == ".zip"[i - (n - 4)]
    {
      assert p[i] == p[n - 4..][i - (n - 4)];
    }
  }

  lemma DbExtNotZipName(p: string)
    requires Ext(Lower(p)) in ALLOWED_DB_EXT
    ensures !EndsWith(p, ".zip")
  {
    if EndsWith(p, ".zip") {
      ZipNameExt(p);
    }
  }

  lemma ArchivePathIsZip(destFolder: string, tag: string, ts: string)
    ensures EndsWith(ArchivePath(destFolder, tag, ts), ".zip")
  {
    var p := ArchivePath(destFolder, tag, ts);
    var name := tag + "-" + ts + ".zip";
    assert p[|p| - |name|..] == name;
    assert name[|name| - 4..] == ".zip";
    assert p[|p| - 4..] == name[|name| - 4..];
  }

  /**
   * The database-file branch of `restore`: a safety archive is built but
   * not checked, so only an exception from the build stops the restore.
   */
  method RestoreDbFile(disk: Disk, src: string, ext: string, backupDir: string, ts: string, dbPath: string,
                       env: DirEnv, isDir: set<string>, appRoot: string, safety: SafetyOutcome,
                       partial: Content, replay: Content -> Replay)
    returns (ok: bool, ghost snapshot: seq<Member>)
    requires src in disk.files && ext == Ext(Lower(src)) && ext in ALLOWED_DB_EXT
    modifies disk
    ensures safety == BuildRaised ==> !ok && disk.files == old(disk.files)
    ensures safety == EmptyOrMissing ==> (ok, disk.files) == DbFileRestore(old(disk.files), src, ext, dbPath, replay)
    ensures safety == Written ==>
      && SafetySnapshot(snapshot, old(disk.files), backupDir, ts, dbPath, env, isDir, appRoot, partial)
      && (ok, disk.files) == DbFileRestore(Staged(old(disk.files), backupDir, ts, snapshot), src, ext, dbPath, replay)
    ensures safety != BuildRaised && NoDirPart(dbPath) ==> !ok
    ensures safety != BuildRaised && !NoDirPart(dbPath) && ext != ".sql" && src != dbPath + ".tmp" ==>
      ok && dbPath in disk.files && disk.files[dbPath] == old(disk.files)[src]
  {
    snapshot := [];
    if safety == BuildRaised {
      return false, snapshot;
    }
    if safety == Written {
      var safetyZip := BuildFullBackupZip(disk, backupDir, "safety", ts, dbPath, env, isDir, appRoot, partial);
      snapshot := disk.files[safetyZip].members;
      ArchivePathIsZip(backupDir, "safety", ts);
      DbExtNotZipName(src);
    }
    var step := DbFileRestore(disk.files, src, ext, dbPath, replay);
    disk.files := step.1;
    ok := step.0;
  }

  /** The two allow-lists do not overlap. */
  lemma ZipIsNotDbExt(ext: string)
    requires ext in ALLOWED_ZIP_EXT
    ensures ext !in ALLOWED_DB_EXT
  {
    assert ext == ".zip";
  }

  /**
   * The outcome and the files after the extension dispatch of `restore`:
   * an archive goes to `restore_from_full_zip`, which needs the safety
   * archive; a database file is restored after a safety build that only an
   * exception stops; anything else is refused.  `snapshot` is what the
   * safety build wrote, when it wrote something.
   */
  function DispatchResult(files: map<string, Content>, src: string, merge: bool, backupDir: string, ts: string,
                          dbPath: string, appRoot: string, safety: SafetyOutcome, snapshot: seq<Member>,
                          replay: Content -> Replay): (r: (RouteOutcome, map<string, Content>))
    requires src in files
    ensures r.0 in {Unsupported, Failed, Succeeded}
    ensures r.0 == Unsupported <==> Ext(Lower(src)) !in ALLOWED_ZIP_EXT && Ext(Lower(src)) !in ALLOWED_DB_EXT
    ensures r.0 == Unsupported ==> r.1 == files
  {
    var ext := Ext(Lower(src));
    if ext in ALLOWED_ZIP_EXT then
      if safety != Written then (Failed, files)
      else
        var z := ZipRestore(Staged(files, backupDir, ts, snapshot), src, merge, dbPath, appRoot, replay);
        (if z.0 == Restored then Succeeded else Failed, z.1)
    else if ext in ALLOWED_DB_EXT then
      if safety == BuildRaised then (Failed, files)
      else
        var before := if safety == Written then Staged(files, backupDir, ts, snapshot) else files;
        var d := DbFileRestore(before, src, ext, dbPath, replay);
        (if d.0 then Succeeded else Failed, d.1)
    else (Unsupported, files)
  }

  /**
   * After a written safety archive, restoring a chosen archive (other than
   * the safety archive itself) succeeds exactly when it is a readable
   * archive, the database path has a directory part, and, when the
   * database comes from `db.sql` rather than `db/app.db`, the replay of
   * the script succeeds.
   */
  lemma ArchiveRestoreSucceeds(files: map<string, Content>, src: string, merge: bool, backupDir: string,
                               ts: string, dbPath: string, appRoot: string, snapshot: seq<Member>,
                               replay: Content -> Replay)
    requires src in files && Ext(Lower(src)) in ALLOWED_ZIP_EXT && src != ArchivePath(backupDir, "safety", ts)
    ensures DispatchResult(files, src, merge, backupDir, ts, dbPath, appRoot, Written, snapshot, replay).0
              == Succeeded
            <==> && files[src].Zip?
                 && !NoDirPart(dbPath)
                 && (DB_MEMBER !in Names(files[src].members) && SQL_MEMBER in Names(files[src].members) ==>
                       replay(Read(files[src].members, SQL_MEMBER)).ok)
  {
    var staged := Staged(files, backupDir, ts, snapshot);
    assert staged[src] == files[src];
  }

  /**
   * A chosen database file is restored with success, unless the safety
   * build raised, exactly when the database path has a directory part and
   * either the file is a script whose replay succeeds (a script that is
   * the database itself is read after the database was emptied) or it is
   * copied from anywhere but `<db>.tmp`.
   */
  lemma DbFileRestoreSucceeds(files: map<string, Content>, src: string, merge: bool, backupDir: string,
                              ts: string, dbPath: string, appRoot: string, safety: SafetyOutcome,
                              snapshot: seq<Member>, replay: Content -> Replay)
    requires src in files && Ext(Lower(src)) in ALLOWED_DB_EXT && safety != BuildRaised
    ensures DispatchResult(files, src, merge, backupDir, ts, dbPath, appRoot, safety, snapshot, replay).0
              == Succeeded
            <==> && !NoDirPart(dbPath)
                 && (Ext(Lower(src)) == ".sql" ==> replay(if src == dbPath then Blob([]) else files[src]).ok)
                 && (Ext(Lower(src)) != ".sql" ==> src != dbPath + ".tmp")
  {
    ArchivePathIsZip(backupDir, "safety", ts);
    DbExtNotZipName(src);
    var ext := Ext(Lower(src));
    DbIsNotZipExt(ext);
    var before := if safety == Written then Staged(files, backupDir, ts, snapshot) else files;
    assert before[src] == files[src];
    var d := DbFileRestore(before, src, ext, dbPath, replay);
    assert DispatchResult(files, src, merge, backupDir, ts, dbPath, appRoot, safety, snapshot, replay).0
      == if d.0 then Succeeded else Failed;
    DbFileRestoreOk(before, src, ext, dbPath, replay);
  }

  /** When the database-file restore reports success. */
  lemma DbFileRestoreOk(files: map<string, Content>, src: string, ext: string, dbPath: string,
                        replay: Content -> Replay)
    requires src in files
    ensures DbFileRestore(files, src, ext, dbPath, replay).0
            <==> && !NoDirPart(dbPath)
                 && (ext == ".sql" ==> replay(if src == dbPath then Blob([]) else files[src]).ok)
                 && (ext != ".sql" ==> src != dbPath + ".tmp")
  {
    if !NoDirPart(dbPath) && ext == ".sql" {
      assert files[dbPath := Blob([])][src] == if src == dbPath then Blob([]) else files[src];
    }
  }

  lemma DbIsNotZipExt(ext: string)
    requires ext in ALLOWED_DB_EXT
    ensures ext !in ALLOWED_ZIP_EXT
  {
  }

  /** The extension dispatch of `restore`, for an existing chosen file `src`. */
  method Dispatch(disk: Disk, src: string, merge: bool, backupDir: string, ts: string,
                  dbPath: string, env: DirEnv, isDir: set<string>, appRoot: string,
                  safety: SafetyOutcome, partial: Content, replay: Content -> Replay)
    returns (r: RouteOutcome, ghost snapshot: seq<Member>)
    requires src in disk.files
    modifies disk
    ensures (r, disk.files) == DispatchResult(old(disk.files), src, merge, backupDir, ts, dbPath, appRoot, safety,
                                              snapshot, replay)
    ensures safety == Written && Ext(Lower(src)) in ALLOWED_ZIP_EXT + ALLOWED_DB_EXT ==>
      SafetySnapshot(snapshot, old(disk.files), backupDir, ts, dbPath, env, isDir, appRoot, partial)
    ensures r in {Unsupported, Failed, Succeeded}
    ensures r == Unsupported <==> Ext(Lower(src)) !in ALLOWED_ZIP_EXT && Ext(Lower(src)) !in ALLOWED_DB_EXT
    ensures r == Unsupported ==> disk.files == old(disk.files)
    ensures Ext(Lower(src)) in ALLOWED_ZIP_EXT && safety != Written ==> r == Failed && disk.files == old(disk.files)
    ensures Ext(Lower(src)) in ALLOWED_DB_EXT && safety == BuildRaised ==> r == Failed && disk.files == old(disk.files)
    ensures Ext(Lower(src)) in ALLOWED_ZIP_EXT + ALLOWED_DB_EXT && NoDirPart(dbPath) ==> r == Failed
    ensures Ext(Lower(src)) in ALLOWED_DB_EXT && Ext(Lower(src)) != ".sql" && src != dbPath + ".tmp" &&
            safety != BuildRaised && !NoDirPart(dbPath) ==>
      r == Succeeded && dbPath in disk.files && disk.files[dbPath] == old(disk.files)[src]
  {
    var ext := Ext(Lower(src));
    snapshot := [];
    if ext in ALLOWED_ZIP_EXT {
      ZipIsNotDbExt(ext);
      var outcome;
      outcome, snapshot := RestoreFromFullZip(disk, src, merge, backupDir, ts, dbPath, env, isDir, appRoot,
                                              safety, partial, replay);
      r := if outcome == Restored then Succeeded else Failed;
    } else if ext in ALLOWED_DB_EXT {
      var ok;
      ok, snapshot := RestoreDbFile(disk, src, ext, backupDir, ts, dbPath, env, isDir, appRoot, safety, partial,
                                    replay);
      r := if ok then Succeeded else Failed;
    } else {
      r := Unsupported;
    }
  }

  /**
   * `restore`: the chosen file must be given and exist; then the extension
   * decides between the archive restore, the database-file restore and a
   * refusal.
   */
  method RestoreRoute(disk: Disk, chosen: Option<string>, mergeFlag: Option<string>, backupDir: string, ts: string,
                      dbPath: string, env: DirEnv, isDir: set<string>, appRoot: string,
                      safety: SafetyOutcome, partial: Content, replay: Content -> Replay)
    returns (r: RouteOutcome, ghost snapshot: seq<Member>)
    modifies disk
    ensures r == NoChoice <==> chosen.None? || chosen.value == ""
    ensures r == NotFound <==> r != NoChoice && PathJoin(backupDir, chosen.value) !in old(disk.files)
    ensures r in {NoChoice, NotFound, Unsupported} ==> disk.files == old(disk.files)
    ensures r != NoChoice && r != NotFound ==>
      var src := PathJoin(backupDir, chosen.value);
      var ext := Ext(Lower(src));
      && (r == Unsupported <==> ext !in ALLOWED_ZIP_EXT && ext !in ALLOWED_DB_EXT)
      && (ext in ALLOWED_ZIP_EXT && safety != Written ==> r == Failed && disk.files == old(disk.files))
      && (ext in ALLOWED_DB_EXT && safety == BuildRaised ==> r == Failed && disk.files == old(disk.files))
      && (r, disk.files) == DispatchResult(old(disk.files), src, MergeRequested(mergeFlag), backupDir, ts, dbPath,
                                           appRoot, safety, snapshot, replay)
      && (safety == Written && ext in ALLOWED_ZIP_EXT + ALLOWED_DB_EXT ==>
            SafetySnapshot(snapshot, old(disk.files), backupDir, ts, dbPath, env, isDir, appRoot, partial))
      && (ext in ALLOWED_ZIP_EXT + ALLOWED_DB_EXT && NoDirPart(dbPath) ==> r == Failed)
      && (ext in ALLOWED_DB_EXT && ext != ".sql" && src != dbPath + ".tmp" && safety != BuildRaised &&
          !NoDirPart(dbPath) ==>
            r == Succeeded && dbPath in disk.files && disk.files[dbPath] == old(disk.files)[src])
  {
    var merge := MergeRequested(mergeFlag);
    snapshot := [];
    if chosen.None? || chosen.value == "" {
      return NoChoice, snapshot;
    }
    var src := PathJoin(backupDir, chosen.value);
    if src !in disk.files {
      return NotFound, snapshot;
    }
    r, snapshot := Dispatch(disk, src, merge, backupDir, ts, dbPath, env, isDir, appRoot, safety, partial, replay);
  }
}
