/**
 * The abstract disk the backup code works on.  A file holds raw bytes, a
 * JSON manifest document, or a zip archive; the zip and JSON byte encodings
 * are not modelled, only what they contain.  Directories are implicit: the
 * files below a directory are the paths that start with its name and `/`.
 */
module FileSystem {
  import opened PyStr

  type Bytes = seq<bv8>

  /** The record `build_full_backup_zip` writes as `manifest.json`. */
  datatype Manifest = Manifest(
    kind: string,          // "type"
    timestamp: string,
    dbPath: string,
    dataDirs: seq<string>,
    appRoot: string,
    version: int)

  datatype Content =
    | Blob(bytes: Bytes)
    | ManifestDoc(manifest: Manifest)
    | Zip(members: seq<Member>)

  /** One entry of a zip archive, in archive order. */
  datatype Member = Member(name: string, content: Content)

  /** `z.namelist()`: member names in archive order, duplicates kept. */
  function Names(members: seq<Member>): (names: seq<string>)
    ensures |names| == |members|
    ensures forall i :: 0 <= i < |members| ==> names[i] == members[i].name
  {
    seq(|members|, i requires 0 <= i < |members| => members[i].name)
  }

  /** What `z.read(name)` / `z.extract(name)` yields: zipfile resolves a
      duplicated name to the LAST member written under it. */
  predicate LastNamed(members: seq<Member>, name: string, i: int) {
    0 <= i < |members| && members[i].name == name &&
    forall j :: i < j < |members| ==> members[j].name != name
  }

  function Read(members: seq<Member>, name: string): Content
    requires name in Names(members)
  {
    var last := |members| - 1;
    if members[last].name == name then members[last].content
    else
      assert Names(members) == Names(members[..last]) + [members[last].name];
      Read(members[..last], name)
  }

  /** `Read` yields the content of the last member with that name. */
  lemma {:induction false} ReadIsLast(members: seq<Member>, name: string)
    requires name in Names(members)
    ensures exists i :: LastNamed(members, name, i) && members[i].content == Read(members, name)
  {
    var last := |members| - 1;
    if members[last].name != name {
      var init := members[..last];
      NamedInInit(members, name);
      ReadIsLast(init, name);
      var i :| LastNamed(init, name, i) && init[i].content == Read(init, name);
      assert Read(members, name) == Read(init, name);
      LastNamedExtend(members, name, i);
    } else {
      assert LastNamed(members, name, last);
    }
  }

  /** A name that the last member does not carry is carried earlier. */
  lemma NamedInInit(members: seq<Member>, name: string)
    requires name in Names(members) && members[|members| - 1].name != name
    ensures name in Names(members[..|members| - 1])
  {
    var k :| 0 <= k < |members| && Names(members)[k] == name;
    assert members[..|members| - 1][k].name == name;
    assert Names(members[..|members| - 1])[k] == name;
  }

  /** A last occurrence stays last when a member of another name follows. */
  lemma LastNamedExtend(members: seq<Member>, name: string, i: int)
    requires members != [] && members[|members| - 1].name != name
    requires LastNamed(members[..|members| - 1], name, i)
    ensures LastNamed(members, name, i)
  {
    var init := members[..|members| - 1];
    forall j | i < j < |members|
      ensures members[j].name != name
    {
      if j < |members| - 1 {
        assert members[j] == init[j];
      }
    }
  }

  /** The prefix every path below directory `d` starts with (`os.path.join(d, "")`). */
  function DirPrefix(d: string): string {
    PathJoin(d, "")
  }

  /** `p` lies strictly below directory `d`. */
  predicate Under(p: string, d: string) {
    d != "" && |DirPrefix(d)| < |p| && StartsWith(p, DirPrefix(d))
  }

  lemma AfterLastOfSlashPrefixed(x: string, b: string)
    requires x == "" || x[|x| - 1] == '/'
    requires '/' !in b
    ensures AfterLast(x + b, '/') == b
  {
    var s := x + b;
    AfterLastIsSuffix(s, '/');
    var r := AfterLast(s, '/');
    if x == "" {
      assert s == b;
    } else {
      assert s[|x| - 1] == '/';
      assert |r| == |b|;
    }
  }

  /** Joining a `/`-free name gives a path whose basename is that name. */
  lemma BasenameOfJoin(a: string, b: string)
    requires '/' !in b
    ensures Basename(PathJoin(a, b)) == b
  {
    if a == "" || a[|a| - 1] == '/' {
      AfterLastOfSlashPrefixed(a, b);
    } else {
      assert PathJoin(a, b) == (a + "/") + b;
      AfterLastOfSlashPrefixed(a + "/", b);
    }
  }

  /** Joining a relative name appends it to the directory prefix. */
  lemma JoinIsPrefixPlus(a: string, b: string)
    requires !StartsWith(b, "/")
    ensures PathJoin(a, b) == DirPrefix(a) + b
  {
    if b != [] {
      assert b[..1] == [b[0]];
    }
  }

  /** The first path component of `rest`. */
  function FirstComponent(rest: string): (c: string)
    ensures '/' !in c && StartsWith(rest, c)
  {
    var i := IndexOf(rest, '/');
    if i < 0 then rest else rest[..i]
  }

  /** The names `os.listdir(folder)` reports: the first component below
      `folder` of every path under it. */
  function Children(files: map<string, Content>, folder: string): set<string> {
    set k | k in files && Under(k, folder) && FirstComponent(k[|DirPrefix(folder)|..]) != "" ::
      FirstComponent(k[|DirPrefix(folder)|..])
  }

  /** `os.listdir(folder)`: every child name once, in no particular order. */
  method ListDir(files: map<string, Content>, folder: string) returns (names: seq<string>)
    ensures forall f :: f in names <==> f in Children(files, folder)
    ensures forall i, j :: 0 <= i < j < |names| ==> names[i] != names[j]
  {
    var todo := Children(files, folder);
    names := [];
    while todo != {}
      invariant todo <= Children(files, folder)
      invariant forall f :: f in names <==> f in Children(files, folder) - todo
      invariant forall i, j :: 0 <= i < j < |names| ==> names[i] != names[j]
      decreases todo
    {
      var f :| f in todo;
      assert f !in names;
      names := names + [f];
      todo := todo - {f};
    }
  }

  /** `os.path.isfile(os.path.join(folder, f))`. */
  predicate IsFile(files: map<string, Content>, folder: string, f: string) {
    PathJoin(folder, f) in files
  }

  /** The names of `names` that are regular files of `folder`, in order. */
  function FilesOnly(files: map<string, Content>, folder: string, names: seq<string>): (r: seq<string>)
    ensures forall f :: f in r <==> f in names && IsFile(files, folder, f)
  {
    if names == [] then []
    else
      var last := names[|names| - 1];
      FilesOnly(files, folder, names[..|names| - 1]) + (if IsFile(files, folder, last) then [last] else [])
  }

  /** Filtering one more name of a list. */
  lemma FilesOnlyStep(files: map<string, Content>, folder: string, names: seq<string>, i: int)
    requires 0 <= i < |names|
    ensures FilesOnly(files, folder, names[..i + 1]) ==
      FilesOnly(files, folder, names[..i]) + (if IsFile(files, folder, names[i]) then [names[i]] else [])
  {
    assert names[..i + 1][..i] == names[..i];
  }

  /** Keeping a sub-sequence keeps the order. */
  lemma {:induction false} FilesOnlySorted(files: map<string, Content>, folder: string, names: seq<string>)
    requires Sorted(names)
    ensures Sorted(FilesOnly(files, folder, names))
  {
    if names != [] {
      var init := names[..|names| - 1];
      assert Sorted(init);
      FilesOnlySorted(files, folder, init);
      var last := names[|names| - 1];
      var r := FilesOnly(files, folder, names);
      var ri := FilesOnly(files, folder, init);
      if IsFile(files, folder, last) {
        forall i | 0 <= i < |ri| ensures LexLe(ri[i], last) {
          assert ri[i] in init;
        }
      }
    }
  }

  /** What `sqlite3.connect(path).executescript(sql)` leaves in a fresh
      database file, and whether it ran to the end without raising. */
  datatype Replay = Replay(ok: bool, db: Content)

  /** The live filesystem: path to content. */
  class Disk {
    var files: map<string, Content>

    constructor (initial: map<string, Content>)
      ensures files == initial
    {
      files := initial;
    }
  }
}
