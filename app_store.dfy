/**
 * The table-changing routes of `app_main.py`: `register`, `new_record`,
 * `view_record`, `delete_record` and `admin_toggle_admin`.  The three
 * tables the routes touch (users, records, photos) are sequences in
 * insertion order held by a `Store`; `lastrowid` is the store's next id.
 * The upload folder lives on the abstract `Disk`.
 */
module SpliceStore {
  import opened PyStr
  import opened FileSystem
  import opened SpliceRules

  datatype User = User(id: int, username: string, passwordHash: string, isAdmin: bool)

  datatype Record = Record(
    id: int,
    userId: int,
    deviceName: string,
    fusionCount: nat,
    status: string,
    workMapId: Option<int>,
    notes: string)

  datatype Photo = Photo(recordId: int, filename: string, originalFilename: string, fileSize: nat)

  /**
   * One entry of the `photos` file list: its client file name, its bytes,
   * the timestamp `strftime` gives when it is handled, and whether
   * `f.save` (with the size lookup after it) succeeds.
   */
  datatype PhotoUpload = PhotoUpload(filename: string, bytes: Bytes, ts: string, saveOk: bool)

  datatype RegisterOutcome = Closed | ShowForm | Incomplete | Registered(userId: int)

  /** `CountTooLong` is the `ValueError` `int()` raises on a count with too
      many digits, `BindOverflow` the `OverflowError` the INSERT raises for a
      count or a work map id SQLite cannot hold: either way the request fails
      before anything is stored. */
  datatype NewRecordOutcome = InvalidFields | MapDenied | CountTooLong | BindOverflow | Created(recordId: int, saved: seq<string>)

  // =====================================================================
  // Table queries
  // =====================================================================

  predicate UniqueUserIds(users: seq<User>) {
    forall i, j :: 0 <= i < j < |users| ==> users[i].id != users[j].id
  }

  predicate UniqueRecordIds(records: seq<Record>) {
    forall i, j :: 0 <= i < j < |records| ==> records[i].id != records[j].id
  }

  predicate HasUser(users: seq<User>, id: int) {
    exists u :: u in users && u.id == id
  }

  /**
   * The query of `view_record`: the record with that id, joined with its
   * author's user row, and only if the caller owns it or is an admin.
   */
  function Viewable(users: seq<User>, records: seq<Record>, recordId: int, uid: int, isAdmin: bool): (r: Option<Record>)
    ensures r.Some? ==> (r.value in records && r.value.id == recordId
      && (r.value.userId == uid || isAdmin) && HasUser(users, r.value.userId))
    ensures r.None? <==> forall rec :: rec in records && rec.id == recordId ==>
      !(rec.userId == uid || isAdmin) || !HasUser(users, rec.userId)
  {
    if records == [] then None
    else
      var rec := records[0];
      if rec.id == recordId && (rec.userId == uid || isAdmin) && HasUser(users, rec.userId) then Some(rec)
      else Viewable(users, records[1..], recordId, uid, isAdmin)
  }

  /** The check of `delete_record`: the same owner-or-admin test, without the join. */
  predicate Deletable(records: seq<Record>, recordId: int, uid: int, isAdmin: bool) {
    exists rec :: rec in records && rec.id == recordId && (rec.userId == uid || isAdmin)
  }

  /** Whoever may view a record may delete it; the converse needs the
      author's user row to exist. */
  lemma ViewableIsDeletable(users: seq<User>, records: seq<Record>, recordId: int, uid: int, isAdmin: bool)
    ensures Viewable(users, records, recordId, uid, isAdmin).Some? ==> Deletable(records, recordId, uid, isAdmin)
    ensures UniqueRecordIds(records) && Deletable(records, recordId, uid, isAdmin) ==>
      (Viewable(users, records, recordId, uid, isAdmin).Some? <==>
        forall rec :: rec in records && rec.id == recordId ==> HasUser(users, rec.userId))
  {
  }

  /** A user who is neither owner nor admin sees and deletes nothing of others. */
  lemma StrangersLockedOut(users: seq<User>, records: seq<Record>, recordId: int, uid: int)
    requires forall rec :: rec in records && rec.id == recordId ==> rec.userId != uid
    ensures Viewable(users, records, recordId, uid, false).None?
    ensures !Deletable(records, recordId, uid, false)
  {
  }

  /** The rows of `photos` that belong to a record, in their order. */
  function PhotosOf(photos: seq<Photo>, recordId: int): (r: seq<Photo>)
    ensures |r| <= |photos|
    ensures forall p :: p in r <==> p in photos && p.recordId == recordId
  {
    if photos == [] then []
    else
      var rest := PhotosOf(photos[..|photos| - 1], recordId);
      var p := photos[|photos| - 1];
      assert photos == photos[..|photos| - 1] + [p];
      rest + (if p.recordId == recordId then [p] else [])
  }

  /** `DELETE FROM photos WHERE record_id = ?`. */
  function PhotosWithout(photos: seq<Photo>, recordId: int): (r: seq<Photo>)
    ensures |r| <= |photos|
    ensures forall p :: p in r <==> p in photos && p.recordId != recordId
  {
    if photos == [] then []
    else
      var rest := PhotosWithout(photos[..|photos| - 1], recordId);
      var p := photos[|photos| - 1];
      assert photos == photos[..|photos| - 1] + [p];
      rest + (if p.recordId != recordId then [p] else [])
  }

  /** `DELETE FROM records WHERE id = ?`. */
  function RecordsWithout(records: seq<Record>, recordId: int): (r: seq<Record>)
    ensures |r| <= |records|
    ensures forall rec :: rec in r <==> rec in records && rec.id != recordId
  {
    if records == [] then []
    else
      var rest := RecordsWithout(records[..|records| - 1], recordId);
      var rec := records[|records| - 1];
      assert records == records[..|records| - 1] + [rec];
      rest + (if rec.id != recordId then [rec] else [])
  }

  /** The upload-folder paths of some photo rows. */
  function PhotoPaths(folder: string, photos: seq<Photo>): set<string> {
    set p | p in photos :: PathJoin(folder, p.filename)
  }

  /** `admin_toggle_admin`'s update: the flag of the users with that id flipped. */
  function ToggledUsers(users: seq<User>, userId: int): (r: seq<User>)
    ensures |r| == |users|
    ensures forall k :: 0 <= k < |users| ==>
      r[k].id == users[k].id && r[k].username == users[k].username && r[k].passwordHash == users[k].passwordHash
    ensures forall k :: 0 <= k < |users| && users[k].id != userId ==> r[k] == users[k]
    ensures forall k :: 0 <= k < |users| && users[k].id == userId ==> r[k].isAdmin != users[k].isAdmin
  {
    seq(|users|, k requires 0 <= k < |users| =>
      if users[k].id == userId then users[k].(isAdmin := !users[k].isAdmin) else users[k])
  }

  /** Toggling twice restores the table. */
  lemma ToggleTwice(users: seq<User>, userId: int)
    ensures ToggledUsers(ToggledUsers(users, userId), userId) == users
  {
    var once := ToggledUsers(users, userId);
    var twice := ToggledUsers(once, userId);
    assert forall k :: 0 <= k < |users| ==> twice[k] == users[k];
  }

  // =====================================================================
  // The photo loop of new_record
  // =====================================================================

  /** `files[:MAX_FILES_PER_RECORD]`. */
  function Window(uploads: seq<PhotoUpload>): (w: seq<PhotoUpload>)
    ensures |w| <= MAX_FILES_PER_RECORD && |w| <= |uploads| && w == uploads[..|w|]
    ensures |uploads| >= MAX_FILES_PER_RECORD ==> |w| == MAX_FILES_PER_RECORD
    ensures |uploads| < MAX_FILES_PER_RECORD ==> w == uploads
  {
    if |uploads| <= MAX_FILES_PER_RECORD then uploads else uploads[..MAX_FILES_PER_RECORD]
  }

  /** An upload that ends as a photo row: accepted by name, and saved. */
  predicate Kept(u: PhotoUpload) {
    PhotoAccepted(u.filename) && u.saveOk
  }

  /** The uploads that end as photo rows, in order. */
  function KeptUploads(ups: seq<PhotoUpload>): (r: seq<PhotoUpload>)
    ensures |r| <= |ups|
    ensures forall u :: u in r <==> u in ups && Kept(u)
  {
    if ups == [] then []
    else
      var u := ups[|ups| - 1];
      assert ups == ups[..|ups| - 1] + [u];
      KeptUploads(ups[..|ups| - 1]) + (if Kept(u) then [u] else [])
  }

  /** `f"{timestamp}_{safe_filename}"`. */
  function FinalName(u: PhotoUpload, sanitize: string -> string): (name: string)
    ensures StartsWith(name, u.ts + "_") && EndsWith(name, sanitize(u.filename))
    ensures |name| == |u.ts| + 1 + |sanitize(u.filename)|
  {
    var name := u.ts + "_" + sanitize(u.filename);
    assert name[..|u.ts + "_"|] == u.ts + "_";
    assert name[|name| - |sanitize(u.filename)|..] == sanitize(u.filename);
    name
  }

  /** The photo row inserted for a kept upload. */
  function PhotoRow(recordId: int, u: PhotoUpload, sanitize: string -> string): Photo {
    Photo(recordId, FinalName(u, sanitize), u.filename, |u.bytes|)
  }

  function PhotoRows(recordId: int, kept: seq<PhotoUpload>, sanitize: string -> string): (rows: seq<Photo>)
    ensures |rows| == |kept|
    ensures forall k :: 0 <= k < |kept| ==> rows[k] == PhotoRow(recordId, kept[k], sanitize)
  {
    seq(|kept|, k requires 0 <= k < |kept| => PhotoRow(recordId, kept[k], sanitize))
  }

  function SavedNames(kept: seq<PhotoUpload>, sanitize: string -> string): (names: seq<string>)
    ensures |names| == |kept|
    ensures forall k :: 0 <= k < |kept| ==> names[k] == FinalName(kept[k], sanitize)
  {
    seq(|kept|, k requires 0 <= k < |kept| => FinalName(kept[k], sanitize))
  }

  /** The upload folder after the kept uploads are written, one after another. */
  function StoreAll(files: map<string, Content>, folder: string, kept: seq<PhotoUpload>, sanitize: string -> string)
    : map<string, Content>
  {
    if kept == [] then files
    else
      var u := kept[|kept| - 1];
      StoreAll(files, folder, kept[..|kept| - 1], sanitize)[PathJoin(folder, FinalName(u, sanitize)) := Blob(u.bytes)]
  }

  /** The paths the kept uploads are written to. */
  function StoredPaths(folder: string, kept: seq<PhotoUpload>, sanitize: string -> string): set<string> {
    set u | u in kept :: PathJoin(folder, FinalName(u, sanitize))
  }

  /** Saving creates exactly the kept uploads' paths. */
  lemma {:induction false} StoreAllKeys(files: map<string, Content>, folder: string, kept: seq<PhotoUpload>,
                                        sanitize: string -> string)
    ensures StoreAll(files, folder, kept, sanitize).Keys == files.Keys + StoredPaths(folder, kept, sanitize)
  {
    if kept != [] {
      var init := kept[..|kept| - 1];
      var u := kept[|kept| - 1];
      StoreAllKeys(files, folder, init, sanitize);
      assert kept == init + [u];
      assert StoredPaths(folder, kept, sanitize) ==
        StoredPaths(folder, init, sanitize) + {PathJoin(folder, FinalName(u, sanitize))};
    }
  }

  /** A file at any other path keeps its content. */
  lemma {:induction false} StoreAllKeepsOthers(files: map<string, Content>, folder: string, kept: seq<PhotoUpload>,
                                               sanitize: string -> string, p: string)
    requires p in files && p !in StoredPaths(folder, kept, sanitize)
    ensures p in StoreAll(files, folder, kept, sanitize) && StoreAll(files, folder, kept, sanitize)[p] == files[p]
  {
    if kept != [] {
      var init := kept[..|kept| - 1];
      var u := kept[|kept| - 1];
      assert u in kept;
      assert forall v :: v in init ==> v in kept;
      StoreAllKeepsOthers(files, folder, init, sanitize, p);
    }
  }

  /** The path of the last kept upload holds its bytes. */
  lemma LastUploadWins(files: map<string, Content>, folder: string, kept: seq<PhotoUpload>, sanitize: string -> string)
    requires kept != []
    ensures var last := kept[|kept| - 1];
      StoreAll(files, folder, kept, sanitize)[PathJoin(folder, FinalName(last, sanitize))] == Blob(last.bytes)
  {
  }

  /** At most six photos are saved, all of them from the first six files,
      each accepted by name. */
  lemma {:induction false} AtMostSixPhotos(uploads: seq<PhotoUpload>)
    ensures |KeptUploads(Window(uploads))| <= MAX_FILES_PER_RECORD
    ensures forall u :: u in KeptUploads(Window(uploads)) ==>
      PhotoAccepted(u.filename) && exists k :: 0 <= k < MAX_FILES_PER_RECORD && k < |uploads| && uploads[k] == u
  {
    var w := Window(uploads);
    forall u | u in KeptUploads(w)
      ensures exists k :: 0 <= k < MAX_FILES_PER_RECORD && k < |uploads| && uploads[k] == u
    {
      var k :| 0 <= k < |w| && w[k] == u;
      assert uploads[k] == u;
    }
  }

  /** The seventh file is never looked at, whatever it is. */
  lemma SeventhFileIgnored(uploads: seq<PhotoUpload>, extra: PhotoUpload)
    requires |uploads| == MAX_FILES_PER_RECORD
    ensures KeptUploads(Window(uploads + [extra])) == KeptUploads(Window(uploads))
  {
    assert Window(uploads + [extra]) == uploads;
  }

  // =====================================================================
  // The store
  // =====================================================================

  class Store {
    var users: seq<User>
    var records: seq<Record>
    var photos: seq<Photo>
    /** The rowids the next inserts get. */
    var nextUserId: int
    var nextRecordId: int

    /** Primary keys are unique and below the next rowid. */
    ghost predicate Valid()
      reads this
    {
      && UniqueUserIds(users)
      && UniqueRecordIds(records)
      && (forall u :: u in users ==> u.id < nextUserId)
      && (forall r :: r in records ==> r.id < nextRecordId)
    }

    constructor ()
      ensures Valid()
      ensures users == [] && records == [] && photos == []
    {
      users := [];
      records := [];
      photos := [];
      nextUserId := 1;
      nextRecordId := 1;
    }

    /**
     * `register`: closed as soon as any user exists; otherwise a POST with a
     * username and a password creates the first user, as an administrator.
     * `username` and `password` are the form values after `.strip()`
     * (`FormText`); the hash function is a parameter.
     */
    method Register(isPost: bool, username: string, password: string, hash: string -> string)
      returns (outcome: RegisterOutcome)
      requires Valid()
      modifies this
      ensures Valid()
      ensures outcome == Closed <==> old(users) != []
      ensures outcome.Registered? <==>
        old(users) == [] && isPost && username != "" && password != ""
      ensures outcome.Registered? ==> (outcome.userId == old(nextUserId)
        && users == [User(outcome.userId, username, hash(password), true)]
        && nextUserId == old(nextUserId) + 1)
      ensures !outcome.Registered? ==> users == old(users) && nextUserId == old(nextUserId)
      ensures records == old(records) && photos == old(photos) && nextRecordId == old(nextRecordId)
    {
      if |users| > 0 {
        outcome := Closed;
      } else if !isPost {
        outcome := ShowForm;
      } else {
        if username == "" || password == "" {
          outcome := Incomplete;
        } else {
          var id := nextUserId;
          users := [User(id, username, hash(password), true)];
          nextUserId := nextUserId + 1;
          outcome := Registered(id);
        }
      }
    }

    /** `view_record`: the visible record and its photos, or 404 (`None`). */
    method ViewRecord(recordId: int, uid: int, isAdmin: bool) returns (rec: Option<Record>, recPhotos: seq<Photo>)
      ensures rec == Viewable(users, records, recordId, uid, isAdmin)
      ensures rec.Some? ==> recPhotos == PhotosOf(photos, recordId)
      ensures rec.None? ==> recPhotos == []
    {
      rec := Viewable(users, records, recordId, uid, isAdmin);
      recPhotos := if rec.Some? then PhotosOf(photos, recordId) else [];
    }

    /**
     * `delete_record`: when the caller may delete the record, every file of
     * its photos that exists is removed from the upload folder, then its
     * photo rows and the record row are deleted.  Otherwise (404) nothing
     * changes.
     */
    method DeleteRecord(recordId: int, uid: int, isAdmin: bool, disk: Disk, folder: string) returns (deleted: bool)
      requires Valid()
      modifies this, disk
      ensures Valid()
      ensures deleted <==> Deletable(old(records), recordId, uid, isAdmin)
      ensures !deleted ==> records == old(records) && photos == old(photos) && disk.files == old(disk.files)
      ensures deleted ==> (records == RecordsWithout(old(records), recordId)
        && photos == PhotosWithout(old(photos), recordId)
        && disk.files == old(disk.files) - PhotoPaths(folder, PhotosOf(old(photos), recordId)))
      ensures users == old(users) && nextUserId == old(nextUserId) && nextRecordId == old(nextRecordId)
    {
      if !Deletable(records, recordId, uid, isAdmin) {
        return false;
      }
      RemovePhotoFiles(disk, folder, PhotosOf(photos, recordId));
      photos := PhotosWithout(photos, recordId);
      records := RecordsWithout(records, recordId);
      deleted := true;
      RecordsWithoutKeepsUnique(old(records), recordId);
    }

    /**
     * `admin_toggle_admin`: an unknown id changes nothing; otherwise that
     * user's flag is flipped and no other row changes.
     */
    method ToggleAdmin(userId: int) returns (found: bool)
      requires Valid()
      modifies this
      ensures Valid()
      ensures found <==> HasUser(old(users), userId)
      ensures found ==> users == ToggledUsers(old(users), userId)
      ensures !found ==> users == old(users)
      ensures records == old(records) && photos == old(photos)
      ensures nextUserId == old(nextUserId) && nextRecordId == old(nextRecordId)
    {
      if !HasUser(users, userId) {
        return false;
      }
      users := ToggledUsers(users, userId);
      found := true;
    }

    /**
     * `new_record`: invalid fields or a refused work map change nothing,
     * and neither does a count too long for `int()`, nor a count or work map
     * id beyond SQLite's signed 64-bit integers, on which the INSERT raises;
     * otherwise a draft record is inserted and each of the first six files
     * that is accepted by name is written to the upload folder and gets a
     * photo row, unless saving it fails.  `form` is the form as
     * `ReadRecordForm` reads it; `accessible` holds the ids of the maps
     * shared with the user.
     */
    method NewRecord(uid: int, isAdmin: bool, accessible: seq<int>,
                     form: RecordForm, uploads: seq<PhotoUpload>, sanitize: string -> string,
                     disk: Disk, folder: string)
      returns (outcome: NewRecordOutcome)
      requires Valid()
      modifies this, disk
      ensures Valid()
      ensures outcome == InvalidFields <==> !FieldsOk(form)
      ensures outcome == MapDenied <==> FieldsOk(form) && MapAccessRejected(form.workMapId, isAdmin, accessible)
      ensures outcome == CountTooLong <==>
        FieldsOk(form) && !MapAccessRejected(form.workMapId, isAdmin, accessible)
        && |form.fusionCount| > INT_MAX_STR_DIGITS
      ensures outcome == BindOverflow <==>
        FieldsOk(form) && !MapAccessRejected(form.workMapId, isAdmin, accessible)
        && |form.fusionCount| <= INT_MAX_STR_DIGITS && !RecordBindsFit(form)
      ensures !outcome.Created? ==> (records == old(records) && photos == old(photos)
        && disk.files == old(disk.files) && nextRecordId == old(nextRecordId))
      ensures outcome.Created? ==>
        var kept := KeptUploads(Window(uploads));
        && outcome.recordId == old(nextRecordId)
        && records == old(records) + [Record(outcome.recordId, uid, form.deviceName,
             DigitsValue(form.fusionCount), "draft", form.workMapId, form.notes)]
        && photos == old(photos) + PhotoRows(outcome.recordId, kept, sanitize)
        && outcome.saved == SavedNames(kept, sanitize)
        && disk.files == StoreAll(old(disk.files), folder, kept, sanitize)
        && nextRecordId == old(nextRecordId) + 1
      ensures users == old(users) && nextUserId == old(nextUserId)
    {
      if !FieldsOk(form) {
        outcome := InvalidFields;
      } else if MapAccessRejected(form.workMapId, isAdmin, accessible) {
        outcome := MapDenied;
      } else if |form.fusionCount| > INT_MAX_STR_DIGITS {
        outcome := CountTooLong;
      } else if !RecordBindsFit(form) {
        outcome := BindOverflow;
      } else {
        var recordId := nextRecordId;
        var count := DigitsValue(form.fusionCount);
        var row := Record(recordId, uid, form.deviceName, count,
                          "draft", form.workMapId, form.notes);
        AppendFreshRecord(records, row, nextRecordId);
        records := records + [row];
        nextRecordId := nextRecordId + 1;
        var rows, saved := SavePhotos(disk, folder, recordId, Window(uploads), sanitize);
        photos := photos + rows;
        outcome := Created(recordId, saved);
      }
    }
  }

  /** Appending a row whose id is above every stored id keeps ids unique. */
  lemma AppendFreshRecord(records: seq<Record>, row: Record, nextId: int)
    requires UniqueRecordIds(records) && (forall r :: r in records ==> r.id < nextId) && row.id == nextId
    ensures UniqueRecordIds(records + [row])
    ensures forall r :: r in records + [row] ==> r.id < nextId + 1
  {
    forall i | 0 <= i < |records|
      ensures records[i].id != row.id
    {
      assert records[i] in records;
    }
  }

  /** Deleting rows keeps the remaining ids unique and below the next id. */
  lemma {:induction false} RecordsWithoutKeepsUnique(records: seq<Record>, recordId: int)
    requires UniqueRecordIds(records)
    ensures UniqueRecordIds(RecordsWithout(records, recordId))
  {
    if records != [] {
      var init := records[..|records| - 1];
      var last := records[|records| - 1];
      assert UniqueRecordIds(init);
      RecordsWithoutKeepsUnique(init, recordId);
      var rest := RecordsWithout(init, recordId);
      forall k | 0 <= k < |rest|
        ensures rest[k].id != last.id
      {
        assert rest[k] in init;
        var j :| 0 <= j < |init| && init[j] == rest[k];
        assert records[j] == rest[k];
      }
    }
  }

  /** One more file of the window: it is kept or skipped. */
  lemma KeptStep(window: seq<PhotoUpload>, i: int)
    requires 0 <= i < |window|
    ensures KeptUploads(window[..i + 1]) ==
      KeptUploads(window[..i]) + (if Kept(window[i]) then [window[i]] else [])
  {
    assert window[..i + 1][..i] == window[..i];
  }

  /** Keeping one more upload adds its row, its name and its file. */
  lemma KeptAppend(files: map<string, Content>, folder: string, recordId: int, kept: seq<PhotoUpload>,
                   u: PhotoUpload, sanitize: string -> string)
    ensures PhotoRows(recordId, kept + [u], sanitize) == PhotoRows(recordId, kept, sanitize) + [PhotoRow(recordId, u, sanitize)]
    ensures SavedNames(kept + [u], sanitize) == SavedNames(kept, sanitize) + [FinalName(u, sanitize)]
    ensures StoreAll(files, folder, kept + [u], sanitize) ==
      StoreAll(files, folder, kept, sanitize)[PathJoin(folder, FinalName(u, sanitize)) := Blob(u.bytes)]
  {
    assert (kept + [u])[..|kept|] == kept;
  }

  /**
   * The file-removal loop of `delete_record`: each photo's file in the
   * upload folder is removed when it exists.
   */
  method RemovePhotoFiles(disk: Disk, folder: string, doomed: seq<Photo>)
    modifies disk
    ensures disk.files == old(disk.files) - PhotoPaths(folder, doomed)
  {
    ghost var files0 := disk.files;
    for i := 0 to |doomed|
      invariant disk.files == files0 - PhotoPaths(folder, doomed[..i])
    {
      var fpath := PathJoin(folder, doomed[i].filename);
      ghost var gone := PhotoPaths(folder, doomed[..i]);
      assert doomed[..i + 1] == doomed[..i] + [doomed[i]];
      assert PhotoPaths(folder, doomed[..i + 1]) == gone + {fpath};
      if fpath in disk.files {
        disk.files := disk.files - {fpath};
      }
      assert disk.files == files0 - (gone + {fpath});
    }
    assert doomed[..|doomed|] == doomed;
  }

  /**
   * The photo loop of `new_record` over the first six files: a file with a
   * name, an allowed extension and a successful save is written to
   * `<folder>/<ts>_<secure name>` and yields a photo row and a saved name;
   * any other file is skipped.
   */
  method SavePhotos(disk: Disk, folder: string, recordId: int, window: seq<PhotoUpload>, sanitize: string -> string)
    returns (rows: seq<Photo>, saved: seq<string>)
    modifies disk
    ensures rows == PhotoRows(recordId, KeptUploads(window), sanitize)
    ensures saved == SavedNames(KeptUploads(window), sanitize)
    ensures disk.files == StoreAll(old(disk.files), folder, KeptUploads(window), sanitize)
  {
    rows := [];
    saved := [];
    ghost var files0 := disk.files;
    for i := 0 to |window|
      invariant rows == PhotoRows(recordId, KeptUploads(window[..i]), sanitize)
      invariant saved == SavedNames(KeptUploads(window[..i]), sanitize)
      invariant disk.files == StoreAll(files0, folder, KeptUploads(window[..i]), sanitize)
    {
      var u := window[i];
      ghost var before := KeptUploads(window[..i]);
      KeptStep(window, i);
      // an empty name or a refused extension is skipped; a failed save is logged and skipped
      if PhotoAccepted(u.filename) && u.saveOk {
        var finalName := FinalName(u, sanitize);
        var dest := PathJoin(folder, finalName);
        KeptAppend(files0, folder, recordId, before, u, sanitize);
        disk.files := disk.files[dest := Blob(u.bytes)];
        rows := rows + [Photo(recordId, finalName, u.filename, |u.bytes|)];
        saved := saved + [finalName];
        assert KeptUploads(window[..i + 1]) == before + [u];
      } else {
        assert KeptUploads(window[..i + 1]) == before;
      }
    }
    assert window[..|window|] == window;
  }
}
