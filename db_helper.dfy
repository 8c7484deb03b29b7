/**
 * `db_helper.py`: where the application's SQLite database lives.  The
 * environment (DATA_DIR, DATABASE_FILE, DATABASE_URL) is a parameter; a
 * variable that is unset is `None`, one set to the empty string is
 * `Some("")`, exactly as `os.getenv` distinguishes them.
 */
module DbHelper {
  import opened PyStr

  const DEFAULT_DIR := "/var/data"
  const DEFAULT_FILE := "splice.db"

  /** The relative form SQLAlchemy reads as a path under the working directory. */
  const RELATIVE_PREFIX := "sqlite:///"
  /** The absolute form: `sqlite:///` followed by a path starting with `/`. */
  const ABSOLUTE_PREFIX := "sqlite:////"

  datatype Env = Env(dataDir: Option<string>, databaseFile: Option<string>, databaseUrl: Option<string>)

  /** `os.getenv(name, default)`. */
  function GetEnv(v: Option<string>, default: string): string {
    if v.Some? then v.value else default
  }

  /** The stripped DATABASE_URL, or the empty string. */
  function GivenUrl(env: Env): string {
    Strip(GetEnv(env.databaseUrl, ""))
  }

  /** A URL `resolve_db_url` rewrites: relative `sqlite:///` but not absolute. */
  predicate IsRelativeSqlite(url: string) {
    StartsWith(url, RELATIVE_PREFIX) && !StartsWith(url, ABSOLUTE_PREFIX)
  }

  /** `tail` is the last `/`-segment of `piece`: all of it when it has no
      `/`, otherwise the `/`-free text after its last `/`. */
  predicate IsLastSegment(piece: string, tail: string) {
    && '/' !in tail
    && EndsWith(piece, tail)
    && ('/' !in piece ==> tail == piece)
    && ('/' in piece ==> |tail| < |piece| && piece[|piece| - |tail| - 1] == '/')
  }

  /** A piece has only one last segment. */
  lemma LastSegmentUnique(piece: string, t1: string, t2: string)
    requires IsLastSegment(piece, t1) && IsLastSegment(piece, t2)
    ensures t1 == t2
  {
    if '/' in piece {
      SlashBeforeSegment(piece, t1, t2);
      SlashBeforeSegment(piece, t2, t1);
    }
  }

  lemma SlashBeforeSegment(piece: string, t1: string, t2: string)
    requires '/' in piece && IsLastSegment(piece, t1) && IsLastSegment(piece, t2)
    ensures |t2| <= |t1|
  {
    var n := |piece|;
    assert forall j :: n - |t2| <= j < n ==> piece[j] == t2[j - (n - |t2|)];
    assert piece[n - |t1| - 1] == '/';
  }

  /** `tail.split("/")[-1] if "/" in tail else tail`. */
  function LastSegment(piece: string): (tail: string)
    ensures IsLastSegment(piece, tail)
  {
    AfterLastIsSuffix(piece, '/');
    if '/' in piece then AfterLast(piece, '/') else piece
  }

  /**
   * The file name kept from a relative URL: the piece `url.split("sqlite:///")[1]`
   * (up to a second `sqlite:///`, if any), cut down to its last `/`-segment.
   */
  function RelativeTail(url: string): (tail: string)
    requires StartsWith(url, RELATIVE_PREFIX)
    ensures IsLastSegment(BeforeFirst(url[|RELATIVE_PREFIX|..], RELATIVE_PREFIX), tail)
  {
    LastSegment(BeforeFirst(url[|RELATIVE_PREFIX|..], RELATIVE_PREFIX))
  }

  /** `resolve_db_path`: DATABASE_FILE joined onto DATA_DIR. */
  function ResolveDbPath(env: Env, defaultDir: string, defaultFile: string): (p: string)
    ensures var dir := GetEnv(env.dataDir, defaultDir);
      var file := GetEnv(env.databaseFile, defaultFile);
      && (StartsWith(file, "/") ==> p == file)
      && (!StartsWith(file, "/") ==> StartsWith(p, dir) && EndsWith(p, file))
  {
    PathJoin(GetEnv(env.dataDir, defaultDir), GetEnv(env.databaseFile, defaultFile))
  }

  /** `resolve_db_url`. */
  function ResolveDbUrl(env: Env, defaultDir: string, defaultFile: string): (url: string)
    ensures url != ""
  {
    var dataDir := GetEnv(env.dataDir, defaultDir);
    var dbFile := GetEnv(env.databaseFile, defaultFile);
    var given := GivenUrl(env);
    if given != "" then
      if IsRelativeSqlite(given) then ABSOLUTE_PREFIX + PathJoin(dataDir, RelativeTail(given))
      else given
    else ABSOLUTE_PREFIX + PathJoin(dataDir, dbFile)
  }

  /** With no usable DATABASE_URL the URL is the absolute SQLite URL of
      exactly the path `resolve_db_path` returns. */
  lemma DefaultUrlEmbedsPath(env: Env, defaultDir: string, defaultFile: string)
    requires GivenUrl(env) == ""
    ensures ResolveDbUrl(env, defaultDir, defaultFile) == ABSOLUTE_PREFIX + ResolveDbPath(env, defaultDir, defaultFile)
    ensures StartsWith(ResolveDbUrl(env, defaultDir, defaultFile), ABSOLUTE_PREFIX)
  {
  }

  /** A relative SQLite URL is moved into DATA_DIR: only the last
      `/`-segment of its path survives (the whole path when it has no `/`). */
  lemma RelativeUrlRebuilt(env: Env, defaultDir: string, defaultFile: string)
    requires IsRelativeSqlite(GivenUrl(env))
    ensures var url := ResolveDbUrl(env, defaultDir, defaultFile);
      var given := GivenUrl(env);
      var piece := BeforeFirst(given[|RELATIVE_PREFIX|..], RELATIVE_PREFIX);
      exists tail :: IsLastSegment(piece, tail) && url == ABSOLUTE_PREFIX + PathJoin(GetEnv(env.dataDir, defaultDir), tail)
  {
    var tail := RelativeTail(GivenUrl(env));
    assert ResolveDbUrl(env, defaultDir, defaultFile) == ABSOLUTE_PREFIX + PathJoin(GetEnv(env.dataDir, defaultDir), tail);
  }

  /** An absolute SQLite URL, or any URL that is not `sqlite:///`, is kept
      as given, apart from the strip. */
  lemma OtherUrlsKept(env: Env, defaultDir: string, defaultFile: string)
    requires GivenUrl(env) != "" && !IsRelativeSqlite(GivenUrl(env))
    ensures ResolveDbUrl(env, defaultDir, defaultFile) == GivenUrl(env)
    ensures Strip(ResolveDbUrl(env, defaultDir, defaultFile)) == ResolveDbUrl(env, defaultDir, defaultFile)
  {
    StripFixed(GivenUrl(env));
  }

  /** Every URL the function builds itself is absolute. */
  lemma BuiltUrlIsAbsolute(dir: string, name: string)
    ensures !IsRelativeSqlite(ABSOLUTE_PREFIX + PathJoin(dir, name))
  {
    var u := ABSOLUTE_PREFIX + PathJoin(dir, name);
    assert u[..|ABSOLUTE_PREFIX|] == ABSOLUTE_PREFIX;
  }

  /** A non-empty, stripped URL that is not relative passes through unchanged. */
  lemma KeptUrlIsFixed(env: Env, url: string, defaultDir: string, defaultFile: string)
    requires url != "" && !IsSpace(url[0]) && !IsSpace(url[|url| - 1]) && !IsRelativeSqlite(url)
    ensures ResolveDbUrl(env.(databaseUrl := Some(url)), defaultDir, defaultFile) == url
  {
    StripFixed(url);
    assert GivenUrl(env.(databaseUrl := Some(url))) == url;
  }

  /**
   * Feeding the result back in as DATABASE_URL gives it again, provided it
   * has no whitespace at its end (whitespace the strip would remove).
   */
  lemma ResolveIdempotent(env: Env, defaultDir: string, defaultFile: string)
    requires var url := ResolveDbUrl(env, defaultDir, defaultFile);
      !IsSpace(url[|url| - 1])
    ensures var url := ResolveDbUrl(env, defaultDir, defaultFile);
      ResolveDbUrl(env.(databaseUrl := Some(url)), defaultDir, defaultFile) == url
  {
    var url := ResolveDbUrl(env, defaultDir, defaultFile);
    var given := GivenUrl(env);
    var dataDir := GetEnv(env.dataDir, defaultDir);
    if given == "" {
      BuiltUrlIsAbsolute(dataDir, GetEnv(env.databaseFile, defaultFile));
      assert url[0] == 's';
    } else if IsRelativeSqlite(given) {
      BuiltUrlIsAbsolute(dataDir, RelativeTail(given));
      assert url[0] == 's';
    } else {
      assert url == given;
    }
    KeptUrlIsFixed(env, url, defaultDir, defaultFile);
  }

  /** The whitespace proviso is needed: a DATABASE_FILE ending in a space
      yields a URL that changes when resolved again. */
  lemma NotIdempotentWithTrailingSpace()
    ensures var env := Env(None, Some("a "), None);
      var url := ResolveDbUrl(env, DEFAULT_DIR, DEFAULT_FILE);
      && url == ABSOLUTE_PREFIX + "/var/data/a "
      && ResolveDbUrl(env.(databaseUrl := Some(url)), DEFAULT_DIR, DEFAULT_FILE) == ABSOLUTE_PREFIX + "/var/data/a"
  {
    var env := Env(None, Some("a "), None);
    var url := ResolveDbUrl(env, DEFAULT_DIR, DEFAULT_FILE);
    assert GivenUrl(env) == "" by {
      assert LStrip("") == "";
      assert RStrip("") == "";
    }
    assert PathJoin(DEFAULT_DIR, "a ") == "/var/data/a ";
    assert url == ABSOLUTE_PREFIX + "/var/data/a ";
    var stripped := ABSOLUTE_PREFIX + "/var/data/a";
    assert url == stripped + " ";
    assert LStrip(url) == url;
    assert url[..|url| - 1] == stripped;
    assert RStrip(stripped) == stripped;
    assert RStrip(url) == stripped;
    assert StartsWith(stripped, ABSOLUTE_PREFIX) by {
      assert stripped[..|ABSOLUTE_PREFIX|] == ABSOLUTE_PREFIX;
    }
  }
}
