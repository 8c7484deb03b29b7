/**
 * `persist_guard.py`: the boot-time backup of the database and the guard
 * that wraps every new SQLite connection so that destructive statements
 * (`DROP TABLE`, `DROP SCHEMA`, `TRUNCATE`) raise instead of running.
 *
 * The detector is the regular expression
 * `\b(DROP\s+TABLE|DROP\s+SCHEMA|TRUNCATE)\b` searched case-insensitively;
 * it is given here as a declarative predicate (`Dangerous`) and as the
 * position-by-position scan a regex search performs (`Search`), and the two
 * are proved to agree.
 */
module PersistGuard {
  import opened PyStr
  import opened FileSystem

  // =====================================================================
  // Characters
  // =====================================================================

  /** `\w`: letters, digits and `_` (restricted to ASCII here). */
  predicate IsWord(c: char) {
    ('a' <= c <= 'z') || ('A' <= c <= 'Z') || ('0' <= c <= '9') || c == '_'
  }

  /** Under `re.I`, a character matches the upper-case ASCII letter `u` of the
      pattern when it is `u`, its lower case, or (for `S`) the long s `ſ`,
      which Python's case-insensitive matching also folds to `s`. */
  predicate CharMatch(c: char, u: char) {
    c == u || c as int == u as int + 32 || (u == 'S' && c == 'ſ')
  }

  /** A word character at position `i` (outside the text there is none). */
  predicate WordAt(s: string, i: int) {
    0 <= i < |s| && IsWord(s[i])
  }

  /** `\b` at position `i`: a word character on exactly one side. */
  predicate Boundary(s: string, i: int) {
    WordAt(s, i - 1) != WordAt(s, i)
  }

  /** The keyword `kw` (upper-case ASCII) occurs at `i`, ignoring case. */
  predicate KeywordAt(s: string, i: int, kw: string) {
    0 <= i && i + |kw| <= |s| && forall k :: 0 <= k < |kw| ==> CharMatch(s[i + k], kw[k])
  }

  /** `s[a..b]` is made only of whitespace (`\s`). */
  predicate AllSpace(s: string, a: int, b: int) {
    0 <= a <= b <= |s| && forall k :: a <= k < b ==> IsSpace(s[k])
  }

  // =====================================================================
  // The pattern, declaratively
  // =====================================================================

  /** `DROP\s+TABLE` or `DROP\s+SCHEMA` spans `s[i..j]`. */
  ghost predicate DropAt(s: string, i: int, j: int) {
    KeywordAt(s, i, "DROP") &&
    exists m :: i + 4 < m && AllSpace(s, i + 4, m) &&
      ((KeywordAt(s, m, "TABLE") && j == m + 5) || (KeywordAt(s, m, "SCHEMA") && j == m + 6))
  }

  /** `TRUNCATE` spans `s[i..j]`. */
  predicate TruncateAt(s: string, i: int, j: int) {
    KeywordAt(s, i, "TRUNCATE") && j == i + 8
  }

  /** The whole pattern, with both word boundaries, matches `s[i..j]`. */
  ghost predicate MatchAt(s: string, i: int, j: int) {
    0 <= i <= j <= |s| && Boundary(s, i) && Boundary(s, j) && (DropAt(s, i, j) || TruncateAt(s, i, j))
  }

  /** `_DANGEROUS.search(s)` finds a match. */
  ghost predicate Dangerous(s: string) {
    exists i, j :: MatchAt(s, i, j)
  }

  // =====================================================================
  // The pattern, as a scan
  // =====================================================================

  /** The end of the run of whitespace starting at `k`. */
  function SpaceRunEnd(s: string, k: nat): (m: nat)
    requires k <= |s|
    ensures AllSpace(s, k, m)
    ensures m == |s| || !IsSpace(s[m])
    decreases |s| - k
  {
    if k < |s| && IsSpace(s[k]) then SpaceRunEnd(s, k + 1) else k
  }

  /** Does a match start at `i`?  `\s+` is followed by a letter, so the
      whitespace run after `DROP` can only end where it stops. */
  predicate MatchStartsAt(s: string, i: nat)
    requires i <= |s|
  {
    !WordAt(s, i - 1) &&
    ((KeywordAt(s, i, "TRUNCATE") && !WordAt(s, i + 8)) ||
     (KeywordAt(s, i, "DROP") &&
      var m := SpaceRunEnd(s, i + 4);
      m > i + 4 &&
      ((KeywordAt(s, m, "TABLE") && !WordAt(s, m + 5)) || (KeywordAt(s, m, "SCHEMA") && !WordAt(s, m + 6)))))
  }

  lemma KeywordStartsWithWord(s: string, i: int, kw: string)
    requires KeywordAt(s, i, kw) && kw in {"DROP", "TRUNCATE", "TABLE", "SCHEMA"}
    ensures !IsSpace(s[i])
    ensures kw != "SCHEMA" ==> WordAt(s, i)
    ensures WordAt(s, i + |kw| - 1)
  {
    assert CharMatch(s[i], kw[0]);
    assert CharMatch(s[i + |kw| - 1], kw[|kw| - 1]);
  }

  /** A position the scan accepts starts a match. */
  lemma {:induction false} ScanSound(s: string, i: nat)
    requires i <= |s| && MatchStartsAt(s, i)
    ensures exists j :: MatchAt(s, i, j)
  {
    if KeywordAt(s, i, "TRUNCATE") && !WordAt(s, i + 8) {
      KeywordStartsWithWord(s, i, "TRUNCATE");
      assert MatchAt(s, i, i + 8);
    } else {
      KeywordStartsWithWord(s, i, "DROP");
      var m := SpaceRunEnd(s, i + 4);
      if KeywordAt(s, m, "TABLE") && !WordAt(s, m + 5) {
        KeywordStartsWithWord(s, m, "TABLE");
        assert DropAt(s, i, m + 5);
        assert MatchAt(s, i, m + 5);
      } else {
        KeywordStartsWithWord(s, m, "SCHEMA");
        assert DropAt(s, i, m + 6);
        assert MatchAt(s, i, m + 6);
      }
    }
  }

  /** A match start is a position the scan accepts: the whitespace run after
      `DROP` ends exactly where the second keyword begins. */
  lemma {:induction false} ScanComplete(s: string, i: nat, j: int)
    requires i <= |s| && MatchAt(s, i, j)
    ensures MatchStartsAt(s, i)
  {
    if TruncateAt(s, i, j) {
      KeywordStartsWithWord(s, i, "TRUNCATE");
      assert !WordAt(s, i - 1) && !WordAt(s, i + 8);
    } else {
      KeywordStartsWithWord(s, i, "DROP");
      var m :| i + 4 < m && AllSpace(s, i + 4, m) &&
        ((KeywordAt(s, m, "TABLE") && j == m + 5) || (KeywordAt(s, m, "SCHEMA") && j == m + 6));
      var kw := if KeywordAt(s, m, "TABLE") && j == m + 5 then "TABLE" else "SCHEMA";
      KeywordStartsWithWord(s, m, kw);
      DropStartsScan(s, i, m, kw);
    }
  }

  /** `DROP`, a whitespace run and a second keyword, each a whole word, are
      what the scan looks for. */
  lemma DropStartsScan(s: string, i: nat, m: nat, kw: string)
    requires i <= |s| && kw in {"TABLE", "SCHEMA"}
    requires !WordAt(s, i - 1) && KeywordAt(s, i, "DROP")
    requires i + 4 < m && AllSpace(s, i + 4, m) && KeywordAt(s, m, kw) && !WordAt(s, m + |kw|)
    ensures MatchStartsAt(s, i)
  {
    KeywordStartsWithWord(s, m, kw);
    SpaceRunEndStops(s, i + 4, m);
  }

  /** A whitespace run followed by a non-space character ends there. */
  lemma {:induction false} SpaceRunEndStops(s: string, k: nat, m: nat)
    requires k <= m < |s| && AllSpace(s, k, m) && !IsSpace(s[m])
    ensures SpaceRunEnd(s, k) == m
    decreases m - k
  {
    if k < m {
      SpaceRunEndStops(s, k + 1, m);
    }
  }

  /** The scan at one position agrees with the pattern. */
  lemma MatchStartsAtCorrect(s: string, i: nat)
    requires i <= |s|
    ensures MatchStartsAt(s, i) <==> exists j :: MatchAt(s, i, j)
  {
    if MatchStartsAt(s, i) {
      ScanSound(s, i);
    }
    if j :| MatchAt(s, i, j) {
      ScanComplete(s, i, j);
    }
  }

  /**
   * `_DANGEROUS.search(s) is not None`: try each start position in turn.
   */
  method Search(s: string) returns (found: bool)
    ensures found <==> Dangerous(s)
  {
    for i := 0 to |s| + 1
      invariant forall k :: 0 <= k < i ==> !MatchStartsAt(s, k)
    {
      if MatchStartsAt(s, i) {
        MatchStartsAtCorrect(s, i);
        return true;
      }
    }
    found := false;
    forall i, j | MatchAt(s, i, j) ensures false {
      MatchStartsAtCorrect(s, i);
    }
  }

  // =====================================================================
  // What the pattern does and does not catch
  // =====================================================================

  /** One character of a keyword occurrence. */
  lemma KeywordChar(s: string, i: int, kw: string, k: int)
    requires KeywordAt(s, i, kw) && 0 <= k < |kw|
    ensures CharMatch(s[i + k], kw[k])
  {
  }

  /** Only `DROP` and `TRUNCATE` can start a match, so a statement that
      contains neither word (any plain `DELETE ... WHERE ...`) never matches. */
  lemma MatchNeedsKeyword(s: string, i: int, j: int)
    requires MatchAt(s, i, j)
    ensures KeywordAt(s, i, "DROP") || KeywordAt(s, i, "TRUNCATE")
  {
  }

  /** A match is a whole word: the characters just outside it are not word
      characters. */
  lemma MatchIsWholeWords(s: string, i: int, j: int)
    requires MatchAt(s, i, j)
    ensures !WordAt(s, i - 1) && !WordAt(s, j)
  {
    if TruncateAt(s, i, j) {
      KeywordStartsWithWord(s, i, "TRUNCATE");
    } else {
      KeywordStartsWithWord(s, i, "DROP");
      var m :| i + 4 < m && AllSpace(s, i + 4, m) &&
        ((KeywordAt(s, m, "TABLE") && j == m + 5) || (KeywordAt(s, m, "SCHEMA") && j == m + 6));
      if KeywordAt(s, m, "TABLE") && j == m + 5 {
        KeywordStartsWithWord(s, m, "TABLE");
        assert WordAt(s, j - 1);
      } else {
        KeywordStartsWithWord(s, m, "SCHEMA");
        assert WordAt(s, j - 1);
      }
    }
  }

  /** A statement in which neither keyword occurs, in any case (a plain
      `DELETE FROM t WHERE ...`, say), never matches. */
  lemma NoKeywordNoMatch(s: string)
    requires forall i :: 0 <= i <= |s| ==> !KeywordAt(s, i, "DROP") && !KeywordAt(s, i, "TRUNCATE")
    ensures !Dangerous(s)
  {
    forall i, j | MatchAt(s, i, j) ensures false {
      MatchNeedsKeyword(s, i, j);
    }
  }

  /** No character matches both `T` and `S`, nor both `D` and `T`. */
  lemma DistinctInitials(c: char)
    ensures !(CharMatch(c, 'T') && CharMatch(c, 'S'))
    ensures !(CharMatch(c, 'D') && CharMatch(c, 'T'))
  {
  }

  /** A word running on past `TRUNCATE` (`TRUNCATED`) starts no match. */
  lemma {:induction false} TruncateRunOnNoMatch(s: string, i: int)
    requires KeywordAt(s, i, "TRUNCATE") && WordAt(s, i + 8)
    ensures forall j :: !MatchAt(s, i, j)
  {
    KeywordChar(s, i, "TRUNCATE", 0);
    KeywordStartsWithWord(s, i, "TRUNCATE");
    DistinctInitials(s[i]);
    forall j | MatchAt(s, i, j) ensures false {
      if !TruncateAt(s, i, j) {
        KeywordChar(s, i, "DROP", 0);
      }
    }
  }

  /** `DROP` and whitespace followed by a word running on past `TABLE`
      (`DROP TABLES`) starts no match. */
  lemma {:induction false} DropRunOnNoMatch(s: string, i: int)
    requires KeywordAt(s, i, "DROP")
    requires KeywordAt(s, SpaceRunEnd(s, i + 4), "TABLE") && WordAt(s, SpaceRunEnd(s, i + 4) + 5)
    ensures forall j :: !MatchAt(s, i, j)
  {
    var m := SpaceRunEnd(s, i + 4);
    KeywordChar(s, i, "DROP", 0);
    KeywordChar(s, m, "TABLE", 0);
    DistinctInitials(s[i]);
    DistinctInitials(s[m]);
    MatchStartsAtCorrect(s, i);
    assert !KeywordAt(s, i, "TRUNCATE") by {
      if KeywordAt(s, i, "TRUNCATE") {
        KeywordChar(s, i, "TRUNCATE", 0);
      }
    }
    assert !KeywordAt(s, m, "SCHEMA") by {
      if KeywordAt(s, m, "SCHEMA") {
        KeywordChar(s, m, "SCHEMA", 0);
      }
    }
    assert !MatchStartsAt(s, i);
  }

  lemma {:induction false} TruncatedPasses()
    ensures !Dangerous("TRUNCATED")
  {
    var s := "TRUNCATED";
    assert KeywordAt(s, 0, "TRUNCATE") && WordAt(s, 8);
    TruncateRunOnNoMatch(s, 0);
    forall i, j | MatchAt(s, i, j) ensures false {
      MatchNeedsKeyword(s, i, j);
      if KeywordAt(s, i, "DROP") {
        KeywordChar(s, i, "DROP", 3);
      } else {
        KeywordChar(s, i, "TRUNCATE", 0);
        KeywordChar(s, i, "TRUNCATE", 7);
      }
    }
  }

  lemma {:induction false} XDropTablePasses()
    ensures !Dangerous("XDROP TABLE")
  {
    var s := "XDROP TABLE";
    forall i | KeywordAt(s, i, "DROP") ensures i == 1 {
      KeywordChar(s, i, "DROP", 0);
    }
    forall i | KeywordAt(s, i, "TRUNCATE") ensures false {
      KeywordChar(s, i, "TRUNCATE", 0);
    }
    forall i, j | MatchAt(s, i, j) ensures false {
      MatchNeedsKeyword(s, i, j);
      MatchIsWholeWords(s, i, j);
    }
  }

  /** Case and the amount of whitespace do not matter. */
  lemma {:induction false} LowerCaseDropCaught()
    ensures Dangerous("x; drop \t table t")
  {
    var s := "x; drop \t table t";
    assert KeywordAt(s, 3, "DROP");
    assert AllSpace(s, 7, 10);
    assert KeywordAt(s, 10, "TABLE");
    assert DropAt(s, 3, 15);
    assert MatchAt(s, 3, 15);
  }

  // =====================================================================
  // The connection wrapper
  // =====================================================================

  /** The first argument of `execute`/`executescript`: a `str`, or any
      other object (bytes, None, ...), which the guard never inspects. */
  datatype SqlArg = Text(text: string) | Other

  /** A call that reached the real connection. */
  datatype Call =
    | ExecuteCall(sql: SqlArg, args: seq<SqlArg>)
    | ExecuteScriptCall(script: SqlArg, args: seq<SqlArg>)

  /** The guard refuses a string argument the detector matches. */
  ghost predicate Blocked(sql: SqlArg) {
    sql.Text? && Dangerous(sql.text)
  }

  /** `_ALLOW_DROP`: destructive SQL is allowed only for the exact value "1"
      of ALLOW_DESTRUCTIVE_SQL (unset reads as "0"). */
  function AllowDrop(allowEnv: Option<string>): (allow: bool)
    ensures allow <==> allowEnv == Some("1")
  {
    (if allowEnv.Some? then allowEnv.value else "0") == "1"
  }

  /**
   * A SQLite connection as the application sees it: `guarded` tells whether
   * `execute`/`executescript` are the wrappers of `_connect_guard`, and
   * `forwarded` lists the calls that reached the real connection.
   */
  class Connection {
    var guarded: bool
    var forwarded: seq<Call>

    constructor (guarded: bool)
      ensures this.guarded == guarded && forwarded == []
    {
      this.guarded := guarded;
      forwarded := [];
    }

    /** `conn.execute(sql, *args)`: returns whether it raised. */
    method Execute(sql: SqlArg, args: seq<SqlArg>) returns (raised: bool)
      modifies this
      ensures guarded == old(guarded)
      ensures raised <==> guarded && Blocked(sql)
      ensures raised ==> forwarded == old(forwarded)
      ensures !raised ==> forwarded == old(forwarded) + [ExecuteCall(sql, args)]
    {
      raised := false;
      if guarded && sql.Text? {
        raised := Search(sql.text);
      }
      if !raised {
        forwarded := forwarded + [ExecuteCall(sql, args)];
      }
    }

    /** `conn.executescript(script, *args)`: returns whether it raised. */
    method ExecuteScript(script: SqlArg, args: seq<SqlArg>) returns (raised: bool)
      modifies this
      ensures guarded == old(guarded)
      ensures raised <==> guarded && Blocked(script)
      ensures raised ==> forwarded == old(forwarded)
      ensures !raised ==> forwarded == old(forwarded) + [ExecuteScriptCall(script, args)]
    {
      raised := false;
      if guarded && script.Text? {
        raised := Search(script.text);
      }
      if !raised {
        forwarded := forwarded + [ExecuteScriptCall(script, args)];
      }
    }
  }

  /** `_connect_guard`: a new connection, wrapped unless destructive SQL is allowed. */
  method ConnectGuard(allowEnv: Option<string>) returns (conn: Connection)
    ensures fresh(conn)
    ensures conn.guarded <==> allowEnv != Some("1")
    ensures conn.forwarded == []
  {
    conn := new Connection(!AllowDrop(allowEnv));
  }

  // =====================================================================
  // Boot backup
  // =====================================================================

  const DEFAULT_DATA_DIR := "/var/data"
  const DEFAULT_DB_FILE := "splice.db"

  /** Where the boot backup goes: `<DATA_DIR>/backups/boot-<ts>.db`. */
  function BootBackupPath(dataDir: string, ts: string): (p: string)
    ensures StartsWith(p, DirPrefix(PathJoin(dataDir, "backups")))
    ensures EndsWith(p, "boot-" + ts + ".db")
  {
    var name := "boot-" + ts + ".db";
    JoinIsPrefixPlus(PathJoin(dataDir, "backups"), name);
    PathJoin(PathJoin(dataDir, "backups"), name)
  }

  /**
   * The best-effort boot backup: made only when the database exists; a
   * failing copy (`copyOk` false) is swallowed and changes nothing.
   */
  method BootBackup(disk: Disk, dataDir: string, dbFile: string, ts: string, copyOk: bool)
    modifies disk
    ensures var dbPath := PathJoin(dataDir, dbFile);
      var backup := BootBackupPath(dataDir, ts);
      && (dbPath in old(disk.files) && copyOk ==> disk.files == old(disk.files)[backup := old(disk.files)[dbPath]])
      && (!(dbPath in old(disk.files) && copyOk) ==> disk.files == old(disk.files))
  {
    var dbPath := PathJoin(dataDir, dbFile);
    if dbPath in disk.files && copyOk {
      disk.files := disk.files[BootBackupPath(dataDir, ts) := disk.files[dbPath]];
    }
  }
}
