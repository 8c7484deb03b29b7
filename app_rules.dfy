/**
 * The request validators and the report filter of `app_main.py`: which
 * photo names are accepted, when a new record's fields are valid, when a
 * work map may not be used, and how the WHERE clause of the admin report
 * is assembled.
 */
module SpliceRules {
  import opened PyStr

  const ALLOWED_EXTENSIONS: set<string> := {"png", "jpg", "jpeg", "gif", "webp"}
  const MAX_FILES_PER_RECORD := 6

  // =====================================================================
  // Photo names
  // =====================================================================

  /** `allowed_file`: a dot, and the lower-cased text after the last dot is
      an allowed extension. */
  predicate AllowedFile(filename: string) {
    '.' in filename && Lower(AfterLast(filename, '.')) in ALLOWED_EXTENSIONS
  }

  /** The test inside `new_record`: `rsplit(".", 1)[-1].lower()`, which is
      the whole name when there is no dot. */
  function PhotoExt(filename: string): (ext: string)
    ensures '.' !in ext && |ext| <= |filename|
    ensures '.' !in filename ==> ext == Lower(filename)
  {
    AfterLastIsSuffix(filename, '.');
    var e := AfterLast(filename, '.');
    Lower(e)
  }

  /** `new_record` keeps a photo whose name is non-empty and whose
      `PhotoExt` is allowed. */
  predicate PhotoAccepted(filename: string) {
    filename != "" && PhotoExt(filename) in ALLOWED_EXTENSIONS
  }

  /** The two tests agree on names with a dot; `new_record` also accepts a
      dot-less name that is itself an extension. */
  lemma AllowedFileIsPhotoAcceptedWithDot(filename: string)
    ensures AllowedFile(filename) <==> PhotoAccepted(filename) && '.' in filename
  {
  }

  lemma {:induction false} DotlessPngAcceptedByNewRecordOnly()
    ensures PhotoAccepted("png") && !AllowedFile("png")
  {
    AfterLastIsSuffix("png", '.');
    assert Lower("png") == "png";
  }

  /** Any `<stem>.<ext>` with an allowed extension, in any ASCII case, is allowed. */
  lemma {:induction false} AllowedFileOfExtension(stem: string, ext: string)
    requires '.' !in ext && Lower(ext) in ALLOWED_EXTENSIONS
    ensures AllowedFile(stem + "." + ext)
  {
    var f := stem + "." + ext;
    AfterLastIsSuffix(f, '.');
    var r := AfterLast(f, '.');
    assert f[|stem|] == '.';
    assert |r| <= |ext|;
    assert r == ext;
  }

  // =====================================================================
  // New record fields and map access
  // =====================================================================

  /** `request.form.get(name, "").strip()`. */
  function FormText(v: Option<string>): string {
    Strip(if v.Some? then v.value else "")
  }

  /** 10 to the power `k`. */
  function Pow10(k: nat): (p: nat)
    ensures p >= 1
  {
    if k == 0 then 1 else 10 * Pow10(k - 1)
  }

  lemma {:induction false} Pow10Monotone(j: nat, k: nat)
    requires j <= k
    ensures Pow10(j) <= Pow10(k)
  {
    if j < k {
      Pow10Monotone(j, k - 1);
    }
  }

  /** The value `int()` gives a string of ASCII digits: it has no more
      decimal places than the string has characters. */
  function DigitsValue(s: string): (n: nat)
    requires forall i :: 0 <= i < |s| ==> '0' <= s[i] <= '9'
    ensures |s| == 1 ==> n == s[0] as int - '0' as int
    ensures n < Pow10(|s|)
  {
    if s == [] then 0
    else DigitsValue(s[..|s| - 1]) * 10 + (s[|s| - 1] as int - '0' as int)
  }

  /** Positional notation: the digits of `s` are worth `10^|t|` times
      their own value in front of `t`. */
  lemma {:induction false} DigitsValueConcat(s: string, t: string)
    requires forall i :: 0 <= i < |s| ==> '0' <= s[i] <= '9'
    requires forall i :: 0 <= i < |t| ==> '0' <= t[i] <= '9'
    ensures DigitsValue(s + t) == DigitsValue(s) * Pow10(|t|) + DigitsValue(t)
  {
    if t == [] {
      assert s + t == s;
    } else {
      var t' := t[..|t| - 1];
      assert (s + t)[..|s + t| - 1] == s + t';
      DigitsValueConcat(s, t');
      var a, b, d := DigitsValue(s), DigitsValue(t'), t[|t| - 1] as int - '0' as int;
      Regroup(a, Pow10(|t'|), b, d);
    }
  }

  lemma Regroup(a: int, p: int, b: int, d: int)
    ensures (a * p + b) * 10 + d == a * (10 * p) + (b * 10 + d)
  {
  }

  /** Leading zeros do not change the value: `int("007") == 7`. */
  lemma {:induction false} LeadingZeroIgnored(s: string)
    requires forall i :: 0 <= i < |s| ==> '0' <= s[i] <= '9'
    ensures DigitsValue("0" + s) == DigitsValue(s)
  {
    if s == [] {
      assert "0" + s == "0";
    } else {
      var s' := s[..|s| - 1];
      LeadingZeroIgnored(s');
      assert ("0" + s)[..|s|] == "0" + s';
    }
  }

  /** The largest integer Python's `sqlite3` can bind: SQLite integers are
      signed 64-bit, and a larger `int` raises `OverflowError`. */
  const SQLITE_INT_MAX: int := 0x7FFF_FFFF_FFFF_FFFF

  /** CPython's default `sys.int_info.default_max_str_digits`: `int()` of a
      decimal string with more digits than this, leading zeros included,
      raises `ValueError`. */
  const INT_MAX_STR_DIGITS: int := 4300

  /** Whether `sqlite3` can bind `n` as a parameter: SQLite's signed 64-bit range. */
  predicate FitsSqliteInt(n: int) {
    -SQLITE_INT_MAX - 1 <= n <= SQLITE_INT_MAX
  }

  /** A count without a leading zero is worth at least `10^(|s|-1)`. */
  lemma LeadingDigitBound(s: string)
    requires IsDigits(s) && s[0] != '0'
    ensures DigitsValue(s) >= Pow10(|s| - 1)
  {
    DigitsValueConcat(s[..1], s[1..]);
    assert s[..1] + s[1..] == s;
    var d, p := DigitsValue(s[..1]), Pow10(|s[1..]|);
    assert d >= 1;
    AtLeastOnce(d, p);
  }

  lemma AtLeastOnce(d: int, p: int)
    requires d >= 1 && p >= 0
    ensures d * p >= p
  {
  }

  lemma Pow10Eighteen()
    ensures Pow10(18) == 1_000_000_000_000_000_000
  {
    calc {
      Pow10(18);
      1000 * Pow10(15);
      1_000_000 * Pow10(12);
      1_000_000_000 * Pow10(9);
      1_000_000_000_000 * Pow10(6);
      1_000_000_000_000_000 * Pow10(3);
      1_000_000_000_000_000_000 * Pow10(0);
    }
  }

  /** Every count of at most eighteen digits can be stored; a count of
      twenty digits or more without a leading zero cannot. */
  lemma CountWidth(s: string)
    requires IsDigits(s)
    ensures |s| <= 18 ==> DigitsValue(s) <= SQLITE_INT_MAX
    ensures |s| >= 20 && s[0] != '0' ==> DigitsValue(s) > SQLITE_INT_MAX
  {
    Pow10Eighteen();
    if |s| <= 18 {
      Pow10Monotone(|s|, 18);
    }
    if |s| >= 20 && s[0] != '0' {
      LeadingDigitBound(s);
      Pow10Monotone(19, |s| - 1);
    }
  }

  /** The fields of the `new_record` form as the route reads them. */
  datatype RecordForm = RecordForm(deviceName: string, fusionCount: string, workMapId: Option<int>, notes: string)

  /** Reading the form: the text fields stripped; `work_map_id` is the
      integer `type=int` gives, or `None` when absent or when `int()`
      raises on it (not an integer, or too many digits). */
  function ReadRecordForm(deviceName: Option<string>, fusionCount: Option<string>, workMapId: Option<int>,
                          notes: Option<string>): RecordForm {
    RecordForm(FormText(deviceName), FormText(fusionCount), workMapId, FormText(notes))
  }

  /** `new_record` goes on only with a device name and a digit-only count. */
  predicate FieldsOk(form: RecordForm) {
    form.deviceName != "" && IsDigits(form.fusionCount)
  }

  /** Whether every integer the `new_record` INSERT binds fits: the count
      and, when given, the work map id. */
  predicate RecordBindsFit(form: RecordForm)
    requires IsDigits(form.fusionCount)
  {
    && FitsSqliteInt(DigitsValue(form.fusionCount))
    && (form.workMapId.Some? ==> FitsSqliteInt(form.workMapId.value))
  }

  /** A missing device name or count is refused; an accepted count is
      unsigned, has no inner spaces, and has a value. */
  lemma FieldsOkCases(deviceName: Option<string>, fusionCount: Option<string>, workMapId: Option<int>,
                      notes: Option<string>)
    ensures var form := ReadRecordForm(deviceName, fusionCount, workMapId, notes);
      && (fusionCount.None? ==> !FieldsOk(form))
      && (deviceName.None? ==> !FieldsOk(form))
      && (FieldsOk(form) ==> form.fusionCount[0] != '-' && form.fusionCount[0] != '+' && ' ' !in form.fusionCount)
  {
    StripFixed("");
    var fc := FormText(fusionCount);
    if IsDigits(fc) {
      assert '0' <= fc[0] <= '9';
    }
  }

  /**
   * The work-map check: a non-admin naming a map id that is not among the
   * maps shared with them is refused.  An absent id (or one that is not an
   * integer) and the id 0 are falsy and never checked.
   */
  predicate MapAccessRejected(workMapId: Option<int>, isAdmin: bool, accessible: seq<int>) {
    workMapId.Some? && workMapId.value != 0 && !isAdmin && workMapId.value !in accessible
  }

  lemma MapAccessRules(workMapId: Option<int>, isAdmin: bool, accessible: seq<int>)
    ensures workMapId.None? || workMapId == Some(0) || isAdmin ==> !MapAccessRejected(workMapId, isAdmin, accessible)
    ensures workMapId.Some? && workMapId.value in accessible ==> !MapAccessRejected(workMapId, isAdmin, accessible)
    ensures !isAdmin && workMapId.Some? && workMapId.value != 0 && workMapId.value !in accessible ==>
      MapAccessRejected(workMapId, isAdmin, accessible)
  {
  }

  /** A work map id SQLite cannot hold gets past the check only for an
      admin: the ids of the maps shared with anyone else are stored ids,
      which fit. */
  lemma OversizedMapIdNeedsAdmin(workMapId: Option<int>, isAdmin: bool, accessible: seq<int>)
    requires forall id :: id in accessible ==> FitsSqliteInt(id)
    requires workMapId.Some? && !FitsSqliteInt(workMapId.value)
    ensures MapAccessRejected(workMapId, isAdmin, accessible) <==> !isAdmin
  {
  }

  // =====================================================================
  // The admin report filter
  // =====================================================================

  /** A filter of the report, in the order the builder adds them. */
  datatype Filter = FromDate | ToDate | ByUser

  /** A bound query parameter. */
  datatype Param = TextParam(text: string) | IntParam(n: int)

  /** The SQL text of each filter, written around its one `?` placeholder. */
  function ClauseSql(f: Filter): string {
    match f
    case FromDate => "date(r.created_at) >= date(" + "?" + ")"
    case ToDate => "date(r.created_at) <= date(" + "?" + ")"
    case ByUser => "r.user_id = " + "?"
  }

  function Rank(f: Filter): nat {
    match f
    case FromDate => 0
    case ToDate => 1
    case ByUser => 2
  }

  /** The parameter each filter binds, for the given values. */
  predicate Binds(f: Filter, param: Param, start: string, end: string, userId: Option<int>) {
    match f
    case FromDate => param == TextParam(start)
    case ToDate => param == TextParam(end)
    case ByUser => userId.Some? && param == IntParam(userId.value)
  }

  /** The clause texts of a list of filters. */
  function ClauseTexts(fs: seq<Filter>): (texts: seq<string>)
    ensures |texts| == |fs|
    ensures forall k :: 0 <= k < |fs| ==> texts[k] == ClauseSql(fs[k])
  {
    if fs == [] then [] else [ClauseSql(fs[0])] + ClauseTexts(fs[1..])
  }

  /** A string made of a `?`-free head, one `?` and a `?`-free tail holds one mark. */
  lemma {:induction false} OneMarkBetween(head: string, tail: string)
    requires '?' !in head && '?' !in tail
    ensures CountChar(head + "?" + tail, '?') == 1
  {
    CountCharAppend(head, "?", '?');
    CountCharAppend(head + "?", tail, '?');
    assert CountChar("?", '?') == 1 by {
      assert "?"[1..] == "";
    }
  }

  /** Every clause holds exactly one placeholder. */
  lemma OneMarkEach(f: Filter)
    ensures CountChar(ClauseSql(f), '?') == 1
  {
    match f
    case FromDate => OneMarkBetween("date(r.created_at) >= date(", ")");
    case ToDate => OneMarkBetween("date(r.created_at) <= date(", ")");
    case ByUser =>
      OneMarkBetween("r.user_id = ", "");
      assert "r.user_id = " + "?" + "" == ClauseSql(f);
  }

  /** Joining the clauses with " AND " gives one `?` per clause. */
  lemma {:induction false} JoinedMarks(fs: seq<Filter>)
    ensures CountChar(JoinWith(ClauseTexts(fs), " AND "), '?') == |fs|
  {
    if |fs| == 1 {
      OneMarkEach(fs[0]);
    } else if |fs| > 1 {
      var texts := ClauseTexts(fs);
      assert texts[1..] == ClauseTexts(fs[1..]);
      JoinedMarks(fs[1..]);
      OneMarkEach(fs[0]);
      assert CountChar(" AND ", '?') == 0;
      CountCharAppend(texts[0], " AND ", '?');
      CountCharAppend(texts[0] + " AND ", JoinWith(texts[1..], " AND "), '?');
    }
  }

  /**
   * The filters `admin_reports` applies, in the order it adds them: a date
   * bound for each non-empty (stripped) date argument, and the user filter
   * only for a non-zero integer `user_id`.
   */
  function ActiveFilters(start: string, end: string, userId: Option<int>): seq<Filter> {
    (if start != "" then [FromDate] else [])
    + (if end != "" then [ToDate] else [])
    + (if userId.Some? && userId.value != 0 then [ByUser] else [])
  }

  /** Each filter is present exactly when its argument is given, `user_id=0`
      counts as absent, and the order is always start, end, user. */
  lemma ActiveFiltersChosen(start: string, end: string, userId: Option<int>)
    ensures FromDate in ActiveFilters(start, end, userId) <==> start != ""
    ensures ToDate in ActiveFilters(start, end, userId) <==> end != ""
    ensures ByUser in ActiveFilters(start, end, userId) <==> userId.Some? && userId.value != 0
    ensures ActiveFilters(start, end, Some(0)) == ActiveFilters(start, end, None)
    ensures var fs := ActiveFilters(start, end, userId);
      forall i, j :: 0 <= i < j < |fs| ==> Rank(fs[i]) < Rank(fs[j])
  {
  }

  /** The WHERE part of the report query: empty without filters. */
  function WhereSql(fs: seq<Filter>): (w: string)
    ensures w == "" <==> fs == []
    ensures CountChar(w, '?') == |fs|
  {
    if fs == [] then ""
    else
      JoinedMarks(fs);
      assert CountChar("WHERE ", '?') == 0;
      CountCharAppend("WHERE ", JoinWith(ClauseTexts(fs), " AND "), '?');
      "WHERE " + JoinWith(ClauseTexts(fs), " AND ")
  }

  /**
   * The filter builder of `admin_reports`: each filter that applies appends
   * its clause and its parameter together, so the i-th placeholder is bound
   * by the i-th parameter.  `start` and `end` are the arguments after
   * `.strip()`.
   */
  method ReportFilter(start: string, end: string, userId: Option<int>)
    returns (filters: seq<Filter>, params: seq<Param>, whereSql: string)
    ensures filters == ActiveFilters(start, end, userId)
    ensures |params| == |filters|
    ensures forall k :: 0 <= k < |filters| ==> Binds(filters[k], params[k], start, end, userId)
    ensures whereSql == WhereSql(filters)
    ensures CountChar(whereSql, '?') == |params|
  {
    filters := [];
    params := [];
    if start != "" {
      filters := filters + [FromDate];
      params := params + [TextParam(start)];
    }
    ghost var afterStart := filters;
    assert afterStart == if start != "" then [FromDate] else [];
    if end != "" {
      filters := filters + [ToDate];
      params := params + [TextParam(end)];
    }
    ghost var afterEnd := filters;
    assert afterEnd == afterStart + if end != "" then [ToDate] else [];
    if userId.Some? && userId.value != 0 {
      filters := filters + [ByUser];
      params := params + [IntParam(userId.value)];
    }
    assert filters == afterEnd + if userId.Some? && userId.value != 0 then [ByUser] else [];
    whereSql := WhereSql(filters);
  }
}
