/**
 * The handful of Python string and POSIX-path primitives the Splice backup,
 * configuration and validation code is written in: `str.strip`, `str.lower`,
 * `str.split`, `str.rsplit`, `str.join`, `str.isdigit`, `os.path.join`,
 * `os.path.basename`, `os.path.splitext` and `sorted` over strings.
 * Each is defined the way CPython computes it on a POSIX system (separator
 * `/`, no alternate separator), so that the models of the application code
 * can be read against the source line by line.
 */
module PyStr {

  /** Python's `None` or a value. */
  datatype Option<T> = None | Some(value: T)

  // ---------------------------------------------------------------------
  // Characters
  // ---------------------------------------------------------------------

  /** `str.isspace()` for one character: exactly the characters CPython
      treats as whitespace (also the class `\s` of `re` for str patterns). */
  predicate IsSpace(c: char) {
    || c == ' '
    || ('\t' <= c <= '\r')
    || ('\U{1C}' <= c <= '\U{1F}')
    || c == '\U{85}' || c == '\U{A0}' || c == '\U{1680}'
    || ('\U{2000}' <= c <= '\U{200A}')
    || c == '\U{2028}' || c == '\U{2029}' || c == '\U{202F}'
    || c == '\U{205F}' || c == '\U{3000}'
  }

  /** ASCII lower-casing of one character. */
  function LowerChar(c: char): char {
    if 'A' <= c <= 'Z' then (c as int + 32) as char else c
  }

  /** `str.lower()`, folding the ASCII letters. */
  function Lower(s: string): (r: string)
    ensures |r| == |s|
    ensures forall i :: 0 <= i < |s| ==> r[i] == LowerChar(s[i])
  {
    seq(|s|, i requires 0 <= i < |s| => LowerChar(s[i]))
  }

  /** `str.isdigit()` restricted to ASCII digits: non-empty, digits only. */
  predicate IsDigits(s: string) {
    |s| > 0 && forall i :: 0 <= i < |s| ==> '0' <= s[i] <= '9'
  }

  // ---------------------------------------------------------------------
  // Prefixes, suffixes, occurrences
  // ---------------------------------------------------------------------

  predicate StartsWith(s: string, p: string) {
    |p| <= |s| && s[..|p|] == p
  }

  predicate EndsWith(s: string, p: string) {
    |p| <= |s| && s[|s| - |p|..] == p
  }

  /** Number of occurrences of `c` in `s`. */
  function CountChar(s: string, c: char): (n: nat)
    ensures n <= |s|
    ensures n == 0 <==> c !in s
  {
    if s == [] then 0 else CountChar(s[1..], c) + (if s[0] == c then 1 else 0)
  }

  lemma {:induction false} CountCharAppend(a: string, b: string, c: char)
    ensures CountChar(a + b, c) == CountChar(a, c) + CountChar(b, c)
  {
    if a == [] {
      assert a + b == b;
    } else {
      assert (a + b)[1..] == a[1..] + b;
      CountCharAppend(a[1..], b, c);
    }
  }

  /** `s.find(c)`: the first index of `c` in `s`, or -1. */
  function IndexOf(s: string, c: char): (i: int)
    ensures -1 <= i < |s|
    ensures i >= 0 ==> s[i] == c && c !in s[..i]
    ensures i < 0 <==> c !in s
  {
    if s == [] then -1
    else if s[0] == c then 0
    else
      var j := IndexOf(s[1..], c);
      assert j >= 0 ==> s[..j + 1] == [s[0]] + s[1..][..j];
      if j < 0 then -1 else j + 1
  }

  /** `s.rfind(c)`: the last index of `c` in `s`, or -1. */
  function LastIndexOf(s: string, c: char): (i: int)
    ensures -1 <= i < |s|
    ensures i >= 0 ==> s[i] == c && c !in s[i + 1..]
    ensures i < 0 <==> c !in s
  {
    if s == [] then -1
    else if s[|s| - 1] == c then |s| - 1
    else
      var j := LastIndexOf(s[..|s| - 1], c);
      assert j >= 0 ==> s[j + 1..] == s[..|s| - 1][j + 1..] + [s[|s| - 1]];
      assert j < 0 ==> s == s[..|s| - 1] + [s[|s| - 1]];
      j
  }

  // ---------------------------------------------------------------------
  // Splitting and joining
  // ---------------------------------------------------------------------

  /** `s.split(c)` for a one-character separator: always at least one piece. */
  function Split(s: string, c: char): (parts: seq<string>)
    ensures |parts| == CountChar(s, c) + 1
    ensures forall k :: 0 <= k < |parts| ==> c !in parts[k]
  {
    if s == [] then [""]
    else
      var rest := Split(s[1..], c);
      if s[0] == c then [""] + rest else [[s[0]] + rest[0]] + rest[1..]
  }

  /** `sep.join(parts)`. */
  function JoinWith(parts: seq<string>, sep: string): string {
    if parts == [] then ""
    else if |parts| == 1 then parts[0]
    else parts[0] + sep + JoinWith(parts[1..], sep)
  }

  /** Splitting on `c` and joining back with `c` gives the original string. */
  lemma {:induction false} SplitJoin(s: string, c: char)
    ensures JoinWith(Split(s, c), [c]) == s
  {
    if s != [] {
      var rest := Split(s[1..], c);
      SplitJoin(s[1..], c);
      assert JoinWith(Split(s, c), [c]) == [s[0]] + JoinWith(rest, [c]) by {
        SplitJoinStep(s, c);
      }
      assert s == [s[0]] + s[1..];
    }
  }

  /** Joining pieces behind an empty first piece starts with the separator. */
  lemma JoinEmptyHead(parts: seq<string>, sep: string)
    requires parts != []
    ensures JoinWith([""] + parts, sep) == sep + JoinWith(parts, sep)
  {
    assert ([""] + parts)[1..] == parts;
  }

  /** Extending the first piece at the front extends the joined text. */
  lemma JoinLongerHead(x: string, parts: seq<string>, sep: string)
    requires parts != []
    ensures JoinWith([x + parts[0]] + parts[1..], sep) == x + JoinWith(parts, sep)
  {
    if |parts| > 1 {
      assert ([x + parts[0]] + parts[1..])[1..] == parts[1..];
    }
  }

  /** Joining the pieces of `s` is its first character and the joined
      pieces of the rest. */
  lemma SplitJoinStep(s: string, c: char)
    requires s != []
    ensures JoinWith(Split(s, c), [c]) == [s[0]] + JoinWith(Split(s[1..], c), [c])
  {
    var rest := Split(s[1..], c);
    if s[0] == c {
      JoinEmptyHead(rest, [c]);
    } else {
      JoinLongerHead([s[0]], rest, [c]);
    }
  }

  /** `s.split(c)[-1]`, which is also `s.rsplit(c, 1)[-1]`. */
  function AfterLast(s: string, c: char): string {
    var parts := Split(s, c);
    parts[|parts| - 1]
  }

  /** The last piece of a split is the text after the last separator. */
  lemma {:induction false} AfterLastIsSuffix(s: string, c: char)
    ensures |AfterLast(s, c)| <= |s|
    ensures AfterLast(s, c) == s[|s| - |AfterLast(s, c)|..]
    ensures c !in AfterLast(s, c)
    ensures c in s ==> s[|s| - |AfterLast(s, c)| - 1] == c
    ensures c !in s ==> AfterLast(s, c) == s
  {
    if s != [] {
      var tail := s[1..];
      AfterLastIsSuffix(tail, c);
      var rest := Split(tail, c);
      var r' := AfterLast(tail, c);
      assert r' == rest[|rest| - 1];
      assert s == [s[0]] + tail;
      if s[0] == c {
        assert Split(s, c) == [""] + rest;
        assert AfterLast(s, c) == r';
        if c !in tail {
          assert r' == tail;
        } else {
          assert s[|s| - |r'| - 1] == tail[|tail| - |r'| - 1];
        }
      } else if |rest| == 1 {
        assert c !in tail;
        assert Split(s, c) == [[s[0]] + rest[0]];
        assert AfterLast(s, c) == s;
      } else {
        assert c in tail;
        assert Split(s, c) == [[s[0]] + rest[0]] + rest[1..];
        assert AfterLast(s, c) == r';
        assert s[|s| - |r'| - 1] == tail[|tail| - |r'| - 1];
      }
    }
  }

  /** `s.split(c, 1)[-1]`: the text after the first `c`, or `s` itself. */
  function AfterFirst(s: string, c: char): (r: string)
    ensures |r| <= |s| && r == s[|s| - |r|..]
    ensures c in s ==> |r| < |s| && s[|s| - |r| - 1] == c && c !in s[..|s| - |r| - 1]
    ensures c !in s ==> r == s
  {
    var i := IndexOf(s, c);
    if i < 0 then s else s[i + 1..]
  }

  /** Every suffix of a non-empty `s` after its first character is a
      suffix of `s[1..]`. */
  lemma DropTail(s: string)
    requires s != []
    ensures forall k :: 1 <= k <= |s| ==> s[k..] == s[1..][k - 1..]
  {
  }

  /** The part of `s` before the first occurrence of `sep`, or `s` itself:
      the piece that follows a leading separator in `s.split(sep)`. */
  function BeforeFirst(s: string, sep: string): (r: string)
    requires |sep| > 0
    ensures |r| <= |s| && r == s[..|r|]
    ensures |r| < |s| ==> StartsWith(s[|r|..], sep)
    ensures forall k :: 0 <= k < |r| ==> !StartsWith(s[k..], sep)
    decreases |s|
  {
    if StartsWith(s, sep) then ""
    else if s == [] then ""
    else
      DropTail(s);
      [s[0]] + BeforeFirst(s[1..], sep)
  }

  /** `s.rstrip(c)`. */
  function RStripChar(s: string, c: char): (r: string)
    ensures |r| <= |s| && r == s[..|r|]
    ensures r == [] || r[|r| - 1] != c
    ensures forall i :: |r| <= i < |s| ==> s[i] == c
  {
    if s != [] && s[|s| - 1] == c then RStripChar(s[..|s| - 1], c) else s
  }

  // ---------------------------------------------------------------------
  // Whitespace stripping
  // ---------------------------------------------------------------------

  function LStrip(s: string): (r: string)
    ensures |r| <= |s| && r == s[|s| - |r|..]
    ensures r == [] || !IsSpace(r[0])
    ensures forall i :: 0 <= i < |s| - |r| ==> IsSpace(s[i])
  {
    if s != [] && IsSpace(s[0]) then
      DropTail(s);
      LStrip(s[1..])
    else s
  }

  function RStrip(s: string): (r: string)
    ensures |r| <= |s| && r == s[..|r|]
    ensures r == [] || !IsSpace(r[|r| - 1])
    ensures forall i :: |r| <= i < |s| ==> IsSpace(s[i])
  {
    if s != [] && IsSpace(s[|s| - 1]) then RStrip(s[..|s| - 1]) else s
  }

  /** `str.strip()`: leading and trailing whitespace removed. */
  function Strip(s: string): (r: string)
    ensures r == [] || (!IsSpace(r[0]) && !IsSpace(r[|r| - 1]))
  {
    var l := LStrip(s);
    var r := RStrip(l);
    assert r != [] ==> r[0] == l[0];
    r
  }

  /** Only whitespace lies outside `s[a..b]`. */
  predicate SpaceOutside(s: string, a: int, b: int)
    requires 0 <= a <= b <= |s|
  {
    && (forall i :: 0 <= i < a ==> IsSpace(s[i]))
    && (forall i :: b <= i < |s| ==> IsSpace(s[i]))
  }

  /** Strip removes whitespace at the two ends and nothing else: its
      result is a slice `s[a..b]` with only whitespace outside it. */
  lemma StripIsTrim(s: string)
    ensures exists a, b :: 0 <= a <= b <= |s| && Strip(s) == s[a..b] && SpaceOutside(s, a, b)
  {
    var l := LStrip(s);
    var r := RStrip(l);
    assert Strip(s) == r;
    var a := |s| - |l|;
    TrimBounds(s, l, r);
    assert Strip(s) == s[a..a + |r|] && SpaceOutside(s, a, a + |r|);
  }

  /** The slice bounds of StripIsTrim, named. */
  lemma TrimBounds(s: string, l: string, r: string)
    requires |l| <= |s| && l == s[|s| - |l|..] && forall i :: 0 <= i < |s| - |l| ==> IsSpace(s[i])
    requires |r| <= |l| && r == l[..|r|] && forall i :: |r| <= i < |l| ==> IsSpace(l[i])
    ensures var a := |s| - |l|;
      && r == s[a..a + |r|]
      && SpaceOutside(s, a, a + |r|)
  {
    SpacesAfter(s, l, |s| - |l|, |r|);
  }

  /** Whitespace at the end of the suffix `l == s[a..]` is whitespace at
      the end of `s`. */
  lemma SpacesAfter(s: string, l: string, a: int, k: int)
    requires 0 <= a <= |s| && l == s[a..] && 0 <= k <= |l|
    requires forall i :: k <= i < |l| ==> IsSpace(l[i])
    ensures forall i :: a + k <= i < |s| ==> IsSpace(s[i])
  {
    forall i | a + k <= i < |s|
      ensures IsSpace(s[i])
    {
      assert s[i] == l[i - a];
    }
  }

  /** A string with no whitespace at either end is its own strip. */
  lemma StripFixed(s: string)
    requires s == [] || (!IsSpace(s[0]) && !IsSpace(s[|s| - 1]))
    ensures Strip(s) == s
  {
    assert LStrip(s) == s;
    assert RStrip(s) == s;
  }

  // ---------------------------------------------------------------------
  // posixpath
  // ---------------------------------------------------------------------

  /** `os.path.join(a, b)` on POSIX. */
  function PathJoin(a: string, b: string): (r: string)
    ensures StartsWith(b, "/") ==> r == b
    ensures !StartsWith(b, "/") ==> EndsWith(r, b) && StartsWith(r, a)
  {
    if |b| > 0 && b[0] == '/' then b
    else if a == "" || a[|a| - 1] == '/' then a + b
    else a + "/" + b
  }

  /**
   * `os.path.dirname(p)` is empty exactly when `p` has no `/`; then
   * `os.makedirs(os.path.dirname(p))` raises `FileNotFoundError`, as
   * `os.makedirs("")` does.
   */
  predicate NoDirPart(p: string) {
    '/' !in p
  }

  /** `os.path.basename(p)`: the text after the last `/`. */
  function Basename(p: string): (r: string)
    ensures '/' !in r
  {
    AfterLastIsSuffix(p, '/');
    AfterLast(p, '/')
  }

  /** `os.path.splitext(p)[1]`: the extension, with its dot, of the last
      path component; a component made only of leading dots has none. */
  function Ext(p: string): (e: string)
    ensures e == "" || (e[0] == '.' && EndsWith(p, e) && '/' !in e && '.' !in e[1..])
  {
    var sepIndex := LastIndexOf(p, '/');
    var dotIndex := LastIndexOf(p, '.');
    if dotIndex > sepIndex && exists k :: sepIndex + 1 <= k < dotIndex && p[k] != '.' then
      assert p[dotIndex..][1..] == p[dotIndex + 1..];
      p[dotIndex..]
    else ""
  }

  lemma LastIndexAtLeast(s: string, c: char, i: int)
    requires 0 <= i < |s| && s[i] == c
    ensures LastIndexOf(s, c) >= i
  {
    var j := LastIndexOf(s, c);
    assert s[i] in s;
    assert forall m :: j + 1 <= m < |s| ==> s[m] == s[j + 1..][m - j - 1];
  }

  lemma LastIndexBelow(s: string, c: char, k: int)
    requires 0 <= k <= |s| && c !in s[k..]
    ensures LastIndexOf(s, c) < k
  {
    var j := LastIndexOf(s, c);
    assert forall m :: k <= m < |s| ==> s[m] == s[k..][m - k];
  }

  lemma NoneAfterLastIndex(s: string, c: char, k: int)
    requires LastIndexOf(s, c) < k <= |s|
    ensures c !in s[k..]
  {
    var j := LastIndexOf(s, c);
    if j >= 0 {
      assert s[k..] == s[j + 1..][k - j - 1..];
    }
  }

  /** A dot in the last component, after a character other than a dot. */
  predicate HasStemDot(p: string, k: int, d: int) {
    0 <= k < d < |p| && p[d] == '.' && p[k] != '.' && '/' !in p[k..]
  }

  /** `splitext` finds an extension whenever the last component has a dot
      with some other character before it. */
  lemma ExtOfStemDot(p: string, k: int, d: int)
    requires HasStemDot(p, k, d)
    ensures Ext(p) != ""
  {
    var sepIndex := LastIndexOf(p, '/');
    var dotIndex := LastIndexOf(p, '.');
    assert p[d] == p[k..][d - k];
    LastIndexAtLeast(p, '.', d);
    LastIndexBelow(p, '/', k);
    assert sepIndex + 1 <= k < dotIndex && p[k] != '.';
  }

  /** A non-empty extension starts at the last dot, which has a character
      other than a dot before it in the last component. */
  lemma StemDotOfExt(p: string)
    requires Ext(p) != ""
    ensures exists k, d :: HasStemDot(p, k, d)
    ensures p[|p| - |Ext(p)|] == '.' && '.' !in p[|p| - |Ext(p)| + 1..]
  {
    var sepIndex := LastIndexOf(p, '/');
    var dotIndex := LastIndexOf(p, '.');
    assert dotIndex > sepIndex && exists k :: sepIndex + 1 <= k < dotIndex && p[k] != '.';
    var k :| sepIndex + 1 <= k < dotIndex && p[k] != '.';
    NoneAfterLastIndex(p, '/', k);
    assert HasStemDot(p, k, dotIndex);
    assert Ext(p) == p[dotIndex..];
  }

  /** Exactly then: `splitext` finds an extension if and only if the last
      component has a dot after some character other than a dot. */
  lemma ExtNonEmpty(p: string)
    ensures Ext(p) != "" <==> exists k, d :: HasStemDot(p, k, d)
  {
    if Ext(p) != "" {
      StemDotOfExt(p);
    }
    forall k, d | HasStemDot(p, k, d)
      ensures Ext(p) != ""
    {
      ExtOfStemDot(p, k, d);
    }
  }

  // ---------------------------------------------------------------------
  // Ordering: Python compares strings by code point, lexicographically
  // ---------------------------------------------------------------------

  predicate LexLe(a: string, b: string) {
    a == [] || (b != [] && (a[0] < b[0] || (a[0] == b[0] && LexLe(a[1..], b[1..]))))
  }

  lemma {:induction false} LexLeTotal(a: string, b: string)
    ensures LexLe(a, b) || LexLe(b, a)
  {
    if a != [] && b != [] && a[0] == b[0] {
      LexLeTotal(a[1..], b[1..]);
    }
  }

  lemma {:induction false} LexLeTrans(a: string, b: string, c: string)
    requires LexLe(a, b) && LexLe(b, c)
    ensures LexLe(a, c)
  {
    if a != [] && a[0] == b[0] && b[0] == c[0] {
      LexLeTrans(a[1..], b[1..], c[1..]);
    }
  }

  predicate Sorted(s: seq<string>) {
    forall i, j :: 0 <= i < j < |s| ==> LexLe(s[i], s[j])
  }

  function Insert(x: string, s: seq<string>): (r: seq<string>)
    ensures multiset(r) == multiset(s) + multiset{x}
  {
    if s == [] then [x]
    else if LexLe(x, s[0]) then [x] + s
    else
      assert s == [s[0]] + s[1..];
      [s[0]] + Insert(x, s[1..])
  }

  /** Putting a lower bound of a sorted list in front keeps it sorted. */
  lemma SortedCons(a: string, t: seq<string>)
    requires Sorted(t)
    requires forall k :: 0 <= k < |t| ==> LexLe(a, t[k])
    ensures Sorted([a] + t)
  {
    var r := [a] + t;
    forall i, j | 0 <= i < j < |r| ensures LexLe(r[i], r[j]) {
      if i == 0 {
        assert r[j] == t[j - 1];
      } else {
        assert r[i] == t[i - 1] && r[j] == t[j - 1];
      }
    }
  }

  lemma {:induction false} InsertSorted(x: string, s: seq<string>)
    requires Sorted(s)
    ensures Sorted(Insert(x, s))
  {
    if s != [] {
      if LexLe(x, s[0]) {
        forall k | 0 <= k < |s| ensures LexLe(x, s[k]) {
          if k > 0 { LexLeTrans(x, s[0], s[k]); }
        }
        SortedCons(x, s);
      } else {
        LexLeTotal(x, s[0]);
        assert Sorted(s[1..]);
        InsertSorted(x, s[1..]);
        var t := Insert(x, s[1..]);
        forall k | 0 <= k < |t| ensures LexLe(s[0], t[k]) {
          assert t[k] in multiset(s[1..]) + multiset{x};
          if t[k] != x {
            var m :| 0 <= m < |s[1..]| && s[1..][m] == t[k];
            assert s[m + 1] == t[k];
          }
        }
        SortedCons(s[0], t);
      }
    }
  }

  /** `sorted(s)` for a list of strings (insertion sort; the result is
      the unique sorted permutation, so the algorithm does not matter). */
  function Sort(s: seq<string>): (r: seq<string>)
    ensures multiset(r) == multiset(s)
  {
    if s == [] then []
    else
      assert s == s[..|s| - 1] + [s[|s| - 1]];
      Insert(s[|s| - 1], Sort(s[..|s| - 1]))
  }

  lemma {:induction false} SortIsSorted(s: seq<string>)
    ensures Sorted(Sort(s))
  {
    if s != [] {
      SortIsSorted(s[..|s| - 1]);
      InsertSorted(s[|s| - 1], Sort(s[..|s| - 1]));
    }
  }

  /** Sorting keeps exactly the same elements. */
  lemma SortSameElements(s: seq<string>)
    ensures forall x :: x in Sort(s) <==> x in s
  {
    var r := Sort(s);
    assert forall x :: x in r <==> x in multiset(r);
    assert forall x :: x in s <==> x in multiset(s);
  }
}
