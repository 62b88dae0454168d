/** String helpers used by the stop-consolidation pipeline: Python's
    `str.strip()`, the code-point order that `sorted()` uses on strings, and the
    two `re.sub` sanitisers that turn archive names into agency codes and
    download file names. */
module Text {

  /** Python's `str.isspace()`: the code points that `str.strip()` removes. */
  predicate IsSpace(c: char) {
    var n := c as int;
    n == 0x20 || 0x09 <= n <= 0x0D || 0x1C <= n <= 0x1F || n == 0x85 || n == 0xA0
    || n == 0x1680 || 0x2000 <= n <= 0x200A || n == 0x2028 || n == 0x2029
    || n == 0x202F || n == 0x205F || n == 0x3000
  }

  /** Drops leading white space; the result is the suffix that starts at the
      first non-space character. */
  function TrimStart(s: string): (r: string)
    ensures |r| <= |s| && r == s[|s| - |r|..]
    ensures forall k :: 0 <= k < |s| - |r| ==> IsSpace(s[k])
    ensures r == [] || !IsSpace(r[0])
  {
    if s != [] && IsSpace(s[0]) then TrimStart(s[1..]) else s
  }

  /** Drops trailing white space; the result is the prefix that ends at the
      last non-space character. */
  function TrimEnd(s: string): (r: string)
    ensures |r| <= |s| && r == s[..|r|]
    ensures forall k :: |r| <= k < |s| ==> IsSpace(s[k])
    ensures r == [] || !IsSpace(r[|r| - 1])
  {
    if s != [] && IsSpace(s[|s| - 1]) then TrimEnd(s[..|s| - 1]) else s
  }

  /** Python's `s.strip()`. */
  function Strip(s: string): string {
    TrimEnd(TrimStart(s))
  }

  /** The stripped string is a slice `s[i..i + |Strip(s)|]` of `s`, and
      everything stripping removes, before and after the slice, is white
      space. */
  lemma {:induction false} StripIsTrimmedSlice(s: string) returns (i: nat)
    ensures i + |Strip(s)| <= |s| && Strip(s) == s[i..i + |Strip(s)|]
    ensures forall k :: 0 <= k < i ==> IsSpace(s[k])
    ensures forall k :: i + |Strip(s)| <= k < |s| ==> IsSpace(s[k])
  {
    var t := TrimStart(s);
    var r := TrimEnd(t);
    i := |s| - |t|;
    SliceOfSuffix(s, t, r);
    SpacesAfterSlice(s, t, r);
  }

  /** The stripped string neither starts nor ends with white space. */
  lemma {:induction false} StripEnds(s: string)
    ensures var r := Strip(s);
      r == [] || (!IsSpace(r[0]) && !IsSpace(r[|r| - 1]))
  {
    var t := TrimStart(s);
    var r := TrimEnd(t);
    if r != [] {
      assert r[0] == t[0];
    }
  }

  /** A prefix `r` of a suffix `t` of `s` is a slice of `s`. */
  lemma {:induction false} SliceOfSuffix(s: string, t: string, r: string)
    requires |t| <= |s| && t == s[|s| - |t|..]
    requires |r| <= |t| && r == t[..|r|]
    ensures var i := |s| - |t|;
      i + |r| <= |s| && r == s[i..i + |r|]
  {
    var i := |s| - |t|;
    assert forall k :: 0 <= k < |r| ==> r[k] == t[k] == s[i + k];
  }

  /** When `t` has only white space after its prefix `r`, so has the
      suffix `t` of `s` after it. */
  lemma {:induction false} SpacesAfterSlice(s: string, t: string, r: string)
    requires |t| <= |s| && t == s[|s| - |t|..]
    requires |r| <= |t| && r == t[..|r|]
    requires forall k :: |r| <= k < |t| ==> IsSpace(t[k])
    ensures forall k :: |s| - |t| + |r| <= k < |s| ==> IsSpace(s[k])
  {
    var i := |s| - |t|;
    forall k | i + |r| <= k < |s| ensures IsSpace(s[k]) {
      assert s[k] == t[k - i];
    }
  }

  /** Stripping yields the empty string exactly when `s` is all white space. */
  lemma {:induction false} StripEmptyIff(s: string)
    ensures Strip(s) == [] <==> forall k :: 0 <= k < |s| ==> IsSpace(s[k])
  {
    var t := TrimStart(s);
    if t != [] {
      assert !IsSpace(s[|s| - |t|]);
      assert TrimEnd(t) != [] by { assert !IsSpace(t[0]); }
    }
  }

  /** Stripping twice is stripping once. */
  lemma {:induction false} StripIdempotent(s: string)
    ensures Strip(Strip(s)) == Strip(s)
  {
    var r := Strip(s);
    StripEnds(s);
    if r != [] {
      assert TrimStart(r) == r;
      assert TrimEnd(r) == r;
    }
  }

  // ---------------------------------------------------------------------
  // The order of Python's `sorted()` on strings: lexicographic by code point.

  /** `a < b` for Python strings. */
  predicate Less(a: string, b: string) {
    if a == [] then b != []
    else b != [] && (a[0] < b[0] || (a[0] == b[0] && Less(a[1..], b[1..])))
  }

  lemma {:induction false} LessIrreflexive(a: string)
    ensures !Less(a, a)
  {
    if a != [] { LessIrreflexive(a[1..]); }
  }

  lemma {:induction false} LessTransitive(a: string, b: string, c: string)
    requires Less(a, b) && Less(b, c)
    ensures Less(a, c)
  {
    if a != [] && a[0] == b[0] && b[0] == c[0] {
      LessTransitive(a[1..], b[1..], c[1..]);
    }
  }

  lemma {:induction false} LessTotal(a: string, b: string)
    requires a != b
    ensures Less(a, b) || Less(b, a)
  {
    if a != [] && b != [] && a[0] == b[0] {
      LessTotal(a[1..], b[1..]);
    }
  }

  lemma {:induction false} LessAsymmetric(a: string, b: string)
    requires Less(a, b)
    ensures !Less(b, a)
  {
    if Less(b, a) {
      LessTransitive(a, b, a);
      LessIrreflexive(a);
    }
  }

  // ---------------------------------------------------------------------
  // `re.sub(r'[^<class>]+', '_', s)`: every maximal run of characters outside
  // the class becomes one underscore.

  /** The characters of `[A-Za-z0-9_]`. */
  predicate IsWordChar(c: char) {
    'A' <= c <= 'Z' || 'a' <= c <= 'z' || '0' <= c <= '9' || c == '_'
  }

  /** The characters of `[A-Za-z0-9_.-]`. */
  predicate IsFileNameChar(c: char) {
    IsWordChar(c) || c == '.' || c == '-'
  }

  /** The two character classes the source sanitises with. */
  datatype CharClass = WordChars | FileNameChars

  predicate InClass(c: char, cls: CharClass) {
    match cls
    case WordChars => IsWordChar(c)
    case FileNameChars => IsFileNameChar(c)
  }

  /** The length of the run of characters outside the class at the front of
      `s`. */
  function RunLength(s: string, cls: CharClass): (n: nat)
    ensures n <= |s|
    ensures forall k :: 0 <= k < n ==> !InClass(s[k], cls)
    ensures n == |s| || InClass(s[n], cls)
  {
    if s != [] && !InClass(s[0], cls) then 1 + RunLength(s[1..], cls) else 0
  }

  /** Replaces every maximal run of characters outside the class by one `_`;
      since `_` belongs to both classes, the result lies wholly in the class. */
  function ReplaceRuns(s: string, cls: CharClass): (r: string)
    ensures forall k :: 0 <= k < |r| ==> InClass(r[k], cls)
    ensures |r| <= |s| && (r == [] <==> s == [])
    decreases |s|
  {
    if s == [] then []
    else if InClass(s[0], cls) then [s[0]] + ReplaceRuns(s[1..], cls)
    else "_" + ReplaceRuns(s[RunLength(s, cls)..], cls)
  }

  /** A string made only of characters of the class comes through unchanged. */
  lemma {:induction false} ReplaceRunsKeepsCleanText(s: string, cls: CharClass)
    requires forall k :: 0 <= k < |s| ==> InClass(s[k], cls)
    ensures ReplaceRuns(s, cls) == s
  {
    if s != [] {
      ReplaceRunsKeepsCleanText(s[1..], cls);
    }
  }

  /** Sanitising is idempotent. */
  lemma {:induction false} ReplaceRunsIdempotent(s: string, cls: CharClass)
    ensures ReplaceRuns(ReplaceRuns(s, cls), cls) == ReplaceRuns(s, cls)
  {
    ReplaceRunsKeepsCleanText(ReplaceRuns(s, cls), cls);
  }

  /** A run that stops inside `t` is not lengthened by text after `t`. */
  lemma {:induction false} RunLengthOfConcat(t: string, y: string, cls: CharClass)
    requires RunLength(t, cls) < |t|
    ensures RunLength(t + y, cls) == RunLength(t, cls)
  {
    if !InClass(t[0], cls) {
      assert (t + y)[1..] == t[1..] + y;
      RunLengthOfConcat(t[1..], y, cls);
    } else {
      assert (t + y)[0] == t[0];
    }
  }

  /** Text that ends in a character of the class is sanitised independently of
      what follows it. */
  lemma {:induction false} ReplaceRunsSplit(x: string, y: string, cls: CharClass)
    requires x == [] || InClass(x[|x| - 1], cls)
    ensures ReplaceRuns(x + y, cls) == ReplaceRuns(x, cls) + ReplaceRuns(y, cls)
    decreases |x|
  {
    if x == [] {
      assert x + y == y;
    } else if InClass(x[0], cls) {
      ReplaceRunsSplit(x[1..], y, cls);
      SplitAfterClassChar(x, y, cls);
    } else {
      var n := RunLength(x, cls);
      assert n < |x| by { assert InClass(x[|x| - 1], cls); }
      assert x[n..][|x[n..]| - 1] == x[|x| - 1];
      ReplaceRunsSplit(x[n..], y, cls);
      SplitAfterRun(x, y, cls);
    }
  }

  /** The step of `ReplaceRunsSplit` past a leading character of the class. */
  lemma {:induction false} SplitAfterClassChar(x: string, y: string, cls: CharClass)
    requires x != [] && InClass(x[0], cls)
    requires ReplaceRuns(x[1..] + y, cls) == ReplaceRuns(x[1..], cls) + ReplaceRuns(y, cls)
    ensures ReplaceRuns(x + y, cls) == ReplaceRuns(x, cls) + ReplaceRuns(y, cls)
  {
    var xy := x + y;
    assert xy[0] == x[0] && xy[1..] == x[1..] + y;
    assert ReplaceRuns(xy, cls) == [x[0]] + ReplaceRuns(x[1..] + y, cls);
    assert ReplaceRuns(x, cls) == [x[0]] + ReplaceRuns(x[1..], cls);
    Associative([x[0]], ReplaceRuns(x[1..], cls), ReplaceRuns(y, cls));
  }

  /** The step of `ReplaceRunsSplit` past a leading run that ends inside `x`. */
  lemma {:induction false} SplitAfterRun(x: string, y: string, cls: CharClass)
    requires x != [] && !InClass(x[0], cls) && RunLength(x, cls) < |x|
    requires var n := RunLength(x, cls);
      ReplaceRuns(x[n..] + y, cls) == ReplaceRuns(x[n..], cls) + ReplaceRuns(y, cls)
    ensures ReplaceRuns(x + y, cls) == ReplaceRuns(x, cls) + ReplaceRuns(y, cls)
  {
    var xy, n := x + y, RunLength(x, cls);
    RunLengthOfConcat(x, y, cls);
    assert xy[0] == x[0] && xy[n..] == x[n..] + y;
    assert ReplaceRuns(xy, cls) == "_" + ReplaceRuns(x[n..] + y, cls);
    assert ReplaceRuns(x, cls) == "_" + ReplaceRuns(x[n..], cls);
    Associative("_", ReplaceRuns(x[n..], cls), ReplaceRuns(y, cls));
  }

  /** Concatenation regroups freely. */
  lemma {:induction false} Associative<T>(a: seq<T>, b: seq<T>, c: seq<T>)
    ensures (a + b) + c == a + (b + c)
  {
  }

  /** A whole run of characters outside the class, between two characters of
      the class (or the ends of the text), turns into exactly one underscore. */
  lemma {:induction false} RunBecomesOneUnderscore(x: string, run: string, y: string, cls: CharClass)
    requires x == [] || InClass(x[|x| - 1], cls)
    requires run != [] && forall k :: 0 <= k < |run| ==> !InClass(run[k], cls)
    requires y == [] || InClass(y[0], cls)
    ensures ReplaceRuns(x + run + y, cls) == ReplaceRuns(x, cls) + "_" + ReplaceRuns(y, cls)
  {
    var ry := run + y;
    assert x + run + y == x + ry;
    ReplaceRunsSplit(x, ry, cls);
    assert !InClass(ry[0], cls) by { assert ry[0] == run[0]; }
    WholeRunLength(run, y, cls);
    assert ry[|run|..] == y;
    assert ReplaceRuns(ry, cls) == "_" + ReplaceRuns(y, cls);
  }

  lemma {:induction false} WholeRunLength(run: string, y: string, cls: CharClass)
    requires forall k :: 0 <= k < |run| ==> !InClass(run[k], cls)
    requires y == [] || InClass(y[0], cls)
    ensures RunLength(run + y, cls) == |run|
  {
    if run == [] {
      assert run + y == y;
    } else {
      assert (run + y)[1..] == run[1..] + y;
      WholeRunLength(run[1..], y, cls);
    }
  }

  /** Python's `str.upper()` on text drawn from `[A-Za-z0-9_]`, where it only
      maps `a`..`z` to `A`..`Z`. */
  function UpperAscii(s: string): (r: string)
    ensures |r| == |s|
  {
    seq(|s|, i requires 0 <= i < |s| =>
      if 'a' <= s[i] <= 'z' then (s[i] as int - 'a' as int + 'A' as int) as char else s[i])
  }

  /** Characters an agency code may contain: `[A-Z0-9_]`. */
  predicate IsCodeChar(c: char) {
    'A' <= c <= 'Z' || '0' <= c <= '9' || c == '_'
  }

  /** The agency code derived from an archive's file stem:
      `re.sub(r'[^A-Za-z0-9_]+', '_', stem).upper()`. */
  function AgencyCode(stem: string): (code: string)
    ensures |code| <= |stem| && (code == [] <==> stem == [])
    ensures forall k :: 0 <= k < |code| ==> IsCodeChar(code[k])
  {
    UpperAscii(ReplaceRuns(stem, WordChars))
  }

  /** An agency code is its own agency code: deriving it again changes nothing. */
  lemma {:induction false} AgencyCodeIdempotent(stem: string)
    ensures AgencyCode(AgencyCode(stem)) == AgencyCode(stem)
  {
    var code := AgencyCode(stem);
    ReplaceRunsKeepsCleanText(code, WordChars);
    assert UpperAscii(code) == code;
  }

  /** An upper-case stem made of word characters is already a code. */
  lemma {:induction false} AgencyCodeOfCode(stem: string)
    requires forall k :: 0 <= k < |stem| ==> IsCodeChar(stem[k])
    ensures AgencyCode(stem) == stem
  {
    ReplaceRunsKeepsCleanText(stem, WordChars);
  }

  /** `url.split('/')[-1]`: the text after the last slash. */
  function LastSegment(url: string): (r: string)
    ensures |r| <= |url| && r == url[|url| - |r|..]
    ensures forall k :: 0 <= k < |r| ==> r[k] != '/'
    ensures |r| < |url| ==> url[|url| - |r| - 1] == '/'
  {
    if url == [] || url[|url| - 1] == '/' then []
    else LastSegment(url[..|url| - 1]) + [url[|url| - 1]]
  }

  /** The name a downloaded archive is stored under:
      `re.sub(r'[^A-Za-z0-9_.-]+', '_', url.split('/')[-1]) or 'gtfs.zip'`. */
  function DownloadFileName(url: string): (name: string)
    ensures name != []
    ensures forall k :: 0 <= k < |name| ==> IsFileNameChar(name[k])
  {
    var sanitised := ReplaceRuns(LastSegment(url), FileNameChars);
    if sanitised == [] then "gtfs.zip" else sanitised
  }

  /** The `gtfs.zip` fallback is taken exactly when the URL's last segment is
      empty, that is when the URL is empty or ends in a slash. */
  lemma {:induction false} DownloadFileNameFallback(url: string)
    ensures (url == [] || url[|url| - 1] == '/') <==> DownloadFileName(url) == "gtfs.zip" && LastSegment(url) == []
  {
  }
}
