/**
 * File-name helpers of the page aligner: the page number encoded in a
 * capture's file name, the exclusion of the aligner's own temporary files
 * from the white listing, and the sorted listings of both directories.
 */
module FileNames {
  import opened Wrappers

  // ---------------------------------------------------------------------
  // Path(p).name
  // ---------------------------------------------------------------------

  /** pathlib drops empty and "." segments. */
  predicate IsDroppedSegment(segment: string) {
    |segment| == 0 || (|segment| == 1 && segment[0] == '.')
  }

  /**
   * Scans `p` backwards for its final component. `p[i..end]` is the part of
   * the current segment read so far; when the scan reaches the '/' before it
   * (or the start of `p`), the segment is the name unless it is one pathlib
   * drops, in which case the scan goes on with the segment before that '/'.
   */
  function NameScan(p: string, i: nat, end: nat): (name: string)
    requires i <= end <= |p|
  {
    if i == 0 then (if IsDroppedSegment(p[..end]) then "" else p[..end])
    else if p[i - 1] == '/' then
      (if !IsDroppedSegment(p[i..end]) then p[i..end] else NameScan(p, i - 1, i - 1))
    else NameScan(p, i - 1, end)
  }

  /**
   * Path(p).name: the last '/'-separated segment of the POSIX path `p` that
   * is neither empty nor ".", or "" when there is none.
   */
  function Name(p: string): string {
    NameScan(p, |p|, |p|)
  }

  /** A plain file name (as a directory listing yields it) names itself. */
  predicate IsPlainName(f: string) {
    f != "" && f != "." && '/' !in f
  }

  predicate HasNoSlash(s: string) { forall k :: 0 <= k < |s| ==> s[k] != '/' }

  /** No '/' is read into the current segment, so none is in the name. */
  lemma {:induction false} NameScanHasNoSlash(p: string, i: nat, end: nat)
    requires i <= end <= |p|
    requires forall k :: i <= k < end ==> p[k] != '/'
    ensures HasNoSlash(NameScan(p, i, end))
  {
    if i == 0 {
    } else if p[i - 1] == '/' {
      if IsDroppedSegment(p[i..end]) {
        NameScanHasNoSlash(p, i - 1, i - 1);
      }
    } else {
      NameScanHasNoSlash(p, i - 1, end);
    }
  }

  /** The final component has no '/' in it. */
  lemma NameHasNoSlash(p: string)
    ensures HasNoSlash(Name(p))
  {
    NameScanHasNoSlash(p, |p|, |p|);
  }

  /** The scan never stops at a segment pathlib drops. */
  lemma {:induction false} NameScanIsNotDropped(p: string, i: nat, end: nat)
    requires i <= end <= |p|
    ensures NameScan(p, i, end) != [] ==> !IsDroppedSegment(NameScan(p, i, end))
  {
    if i == 0 {
    } else if p[i - 1] == '/' {
      if IsDroppedSegment(p[i..end]) {
        NameScanIsNotDropped(p, i - 1, i - 1);
      }
    } else {
      NameScanIsNotDropped(p, i - 1, end);
    }
  }

  /** A nonempty final component is never ".". */
  lemma NameIsNotDropped(p: string)
    ensures Name(p) != [] ==> !IsDroppedSegment(Name(p))
  {
    NameScanIsNotDropped(p, |p|, |p|);
  }

  /**
   * Reading back over characters that are not '/' up to the start of the
   * segment (the start of `p` or just after a '/') does not change the result.
   */
  lemma {:induction false} NameScanToSegmentStart(p: string, i: nat, end: nat, start: nat)
    requires start <= i <= end <= |p|
    requires start == 0 || p[start - 1] == '/'
    requires forall k :: start <= k < i ==> p[k] != '/'
    ensures NameScan(p, i, end) == NameScan(p, start, end)
  {
    if start < i {
      NameScanToSegmentStart(p, i - 1, end, start);
    }
  }

  /** The name of "<dir>/<f>", and of "<f>" alone, is `f` when `f` is a plain name. */
  lemma {:induction false} NameOfJoinedPath(dir: string, f: string)
    requires IsPlainName(f)
    ensures Name(dir + "/" + f) == f
    ensures Name(f) == f
  {
    var p := dir + "/" + f;
    assert p[|dir|] == '/';
    forall k | |dir| + 1 <= k < |p| ensures p[k] != '/' {
      assert p[k] == f[k - |dir| - 1];
      assert f[k - |dir| - 1] in f;
    }
    NameScanToSegmentStart(p, |p|, |p|, |dir| + 1);
    assert p[|dir| + 1..|p|] == f;
    forall k | 0 <= k < |f| ensures f[k] != '/' {
      assert f[k] in f;
    }
    NameScanToSegmentStart(f, |f|, |f|, 0);
    assert f[..|f|] == f;
  }

  // ---------------------------------------------------------------------
  // int(...)
  // ---------------------------------------------------------------------

  /**
   * The ASCII characters that int() strips around a numeral: space, tab,
   * line feed, vertical tab, form feed, carriage return and the separators
   * U+001C to U+001F.
   */
  predicate IsSpace(c: char) {
    c == ' ' || c == '\t' || c == '\n' || c == '\r' || 11 <= c as int <= 12 || 28 <= c as int <= 31
  }

  predicate IsDigit(c: char) { '0' <= c <= '9' }

  predicate AllDigits(s: string) { forall k :: 0 <= k < |s| ==> IsDigit(s[k]) }

  /** s.lstrip() */
  function StripLeft(s: string): (t: string)
    ensures |t| <= |s|
    ensures t != [] ==> !IsSpace(t[0])
  {
    if s != [] && IsSpace(s[0]) then StripLeft(s[1..]) else s
  }

  /** s.rstrip() */
  function StripRight(s: string): (t: string)
    ensures |t| <= |s|
    ensures t != [] ==> !IsSpace(t[|t| - 1])
  {
    if s != [] && IsSpace(s[|s| - 1]) then StripRight(s[..|s| - 1]) else s
  }

  /** lstrip() drops the whitespace at the front and nothing else: what is left is a suffix, and all it dropped is whitespace. */
  lemma {:induction false} StripLeftDropsOnlySpace(s: string)
    ensures StripLeft(s) == s[|s| - |StripLeft(s)|..]
    ensures forall k :: 0 <= k < |s| - |StripLeft(s)| ==> IsSpace(s[k])
  {
    if s != [] && IsSpace(s[0]) {
      StripLeftDropsOnlySpace(s[1..]);
      forall k | 1 <= k < |s| - |StripLeft(s)| ensures IsSpace(s[k]) {
        assert s[k] == s[1..][k - 1];
      }
    }
  }

  /** rstrip() drops the whitespace at the end and nothing else: what is left is a prefix, and all it dropped is whitespace. */
  lemma {:induction false} StripRightDropsOnlySpace(s: string)
    ensures StripRight(s) == s[..|StripRight(s)|]
    ensures forall k :: |StripRight(s)| <= k < |s| ==> IsSpace(s[k])
  {
    if s != [] && IsSpace(s[|s| - 1]) {
      StripRightDropsOnlySpace(s[..|s| - 1]);
      forall k | |StripRight(s)| <= k < |s| - 1 ensures IsSpace(s[k]) {
        assert s[k] == s[..|s| - 1][k];
      }
    }
  }

  /** s.strip() */
  function Strip(s: string): string {
    StripRight(StripLeft(s))
  }

  /** The stripped text without its leading sign, if it has one. */
  function Unsigned(t: string): string {
    if t != [] && (t[0] == '+' || t[0] == '-') then t[1..] else t
  }

  /** The value of a string of decimal digits, or None when a character is not a digit. */
  function DigitsValue(ds: string): Option<nat> {
    if ds == [] then Some(0)
    else if !IsDigit(ds[|ds| - 1]) then None
    else
      match DigitsValue(ds[..|ds| - 1])
      case None => None
      case Some(v) => Some(v * 10 + (ds[|ds| - 1] as int - '0' as int))
  }

  /** DigitsValue has a value exactly for strings of digits. */
  lemma {:induction false} DigitsValueDefined(ds: string)
    ensures DigitsValue(ds).Some? <==> AllDigits(ds)
  {
    if ds != [] {
      var init := ds[..|ds| - 1];
      DigitsValueDefined(init);
      if AllDigits(ds) {
        assert AllDigits(init) by {
          forall k | 0 <= k < |init| ensures IsDigit(init[k]) {
            assert init[k] == ds[k];
          }
        }
      } else if IsDigit(ds[|ds| - 1]) {
        var k :| 0 <= k < |ds| && !IsDigit(ds[k]);
        assert init[k] == ds[k];
      }
    }
  }

  /** The error int() raises for a string that is not a numeral. */
  datatype ParseError = NotAnInteger(text: string)

  /**
   * int(s) for a decimal numeral: surrounding whitespace is ignored, an
   * optional sign may precede the digits, and at least one digit is needed.
   */
  function ParseInt(s: string): Result<int, ParseError> {
    var t := Strip(s);
    var negative := t != [] && t[0] == '-';
    var digits := Unsigned(t);
    if digits == [] then Failure(NotAnInteger(s))
    else
      match DigitsValue(digits)
      case None => Failure(NotAnInteger(s))
      case Some(m) =>
        var magnitude: int := m;
        Success(if negative then -magnitude else magnitude)
  }

  /** int(s) succeeds exactly when what is left after stripping and the sign is a nonempty run of digits. */
  lemma ParseIntAccepts(s: string)
    ensures ParseInt(s).Success? <==> Unsigned(Strip(s)) != [] && AllDigits(Unsigned(Strip(s)))
  {
    DigitsValueDefined(Unsigned(Strip(s)));
  }

  /** int() of a run of digits, zero-padded or not, is the value of the digits. */
  lemma ParseDigits(ds: string)
    requires ds != [] && AllDigits(ds)
    ensures DigitsValue(ds).Some? && ParseInt(ds) == Success(DigitsValue(ds).value)
  {
    assert IsDigit(ds[0]) && IsDigit(ds[|ds| - 1]);
    assert StripLeft(ds) == ds;
    assert StripRight(ds) == ds;
    DigitsValueDefined(ds);
  }

  /** The decimal numeral of `n`, the inverse of DigitsValue. */
  function Decimal(n: nat): (ds: string)
    ensures ds != [] && AllDigits(ds)
  {
    var d := ['0' + (n % 10) as char];
    if n < 10 then d else Decimal(n / 10) + d
  }

  lemma {:induction false} DecimalRoundTrip(n: nat)
    ensures DigitsValue(Decimal(n)) == Some(n)
  {
    var ds := Decimal(n);
    if n >= 10 {
      DecimalRoundTrip(n / 10);
      assert ds[..|ds| - 1] == Decimal(n / 10);
    }
  }

  lemma ParseDecimal(n: nat)
    ensures ParseInt(Decimal(n)) == Success(n)
  {
    DecimalRoundTrip(n);
    ParseDigits(Decimal(n));
  }

  // ---------------------------------------------------------------------
  // page_of_path
  // ---------------------------------------------------------------------

  /** Index of the first occurrence of `c` in `s`, or |s| when absent. */
  function IndexOf(s: string, c: char): (i: nat)
    ensures i <= |s|
    ensures i < |s| ==> s[i] == c
  {
    if s == [] then 0
    else if s[0] == c then 0
    else 1 + IndexOf(s[1..], c)
  }

  /** IndexOf finds the first occurrence: `c` does not occur before it. */
  lemma {:induction false} IndexOfIsFirst(s: string, c: char)
    ensures forall k :: 0 <= k < IndexOf(s, c) ==> s[k] != c
  {
    if s != [] && s[0] != c {
      IndexOfIsFirst(s[1..], c);
      forall k | 1 <= k < IndexOf(s, c) ensures s[k] != c {
        assert s[1..][k - 1] == s[k];
      }
    }
  }

  /** A `c` with no `c` before it is the one IndexOf finds. */
  lemma {:induction false} IndexOfAt(s: string, c: char, i: nat)
    requires i < |s| && s[i] == c
    requires forall k :: 0 <= k < i ==> s[k] != c
    ensures IndexOf(s, c) == i
  {
    if i > 0 {
      forall k | 0 <= k < i - 1 ensures s[1..][k] != c {
        assert s[1..][k] == s[k + 1];
      }
      IndexOfAt(s[1..], c, i - 1);
    }
  }

  /** s.split(c)[0]: the part of `s` before the first `c`. */
  function FirstField(s: string, c: char): string {
    s[..IndexOf(s, c)]
  }

  /** split(c)[0] is a prefix without `c`, followed by a `c` unless it is the whole string. */
  lemma FirstFieldIsFirstPart(s: string, c: char)
    ensures FirstField(s, c) == s[..|FirstField(s, c)|] && c !in FirstField(s, c)
    ensures |FirstField(s, c)| == |s| || s[|FirstField(s, c)|] == c
  {
    IndexOfIsFirst(s, c);
    var f := FirstField(s, c);
    assert forall k :: 0 <= k < |f| ==> f[k] == s[k];
  }

  /** The page number a capture's file name starts with, or the error int() raises. */
  function PageOfPath(p: string): Result<int, ParseError> {
    ParseInt(FirstField(Name(p), '-'))
  }

  lemma {:induction false} CaptureNameIsPlain(ds: string, rest: string)
    requires ds != [] && AllDigits(ds)
    requires '/' !in rest
    ensures IsPlainName(ds + rest)
    ensures FirstField(ds + rest, '-') == ds || rest == [] || rest[0] != '-'
  {
    var f := ds + rest;
    forall k | 0 <= k < |f| ensures f[k] != '/' {
      if k >= |ds| { assert f[k] == rest[k - |ds|]; assert rest[k - |ds|] in rest; }
      else { assert f[k] == ds[k]; assert IsDigit(ds[k]); }
    }
    assert f[0] == ds[0];
    assert IsDigit(ds[0]);
    if rest != [] && rest[0] == '-' {
      assert f[|ds|] == '-';
      forall k | 0 <= k < |ds| ensures f[k] != '-' { assert f[k] == ds[k]; assert IsDigit(ds[k]); }
      IndexOfAt(f, '-', |ds|);
      assert f[..|ds|] == ds;
    }
  }

  /**
   * A capture saved as "<dir>/<digits>-<anything>" yields the value of its
   * digits back, whether they are zero-padded or not.
   */
  lemma {:induction false} PageOfPathRoundTrip(dir: string, ds: string, rest: string)
    requires ds != [] && AllDigits(ds)
    requires '/' !in rest
    requires rest != [] && rest[0] == '-'
    ensures DigitsValue(ds).Some?
    ensures PageOfPath(dir + "/" + ds + rest) == Success(DigitsValue(ds).value)
  {
    var f := ds + rest;
    assert dir + "/" + ds + rest == dir + "/" + f;
    CaptureNameIsPlain(ds, rest);
    NameOfJoinedPath(dir, f);
    ParseDigits(ds);
  }

  /** In particular a capture saved under its page number's numeral yields that page back. */
  lemma PageOfCapturePath(dir: string, page: nat, rest: string)
    requires '/' !in rest
    requires rest != [] && rest[0] == '-'
    ensures PageOfPath(dir + "/" + Decimal(page) + rest) == Success(page)
  {
    DecimalRoundTrip(page);
    PageOfPathRoundTrip(dir, Decimal(page), rest);
  }

  /** A name whose first field has no digit in it (e.g. "cover.png" or "-1.png") is rejected. */
  lemma PageOfPathRejects(p: string)
    requires forall k :: 0 <= k < |FirstField(Name(p), '-')| ==> !IsDigit(FirstField(Name(p), '-')[k])
    ensures PageOfPath(p).Failure?
  {
    var s := FirstField(Name(p), '-');
    var t := Strip(s);
    var digits := Unsigned(t);
    if digits != [] {
      StripLeftDropsOnlySpace(s);
      StripRightDropsOnlySpace(StripLeft(s));
      assert t == s[|s| - |StripLeft(s)|..][..|t|];
      assert digits[0] in s;
      DigitsValueDefined(digits);
    }
  }

  // ---------------------------------------------------------------------
  // The white and black listings
  // ---------------------------------------------------------------------

  predicate EndsWith(s: string, suffix: string) {
    |suffix| <= |s| && s[|s| - |suffix|..] == suffix
  }

  /** Files the aligner itself writes next to the white captures. */
  predicate IsTempFile(f: string) {
    || EndsWith(f, ".inv.png")
    || EndsWith(f, ".mon.png")
    || EndsWith(f, ".diff.png")
    || EndsWith(f, ".crop.png")
    || EndsWith(f, ".leveled.png")
  }

  /** Every file the script writes next to a capture, named by `with_suffix`, counts as temporary. */
  lemma ScriptOutputsAreTempFiles(stem: string)
    ensures IsTempFile(stem + ".inv.png") && IsTempFile(stem + ".mon.png") && IsTempFile(stem + ".diff.png")
    ensures IsTempFile(stem + ".crop.png") && IsTempFile(stem + ".leveled.png")
  {
    forall suffix: string | suffix in [".inv.png", ".mon.png", ".diff.png", ".crop.png", ".leveled.png"]
      ensures EndsWith(stem + suffix, suffix)
    {
      assert (stem + suffix)[|stem|..] == suffix;
    }
  }

  /** The list comprehension dropping temporary files, order kept. */
  function DropTempFiles(names: seq<string>): (kept: seq<string>)
    ensures forall f :: f in kept ==> !IsTempFile(f)
    ensures forall f :: multiset(kept)[f] == if IsTempFile(f) then 0 else multiset(names)[f]
  {
    if names == [] then []
    else
      var rest := DropTempFiles(names[1..]);
      assert names == [names[0]] + names[1..];
      if IsTempFile(names[0]) then rest else [names[0]] + rest
  }

  /** Python's ordering of strings: lexicographic by code point, a prefix first. */
  predicate Below(a: string, b: string)
    decreases |a|
  {
    a == [] || (b != [] && (a[0] < b[0] || (a[0] == b[0] && Below(a[1..], b[1..]))))
  }

  lemma {:induction false} BelowTotal(a: string, b: string)
    ensures Below(a, b) || Below(b, a)
    decreases |a|
  {
    if a != [] && b != [] && a[0] == b[0] { BelowTotal(a[1..], b[1..]); }
  }

  lemma {:induction false} BelowTransitive(a: string, b: string, c: string)
    requires Below(a, b) && Below(b, c)
    ensures Below(a, c)
    decreases |a|
  {
    if a != [] && a[0] == b[0] && b[0] == c[0] { BelowTransitive(a[1..], b[1..], c[1..]); }
  }

  lemma {:induction false} BelowAntisymmetric(a: string, b: string)
    requires Below(a, b) && Below(b, a)
    ensures a == b
    decreases |a|
  {
    if a != [] {
      BelowAntisymmetric(a[1..], b[1..]);
      assert a == [a[0]] + a[1..] && b == [b[0]] + b[1..];
    }
  }

  predicate Sorted(s: seq<string>) {
    forall i, j :: 0 <= i < j < |s| ==> Below(s[i], s[j])
  }

  /** A lower bound of `x` and of every element of `s` bounds every element of a permutation of them. */
  lemma BelowAllOfPermutation(y: string, x: string, s: seq<string>, t: seq<string>)
    requires Below(y, x) && forall j :: 0 <= j < |s| ==> Below(y, s[j])
    requires multiset(t) == multiset(s) + multiset{x}
    ensures forall j :: 0 <= j < |t| ==> Below(y, t[j])
  {
    forall j | 0 <= j < |t| ensures Below(y, t[j]) {
      assert t[j] in multiset(t);
      if t[j] != x {
        assert t[j] in multiset(s);
        var k :| 0 <= k < |s| && s[k] == t[j];
      }
    }
  }

  function Insert(x: string, s: seq<string>): (r: seq<string>)
    requires Sorted(s)
    ensures Sorted(r)
    ensures multiset(r) == multiset(s) + multiset{x}
  {
    if s == [] then [x]
    else if Below(x, s[0]) then
      assert forall j :: 0 <= j < |s| ==> Below(x, s[j]) by {
        forall j | 0 <= j < |s| ensures Below(x, s[j]) {
          if j > 0 { BelowTransitive(x, s[0], s[j]); }
        }
      }
      [x] + s
    else
      BelowTotal(x, s[0]);
      var tail := Insert(x, s[1..]);
      assert s == [s[0]] + s[1..];
      BelowAllOfPermutation(s[0], x, s[1..], tail);
      [s[0]] + tail
  }

  /** sorted(names), as an insertion sort. */
  function Sort(names: seq<string>): (r: seq<string>)
    ensures Sorted(r)
    ensures multiset(r) == multiset(names)
  {
    if names == [] then []
    else
      assert names == [names[0]] + names[1..];
      Insert(names[0], Sort(names[1..]))
  }

  /** The captures of a directory in processing order: temporary files dropped, then sorted. */
  function CaptureListing(names: seq<string>): (captures: seq<string>)
    ensures Sorted(captures)
    ensures forall f :: f in captures ==> !IsTempFile(f)
    ensures forall f :: !IsTempFile(f) ==> multiset(captures)[f] == multiset(names)[f]
  {
    var kept := DropTempFiles(names);
    var captures := Sort(kept);
    assert forall f :: f in captures ==> f in kept by {
      forall f | f in captures ensures f in kept { assert f in multiset(captures); }
    }
    captures
  }

  /** The black listing as the script takes it: the whole directory, sorted. */
  function BlackListing(names: seq<string>): (black: seq<string>)
    ensures Sorted(black)
    ensures multiset(black) == multiset(names)
  {
    Sort(names)
  }

  /**
   * The ".leveled.png" copies the script writes into the black directory
   * become black pages of every later run: each listed copy is in the black
   * listing, and it is as long as the whole directory.
   */
  lemma LeveledCopiesAreBlackPages(names: seq<string>, stem: string)
    requires stem + ".leveled.png" in names
    ensures stem + ".leveled.png" in BlackListing(names)
    ensures IsTempFile(stem + ".leveled.png")
    ensures |BlackListing(names)| == |names|
  {
    ScriptOutputsAreTempFiles(stem);
    var black := BlackListing(names);
    assert stem + ".leveled.png" in multiset(names);
    assert stem + ".leveled.png" in multiset(black);
    assert |multiset(black)| == |multiset(names)|;
  }

  /** On a directory without temporary files, the filtered listing is the plain sorted one. */
  lemma CaptureListingOfCleanDirectory(names: seq<string>)
    requires forall f :: f in names ==> !IsTempFile(f)
    ensures CaptureListing(names) == BlackListing(names)
  {
    var a := CaptureListing(names);
    var b := BlackListing(names);
    assert multiset(a) == multiset(b) by {
      forall f ensures multiset(a)[f] == multiset(b)[f] {
        if IsTempFile(f) {
          assert f !in names;
          assert f !in a;
        }
      }
    }
    SortedPermutationUnique(a, b);
  }

  lemma SortedHeadIsLeast(a: seq<string>, x: string)
    requires Sorted(a) && x in multiset(a)
    ensures Below(a[0], x)
  {
    var j :| 0 <= j < |a| && a[j] == x;
    if j == 0 { BelowTotal(x, x); }
  }

  lemma SortedTail(a: seq<string>)
    requires Sorted(a) && a != []
    ensures Sorted(a[1..])
  {
    forall i, j | 0 <= i < j < |a| - 1 ensures Below(a[1..][i], a[1..][j]) {
      assert a[1..][i] == a[i + 1] && a[1..][j] == a[j + 1];
    }
  }

  lemma MultisetTail(a: seq<string>)
    requires a != []
    ensures multiset(a[1..]) == multiset(a) - multiset{a[0]}
  {
    assert a == [a[0]] + a[1..];
  }

  /** Two sorted permutations of the same nonempty listing start alike. */
  lemma SameHead(a: seq<string>, b: seq<string>)
    requires Sorted(a) && Sorted(b) && a != []
    requires multiset(a) == multiset(b)
    ensures b != [] && a[0] == b[0]
  {
    assert |b| == |a| by { assert |multiset(a)| == |multiset(b)|; }
    assert a[0] in multiset(a) && b[0] in multiset(b);
    SortedHeadIsLeast(a, b[0]);
    SortedHeadIsLeast(b, a[0]);
    BelowAntisymmetric(a[0], b[0]);
  }

  /** sorted() has one answer: two sorted permutations of the same listing agree. */
  lemma {:induction false} SortedPermutationUnique(a: seq<string>, b: seq<string>)
    requires Sorted(a) && Sorted(b)
    requires multiset(a) == multiset(b)
    ensures a == b
    decreases |a|
  {
    if a != [] {
      SameHead(a, b);
      MultisetTail(a);
      MultisetTail(b);
      SortedTail(a);
      SortedTail(b);
      SortedPermutationUnique(a[1..], b[1..]);
      assert a == [a[0]] + a[1..] && b == [b[0]] + b[1..];
    }
  }
}
