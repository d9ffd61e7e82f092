/** The dotted-version comparator of the shop app (`ShopApp.compare_versions`).

    A version string is split on `.` as Python's `str.split('.')` does, each
    segment is converted with Python's `int()`, and the two lists of integers
    are compared pairwise over their common prefix only (Python's `zip`).
    A segment that `int()` refuses makes the whole comparison fail: `None` here,
    an exception in the source. */
module Versions {
  import opened Wrappers

  // ---------------------------------------------------------------------------
  // str.split with an explicit separator

  /** The pieces of `s` between occurrences of `sep`, as `s.split(sep)`:
      `""` gives `[""]` and every separator yields a boundary, so empty pieces survive. */
  function Split(s: string, sep: char): (parts: seq<string>)
    ensures |parts| >= 1
    ensures forall i :: 0 <= i < |parts| ==> sep !in parts[i]
  {
    if s == [] then [[]]
    else
      var rest := Split(s[1..], sep);
      if s[0] == sep then [[]] + rest
      else [[s[0]] + rest[0]] + rest[1..]
  }

  /** `sep.join(parts)`: the inverse of Split. */
  function Join(parts: seq<string>, sep: char): string
    requires |parts| >= 1
  {
    if |parts| == 1 then parts[0] else parts[0] + [sep] + Join(parts[1..], sep)
  }

  /** Splitting and joining again gives back the original string. */
  lemma {:induction false} JoinSplit(s: string, sep: char)
    ensures Join(Split(s, sep), sep) == s
  {
    if s != [] {
      JoinSplit(s[1..], sep);
      var rest := Split(s[1..], sep);
      if s[0] == sep {
        assert Split(s, sep)[1..] == rest;
      } else {
        var parts := Split(s, sep);
        if |rest| == 1 {
          assert parts == [[s[0]] + rest[0]];
        } else {
          assert parts[1..] == rest[1..];
          assert Join(rest, sep) == rest[0] + [sep] + Join(rest[1..], sep);
        }
      }
    }
  }

  /** A string without separators is a single piece. */
  lemma {:induction false} SplitNoSeparator(x: string, sep: char)
    requires sep !in x
    ensures Split(x, sep) == [x]
  {
    if x != [] {
      SplitNoSeparator(x[1..], sep);
      assert [x[0]] + x[1..] == x;
    }
  }

  /** A separator after a separator-free prefix ends the first piece. */
  lemma {:induction false} SplitAfterPiece(x: string, sep: char, y: string)
    requires sep !in x
    ensures Split(x + [sep] + y, sep) == [x] + Split(y, sep)
  {
    if x == [] {
      assert x + [sep] + y == [sep] + y;
      assert ([sep] + y)[1..] == y;
    } else {
      var s := x + [sep] + y;
      assert s[1..] == x[1..] + [sep] + y;
      SplitAfterPiece(x[1..], sep, y);
      assert [x[0]] + x[1..] == x;
    }
  }

  /** Joining separator-free pieces and splitting again gives back the pieces. */
  lemma {:induction false} SplitJoin(parts: seq<string>, sep: char)
    requires |parts| >= 1
    requires forall i :: 0 <= i < |parts| ==> sep !in parts[i]
    ensures Split(Join(parts, sep), sep) == parts
  {
    if |parts| == 1 {
      SplitNoSeparator(parts[0], sep);
    } else {
      SplitJoin(parts[1..], sep);
      SplitAfterPiece(parts[0], sep, Join(parts[1..], sep));
      assert [parts[0]] + parts[1..] == parts;
    }
  }

  // ---------------------------------------------------------------------------
  // int() on a string, base 10

  predicate IsDigit(c: char) {
    '0' <= c <= '9'
  }

  /** The characters `int()` skips at either end of its argument: the ASCII
      blanks `\t`..`\r` and the space, and the non-ASCII characters that
      `str.isspace` accepts (which `int()` first maps to a space). The ASCII
      separators U+001C..U+001F pass `str.isspace` but are not skipped. */
  predicate IsIntSpace(c: char) {
    ('\t' <= c <= '\r') || c == ' ' || c == '\U{85}' || c == '\U{A0}' ||
    c == '\U{1680}' || ('\U{2000}' <= c <= '\U{200A}') || c == '\U{2028}' || c == '\U{2029}' ||
    c == '\U{202F}' || c == '\U{205F}' || c == '\U{3000}'
  }

  /** `s` without its leading whitespace. */
  function TrimStart(s: string): (t: string)
    ensures |t| <= |s| && t == s[|s| - |t|..]
    ensures t == [] || !IsIntSpace(t[0])
    ensures forall i :: 0 <= i < |s| - |t| ==> IsIntSpace(s[i])
  {
    if s != [] && IsIntSpace(s[0]) then
      var t := TrimStart(s[1..]);
      assert s[1..][|s| - 1 - |t|..] == s[|s| - |t|..];
      t
    else s
  }

  /** `s` without its trailing whitespace. */
  function TrimEnd(s: string): (t: string)
    ensures |t| <= |s| && t == s[..|t|]
    ensures t == [] || !IsIntSpace(t[|t| - 1])
    ensures forall i :: |t| <= i < |s| ==> IsIntSpace(s[i])
  {
    if s != [] && IsIntSpace(s[|s| - 1]) then TrimEnd(s[..|s| - 1]) else s
  }

  function Strip(s: string): string {
    TrimEnd(TrimStart(s))
  }

  /** One or more ASCII digits, single underscores allowed between two digits
      (the grammar of `int()` for base 10, Unicode digits aside). */
  predicate IsDigitGroup(s: string) {
    |s| > 0 && IsDigit(s[0]) && IsDigit(s[|s| - 1]) && DigitsOrUnderscores(s) &&
    forall i :: 0 <= i < |s| && s[i] == '_' ==> i + 1 < |s| && IsDigit(s[i + 1])
  }

  predicate DigitsOrUnderscores(s: string) {
    forall i :: 0 <= i < |s| ==> IsDigit(s[i]) || s[i] == '_'
  }

  function DigitValue(c: char): nat
    requires IsDigit(c)
  {
    c as int - '0' as int
  }

  function DigitChar(d: nat): (c: char)
    requires d < 10
    ensures IsDigit(c) && DigitValue(c) == d
  {
    ('0' as int + d) as char
  }

  /** The number the digits of `s` spell, underscores skipped. */
  function DigitsValue(s: string): nat
    requires DigitsOrUnderscores(s)
  {
    if s == [] then 0
    else if s[|s| - 1] == '_' then DigitsValue(s[..|s| - 1])
    else 10 * DigitsValue(s[..|s| - 1]) + DigitValue(s[|s| - 1])
  }

  /** Python's `int(seg)`: `None` where `int()` raises `ValueError`. A value
      is negative only when the first character after the blanks is a minus sign. */
  function ParseInt(seg: string): (r: Option<int>)
    ensures r.Some? && r.value < 0 ==> |Strip(seg)| > 1 && Strip(seg)[0] == '-'
  {
    var t := Strip(seg);
    if |t| > 0 && (t[0] == '+' || t[0] == '-') then
      var body := t[1..];
      if IsDigitGroup(body) then Some(if t[0] == '-' then -(DigitsValue(body) as int) else DigitsValue(body))
      else None
    else if IsDigitGroup(t) then Some(DigitsValue(t))
    else None
  }

  /** The canonical decimal spelling of `n`. */
  function Decimal(n: nat): (s: string)
    ensures |s| >= 1
    ensures forall i :: 0 <= i < |s| ==> IsDigit(s[i])
  {
    if n < 10 then [DigitChar(n)] else Decimal(n / 10) + [DigitChar(n % 10)]
  }

  lemma {:induction false} DecimalValue(n: nat)
    ensures DigitsValue(Decimal(n)) == n
  {
    if n >= 10 {
      var d := Decimal(n / 10);
      DecimalValue(n / 10);
      assert (d + [DigitChar(n % 10)])[..|d|] == d;
    }
  }

  /** A string that neither starts nor ends with whitespace is left alone by Strip. */
  lemma StripUnpadded(s: string)
    requires s != [] && !IsIntSpace(s[0]) && !IsIntSpace(s[|s| - 1])
    ensures Strip(s) == s
  {
    assert TrimStart(s) == s;
  }

  /** An unsigned digit group converts to the number its digits spell. */
  lemma ParseIntGroup(t: string)
    requires IsDigitGroup(t)
    ensures ParseInt(t) == Some(DigitsValue(t))
  {
    StripUnpadded(t);
  }

  /** `int(str(n)) == n` for every natural number. */
  lemma ParseIntDecimal(n: nat)
    ensures ParseInt(Decimal(n)) == Some(n)
  {
    var s := Decimal(n);
    assert IsDigitGroup(s);
    ParseIntGroup(s);
    DecimalValue(n);
  }

  /** Leading zeros are accepted and ignored: `int("01") == int("1")`. */
  lemma {:induction false} LeadingZeroIgnored(d: string)
    requires IsDigitGroup(d)
    ensures ParseInt(['0'] + d) == ParseInt(d)
  {
    LeadingZeroGroup(d);
    ParseIntGroup(d);
    ParseIntGroup(['0'] + d);
    LeadingZeroValue(d);
  }

  lemma LeadingZeroGroup(d: string)
    requires IsDigitGroup(d)
    ensures IsDigitGroup(['0'] + d)
  {
    var z := ['0'] + d;
    forall i | 0 <= i < |z| && z[i] == '_'
      ensures i + 1 < |z| && IsDigit(z[i + 1])
    {
      assert z[i] == d[i - 1];
    }
  }

  lemma {:induction false} LeadingZeroValue(d: string)
    requires DigitsOrUnderscores(d)
    ensures DigitsValue(['0'] + d) == DigitsValue(d)
  {
    var z := ['0'] + d;
    if d != [] {
      assert z[..|z| - 1] == ['0'] + d[..|d| - 1];
      LeadingZeroValue(d[..|d| - 1]);
    }
  }

  /** An empty or all-blank segment makes `int()` raise. */
  lemma BlankSegmentRejected(seg: string)
    requires forall i :: 0 <= i < |seg| ==> IsIntSpace(seg[i])
    ensures ParseInt(seg) == None
  {
    assert TrimStart(seg) == [];
  }

  /** A segment holding a character that no integer literal contains makes `int()` raise. */
  lemma ForeignCharacterRejected(seg: string, k: nat)
    requires k < |seg|
    requires !IsDigit(seg[k]) && seg[k] != '_' && seg[k] != '+' && seg[k] != '-' && !IsIntSpace(seg[k])
    ensures ParseInt(seg) == None
  {
    var a := TrimStart(seg);
    var t := TrimEnd(a);
    var off := |seg| - |a|;
    assert k >= off;
    assert a[k - off] == seg[k];
    assert k - off < |t|;
    assert t[k - off] == seg[k];
    if |t| > 0 && (t[0] == '+' || t[0] == '-') {
      assert k - off > 0;
      assert t[1..][k - off - 1] == seg[k];
      assert !DigitsOrUnderscores(t[1..]);
    } else {
      assert !DigitsOrUnderscores(t);
    }
  }

  /** The file, group, record and unit separators (U+001C..U+001F) are not
      stripped: a digit group padded with one on either side is refused. */
  lemma SeparatorPaddingRejected(d: string, c: char)
    requires IsDigitGroup(d) && '\U{1C}' <= c <= '\U{1F}'
    ensures ParseInt([c] + d) == None && ParseInt(d + [c]) == None
  {
    ForeignCharacterRejected([c] + d, 0);
    ForeignCharacterRejected(d + [c], |d|);
  }

  // ---------------------------------------------------------------------------
  // Version strings

  /** `list(map(int, parts))`: `None` as soon as one piece is refused. */
  function ParseSegments(parts: seq<string>): (r: Option<seq<int>>)
    ensures r.Some? ==> |r.value| == |parts|
  {
    if parts == [] then Some([])
    else
      var head := ParseInt(parts[0]);
      if head.None? then None
      else match ParseSegments(parts[1..])
        case None => None
        case Some(xs) => Some([head.value] + xs)
  }

  /** The list is produced exactly when `int()` accepts every piece. */
  lemma {:induction false} ParseSegmentsAccepts(parts: seq<string>)
    ensures ParseSegments(parts).Some? <==> forall i :: 0 <= i < |parts| ==> ParseInt(parts[i]).Some?
  {
    if parts != [] {
      var tail := parts[1..];
      ParseSegmentsAccepts(tail);
      if ParseInt(parts[0]).Some? && ParseSegments(tail).None? {
        var j :| 0 <= j < |tail| && ParseInt(tail[j]).None?;
        assert parts[j + 1] == tail[j];
      } else if ParseInt(parts[0]).Some? {
        forall i | 0 <= i < |parts|
          ensures ParseInt(parts[i]).Some?
        {
          if i > 0 {
            assert parts[i] == tail[i - 1];
          }
        }
      }
    }
  }

  /** A produced list holds each piece's value, in order. */
  lemma {:induction false} ParseSegmentsValues(parts: seq<string>)
    ensures ParseSegments(parts).Some? ==>
      forall i :: 0 <= i < |parts| ==> ParseInt(parts[i]) == Some(ParseSegments(parts).value[i])
  {
    if parts != [] && ParseSegments(parts).Some? {
      var tail := parts[1..];
      ParseSegmentsValues(tail);
      var r := ParseSegments(parts);
      var xs := ParseSegments(tail).value;
      assert r.value == [ParseInt(parts[0]).value] + xs;
      forall i | 0 <= i < |parts|
        ensures ParseInt(parts[i]) == Some(r.value[i])
      {
        if i > 0 {
          assert parts[i] == tail[i - 1];
        }
      }
    }
  }

  /** `list(map(int, s.split('.')))`. */
  function ParseVersion(s: string): (r: Option<seq<int>>)
    ensures r.Some? ==> |r.value| == |Split(s, '.')| >= 1
  {
    ParseSegments(Split(s, '.'))
  }

  /** The dotted spelling of a list of natural numbers, as a version file would hold it. */
  function Render(v: seq<nat>): string
    requires |v| >= 1
  {
    Join(Decimals(v), '.')
  }

  function Decimals(v: seq<nat>): (parts: seq<string>)
    ensures |parts| == |v|
    ensures forall i :: 0 <= i < |v| ==> parts[i] == Decimal(v[i])
  {
    if v == [] then [] else [Decimal(v[0])] + Decimals(v[1..])
  }

  lemma {:induction false} ParseDecimals(v: seq<nat>)
    ensures ParseSegments(Decimals(v)) == Some(v)
  {
    if v != [] {
      ParseIntDecimal(v[0]);
      ParseDecimals(v[1..]);
      assert Decimals(v)[1..] == Decimals(v[1..]);
      assert [v[0]] + v[1..] == v;
    }
  }

  /** Parsing a rendered version gives back its segments. */
  lemma RenderParse(v: seq<nat>)
    requires |v| >= 1
    ensures ParseVersion(Render(v)) == Some(v)
  {
    var parts := Decimals(v);
    forall i | 0 <= i < |parts| ensures '.' !in parts[i] {
      assert forall j :: 0 <= j < |parts[i]| ==> IsDigit(parts[i][j]);
    }
    SplitJoin(parts, '.');
    ParseDecimals(v);
  }

  // ---------------------------------------------------------------------------
  // Comparison

  /** The `zip` loop of `compare_versions`: -1 or 1 at the first pair that
      differs, 0 when the common prefix agrees. Extra trailing segments of the
      longer list are never looked at. */
  function CompareParts(a: seq<int>, b: seq<int>): (r: int)
    ensures -1 <= r <= 1
  {
    if a == [] || b == [] then 0
    else if a[0] < b[0] then -1
    else if a[0] > b[0] then 1
    else CompareParts(a[1..], b[1..])
  }

  /** `k` is the first index of the common prefix where the two lists differ. */
  ghost predicate FirstDifferenceAt(a: seq<int>, b: seq<int>, k: nat) {
    k < |a| && k < |b| && a[..k] == b[..k] && a[k] != b[k]
  }

  /** The result is 0 exactly when the common prefix agrees: segments past
      the shorter list are never looked at. */
  lemma {:induction false} CompareZeroIffPrefixAgrees(a: seq<int>, b: seq<int>)
    ensures var m := if |a| <= |b| then |a| else |b|;
      CompareParts(a, b) == 0 <==> a[..m] == b[..m]
  {
    var m := if |a| <= |b| then |a| else |b|;
    if a == [] || b == [] {
      assert a[..m] == [] == b[..m];
    } else if a[0] != b[0] {
      assert a[..m][0] != b[..m][0];
    } else {
      CompareZeroIffPrefixAgrees(a[1..], b[1..]);
      var m' := m - 1;
      assert m == m' + 1;
      assert a[..m] == [a[0]] + a[1..][..m'];
      assert b[..m] == [b[0]] + b[1..][..m'];
      if a[..m] == b[..m] {
        assert a[1..][..m'] == a[..m][1..];
        assert b[1..][..m'] == b[..m][1..];
      }
    }
  }

  /** At the first pair that differs, the result is -1 when the current
      segment is the smaller and 1 when it is the larger. */
  lemma {:induction false} CompareAtFirstDifference(a: seq<int>, b: seq<int>, k: nat)
    requires FirstDifferenceAt(a, b, k)
    ensures CompareParts(a, b) == (if a[k] < b[k] then -1 else 1)
  {
    if k > 0 {
      assert a[0] == a[..k][0] == b[..k][0] == b[0];
      assert a[1..][..k - 1] == a[..k][1..];
      assert b[1..][..k - 1] == b[..k][1..];
      CompareAtFirstDifference(a[1..], b[1..], k - 1);
    }
  }

  lemma {:induction false} CompareReflexive(a: seq<int>)
    ensures CompareParts(a, a) == 0
  {
    if a != [] {
      CompareReflexive(a[1..]);
    }
  }

  /** Swapping the arguments negates the result. */
  lemma {:induction false} CompareAntisymmetric(a: seq<int>, b: seq<int>)
    ensures CompareParts(b, a) == -CompareParts(a, b)
  {
    if a != [] && b != [] && a[0] == b[0] {
      CompareAntisymmetric(a[1..], b[1..]);
    }
  }

  /** Only the common prefix matters: a list compares equal to any extension of itself
      (so "1.1" and "1.1.5" compare equal). */
  lemma {:induction false} CompareIgnoresExtension(a: seq<int>, ext: seq<int>)
    ensures CompareParts(a, a + ext) == 0
    ensures CompareParts(a + ext, a) == 0
  {
    if a != [] {
      assert (a + ext)[1..] == a[1..] + ext;
      CompareIgnoresExtension(a[1..], ext);
    }
  }

  /** "Older than" is transitive. */
  lemma {:induction false} CompareLessTransitive(a: seq<int>, b: seq<int>, c: seq<int>)
    requires CompareParts(a, b) == -1 && CompareParts(b, c) == -1
    ensures CompareParts(a, c) == -1
  {
    if a[0] == b[0] && b[0] == c[0] {
      CompareLessTransitive(a[1..], b[1..], c[1..]);
    }
  }

  /** "Compares equal" is not transitive, because of the truncation:
      [1] ~ [1, 5] and [1] ~ [1, 3], yet [1, 5] is newer than [1, 3]. */
  lemma EqualityNotTransitive()
    ensures CompareParts([1], [1, 5]) == 0 && CompareParts([1], [1, 3]) == 0
    ensures CompareParts([1, 5], [1, 3]) == 1
  {
    assert [1, 5][1..] == [5] && [1, 3][1..] == [3];
  }

  /** `compare_versions(current, latest)` as a value: `None` where it raises. */
  function VersionOrder(current: string, latest: string): (r: Option<int>)
    ensures r.Some? ==> -1 <= r.value <= 1
  {
    var a := ParseVersion(current);
    var b := ParseVersion(latest);
    if a.Some? && b.Some? then Some(CompareParts(a.value, b.value)) else None
  }

  /** On two parsed versions, the result is the comparison of their segments. */
  lemma VersionOrderOfParsed(s: string, t: string, v: seq<int>, w: seq<int>)
    requires ParseVersion(s) == Some(v) && ParseVersion(t) == Some(w)
    ensures VersionOrder(s, t) == Some(CompareParts(v, w))
  {
  }

  /** A well-formed version compares equal to itself; a malformed one fails on either side. */
  lemma VersionOrderReflexive(s: string)
    ensures ParseVersion(s).Some? ==> VersionOrder(s, s) == Some(0)
    ensures ParseVersion(s).None? ==> forall t :: VersionOrder(s, t) == None && VersionOrder(t, s) == None
  {
    if ParseVersion(s).Some? {
      CompareReflexive(ParseVersion(s).value);
    }
  }

  /** Swapping the versions negates a successful result and keeps a failure. */
  lemma VersionOrderAntisymmetric(s: string, t: string)
    ensures VersionOrder(t, s).None? == VersionOrder(s, t).None?
    ensures VersionOrder(s, t).Some? ==> VersionOrder(t, s).value == -VersionOrder(s, t).value
  {
    if VersionOrder(s, t).Some? {
      CompareAntisymmetric(ParseVersion(s).value, ParseVersion(t).value);
    }
  }

  /** The same, for a string known to be spelled as `Render(v)`. */
  lemma ParseRendered(v: seq<nat>, s: string)
    requires |v| >= 1 && Render(v) == s
    ensures ParseVersion(s) == Some(v)
  {
    RenderParse(v);
  }

  /** Comparing two rendered versions compares their segments. */
  lemma VersionOrderOfRendered(v: seq<nat>, w: seq<nat>)
    requires |v| >= 1 && |w| >= 1
    ensures VersionOrder(Render(v), Render(w)) == Some(CompareParts(v, w))
  {
    RenderParse(v);
    RenderParse(w);
  }

  /** The spellings of the versions used below. */
  lemma RenderedSpellings()
    ensures Render([1, 1]) == "1.1" && Render([1, 2]) == "1.2" && Render([1, 0]) == "1.0"
  {
  }

  lemma MoreRenderedSpellings()
    ensures Render([2, 0]) == "2.0" && Render([1, 9]) == "1.9" && Render([1, 1, 5]) == "1.1.5"
  {
  }

  /** Documented outcomes, on the versions "1.1", "1.2", "2.0", "1.9", "1.1.5" and "1.0"
      (spelled as in RenderedSpellings): equal, older, newer, and "1.1.5" equal
      to "1.1" by truncation. */
  lemma DocumentedComparisons()
    ensures VersionOrder(Render([1, 1]), Render([1, 1])) == Some(0)
    ensures VersionOrder(Render([1, 1]), Render([1, 2])) == Some(-1)
    ensures VersionOrder(Render([2, 0]), Render([1, 9])) == Some(1)
    ensures VersionOrder(Render([1, 1]), Render([1, 1, 5])) == Some(0)
    ensures VersionOrder(Render([1, 1]), Render([1, 0])) == Some(1)
  {
    VersionOrderOfRendered([1, 1], [1, 1]);
    VersionOrderOfRendered([1, 1], [1, 2]);
    VersionOrderOfRendered([2, 0], [1, 9]);
    VersionOrderOfRendered([1, 1], [1, 1, 5]);
    VersionOrderOfRendered([1, 1], [1, 0]);
  }

  /** A version with an empty or blank segment ("", "1..1", "1.") is refused. */
  lemma BlankSegmentVersionRejected(s: string, k: nat)
    requires k < |Split(s, '.')|
    requires forall i :: 0 <= i < |Split(s, '.')[k]| ==> IsIntSpace(Split(s, '.')[k][i])
    ensures ParseVersion(s) == None
  {
    BlankSegmentRejected(Split(s, '.')[k]);
    ParseSegmentsAccepts(Split(s, '.'));
  }

  /** A version with a segment holding a letter or another foreign character ("1.x") is refused. */
  lemma ForeignCharacterVersionRejected(s: string, k: nat)
    requires k < |s|
    requires !IsDigit(s[k]) && s[k] != '_' && s[k] != '+' && s[k] != '-' && s[k] != '.' && !IsIntSpace(s[k])
    ensures ParseVersion(s) == None
  {
    var parts := Split(s, '.');
    JoinSplit(s, '.');
    var p, j := PieceHolding(parts, k);
    ForeignCharacterRejected(parts[p], j);
    ParseSegmentsAccepts(parts);
  }

  /** Position `k` of `Join(parts, '.')` that is not a separator lies at `parts[p][j]`. */
  lemma {:induction false} PieceHolding(parts: seq<string>, k: nat) returns (p: nat, j: nat)
    requires |parts| >= 1 && k < |Join(parts, '.')| && Join(parts, '.')[k] != '.'
    ensures p < |parts| && j < |parts[p]| && parts[p][j] == Join(parts, '.')[k]
  {
    if k < |parts[0]| {
      p, j := 0, k;
    } else {
      assert |parts| > 1;
      var rest := Join(parts[1..], '.');
      assert Join(parts, '.') == parts[0] + ['.'] + rest;
      assert k > |parts[0]|;
      assert Join(parts, '.')[k] == rest[k - |parts[0]| - 1];
      var p', j' := PieceHolding(parts[1..], k - |parts[0]| - 1);
      p, j := p' + 1, j';
    }
  }

  /** `compare_versions`: parses both strings, then walks the zipped pairs. */
  method CompareVersions(current: string, latest: string) returns (r: Option<int>)
    ensures r == VersionOrder(current, latest)
    ensures r.Some? ==> -1 <= r.value <= 1
  {
    var cur := ParseVersion(current);
    var lat := ParseVersion(latest);
    if cur.None? || lat.None? {
      return None;
    }
    var c := CompareZipped(cur.value, lat.value);
    return Some(c);
  }

  /** The `for cur, lat in zip(...)` loop with its early returns. */
  method CompareZipped(a: seq<int>, b: seq<int>) returns (r: int)
    ensures r == CompareParts(a, b)
  {
    var i := 0;
    while i < |a| && i < |b|
      invariant 0 <= i <= |a| && i <= |b|
      invariant CompareParts(a, b) == CompareParts(a[i..], b[i..])
    {
      assert a[i..][1..] == a[i + 1..] && b[i..][1..] == b[i + 1..];
      if a[i] < b[i] {
        return -1;
      } else if a[i] > b[i] {
        return 1;
      }
      i := i + 1;
    }
    return 0;
  }
}
