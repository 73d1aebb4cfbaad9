/** The comparator of descriptors (bee_version_compare.c).
    A version string is compared by a scan that walks both strings in lock-step, skipping
    leading zeros where two different digits meet, and then classifies the first
    mismatch; a matched `_` hands the rest to the extraversion compare, which ranks the
    keywords alpha < beta < rc < patch < anything else.  Each compare is a function here;
    the three loops of the C code are methods proved to compute those functions.  The
    field compares combine them as first-non-zero chains.  Every result is an `int`
    whose sign is the order; strcmp and strncmp give -1, 0 or 1 (see module CStrings). */
module Comparator {
  import opened CStrings
  import opened BeeTypes

  /*------------------------------------------------------------------------
     The version-string scan (_cmp_version_string)
   ------------------------------------------------------------------------*/

  /** The first offset at or after `i` that is not a '0'. */
  function SkipZeros(s: seq<char>, i: nat): (r: nat)
    requires i <= |s|
    ensures i <= r <= |s| && At(s, r) != '0'
    decreases |s| - i
  {
    if At(s, i) == '0' then SkipZeros(s, i + 1) else i
  }

  /** "skip leading zeros of numbers != 0": a run of '0' is skipped only when a digit
      follows it. */
  function SkipLeadingZeros(s: seq<char>, i: nat): (r: nat)
    requires i <= |s|
    ensures i <= r <= |s|
  {
    var c := SkipZeros(s, i);
    if IsDigit(At(s, c)) then c else i
  }

  /** The scan loop: from offsets `i` of `x` and `j` of `y`, the offsets at which the
      loop stops (a mismatch, the end of a string, or a `_` met on both sides). */
  function Scan(x: seq<char>, y: seq<char>, i: nat, j: nat): (r: (nat, nat))
    requires i <= |x| && j <= |y|
    ensures i <= r.0 <= |x| && j <= r.1 <= |y|
    decreases |x| - i
  {
    if At(x, i) != NUL && At(y, j) != NUL && At(x, i) == At(y, j) && At(x, i) != '_' then
      var a, b := i + 1, j + 1;
      if At(x, a) != At(y, b) && IsDigit(At(x, a)) && IsDigit(At(y, b)) then
        Scan(x, y, SkipLeadingZeros(x, a), SkipLeadingZeros(y, b))
      else
        Scan(x, y, a, b)
    else
      (i, j)
  }

  /** The rewind before atoll: both offsets step back together while the characters
      before both are digits, never past either start. */
  function Rewind(x: seq<char>, y: seq<char>, i: nat, j: nat): (r: (nat, nat))
    requires i <= |x| && j <= |y|
    ensures r.0 <= i && r.1 <= j && i - r.0 == j - r.1
    ensures r.0 > 0 && r.1 > 0 ==> !(IsDigit(x[r.0 - 1]) && IsDigit(y[r.1 - 1]))
  {
    if i > 0 && IsDigit(x[i - 1]) && j > 0 && IsDigit(y[j - 1]) then Rewind(x, y, i - 1, j - 1)
    else (i, j)
  }

  /** The value of a string of decimal digits. */
  function Value(ds: seq<char>): nat
  {
    if ds == [] then 0
    else
      var d := ds[|ds| - 1];
      Value(ds[..|ds| - 1]) * 10 + (if IsDigit(d) then d as int - '0' as int else 0)
  }

  /** The end of the run of digits that starts at `i`. */
  function DigitEnd(s: seq<char>, i: nat): (r: nat)
    requires i <= |s|
    ensures i <= r <= |s| && !IsDigit(At(s, r))
    decreases |s| - i
  {
    if i < |s| && IsDigit(s[i]) then DigitEnd(s, i + 1) else i
  }

  /** atoll at offset `i`, which the comparator only calls at a digit: the value of the
      run of digits there (unbounded; see the README on overflow). */
  function Atoll(s: seq<char>, i: nat): nat
    requires i <= |s|
  {
    Value(s[i..DigitEnd(s, i)])
  }

  /** The order _cmp_version_string gives two different characters met at offsets `i`
      and `j`: two digits by the values of their numbers, otherwise a digit beats
      anything, a letter beats anything but a digit (letters by code), and the end of a
      string loses to anything; two other characters give -1 whichever comes first. */
  function Mismatch(x: seq<char>, y: seq<char>, i: nat, j: nat): int
    requires i <= |x| && j <= |y|
  {
    var a, b := At(x, i), At(y, j);
    if IsDigit(a) then
      if IsDigit(b) then
        var (ri, rj) := Rewind(x, y, i, j);
        Sign(Atoll(x, ri) as int - Atoll(y, rj) as int)
      else 1
    else if IsAlpha(a) then
      if IsDigit(b) then -1
      else if IsAlpha(b) then (if a < b then -1 else 1)
      else 1
    else if b == NUL then 1
    else -1
  }

  /** What _cmp_version_string returns once its scan stopped at `i` and `j`. */
  function Decide(x: seq<char>, y: seq<char>, i: nat, j: nat): int
    requires i <= |x| && j <= |y|
    decreases |x| + |y|, 0
  {
    if At(x, i) == At(y, j) && At(x, i) == '_' then ExtraCmp(x[i + 1..], y[j + 1..])
    else if At(x, i) == At(y, j) then 0
    else Mismatch(x, y, i, j)
  }

  /** _cmp_version_string. */
  function VersionCmp(x: seq<char>, y: seq<char>): int
    decreases |x| + |y|, 1
  {
    var (i, j) := Scan(x, y, 0, 0);
    Decide(x, y, i, j)
  }

  /*------------------------------------------------------------------------
     The extraversion compare (_get_and_skip_extraversion, _cmp_extraversion_string)
   ------------------------------------------------------------------------*/

  // Priorities of the keyword table (EXTRA_*); EXTRA_UNKNOWN and EXTRA_NONE are unused.
  const EXTRA_ALPHA: nat := 1
  const EXTRA_BETA: nat := 2
  const EXTRA_RC: nat := 3
  const EXTRA_PATCH: nat := 5
  const EXTRA_ANY: nat := 6

  /** A row of the keyword table (`struct extra_version`); the last row has no keyword. */
  datatype ExtraVersion = ExtraVersion(keyword: Option<seq<char>>, priority: nat, length: nat)

  const EXTRA_TABLE: seq<ExtraVersion> := [
    ExtraVersion(Some("alpha"), EXTRA_ALPHA, 5),
    ExtraVersion(Some("a"), EXTRA_ALPHA, 1),
    ExtraVersion(Some("beta"), EXTRA_BETA, 4),
    ExtraVersion(Some("b"), EXTRA_BETA, 1),
    ExtraVersion(Some("rc"), EXTRA_RC, 2),
    ExtraVersion(Some("cr"), EXTRA_RC, 2),
    ExtraVersion(Some("patch"), EXTRA_PATCH, 5),
    ExtraVersion(Some("p"), EXTRA_PATCH, 1),
    ExtraVersion(None, EXTRA_ANY, 0)]

  /** Every row's length is its keyword's, and only the last row has none. */
  lemma TableShape(e: nat)
    requires e < |EXTRA_TABLE|
    ensures EXTRA_TABLE[e].keyword.Some? <==> e < |EXTRA_TABLE| - 1
    ensures EXTRA_TABLE[e].keyword.Some? ==> |EXTRA_TABLE[e].keyword.value| == EXTRA_TABLE[e].length
    ensures EXTRA_TABLE[e].keyword.None? ==> EXTRA_TABLE[e].length == 0
  {
  }

  /** `strncmp(keyword, p, length) == 0` for a row whose length is its keyword's: `p`
      starts with the keyword. */
  predicate StartsWith(s: seq<char>, keyword: seq<char>)
  {
    |keyword| <= |s| && s[..|keyword|] == keyword
  }

  /** The table walk from row `e`: the priority and length of the first row whose keyword
      starts `s`, or of the last row. */
  function KeywordFrom(s: seq<char>, e: nat): (r: (nat, nat))
    requires e < |EXTRA_TABLE|
    ensures r.1 <= |s| && r.1 <= 5
    decreases |EXTRA_TABLE| - e
  {
    TableShape(e);
    var ev := EXTRA_TABLE[e];
    match ev.keyword
    case None => (ev.priority, ev.length)
    case Some(kw) =>
      if !StartsWith(s, kw) then KeywordFrom(s, e + 1)
      else (ev.priority, ev.length)
  }

  /** _get_and_skip_extraversion: the priority of the keyword `s` starts with, and how
      many characters it skips. */
  function Keyword(s: seq<char>): (r: (nat, nat))
    ensures r.1 <= |s|
  {
    KeywordFrom(s, 0)
  }

  /** The length of the common prefix from `k`, as the first loop of
      _cmp_extraversion_string finds it (no stop at `_` here). */
  function CommonPrefix(x: seq<char>, y: seq<char>, k: nat): (r: nat)
    requires k <= |x| && k <= |y|
    ensures k <= r <= |x| && r <= |y|
    ensures At(x, r) == NUL || At(y, r) == NUL || At(x, r) != At(y, r)
    decreases |x| - k
  {
    if At(x, k) != NUL && At(y, k) != NUL && At(x, k) == At(y, k) then CommonPrefix(x, y, k + 1)
    else k
  }

  /** The start of the run of letters that ends at `k`. */
  function RewindAlpha(x: seq<char>, k: nat): (r: nat)
    requires k <= |x|
    ensures r <= k && (r > 0 ==> !IsAlpha(x[r - 1]))
  {
    if k > 0 && IsAlpha(x[k - 1]) then RewindAlpha(x, k - 1) else k
  }

  /** The tail of _cmp_extraversion_string at the start of a keyword: the priority
      difference, or on equal priorities the version compare of what follows the keywords. */
  function KeywordCmp(x: seq<char>, y: seq<char>): int
    decreases |x| + |y|, 2
  {
    var (i, li) := Keyword(x);
    var (j, lj) := Keyword(y);
    if i != j then i - j else VersionCmp(x[li..], y[lj..])
  }

  /** _cmp_extraversion_string. */
  function ExtraCmp(x: seq<char>, y: seq<char>): int
    decreases |x| + |y|, 3
  {
    var k := CommonPrefix(x, y, 0);
    if IsAlpha(At(x, k)) && IsAlpha(At(y, k)) then
      var a := RewindAlpha(x, k);
      if a > 0 && x[a - 1] != '_' then VersionCmp(x[a..], y[a..])
      else KeywordCmp(x[a..], y[a..])
    else
      VersionCmp(x[k..], y[k..])
  }

  /*------------------------------------------------------------------------
     The loops of the C code
   ------------------------------------------------------------------------*/

  /** The loop `for (c = p; *c == '0'; c++);` of _cmp_version_string. */
  method PastZeros(s: seq<char>, p: nat) returns (c: nat)
    requires p <= |s|
    ensures c == SkipZeros(s, p)
  {
    c := p;
    while At(s, c) == '0'
      invariant p <= c <= |s| && SkipZeros(s, c) == SkipZeros(s, p)
      decreases |s| - c
    {
      c := c + 1;
    }
  }

  /** The scan loop of _cmp_version_string: walk both strings while they agree, up to
      the end or a `_`, skipping leading zeros where two different digits meet. */
  method ScanVersions(v1: seq<char>, v2: seq<char>) returns (a: nat, b: nat)
    ensures a <= |v1| && b <= |v2|
    ensures (a, b) == Scan(v1, v2, 0, 0)
  {
    a, b := 0, 0;
    while At(v1, a) != NUL && At(v2, b) != NUL && At(v1, a) == At(v2, b) && At(v1, a) != '_'
      invariant a <= |v1| && b <= |v2|
      invariant Scan(v1, v2, a, b) == Scan(v1, v2, 0, 0)
      decreases |v1| - a
    {
      a, b := a + 1, b + 1;
      if At(v1, a) == At(v2, b) {
        continue;
      }
      // skip leading zeros of numbers != 0
      if IsDigit(At(v1, a)) && IsDigit(At(v2, b)) {
        var c := PastZeros(v1, a);
        if IsDigit(At(v1, c)) {
          a := c;
        }
        c := PastZeros(v2, b);
        if IsDigit(At(v2, c)) {
          b := c;
        }
      }
    }
  }

  /** _cmp_version_string: the scan, then a `_` on both sides hands over to the
      extraversion compare, the end of both gives 0, and a mismatch is classified. */
  method CmpVersionString(v1: seq<char>, v2: seq<char>) returns (r: int)
    ensures r == VersionCmp(v1, v2)
    decreases |v1| + |v2|, 1
  {
    var a, b := ScanVersions(v1, v2);
    r := CmpScanned(v1, v2, a, b);
  }

  /** The rest of _cmp_version_string once its scan loop stopped at `a` and `b`. */
  method CmpScanned(v1: seq<char>, v2: seq<char>, a: nat, b: nat) returns (r: int)
    requires a <= |v1| && b <= |v2|
    ensures r == Decide(v1, v2, a, b)
    decreases |v1| + |v2|, 0
  {
    if At(v1, a) == At(v2, b) && At(v1, a) == '_' {
      r := CmpExtraversionString(v1[a + 1..], v2[b + 1..]);
    } else if At(v1, a) == At(v2, b) {
      r := 0;
    } else {
      r := CmpAtMismatch(v1, v2, a, b);
    }
  }

  /** The end of _cmp_version_string, once the scan stopped at two different characters:
      the rewind and atoll for two digits, the character classes otherwise. */
  method CmpAtMismatch(v1: seq<char>, v2: seq<char>, a: nat, b: nat) returns (r: int)
    requires a <= |v1| && b <= |v2|
    ensures r == Mismatch(v1, v2, a, b)
  {
    if IsDigit(At(v1, a)) {
      if IsDigit(At(v2, b)) {
        // rewind both to the first digit of their numbers
        var a': nat, b': nat := a, b;
        while a' > 0 && IsDigit(v1[a' - 1]) && b' > 0 && IsDigit(v2[b' - 1])
          invariant a' <= a && b' <= b && Rewind(v1, v2, a', b') == Rewind(v1, v2, a, b)
        {
          a', b' := a' - 1, b' - 1;
        }
        var i: int := Atoll(v1, a');
        var j: int := Atoll(v2, b');
        if i < j {
          r := -1;
        } else if i > j {
          r := 1;
        } else {
          // equal numbers, different strings: leading zeros
          r := 0;
        }
      } else {
        r := 1;
      }
    } else if IsAlpha(At(v1, a)) {
      if IsDigit(At(v2, b)) {
        r := -1;
      } else if IsAlpha(At(v2, b)) {
        r := if At(v1, a) < At(v2, b) then -1 else 1;
      } else {
        r := 1;
      }
    } else if At(v2, b) == NUL {
      r := 1;
    } else {
      r := -1;
    }
  }

  /** _get_and_skip_extraversion: the walk down the keyword table; the C function
      advances its string by the returned `skip`. */
  method GetAndSkipExtraversion(s: seq<char>) returns (priority: nat, skip: nat)
    ensures (priority, skip) == Keyword(s)
  {
    var e := 0;
    TableShape(e);
    while EXTRA_TABLE[e].keyword.Some? && !StartsWith(s, EXTRA_TABLE[e].keyword.value)
      invariant e < |EXTRA_TABLE| && KeywordFrom(s, e) == Keyword(s)
      decreases |EXTRA_TABLE| - e
    {
      TableShape(e);
      e := e + 1;
    }
    priority, skip := EXTRA_TABLE[e].priority, EXTRA_TABLE[e].length;
  }

  /** The first loop of _cmp_extraversion_string: the two pointers advance together
      while both strings agree. */
  method SkipCommon(v1: seq<char>, v2: seq<char>) returns (k: nat)
    ensures k == CommonPrefix(v1, v2, 0)
  {
    k := 0;
    while At(v1, k) != NUL && At(v2, k) != NUL && At(v1, k) == At(v2, k)
      invariant k <= |v1| && k <= |v2|
      invariant CommonPrefix(v1, v2, k) == CommonPrefix(v1, v2, 0)
      decreases |v1| - k
    {
      k := k + 1;
    }
  }

  /** The rewind of _cmp_extraversion_string: back to the start of the letters. */
  method RewindLetters(v1: seq<char>, k: nat) returns (a: nat)
    requires k <= |v1|
    ensures a == RewindAlpha(v1, k)
  {
    a := k;
    while a > 0 && IsAlpha(v1[a - 1])
      invariant a <= k && RewindAlpha(v1, a) == RewindAlpha(v1, k)
    {
      a := a - 1;
    }
  }

  /** _cmp_extraversion_string: the common prefix, the rewind to the start of the
      letters there, the keyword priorities, then the version compare of the rest. The
      two pointers of the C code always sit at the same offset, held here in one. */
  method CmpExtraversionString(v1: seq<char>, v2: seq<char>) returns (r: int)
    ensures r == ExtraCmp(v1, v2)
    decreases |v1| + |v2|, 3
  {
    var a := SkipCommon(v1, v2);
    if IsAlpha(At(v1, a)) && IsAlpha(At(v2, a)) {
      a := RewindLetters(v1, a);
      // fall back to the version compare when not at ^<extra> or _<extra>
      if a > 0 && v1[a - 1] != '_' {
        r := CmpVersionString(v1[a..], v2[a..]);
      } else {
        r := CmpKeywords(v1[a..], v2[a..]);
      }
    } else {
      r := CmpVersionString(v1[a..], v2[a..]);
    }
  }

  /** The end of _cmp_extraversion_string at the start of a keyword: both keywords are
      looked up and skipped, then their priorities or the rest decide. */
  method CmpKeywords(v1: seq<char>, v2: seq<char>) returns (r: int)
    ensures r == KeywordCmp(v1, v2)
    decreases |v1| + |v2|, 2
  {
    var i, li := GetAndSkipExtraversion(v1);
    var j, lj := GetAndSkipExtraversion(v2);
    if i != j {
      r := i as int - j as int;
    } else {
      r := CmpVersionString(v1[li..], v2[lj..]);
    }
  }

  /*------------------------------------------------------------------------
     The field compares (_cmp_pkg*, bee_version_compare*)
   ------------------------------------------------------------------------*/

  /** `versionepoch`: the record has no such field, so it is always the empty string. */
  const VERSION_EPOCH: seq<char> := []

  /** The length of a name up to its first ':'. */
  function NameLength(n: seq<char>): (r: nat)
    ensures r <= |n| && ':' !in n[..r]
    ensures r < |n| ==> n[r] == ':'
  {
    match StrChr(n, ':')
    case Some(k) => k
    case None => |n|
  }

  /** _cmp_pkgname: strncmp up to the shorter pre-':' length, then a ':' there sorts
      before any other character, then strcmp of the rest. */
  function CmpPkgName(a: Descriptor, b: Descriptor): int
  {
    var na, nb := a.name, b.name;
    var len := Min(NameLength(na), NameLength(nb));
    var res := StrNCmp(na, nb, len);
    if res != 0 then res
    else if At(na, len) == ':' && At(nb, len) != NUL && At(nb, len) != ':' then -1
    else if At(nb, len) == ':' && At(na, len) != NUL && At(na, len) != ':' then 1
    else StrCmp(na[len..], nb[len..])
  }

  /** _cmp_pkgfullname: name, then extraname. */
  function CmpPkgFullName(a: Descriptor, b: Descriptor): int
  {
    var res := CmpPkgName(a, b);
    if res != 0 then res else StrCmp(a.extraname, b.extraname)
  }

  /** _cmp_pkgfullversion: epoch, version, then extraversion. */
  function CmpPkgFullVersion(a: Descriptor, b: Descriptor): int
  {
    var epoch := VersionCmp(VERSION_EPOCH, VERSION_EPOCH);
    if epoch != 0 then epoch
    else
      var res := VersionCmp(a.version, b.version);
      if res != 0 then res else ExtraCmp(a.extraversion, b.extraversion)
  }

  /** _cmp_pkgfullpkg: full name, full version, then revision. */
  function CmpPkgFullPkg(a: Descriptor, b: Descriptor): int
  {
    var res := CmpPkgFullName(a, b);
    if res != 0 then res
    else
      var v := CmpPkgFullVersion(a, b);
      if v != 0 then v else VersionCmp(a.revision, b.revision)
  }

  /** _cmp_pkgother: prefix, arch, then suffix. */
  function CmpPkgOther(a: Descriptor, b: Descriptor): int
  {
    var res := StrCmp(a.prefix, b.prefix);
    if res != 0 then res
    else
      var arch := StrCmp(a.arch, b.arch);
      if arch != 0 then arch else StrCmp(a.suffix, b.suffix)
  }

  /** bee_version_compare_pkgfullname. */
  function ComparePkgFullName(a: Descriptor, b: Descriptor): int
  {
    CmpPkgFullName(a, b)
  }

  /** bee_version_compare. */
  function Compare(a: Descriptor, b: Descriptor): int
  {
    var res := CmpPkgFullPkg(a, b);
    if res != 0 then res else CmpPkgOther(a, b)
  }
}
