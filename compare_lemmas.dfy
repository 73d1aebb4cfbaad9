/** What the comparator promises, stated against independent definitions: the first
    non-zero of the nine field compares, the class ranking of a mismatch, numeric order of
    digit runs whose first digits differ, the keyword priorities, the hand-over at `_`, and
    the quirks the code has (zero skipping inside numbers, no antisymmetry on punctuation). */
module ComparatorProperties {
  import opened CStrings
  import opened BeeTypes
  import opened Comparator

  /*------------------------------------------------------------------------
     strcmp
   ------------------------------------------------------------------------*/

  /** strcmp with its arguments swapped gives the opposite sign. */
  lemma {:induction false} StrCmpAntisymmetric(a: seq<char>, b: seq<char>)
    ensures StrCmp(a, b) == -StrCmp(b, a)
    decreases |a|
  {
    if |a| > 0 && |b| > 0 && a[0] == b[0] {
      StrCmpAntisymmetric(a[1..], b[1..]);
    }
  }

  /** strcmp decides on the first `n` characters unless they agree, and then on the rest. */
  lemma {:induction false} StrCmpSplit(a: seq<char>, b: seq<char>, n: nat)
    requires n <= |a| && n <= |b|
    ensures StrCmp(a, b) == if a[..n] != b[..n] then StrCmp(a[..n], b[..n]) else StrCmp(a[n..], b[n..])
    decreases n
  {
    if n > 0 {
      assert a[..n][0] == a[0] && b[..n][0] == b[0];
      assert a[..n][1..] == a[1..][..n - 1] && b[..n][1..] == b[1..][..n - 1];
      assert a[n..] == a[1..][n - 1..] && b[n..] == b[1..][n - 1..];
      StrCmpSplit(a[1..], b[1..], n - 1);
      if a[0] == b[0] {
        assert a[..n] == b[..n] <==> a[1..][..n - 1] == b[1..][..n - 1] by {
          assert a[..n] == [a[0]] + a[1..][..n - 1] && b[..n] == [b[0]] + b[1..][..n - 1];
        }
      }
    }
  }

  /*------------------------------------------------------------------------
     The name rule (_cmp_pkgname)
   ------------------------------------------------------------------------*/

  /** Names without ':' compare as plain strcmp. */
  lemma NameWithoutColon(a: Descriptor, b: Descriptor)
    requires ':' !in a.name && ':' !in b.name
    ensures CmpPkgName(a, b) == StrCmp(a.name, b.name)
  {
    var na, nb := a.name, b.name;
    assert NameLength(na) == |na| && NameLength(nb) == |nb|;
    var len := Min(|na|, |nb|);
    assert na[..Min(len, |na|)] == na[..len] && nb[..Min(len, |nb|)] == nb[..len];
    StrCmpSplit(na, nb, len);
    if na[..len] == nb[..len] {
      assert At(na, len) != ':' && At(nb, len) != ':' by {
        if len < |na| { assert na[len] in na; }
        if len < |nb| { assert nb[len] in nb; }
      }
    }
  }

  /** A ':' where the other name has any other character sorts first, even before
      characters below ':' in code order. */
  lemma ColonSortsFirst(n: seq<char>, t: seq<char>, c: char, u: seq<char>, a: Descriptor, b: Descriptor)
    requires ':' !in n && c != ':' && c != NUL
    requires a.name == n + [':'] + t && b.name == n + [c] + u
    ensures CmpPkgName(a, b) == -1 && CmpPkgName(b, a) == 1
  {
    assert a.name[|n|] == ':' && a.name[..|n|] == n;
    assert forall j :: 0 <= j < |n| ==> a.name[j] != ':' by {
      forall j | 0 <= j < |n| ensures a.name[j] != ':' { assert a.name[j] == n[j]; }
    }
    assert NameLength(a.name) == |n|;
    assert forall j :: 0 <= j <= |n| ==> b.name[j] != ':' by {
      forall j | 0 <= j <= |n| ensures b.name[j] != ':' {
        if j < |n| { assert b.name[j] == n[j]; } else { assert b.name[j] == c; }
      }
    }
    assert NameLength(b.name) > |n|;
    assert b.name[..|n|] == n && b.name[|n|] == c;
    assert Min(NameLength(a.name), NameLength(b.name)) == |n|;
  }

  /** Swapping the descriptors flips the name compare: the two ':' rules mirror each other. */
  lemma NameAntisymmetric(a: Descriptor, b: Descriptor)
    ensures CmpPkgName(a, b) == -CmpPkgName(b, a)
  {
    var len := Min(NameLength(a.name), NameLength(b.name));
    assert len == Min(NameLength(b.name), NameLength(a.name));
    StrCmpAntisymmetric(a.name[..Min(len, |a.name|)], b.name[..Min(len, |b.name|)]);
    StrCmpAntisymmetric(a.name[len..], b.name[len..]);
  }

  /** The name-only compare is antisymmetric. */
  lemma FullNameAntisymmetric(a: Descriptor, b: Descriptor)
    ensures ComparePkgFullName(a, b) == -ComparePkgFullName(b, a)
  {
    NameAntisymmetric(a, b);
    StrCmpAntisymmetric(a.extraname, b.extraname);
  }

  /*------------------------------------------------------------------------
     Field precedence (bee_version_compare)
   ------------------------------------------------------------------------*/

  /** The first non-zero entry, 0 when there is none. */
  function FirstNonZero(rs: seq<int>): (r: int)
    ensures r != 0 ==> r in rs
    ensures (forall k :: 0 <= k < |rs| ==> rs[k] == 0) <==> r == 0
  {
    if rs == [] then 0
    else if rs[0] != 0 then rs[0]
    else
      var r := FirstNonZero(rs[1..]);
      assert forall k :: 1 <= k < |rs| ==> rs[k] == rs[1..][k - 1];
      r
  }

  /** The nine field compares in order of precedence: name, extraname, versionepoch,
      version, extraversion, revision, prefix, arch, suffix. */
  function FieldResults(a: Descriptor, b: Descriptor): seq<int>
  {
    [CmpPkgName(a, b), StrCmp(a.extraname, b.extraname),
     VersionCmp(VERSION_EPOCH, VERSION_EPOCH),
     VersionCmp(a.version, b.version), ExtraCmp(a.extraversion, b.extraversion),
     VersionCmp(a.revision, b.revision),
     StrCmp(a.prefix, b.prefix), StrCmp(a.arch, b.arch), StrCmp(a.suffix, b.suffix)]
  }

  /** One step of FirstNonZero at position `k`. */
  lemma FirstNonZeroAt(rs: seq<int>, k: nat)
    requires k < |rs|
    ensures FirstNonZero(rs[k..]) == if rs[k] != 0 then rs[k] else FirstNonZero(rs[k + 1..])
  {
    assert rs[k..][1..] == rs[k + 1..];
  }

  /** bee_version_compare is the first non-zero field compare. */
  lemma CompareIsFirstNonZero(a: Descriptor, b: Descriptor)
    ensures Compare(a, b) == FirstNonZero(FieldResults(a, b))
  {
    var rs := FieldResults(a, b);
    assert rs[9..] == [] && rs[0..] == rs;
    FirstNonZeroAt(rs, 8);
    FirstNonZeroAt(rs, 7);
    FirstNonZeroAt(rs, 6);
    FirstNonZeroAt(rs, 5);
    FirstNonZeroAt(rs, 4);
    FirstNonZeroAt(rs, 3);
    FirstNonZeroAt(rs, 2);
    FirstNonZeroAt(rs, 1);
    FirstNonZeroAt(rs, 0);
  }

  /** The name-only compare is the first two fields, so whenever it is non-zero the
      full compare agrees with it. */
  lemma FullNameDecides(a: Descriptor, b: Descriptor)
    ensures ComparePkgFullName(a, b) == FirstNonZero(FieldResults(a, b)[..2])
    ensures ComparePkgFullName(a, b) != 0 ==> Compare(a, b) == ComparePkgFullName(a, b)
  {
    var rs := FieldResults(a, b)[..2];
    assert rs[2..] == [] && rs[0..] == rs;
    FirstNonZeroAt(rs, 1);
    FirstNonZeroAt(rs, 0);
    CompareIsFirstNonZero(a, b);
  }

  /*------------------------------------------------------------------------
     Identical operands compare 0
   ------------------------------------------------------------------------*/

  /** Scanning a string against itself stops, on both sides at once, at its end or at a `_`. */
  lemma {:induction false} ScanSelf(x: seq<char>, i: nat)
    requires i <= |x|
    ensures Scan(x, x, i, i).0 == Scan(x, x, i, i).1
    ensures At(x, Scan(x, x, i, i).0) == NUL || At(x, Scan(x, x, i, i).0) == '_'
    decreases |x| - i
  {
    if At(x, i) != NUL && At(x, i) != '_' {
      ScanSelf(x, i + 1);
    }
  }

  /** An extraversion compares 0 with itself. */
  lemma ExtraSelf(z: seq<char>)
    ensures ExtraCmp(z, z) == 0
  {
    var k := CommonPrefix(z, z, 0);
    assert At(z[k..], 0) == NUL;
    assert ExtraCmp(z, z) == VersionCmp(z[k..], z[k..]);
    assert Scan(z[k..], z[k..], 0, 0) == (0, 0);
    assert VersionCmp(z[k..], z[k..]) == Decide(z[k..], z[k..], 0, 0);
  }

  /** A version compares 0 with itself. */
  lemma VersionSelf(x: seq<char>)
    ensures VersionCmp(x, x) == 0
  {
    ScanSelf(x, 0);
    var (i, j) := Scan(x, x, 0, 0);
    if At(x, i) == '_' {
      ExtraSelf(x[i + 1..]);
    }
  }

  /** Identical descriptors compare 0. */
  lemma CompareSelf(d: Descriptor)
    ensures CmpPkgName(d, d) == 0 && ComparePkgFullName(d, d) == 0 && Compare(d, d) == 0
  {
    VersionSelf(VERSION_EPOCH);
    VersionSelf(d.version);
    ExtraSelf(d.extraversion);
    VersionSelf(d.revision);
  }

  /*------------------------------------------------------------------------
     The first mismatch (_cmp_version_string)
   ------------------------------------------------------------------------*/

  /** `x` and `y` agree before `k` on characters that are neither the terminator nor `_`. */
  predicate SharedBefore(x: seq<char>, y: seq<char>, k: nat)
  {
    k <= |x| && k <= |y| && x[..k] == y[..k] && NUL !in x[..k] && '_' !in x[..k]
  }

  /** The scan stops at `k`: the characters there differ (and are not two digits one of
      which is '0', where zero skipping would move on), or they are both the end or `_`. */
  predicate StopsAt(x: seq<char>, y: seq<char>, k: nat)
  {
    if At(x, k) != At(y, k) then
      !(IsDigit(At(x, k)) && IsDigit(At(y, k)) && (At(x, k) == '0' || At(y, k) == '0'))
    else At(x, k) == NUL || At(x, k) == '_'
  }

  /** Over a shared stretch without terminator or `_`, the scan walks both strings in
      lock-step and stops at its end. */
  lemma {:induction false} ScanTo(x: seq<char>, y: seq<char>, i: nat, k: nat)
    requires i <= k && SharedBefore(x, y, k) && StopsAt(x, y, k)
    ensures Scan(x, y, i, i) == (k, k)
    decreases k - i
  {
    if i < k {
      assert x[i] == x[..k][i] && y[i] == y[..k][i] && x[..k][i] in x[..k];
      assert At(x, i) == At(y, i) && At(x, i) != NUL && At(x, i) != '_';
      if i + 1 < k {
        assert x[i + 1] == x[..k][i + 1] && y[i + 1] == y[..k][i + 1];
      } else if At(x, k) != At(y, k) && IsDigit(At(x, k)) && IsDigit(At(y, k)) {
        assert SkipZeros(x, k) == k && SkipZeros(y, k) == k;
      }
      ScanTo(x, y, i + 1, k);
    }
  }

  /*------------------------------------------------------------------------
     Zero skipping (_cmp_version_string)
   ------------------------------------------------------------------------*/

  /** Over a shared stretch the scan walks to its last character without skipping. */
  lemma {:induction false} ScanAlong(x: seq<char>, y: seq<char>, i: nat, k: nat)
    requires i < k && SharedBefore(x, y, k)
    ensures Scan(x, y, i, i) == Scan(x, y, k - 1, k - 1)
    decreases k - i
  {
    if i < k - 1 {
      assert x[i] == x[..k][i] && y[i] == y[..k][i] && x[..k][i] in x[..k];
      assert x[i + 1] == x[..k][i + 1] && y[i + 1] == y[..k][i + 1];
      ScanAlong(x, y, i + 1, k);
    }
  }

  /** A run of `n` '0's at `k` followed by another digit is skipped whole. */
  lemma {:induction false} SkipZerosRun(x: seq<char>, k: nat, n: nat)
    requires k + n <= |x| && forall i :: k <= i < k + n ==> x[i] == '0'
    requires At(x, k + n) != '0'
    ensures SkipZeros(x, k) == k + n
    decreases n
  {
    if n > 0 {
      SkipZerosRun(x, k + 1, n - 1);
    }
  }

  /** After a shared stretch that ends before `k`, `x` has a run of `n` '0's and then a
      non-zero digit, and `y` has a non-zero digit at `k`. */
  ghost predicate ZeroRunAt(x: seq<char>, y: seq<char>, k: nat, n: nat)
  {
    0 < k && SharedBefore(x, y, k) &&
    0 < n && k + n <= |x| && (forall i :: k <= i < k + n ==> x[i] == '0') &&
    IsDigit(At(x, k + n)) && At(x, k + n) != '0' &&
    IsDigit(At(y, k)) && At(y, k) != '0'
  }

  /** The zero-skipping rule: after a shared stretch, where `x` has a run of `n` '0's and
      then a non-zero digit and `y` a non-zero digit, the scan goes on past the whole run
      of `x` and from the same place in `y`. */
  lemma {:induction false} ZeroRunSkipped(x: seq<char>, y: seq<char>, k: nat, n: nat)
    requires ZeroRunAt(x, y, k, n)
    ensures Scan(x, y, 0, 0) == Scan(x, y, k + n, k)
  {
    ScanAlong(x, y, 0, k);
    assert x[k - 1] == x[..k][k - 1] && y[k - 1] == y[..k][k - 1] && x[..k][k - 1] in x[..k];
    assert At(x, k) == '0';
    SkipZerosRun(x, k, n);
    assert SkipZeros(y, k) == k;
  }

  /** Where both strings go on alike, the scan stops at the same place in both, on the end
      or a `_`. */
  lemma {:induction false} ScanSame(x: seq<char>, y: seq<char>, i: nat, j: nat)
    requires i <= |x| && j <= |y| && x[i..] == y[j..]
    ensures var r := Scan(x, y, i, j);
            x[r.0..] == y[r.1..] && (At(x, r.0) == NUL || At(x, r.0) == '_')
    decreases |x| - i
  {
    assert At(x, i) == At(y, j) by {
      if i < |x| { assert x[i] == x[i..][0] && y[j] == y[j..][0]; }
    }
    if At(x, i) != NUL && At(x, i) != '_' {
      assert x[i + 1..] == x[i..][1..] && y[j + 1..] == y[j..][1..];
      assert At(x, i + 1) == At(y, j + 1) by {
        if i + 1 < |x| { assert x[i + 1] == x[i + 1..][0] && y[j + 1] == y[j + 1..][0]; }
      }
      ScanSame(x, y, i + 1, j + 1);
    }
  }

  /** Where both strings go on alike, the decision after the scan is 0. */
  lemma {:induction false} SameDecides(x: seq<char>, y: seq<char>, i: nat, j: nat)
    requires i <= |x| && j <= |y| && x[i..] == y[j..]
    ensures var r := Scan(x, y, i, j); Decide(x, y, r.0, r.1) == 0
  {
    ScanSame(x, y, i, j);
    var r := Scan(x, y, i, j);
    assert At(x, r.0) == At(y, r.1) by {
      if r.0 < |x| { assert x[r.0] == x[r.0..][0] && y[r.1] == y[r.1..][0]; }
    }
    if At(x, r.0) == '_' {
      assert x[r.0 + 1..] == x[r.0..][1..] && y[r.1 + 1..] == y[r.1..][1..];
      ExtraSelf(x[r.0 + 1..]);
    }
  }

  /** Helper: the stretch `p`, the zeros `z` and the number `q` laid out as `p + z + q` against
      `p + q`: a zero run for ZeroRunSkipped, and the same text after it on both sides. */
  lemma {:induction false} ZerosLayout(p: seq<char>, z: seq<char>, q: seq<char>)
    requires |p| > 0 && NUL !in p && '_' !in p
    requires |z| > 0 && forall c :: c in z ==> c == '0'
    requires |q| > 0 && '1' <= q[0] <= '9'
    ensures ZeroRunAt(p + z + q, p + q, |p|, |z|)
    ensures (p + z + q)[|p| + |z|..] == (p + q)[|p|..]
  {
    var x, y, k := p + z + q, p + q, |p|;
    assert x[..k] == p && y[..k] == p;
    forall i | k <= i < k + |z| ensures x[i] == '0' {
      assert x[i] == z[i - k] && z[i - k] in z;
    }
    assert At(x, k + |z|) == q[0] && At(y, k) == q[0];
    assert x[k + |z|..] == q && y[k..] == q;
  }

  /** A zero run that is followed by the same text as the other side compares equal. */
  lemma {:induction false} ZeroRunEqual(x: seq<char>, y: seq<char>, k: nat, n: nat)
    requires ZeroRunAt(x, y, k, n) && x[k + n..] == y[k..]
    ensures VersionCmp(x, y) == 0
  {
    ZeroRunSkipped(x, y, k, n);
    SameDecides(x, y, k + n, k);
    CmpFromScan(x, y, k + n, k);
  }

  /** Helper: the comparison is decided where a scan that the full one passes through
      stops. */
  lemma {:induction false} CmpFromScan(x: seq<char>, y: seq<char>, i: nat, j: nat)
    requires i <= |x| && j <= |y| && Scan(x, y, 0, 0) == Scan(x, y, i, j)
    ensures VersionCmp(x, y) == Decide(x, y, Scan(x, y, i, j).0, Scan(x, y, i, j).1)
  {
  }

  /** Leading zeros of a number that follows a shared stretch do not count: "1.007" and
      "1.7" compare equal, and so do "105" and "1005". */
  lemma {:induction false} ZerosIgnored(p: seq<char>, z: seq<char>, q: seq<char>)
    requires |p| > 0 && NUL !in p && '_' !in p
    requires |z| > 0 && forall c :: c in z ==> c == '0'
    requires |q| > 0 && '1' <= q[0] <= '9'
    ensures VersionCmp(p + z + q, p + q) == 0
  {
    ZerosLayout(p, z, q);
    ZeroRunEqual(p + z + q, p + q, |p|, |z|);
  }

  /** The class of a character at a mismatch: end < other < letter < digit. */
  function Rank(c: char): nat
  {
    if c == NUL then 0 else if IsDigit(c) then 3 else if IsAlpha(c) then 2 else 1
  }

  /** The order two different characters at the first mismatch give, when they are not
      both digits: by class, letters by code, and -1 for two other characters whichever
      comes first. */
  function ClassOrder(c: char, d: char): (r: int)
    requires c != d
    ensures r == -1 || r == 1
    ensures Rank(c) != Rank(d) ==> (r == 1 <==> Rank(c) > Rank(d))
  {
    if Rank(c) != Rank(d) then Sign(Rank(c) - Rank(d))
    else if Rank(c) == 2 then (if c < d then -1 else 1)
    else -1
  }

  /** The scan stops at the first mismatch `k`, where Mismatch decides. */
  lemma {:induction false} MismatchAt(x: seq<char>, y: seq<char>, k: nat)
    requires SharedBefore(x, y, k) && StopsAt(x, y, k) && At(x, k) != At(y, k)
    ensures VersionCmp(x, y) == Mismatch(x, y, k, k)
  {
    ScanTo(x, y, 0, k);
    assert VersionCmp(x, y) == Decide(x, y, k, k);
  }

  /** At a first mismatch that is not two digits, the character classes decide. */
  lemma MismatchByClass(x: seq<char>, y: seq<char>, k: nat)
    requires SharedBefore(x, y, k) && At(x, k) != At(y, k)
    requires !(IsDigit(At(x, k)) && IsDigit(At(y, k)))
    ensures VersionCmp(x, y) == ClassOrder(At(x, k), At(y, k))
  {
    MismatchAt(x, y, k);
  }

  /** Two different non-zero digits right after a shared stretch that does not end in a
      digit: the numbers starting there decide. */
  lemma NumbersAt(x: seq<char>, y: seq<char>, k: nat)
    requires SharedBefore(x, y, k) && (k == 0 || !IsDigit(x[k - 1]))
    requires At(x, k) != At(y, k) && IsDigit(At(x, k)) && IsDigit(At(y, k))
    requires At(x, k) != '0' && At(y, k) != '0'
    ensures VersionCmp(x, y) == Sign(Atoll(x, k) as int - Atoll(y, k) as int)
  {
    MismatchAt(x, y, k);
    assert Rewind(x, y, k, k) == (k, k);
  }

  /** Two distinct characters that are neither alphanumeric nor the end give -1 in both
      argument orders: the version compare is not antisymmetric. */
  lemma PunctuationNotAntisymmetric(x: seq<char>, y: seq<char>, k: nat)
    requires SharedBefore(x, y, k) && At(x, k) != At(y, k)
    requires Rank(At(x, k)) == 1 && Rank(At(y, k)) == 1
    ensures VersionCmp(x, y) == -1 && VersionCmp(y, x) == -1
  {
    MismatchByClass(x, y, k);
    assert SharedBefore(y, x, k);
    MismatchByClass(y, x, k);
  }

  /** Every character of `ds` is a digit. */
  predicate AllDigits(ds: seq<char>)
  {
    forall k :: 0 <= k < |ds| ==> IsDigit(ds[k])
  }

  /** The digit run that starts at `i` ends where the digits stop. */
  lemma {:induction false} DigitEndIs(s: seq<char>, i: nat, e: nat)
    requires i <= e <= |s| && AllDigits(s[i..e]) && !IsDigit(At(s, e))
    ensures DigitEnd(s, i) == e
    decreases e - i
  {
    if i < e {
      assert s[i] == s[i..e][0];
      assert s[i + 1..e] == s[i..e][1..];
      DigitEndIs(s, i + 1, e);
    }
  }

  /** NumbersAt for two runs of digits `m` and `n` read at offset `k`. */
  lemma NumbersOfRuns(x: seq<char>, y: seq<char>, k: nat, m: seq<char>, n: seq<char>)
    requires SharedBefore(x, y, k) && (k == 0 || !IsDigit(x[k - 1]))
    requires m != [] && n != [] && AllDigits(m) && AllDigits(n)
    requires m[0] != n[0] && m[0] != '0' && n[0] != '0'
    requires k + |m| <= |x| && x[k..k + |m|] == m && !IsDigit(At(x, k + |m|))
    requires k + |n| <= |y| && y[k..k + |n|] == n && !IsDigit(At(y, k + |n|))
    ensures VersionCmp(x, y) == Sign(Value(m) as int - Value(n) as int)
  {
    assert At(x, k) == m[0] && At(y, k) == n[0];
    NumbersAt(x, y, k);
    AtollRun(x, k, m);
    AtollRun(y, k, n);
  }

  /** atoll at the start of a run `m` of digits that the string spells at `k`. */
  lemma AtollRun(x: seq<char>, k: nat, m: seq<char>)
    requires AllDigits(m) && k + |m| <= |x| && x[k..k + |m|] == m && !IsDigit(At(x, k + |m|))
    ensures Atoll(x, k) == Value(m)
  {
    DigitEndIs(x, k, k + |m|);
  }

  /** Helper: where `p`, the run `m` and the rest `s` sit in `p + m + s`. */
  lemma LayoutAt(p: seq<char>, m: seq<char>, s: seq<char>)
    ensures var x := p + m + s;
            x[..|p|] == p && (|p| > 0 ==> x[|p| - 1] == p[|p| - 1]) &&
            x[|p|..|p| + |m|] == m && At(x, |p| + |m|) == At(s, 0)
  {
  }

  /** Over a shared run of digits that starts after a non-digit (or at the start), the
      lock-step rewind goes back to the start of the run. */
  lemma {:induction false} RewindOverDigits(x: seq<char>, y: seq<char>, a: nat, k: nat)
    requires a <= k <= |x| && k <= |y| && x[a..k] == y[a..k] && AllDigits(x[a..k])
    requires a == 0 || !IsDigit(x[a - 1])
    ensures Rewind(x, y, k, k) == (a, a)
    decreases k - a
  {
    if a < k {
      assert x[k - 1] == x[a..k][k - 1 - a] && y[k - 1] == y[a..k][k - 1 - a];
      assert x[a..k - 1] == x[a..k][..k - 1 - a] && y[a..k - 1] == y[a..k][..k - 1 - a];
      RewindOverDigits(x, y, a, k - 1);
    }
  }

  /** Digit runs `u` and `v` start at offset `a` of `x` and `y`, the strings agree up to `k`
      (digits from `a`), and first differ at `k` in digits that are not '0'. */
  ghost predicate RunsReady(x: seq<char>, y: seq<char>, a: nat, k: nat, u: seq<char>, v: seq<char>)
  {
    SharedBefore(x, y, k) && a <= k && AllDigits(x[a..k]) && (a == 0 || !IsDigit(x[a - 1])) &&
    DigitsDifferAt(x, y, k) && RunAt(x, a, u) && RunAt(y, a, v)
  }

  /** `x` and `y` differ at `k` in digits that are not '0'. */
  ghost predicate DigitsDifferAt(x: seq<char>, y: seq<char>, k: nat)
  {
    At(x, k) != At(y, k) && IsDigit(At(x, k)) && IsDigit(At(y, k)) &&
    At(x, k) != '0' && At(y, k) != '0'
  }

  /** The whole run of digits at offset `k` of `x` is `m`. */
  ghost predicate RunAt(x: seq<char>, k: nat, m: seq<char>)
  {
    AllDigits(m) && k + |m| <= |x| && x[k..k + |m|] == m && !IsDigit(At(x, k + |m|))
  }

  /** Digit runs `u` and `v` that start at offset `a` of both strings, share the digits
      up to `k` and first differ there (in digits that are not '0'), compare by value. */
  lemma {:induction false} RunsFromShared(x: seq<char>, y: seq<char>, a: nat, k: nat, u: seq<char>, v: seq<char>)
    requires RunsReady(x, y, a, k, u, v)
    ensures VersionCmp(x, y) == Sign(Value(u) as int - Value(v) as int)
  {
    MismatchAt(x, y, k);
    assert x[a..k] == x[..k][a..] && y[a..k] == y[..k][a..];
    RewindOverDigits(x, y, a, k);
    AtollRun(x, a, u);
    AtollRun(y, a, v);
  }

  /** Helper: two runs of digits joined are a run of digits. */
  lemma DigitsJoin(c: seq<char>, m: seq<char>)
    requires AllDigits(c) && AllDigits(m)
    ensures AllDigits(c + m)
  {
    assert forall i :: 0 <= i < |c + m| ==> (c + m)[i] == (if i < |c| then c[i] else m[i - |c|]);
  }

  /** Helper: a stretch without terminator or `_`, followed by digits, has neither. */
  lemma PlainThenDigits(p: seq<char>, c: seq<char>)
    requires NUL !in p && '_' !in p && AllDigits(c)
    ensures NUL !in p + c && '_' !in p + c
  {
    forall i | 0 <= i < |p + c|
      ensures (p + c)[i] != NUL && (p + c)[i] != '_'
    {
      if i < |p| {
        assert (p + c)[i] == p[i] && p[i] in p;
      } else {
        assert (p + c)[i] == c[i - |p|] && IsDigit(c[i - |p|]);
      }
    }
  }

  /** Helper: where the stretch `p`, the shared digits `c`, the rest `m` of the number and the
      tail `s` sit in `p + c + m + s`. */
  lemma NumberLayout(p: seq<char>, c: seq<char>, m: seq<char>, s: seq<char>)
    requires m != []
    ensures var x, a, k := p + c + m + s, |p|, |p| + |c|;
            x[..k] == p + c && x[a..k] == c && At(x, k) == m[0] &&
            x[a..a + |c + m|] == c + m && At(x, a + |c + m|) == At(s, 0) &&
            (a > 0 ==> x[a - 1] == p[a - 1])
  {
    var x := p + c + m + s;
    assert x == p + (c + m) + s;
    LayoutAt(p, c + m, s);
    LayoutAt(p + c, m, s);
  }

  /** Two numbers after the stretch `p`, which has no terminator or `_` and does not end in
      a digit: both start with the digits `c` and go on with the digit runs `m` and `n`,
      whose first digits differ and are not '0'; the tails `s` and `t` start with no digit. */
  ghost predicate NumbersShape(p: seq<char>, c: seq<char>, m: seq<char>, s: seq<char>, n: seq<char>, t: seq<char>)
  {
    NUL !in p && '_' !in p && (p == [] || !IsDigit(p[|p| - 1])) &&
    AllDigits(c) &&
    m != [] && n != [] && AllDigits(m) && AllDigits(n) &&
    m[0] != n[0] && m[0] != '0' && n[0] != '0' &&
    (s == [] || !IsDigit(s[0])) && (t == [] || !IsDigit(t[0]))
  }

  /** Helper: the layout of two numbers with shared leading digits `c` after the stretch `p` meets
      what RunsFromShared needs. */
  lemma {:induction false} SharedNumbersReady(p: seq<char>, c: seq<char>, m: seq<char>, s: seq<char>, n: seq<char>, t: seq<char>)
    requires NumbersShape(p, c, m, s, n, t)
    ensures RunsReady(p + c + m + s, p + c + n + t, |p|, |p| + |c|, c + m, c + n)
  {
    NumberLayout(p, c, m, s);
    NumberLayout(p, c, n, t);
    PlainThenDigits(p, c);
    DigitsJoin(c, m);
    DigitsJoin(c, n);
  }

  /** Numbers after a shared stretch that does not end in a digit compare by value, also
      when they share leading digits `c`: the first differing digits (neither '0') meet
      after `c`, and the rewind goes back over `c` to the start of both numbers.
      "1.2" < "1.10", "100" > "12" and "1.12" < "1.13". */
  lemma {:induction false} NumbersByValue(p: seq<char>, c: seq<char>, m: seq<char>, s: seq<char>, n: seq<char>, t: seq<char>)
    requires NumbersShape(p, c, m, s, n, t)
    ensures VersionCmp(p + c + m + s, p + c + n + t) == Sign(Value(c + m) as int - Value(c + n) as int)
  {
    SharedNumbersReady(p, c, m, s, n, t);
    RunsFromShared(p + c + m + s, p + c + n + t, |p|, |p| + |c|, c + m, c + n);
  }

  /** "1.12" < "1.13": the shared '1' of both numbers is rewound over. */
  lemma SharedDigitsRewound()
    ensures VersionCmp("1.12", "1.13") == -1
  {
    var p, c, m, n, e := "1.", "1", "2", "3", "";
    SharedDigitsShape();
    NumbersByValue(p, c, m, e, n, e);
    assert p + c + m + e == "1.12" && p + c + n + e == "1.13";
    assert c + m == "12" && c + n == "13";
    ValueCases();
  }

  /** Helper: "1.12" and "1.13" split as NumbersByValue needs. */
  lemma SharedDigitsShape()
    ensures NumbersShape("1.", "1", "2", "", "3", "")
  {
    var p, c, m, n := "1.", "1", "2", "3";
    assert AllDigits(c) && AllDigits(m) && AllDigits(n);
    assert !IsDigit(p[|p| - 1]) && NUL !in p && '_' !in p;
  }

  /** A `_` met on both sides after a shared stretch hands the rest to the extraversion
      compare. */
  lemma UnderscoreHandsOver(p: seq<char>, x: seq<char>, y: seq<char>)
    requires NUL !in p && '_' !in p
    ensures VersionCmp(p + ['_'] + x, p + ['_'] + y) == ExtraCmp(x, y)
  {
    var x', y' := p + ['_'] + x, p + ['_'] + y;
    var k := |p|;
    assert x'[..k] == p && y'[..k] == p && x'[k] == '_' && y'[k] == '_';
    ScanTo(x', y', 0, k);
    assert x'[k + 1..] == x && y'[k + 1..] == y;
  }

  /*------------------------------------------------------------------------
     The extraversion compare
   ------------------------------------------------------------------------*/

  /** An empty extraversion sorts before any non-empty one, and empty against empty is 0. */
  lemma EmptyExtraversionFirst(y: seq<char>)
    requires y != [] && y[0] != NUL
    ensures ExtraCmp([], y) == -1 && ExtraCmp(y, []) == 1 && ExtraCmp([], []) == 0
  {
    ExtraSelf([]);
    var e: seq<char> := [];
    assert CommonPrefix(e, y, 0) == 0 && CommonPrefix(y, e, 0) == 0;
    assert e[0..] == e && y[0..] == y;
    assert ExtraCmp(e, y) == VersionCmp(e, y) && ExtraCmp(y, e) == VersionCmp(y, e);
    assert Scan(e, y, 0, 0) == (0, 0) && Scan(y, e, 0, 0) == (0, 0);
    assert VersionCmp(e, y) == Decide(e, y, 0, 0) && VersionCmp(y, e) == Decide(y, e, 0, 0);
  }

  /** The keyword table read by first letter: `a` starts alpha (1), `b` beta (2), `rc` and
      `cr` release candidates (3), `p` patch (5); anything else ranks 6. */
  function KeywordPriority(s: seq<char>): nat
  {
    if At(s, 0) == 'a' then 1
    else if At(s, 0) == 'b' then 2
    else if StartsWith(s, "rc") || StartsWith(s, "cr") then 3
    else if At(s, 0) == 'p' then 5
    else 6
  }

  /** How much of `s` the keyword covers: the long spelling when it is there, else the
      one letter, and nothing for an unknown word. */
  function KeywordLength(s: seq<char>): nat
  {
    if StartsWith(s, "alpha") then 5
    else if At(s, 0) == 'a' then 1
    else if StartsWith(s, "beta") then 4
    else if At(s, 0) == 'b' then 1
    else if StartsWith(s, "rc") || StartsWith(s, "cr") then 2
    else if StartsWith(s, "patch") then 5
    else if At(s, 0) == 'p' then 1
    else 0
  }

  /** The table walk of _get_and_skip_extraversion gives the priority and length above. */
  lemma KeywordIs(s: seq<char>)
    ensures Keyword(s) == (KeywordPriority(s), KeywordLength(s))
  {
    assert StartsWith(s, "a") <==> At(s, 0) == 'a';
    assert StartsWith(s, "b") <==> At(s, 0) == 'b';
    assert StartsWith(s, "p") <==> At(s, 0) == 'p';
    assert StartsWith(s, "alpha") ==> At(s, 0) == 'a';
    assert StartsWith(s, "beta") ==> At(s, 0) == 'b';
    assert StartsWith(s, "patch") ==> At(s, 0) == 'p';
  }

  /** The keyword rule: different priorities decide by their difference, equal ones by
      the version compare of what follows the keywords. */
  function KeywordOrder(x: seq<char>, y: seq<char>): int
  {
    var px, py := KeywordPriority(x), KeywordPriority(y);
    if px != py then px - py
    else VersionCmp(x[Min(KeywordLength(x), |x|)..], y[Min(KeywordLength(y), |y|)..])
  }

  /** Every character of `s` is a letter. */
  predicate AllLetters(s: seq<char>)
  {
    forall k :: 0 <= k < |s| ==> IsAlpha(s[k])
  }

  /** The first loop of _cmp_extraversion_string stops at the first difference. */
  lemma {:induction false} CommonPrefixIs(x: seq<char>, y: seq<char>, i: nat, k: nat)
    requires i <= k && k <= |x| && k <= |y| && x[..k] == y[..k] && NUL !in x[..k]
    requires At(x, k) != At(y, k)
    ensures CommonPrefix(x, y, i) == k
    decreases k - i
  {
    if i < k {
      assert x[i] == x[..k][i] && y[i] == y[..k][i] && x[..k][i] in x[..k];
      CommonPrefixIs(x, y, i + 1, k);
    }
  }

  /** Rewinding over a run of letters stops where the run starts. */
  lemma {:induction false} RewindAlphaIs(x: seq<char>, a: nat, k: nat)
    requires a <= k <= |x| && AllLetters(x[a..k]) && (a == 0 || !IsAlpha(x[a - 1]))
    ensures RewindAlpha(x, k) == a
    decreases k - a
  {
    if a < k {
      assert x[k - 1] == x[a..k][k - 1 - a];
      assert x[a..k - 1] == x[a..k][..k - 1 - a];
      RewindAlphaIs(x, a, k - 1);
    }
  }

  /** The extraversion rule at two different letters after a shared stretch: the run of
      letters reaching them is a keyword when it starts the string or follows a `_`, and
      otherwise the version compare takes over from it. */
  lemma {:induction false} ExtraAtLetters(x: seq<char>, y: seq<char>, k: nat, a: nat)
    requires k <= |x| && k <= |y| && x[..k] == y[..k] && NUL !in x[..k]
    requires At(x, k) != At(y, k) && IsAlpha(At(x, k)) && IsAlpha(At(y, k))
    requires a <= k && AllLetters(x[a..k]) && (a == 0 || !IsAlpha(x[a - 1]))
    ensures ExtraCmp(x, y) ==
              if a > 0 && x[a - 1] != '_' then VersionCmp(x[a..], y[a..])
              else KeywordOrder(x[a..], y[a..])
  {
    CommonPrefixIs(x, y, 0, k);
    RewindAlphaIs(x, a, k);
    if a == 0 || x[a - 1] == '_' {
      assert ExtraCmp(x, y) == KeywordCmp(x[a..], y[a..]);
      KeywordIs(x[a..]);
      KeywordIs(y[a..]);
    }
  }

  /** Away from two different letters, the extraversion compare is the version compare of
      what follows the shared stretch. */
  lemma ExtraElsewhere(x: seq<char>, y: seq<char>, k: nat)
    requires k <= |x| && k <= |y| && x[..k] == y[..k] && NUL !in x[..k]
    requires At(x, k) != At(y, k) && !(IsAlpha(At(x, k)) && IsAlpha(At(y, k)))
    ensures ExtraCmp(x, y) == VersionCmp(x[k..], y[k..])
  {
    CommonPrefixIs(x, y, 0, k);
  }

  /*------------------------------------------------------------------------
     The size of a result
   ------------------------------------------------------------------------*/

  /** Priorities run from 1 to 6. */
  lemma {:induction false} PriorityRange(s: seq<char>, e: nat)
    requires e < |EXTRA_TABLE|
    ensures 1 <= KeywordFrom(s, e).0 <= 6
    decreases |EXTRA_TABLE| - e
  {
    if EXTRA_TABLE[e].keyword.Some? && !StartsWith(s, EXTRA_TABLE[e].keyword.value) {
      PriorityRange(s, e + 1);
    }
  }

  /** A version compare gives -1, 0 or 1 unless an extraversion decides, and then a
      priority difference between -5 and 5. */
  lemma {:induction false} VersionRange(x: seq<char>, y: seq<char>)
    ensures -5 <= VersionCmp(x, y) <= 5
    ensures '_' !in x ==> -1 <= VersionCmp(x, y) <= 1
    decreases |x| + |y|, 1
  {
    var (i, j) := Scan(x, y, 0, 0);
    if At(x, i) == At(y, j) && At(x, i) == '_' {
      assert x[i] in x;
      ExtraRange(x[i + 1..], y[j + 1..]);
    }
  }

  /** A compare from the start of two keywords lies between -5 and 5: priorities run
      from 1 to 6. */
  lemma {:induction false} KeywordRange(x: seq<char>, y: seq<char>)
    ensures -5 <= KeywordCmp(x, y) <= 5
    decreases |x| + |y|, 2
  {
    PriorityRange(x, 0);
    PriorityRange(y, 0);
    var (i, li) := Keyword(x);
    var (j, lj) := Keyword(y);
    if i == j {
      VersionRange(x[li..], y[lj..]);
    }
  }

  /** An extraversion compare lies between -5 and 5. */
  lemma {:induction false} ExtraRange(x: seq<char>, y: seq<char>)
    ensures -5 <= ExtraCmp(x, y) <= 5
    decreases |x| + |y|, 3
  {
    var k := CommonPrefix(x, y, 0);
    if IsAlpha(At(x, k)) && IsAlpha(At(y, k)) {
      var a := RewindAlpha(x, k);
      if a > 0 && x[a - 1] != '_' {
        VersionRange(x[a..], y[a..]);
      } else {
        KeywordRange(x[a..], y[a..]);
      }
    } else {
      VersionRange(x[k..], y[k..]);
    }
  }

  /*------------------------------------------------------------------------
     Worked cases
   ------------------------------------------------------------------------*/

  /** The values of the numbers in the cases below. */
  lemma ValueCases()
    ensures Value("2") == 2 && Value("10") == 10 && Value("12") == 12
    ensures Value("100") == 100 && Value("106") == 106 && Value("005") == 5
    ensures Value("13") == 13
  {
    assert "2"[..0] == [] && "1"[..0] == [] && "0"[..0] == [];
    assert "10"[..1] == "1" && "12"[..1] == "1" && "00"[..1] == "0" && "13"[..1] == "1";
    assert "100"[..2] == "10" && "106"[..2] == "10" && "005"[..2] == "00";
  }

  /** "1.2" < "1.10": the numbers after the shared "1." compare by value. */
  lemma ShortNumberFirst()
    ensures VersionCmp("1.2", "1.10") == -1
  {
    NumbersAt("1.2", "1.10", 2);
    AtollRun("1.2", 2, "2");
    AtollRun("1.10", 2, "10");
    ValueCases();
  }

  /** "100" > "12": after the shared '1' both sides rewind to the start of their numbers. */
  lemma RewindToNumber()
    ensures VersionCmp("100", "12") == 1
  {
    assert Scan("100", "12", 0, 0) == (1, 1);
    assert Rewind("100", "12", 1, 1) == (0, 0);
    AtollRun("100", 0, "100");
    AtollRun("12", 0, "12");
    ValueCases();
  }

  /** "1.2" < "1.2a" (the end loses to a letter) and "1.2a" > "1.2.0" (a letter beats '.'). */
  lemma LetterCases()
    ensures VersionCmp("1.2", "1.2a") == -1
    ensures VersionCmp("1.2a", "1.2.0") == 1
  {
    MismatchByClass("1.2", "1.2a", 3);
    MismatchByClass("1.2a", "1.2.0", 3);
  }

  /** Zero skipping also applies inside numbers: "007" = "07" and "105" = "1005". */
  lemma ZerosSkipped()
    ensures VersionCmp("007", "07") == 0
    ensures VersionCmp("105", "1005") == 0
  {
    assert Scan("007", "07", 0, 0) == (3, 2);
    assert Scan("105", "1005", 0, 0) == (3, 4);
  }

  /** "1005" < "106": the zeros of "1005" are skipped and 5 meets 6, so the version
      compare is not numeric order. */
  lemma NotNumericOrder()
    ensures VersionCmp("1005", "106") == -1
  {
    assert Scan("1005", "106", 0, 0) == (3, 2);
    assert Rewind("1005", "106", 3, 2) == (1, 0);
    AtollRun("1005", 1, "005");
    AtollRun("106", 0, "106");
    ValueCases();
  }

  /** Keywords: "alpha1" < "beta1". */
  lemma AlphaBeforeBeta()
    ensures ExtraCmp("alpha1", "beta1") == -1
  {
    ExtraAtLetters("alpha1", "beta1", 0, 0);
  }

  /** Equal keywords: "beta2" < "beta10" by the numbers after them. */
  lemma BetaNumbers()
    ensures ExtraCmp("beta2", "beta10") == -1
  {
    ExtraElsewhere("beta2", "beta10", 4);
    assert "beta2"[4..] == "2" && "beta10"[4..] == "10";
    NumbersAt("2", "10", 0);
    AtollRun("2", 0, "2");
    AtollRun("10", 0, "10");
    ValueCases();
  }

  /** Two descriptors that differ only in the punctuation of their version: each
      compares less than the other. */
  lemma CompareNotAntisymmetric(d: Descriptor)
    ensures var a, b := d.(version := "1.0"), d.(version := "1+0");
            Compare(a, b) == -1 && Compare(b, a) == -1
  {
    var a, b := d.(version := "1.0"), d.(version := "1+0");
    PunctuationNotAntisymmetric("1.0", "1+0", 1);
    CompareSelf(a);
    assert CmpPkgName(a, b) == CmpPkgName(a, a) && CmpPkgName(b, a) == CmpPkgName(a, a);
    VersionSelf(VERSION_EPOCH);
  }
}
