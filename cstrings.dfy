/** C strings as Dafny sequences.
    A C string is a `seq<char>` without NUL; a mutable C buffer is a `seq<char>` (the
    contents of an array) in which a string starting at offset `i` runs up to the next
    NUL.  The libc searches and comparisons the core relies on (strchr, strrchr, strstr,
    strcmp, strncmp) are given here as functions with their C meaning. */
module CStrings {

  datatype Option<T> = None | Some(value: T)

  const NUL: char := '\0'

  predicate NoNul(s: seq<char>) { NUL !in s }

  /** `*p` for a pointer `s + i`: the terminator is read past the last character. */
  function At(s: seq<char>, i: nat): char
  {
    if i < |s| then s[i] else NUL
  }

  // Character classes of the C locale (isdigit, islower, isupper, isalpha).
  predicate IsDigit(c: char) { '0' <= c <= '9' }
  predicate IsLower(c: char) { 'a' <= c <= 'z' }
  predicate IsUpper(c: char) { 'A' <= c <= 'Z' }
  predicate IsAlpha(c: char) { IsLower(c) || IsUpper(c) }
  predicate IsAlnum(c: char) { IsDigit(c) || IsAlpha(c) }

  function Sign(x: int): (r: int)
    ensures r == -1 || r == 0 || r == 1
    ensures (r < 0 <==> x < 0) && (r > 0 <==> x > 0)
  {
    if x < 0 then -1 else if x > 0 then 1 else 0
  }

  function Min(x: nat, y: nat): nat { if x <= y then x else y }

  /*------------------------------------------------------------------------
     Searching
   ------------------------------------------------------------------------*/

  /** strchr from offset `i`: the index of the first `c` at or after `i`. */
  function StrChrFrom(s: seq<char>, c: char, i: nat): (r: Option<nat>)
    requires i <= |s|
    ensures r.Some? ==> i <= r.value < |s| && s[r.value] == c
    decreases |s| - i
  {
    if i == |s| then None
    else if s[i] == c then Some(i)
    else StrChrFrom(s, c, i + 1)
  }

  /** StrChrFrom finds the first `c` at or after `i`, and finds none only when there is none. */
  lemma {:induction false} StrChrFromFirst(s: seq<char>, c: char, i: nat)
    requires i <= |s|
    ensures StrChrFrom(s, c, i).Some? ==> forall j :: i <= j < StrChrFrom(s, c, i).value ==> s[j] != c
    ensures StrChrFrom(s, c, i).None? ==> forall j :: i <= j < |s| ==> s[j] != c
    decreases |s| - i
  {
    if i < |s| && s[i] != c {
      StrChrFromFirst(s, c, i + 1);
    }
  }

  /** strchr: the index of the first `c` in `s`. */
  function StrChr(s: seq<char>, c: char): (r: Option<nat>)
    ensures r.Some? ==> r.value < |s| && s[r.value] == c && forall j :: 0 <= j < r.value ==> s[j] != c
    ensures r.None? ==> c !in s
  {
    StrChrFromFirst(s, c, 0);
    StrChrFrom(s, c, 0)
  }

  /** strrchr below offset `n`: the index of the last `c` in `s[..n]`. */
  function StrRChrBelow(s: seq<char>, c: char, n: nat): (r: Option<nat>)
    requires n <= |s|
    ensures r.Some? ==> r.value < n && s[r.value] == c
    ensures r.Some? ==> forall j :: r.value < j < n ==> s[j] != c
    ensures r.None? ==> forall j :: 0 <= j < n ==> s[j] != c
  {
    if n == 0 then None
    else if s[n - 1] == c then Some(n - 1)
    else StrRChrBelow(s, c, n - 1)
  }

  /** strrchr: the index of the last `c` in `s`. */
  function StrRChr(s: seq<char>, c: char): (r: Option<nat>)
    ensures r.Some? ==> r.value < |s| && s[r.value] == c && forall j :: r.value < j < |s| ==> s[j] != c
    ensures r.None? ==> c !in s
  {
    StrRChrBelow(s, c, |s|)
  }

  predicate OccursAt(s: seq<char>, pat: seq<char>, k: nat)
  {
    k + |pat| <= |s| && s[k..k + |pat|] == pat
  }

  /** strstr: index of the first occurrence of `pat` in `s`, searched from `from`. */
  function StrStrFrom(s: seq<char>, pat: seq<char>, from: nat): (r: Option<nat>)
    ensures r.Some? ==> from <= r.value && OccursAt(s, pat, r.value)
    ensures r.Some? ==> forall j :: from <= j < r.value ==> !OccursAt(s, pat, j)
    ensures r.None? ==> forall j :: from <= j ==> !OccursAt(s, pat, j)
    decreases |s| - from
  {
    if from + |pat| > |s| then None
    else if s[from..from + |pat|] == pat then Some(from)
    else StrStrFrom(s, pat, from + 1)
  }

  function StrStr(s: seq<char>, pat: seq<char>): (r: Option<nat>)
  {
    StrStrFrom(s, pat, 0)
  }

  /** A string cut in two at a separator character that is removed. */
  datatype Cut<S> = Cut(head: S, tail: S)

  /** The cut at the last `c` (strrchr followed by writing NUL there). */
  function LastCut(s: seq<char>, c: char): (r: Option<Cut<seq<char>>>)
    ensures r.Some? <==> c in s
    ensures r.Some? ==> s == r.value.head + [c] + r.value.tail && c !in r.value.tail
  {
    match StrRChr(s, c)
    case None => None
    case Some(k) =>
      assert s == s[..k] + [c] + s[k + 1..];
      Some(Cut(s[..k], s[k + 1..]))
  }

  /** The cut at the first `c` (strchr followed by writing NUL there). */
  function FirstCut(s: seq<char>, c: char): (r: Option<Cut<seq<char>>>)
    ensures r.Some? <==> c in s
    ensures r.Some? ==> s == r.value.head + [c] + r.value.tail && c !in r.value.head
  {
    match StrChr(s, c)
    case None => None
    case Some(k) =>
      assert s == s[..k] + [c] + s[k + 1..];
      Some(Cut(s[..k], s[k + 1..]))
  }

  /** `s` split at the first `c`; without a `c` the whole of `s` and an empty tail. */
  function SplitFirst(s: seq<char>, c: char): (r: Cut<seq<char>>)
    ensures c in s ==> s == r.head + [c] + r.tail && c !in r.head
    ensures c !in s ==> r.head == s && r.tail == []
  {
    match FirstCut(s, c)
    case None => Cut(s, [])
    case Some(cut) => cut
  }

  /*------------------------------------------------------------------------
     Comparing (only the sign of strcmp is specified by C; it is -1, 0 or 1 here)
   ------------------------------------------------------------------------*/

  function StrCmp(a: seq<char>, b: seq<char>): (r: int)
    ensures r == -1 || r == 0 || r == 1
    ensures r == 0 <==> a == b
  {
    if |a| == 0 && |b| == 0 then 0
    else if |a| == 0 then -1
    else if |b| == 0 then 1
    else if a[0] < b[0] then -1
    else if a[0] > b[0] then 1
    else
      var r := StrCmp(a[1..], b[1..]);
      assert a == [a[0]] + a[1..] && b == [b[0]] + b[1..];
      r
  }

  /** strncmp on strings of at least `n` characters, or on shorter NUL-free ones. */
  function StrNCmp(a: seq<char>, b: seq<char>, n: nat): int
  {
    StrCmp(a[..Min(n, |a|)], b[..Min(n, |b|)])
  }

  /*------------------------------------------------------------------------
     A C string inside a buffer
   ------------------------------------------------------------------------*/

  /** The string that starts at offset `i` of buffer `b`: everything up to the next NUL,
      or to the end of `b` (its length is strlen of `b + i`). */
  function CStr(b: seq<char>, i: nat): (r: seq<char>)
    requires i <= |b|
    ensures i + |r| <= |b|
    decreases |b| - i
  {
    if i == |b| || b[i] == NUL then [] else [b[i]] + CStr(b, i + 1)
  }

  /** The string's characters are the buffer's from `i` on; it has no NUL and is followed
      by one, or by the end of the buffer. */
  lemma {:induction false} CStrMeans(b: seq<char>, i: nat)
    requires i <= |b|
    ensures forall j :: 0 <= j < |CStr(b, i)| ==> CStr(b, i)[j] == b[i + j]
    ensures NoNul(CStr(b, i))
    ensures i + |CStr(b, i)| < |b| ==> b[i + |CStr(b, i)|] == NUL
    decreases |b| - i
  {
    if i < |b| && b[i] != NUL {
      CStrMeans(b, i + 1);
    }
  }

  /** A buffer whose last character is NUL: every string in it is terminated inside it. */
  predicate Terminated(b: seq<char>) { |b| > 0 && b[|b| - 1] == NUL }

  /** No character of the string's span in the buffer is NUL. */
  lemma CStrSpan(b: seq<char>, i: nat)
    requires i <= |b|
    ensures forall j :: i <= j < i + |CStr(b, i)| ==> b[j] != NUL
    ensures i + |CStr(b, i)| < |b| ==> b[i + |CStr(b, i)|] == NUL
  {
    var r := CStr(b, i);
    CStrMeans(b, i);
    forall j | i <= j < i + |r| ensures b[j] != NUL {
      assert b[j] == r[j - i];
    }
  }

  lemma CStrEnds(b: seq<char>, i: nat)
    requires Terminated(b) && i < |b|
    ensures i + |CStr(b, i)| < |b|
  {
    CStrSpan(b, i);
  }

  /** The string at `i` is `b[i..j]` when that slice has no NUL and is followed by one. */
  lemma {:induction false} CStrOf(b: seq<char>, i: nat, j: nat)
    requires i <= j <= |b|
    requires forall k :: i <= k < j ==> b[k] != NUL
    requires j == |b| || b[j] == NUL
    ensures CStr(b, i) == b[i..j]
    decreases j - i
  {
    if i < j {
      CStrOf(b, i + 1, j);
      assert b[i..j] == [b[i]] + b[i + 1..j];
    }
  }

  /** The string at `i` as a slice of the buffer. */
  lemma CStrIsSlice(b: seq<char>, i: nat)
    requires i <= |b|
    ensures CStr(b, i) == b[i..i + |CStr(b, i)|]
  {
    CStrSpan(b, i);
    CStrOf(b, i, i + |CStr(b, i)|);
  }

  /** `b2` differs from `b1` at most inside `[lo, hi)`. */
  ghost predicate SameOutside(b1: seq<char>, b2: seq<char>, lo: nat, hi: nat)
  {
    |b1| == |b2| && forall j :: 0 <= j < |b1| && (j < lo || hi <= j) ==> b2[j] == b1[j]
  }

  /** A string that lies, with its terminator, outside the edited range is unchanged. */
  lemma CStrKept(b1: seq<char>, b2: seq<char>, lo: nat, hi: nat, i: nat)
    requires Terminated(b1) && i < |b1|
    requires SameOutside(b1, b2, lo, hi)
    requires i + |CStr(b1, i)| < lo || hi <= i
    ensures CStr(b2, i) == CStr(b1, i)
  {
    var e := i + |CStr(b1, i)|;
    CStrEnds(b1, i);
    CStrSpan(b1, i);
    CStrOf(b1, i, e);
    CStrOf(b2, i, e);
    assert b2[i..e] == b1[i..e];
  }

  /** Writing NUL at offset `p` of the string at `i` ends that string at `p`;
      the rest of the old string now starts at `p + 1`. */
  lemma CStrCut(b: seq<char>, i: nat, p: nat)
    requires Terminated(b) && i < |b|
    requires i <= p < i + |CStr(b, i)|
    ensures CStr(b[p := NUL], i) == CStr(b, i)[..p - i]
    ensures CStr(b[p := NUL], p + 1) == CStr(b, i)[p - i + 1..]
  {
    var e := i + |CStr(b, i)|;
    CStrEnds(b, i);
    var b2 := b[p := NUL];
    CStrSpan(b, i);
    CStrOf(b, i, e);
    CStrOf(b2, i, p);
    CStrOf(b2, p + 1, e);
    assert b2[i..p] == b[i..e][..p - i];
    assert b2[p + 1..e] == b[i..e][p - i + 1..];
  }

  /*------------------------------------------------------------------------
     The searches are determined by what they find
   ------------------------------------------------------------------------*/

  lemma StrRChrIs(s: seq<char>, c: char, k: nat)
    requires k < |s| && s[k] == c
    requires forall i :: k < i < |s| ==> s[i] != c
    ensures StrRChr(s, c) == Some(k)
  {
  }

  lemma StrChrIs(s: seq<char>, c: char, k: nat)
    requires k < |s| && s[k] == c
    requires forall i :: 0 <= i < k ==> s[i] != c
    ensures StrChr(s, c) == Some(k)
  {
  }

  /** strchr from a character other than the one searched for finds it exactly when
      strchr from the next character does. */
  lemma StrChrPast(s: seq<char>, c: char, k: nat)
    requires k < |s| && s[k] != c
    ensures StrChr(s[k..], c).Some? <==> StrChr(s[k + 1..], c).Some?
  {
    assert s[k..] == [s[k]] + s[k + 1..];
    if StrChr(s[k..], c).Some? {
      var j := StrChr(s[k..], c).value;
      assert s[k + 1..][j - 1] == c;
    }
    if StrChr(s[k + 1..], c).Some? {
      var j := StrChr(s[k + 1..], c).value;
      assert s[k..][j + 1] == c;
    }
  }

  lemma LastCutIs(s: seq<char>, c: char, h: seq<char>, t: seq<char>)
    requires s == h + [c] + t && c !in t
    ensures LastCut(s, c) == Some(Cut(h, t))
  {
    forall i | |h| < i < |s| ensures s[i] != c { assert s[i] == t[i - |h| - 1]; }
    StrRChrIs(s, c, |h|);
    assert s[..|h|] == h && s[|h| + 1..] == t;
  }

  lemma FirstCutIs(s: seq<char>, c: char, h: seq<char>, t: seq<char>)
    requires s == h + [c] + t && c !in h
    ensures FirstCut(s, c) == Some(Cut(h, t))
  {
    forall i | 0 <= i < |h| ensures s[i] != c { assert s[i] == h[i]; }
    StrChrIs(s, c, |h|);
    assert s[..|h|] == h && s[|h| + 1..] == t;
  }

  lemma StrStrIs(s: seq<char>, pat: seq<char>, k: nat)
    requires OccursAt(s, pat, k)
    requires forall j :: 0 <= j < k ==> !OccursAt(s, pat, j)
    ensures StrStr(s, pat) == Some(k)
  {
  }

  /** The string at `i + k` is what is left of the string at `i` after `k` characters. */
  lemma CStrSuffix(b: seq<char>, i: nat, k: nat)
    requires Terminated(b) && i < |b|
    requires k <= |CStr(b, i)|
    ensures CStr(b, i + k) == CStr(b, i)[k..]
  {
    var e := i + |CStr(b, i)|;
    CStrEnds(b, i);
    CStrSpan(b, i);
    CStrOf(b, i, e);
    CStrOf(b, i + k, e);
  }
}
