/** What the name/version/revision splits of module ParseSteps leave in the fields: the
    full split of _parse_pkgfullpkg gives the parts PkgFullPkg finds, the partial split of
    _parse_partialpkg those PkgPartial finds, each followed by the `_` sub-splits that
    WithExtras describes. */
module SplitProperties {
  import opened CStrings
  import opened BeeTypes
  import opened Validators
  import opened Segmentation
  import opened ParseSteps
  import opened ParseStepsProperties

  /*------------------------------------------------------------------------
     Looking for a '-' and cutting there
   ------------------------------------------------------------------------*/

  /** strrchr(v->name, '-') on a name that reads `s` finds the last '-' of `s`, and the
      text after it is the rest of `s`. */
  lemma DashLook(r: Record, s: seq<char>)
    requires Wf(r) && Field(r, r.name) == s
    ensures match StrRChr(s, '-')
            case None => LastDash(r).None?
            case Some(k) => LastDash(r) == Some(r.name + k) && Field(r, r.name + k + 1) == s[k + 1..]
  {
    match StrRChr(s, '-')
    case None =>
    case Some(k) => NameSuffix(r, k + 1);
  }

  /** A NUL written at offset `k` of a name that reads `s`: the name reads `s[..k]`, the
      text after the cut `s[k + 1..]`, and nothing outside the name's span changes. */
  lemma DashCut(r: Record, s: seq<char>, k: nat)
    requires Wf(r) && Field(r, r.name) == s && k < |s|
    ensures var c := CutName(r, r.name + k);
            Field(c, c.name) == s[..k] && Field(c, r.name + k + 1) == s[k + 1..] &&
            SameOutside(r.input.chars, c.input.chars, r.name, r.name + |s|)
  {
    CutFields(r, r.name, r.name + k);
  }

  /*------------------------------------------------------------------------
     The full split, stage by stage
   ------------------------------------------------------------------------*/

  /** _parse_pkgfullpkg gives up, with the record unchanged, when the name has no '-' or
      the text after its last '-' is no valid revision. */
  lemma FullStops(r: Record)
    requires Wf(r) && (LastDash(r).None? || !ValidRevision(Field(r, LastDash(r).value + 1)))
    ensures FullPkgStep(r) == (false, r)
  {
  }

  /** Otherwise it cuts at the last '-' and goes on. */
  lemma FullGoes(r: Record, rd: nat)
    requires Wf(r) && LastDash(r) == Some(rd) && ValidRevision(Field(r, rd + 1))
    ensures FullPkgStep(r) == VersionStage(r, rd)
  {
  }

  /** After the revision cut, the split gives up when the name has no '-' left or the text
      after its last '-' is no valid full version: the cut is undone and the revision
      pointer stays. */
  lemma VersionStops(r: Record, rd: nat)
    requires Wf(r) && LastDash(r) == Some(rd)
    requires var r1 := CutName(r, rd).(revision := rd + 1);
             LastDash(r1).None? || !ValidFullVersion(Field(r1, LastDash(r1).value + 1))
    ensures VersionStage(r, rd) == (false, r.(revision := rd + 1))
  {
  }

  /** Otherwise it cuts at that '-' and goes on to the name check. */
  lemma VersionGoes(r: Record, rd: nat, vd: nat)
    requires Wf(r) && LastDash(r) == Some(rd)
    requires var r1 := CutName(r, rd).(revision := rd + 1);
             LastDash(r1) == Some(vd) && ValidFullVersion(Field(r1, vd + 1))
    ensures VersionStage(r, rd) == NameStage(r, CutName(r, rd).(revision := rd + 1), vd)
  {
  }

  /** An invalid name undoes both cuts; the revision and version pointers stay. */
  lemma NameStops(r: Record, r1: Record, vd: nat)
    requires Wf(r) && Wf(r1) && |r1.input.chars| == |r.input.chars| && LastDash(r1) == Some(vd)
    requires var r2 := CutName(r1, vd).(version := vd + 1); !ValidFullName(Field(r2, r2.name))
    ensures NameStage(r, r1, vd) == (false, r.(revision := r1.revision, version := vd + 1))
  {
  }

  /** A valid name completes the split with the two `_` sub-splits. */
  lemma NameGoes(r: Record, r1: Record, vd: nat)
    requires Wf(r) && Wf(r1) && |r1.input.chars| == |r.input.chars| && LastDash(r1) == Some(vd)
    requires var r2 := CutName(r1, vd).(version := vd + 1); ValidFullName(Field(r2, r2.name))
    ensures NameStage(r, r1, vd) == (true, FullNameStep(FullVersionStep(CutName(r1, vd).(version := vd + 1))))
  {
  }

  /** The record after the revision cut at offset `k1`: the name is the text before the
      '-', the revision the text after it, and the buffer is changed only inside the name. */
  lemma RevisionCut(r: Record, s: seq<char>, k1: nat)
    requires Wf(r) && Field(r, r.name) == s && k1 < |s|
    ensures var r1 := CutName(r, r.name + k1).(revision := r.name + k1 + 1);
            Wf(r1) && Field(r1, r1.name) == s[..k1] && Field(r1, r1.revision) == s[k1 + 1..] &&
            SameOutside(r.input.chars, r1.input.chars, r.name, r.name + |s|) &&
            match StrRChr(s[..k1], '-')
            case None => LastDash(r1).None?
            case Some(k2) => LastDash(r1) == Some(r.name + k2) && Field(r1, r.name + k2 + 1) == s[k2 + 1..k1]
  {
    DashCut(r, s, k1);
    var r1 := CutName(r, r.name + k1).(revision := r.name + k1 + 1);
    DashLook(r1, s[..k1]);
    match StrRChr(s[..k1], '-')
    case None =>
    case Some(k2) => assert s[..k1][k2 + 1..] == s[k2 + 1..k1];
  }

  /** The record after the version cut at offset `k2` of the name `s[..k1]` left by the
      revision cut: the name is the text before that '-', the version the text between the
      two, the revision is kept, and the buffer is changed only inside the name. */
  lemma VersionCut(r1: Record, s: seq<char>, k1: nat, k2: nat)
    requires Wf(r1) && k2 < k1 < |s| && Field(r1, r1.name) == s[..k1]
    requires r1.revision == r1.name + k1 + 1 && Field(r1, r1.revision) == s[k1 + 1..]
    ensures var r2 := CutName(r1, r1.name + k2).(version := r1.name + k2 + 1);
            Wf(r2) && Field(r2, r2.name) == s[..k2] && Field(r2, r2.version) == s[k2 + 1..k1] &&
            Field(r2, r2.revision) == s[k1 + 1..] &&
            SameOutside(r1.input.chars, r2.input.chars, r1.name, r1.name + k1)
  {
    CutFields(r1, r1.name, r1.name + k2);
    CutKeeps(r1, r1.name, r1.name + k2, r1.revision);
    assert s[..k1][..k2] == s[..k2];
    assert s[..k1][k2 + 1..] == s[k2 + 1..k1];
  }

  /** The three parts in place: the name at `x.name`, the version after its terminator,
      the revision after the version's, and both extras on the terminator of the copy. */
  ghost predicate Laid(x: Record, t: Triple)
  {
    Wf(x) &&
    Field(x, x.name) == t.name && Field(x, x.version) == t.version && Field(x, x.revision) == t.revision &&
    x.name + |t.name| < x.version && x.version + |t.version| < x.revision &&
    x.extraname == |x.input.chars| - 1 && x.extraversion == |x.input.chars| - 1
  }

  /** _parse_pkgfullversion on laid-out parts: the version is cut at its first '_', the
      extra version is the rest, and only the version's span changes. */
  lemma VersionSub(x: Record, t: Triple)
    requires Laid(x, t)
    ensures var y := FullVersionStep(x);
            var v := SplitFirst(t.version, '_');
            Wf(y) && y.name == x.name && y.version == x.version && y.revision == x.revision &&
            y.extraname == x.extraname &&
            Field(y, y.name) == t.name && Field(y, y.version) == v.head && Field(y, y.extraversion) == v.tail &&
            Field(y, y.revision) == t.revision && Field(y, y.extraname) == [] &&
            x.name + |t.name| < y.extraversion &&
            SameOutside(x.input.chars, y.input.chars, x.version, x.version + |t.version|)
  {
    AtEnd(x);
    match StrChr(t.version, '_')
    case None =>
    case Some(j) => VersionSubCut(x, t, j);
  }

  /** The cut case of VersionSub: a '_' at offset `j` of the version. */
  lemma VersionSubCut(x: Record, t: Triple, j: nat)
    requires Laid(x, t) && StrChr(t.version, '_') == Some(j)
    ensures var y := x.(input := Buffer(CutAt(x, x.version, x.version + j)), extraversion := x.version + j + 1);
            Wf(y) && Field(y, y.name) == t.name && Field(y, y.version) == t.version[..j] &&
            Field(y, y.extraversion) == t.version[j + 1..] &&
            Field(y, y.revision) == t.revision && Field(y, y.extraname) == [] &&
            SameOutside(x.input.chars, y.input.chars, x.version, x.version + |t.version|)
  {
    AtEnd(x);
    CutFields(x, x.version, x.version + j);
    CutKeeps(x, x.version, x.version + j, x.name);
    CutKeeps(x, x.version, x.version + j, x.revision);
    CutKeeps(x, x.version, x.version + j, x.extraname);
  }

  /** _parse_pkgfullname after it: the name is cut at its first '_', the extra name is the
      rest, and only the name's span changes. */
  lemma NameSub(y: Record, name: seq<char>, version: seq<char>, extraversion: seq<char>, revision: seq<char>)
    requires Wf(y) && Field(y, y.name) == name && Field(y, y.version) == version &&
             Field(y, y.extraversion) == extraversion && Field(y, y.revision) == revision
    requires y.name + |name| < y.version && y.name + |name| < y.extraversion && y.name + |name| < y.revision
    requires y.extraname == |y.input.chars| - 1
    ensures var z := FullNameStep(y);
            var n := SplitFirst(name, '_');
            Wf(z) && Field(z, z.name) == n.head && Field(z, z.extraname) == n.tail &&
            Field(z, z.version) == version && Field(z, z.extraversion) == extraversion && Field(z, z.revision) == revision &&
            SameOutside(y.input.chars, z.input.chars, y.name, y.name + |name|)
  {
    AtEnd(y);
    match StrChr(name, '_')
    case None =>
    case Some(j) =>
      CutFields(y, y.name, y.name + j);
      CutKeeps(y, y.name, y.name + j, y.version);
      CutKeeps(y, y.name, y.name + j, y.extraversion);
      CutKeeps(y, y.name, y.name + j, y.revision);
  }

  /** Edits confined to a span inside a wider one are confined to the wider one. */
  lemma SameOutsideTrans(a: seq<char>, b: seq<char>, c: seq<char>, lo: nat, hi: nat, lo2: nat, hi2: nat)
    requires SameOutside(a, b, lo, hi) && SameOutside(b, c, lo2, hi2) && lo <= lo2 && hi2 <= hi
    ensures SameOutside(a, c, lo, hi)
  {
  }

  /** The two `_` sub-splits on laid-out parts: the five inner fields are those WithExtras
      gives, and only the span from the name to the end of the version changes. */
  lemma ExtrasInner(x: Record, t: Triple)
    requires Laid(x, t)
    ensures var z := FullNameStep(FullVersionStep(x));
            var c := WithExtras(t);
            Wf(z) && z.name == x.name && z.prefix == x.prefix && z.arch == x.arch && z.suffix == x.suffix &&
            Field(z, z.name) == c.name && Field(z, z.extraname) == c.extraname &&
            Field(z, z.version) == c.version && Field(z, z.extraversion) == c.extraversion &&
            Field(z, z.revision) == c.revision &&
            SameOutside(x.input.chars, z.input.chars, x.name, x.version + |t.version|)
  {
    VersionSub(x, t);
    var y := FullVersionStep(x);
    var v := SplitFirst(t.version, '_');
    NameSub(y, t.name, v.head, v.tail, t.revision);
  }

  /** The sub-splits on laid-out parts that fill the span of the name `r` had: prefix,
      arch and suffix are kept as well. */
  lemma ExtrasShow(r: Record, x: Record, t: Triple, prefix: seq<char>, arch: seq<char>, suffix: seq<char>)
    requires Wf(r) && PreStepped(r, prefix, Field(r, r.name), arch, suffix)
    requires Laid(x, t) && x.name == r.name && x.prefix == r.prefix && x.arch == r.arch && x.suffix == r.suffix
    requires x.revision + |t.revision| <= r.name + |Field(r, r.name)|
    requires SameOutside(r.input.chars, x.input.chars, r.name, r.name + |Field(r, r.name)|)
    ensures Shows(FullNameStep(FullVersionStep(x)), prefix, WithExtras(t), arch, suffix)
  {
    var hi := r.name + |Field(r, r.name)|;
    ExtrasInner(x, t);
    var z := FullNameStep(FullVersionStep(x));
    SameOutsideTrans(r.input.chars, x.input.chars, z.input.chars, r.name, hi, x.name, x.version + |t.version|);
    CStrKept(r.input.chars, z.input.chars, r.name, hi, r.prefix);
    CStrKept(r.input.chars, z.input.chars, r.name, hi, r.arch);
    CStrKept(r.input.chars, z.input.chars, r.name, hi, r.suffix);
  }

  /*------------------------------------------------------------------------
     The four outcomes of the full split, on the record
   ------------------------------------------------------------------------*/

  /** A revision but no valid version before it: only the revision pointer is left set. */
  lemma FullNoVersionAt(r: Record, rd: nat)
    requires Wf(r) && LastDash(r) == Some(rd) && ValidRevision(Field(r, rd + 1))
    requires var r1 := CutName(r, rd).(revision := rd + 1);
             LastDash(r1).None? || !ValidFullVersion(Field(r1, LastDash(r1).value + 1))
    ensures FullPkgStep(r) == (false, r.(revision := rd + 1))
  {
    FullGoes(r, rd);
    VersionStops(r, rd);
  }

  /** Revision and version, but no valid name before them: the revision and version
      pointers are left set. */
  lemma FullBadNameAt(r: Record, rd: nat, vd: nat)
    requires Wf(r) && LastDash(r) == Some(rd) && ValidRevision(Field(r, rd + 1))
    requires var r1 := CutName(r, rd).(revision := rd + 1);
             LastDash(r1) == Some(vd) && ValidFullVersion(Field(r1, vd + 1)) &&
             var r2 := CutName(r1, vd).(version := vd + 1); !ValidFullName(Field(r2, r2.name))
    ensures FullPkgStep(r) == (false, r.(revision := rd + 1, version := vd + 1))
  {
    FullGoes(r, rd);
    VersionGoes(r, rd, vd);
    NameStops(r, CutName(r, rd).(revision := rd + 1), vd);
  }

  /** All three valid: the split succeeds with the `_` sub-splits of the twice-cut record. */
  lemma FullSplitsAt(r: Record, rd: nat, vd: nat)
    requires Wf(r) && LastDash(r) == Some(rd) && ValidRevision(Field(r, rd + 1))
    requires var r1 := CutName(r, rd).(revision := rd + 1);
             LastDash(r1) == Some(vd) && ValidFullVersion(Field(r1, vd + 1)) &&
             var r2 := CutName(r1, vd).(version := vd + 1); ValidFullName(Field(r2, r2.name))
    ensures var r1 := CutName(r, rd).(revision := rd + 1);
            FullPkgStep(r) == (true, FullNameStep(FullVersionStep(CutName(r1, vd).(version := vd + 1))))
  {
    FullGoes(r, rd);
    VersionGoes(r, rd, vd);
    NameGoes(r, CutName(r, rd).(revision := rd + 1), vd);
  }

  /*------------------------------------------------------------------------
     The four outcomes of the full split, on the name string
   ------------------------------------------------------------------------*/

  /** No valid revision after the last '-' of the name: nothing changes. */
  lemma FullNoRevision(r: Record, s: seq<char>)
    requires Wf(r) && Field(r, r.name) == s
    requires StrRChr(s, '-').None? || !ValidRevision(s[StrRChr(s, '-').value + 1..])
    ensures FullPkgStep(r) == (false, r)
  {
    DashLook(r, s);
    FullStops(r);
  }

  /** A valid revision after the last '-' (offset `k1`), but no valid version before it. */
  lemma FullNoVersion(r: Record, s: seq<char>, k1: nat)
    requires Wf(r) && Field(r, r.name) == s && StrRChr(s, '-') == Some(k1) && ValidRevision(s[k1 + 1..])
    requires StrRChr(s[..k1], '-').None? || !ValidFullVersion(s[StrRChr(s[..k1], '-').value + 1..k1])
    ensures FullPkgStep(r) == (false, r.(revision := r.name + k1 + 1))
  {
    DashLook(r, s);
    RevisionCut(r, s, k1);
    FullNoVersionAt(r, r.name + k1);
  }

  /** The revision cut, read on the name string: the last '-' of the name at `k1`, and
      what the fields read after the cut, with the '-' before it at `k2`. */
  lemma OneCut(r: Record, s: seq<char>, k1: nat, k2: nat)
    requires Wf(r) && Field(r, r.name) == s && StrRChr(s, '-') == Some(k1) && StrRChr(s[..k1], '-') == Some(k2)
    ensures LastDash(r) == Some(r.name + k1) && Field(r, r.name + k1 + 1) == s[k1 + 1..]
    ensures var r1 := CutName(r, r.name + k1).(revision := r.name + k1 + 1);
            Wf(r1) && Field(r1, r1.name) == s[..k1] && Field(r1, r1.revision) == s[k1 + 1..] &&
            LastDash(r1) == Some(r.name + k2) && Field(r1, r.name + k2 + 1) == s[k2 + 1..k1] &&
            SameOutside(r.input.chars, r1.input.chars, r.name, r.name + |s|)
  {
    DashLook(r, s);
    RevisionCut(r, s, k1);
  }

  /** Both cuts: after the second, name, version and revision are laid out in the span of
      the name. */
  lemma TwoCuts(r: Record, s: seq<char>, k1: nat, k2: nat)
    requires Wf(r) && Field(r, r.name) == s && StrRChr(s, '-') == Some(k1) && StrRChr(s[..k1], '-') == Some(k2)
    requires r.extraname == |r.input.chars| - 1 && r.extraversion == |r.input.chars| - 1
    ensures LastDash(r) == Some(r.name + k1) && Field(r, r.name + k1 + 1) == s[k1 + 1..]
    ensures var r1 := CutName(r, r.name + k1).(revision := r.name + k1 + 1);
            LastDash(r1) == Some(r.name + k2) && Field(r1, r.name + k2 + 1) == s[k2 + 1..k1] &&
            var r2 := CutName(r1, r.name + k2).(version := r.name + k2 + 1);
            Field(r2, r2.name) == s[..k2] && Laid(r2, Triple(s[..k2], s[k2 + 1..k1], s[k1 + 1..])) &&
            r2.revision + |s[k1 + 1..]| <= r.name + |s| &&
            SameOutside(r.input.chars, r2.input.chars, r.name, r.name + |s|)
  {
    OneCut(r, s, k1, k2);
    var r1 := CutName(r, r.name + k1).(revision := r.name + k1 + 1);
    VersionCut(r1, s, k1, k2);
    var r2 := CutName(r1, r.name + k2).(version := r.name + k2 + 1);
    SameOutsideTrans(r.input.chars, r1.input.chars, r2.input.chars, r.name, r.name + |s|, r.name, r.name + k1);
  }

  /** A valid revision and, after the '-' at `k2` before it, a valid version, but no valid
      name. */
  lemma FullBadName(r: Record, s: seq<char>, k1: nat, k2: nat)
    requires Wf(r) && Field(r, r.name) == s && StrRChr(s, '-') == Some(k1) && ValidRevision(s[k1 + 1..])
    requires StrRChr(s[..k1], '-') == Some(k2) && ValidFullVersion(s[k2 + 1..k1]) && !ValidFullName(s[..k2])
    ensures FullPkgStep(r) == (false, r.(revision := r.name + k1 + 1, version := r.name + k2 + 1))
  {
    OneCut(r, s, k1, k2);
    var r1 := CutName(r, r.name + k1).(revision := r.name + k1 + 1);
    VersionCut(r1, s, k1, k2);
    FullBadNameAt(r, r.name + k1, r.name + k2);
  }

  /** The state of the successful full split on the record, before its end: the last '-'
      at `rd` with a valid revision after it, the '-' at `vd` before it with a valid full
      version after it, a valid name before it, and the three parts `t` laid out in the
      span of the name. */
  ghost predicate SplitReady(r: Record, prefix: seq<char>, arch: seq<char>, suffix: seq<char>, rd: nat, vd: nat, t: Triple)
  {
    Wf(r) && PreStepped(r, prefix, Field(r, r.name), arch, suffix) &&
    LastDash(r) == Some(rd) && ValidRevision(Field(r, rd + 1)) &&
    var r1 := CutName(r, rd).(revision := rd + 1);
    LastDash(r1) == Some(vd) && ValidFullVersion(Field(r1, vd + 1)) &&
    var r2 := CutName(r1, vd).(version := vd + 1);
    ValidFullName(Field(r2, r2.name)) && Laid(r2, t) && r2.revision + |t.revision| <= r.name + |Field(r, r.name)| &&
    SameOutside(r.input.chars, r2.input.chars, r.name, r.name + |Field(r, r.name)|)
  }

  /** The successful split on the record: the fields read prefix, arch and suffix as before
      and the parts WithExtras gives. */
  lemma FullSplitsShow(r: Record, prefix: seq<char>, arch: seq<char>, suffix: seq<char>, rd: nat, vd: nat, t: Triple)
    requires SplitReady(r, prefix, arch, suffix, rd, vd, t)
    ensures FullPkgStep(r).0 && Shows(FullPkgStep(r).1, prefix, WithExtras(t), arch, suffix)
  {
    FullSplitsAt(r, rd, vd);
    var r1 := CutName(r, rd).(revision := rd + 1);
    ExtrasShow(r, CutName(r1, vd).(version := vd + 1), t, prefix, arch, suffix);
  }

  /** The name string with all three parts valid puts the record in that state. */
  lemma SplitReadyOf(r: Record, prefix: seq<char>, s: seq<char>, arch: seq<char>, suffix: seq<char>, k1: nat, k2: nat)
    requires PreStepped(r, prefix, s, arch, suffix) && StrRChr(s, '-') == Some(k1) && ValidRevision(s[k1 + 1..])
    requires StrRChr(s[..k1], '-') == Some(k2) && ValidFullVersion(s[k2 + 1..k1]) && ValidFullName(s[..k2])
    ensures SplitReady(r, prefix, arch, suffix, r.name + k1, r.name + k2, Triple(s[..k2], s[k2 + 1..k1], s[k1 + 1..]))
  {
    TwoCuts(r, s, k1, k2);
  }

  /** All three valid: the split succeeds, and the fields read prefix, arch and suffix as
      before and the parts WithExtras gives. */
  lemma FullSplits(r: Record, prefix: seq<char>, s: seq<char>, arch: seq<char>, suffix: seq<char>, k1: nat, k2: nat)
    requires PreStepped(r, prefix, s, arch, suffix) && StrRChr(s, '-') == Some(k1) && ValidRevision(s[k1 + 1..])
    requires StrRChr(s[..k1], '-') == Some(k2) && ValidFullVersion(s[k2 + 1..k1]) && ValidFullName(s[..k2])
    ensures FullPkgStep(r).0
    ensures Shows(FullPkgStep(r).1, prefix, WithExtras(Triple(s[..k2], s[k2 + 1..k1], s[k1 + 1..])), arch, suffix)
  {
    SplitReadyOf(r, prefix, s, arch, suffix, k1, k2);
    FullSplitsShow(r, prefix, arch, suffix, r.name + k1, r.name + k2, Triple(s[..k2], s[k2 + 1..k1], s[k1 + 1..]));
  }

  /*------------------------------------------------------------------------
     The full split as a whole
   ------------------------------------------------------------------------*/

  /** The record a failed full split leaves: the buffer restored, with `revision` (and
      `version`) still pointing where the split had set them before it gave up. */
  ghost function FullFailure(r: Record, s: seq<char>): Record
  {
    match StrRChr(s, '-')
    case None => r
    case Some(k1) =>
      if !ValidRevision(s[k1 + 1..]) then r
      else
        match StrRChr(s[..k1], '-')
        case None => r.(revision := r.name + k1 + 1)
        case Some(k2) =>
          if !ValidFullVersion(s[k2 + 1..k1]) then r.(revision := r.name + k1 + 1)
          else r.(revision := r.name + k1 + 1, version := r.name + k2 + 1)
  }

  /** A failed version or name check of _parse_pkgfullpkg writes back the '-' it
      overwrote: the buffer and the name pointer are those before the revision cut. */
  lemma VersionStageRestores(r: Record, rd: nat)
    requires Wf(r) && LastDash(r) == Some(rd)
    ensures !VersionStage(r, rd).0 ==> VersionStage(r, rd).1.input == r.input && VersionStage(r, rd).1.name == r.name
  {
    var r1 := CutName(r, rd).(revision := rd + 1);
    match LastDash(r1)
    case None =>
    case Some(vd) =>
      if ValidFullVersion(Field(r1, vd + 1)) {
        VersionGoes(r, rd, vd);
        var r2 := CutName(r1, vd).(version := vd + 1);
        if !ValidFullName(Field(r2, r2.name)) {
          NameStops(r, r1, vd);
        }
      }
  }

  /** Every failure path of _parse_pkgfullpkg writes back the '-' it overwrote: the buffer
      and the name pointer are as before (only the stale `revision` and `version` differ). */
  lemma FullFailureRestores(r: Record)
    requires Wf(r)
    ensures !FullPkgStep(r).0 ==> FullPkgStep(r).1.input == r.input && FullPkgStep(r).1.name == r.name
  {
    match LastDash(r)
    case None =>
    case Some(rd) =>
      if ValidRevision(Field(r, rd + 1)) {
        FullGoes(r, rd);
        VersionStageRestores(r, rd);
      }
  }

  /** PkgFullPkg fails without a valid revision after the last '-'. */
  lemma PkgNoRevision(s: seq<char>)
    requires NoNul(s) && (StrRChr(s, '-').None? || !ValidRevision(s[StrRChr(s, '-').value + 1..]))
    ensures PkgFullPkg(s).None?
  {
  }

  /** PkgFullPkg fails without a valid version after the '-' before the revision. */
  lemma PkgNoVersion(s: seq<char>, k1: nat)
    requires NoNul(s) && StrRChr(s, '-') == Some(k1)
    requires StrRChr(s[..k1], '-').None? || !ValidFullVersion(s[StrRChr(s[..k1], '-').value + 1..k1])
    ensures PkgFullPkg(s).None?
  {
    assert LastCut(s, '-') == Some(Cut(s[..k1], s[k1 + 1..]));
  }

  /** With both '-' found, PkgFullPkg cuts at them, and succeeds when the three parts are
      valid. */
  lemma PkgCuts(s: seq<char>, k1: nat, k2: nat)
    requires NoNul(s) && StrRChr(s, '-') == Some(k1) && StrRChr(s[..k1], '-') == Some(k2)
    ensures PkgFullPkg(s).Some? <==> ValidRevision(s[k1 + 1..]) && ValidFullVersion(s[k2 + 1..k1]) && ValidFullName(s[..k2])
    ensures PkgFullPkg(s).Some? ==> PkgFullPkg(s).value == Triple(s[..k2], s[k2 + 1..k1], s[k1 + 1..])
  {
    assert LastCut(s, '-') == Some(Cut(s[..k1], s[k1 + 1..]));
    assert s[..k1][..k2] == s[..k2];
    assert s[..k1][k2 + 1..] == s[k2 + 1..k1];
    assert LastCut(s[..k1], '-') == Some(Cut(s[..k2], s[k2 + 1..k1]));
  }

  /** The full split without a valid revision: both sides fail, nothing changes. */
  lemma MeaningNoRevision(r: Record, prefix: seq<char>, s: seq<char>, arch: seq<char>, suffix: seq<char>)
    requires PreStepped(r, prefix, s, arch, suffix) && NoNul(s)
    requires StrRChr(s, '-').None? || !ValidRevision(s[StrRChr(s, '-').value + 1..])
    ensures !FullPkgStep(r).0 && PkgFullPkg(s).None? && FullPkgStep(r).1 == FullFailure(r, s)
  {
    PkgNoRevision(s);
    FullNoRevision(r, s);
  }

  /** The full split with a revision but no valid version: both sides fail, the revision
      pointer is left set. */
  lemma MeaningNoVersion(r: Record, prefix: seq<char>, s: seq<char>, arch: seq<char>, suffix: seq<char>, k1: nat)
    requires PreStepped(r, prefix, s, arch, suffix) && NoNul(s) && StrRChr(s, '-') == Some(k1) && ValidRevision(s[k1 + 1..])
    requires StrRChr(s[..k1], '-').None? || !ValidFullVersion(s[StrRChr(s[..k1], '-').value + 1..k1])
    ensures !FullPkgStep(r).0 && PkgFullPkg(s).None? && FullPkgStep(r).1 == FullFailure(r, s)
  {
    PkgNoVersion(s, k1);
    FullNoVersion(r, s, k1);
  }

  /** The full split with revision and version but an invalid name: both sides fail, the
      revision and version pointers are left set. */
  lemma MeaningBadName(r: Record, prefix: seq<char>, s: seq<char>, arch: seq<char>, suffix: seq<char>, k1: nat, k2: nat)
    requires PreStepped(r, prefix, s, arch, suffix) && NoNul(s) && StrRChr(s, '-') == Some(k1) && ValidRevision(s[k1 + 1..])
    requires StrRChr(s[..k1], '-') == Some(k2) && ValidFullVersion(s[k2 + 1..k1]) && !ValidFullName(s[..k2])
    ensures !FullPkgStep(r).0 && PkgFullPkg(s).None? && FullPkgStep(r).1 == FullFailure(r, s)
  {
    PkgCuts(s, k1, k2);
    FullBadName(r, s, k1, k2);
  }

  /** The full split with all three parts valid: both sides succeed, with the same parts. */
  lemma MeaningSplits(r: Record, prefix: seq<char>, s: seq<char>, arch: seq<char>, suffix: seq<char>, k1: nat, k2: nat)
    requires PreStepped(r, prefix, s, arch, suffix) && NoNul(s) && StrRChr(s, '-') == Some(k1) && ValidRevision(s[k1 + 1..])
    requires StrRChr(s[..k1], '-') == Some(k2) && ValidFullVersion(s[k2 + 1..k1]) && ValidFullName(s[..k2])
    ensures FullPkgStep(r).0 && PkgFullPkg(s).Some?
    ensures Shows(FullPkgStep(r).1, prefix, WithExtras(PkgFullPkg(s).value), arch, suffix)
  {
    PkgCuts(s, k1, k2);
    FullSplits(r, prefix, s, arch, suffix, k1, k2);
  }

  /** _parse_pkgfullpkg on the name `s` the pre-steps left: it succeeds exactly when
      PkgFullPkg does, and then the fields read the parts WithExtras gives, with prefix,
      arch and suffix kept; when it fails, the buffer is as before and only the stale
      pointers of FullFailure differ. */
  lemma FullPkgMeaning(r: Record, prefix: seq<char>, s: seq<char>, arch: seq<char>, suffix: seq<char>)
    requires PreStepped(r, prefix, s, arch, suffix) && NoNul(s)
    ensures FullPkgStep(r).0 == PkgFullPkg(s).Some?
    ensures FullPkgStep(r).0 ==> Shows(FullPkgStep(r).1, prefix, WithExtras(PkgFullPkg(s).value), arch, suffix)
    ensures !FullPkgStep(r).0 ==> FullPkgStep(r).1 == FullFailure(r, s)
  {
    match StrRChr(s, '-')
    case None => MeaningNoRevision(r, prefix, s, arch, suffix);
    case Some(k1) =>
      if !ValidRevision(s[k1 + 1..]) {
        MeaningNoRevision(r, prefix, s, arch, suffix);
      } else {
        match StrRChr(s[..k1], '-')
        case None => MeaningNoVersion(r, prefix, s, arch, suffix, k1);
        case Some(k2) =>
          if !ValidFullVersion(s[k2 + 1..k1]) {
            MeaningNoVersion(r, prefix, s, arch, suffix, k1);
          } else if !ValidFullName(s[..k2]) {
            MeaningBadName(r, prefix, s, arch, suffix, k1, k2);
          } else {
            MeaningSplits(r, prefix, s, arch, suffix, k1, k2);
          }
      }
  }
}
