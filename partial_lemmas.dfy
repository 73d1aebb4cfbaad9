/** The partial split of bee_version_parse (_parse_partialpkg) on the record, read on the
    name string: the pointers its decision diagram finds are those of the candidates
    PartialCandidates gives, and the fields it leaves are those PkgPartial and WithExtras
    give, with the revision left stale by a failed full split where the partial split
    sets none. */
module PartialProperties {
  import opened CStrings
  import opened BeeTypes
  import opened Validators
  import opened Segmentation
  import opened ParseSteps
  import opened ParseStepsProperties
  import opened SplitProperties

  /*------------------------------------------------------------------------
     The three shapes of the candidates
   ------------------------------------------------------------------------*/

  /** No '-', or no valid full version after the last one: the whole name, nothing else. */
  lemma CandidatesWhole(s: seq<char>)
    requires NoNul(s)
    requires StrRChr(s, '-').None? || !ValidFullVersion(s[StrRChr(s, '-').value + 1..])
    ensures PartialCandidates(s) == Triple(s, [], [])
  {
    match StrRChr(s, '-')
    case None =>
    case Some(k1) =>
      assert LastCut(s, '-') == Some(Cut(s[..k1], s[k1 + 1..]));
      RevisionIsFullVersion(s[k1 + 1..]);
  }

  /** A valid revision after the last '-' (at `k1`) and a valid full version after the
      '-' before it (at `k2`): name, version and revision. */
  lemma CandidatesThree(s: seq<char>, k1: nat, k2: nat)
    requires NoNul(s) && StrRChr(s, '-') == Some(k1) && ValidRevision(s[k1 + 1..])
    requires StrRChr(s[..k1], '-') == Some(k2) && ValidFullVersion(s[k2 + 1..k1])
    ensures PartialCandidates(s) == Triple(s[..k2], s[k2 + 1..k1], s[k1 + 1..])
  {
    assert LastCut(s, '-') == Some(Cut(s[..k1], s[k1 + 1..]));
    assert s[..k1][..k2] == s[..k2];
    assert s[..k1][k2 + 1..] == s[k2 + 1..k1];
    assert LastCut(s[..k1], '-') == Some(Cut(s[..k2], s[k2 + 1..k1]));
  }

  /** Otherwise, with a valid full version after the last '-': name and version. */
  lemma CandidatesTwo(s: seq<char>, k1: nat)
    requires NoNul(s) && StrRChr(s, '-') == Some(k1) && ValidFullVersion(s[k1 + 1..])
    requires !ValidRevision(s[k1 + 1..]) || StrRChr(s[..k1], '-').None? ||
             !ValidFullVersion(s[StrRChr(s[..k1], '-').value + 1..k1])
    ensures PartialCandidates(s) == Triple(s[..k1], s[k1 + 1..], [])
  {
    assert LastCut(s, '-') == Some(Cut(s[..k1], s[k1 + 1..]));
    match StrRChr(s[..k1], '-')
    case None =>
    case Some(k2) =>
      assert s[..k1][..k2] == s[..k2];
      assert s[..k1][k2 + 1..] == s[k2 + 1..k1];
      assert LastCut(s[..k1], '-') == Some(Cut(s[..k2], s[k2 + 1..k1]));
  }

  /*------------------------------------------------------------------------
     The pointers of the decision diagram
   ------------------------------------------------------------------------*/

  /** The revision cut of the partial split at offset `k1` of the name `s`: the name is the
      text before it, the text after the '-' before it (when there is one) is kept. */
  lemma PartialCutLook(q: Record, s: seq<char>, k1: nat)
    requires Wf(q) && Field(q, q.name) == s && k1 < |s|
    ensures var x := CutName(q, q.name + k1);
            Field(x, x.name) == s[..k1] && Field(x, q.name + k1 + 1) == s[k1 + 1..] &&
            match StrRChr(s[..k1], '-')
            case None => LastDash(x).None?
            case Some(k2) => LastDash(x) == Some(q.name + k2) && Field(x, q.name + k2 + 1) == s[k2 + 1..k1]
  {
    DashCut(q, s, k1);
    var x := CutName(q, q.name + k1);
    DashLook(x, s[..k1]);
    match StrRChr(s[..k1], '-')
    case None =>
    case Some(k2) => assert s[..k1][k2 + 1..] == s[k2 + 1..k1];
  }

  /** The diagram after the last '-' at `rp`: a valid revision after it leads to the
      revision cut. */
  lemma PointersAfterRevision(q: Record, rp: nat)
    requires Wf(q) && LastDash(q) == Some(rp) && ValidRevision(Field(q, rp + 1))
    ensures PartialPointers(q) == PartialAfterRevisionCut(q, rp)
  {
  }

  /** Without a valid revision there, a valid full version there is the version. */
  lemma PointersNoRevision(q: Record, rp: nat)
    requires Wf(q) && LastDash(q) == Some(rp) && !ValidRevision(Field(q, rp + 1))
    ensures PartialPointers(q) == if ValidFullVersion(Field(q, rp + 1)) then Pointers(Some(rp + 1), None) else Pointers(None, None)
  {
  }

  /** After the revision cut, a valid full version after the '-' at `vp` before it gives
      both pointers. */
  lemma AfterCutBoth(q: Record, rp: nat, vp: nat)
    requires Wf(q) && LastDash(q) == Some(rp)
    requires var x := CutName(q, rp); LastDash(x) == Some(vp) && ValidFullVersion(Field(x, vp + 1))
    ensures PartialAfterRevisionCut(q, rp) == Pointers(Some(vp + 1), Some(rp + 1))
  {
  }

  /** After the revision cut, without such a version, the revision is taken as the version
      (it is a valid full version, since it is a valid revision). */
  lemma AfterCutOne(q: Record, rp: nat)
    requires Wf(q) && LastDash(q) == Some(rp) && ValidFullVersion(Field(q, rp + 1))
    requires var x := CutName(q, rp);
             Field(x, rp + 1) == Field(q, rp + 1) &&
             (LastDash(x).None? || !ValidFullVersion(Field(x, LastDash(x).value + 1)))
    ensures PartialAfterRevisionCut(q, rp) == Pointers(Some(rp + 1), None)
  {
  }

  /** No cut: both pointers absent. */
  lemma PointersWhole(q: Record, s: seq<char>)
    requires Wf(q) && Field(q, q.name) == s && NoNul(s)
    requires StrRChr(s, '-').None? || !ValidFullVersion(s[StrRChr(s, '-').value + 1..])
    ensures PartialPointers(q) == Pointers(None, None)
  {
    DashLook(q, s);
    match StrRChr(s, '-')
    case None =>
    case Some(k1) =>
      assert NoNul(s[k1 + 1..]);
      RevisionIsFullVersion(s[k1 + 1..]);
      PointersNoRevision(q, q.name + k1);
  }

  /** Both '-' of the two-cut shape, found by strrchr on the record. */
  lemma ThreeFound(q: Record, s: seq<char>, k1: nat, k2: nat)
    requires Wf(q) && Field(q, q.name) == s && StrRChr(s, '-') == Some(k1) && ValidRevision(s[k1 + 1..])
    requires StrRChr(s[..k1], '-') == Some(k2) && ValidFullVersion(s[k2 + 1..k1])
    ensures LastDash(q) == Some(q.name + k1) && ValidRevision(Field(q, q.name + k1 + 1))
    ensures var x := CutName(q, q.name + k1);
            LastDash(x) == Some(q.name + k2) && ValidFullVersion(Field(x, q.name + k2 + 1))
  {
    DashLook(q, s);
    PartialCutLook(q, s, k1);
  }

  /** Two cuts: the version after the '-' at `k2`, the revision after the one at `k1`. */
  lemma PointersThree(q: Record, s: seq<char>, k1: nat, k2: nat)
    requires Wf(q) && Field(q, q.name) == s && StrRChr(s, '-') == Some(k1) && ValidRevision(s[k1 + 1..])
    requires StrRChr(s[..k1], '-') == Some(k2) && ValidFullVersion(s[k2 + 1..k1])
    ensures PartialPointers(q) == Pointers(Some(q.name + k2 + 1), Some(q.name + k1 + 1))
  {
    ThreeFound(q, s, k1, k2);
    PointersAfterRevision(q, q.name + k1);
    AfterCutBoth(q, q.name + k1, q.name + k2);
  }

  /** One cut: the version after the last '-'. */
  lemma PointersTwo(q: Record, s: seq<char>, k1: nat)
    requires Wf(q) && Field(q, q.name) == s && NoNul(s) && StrRChr(s, '-') == Some(k1) && ValidFullVersion(s[k1 + 1..])
    requires !ValidRevision(s[k1 + 1..]) || StrRChr(s[..k1], '-').None? ||
             !ValidFullVersion(s[StrRChr(s[..k1], '-').value + 1..k1])
    ensures PartialPointers(q) == Pointers(Some(q.name + k1 + 1), None)
  {
    DashLook(q, s);
    if ValidRevision(s[k1 + 1..]) {
      PartialCutLook(q, s, k1);
      PointersAfterRevision(q, q.name + k1);
      AfterCutOne(q, q.name + k1);
    } else {
      PointersNoRevision(q, q.name + k1);
    }
  }

  /*------------------------------------------------------------------------
     finish_parsename
   ------------------------------------------------------------------------*/

  /** An invalid name in the cut buffer: the cuts are undone and the name pointer set to
      the extra name's. */
  lemma FinishStops(q: Record, ver: Option<nat>, rev: Option<nat>)
    requires Wf(q) && AfterDash(q.input.chars, ver) && AfterDash(q.input.chars, rev)
    requires ver.Some? && rev.Some? ==> ver.value != rev.value
    requires var x := q.(input := Buffer(PartialCuts(q.input.chars, ver, rev))); !ValidFullName(Field(x, x.name))
    ensures PartialFinish(q, ver, rev) == (false, q.(name := q.extraname))
  {
  }

  /** A failed _parse_partialpkg writes back every '-' it cut: the buffer and the other
      pointers are as before, and the name pointer is the extra name's (an empty string). */
  lemma PartialFailureRestores(r: Record)
    requires Wf(r)
    ensures !PartialStep(r).0 ==> PartialStep(r).1 == r.(name := r.extraname)
    ensures !PartialStep(r).0 ==> View(PartialStep(r).1).name == Field(r, r.extraname)
  {
    var p := PartialPointers(r);
    var x := r.(input := Buffer(PartialCuts(r.input.chars, p.ver, p.rev)));
    if !ValidFullName(Field(x, x.name)) {
      FinishStops(r, p.ver, p.rev);
    }
  }

  /** A valid name: the pointers are assigned and the sub-splits follow. */
  lemma FinishGoes(q: Record, ver: Option<nat>, rev: Option<nat>)
    requires Wf(q) && AfterDash(q.input.chars, ver) && AfterDash(q.input.chars, rev)
    requires ver.Some? && rev.Some? ==> ver.value != rev.value
    requires var x := q.(input := Buffer(PartialCuts(q.input.chars, ver, rev))); ValidFullName(Field(x, x.name))
    ensures var x := q.(input := Buffer(PartialCuts(q.input.chars, ver, rev)));
            PartialFinish(q, ver, rev) == (true, PartialAssign(x, ver, rev))
  {
  }

  /** _parse_pkgfullversion leaves the revision pointer alone, so it can be assigned before
      or after it. */
  lemma VersionStepRevision(x: Record, rv: nat)
    requires Wf(x) && rv < |x.input.chars|
    ensures FullVersionStep(x).(revision := rv) == FullVersionStep(x.(revision := rv))
  {
  }

  /** With both pointers, the success path is the two sub-splits of the record with both
      pointers assigned. */
  lemma AssignBoth(x: Record, v: nat, rv: nat)
    requires Wf(x) && v < |x.input.chars| && rv < |x.input.chars|
    ensures PartialAssign(x, Some(v), Some(rv)) == FullNameStep(FullVersionStep(x.(version := v, revision := rv)))
  {
    VersionStepRevision(x.(version := v), rv);
  }

  /** In the three-part shape, the buffer and pointers finish_parsename works with are
      those of the full split with both cuts made: the same record. */
  lemma ThreeRecord(r: Record, q: Record, s: seq<char>, k1: nat, k2: nat)
    requires Wf(r) && Field(r, r.name) == s && StrRChr(s, '-') == Some(k1) && StrRChr(s[..k1], '-') == Some(k2)
    requires q == r.(revision := q.revision, version := q.version) && q.revision < |r.input.chars| && q.version < |r.input.chars|
    ensures LastDash(r) == Some(r.name + k1)
    ensures var r1 := CutName(r, r.name + k1).(revision := r.name + k1 + 1);
            LastDash(r1) == Some(r.name + k2) &&
            var r2 := CutName(r1, r.name + k2).(version := r.name + k2 + 1);
            AfterDash(q.input.chars, Some(q.name + k2 + 1)) && AfterDash(q.input.chars, Some(q.name + k1 + 1)) &&
            var x := q.(input := Buffer(PartialCuts(q.input.chars, Some(q.name + k2 + 1), Some(q.name + k1 + 1))));
            x.(version := q.name + k2 + 1, revision := q.name + k1 + 1) == r2
  {
    OneCut(r, s, k1, k2);
  }

  /** In the cut buffer with the pointers `v` and `rv` assigned, the parts of `t` lie inside
      the name `r` had, and everything outside it is as in `r`. */
  ghost predicate ThreeLaid(r: Record, q: Record, prefix: seq<char>, arch: seq<char>, suffix: seq<char>, v: nat, rv: nat, t: Triple)
  {
    Wf(r) && PreStepped(r, prefix, Field(r, r.name), arch, suffix) && Wf(q) &&
    AfterDash(q.input.chars, Some(v)) && AfterDash(q.input.chars, Some(rv)) && v != rv &&
    var x := q.(input := Buffer(PartialCuts(q.input.chars, Some(v), Some(rv))));
    var r2 := x.(version := v, revision := rv);
    Laid(r2, t) && r2.name == r.name && r2.prefix == r.prefix && r2.arch == r.arch && r2.suffix == r.suffix &&
    r2.revision + |t.revision| <= r.name + |Field(r, r.name)| &&
    SameOutside(r.input.chars, r2.input.chars, r.name, r.name + |Field(r, r.name)|)
  }

  /** The three-part shape at record level: finish_parsename succeeds exactly when the name
      validates, and then the sub-splits leave the parts of `t` with their extras. */
  lemma ThreeShow(r: Record, q: Record, prefix: seq<char>, arch: seq<char>, suffix: seq<char>, v: nat, rv: nat, t: Triple)
    requires ThreeLaid(r, q, prefix, arch, suffix, v, rv, t)
    ensures PartialFinish(q, Some(v), Some(rv)).0 == ValidFullName(t.name)
    ensures ValidFullName(t.name) ==> Shows(PartialFinish(q, Some(v), Some(rv)).1, prefix, WithExtras(t), arch, suffix)
  {
    var x := q.(input := Buffer(PartialCuts(q.input.chars, Some(v), Some(rv))));
    if ValidFullName(t.name) {
      FinishGoes(q, Some(v), Some(rv));
      AssignBoth(x, v, rv);
      ExtrasShow(r, x.(version := v, revision := rv), t, prefix, arch, suffix);
    } else {
      FinishStops(q, Some(v), Some(rv));
    }
  }

  /** The three-part shape of the name gives the layout of the cut buffer. */
  lemma ThreeLaidOf(r: Record, q: Record, prefix: seq<char>, s: seq<char>, arch: seq<char>, suffix: seq<char>, k1: nat, k2: nat)
    requires PreStepped(r, prefix, s, arch, suffix) && StrRChr(s, '-') == Some(k1) && ValidRevision(s[k1 + 1..])
    requires StrRChr(s[..k1], '-') == Some(k2) && ValidFullVersion(s[k2 + 1..k1])
    requires q == r.(revision := q.revision, version := q.version) && q.revision < |r.input.chars| && q.version < |r.input.chars|
    ensures ThreeLaid(r, q, prefix, arch, suffix, q.name + k2 + 1, q.name + k1 + 1, Triple(s[..k2], s[k2 + 1..k1], s[k1 + 1..]))
  {
    TwoCuts(r, s, k1, k2);
    ThreeRecord(r, q, s, k1, k2);
  }

  /** finish_parsename in the three-part shape. */
  lemma ThreeFinish(r: Record, q: Record, prefix: seq<char>, s: seq<char>, arch: seq<char>, suffix: seq<char>, k1: nat, k2: nat)
    requires PreStepped(r, prefix, s, arch, suffix) && StrRChr(s, '-') == Some(k1) && ValidRevision(s[k1 + 1..])
    requires StrRChr(s[..k1], '-') == Some(k2) && ValidFullVersion(s[k2 + 1..k1])
    requires q == r.(revision := q.revision, version := q.version) && q.revision < |r.input.chars| && q.version < |r.input.chars|
    ensures AfterDash(q.input.chars, Some(q.name + k2 + 1)) && AfterDash(q.input.chars, Some(q.name + k1 + 1))
    ensures var f := PartialFinish(q, Some(q.name + k2 + 1), Some(q.name + k1 + 1));
            f.0 == ValidFullName(s[..k2]) &&
            (f.0 ==> Shows(f.1, prefix, WithExtras(Triple(s[..k2], s[k2 + 1..k1], s[k1 + 1..])), arch, suffix))
  {
    ThreeLaidOf(r, q, prefix, s, arch, suffix, k1, k2);
    ThreeShow(r, q, prefix, arch, suffix, q.name + k2 + 1, q.name + k1 + 1, Triple(s[..k2], s[k2 + 1..k1], s[k1 + 1..]));
  }

  /** The three-part shape: the partial split succeeds exactly when the name before the
      version validates, and then leaves the fields the full split would. */
  lemma PartialThree(r: Record, q: Record, prefix: seq<char>, s: seq<char>, arch: seq<char>, suffix: seq<char>, k1: nat, k2: nat)
    requires PreStepped(r, prefix, s, arch, suffix) && StrRChr(s, '-') == Some(k1) && ValidRevision(s[k1 + 1..])
    requires StrRChr(s[..k1], '-') == Some(k2) && ValidFullVersion(s[k2 + 1..k1])
    requires q == r.(revision := q.revision, version := q.version) && q.revision < |r.input.chars| && q.version < |r.input.chars|
    ensures PartialStep(q).0 == ValidFullName(s[..k2])
    ensures PartialStep(q).0 ==> Shows(PartialStep(q).1, prefix, WithExtras(Triple(s[..k2], s[k2 + 1..k1], s[k1 + 1..])), arch, suffix)
  {
    PointersThree(q, s, k1, k2);
    ThreeFinish(r, q, prefix, s, arch, suffix, k1, k2);
  }

  /*------------------------------------------------------------------------
     The `_` sub-splits with a pointer that may rest on the terminator
   ------------------------------------------------------------------------*/

  /** _parse_pkgfullname with the extra name on the terminator: the name is split at its
      first '_', no other pointer moves, and only the name's span is written. */
  lemma NameStepMeaning(y: Record)
    requires Wf(y) && y.extraname == End(y)
    ensures var z := FullNameStep(y);
            var n := SplitFirst(Field(y, y.name), '_');
            Wf(z) && z.(input := y.input, extraname := y.extraname) == y &&
            Field(z, z.name) == n.head && Field(z, z.extraname) == n.tail &&
            SameOutside(y.input.chars, z.input.chars, y.name, y.name + |Field(y, y.name)|)
  {
    AtEnd(y);
    match StrChr(Field(y, y.name), '_')
    case None =>
    case Some(j) =>
      CutFields(y, y.name, y.name + j);
  }

  /** A string that starts after the name's first '_' is kept by _parse_pkgfullname. */
  lemma NameStepKeeps(y: Record, q: nat)
    requires Wf(y) && q < |y.input.chars|
    requires match StrChr(Field(y, y.name), '_') case None => true case Some(j) => y.name + j < q
    ensures Field(FullNameStep(y), q) == Field(y, q)
  {
    match StrChr(Field(y, y.name), '_')
    case None =>
    case Some(j) =>
      CutKeeps(y, y.name, y.name + j, q);
  }

  /** _parse_pkgfullversion with the extra version on the terminator: the version is split
      at its first '_', no other pointer moves, and only the version's span is written. */
  lemma VersionStepMeaning(y: Record)
    requires Wf(y) && y.extraversion == End(y)
    ensures var z := FullVersionStep(y);
            var v := SplitFirst(Field(y, y.version), '_');
            Wf(z) && z.(input := y.input, extraversion := y.extraversion) == y &&
            Field(z, z.version) == v.head && Field(z, z.extraversion) == v.tail &&
            SameOutside(y.input.chars, z.input.chars, y.version, y.version + |Field(y, y.version)|)
  {
    AtEnd(y);
    match StrChr(Field(y, y.version), '_')
    case None =>
    case Some(j) =>
      CutFields(y, y.version, y.version + j);
  }

  /** A string that starts after the version's first '_', or ends before it, is kept by
      _parse_pkgfullversion. */
  lemma VersionStepKeeps(y: Record, q: nat)
    requires Wf(y) && q < |y.input.chars|
    requires match StrChr(Field(y, y.version), '_')
             case None => true
             case Some(j) => y.version + j < q || q + |Field(y, q)| < y.version + j
    ensures Field(FullVersionStep(y), q) == Field(y, q)
  {
    match StrChr(Field(y, y.version), '_')
    case None =>
    case Some(j) =>
      CutKeeps(y, y.version, y.version + j, q);
  }

  /** A buffer equal outside a span is equal outside any span around it. */
  lemma SameOutsideWiden(a: seq<char>, b: seq<char>, lo: nat, hi: nat, lo2: nat, hi2: nat)
    requires SameOutside(a, b, lo2, hi2) && lo <= lo2 && hi2 <= hi
    ensures SameOutside(a, b, lo, hi)
  {
  }

  /** _parse_pkgfullversion with the version pointer `v` assigned: the version is split at
      its first '_'; the name and the revision pointer (on the terminator, or a stale copy of
      `v` when the version has no '_') read what they read before. */
  lemma VersionPart(x: Record, v: nat, name: seq<char>, version: seq<char>)
    requires Wf(x) && v < |x.input.chars| && Field(x, x.name) == name && Field(x, v) == version
    requires x.name + |name| < v && x.extraname == End(x) && x.extraversion == End(x)
    requires x.revision == End(x) || (x.revision == v && '_' !in version)
    ensures var y := FullVersionStep(x.(version := v));
            var w := SplitFirst(version, '_');
            Wf(y) && y.name == x.name && y.version == v && y.revision == x.revision && y.extraname == x.extraname &&
            y.prefix == x.prefix && y.arch == x.arch && y.suffix == x.suffix &&
            Field(y, y.name) == name && Field(y, y.version) == w.head && Field(y, y.extraversion) == w.tail &&
            Field(y, y.revision) == Field(x, x.revision) &&
            x.name + |name| < y.extraversion && x.name + |name| < y.revision &&
            SameOutside(x.input.chars, y.input.chars, v, v + |version|)
  {
    var y := x.(version := v);
    AtEnd(x);
    CStrEnds(y.input.chars, v);
    VersionStepMeaning(y);
    VersionStepKeeps(y, y.name);
    if x.revision == End(x) {
      VersionStepKeeps(y, y.revision);
    }
  }

  /** finish_parsename with a version pointer `v` and no revision pointer, on the cut
      buffer `x`: the version and the name are split at their first '_'.  The revision
      pointer rests on the terminator, or is a stale copy of `v` when the version (then a
      revision too) has no '_'; it reads what it read before. */
  lemma AssignVersion(x: Record, v: nat, name: seq<char>, version: seq<char>)
    requires Wf(x) && v < |x.input.chars| && Field(x, x.name) == name && Field(x, v) == version
    requires x.name + |name| < v && x.extraname == End(x) && x.extraversion == End(x)
    requires x.revision == End(x) || (x.revision == v && '_' !in version)
    ensures var z := PartialAssign(x, Some(v), None);
            var c := WithExtras(Triple(name, version, Field(x, x.revision)));
            Wf(z) && z.name == x.name && z.prefix == x.prefix && z.arch == x.arch && z.suffix == x.suffix &&
            Field(z, z.name) == c.name && Field(z, z.extraname) == c.extraname &&
            Field(z, z.version) == c.version && Field(z, z.extraversion) == c.extraversion &&
            Field(z, z.revision) == c.revision &&
            SameOutside(x.input.chars, z.input.chars, x.name, v + |version|)
  {
    VersionPart(x, v, name, version);
    var y := FullVersionStep(x.(version := v));
    var w := SplitFirst(version, '_');
    NameSub(y, name, w.head, w.tail, Field(x, x.revision));
    var z := FullNameStep(y);
    SameOutsideWiden(x.input.chars, y.input.chars, x.name, v + |version|, v, v + |version|);
    SameOutsideTrans(x.input.chars, y.input.chars, z.input.chars, x.name, v + |version|, x.name, x.name + |name|);
  }

  /** finish_parsename with neither pointer, on the uncut buffer `x`: only the name is split
      at its first '_'.  The revision pointer rests on the terminator, or is a stale pointer
      past the name's first '_'; it reads what it read before. */
  lemma AssignNone(x: Record, name: seq<char>)
    requires Wf(x) && Field(x, x.name) == name
    requires x.extraname == End(x) && x.version == End(x) && x.extraversion == End(x)
    requires match StrChr(name, '_') case None => true case Some(j) => x.name + j < x.revision
    ensures var z := PartialAssign(x, None, None);
            var c := WithExtras(Triple(name, [], Field(x, x.revision)));
            Wf(z) && z.name == x.name && z.prefix == x.prefix && z.arch == x.arch && z.suffix == x.suffix &&
            Field(z, z.name) == c.name && Field(z, z.extraname) == c.extraname &&
            Field(z, z.version) == c.version && Field(z, z.extraversion) == c.extraversion &&
            Field(z, z.revision) == c.revision &&
            SameOutside(x.input.chars, z.input.chars, x.name, x.name + |name|)
  {
    AtEnd(x);
    NameStepMeaning(x);
    CStrEnds(x.input.chars, x.name);
    NameStepKeeps(x, x.version);
    NameStepKeeps(x, x.revision);
  }

  /** Prefix, arch and suffix pointers as in `r`, the buffer as in `r` outside the name `r`
      had: the strings the pre-steps left there are still read. */
  lemma KeptShow(r: Record, z: Record, prefix: seq<char>, arch: seq<char>, suffix: seq<char>, c: Core)
    requires Wf(r) && PreStepped(r, prefix, Field(r, r.name), arch, suffix) && Wf(z)
    requires z.prefix == r.prefix && z.arch == r.arch && z.suffix == r.suffix
    requires Field(z, z.name) == c.name && Field(z, z.extraname) == c.extraname &&
             Field(z, z.version) == c.version && Field(z, z.extraversion) == c.extraversion &&
             Field(z, z.revision) == c.revision
    requires SameOutside(r.input.chars, z.input.chars, r.name, r.name + |Field(r, r.name)|)
    ensures Shows(z, prefix, c, arch, suffix)
  {
    var hi := r.name + |Field(r, r.name)|;
    CStrKept(r.input.chars, z.input.chars, r.name, hi, r.prefix);
    CStrKept(r.input.chars, z.input.chars, r.name, hi, r.arch);
    CStrKept(r.input.chars, z.input.chars, r.name, hi, r.suffix);
  }

  /** The cut buffer `x` of the version-only shape: the name reads `name` and the version
      pointer `v` reads `version`, both inside the name `r` had; the revision pointer reads
      `revision` from the terminator or, stale, from `v`; the rest is as in `r`. */
  ghost predicate VersionLaid(r: Record, x: Record, prefix: seq<char>, arch: seq<char>, suffix: seq<char>,
                              v: nat, name: seq<char>, version: seq<char>, revision: seq<char>)
  {
    Wf(r) && PreStepped(r, prefix, Field(r, r.name), arch, suffix) && Wf(x) && v < |x.input.chars| &&
    Field(x, x.name) == name && Field(x, v) == version && x.name + |name| < v &&
    x.extraname == End(x) && x.extraversion == End(x) &&
    ((x.revision == End(x) && revision == []) || (x.revision == v && revision == version && '_' !in version)) &&
    x.name == r.name && x.prefix == r.prefix && x.arch == r.arch && x.suffix == r.suffix &&
    v + |version| <= r.name + |Field(r, r.name)| &&
    SameOutside(r.input.chars, x.input.chars, r.name, r.name + |Field(r, r.name)|)
  }

  /** The success path of the version-only shape: the version and the name split at their
      first '_', the revision as the pointer reads it, prefix, arch and suffix kept. */
  lemma VersionShow(r: Record, x: Record, prefix: seq<char>, arch: seq<char>, suffix: seq<char>,
                    v: nat, name: seq<char>, version: seq<char>, revision: seq<char>)
    requires VersionLaid(r, x, prefix, arch, suffix, v, name, version, revision)
    ensures Shows(PartialAssign(x, Some(v), None), prefix, WithExtras(Triple(name, version, revision)), arch, suffix)
  {
    var hi := r.name + |Field(r, r.name)|;
    AtEnd(x);
    AssignVersion(x, v, name, version);
    var z := PartialAssign(x, Some(v), None);
    SameOutsideWiden(x.input.chars, z.input.chars, r.name, hi, x.name, v + |version|);
    SameOutsideTrans(r.input.chars, x.input.chars, z.input.chars, r.name, hi, r.name, hi);
    KeptShow(r, z, prefix, arch, suffix, WithExtras(Triple(name, version, revision)));
  }

  /** The version-only shape at record level: finish_parsename succeeds exactly when the
      name validates, and then leaves the name and version with their extras and the
      revision the pointer reads. */
  lemma TwoShow(r: Record, q: Record, prefix: seq<char>, arch: seq<char>, suffix: seq<char>,
                v: nat, name: seq<char>, version: seq<char>, revision: seq<char>)
    requires Wf(q) && AfterDash(q.input.chars, Some(v))
    requires VersionLaid(r, q.(input := Buffer(PartialCuts(q.input.chars, Some(v), None))), prefix, arch, suffix,
                         v, name, version, revision)
    ensures PartialFinish(q, Some(v), None).0 == ValidFullName(name)
    ensures ValidFullName(name) ==>
              Shows(PartialFinish(q, Some(v), None).1, prefix, WithExtras(Triple(name, version, revision)), arch, suffix)
  {
    var x := q.(input := Buffer(PartialCuts(q.input.chars, Some(v), None)));
    if ValidFullName(name) {
      FinishGoes(q, Some(v), None);
      VersionShow(r, x, prefix, arch, suffix, v, name, version, revision);
    } else {
      FinishStops(q, Some(v), None);
    }
  }

  /** With only a version pointer after the '-' at `d`, the cut buffer is the name cut at
      `d`. */
  lemma CutOneBuffer(q: Record, d: nat)
    requires Wf(q) && q.name <= d < q.name + |Field(q, q.name)| && q.input.chars[d] == '-'
    ensures AfterDash(q.input.chars, Some(d + 1))
    ensures q.(input := Buffer(PartialCuts(q.input.chars, Some(d + 1), None))) == CutName(q, d)
  {
    CStrEnds(q.input.chars, q.name);
  }

  /** The cut at the '-' at `d` of the name lays out the buffer as VersionLaid says, given
      what the cut name and the text after `d` read. */
  lemma TwoLaidAt(r: Record, q: Record, prefix: seq<char>, arch: seq<char>, suffix: seq<char>,
                  d: nat, name: seq<char>, version: seq<char>, revision: seq<char>)
    requires Wf(r) && PreStepped(r, prefix, Field(r, r.name), arch, suffix)
    requires q == r.(revision := q.revision, version := q.version) && q.revision < |r.input.chars| && q.version < |r.input.chars|
    requires r.name <= d < r.name + |Field(r, r.name)| && r.input.chars[d] == '-'
    requires var x := CutName(q, d);
             Field(x, x.name) == name && Field(x, d + 1) == version && |name| == d - r.name &&
             d + 1 + |version| <= r.name + |Field(r, r.name)|
    requires (q.revision == End(r) && revision == []) || (q.revision == d + 1 && revision == version && '_' !in version)
    ensures AfterDash(q.input.chars, Some(d + 1))
    ensures VersionLaid(r, q.(input := Buffer(PartialCuts(q.input.chars, Some(d + 1), None))), prefix, arch, suffix,
                        d + 1, name, version, revision)
  {
    CutOneBuffer(q, d);
  }

  /** The version-only shape of the name lays out the cut buffer as VersionLaid says. */
  lemma TwoLaidOf(r: Record, q: Record, prefix: seq<char>, s: seq<char>, arch: seq<char>, suffix: seq<char>,
                  k1: nat, revision: seq<char>)
    requires PreStepped(r, prefix, s, arch, suffix) && NoNul(s) && StrRChr(s, '-') == Some(k1)
    requires q == r.(revision := q.revision, version := q.version) && q.revision < |r.input.chars| && q.version < |r.input.chars|
    requires (q.revision == End(r) && revision == []) ||
             (q.revision == r.name + k1 + 1 && ValidRevision(s[k1 + 1..]) && revision == s[k1 + 1..])
    ensures AfterDash(q.input.chars, Some(q.name + k1 + 1))
    ensures VersionLaid(r, q.(input := Buffer(PartialCuts(q.input.chars, Some(q.name + k1 + 1), None))), prefix, arch, suffix,
                        q.name + k1 + 1, s[..k1], s[k1 + 1..], revision)
  {
    DashLook(q, s);
    PartialCutLook(q, s, k1);
    if q.revision != End(r) {
      assert NoNul(s[k1 + 1..]);
      ValidRevisionMeans(s[k1 + 1..]);
    }
    TwoLaidAt(r, q, prefix, arch, suffix, q.name + k1, s[..k1], s[k1 + 1..], revision);
  }

  /** finish_parsename in the version-only shape, from the strings: the version after the
      last '-', the revision pointer on the terminator or, stale from the full split, on the
      version. */
  lemma TwoFinish(r: Record, q: Record, prefix: seq<char>, s: seq<char>, arch: seq<char>, suffix: seq<char>,
                  k1: nat, revision: seq<char>)
    requires PreStepped(r, prefix, s, arch, suffix) && NoNul(s) && StrRChr(s, '-') == Some(k1)
    requires q == r.(revision := q.revision, version := q.version) && q.revision < |r.input.chars| && q.version < |r.input.chars|
    requires (q.revision == End(r) && revision == []) ||
             (q.revision == r.name + k1 + 1 && ValidRevision(s[k1 + 1..]) && revision == s[k1 + 1..])
    ensures AfterDash(q.input.chars, Some(q.name + k1 + 1))
    ensures var f := PartialFinish(q, Some(q.name + k1 + 1), None);
            f.0 == ValidFullName(s[..k1]) &&
            (f.0 ==> Shows(f.1, prefix, WithExtras(Triple(s[..k1], s[k1 + 1..], revision)), arch, suffix))
  {
    TwoLaidOf(r, q, prefix, s, arch, suffix, k1, revision);
    TwoShow(r, q, prefix, arch, suffix, q.name + k1 + 1, s[..k1], s[k1 + 1..], revision);
  }

  /** The version-only shape: the partial split succeeds exactly when the name before the
      last '-' validates, and then leaves that name and the version after it. */
  lemma PartialTwo(r: Record, q: Record, prefix: seq<char>, s: seq<char>, arch: seq<char>, suffix: seq<char>,
                   k1: nat, revision: seq<char>)
    requires PreStepped(r, prefix, s, arch, suffix) && NoNul(s) && StrRChr(s, '-') == Some(k1) && ValidFullVersion(s[k1 + 1..])
    requires !ValidRevision(s[k1 + 1..]) || StrRChr(s[..k1], '-').None? ||
             !ValidFullVersion(s[StrRChr(s[..k1], '-').value + 1..k1])
    requires q == r.(revision := q.revision, version := q.version) && q.revision < |r.input.chars| && q.version < |r.input.chars|
    requires (q.revision == End(r) && revision == []) ||
             (q.revision == r.name + k1 + 1 && ValidRevision(s[k1 + 1..]) && revision == s[k1 + 1..])
    ensures PartialStep(q).0 == ValidFullName(s[..k1])
    ensures PartialStep(q).0 ==> Shows(PartialStep(q).1, prefix, WithExtras(Triple(s[..k1], s[k1 + 1..], revision)), arch, suffix)
  {
    PointersTwo(q, s, k1);
    TwoFinish(r, q, prefix, s, arch, suffix, k1, revision);
  }

  /** finish_parsename with neither pointer, on the record the pre-steps left: the whole
      name is checked and split at its first '_'. */
  lemma WholeShow(r: Record, prefix: seq<char>, s: seq<char>, arch: seq<char>, suffix: seq<char>)
    requires PreStepped(r, prefix, s, arch, suffix)
    ensures PartialFinish(r, None, None).0 == ValidFullName(s)
    ensures ValidFullName(s) ==> Shows(PartialFinish(r, None, None).1, prefix, WithExtras(Triple(s, [], [])), arch, suffix)
  {
    assert r.(input := Buffer(PartialCuts(r.input.chars, None, None))) == r;
    AtEnd(r);
    CStrEnds(r.input.chars, r.name);
    if ValidFullName(s) {
      FinishGoes(r, None, None);
      AssignNone(r, s);
      KeptShow(r, PartialAssign(r, None, None), prefix, arch, suffix, WithExtras(Triple(s, [], [])));
    } else {
      FinishStops(r, None, None);
    }
  }

  /** No version found: the partial split succeeds exactly when the whole name validates. */
  lemma PartialWhole(r: Record, prefix: seq<char>, s: seq<char>, arch: seq<char>, suffix: seq<char>)
    requires PreStepped(r, prefix, s, arch, suffix) && NoNul(s)
    requires StrRChr(s, '-').None? || !ValidFullVersion(s[StrRChr(s, '-').value + 1..])
    ensures PartialStep(r).0 == ValidFullName(s)
    ensures PartialStep(r).0 ==> Shows(PartialStep(r).1, prefix, WithExtras(Triple(s, [], [])), arch, suffix)
  {
    PointersWhole(r, s);
    WholeShow(r, prefix, s, arch, suffix);
  }

  /*------------------------------------------------------------------------
     Mode 4
   ------------------------------------------------------------------------*/

  /** The record _parse_partialpkg starts from in mode 4: the one the full split left (with
      its stale pointers) when an arch was found, the pre-steps' record otherwise. */
  ghost function Stale(r: Record, s: seq<char>, hasArch: bool): Record
  {
    if hasArch then FullFailure(r, s) else r
  }

  /** What mode 4 promises from the record it starts with: _parse_partialpkg succeeds
      exactly when PartialMode gives a result, and then leaves that result in the fields. */
  ghost predicate ModeFourShows(r: Record, prefix: seq<char>, s: seq<char>, arch: seq<char>, suffix: seq<char>)
    requires PreStepped(r, prefix, s, arch, suffix) && NoNul(s)
  {
    var res := PartialStep(Stale(r, s, arch != []));
    res.0 == PartialMode(s, arch != []).Some? &&
    (res.0 ==> Shows(res.1, prefix, PartialMode(s, arch != []).value, arch, suffix))
  }

  /** The revision the full split left behind: the text after the last '-' when it is a
      valid revision, nothing otherwise. */
  lemma StaleRevisionIs(s: seq<char>)
    requires NoNul(s)
    ensures StaleRevision(s) == match StrRChr(s, '-')
                                case None => []
                                case Some(k1) => if ValidRevision(s[k1 + 1..]) then s[k1 + 1..] else []
  {
  }

  /** No version found: whatever the full split did, it assigned no pointer, and the partial
      split gives the whole name. */
  lemma MeaningWhole(r: Record, prefix: seq<char>, s: seq<char>, arch: seq<char>, suffix: seq<char>)
    requires PreStepped(r, prefix, s, arch, suffix) && NoNul(s)
    requires StrRChr(s, '-').None? || !ValidFullVersion(s[StrRChr(s, '-').value + 1..])
    ensures ModeFourShows(r, prefix, s, arch, suffix)
  {
    match StrRChr(s, '-') {
      case None =>
      case Some(k1) =>
        assert NoNul(s[k1 + 1..]);
        RevisionIsFullVersion(s[k1 + 1..]);
    }
    PkgNoRevision(s);
    StaleRevisionIs(s);
    CandidatesWhole(s);
    assert Stale(r, s, arch != []) == r;
    PartialWhole(r, prefix, s, arch, suffix);
  }

  /** What mode 4 gives for a version without a revision: the name before the last '-', the
      version after it, and, when an arch was found and that version is also a valid
      revision, the revision the full split left pointing at it. */
  lemma CoreTwo(s: seq<char>, k1: nat, hasArch: bool)
    requires NoNul(s) && StrRChr(s, '-') == Some(k1) && ValidFullVersion(s[k1 + 1..])
    requires !ValidRevision(s[k1 + 1..]) || StrRChr(s[..k1], '-').None? ||
             !ValidFullVersion(s[StrRChr(s[..k1], '-').value + 1..k1])
    ensures PartialMode(s, hasArch).Some? == ValidFullName(s[..k1])
    ensures ValidFullName(s[..k1]) ==>
              PartialMode(s, hasArch).value ==
              WithExtras(Triple(s[..k1], s[k1 + 1..], if hasArch && ValidRevision(s[k1 + 1..]) then s[k1 + 1..] else []))
  {
    if ValidRevision(s[k1 + 1..]) {
      PkgNoVersion(s, k1);
    } else {
      PkgNoRevision(s);
    }
    StaleRevisionIs(s);
    CandidatesTwo(s, k1);
  }

  /** For a version without a revision, the full split assigned at most the revision
      pointer, to the text after the last '-', and only when that is a valid revision. */
  lemma StaleTwo(r: Record, s: seq<char>, k1: nat, hasArch: bool)
    requires StrRChr(s, '-') == Some(k1)
    requires !ValidRevision(s[k1 + 1..]) || StrRChr(s[..k1], '-').None? ||
             !ValidFullVersion(s[StrRChr(s[..k1], '-').value + 1..k1])
    ensures Stale(r, s, hasArch) == if hasArch && ValidRevision(s[k1 + 1..]) then r.(revision := r.name + k1 + 1) else r
  {
  }

  /** A version without a revision: the full split failed, possibly after assigning the
      revision pointer to the text after the last '-', which the partial split leaves as it
      is. */
  lemma MeaningTwo(r: Record, prefix: seq<char>, s: seq<char>, arch: seq<char>, suffix: seq<char>, k1: nat)
    requires PreStepped(r, prefix, s, arch, suffix) && NoNul(s) && StrRChr(s, '-') == Some(k1) && ValidFullVersion(s[k1 + 1..])
    requires !ValidRevision(s[k1 + 1..]) || StrRChr(s[..k1], '-').None? ||
             !ValidFullVersion(s[StrRChr(s[..k1], '-').value + 1..k1])
    ensures ModeFourShows(r, prefix, s, arch, suffix)
  {
    var stale := arch != [] && ValidRevision(s[k1 + 1..]);
    CoreTwo(s, k1, arch != []);
    StaleTwo(r, s, k1, arch != []);
    PartialTwo(r, Stale(r, s, arch != []), prefix, s, arch, suffix, k1, if stale then s[k1 + 1..] else []);
  }

  /** Name, version and revision: the partial split overwrites both pointers the full split
      may have left, and gives what the full split gives when that succeeds. */
  lemma MeaningThree(r: Record, prefix: seq<char>, s: seq<char>, arch: seq<char>, suffix: seq<char>, k1: nat, k2: nat)
    requires PreStepped(r, prefix, s, arch, suffix) && NoNul(s) && StrRChr(s, '-') == Some(k1) && ValidRevision(s[k1 + 1..])
    requires StrRChr(s[..k1], '-') == Some(k2) && ValidFullVersion(s[k2 + 1..k1])
    ensures ModeFourShows(r, prefix, s, arch, suffix)
  {
    PkgCuts(s, k1, k2);
    CandidatesThree(s, k1, k2);
    var q := Stale(r, s, arch != []);
    assert q == r.(revision := q.revision, version := q.version) && q.revision < |r.input.chars| && q.version < |r.input.chars|;
    PartialThree(r, q, prefix, s, arch, suffix, k1, k2);
  }

  /** _parse_partialpkg in mode 4, from the record the full split left when an arch was found
      and from the pre-steps' record otherwise: it succeeds exactly when PartialMode gives
      a result, and then leaves that result in the fields. */
  lemma PartialMeaning(r: Record, prefix: seq<char>, s: seq<char>, arch: seq<char>, suffix: seq<char>)
    requires PreStepped(r, prefix, s, arch, suffix) && NoNul(s)
    ensures ModeFourShows(r, prefix, s, arch, suffix)
  {
    match StrRChr(s, '-')
    case None => MeaningWhole(r, prefix, s, arch, suffix);
    case Some(k1) =>
      if !ValidFullVersion(s[k1 + 1..]) {
        MeaningWhole(r, prefix, s, arch, suffix);
      } else if ValidRevision(s[k1 + 1..]) && StrRChr(s[..k1], '-').Some? &&
                ValidFullVersion(s[StrRChr(s[..k1], '-').value + 1..k1]) {
        MeaningThree(r, prefix, s, arch, suffix, k1, StrRChr(s[..k1], '-').value);
      } else {
        MeaningTwo(r, prefix, s, arch, suffix, k1);
      }
  }
}
