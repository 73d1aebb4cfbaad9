/** The parse steps as the C code performs them on `struct bee_version`: a record holds
    the copy of the input (with its terminator) and the eight field pointers as offsets
    into it, and each step is a function from the record before to the record after.
    A cut is a NUL written over a separator; a restore writes the separator back, so a
    step that gives up returns the buffer it was given.  Module ParseStepsProperties
    proves what strings these steps leave in the fields. */
module ParseSteps {
  import opened CStrings
  import opened BeeTypes
  import opened Validators
  import opened Segmentation

  /** The characters of `_input`, kept as one value inside a record. */
  datatype Buffer<S> = Buffer(chars: S)

  /** `struct bee_version` at one moment: `_input` and the field pointers. */
  datatype Record = Record(input: Buffer<seq<char>>, prefix: nat, name: nat, extraname: nat, version: nat,
                           extraversion: nat, revision: nat, arch: nat, suffix: nat)

  /** Every pointer points into the terminated copy. */
  predicate Wf(r: Record)
  {
    Terminated(r.input.chars) &&
    r.prefix < |r.input.chars| && r.name < |r.input.chars| && r.extraname < |r.input.chars| && r.version < |r.input.chars| &&
    r.extraversion < |r.input.chars| && r.revision < |r.input.chars| && r.arch < |r.input.chars| && r.suffix < |r.input.chars|
  }

  /** The string at offset `p` of the copy. */
  function Field(r: Record, p: nat): seq<char>
    requires p < |r.input.chars|
  {
    CStr(r.input.chars, p)
  }

  /** The strings the eight fields point at. */
  function View(r: Record): Descriptor
    requires Wf(r)
  {
    Descriptor(Field(r, r.prefix), Field(r, r.name), Field(r, r.extraname), Field(r, r.version),
               Field(r, r.extraversion), Field(r, r.revision), Field(r, r.arch), Field(r, r.suffix))
  }

  /** `buf` with a NUL written at `k`, which lies inside the string at `i`. */
  function CutAt(r: Record, i: nat, k: nat): (b: seq<char>)
    requires Wf(r) && i < |r.input.chars| && i <= k < i + |Field(r, i)|
    ensures |b| == |r.input.chars| && Terminated(b) && k + 1 < |b|
  {
    CStrEnds(r.input.chars, i);
    r.input.chars[k := NUL]
  }

  /** _parse_setup: the copy of the input; every pointer on its terminator. */
  function Start(input: seq<char>): (r: Record)
    requires NoNul(input)
    ensures Wf(r)
  {
    var n := |input|;
    Record(Buffer(input + [NUL]), n, n, n, n, n, n, n, n)
  }

  /** _parse_prefix. */
  function PrefixStep(r: Record): (r': Record)
    requires Wf(r)
    ensures Wf(r')
  {
    match StrRChr(Field(r, 0), '/')
    case None => r.(name := 0)
    case Some(k) => r.(input := Buffer(CutAt(r, 0, k)), prefix := 0, name := k + 1)
  }

  /** _parse_suffix. */
  function SuffixStep(r: Record): (r': Record)
    requires Wf(r)
    ensures Wf(r')
  {
    match SuffixAt(Field(r, r.name))
    case None => r
    case Some(k) => r.(input := Buffer(CutAt(r, r.name, r.name + k)), suffix := r.name + k + 1)
  }

  /** The '.' _parse_arch cuts at: the last '.' of the name, when the text after it has
      no '-' and names the local machine or a supported architecture. */
  function ArchDot(r: Record, localArch: seq<char>): (p: Option<nat>)
    requires Wf(r)
    ensures p.Some? ==> r.name <= p.value < r.name + |Field(r, r.name)|
  {
    match ArchAt(Field(r, r.name), localArch)
    case None => None
    case Some(k) => Some(r.name + k)
  }

  /** _parse_arch. */
  function ArchStep(r: Record, localArch: seq<char>): (r': Record)
    requires Wf(r)
    ensures Wf(r')
  {
    match ArchDot(r, localArch)
    case None => r
    case Some(p) => r.(arch := p + 1, input := Buffer(CutAt(r, r.name, p)))
  }

  /** _parse_pkgfullversion. */
  function FullVersionStep(r: Record): (r': Record)
    requires Wf(r)
    ensures Wf(r')
  {
    match StrChr(Field(r, r.version), '_')
    case None => r
    case Some(k) => r.(input := Buffer(CutAt(r, r.version, r.version + k)), extraversion := r.version + k + 1)
  }

  /** _parse_pkgfullname. */
  function FullNameStep(r: Record): (r': Record)
    requires Wf(r)
    ensures Wf(r')
  {
    match StrChr(Field(r, r.name), '_')
    case None => r
    case Some(k) => r.(input := Buffer(CutAt(r, r.name, r.name + k)), extraname := r.name + k + 1)
  }

  /** strrchr(v->name, '-'): the offset of the last '-' of the name. */
  function LastDash(r: Record): (d: Option<nat>)
    requires Wf(r)
    ensures d.Some? ==> r.name <= d.value < r.name + |Field(r, r.name)| && r.input.chars[d.value] == '-'
    ensures d.Some? ==> d.value + 1 < |r.input.chars|
  {
    CStrEnds(r.input.chars, r.name);
    CStrMeans(r.input.chars, r.name);
    match StrRChr(Field(r, r.name), '-')
    case None => None
    case Some(k) => Some(r.name + k)
  }

  /** The record with the name cut at its '-' at `d`. */
  function CutName(r: Record, d: nat): (r': Record)
    requires Wf(r) && r.name <= d < r.name + |Field(r, r.name)|
    ensures Wf(r')
  {
    r.(input := Buffer(CutAt(r, r.name, d)))
  }

  /** _parse_pkgfullpkg up to the revision check: the text after the last '-' of the name
      must be a valid revision; the rest is `VersionStage`. */
  function FullPkgStep(r: Record): (res: (bool, Record))
    requires Wf(r)
    ensures Wf(res.1)
  {
    match LastDash(r)
    case None => (false, r)
    case Some(rd) =>
      if !ValidRevision(Field(r, rd + 1)) then (false, r)
      else VersionStage(r, rd)
  }

  /** _parse_pkgfullpkg after the revision check: the name is cut at `rd` and `revision`
      assigned; the text after the '-' before it must be a valid full version, or the cut
      is undone (the stale `revision` stays). */
  function VersionStage(r: Record, rd: nat): (res: (bool, Record))
    requires Wf(r) && LastDash(r) == Some(rd)
    ensures Wf(res.1)
  {
    var r1 := CutName(r, rd).(revision := rd + 1);
    match LastDash(r1)
    case None => (false, r.(revision := rd + 1))
    case Some(vd) =>
      if !ValidFullVersion(Field(r1, vd + 1)) then (false, r.(revision := rd + 1))
      else NameStage(r, r1, vd)
  }

  /** _parse_pkgfullpkg after the version check, from `r1` (the record with the revision
      cut): the name is cut at `vd` and `version` assigned; the name must then be a valid
      full name, or both cuts are undone (giving back `r`'s buffer, with the stale pointers),
      and on success the `_` sub-splits follow. */
  function NameStage(r: Record, r1: Record, vd: nat): (res: (bool, Record))
    requires Wf(r) && Wf(r1) && |r1.input.chars| == |r.input.chars| && LastDash(r1) == Some(vd)
    ensures Wf(res.1)
  {
    var r2 := CutName(r1, vd).(version := vd + 1);
    if !ValidFullName(Field(r2, r2.name)) then (false, r.(revision := r1.revision, version := vd + 1))
    else (true, FullNameStep(FullVersionStep(r2)))
  }

  /** A pointer found by _parse_partialpkg: the text at `p` follows a '-' of `b` (the '-'
      the C code cuts, and restores, through `*--p`). */
  predicate AfterDash(b: seq<char>, p: Option<nat>)
  {
    p.Some? ==> 0 < p.value < |b| && b[p.value - 1] == '-'
  }

  /** The buffer _parse_partialpkg has when it reaches finish_parsename: the revision cut
      (when there is a revision) made first, then the version cut. */
  function PartialCuts(b: seq<char>, ver: Option<nat>, rev: Option<nat>): (c: seq<char>)
    requires AfterDash(b, ver) && AfterDash(b, rev)
    ensures |c| == |b|
  {
    var b1 := if rev.Some? then b[rev.value - 1 := NUL] else b;
    if ver.Some? then b1[ver.value - 1 := NUL] else b1
  }

  /** finish_parsename of _parse_partialpkg, with the version pointer `ver` and the revision
      pointer `rev` (absent when NULL): the name is checked in the cut buffer; on failure
      the cuts are undone and the name pointer set to the extra name's, on success the
      pointers are assigned and the version and the name split at their first '_'. */
  function PartialFinish(r: Record, ver: Option<nat>, rev: Option<nat>): (res: (bool, Record))
    requires Wf(r) && AfterDash(r.input.chars, ver) && AfterDash(r.input.chars, rev)
    requires ver.Some? && rev.Some? ==> ver.value != rev.value
    ensures Wf(res.1)
  {
    var x := r.(input := Buffer(PartialCuts(r.input.chars, ver, rev)));
    if !ValidFullName(Field(x, x.name)) then (false, r.(name := r.extraname))
    else (true, PartialAssign(x, ver, rev))
  }

  /** The success path of finish_parsename: the version pointer is assigned and the
      version split at its '_', the revision pointer assigned, and the name split at its
      '_'. */
  function PartialAssign(x: Record, ver: Option<nat>, rev: Option<nat>): (r': Record)
    requires Wf(x)
    requires ver.Some? ==> ver.value < |x.input.chars|
    requires rev.Some? ==> rev.value < |x.input.chars|
    ensures Wf(r')
  {
    var y := if ver.Some? then FullVersionStep(x.(version := ver.value)) else x;
    var z := if rev.Some? then y.(revision := rev.value) else y;
    FullNameStep(z)
  }

  /** The version and revision pointers of _parse_partialpkg; absent when NULL. */
  datatype Pointers = Pointers(ver: Option<nat>, rev: Option<nat>)

  /** _parse_partialpkg: the pointers its decision diagram finds, then finish_parsename. */
  function PartialStep(r: Record): (res: (bool, Record))
    requires Wf(r)
    ensures Wf(res.1)
  {
    var p := PartialPointers(r);
    PartialFinish(r, p.ver, p.rev)
  }

  /** The version and revision pointers _parse_partialpkg has when it reaches
      finish_parsename.  The last '-' of the name is looked at first: a valid revision
      after it is cut off, and the version is then the text after the '-' before it when
      that is a valid full version, or else the revision itself; with no '-' before it the
      revision cut is undone and the text after the last '-' checked as a version.  When
      the text after the last '-' is no revision, it is the version if it is a valid full
      version. */
  function PartialPointers(r: Record): (p: Pointers)
    requires Wf(r)
    ensures AfterDash(r.input.chars, p.ver) && AfterDash(r.input.chars, p.rev)
    ensures p.ver.Some? && p.rev.Some? ==> p.ver.value != p.rev.value
  {
    match LastDash(r)
    case None => Pointers(None, None)
    case Some(rp) =>
      if ValidRevision(Field(r, rp + 1)) then PartialAfterRevisionCut(r, rp)
      else if ValidFullVersion(Field(r, rp + 1)) then Pointers(Some(rp + 1), None)
      else Pointers(None, None)
  }

  /** The pointers once the revision after the last '-' (at `rp`) is cut off. */
  function PartialAfterRevisionCut(r: Record, rp: nat): (p: Pointers)
    requires Wf(r) && LastDash(r) == Some(rp)
    ensures AfterDash(r.input.chars, p.ver) && AfterDash(r.input.chars, p.rev)
    ensures p.ver.Some? && p.rev.Some? ==> p.ver.value != p.rev.value
  {
    var x := CutName(r, rp);
    match LastDash(x)
    case None =>
      if ValidFullVersion(Field(r, rp + 1)) then Pointers(Some(rp + 1), None) else Pointers(None, None)
    case Some(vp) =>
      if ValidFullVersion(Field(x, vp + 1)) then Pointers(Some(vp + 1), Some(rp + 1))
      else if ValidFullVersion(Field(x, rp + 1)) then Pointers(Some(rp + 1), None)
      else Pointers(None, None)
  }

  /** The mode the switch of bee_version_parse runs. */
  function EffectiveMode(r: Record, mode: nat): nat
    requires Wf(r)
  {
    if mode == MODE_AUTO then AutoMode(Field(r, r.suffix), Field(r, r.arch)) else mode
  }

  /** The switch of bee_version_parse on the record after the pre-steps, for mode `m`:
      the full split, except in mode 4, where the full split is tried first only when an
      arch was found and the partial split follows when it fails. */
  function SplitStep(r: Record, m: nat): (res: (bool, Record))
    requires Wf(r)
    ensures Wf(res.1)
  {
    if m != MODE_BEEPARTIAL then FullPkgStep(r)
    else
      var full := if Field(r, r.arch) != [] then FullPkgStep(r) else (false, r);
      if full.0 then full else PartialStep(full.1)
  }

  /** The record after _parse_setup and the three pre-steps. */
  function PreSteps(input: seq<char>, localArch: seq<char>): (r: Record)
    requires NoNul(input)
    ensures Wf(r)
  {
    ArchStep(SuffixStep(PrefixStep(Start(input))), localArch)
  }

  /** bee_version_parse on the record: the pre-steps, then the split the mode selects. */
  function Parse(input: seq<char>, mode: nat, localArch: seq<char>): (res: (bool, Record))
    requires NoNul(input) && ValidMode(mode)
    ensures Wf(res.1)
  {
    var r := PreSteps(input, localArch);
    SplitStep(r, EffectiveMode(r, mode))
  }
}
