/** `struct bee_version` as an object: the copy of the input is a character array that
    the parse steps cut in place, and the eight field pointers are offsets into it.  Each
    method does what its C function does, statement by statement, and is proved to take
    the record to the state the matching function of module ParseSteps describes;
    `Parse` is in addition proved to leave in the fields exactly what the segmenter of
    module Segmentation computes. */
module Parser {
  import opened CStrings
  import opened BeeTypes
  import opened Validators
  import opened Segmentation
  import opened ParseSteps
  import ParseCorrectness
  import PartialProperties


  class BeeVersion {
    /** `_input`: the copy of the input with its terminator. */
    var buffer: array<char>
    // The field pointers, as offsets into `buffer`.
    var prefix: nat
    var name: nat
    var extraname: nat
    var version: nat
    var extraversion: nat
    var revision: nat
    var arch: nat
    var suffix: nat

    /** The object as a record value. */
    function Snapshot(): Record
      reads this, buffer
    {
      Record(Buffer(buffer[..]), prefix, name, extraname, version, extraversion, revision, arch, suffix)
    }

    ghost predicate Valid()
      reads this, buffer
    {
      Wf(Snapshot())
    }

    /** The string at offset `p` of the copy. */
    function Str(p: nat): seq<char>
      reads this, buffer
      requires p < buffer.Length
    {
      CStr(buffer[..], p)
    }

    /** The strings the fields point at. */
    function Fields(): Descriptor
      reads this, buffer
      requires Valid()
    {
      View(Snapshot())
    }

    /** bee_version_alloc, with an empty copy in place of the NULL `_input`. */
    constructor ()
      ensures Valid() && Fields() == EMPTY
    {
      buffer := new char[1](_ => NUL);
      prefix, name, extraname, version := 0, 0, 0, 0;
      extraversion, revision, arch, suffix := 0, 0, 0, 0;
    }

    /** _parse_setup: a fresh copy of the input, every pointer on its terminator. */
    method Setup(input: seq<char>)
      requires NoNul(input)
      modifies this
      ensures fresh(buffer)
      ensures Snapshot() == Start(input)
    {
      var n := |input|;
      var b := new char[n + 1];
      forall i | 0 <= i < n {
        b[i] := input[i];
      }
      b[n] := NUL;
      assert b[..] == input + [NUL];
      buffer := b;
      prefix, name, extraname, version := n, n, n, n;
      extraversion, revision, arch, suffix := n, n, n, n;
    }

    /** _parse_prefix. */
    method ParsePrefix() returns (found: bool)
      requires Valid()
      modifies this`prefix, this`name, buffer
      ensures Valid()
      ensures Snapshot() == PrefixStep(old(Snapshot()))
      ensures found <==> '/' in old(Str(0))
    {
      var p := StrRChr(Str(0), '/');
      if p.None? {
        name := 0;
        return false;
      }
      ghost var r := Snapshot();
      buffer[p.value] := NUL;
      assert buffer[..] == CutAt(r, 0, p.value);
      prefix := 0;
      name := p.value + 1;
      found := true;
    }

    /** _parse_suffix. */
    method ParseSuffix() returns (found: bool)
      requires Valid()
      modifies this`suffix, buffer
      ensures Valid()
      ensures Snapshot() == SuffixStep(old(Snapshot()))
      ensures found == SuffixAt(old(Str(name))).Some?
    {
      var p := StrStr(Str(name), ".bee");
      if p.None? {
        p := StrStr(Str(name), ".iee");
      }
      if p.None? {
        return false;
      }
      ghost var r := Snapshot();
      buffer[name + p.value] := NUL;
      assert buffer[..] == CutAt(r, name, name + p.value);
      suffix := name + p.value + 1;
      found := true;
    }

    /** _parse_arch. */
    method ParseArch(localArch: seq<char>) returns (found: bool)
      requires Valid()
      modifies this`arch, buffer
      ensures Valid()
      ensures Snapshot() == ArchStep(old(Snapshot()), localArch)
      ensures found == ArchDot(old(Snapshot()), localArch).Some?
    {
      ghost var r := Snapshot();
      var dot := ArchDot(Snapshot(), localArch);
      if dot.None? {
        return false;
      }
      var p := dot.value;
      arch := p + 1;
      buffer[p] := NUL;
      assert buffer[..] == CutAt(r, name, p);
      found := true;
    }

    /** _parse_pkgfullversion. */
    method ParsePkgFullVersion()
      requires Valid()
      modifies this`extraversion, buffer
      ensures Valid()
      ensures Snapshot() == FullVersionStep(old(Snapshot()))
    {
      var p := StrChr(Str(version), '_');
      if p.Some? {
        ghost var r := Snapshot();
        buffer[version + p.value] := NUL;
        assert buffer[..] == CutAt(r, version, version + p.value);
        extraversion := version + p.value + 1;
      }
    }

    /** _parse_pkgfullname. */
    method ParsePkgFullName()
      requires Valid()
      modifies this`extraname, buffer
      ensures Valid()
      ensures Snapshot() == FullNameStep(old(Snapshot()))
    {
      var p := StrChr(Str(name), '_');
      if p.Some? {
        ghost var r := Snapshot();
        buffer[name + p.value] := NUL;
        assert buffer[..] == CutAt(r, name, name + p.value);
        extraname := name + p.value + 1;
      }
    }
  
    /** `*--p = '-'`: writes back the '-' a cut at `k` removed from a buffer that had one. */
    method Restore(k: nat, ghost before: seq<char>)
      requires k < buffer.Length && |before| == buffer.Length && before[k] == '-'
      requires buffer[..] == before[k := NUL]
      modifies buffer
      ensures buffer[..] == before
    {
      buffer[k] := '-';
      assert buffer[..] == before;
    }

    /** _parse_pkgfullpkg, up to the revision cut; `CutVersion` does the rest. */
    method ParsePkgFullPkg() returns (ok: bool)
      requires Valid()
      modifies this`revision, this`version, this`extraversion, this`extraname, buffer
      ensures Valid()
      ensures (ok, Snapshot()) == FullPkgStep(old(Snapshot()))
      ensures !ok ==> buffer[..] == old(buffer[..])
    {
      ghost var r := Snapshot();
      var revisionDash := LastDash(Snapshot());
      if revisionDash.None? {
        return false;
      }
      var rd := revisionDash.value;
      if !ValidRevision(Str(rd + 1)) {
        return false;
      }
      buffer[rd] := NUL;
      assert buffer[..] == CutAt(r, name, rd);
      revision := rd + 1;
      ok := CutVersion(r, rd);
    }

    /** The part of _parse_pkgfullpkg after the revision cut at `rd` of the record `r`:
        the version is looked for and cut off, or the revision cut undone. */
    method CutVersion(ghost r: Record, rd: nat) returns (ok: bool)
      requires Wf(r) && LastDash(r) == Some(rd)
      requires Snapshot() == CutName(r, rd).(revision := rd + 1)
      modifies this`version, this`extraversion, this`extraname, buffer
      ensures Valid()
      ensures (ok, Snapshot()) == VersionStage(r, rd)
      ensures !ok ==> buffer[..] == r.input.chars
    {
      var r1 := Snapshot();
      var versionDash := LastDash(r1);
      if versionDash.None? || !ValidFullVersion(Field(r1, versionDash.value + 1)) {
        assert VersionStage(r, rd) == (false, r.(revision := rd + 1));
        Restore(rd, r.input.chars);
        return false;
      }
      var vd := versionDash.value;
      assert VersionStage(r, rd) == NameStage(r, r1, vd);
      buffer[vd] := NUL;
      assert buffer[..] == CutAt(r1, name, vd);
      version := vd + 1;
      ok := CheckName(r, rd, r1, vd);
    }

    /** The part of _parse_pkgfullpkg after the version cut at `vd` of the record `r1`:
        the name is checked; on failure both cuts are undone, on success the version and
        the name are split at their '_'. */
    method CheckName(ghost r: Record, rd: nat, ghost r1: Record, vd: nat) returns (ok: bool)
      requires Wf(r) && LastDash(r) == Some(rd) && r1 == CutName(r, rd).(revision := rd + 1)
      requires LastDash(r1) == Some(vd)
      requires Snapshot() == CutName(r1, vd).(version := vd + 1)
      modifies this`extraversion, this`extraname, buffer
      ensures Valid()
      ensures (ok, Snapshot()) == NameStage(r, r1, vd)
      ensures !ok ==> buffer[..] == r.input.chars
    {
      if !ValidFullName(Str(name)) {
        Restore(vd, r1.input.chars);
        Restore(rd, r.input.chars);
        return false;
      }
      ParsePkgFullVersion();
      ParsePkgFullName();
      ok := true;
    }

    /** _parse_partialpkg. */
    method ParsePartialPkg() returns (ok: bool)
      requires Valid()
      modifies this`name, this`version, this`extraversion, this`revision, this`extraname, buffer
      ensures Valid()
      ensures (ok, Snapshot()) == PartialStep(old(Snapshot()))
      ensures !ok ==> buffer[..] == old(buffer[..]) && name == old(extraname)
    {
      ghost var r := Snapshot();
      PartialProperties.PartialFailureRestores(r);
      var ver, rev := FindPointers();
      ok := FinishName(r, ver, rev);
    }

    /** The decision diagram of _parse_partialpkg, up to finish_parsename: the version and
        revision pointers it finds, with the buffer cut before each. */
    method FindPointers() returns (ver: Option<nat>, rev: Option<nat>)
      requires Valid()
      modifies buffer
      ensures Pointers(ver, rev) == PartialPointers(old(Snapshot()))
      ensures AfterDash(old(buffer[..]), ver) && AfterDash(old(buffer[..]), rev)
      ensures Snapshot() == old(Snapshot()).(input := Buffer(PartialCuts(old(buffer[..]), ver, rev)))
    {
      ghost var r := Snapshot();
      var revisionDash := LastDash(Snapshot());
      if revisionDash.None? {
        return None, None;
      }
      var rp := revisionDash.value;
      if ValidRevision(Str(rp + 1)) {
        buffer[rp] := NUL;
        assert buffer[..] == CutAt(r, name, rp);
        ver, rev := PointersAfterRevisionCut(r, rp);
      } else if ValidFullVersion(Str(rp + 1)) {
        buffer[rp] := NUL;
        assert buffer[..] == PartialCuts(r.input.chars, Some(rp + 1), None);
        ver, rev := Some(rp + 1), None;
      } else {
        ver, rev := None, None;
      }
    }

    /** The decision diagram once the revision at `rp + 1` of the record `r` is cut off. */
    method PointersAfterRevisionCut(ghost r: Record, rp: nat) returns (ver: Option<nat>, rev: Option<nat>)
      requires Wf(r) && LastDash(r) == Some(rp)
      requires Snapshot() == CutName(r, rp)
      modifies buffer
      ensures Pointers(ver, rev) == PartialAfterRevisionCut(r, rp)
      ensures AfterDash(r.input.chars, ver) && AfterDash(r.input.chars, rev)
      ensures Snapshot() == r.(input := Buffer(PartialCuts(r.input.chars, ver, rev)))
    {
      var x := Snapshot();
      var versionDash := LastDash(x);
      if versionDash.None? {
        Restore(rp, r.input.chars);
        if ValidFullVersion(Str(rp + 1)) {
          buffer[rp] := NUL;
          assert buffer[..] == PartialCuts(r.input.chars, Some(rp + 1), None);
          return Some(rp + 1), None;
        }
        return None, None;
      }
      var vp := versionDash.value;
      if ValidFullVersion(Field(x, vp + 1)) {
        buffer[vp] := NUL;
        assert buffer[..] == PartialCuts(r.input.chars, Some(vp + 1), Some(rp + 1));
        ver, rev := Some(vp + 1), Some(rp + 1);
      } else if ValidFullVersion(Field(x, rp + 1)) {
        assert buffer[..] == PartialCuts(r.input.chars, Some(rp + 1), None);
        ver, rev := Some(rp + 1), None;
      } else {
        Restore(rp, r.input.chars);
        ver, rev := None, None;
      }
    }

    /** finish_parsename of _parse_partialpkg: `ver` and `rev` are the version and revision
        pointers (absent when NULL) and the buffer holds their cuts. */
    method FinishName(ghost r: Record, ver: Option<nat>, rev: Option<nat>) returns (ok: bool)
      requires Wf(r) && AfterDash(r.input.chars, ver) && AfterDash(r.input.chars, rev)
      requires ver.Some? && rev.Some? ==> ver.value != rev.value
      requires Snapshot() == r.(input := Buffer(PartialCuts(r.input.chars, ver, rev)))
      modifies this`name, this`version, this`extraversion, this`revision, this`extraname, buffer
      ensures Valid()
      ensures (ok, Snapshot()) == PartialFinish(r, ver, rev)
    {
      ghost var x := Snapshot();
      if !ValidFullName(Str(name)) {
        ghost var b1 := if rev.Some? then r.input.chars[rev.value - 1 := NUL] else r.input.chars;
        if ver.Some? {
          Restore(ver.value - 1, b1);
        }
        if rev.Some? {
          Restore(rev.value - 1, r.input.chars);
        }
        name := extraname;
        return false;
      }
      AssignFound(ver, rev);
      ok := true;
    }

    /** The success path of finish_parsename. */
    method AssignFound(ver: Option<nat>, rev: Option<nat>)
      requires Valid()
      requires ver.Some? ==> ver.value < buffer.Length
      requires rev.Some? ==> rev.value < buffer.Length
      modifies this`version, this`extraversion, this`revision, this`extraname, buffer
      ensures Valid()
      ensures Snapshot() == PartialAssign(old(Snapshot()), ver, rev)
    {
      if ver.Some? {
        version := ver.value;
        ParsePkgFullVersion();
      }
      if rev.Some? {
        revision := rev.value;
      }
      ParsePkgFullName();
    }

    /** bee_version_parse for the modes 0 to 4: setup, the three pre-steps, the mode chosen
        in auto mode, then the split that mode selects (in mode 4 the full split first
        when an arch was found). */
    method Parse(input: seq<char>, mode: nat, localArch: seq<char>) returns (ok: bool)
      requires NoNul(input) && ValidMode(mode)
      modifies this
      ensures fresh(buffer) && Valid()
      ensures (ok, Snapshot()) == ParseSteps.Parse(input, mode, localArch)
      ensures ok == Segment(input, mode, localArch).Some?
      ensures ok ==> Fields() == Segment(input, mode, localArch).value
    {
      Setup(input);
      var hasPrefix := ParsePrefix();
      var hasSuffix := ParseSuffix();
      var hasArch := ParseArch(localArch);
      var m := mode;
      if m == MODE_AUTO {
        m := AutoMode(Str(suffix), Str(arch));
      }
      ok := Split(m);
      ParseCorrectness.ParseIsSegment(input, mode, localArch);
    }

    /** The switch of bee_version_parse. */
    method Split(m: nat) returns (ok: bool)
      requires Valid()
      modifies this`name, this`version, this`extraversion, this`revision, this`extraname, buffer
      ensures Valid()
      ensures (ok, Snapshot()) == SplitStep(old(Snapshot()), m)
    {
      if m != MODE_BEEPARTIAL {
        ok := ParsePkgFullPkg();
      } else {
        ok := false;
        if Str(arch) != [] {
          ok := ParsePkgFullPkg();
        }
        if !ok {
          ok := ParsePartialPkg();
        }
      }
    }
  }
}
