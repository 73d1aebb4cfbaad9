/** The descriptor segmenter as functions on strings: what `bee_version_parse` computes,
    stage by stage, without the buffer it computes it in.  The class in parser.dfy is
    proved to produce exactly these values. */
module Segmentation {
  import opened CStrings
  import opened BeeTypes
  import opened Validators

  /** A `name-version-revision` split before the `_` sub-splits; a part the split did not
      find is empty. */
  datatype Triple = Triple(name: seq<char>, version: seq<char>, revision: seq<char>)

  /** The name/version/revision fields after the `_` sub-splits. */
  datatype Core = Core(name: seq<char>, extraname: seq<char>, version: seq<char>,
                       extraversion: seq<char>, revision: seq<char>)

  /** `head`, then `sep` and `tail` when `tail` is present. */
  function Glue(head: seq<char>, sep: char, tail: seq<char>): seq<char>
  {
    if tail == [] then head else head + [sep] + tail
  }

  /*------------------------------------------------------------------------
     The deterministic pre-steps
   ------------------------------------------------------------------------*/

  /** _parse_prefix: prefix before the last '/', name after it; no '/' leaves the prefix empty. */
  function SplitPrefix(input: seq<char>): (r: Cut<seq<char>>)
    ensures '/' in input ==> input == r.head + "/" + r.tail && '/' !in r.tail
    ensures '/' !in input ==> r.head == [] && r.tail == input
  {
    match LastCut(input, '/')
    case None => Cut([], input)
    case Some(c) => c
  }

  /** strstr(".bee"), and strstr(".iee") only when there is no ".bee". */
  function SuffixAt(s: seq<char>): Option<nat>
  {
    match StrStr(s, ".bee")
    case Some(p) => Some(p)
    case None => StrStr(s, ".iee")
  }

  ghost predicate HasOccurrence(s: seq<char>, pat: seq<char>)
  {
    exists k :: OccursAt(s, pat, k)
  }

  /** _parse_suffix: the suffix starts after the '.' of the first ".bee" (or, when there is
      none, of the first ".iee") and runs to the end; the name is cut there. */
  function SplitSuffix(s: seq<char>): (r: Cut<seq<char>>)
    ensures HasOccurrence(s, ".bee") ==>
              OccursAt(s, ".bee", |r.head|) && s == r.head + "." + r.tail &&
              forall j :: 0 <= j < |r.head| ==> !OccursAt(s, ".bee", j)
    ensures !HasOccurrence(s, ".bee") && HasOccurrence(s, ".iee") ==>
              OccursAt(s, ".iee", |r.head|) && s == r.head + "." + r.tail &&
              forall j :: 0 <= j < |r.head| ==> !OccursAt(s, ".iee", j)
    ensures !HasOccurrence(s, ".bee") && !HasOccurrence(s, ".iee") ==> r.head == s && r.tail == []
  {
    match SuffixAt(s)
    case None => Cut(s, [])
    case Some(p) =>
      assert s == s[..p] + "." + s[p + 1..] by { assert s[p] == s[p..p + 4][0]; }
      Cut(s[..p], s[p + 1..])
  }

  /** _parse_arch: the offset of the last '.', when the text from it on has no '-' and the
      text after it names the local machine or a supported architecture. */
  function ArchAt(s: seq<char>, localArch: seq<char>): (k: Option<nat>)
    ensures k.Some? ==> k.value < |s| && s[k.value] == '.'
  {
    match StrRChr(s, '.')
    case None => None
    case Some(k) =>
      if StrChr(s[k..], '-').Some? then None
      else if StrCmp(s[k + 1..], localArch) != 0 && !IsSupportedArch(s[k + 1..]) then None
      else Some(k)
  }

  /** The arch ArchAt accepts is the text after the last '.': no '-' in it, and it is the
      local machine or in the list; when it declines, there is no '.' or the text after the
      last one fails one of those tests. */
  lemma ArchAtMeans(s: seq<char>, localArch: seq<char>)
    ensures var k := ArchAt(s, localArch);
            k.Some? ==> '.' !in s[k.value + 1..] && '-' !in s[k.value + 1..] &&
                        (s[k.value + 1..] == localArch || s[k.value + 1..] in SUPPORTED_ARCHITECTURES)
    ensures ArchAt(s, localArch).None? && '.' in s ==>
              var t := s[StrRChr(s, '.').value + 1..];
              '-' in t || (t != localArch && t !in SUPPORTED_ARCHITECTURES)
  {
    match StrRChr(s, '.')
    case None =>
    case Some(k) =>
      var t := s[k + 1..];
      IsSupportedArchMeans(t);
      assert s[k..] == [s[k]] + t;
      assert '.' !in t by {
        forall i | 0 <= i < |t| ensures t[i] != '.' {
          assert t[i] == s[k + 1 + i];
        }
      }
      if StrChr(s[k..], '-').None? {
        assert '-' !in t;
      }
      if ArchAt(s, localArch).Some? {
        assert ArchAt(s, localArch).value == k;
        assert StrCmp(t, localArch) == 0 || IsSupportedArch(t);
        assert t == localArch || t in SUPPORTED_ARCHITECTURES;
      }
  }

  /** The arch cut: name before the '.' ArchAt finds, arch after it. */
  function ArchCut(s: seq<char>, localArch: seq<char>): (r: Option<Cut<seq<char>>>)
    ensures r.Some? ==> s == r.value.head + "." + r.value.tail
  {
    match ArchAt(s, localArch)
    case None => None
    case Some(k) =>
      assert s == s[..k] + "." + s[k + 1..];
      Some(Cut(s[..k], s[k + 1..]))
  }

  function SplitArch(s: seq<char>, localArch: seq<char>): Cut<seq<char>>
  {
    match ArchCut(s, localArch)
    case None => Cut(s, [])
    case Some(c) => c
  }

  /** The mode chosen in auto mode from the suffix and the arch. */
  function AutoMode(suffix: seq<char>, arch: seq<char>): (m: nat)
    ensures m == MODE_BEEPKG <==> |suffix| >= 8 && suffix[1..8] == "ee.tar."
    ensures m == MODE_BEEFILE <==> !(|suffix| >= 8 && suffix[1..8] == "ee.tar.") && suffix == "bee"
    ensures m == MODE_BEEVERSION <==> !(|suffix| >= 8 && suffix[1..8] == "ee.tar.") && suffix != "bee" && arch != []
    ensures m == MODE_BEEPARTIAL <==> !(|suffix| >= 8 && suffix[1..8] == "ee.tar.") && suffix != "bee" && arch == []
  {
    if |suffix| > 0 && StrNCmp(suffix[1..], "ee.tar.", 7) == 0 then MODE_BEEPKG
    else if StrCmp(suffix, "bee") == 0 then MODE_BEEFILE
    else if |arch| > 0 then MODE_BEEVERSION
    else MODE_BEEPARTIAL
  }

  /*------------------------------------------------------------------------
     Splitting name, version and revision
   ------------------------------------------------------------------------*/

  /** _parse_pkgfullpkg: revision after the last '-', version after the '-' before it, the
      name is the rest; each must pass its validator. */
  function PkgFullPkg(s: seq<char>): (r: Option<Triple>)
    requires NoNul(s)
    ensures r.Some? ==> s == r.value.name + "-" + r.value.version + "-" + r.value.revision
    ensures r.Some? ==> ValidFullName(r.value.name) && ValidFullVersion(r.value.version) &&
                        ValidRevision(r.value.revision)
  {
    match LastCut(s, '-')
    case None => None
    case Some(c1) =>
      if !ValidRevision(c1.tail) then None
      else
        match LastCut(c1.head, '-')
        case None => None
        case Some(c2) =>
          if !ValidFullVersion(c2.tail) then None
          else if !ValidFullName(c2.head) then None
          else Some(Triple(c2.head, c2.tail, c1.tail))
  }

  /** The full split got as far as assigning `v->revision` (the text after the last '-' is a
      valid revision). */
  predicate RevisionAssigned(s: seq<char>)
    requires NoNul(s)
  {
    match LastCut(s, '-')
    case None => false
    case Some(c1) => ValidRevision(c1.tail)
  }

  /** The full split got as far as assigning `v->version` too. */
  predicate VersionAssigned(s: seq<char>)
    requires NoNul(s)
  {
    match LastCut(s, '-')
    case None => false
    case Some(c1) =>
      ValidRevision(c1.tail) &&
      match LastCut(c1.head, '-')
      case None => false
      case Some(c2) => ValidFullVersion(c2.tail)
  }

  /** The name, version and revision candidates of _parse_partialpkg before the final name
      check, following its decision diagram; an absent part is empty. */
  function PartialCandidates(s: seq<char>): (t: Triple)
    requires NoNul(s)
  {
    match LastCut(s, '-')
    case None => Triple(s, [], [])
    case Some(c1) =>
      if ValidRevision(c1.tail) then
        match LastCut(c1.head, '-')
        case Some(c2) =>
          if ValidFullVersion(c2.tail) then Triple(c2.head, c2.tail, c1.tail)
          else if ValidFullVersion(c1.tail) then Triple(c1.head, c1.tail, [])
          else Triple(s, [], [])
        case None =>
          if ValidFullVersion(c1.tail) then Triple(c1.head, c1.tail, []) else Triple(s, [], [])
      else if ValidFullVersion(c1.tail) then Triple(c1.head, c1.tail, [])
      else Triple(s, [], [])
  }

  /** _parse_partialpkg: the candidates, accepted only when the name validates. */
  function PkgPartial(s: seq<char>): (r: Option<Triple>)
    requires NoNul(s)
    ensures r.Some? ==> s == Glue(Glue(r.value.name, '-', r.value.version), '-', r.value.revision)
    ensures r.Some? ==> ValidFullName(r.value.name)
    ensures r.Some? ==> (r.value.version == [] || ValidFullVersion(r.value.version)) &&
                        (r.value.revision == [] || (ValidRevision(r.value.revision) && r.value.version != []))
  {
    var t := PartialCandidates(s);
    if ValidFullName(t.name) then Some(t) else None
  }

  /** _parse_pkgfullversion and _parse_pkgfullname on a successful split: version and name
      are cut at their first '_'. */
  function WithExtras(t: Triple): (c: Core)
    ensures '_' !in c.name && '_' !in c.version && c.revision == t.revision
    ensures t.name == (if '_' in t.name then c.name + "_" + c.extraname else c.name)
    ensures t.version == (if '_' in t.version then c.version + "_" + c.extraversion else c.version)
  {
    var n := SplitFirst(t.name, '_');
    var v := SplitFirst(t.version, '_');
    Core(n.head, n.tail, v.head, v.tail, t.revision)
  }

  /** What `v->revision` reads after a full split that failed after the revision was validated. */
  function StaleRevision(s: seq<char>): seq<char>
    requires NoNul(s)
  {
    if RevisionAssigned(s) then LastCut(s, '-').value.tail else []
  }

  /** Mode 4: the full split first when an arch was found, then the partial split; a
      revision pointer left behind by the failed full split stays in the record. */
  function PartialMode(s: seq<char>, hasArch: bool): Option<Core>
    requires NoNul(s)
  {
    if hasArch && PkgFullPkg(s).Some? then Some(WithExtras(PkgFullPkg(s).value))
    else
      match PkgPartial(s)
      case None => None
      case Some(t) =>
        var c := WithExtras(t);
        Some(if hasArch && t.revision == [] then c.(revision := StaleRevision(s)) else c)
  }

  /** bee_version_parse: the pre-steps, the mode, and the split that mode selects. */
  function Segment(input: seq<char>, mode: nat, localArch: seq<char>): Option<Descriptor>
    requires NoNul(input) && ValidMode(mode)
  {
    var p := SplitPrefix(input);
    var sfx := SplitSuffix(p.tail);
    var a := SplitArch(sfx.head, localArch);
    var m := if mode == MODE_AUTO then AutoMode(sfx.tail, a.tail) else mode;
    var core :=
      if m == MODE_BEEPARTIAL then PartialMode(a.head, a.tail != [])
      else match PkgFullPkg(a.head) { case None => None case Some(t) => Some(WithExtras(t)) };
    match core
    case None => None
    case Some(c) =>
      Some(Descriptor(p.head, c.name, c.extraname, c.version, c.extraversion, c.revision, a.tail, sfx.tail))
  }
}
