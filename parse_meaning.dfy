/** bee_version_parse as the C code performs it on its buffer (module ParseSteps) computes
    exactly the descriptor the string-level segmenter Segment gives: it succeeds when
    Segment does, and its eight field pointers then read Segment's eight strings. */
module ParseCorrectness {
  import opened CStrings
  import opened BeeTypes
  import opened Validators
  import opened Segmentation
  import opened ParseSteps
  import opened ParseStepsProperties
  import opened SplitProperties
  import opened PartialProperties

  /** What the switch of bee_version_parse gives for mode `m` on the pre-steps' record: the
      partial mode's result in mode 4, the full split's otherwise. */
  function ModeCore(s: seq<char>, hasArch: bool, m: nat): Option<Core>
    requires NoNul(s)
  {
    if m == MODE_BEEPARTIAL then PartialMode(s, hasArch)
    else match PkgFullPkg(s) { case None => None case Some(t) => Some(WithExtras(t)) }
  }

  /** The switch of bee_version_parse: it succeeds exactly when the mode's split does, and
      then leaves prefix, arch and suffix as the pre-steps left them and the five inner
      fields as the split gives them. */
  lemma SplitMeaning(r: Record, prefix: seq<char>, s: seq<char>, arch: seq<char>, suffix: seq<char>, m: nat)
    requires PreStepped(r, prefix, s, arch, suffix) && NoNul(s)
    ensures SplitStep(r, m).0 == ModeCore(s, arch != [], m).Some?
    ensures SplitStep(r, m).0 ==> Shows(SplitStep(r, m).1, prefix, ModeCore(s, arch != [], m).value, arch, suffix)
  {
    FullPkgMeaning(r, prefix, s, arch, suffix);
    if m == MODE_BEEPARTIAL {
      PartialMeaning(r, prefix, s, arch, suffix);
    }
  }

  /** The descriptor a successful split yields: the split's five inner fields between the
      prefix, and the arch and suffix the pre-steps took off. */
  function Assemble(prefix: seq<char>, core: Option<Core>, arch: seq<char>, suffix: seq<char>): (d: Option<Descriptor>)
    ensures d.Some? == core.Some?
    ensures d.Some? ==> d.value.prefix == prefix && d.value.arch == arch && d.value.suffix == suffix
  {
    match core
    case None => None
    case Some(c) => Some(Descriptor(prefix, c.name, c.extraname, c.version, c.extraversion, c.revision, arch, suffix))
  }

  /** Segment is the mode's split of the name part, framed by prefix, arch and suffix. */
  lemma SegmentByMode(input: seq<char>, mode: nat, localArch: seq<char>)
    requires NoNul(input) && ValidMode(mode)
    ensures var p := SplitPrefix(input);
            var sfx := SplitSuffix(p.tail);
            var a := SplitArch(sfx.head, localArch);
            var m := if mode == MODE_AUTO then AutoMode(sfx.tail, a.tail) else mode;
            NoNul(a.head) &&
            Segment(input, mode, localArch) == Assemble(p.head, ModeCore(a.head, a.tail != [], m), a.tail, sfx.tail)
  {
  }

  /** bee_version_parse succeeds exactly when Segment gives a descriptor, and its fields
      then read that descriptor. */
  lemma ParseIsSegment(input: seq<char>, mode: nat, localArch: seq<char>)
    requires NoNul(input) && ValidMode(mode)
    ensures Parse(input, mode, localArch).0 == Segment(input, mode, localArch).Some?
    ensures Parse(input, mode, localArch).0 ==> View(Parse(input, mode, localArch).1) == Segment(input, mode, localArch).value
  {
    var p := SplitPrefix(input);
    var sfx := SplitSuffix(p.tail);
    var a := SplitArch(sfx.head, localArch);
    var m := if mode == MODE_AUTO then AutoMode(sfx.tail, a.tail) else mode;
    SegmentByMode(input, mode, localArch);
    PreStepsMeaning(input, localArch);
    var r := PreSteps(input, localArch);
    assert EffectiveMode(r, mode) == m;
    assert Parse(input, mode, localArch) == SplitStep(r, m);
    SplitMeaning(r, p.head, a.head, a.tail, sfx.tail, m);
  }
}
