/** What the parse steps of module ParseSteps leave in the fields, stated with the
    string-level segmenter of module Segmentation: the pre-steps split off prefix, suffix
    and arch; the full and the partial split leave the name, version and revision parts
    (and their `_` extras) that PkgFullPkg, PkgPartial and WithExtras compute; and
    bee_version_parse as a whole succeeds exactly when Segment does, with the fields
    Segment gives. */
module ParseStepsProperties {
  import opened CStrings
  import opened BeeTypes
  import opened Validators
  import opened Segmentation
  import opened ParseSteps

  /*------------------------------------------------------------------------
     Cuts in the buffer
   ------------------------------------------------------------------------*/

  /** The offset of the terminator of the copy. */
  function End(r: Record): (n: nat)
    requires Wf(r)
    ensures n < |r.input.chars| && r.input.chars[n] == NUL
  {
    |r.input.chars| - 1
  }

  /** A pointer left on the terminator reads the empty string. */
  lemma AtEnd(r: Record)
    requires Wf(r)
    ensures Field(r, End(r)) == []
  {
  }

  /** The string at `q` lies, with its terminator, before the name, or starts at or after
      the name's terminator: a cut inside the name leaves it alone. */
  predicate Outside(r: Record, q: nat)
    requires Wf(r) && q < |r.input.chars|
  {
    q + |Field(r, q)| < r.name || r.name + |Field(r, r.name)| <= q
  }

  /** A NUL written at `k` inside the string at `i` ends that string at `k`, and the rest of
      it starts at `k + 1`. */
  lemma CutFields(r: Record, i: nat, k: nat)
    requires Wf(r) && i < |r.input.chars| && i <= k < i + |Field(r, i)|
    ensures var c := r.(input := Buffer(CutAt(r, i, k)));
            Field(c, i) == Field(r, i)[..k - i] && Field(c, k + 1) == Field(r, i)[k - i + 1..]
  {
    CStrCut(r.input.chars, i, k);
  }

  /** A string that starts after the cut, or ends (with its terminator) before it, is kept. */
  lemma CutKeeps(r: Record, i: nat, k: nat, q: nat)
    requires Wf(r) && i < |r.input.chars| && i <= k < i + |Field(r, i)|
    requires q < |r.input.chars| && (k < q || q + |Field(r, q)| < k)
    ensures Field(r.(input := Buffer(CutAt(r, i, k))), q) == Field(r, q)
  {
    CStrKept(r.input.chars, CutAt(r, i, k), k, k + 1, q);
  }

  /** The string at offset `k` of the name is what follows the first `k` characters. */
  lemma NameSuffix(r: Record, k: nat)
    requires Wf(r) && k <= |Field(r, r.name)|
    ensures r.name + k < |r.input.chars| && Field(r, r.name + k) == Field(r, r.name)[k..]
  {
    CStrEnds(r.input.chars, r.name);
    CStrSuffix(r.input.chars, r.name, k);
  }

  /** The string at `q` ends, with its terminator, before offset `lo`, or starts at or
      after `hi`: a NUL written in [lo, hi) leaves it alone. */
  predicate Beside(r: Record, q: nat, lo: nat, hi: nat)
    requires Wf(r) && q < |r.input.chars|
  {
    q + |Field(r, q)| < lo || hi <= q
  }

  /** `prefix`, `arch` and `suffix` at their pointers, beside the span [lo, hi) of the
      name the pre-steps left. */
  ghost predicate Around(r: Record, lo: nat, hi: nat, prefix: seq<char>, arch: seq<char>, suffix: seq<char>)
  {
    Wf(r) &&
    Field(r, r.prefix) == prefix && Field(r, r.arch) == arch && Field(r, r.suffix) == suffix &&
    Beside(r, r.prefix, lo, hi) && Beside(r, r.arch, lo, hi) && Beside(r, r.suffix, lo, hi)
  }

  /** A NUL written inside the name's span keeps prefix, arch and suffix. */
  lemma CutAround(r: Record, lo: nat, hi: nat, prefix: seq<char>, arch: seq<char>, suffix: seq<char>, i: nat, k: nat)
    requires Around(r, lo, hi, prefix, arch, suffix)
    requires i < |r.input.chars| && i <= k < i + |Field(r, i)| && lo <= k < hi
    ensures Around(r.(input := Buffer(CutAt(r, i, k))), lo, hi, prefix, arch, suffix)
  {
    CutKeeps(r, i, k, r.prefix);
    CutKeeps(r, i, k, r.arch);
    CutKeeps(r, i, k, r.suffix);
  }

  /** The eight fields read `prefix`, the five parts of `c`, `arch` and `suffix`. */
  ghost predicate Shows(r: Record, prefix: seq<char>, c: Core, arch: seq<char>, suffix: seq<char>)
  {
    Wf(r) &&
    View(r) == Descriptor(prefix, c.name, c.extraname, c.version, c.extraversion, c.revision, arch, suffix)
  }

  /*------------------------------------------------------------------------
     The pre-steps
   ------------------------------------------------------------------------*/

  /** The record holds `prefix`, `name`, `arch` and `suffix` at its four pre-step pointers,
      prefix, arch and suffix lie outside the name, and the other four pointers rest on the
      terminator. */
  ghost predicate PreStepped(r: Record, prefix: seq<char>, name: seq<char>, arch: seq<char>, suffix: seq<char>)
  {
    Wf(r) &&
    Field(r, r.prefix) == prefix && Field(r, r.name) == name &&
    Field(r, r.arch) == arch && Field(r, r.suffix) == suffix &&
    Outside(r, r.prefix) && Outside(r, r.arch) && Outside(r, r.suffix) &&
    r.extraname == End(r) && r.version == End(r) && r.extraversion == End(r) && r.revision == End(r)
  }

  /** _parse_setup then _parse_prefix: prefix and name as SplitPrefix gives them. */
  lemma PrefixStepMeaning(input: seq<char>)
    requires NoNul(input)
    ensures var p := SplitPrefix(input);
            var r := PrefixStep(Start(input));
            PreStepped(r, p.head, p.tail, [], []) && r.arch == End(r) && r.suffix == End(r)
  {
    var r0 := Start(input);
    CStrOf(r0.input.chars, 0, |input|);
    assert Field(r0, 0) == input by { CStrIsSlice(r0.input.chars, 0); }
    match StrRChr(input, '/')
    case None =>
    case Some(k) =>
      CutFields(r0, 0, k);
      CutKeeps(r0, 0, k, |input|);
  }

  /** A NUL written at offset `k` of the name: the name ends there, the text after it
      starts at `name + k + 1` and lies outside the shortened name, and every string that
      lay outside the name is kept and still lies outside it. */
  lemma NameCut(r: Record, k: nat, q: nat)
    requires Wf(r) && k < |Field(r, r.name)| && q < |r.input.chars| && Outside(r, q)
    ensures var c := r.(input := Buffer(CutAt(r, r.name, r.name + k)));
            Wf(c) && Field(c, c.name) == Field(r, r.name)[..k] &&
            Field(c, r.name + k + 1) == Field(r, r.name)[k + 1..] && Outside(c, r.name + k + 1) &&
            Field(c, q) == Field(r, q) && Outside(c, q)
  {
    CutFields(r, r.name, r.name + k);
    CutKeeps(r, r.name, r.name + k, q);
  }

  /** _parse_suffix on a record whose arch and suffix pointers rest on the terminator: the
      name is cut at the '.' of the first ".bee" or ".iee", and the suffix is the rest. */
  lemma SuffixStepMeaning(r: Record, prefix: seq<char>, name: seq<char>)
    requires PreStepped(r, prefix, name, [], []) && r.arch == End(r) && r.suffix == End(r)
    ensures match SuffixAt(name)
            case None => SuffixStep(r) == r
            case Some(k) => PreStepped(SuffixStep(r), prefix, name[..k], [], name[k + 1..]) &&
                            SuffixStep(r).arch == End(r)
  {
    match SuffixAt(name)
    case None =>
    case Some(k) =>
      NameCut(r, k, r.prefix);
      NameCut(r, k, End(r));
  }

  /** _parse_arch on a record whose arch pointer rests on the terminator: the name is cut at
      the '.' ArchAt finds, and the arch is the rest. */
  lemma ArchStepMeaning(r: Record, prefix: seq<char>, name: seq<char>, suffix: seq<char>, localArch: seq<char>)
    requires PreStepped(r, prefix, name, [], suffix) && r.arch == End(r)
    ensures match ArchAt(name, localArch)
            case None => ArchStep(r, localArch) == r
            case Some(k) => PreStepped(ArchStep(r, localArch), prefix, name[..k], name[k + 1..], suffix)
  {
    match ArchAt(name, localArch)
    case None =>
    case Some(k) =>
      NameCut(r, k, r.prefix);
      NameCut(r, k, r.suffix);
      NameCut(r, k, End(r));
  }

  /** _parse_suffix leaves the name and the suffix SplitSuffix gives. */
  lemma SuffixStepSplits(r: Record, prefix: seq<char>, name: seq<char>)
    requires PreStepped(r, prefix, name, [], []) && r.arch == End(r) && r.suffix == End(r)
    ensures var s := SplitSuffix(name);
            var r' := SuffixStep(r);
            PreStepped(r', prefix, s.head, [], s.tail) && r'.arch == End(r')
  {
    SuffixStepMeaning(r, prefix, name);
  }

  /** _parse_arch leaves the name and the arch SplitArch gives. */
  lemma ArchStepSplits(r: Record, prefix: seq<char>, name: seq<char>, suffix: seq<char>, localArch: seq<char>)
    requires PreStepped(r, prefix, name, [], suffix) && r.arch == End(r)
    ensures var a := SplitArch(name, localArch);
            PreStepped(ArchStep(r, localArch), prefix, a.head, a.tail, suffix)
  {
    ArchStepMeaning(r, prefix, name, suffix, localArch);
  }

  /** The pre-steps of bee_version_parse: prefix, name, arch and suffix as the string-level
      splits give them, every other pointer on the terminator. */
  lemma PreStepsMeaning(input: seq<char>, localArch: seq<char>)
    requires NoNul(input)
    ensures var p := SplitPrefix(input);
            var sfx := SplitSuffix(p.tail);
            var a := SplitArch(sfx.head, localArch);
            PreStepped(PreSteps(input, localArch), p.head, a.head, a.tail, sfx.tail)
  {
    var p := SplitPrefix(input);
    PrefixStepMeaning(input);
    var r1 := PrefixStep(Start(input));
    SuffixStepSplits(r1, p.head, p.tail);
    var sfx := SplitSuffix(p.tail);
    ArchStepSplits(SuffixStep(r1), p.head, sfx.head, sfx.tail, localArch);
  }
}
