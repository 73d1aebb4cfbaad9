# beeversion core, modelled in Dafny

beeversion is the version tool of the bee package manager. It takes a package
string such as `/pkgs/foo_extra-1.0_beta-2.x86_64.bee.tar.bz2` and segments it into
eight fields: prefix, name, extraname, version, extraversion, revision, arch and suffix.
It orders two segmented packages by bee's version-ordering rules. It prints a
descriptor through a small format language (`%p`, `%v`, `%A`, `@v`, `\n`, ...).

This project models those three parts of the C library:

* **Segmenter** (`src/bee_version_parse.c`).
  * Module `Segmentation` is a string-level reference. `Segment(input, mode, localArch)`
    gives the descriptor, or `None` where `bee_version_parse` returns 0.
  * Module `ParseSteps` follows the C code on a record. The record holds the NUL-terminated
    copy of the input and one offset per field pointer. One function per C step says how
    the step moves the pointers and where it writes NUL bytes or puts '-' back.
  * Class `Parser.BeeVersion` is the imperative model. It holds an `array<char>` buffer and
    nat pointer fields, and has one method per C function. Each method is proved to take
    its `Snapshot()` where the matching `ParseSteps` function says.
  * The lemmas of `ParseStepsProperties`, `SplitProperties`, `PartialProperties` and
    `ParseCorrectness` prove that the buffer-and-pointer computation reads back exactly
    what `Segment` computes. `BeeVersion.Parse` ensures `ok == Segment(..).Some?`, and on
    success `Fields() == Segment(..).value`.
* **Comparator** (`src/bee_version_compare.c`).
  * Module `Comparator` defines the recursive reference functions `VersionCmp`,
    `ExtraCmp`, `KeywordCmp` and `Compare`.
  * The same module has methods that keep the C loops (`CmpVersionString`,
    `CmpExtraversionString`, ...), each proved equal to its function.
  * `ComparatorProperties` proves what the ordering does and what it does not do.
* **Renderer** (`src/bee_version_output.c`).
  * Module `Renderer` defines `Render(format, v, index)`, the text
    `bee_version_print_indexed` writes to stdout. A directive scanner `Next` and
    `Piece` produce it.
  * `PrintIndexed` and `CutAndPrint` are loop methods that append to an output
    sequence, and are proved to produce `Render` and `CutText`.
  * `RendererProperties` proves concatenation, the examples of the format language, and
    that `%A%s` rebuilds a fully split input.

Strings are `seq<char>`. A C string inside a buffer is `CStr(b, i)`, the characters from
`i` up to the next NUL. Reads past the end give NUL (`At`). `strcmp` and `strncmp` are
modelled as returning -1, 0 or 1, because C fixes only their sign.

## Model

Rows for the reference functions (`VersionCmp`, `Segment`, `Render`, the `ParseSteps`
step functions, ...) say which C code each one follows and name the lemmas that state
its meaning. Rows marked "step towards FullPkgMeaning" or "step towards PartialMeaning"
are the branch-by-branch lemmas from which those two results are assembled.

| member | source | states |
|---|---|---|
| CStrings.StrChr | src/bee_version_parse.c:317 | strchr: the index found holds `c` and no earlier index does; `None` exactly when `c` does not occur |
| CStrings.StrRChr | src/bee_version_parse.c:350 | strrchr: the index found holds `c` and no later index does; `None` exactly when `c` does not occur |
| CStrings.StrStrFrom | src/bee_version_parse.c:182-185 | strstr from offset `from`: the pattern occurs at the index found and at no earlier index from `from`; `None` when it occurs nowhere from there |
| CStrings.LastCut | src/bee_version_parse.c:359-361 | the cut at the last `c`: present exactly when `c` occurs; head, `c` and tail rebuild the string; the tail has no `c` |
| CStrings.FirstCut | src/bee_version_parse.c:317-322 | the cut at the first `c`: present exactly when `c` occurs; head, `c` and tail rebuild the string; the head has no `c` |
| CStrings.SplitFirst | src/bee_version_parse.c:333-338 | the first-`c` split or the whole string with an empty tail: head + `c` + tail rebuilds `s` when `c` occurs, and the head holds no `c` |
| CStrings.StrCmp | src/bee_version_compare.c:192-197 | strcmp as -1, 0 or 1; zero exactly when the strings are equal |
| CStrings.CStrMeans | src/bee_version_parse.c:107-119 | the C string at offset `i` holds the buffer's characters from `i`, contains no NUL, and is followed by the NUL terminator |
| CStrings.CStrCut | src/bee_version_parse.c:167-170 | a NUL written at `p` inside the string at `i` ends that string at `p`; the string at `p + 1` is the rest |
| Validators.ContainsInvalidChars | src/bee_version_parse.c:224-240 | `_contains_invalid_chars`: the first character outside the accept set, or NUL; ContainsInvalidCharsMeans states its meaning |
| Validators.SpanFromMeans | src/bee_version_parse.c:224-240 | strspn: every character before the span end is accepted, and the character at the end is not |
| Validators.ContainsInvalidCharsMeans | src/bee_version_parse.c:224-240 | the result is NUL exactly when every character is in the accept set; otherwise it is a character of the string outside the set |
| Validators.ValidRevision | src/bee_version_parse.c:242-262 | `_verify_revision_string` as a predicate; ValidRevisionMeans states it character by character |
| Validators.ValidFullVersion | src/bee_version_parse.c:264-285 | `_verify_fullversion_string` as a predicate; ValidFullVersionMeans states it character by character |
| Validators.ValidFullName | src/bee_version_parse.c:287-308 | `_verify_fullname_string` as a predicate; ValidFullNameMeans states it character by character |
| Validators.ValidRevisionMeans | src/bee_version_parse.c:242-262 | a valid revision is non-empty, starts with a digit, and uses digits, lower-case letters and '.' only (iff) |
| Validators.ValidFullVersionMeans | src/bee_version_parse.c:264-285 | a valid full version is non-empty, starts with a digit, and uses digits, lower-case letters and `._+` only (iff) |
| Validators.ValidFullNameMeans | src/bee_version_parse.c:287-308 | a valid full name is non-empty, starts with a letter, and uses letters, digits and `._+-` only (iff) |
| Validators.ValidNameHasNoColon | src/bee_version_parse.c:49-51 | a name that passes validation contains no ':' |
| Validators.RevisionIsFullVersion | src/bee_version_parse.c:49-50 | every valid revision is also a valid full version |
| Validators.IsSupportedArch | src/bee_version_parse.c:139-150 | `_is_supported_arch`, the walk over the list of bee_version.h; IsSupportedArchMeans gives the exact set it accepts |
| Validators.SupportedFromMeans | src/bee_version_parse.c:144-149 | the table scan from entry `k` succeeds exactly when one of the remaining entries equals the string |
| Validators.IsSupportedArchMeans | src/bee_version_parse.c:139-150 | `_is_supported_arch` holds exactly for the names in SUPPORTED_ARCHITECTURES |
| Segmentation.SplitPrefix | src/bee_version_parse.c:153-173 | with a '/', prefix + "/" + name rebuilds the input and the name has no '/'; without one, the prefix is empty and the name is the input |
| Segmentation.SplitSuffix | src/bee_version_parse.c:175-195 | the cut is at the first ".bee", or at the first ".iee" when there is no ".bee"; name + "." + suffix rebuilds the text; without either, the suffix is empty |
| Segmentation.ArchAtMeans | src/bee_version_parse.c:197-222 | an arch is taken after the last '.' only when that text has no '-' and is the local arch or a supported one; when none is taken after an existing '.', that text fails one of those tests |
| Segmentation.ArchAt | src/bee_version_parse.c:197-215 | the offset of the '.' `_parse_arch` cuts at, which holds a '.'; ArchAtMeans states both directions of the acceptance rule |
| Segmentation.SplitArch | src/bee_version_parse.c:197-222 | the name and arch `_parse_arch` leaves, the name whole and the arch empty when ArchAt finds none; ArchGlue states that they rebuild the text |
| Segmentation.AutoMode | src/bee_version_parse.c:602-612 | auto mode is bee-pkg iff the suffix continues with "ee.tar."; else bee-file iff the suffix is "bee"; else bee-version iff an arch was found; else partial |
| Segmentation.PkgFullPkg | src/bee_version_parse.c:342-391 | a full split yields name-version-revision that rebuilds the string, with all three parts valid |
| Segmentation.PkgPartial | src/bee_version_parse.c:462-547 | a partial split rebuilds the string from its non-empty parts; the name is valid; a version is valid; a revision is valid and only present with a version |
| Segmentation.PartialCandidates | src/bee_version_parse.c:446-517 | the name, version and revision candidates of the decision diagram; CandidatesWhole, CandidatesThree and CandidatesTwo state each branch |
| Segmentation.PartialMode | src/bee_version_parse.c:614-646 | mode 4: the full split first when an arch was found, then the partial split, keeping a stale revision; PartialMeaning ties it to the C steps |
| Segmentation.WithExtras | src/bee_version_parse.c:310-340 | the `_` sub-splits: name and version lose their text from the first '_' on, which becomes extraname and extraversion, and they rebuild the originals |
| Segmentation.Segment | src/bee_version_parse.c:585-660 | `bee_version_parse` on strings: the pre-steps, the mode and that mode's split; SegmentByMode states the framing, and the SegmentProperties lemmas its results on "foo-1.0-1", "foo-1.0", "foo-bar", "foo-bar-2", "foo.beefy-1" and, in auto mode, "foo_extra-1.0_beta-2" |
| ParseSteps.PrefixStep | src/bee_version_parse.c:153-173 | `_parse_prefix` on the record, keeping it well formed; PrefixStepMeaning states the fields it leaves |
| ParseSteps.SuffixStep | src/bee_version_parse.c:175-195 | `_parse_suffix` on the record, keeping it well formed; SuffixStepMeaning and SuffixStepSplits state its effect |
| ParseSteps.ArchStep | src/bee_version_parse.c:197-222 | `_parse_arch` on the record, keeping it well formed; ArchStepMeaning and ArchStepSplits state its effect |
| ParseSteps.FullVersionStep | src/bee_version_parse.c:310-324 | `_parse_pkgfullversion` on the record, keeping it well formed; VersionStepMeaning and VersionSub state its effect |
| ParseSteps.FullNameStep | src/bee_version_parse.c:326-340 | `_parse_pkgfullname` on the record, keeping it well formed; NameStepMeaning and NameSub state its effect |
| ParseSteps.FullPkgStep | src/bee_version_parse.c:342-357 | `_parse_pkgfullpkg` up to the revision check, keeping the record well formed; FullPkgMeaning states its result and the record it leaves |
| ParseSteps.VersionStage | src/bee_version_parse.c:359-374 | `_parse_pkgfullpkg` from the revision cut to the version check; VersionStops and VersionGoes state its two outcomes |
| ParseSteps.NameStage | src/bee_version_parse.c:376-391 | `_parse_pkgfullpkg` from the version cut to the name check; NameStops and NameGoes state its two outcomes |
| ParseSteps.PartialPointers | src/bee_version_parse.c:470-517 | the version and revision pointers the decision diagram finds, each after a '-' of the buffer; PointersWhole, PointersThree and PointersTwo state them per shape |
| ParseSteps.PartialAfterRevisionCut | src/bee_version_parse.c:477-517 | the pointers once the revision is cut off, each after a '-'; the Pointers lemmas state them per shape |
| ParseSteps.PartialFinish | src/bee_version_parse.c:519-546 | finish_parsename, keeping the record well formed; FinishStops and FinishGoes state its two outcomes |
| ParseSteps.PartialAssign | src/bee_version_parse.c:537-545 | the success path of finish_parsename; FinishGoes and the Meaning lemmas state the fields it leaves |
| ParseSteps.PartialStep | src/bee_version_parse.c:462-547 | `_parse_partialpkg` on the record, keeping it well formed; PartialMeaning states its result against PartialMode |
| ParseSteps.SplitStep | src/bee_version_parse.c:614-646 | the mode switch of `bee_version_parse`, keeping the record well formed; SplitMeaning states it against the string-level splits |
| ParseSteps.Parse | src/bee_version_parse.c:585-660 | `bee_version_parse` on the record, keeping it well formed; ParseIsSegment states that it reads back as Segment |
| ParseStepsProperties.CutFields | src/bee_version_parse.c:359-361 | a NUL written inside a field ends it there, and the text after it reads as a new field |
| ParseStepsProperties.CutKeeps | src/bee_version_parse.c:359-361 | a NUL written inside one field leaves every field that lies wholly before or after the cut unchanged |
| ParseStepsProperties.PrefixStepMeaning | src/bee_version_parse.c:90-173 | setup then `_parse_prefix` leave prefix and name as SplitPrefix gives them, with arch and suffix on the terminator |
| ParseStepsProperties.SuffixStepMeaning | src/bee_version_parse.c:175-195 | `_parse_suffix` changes nothing without a ".bee"/".iee", and otherwise cuts the name before it and points the suffix after the '.' |
| ParseStepsProperties.ArchStepMeaning | src/bee_version_parse.c:197-222 | `_parse_arch` changes nothing when ArchAt finds no arch, and otherwise cuts the name at that '.' and points the arch after it |
| ParseStepsProperties.SuffixStepSplits | src/bee_version_parse.c:175-195 | after `_parse_suffix` the name and suffix read as SplitSuffix gives them |
| ParseStepsProperties.ArchStepSplits | src/bee_version_parse.c:197-222 | after `_parse_arch` the name and arch read as SplitArch gives them |
| ParseStepsProperties.PreStepsMeaning | src/bee_version_parse.c:592-600 | after setup, prefix, suffix and arch steps, the four fields read as the string-level splits give them |
| SplitProperties.FullStops | src/bee_version_parse.c:350-357 | (step towards FullPkgMeaning) `_parse_pkgfullpkg` fails with the record unchanged when the name has no '-' or no valid revision after the last one |
| SplitProperties.FullGoes | src/bee_version_parse.c:356-361 | (step towards FullPkgMeaning) otherwise it goes on to the version stage after cutting at the last '-' |
| SplitProperties.VersionStops | src/bee_version_parse.c:363-389 | (step towards FullPkgMeaning) no further '-' or no valid version after it: failure, with the revision pointer left set and the buffer restored |
| SplitProperties.VersionGoes | src/bee_version_parse.c:369-374 | (step towards FullPkgMeaning) otherwise it goes on to the name check after the second cut |
| SplitProperties.NameStops | src/bee_version_parse.c:376-389 | (step towards FullPkgMeaning) an invalid name: failure, both '-' written back, revision and version pointers left set |
| SplitProperties.NameGoes | src/bee_version_parse.c:376-382 | (step towards FullPkgMeaning) a valid name: success through the version and name `_` sub-splits |
| SplitProperties.VersionSub | src/bee_version_parse.c:310-324 | (step towards FullPkgMeaning) `_parse_pkgfullversion` on laid-out parts cuts the version at its first '_' into version and extraversion, and changes nothing outside the version |
| SplitProperties.NameSub | src/bee_version_parse.c:326-340 | (step towards FullPkgMeaning) `_parse_pkgfullname` cuts the name at its first '_' into name and extraname, and keeps version, extraversion and revision |
| SplitProperties.ExtrasInner | src/bee_version_parse.c:379-380 | (step towards FullPkgMeaning) the two sub-splits leave the five inner fields exactly as WithExtras gives them, and the outer pointers unchanged |
| SplitProperties.FullSplits | src/bee_version_parse.c:342-382 | a name-version-revision string with valid parts: the split succeeds and the fields show WithExtras of the three parts |
| SplitProperties.FullNoRevision | src/bee_version_parse.c:350-357 | without a valid revision after the last '-' the split fails with the record unchanged |
| SplitProperties.FullNoVersion | src/bee_version_parse.c:363-370 | a revision without a valid version before it: failure, only the revision pointer moved |
| SplitProperties.FullBadName | src/bee_version_parse.c:376-389 | revision and version valid but the name invalid: failure, revision and version pointers moved |
| SplitProperties.VersionStageRestores | src/bee_version_parse.c:384-389 | a failed version or name check writes back the '-' it overwrote: the buffer and the name pointer are as before the split |
| SplitProperties.FullFailureRestores | src/bee_version_parse.c:384-389 | every failure of `_parse_pkgfullpkg` leaves the buffer and the name pointer as they were |
| SplitProperties.PkgNoRevision | src/bee_version_parse.c:350-357 | PkgFullPkg fails without a valid revision after the last '-' |
| SplitProperties.PkgNoVersion | src/bee_version_parse.c:363-370 | PkgFullPkg fails without a valid version after the '-' before the revision |
| SplitProperties.PkgCuts | src/bee_version_parse.c:350-376 | with both '-' found, PkgFullPkg succeeds exactly when the three parts are valid, and then gives those parts |
| SplitProperties.MeaningNoRevision | src/bee_version_parse.c:350-357 | (step towards FullPkgMeaning) no valid revision: the C split and PkgFullPkg both fail, and the record is the one the failure leaves |
| SplitProperties.MeaningNoVersion | src/bee_version_parse.c:363-370 | (step towards FullPkgMeaning) no valid version: both fail, and the record is the one the failure leaves |
| SplitProperties.MeaningBadName | src/bee_version_parse.c:376-389 | (step towards FullPkgMeaning) an invalid name: both fail, and the record is the one the failure leaves |
| SplitProperties.MeaningSplits | src/bee_version_parse.c:342-382 | (step towards FullPkgMeaning) three valid parts: both succeed, and the fields show PkgFullPkg's parts with their extras |
| SplitProperties.FullPkgMeaning | src/bee_version_parse.c:342-391 | `_parse_pkgfullpkg` succeeds exactly when PkgFullPkg does; the fields then show its result; on failure the buffer and `name` are restored (the `restore_version`/`restore_revision` exits at lines 384-391 write back each '-'), while `revision`, and `version` once it was set, keep pointing where the split had put them, as FullFailure states |
| PartialProperties.CandidatesWhole | src/bee_version_parse.c:446-460 | no '-', or no valid version after the last one: the whole string is the name candidate |
| PartialProperties.CandidatesThree | src/bee_version_parse.c:446-460 | a valid revision after the last '-' and a valid version before it: name, version and revision candidates |
| PartialProperties.CandidatesTwo | src/bee_version_parse.c:446-460 | otherwise, with a valid version after the last '-': name and version candidates |
| PartialProperties.PointersWhole | src/bee_version_parse.c:470-517 | (step towards PartialMeaning) the pointer search assigns neither pointer when no version is found |
| PartialProperties.PointersThree | src/bee_version_parse.c:470-503 | (step towards PartialMeaning) in the three-part shape the version points after the second-last '-' and the revision after the last |
| PartialProperties.PointersTwo | src/bee_version_parse.c:476-507 | (step towards PartialMeaning) in the two-part shape only the version pointer is set, after the last '-' |
| PartialProperties.FinishStops | src/bee_version_parse.c:525-535 | (step towards PartialMeaning) an invalid name undoes the cuts and points the name at the extraname (the empty string) |
| PartialProperties.FinishGoes | src/bee_version_parse.c:537-546 | (step towards PartialMeaning) a valid name assigns the pointers found and runs the sub-splits |
| PartialProperties.PartialFailureRestores | src/bee_version_parse.c:525-535 | a failed `_parse_partialpkg` leaves the buffer and every other pointer as they were, with the name reading what the extraname read |
| PartialProperties.NameStepMeaning | src/bee_version_parse.c:326-340 | `_parse_pkgfullname` splits the name at its first '_' into name and extraname and touches nothing outside the name |
| PartialProperties.VersionStepMeaning | src/bee_version_parse.c:310-324 | `_parse_pkgfullversion` splits the version at its first '_' into version and extraversion and touches nothing outside the version |
| PartialProperties.PartialThree | src/bee_version_parse.c:462-547 | three-part shape: the partial split succeeds exactly when the name part is valid, and shows the three parts with extras |
| PartialProperties.PartialTwo | src/bee_version_parse.c:462-547 | two-part shape: it succeeds exactly when the name part is valid, and shows name and version, with any stale revision kept |
| PartialProperties.PartialWhole | src/bee_version_parse.c:462-547 | no version found: it succeeds exactly when the whole string is a valid name, and shows it as the name |
| PartialProperties.StaleRevisionIs | src/bee_version_parse.c:640-644 | the revision a failed full split leaves is the text after the last '-' when that is a valid revision, and empty otherwise |
| PartialProperties.MeaningWhole | src/bee_version_parse.c:640-646 | (step towards PartialMeaning) mode 4 without a version: the partial split, after any failed full split, agrees with PartialMode |
| PartialProperties.MeaningTwo | src/bee_version_parse.c:640-646 | (step towards PartialMeaning) mode 4 with name and version: it agrees with PartialMode, including the revision pointer the failed full split left |
| PartialProperties.MeaningThree | src/bee_version_parse.c:640-646 | (step towards PartialMeaning) mode 4 with three parts: it agrees with PartialMode, overwriting both pointers the full split may have left |
| PartialProperties.PartialMeaning | src/bee_version_parse.c:640-646 | mode 4 as a whole: `_parse_partialpkg` from the record the full split left succeeds exactly when PartialMode gives a result, and shows it |
| ParseCorrectness.SplitMeaning | src/bee_version_parse.c:614-646 | the mode switch succeeds exactly when the mode's string-level split does, and shows its result between prefix, arch and suffix |
| ParseCorrectness.Assemble | src/bee_version_parse.c:614-655 | a descriptor exists exactly when the split succeeded, and it carries the given prefix, arch and suffix |
| ParseCorrectness.SegmentByMode | src/bee_version_parse.c:598-646 | Segment is the chosen mode's split of the name part, framed by the pre-steps' prefix, arch and suffix |
| ParseCorrectness.ParseIsSegment | src/bee_version_parse.c:585-660 | the record-level parse succeeds exactly when Segment gives a descriptor, and its eight fields then read that descriptor |
| Parser.BeeVersion.constructor | src/bee_version_parse.c:72-82 | a fresh descriptor whose eight fields read the empty string |
| Parser.BeeVersion.Setup | src/bee_version_parse.c:90-122 | the buffer is a fresh NUL-terminated copy of the input, with every pointer on the terminator |
| Parser.BeeVersion.ParsePrefix | src/bee_version_parse.c:153-173 | the state PrefixStep gives; reports whether the input had a '/' |
| Parser.BeeVersion.ParseSuffix | src/bee_version_parse.c:175-195 | the state SuffixStep gives; reports whether ".bee" or ".iee" was found |
| Parser.BeeVersion.ParseArch | src/bee_version_parse.c:197-222 | the state ArchStep gives; reports whether an arch was found |
| Parser.BeeVersion.ParsePkgFullVersion | src/bee_version_parse.c:310-324 | the state FullVersionStep gives |
| Parser.BeeVersion.ParsePkgFullName | src/bee_version_parse.c:326-340 | the state FullNameStep gives |
| Parser.BeeVersion.Restore | src/bee_version_parse.c:384-389 | writing '-' back where a cut wrote NUL restores the buffer |
| Parser.BeeVersion.ParsePkgFullPkg | src/bee_version_parse.c:342-391 | the result and state FullPkgStep gives; on failure the buffer is as before |
| Parser.BeeVersion.CutVersion | src/bee_version_parse.c:363-374 | after the revision cut, the result and state VersionStage gives; on failure the buffer is restored |
| Parser.BeeVersion.CheckName | src/bee_version_parse.c:376-389 | after both cuts, the result and state NameStage gives; on failure the buffer is restored |
| Parser.BeeVersion.ParsePartialPkg | src/bee_version_parse.c:462-547 | the result and state PartialStep gives; on failure the buffer is as before and the name pointer is the extraname's |
| Parser.BeeVersion.FindPointers | src/bee_version_parse.c:470-517 | the version and revision pointers PartialPointers gives, with the buffer cut at the '-' before each of them |
| Parser.BeeVersion.PointersAfterRevisionCut | src/bee_version_parse.c:477-517 | after the revision cut, the pointers PartialAfterRevisionCut gives, with the matching cuts in the buffer |
| Parser.BeeVersion.FinishName | src/bee_version_parse.c:519-546 | the result and state PartialFinish gives |
| Parser.BeeVersion.AssignFound | src/bee_version_parse.c:537-545 | the state PartialAssign gives |
| Parser.BeeVersion.Parse | src/bee_version_parse.c:585-660 | succeeds exactly when Segment gives a descriptor, and then the fields read that descriptor |
| Parser.BeeVersion.Split | src/bee_version_parse.c:614-655 | the result and state SplitStep gives for the mode |
| Comparator.VersionCmp | src/bee_version_compare.c:49-129 | `_cmp_version_string` as a function; VersionSelf, MismatchAt, MismatchByClass, NumbersByValue, ZerosIgnored, UnderscoreHandsOver and VersionRange state what it computes |
| Comparator.Decide | src/bee_version_compare.c:79-128 | the decision after the scan: the extraversion compare after a shared '_', 0 at a shared end, Mismatch otherwise; UnderscoreHandsOver and MismatchAt state its cases |
| Comparator.Mismatch | src/bee_version_compare.c:83-128 | the decision at the first mismatch; MismatchByClass (with ClassOrder) and NumbersByValue state it for each class of characters |
| Comparator.ExtraCmp | src/bee_version_compare.c:159-190 | `_cmp_extraversion_string` as a function; ExtraAtLetters, ExtraElsewhere, EmptyExtraversionFirst and ExtraSelf state what it computes |
| Comparator.KeywordCmp | src/bee_version_compare.c:180-189 | the keyword branch: the priority difference, else the version compare after the keywords; ExtraAtLetters states it through KeywordOrder |
| Comparator.Scan | src/bee_version_compare.c:56-77 | the main loop of `_cmp_version_string`: both offsets stay within their strings; ScanTo states where it stops over a shared stretch, ZeroRunSkipped where it resumes after a run of zeros |
| Comparator.SkipZeros | src/bee_version_compare.c:67-68 | the scan over '0's stops at or after `i` on a character that is not '0' |
| Comparator.Rewind | src/bee_version_compare.c:90-94 | both strings step back by the same amount, and stop where the two preceding characters are not both digits |
| Comparator.DigitEnd | src/bee_version_compare.c:95-96 | the digit run from `i` ends on a non-digit |
| Comparator.Keyword | src/bee_version_compare.c:131-157 | `_get_and_skip_extraversion`: a skip within the string; KeywordIs gives its priority and length by letter |
| Comparator.TableShape | src/bee_version_compare.c:133-143 | every keyword entry but the last has a keyword of the recorded length; the last matches anything with length 0 |
| Comparator.KeywordFrom | src/bee_version_compare.c:151-154 | the keyword skip never runs past the string and is at most 5 |
| Comparator.CommonPrefix | src/bee_version_compare.c:166-169 | the common scan stops where either string ends or the two characters differ |
| Comparator.RewindAlpha | src/bee_version_compare.c:172-175 | the rewind stops at or before `k`, after a non-letter or at the start |
| Comparator.PastZeros | src/bee_version_compare.c:67-68 | the loop reaches the position SkipZeros gives |
| Comparator.ScanVersions | src/bee_version_compare.c:56-77 | the main loop of `_cmp_version_string` ends where Scan says |
| Comparator.CmpVersionString | src/bee_version_compare.c:49-129 | `_cmp_version_string` returns VersionCmp |
| Comparator.CmpScanned | src/bee_version_compare.c:79-128 | the decision after the scan returns what Decide gives |
| Comparator.CmpAtMismatch | src/bee_version_compare.c:86-128 | the decision at a mismatch returns what Mismatch gives |
| Comparator.GetAndSkipExtraversion | src/bee_version_compare.c:131-157 | the keyword priority and skip are those Keyword gives |
| Comparator.SkipCommon | src/bee_version_compare.c:166-169 | the common-prefix loop stops at CommonPrefix |
| Comparator.RewindLetters | src/bee_version_compare.c:172-175 | the letter rewind stops at RewindAlpha |
| Comparator.CmpExtraversionString | src/bee_version_compare.c:159-190 | `_cmp_extraversion_string` returns ExtraCmp |
| Comparator.CmpKeywords | src/bee_version_compare.c:182-189 | the keyword branch returns KeywordCmp |
| Comparator.NameLength | src/bee_version_compare.c:208-212 | the name length before ':' covers no ':' and stops on a ':' when short of the end |
| Comparator.CmpPkgName | src/bee_version_compare.c:199-228 | `_cmp_pkgname`; NameWithoutColon, ColonSortsFirst and NameAntisymmetric state its rule |
| Comparator.CmpPkgFullName | src/bee_version_compare.c:287-296 | `_cmp_pkgfullname`: name, then extraname; FullNameDecides states it |
| Comparator.CmpPkgFullVersion | src/bee_version_compare.c:298-311 | `_cmp_pkgfullversion`: epoch, version, then extraversion; CompareIsFirstNonZero states it |
| Comparator.CmpPkgFullPkg | src/bee_version_compare.c:313-326 | `_cmp_pkgfullpkg`: full name, full version, then revision; CompareIsFirstNonZero states it |
| Comparator.CmpPkgOther | src/bee_version_compare.c:328-341 | `_cmp_pkgother`: prefix, arch, then suffix; CompareIsFirstNonZero states it |
| Comparator.ComparePkgFullName | src/bee_version_compare.c:343-351 | `bee_version_compare_pkgfullname`; FullNameDecides and FullNameAntisymmetric state it |
| Comparator.Compare | src/bee_version_compare.c:353-365 | `bee_version_compare`; CompareIsFirstNonZero gives it as the first non-zero of the nine field compares, CompareSelf and CompareNotAntisymmetric state its laws |
| ComparatorProperties.StrCmpAntisymmetric | src/bee_version_compare.c:192-197 | swapping the arguments of strcmp negates the result |
| ComparatorProperties.StrCmpSplit | src/bee_version_compare.c:216-226 | strcmp decides on the first `n` characters when they differ, and on the rest otherwise |
| ComparatorProperties.NameWithoutColon | src/bee_version_compare.c:199-228 | for names without ':' the name comparison is plain strcmp |
| ComparatorProperties.ColonSortsFirst | src/bee_version_compare.c:220-224 | a name that reaches ':' where the other has an ordinary character sorts first, in both argument orders |
| ComparatorProperties.NameAntisymmetric | src/bee_version_compare.c:199-228 | swapping the packages negates the name comparison |
| ComparatorProperties.FullNameAntisymmetric | src/bee_version_compare.c:343-351 | swapping the packages negates `bee_version_compare_pkgfullname` |
| ComparatorProperties.FirstNonZero | src/bee_version_compare.c:313-341 | the chained comparison returns the first non-zero result, and 0 exactly when all results are 0 |
| ComparatorProperties.CompareIsFirstNonZero | src/bee_version_compare.c:353-365 | `bee_version_compare` is the first non-zero of the nine field comparisons in the order name, extraname, epoch, version, extraversion, revision, prefix, arch, suffix |
| ComparatorProperties.FullNameDecides | src/bee_version_compare.c:343-351 | the full-name comparison is the first non-zero of name and extraname, and decides the whole comparison when non-zero |
| ComparatorProperties.ScanSelf | src/bee_version_compare.c:56-77 | scanning a string against itself ends at the same place in both, on NUL or '_' |
| ComparatorProperties.VersionSelf | src/bee_version_compare.c:49-129 | a version compares equal to itself |
| ComparatorProperties.ExtraSelf | src/bee_version_compare.c:159-190 | an extraversion compares equal to itself |
| ComparatorProperties.CompareSelf | src/bee_version_compare.c:353-365 | a descriptor compares equal to itself (name, full name and whole comparison) |
| ComparatorProperties.ScanTo | src/bee_version_compare.c:56-77 | over a shared stretch without NUL or '_', the scan walks both strings in lock-step and stops at its end |
| ComparatorProperties.ClassOrder | src/bee_version_compare.c:107-128 | two different characters, not both digits, are ordered by class: a digit above a letter, a letter above any other character, and that above the end of the string |
| ComparatorProperties.MismatchAt | src/bee_version_compare.c:83-128 | the comparison is decided at the first mismatch |
| ComparatorProperties.MismatchByClass | src/bee_version_compare.c:107-128 | a first mismatch that is not two digits is decided by ClassOrder |
| ComparatorProperties.NumbersAt | src/bee_version_compare.c:86-106 | a first mismatch of two digits at a number start compares the numbers' values |
| ComparatorProperties.NumbersOfRuns | src/bee_version_compare.c:86-106 | two digit runs at the first mismatch compare by their numeric values |
| ComparatorProperties.AtollRun | src/bee_version_compare.c:95-96 | atoll at a digit run gives that run's value |
| ComparatorProperties.RewindOverDigits | src/bee_version_compare.c:88-94 | over digits shared by both strings from a number start, the lock-step rewind goes back to that start |
| ComparatorProperties.RunsFromShared | src/bee_version_compare.c:83-106 | digit runs that start together, share digits up to the first mismatch and differ there in non-zero digits compare by their values |
| ComparatorProperties.NumbersByValue | src/bee_version_compare.c:83-106 | after a shared stretch that does not end in a digit, numbers that share leading digits `c` and then differ in non-zero digits compare by the values of the whole numbers (`c` included) |
| ComparatorProperties.SharedDigitsRewound | src/bee_version_compare.c:88-96 | "1.12" sorts before "1.13": the rewind goes back over the shared '1' |
| ComparatorProperties.ScanAlong | src/bee_version_compare.c:56-61 | over a shared stretch without NUL or '_', the scan from any offset reaches the stretch's last character in lock-step |
| ComparatorProperties.SkipZerosRun | src/bee_version_compare.c:67-68 | the zero skip moves past exactly the run of '0's in front of it |
| ComparatorProperties.ZeroRunSkipped | src/bee_version_compare.c:63-76 | after a shared stretch, a run of zeros on one side met by a non-zero digit on the other is skipped: the scan resumes past the run on that side and at the digit on the other |
| ComparatorProperties.ScanSame | src/bee_version_compare.c:56-77 | on equal remainders the scan stops at the same remainder on both sides, on a NUL or a '_' |
| ComparatorProperties.SameDecides | src/bee_version_compare.c:56-129 | on equal remainders the comparison from there decides 0 |
| ComparatorProperties.ZeroRunEqual | src/bee_version_compare.c:56-129 | two strings that differ only by a skipped run of zeros compare equal |
| ComparatorProperties.ZerosIgnored | src/bee_version_compare.c:63-76 | for every stretch `p` without NUL or '_', run of zeros `z` and rest `q` starting with a non-zero digit, `p + z + q` and `p + q` compare equal |
| ComparatorProperties.PunctuationNotAntisymmetric | src/bee_version_compare.c:125-128 | two different punctuation characters at the first mismatch make each string less than the other |
| ComparatorProperties.UnderscoreHandsOver | src/bee_version_compare.c:79-80 | a common prefix up to '_' hands the rest to the extraversion comparison |
| ComparatorProperties.EmptyExtraversionFirst | src/bee_version_compare.c:159-190 | an empty extraversion sorts before any non-empty one |
| ComparatorProperties.KeywordIs | src/bee_version_compare.c:131-157 | the keyword lookup gives the priority and length of the first table entry the string starts with |
| ComparatorProperties.ExtraAtLetters | src/bee_version_compare.c:171-186 | a letter mismatch rewinds to the word start, compares by keyword priority at the start or after '_', and as versions otherwise |
| ComparatorProperties.ExtraElsewhere | src/bee_version_compare.c:166-189 | any other mismatch compares the rest as versions |
| ComparatorProperties.PriorityRange | src/bee_version_compare.c:133-143 | keyword priorities lie between 1 and 6 |
| ComparatorProperties.VersionRange | src/bee_version_compare.c:49-129 | the version comparison lies in -5..5, and in -1..1 when the first string has no '_' |
| ComparatorProperties.KeywordRange | src/bee_version_compare.c:182-189 | the keyword comparison lies in -5..5 |
| ComparatorProperties.ExtraRange | src/bee_version_compare.c:159-190 | the extraversion comparison lies in -5..5 |
| ComparatorProperties.ShortNumberFirst | src/bee_version_compare.c:86-106 | "1.2" sorts before "1.10" |
| ComparatorProperties.RewindToNumber | src/bee_version_compare.c:88-94 | "100" sorts after "12": the rewind compares whole numbers |
| ComparatorProperties.LetterCases | src/bee_version_compare.c:111-123 | "1.2" sorts before "1.2a", and "1.2a" sorts after "1.2.0" |
| ComparatorProperties.ZerosSkipped | src/bee_version_compare.c:63-76 | "007" equals "07", and "105" equals "1005" |
| ComparatorProperties.NotNumericOrder | src/bee_version_compare.c:63-106 | "1005" sorts before "106" |
| ComparatorProperties.AlphaBeforeBeta | src/bee_version_compare.c:133-143 | extraversion "alpha1" sorts before "beta1" |
| ComparatorProperties.BetaNumbers | src/bee_version_compare.c:182-189 | extraversion "beta2" sorts before "beta10" |
| ComparatorProperties.CompareNotAntisymmetric | src/bee_version_compare.c:353-365 | versions "1.0" and "1+0" each sort before the other |
| Renderer.CutText | src/bee_version_output.c:31-53 | what `_cut_and_print` prints: the string, then its parts after a space each; SplitJoins, PrefixesJoin, NoDelimiter and the list examples state it |
| Renderer.Directive | src/bee_version_output.c:65-119 | the text of `%c` for each directive letter; FullAndSuffix, FullTextRebuilds and ZeroIndexHidden state it on whole formats |
| Renderer.Lookahead | src/bee_version_output.c:120-138 | the text of the lookahead after `%c`; LookaheadJoins, ZeroIndexHidden and IndexShown state it |
| Renderer.ListText | src/bee_version_output.c:142-158 | the text of `@v`, `@e`, `@V`, `@E`; LongListExample and ShortListExample state it |
| Renderer.EscapeText | src/bee_version_output.c:160-176 | the text of `\c`; EscapesPrint states it |
| Renderer.Piece | src/bee_version_output.c:64-178 | the text of one format item; PrintItem prints it and RenderStep chains it |
| Renderer.Render | src/bee_version_output.c:60-181 | the text `bee_version_print_indexed` prints; PrintIndexed prints it, and RenderConcat, PlainText and RendersBack state its laws |
| Renderer.DigitsOf | src/bee_version_output.c:71 | the decimal digits of a number are non-empty and have no leading zero |
| Renderer.SplitFrom | src/bee_version_output.c:41-50 | the parts between delimiters form a non-empty list |
| Renderer.PrefixesFrom | src/bee_version_output.c:41-50 | the growing prefixes form a non-empty list ending with the whole string |
| Renderer.TextLeftIsSpaced | src/bee_version_output.c:41-52 | the text the loop still prints is the remaining parts, each after a space |
| Renderer.PutRange | src/bee_version_output.c:44-45 | the putchar loop appends exactly the characters of the range |
| Renderer.CutAndPrint | src/bee_version_output.c:31-53 | `_cut_and_print` prints CutText: the string, then each part or growing prefix after a space |
| Renderer.Next | src/bee_version_output.c:64-178 | each format item is consumed with progress and within the format |
| Renderer.PrintPercent | src/bee_version_output.c:65-139 | a '%' item prints the piece Render assigns and resumes at the next item |
| Renderer.PrintList | src/bee_version_output.c:142-158 | an '@' directive prints ListText |
| Renderer.PrintItem | src/bee_version_output.c:64-178 | one format item prints its piece and resumes at the next item |
| Renderer.RenderStep | src/bee_version_output.c:64-180 | the rendering of a format is its first item's piece followed by the rendering of the rest |
| Renderer.PrintIndexed | src/bee_version_output.c:60-181 | `bee_version_print_indexed` prints Render(format, v, index) |
| Renderer.Print | src/bee_version_output.c:55-58 | `bee_version_print` prints Render(format, v, 0) |
| RendererProperties.DigitsValue | src/bee_version_output.c:71 | the digits printed read back as the number |
| RendererProperties.DecimalMeans | src/bee_version_output.c:71 | `%d` gives a leading '-' exactly for negatives and then digits that read back as the magnitude, with no leading zero except for 0 |
| RendererProperties.SplitJoins | src/bee_version_output.c:41-50 | the parts joined with the delimiter rebuild the string, and no part holds the delimiter |
| RendererProperties.PrefixesJoin | src/bee_version_output.c:41-50 | there is one prefix per part, and the j-th prefix joins the first j+1 parts |
| RendererProperties.NoDelimiter | src/bee_version_output.c:39-52 | without a delimiter the string prints twice, separated by a space |
| RendererProperties.LongListExample | src/bee_version_output.c:145 | `@v` of "1.2.3" prints "1.2.3 1 1.2 1.2.3" |
| RendererProperties.ShortListExample | src/bee_version_output.c:151 | `@V` of "1.2.3" prints "1.2.3 1 2 3" |
| RendererProperties.PlainText | src/bee_version_output.c:178 | a format with no '%', '@' or '\' prints itself |
| RendererProperties.WalkBehind | src/bee_version_output.c:64-180 | rendering a format's tail does not depend on what precedes it |
| RendererProperties.WalkInFront | src/bee_version_output.c:64-180 | a format followed by a tail that no lookahead reaches renders as its parts in sequence |
| RendererProperties.RenderConcat | src/bee_version_output.c:64-180 | rendering concatenated formats is concatenating their renderings, unless the second begins with a lookahead character |
| RendererProperties.LookaheadJoins | src/bee_version_output.c:120-138 | "%px" prints the name, then 'p' and the extraname only when there is one; "%p" then "x" separately print name + "x" |
| RendererProperties.ZeroIndexHidden | src/bee_version_output.c:132-136 | with index 0, "-%_i" prints only "-", while "%i" prints "0" |
| RendererProperties.IndexShown | src/bee_version_output.c:132-136 | with index 12, "-%_i" prints "-_12" |
| RendererProperties.EscapesPrint | src/bee_version_output.c:160-176 | backslash escapes print tab and newline, and any other escaped character as itself |
| RendererProperties.FullAndSuffix | src/bee_version_output.c:105-118 | "%A%s" prints the full name with the arch after '.', then '.' and the suffix when there is one |
| RendererProperties.FullTextRebuilds | src/bee_version_output.c:105-115 | `%F` of a descriptor from valid parts prints name-version-revision with the extras re-joined by '_' |
| RendererProperties.ArchGlue | src/bee_version_parse.c:197-222 | the name and the arch, re-joined by '.', rebuild the text before the arch cut |
| RendererProperties.SuffixGlue | src/bee_version_parse.c:175-195 | the name and the suffix, re-joined by '.', rebuild the text before the suffix cut |
| RendererProperties.RendersBack | src/bee_version_output.c:105-118 | an input the full split segments renders back through "%A%s" to the input after the prefix, and with the prefix to the whole input |
| SegmentProperties.StaleVersionNeverShows | src/bee_version_parse.c:640-646 | a version pointer that a failed full split left is never shown, because the partial split then fails as well |
| SegmentProperties.SuffixAnywhere | src/bee_version_parse.c:182-192 | ".bee" is found even inside a word: "foo.beefy-1" splits into "foo" and "beefy-1" |
| SegmentProperties.PartialThreeParts | src/bee_version_parse.c:446-460 | "foo-1.0-1" splits into name, version and revision |
| SegmentProperties.PartialNoRevision | src/bee_version_parse.c:446-460 | "foo-1.0" splits into name and version |
| SegmentProperties.PartialNameOnly | src/bee_version_parse.c:446-460 | "foo-bar" is a name only |
| SegmentProperties.PartialNameWithDash | src/bee_version_parse.c:446-460 | "foo-bar-2" is the name "foo-bar" with version "2" |
| SegmentProperties.PartialWithExtras | src/bee_version_parse.c:446-460 | "foo_extra-1.0_beta-2" splits into three parts |
| SegmentProperties.ExtrasOfExample | src/bee_version_parse.c:310-340 | those parts give name "foo", extraname "extra", version "1.0", extraversion "beta" |
| SegmentProperties.NoSuffixExample | src/bee_version_parse.c:182-188 | "foo_extra-1.0_beta-2" has no bee suffix |
| SegmentProperties.NoArchExample | src/bee_version_parse.c:204-215 | "foo_extra-1.0_beta-2" has no arch, whatever the local machine |
| SegmentProperties.AutoPartialExample | src/bee_version_parse.c:602-612 | in auto mode, "foo_extra-1.0_beta-2" becomes the full descriptor with empty prefix, arch and suffix |

## Left out

- The command-line front end (`src/beeversion.c`): option parsing, reading arguments, exit codes and the sorting and filtering it builds on the library.
- `_is_local_arch`: the `uname` call and its static cache are not modelled; the machine name is the parameter `localArch`. A failed `uname` (which rejects every arch) is not modelled. With an empty `localArch` a trailing '.' would be taken as an empty arch, which the real machine name never allows.
- Memory: `malloc`, `strdup` and `free` are left out, as is the ENOMEM failure of `_parse_setup`. `bee_version_alloc` is the constructor, and `bee_version_parse_finish`/`reset`/`free` leave nothing to model beyond a fresh buffer in `Setup`.
- The cleanup after a failed `bee_version_parse`: the C code frees the copy there (`bee_version_parse_finish`), while the model keeps the record the failed split left.
- Diagnostics written to stderr (the `fprintf(stderr, ...)` warnings and errors) are not modelled; they do not change results.
- Mode 5 (`_parse_nobee`) and the `assert(0)` default of the mode switch: the model requires a mode from 0 to 4 (`ValidMode`).
- `atoll` overflow: numbers are unbounded naturals, so digit runs beyond 64 bits do not wrap or saturate as they may in C.
- The C locale is assumed for `isdigit`/`isalpha`: only ASCII digits and letters count.
- `versionepoch`: `struct bee_version` has no such field, so the epoch comparison always compares two empty strings and is modelled as 0.
- `strcmp` and `strncmp` return -1, 0 or 1 in the model; C guarantees only the sign, and only the sign is used.
- The renderer writes to stdout; the model returns the text as a sequence. `%d` of the index is modelled on an unbounded integer.
- A format that ends in a lone '%', '@' or '\' makes the C loop step past the terminator. That is undefined behaviour, so `WellFormed` excludes such formats.
- `\0` in a format prints a NUL byte, which the model renders as the character NUL.
- RendersBack: holds only for a non-empty local arch and for name and version parts that do not end in '_', because the `_` sub-split cannot tell a trailing '_' from none.
- The C functions with several loops are split into one method per loop (`CmpScanned`, `SkipCommon`, `PointersAfterRevisionCut`, ...); the statements are the C statements.

Three behaviours of the comparator are modelled as the code computes them:

- Comparing "1.2a" with "1.2.0" gives "1.2a" as the greater, because a letter ranks above '.' (`LetterCases`).
- Versions are not compared in numeric order when leading zeros meet a longer number: "1005" sorts before "106", and "105" equals "1005" (`NotNumericOrder`, `ZerosSkipped`); for every shared stretch `p`, run of zeros `z` and rest `q` starting with a non-zero digit, `p + z + q` equals `p + q` (`ZerosIgnored`).
- The ordering is not antisymmetric: two different punctuation characters make each version less than the other (`PunctuationNotAntisymmetric`, `CompareNotAntisymmetric`).
