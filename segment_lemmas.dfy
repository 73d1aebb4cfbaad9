/** Properties of the segmenter as a whole: a version pointer left behind by a failed
    full split never reaches the record, and the worked splits of the partial mode and
    of the suffix cut. */
module SegmentProperties {
  import opened CStrings
  import opened BeeTypes
  import opened Validators
  import opened Segmentation

  /** In mode 4 a failed full split may leave `v->version` assigned, but only when the
      name before it failed the name check; the partial split then proposes that same
      name and fails too, so the stale version is never part of a result. */
  lemma StaleVersionNeverShows(s: seq<char>)
    requires NoNul(s) && VersionAssigned(s) && PkgFullPkg(s).None?
    ensures PkgPartial(s).None?
    ensures PartialMode(s, true).None? && PartialMode(s, false).None?
  {
    var c1 := LastCut(s, '-').value;
    var c2 := LastCut(c1.head, '-').value;
    assert ValidRevision(c1.tail) && ValidFullVersion(c2.tail);
    assert !ValidFullName(c2.head);
    assert PartialCandidates(s) == Triple(c2.head, c2.tail, c1.tail);
  }

  /** "foo.beefy-1": the suffix starts at the first ".bee", wherever it is. */
  lemma SuffixAnywhere()
    ensures SplitSuffix("foo.beefy-1") == Cut("foo", "beefy-1")
  {
    var s := "foo.beefy-1";
    assert OccursAt(s, ".bee", 3) by { assert s[3..7] == ".bee"; }
    forall j | 0 <= j < 3 ensures !OccursAt(s, ".bee", j) {
      assert s[j] != '.';
      assert s[j..j + 4][0] == s[j];
    }
    StrStrIs(s, ".bee", 3);
    assert s[..3] == "foo" && s[4..] == "beefy-1";
  }

  /** "foo-1.0-1": name, version and revision. */
  lemma PartialThreeParts()
    ensures PkgPartial("foo-1.0-1") == Some(Triple("foo", "1.0", "1"))
  {
    assert ValidRevision("1");
    assert ValidFullVersion("1.0");
    assert ValidFullName("foo");
    LastCutIs("foo-1.0-1", '-', "foo-1.0", "1");
    LastCutIs("foo-1.0", '-', "foo", "1.0");
  }

  /** "foo-1.0": no revision (the version also passes as a revision, and with no '-'
      before it, it is taken as the version). */
  lemma PartialNoRevision()
    ensures PkgPartial("foo-1.0") == Some(Triple("foo", "1.0", []))
  {
    assert ValidRevision("1.0");
    assert ValidFullVersion("1.0");
    assert ValidFullName("foo");
    LastCutIs("foo-1.0", '-', "foo", "1.0");
  }

  /** "foo-bar": neither a revision nor a version, so the whole text is the name. */
  lemma PartialNameOnly()
    ensures PkgPartial("foo-bar") == Some(Triple("foo-bar", [], []))
  {
    assert !ValidRevision("bar");
    assert !ValidFullVersion("bar");
    assert ValidFullName("foo-bar");
    LastCutIs("foo-bar", '-', "foo", "bar");
  }

  /** "foo-bar-2": "bar" is no version, so "2" is the version and "foo-bar" the name. */
  lemma PartialNameWithDash()
    ensures PkgPartial("foo-bar-2") == Some(Triple("foo-bar", "2", []))
  {
    assert ValidRevision("2");
    assert !ValidFullVersion("bar");
    assert ValidFullVersion("2");
    assert ValidFullName("foo-bar");
    LastCutIs("foo-bar-2", '-', "foo-bar", "2");
    LastCutIs("foo-bar", '-', "foo", "bar");
  }

  /** The last two '-' of "foo_extra-1.0_beta-2" cut off a revision and a version that
      pass their checks with the `_` parts still attached. */
  lemma ExtrasCandidates()
    ensures PartialCandidates("foo_extra-1.0_beta-2") == Triple("foo_extra", "1.0_beta", "2")
  {
    assert ValidRevision("2");
    assert ValidFullVersion("1.0_beta");
    LastCutIs("foo_extra-1.0_beta-2", '-', "foo_extra-1.0_beta", "2");
    LastCutIs("foo_extra-1.0_beta", '-', "foo_extra", "1.0_beta");
  }

  /** The core "foo_extra-1.0_beta-2" of the auto-mode example below. */
  lemma PartialWithExtras()
    ensures PkgPartial("foo_extra-1.0_beta-2") == Some(Triple("foo_extra", "1.0_beta", "2"))
  {
    assert ValidFullName("foo_extra");
    ExtrasCandidates();
  }

  /** The `_` sub-splits of that core. */
  lemma ExtrasOfExample()
    ensures WithExtras(Triple("foo_extra", "1.0_beta", "2")) == Core("foo", "extra", "1.0", "beta", "2")
  {
    FirstCutIs("foo_extra", '_', "foo", "extra");
    FirstCutIs("1.0_beta", '_', "1.0", "beta");
  }

  /** "foo_extra-1.0_beta-2" holds neither ".bee" nor ".iee", so no suffix is cut. */
  lemma NoSuffixExample()
    ensures SplitSuffix("foo_extra-1.0_beta-2") == Cut("foo_extra-1.0_beta-2", [])
  {
    var s := "foo_extra-1.0_beta-2";
    assert !HasOccurrence(s, ".bee") && !HasOccurrence(s, ".iee") by {
      forall k: nat ensures !OccursAt(s, ".bee", k) && !OccursAt(s, ".iee", k) {
        if k + 4 <= |s| {
          assert s[k..k + 4][0] == s[k] && s[k..k + 4][1] == s[k + 1];
        }
      }
    }
  }

  /** The text after its last '.' is "0_beta-2", which holds a '-', so no arch is cut. */
  lemma NoArchExample(localArch: seq<char>)
    ensures SplitArch("foo_extra-1.0_beta-2", localArch) == Cut("foo_extra-1.0_beta-2", [])
  {
    var s := "foo_extra-1.0_beta-2";
    StrRChrIs(s, '.', 11);
    StrChrIs(s[11..], '-', 7);
  }

  /** "foo_extra-1.0_beta-2" in auto mode: no prefix, suffix or arch, so the partial
      split runs and the `_` sub-splits give foo / extra / 1.0 / beta / 2. */
  lemma AutoPartialExample(localArch: seq<char>)
    ensures Segment("foo_extra-1.0_beta-2", MODE_AUTO, localArch)
         == Some(Descriptor([], "foo", "extra", "1.0", "beta", "2", [], []))
  {
    assert '/' !in "foo_extra-1.0_beta-2";
    NoSuffixExample();
    NoArchExample(localArch);
    PartialWithExtras();
    ExtrasOfExample();
  }
}
