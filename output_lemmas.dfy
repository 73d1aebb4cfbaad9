/** What the renderer's text means: `%d` prints digits whose value is the index, the `@`
    lists are the pieces of a field between its delimiters (rejoined they give the field
    back), a format renders item by item so formats concatenate, plain text prints as
    itself, and `%A%s` prints back the descriptor a full split came from. */
module RendererProperties {
  import opened CStrings
  import opened BeeTypes
  import opened Validators
  import opened Segmentation
  import opened Comparator
  import opened ComparatorProperties
  import opened Renderer

  /*------------------------------------------------------------------------
     %d
   ------------------------------------------------------------------------*/

  /** The digits DigitsOf writes are decimal digits whose value (as the comparator reads a
      run of digits) is the number. */
  lemma {:induction false} DigitsValue(n: nat)
    ensures AllDigits(DigitsOf(n)) && Value(DigitsOf(n)) == n
    decreases n
  {
    var ds := DigitsOf(n);
    if n < 10 {
      assert ds[..|ds| - 1] == [];
    } else {
      DigitsValue(n / 10);
      var hi := DigitsOf(n / 10);
      assert ds == hi + [DigitChar(n % 10)];
      assert ds[..|ds| - 1] == hi;
      assert forall k :: 0 <= k < |ds| ==> IsDigit(ds[k]) by {
        forall k | 0 <= k < |ds| ensures IsDigit(ds[k]) {
          if k < |hi| {
            assert ds[k] == hi[k];
          }
        }
      }
    }
  }

  /** `%d` of an index: a '-' exactly when it is negative, then decimal digits without a
      leading zero (unless the index is 0) whose value is the index's magnitude. */
  lemma DecimalMeans(i: int)
    ensures Decimal(i) != [] && (Decimal(i)[0] == '-' <==> i < 0)
    ensures var ds := if i < 0 then Decimal(i)[1..] else Decimal(i);
            ds != [] && AllDigits(ds) && Value(ds) == (if i < 0 then -i else i) &&
            (ds[0] == '0' ==> i == 0)
  {
    if i < 0 {
      DigitsValue(-i);
      assert Decimal(i)[1..] == DigitsOf(-i);
    } else {
      DigitsValue(i);
      assert IsDigit(Decimal(i)[0]);
    }
  }

  /*------------------------------------------------------------------------
     @v, @e, @V, @E
   ------------------------------------------------------------------------*/

  /** The parts joined back with the delimiter between them. */
  function Join(parts: seq<seq<char>>, d: char): seq<char>
    requires parts != []
    decreases |parts|
  {
    if |parts| == 1 then parts[0] else parts[0] + [d] + Join(parts[1..], d)
  }

  /** The short form lists the pieces between the delimiters: none of them holds the
      delimiter, and joined with it they give the text back. */
  lemma {:induction false} SplitJoins(s: seq<char>, d: char, i: nat)
    requires i <= |s|
    ensures Join(SplitFrom(s, d, i), d) == s[i..]
    ensures forall j :: 0 <= j < |SplitFrom(s, d, i)| ==> d !in SplitFrom(s, d, i)[j]
    decreases |s| - i
  {
    StrChrFromFirst(s, d, i);
    var parts := SplitFrom(s, d, i);
    match StrChrFrom(s, d, i)
    case None =>
      assert parts == [s[i..]];
      assert d !in s[i..] by {
        forall j | 0 <= j < |s[i..]| ensures s[i..][j] != d {
          assert s[i..][j] == s[i + j];
        }
      }
    case Some(k) =>
      SplitJoins(s, d, k + 1);
      assert parts[0] == s[i..k] && parts[1..] == SplitFrom(s, d, k + 1);
      assert s[i..] == s[i..k] + [d] + s[k + 1..];
      assert d !in s[i..k] by {
        forall j | 0 <= j < k - i ensures s[i..k][j] != d {
          assert s[i..k][j] == s[i + j];
        }
      }
      forall j | 0 <= j < |parts| ensures d !in parts[j] {
        if j > 0 {
          assert parts[j] == SplitFrom(s, d, k + 1)[j - 1];
        }
      }
  }

  /** Rejoining a leading piece and `j` more. */
  lemma JoinFront(a: seq<char>, rest: seq<seq<char>>, d: char, j: nat)
    requires 1 <= j <= |rest|
    ensures Join(([a] + rest)[..j + 1], d) == a + [d] + Join(rest[..j], d)
  {
    var ps := ([a] + rest)[..j + 1];
    assert ps[0] == a && ps[1..] == rest[..j];
  }

  /** One entry of the long form past the first delimiter, from the entry before it in the
      list that starts after that delimiter. */
  lemma PrefixEntry(s: seq<char>, d: char, i: nat, k: nat, j: nat)
    requires i <= |s| && StrChrFrom(s, d, i) == Some(k)
    requires 1 <= j < |PrefixesFrom(s, d, i)| && |PrefixesFrom(s, d, k + 1)| == |SplitFrom(s, d, k + 1)|
    requires PrefixesFrom(s, d, k + 1)[j - 1] == s[..k + 1] + Join(SplitFrom(s, d, k + 1)[..j], d)
    ensures PrefixesFrom(s, d, i)[j] == s[..i] + Join(SplitFrom(s, d, i)[..j + 1], d)
  {
    var rest := SplitFrom(s, d, k + 1);
    var tail := Join(rest[..j], d);
    assert PrefixesFrom(s, d, i)[j] == PrefixesFrom(s, d, k + 1)[j - 1];
    assert SplitFrom(s, d, i) == [s[i..k]] + rest;
    JoinFront(s[i..k], rest, d, j);
    assert s[..k + 1] == s[..i] + (s[i..k] + [d]);
    AppendAssoc(s[..i], s[i..k] + [d], tail);
  }

  /** The long form lists, for each delimiter, the text before it and then the whole
      text: the `j`-th entry is the first `j + 1` pieces of the short form, rejoined. */
  lemma {:induction false} PrefixesJoin(s: seq<char>, d: char, i: nat)
    requires i <= |s|
    ensures |PrefixesFrom(s, d, i)| == |SplitFrom(s, d, i)|
    ensures forall j :: 0 <= j < |PrefixesFrom(s, d, i)| ==>
              PrefixesFrom(s, d, i)[j] == s[..i] + Join(SplitFrom(s, d, i)[..j + 1], d)
    decreases |s| - i
  {
    var pre, parts := PrefixesFrom(s, d, i), SplitFrom(s, d, i);
    match StrChrFrom(s, d, i)
    case None =>
      assert parts[..1] == [s[i..]];
      assert s == s[..i] + s[i..];
    case Some(k) =>
      PrefixesJoin(s, d, k + 1);
      assert parts[..1] == [s[i..k]];
      assert s[..k] == s[..i] + s[i..k];
      forall j | 1 <= j < |pre| ensures pre[j] == s[..i] + Join(parts[..j + 1], d) {
        PrefixEntry(s, d, i, k, j);
      }
  }

  /** With no delimiter both forms print the text twice. */
  lemma NoDelimiter(s: seq<char>, d: char, short: bool)
    requires d !in s
    ensures CutText(s, d, short) == s + " " + s
  {
    assert CutParts(s, d, short) == [s];
    assert Spaced([s][1..]) == [];
  }

  /** The long-form parts of "1.2.3". */
  lemma LongListParts()
    ensures PrefixesFrom("1.2.3", '.', 0) == ["1", "1.2", "1.2.3"]
  {
    var s := "1.2.3";
    assert StrChrFrom(s, '.', 0) == Some(1);
    assert StrChrFrom(s, '.', 2) == Some(3);
    assert StrChrFrom(s, '.', 4) == None;
    assert s[..1] == "1" && s[..3] == "1.2";
    assert PrefixesFrom(s, '.', 4) == [s];
    assert PrefixesFrom(s, '.', 2) == ["1.2", s];
  }

  /** `@v` on "1.2.3": the version, then each prefix ending at a dot, then the version. */
  lemma LongListExample()
    ensures CutText("1.2.3", '.', false) == "1.2.3 1 1.2 1.2.3"
  {
    var s := "1.2.3";
    LongListParts();
    assert Spaced([s]) == " 1.2.3";
    assert Spaced(["1.2", s]) == " 1.2" + Spaced([s]);
    assert Spaced(["1", "1.2", s]) == " 1" + Spaced(["1.2", s]);
  }

  /** `@V` on "1.2.3": the version, then each of its components. */
  lemma ShortListExample()
    ensures CutText("1.2.3", '.', true) == "1.2.3 1 2 3"
  {
    var s := "1.2.3";
    assert StrChrFrom(s, '.', 0) == Some(1);
    assert StrChrFrom(s, '.', 2) == Some(3);
    assert StrChrFrom(s, '.', 4) == None;
    assert s[0..1] == "1" && s[2..3] == "2" && s[4..] == "3";
    assert SplitFrom(s, '.', 4) == ["3"];
    assert SplitFrom(s, '.', 2) == ["2", "3"];
    assert SplitFrom(s, '.', 0) == ["1", "2", "3"];
  }

  /*------------------------------------------------------------------------
     The walk over the format
   ------------------------------------------------------------------------*/

  /** A format without `%`, `@` or `\`. */
  predicate Plain(f: seq<char>)
  {
    forall i :: 0 <= i < |f| ==> !Lead(f[i])
  }

  /** Plain text is a well-formed format from any position and prints as itself. */
  lemma {:induction false} PlainFrom(f: seq<char>, v: Descriptor, index: int, i: nat)
    requires Plain(f) && i <= |f|
    ensures SafeFrom(f, i) && RenderFrom(f, v, index, i) == f[i..]
    decreases |f| - i
  {
    if i < |f| {
      PlainFrom(f, v, index, i + 1);
      assert f[i..] == [f[i]] + f[i + 1..];
    }
  }

  /** A C string without `%`, `@` or `\` is printed as it is. */
  lemma PlainText(f: seq<char>, v: Descriptor, index: int)
    requires NoNul(f) && Plain(f)
    ensures WellFormed(f) && Render(f, v, index) == f
  {
    PlainFrom(f, v, index, 0);
  }

  /** Helper: reading past the end of a format that another one follows. */
  lemma AtJoined(f1: seq<char>, f2: seq<char>, i: nat)
    ensures i < |f1| ==> At(f1 + f2, i) == f1[i]
    ensures i >= |f1| ==> At(f1 + f2, i) == At(f2, i - |f1|)
  {
  }

  /** An item of the first format is the same item, with the same text, once a second
      format follows, as long as that one does not open with a lookahead letter. */
  lemma ItemInFront(f1: seq<char>, f2: seq<char>, v: Descriptor, index: int, i: nat)
    requires i < |f1| && !Dangling(f1, i)
    requires f2 == [] || !LooksAhead(f2[0])
    ensures !Dangling(f1 + f2, i) && Next(f1 + f2, i) == Next(f1, i)
    ensures Piece(f1 + f2, i, v, index) == Piece(f1, i, v, index)
  {
    AtJoined(f1, f2, i + 1);
    AtJoined(f1, f2, i + 2);
    assert (f1 + f2)[i] == f1[i];
    if Lead(f1[i]) {
      assert (f1 + f2)[i + 1] == f1[i + 1];
    }
  }

  /** An item of the second format is the same item, with the same text, behind the first. */
  lemma ItemBehind(f1: seq<char>, f2: seq<char>, v: Descriptor, index: int, j: nat)
    requires j < |f2| && !Dangling(f2, j)
    ensures !Dangling(f1 + f2, |f1| + j) && Next(f1 + f2, |f1| + j) == |f1| + Next(f2, j)
    ensures Piece(f1 + f2, |f1| + j, v, index) == Piece(f2, j, v, index)
  {
    AtJoined(f1, f2, |f1| + j + 1);
    AtJoined(f1, f2, |f1| + j + 2);
    assert (f1 + f2)[|f1| + j] == f2[j];
    if Lead(f2[j]) {
      assert (f1 + f2)[|f1| + j + 1] == f2[j + 1];
    }
  }

  /** The walk over the second format goes the same way behind the first. */
  lemma {:induction false} WalkBehind(f1: seq<char>, f2: seq<char>, v: Descriptor, index: int, j: nat)
    requires j <= |f2| && SafeFrom(f2, j)
    ensures SafeFrom(f1 + f2, |f1| + j)
    ensures RenderFrom(f1 + f2, v, index, |f1| + j) == RenderFrom(f2, v, index, j)
    decreases |f2| - j
  {
    if j < |f2| {
      ItemBehind(f1, f2, v, index, j);
      WalkBehind(f1, f2, v, index, Next(f2, j));
    }
  }

  /** The walk over the first format reaches its end, then walks the second. */
  lemma {:induction false} WalkInFront(f1: seq<char>, f2: seq<char>, v: Descriptor, index: int, i: nat)
    requires i <= |f1| && SafeFrom(f1, i) && SafeFrom(f2, 0)
    requires f2 == [] || !LooksAhead(f2[0])
    ensures SafeFrom(f1 + f2, i)
    ensures RenderFrom(f1 + f2, v, index, i) == RenderFrom(f1, v, index, i) + RenderFrom(f2, v, index, 0)
    decreases |f1| - i
  {
    if i == |f1| {
      WalkBehind(f1, f2, v, index, 0);
    } else {
      ItemInFront(f1, f2, v, index, i);
      WalkInFront(f1, f2, v, index, Next(f1, i));
      AppendAssoc(Piece(f1, i, v, index), RenderFrom(f1, v, index, Next(f1, i)), RenderFrom(f2, v, index, 0));
    }
  }

  /** Formats print one after the other: the text of two formats written together is the
      text of the first followed by that of the second, unless the second opens with a
      letter the lookahead after a final `%c` of the first would take. */
  lemma RenderConcat(f1: seq<char>, f2: seq<char>, v: Descriptor, index: int)
    requires WellFormed(f1) && WellFormed(f2)
    requires f2 == [] || !LooksAhead(f2[0])
    ensures WellFormed(f1 + f2)
    ensures Render(f1 + f2, v, index) == Render(f1, v, index) + Render(f2, v, index)
  {
    WalkInFront(f1, f2, v, index, 0);
  }

  /** The lookahead makes the condition necessary: "%p" then "x" is not "%px", which
      prints the name and, with an extraname, "p" and the extraname. */
  lemma LookaheadJoins(v: Descriptor, index: int)
    ensures WellFormed("%px") && WellFormed("%p") && WellFormed("x")
    ensures Render("%px", v, index) == v.name + (if v.extraname != [] then "p" + v.extraname else [])
    ensures Render("%p", v, index) + Render("x", v, index) == v.name + "x"
  {
    assert Next("%px", 0) == 3;
    assert Next("%p", 0) == 2;
    assert Next("x", 0) == 1;
  }

  /** "%_i" prints nothing for index 0, while "%i" prints 0. */
  lemma ZeroIndexHidden(v: Descriptor)
    ensures WellFormed("-%_i") && WellFormed("%i")
    ensures Render("-%_i", v, 0) == "-"
    ensures Render("%i", v, 0) == "0"
  {
    assert Next("-%_i", 0) == 1 && Next("-%_i", 1) == 4;
    assert Next("%i", 0) == 2;
  }

  /** "%_i" prints "_" and the index when the index is not 0. */
  lemma IndexShown(v: Descriptor)
    ensures WellFormed("-%_i")
    ensures Render("-%_i", v, 12) == "-_12"
  {
    assert Next("-%_i", 0) == 1 && Next("-%_i", 1) == 4;
    assert DigitsOf(12) == "12" by {
      assert DigitsOf(1) == "1";
      assert DigitsOf(2) == "2";
    }
  }

  /** Escapes print their control characters; an unknown escape prints its letter. */
  lemma EscapesPrint(v: Descriptor, index: int)
    ensures WellFormed("a\\tb\\n\\q")
    ensures Render("a\\tb\\n\\q", v, index) == "a\tb\nq"
  {
    var f := "a\\tb\\n\\q";
    assert Next(f, 0) == 1 && Next(f, 1) == 3 && Next(f, 3) == 4 && Next(f, 4) == 6 && Next(f, 6) == 8;
  }

  /** "%A%s": the full name with the arch after a '.', then the suffix after a '.'. */
  lemma FullAndSuffix(v: Descriptor, index: int)
    ensures WellFormed("%A%s")
    ensures Render("%A%s", v, index)
         == Glue(FullText(v), '.', v.arch) + (if v.suffix != [] then "." + v.suffix else [])
  {
    var f := "%A%s";
    assert Next(f, 0) == 2 && Next(f, 2) == 4;
  }

  /*------------------------------------------------------------------------
     %A%s prints back what a full split parsed
   ------------------------------------------------------------------------*/

  /** The name or version segment does not end in '_': an empty extraname or extraversion
      would otherwise lose that '_' in print. */
  predicate NoTrailingUnderscore(s: seq<char>)
  {
    s == [] || s[|s| - 1] != '_'
  }

  /** Cutting at the first '_' and gluing back with '_' gives the text back. */
  lemma UnderscoreGlue(s: seq<char>)
    requires NoTrailingUnderscore(s)
    ensures Glue(SplitFirst(s, '_').head, '_', SplitFirst(s, '_').tail) == s
  {
  }

  /** A text that does not open with '_' keeps a non-empty piece before its first '_'. */
  lemma FirstPieceNonEmpty(s: seq<char>)
    requires s != [] && s[0] != '_'
    ensures SplitFirst(s, '_').head != []
  {
    var c := SplitFirst(s, '_');
    if '_' in s {
      assert s[0] == (c.head + "_" + c.tail)[0];
    }
  }

  /** `%F` of the fields a full split of `name-version-revision` gives is that string,
      provided neither the name nor the version ends in '_'. */
  lemma FullTextRebuilds(t: Triple, v: Descriptor)
    requires ValidFullVersion(t.version) && ValidRevision(t.revision)
    requires NoTrailingUnderscore(t.name) && NoTrailingUnderscore(t.version)
    requires var c := WithExtras(t);
             v.name == c.name && v.extraname == c.extraname && v.version == c.version &&
             v.extraversion == c.extraversion && v.revision == c.revision
    ensures FullText(v) == t.name + "-" + t.version + "-" + t.revision
  {
    UnderscoreGlue(t.name);
    UnderscoreGlue(t.version);
    var n := Glue(v.name, '_', v.extraname);
    assert n == t.name;
    FirstPieceNonEmpty(t.version);
    var nv := Glue(n, '-', v.version);
    assert nv == n + "-" + v.version;
    var nve := Glue(nv, '_', v.extraversion);
    assert nve == n + "-" + t.version by {
      if v.extraversion != [] {
        assert nve == n + "-" + v.version + "_" + v.extraversion;
        assert t.version == v.version + "_" + v.extraversion;
      }
    }
  }

  /** The arch cut, glued back with '.', gives the text back (an arch the parser accepts
      is never empty once the local machine name is not). */
  lemma ArchGlue(s: seq<char>, localArch: seq<char>)
    requires localArch != []
    ensures Glue(SplitArch(s, localArch).head, '.', SplitArch(s, localArch).tail) == s
  {
    ArchAtMeans(s, localArch);
    match ArchCut(s, localArch)
    case None =>
    case Some(c) =>
      var k := ArchAt(s, localArch).value;
      assert c.tail == s[k + 1..];
      assert c.tail != [];
  }

  /** The suffix cut, printed as `%s` does, after the name gives the text back. */
  lemma SuffixGlue(s: seq<char>)
    ensures var c := SplitSuffix(s);
            c.head + (if c.tail != [] then "." + c.tail else []) == s
  {
    var c := SplitSuffix(s);
    if HasOccurrence(s, ".bee") || HasOccurrence(s, ".iee") {
      assert |c.head| + 4 <= |s| && s == c.head + "." + c.tail by {
        if HasOccurrence(s, ".bee") {
          assert OccursAt(s, ".bee", |c.head|);
        } else {
          assert OccursAt(s, ".iee", |c.head|);
        }
      }
      assert c.tail != [];
      assert c.head + "." + c.tail == c.head + ("." + c.tail);
    }
  }

  /** The segmenter took the full split: a mode other than the partial one, or the partial
      mode with an arch present, and `name-version-revision` passed the full split. */
  predicate FullSplitUsed(input: seq<char>, mode: nat, localArch: seq<char>)
    requires NoNul(input) && ValidMode(mode)
  {
    var p := SplitPrefix(input);
    var sfx := SplitSuffix(p.tail);
    var a := SplitArch(sfx.head, localArch);
    var m := if mode == MODE_AUTO then AutoMode(sfx.tail, a.tail) else mode;
    (m != MODE_BEEPARTIAL || a.tail != []) && PkgFullPkg(a.head).Some? &&
    NoTrailingUnderscore(PkgFullPkg(a.head).value.name) &&
    NoTrailingUnderscore(PkgFullPkg(a.head).value.version)
  }

  /** Printing a parsed descriptor with "%A%s" gives back the input after the prefix and
      its '/': the renderer inverts the full split (when the name and version do not end
      in '_' and the local machine name is not empty). */
  lemma RendersBack(input: seq<char>, mode: nat, localArch: seq<char>, index: int)
    requires NoNul(input) && ValidMode(mode) && localArch != []
    requires FullSplitUsed(input, mode, localArch)
    ensures Segment(input, mode, localArch).Some?
    ensures var v := Segment(input, mode, localArch).value;
            WellFormed("%A%s") &&
            Render("%A%s", v, index) == SplitPrefix(input).tail &&
            ('/' in input ==> input == v.prefix + "/" + Render("%A%s", v, index)) &&
            ('/' !in input ==> input == Render("%A%s", v, index))
  {
    var p := SplitPrefix(input);
    var sfx := SplitSuffix(p.tail);
    var a := SplitArch(sfx.head, localArch);
    var t := PkgFullPkg(a.head).value;
    var c := WithExtras(t);
    var v := Descriptor(p.head, c.name, c.extraname, c.version, c.extraversion, c.revision, a.tail, sfx.tail);
    assert Segment(input, mode, localArch) == Some(v);
    FullAndSuffix(v, index);
    FullTextRebuilds(t, v);
    ArchGlue(sfx.head, localArch);
    SuffixGlue(p.tail);
  }
}
