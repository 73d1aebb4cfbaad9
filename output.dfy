/** The template renderer (bee_version_output.c): a format string is walked left to right
    and every `%` directive, `@` list, `\` escape and plain character appends its text to
    the output.  The text a format produces is given by the functions below; the two loops
    of the C code, the walk over the format and the cut-and-print of `@`, are methods
    proved to append exactly that text.  `printf` and `putchar` append to the sequence the
    methods return. */
module Renderer {
  import opened CStrings
  import opened BeeTypes
  import opened Segmentation

  /*------------------------------------------------------------------------
     printf("%d")
   ------------------------------------------------------------------------*/

  /** The character of a decimal digit. */
  function DigitChar(n: nat): (c: char)
    requires n < 10
    ensures IsDigit(c)
  {
    ('0' as int + n) as char
  }

  /** The decimal digits of `n`, most significant first, without leading zeros. */
  function DigitsOf(n: nat): (r: seq<char>)
    ensures r != [] && (n > 0 ==> r[0] != '0')
    decreases n
  {
    if n < 10 then [DigitChar(n)] else DigitsOf(n / 10) + [DigitChar(n % 10)]
  }

  /** `%d` of an int: a '-' before the digits of a negative number. */
  function Decimal(i: int): seq<char>
  {
    if i < 0 then "-" + DigitsOf(-i) else DigitsOf(i)
  }

  /*------------------------------------------------------------------------
     _cut_and_print
   ------------------------------------------------------------------------*/

  /** The pieces of `s` from offset `i` between the occurrences of `d`. */
  function SplitFrom(s: seq<char>, d: char, i: nat): (parts: seq<seq<char>>)
    requires i <= |s|
    ensures parts != []
    decreases |s| - i
  {
    match StrChrFrom(s, d, i)
    case None => [s[i..]]
    case Some(k) => [s[i..k]] + SplitFrom(s, d, k + 1)
  }

  /** The text of `s` before each occurrence of `d` at or after `i`, then the whole of `s`. */
  function PrefixesFrom(s: seq<char>, d: char, i: nat): (parts: seq<seq<char>>)
    requires i <= |s|
    ensures parts != [] && parts[|parts| - 1] == s
    decreases |s| - i
  {
    match StrChrFrom(s, d, i)
    case None => [s]
    case Some(k) => [s[..k]] + PrefixesFrom(s, d, k + 1)
  }

  /** Each part after a space. */
  function Spaced(parts: seq<seq<char>>): seq<char>
  {
    if parts == [] then [] else " " + parts[0] + Spaced(parts[1..])
  }

  /** The parts _cut_and_print lists: the components between the delimiters in the short
      form, the text before each delimiter and then the whole string in the long form. */
  function CutParts(s: seq<char>, d: char, short: bool): seq<seq<char>>
  {
    if short then SplitFrom(s, d, 0) else PrefixesFrom(s, d, 0)
  }

  /** What _cut_and_print prints: the string, then its parts after a space each. */
  function CutText(s: seq<char>, d: char, short: bool): seq<char>
  {
    s + Spaced(CutParts(s, d, short))
  }

  /** The parts still to be printed once the search for `d` resumes at `p`. */
  function PartsLeft(s: seq<char>, d: char, short: bool, p: nat): seq<seq<char>>
    requires p <= |s|
  {
    if short then SplitFrom(s, d, p) else PrefixesFrom(s, d, p)
  }

  /** The text _cut_and_print still prints once the search for `d` resumes at `p`; `st` is
      where the next part starts. */
  function TextLeft(s: seq<char>, d: char, short: bool, p: nat): seq<char>
    requires p <= |s|
    decreases |s| - p
  {
    var st := if short then p else 0;
    match StrChrFrom(s, d, p)
    case None => " " + s[st..]
    case Some(k) => " " + s[st..k] + TextLeft(s, d, short, k + 1)
  }

  /** The text left is the remaining parts, spaced. */
  lemma {:induction false} TextLeftIsSpaced(s: seq<char>, d: char, short: bool, p: nat)
    requires p <= |s|
    ensures TextLeft(s, d, short, p) == Spaced(PartsLeft(s, d, short, p))
    decreases |s| - p
  {
    var parts := PartsLeft(s, d, short, p);
    match StrChrFrom(s, d, p)
    case None =>
      assert parts == [s[(if short then p else 0)..]];
      assert Spaced(parts[1..]) == [];
    case Some(k) =>
      TextLeftIsSpaced(s, d, short, k + 1);
      assert parts[0] == s[(if short then p else 0)..k] && parts[1..] == PartsLeft(s, d, short, k + 1);
  }

  /** Helper: appending is associative (stated on its own to keep loop proofs small). */
  lemma AppendAssoc(a: seq<char>, b: seq<char>, c: seq<char>)
    ensures a + b + c == a + (b + c)
  {
  }

  /** `while (s < p) putchar(*(s++))`: the characters from `st` up to `k`. */
  method PutRange(out: seq<char>, s: seq<char>, st: nat, k: nat) returns (o: seq<char>)
    requires st <= k <= |s|
    ensures o == out + s[st..k]
  {
    o := out;
    var i := st;
    while i < k
      invariant st <= i <= k && o == out + s[st..i]
    {
      o := o + [s[i]];
      i := i + 1;
    }
  }

  /** _cut_and_print: `p` hunts for the delimiter, `st` marks where the next part starts,
      which is the start of the string in the long form and just past the delimiter in the
      short form. */
  method CutAndPrint(s: seq<char>, d: char, short: bool) returns (out: seq<char>)
    ensures out == CutText(s, d, short)
  {
    var p: nat, st: nat := 0, 0;
    out := s;
    var found := StrChrFrom(s, d, p);
    ghost var total := s + TextLeft(s, d, short, 0);
    while found.Some?
      invariant p <= |s| && found == StrChrFrom(s, d, p)
      invariant st == (if short then p else 0)
      invariant out + TextLeft(s, d, short, p) == total
      decreases |s| - p
    {
      var k := found.value;
      ghost var out0, rest := out, TextLeft(s, d, short, k + 1);
      assert TextLeft(s, d, short, p) == " " + s[st..k] + rest;
      out := PutRange(out + " ", s, st, k);
      AppendAssoc(out0, " ", s[st..k]);
      AppendAssoc(out0, " " + s[st..k], rest);
      p := k + 1;
      st := if short then p else 0;
      found := StrChrFrom(s, d, p);
    }
    out := out + " " + s[st..];
    TextLeftIsSpaced(s, d, short, 0);
  }

  /*------------------------------------------------------------------------
     The directives of bee_version_print_indexed
   ------------------------------------------------------------------------*/

  /** `%F`: the name and each non-empty part of the full version, with their separators. */
  function FullText(v: Descriptor): seq<char>
  {
    Glue(Glue(Glue(Glue(v.name, '_', v.extraname), '-', v.version), '_', v.extraversion), '-', v.revision)
  }

  /** The text of the directive `%c`; an unknown letter prints nothing. */
  function Directive(c: char, v: Descriptor, index: int): seq<char>
  {
    match c
    case '%' => "%"
    case 'i' => Decimal(index)
    case 'p' => v.name
    case 's' => if v.suffix != [] then "." + v.suffix else []
    case 'x' => v.extraname
    case 'v' => v.version
    case 'e' => v.extraversion
    case 'r' => v.revision
    case 'a' => v.arch
    case 'P' => Glue(v.name, '_', v.extraname)
    case 'V' => Glue(v.version, '_', v.extraversion)
    case 'F' => FullText(v)
    case 'A' => Glue(FullText(v), '.', v.arch)
    case _ => []
  }

  /** The lookahead after `%c`: `x`, `e` and `i` print `c` and the extraname, extraversion
      or index when those are non-empty (non-zero). */
  function Lookahead(c: char, next: char, v: Descriptor, index: int): seq<char>
  {
    if next == 'x' then (if v.extraname != [] then [c] + v.extraname else [])
    else if next == 'e' then (if v.extraversion != [] then [c] + v.extraversion else [])
    else if next == 'i' then (if index != 0 then [c] + Decimal(index) else [])
    else []
  }

  /** Whether the lookahead after `%c` consumes the next character. */
  predicate LooksAhead(next: char)
  {
    next == 'x' || next == 'e' || next == 'i'
  }

  /** The text of `@c`. */
  function ListText(c: char, v: Descriptor): seq<char>
  {
    match c
    case 'v' => CutText(v.version, '.', false)
    case 'e' => CutText(v.extraversion, '_', false)
    case 'V' => CutText(v.version, '.', true)
    case 'E' => CutText(v.extraversion, '_', true)
    case _ => []
  }

  /** The text of `\c`. */
  function EscapeText(c: char): seq<char>
  {
    match c
    case 'n' => "\n"
    case 't' => "\t"
    case '0' => [NUL]
    case _ => [c]
  }

  /** The characters that take the next one as their argument. */
  predicate Lead(c: char)
  {
    c == '%' || c == '@' || c == '\\'
  }

  /** A `%`, `@` or `\` as the last character: the loop would step past the terminator. */
  predicate Dangling(f: seq<char>, i: nat)
  {
    i + 1 == |f| && Lead(f[i])
  }

  /** Where the walk goes on after the item that starts at `i`. */
  function Next(f: seq<char>, i: nat): (j: nat)
    requires i < |f| && !Dangling(f, i)
    ensures i < j <= |f|
  {
    if f[i] == '%' then (if At(f, i + 1) != NUL && LooksAhead(At(f, i + 2)) then i + 3 else i + 2)
    else if f[i] == '@' || f[i] == '\\' then i + 2
    else i + 1
  }

  /** The walk from `i` never meets a dangling `%`, `@` or `\`. */
  predicate SafeFrom(f: seq<char>, i: nat)
    requires i <= |f|
    decreases |f| - i
  {
    i == |f| || (!Dangling(f, i) && SafeFrom(f, Next(f, i)))
  }

  /** A format the renderer can walk: a C string whose walk ends at its terminator. */
  predicate WellFormed(f: seq<char>)
  {
    NoNul(f) && SafeFrom(f, 0)
  }

  /** The text of the item that starts at `i`. */
  function Piece(f: seq<char>, i: nat, v: Descriptor, index: int): seq<char>
    requires i < |f| && !Dangling(f, i)
  {
    if f[i] == '%' then
      var c := f[i + 1];
      Directive(c, v, index) + (if c != NUL then Lookahead(c, At(f, i + 2), v, index) else [])
    else if f[i] == '@' then ListText(f[i + 1], v)
    else if f[i] == '\\' then EscapeText(f[i + 1])
    else [f[i]]
  }

  /** The text the format prints from `i` on. */
  function RenderFrom(f: seq<char>, v: Descriptor, index: int, i: nat): seq<char>
    requires i <= |f| && SafeFrom(f, i)
    decreases |f| - i
  {
    if i == |f| then [] else Piece(f, i, v, index) + RenderFrom(f, v, index, Next(f, i))
  }

  /** The text bee_version_print_indexed prints. */
  function Render(f: seq<char>, v: Descriptor, index: int): seq<char>
    requires WellFormed(f)
  {
    RenderFrom(f, v, index, 0)
  }

  /** The `%` case of bee_version_print_indexed with `p` on the directive letter: the
      directive, then the lookahead at the letter after it; `q` is where the letter it
      consumed, if any, sits. */
  method PrintPercent(format: seq<char>, p: nat, v: Descriptor, index: int) returns (text: seq<char>, q: nat)
    requires 0 < p < |format| && format[p - 1] == '%'
    ensures q + 1 == Next(format, p - 1)
    ensures text == Piece(format, p - 1, v, index)
  {
    var c := format[p];
    text := Directive(c, v, index);
    q := p;
    if c != NUL {
      var next := At(format, p + 1);
      if next == 'x' {
        if v.extraname != [] {
          text := text + ([c] + v.extraname);
        }
        q := p + 1;
      } else if next == 'e' {
        if v.extraversion != [] {
          text := text + ([c] + v.extraversion);
        }
        q := p + 1;
      } else if next == 'i' {
        if index != 0 {
          text := text + ([c] + Decimal(index));
        }
        q := p + 1;
      }
    }
  }

  /** The `@` case of bee_version_print_indexed: a list of the version or extraversion. */
  method PrintList(c: char, v: Descriptor) returns (text: seq<char>)
    ensures text == ListText(c, v)
  {
    text := [];
    if c == 'v' {
      text := CutAndPrint(v.version, '.', false);
    } else if c == 'e' {
      text := CutAndPrint(v.extraversion, '_', false);
    } else if c == 'V' {
      text := CutAndPrint(v.version, '.', true);
    } else if c == 'E' {
      text := CutAndPrint(v.extraversion, '_', true);
    }
  }

  /** One pass of the loop of bee_version_print_indexed, from the item at `p`: its text,
      and the position the loop's `p++` goes on from. */
  method PrintItem(format: seq<char>, p: nat, v: Descriptor, index: int) returns (text: seq<char>, q: nat)
    requires p < |format| && !Dangling(format, p)
    ensures q == Next(format, p)
    ensures text == Piece(format, p, v, index)
  {
    q := p;
    if format[q] == '%' {
      text, q := PrintPercent(format, q + 1, v, index);
    } else if format[q] == '@' {
      q := q + 1;
      text := PrintList(format[q], v);
    } else if format[q] == '\\' {
      q := q + 1;
      text := EscapeText(format[q]);
    } else {
      text := [format[q]];
    }
    q := q + 1;
  }

  /** The walk from a safe position takes one item and stays safe. */
  lemma RenderStep(f: seq<char>, v: Descriptor, index: int, i: nat)
    requires i < |f| && SafeFrom(f, i)
    ensures !Dangling(f, i) && SafeFrom(f, Next(f, i))
    ensures RenderFrom(f, v, index, i) == Piece(f, i, v, index) + RenderFrom(f, v, index, Next(f, i))
  {
  }

  /** bee_version_print_indexed: `p` walks the format, each item appending its text. */
  method PrintIndexed(format: seq<char>, v: Descriptor, index: int) returns (out: seq<char>)
    requires WellFormed(format)
    ensures out == Render(format, v, index)
  {
    out := [];
    var p: nat := 0;
    ghost var total := Render(format, v, index);
    while p < |format|
      invariant p <= |format| && SafeFrom(format, p)
      invariant out + RenderFrom(format, v, index, p) == total
      decreases |format| - p
    {
      RenderStep(format, v, index, p);
      ghost var out0, rest := out, RenderFrom(format, v, index, Next(format, p));
      var text;
      text, p := PrintItem(format, p, v, index);
      out := out + text;
      AppendAssoc(out0, text, rest);
    }
  }

  /** bee_version_print: the indexed printer with index 0, so `%i` prints 0 and `%_i`
      prints nothing. */
  method Print(format: seq<char>, v: Descriptor) returns (out: seq<char>)
    requires WellFormed(format)
    ensures out == Render(format, v, 0)
  {
    out := PrintIndexed(format, v, 0);
  }
}
