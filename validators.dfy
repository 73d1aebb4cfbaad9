/** The character-class checks under the segmenter: the accepted alphabets of a
    revision, a full version and a full name, the strspn-based scan for a character
    outside an alphabet, the three validators and the architecture whitelist. */
module Validators {
  import opened CStrings
  import opened BeeTypes

  // _BEE_ACCEPT_REVISION: digits, lower-case letters and '.'
  predicate RevisionChar(c: char) { IsDigit(c) || IsLower(c) || c == '.' }

  // _BEE_ACCEPT_FULLVERSION: digits, lower-case letters and "._+"
  predicate FullVersionChar(c: char) { IsDigit(c) || IsLower(c) || c == '.' || c == '_' || c == '+' }

  // _BEE_ACCEPT_FULLNAME: digits, letters of both cases and "._+-"
  predicate FullNameChar(c: char) { IsDigit(c) || IsAlpha(c) || c == '.' || c == '_' || c == '+' || c == '-' }

  /** The three alphabets the parser checks strings against. */
  datatype Alphabet = RevisionChars | FullVersionChars | FullNameChars

  predicate Accepts(alphabet: Alphabet, c: char)
  {
    match alphabet
    case RevisionChars => RevisionChar(c)
    case FullVersionChars => FullVersionChar(c)
    case FullNameChars => FullNameChar(c)
  }

  /** strspn(s + i, accept) for the alphabet's accept string. */
  function SpanFrom(s: seq<char>, alphabet: Alphabet, i: nat): (r: nat)
    requires i <= |s|
    ensures i <= r <= |s|
    decreases |s| - i
  {
    if i == |s| || !Accepts(alphabet, s[i]) then i else SpanFrom(s, alphabet, i + 1)
  }

  lemma {:induction false} SpanFromMeans(s: seq<char>, alphabet: Alphabet, i: nat)
    requires i <= |s|
    ensures forall j :: i <= j < SpanFrom(s, alphabet, i) ==> Accepts(alphabet, s[j])
    ensures SpanFrom(s, alphabet, i) < |s| ==> !Accepts(alphabet, s[SpanFrom(s, alphabet, i)])
    decreases |s| - i
  {
    if i < |s| && Accepts(alphabet, s[i]) {
      SpanFromMeans(s, alphabet, i + 1);
    }
  }

  /** _contains_invalid_chars: the first character outside the alphabet, NUL when there is none. */
  function ContainsInvalidChars(s: seq<char>, alphabet: Alphabet): char
  {
    var accepted := SpanFrom(s, alphabet, 0);
    if accepted != |s| then s[accepted] else NUL
  }

  /** On a NUL-free string the scan answers NUL exactly when every character is in the
      alphabet, and otherwise names a character of the string outside it. */
  lemma ContainsInvalidCharsMeans(s: seq<char>, alphabet: Alphabet)
    requires NoNul(s)
    ensures ContainsInvalidChars(s, alphabet) == NUL <==> forall i :: 0 <= i < |s| ==> Accepts(alphabet, s[i])
    ensures ContainsInvalidChars(s, alphabet) != NUL ==>
              ContainsInvalidChars(s, alphabet) in s && !Accepts(alphabet, ContainsInvalidChars(s, alphabet))
  {
    SpanFromMeans(s, alphabet, 0);
  }

  /** _verify_revision_string / _is_valid_revision_string. */
  predicate ValidRevision(s: seq<char>)
  {
    |s| > 0 && IsDigit(s[0]) && ContainsInvalidChars(s, RevisionChars) == NUL
  }

  /** _verify_fullversion_string / _is_valid_fullversion_string (the empty string fails
      the leading-digit test in both). */
  predicate ValidFullVersion(s: seq<char>)
  {
    |s| > 0 && IsDigit(s[0]) && ContainsInvalidChars(s, FullVersionChars) == NUL
  }

  /** _verify_fullname_string. */
  predicate ValidFullName(s: seq<char>)
  {
    |s| > 0 && IsAlpha(s[0]) && ContainsInvalidChars(s, FullNameChars) == NUL
  }

  /** What the revision check accepts: a leading digit, then digits, lower-case letters
      and dots. */
  lemma ValidRevisionMeans(s: seq<char>)
    requires NoNul(s)
    ensures ValidRevision(s) <==>
              |s| > 0 && IsDigit(s[0]) && forall i :: 0 <= i < |s| ==> IsDigit(s[i]) || IsLower(s[i]) || s[i] == '.'
  {
    ContainsInvalidCharsMeans(s, RevisionChars);
  }

  /** What the full-version check accepts: a leading digit, then digits, lower-case
      letters and "._+". */
  lemma ValidFullVersionMeans(s: seq<char>)
    requires NoNul(s)
    ensures ValidFullVersion(s) <==>
              |s| > 0 && IsDigit(s[0]) && forall i :: 0 <= i < |s| ==> IsDigit(s[i]) || IsLower(s[i]) || s[i] in "._+"
  {
    ContainsInvalidCharsMeans(s, FullVersionChars);
  }

  /** What the full-name check accepts: a leading letter, then letters, digits and
      "._+-". */
  lemma ValidFullNameMeans(s: seq<char>)
    requires NoNul(s)
    ensures ValidFullName(s) <==> |s| > 0 && IsAlpha(s[0]) && forall i :: 0 <= i < |s| ==> IsAlnum(s[i]) || s[i] in "._+-"
  {
    ContainsInvalidCharsMeans(s, FullNameChars);
  }

  /** A valid name never holds a ':' (which the name compare treats specially). */
  lemma ValidNameHasNoColon(s: seq<char>)
    requires NoNul(s) && ValidFullName(s)
    ensures ':' !in s
  {
    ValidFullNameMeans(s);
  }

  /** _is_supported_arch: a walk over SUPPORTED_ARCHITECTURES with strcmp. */
  function IsSupportedArch(s: seq<char>): bool
  {
    SupportedFrom(s, 0)
  }

  /** The walk from entry `k` of the list on. */
  function SupportedFrom(s: seq<char>, k: nat): bool
    requires k <= |SUPPORTED_ARCHITECTURES|
    decreases |SUPPORTED_ARCHITECTURES| - k
  {
    if k == |SUPPORTED_ARCHITECTURES| then false
    else if StrCmp(s, SUPPORTED_ARCHITECTURES[k]) == 0 then true
    else SupportedFrom(s, k + 1)
  }

  lemma {:induction false} SupportedFromMeans(s: seq<char>, k: nat)
    requires k <= |SUPPORTED_ARCHITECTURES|
    ensures SupportedFrom(s, k) <==> exists j :: k <= j < |SUPPORTED_ARCHITECTURES| && SUPPORTED_ARCHITECTURES[j] == s
    decreases |SUPPORTED_ARCHITECTURES| - k
  {
    if k < |SUPPORTED_ARCHITECTURES| && StrCmp(s, SUPPORTED_ARCHITECTURES[k]) != 0 {
      SupportedFromMeans(s, k + 1);
    }
  }

  /** The walk accepts exactly the listed architectures. */
  lemma IsSupportedArchMeans(s: seq<char>)
    ensures IsSupportedArch(s) <==> s in SUPPORTED_ARCHITECTURES
  {
    SupportedFromMeans(s, 0);
  }

  /** The revision alphabet is part of the full-version alphabet, and both start with a
      digit: a valid revision is a valid full version. */
  lemma RevisionIsFullVersion(s: seq<char>)
    requires NoNul(s)
    ensures ValidRevision(s) ==> ValidFullVersion(s)
  {
    ValidRevisionMeans(s);
    ValidFullVersionMeans(s);
  }
}
