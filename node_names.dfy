/** The key a node's portrait image is looked up under: the node's name in
    lower case with every whitespace character, '/' and '-' removed (so
    "R2-D2" is looked up as "r2d2"). */
module NodeNames {

  predicate IsUpper(c: char) {
    'A' <= c <= 'Z'
  }

  /** Lower-case conversion of one character, over ASCII. */
  function Lower(c: char): char {
    if IsUpper(c) then (c as int + 32) as char else c
  }

  /** The characters the pattern class `\s` matches: the ECMAScript white
      space and line terminator characters. */
  predicate IsWhitespace(c: char) {
    c in {'\t', '\n', '\U{000B}', '\U{000C}', '\r', ' ', '\U{00A0}', '\U{1680}',
          '\U{2028}', '\U{2029}', '\U{202F}', '\U{205F}', '\U{3000}', '\U{FEFF}'} ||
    '\U{2000}' <= c <= '\U{200A}'
  }

  /** The characters the normalisation removes. */
  predicate IsSeparator(c: char) {
    IsWhitespace(c) || c == '/' || c == '-'
  }

  function ToLowerCase(s: string): string {
    if s == [] then [] else [Lower(s[0])] + ToLowerCase(s[1..])
  }

  /** Removes every separator character. */
  function RemoveSeparators(s: string): string {
    if s == [] then []
    else if IsSeparator(s[0]) then RemoveSeparators(s[1..])
    else [s[0]] + RemoveSeparators(s[1..])
  }

  /** The image key of a node name: lower-case it, then remove separators. */
  function NormaliseName(name: string): string {
    RemoveSeparators(ToLowerCase(name))
  }

  /** A string the normalisation has nothing left to do on. */
  predicate IsNormal(s: string) {
    forall i :: 0 <= i < |s| ==> !IsUpper(s[i]) && !IsSeparator(s[i])
  }

  lemma {:induction false} ToLowerCaseShape(s: string)
    ensures |ToLowerCase(s)| == |s|
    ensures forall i :: 0 <= i < |s| ==> !IsUpper(ToLowerCase(s)[i])
  {
    if s != [] { ToLowerCaseShape(s[1..]); }
  }

  lemma {:induction false} RemoveSeparatorsShape(s: string)
    requires forall i :: 0 <= i < |s| ==> !IsUpper(s[i])
    ensures |RemoveSeparators(s)| <= |s|
    ensures IsNormal(RemoveSeparators(s))
  {
    if s != [] {
      RemoveSeparatorsShape(s[1..]);
    }
  }

  /** A normalised name is in lower case, holds no whitespace, '/' or '-',
      and is never longer than the name. */
  lemma NormalisedIsNormal(name: string)
    ensures IsNormal(NormaliseName(name))
    ensures |NormaliseName(name)| <= |name|
  {
    ToLowerCaseShape(name);
    RemoveSeparatorsShape(ToLowerCase(name));
  }

  /** The normalisation leaves a normal string as it is. */
  lemma {:induction false} NormalIsFixed(s: string)
    requires IsNormal(s)
    ensures NormaliseName(s) == s
  {
    if s != [] {
      assert IsNormal(s[1..]) by {
        forall i | 0 <= i < |s[1..]| ensures !IsUpper(s[1..][i]) && !IsSeparator(s[1..][i]) {
          assert s[1..][i] == s[i + 1];
        }
      }
      NormalIsFixed(s[1..]);
    }
  }

  /** Normalising twice is normalising once. */
  lemma NormaliseIdempotent(name: string)
    ensures NormaliseName(NormaliseName(name)) == NormaliseName(name)
  {
    NormalisedIsNormal(name);
    NormalIsFixed(NormaliseName(name));
  }

  /** Exactly the non-separator characters survive, in order and lowered:
      normalising a name is normalising its first character and then the rest. */
  lemma NormaliseByCharacter(c: char, rest: string)
    ensures NormaliseName([c] + rest) ==
      (if IsSeparator(Lower(c)) then [] else [Lower(c)]) + NormaliseName(rest)
  {
    assert ([c] + rest)[1..] == rest;
  }

  /** The image key of R2-D2. */
  lemma R2D2()
    ensures NormaliseName("R2-D2") == "r2d2"
  {
  }

  /** The image key of C-3PO. */
  lemma C3PO()
    ensures NormaliseName("C-3PO") == "c3po"
  {
  }
}
