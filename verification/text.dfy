/**
 * The string helpers the handlers rely on: `String.IsNullOrWhiteSpace`,
 * `ToLower` and `ToUpper`. Case mapping is modelled for ASCII letters only.
 */
module Text {
  import opened Wrappers

  /** The characters for which .NET's `Char.IsWhiteSpace` holds. */
  predicate IsWhiteSpace(c: char) {
    || c == ' '
    || '\t' <= c <= '\r'
    || c == '\U{85}' || c == '\U{A0}' || c == '\U{1680}'
    || '\U{2000}' <= c <= '\U{200A}'
    || c == '\U{2028}' || c == '\U{2029}' || c == '\U{202F}'
    || c == '\U{205F}' || c == '\U{3000}'
  }

  /** `String.IsNullOrWhiteSpace`: absent, empty, or white space only. */
  predicate IsNullOrWhiteSpace(s: Option<string>) {
    s.None? || forall i :: 0 <= i < |s.value| ==> IsWhiteSpace(s.value[i])
  }

  predicate IsUpperLetter(c: char) { 'A' <= c <= 'Z' }

  /** A string of capital letters only, as short codes are. */
  predicate IsUpperLetters(s: string) {
    forall i :: 0 <= i < |s| ==> IsUpperLetter(s[i])
  }

  predicate IsLowerLetter(c: char) { 'a' <= c <= 'z' }

  function LowerChar(c: char): (r: char)
    ensures !IsUpperLetter(r)
    ensures IsUpperLetter(c) ==> IsLowerLetter(r) && r as int == c as int + 32
    ensures !IsUpperLetter(c) ==> r == c
  {
    if IsUpperLetter(c) then (c as int + 32) as char else c
  }

  function UpperChar(c: char): (r: char)
    ensures !IsLowerLetter(r)
    ensures IsLowerLetter(c) ==> IsUpperLetter(r) && r as int == c as int - 32
    ensures !IsLowerLetter(c) ==> r == c
  {
    if IsLowerLetter(c) then (c as int - 32) as char else c
  }

  function ToLower(s: string): (r: string)
    ensures |r| == |s|
    ensures forall i :: 0 <= i < |s| ==> r[i] == LowerChar(s[i])
  {
    seq(|s|, i requires 0 <= i < |s| => LowerChar(s[i]))
  }

  function ToUpper(s: string): (r: string)
    ensures |r| == |s|
    ensures forall i :: 0 <= i < |s| ==> r[i] == UpperChar(s[i])
  {
    seq(|s|, i requires 0 <= i < |s| => UpperChar(s[i]))
  }

  /** Two strings that differ only in the case of ASCII letters. */
  predicate SameIgnoringCase(a: string, b: string) {
    ToLower(a) == ToLower(b)
  }

  /** Lower-casing twice is lower-casing once: a stored URL is its own normal form. */
  lemma ToLowerIdempotent(s: string)
    ensures ToLower(ToLower(s)) == ToLower(s)
  {
  }

  /** Case mapping never turns white space into something else or back, so a
      URL and any case variant of it are rejected as blank together. */
  lemma BlankIgnoresCase(a: string, b: string)
    requires SameIgnoringCase(a, b)
    ensures IsNullOrWhiteSpace(Some(a)) <==> IsNullOrWhiteSpace(Some(b))
  {
  }

  /** A string of upper-case letters is recovered by upper-casing its
      lower-cased form, and upper-casing it changes nothing. */
  lemma UpperUndoesLower(s: string)
    requires IsUpperLetters(s)
    ensures ToUpper(ToLower(s)) == s
    ensures ToUpper(s) == s
  {
  }

  /** Upper-casing any case variant of a string of upper-case letters, mixed
      case included, gives that string back. */
  lemma UpperAnyVariant(s: string, t: string)
    requires IsUpperLetters(s)
    requires SameIgnoringCase(t, s)
    ensures ToUpper(t) == s
  {
  }
}
