/**
 * The character classes and case mappings of Go's `unicode` package that the
 * string and word utilities call. The white-space class is Unicode's
 * White_Space property in full; the case tables are a stand-in that covers
 * the ASCII letters and the one Latin letter with distinct upper, title and
 * lower forms, U+01C4 DŽ, U+01C5 ǅ and U+01C6 ǆ.
 */
module Runes {

  const UpperDz: char := '\U{01C4}'
  const TitleDz: char := '\U{01C5}'
  const LowerDz: char := '\U{01C6}'

  /** unicode.IsSpace: the characters with the White_Space property. */
  predicate IsSpace(c: char) {
    c == '\t' || c == '\n' || c == '\U{0B}' || c == '\U{0C}' || c == '\r' || c == ' ' ||
    c == '\U{85}' || c == '\U{A0}' || c == '\U{1680}' || ('\U{2000}' <= c <= '\U{200A}') ||
    c == '\U{2028}' || c == '\U{2029}' || c == '\U{202F}' || c == '\U{205F}' || c == '\U{3000}'
  }

  predicate IsUpper(c: char) {
    ('A' <= c <= 'Z') || c == UpperDz
  }

  predicate IsLower(c: char) {
    ('a' <= c <= 'z') || c == LowerDz
  }

  predicate IsTitle(c: char) {
    c == TitleDz
  }

  /** unicode.ToUpper: lower and title case letters map to upper case, everything else to itself. */
  function ToUpper(c: char): (r: char)
    ensures IsLower(c) || IsTitle(c) ==> IsUpper(r)
    ensures !IsLower(c) && !IsTitle(c) ==> r == c
    ensures ToLower(r) == ToLower(c)
  {
    if 'a' <= c <= 'z' then (c as int - 32) as char
    else if c == TitleDz || c == LowerDz then UpperDz
    else c
  }

  /** unicode.ToLower: upper and title case letters map to lower case, everything else to itself. */
  function ToLower(c: char): (r: char)
    ensures IsUpper(c) || IsTitle(c) ==> IsLower(r)
    ensures !IsUpper(c) && !IsTitle(c) ==> r == c
  {
    if 'A' <= c <= 'Z' then (c as int + 32) as char
    else if c == UpperDz || c == TitleDz then LowerDz
    else c
  }

  /** unicode.ToTitle: lower and upper case letters map to title case, everything else to itself. */
  function ToTitle(c: char): (r: char)
    ensures IsLower(c) ==> (IsTitle(r) || IsUpper(r)) && ToLower(r) == c
    ensures !IsLower(c) && !IsUpper(c) ==> r == c
  {
    if 'a' <= c <= 'z' then (c as int - 32) as char
    else if c == UpperDz || c == LowerDz then TitleDz
    else c
  }

  /** strings.ToLower on a string of single-unit characters. */
  function ToLowerString(s: string): (r: string)
    ensures |r| == |s|
    ensures forall i :: 0 <= i < |s| ==> r[i] == ToLower(s[i])
  {
    seq(|s|, i requires 0 <= i < |s| => ToLower(s[i]))
  }

  /** A white-space character is no letter, so the case mappings leave it alone. */
  lemma SpaceIsCaseless(c: char)
    requires IsSpace(c)
    ensures !IsUpper(c) && !IsLower(c) && !IsTitle(c)
  {
  }

  /** Lower-casing is idempotent, on characters and on strings. */
  lemma ToLowerIdempotent(s: string)
    ensures ToLowerString(ToLowerString(s)) == ToLowerString(s)
  {
    var t := ToLowerString(s);
    forall i | 0 <= i < |s|
      ensures ToLower(t[i]) == t[i]
    {
    }
  }
}
