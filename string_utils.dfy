/**
 * The slicing, searching and accumulating string functions of the
 * stringUtils package. A Go string is modelled as a sequence of
 * single-unit characters, so byte offsets, rune counts and indices agree.
 */
module StringUtils {
  import opened Wrappers
  import opened Runes
  import GoInt
  import Divisibility

  // --- Searching: strings.HasPrefix, strings.HasSuffix, strings.Index, strings.LastIndex

  predicate IsPrefix(p: string, s: string) {
    |p| <= |s| && s[..|p|] == p
  }

  predicate IsSuffix(p: string, s: string) {
    |p| <= |s| && s[|s| - |p|..] == p
  }

  /** sub occurs in s starting at position i. */
  predicate OccursAt(sub: string, s: string, i: int) {
    0 <= i && i + |sub| <= |s| && s[i..i + |sub|] == sub
  }

  /** The first position at or after j at which sub occurs in s, or -1 when there is none. */
  function IndexFrom(s: string, sub: string, j: nat): (r: int)
    requires j <= |s|
    ensures r == -1 || (j <= r && OccursAt(sub, s, r))
    ensures r != -1 ==> forall k :: j <= k < r ==> !OccursAt(sub, s, k)
    ensures r == -1 ==> forall k :: j <= k ==> !OccursAt(sub, s, k)
    decreases |s| - j
  {
    if j + |sub| > |s| then -1
    else if s[j..j + |sub|] == sub then j
    else if j == |s| then -1
    else IndexFrom(s, sub, j + 1)
  }

  /** strings.Index: the first position at which sub occurs in s, or -1 when it does not. */
  function Index(s: string, sub: string): (r: int)
    ensures r == -1 || OccursAt(sub, s, r)
    ensures r != -1 ==> forall j :: 0 <= j < r ==> !OccursAt(sub, s, j)
    ensures r == -1 ==> forall j :: !OccursAt(sub, s, j)
  {
    IndexFrom(s, sub, 0)
  }

  /** The last position at or before j at which sub occurs in s, or -1 when there is none. */
  function LastIndexUpTo(s: string, sub: string, j: int): (r: int)
    requires -1 <= j && j + |sub| <= |s|
    ensures r == -1 || (r <= j && OccursAt(sub, s, r))
    ensures r != -1 ==> forall k :: r < k <= j ==> !OccursAt(sub, s, k)
    ensures r == -1 ==> forall k :: k <= j ==> !OccursAt(sub, s, k)
    decreases j + 1
  {
    if j == -1 then -1
    else if s[j..j + |sub|] == sub then j
    else LastIndexUpTo(s, sub, j - 1)
  }

  /** strings.LastIndex: the last position at which sub occurs in s, or -1 when it does not. */
  function LastIndex(s: string, sub: string): (r: int)
    ensures r == -1 || OccursAt(sub, s, r)
    ensures r != -1 ==> forall j :: r < j ==> !OccursAt(sub, s, j)
    ensures r == -1 ==> forall j :: !OccursAt(sub, s, j)
  {
    if |sub| > |s| then -1 else LastIndexUpTo(s, sub, |s| - |sub|)
  }

  /** strings.Contains: sub occurs somewhere in s. */
  function Contains(s: string, sub: string): (r: bool)
    ensures r <==> exists k :: OccursAt(sub, s, k)
  {
    Index(s, sub) != -1
  }

  lemma ContainsChar(s: string, c: char)
    ensures Contains(s, [c]) <==> c in s
  {
    if c in s {
      var i :| 0 <= i < |s| && s[i] == c;
      assert OccursAt([c], s, i);
    }
    if Contains(s, [c]) {
      var i := Index(s, [c]);
      assert s[i..i + 1] == [c];
      assert s[i] == c;
    }
  }

  // --- Prefixes and suffixes

  /**
   * internalStartsWith: an empty prefix matches only an empty string;
   * otherwise a plain prefix test, on lower-cased strings when ignoreCase.
   */
  function InternalStartsWith(str: string, prefix: string, ignoreCase: bool): (r: bool)
    ensures str == "" || prefix == "" ==> (r <==> str == "" && prefix == "")
    ensures str != "" && prefix != "" && !ignoreCase ==> (r <==> IsPrefix(prefix, str))
    ensures str != "" && prefix != "" && ignoreCase ==>
      (r <==> |prefix| <= |str| && ToLowerString(str[..|prefix|]) == ToLowerString(prefix))
  {
    if str == "" || prefix == "" then str == "" && prefix == ""
    else if |prefix| > |str| then false
    else if ignoreCase then
      LowerSlice(str, 0, |prefix|);
      IsPrefix(ToLowerString(prefix), ToLowerString(str))
    else IsPrefix(prefix, str)
  }

  /**
   * internalEndsWith: an empty suffix matches only an empty string;
   * otherwise a plain suffix test, on lower-cased strings when ignoreCase.
   */
  function InternalEndsWith(str: string, suffix: string, ignoreCase: bool): (r: bool)
    ensures str == "" || suffix == "" ==> (r <==> str == "" && suffix == "")
    ensures str != "" && suffix != "" && !ignoreCase ==> (r <==> IsSuffix(suffix, str))
    ensures str != "" && suffix != "" && ignoreCase ==>
      (r <==> |suffix| <= |str| && ToLowerString(str[|str| - |suffix|..]) == ToLowerString(suffix))
  {
    if str == "" || suffix == "" then str == "" && suffix == ""
    else if |suffix| > |str| then false
    else if ignoreCase then
      LowerSlice(str, |str| - |suffix|, |str|);
      IsSuffix(ToLowerString(suffix), ToLowerString(str))
    else IsSuffix(suffix, str)
  }

  /** Lower-casing commutes with slicing. */
  lemma LowerSlice(s: string, i: nat, j: nat)
    requires i <= j <= |s|
    ensures ToLowerString(s)[i..j] == ToLowerString(s[i..j])
  {
  }

  /** StartsWith: both empty, or both non-empty with prefix a prefix of str. */
  function StartsWith(str: string, prefix: string): (r: bool)
    ensures r <==> (str == "" && prefix == "") || (str != "" && prefix != "" && IsPrefix(prefix, str))
  {
    InternalStartsWith(str, prefix, false)
  }

  /** StartsWithIgnoreCase: StartsWith on the lower-cased strings. */
  function StartsWithIgnoreCase(str: string, prefix: string): (r: bool)
    ensures r <==> StartsWith(ToLowerString(str), ToLowerString(prefix))
  {
    LowerSlice(str, 0, if |prefix| <= |str| then |prefix| else 0);
    InternalStartsWith(str, prefix, true)
  }

  /** EndsWith: both empty, or both non-empty with suffix a suffix of str. */
  function EndsWith(str: string, suffix: string): (r: bool)
    ensures r <==> (str == "" && suffix == "") || (str != "" && suffix != "" && IsSuffix(suffix, str))
  {
    InternalEndsWith(str, suffix, false)
  }

  /** EndsWithIgnoreCase: EndsWith on the lower-cased strings. */
  function EndsWithIgnoreCase(str: string, suffix: string): (r: bool)
    ensures r <==> EndsWith(ToLowerString(str), ToLowerString(suffix))
  {
    LowerSlice(str, if |suffix| <= |str| then |str| - |suffix| else 0, |str|);
    InternalEndsWith(str, suffix, true)
  }

  lemma EndsWithExamples()
    ensures !EndsWith("foobar", "bazz") && !EndsWith("foobar", "BAR") && EndsWith("foobar", "bar")
  {
    assert "foobar"[2..][0] == 'o';
    assert "foobar"[3..][0] == 'b';
  }

  lemma EndsWithIgnoreCaseExamples()
    ensures !EndsWithIgnoreCase("foobar", "bazz")
    ensures EndsWithIgnoreCase("foobar", "BAR") && EndsWithIgnoreCase("foobar", "bar")
  {
    assert ToLowerString("foobar"[2..])[0] == 'o';
    assert ToLowerString("BAR") == "bar";
    assert ToLowerString("foobar"[3..]) == "bar";
  }

  // --- Trimming

  /** The number of spaces at the start of s. */
  function LeadingSpaces(s: string): (n: nat)
    ensures n <= |s| && (forall k :: 0 <= k < n ==> s[k] == ' ') && (n < |s| ==> s[n] != ' ')
  {
    if s != "" && s[0] == ' ' then 1 + LeadingSpaces(s[1..]) else 0
  }

  /** The number of spaces at the end of s. */
  function TrailingSpaces(s: string): (n: nat)
    ensures n <= |s| && (forall k :: |s| - n <= k < |s| ==> s[k] == ' ') && (n < |s| ==> s[|s| - n - 1] != ' ')
  {
    if s != "" && s[|s| - 1] == ' ' then 1 + TrailingSpaces(s[..|s| - 1]) else 0
  }

  /** r sits in s at i, and every character of s around it is a space. */
  predicate SpacesAround(s: string, r: string, i: int) {
    0 <= i && i + |r| <= |s| && s[i..i + |r|] == r &&
    forall k :: 0 <= k < |s| && !(i <= k < i + |r|) ==> s[k] == ' '
  }

  /** Trim, strings.Trim with the cutset " ": str without its spaces at either end. */
  function Trim(str: string): (r: string)
    ensures r == "" || (r[0] != ' ' && r[|r| - 1] != ' ')
    ensures exists i :: SpacesAround(str, r, i)
  {
    var i := LeadingSpaces(str);
    var rest := str[i..];
    var r := rest[..|rest| - TrailingSpaces(rest)];
    assert SpacesAround(str, r, i);
    r
  }

  /** A string with no space at either end is its own trim, so trimming twice is trimming once. */
  lemma TrimIdempotent(str: string)
    ensures Trim(Trim(str)) == Trim(str)
  {
    var r := Trim(str);
    assert LeadingSpaces(r) == 0;
    assert TrailingSpaces(r[0..]) == 0 by {
      assert r[0..] == r;
    }
  }

  lemma TrimExamples()
    ensures Trim("  ab c ") == "ab c"
    ensures Trim("   ") == ""
  {
    assert LeadingSpaces("  ab c ") == 2;
    assert TrailingSpaces("ab c ") == 1;
    assert LeadingSpaces("   ") == 3;
  }

  // --- Slicing

  /** The adjusted offset of AbbreviateWithOffset: at most the length, and leaving room for maxWidth - 3 characters. */
  function AdjustedOffset(size: int, offset: int, maxWidth: int): int {
    var o := if offset > size then size else offset;
    if size - o < maxWidth - 3 then size - (maxWidth - 3) else o
  }

  predicate KeepsWhole(str: string, maxWidth: int) {
    str == "" || maxWidth < 4 || |str| <= maxWidth
  }

  /**
   * AbbreviateWithOffset: a string that is short enough, or a width below 4,
   * leaves str alone; otherwise the result is exactly maxWidth long and
   * marked with "..." where it was cut, except for widths below 7 when the
   * adjusted offset is past 4, which also leave str alone.
   */
  function AbbreviateWithOffset(str: string, offset: int, maxWidth: int): (r: string)
    ensures KeepsWhole(str, maxWidth) ==> r == str
    ensures r == str <==> KeepsWhole(str, maxWidth) || (maxWidth < 7 && AdjustedOffset(|str|, offset, maxWidth) > 4)
    ensures r != str ==> |r| == maxWidth
    ensures r != str && AdjustedOffset(|str|, offset, maxWidth) <= 4 ==> r == str[..maxWidth - 3] + "..."
    ensures r != str && AdjustedOffset(|str|, offset, maxWidth) > 4 ==>
      r[..3] == "..." && (IsSuffix(r[3..], str) || (r[|r| - 3..] == "..." && Contains(str, r[3..|r| - 3])))
    decreases |str|
  {
    var size := |str|;
    if KeepsWhole(str, maxWidth) then str
    else
      var offset := AdjustedOffset(size, offset, maxWidth);
      if offset <= 4 then str[..maxWidth - 3] + "..."
      else if maxWidth < 7 then str
      else if offset + maxWidth - 3 < size then
        var inner := AbbreviateWithOffset(str[offset..], 0, maxWidth - 3);
        assert inner == str[offset..][..maxWidth - 6] + "...";
        assert OccursAt(inner[..|inner| - 3], str, offset);
        assert ("..." + inner)[3..|inner|] == inner[..|inner| - 3];
        "..." + inner
      else "..." + str[size - (maxWidth - 3)..]
  }

  /** Abbreviate: AbbreviateWithOffset at offset 0, which keeps a prefix and appends "...". */
  function Abbreviate(str: string, maxWidth: int): (r: string)
    ensures KeepsWhole(str, maxWidth) ==> r == str
    ensures !KeepsWhole(str, maxWidth) ==> r == str[..maxWidth - 3] + "..."
  {
    AbbreviateWithOffset(str, 0, maxWidth)
  }

  lemma AbbreviateExamples()
    ensures Abbreviate("", 4) == "" && Abbreviate("abcdefg", 6) == "abc..." && Abbreviate("abcdefg", 7) == "abcdefg"
    ensures Abbreviate("abcdefg", 4) == "a..."
  {
  }

  lemma AbbreviateWithOffsetExamples()
    ensures AbbreviateWithOffset("abcdefghijklmno", -1, 10) == "abcdefg..."
    ensures AbbreviateWithOffset("abcdefghij", 5, 6) == "abcdefghij"
  {
  }

  lemma AbbreviateMiddleExample()
    ensures AbbreviateWithOffset("abcdefghijklmno", 5, 10) == "...fghi..."
  {
    assert "abcdefghijklmno"[5..] == "fghijklmno";
    assert AbbreviateWithOffset("fghijklmno", 0, 7) == "fghi...";
  }

  lemma AbbreviateEndExamples()
    ensures AbbreviateWithOffset("abcdefghijklmno", 8, 10) == "...ijklmno"
    ensures AbbreviateWithOffset("abcdefghijklmno", 12, 10) == "...ijklmno"
  {
    assert "abcdefghijklmno"[8..] == "ijklmno";
  }

  /**
   * Chomp: removes exactly one line terminator, "\r\n", "\n" or "\r", from
   * the end; a string not ending in one is returned unchanged.
   */
  function Chomp(str: string): (r: string)
    ensures |r| <= |str| && str == r + str[|r|..]
    ensures str[|r|..] in {"", "\n", "\r", "\r\n"}
    ensures r == str <==> str == "" || (str[|str| - 1] != '\n' && str[|str| - 1] != '\r')
    ensures str[|r|..] == "\n" ==> !(|r| > 0 && r[|r| - 1] == '\r')
  {
    if str == "" then str
    else if |str| == 1 && (str[0..1] == "\n" || str[0..1] == "\r") then
      assert str == str[0..1];
      ""
    else if EndsWith(str, "\r\n") then str[..|str| - 2]
    else if EndsWith(str, "\n") || EndsWith(str, "\r") then str[..|str| - 1]
    else str
  }

  /** Chop: drops the last character, or the final "\r\n" as a whole. */
  function Chop(str: string): (r: string)
    ensures str == "" ==> r == ""
    ensures str != "" ==> |r| < |str| && IsPrefix(r, str)
    ensures str != "" ==> r == if IsSuffix("\r\n", str) then str[..|str| - 2] else str[..|str| - 1]
  {
    if str == "" then ""
    else
      var sc := Chomp(str);
      if |str| > |sc| then sc else str[..|str| - 1]
  }

  lemma ChompExamples()
    ensures Chomp("abc \r") == "abc " && Chomp("abc\n\r") == "abc\n" && Chomp("\r\n") == ""
  {
  }

  lemma ChompOnceExamples()
    ensures Chomp("abc\r\n\r\n") == "abc\r\n" && Chomp("abc\n\rabc") == "abc\n\rabc"
  {
    assert "abc\r\n\r\n"[5..] == "\r\n";
  }

  lemma ChopExamples()
    ensures Chop("abc\r\n") == "abc" && Chop("abc\n\rabc") == "abc\n\rab" && Chop("\r") == ""
  {
  }

  /** Left: the prefix of length size, the whole string when it is shorter, "" for a negative size. */
  function Left(str: string, size: int): (r: string)
    ensures IsPrefix(r, str)
    ensures |r| == if size < 0 then 0 else if size < |str| then size else |str|
  {
    if str == "" || size < 0 then ""
    else if |str| <= size then str
    else str[0..size]
  }

  /** Right: the suffix of length size, the whole string when it is shorter, "" for a negative size. */
  function Right(str: string, size: int): (r: string)
    ensures IsSuffix(r, str)
    ensures |r| == if size < 0 then 0 else if size < |str| then size else |str|
  {
    if str == "" || size < 0 then ""
    else if |str| <= size then str
    else str[|str| - size..]
  }

  /**
   * Mid: size characters from position pos (a negative pos counts as 0),
   * fewer at the end of the string; "" for a negative size or a pos past the end.
   */
  function Mid(str: string, pos: int, size: int): (r: string)
    ensures str == "" || size < 0 || pos > |str| ==> r == ""
    ensures !(str == "" || size < 0 || pos > |str|) ==>
      var p := if pos < 0 then 0 else pos;
      OccursAt(r, str, p) && |r| == if p + size < |str| then size else |str| - p
  {
    if str == "" || size < 0 || pos > |str| then ""
    else
      var pos := if pos < 0 then 0 else pos;
      if |str| <= pos + size then str[pos..]
      else str[pos..pos + size]
  }

  lemma LeftRightMidExamples()
    ensures Left("foobar", 3) == "foo" && Left("foobar", 10) == "foobar" && Left("foobar", -7) == ""
    ensures Right("foobar", 3) == "bar"
    ensures Mid("abc", 0, 2) == "ab" && Mid("abc", 2, 4) == "c" && Mid("abc", 4, 2) == "" && Mid("abc", -2, 2) == "ab"
  {
  }

  function Clamp(x: int, n: nat): (r: nat)
    ensures r <= n
  {
    if x < 0 then 0 else if x > n then n else x
  }

  /**
   * Overlay: start and end are clamped into [0, len] and put in order; the
   * characters between them are replaced by overlay.
   */
  function Overlay(str: string, overlay: string, start: int, end: int): (r: string)
    ensures var s, e := Clamp(start, |str|), Clamp(end, |str|);
      var lo, hi := if s <= e then s else e, if s <= e then e else s;
      |r| == |str| - (hi - lo) + |overlay| &&
      r[..lo] == str[..lo] && r[lo..lo + |overlay|] == overlay && r[lo + |overlay|..] == str[hi..]
  {
    var start := Clamp(start, |str|);
    var end := Clamp(end, |str|);
    var start, end := if start > end then end else start, if start > end then start else end;
    str[..start] + overlay + str[end..]
  }

  lemma OverlayExamples()
    ensures Overlay("", "abc", 0, 0) == "abc" && Overlay("abcdef", "", 4, 2) == "abef"
    ensures Overlay("abcdef", "zzzz", 4, 2) == "abzzzzef"
  {
  }

  /** Bounds below zero are clamped to the start. */
  lemma OverlayBeforeStartExamples()
    ensures Overlay("abcdef", "zzzz", -1, 4) == "zzzzef" && Overlay("abcdef", "zzzz", -2, -3) == "zzzzabcdef"
  {
  }

  /** Bounds past the length are clamped to the end. */
  lemma OverlayPastEndExample()
    ensures Overlay("abcdef", "zzzz", 8, 10) == "abcdefzzzz"
  {
  }

  // --- Occurrences inside slices

  lemma OccursInTake(sub: string, s: string, n: nat, j: int)
    requires n <= |s|
    ensures OccursAt(sub, s[..n], j) ==> OccursAt(sub, s, j) && j + |sub| <= n
  {
    if OccursAt(sub, s[..n], j) {
      assert s[..n][j..j + |sub|] == s[j..j + |sub|];
    }
  }

  lemma OccursInDrop(sub: string, s: string, n: nat, j: int)
    requires n <= |s|
    ensures OccursAt(sub, s[n..], j) ==> OccursAt(sub, s, n + j)
  {
    if OccursAt(sub, s[n..], j) {
      assert s[n..][j..j + |sub|] == s[n + j..n + j + |sub|];
    }
  }

  /** The text before the first occurrence of sep does not contain sep. */
  lemma NoneBeforeFirst(s: string, sep: string)
    requires sep != "" && Contains(s, sep)
    ensures !Contains(s[..Index(s, sep)], sep)
  {
    var i := Index(s, sep);
    var j := Index(s[..i], sep);
    if j != -1 {
      OccursInTake(sep, s, i, j);
    }
  }

  /** The text after the last occurrence of sep does not contain sep. */
  lemma NoneAfterLast(s: string, sep: string)
    requires sep != "" && LastIndex(s, sep) != -1
    ensures !Contains(s[LastIndex(s, sep) + |sep|..], sep)
  {
    var i := LastIndex(s, sep);
    var j := Index(s[i + |sep|..], sep);
    if j != -1 {
      OccursInDrop(sep, s, i + |sep|, j);
    }
  }

  /** The first occurrence of a one-character string is the first position holding that character. */
  lemma IndexOfChar(s: string, c: char, i: int)
    requires 0 <= i < |s| && s[i] == c && c !in s[..i]
    ensures Index(s, [c]) == i
  {
    assert OccursAt([c], s, i);
    forall j | 0 <= j < i
      ensures !OccursAt([c], s, j)
    {
      assert s[..i][j] == s[j];
    }
  }

  /** The last occurrence of a one-character string is the last position holding that character. */
  lemma LastIndexOfChar(s: string, c: char, i: int)
    requires 0 <= i < |s| && s[i] == c && c !in s[i + 1..]
    ensures LastIndex(s, [c]) == i
  {
    assert OccursAt([c], s, i);
    forall j | i < j < |s|
      ensures !OccursAt([c], s, j)
    {
      assert s[i + 1..][j - i - 1] == s[j];
    }
  }

  lemma LastIndexFinds(s: string, sep: string)
    ensures LastIndex(s, sep) == -1 <==> !Contains(s, sep)
  {
    if Contains(s, sep) {
      assert OccursAt(sep, s, Index(s, sep));
    }
    if LastIndex(s, sep) != -1 {
      assert OccursAt(sep, s, LastIndex(s, sep));
    }
  }

  // --- Emptiness and defaults

  function IsEmpty(s: string): (r: bool)
    ensures r <==> |s| == 0
  {
    s == ""
  }

  function IsNotEmpty(s: string): (r: bool)
    ensures r <==> |s| > 0
  {
    !IsEmpty(s)
  }

  /** The characters RE2's `\s` class matches: tab, newline, form feed, carriage return and space. */
  predicate IsRegexSpace(c: char) {
    c == '\t' || c == '\n' || c == '\U{0C}' || c == '\r' || c == ' '
  }

  /** IsBlank: empty, or matched in full by the expression `^\s+$`. */
  function IsBlank(s: string): (r: bool)
    ensures IsEmpty(s) ==> r
    ensures r <==> forall k :: 0 <= k < |s| ==> IsRegexSpace(s[k])
  {
    s == "" || forall k :: 0 <= k < |s| ==> IsRegexSpace(s[k])
  }

  function IsNotBlank(s: string): (r: bool)
    ensures r ==> IsNotEmpty(s)
    ensures r <==> exists k :: 0 <= k < |s| && !IsRegexSpace(s[k])
  {
    !IsBlank(s)
  }

  /** A blank string is white space in the sense of unicode.IsSpace too. */
  lemma BlankIsSpace(s: string, k: int)
    requires IsBlank(s) && 0 <= k < |s|
    ensures IsSpace(s[k]) && !IsUpper(s[k]) && !IsLower(s[k])
  {
    SpaceIsCaseless(s[k]);
  }

  /** Wrap: str between two copies of wrapWith; an empty str stays empty. */
  function Wrap(str: string, wrapWith: string): (r: string)
    ensures str == "" ==> r == ""
    ensures str != "" ==> |r| == |str| + 2 * |wrapWith| && IsPrefix(wrapWith, r) && IsSuffix(wrapWith, r)
    ensures str != "" ==> r[|wrapWith|..|r| - |wrapWith|] == str
  {
    if str == "" then str else wrapWith + str + wrapWith
  }

  /** DefaultString: defaultStr replaces an empty str; any other str is kept. */
  function DefaultString(str: string, defaultStr: string): (r: string)
    ensures r == "" <==> str == "" && defaultStr == ""
    ensures str != "" ==> r == str
    ensures str == "" ==> r == defaultStr
  {
    if str == "" then defaultStr else str
  }

  /** Capitalize: the first character is upper-cased, the rest kept. */
  function Capitalize(str: string): (r: string)
    ensures |r| == |str| && (str != "" ==> r[0] == ToUpper(str[0]) && r[1..] == str[1..])
  {
    if str == "" then "" else [ToUpper(str[0])] + str[1..]
  }

  /** Uncapitalize: a first character that is upper case is lower-cased; the rest is kept. */
  function Uncapitalize(str: string): (r: string)
    ensures |r| == |str| && (str != "" ==> r[1..] == str[1..])
    ensures str != "" && IsUpper(str[0]) ==> IsLower(r[0]) && ToLower(str[0]) == r[0]
    ensures str == "" || !IsUpper(str[0]) ==> r == str
  {
    if str == "" then str
    else if IsUpper(str[0]) then [ToLower(str[0])] + str[1..]
    else str
  }

  /** Capitalizing a capitalized string changes nothing, and neither does uncapitalizing twice. */
  lemma CapitalizeIdempotent(str: string)
    ensures Capitalize(Capitalize(str)) == Capitalize(str)
    ensures Uncapitalize(Uncapitalize(str)) == Uncapitalize(str)
  {
  }

  lemma CapitalizeExamples()
    ensures Capitalize("") == "" && Capitalize("cat") == "Cat" && Capitalize("cAt") == "CAt"
    ensures Uncapitalize("AbcDef") == "abcDef" && Uncapitalize("abcDef") == "abcDef"
    ensures Wrap("ab", "x") == "xabx" && DefaultString("", "d") == "d"
  {
  }

  // --- Removing

  /** The string with the first occurrence of sub cut out. */
  function CutFirst(s: string, sub: string): (r: string)
    requires Contains(s, sub)
    ensures |r| == |s| - |sub|
    ensures r[..Index(s, sub)] == s[..Index(s, sub)] && r[Index(s, sub)..] == s[Index(s, sub) + |sub|..]
  {
    s[..Index(s, sub)] + s[Index(s, sub) + |sub|..]
  }

  /**
   * What Remove's loop computes for a non-empty remove: first occurrences
   * are cut out until none is left, each cut shortening the string by
   * |remove|.
   */
  function RemoveAll(str: string, remove: string): (r: string)
    requires remove != ""
    ensures !Contains(r, remove)
    ensures !Contains(str, remove) ==> r == str
    ensures |r| <= |str|
    decreases |str|
  {
    if !Contains(str, remove) then str
    else RemoveAll(CutFirst(str, remove), remove)
  }

  /** Each cut shortens the string by |remove|, so the removed length is a multiple of it. */
  lemma {:induction false} RemovedMultiple(str: string, remove: string)
    requires remove != ""
    ensures Divisibility.Divides(|remove|, |str| - |RemoveAll(str, remove)|)
    decreases |str|
  {
    if !Contains(str, remove) {
      Divisibility.DividesIntro(|remove|, |str| - |RemoveAll(str, remove)|, 0);
    } else {
      var cut := CutFirst(str, remove);
      RemovedMultiple(cut, remove);
      var k :| |cut| - |RemoveAll(cut, remove)| == |remove| * k;
      assert |remove| * (k + 1) == |remove| * k + |remove|;
      Divisibility.DividesIntro(|remove|, |str| - |RemoveAll(str, remove)|, k + 1);
    }
  }

  /**
   * Remove: an empty str is returned at once; otherwise the first
   * occurrence of remove is cut out while there is one. The loop ends only
   * for a non-empty remove (RemoveEmptyStuck), which the precondition asks.
   */
  method Remove(str: string, remove: string) returns (r: string)
    requires str == "" || remove != ""
    ensures str == "" ==> r == str
    ensures str != "" ==> r == RemoveAll(str, remove)
  {
    if IsEmpty(str) {
      return str;
    }
    r := str;
    var index := Index(r, remove);
    while index > -1
      invariant index == Index(r, remove)
      invariant RemoveAll(r, remove) == RemoveAll(str, remove)
      decreases |r|
    {
      r, index := CutOnce(r, remove, index);
    }
  }

  /** One pass of Remove's loop: cut out the occurrence at index and search again. */
  method CutOnce(s: string, remove: string, index: int) returns (next: string, nextIndex: int)
    requires remove != "" && index == Index(s, remove) && index > -1
    ensures |next| < |s| && nextIndex == Index(next, remove)
    ensures RemoveAll(next, remove) == RemoveAll(s, remove)
  {
    next := s[..index] + s[index + |remove|..];
    RemoveAllStep(s, next, remove);
    nextIndex := Index(next, remove);
  }

  /** One pass of Remove's loop leaves what remains to be computed unchanged. */
  lemma RemoveAllStep(s: string, next: string, remove: string)
    requires remove != "" && Contains(s, remove)
    requires next == s[..Index(s, remove)] + s[Index(s, remove) + |remove|..]
    ensures RemoveAll(next, remove) == RemoveAll(s, remove)
  {
    assert next == CutFirst(s, remove);
  }

  /** With an empty remove the loop of Remove finds an occurrence at 0 and leaves the string as it was. */
  lemma RemoveEmptyStuck(str: string)
    requires str != ""
    ensures Index(str, "") == 0 && str[..0] + str[0 + |""|..] == str
  {
  }

  /** Remove with the empty remove handled before the loop. */
  method RemoveIntended(str: string, remove: string) returns (r: string)
    ensures str == "" || remove == "" ==> r == str
    ensures str != "" && remove != "" ==> r == RemoveAll(str, remove) && !Contains(r, remove)
  {
    if remove == "" {
      return str;
    }
    r := Remove(str, remove);
  }

  lemma RemoveExamples()
    ensures RemoveAll("queued", "u") == "qeed" && RemoveAll("queued", "z") == "queued"
  {
    assert "queued"[..1] == "q";
    IndexOfChar("queued", 'u', 1);
    assert CutFirst("queued", "u") == "qeued";
    assert "qeued"[..2] == "qe";
    IndexOfChar("qeued", 'u', 2);
    assert CutFirst("qeued", "u") == "qeed";
    ContainsChar("qeed", 'u');
    ContainsChar("queued", 'z');
  }

  /** RemoveEnd: a non-empty remove that str ends with is cut off; otherwise str is kept. */
  function RemoveEnd(str: string, remove: string): (r: string)
    ensures str == "" || remove == "" || !IsSuffix(remove, str) ==> r == str
    ensures str != "" && remove != "" && IsSuffix(remove, str) ==> r + remove == str
  {
    if IsEmpty(str) || IsEmpty(remove) then str
    else if EndsWith(str, remove) then str[..|str| - |remove|]
    else str
  }

  /** RemoveEndIgnoreCase: as RemoveEnd, comparing lower-cased strings. */
  function RemoveEndIgnoreCase(str: string, remove: string): (r: string)
    ensures str == "" || remove == "" || !EndsWithIgnoreCase(str, remove) ==> r == str
    ensures str != "" && remove != "" && EndsWithIgnoreCase(str, remove) ==>
      |r| + |remove| == |str| && r == str[..|r|] && ToLowerString(str[|r|..]) == ToLowerString(remove)
  {
    if IsEmpty(str) || IsEmpty(remove) then str
    else if EndsWithIgnoreCase(str, remove) then
      var n := |str| - |remove|;
      assert |str[..n]| == n;
      str[..n]
    else str
  }

  /** Appending a non-empty suffix and removing it again gives the string back, in both variants. */
  lemma RemoveEndAppended(s: string, remove: string)
    requires remove != ""
    ensures RemoveEnd(s + remove, remove) == s
    ensures RemoveEndIgnoreCase(s + remove, remove) == s
  {
    assert (s + remove)[|s|..] == remove;
  }

  lemma RemoveEndExamples()
    ensures RemoveEnd("www.domain.com", ".com") == "www.domain"
  {
    RemoveEndAppended("www.domain", ".com");
    assert "www.domain" + ".com" == "www.domain.com";
  }

  lemma RemoveEndKeepsExample()
    ensures RemoveEnd("www.domain.com", "domain") == "www.domain.com"
  {
    assert "www.domain.com"[8..] == "in.com";
  }

  /**
   * RemoveStart as written: on a match the slice starts at |remove| + 1,
   * which drops one character too many, and is out of range when str equals
   * remove.
   */
  function RemoveStart(str: string, remove: string): (r: Result<string, GoInt.Failure>)
    ensures r.Err? <==> str != "" && remove != "" && IsPrefix(remove, str) && |str| == |remove|
    ensures r.Err? ==> r.error == GoInt.SliceBoundsPanic
    ensures str == "" || remove == "" || !IsPrefix(remove, str) ==> r == Ok(str)
    ensures r.Ok? && str != "" && remove != "" && IsPrefix(remove, str) ==>
      str == remove + [str[|remove|]] + r.value
  {
    if IsEmpty(str) || IsEmpty(remove) then Ok(str)
    else if StartsWith(str, remove) then
      if |remove| + 1 > |str| then Err(GoInt.SliceBoundsPanic) else Ok(str[|remove| + 1..])
    else Ok(str)
  }

  /** RemoveStartIgnoreCase as written, with the same extra character dropped. */
  function RemoveStartIgnoreCase(str: string, remove: string): (r: Result<string, GoInt.Failure>)
    ensures r.Err? <==> str != "" && remove != "" && StartsWithIgnoreCase(str, remove) && |str| == |remove|
    ensures r.Err? ==> r.error == GoInt.SliceBoundsPanic
    ensures str == "" || remove == "" || !StartsWithIgnoreCase(str, remove) ==> r == Ok(str)
    ensures r.Ok? && str != "" && remove != "" && StartsWithIgnoreCase(str, remove) ==>
      |r.value| + |remove| + 1 == |str| && r.value == str[|remove| + 1..]
  {
    if IsEmpty(str) || IsEmpty(remove) then Ok(str)
    else if StartsWithIgnoreCase(str, remove) then
      if |remove| + 1 > |str| then Err(GoInt.SliceBoundsPanic) else Ok(str[|remove| + 1..])
    else Ok(str)
  }

  /** The slice one past the prefix loses a character, and a whole-string match panics. */
  lemma RemoveStartOffByOne()
    ensures RemoveStart("www.domain.com", "www.") == Ok("omain.com")
    ensures RemoveStart("abc", "abc") == Err(GoInt.SliceBoundsPanic)
    ensures RemoveStartIgnoreCase("WWW.domain.com", "www.") == Ok("omain.com")
  {
    assert ToLowerString("WWW.domain.com"[..4]) == ToLowerString("www.");
  }

  /** RemoveStart with the slice starting at |remove|: the prefix, and only it, is removed. */
  function RemoveStartIntended(str: string, remove: string): (r: string)
    ensures str == "" || remove == "" || !IsPrefix(remove, str) ==> r == str
    ensures str != "" && remove != "" && IsPrefix(remove, str) ==> remove + r == str
  {
    if IsEmpty(str) || IsEmpty(remove) then str
    else if StartsWith(str, remove) then str[|remove|..]
    else str
  }

  /** RemoveStartIgnoreCase with the slice starting at |remove|. */
  function RemoveStartIgnoreCaseIntended(str: string, remove: string): (r: string)
    ensures str == "" || remove == "" || !StartsWithIgnoreCase(str, remove) ==> r == str
    ensures str != "" && remove != "" && StartsWithIgnoreCase(str, remove) ==>
      |r| + |remove| == |str| && r == str[|remove|..] && ToLowerString(str[..|remove|]) == ToLowerString(remove)
  {
    if IsEmpty(str) || IsEmpty(remove) then str
    else if StartsWithIgnoreCase(str, remove) then str[|remove|..]
    else str
  }

  /** Prepending a non-empty prefix and removing it again gives the string back. */
  lemma RemoveStartPrepended(s: string, remove: string)
    requires remove != ""
    ensures RemoveStartIntended(remove + s, remove) == s
    ensures RemoveStartIgnoreCaseIntended(remove + s, remove) == s
  {
    assert (remove + s)[..|remove|] == remove;
    assert (remove + s)[|remove|..] == s;
  }

  // --- Repeating and joining

  /** strings.Join: the parts with sep between each two neighbours. */
  function Join(parts: seq<string>, sep: string): (r: string)
    ensures |parts| == 1 ==> r == parts[0]
    ensures |parts| >= 1 ==> IsPrefix(parts[0], r)
  {
    if |parts| == 0 then ""
    else if |parts| == 1 then parts[0]
    else parts[0] + sep + Join(parts[1..], sep)
  }

  /** Joining one more part at the end adds one separator and the part. */
  lemma {:induction false} JoinSnoc(parts: seq<string>, p: string, sep: string)
    requires |parts| >= 1
    ensures Join(parts + [p], sep) == Join(parts, sep) + sep + p
    decreases |parts|
  {
    if |parts| == 1 {
      assert (parts + [p])[1..] == [p];
    } else {
      assert (parts + [p])[1..] == parts[1..] + [p];
      JoinSnoc(parts[1..], p, sep);
    }
  }

  /** n copies of s (none for n <= 0). */
  function Copies(s: string, n: int): (r: seq<string>)
    ensures |r| == if n <= 0 then 0 else n
    ensures forall k :: 0 <= k < |r| ==> r[k] == s
  {
    if n <= 0 then [] else Copies(s, n - 1) + [s]
  }

  /** What Repeat builds: s appended n times to the empty string. */
  function Repeated(s: string, n: int): string {
    if n <= 0 then "" else Repeated(s, n - 1) + s
  }

  lemma {:induction false} RepeatedLength(s: string, n: int)
    ensures |Repeated(s, n)| == if n <= 0 then 0 else n * |s|
  {
    if n > 0 {
      RepeatedLength(s, n - 1);
    }
  }

  /** Position k of a repetition holds the character at k modulo |s|. */
  lemma {:induction false} RepeatedAt(s: string, n: int, k: int)
    requires 0 <= k < |Repeated(s, n)|
    ensures |s| > 0 && Repeated(s, n)[k] == s[k % |s|]
  {
    RepeatedLength(s, n);
    RepeatedLength(s, n - 1);
    var prev := Repeated(s, n - 1);
    if k < |prev| {
      RepeatedAt(s, n - 1, k);
    } else {
      Divisibility.ModUnique(k, |s|, n - 1, k - |prev|);
    }
  }

  /** Repeat: s appended repeat times, "" for repeat <= 0. */
  method Repeat(str: string, repeat: int) returns (buff: string)
    ensures buff == Repeated(str, repeat)
  {
    buff := "";
    var left := repeat;
    while left > 0
      invariant left == repeat || 0 <= left <= repeat
      invariant buff == Repeated(str, repeat - left)
    {
      left := left - 1;
      buff := buff + str;
    }
  }

  /** RepeatWithSeparator: repeat copies of str with sep between each two. */
  method RepeatWithSeparator(str: string, sep: string, repeat: int) returns (buff: string)
    ensures buff == Join(Copies(str, repeat), sep)
  {
    buff := "";
    var left := repeat;
    ghost var done := 0;
    while left > 0
      invariant left == repeat || (0 <= left <= repeat && done == repeat - left)
      invariant left == repeat ==> done == 0
      invariant buff == Join(Copies(str, done), sep) + if 0 < done && 0 < left then sep else ""
    {
      assert Copies(str, done + 1) == Copies(str, done) + [str];
      if done > 0 {
        JoinSnoc(Copies(str, done), str, sep);
      }
      left := left - 1;
      buff := buff + str;
      if left > 0 {
        buff := buff + sep;
      }
      done := done + 1;
    }
  }

  /** n copies joined by sep, followed by one more sep, are n repetitions of s + sep. */
  lemma {:induction false} JoinCopiesRepeated(s: string, sep: string, n: int)
    requires n >= 1
    ensures Join(Copies(s, n), sep) + sep == Repeated(s + sep, n)
  {
    if n == 1 {
      assert Copies(s, 1) == [s];
    } else {
      assert Copies(s, n) == Copies(s, n - 1) + [s];
      JoinSnoc(Copies(s, n - 1), s, sep);
      JoinCopiesRepeated(s, sep, n - 1);
    }
  }

  /** n copies of s with n - 1 separators: n * |s| + (n - 1) * |sep| characters. */
  lemma RepeatWithSeparatorLength(s: string, sep: string, n: int)
    requires n >= 1
    ensures |Join(Copies(s, n), sep)| == n * |s| + (n - 1) * |sep|
  {
    JoinCopiesRepeated(s, sep, n);
    RepeatedLength(s + sep, n);
  }

  lemma RepeatExamples()
    ensures Repeated("a", 3) == "aaa" && Repeated("abc", 3) == "abcabcabc" && Repeated("a", -1) == ""
    ensures Join(Copies("a", 3), ",") == "a,a,a" && Join(Copies("abc", 3), "-") == "abc-abc-abc"
  {
    assert Copies("a", 3) == ["a", "a", "a"];
    assert Copies("abc", 3) == ["abc", "abc", "abc"];
  }

  // --- Reversing and splitting

  /** The sequence read from the back. */
  function Reversed<T>(s: seq<T>): (r: seq<T>)
    ensures |r| == |s|
    ensures forall k :: 0 <= k < |s| ==> r[k] == s[|s| - 1 - k]
  {
    if s == [] then [] else [s[|s| - 1]] + Reversed(s[..|s| - 1])
  }

  /** A sequence that holds s's elements in the opposite order is s reversed. */
  lemma ReversedFrom<T>(a: seq<T>, s: seq<T>)
    requires |a| == |s| && forall k :: 0 <= k < |s| ==> a[k] == s[|s| - 1 - k]
    ensures a == Reversed(s)
  {
  }

  lemma ReverseInvolution<T>(s: seq<T>)
    ensures Reversed(Reversed(s)) == s
  {
  }

  /** Reverse: the characters swapped pairwise from both ends into the middle. */
  method Reverse(s: string) returns (r: string)
    ensures r == Reversed(s)
  {
    var a := new char[|s|](k requires 0 <= k < |s| => s[k]);
    var i, j := 0, |s| - 1;
    while i < |s| / 2
      invariant 0 <= i <= |s| / 2 && j == |s| - 1 - i
      invariant forall k :: 0 <= k < i ==> a[k] == s[|s| - 1 - k]
      invariant forall k :: |s| - i <= k < |s| ==> a[k] == s[|s| - 1 - k]
      invariant forall k :: i <= k < |s| - i ==> a[k] == s[k]
    {
      a[i], a[j] := a[j], a[i];
      i, j := i + 1, j - 1;
    }
    r := a[..];
    ReversedFrom(r, s);
  }

  /**
   * strings.Split: with a non-empty sep, the pieces between successive first
   * occurrences of sep (one piece, s itself, when there is none); with an
   * empty sep, one piece per character.
   */
  function Split(s: string, sep: string): (r: seq<string>)
    ensures sep != "" ==> |r| >= 1
    ensures sep == "" ==> |r| == |s| && forall k :: 0 <= k < |r| ==> r[k] == [s[k]]
    ensures sep != "" && !Contains(s, sep) ==> r == [s]
  {
    if sep == "" then Explode(s) else SplitAt(s, sep)
  }

  /** The split at a non-empty separator: the text before its first occurrence, then the split of the rest. */
  function SplitAt(s: string, sep: string): (r: seq<string>)
    requires sep != ""
    ensures |r| >= 1
    decreases |s|
  {
    var i := Index(s, sep);
    if i == -1 then [s] else [s[..i]] + SplitAt(s[i + |sep|..], sep)
  }

  /** No piece of a split at a non-empty separator contains the separator. */
  lemma {:induction false} SplitPiecesFree(s: string, sep: string)
    requires sep != ""
    ensures forall k :: 0 <= k < |Split(s, sep)| ==> !Contains(Split(s, sep)[k], sep)
    decreases |s|
  {
    var i := Index(s, sep);
    if i != -1 {
      var rest := s[i + |sep|..];
      SplitStep(s, sep, i, rest);
      SplitPiecesFree(rest, sep);
      NoneBeforeFirst(s, sep);
    }
  }

  /** The split at an empty separator: one piece per character. */
  function Explode(s: string): (r: seq<string>)
    ensures |r| == |s| && forall k :: 0 <= k < |r| ==> r[k] == [s[k]]
  {
    if s == "" then [] else [[s[0]]] + Explode(s[1..])
  }

  lemma {:induction false} JoinExplode(s: string)
    ensures Join(Explode(s), "") == s
  {
    if |s| >= 2 {
      JoinCons([s[0]], Explode(s[1..]), "");
      JoinExplode(s[1..]);
      assert s == [s[0]] + s[1..];
    }
  }

  /** Joining the pieces of a split with the same separator gives the string back. */
  lemma {:induction false} JoinSplit(s: string, sep: string)
    ensures Join(Split(s, sep), sep) == s
    decreases |s|
  {
    if sep == "" {
      JoinExplode(s);
    } else {
      var i := Index(s, sep);
      if i != -1 {
        var rest := s[i + |sep|..];
        SplitStep(s, sep, i, rest);
        JoinCons(s[..i], Split(rest, sep), sep);
        JoinSplit(rest, sep);
        SliceAround(s, i, |sep|);
      }
    }
  }

  lemma SliceAround(s: string, i: int, n: int)
    requires 0 <= i && i + n <= |s| && 0 <= n
    ensures s == s[..i] + s[i..i + n] + s[i + n..]
  {
  }

  lemma SplitStep(s: string, sep: string, i: int, rest: string)
    requires sep != "" && i == Index(s, sep) && i != -1 && rest == s[i + |sep|..]
    ensures Split(s, sep) == [s[..i]] + Split(rest, sep)
  {
    assert SplitAt(s, sep) == [s[..i]] + SplitAt(rest, sep);
  }

  lemma JoinCons(p: string, parts: seq<string>, sep: string)
    requires |parts| >= 1
    ensures Join([p] + parts, sep) == p + sep + Join(parts, sep)
  {
    assert ([p] + parts)[1..] == parts;
  }

  /** ReverseDelimited: the pieces of the split swapped pairwise from both ends, joined again. */
  method ReverseDelimited(str: string, del: string) returns (r: string)
    ensures r == Join(Reversed(Split(str, del)), del)
  {
    var s := Split(str, del);
    var a := new string[|s|](k requires 0 <= k < |s| => s[k]);
    assert a[..] == s;
    SwapToReverse(a);
    r := Join(a[..], del);
  }

  /** The loop of ReverseDelimited: elements swapped pairwise from both ends while i < j. */
  method SwapToReverse<T>(a: array<T>)
    modifies a
    ensures a[..] == Reversed(old(a[..]))
  {
    ghost var s := a[..];
    var i, j := 0, a.Length - 1;
    while i < j
      invariant 0 <= i <= a.Length - i <= a.Length && j == a.Length - 1 - i
      invariant forall k :: 0 <= k < i ==> a[k] == s[|s| - 1 - k]
      invariant forall k :: |s| - i <= k < |s| ==> a[k] == s[|s| - 1 - k]
      invariant forall k :: i <= k < |s| - i ==> a[k] == s[k]
    {
      a[i], a[j] := a[j], a[i];
      i, j := i + 1, j - 1;
    }
    ReversedFrom(a[..], s);
  }

  lemma ReverseExamples()
    ensures Reversed("abc") == "cba"
  {
    ReversedFrom("cba", "abc");
  }

  lemma SplitExamples()
    ensures Split("a.b.c", ".") == ["a", "b", "c"]
  {
    assert "a.b.c"[..1] == "a" && "a.b.c"[2..] == "b.c";
    IndexOfChar("a.b.c", '.', 1);
    assert "b.c"[..1] == "b" && "b.c"[2..] == "c";
    IndexOfChar("b.c", '.', 1);
    ContainsChar("c", '.');
    assert Split("c", ".") == ["c"];
    assert Split("b.c", ".") == ["b", "c"];
  }

  lemma ReverseDelimitedExample()
    ensures Join(Reversed(Split("a.b.c", ".")), ".") == "c.b.a"
  {
    assert ["b", "a"][1..] == ["a"];
    assert ["c", "b", "a"][1..] == ["b", "a"];
    calc {
      Join(Reversed(Split("a.b.c", ".")), ".");
      { SplitExamples(); }
      Join(Reversed(["a", "b", "c"]), ".");
      { ReversedFrom(["c", "b", "a"], ["a", "b", "c"]); }
      Join(["c", "b", "a"], ".");
      "c" + "." + Join(["b", "a"], ".");
      "c.b.a";
    }
  }

  // --- Substrings around a separator

  /** SubstringBefore: the text before the first sep, or str when sep does not occur. */
  function SubstringBefore(str: string, sep: string): (r: string)
    ensures !Contains(str, sep) ==> r == str
    ensures Contains(str, sep) ==> IsPrefix(r, str) && OccursAt(sep, str, |r|)
    ensures Contains(str, sep) ==> forall j :: 0 <= j < |r| ==> !OccursAt(sep, str, j)
  {
    var idx := Index(str, sep);
    if idx == -1 then str else str[..idx]
  }

  /** SubstringAfter: the text after the first sep, or str when sep does not occur. */
  function SubstringAfter(str: string, sep: string): (r: string)
    ensures !Contains(str, sep) ==> r == str
    ensures Contains(str, sep) ==> IsSuffix(r, str) && OccursAt(sep, str, |str| - |r| - |sep|)
    ensures Contains(str, sep) ==> forall j :: 0 <= j < |str| - |r| - |sep| ==> !OccursAt(sep, str, j)
  {
    var idx := Index(str, sep);
    if idx == -1 then str else str[idx + |sep|..]
  }

  /** SubstringBeforeLast: the text before the last sep, or str when sep does not occur. */
  function SubstringBeforeLast(str: string, sep: string): (r: string)
    ensures !Contains(str, sep) ==> r == str
    ensures Contains(str, sep) ==> IsPrefix(r, str) && OccursAt(sep, str, |r|)
    ensures Contains(str, sep) ==> forall j :: |r| < j ==> !OccursAt(sep, str, j)
  {
    LastIndexFinds(str, sep);
    var idx := LastIndex(str, sep);
    if idx == -1 then str else str[..idx]
  }

  /** SubstringAfterLast: the text after the last sep, or str when sep does not occur. */
  function SubstringAfterLast(str: string, sep: string): (r: string)
    ensures !Contains(str, sep) ==> r == str
    ensures Contains(str, sep) ==> IsSuffix(r, str) && OccursAt(sep, str, |str| - |r| - |sep|)
    ensures Contains(str, sep) ==> forall j :: |str| - |r| - |sep| < j ==> !OccursAt(sep, str, j)
  {
    LastIndexFinds(str, sep);
    var idx := LastIndex(str, sep);
    if idx == -1 then str else str[idx + |sep|..]
  }

  /** Around the first and around the last occurrence, the pieces and sep make up str again. */
  lemma SubstringsRejoin(str: string, sep: string)
    requires Contains(str, sep)
    ensures SubstringBefore(str, sep) + sep + SubstringAfter(str, sep) == str
  {
    var i := Index(str, sep);
    assert str == str[..i] + str[i..i + |sep|] + str[i + |sep|..];
  }

  lemma SubstringsLastRejoin(str: string, sep: string)
    requires Contains(str, sep)
    ensures SubstringBeforeLast(str, sep) + sep + SubstringAfterLast(str, sep) == str
  {
    LastIndexFinds(str, sep);
    var l := LastIndex(str, sep);
    assert str == str[..l] + str[l..l + |sep|] + str[l + |sep|..];
  }

  /** A non-empty sep occurs neither before its first nor after its last occurrence. */
  lemma SubstringsFree(str: string, sep: string)
    requires sep != ""
    ensures !Contains(SubstringBefore(str, sep), sep)
    ensures !Contains(SubstringAfterLast(str, sep), sep)
  {
    LastIndexFinds(str, sep);
    if Contains(str, sep) {
      NoneBeforeFirst(str, sep);
      NoneAfterLast(str, sep);
    }
  }

  lemma SubstringsExamples()
    ensures SubstringBefore("abc.def.ghi", ".") == "abc" && SubstringAfter("abc.def.ghi", ".") == "def.ghi"
    ensures SubstringBefore("abc.def", "g") == "abc.def" && SubstringAfter("abc.def", "g") == "abc.def"
  {
    assert "abc.def.ghi"[..3] == "abc";
    IndexOfChar("abc.def.ghi", '.', 3);
    ContainsChar("abc.def", 'g');
  }

  lemma SubstringsLastExamples()
    ensures SubstringBeforeLast("abc.def.ghi", ".") == "abc.def" && SubstringAfterLast("abc.def.ghi", ".") == "ghi"
  {
    assert "abc.def.ghi"[8..] == "ghi";
    LastIndexOfChar("abc.def.ghi", '.', 7);
  }

  // --- Appending a missing suffix

  /**
   * The decision internalAppendIfMissing takes, as written: an empty str is
   * kept; so is a str ending with suffix (compared per ignoreCase) or with
   * one of the extra suffixes, which both modes compare ignoring case;
   * otherwise suffix is appended.
   */
  function AppendedIfMissing(str: string, suffix: string, ignoreCase: bool, suffixes: seq<string>): (r: string)
    ensures r == str || r == str + suffix
    ensures r == str + suffix && suffix != "" <==>
      str != "" && suffix != "" && !(if ignoreCase then EndsWithIgnoreCase(str, suffix) else EndsWith(str, suffix)) &&
      forall k :: 0 <= k < |suffixes| ==> !EndsWithIgnoreCase(str, suffixes[k])
  {
    if str == "" then str
    else if ignoreCase && EndsWithIgnoreCase(str, suffix) then str
    else if !ignoreCase && EndsWith(str, suffix) then str
    else if exists k :: 0 <= k < |suffixes| && EndsWithIgnoreCase(str, suffixes[k]) then str
    else str + suffix
  }

  /** internalAppendIfMissing: the early-exit checks of the suffix and then of each extra suffix. */
  method InternalAppendIfMissing(str: string, suffix: string, ignoreCase: bool, suffixes: seq<string>)
    returns (r: string)
    ensures r == AppendedIfMissing(str, suffix, ignoreCase, suffixes)
  {
    if str == "" || IsEmpty(str) {
      return str;
    }
    if ignoreCase {
      if EndsWithIgnoreCase(str, suffix) {
        return str;
      }
      for k := 0 to |suffixes|
        invariant forall m :: 0 <= m < k ==> !EndsWithIgnoreCase(str, suffixes[m])
      {
        if EndsWithIgnoreCase(str, suffixes[k]) {
          return str;
        }
      }
    } else {
      if EndsWith(str, suffix) {
        return str;
      }
      for k := 0 to |suffixes|
        invariant forall m :: 0 <= m < k ==> !EndsWithIgnoreCase(str, suffixes[m])
      {
        if EndsWithIgnoreCase(str, suffixes[k]) {
          return str;
        }
      }
    }
    return str + suffix;
  }

  method AppendIfMissing(str: string, suffix: string, suffixes: seq<string>) returns (r: string)
    ensures r == AppendedIfMissing(str, suffix, false, suffixes)
  {
    r := InternalAppendIfMissing(str, suffix, false, suffixes);
  }

  method AppendIfMissingIgnoreCase(str: string, suffix: string, suffixes: seq<string>) returns (r: string)
    ensures r == AppendedIfMissing(str, suffix, true, suffixes)
  {
    r := InternalAppendIfMissing(str, suffix, true, suffixes);
  }

  /** A string that went through AppendIfMissing needs nothing more appended. */
  lemma AppendIfMissingIdempotent(str: string, suffix: string, ignoreCase: bool, suffixes: seq<string>)
    ensures var r := AppendedIfMissing(str, suffix, ignoreCase, suffixes);
      AppendedIfMissing(r, suffix, ignoreCase, suffixes) == r
  {
    var r := AppendedIfMissing(str, suffix, ignoreCase, suffixes);
    if r != str {
      assert r[|r| - |suffix|..] == suffix;
    }
  }

  lemma AppendIfMissingExamples()
    ensures AppendedIfMissing("abc", "", false, []) == "abc" && AppendedIfMissing("", "xyz", false, []) == ""
    ensures AppendedIfMissing("abc", "xyz", false, []) == "abcxyz" && AppendedIfMissing("abcxyz", "xyz", false, []) == "abcxyz"
  {
  }

  lemma AppendIfMissingCaseExamples()
    ensures AppendedIfMissing("abcXYZ", "xyz", false, []) == "abcXYZxyz"
    ensures AppendedIfMissing("abcXYZ", "xyz", true, []) == "abcXYZ"
  {
    assert "abcXYZ"[3..] == "XYZ";
    assert ToLowerString("XYZ") == ToLowerString("xyz");
  }

  /** In the case-sensitive mode an extra suffix is still matched ignoring case. */
  lemma AppendIfMissingListIgnoresCase()
    ensures AppendedIfMissing("abcXYZ", "q", false, ["xyz"]) == "abcXYZ"
  {
    assert "abcXYZ"[3..] == "XYZ";
    assert ToLowerString("XYZ") == ToLowerString("xyz");
    assert EndsWithIgnoreCase("abcXYZ", ["xyz"][0]);
  }

  lemma AppendIfMissingIntendedExample()
    ensures AppendedIfMissingIntended("abcXYZ", "q", false, ["xyz"]) == "abcXYZq"
  {
    assert "abcXYZ"[3..] == "XYZ";
    assert "abcXYZ"[5..] == "Z";
  }

  predicate EndsWithPerMode(str: string, suffix: string, ignoreCase: bool) {
    if ignoreCase then EndsWithIgnoreCase(str, suffix) else EndsWith(str, suffix)
  }

  /** internalAppendIfMissing with every suffix compared as the mode says. */
  function AppendedIfMissingIntended(str: string, suffix: string, ignoreCase: bool, suffixes: seq<string>): (r: string)
    ensures r == str || r == str + suffix
    ensures r == str + suffix && suffix != "" <==>
      str != "" && suffix != "" && !EndsWithPerMode(str, suffix, ignoreCase) &&
      forall k :: 0 <= k < |suffixes| ==> !EndsWithPerMode(str, suffixes[k], ignoreCase)
    ensures str != "" && suffix != "" ==>
      (EndsWithPerMode(r, suffix, ignoreCase) || exists k :: 0 <= k < |suffixes| && EndsWithPerMode(r, suffixes[k], ignoreCase))
  {
    if str == "" || EndsWithPerMode(str, suffix, ignoreCase) then str
    else if exists k :: 0 <= k < |suffixes| && EndsWithPerMode(str, suffixes[k], ignoreCase) then str
    else
      assert (str + suffix)[|str + suffix| - |suffix|..] == suffix;
      str + suffix
  }

  // --- Searching loops

  /** ContainsAny: whether some search string occurs in str. */
  method ContainsAny(str: string, search: seq<string>) returns (b: bool)
    ensures b <==> exists k :: 0 <= k < |search| && Contains(str, search[k])
  {
    for k := 0 to |search|
      invariant forall m :: 0 <= m < k ==> !Contains(str, search[m])
    {
      if Contains(str, search[k]) {
        return true;
      }
    }
    return false;
  }

  /** The loop of StartsWithAny and StartsWithAnyIgnoreCase: whether some prefix matches in the given mode. */
  method InternalStartsWithAny(str: string, prefixes: seq<string>, ignoreCase: bool) returns (b: bool)
    ensures b <==> exists k :: 0 <= k < |prefixes| && InternalStartsWith(str, prefixes[k], ignoreCase)
  {
    for k := 0 to |prefixes|
      invariant forall m :: 0 <= m < k ==> !InternalStartsWith(str, prefixes[m], ignoreCase)
    {
      if InternalStartsWith(str, prefixes[k], ignoreCase) {
        return true;
      }
    }
    return false;
  }

  /** StartsWithAny: whether str starts with one of the prefixes. */
  method StartsWithAny(str: string, prefixes: seq<string>) returns (b: bool)
    ensures b <==> exists k :: 0 <= k < |prefixes| && StartsWith(str, prefixes[k])
  {
    b := InternalStartsWithAny(str, prefixes, false);
  }

  /** StartsWithAnyIgnoreCase: whether str starts with one of the prefixes, ignoring case. */
  method StartsWithAnyIgnoreCase(str: string, prefixes: seq<string>) returns (b: bool)
    ensures b <==> exists k :: 0 <= k < |prefixes| && StartsWithIgnoreCase(str, prefixes[k])
  {
    b := InternalStartsWithAny(str, prefixes, true);
  }

  /** The loop of EndsWithAny and EndsWithAnyIgnoreCase: whether some suffix matches in the given mode. */
  method InternalEndsWithAny(str: string, suffixes: seq<string>, ignoreCase: bool) returns (b: bool)
    ensures b <==> exists k :: 0 <= k < |suffixes| && InternalEndsWith(str, suffixes[k], ignoreCase)
  {
    for k := 0 to |suffixes|
      invariant forall m :: 0 <= m < k ==> !InternalEndsWith(str, suffixes[m], ignoreCase)
    {
      if InternalEndsWith(str, suffixes[k], ignoreCase) {
        return true;
      }
    }
    return false;
  }

  /** EndsWithAny: whether str ends with one of the suffixes. */
  method EndsWithAny(str: string, suffixes: seq<string>) returns (b: bool)
    ensures b <==> exists k :: 0 <= k < |suffixes| && EndsWith(str, suffixes[k])
  {
    b := InternalEndsWithAny(str, suffixes, false);
  }

  /** EndsWithAnyIgnoreCase: whether str ends with one of the suffixes, ignoring case. */
  method EndsWithAnyIgnoreCase(str: string, suffixes: seq<string>) returns (b: bool)
    ensures b <==> exists k :: 0 <= k < |suffixes| && EndsWithIgnoreCase(str, suffixes[k])
  {
    b := InternalEndsWithAny(str, suffixes, true);
  }

  /** ContainsAnyCharacter: whether some character of search occurs in str. */
  method ContainsAnyCharacter(str: string, search: string) returns (b: bool)
    ensures b <==> exists k :: 0 <= k < |search| && search[k] in str
  {
    for k := 0 to |search|
      invariant forall m :: 0 <= m < k ==> search[m] !in str
    {
      ContainsChar(str, search[k]);
      if Contains(str, [search[k]]) {
        return true;
      }
    }
    return false;
  }

  /** ContainsIgnoreCase: Contains on the lower-cased strings. */
  function ContainsIgnoreCase(str: string, search: string): (r: bool)
    ensures search == "" ==> r
    ensures r ==> |search| <= |str|
    ensures r <==> exists k :: OccursIgnoringCaseAt(search, str, k)
  {
    assert OccursAt(ToLowerString(search), ToLowerString(str), 0) <== search == "";
    LowerOccurrence(str, search);
    Contains(ToLowerString(str), ToLowerString(search))
  }

  /** sub occurs in s at position i when both are lower-cased. */
  predicate OccursIgnoringCaseAt(sub: string, s: string, i: int) {
    0 <= i && i + |sub| <= |s| && ToLowerString(s[i..i + |sub|]) == ToLowerString(sub)
  }

  /** An occurrence in the lower-cased strings is an occurrence ignoring case at the same position. */
  lemma LowerOccurrence(str: string, search: string)
    ensures Contains(ToLowerString(str), ToLowerString(search)) <==> exists k :: OccursIgnoringCaseAt(search, str, k)
  {
    var lower, lowerSearch := ToLowerString(str), ToLowerString(search);
    if Contains(lower, lowerSearch) {
      var k :| OccursAt(lowerSearch, lower, k);
      LowerSlice(str, k, k + |search|);
      assert OccursIgnoringCaseAt(search, str, k);
    }
    if exists k :: OccursIgnoringCaseAt(search, str, k) {
      var k :| OccursIgnoringCaseAt(search, str, k);
      LowerSlice(str, k, k + |search|);
      assert OccursAt(lowerSearch, lower, k);
    }
  }

  /** An occurrence is still one after lower-casing both strings. */
  lemma ContainsIgnoringCase(str: string, search: string)
    requires Contains(str, search)
    ensures ContainsIgnoreCase(str, search)
  {
    var i := Index(str, search);
    LowerSlice(str, i, i + |search|);
    assert OccursAt(ToLowerString(search), ToLowerString(str), i);
  }

  method ContainsNone(str: string, search: seq<string>) returns (b: bool)
    ensures b <==> forall k :: 0 <= k < |search| ==> !Contains(str, search[k])
  {
    b := ContainsAny(str, search);
    b := !b;
  }

  method ContainsNoneCharacter(str: string, search: string) returns (b: bool)
    ensures b <==> forall k :: 0 <= k < |search| ==> search[k] !in str
  {
    b := ContainsAnyCharacter(str, search);
    b := !b;
  }

  /** stringInSlice: whether a is one of the list's strings. */
  method StringInSlice(a: string, list: seq<string>) returns (b: bool)
    ensures b <==> a in list
  {
    for k := 0 to |list|
      invariant a !in list[..k]
    {
      if list[k] == a {
        return true;
      }
    }
    assert list[..|list|] == list;
    return false;
  }

  /** ContainsOnly: whether every character of str, as a one-character string, is in search. */
  method ContainsOnly(str: string, search: seq<string>) returns (b: bool)
    ensures b <==> forall k :: 0 <= k < |str| ==> [str[k]] in search
  {
    for k := 0 to |str|
      invariant forall m :: 0 <= m < k ==> [str[m]] in search
    {
      var found := StringInSlice([str[k]], search);
      if !found {
        return false;
      }
    }
    return true;
  }

  method IsAnyEmpty(strings: seq<string>) returns (b: bool)
    ensures b <==> "" in strings
  {
    for k := 0 to |strings|
      invariant "" !in strings[..k]
    {
      if IsEmpty(strings[k]) {
        return true;
      }
    }
    assert strings[..|strings|] == strings;
    return false;
  }

  method IsNoneEmpty(strings: seq<string>) returns (b: bool)
    ensures b <==> "" !in strings
  {
    for k := 0 to |strings|
      invariant "" !in strings[..k]
    {
      if IsEmpty(strings[k]) {
        return false;
      }
    }
    assert strings[..|strings|] == strings;
    return true;
  }

  method IsAnyBlank(strings: seq<string>) returns (b: bool)
    ensures b <==> exists k :: 0 <= k < |strings| && IsBlank(strings[k])
  {
    for k := 0 to |strings|
      invariant forall m :: 0 <= m < k ==> !IsBlank(strings[m])
    {
      if IsBlank(strings[k]) {
        return true;
      }
    }
    return false;
  }

  method IsNoneBlank(strings: seq<string>) returns (b: bool)
    ensures b <==> forall k :: 0 <= k < |strings| ==> !IsBlank(strings[k])
  {
    for k := 0 to |strings|
      invariant forall m :: 0 <= m < k ==> !IsBlank(strings[m])
    {
      if IsBlank(strings[k]) {
        return false;
      }
    }
    return true;
  }
}
