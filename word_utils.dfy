/**
 * The word transforms of the wordUtils package. Each walks the string once,
 * remembering in one flag whether the previous character ended a word, and
 * rewrites the characters that start a word. Each loop is proved against a
 * position-wise definition that does not mention the flag.
 */
module WordUtils {
  import opened Wrappers
  import opened Runes

  /**
   * The delimiters argument: None for a nil list, under which white space
   * separates words, Some(list) for an explicit list of one-character
   * strings.
   */
  type Delimiters = Option<seq<string>>

  predicate Delimits(c: char, delimiters: Delimiters) {
    match delimiters
    case None => IsSpace(c)
    case Some(list) => [c] in list
  }

  /** isDelimiter: white space for a nil list; otherwise whether the one-character string c is listed. */
  method IsDelimiter(c: char, delimiters: Delimiters) returns (b: bool)
    ensures b <==> Delimits(c, delimiters)
    ensures delimiters.None? ==> (b <==> IsSpace(c))
    ensures delimiters.Some? ==> (b <==> exists k :: 0 <= k < |delimiters.value| && delimiters.value[k] == [c])
  {
    if delimiters.None? {
      return IsSpace(c);
    }
    var cs := [c];
    var list := delimiters.value;
    for k := 0 to |list|
      invariant cs !in list[..k]
    {
      if cs == list[k] {
        return true;
      }
    }
    assert list[..|list|] == list;
    return false;
  }

  /** Position i starts a word: it holds no delimiter, and it is the first position or follows a delimiter. */
  predicate WordStart(s: string, i: int, delimiters: Delimiters)
    requires 0 <= i < |s|
  {
    !Delimits(s[i], delimiters) && (i == 0 || Delimits(s[i - 1], delimiters))
  }

  /** The early exit of the delimited transforms: an empty string, or an explicit empty delimiter list. */
  predicate Untouched(str: string, delimiters: Delimiters) {
    str == "" || delimiters == Some([])
  }

  // --- Capitalizing and uncapitalizing word starts

  function CapitalizedAt(str: string, i: int, delimiters: Delimiters): char
    requires 0 <= i < |str|
  {
    if WordStart(str, i, delimiters) then ToUpper(str[i]) else str[i]
  }

  function UncapitalizedAt(str: string, i: int, delimiters: Delimiters): char
    requires 0 <= i < |str|
  {
    if WordStart(str, i, delimiters) then ToLower(str[i]) else str[i]
  }

  /** The string with every word start upper-cased and every other position kept. */
  function Capitalized(str: string, delimiters: Delimiters): string {
    if Untouched(str, delimiters) then str
    else seq(|str|, i requires 0 <= i < |str| => CapitalizedAt(str, i, delimiters))
  }

  /** The string with every word start lower-cased and every other position kept. */
  function Uncapitalized(str: string, delimiters: Delimiters): string {
    if Untouched(str, delimiters) then str
    else seq(|str|, i requires 0 <= i < |str| => UncapitalizedAt(str, i, delimiters))
  }

  /**
   * What capitalizing promises: the length is kept, delimiters and every
   * position inside a word are untouched, and a lower or title case letter
   * that starts a word becomes upper case.
   */
  lemma CapitalizedShape(str: string, delimiters: Delimiters, i: int)
    requires 0 <= i < |str| && !Untouched(str, delimiters)
    ensures |Capitalized(str, delimiters)| == |str|
    ensures !WordStart(str, i, delimiters) ==> Capitalized(str, delimiters)[i] == str[i]
    ensures Delimits(str[i], delimiters) ==> Capitalized(str, delimiters)[i] == str[i]
    ensures WordStart(str, i, delimiters) && (IsLower(str[i]) || IsTitle(str[i])) ==>
      IsUpper(Capitalized(str, delimiters)[i])
  {
  }

  /** What uncapitalizing promises, in the same terms. */
  lemma UncapitalizedShape(str: string, delimiters: Delimiters, i: int)
    requires 0 <= i < |str| && !Untouched(str, delimiters)
    ensures |Uncapitalized(str, delimiters)| == |str|
    ensures !WordStart(str, i, delimiters) ==> Uncapitalized(str, delimiters)[i] == str[i]
    ensures WordStart(str, i, delimiters) && (IsUpper(str[i]) || IsTitle(str[i])) ==>
      IsLower(Uncapitalized(str, delimiters)[i])
  {
  }

  /** The loop body on one character c: a delimiter sets the flag; a character after a delimiter is upper-cased and clears it. */
  method CapitalizeRune(c: char, delimiters: Delimiters, capitalizeNext: bool) returns (out: char, next: bool)
    ensures next <==> Delimits(c, delimiters)
    ensures out == if !Delimits(c, delimiters) && capitalizeNext then ToUpper(c) else c
  {
    out, next := c, capitalizeNext;
    var d := IsDelimiter(c, delimiters);
    if d {
      next := true;
    } else if capitalizeNext {
      out := ToUpper(c);
      next := false;
    }
  }

  /** One step of the pass: with the flag telling whether the previous position ended a word, position i keeps or maps its character. */
  lemma CapitalizeStep(str: string, delimiters: Delimiters, i: int, next: bool)
    requires 0 <= i < |str| && !Untouched(str, delimiters)
    requires next <==> i == 0 || Delimits(str[i - 1], delimiters)
    ensures Capitalized(str, delimiters)[i] == if !Delimits(str[i], delimiters) && next then ToUpper(str[i]) else str[i]
  {
  }

  /** CapitalizeDelimited: a pass over a copy of the string, upper-casing the character after each delimiter run. */
  method CapitalizeDelimited(str: string, delimiters: Delimiters) returns (r: string)
    ensures r == Capitalized(str, delimiters)
  {
    if str == "" || (delimiters.Some? && |delimiters.value| == 0) {
      return str;
    }
    var buff := new char[|str|](k requires 0 <= k < |str| => str[k]);
    var capitalizeNext := true;
    ghost var target := Capitalized(str, delimiters);
    for i := 0 to buff.Length
      invariant capitalizeNext <==> i == 0 || Delimits(str[i - 1], delimiters)
      invariant buff[..] == target[..i] + str[i..]
    {
      CapitalizeStep(str, delimiters, i, capitalizeNext);
      buff[i], capitalizeNext := CapitalizeRune(buff[i], delimiters, capitalizeNext);
    }
    r := buff[..];
  }

  /** The loop body on one character c: a delimiter sets the flag; a character after a delimiter is lower-cased and clears it. */
  method UncapitalizeRune(c: char, delimiters: Delimiters, uncapitalizeNext: bool) returns (out: char, next: bool)
    ensures next <==> Delimits(c, delimiters)
    ensures out == if !Delimits(c, delimiters) && uncapitalizeNext then ToLower(c) else c
  {
    out, next := c, uncapitalizeNext;
    var d := IsDelimiter(c, delimiters);
    if d {
      next := true;
    } else if uncapitalizeNext {
      out := ToLower(c);
      next := false;
    }
  }

  /** One step of the pass: with the flag telling whether the previous position ended a word, position i keeps or maps its character. */
  lemma UncapitalizeStep(str: string, delimiters: Delimiters, i: int, next: bool)
    requires 0 <= i < |str| && !Untouched(str, delimiters)
    requires next <==> i == 0 || Delimits(str[i - 1], delimiters)
    ensures Uncapitalized(str, delimiters)[i] == if !Delimits(str[i], delimiters) && next then ToLower(str[i]) else str[i]
  {
  }

  /** UncapitalizeDelimited: the same pass, lower-casing the character after each delimiter run. */
  method UncapitalizeDelimited(str: string, delimiters: Delimiters) returns (r: string)
    ensures r == Uncapitalized(str, delimiters)
  {
    if str == "" || (delimiters.Some? && |delimiters.value| == 0) {
      return str;
    }
    var buff := new char[|str|](k requires 0 <= k < |str| => str[k]);
    var uncapitalizeNext := true;
    ghost var target := Uncapitalized(str, delimiters);
    for i := 0 to buff.Length
      invariant uncapitalizeNext <==> i == 0 || Delimits(str[i - 1], delimiters)
      invariant buff[..] == target[..i] + str[i..]
    {
      UncapitalizeStep(str, delimiters, i, uncapitalizeNext);
      buff[i], uncapitalizeNext := UncapitalizeRune(buff[i], delimiters, uncapitalizeNext);
    }
    r := buff[..];
  }

  /** Capitalize: CapitalizeDelimited with a nil delimiter list. */
  method Capitalize(str: string) returns (r: string)
    ensures r == Capitalized(str, None)
  {
    r := CapitalizeDelimited(str, None);
  }

  /** Uncapitalize: UncapitalizeDelimited with a nil delimiter list. */
  method Uncapitalize(str: string) returns (r: string)
    ensures r == Uncapitalized(str, None)
  {
    r := UncapitalizeDelimited(str, None);
  }

  /** The case mappings keep white space and non-space apart, so words stay where they were. */
  lemma CaseKeepsSpace(c: char)
    ensures IsSpace(ToUpper(c)) == IsSpace(c) && IsSpace(ToLower(c)) == IsSpace(c)
  {
    if IsSpace(c) {
      SpaceIsCaseless(c);
    }
  }

  /**
   * With white space as the delimiter, uncapitalizing a capitalized string
   * is uncapitalizing the original, and capitalizing twice is capitalizing
   * once.
   */
  lemma CapitalizeRoundTrip(str: string)
    ensures Uncapitalized(Capitalized(str, None), None) == Uncapitalized(str, None)
    ensures Capitalized(Capitalized(str, None), None) == Capitalized(str, None)
  {
    if str != "" {
      var cap := Capitalized(str, None);
      forall i | 0 <= i < |str|
        ensures IsSpace(cap[i]) == IsSpace(str[i])
      {
        CaseKeepsSpace(str[i]);
      }
      forall i | 0 <= i < |str|
        ensures WordStart(cap, i, None) == WordStart(str, i, None)
      {
      }
    }
  }

  lemma CapitalizeExamples()
    ensures Capitalized("i am FINE", None) == "I Am FINE"
    ensures Capitalized("i aM.fine", Some(["."])) == "I aM.Fine"
    ensures Capitalized("", Some([""])) == ""
  {
  }

  // --- Initials

  /** The characters that start a word among the first n positions, in order. */
  function InitialsUpTo(s: string, n: int, delimiters: Delimiters): string
    requires 0 <= n <= |s|
  {
    if n == 0 then ""
    else InitialsUpTo(s, n - 1, delimiters) + if WordStart(s, n - 1, delimiters) then [s[n - 1]] else ""
  }

  /** Two initials are at least two positions apart, so n positions hold at most (n + 1) / 2 of them. */
  lemma {:induction false} InitialsLength(s: string, n: int, delimiters: Delimiters)
    requires 0 <= n <= |s|
    ensures 2 * |InitialsUpTo(s, n, delimiters)| <= n + if n == 0 || Delimits(s[n - 1], delimiters) then 0 else 1
  {
    if n > 0 {
      InitialsLength(s, n - 1, delimiters);
    }
  }

  /** The initials fit the buffer of |str| / 2 + 1 characters that InitialsDelimited allocates. */
  lemma InitialsFit(s: string, delimiters: Delimiters)
    ensures |InitialsUpTo(s, |s|, delimiters)| <= |s| / 2 + 1
  {
    InitialsLength(s, |s|, delimiters);
  }

  /** Every initial is the character at some word start, and the first word start gives the first initial. */
  lemma {:induction false} InitialsAreWordStarts(s: string, n: int, delimiters: Delimiters, k: int)
    requires 0 <= n <= |s| && 0 <= k < |InitialsUpTo(s, n, delimiters)|
    ensures exists i :: 0 <= i < n && WordStart(s, i, delimiters) && InitialsUpTo(s, n, delimiters)[k] == s[i]
  {
    var prev := InitialsUpTo(s, n - 1, delimiters);
    if k < |prev| {
      InitialsAreWordStarts(s, n - 1, delimiters, k);
    } else {
      assert WordStart(s, n - 1, delimiters);
    }
  }

  /**
   * InitialsDelimited: a pass that copies the character after each
   * delimiter run into a buffer of |str| / 2 + 1 characters, and returns the
   * part of the buffer it filled.
   */
  method InitialsDelimited(str: string, delimiters: Delimiters) returns (r: string)
    ensures Untouched(str, delimiters) ==> r == str
    ensures !Untouched(str, delimiters) ==> r == InitialsUpTo(str, |str|, delimiters)
  {
    if str == "" || (delimiters.Some? && |delimiters.value| == 0) {
      return str;
    }
    var strLen := |str|;
    var buff := new char[strLen / 2 + 1];
    var count := 0;
    var lastWasGap := true;
    for i := 0 to |str|
      invariant 0 <= count <= buff.Length
      invariant 2 * count <= i + if lastWasGap then 0 else 1
      invariant lastWasGap <==> i == 0 || Delimits(str[i - 1], delimiters)
      invariant buff[..count] == InitialsUpTo(str, i, delimiters)
    {
      var ch := str[i];
      var d := IsDelimiter(ch, delimiters);
      if d {
        lastWasGap := true;
      } else if lastWasGap {
        buff[count] := ch;
        count := count + 1;
        lastWasGap := false;
      }
    }
    r := buff[..count];
  }

  /** Initials: InitialsDelimited with a nil delimiter list. */
  method Initials(str: string) returns (r: string)
    ensures str == "" ==> r == ""
    ensures str != "" ==> r == InitialsUpTo(str, |str|, None)
  {
    r := InitialsDelimited(str, None);
  }

  lemma InitialsExample()
    ensures InitialsUpTo("Ben Lee", 7, None) == "BL"
    ensures InitialsUpTo("a.b", 3, Some(["."])) == "ab"
  {
  }

  // --- Swapping case

  /**
   * The character SwapCase puts at position i: upper and title case become
   * lower case; lower case becomes title case at the start or right after
   * white space, upper case elsewhere; anything else is kept.
   */
  function SwappedAt(s: string, i: int): char
    requires 0 <= i < |s|
  {
    var c := s[i];
    if IsUpper(c) || IsTitle(c) then ToLower(c)
    else if IsLower(c) then (if i == 0 || IsSpace(s[i - 1]) then ToTitle(c) else ToUpper(c))
    else c
  }

  function Swapped(s: string): (r: string)
    ensures |r| == |s|
  {
    seq(|s|, i requires 0 <= i < |s| => SwappedAt(s, i))
  }

  /**
   * SwapCase: a pass over a copy of the string with a flag that is set at
   * the start and by white space and cleared by letters; a lower case letter
   * seen while the flag is set becomes title case.
   */
  method SwapCase(str: string) returns (r: string)
    ensures r == Swapped(str)
  {
    if str == "" {
      return str;
    }
    var buff := new char[|str|](k requires 0 <= k < |str| => str[k]);
    var whitespace := true;
    for i := 0 to buff.Length
      invariant whitespace <==> i == 0 || IsSpace(str[i - 1])
      invariant forall k :: 0 <= k < i ==> buff[k] == SwappedAt(str, k)
      invariant forall k :: i <= k < buff.Length ==> buff[k] == str[k]
    {
      var ch := buff[i];
      if IsSpace(ch) {
        SpaceIsCaseless(ch);
      }
      if IsUpper(ch) || IsTitle(ch) {
        buff[i] := ToLower(ch);
        whitespace := false;
      } else if IsLower(ch) {
        if whitespace {
          buff[i] := ToTitle(ch);
          whitespace := false;
        } else {
          buff[i] := ToUpper(ch);
        }
      } else {
        whitespace := IsSpace(ch);
      }
      assert buff[i] == SwappedAt(str, i);
    }
    r := buff[..];
  }

  /** A letter without a separate title case form: ToTitle and ToUpper agree on it. */
  predicate PlainCase(c: char) {
    c != UpperDz && c != TitleDz && c != LowerDz
  }

  /** Swapping keeps white space where it was, and keeps a plain letter plain. */
  lemma SwappedKeepsSpace(s: string, i: int)
    requires 0 <= i < |s|
    ensures IsSpace(SwappedAt(s, i)) == IsSpace(s[i])
    ensures PlainCase(s[i]) ==> PlainCase(SwappedAt(s, i))
  {
    CaseKeepsSpace(s[i]);
    if IsSpace(s[i]) {
      SpaceIsCaseless(s[i]);
    }
  }

  /**
   * On strings of letters whose title case is their upper case, SwapCase
   * undoes itself: the word starts it title-cases it later lower-cases
   * again, and the other letters swap back.
   */
  lemma SwapCaseInvolution(s: string)
    requires forall k :: 0 <= k < |s| ==> PlainCase(s[k])
    ensures Swapped(Swapped(s)) == s
  {
    var t := Swapped(s);
    forall i | 0 <= i < |s|
      ensures SwappedAt(t, i) == s[i]
    {
      SwappedKeepsSpace(s, i);
      if i > 0 {
        SwappedKeepsSpace(s, i - 1);
      }
    }
  }

  /** A title case letter is where the involution ends: with a separate title form the swap does not return. */
  lemma SwapCaseTitleForm()
    ensures Swapped(Swapped([UpperDz])) == [TitleDz]
  {
  }

  lemma SwapCaseExample()
    ensures Swapped("aB c") == "Ab C"
  {
  }
}
