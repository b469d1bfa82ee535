/**
  ASCII approximations of the Python string operations the shopping list
  bot relies on: `str.strip`, `str.lower`, `str.title`, `str.split(sep)`,
  `sep.join(parts)` and the substring test `needle in haystack`.
  Each operation is given by a small recursive definition together with an
  independent characterisation (pointwise, or as a round trip) in its
  contract or in a lemma.
 */
module Text {

  /* ---------------------------------------------------------------------
     Characters
     --------------------------------------------------------------------- */

  /** Python's `str.isspace` restricted to ASCII: tab, line feed, vertical
      tab, form feed, carriage return (9..13), the separator controls
      0x1C..0x1F and the space character (28..32). */
  predicate IsSpace(c: char) {
    9 <= c as int <= 13 || 28 <= c as int <= 32
  }

  predicate IsUpper(c: char) {
    'A' <= c <= 'Z'
  }

  predicate IsLower(c: char) {
    'a' <= c <= 'z'
  }

  /** The ASCII letters, the only "cased" characters of this model. */
  predicate IsLetter(c: char) {
    IsUpper(c) || IsLower(c)
  }

  /** Maps A-Z to a-z and every other character to itself. */
  function ToLower(c: char): (r: char)
    ensures !IsUpper(r)
    ensures IsLetter(r) == IsLetter(c)
    ensures IsSpace(r) == IsSpace(c)
    ensures !IsUpper(c) ==> r == c
  {
    if IsUpper(c) then (c as int + 32) as char else c
  }

  /** Maps a-z to A-Z and every other character to itself. */
  function ToUpper(c: char): (r: char)
    ensures !IsLower(r)
    ensures IsLetter(r) == IsLetter(c)
    ensures IsSpace(r) == IsSpace(c)
    ensures !IsLower(c) ==> r == c
  {
    if IsLower(c) then (c as int - 32) as char else c
  }

  /** Upper- and lower-casing a character agree once both are lower-cased. */
  lemma ToLowerOfToUpper(c: char)
    ensures ToLower(ToUpper(c)) == ToLower(c)
  {
  }

  /** Each case mapping is idempotent on a character. */
  lemma CaseMappingsIdempotent(c: char)
    ensures ToLower(ToLower(c)) == ToLower(c)
    ensures ToUpper(ToUpper(c)) == ToUpper(c)
  {
  }

  /* ---------------------------------------------------------------------
     str.lower
     --------------------------------------------------------------------- */

  /** `s.lower()`: every character lower-cased, position by position. */
  function Lower(s: string): (r: string)
    ensures |r| == |s|
    ensures forall i :: 0 <= i < |s| ==> r[i] == ToLower(s[i])
  {
    if |s| == 0 then "" else [ToLower(s[0])] + Lower(s[1..])
  }

  /** Lower-casing twice is lower-casing once. */
  lemma LowerIdempotent(s: string)
    ensures Lower(Lower(s)) == Lower(s)
  {
  }

  /* ---------------------------------------------------------------------
     str.title
     --------------------------------------------------------------------- */

  /** Title-casing of `s` when the character before `s` was (or was not) a
      letter: each letter is lower-cased when it follows a letter and
      upper-cased otherwise; other characters are kept. */
  function TitleAfter(prevIsLetter: bool, s: string): (r: string)
    ensures |r| == |s|
    ensures |s| > 0 ==> r[0] == (if prevIsLetter then ToLower(s[0]) else ToUpper(s[0]))
    ensures forall i :: 0 < i < |s| ==>
      r[i] == (if IsLetter(s[i - 1]) then ToLower(s[i]) else ToUpper(s[i]))
    decreases |s|
  {
    if |s| == 0 then ""
    else
      var head := if prevIsLetter then ToLower(s[0]) else ToUpper(s[0]);
      var rest := TitleAfter(IsLetter(s[0]), s[1..]);
      [head] + rest
  }

  /** `s.title()` on ASCII: a letter preceded by a letter is lower-cased,
      any other letter is upper-cased, everything else is unchanged. */
  function Title(s: string): (r: string)
    ensures |r| == |s|
    ensures forall i :: 0 <= i < |s| ==>
      r[i] == (if i > 0 && IsLetter(s[i - 1]) then ToLower(s[i]) else ToUpper(s[i]))
  {
    TitleAfter(false, s)
  }

  /** Title-casing an already title-cased string changes nothing. */
  lemma TitleIdempotent(s: string)
    ensures Title(Title(s)) == Title(s)
  {
    var t := Title(s);
    forall i | 0 <= i < |s|
      ensures Title(t)[i] == t[i]
    {
      ToLowerOfToUpper(s[i]);
      if i > 0 {
        assert t[i - 1] == (if i > 1 && IsLetter(s[i - 2]) then ToLower(s[i - 1]) else ToUpper(s[i - 1]));
        assert IsLetter(t[i - 1]) == IsLetter(s[i - 1]);
      }
    }
  }

  /** Title-casing is invisible to a case-insensitive comparison. */
  lemma LowerOfTitle(s: string)
    ensures Lower(Title(s)) == Lower(s)
  {
    forall i | 0 <= i < |s|
      ensures Lower(Title(s))[i] == Lower(s)[i]
    {
      ToLowerOfToUpper(s[i]);
      assert Title(s)[i] == (if i > 0 && IsLetter(s[i - 1]) then ToLower(s[i]) else ToUpper(s[i]));
    }
  }

  /* ---------------------------------------------------------------------
     str.strip
     --------------------------------------------------------------------- */

  /** Number of whitespace characters at the start of `s`. */
  function LeadingSpaces(s: string): (n: nat)
    ensures n <= |s|
    ensures forall k :: 0 <= k < n ==> IsSpace(s[k])
    ensures n < |s| ==> !IsSpace(s[n])
  {
    if |s| > 0 && IsSpace(s[0]) then 1 + LeadingSpaces(s[1..]) else 0
  }

  /** Number of whitespace characters at the end of `s`. */
  function TrailingSpaces(s: string): (n: nat)
    ensures n <= |s|
    ensures forall k :: |s| - n <= k < |s| ==> IsSpace(s[k])
    ensures n < |s| ==> !IsSpace(s[|s| - n - 1])
  {
    if |s| > 0 && IsSpace(s[|s| - 1]) then 1 + TrailingSpaces(s[..|s| - 1]) else 0
  }

  /** A string with no whitespace at either end. */
  predicate IsStripped(s: string) {
    |s| == 0 || (!IsSpace(s[0]) && !IsSpace(s[|s| - 1]))
  }

  /** `s.strip()`: `s` without its leading and trailing whitespace. */
  function Strip(s: string): (r: string)
    ensures |r| <= |s|
    ensures IsStripped(r)
  {
    var lead := LeadingSpaces(s);
    var t := s[lead..];
    var trail := TrailingSpaces(t);
    t[..|t| - trail]
  }

  /** What strip keeps: a slice of `s` starting after the leading
      whitespace, with only whitespace outside it. */
  lemma StripIsTrimmedSlice(s: string)
    ensures LeadingSpaces(s) + |Strip(s)| <= |s|
    ensures Strip(s) == s[LeadingSpaces(s)..LeadingSpaces(s) + |Strip(s)|]
    ensures forall k :: 0 <= k < |s| && !(LeadingSpaces(s) <= k < LeadingSpaces(s) + |Strip(s)|) ==> IsSpace(s[k])
  {
  }

  /** Strip leaves a string alone exactly when it has no outer whitespace. */
  lemma StripFixpoint(s: string)
    ensures Strip(s) == s <==> IsStripped(s)
  {
  }

  /** The converse characterisation: whitespace padding around a stripped
      string is exactly what strip removes. */
  lemma StripPadded(pre: string, x: string, post: string)
    requires forall k :: 0 <= k < |pre| ==> IsSpace(pre[k])
    requires forall k :: 0 <= k < |post| ==> IsSpace(post[k])
    requires IsStripped(x)
    ensures Strip(pre + x + post) == x
  {
    var s := pre + x + post;
    StripIsTrimmedSlice(s);
    if |x| > 0 {
      assert s[|pre|] == x[0];
      assert s[|pre| + |x| - 1] == x[|x| - 1];
      assert s[|pre|..|pre| + |x|] == x;
    }
  }

  /** Stripping twice is stripping once. */
  lemma StripIdempotent(s: string)
    ensures Strip(Strip(s)) == Strip(s)
  {
  }

  /** Title-casing keeps a stripped string stripped, since letters are never
      whitespace and case mapping keeps every other character. */
  lemma TitleKeepsStripped(s: string)
    requires IsStripped(s)
    ensures IsStripped(Title(s))
  {
    if |s| > 0 {
      var t := Title(s);
      assert t[0] == ToUpper(s[0]);
      var last := |s| - 1;
      assert t[last] == (if last > 0 && IsLetter(s[last - 1]) then ToLower(s[last]) else ToUpper(s[last]));
    }
  }

  /* ---------------------------------------------------------------------
     sep.join(parts) and s.split(sep)
     --------------------------------------------------------------------- */

  /** The combined length of all parts. */
  function TotalLength(parts: seq<string>): nat
  {
    if |parts| == 0 then 0 else |parts[0]| + TotalLength(parts[1..])
  }

  /** `sep.join(parts)`: the parts with `sep` between neighbours. */
  function Join(parts: seq<string>, sep: string): string
  {
    if |parts| == 0 then ""
    else if |parts| == 1 then parts[0]
    else parts[0] + sep + Join(parts[1..], sep)
  }

  /** The shape of a join: no parts give the empty string and one part
      gives that part; otherwise the join starts with the first part, ends
      with the last one, and is as long as all parts plus one separator
      between each neighbouring pair. */
  lemma {:induction false} JoinShape(parts: seq<string>, sep: string)
    ensures |parts| == 0 ==> Join(parts, sep) == ""
    ensures |parts| == 1 ==> Join(parts, sep) == parts[0]
    ensures |parts| > 0 ==> |Join(parts, sep)| == TotalLength(parts) + (|parts| - 1) * |sep|
    ensures |parts| > 0 ==> parts[0] <= Join(parts, sep)
    ensures |parts| > 0 ==> |parts[|parts| - 1]| <= |Join(parts, sep)|
    ensures |parts| > 0 ==> Join(parts, sep)[|Join(parts, sep)| - |parts[|parts| - 1]|..] == parts[|parts| - 1]
  {
    if |parts| > 1 {
      var head := parts[0] + sep;
      var tail := Join(parts[1..], sep);
      var last := parts[|parts| - 1];
      JoinShape(parts[1..], sep);
      assert last == parts[1..][|parts[1..]| - 1];
      assert Join(parts, sep) == head + tail;
      assert (head + tail)[|head + tail| - |last|..] == tail[|tail| - |last|..];
    }
  }

  /** Gluing a character onto the first part of a join glues it onto the
      whole join. */
  lemma JoinPrepend(c: char, parts: seq<string>, sep: string)
    requires |parts| >= 1
    ensures Join([[c] + parts[0]] + parts[1..], sep) == [c] + Join(parts, sep)
  {
  }

  /** `s.split(sep)`: the maximal `sep`-free pieces of `s`, in order. There
      is always at least one piece; the empty string gives `[""]`. */
  function Split(s: string, sep: char): (parts: seq<string>)
    ensures |parts| >= 1
    ensures forall k :: 0 <= k < |parts| ==> sep !in parts[k]
  {
    if |s| == 0 then [""]
    else
      var rest := Split(s[1..], sep);
      if s[0] == sep then [""] + rest
      else [[s[0]] + rest[0]] + rest[1..]
  }

  /** Joining the pieces of a split with the separator gives back the
      string. */
  lemma {:induction false} JoinOfSplit(s: string, sep: char)
    ensures Join(Split(s, sep), [sep]) == s
    decreases |s|
  {
    if |s| > 0 {
      var rest := Split(s[1..], sep);
      JoinOfSplit(s[1..], sep);
      if s[0] == sep {
        assert ([""] + rest)[1..] == rest;
      } else {
        JoinPrepend(s[0], rest, [sep]);
      }
      assert s == [s[0]] + s[1..];
    }
  }

  /** A string without the separator splits into itself alone. */
  lemma {:induction false} SplitNoSeparator(x: string, sep: char)
    requires sep !in x
    ensures Split(x, sep) == [x]
  {
    if |x| > 0 {
      SplitNoSeparator(x[1..], sep);
      assert [x[0]] + x[1..] == x;
    }
  }

  /** Splitting at the first separator yields the separator-free prefix as
      the first piece. */
  lemma {:induction false} SplitAtFirst(x: string, sep: char, rest: string)
    requires sep !in x
    ensures Split(x + [sep] + rest, sep) == [x] + Split(rest, sep)
  {
    var s := x + [sep] + rest;
    if |x| == 0 {
      assert s[1..] == rest;
    } else {
      assert s[1..] == x[1..] + [sep] + rest;
      SplitAtFirst(x[1..], sep, rest);
      assert [x[0]] + x[1..] == x;
    }
  }

  /** The other round trip: splitting a join of separator-free parts gives
      the parts back. */
  lemma {:induction false} SplitOfJoin(parts: seq<string>, sep: char)
    requires |parts| >= 1
    requires forall k :: 0 <= k < |parts| ==> sep !in parts[k]
    ensures Split(Join(parts, [sep]), sep) == parts
  {
    if |parts| == 1 {
      SplitNoSeparator(parts[0], sep);
    } else {
      SplitOfJoin(parts[1..], sep);
      SplitAtFirst(parts[0], sep, Join(parts[1..], [sep]));
      assert [parts[0]] + parts[1..] == parts;
    }
  }

  /* ---------------------------------------------------------------------
     needle in haystack
     --------------------------------------------------------------------- */

  /** `needle` occurs in `haystack` starting at index `i`. */
  predicate OccursAt(needle: string, haystack: string, i: nat) {
    i + |needle| <= |haystack| && haystack[i..i + |needle|] == needle
  }

  /** Moving past a non-matching first position keeps every occurrence,
      shifted by one. */
  lemma OccursAfterFirst(needle: string, haystack: string)
    requires |needle| <= |haystack|
    requires haystack[..|needle|] != needle
    ensures (exists i: nat :: OccursAt(needle, haystack, i))
        <==> (exists i: nat :: OccursAt(needle, haystack[1..], i))
  {
    forall i: nat | OccursAt(needle, haystack, i)
      ensures i > 0 && OccursAt(needle, haystack[1..], i - 1)
    {
      assert haystack[..|needle|] == haystack[0..|needle|];
      assert i != 0;
      var j := i - 1;
      var tail := haystack[1..];
      var shifted, here := tail[j..j + |needle|], haystack[i..i + |needle|];
      assert forall k :: 0 <= k < |here| ==> shifted[k] == here[k];
      assert here == shifted;
    }
    forall i: nat | OccursAt(needle, haystack[1..], i)
      ensures OccursAt(needle, haystack, i + 1)
    {
      assert haystack[1..][i..i + |needle|] == haystack[i + 1..i + 1 + |needle|];
    }
  }

  /** Python's `needle in haystack` on strings: a substring test. */
  function Contains(haystack: string, needle: string): (r: bool)
    ensures r <==> exists i: nat :: OccursAt(needle, haystack, i)
    decreases |haystack|
  {
    if |haystack| < |needle| then false
    else if haystack[..|needle|] == needle then
      assert OccursAt(needle, haystack, 0);
      true
    else
      OccursAfterFirst(needle, haystack);
      Contains(haystack[1..], needle)
  }
}
