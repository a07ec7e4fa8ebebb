/**
  The Python string operations the handlers rely on: `str.strip()`,
  `str.lower()` and `str.rsplit(sep, 1)`, on strings as sequences of
  characters.
*/
module Text {

  /** The characters Python's `str.isspace()` accepts, which are the ones
      `str.strip()` with no argument removes. */
  predicate IsSpace(c: char) {
    || ('\U{0009}' <= c <= '\U{000D}')   // tab, line feed, vertical tab, form feed, carriage return
    || ('\U{001C}' <= c <= '\U{001F}')   // file, group, record and unit separators
    || c == ' '
    || c == '\U{0085}' || c == '\U{00A0}' || c == '\U{1680}'
    || ('\U{2000}' <= c <= '\U{200A}')
    || c == '\U{2028}' || c == '\U{2029}' || c == '\U{202F}'
    || c == '\U{205F}' || c == '\U{3000}'
  }

  predicate IsBlank(s: string) {
    forall k :: 0 <= k < |s| ==> IsSpace(s[k])
  }

  /** `s.lstrip()`: the suffix left once the leading whitespace is gone. */
  function TrimStart(s: string): (r: string)
    ensures |r| <= |s| && r == s[|s| - |r|..]
    ensures forall k :: 0 <= k < |s| - |r| ==> IsSpace(s[k])
    ensures r != [] ==> !IsSpace(r[0])
  {
    if s != [] && IsSpace(s[0]) then
      TrimStart(s[1..])
    else s
  }

  /** `s.rstrip()`: the prefix left once the trailing whitespace is gone. */
  function TrimEnd(s: string): (r: string)
    ensures |r| <= |s| && r == s[..|r|]
    ensures forall k :: |r| <= k < |s| ==> IsSpace(s[k])
    ensures r != [] ==> !IsSpace(r[|r| - 1])
  {
    if s != [] && IsSpace(s[|s| - 1]) then
      TrimEnd(s[..|s| - 1])
    else s
  }

  /** `s.strip()`. */
  function Strip(s: string): string {
    TrimEnd(TrimStart(s))
  }

  /** Stripping leaves nothing exactly when the text is whitespace only
      (the empty text included). */
  lemma StripEmptyIffBlank(s: string)
    ensures Strip(s) == [] <==> IsBlank(s)
  {
  }

  /** `c.lower()` on the ASCII range: 'A'..'Z' become 'a'..'z', every other
      character is kept. */
  function LowerChar(c: char): char {
    if 'A' <= c <= 'Z' then (c as int + 32) as char else c
  }

  /** `s.lower()`, character by character. */
  function Lower(s: string): (r: string)
    ensures |r| == |s|
    ensures forall k :: 0 <= k < |s| ==> r[k] == LowerChar(s[k])
  {
    if s == [] then [] else [LowerChar(s[0])] + Lower(s[1..])
  }

  /** `s.rsplit(sep, 1)`: the whole text when `sep` does not occur, otherwise
      the text before and the text after the LAST occurrence of `sep`. */
  function RSplitOnce(s: string, sep: char): (parts: seq<string>)
    ensures sep !in s ==> parts == [s]
    ensures sep in s ==> |parts| == 2 && s == parts[0] + [sep] + parts[1] && sep !in parts[1]
    decreases |s|
  {
    if s == [] then [s]
    else if s[|s| - 1] == sep then [s[..|s| - 1], []]
    else
      var init := s[..|s| - 1];
      var last := s[|s| - 1];
      assert s == init + [last];
      var head := RSplitOnce(init, sep);
      if |head| == 1 then [s] else [head[0], head[1] + [last]]
  }

  /** The split point is unique: if the text after some `sep` holds no
      further `sep`, then `rsplit` cuts exactly there. */
  lemma RSplitOnceAt(before: string, sep: char, after: string)
    requires sep !in after
    ensures RSplitOnce(before + [sep] + after, sep) == [before, after]
  {
    var s := before + [sep] + after;
    var parts := RSplitOnce(s, sep);
    var a, b := parts[0], parts[1];
    assert s == a + [sep] + b;
    assert s[|before|] == sep && s[|a|] == sep;
    if |a| < |before| {
      assert false;
    } else if |before| < |a| {
      assert false;
    }
    assert a == s[..|a|] == before;
    assert b == s[|a| + 1..] == after;
  }
}
