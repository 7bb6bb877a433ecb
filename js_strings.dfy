/** The three JavaScript string operations the widget's filter uses:
    `String.prototype.trim`, `toLowerCase` and `indexOf`, on `string` = seq<char>. */
module JsStrings {

  /** The code points `trim` removes: ECMAScript's WhiteSpace (tab, vertical tab,
      form feed, space, no-break space, byte order mark and the Unicode space
      separators) and LineTerminator (line feed, carriage return, U+2028, U+2029). */
  predicate IsTrimmable(c: char) {
    || c == '\t' || c == '\n' || c == '\U{000B}' || c == '\U{000C}' || c == '\r'
    || c == ' ' || c == '\U{00A0}' || c == '\U{1680}' || ('\U{2000}' <= c <= '\U{200A}')
    || c == '\U{2028}' || c == '\U{2029}' || c == '\U{202F}' || c == '\U{205F}'
    || c == '\U{3000}' || c == '\U{FEFF}'
  }

  /** A string made only of trimmable characters. */
  predicate IsBlank(s: string) {
    forall i :: 0 <= i < |s| ==> IsTrimmable(s[i])
  }

  /** Drops the leading trimmable characters: what is left is a suffix of `s`
      that does not start with one, and everything dropped was trimmable. */
  function TrimStart(s: string): (r: string)
    ensures |r| <= |s| && r == s[|s| - |r|..]
    ensures r != [] ==> !IsTrimmable(r[0])
    ensures forall i :: 0 <= i < |s| - |r| ==> IsTrimmable(s[i])
  {
    if s != [] && IsTrimmable(s[0]) then TrimStart(s[1..]) else s
  }

  /** Drops the trailing trimmable characters: what is left is a prefix of `s`
      that does not end with one, and everything dropped was trimmable. */
  function TrimEnd(s: string): (r: string)
    ensures |r| <= |s| && r == s[..|r|]
    ensures r != [] ==> !IsTrimmable(r[|r| - 1])
    ensures forall i :: |r| <= i < |s| ==> IsTrimmable(s[i])
  {
    if s != [] && IsTrimmable(s[|s| - 1]) then TrimEnd(s[..|s| - 1]) else s
  }

  /** `s.trim()`: `s` without its leading and trailing trimmable characters.
      It is empty exactly when `s` is blank, and otherwise starts and ends
      with a character `trim` keeps. */
  function Trim(s: string): (r: string)
    ensures r == "" <==> IsBlank(s)
    ensures r != "" ==> !IsTrimmable(r[0]) && !IsTrimmable(r[|r| - 1])
  {
    var t := TrimStart(s);
    var r := TrimEnd(t);
    assert r != "" ==> r[0] == t[0];
    r
  }

  predicate IsUpperAscii(c: char) {
    'A' <= c <= 'Z'
  }

  /** `toLowerCase` on one character, restricted to the ASCII letters. */
  function LowerChar(c: char): (r: char)
    ensures !IsUpperAscii(r)
    ensures IsUpperAscii(c) ==> r as int == c as int + 32
    ensures !IsUpperAscii(c) ==> r == c
  {
    if IsUpperAscii(c) then (c as int + 32) as char else c
  }

  /** `s.toLowerCase()`: the character-wise lowering, which leaves no upper-case
      ASCII letter behind. */
  function ToLower(s: string): (r: string)
    ensures |r| == |s|
    ensures forall i :: 0 <= i < |s| ==> r[i] == LowerChar(s[i])
    ensures forall i :: 0 <= i < |r| ==> !IsUpperAscii(r[i])
  {
    if s == [] then [] else [LowerChar(s[0])] + ToLower(s[1..])
  }

  /** `needle` occurs in `hay` starting at offset `k`. */
  predicate OccursAt(hay: string, needle: string, k: int) {
    0 <= k && k + |needle| <= |hay| && hay[k..k + |needle|] == needle
  }

  /** `needle` occurs somewhere in `hay`. */
  ghost predicate Contains(hay: string, needle: string) {
    exists k :: OccursAt(hay, needle, k)
  }

  /** `hay.indexOf(needle, from)`: the first offset at or after `from` where
      `needle` occurs, or -1 when there is none. */
  function IndexOfFrom(hay: string, needle: string, from: nat): (r: int)
    ensures r == -1 || (from <= r && OccursAt(hay, needle, r))
    ensures r == -1 ==> forall k :: from <= k ==> !OccursAt(hay, needle, k)
    ensures r != -1 ==> forall k :: from <= k < r ==> !OccursAt(hay, needle, k)
    decreases |hay| - from
  {
    if from + |needle| > |hay| then -1
    else if hay[from..from + |needle|] == needle then from
    else IndexOfFrom(hay, needle, from + 1)
  }

  /** `hay.indexOf(needle)`: greater than -1 exactly when `needle` occurs in
      `hay`, and then the first such offset. */
  function IndexOf(hay: string, needle: string): (r: int)
    ensures r > -1 <==> Contains(hay, needle)
    ensures r > -1 ==> OccursAt(hay, needle, r) && forall k :: 0 <= k < r ==> !OccursAt(hay, needle, k)
  {
    IndexOfFrom(hay, needle, 0)
  }

  /** A needle holding an upper-case ASCII letter never occurs in a lowered string. */
  lemma UpperCaseNotInLowered(s: string, needle: string, j: nat)
    requires j < |needle| && IsUpperAscii(needle[j])
    ensures !Contains(ToLower(s), needle)
  {
  }
}
