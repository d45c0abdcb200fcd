/**
 * The few JavaScript string operations the backend relies on: the `\s`
 * character class (which is also what `String.prototype.trim` strips),
 * `trim`, `toLowerCase` and substring search.
 */
module JsText {
  import opened Wrappers

  /** ECMAScript WhiteSpace and LineTerminator code points. */
  predicate IsWhitespace(c: char) {
    || c == ' ' || c == '\t' || c == '\n' || c == '\r'
    || c == '\U{000B}' || c == '\U{000C}' || c == '\U{00A0}' || c == '\U{1680}'
    || ('\U{2000}' <= c <= '\U{200A}')
    || c == '\U{2028}' || c == '\U{2029}' || c == '\U{202F}' || c == '\U{205F}'
    || c == '\U{3000}' || c == '\U{FEFF}'
  }

  /** The UTF-16 code units a character takes: two for a code point above U+FFFF. */
  function Utf16Units(c: char): nat {
    if c as int > 0xFFFF then 2 else 1
  }

  /** `length` of a JavaScript string: UTF-16 code units, not code points. */
  function Utf16Length(s: string): (n: nat)
    ensures |s| <= n <= 2 * |s|
  {
    if s == [] then 0 else Utf16Units(s[0]) + Utf16Length(s[1..])
  }

  /** A suffix is never longer, in code units, than a longer suffix of the same string. */
  lemma {:induction false} Utf16LengthOfSuffix(s: string, i: nat, j: nat)
    requires i <= j <= |s|
    ensures Utf16Length(s[j..]) <= Utf16Length(s[i..])
    decreases j - i
  {
    if i < j {
      assert s[i..][1..] == s[i + 1..];
      Utf16LengthOfSuffix(s, i + 1, j);
    }
  }

  /**
   * At least two UTF-16 code units, read off the first two characters as a
   * matcher counting `{2,}` does; AtLeastTwoUnitsIff ties it to Utf16Length.
   */
  predicate AtLeastTwoUnits(s: string) {
    |s| >= 2 || (|s| == 1 && Utf16Units(s[0]) == 2)
  }

  lemma AtLeastTwoUnitsIff(s: string)
    ensures AtLeastTwoUnits(s) <==> Utf16Length(s) >= 2
  {
    if |s| == 1 {
      assert s[1..] == [];
    }
  }

  predicate NoWhitespace(s: string) {
    forall i :: 0 <= i < |s| ==> !IsWhitespace(s[i])
  }

  /** Drops leading whitespace: the result is the longest suffix that does not start with whitespace. */
  function TrimStart(s: string): (r: string)
    ensures |r| <= |s| && r == s[|s| - |r|..]
    ensures forall i :: 0 <= i < |s| - |r| ==> IsWhitespace(s[i])
    ensures r != [] ==> !IsWhitespace(r[0])
  {
    if s != [] && IsWhitespace(s[0]) then TrimStart(s[1..]) else s
  }

  /** Drops trailing whitespace: the result is the longest prefix that does not end with whitespace. */
  function TrimEnd(s: string): (r: string)
    ensures |r| <= |s| && r == s[..|r|]
    ensures forall i :: |r| <= i < |s| ==> IsWhitespace(s[i])
    ensures r != [] ==> !IsWhitespace(r[|r| - 1])
  {
    if s != [] && IsWhitespace(s[|s| - 1]) then TrimEnd(s[..|s| - 1]) else s
  }

  /** `String.prototype.trim`. */
  function Trim(s: string): string {
    TrimEnd(TrimStart(s))
  }

  /** A string is trimmed when it neither starts nor ends with whitespace. */
  predicate IsTrimmed(s: string) {
    s != [] ==> !IsWhitespace(s[0]) && !IsWhitespace(s[|s| - 1])
  }

  /** The result of `trim` neither starts nor ends with whitespace. */
  lemma TrimIsTrimmed(s: string)
    ensures IsTrimmed(Trim(s))
  {
    var t := TrimStart(s);
    var r := TrimEnd(t);
    if r != [] {
      assert r[0] == t[0];
    }
  }

  /** Trimming a trimmed string changes nothing. */
  lemma TrimOfTrimmed(s: string)
    requires IsTrimmed(s)
    ensures Trim(s) == s
  {
  }

  /** `trim` is idempotent. */
  lemma TrimIdempotent(s: string)
    ensures Trim(Trim(s)) == Trim(s)
  {
    TrimIsTrimmed(s);
    TrimOfTrimmed(Trim(s));
  }

  /** `toLowerCase` on the ASCII range; other characters are left as they are. */
  function LowerChar(c: char): char {
    if 'A' <= c <= 'Z' then (c as int - 'A' as int + 'a' as int) as char else c
  }

  /** `toLowerCase`, character by character; what it promises is stated by LowerIsLower and LowerOfLower. */
  function Lower(s: string): (r: string)
    ensures |r| == |s|
  {
    seq(|s|, i requires 0 <= i < |s| => LowerChar(s[i]))
  }

  /**
   * Lower-casing leaves no upper-case letter and keeps every character
   * that is not an upper-case letter.
   */
  lemma LowerIsLower(s: string)
    ensures IsLower(Lower(s))
    ensures forall i :: 0 <= i < |s| && !('A' <= s[i] <= 'Z') ==> Lower(s)[i] == s[i]
  {
  }

  /** Lower-casing a string without upper-case letters leaves it as it is. */
  lemma LowerOfLower(s: string)
    requires IsLower(s)
    ensures Lower(s) == s
  {
  }

  predicate IsLower(s: string) {
    forall i :: 0 <= i < |s| ==> !('A' <= s[i] <= 'Z')
  }

  /** Lower-casing never turns a character into whitespace or out of it. */
  lemma LowerCharKeepsWhitespace(c: char)
    ensures IsWhitespace(LowerChar(c)) <==> IsWhitespace(c)
  {
  }

  lemma {:induction false} TrimStartLower(s: string)
    ensures TrimStart(Lower(s)) == Lower(TrimStart(s))
  {
    if s != [] {
      LowerCharKeepsWhitespace(s[0]);
      if IsWhitespace(s[0]) {
        assert Lower(s)[1..] == Lower(s[1..]);
        TrimStartLower(s[1..]);
      }
    }
  }

  lemma {:induction false} TrimEndLower(s: string)
    ensures TrimEnd(Lower(s)) == Lower(TrimEnd(s))
  {
    if s != [] {
      LowerCharKeepsWhitespace(s[|s| - 1]);
      if IsWhitespace(s[|s| - 1]) {
        assert Lower(s)[..|s| - 1] == Lower(s[..|s| - 1]);
        TrimEndLower(s[..|s| - 1]);
      }
    }
  }

  /**
   * The `lowercase` and `trim` setters of a schema path commute, so the
   * order in which they run does not matter.
   */
  lemma LowerTrimCommute(s: string)
    ensures Lower(Trim(s)) == Trim(Lower(s))
  {
    TrimStartLower(s);
    TrimEndLower(TrimStart(s));
  }

  /** Index of the first occurrence of `c`, or None. */
  function IndexOf(s: string, c: char): (r: Option<nat>)
    ensures r.Some? ==> r.value < |s| && s[r.value] == c && forall i :: 0 <= i < r.value ==> s[i] != c
    ensures r.None? ==> forall i :: 0 <= i < |s| ==> s[i] != c
  {
    if s == [] then None
    else if s[0] == c then Some(0)
    else match IndexOf(s[1..], c)
      case None => None
      case Some(k) => Some(k + 1)
  }

  /** A position holding `c` with no `c` before it is what IndexOf finds. */
  lemma IndexOfFirst(s: string, c: char, k: nat)
    requires k < |s| && s[k] == c && forall i :: 0 <= i < k ==> s[i] != c
    ensures IndexOf(s, c) == Some(k)
  {
  }

  /** `needle` occurs in `hay` at position `i`. */
  predicate OccursAt(hay: string, needle: string, i: nat) {
    i + |needle| <= |hay| && hay[i..i + |needle|] == needle
  }

  /** Substring search, scanning left to right. */
  function Contains(hay: string, needle: string): (b: bool)
    ensures b <==> exists i: nat :: OccursAt(hay, needle, i)
  {
    if needle <= hay then
      assert OccursAt(hay, needle, 0);
      true
    else if hay == [] then
      false
    else
      var rest := Contains(hay[1..], needle);
      if rest then
        var k: nat :| OccursAt(hay[1..], needle, k);
        assert OccursAt(hay, needle, k + 1);
        true
      else
        assert forall i: nat :: OccursAt(hay, needle, i) ==> i > 0 && OccursAt(hay[1..], needle, i - 1);
        false
  }

  /** The case-insensitive match of a search term, as a `$regex` with option "i" does for plain text. */
  predicate ContainsIgnoringCase(hay: string, needle: string) {
    Contains(Lower(hay), Lower(needle))
  }

  /**
   * The `lowercase` and `trim` setters of an email path, as they run on
   * every saved value and on every query filter on that path.
   */
  function LowerTrim(s: string): (r: string)
    ensures IsLower(r) && IsTrimmed(r)
  {
    var l := Lower(s);
    LowerIsLower(s);
    TrimKeepsLower(l);
    TrimIsTrimmed(l);
    Trim(l)
  }

  lemma TrimKeepsLower(s: string)
    requires IsLower(s)
    ensures IsLower(Trim(s))
  {
    var t := TrimStart(s);
    assert IsLower(t) by {
      forall i | 0 <= i < |t| ensures !('A' <= t[i] <= 'Z') {
        assert t[i] == s[|s| - |t| + i];
      }
    }
    var r := TrimEnd(t);
    assert forall i :: 0 <= i < |r| ==> r[i] == t[i];
  }

  /** Normalising an already normalised value changes nothing. */
  lemma LowerTrimIdempotent(s: string)
    ensures LowerTrim(LowerTrim(s)) == LowerTrim(s)
  {
    var r := LowerTrim(s);
    LowerOfLower(r);
    TrimOfTrimmed(r);
  }

  /** A lower-case, trimmed value is its own normalisation. */
  lemma LowerTrimOfNormalised(s: string)
    requires IsLower(s) && IsTrimmed(s)
    ensures LowerTrim(s) == s
  {
    LowerOfLower(s);
    TrimOfTrimmed(s);
  }
}
