/**
 The string operations the job analysis handler borrows from JavaScript's
 String.prototype: `trim` (for the blank-input guard), `toLowerCase` (for
 case-insensitive matching) and `includes` (substring containment).
 */
module Strings {

  /** The characters `trim` strips: WhiteSpace and LineTerminator as listed in
      sections 12.2 and 12.3 of ECMA-262, with the Unicode space separators (Zs)
      written out. */
  const Whitespace: set<char> := {
    '\t', '\n', '\U{000B}', '\U{000C}', '\r', ' ', '\U{00A0}', '\U{1680}',
    '\U{2000}', '\U{2001}', '\U{2002}', '\U{2003}', '\U{2004}', '\U{2005}',
    '\U{2006}', '\U{2007}', '\U{2008}', '\U{2009}', '\U{200A}',
    '\U{2028}', '\U{2029}', '\U{202F}', '\U{205F}', '\U{3000}', '\U{FEFF}'
  }

  predicate IsWhitespace(c: char) {
    c in Whitespace
  }

  /** Every character of `s` is whitespace (the empty string included). */
  predicate AllWhitespace(s: string) {
    forall i :: 0 <= i < |s| ==> IsWhitespace(s[i])
  }

  /** `s` without its leading whitespace: a suffix of `s` that does not start
      with whitespace, all of whose dropped characters are whitespace. */
  function TrimStart(s: string): (r: string)
    ensures |r| <= |s| && r == s[|s| - |r|..]
    ensures r == [] || !IsWhitespace(r[0])
    ensures AllWhitespace(s[..|s| - |r|])
  {
    if s != [] && IsWhitespace(s[0]) then TrimStart(s[1..]) else s
  }

  /** `s` without its trailing whitespace: a prefix of `s` that does not end
      with whitespace, all of whose dropped characters are whitespace. */
  function TrimEnd(s: string): (r: string)
    ensures |r| <= |s| && r == s[..|r|]
    ensures r == [] || !IsWhitespace(r[|r| - 1])
    ensures AllWhitespace(s[|r|..])
  {
    if s != [] && IsWhitespace(s[|s| - 1]) then TrimEnd(s[..|s| - 1]) else s
  }

  /** `r` is the block of `s` starting at index `k`, and everything of `s`
      before and after that block is whitespace. */
  ghost predicate TrimmedAt(s: string, r: string, k: int) {
    0 <= k <= |s| - |r| && r == s[k..k + |r|] &&
    AllWhitespace(s[..k]) && AllWhitespace(s[k + |r|..])
  }

  /** Dropping a whitespace-only prefix of `s` and then a whitespace-only
      suffix of what is left gives a block of `s` that has whitespace only
      before and after it. */
  lemma TrimmedBetween(s: string, t: string, r: string)
    requires |t| <= |s| && t == s[|s| - |t|..] && AllWhitespace(s[..|s| - |t|])
    requires |r| <= |t| && r == t[..|r|] && AllWhitespace(t[|r|..])
    ensures TrimmedAt(s, r, |s| - |t|)
  {
    var k := |s| - |t|;
    assert s[k..k + |r|] == t[..|r|];
    assert s[k + |r|..] == t[|r|..];
  }

  /** Trimming both ends gives the empty string exactly when the input is
      all whitespace. */
  lemma TrimmedEmpty(s: string)
    ensures TrimEnd(TrimStart(s)) == [] <==> AllWhitespace(s)
  {
    var t := TrimStart(s);
    if TrimEnd(t) == [] {
      assert s == s[..|s| - |t|] + t;
      assert t == t[0..];
    }
    if t != [] {
      assert t[0] == s[|s| - |t|];
    }
  }

  /** `trim`: whitespace removed from both ends. The result is the block of
      the input left between a whitespace-only prefix and a whitespace-only
      suffix, it neither starts nor ends with whitespace, and it is empty
      exactly when the whole input is whitespace. */
  function Trim(s: string): (r: string)
    ensures |r| <= |s|
    ensures exists k :: TrimmedAt(s, r, k)
    ensures r == [] || (!IsWhitespace(r[0]) && !IsWhitespace(r[|r| - 1]))
    ensures r == [] <==> AllWhitespace(s)
  {
    var t := TrimStart(s);
    var r := TrimEnd(t);
    assert r == [] || r[0] == t[0];
    TrimmedBetween(s, t, r);
    TrimmedEmpty(s);
    r
  }

  predicate IsUpper(c: char) {
    'A' <= c <= 'Z'
  }

  predicate IsLower(c: char) {
    'a' <= c <= 'z'
  }

  /** `toLowerCase` of one character, over ASCII letters: an upper-case letter
      becomes its lower-case partner, every other character is kept. */
  function ToLower(c: char): (r: char)
    ensures !IsUpper(r)
    ensures IsUpper(c) ==> IsLower(r) && r as int == c as int + 32
    ensures !IsUpper(c) ==> r == c
  {
    if IsUpper(c) then (c as int + 32) as char else c
  }

  /** The inverse direction, used to state case-insensitivity. */
  function ToUpper(c: char): (r: char)
    ensures !IsLower(r)
    ensures IsLower(c) ==> IsUpper(r) && r as int == c as int - 32
    ensures !IsLower(c) ==> r == c
  {
    if IsLower(c) then (c as int - 32) as char else c
  }

  /** No upper-case ASCII letter occurs in `s`. */
  ghost predicate IsLowerCase(s: string) {
    forall i :: 0 <= i < |s| ==> !IsUpper(s[i])
  }

  /** `s.toLowerCase()`: the same length, no upper-case letter left, and
      position by position the lower-case form of the input. */
  function Lower(s: string): (r: string)
    ensures |r| == |s| && IsLowerCase(r)
    ensures forall i :: 0 <= i < |s| ==> r[i] == ToLower(s[i])
  {
    seq(|s|, i requires 0 <= i < |s| => ToLower(s[i]))
  }

  /** `s.toUpperCase()` over ASCII letters. */
  function Upper(s: string): (r: string)
    ensures |r| == |s|
    ensures forall i :: 0 <= i < |s| ==> r[i] == ToUpper(s[i])
  {
    seq(|s|, i requires 0 <= i < |s| => ToUpper(s[i]))
  }

  /** Lower-casing a string that is already lower case changes nothing. */
  lemma LowerOfLowerCase(s: string)
    requires IsLowerCase(s)
    ensures Lower(s) == s
  {
  }

  /** Lower-casing is idempotent. */
  lemma LowerIdempotent(s: string)
    ensures Lower(Lower(s)) == Lower(s)
  {
    LowerOfLowerCase(Lower(s));
  }

  /** `t` is `s` with the case of some ASCII letters changed. */
  ghost predicate SameIgnoringCase(s: string, t: string) {
    |s| == |t| &&
    forall i :: 0 <= i < |s| ==>
      s[i] == t[i] ||
      (IsUpper(s[i]) && IsLower(t[i]) && t[i] as int - s[i] as int == 32) ||
      (IsLower(s[i]) && IsUpper(t[i]) && s[i] as int - t[i] as int == 32)
  }

  /** Two strings that differ only in the case of letters lower-case to the
      same string, and conversely. */
  lemma LowerEqualIffSameIgnoringCase(s: string, t: string)
    ensures Lower(s) == Lower(t) <==> SameIgnoringCase(s, t)
  {
    if Lower(s) == Lower(t) {
      forall i | 0 <= i < |s|
        ensures s[i] == t[i] ||
          (IsUpper(s[i]) && IsLower(t[i]) && t[i] as int - s[i] as int == 32) ||
          (IsLower(s[i]) && IsUpper(t[i]) && s[i] as int - t[i] as int == 32)
      {
        assert Lower(s)[i] == Lower(t)[i];
      }
    }
    if SameIgnoringCase(s, t) {
      forall i | 0 <= i < |s| ensures Lower(s)[i] == Lower(t)[i] {
      }
    }
  }

  /** Upper-casing the input does not change what it lower-cases to. */
  lemma LowerOfUpper(s: string)
    ensures Lower(Upper(s)) == Lower(s)
  {
    LowerEqualIffSameIgnoringCase(Upper(s), s);
  }

  /** `pat` occurs in `text` as a contiguous block starting at index `i`. */
  ghost predicate OccursAt(pat: string, text: string, i: int) {
    0 <= i && i + |pat| <= |text| && text[i..i + |pat|] == pat
  }

  /** `pat` occurs somewhere in `text` as a contiguous block. */
  ghost predicate Occurs(pat: string, text: string) {
    exists i :: OccursAt(pat, text, i)
  }

  /** `text.includes(pat)`: true exactly when `pat` is a contiguous block of
      `text`; the empty pattern is included in every text. */
  function Includes(text: string, pat: string): (b: bool)
    ensures b <==> Occurs(pat, text)
    decreases |text|
  {
    if pat <= text then
      assert OccursAt(pat, text, 0);
      true
    else if text == [] then
      false
    else
      var b := Includes(text[1..], pat);
      assert b ==> Occurs(pat, text) by {
        if b {
          var i :| OccursAt(pat, text[1..], i);
          assert text[i + 1..i + 1 + |pat|] == text[1..][i..i + |pat|];
          assert OccursAt(pat, text, i + 1);
        }
      }
      assert Occurs(pat, text) ==> b by {
        if Occurs(pat, text) {
          var i :| OccursAt(pat, text, i);
          assert !OccursAt(pat, text, 0);
          assert text[1..][i - 1..i - 1 + |pat|] == text[i..i + |pat|];
          assert OccursAt(pat, text[1..], i - 1);
        }
      }
      b
  }
}
