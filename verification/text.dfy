/** The three string operations the comment board borrows from JavaScript's
    String.prototype: `trim`, `toLowerCase` and `includes`, written over
    `seq<char>`.

    - `Trim` is exact: it strips the characters ECMAScript classifies as
      WhiteSpace or LineTerminator from both ends.
    - `ToLower` is an approximation: it folds ASCII and basic Cyrillic capital
      letters only, one character to one character.
    - `Contains` is substring containment, with every string containing the
      empty string.
 */
module Text {

  /* ---------------------------------------------------------------------- */
  /* Whitespace and trimming                                                */
  /* ---------------------------------------------------------------------- */

  /** ECMAScript WhiteSpace (TAB, VT, FF, SP, NBSP, ZWNBSP and the Unicode
      space separators) together with LineTerminator (LF, CR, LS, PS). */
  predicate IsWhitespace(c: char) {
    || c == '\t' || c == '\n' || c == '\U{000B}' || c == '\U{000C}' || c == '\r'
    || c == ' ' || c == '\U{00A0}' || c == '\U{1680}'
    || ('\U{2000}' <= c <= '\U{200A}')
    || c == '\U{2028}' || c == '\U{2029}' || c == '\U{202F}' || c == '\U{205F}'
    || c == '\U{3000}' || c == '\U{FEFF}'
  }

  /** Every character of `s` is whitespace (so `s` is blank, possibly empty). */
  ghost predicate AllSpace(s: string) {
    forall k :: 0 <= k < |s| ==> IsWhitespace(s[k])
  }

  /** `s` neither starts nor ends with whitespace. */
  ghost predicate IsTrimmed(s: string) {
    s == [] || (!IsWhitespace(s[0]) && !IsWhitespace(s[|s| - 1]))
  }

  /** The number of whitespace characters at the front of `s`. */
  function LeadingSpace(s: string): (n: nat)
    ensures n <= |s|
    ensures AllSpace(s[..n])
    ensures n < |s| ==> !IsWhitespace(s[n])
  {
    if s != [] && IsWhitespace(s[0]) then
      var m := LeadingSpace(s[1..]);
      assert s[..1 + m] == [s[0]] + s[1..][..m];
      1 + m
    else
      0
  }

  /** The number of whitespace characters at the end of `s`. */
  function TrailingSpace(s: string): (n: nat)
    ensures n <= |s|
    ensures AllSpace(s[|s| - n..])
    ensures n < |s| ==> !IsWhitespace(s[|s| - 1 - n])
  {
    if s != [] && IsWhitespace(s[|s| - 1]) then
      var init := s[..|s| - 1];
      var m := TrailingSpace(init);
      assert s[|s| - (1 + m)..] == init[|init| - m..] + [s[|s| - 1]];
      AllSpaceConcat(init[|init| - m..], [s[|s| - 1]]);
      assert 1 + m < |s| ==> s[|s| - 2 - m] == init[|init| - 1 - m];
      1 + m
    else
      0
  }

  /** `String.prototype.trim`: the result is the part of `s` left after
      removing whitespace from both ends. It is a slice of `s` with only
      whitespace around it, it does not itself start or end with whitespace,
      and it is empty exactly when `s` is blank. */
  function Trim(s: string): (r: string)
    ensures |r| <= |s|
    ensures IsTrimmed(r)
    ensures exists i :: Around(s, r, i)
    ensures r == [] <==> AllSpace(s)
  {
    var i := LeadingSpace(s);
    var t := s[i..];
    var j := TrailingSpace(t);
    var e := i + |t| - j;
    assert s[e..] == t[|t| - j..];
    assert i < e ==> s[i] == t[0] && s[e - 1] == t[|t| - 1 - j];
    TrimWindow(s, i, e);
    s[i..e]
  }

  /** The window `s[i..e]` with only whitespace outside it and none at its
      ends is a trim of `s`. */
  lemma TrimWindow(s: string, i: int, e: int)
    requires 0 <= i <= e <= |s|
    requires AllSpace(s[..i]) && AllSpace(s[e..])
    requires i < e ==> !IsWhitespace(s[i]) && !IsWhitespace(s[e - 1])
    ensures IsTrimmed(s[i..e])
    ensures Around(s, s[i..e], i)
    ensures s[i..e] == [] <==> AllSpace(s)
  {
    if i == e {
      assert s == s[..i] + s[e..];
      AllSpaceConcat(s[..i], s[e..]);
    }
  }

  /** `r` occurs in `s` at offset `i` with only whitespace before and after it. */
  ghost predicate Around(s: string, r: string, i: int) {
    && 0 <= i <= |s| - |r|
    && s[i..i + |r|] == r
    && AllSpace(s[..i])
    && AllSpace(s[i + |r|..])
  }

  lemma AllSpaceConcat(a: string, b: string)
    requires AllSpace(a) && AllSpace(b)
    ensures AllSpace(a + b)
  {
  }

  /** A string that already has no whitespace at either end is its own trim. */
  lemma TrimmedIsFixedPoint(s: string)
    requires IsTrimmed(s)
    ensures Trim(s) == s
  {
    if s != [] {
      assert LeadingSpace(s) == 0;
      assert TrailingSpace(s) == 0;
    }
  }

  /** Trimming twice is the same as trimming once. */
  lemma TrimIdempotent(s: string)
    ensures Trim(Trim(s)) == Trim(s)
  {
    TrimmedIsFixedPoint(Trim(s));
  }

  /* ---------------------------------------------------------------------- */
  /* Case folding                                                           */
  /* ---------------------------------------------------------------------- */

  /** A capital letter that `LowerChar` folds: ASCII A-Z, Cyrillic А-Я and
      the Cyrillic capitals Ѐ-Џ (U+0400-U+040F). */
  predicate IsUpper(c: char) {
    ('A' <= c <= 'Z') || ('\U{0400}' <= c <= '\U{042F}')
  }

  /** A small letter that `UpperChar` raises: ASCII a-z, Cyrillic а-я and
      ѐ-џ (U+0450-U+045F), the small partners of the `IsUpper` capitals. */
  predicate IsLower(c: char) {
    ('a' <= c <= 'z') || ('\U{0430}' <= c <= '\U{045F}')
  }

  /** `toLowerCase` on one character, restricted to the letters `IsUpper`
      names: each such capital becomes its own small letter, as read off the
      alphabets below; every other character is left as it is. */
  function LowerChar(c: char): (d: char)
    ensures 'A' <= c <= 'Z' ==> d == "abcdefghijklmnopqrstuvwxyz"[c as int - 'A' as int]
    ensures 'А' <= c <= 'Я' ==> d == "абвгдежзийклмнопрстуфхцчшщъыьэюя"[c as int - 'А' as int]
    ensures 'Ѐ' <= c <= 'Џ' ==> d == "ѐёђѓєѕіїјљњћќѝўџ"[c as int - 'Ѐ' as int]
    ensures !IsUpper(c) ==> d == c
    ensures !IsUpper(d)
  {
    if 'A' <= c <= 'Z' then (c as int + 32) as char
    else if '\U{0410}' <= c <= '\U{042F}' then (c as int + 32) as char
    else if '\U{0400}' <= c <= '\U{040F}' then (c as int + 80) as char
    else c
  }

  /** `toUpperCase` on one character, the inverse of `LowerChar` on the
      letters it folds: each small letter `IsLower` names becomes the capital
      that folds to it; every other character is left as it is. */
  function UpperChar(c: char): (d: char)
    ensures IsLower(c) ==> IsUpper(d) && LowerChar(d) == c
    ensures !IsLower(c) ==> d == c
  {
    if 'a' <= c <= 'z' then (c as int - 32) as char
    else if '\U{0430}' <= c <= '\U{044F}' then (c as int - 32) as char
    else if '\U{0450}' <= c <= '\U{045F}' then (c as int - 80) as char
    else c
  }

  /** Folding and raising undo each other on the letters they touch, so a
      capital and its small letter fold to the same character. */
  lemma CaseRoundTrip(c: char)
    ensures IsUpper(c) ==> IsLower(LowerChar(c)) && UpperChar(LowerChar(c)) == c
    ensures IsLower(c) ==> LowerChar(UpperChar(c)) == c
    ensures LowerChar(UpperChar(c)) == LowerChar(c)
  {
  }

  /** `String.prototype.toLowerCase`, character by character. */
  function ToLower(s: string): (r: string)
    ensures |r| == |s|
    ensures forall k :: 0 <= k < |s| ==> r[k] == LowerChar(s[k])
  {
    seq(|s|, k requires 0 <= k < |s| => LowerChar(s[k]))
  }

  /** Lower-casing an already lower-cased string changes nothing. */
  lemma ToLowerIdempotent(s: string)
    ensures ToLower(ToLower(s)) == ToLower(s)
  {
    var t := ToLower(s);
    assert forall k :: 0 <= k < |t| ==> !IsUpper(t[k]);
  }

  /** `String.prototype.toUpperCase`, character by character. */
  function ToUpper(s: string): (r: string)
    ensures |r| == |s|
    ensures forall k :: 0 <= k < |s| ==> r[k] == UpperChar(s[k])
  {
    seq(|s|, k requires 0 <= k < |s| => UpperChar(s[k]))
  }

  /** Upper-casing a string first does not change its lower-cased form. */
  lemma ToLowerOfToUpper(s: string)
    ensures ToLower(ToUpper(s)) == ToLower(s)
  {
    forall k | 0 <= k < |s| ensures ToLower(ToUpper(s))[k] == ToLower(s)[k] {
      CaseRoundTrip(s[k]);
    }
  }

  /* ---------------------------------------------------------------------- */
  /* Substring containment                                                  */
  /* ---------------------------------------------------------------------- */

  /** `sub` occurs in `s` starting at index `i`. */
  ghost predicate OccursAt(s: string, sub: string, i: int) {
    0 <= i && i + |sub| <= |s| && s[i..i + |sub|] == sub
  }

  predicate StartsWith(s: string, prefix: string) {
    |prefix| <= |s| && s[..|prefix|] == prefix
  }

  /** `String.prototype.includes`: does `sub` occur somewhere in `s`? */
  predicate Contains(s: string, sub: string)
    ensures sub == [] ==> Contains(s, sub)
    ensures Contains(s, sub) ==> |sub| <= |s|
    decreases |s|
  {
    if StartsWith(s, sub) then true
    else if s == [] then false
    else Contains(s[1..], sub)
  }

  /** `Contains` holds exactly when `sub` occurs in `s` at some offset. */
  lemma {:induction false} ContainsMeansOccurs(s: string, sub: string)
    ensures Contains(s, sub) <==> exists i :: OccursAt(s, sub, i)
    decreases |s|
  {
    if StartsWith(s, sub) {
      assert OccursAt(s, sub, 0);
    } else if s == [] {
    } else {
      ContainsMeansOccurs(s[1..], sub);
      if Contains(s, sub) {
        var i :| OccursAt(s[1..], sub, i);
        assert s[1..][i..i + |sub|] == s[i + 1..i + 1 + |sub|];
        assert OccursAt(s, sub, i + 1);
      }
      if exists i :: OccursAt(s, sub, i) {
        var i :| OccursAt(s, sub, i);
        assert i != 0;
        assert s[1..][i - 1..i - 1 + |sub|] == s[i..i + |sub|];
        assert OccursAt(s[1..], sub, i - 1);
      }
    }
  }

  /** Every string contains the empty string. */
  lemma ContainsEmpty(s: string)
    ensures Contains(s, [])
  {
    assert StartsWith(s, []);
  }

  /** A string cannot contain a substring with a character it lacks. */
  lemma {:induction false} MissingCharNotContained(s: string, sub: string, c: char)
    requires c in sub && c !in s
    ensures !Contains(s, sub)
    decreases |s|
  {
    var k :| 0 <= k < |sub| && sub[k] == c;
    if |sub| <= |s| {
      assert s[..|sub|][k] != sub[k];
    }
    if s != [] {
      MissingCharNotContained(s[1..], sub, c);
    }
  }
}
