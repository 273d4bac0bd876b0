/** The pieces of JavaScript string and regular-expression semantics that the
    extraction rules rely on: the character classes of a regular expression
    without the `u` flag, the longest run of one class, and
    `String.prototype.trim`, `startsWith` and `join`. Strings are
    sequences of code points. */
module JsText {

  /** `\d`: the ASCII digits only. */
  predicate IsDigit(c: char) { '0' <= c <= '9' }

  /** `\w` without the `u` flag: ASCII letters, digits and `_`. */
  predicate IsWordChar(c: char) {
    'a' <= c <= 'z' || 'A' <= c <= 'Z' || IsDigit(c) || c == '_'
  }

  /** `[А-Я]`: U+0410 to U+042F, which leaves out Ё (U+0401). */
  predicate IsUpperCyrillic(c: char) { '\U{0410}' <= c <= '\U{042F}' }

  /** `[а-я]`: U+0430 to U+044F, which leaves out ё (U+0451). */
  predicate IsLowerCyrillic(c: char) { '\U{0430}' <= c <= '\U{044F}' }

  /** `[А-Яа-я]`. */
  predicate IsCyrillicLetter(c: char) { IsUpperCyrillic(c) || IsLowerCyrillic(c) }

  /** The characters `.` does not match: LF, CR, LINE SEPARATOR, PARAGRAPH SEPARATOR. */
  predicate IsLineTerminator(c: char) {
    c == '\n' || c == '\r' || c == '\U{2028}' || c == '\U{2029}'
  }

  /** `\s`, and the characters `trim` removes: the ECMAScript WhiteSpace and
      LineTerminator characters. */
  predicate IsWhiteSpace(c: char) {
    c == '\t' || c == '\U{000B}' || c == '\U{000C}' || c == ' ' || c == '\U{00A0}'
    || c == '\U{1680}' || ('\U{2000}' <= c <= '\U{200A}') || c == '\U{202F}'
    || c == '\U{205F}' || c == '\U{3000}' || c == '\U{FEFF}'
    || IsLineTerminator(c)
  }

  /** Whether position `i` of `t` holds a `\w` character (positions outside `t` do not). */
  predicate IsWordAt(t: string, i: int) { 0 <= i < |t| && IsWordChar(t[i]) }

  /** `\b` at position `p`: exactly one of the characters either side of `p` is `\w`. */
  predicate IsWordBoundary(t: string, p: int) { IsWordAt(t, p - 1) != IsWordAt(t, p) }

  /** The upper-case form that case-insensitive matching without the `u` flag
      gives a character, for every character whose upper-case form lies in
      А-Я: а-я themselves and the historic letters U+1C80 to U+1C86. Every
      other character is returned unchanged, which agrees with JavaScript on
      all comparisons against a letter of а-я. */
  function CyrillicUpper(c: char): (u: char)
    ensures IsUpperCyrillic(u) <==> IsCyrillicLetter(c) || '\U{1C80}' <= c <= '\U{1C86}'
  {
    if IsLowerCyrillic(c) then (c as int - 0x20) as char
    else if c == '\U{1C80}' then '\U{0412}'                 // rounded ve: В
    else if c == '\U{1C81}' then '\U{0414}'                 // long-legged de: Д
    else if c == '\U{1C82}' then '\U{041E}'                 // narrow o: О
    else if c == '\U{1C83}' then '\U{0421}'                 // wide es: С
    else if c == '\U{1C84}' || c == '\U{1C85}' then '\U{0422}'  // tall and three-legged te: Т
    else if c == '\U{1C86}' then '\U{042A}'                 // tall hard sign: Ъ
    else c
  }

  /** `s` matches the lower-case Cyrillic word `w` under the `i` flag. */
  predicate MatchesIgnoringCase(s: string, w: string) {
    |s| == |w| && forall i :: 0 <= i < |s| ==> CyrillicUpper(s[i]) == CyrillicUpper(w[i])
  }

  /** A character that matches a Cyrillic letter under the `i` flag is never `\w`. */
  lemma CyrillicIsNotWord(c: char, l: char)
    requires IsLowerCyrillic(l) && CyrillicUpper(c) == CyrillicUpper(l)
    ensures !IsWordChar(c)
  {
  }

  /** `String.prototype.startsWith`. */
  predicate StartsWith(s: string, prefix: string) {
    |prefix| <= |s| && s[..|prefix|] == prefix
  }

  /** The end of the longest run of characters satisfying `p` that starts at `i`. */
  function RunEnd(t: string, i: nat, p: char -> bool): (e: nat)
    requires i <= |t|
    ensures i <= e <= |t|
    ensures forall k :: i <= k < e ==> p(t[k])
    ensures e == |t| || !p(t[e])
    decreases |t| - i
  {
    if i < |t| && p(t[i]) then RunEnd(t, i + 1, p) else i
  }

  /** A run of `p` characters that cannot be extended is the one `RunEnd` finds. */
  lemma RunEndUnique(t: string, i: nat, p: char -> bool, e: nat)
    requires i <= e <= |t|
    requires forall k :: i <= k < e ==> p(t[k])
    requires e == |t| || !p(t[e])
    ensures RunEnd(t, i, p) == e
  {
  }

  /** `s` with its leading white space removed. */
  function TrimStart(s: string): string {
    if |s| > 0 && IsWhiteSpace(s[0]) then TrimStart(s[1..]) else s
  }

  /** `r` is a suffix of `s` that does not start with white space, and all
      before it is white space. */
  ghost predicate CutsWhitePrefix(s: string, r: string) {
    |r| <= |s| && r == s[|s| - |r|..]
    && (forall i :: 0 <= i < |s| - |r| ==> IsWhiteSpace(s[i]))
    && (r == [] || !IsWhiteSpace(r[0]))
  }

  lemma {:induction false} TrimStartCuts(s: string)
    ensures CutsWhitePrefix(s, TrimStart(s))
  {
    if |s| > 0 && IsWhiteSpace(s[0]) {
      TrimStartCuts(s[1..]);
      CutsOneMoreWhitePrefix(s, TrimStart(s[1..]));
    }
  }

  lemma CutsOneMoreWhitePrefix(s: string, r: string)
    requires |s| > 0 && IsWhiteSpace(s[0]) && CutsWhitePrefix(s[1..], r)
    ensures CutsWhitePrefix(s, r)
  {
    forall i | 0 < i < |s| - |r| ensures IsWhiteSpace(s[i]) {
      assert s[i] == s[1..][i - 1];
    }
  }

  /** `s` with its trailing white space removed. */
  function TrimEnd(s: string): string {
    if |s| > 0 && IsWhiteSpace(s[|s| - 1]) then TrimEnd(s[..|s| - 1]) else s
  }

  /** `r` is a prefix of `s` that does not end with white space, and all
      after it is white space. */
  ghost predicate CutsWhiteSuffix(s: string, r: string) {
    |r| <= |s| && r == s[..|r|]
    && (forall i :: |r| <= i < |s| ==> IsWhiteSpace(s[i]))
    && (r == [] || !IsWhiteSpace(r[|r| - 1]))
  }

  lemma {:induction false} TrimEndCuts(s: string)
    ensures CutsWhiteSuffix(s, TrimEnd(s))
  {
    if |s| > 0 && IsWhiteSpace(s[|s| - 1]) {
      TrimEndCuts(s[..|s| - 1]);
      CutsOneMoreWhiteSuffix(s, TrimEnd(s[..|s| - 1]));
    }
  }

  lemma CutsOneMoreWhiteSuffix(s: string, r: string)
    requires |s| > 0 && IsWhiteSpace(s[|s| - 1]) && CutsWhiteSuffix(s[..|s| - 1], r)
    ensures CutsWhiteSuffix(s, r)
  {
    forall i | |r| <= i < |s| - 1 ensures IsWhiteSpace(s[i]) {
      assert s[i] == s[..|s| - 1][i];
    }
  }

  /** `r` is `s[i..]` cut after its last non-white character, and all that was cut is white. */
  ghost predicate IsTrimOf(s: string, i: nat, r: string) {
    i + |r| <= |s| && s[i..i + |r|] == r
    && (forall k :: 0 <= k < i ==> IsWhiteSpace(s[k]))
    && (forall k :: i + |r| <= k < |s| ==> IsWhiteSpace(s[k]))
  }

  /** `String.prototype.trim`. */
  function Trim(s: string): string {
    TrimEnd(TrimStart(s))
  }

  /** `trim` cuts white space, and only white space, from both ends, up to
      the first and last characters that are not white. */
  lemma TrimIsTrimOf(s: string)
    ensures var r := Trim(s);
      (r == [] || (!IsWhiteSpace(r[0]) && !IsWhiteSpace(r[|r| - 1]))) &&
      |TrimStart(s)| <= |s| && IsTrimOf(s, |s| - |TrimStart(s)|, r)
  {
    TrimStartCuts(s);
    TrimEndCuts(TrimStart(s));
    TrimStartThenEnd(s, TrimStart(s), Trim(s));
  }

  /** Cutting white space from the front and then from the back cuts white
      space from both ends. */
  lemma TrimStartThenEnd(s: string, u: string, r: string)
    requires CutsWhitePrefix(s, u) && CutsWhiteSuffix(u, r)
    ensures r == [] || (!IsWhiteSpace(r[0]) && !IsWhiteSpace(r[|r| - 1]))
    ensures IsTrimOf(s, |s| - |u|, r)
  {
    var i := |s| - |u|;
    forall k | i + |r| <= k < |s| ensures IsWhiteSpace(s[k]) {
      assert s[k] == u[k - i];
    }
    if r != [] {
      assert r[0] == u[0];
    }
  }

  /** `Array.prototype.join` on strings. */
  function Join(xs: seq<string>, sep: string): string {
    if |xs| == 0 then ""
    else if |xs| == 1 then xs[0]
    else xs[0] + sep + Join(xs[1..], sep)
  }

  /** Joining is order preserving: joining two non-empty lists one after the
      other puts one separator between them. */
  lemma {:induction false} JoinAppend(xs: seq<string>, ys: seq<string>, sep: string)
    requires |xs| > 0 && |ys| > 0
    ensures Join(xs + ys, sep) == Join(xs, sep) + sep + Join(ys, sep)
  {
    if |xs| == 1 {
      assert (xs + ys)[1..] == ys;
    } else {
      assert (xs + ys)[1..] == xs[1..] + ys;
      JoinAppend(xs[1..], ys, sep);
    }
  }
}
