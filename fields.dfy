/** The field extraction rules of `parseData`: five fields, four of them
    filled from the first match of one fixed regular expression in the
    recognised text, or the empty string when it does not match. Each
    pattern is a matcher `MatchAt(t, p, s)` giving the end of the match the
    pattern makes when started at position `s`; `FirstMatch` takes the first
    start position at which it matches, as `String.prototype.match` does. Beside each matcher
    stands a declarative predicate saying what a match is, and a lemma that
    the two agree. */
module FieldRules {
  import opened Wrappers
  import opened JsText

  /** The record `parseData` returns. */
  datatype Data = Data(fio: string, property: string, address: string, cost: string, signature: string)

  /** The four regular expressions of `parseData`. */
  datatype Pattern = FioPattern | AddressPattern | CostPattern | PropertyPattern

  // ---------------------------------------------------------------------
  // Cost: /(\d+,\d{2})/

  /** `t[s..e]` is one or more digits, a comma and exactly two digits. */
  ghost predicate IsCostAt(t: string, s: nat, e: nat) {
    s + 4 <= e <= |t|
    && (forall i :: s <= i < e - 3 ==> IsDigit(t[i]))
    && t[e - 3] == ',' && IsDigit(t[e - 2]) && IsDigit(t[e - 1])
  }

  /** The match of /\d+,\d{2}/ started at `s`: `\d+` takes the longest digit
      run, and giving digits back cannot help since a comma is not a digit. */
  function CostAt(t: string, s: nat): (r: Option<nat>)
    ensures r.Some? ==> IsCostAt(t, s, r.value)
  {
    if s <= |t| then
      var k := RunEnd(t, s, IsDigit);
      if s < k && k + 3 <= |t| && t[k] == ',' && IsDigit(t[k + 1]) && IsDigit(t[k + 2])
      then Some(k + 3) else None
    else None
  }

  lemma CostAtIff(t: string, s: nat, e: nat)
    ensures CostAt(t, s) == Some(e) <==> IsCostAt(t, s, e)
  {
    if IsCostAt(t, s, e) {
      RunEndUnique(t, s, IsDigit, e - 3);
    }
  }

  // ---------------------------------------------------------------------
  // Full name: /([А-Я][а-я]+\s[А-Я][а-я]+\s[А-Я][а-я]+)/

  /** `t[x..y]` is one letter of А-Я followed by one or more of а-я. */
  ghost predicate IsName(t: string, x: nat, y: nat) {
    x + 2 <= y <= |t| && IsUpperCyrillic(t[x])
    && forall i :: x < i < y ==> IsLowerCyrillic(t[i])
  }

  /** `t[s..e]` is three names split at `a` and `b` by one white-space
      character each, the last name as long as `[а-я]+` makes it. */
  ghost predicate IsFioSplit(t: string, s: nat, a: nat, b: nat, e: nat) {
    IsName(t, s, a) && a < |t| && IsWhiteSpace(t[a])
    && IsName(t, a + 1, b) && b < |t| && IsWhiteSpace(t[b])
    && IsName(t, b + 1, e) && (e == |t| || !IsLowerCyrillic(t[e]))
  }

  ghost predicate IsFioAt(t: string, s: nat, e: nat) {
    exists a: nat, b: nat :: IsFioSplit(t, s, a, b, e)
  }

  /** The end of `[А-Я][а-я]+` started at `x`, taking all the lower-case letters. */
  function NameEnd(t: string, x: nat): (r: Option<nat>)
    ensures r.Some? ==> IsName(t, x, r.value) && (r.value == |t| || !IsLowerCyrillic(t[r.value]))
  {
    if x < |t| && IsUpperCyrillic(t[x]) then
      var y := RunEnd(t, x + 1, IsLowerCyrillic);
      if x + 1 < y then Some(y) else None
    else None
  }

  lemma NameEndUnique(t: string, x: nat, y: nat)
    requires IsName(t, x, y) && (y == |t| || !IsLowerCyrillic(t[y]))
    ensures NameEnd(t, x) == Some(y)
  {
    RunEndUnique(t, x + 1, IsLowerCyrillic, y);
  }

  /** The full-name pattern started at `s`. `[а-я]` and `\s` share no
      character, so only the longest runs of the first two names can be
      followed by white space. */
  function FioAt(t: string, s: nat): (r: Option<nat>)
    ensures r.Some? ==> IsFioAt(t, s, r.value)
  {
    match NameEnd(t, s)
    case None => None
    case Some(a) =>
      if a < |t| && IsWhiteSpace(t[a]) then
        match NameEnd(t, a + 1)
        case None => None
        case Some(b) =>
          if b < |t| && IsWhiteSpace(t[b]) then
            var r := NameEnd(t, b + 1);
            assert r.Some? ==> IsFioSplit(t, s, a, b, r.value);
            r
          else None
      else None
  }

  lemma FioAtIff(t: string, s: nat, e: nat)
    ensures FioAt(t, s) == Some(e) <==> IsFioAt(t, s, e)
  {
    if IsFioAt(t, s, e) {
      var a: nat, b: nat :| IsFioSplit(t, s, a, b, e);
      FioSplitFound(t, s, a, b, e);
    }
  }

  lemma FioSplitFound(t: string, s: nat, a: nat, b: nat, e: nat)
    requires IsFioSplit(t, s, a, b, e)
    ensures FioAt(t, s) == Some(e)
  {
    NameEndUnique(t, s, a);
    NameEndUnique(t, a + 1, b);
    NameEndUnique(t, b + 1, e);
  }

  // ---------------------------------------------------------------------
  // Address: /(г\.\s*[А-Яа-я]+.*?(ул\.\s*[А-Яа-я]+.*?)?)/

  /** `t[s..e]` is "г.", the white space from `s + 2` to `w`, and the letters
      of А-Яа-я from `w` to `e`, as many as there are. */
  ghost predicate IsAddressSplit(t: string, s: nat, w: nat, e: nat) {
    s + 2 <= w < e <= |t| && t[s] == 'г' && t[s + 1] == '.'
    && (forall i :: s + 2 <= i < w ==> IsWhiteSpace(t[i]))
    && (forall i :: w <= i < e ==> IsCyrillicLetter(t[i]))
    && (e == |t| || !IsCyrillicLetter(t[e]))
  }

  ghost predicate IsAddressAt(t: string, s: nat, e: nat) {
    exists w: nat :: IsAddressSplit(t, s, w, e)
  }

  /** The address pattern started at `s`. Once `[А-Яа-я]+` has taken its run,
      the lazy `.*?` first tries to match nothing; the optional group is then
      tried at a character that is not a letter (so not the "у" of "ул.") and
      fails, and skipping the group completes the match. The street part can
      therefore never be part of the result. */
  function AddressAt(t: string, s: nat): (r: Option<nat>)
    ensures r.Some? ==> IsAddressAt(t, s, r.value)
  {
    if s + 2 <= |t| && t[s] == 'г' && t[s + 1] == '.' then
      var w := RunEnd(t, s + 2, IsWhiteSpace);
      var e := RunEnd(t, w, IsCyrillicLetter);
      if w < e then
        assert IsAddressSplit(t, s, w, e);
        Some(e)
      else None
    else None
  }

  lemma AddressAtIff(t: string, s: nat, e: nat)
    ensures AddressAt(t, s) == Some(e) <==> IsAddressAt(t, s, e)
  {
    if IsAddressAt(t, s, e) {
      var w: nat :| IsAddressSplit(t, s, w, e);
      RunEndUnique(t, s + 2, IsWhiteSpace, w);
      RunEndUnique(t, w, IsCyrillicLetter, e);
    }
  }

  // ---------------------------------------------------------------------
  // Property: /(?<=\bадрес\b).*?(?=\bстоимость\b|\d+,\d{2})/i

  const AddressWord := "адрес"
  const CostWord := "стоимость"

  /** `\b` + the word `w` (ignoring case) + `\b`, starting at `p`. */
  predicate IsMarkerAt(t: string, p: nat, w: string) {
    p + |w| <= |t| && MatchesIgnoringCase(t[p..p + |w|], w)
    && IsWordBoundary(t, p) && IsWordBoundary(t, p + |w|)
  }

  /** The lookahead: `\bстоимость\b` or a cost number begins at `q`. */
  ghost predicate IsStopAt(t: string, q: nat) {
    IsMarkerAt(t, q, CostWord) || exists e: nat :: IsCostAt(t, q, e)
  }

  /** `t[s..q]` is the span the pattern matches at `s`: `s` is right after a
      marked "адрес", `q` is the first position from `s` on where the
      lookahead holds, and no line terminator comes before it. */
  ghost predicate IsPropertyAt(t: string, s: nat, q: nat) {
    5 <= s && IsMarkerAt(t, s - 5, AddressWord) && s <= q <= |t| && IsStopAt(t, q)
    && forall i :: s <= i < q ==> !IsStopAt(t, i) && !IsLineTerminator(t[i])
  }

  predicate StopAt(t: string, q: nat) {
    IsMarkerAt(t, q, CostWord) || CostAt(t, q).Some?
  }

  lemma StopAtIff(t: string, q: nat)
    ensures StopAt(t, q) <==> IsStopAt(t, q)
  {
    if IsStopAt(t, q) && !IsMarkerAt(t, q, CostWord) {
      var e: nat :| IsCostAt(t, q, e);
      CostAtIff(t, q, e);
    }
  }

  /** The lazy `.*?` from `q`: the first position where the lookahead holds,
      unless the text ends or a line terminator comes first. */
  function LazyEnd(t: string, s: nat, q: nat): (r: Option<nat>)
    requires s <= q <= |t|
    requires forall i :: s <= i < q ==> !StopAt(t, i) && !IsLineTerminator(t[i])
    ensures r.Some? ==> q <= r.value <= |t| && StopAt(t, r.value)
    ensures r.Some? ==> forall i :: s <= i < r.value ==> !StopAt(t, i) && !IsLineTerminator(t[i])
    decreases |t| - q
  {
    if StopAt(t, q) then Some(q)
    else if q < |t| && !IsLineTerminator(t[q]) then LazyEnd(t, s, q + 1)
    else None
  }

  /** The property pattern started at `s`: the lookbehind, then the lazy span. */
  function PropertyAt(t: string, s: nat): (r: Option<nat>)
    ensures r.Some? ==> s <= r.value <= |t|
  {
    if 5 <= s <= |t| && IsMarkerAt(t, s - 5, AddressWord) then LazyEnd(t, s, s) else None
  }

  lemma PropertyAtIff(t: string, s: nat, q: nat)
    ensures PropertyAt(t, s) == Some(q) <==> IsPropertyAt(t, s, q)
  {
    if PropertyAt(t, s) == Some(q) {
      StopAtIff(t, q);
      forall i | s <= i < q ensures !IsStopAt(t, i) {
        StopAtIff(t, i);
      }
    }
    if IsPropertyAt(t, s, q) {
      StopAtIff(t, q);
      forall i | s <= i < q ensures !StopAt(t, i) {
        StopAtIff(t, i);
      }
      LazyEndReaches(t, s, s, q);
    }
  }

  /** The lazy span reaches the first stop when no line terminator comes before it. */
  lemma {:induction false} LazyEndReaches(t: string, s: nat, p: nat, q: nat)
    requires s <= p <= q <= |t| && StopAt(t, q)
    requires forall i :: s <= i < q ==> !StopAt(t, i) && !IsLineTerminator(t[i])
    ensures LazyEnd(t, s, p) == Some(q)
    decreases q - p
  {
    if p < q {
      LazyEndReaches(t, s, p + 1, q);
    }
  }

  // ---------------------------------------------------------------------
  // The search of String.prototype.match

  /** The end of the match pattern `p` makes when started at `s`. */
  function MatchAt(t: string, p: Pattern, s: nat): (r: Option<nat>)
    ensures r.Some? ==> s <= r.value <= |t|
  {
    match p
    case FioPattern => FioAt(t, s)
    case AddressPattern => AddressAt(t, s)
    case CostPattern => CostAt(t, s)
    case PropertyPattern => PropertyAt(t, s)
  }

  /** What a match of pattern `p` from `s` to `e` is. */
  ghost predicate IsMatchAt(t: string, p: Pattern, s: nat, e: nat) {
    match p
    case FioPattern => IsFioAt(t, s, e)
    case AddressPattern => IsAddressAt(t, s, e)
    case CostPattern => IsCostAt(t, s, e)
    case PropertyPattern => IsPropertyAt(t, s, e)
  }

  /** Each matcher finds exactly the matches its predicate describes. */
  lemma MatchAtIff(t: string, p: Pattern, s: nat, e: nat)
    ensures MatchAt(t, p, s) == Some(e) <==> IsMatchAt(t, p, s, e)
  {
    match p
    case FioPattern => FioAtIff(t, s, e);
    case AddressPattern => AddressAtIff(t, s, e);
    case CostPattern => CostAtIff(t, s, e);
    case PropertyPattern => PropertyAtIff(t, s, e);
  }

  /** The outcome of `p` started at each position `0`, `1`, ..., `|t|`. */
  function Attempts(t: string, p: Pattern): (ms: seq<Option<nat>>)
    ensures |ms| == |t| + 1
  {
    seq(|t| + 1, i requires 0 <= i <= |t| => MatchAt(t, p, i))
  }

  /** Try the attempts from `s` on in turn and return the first start at
      which the pattern matched, with the end of that match. */
  function FirstMatch(ms: seq<Option<nat>>, s: nat): (r: Option<(nat, nat)>)
    requires s <= |ms|
    ensures r.Some? ==> s <= r.value.0 < |ms| && ms[r.value.0] == Some(r.value.1)
    ensures r.Some? ==> forall i :: s <= i < r.value.0 ==> ms[i].None?
    ensures r.None? ==> forall i :: s <= i < |ms| ==> ms[i].None?
    decreases |ms| - s
  {
    if s == |ms| then None
    else match ms[s]
      case Some(e) => Some((s, e))
      case None => FirstMatch(ms, s + 1)
  }

  /** The span `text.match(pattern)` returns. */
  function Span(t: string, p: Pattern): (r: Option<(nat, nat)>)
    ensures r.Some? ==> r.value.0 <= r.value.1 <= |t| && MatchAt(t, p, r.value.0) == Some(r.value.1)
  {
    var ms := Attempts(t, p);
    var r := FirstMatch(ms, 0);
    if r.Some? then
      assert ms[r.value.0] == MatchAt(t, p, r.value.0);
      r
    else
      r
  }

  /** The match from `s` to `e` starts no later than any other match of `p`. */
  ghost predicate IsFirstMatch(t: string, p: Pattern, s: nat, e: nat) {
    IsMatchAt(t, p, s, e) && forall s': nat, e': nat :: s' < s ==> !IsMatchAt(t, p, s', e')
  }

  /** The span found is the leftmost match, and none is found only when
      there is no match at all. */
  lemma SpanIsFirstMatch(t: string, p: Pattern)
    ensures Span(t, p).Some? ==> IsFirstMatch(t, p, Span(t, p).value.0, Span(t, p).value.1)
    ensures Span(t, p).None? ==> forall s: nat, e: nat :: !IsMatchAt(t, p, s, e)
  {
    var ms := Attempts(t, p);
    var r := Span(t, p);
    assert r == FirstMatch(ms, 0);
    if r.Some? {
      MatchAtIff(t, p, r.value.0, r.value.1);
      forall s': nat, e': nat | s' < r.value.0 ensures !IsMatchAt(t, p, s', e') {
        MatchAtIff(t, p, s', e');
        assert ms[s'] == MatchAt(t, p, s');
      }
    } else {
      forall s: nat, e: nat ensures !IsMatchAt(t, p, s, e) {
        MatchAtIff(t, p, s, e);
        if s <= |t| {
          assert ms[s] == MatchAt(t, p, s);
        }
      }
    }
  }

  /** Conversely, the leftmost match is the span found. */
  lemma FirstMatchIsSpan(t: string, p: Pattern, s: nat, e: nat)
    requires IsFirstMatch(t, p, s, e)
    ensures Span(t, p) == Some((s, e))
  {
    var ms := Attempts(t, p);
    MatchAtIff(t, p, s, e);
    assert ms[s] == Some(e);
    forall i | 0 <= i < s ensures ms[i].None? {
      assert ms[i] == MatchAt(t, p, i);
      if MatchAt(t, p, i).Some? {
        MatchAtIff(t, p, i, MatchAt(t, p, i).value);
      }
    }
    FirstAttempt(ms, s, e);
  }

  /** An attempt that succeeds after only failed ones is the one found. */
  lemma FirstAttempt(ms: seq<Option<nat>>, s: nat, e: nat)
    requires s < |ms| && ms[s] == Some(e) && forall i :: 0 <= i < s ==> ms[i].None?
    ensures FirstMatch(ms, 0) == Some((s, e))
  {
  }

  /** The span found is a match. */
  lemma SpanIsMatch(t: string, p: Pattern)
    requires Span(t, p).Some?
    ensures IsMatchAt(t, p, Span(t, p).value.0, Span(t, p).value.1)
  {
    MatchAtIff(t, p, Span(t, p).value.0, Span(t, p).value.1);
  }

  /** The matched text, or "" when there is no match. */
  function Matched(t: string, p: Pattern): string {
    match Span(t, p)
    case Some((s, e)) => t[s..e]
    case None => ""
  }

  /** A match at the very start is the one `match` returns. */
  lemma MatchAtStart(t: string, p: Pattern, e: nat)
    requires IsMatchAt(t, p, 0, e)
    ensures Span(t, p) == Some((0, e)) && Matched(t, p) == t[..e]
  {
    FirstMatchIsSpan(t, p, 0, e);
  }

  /** Only the property pattern can match the empty string, so for the
      other three an empty field means that nothing matched. */
  lemma MatchedEmptyIffNoMatch(t: string, p: Pattern)
    requires p != PropertyPattern
    ensures Matched(t, p) == "" <==> Span(t, p).None?
  {
    SpanIsFirstMatch(t, p);
  }

  // ---------------------------------------------------------------------
  // The record

  function Fio(t: string): string { Matched(t, FioPattern) }
  function Address(t: string): string { Matched(t, AddressPattern) }
  function Cost(t: string): string { Matched(t, CostPattern) }
  function Property(t: string): string { Trim(Matched(t, PropertyPattern)) }

  /** `parseData`: total and deterministic; each rule reads the whole text
      on its own, and the signature is never extracted. */
  function ParseData(t: string): (d: Data)
    ensures d.signature == ""
    ensures d.fio == Fio(t) && d.property == Property(t)
    ensures d.address == Address(t) && d.cost == Cost(t)
  {
    Data(Fio(t), Property(t), Address(t), Cost(t), "")
  }

  // ---------------------------------------------------------------------
  // Properties of the rules

  /** The cost's digit run cannot be extended on either side: the leftmost
      match never starts just after a digit, and it ends two digits after
      its only comma. */
  lemma CostIsMaximal(t: string)
    requires Span(t, CostPattern).Some?
    ensures var (s, e) := Span(t, CostPattern).value;
      Cost(t) == t[s..e] && (s == 0 || !IsDigit(t[s - 1])) && RunEnd(t, s, IsDigit) == e - 3
  {
    SpanIsFirstMatch(t, CostPattern);
    var (s, e) := Span(t, CostPattern).value;
    if s > 0 && IsDigit(t[s - 1]) {
      assert IsMatchAt(t, CostPattern, s - 1, e);
    }
    RunEndUnique(t, s, IsDigit, e - 3);
  }

  /** A non-empty address starts with "г." and has no other full stop, so
      the street group never extends it. */
  lemma AddressHasNoStreet(t: string)
    requires Address(t) != ""
    ensures StartsWith(Address(t), "г.")
    ensures forall i :: 2 <= i < |Address(t)| ==> Address(t)[i] != '.'
  {
    SpanIsMatch(t, AddressPattern);
    var (s, e) := Span(t, AddressPattern).value;
    var w: nat :| IsAddressSplit(t, s, w, e);
    AddressSplitShape(t, s, w, e);
  }

  lemma AddressSplitShape(t: string, s: nat, w: nat, e: nat)
    requires IsAddressSplit(t, s, w, e)
    ensures StartsWith(t[s..e], "г.")
    ensures forall i :: 2 <= i < |t[s..e]| ==> t[s..e][i] != '.'
  {
    forall i | 2 <= i < |t[s..e]| ensures t[s..e][i] != '.' {
      assert t[s..e][i] == t[s + i];
    }
  }

  /** `data.property` is the span trimmed: one line, no white space at
      either end, and everything trimmed off is white space. */
  lemma PropertyIsTrimmedLine(t: string)
    requires Span(t, PropertyPattern).Some?
    ensures var (s, q) := Span(t, PropertyPattern).value;
      exists i: nat :: IsTrimOf(t[s..q], i, Property(t))
    ensures forall i :: 0 <= i < |Property(t)| ==> !IsLineTerminator(Property(t)[i])
    ensures Property(t) == [] || (!IsWhiteSpace(Property(t)[0]) && !IsWhiteSpace(Property(t)[|Property(t)| - 1]))
  {
    var (s, q) := Span(t, PropertyPattern).value;
    SpanIsMatch(t, PropertyPattern);
    SpanHasNoLineTerminator(t, s, q);
    TrimmedLine(t[s..q], Property(t));
  }

  /** Trimming a line gives a line with no white space at either end. */
  lemma TrimmedLine(u: string, r: string)
    requires r == Trim(u)
    requires forall k :: 0 <= k < |u| ==> !IsLineTerminator(u[k])
    ensures exists i: nat :: IsTrimOf(u, i, r)
    ensures forall k :: 0 <= k < |r| ==> !IsLineTerminator(r[k])
    ensures r == [] || (!IsWhiteSpace(r[0]) && !IsWhiteSpace(r[|r| - 1]))
  {
    TrimIsTrimOf(u);
    TrimOfLineIsLine(u, |u| - |TrimStart(u)|, r);
  }

  /** The property span holds no line terminator. */
  lemma SpanHasNoLineTerminator(t: string, s: nat, q: nat)
    requires IsPropertyAt(t, s, q)
    ensures forall k :: 0 <= k < |t[s..q]| ==> !IsLineTerminator(t[s..q][k])
  {
    forall k | 0 <= k < |t[s..q]| ensures !IsLineTerminator(t[s..q][k]) {
      assert t[s..q][k] == t[s + k];
    }
  }

  /** A slice of a text without line terminators has none either. */
  lemma TrimOfLineIsLine(u: string, i: nat, r: string)
    requires IsTrimOf(u, i, r)
    requires forall k :: 0 <= k < |u| ==> !IsLineTerminator(u[k])
    ensures forall k :: 0 <= k < |r| ==> !IsLineTerminator(r[k])
  {
    forall k | 0 <= k < |r| ensures !IsLineTerminator(r[k]) {
      assert r[k] == u[i + k];
    }
  }

  /** Because `\b` only knows ASCII word characters, a property span exists
      only where "адрес" is immediately preceded and followed by one of
      A-Z, a-z, 0-9 or `_`. */
  lemma PropertyNeedsAsciiNeighbours(t: string)
    requires Span(t, PropertyPattern).Some?
    ensures var s := Span(t, PropertyPattern).value.0;
      6 <= s < |t| && IsWordChar(t[s - 6]) && IsWordChar(t[s])
  {
    SpanIsMatch(t, PropertyPattern);
    var (s, q) := Span(t, PropertyPattern).value;
    MarkerNeedsAsciiNeighbours(t, s - 5);
  }

  /** "адрес" between `\b`s: its first and last letters are not `\w`, so
      the characters on either side must be. */
  lemma MarkerNeedsAsciiNeighbours(t: string, p: nat)
    requires IsMarkerAt(t, p, AddressWord)
    ensures 1 <= p && p + 5 < |t| && IsWordChar(t[p - 1]) && IsWordChar(t[p + 5])
  {
    var m := t[p..p + 5];
    assert m[0] == t[p] && m[4] == t[p + 4];
    CyrillicIsNotWord(t[p], AddressWord[0]);
    CyrillicIsNotWord(t[p + 4], AddressWord[4]);
  }
}
