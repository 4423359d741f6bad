/**
  Text primitives with the semantics of the Java library calls the analyser
  relies on: `String.valueOf`, `trim`, `isBlank`, `startsWith`, `endsWith`,
  `contains`, `indexOf`, `lastIndexOf`, `replace`, `split` on a one-character
  separator, `String.join`, and decimal rendering of an `int`.  The regex
  character classes used throughout (`\s`, `\b`'s word characters, the line
  terminators that `.` refuses) are fixed here once.
*/
module JavaText {

  datatype Option<+T> = None | Some(value: T)

  /** `String.valueOf(s)`: a null string prints as "null". */
  function ValueOf(s: Option<string>): (r: string)
    ensures s.Some? ==> r == s.value
    ensures s.None? ==> r == "null"
  {
    match s
    case None => "null"
    case Some(t) => t
  }

  // ---------------------------------------------------------------------
  // Character classes
  // ---------------------------------------------------------------------

  /** Regex `\s` (no UNICODE_CHARACTER_CLASS): space, \t, \n, \x0B, \f, \r. */
  predicate IsSpace(c: char) {
    c == ' ' || c == '\t' || c == '\n' || c == '\U{B}' || c == '\U{C}' || c == '\r'
  }

  /** The word characters that decide a regex `\b`: [A-Za-z0-9_]. */
  predicate IsWordChar(c: char) {
    ('A' <= c <= 'Z') || ('a' <= c <= 'z') || ('0' <= c <= '9') || c == '_'
  }

  /** [A-Za-z_], the first character of a Java-ish identifier in the patterns. */
  predicate IsIdentStart(c: char) {
    ('A' <= c <= 'Z') || ('a' <= c <= 'z') || c == '_'
  }

  predicate IsUpper(c: char) {
    'A' <= c <= 'Z'
  }

  /** The characters a regex `.` refuses outside DOTALL mode. */
  predicate IsLineTerminator(c: char) {
    c == '\n' || c == '\r' || c == '\U{85}' || c == '\U{2028}' || c == '\U{2029}'
  }

  /** `Character.isWhitespace`, which is what `String.isBlank` tests. */
  predicate IsJavaWhitespace(c: char) {
    c == '\t' || c == '\n' || c == '\U{B}' || c == '\U{C}' || c == '\r'
    || ('\U{1C}' <= c <= '\U{1F}') || c == ' ' || c == '\U{1680}'
    || ('\U{2000}' <= c <= '\U{2006}') || ('\U{2008}' <= c <= '\U{200A}')
    || c == '\U{2028}' || c == '\U{2029}' || c == '\U{205F}' || c == '\U{3000}'
  }

  /** `String.isBlank()`: empty or white space only. */
  predicate IsBlank(s: string) {
    forall i | 0 <= i < |s| :: IsJavaWhitespace(s[i])
  }

  // ---------------------------------------------------------------------
  // Positions, literals and runs
  // ---------------------------------------------------------------------

  /** The literal `lit` occurs in `s` starting at index `i`. */
  predicate LitAt(s: string, i: int, lit: string) {
    0 <= i && i + |lit| <= |s| && s[i..i + |lit|] == lit
  }

  predicate StartsWith(s: string, p: string) {
    LitAt(s, 0, p)
  }

  predicate EndsWith(s: string, p: string) {
    |p| <= |s| && s[|s| - |p|..] == p
  }

  predicate Contains(s: string, p: string) {
    exists i | 0 <= i <= |s| :: LitAt(s, i, p)
  }

  /** A concatenation starts with its first part and ends with its last. */
  lemma Affixes(a: string, m: string, b: string)
    ensures StartsWith(a + m + b, a) && EndsWith(a + m + b, b)
  {
    var s := a + m + b;
    assert s[..|a|] == a;
    assert s[|s| - |b|..] == b;
  }

  /** A text without the first character of `p` does not contain `p`. */
  lemma NotContainedWithoutHead(s: string, p: string)
    requires |p| > 0 && p[0] !in s
    ensures !Contains(s, p)
  {
    forall i | 0 <= i <= |s| ensures !LitAt(s, i, p) {
      if i + |p| <= |s| {
        assert s[i..i + |p|][0] == s[i];
      }
    }
  }

  /** What a prefix contains, the whole text contains. */
  lemma ContainedInPrefix(s: string, n: nat, p: string)
    requires n <= |s|
    ensures Contains(s[..n], p) ==> Contains(s, p)
  {
    if Contains(s[..n], p) {
      var i :| 0 <= i <= n && LitAt(s[..n], i, p);
      assert s[i..i + |p|] == s[..n][i..i + |p|];
      assert LitAt(s, i, p);
    }
  }

  /** The character at `i` is a word character (false outside the string). */
  predicate WordAt(s: string, i: int) {
    0 <= i < |s| && IsWordChar(s[i])
  }

  /** Regex `\b` at position `i`: a word/non-word transition. */
  predicate Boundary(s: string, i: int) {
    WordAt(s, i - 1) != WordAt(s, i)
  }

  /** All characters of s[i..j] are regex `\s`. */
  predicate SpacesIn(s: string, i: int, j: int) {
    0 <= i <= j <= |s| && forall k | i <= k < j :: IsSpace(s[k])
  }

  /** End of the greedy `\s*` run that starts at `i`. */
  function SkipSpaces(s: string, i: nat): (j: nat)
    requires i <= |s|
    ensures i <= j <= |s|
    ensures SpacesIn(s, i, j)
    ensures j < |s| ==> !IsSpace(s[j])
    decreases |s| - i
  {
    if i < |s| && IsSpace(s[i]) then SkipSpaces(s, i + 1) else i
  }

  /** End of the greedy run of characters satisfying `cls` that starts at `i`. */
  function RunEnd(s: string, i: nat, cls: char -> bool): (j: nat)
    requires i <= |s|
    ensures i <= j <= |s|
    ensures forall k | i <= k < j :: cls(s[k])
    ensures j < |s| ==> !cls(s[j])
    decreases |s| - i
  {
    if i < |s| && cls(s[i]) then RunEnd(s, i + 1, cls) else i
  }

  /** A run that reaches the end of the text ends there. */
  lemma {:induction false} RunEndExact(s: string, i: nat, cls: char -> bool)
    requires i <= |s|
    requires forall k | i <= k < |s| :: cls(s[k])
    ensures RunEnd(s, i, cls) == |s|
    decreases |s| - i
  {
    if i < |s| {
      RunEndExact(s, i + 1, cls);
    }
  }

  /** `SkipSpaces` stops exactly at the first non-space after a run of spaces. */
  lemma {:induction false} SkipSpacesExact(s: string, i: nat, m: nat)
    requires SpacesIn(s, i, m) && (m == |s| || !IsSpace(s[m]))
    ensures SkipSpaces(s, i) == m
    decreases m - i
  {
    if i < m {
      SkipSpacesExact(s, i + 1, m);
    }
  }

  /**
    Where the literal `name` starts when it follows a greedy `\s+` that begins
    at `i`: any leading spaces of `name` itself belong to the run, so `name`
    starts that many characters before the run's end.
  */
  function NameStart(s: string, i: nat, name: string): (j: int)
    requires i <= |s|
    ensures j <= |s|
  {
    SkipSpaces(s, i) - SkipSpaces(name, 0)
  }

  /**
    For a name with at least one non-space character, `\s+NAME` can place the
    name in one position only: the one `NameStart` gives.
  */
  lemma NameStartUnique(s: string, i: nat, name: string, j: int)
    requires i <= |s|
    requires exists k | 0 <= k < |name| :: !IsSpace(name[k])
    requires SpacesIn(s, i, j) && LitAt(s, j, name)
    ensures j == NameStart(s, i, name)
  {
    var t := SkipSpaces(name, 0);
    assert t < |name|;
    forall k | j <= k < j + t ensures IsSpace(s[k]) {
      assert s[k] == name[k - j];
    }
    assert s[j + t] == name[t];
    SkipSpacesExact(s, i, j + t);
  }

  /** `s.indexOf(c, from)`, with "not found" read as the end of the text. */
  function FirstOrEnd(s: string, c: char, from: nat): (r: nat)
    ensures from <= r || r == |s|
    ensures r <= |s|
    ensures r < |s| ==> s[r] == c
    ensures forall k | from <= k < r :: s[k] != c
  {
    var i := IndexOfChar(s, c, from);
    if i < 0 then |s| else i
  }

  /**
    `Matcher.find()` from position `from`: the leftmost start at which the
    pattern, tried by `at`, matches, together with what the match captured.
  */
  function FirstMatch<T>(limit: nat, from: nat, at: nat -> Option<T>): (r: Option<(nat, T)>)
    ensures r.Some? ==> from <= r.value.0 <= limit && at(r.value.0) == Some(r.value.1)
    ensures r.Some? ==> forall p | from <= p < r.value.0 :: at(p).None?
    ensures r.None? ==> forall p | from <= p <= limit :: at(p).None?
    decreases limit + 1 - from
  {
    if from > limit then None
    else match at(from)
      case Some(x) => Some((from, x))
      case None => FirstMatch(limit, from + 1, at)
  }

  /** A match at `p` with none before it is the one `find()` returns. */
  lemma FirstMatchIs<T>(limit: nat, from: nat, at: nat -> Option<T>, p: nat, x: T)
    requires from <= p <= limit && at(p) == Some(x)
    requires forall q | from <= q < p :: at(q).None?
    ensures FirstMatch(limit, from, at) == Some((p, x))
  {
    var m := FirstMatch(limit, from, at);
    assert m.Some? ==> at(m.value.0).Some?;
  }

  // ---------------------------------------------------------------------
  // trim / indexOf / lastIndexOf / replace
  // ---------------------------------------------------------------------

  /** `String.trim()`: drops leading and trailing characters <= U+0020. */
  function Trim(s: string): (r: string)
    ensures |r| <= |s|
    ensures r != [] ==> r[0] > ' ' && r[|r| - 1] > ' '
    ensures (forall k | 0 <= k < |s| :: s[k] <= ' ') <==> r == []
  {
    TrimEnd(TrimStart(s))
  }

  function TrimStart(s: string): (r: string)
    ensures |r| <= |s| && r == s[|s| - |r|..]
    ensures r != [] ==> r[0] > ' '
    ensures r == [] <==> forall k | 0 <= k < |s| :: s[k] <= ' '
  {
    if s != [] && s[0] <= ' ' then TrimStart(s[1..]) else s
  }

  function TrimEnd(s: string): (r: string)
    ensures |r| <= |s| && r == s[..|r|]
    ensures r != [] ==> r[|r| - 1] > ' '
    ensures r == [] <==> forall k | 0 <= k < |s| :: s[k] <= ' '
  {
    if s != [] && s[|s| - 1] <= ' ' then TrimEnd(s[..|s| - 1]) else s
  }

  /** A text with no blank at either end is its own trim. */
  lemma TrimPlain(s: string)
    requires s != [] && s[0] > ' ' && s[|s| - 1] > ' '
    ensures Trim(s) == s
  {
    assert TrimStart(s) == s;
    assert TrimEnd(s) == s;
  }

  /**
    `s.indexOf(p, from)` for a non-empty `p`: the first occurrence at or
    after `from`, or -1.
  */
  function IndexOf(s: string, p: string, from: nat): (r: int)
    requires |p| > 0
    ensures r == -1 || (from <= r && LitAt(s, r, p))
    ensures r == -1 ==> forall k | from <= k <= |s| :: !LitAt(s, k, p)
    ensures r >= 0 ==> forall k | from <= k < r :: !LitAt(s, k, p)
    decreases |s| - from
  {
    if from + |p| > |s| then -1
    else if LitAt(s, from, p) then from
    else IndexOf(s, p, from + 1)
  }

  /** `s.indexOf(c, from)`: the first index at or after `from` holding `c`, or -1. */
  function IndexOfChar(s: string, c: char, from: nat): (r: int)
    ensures r == -1 || (from <= r < |s| && s[r] == c)
    ensures r == -1 ==> forall k | from <= k < |s| :: s[k] != c
    ensures r >= 0 ==> forall k | from <= k < r :: s[k] != c
    decreases |s| - from
  {
    if from >= |s| then -1
    else if s[from] == c then from
    else IndexOfChar(s, c, from + 1)
  }

  /** `s.lastIndexOf(c)`: the last index holding `c`, or -1. */
  function LastIndexOfChar(s: string, c: char): (r: int)
    ensures -1 <= r < |s|
    ensures r >= 0 ==> s[r] == c
    ensures forall k | r < k < |s| :: s[k] != c
  {
    if s == [] then -1
    else if s[|s| - 1] == c then |s| - 1
    else LastIndexOfChar(s[..|s| - 1], c)
  }

  /** `s.replace(a, b)` for characters. */
  function ReplaceChar(s: string, a: char, b: char): (r: string)
    ensures |r| == |s|
    ensures forall k | 0 <= k < |s| :: r[k] == (if s[k] == a then b else s[k])
  {
    seq(|s|, k requires 0 <= k < |s| => if s[k] == a then b else s[k])
  }

  /** `String.valueOf(path).replace('\\', '/')`. */
  function UnixPath(path: Option<string>): string {
    ReplaceChar(ValueOf(path), '\\', '/')
  }

  /** `endsWith(".java")`, character by character. */
  predicate HasJavaSuffix(s: string) {
    |s| >= 5 && s[|s| - 5] == '.' && s[|s| - 4] == 'j' && s[|s| - 3] == 'a'
    && s[|s| - 2] == 'v' && s[|s| - 1] == 'a'
  }

  lemma JavaSuffix(s: string)
    ensures HasJavaSuffix(s) <==> EndsWith(s, ".java")
  {
    if |s| >= 5 {
      var t := s[|s| - 5..];
      assert t[0] == s[|s| - 5] && t[1] == s[|s| - 4] && t[2] == s[|s| - 3];
      assert t[3] == s[|s| - 2] && t[4] == s[|s| - 1];
    }
  }

  // ---------------------------------------------------------------------
  // split / join
  // ---------------------------------------------------------------------

  /** Every piece between separators, keeping empty ones (one more than the separators). */
  function SplitAll(s: string, sep: char): (r: seq<string>)
    ensures |r| >= 1
    ensures forall k | 0 <= k < |r| :: sep !in r[k]
    decreases |s|
  {
    var i := IndexOfChar(s, sep, 0);
    if i < 0 then [s] else [s[..i]] + SplitAll(s[i + 1..], sep)
  }

  function DropTrailingEmpty(parts: seq<string>): (r: seq<string>)
    ensures |r| <= |parts| && r == parts[..|r|]
    ensures r != [] ==> r[|r| - 1] != ""
    ensures forall k | |r| <= k < |parts| :: parts[k] == ""
  {
    if parts != [] && parts[|parts| - 1] == "" then DropTrailingEmpty(parts[..|parts| - 1]) else parts
  }

  /**
    `s.split(sep)` for a one-character separator: the whole string when the
    separator does not occur, otherwise the pieces with trailing empty pieces
    removed (so "".split gives [""] and "/".split("/") gives []).
  */
  function JavaSplit(s: string, sep: char): (r: seq<string>)
    ensures forall k | 0 <= k < |r| :: sep !in r[k]
  {
    if sep !in s then [s] else DropTrailingEmpty(SplitAll(s, sep))
  }

  /** `String.join(sep, parts)`. */
  function Join(parts: seq<string>, sep: string): string {
    if parts == [] then ""
    else if |parts| == 1 then parts[0]
    else parts[0] + sep + Join(parts[1..], sep)
  }

  /** Splitting what `Join` built from separator-free pieces returns the pieces. */
  lemma {:induction false} SplitAllJoin(parts: seq<string>, sep: char)
    requires |parts| >= 1
    requires forall k | 0 <= k < |parts| :: sep !in parts[k]
    ensures SplitAll(Join(parts, [sep]), sep) == parts
    decreases |parts|
  {
    if |parts| == 1 {
      assert IndexOfChar(parts[0], sep, 0) == -1;
    } else {
      var s := Join(parts, [sep]);
      var tail := Join(parts[1..], [sep]);
      assert s == parts[0] + [sep] + tail;
      var i := IndexOfChar(s, sep, 0);
      assert s[|parts[0]|] == sep;
      assert forall k | 0 <= k < |parts[0]| :: s[k] == parts[0][k];
      assert i == |parts[0]|;
      assert s[..i] == parts[0];
      assert s[i + 1..] == tail;
      SplitAllJoin(parts[1..], sep);
      assert [parts[0]] + parts[1..] == parts;
    }
  }

  /** `JavaSplit` undoes `Join` when no piece is empty or holds the separator. */
  lemma JavaSplitJoin(parts: seq<string>, sep: char)
    requires |parts| >= 1
    requires forall k | 0 <= k < |parts| :: sep !in parts[k] && parts[k] != ""
    ensures JavaSplit(Join(parts, [sep]), sep) == parts
  {
    var s := Join(parts, [sep]);
    SplitAllJoin(parts, sep);
    if sep !in s {
      if |parts| > 1 {
        JoinHasSeparator(parts, sep);
      }
    }
  }

  lemma JoinHasSeparator(parts: seq<string>, sep: char)
    requires |parts| > 1
    ensures sep in Join(parts, [sep])
  {
    var s := Join(parts, [sep]);
    assert s == parts[0] + [sep] + Join(parts[1..], [sep]);
    assert s[|parts[0]|] == sep;
  }

  // ---------------------------------------------------------------------
  // 32-bit int arithmetic and `String.hashCode`
  // ---------------------------------------------------------------------

  const TWO_32: int := 0x1_0000_0000

  predicate IsInt32(x: int) {
    -0x8000_0000 <= x < 0x8000_0000
  }

  /** The value a Java `int` computation wraps to. */
  function Wrap32(x: int): (r: int)
    ensures IsInt32(r)
    ensures IsInt32(x) ==> r == x
  {
    (x + 0x8000_0000) % TWO_32 - 0x8000_0000
  }

  /** Adding whole multiples of 2^32 does not change the wrapped value. */
  lemma Wrap32Shift(x: int, k: int)
    ensures Wrap32(x + k * TWO_32) == Wrap32(x)
  {
    var a := x + 0x8000_0000;
    var q, r := a / TWO_32, a % TWO_32;
    assert a == q * TWO_32 + r && 0 <= r < TWO_32;
    assert a + k * TWO_32 == (q + k) * TWO_32 + r;
  }

  /** Wrapping after every step of `h = 31 * h + c` is wrapping once at the end. */
  lemma Wrap32MulAdd(x: int, y: int)
    ensures Wrap32(31 * Wrap32(x) + y) == Wrap32(31 * x + y)
  {
    var a := x + 0x8000_0000;
    var q := a / TWO_32;
    assert Wrap32(x) == x - q * TWO_32;
    assert 31 * Wrap32(x) + y == (31 * x + y) + (-31 * q) * TWO_32;
    Wrap32Shift(31 * x + y, -31 * q);
  }

  /** `String.hashCode()`: `h = 31 * h + c` over the characters, in `int` arithmetic. */
  function StringHash(s: string): (h: int)
    ensures IsInt32(h)
  {
    if s == [] then 0 else Wrap32(31 * StringHash(s[..|s| - 1]) + s[|s| - 1] as int)
  }

  /** The unreduced polynomial: the sum of s[i] * 31^(n-1-i). */
  function HashPolynomial(s: string): int {
    if s == [] then 0 else 31 * HashPolynomial(s[..|s| - 1]) + s[|s| - 1] as int
  }

  /** The step-by-step wrapped hash is the polynomial reduced to 32 bits once. */
  lemma {:induction false} StringHashIsPolynomial(s: string)
    ensures StringHash(s) == Wrap32(HashPolynomial(s))
    decreases |s|
  {
    if s != [] {
      var init := s[..|s| - 1];
      StringHashIsPolynomial(init);
      Wrap32MulAdd(HashPolynomial(init), s[|s| - 1] as int);
    }
  }

  // ---------------------------------------------------------------------
  // Decimal rendering of a non-negative int (string concatenation "N" + i)
  // ---------------------------------------------------------------------

  function DigitChar(d: nat): (c: char)
    requires d < 10
    ensures '0' <= c <= '9'
  {
    ['0', '1', '2', '3', '4', '5', '6', '7', '8', '9'][d]
  }

  function NatToString(n: nat): (r: string)
    ensures |r| >= 1
    ensures forall k | 0 <= k < |r| :: '0' <= r[k] <= '9'
    ensures n >= 10 ==> |r| >= 2
  {
    if n < 10 then [DigitChar(n)] else NatToString(n / 10) + [DigitChar(n % 10)]
  }

  /** `Integer.toString`: a minus sign before the digits of a negative number. */
  function IntToString(n: int): (r: string)
    ensures |r| >= 1
  {
    if n < 0 then "-" + NatToString(-n) else NatToString(n)
  }

  /** The joined text starts with the first part. */
  lemma JoinStartsWithFirst(parts: seq<string>, sep: string)
    requires parts != []
    ensures |parts[0]| <= |Join(parts, sep)| && Join(parts, sep)[..|parts[0]|] == parts[0]
  {
    if |parts| > 1 {
      assert Join(parts, sep) == parts[0] + (sep + Join(parts[1..], sep));
    }
  }

  /** Distinct numbers print differently, so "N1", "N2", ... are distinct aliases. */
  lemma {:induction false} NatToStringInjective(a: nat, b: nat)
    requires NatToString(a) == NatToString(b)
    ensures a == b
    decreases a
  {
    var sa, sb := NatToString(a), NatToString(b);
    if a < 10 && b < 10 {
      assert DigitChar(a) == sa[0] == sb[0] == DigitChar(b);
      DigitCharInjective(a, b);
    } else if a >= 10 && b >= 10 {
      assert sa[|sa| - 1] == DigitChar(a % 10) && sb[|sb| - 1] == DigitChar(b % 10);
      DigitCharInjective(a % 10, b % 10);
      assert sa[..|sa| - 1] == NatToString(a / 10);
      assert sb[..|sb| - 1] == NatToString(b / 10);
      NatToStringInjective(a / 10, b / 10);
    }
  }

  lemma DigitCharInjective(a: nat, b: nat)
    requires a < 10 && b < 10 && DigitChar(a) == DigitChar(b)
    ensures a == b
  {
  }
  // ---------------------------------------------------------------------
  // Quoted literal bodies: `([^q\\]|\\.)*q`
  // ---------------------------------------------------------------------

  /**
    Scans a quoted body starting at `i` as the regex `([^q\\]|\\.)*q` does:
    a backslash takes the next character with it unless that character is a
    line terminator (the regex `.`), any other character except `q` is body,
    and the first free `q` closes.  The alternatives start with different
    characters and no iteration can start on `q`, so backtracking never finds
    a different end: the result is the index of the closing quote, or None.
  */
  function QuotedBodyEnd(s: string, i: nat, q: char): (r: Option<nat>)
    requires i <= |s|
    requires q != '\\'
    ensures r.Some? ==> i <= r.value < |s| && s[r.value] == q
    decreases |s| - i
  {
    if i == |s| then None
    else if s[i] == q then Some(i)
    else if s[i] == '\\' then
      if i + 1 < |s| && !IsLineTerminator(s[i + 1]) then QuotedBodyEnd(s, i + 2, q) else None
    else QuotedBodyEnd(s, i + 1, q)
  }

  /** A body that `QuotedBodyEnd` reads to its end: plain characters and escape pairs. */
  predicate EscapedBody(body: string, q: char) {
    if body == [] then true
    else if body[0] == '\\' then
      |body| >= 2 && !IsLineTerminator(body[1]) && EscapedBody(body[2..], q)
    else body[0] != q && EscapedBody(body[1..], q)
  }

  lemma LitAtIndex(s: string, i: nat, lit: string, k: nat)
    requires LitAt(s, i, lit) && k < |lit|
    ensures s[i + k] == lit[k]
  {
    assert s[i..i + |lit|][k] == s[i + k];
  }

  lemma LitAtDrop(s: string, i: nat, lit: string, n: nat)
    requires LitAt(s, i, lit) && n <= |lit|
    ensures LitAt(s, i + n, lit[n..])
  {
    assert s[i + n..i + n + |lit[n..]|] == s[i..i + |lit|][n..];
  }

  /** The body ends exactly at the first quote that follows a well-formed body. */
  lemma {:induction false} QuotedBodyEndAfter(s: string, i: nat, body: string, q: char)
    requires q != '\\'
    requires EscapedBody(body, q)
    requires LitAt(s, i, body + [q])
    ensures QuotedBodyEnd(s, i, q) == Some(i + |body|)
    decreases |body|
  {
    var lit := body + [q];
    LitAtIndex(s, i, lit, 0);
    if body == [] {
      assert lit[0] == q;
    } else if body[0] == '\\' {
      LitAtIndex(s, i, lit, 1);
      assert lit[0] == '\\' && lit[1] == body[1];
      LitAtDrop(s, i, lit, 2);
      assert lit[2..] == body[2..] + [q];
      QuotedBodyEndAfter(s, i + 2, body[2..], q);
    } else {
      assert lit[0] == body[0];
      LitAtDrop(s, i, lit, 1);
      assert lit[1..] == body[1..] + [q];
      QuotedBodyEndAfter(s, i + 1, body[1..], q);
    }
  }

  // ---------------------------------------------------------------------
  // Texts built by appending pieces
  // ---------------------------------------------------------------------

  /** `start` followed by the first `n` pieces. */
  function Joined<T>(start: seq<T>, es: seq<seq<T>>, n: nat): seq<T>
    requires n <= |es|
  {
    if n == 0 then start else Joined(start, es, n - 1) + es[n - 1]
  }

  /** Joining more pieces only appends: each joined text starts with every shorter one. */
  lemma {:induction false} JoinedExtends<T>(start: seq<T>, es: seq<seq<T>>, m: nat, n: nat)
    requires m <= n <= |es|
    ensures |Joined(start, es, m)| <= |Joined(start, es, n)|
    ensures Joined(start, es, n)[..|Joined(start, es, m)|] == Joined(start, es, m)
    decreases n
  {
    if m < n {
      JoinedExtends(start, es, m, n - 1);
      var t := Joined(start, es, n - 1);
      PrefixOfLonger(t, es[n - 1], |t|);
      WholePrefix(t);
      PrefixTrans(Joined(start, es, m), t, Joined(start, es, n));
    } else {
      WholePrefix(Joined(start, es, n));
    }
  }

  /** Appending keeps every prefix. */
  lemma PrefixOfLonger<T>(a: seq<T>, b: seq<T>, k: nat)
    requires k <= |a|
    ensures k <= |a + b| && (a + b)[..k] == a[..k]
  {
  }

  lemma PrefixTrans<T>(a: seq<T>, b: seq<T>, c: seq<T>)
    requires |a| <= |b| && b[..|a|] == a
    requires |b| <= |c| && c[..|b|] == b
    ensures |a| <= |c| && c[..|a|] == a
  {
    assert c[..|a|] == c[..|b|][..|a|];
  }

  lemma WholePrefix<T>(s: seq<T>)
    ensures s[..|s|] == s
  {
  }
}
