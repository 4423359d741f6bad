/**
  The text handling of the chat panel: the JSON request body it writes by
  hand (`buildPayload`, `appendMessageJson`, `escapeJson`), the reply field
  it reads back with a regular expression (`extractContent`, `unescapeJson`)
  and the one-line digest of an error body (`summarize`).

  Java strings are sequences of UTF-16 code units, and `\uXXXX` escapes name
  code units, lone surrogates included; a `JChar` is therefore a number
  below 0x10000 rather than a Dafny `char`.
*/
module GroqChat {
  import opened JavaText

  /** A Java `char`: one UTF-16 code unit. */
  type JChar = c: int | 0 <= c < 0x1_0000

  /** A Java `String`. */
  type JString = seq<JChar>

  /** The code unit of a character of the Basic Multilingual Plane (others become U+FFFD). */
  function Unit(c: char): (u: JChar)
    ensures c as int < 0x1_0000 ==> u == c as int
  {
    if c as int < 0x1_0000 then c as int else 0xFFFD
  }

  /** The code units of a literal written with characters of the Basic Multilingual Plane. */
  function Units(s: string): (u: JString)
    ensures |u| == |s|
    ensures forall k | 0 <= k < |s| :: u[k] == Unit(s[k])
  {
    seq(|s|, k requires 0 <= k < |s| => Unit(s[k]))
  }

  const BACKSLASH: JChar := '\\' as int
  const QUOTE: JChar := '"' as int
  const SLASH: JChar := '/' as int
  const COLON: JChar := ':' as int
  const COMMA: JChar := ',' as int
  const SPACE: JChar := ' ' as int
  const LOWER_U: JChar := 'u' as int
  const BS: JChar := 0x08
  const TAB: JChar := 0x09
  const LF: JChar := 0x0A
  const FF: JChar := 0x0C
  const CR: JChar := 0x0D

  // ---------------------------------------------------------------------
  // escapeJson
  // ---------------------------------------------------------------------

  /** A lower-case hexadecimal digit, as `%x` prints it. */
  function HexDigit(d: int): (h: JChar)
    requires 0 <= d < 16
    ensures DigitValue(h) == Some(d)
  {
    if d < 10 then '0' as int + d else 'a' as int + (d - 10)
  }

  /** `String.format("\\u%04x", (int) c)`: a backslash, `u` and four hex digits. */
  function UnicodeEscape(c: JChar): (e: JString)
    ensures |e| == 6 && e[0] == BACKSLASH && e[1] == LOWER_U
  {
    [BACKSLASH, LOWER_U, HexDigit(c / 0x1000), HexDigit(c / 0x100 % 16), HexDigit(c / 16 % 16), HexDigit(c % 16)]
  }

  /** What `escapeJson` writes for one code unit. */
  function EscapeUnit(c: JChar): (e: JString)
    ensures e != []
  {
    if c == BACKSLASH then [BACKSLASH, BACKSLASH]
    else if c == QUOTE then [BACKSLASH, QUOTE]
    else if c == LF then [BACKSLASH, 'n' as int]
    else if c == CR then [BACKSLASH, 'r' as int]
    else if c == TAB then [BACKSLASH, 't' as int]
    else if c < 0x20 then UnicodeEscape(c)
    else [c]
  }

  /** `escapeJson(text)`: each code unit replaced by its escape, in order. */
  function Escape(s: JString): (e: JString)
    ensures |e| >= |s|
  {
    if s == [] then [] else EscapeUnit(s[0]) + Escape(s[1..])
  }

  lemma EscapeStep(s: JString, i: nat)
    requires i < |s|
    ensures Escape(s[i..]) == EscapeUnit(s[i]) + Escape(s[i + 1..])
  {
    assert s[i..][0] == s[i] && s[i..][1..] == s[i + 1..];
  }

  lemma AppendNothing<T>(a: seq<T>)
    ensures a + [] == a
  {
  }

  lemma Regroup<T>(a: seq<T>, b: seq<T>, c: seq<T>)
    ensures (a + b) + c == a + (b + c)
  {
  }

  /** `escapeJson`: the loop over the text's code units. */
  method EscapeJson(text: JString) returns (escaped: JString)
    ensures escaped == Escape(text)
  {
    escaped := [];
    var i := 0;
    while i < |text|
      invariant 0 <= i <= |text|
      invariant escaped + Escape(text[i..]) == Escape(text)
    {
      var c := text[i];
      var piece: JString;
      if c == BACKSLASH {
        piece := [BACKSLASH, BACKSLASH];
      } else if c == QUOTE {
        piece := [BACKSLASH, QUOTE];
      } else if c == LF {
        piece := [BACKSLASH, 'n' as int];
      } else if c == CR {
        piece := [BACKSLASH, 'r' as int];
      } else if c == TAB {
        piece := [BACKSLASH, 't' as int];
      } else if c < 0x20 {
        piece := UnicodeEscape(c);
      } else {
        piece := [c];
      }
      assert piece == EscapeUnit(c);
      EscapeStep(text, i);
      Regroup(escaped, piece, Escape(text[i + 1..]));
      escaped := escaped + piece;
      i := i + 1;
    }
  }

  // ---------------------------------------------------------------------
  // unescapeJson
  // ---------------------------------------------------------------------

  /** `Character.digit(c, 16)` on the ASCII digits and letters. */
  function DigitValue(c: JChar): (r: Option<int>)
    ensures r.Some? ==> 0 <= r.value < 16
  {
    if '0' as int <= c <= '9' as int then Some(c - '0' as int)
    else if 'a' as int <= c <= 'f' as int then Some(c - 'a' as int + 10)
    else if 'A' as int <= c <= 'F' as int then Some(c - 'A' as int + 10)
    else None
  }

  /** The value of a run of hex digits, most significant first; None if any is not a digit. */
  function DigitsValue(h: JString): (r: Option<int>)
    ensures r.Some? ==> 0 <= r.value
  {
    if h == [] then Some(0)
    else
      var v, d := DigitsValue(h[..|h| - 1]), DigitValue(h[|h| - 1]);
      if v.Some? && d.Some? then Some(v.value * 16 + d.value) else None
  }

  /**
    `Integer.parseInt(h, 16)`: an optional sign followed by at least one hex
    digit; None where the Java call throws `NumberFormatException`.
  */
  function ParseHex(h: JString): (r: Option<int>)
  {
    if h == [] then None
    else if h[0] == '-' as int || h[0] == '+' as int then
      if |h| == 1 then None
      else match DigitsValue(h[1..])
        case Some(v) => Some(if h[0] == '-' as int then -v else v)
        case None => None
    else DigitsValue(h)
  }

  /** The `(char)` cast: the low 16 bits of the `int`. */
  function ToChar(v: int): (c: JChar)
    ensures 0 <= v < 0x1_0000 ==> c == v
  {
    v % 0x1_0000
  }

  /** The unit a two-character escape `\x` stands for; unknown letters stand for themselves. */
  function SimpleEscape(next: JChar): (c: JChar)
    ensures (next != 'b' as int && next != 'f' as int && next != 'n' as int
             && next != 'r' as int && next != 't' as int) ==> c == next
  {
    if next == 'b' as int then BS
    else if next == 'f' as int then FF
    else if next == 'n' as int then LF
    else if next == 'r' as int then CR
    else if next == 't' as int then TAB
    else next
  }

  /**
    How many units `unescapeJson` takes at the start of a non-empty `t`.  A
    backslash with a following unit starts an escape of two units, or of six
    for `\u` when four more units exist; anything else is one unit.
  */
  function HeadLength(t: JString): (n: nat)
    requires t != []
    ensures 1 <= n <= |t|
  {
    if t[0] == BACKSLASH && |t| >= 2 then
      if t[1] == LOWER_U && |t| >= 6 then 6 else 2
    else 1
  }

  /**
    What `unescapeJson` writes for those units: the decoded `\uXXXX`, or the
    six units unchanged when the four do not parse; nothing for a `\u` with
    fewer than four units after it; the unit a two-unit escape stands for;
    and a plain unit (a trailing lone backslash included) as it is.
  */
  function HeadText(t: JString): (r: JString)
    requires t != []
    ensures |r| <= HeadLength(t)
  {
    if t[0] == BACKSLASH && |t| >= 2 then
      if t[1] == LOWER_U then
        if |t| >= 6 then
          match ParseHex(t[2..6])
          case Some(v) => [ToChar(v)]
          case None => t[..6]
        else []
      else [SimpleEscape(t[1])]
    else [t[0]]
  }

  /** `unescapeJson(t)`: the head escape, then the rest. */
  function Unescape(t: JString): (r: JString)
    ensures |r| <= |t|
    decreases |t|
  {
    if t == [] then [] else HeadText(t) + Unescape(t[HeadLength(t)..])
  }

  lemma UnescapeStep(s: JString, i: nat)
    requires i < |s|
    ensures i + HeadLength(s[i..]) <= |s|
    ensures Unescape(s[i..]) == HeadText(s[i..]) + Unescape(s[i + HeadLength(s[i..])..])
  {
    assert s[i..][HeadLength(s[i..])..] == s[i + HeadLength(s[i..])..];
  }

  /** Writing the head escape after `out` keeps the loop's account of what is left to decode. */
  lemma UnescapeAdvance(input: JString, i: nat, out: JString)
    requires i < |input| && out + Unescape(input[i..]) == Unescape(input)
    ensures i + HeadLength(input[i..]) <= |input|
    ensures (out + HeadText(input[i..])) + Unescape(input[i + HeadLength(input[i..])..]) == Unescape(input)
  {
    UnescapeStep(input, i);
    Regroup(out, HeadText(input[i..]), Unescape(input[i + HeadLength(input[i..])..]));
  }

  /** One step of `unescapeJson`'s loop: what it writes for the escape at `i` and how far it advances. */
  method ReadEscape(input: JString, i: nat) returns (piece: JString, step: nat)
    requires i < |input|
    ensures piece == HeadText(input[i..]) && step == HeadLength(input[i..])
  {
    var c := input[i];
    ghost var t := input[i..];
    assert t[0] == c;
    if c == BACKSLASH && i + 1 < |input| {
      var next := input[i + 1];
      assert t[1] == next;
      if next == LOWER_U {
        if i + 5 < |input| {
          var hex := input[i + 2..i + 6];
          assert t[2..6] == hex;
          var parsed := ParseHex(hex);
          if parsed.Some? {
            piece := [ToChar(parsed.value)];
          } else {
            assert t[..6] == [BACKSLASH, LOWER_U] + hex;
            piece := [BACKSLASH, LOWER_U] + hex;
          }
          step := 6;
        } else {
          piece := [];
          step := 2;
        }
      } else {
        piece := [SimpleEscape(next)];
        step := 2;
      }
    } else {
      piece := [c];
      step := 1;
    }
  }

  /** `unescapeJson`: the loop that walks the input with an index it advances past each escape. */
  method UnescapeJson(input: JString) returns (out: JString)
    ensures out == Unescape(input)
  {
    out := [];
    var i := 0;
    while i < |input|
      invariant 0 <= i <= |input|
      invariant out + Unescape(input[i..]) == Unescape(input)
    {
      UnescapeAdvance(input, i, out);
      var piece, step := ReadEscape(input, i);
      out := out + piece;
      i := i + step;
    }
  }

  // ---------------------------------------------------------------------
  // escapeJson and unescapeJson together
  // ---------------------------------------------------------------------

  lemma DigitsValueStep(h: JString, v: int, d: int)
    requires h != [] && DigitsValue(h[..|h| - 1]) == Some(v) && DigitValue(h[|h| - 1]) == Some(d)
    ensures DigitsValue(h) == Some(v * 16 + d)
  {
  }

  /** Three hex digits, most significant first. */
  lemma DigitsValue3(h: JString, d0: int, d1: int, d2: int)
    requires |h| == 3 && DigitValue(h[0]) == Some(d0) && DigitValue(h[1]) == Some(d1) && DigitValue(h[2]) == Some(d2)
    ensures DigitsValue(h) == Some((d0 * 16 + d1) * 16 + d2)
  {
    var h1, h2 := h[..1], h[..2];
    assert h1[..0] == [] && h1[0] == h[0];
    DigitsValueStep(h1, 0, d0);
    assert h2[..1] == h1 && h2[1] == h[1];
    DigitsValueStep(h2, d0, d1);
    assert h[..2] == h2;
    DigitsValueStep(h, d0 * 16 + d1, d2);
  }

  lemma DigitsValue4(h: JString, d0: int, d1: int, d2: int, d3: int)
    requires |h| == 4 && DigitValue(h[0]) == Some(d0) && DigitValue(h[1]) == Some(d1)
    requires DigitValue(h[2]) == Some(d2) && DigitValue(h[3]) == Some(d3)
    ensures DigitsValue(h) == Some(((d0 * 16 + d1) * 16 + d2) * 16 + d3)
  {
    var h3 := h[..3];
    assert h3[0] == h[0] && h3[1] == h[1] && h3[2] == h[2];
    DigitsValue3(h3, d0, d1, d2);
    DigitsValueStep(h, (d0 * 16 + d1) * 16 + d2, d3);
  }

  /** A 16-bit unit is its four hex places. */
  lemma HexPlaces(c: JChar)
    ensures ((c / 0x1000 * 16 + c / 0x100 % 16) * 16 + c / 16 % 16) * 16 + c % 16 == c
  {
    assert c / 0x100 == c / 0x1000 * 16 + c / 0x100 % 16;
    assert c / 16 == c / 0x100 * 16 + c / 16 % 16;
    assert c == c / 16 * 16 + c % 16;
  }

  /** The four digits `%04x` prints read back as the unit they came from. */
  lemma HexDigitsValue(c: JChar)
    ensures ParseHex(UnicodeEscape(c)[2..]) == Some(c)
  {
    var h := UnicodeEscape(c)[2..];
    var d0, d1, d2, d3 := c / 0x1000, c / 0x100 % 16, c / 16 % 16, c % 16;
    assert h[0] == HexDigit(d0) && h[1] == HexDigit(d1) && h[2] == HexDigit(d2) && h[3] == HexDigit(d3);
    DigitsValue4(h, d0, d1, d2, d3);
    HexPlaces(c);
    assert h[0] != '-' as int && h[0] != '+' as int;
  }

  /** Reading back one escaped unit gives that unit, whatever follows. */
  lemma UnescapeUnit(c: JChar, rest: JString)
    ensures Unescape(EscapeUnit(c) + rest) == [c] + Unescape(rest)
  {
    var t := EscapeUnit(c) + rest;
    if c == BACKSLASH || c == QUOTE || c == LF || c == CR || c == TAB {
      assert t[2..] == rest;
    } else if c < 0x20 {
      assert t[2..6] == UnicodeEscape(c)[2..] && t[6..] == rest;
      HexDigitsValue(c);
    } else {
      assert t[1..] == rest;
    }
  }

  /** `unescapeJson` undoes `escapeJson`: the message content survives the round trip. */
  lemma {:induction false} UnescapeEscape(s: JString)
    ensures Unescape(Escape(s)) == s
    decreases |s|
  {
    if s != [] {
      UnescapeUnit(s[0], Escape(s[1..]));
      UnescapeEscape(s[1..]);
    }
  }

  /** No raw control character (below U+0020) is left in an escaped text. */
  lemma {:induction false} EscapeHasNoControl(s: JString)
    ensures forall k | 0 <= k < |Escape(s)| :: Escape(s)[k] >= 0x20
    decreases |s|
  {
    if s != [] {
      EscapeHasNoControl(s[1..]);
      var e := EscapeUnit(s[0]);
      forall k | 0 <= k < |e| ensures e[k] >= 0x20 {
        if s[0] < 0x20 && s[0] != LF && s[0] != CR && s[0] != TAB {
          assert e == UnicodeEscape(s[0]);
        }
      }
    }
  }

  /** A text without backslashes is left as it is. */
  lemma {:induction false} UnescapePlain(p: JString, t: JString)
    requires BACKSLASH !in p
    ensures Unescape(p + t) == p + Unescape(t)
    decreases |p|
  {
    if p != [] {
      assert (p + t)[0] == p[0] && (p + t)[1..] == p[1..] + t;
      assert p[0] != BACKSLASH && HeadLength(p + t) == 1;
      UnescapePlain(p[1..], t);
      assert p == [p[0]] + p[1..];
    } else {
      assert p + t == t;
    }
  }

  /** A `\u` whose four units do not parse is copied through unchanged. */
  lemma UnescapeBadHex(h: JString, t: JString)
    requires |h| == 4 && ParseHex(h).None?
    ensures Unescape([BACKSLASH, LOWER_U] + h + t) == [BACKSLASH, LOWER_U] + h + Unescape(t)
  {
    var s := [BACKSLASH, LOWER_U] + h + t;
    assert s[2..6] == h && s[6..] == t;
  }

  /** A `\u` followed by fewer than four units disappears with them untouched after it. */
  lemma UnescapeShortHex(t: JString)
    requires |t| < 4
    ensures Unescape([BACKSLASH, LOWER_U] + t) == Unescape(t)
  {
    assert ([BACKSLASH, LOWER_U] + t)[2..] == t;
  }

  /** A backslash at the very end has nothing to escape and is kept. */
  lemma UnescapeTrailingBackslash(p: JString)
    requires BACKSLASH !in p
    ensures Unescape(p + [BACKSLASH]) == p + [BACKSLASH]
  {
    UnescapePlain(p, [BACKSLASH]);
  }

  /** An escape letter without a meaning of its own stands for itself. */
  lemma UnescapeUnknown(x: JChar, t: JString)
    requires x !in Units("bfnrtu")
    ensures Unescape([BACKSLASH, x] + t) == [x] + Unescape(t)
  {
    assert Units("bfnrtu") == Units("bfnrtu");
    assert forall k | 0 <= k < 6 :: Units("bfnrtu")[k] == Unit("bfnrtu"[k]);
    assert x != 'b' as int && x != 'f' as int && x != 'n' as int && x != 'r' as int && x != 't' as int && x != LOWER_U by {
      assert Units("bfnrtu")[0] == 'b' as int && Units("bfnrtu")[1] == 'f' as int && Units("bfnrtu")[2] == 'n' as int;
      assert Units("bfnrtu")[3] == 'r' as int && Units("bfnrtu")[4] == 't' as int && Units("bfnrtu")[5] == LOWER_U;
    }
    assert ([BACKSLASH, x] + t)[2..] == t;
  }

  /** A `\u` whose four units parse to `v` is the unit `(char) v`. */
  lemma UnescapeGoodHex(a: JChar, b: JChar, c: JChar, d: JChar, v: int, t: JString)
    requires ParseHex([a, b, c, d]) == Some(v)
    ensures Unescape([BACKSLASH, LOWER_U, a, b, c, d] + t) == [ToChar(v)] + Unescape(t)
  {
    var s := [BACKSLASH, LOWER_U, a, b, c, d] + t;
    assert s[2..6] == [a, b, c, d] && s[6..] == t;
  }

  /** `\u-001`: the four units `-001` parse as -1. */
  lemma NegativeHexParses()
    ensures ParseHex(['-' as int, '0' as int, '0' as int, '1' as int]) == Some(-1)
  {
    var h := ['-' as int, '0' as int, '0' as int, '1' as int];
    DigitsValue3(h[1..], 0, 0, 1);
  }

  /** `\u+04a`: the four units `+04a` parse as 0x4a. */
  lemma PositiveHexParses()
    ensures ParseHex(['+' as int, '0' as int, '4' as int, 'a' as int]) == Some(0x4a)
  {
    var h := ['+' as int, '0' as int, '4' as int, 'a' as int];
    DigitsValue3(h[1..], 0, 4, 10);
  }

  /**
    `Integer.parseInt` takes a sign, so `\u-001` passes as -1, which the
    `(char)` cast turns into U+FFFF, and `\u+04a` is `J`.
  */
  lemma UnescapeSignedHex(t: JString)
    ensures Unescape([BACKSLASH, LOWER_U, '-' as int, '0' as int, '0' as int, '1' as int] + t) == [0xFFFF] + Unescape(t)
    ensures Unescape([BACKSLASH, LOWER_U, '+' as int, '0' as int, '4' as int, 'a' as int] + t) == ['J' as int] + Unescape(t)
  {
    NegativeHexParses();
    UnescapeGoodHex('-' as int, '0' as int, '0' as int, '1' as int, -1, t);
    assert ToChar(-1) == 0xFFFF;
    PositiveHexParses();
    UnescapeGoodHex('+' as int, '0' as int, '4' as int, 'a' as int, 0x4a, t);
    assert ToChar(0x4a) == 'J' as int;
  }

  /** In an escaped text every quote is the second unit of a `\"` pair. */
  lemma {:induction false} BodyQuotesEscaped(body: JString)
    requires IsBody(body)
    ensures forall k | 0 <= k < |body| && body[k] == QUOTE :: k > 0 && body[k - 1] == BACKSLASH
    decreases |body|
  {
    if body != [] {
      var n := if body[0] == BACKSLASH then 2 else 1;
      BodyQuotesEscaped(body[n..]);
      assert body[n..] == [] || body[n..][0] != QUOTE;
      forall k | 0 <= k < |body| && body[k] == QUOTE ensures k > 0 && body[k - 1] == BACKSLASH {
        if k >= n {
          assert body[k] == body[n..][k - n];
          if k - n > 0 {
            assert body[k - 1] == body[n..][k - n - 1];
          }
        }
      }
    }
  }

  /** `escapeJson` writes every quote and backslash of its input behind a backslash. */
  lemma EscapedQuotes(s: JString)
    ensures forall k | 0 <= k < |Escape(s)| && Escape(s)[k] == QUOTE :: k > 0 && Escape(s)[k - 1] == BACKSLASH
  {
    EscapeIsBody(s);
    BodyQuotesEscaped(Escape(s));
  }

  // ---------------------------------------------------------------------
  // extractContent
  // ---------------------------------------------------------------------

  /** The literal `lit` occurs in `s` starting at index `i`. */
  predicate UnitsAt(s: JString, i: int, lit: JString) {
    0 <= i && i + |lit| <= |s| && s[i..i + |lit|] == lit
  }

  /** Regex `\s`: space, tab, line feed, vertical tab, form feed, carriage return. */
  predicate IsWs(c: JChar) {
    c == SPACE || c == TAB || c == LF || c == 0x0B || c == FF || c == CR
  }

  /** The units a regex `.` refuses outside DOTALL mode. */
  predicate IsLineBreak(c: JChar) {
    c == LF || c == CR || c == 0x85 || c == 0x2028 || c == 0x2029
  }

  /** End of the greedy `\s*` run that starts at `i`. */
  function SkipWs(s: JString, i: nat): (j: nat)
    requires i <= |s|
    ensures i <= j <= |s|
    ensures forall k | i <= k < j :: IsWs(s[k])
    ensures j < |s| ==> !IsWs(s[j])
    decreases |s| - i
  {
    if i < |s| && IsWs(s[i]) then SkipWs(s, i + 1) else i
  }

  /**
    The group `((?:\\.|[^"\\])*)"` scanned from `i`: a backslash takes the
    next unit with it unless that unit is a line break, any unit but a quote
    or a backslash is body, and the first free quote closes.  The two
    alternatives start with different units and neither starts with a quote,
    so backtracking cannot find another end: the result is the index of the
    closing quote, or None when the pattern fails here.
  */
  function BodyEnd(s: JString, i: nat): (r: Option<nat>)
    requires i <= |s|
    ensures r.Some? ==> i <= r.value < |s| && s[r.value] == QUOTE
    decreases |s| - i
  {
    if i == |s| then None
    else if s[i] == QUOTE then Some(i)
    else if s[i] == BACKSLASH then
      if i + 1 < |s| && !IsLineBreak(s[i + 1]) then BodyEnd(s, i + 2) else None
    else BodyEnd(s, i + 1)
  }

  /** A text the group reads to its end: plain units and escape pairs, no free quote. */
  predicate IsBody(body: JString) {
    if body == [] then true
    else if body[0] == BACKSLASH then
      |body| >= 2 && !IsLineBreak(body[1]) && IsBody(body[2..])
    else body[0] != QUOTE && IsBody(body[1..])
  }

  lemma UnitsAtIndex(s: JString, i: nat, lit: JString, k: nat)
    requires UnitsAt(s, i, lit) && k < |lit|
    ensures s[i + k] == lit[k]
  {
    assert s[i..i + |lit|][k] == s[i + k];
  }

  lemma UnitsAtDrop(s: JString, i: nat, lit: JString, n: nat)
    requires UnitsAt(s, i, lit) && n <= |lit|
    ensures UnitsAt(s, i + n, lit[n..])
  {
    assert s[i + n..i + n + |lit[n..]|] == s[i..i + |lit|][n..];
  }

  /** The group ends exactly at the quote that follows a well-formed body. */
  lemma {:induction false} BodyEndAfter(s: JString, i: nat, body: JString)
    requires IsBody(body)
    requires UnitsAt(s, i, body + [QUOTE])
    ensures BodyEnd(s, i) == Some(i + |body|)
    decreases |body|
  {
    var lit := body + [QUOTE];
    UnitsAtIndex(s, i, lit, 0);
    if body == [] {
      assert lit[0] == QUOTE;
    } else if body[0] == BACKSLASH {
      UnitsAtIndex(s, i, lit, 1);
      assert lit[0] == BACKSLASH && lit[1] == body[1];
      UnitsAtDrop(s, i, lit, 2);
      assert lit[2..] == body[2..] + [QUOTE];
      BodyEndAfter(s, i + 2, body[2..]);
    } else {
      assert lit[0] == body[0];
      UnitsAtDrop(s, i, lit, 1);
      assert lit[1..] == body[1..] + [QUOTE];
      BodyEndAfter(s, i + 1, body[1..]);
    }
  }

  /** The key the pattern looks for, quotes included. */
  const KEY: JString := [QUOTE] + ContentWord + [QUOTE]
  const ContentWord: JString := ['c' as int, 'o' as int, 'n' as int, 't' as int, 'e' as int, 'n' as int, 't' as int]

  /**
    The pattern `"content"\s*:\s*"((?:\\.|[^"\\])*)"` tried at `p`: the
    bounds of the captured group.  A greedy `\s*` is followed by a unit it
    cannot match, so giving spaces back never helps.
  */
  function ContentAt(s: JString, p: nat): (r: Option<(nat, nat)>)
    ensures r.Some? ==> p + |KEY| < r.value.0 <= r.value.1 < |s|
  {
    if !UnitsAt(s, p, KEY) then None else ColonAt(s, SkipWs(s, p + |KEY|))
  }

  /** The rest of the pattern after the key and its spaces: `:\s*` and the group. */
  function ColonAt(s: JString, a: nat): (r: Option<(nat, nat)>)
    requires a <= |s|
    ensures r.Some? ==> a < r.value.0 <= r.value.1 < |s|
  {
    if a < |s| && s[a] == COLON then GroupAt(s, SkipWs(s, a + 1)) else None
  }

  /** The quoted group at `b`: its bounds, up to the closing quote. */
  function GroupAt(s: JString, b: nat): (r: Option<(nat, nat)>)
    requires b <= |s|
    ensures r.Some? ==> b < r.value.0 <= r.value.1 < |s|
  {
    if b < |s| && s[b] == QUOTE then
      match BodyEnd(s, b + 1)
      case Some(e) => Some((b + 1, e))
      case None => None
    else None
  }

  /**
    `extractContent(json)`: the unescaped group of the leftmost match, or
    None (the Java null) when the pattern occurs nowhere.
  */
  function ExtractContent(json: JString): (r: Option<JString>)
    ensures r.None? <==> forall p | 0 <= p <= |json| :: ContentAt(json, p).None?
  {
    match FirstMatch(|json|, 0, ContentMatcher(json))
    case Some((q, span)) =>
      assert ContentAt(json, q) == ContentMatcher(json)(q);
      Some(Unescape(json[span.0..span.1]))
    case None =>
      NoMatchAnywhere(json);
      None
  }

  /** The pattern tried at every start position of `json`. */
  function ContentMatcher(json: JString): nat -> Option<(nat, nat)> {
    (p: nat) => ContentAt(json, p)
  }

  lemma NoMatchAnywhere(json: JString)
    requires FirstMatch(|json|, 0, ContentMatcher(json)).None?
    ensures forall p | 0 <= p <= |json| :: ContentAt(json, p).None?
  {
    var at := ContentMatcher(json);
    assert forall p | 0 <= p <= |json| :: at(p).None?;
    forall p | 0 <= p <= |json| ensures ContentAt(json, p).None? {
      assert at(p) == ContentAt(json, p);
    }
  }

  /** The leftmost match decides what `extractContent` returns. */
  lemma FirstContent(json: JString, p: nat, span: (nat, nat), body: JString)
    requires ContentAt(json, p) == Some(span) && json[span.0..span.1] == body
    requires forall q | 0 <= q < p :: ContentAt(json, q).None?
    ensures ExtractContent(json) == Some(Unescape(body))
  {
    var at := ContentMatcher(json);
    forall q | 0 <= q < p ensures at(q).None? {
      assert ContentAt(json, q).None?;
    }
    FirstMatchIs(|json|, 0, at, p, span);
  }

  /** The opening `"content":"` of a reply field. */
  const OPEN: JString := KEY + [COLON, QUOTE]

  /** After `"content":"` the match is decided by where the group closes. */
  lemma OpenMatch(json: JString, p: nat, e: nat)
    requires UnitsAt(json, p, OPEN) && p + |OPEN| <= |json| && BodyEnd(json, p + |OPEN|) == Some(e)
    ensures ContentAt(json, p) == Some((p + |OPEN|, e))
  {
    OpenAt(json, p);
    var q := p + |KEY|;
    assert |OPEN| == |KEY| + 2;
    assert q < |json| && json[q] == COLON;
    assert q + 1 < |json| && json[q + 1] == QUOTE;
    ContentAtIs(json, p, q, q + 1, p + |OPEN|, e);
  }

  /** The pattern at `p` with its spaces, colon and opening quote found, and the group from `c` closed at `e`. */
  lemma ContentAtIs(s: JString, p: nat, a: nat, b: nat, c: nat, e: nat)
    requires UnitsAt(s, p, KEY)
    requires SkipWs(s, p + |KEY|) == a && a < |s| && s[a] == COLON
    requires SkipWs(s, a + 1) == b && b < |s| && s[b] == QUOTE
    requires c == b + 1 && BodyEnd(s, c) == Some(e)
    ensures ContentAt(s, p) == Some((c, e))
  {
    assert GroupAt(s, b) == Some((c, e));
    assert ColonAt(s, a) == Some((c, e));
  }

  /** After `"content":"` the pattern's spaces are empty and the group starts. */
  lemma OpenAt(json: JString, p: nat)
    requires UnitsAt(json, p, OPEN)
    ensures UnitsAt(json, p, KEY)
    ensures SkipWs(json, p + |KEY|) == p + |KEY| && json[p + |KEY|] == COLON
    ensures SkipWs(json, p + |KEY| + 1) == p + |KEY| + 1 && json[p + |KEY| + 1] == QUOTE
  {
    UnitsAtSplit(json, p, KEY, [COLON, QUOTE]);
    var q := p + |KEY|;
    assert json[q..q + 2] == [COLON, QUOTE];
    assert json[q] == json[q..q + 2][0];
    assert json[q + 1] == json[q..q + 2][1];
  }

  lemma UnitsAtSplit(s: JString, i: nat, a: JString, b: JString)
    requires UnitsAt(s, i, a + b)
    ensures UnitsAt(s, i, a) && UnitsAt(s, i + |a|, b)
  {
    assert s[i..i + |a|] == s[i..i + |a + b|][..|a|];
    assert s[i + |a|..i + |a| + |b|] == s[i..i + |a + b|][|a|..];
  }

  /** An escaped text is a well-formed body: no free quote, no bare backslash. */
  lemma {:induction false} EscapeIsBody(s: JString)
    ensures IsBody(Escape(s))
    decreases |s|
  {
    if s != [] {
      EscapeIsBody(s[1..]);
      EscapeUnitIsBody(s[0], Escape(s[1..]));
    }
  }

  /** The escape of one unit keeps a well-formed body well-formed when put before it. */
  lemma EscapeUnitIsBody(c: JChar, rest: JString)
    requires IsBody(rest)
    ensures IsBody(EscapeUnit(c) + rest)
  {
    var e := EscapeUnit(c);
    var t := e + rest;
    if |e| == 2 {
      assert t[2..] == rest;
    } else if |e| == 6 {
      assert e == UnicodeEscape(c);
      UnicodeDigitsAreBody(e, rest);
      assert t[2..] == e[2..] + rest;
    } else {
      assert t[1..] == rest;
    }
  }

  /** The four hex digits of a `\uXXXX` escape are plain units of a body. */
  lemma UnicodeDigitsAreBody(e: JString, rest: JString)
    requires |e| == 6 && forall k | 2 <= k < 6 :: e[k] != BACKSLASH && e[k] != QUOTE
    requires IsBody(rest)
    ensures IsBody(e[2..] + rest)
  {
    assert IsBody([e[5]] + rest) by { assert ([e[5]] + rest)[1..] == rest; }
    assert IsBody([e[4], e[5]] + rest) by { assert ([e[4], e[5]] + rest)[1..] == [e[5]] + rest; }
    assert IsBody([e[3], e[4], e[5]] + rest) by {
      assert ([e[3], e[4], e[5]] + rest)[1..] == [e[4], e[5]] + rest;
    }
    assert e[2..] == [e[2], e[3], e[4], e[5]];
    assert (e[2..] + rest)[1..] == [e[3], e[4], e[5]] + rest;
  }

  /** Where the parts of `pre + OPEN + body + "\"" + post` sit. */
  lemma ReadBackLayout(pre: JString, body: JString, post: JString)
    ensures var json := pre + OPEN + body + [QUOTE] + post;
      && UnitsAt(json, |pre|, OPEN)
      && UnitsAt(json, |pre| + |OPEN|, body + [QUOTE])
      && json[|pre| + |OPEN|..|pre| + |OPEN| + |body|] == body
  {
    var json := pre + OPEN + body + [QUOTE] + post;
    assert json == pre + (OPEN + ((body + [QUOTE]) + post));
    SplitAt(json, pre, OPEN, (body + [QUOTE]) + post);
    SplitAt(json, pre + OPEN, body + [QUOTE], post);
    UnitsAtSplit(json, |pre| + |OPEN|, body, [QUOTE]);
  }

  /**
    The reply field written as `"content":"` + escaped text + `"` is read back
    unchanged, when nothing before it already matches the pattern.
  */
  lemma ContentReadBack(pre: JString, s: JString, post: JString)
    requires forall p | 0 <= p < |pre| :: ContentAt(pre + OPEN + Escape(s) + [QUOTE] + post, p).None?
    ensures ExtractContent(pre + OPEN + Escape(s) + [QUOTE] + post) == Some(s)
  {
    var json := pre + OPEN + Escape(s) + [QUOTE] + post;
    var e := Escape(s);
    var p := |pre|;
    var c := p + |OPEN|;
    ReadBackLayout(pre, e, post);
    EscapeIsBody(s);
    BodyEndAfter(json, c, e);
    OpenMatch(json, p, c + |e|);
    FirstContent(json, p, (c, c + |e|), e);
    UnescapeEscape(s);
  }

  /** The middle part of a concatenation sits right after the first. */
  lemma SplitAt(s: JString, a: JString, b: JString, c: JString)
    requires s == a + b + c
    ensures UnitsAt(s, |a|, b)
  {
    assert s[|a|..|a| + |b|] == b;
  }

  // ---------------------------------------------------------------------
  // summarize
  // ---------------------------------------------------------------------

  /** A digest keeps at most this many units, then marks the cut. */
  const SummaryLimit: nat := 200
  const Ellipsis: JString := ['.' as int, '.' as int, '.' as int]

  /** White space occurs only as single spaces. */
  predicate Collapsed(s: JString) {
    forall k | 0 <= k < |s| && IsWs(s[k]) :: s[k] == SPACE && (k + 1 < |s| ==> !IsWs(s[k + 1]))
  }

  /** The text after its leading run of white space. */
  function DropWs(s: JString): (r: JString)
    ensures |r| <= |s| && r == s[|s| - |r|..]
    ensures r == [] || !IsWs(r[0])
    ensures s != [] && IsWs(s[0]) ==> |r| < |s|
  {
    if s != [] && IsWs(s[0]) then DropWs(s[1..]) else s
  }

  /** Putting a unit in front keeps a text collapsed when it is no second white space. */
  lemma CollapsedCons(c: JChar, r: JString)
    requires Collapsed(r)
    requires IsWs(c) ==> c == SPACE && (r == [] || !IsWs(r[0]))
    ensures Collapsed([c] + r)
  {
    var s := [c] + r;
    forall k | 0 <= k < |s| && IsWs(s[k]) ensures s[k] == SPACE && (k + 1 < |s| ==> !IsWs(s[k + 1])) {
      if k > 0 {
        assert s[k] == r[k - 1];
      }
    }
  }

  /** `replaceAll("\\s+", " ")`: each run of white space becomes one space. */
  function CollapseWs(s: JString): (r: JString)
    ensures Collapsed(r)
    ensures s != [] && !IsWs(s[0]) ==> r != [] && r[0] == s[0]
    decreases |s|
  {
    if s == [] then []
    else if IsWs(s[0]) then
      var rest := CollapseWs(DropWs(s));
      CollapsedCons(SPACE, rest);
      [SPACE] + rest
    else
      var rest := CollapseWs(s[1..]);
      CollapsedCons(s[0], rest);
      [s[0]] + rest
  }

  function TrimStartUnits(s: JString): (r: JString)
    ensures |r| <= |s| && r == s[|s| - |r|..]
    ensures r != [] ==> r[0] > SPACE
  {
    if s != [] && s[0] <= SPACE then TrimStartUnits(s[1..]) else s
  }

  function TrimEndUnits(s: JString): (r: JString)
    ensures |r| <= |s| && r == s[..|r|]
    ensures r != [] ==> r[|r| - 1] > SPACE
  {
    if s != [] && s[|s| - 1] <= SPACE then TrimEndUnits(s[..|s| - 1]) else s
  }

  /** `trim()` on code units: drops units up to U+0020 at both ends. */
  function TrimUnits(s: JString): (r: JString)
    ensures r != [] ==> r[0] > SPACE && r[|r| - 1] > SPACE
  {
    TrimEndUnits(TrimStartUnits(s))
  }

  /**
    `summarize(body)`: nothing for a null body; otherwise the body with white
    space collapsed and trimmed, cut to 200 units followed by "..." when longer.
  */
  function Summarize(body: Option<JString>): (r: JString)
    ensures |r| <= SummaryLimit + |Ellipsis|
    ensures body.None? ==> r == []
  {
    match body
    case None => []
    case Some(b) =>
      var t := TrimUnits(CollapseWs(b));
      if |t| > SummaryLimit then t[..SummaryLimit] + Ellipsis else t
  }

  /** A piece of a collapsed text is collapsed. */
  lemma CollapsedSlice(s: JString, i: nat, j: nat)
    requires Collapsed(s) && i <= j <= |s|
    ensures Collapsed(s[i..j])
  {
    var t := s[i..j];
    forall k | 0 <= k < |t| && IsWs(t[k]) ensures t[k] == SPACE && (k + 1 < |t| ==> !IsWs(t[k + 1])) {
      assert t[k] == s[i + k];
      if k + 1 < |t| {
        assert t[k + 1] == s[i + k + 1];
      }
    }
  }

  /** Two collapsed texts joined where the second does not start with white space. */
  lemma CollapsedAppend(a: JString, b: JString)
    requires Collapsed(a) && Collapsed(b) && (b == [] || !IsWs(b[0]))
    ensures Collapsed(a + b)
  {
    var s := a + b;
    forall k | 0 <= k < |s| && IsWs(s[k]) ensures s[k] == SPACE && (k + 1 < |s| ==> !IsWs(s[k + 1])) {
      if k < |a| {
        assert s[k] == a[k];
        if k + 1 < |a| {
          assert s[k + 1] == a[k + 1];
        } else if k + 1 < |s| {
          assert s[k + 1] == b[0];
        }
      } else {
        assert s[k] == b[k - |a|];
        if k + 1 < |s| {
          assert s[k + 1] == b[k + 1 - |a|];
        }
      }
    }
  }

  /** Collapsing white space changes nothing in a collapsed text. */
  lemma {:induction false} CollapseFixed(s: JString)
    requires Collapsed(s)
    ensures CollapseWs(s) == s
    decreases |s|
  {
    if s != [] {
      var r := s[1..];
      CollapsedSlice(s, 1, |s|);
      CollapseFixed(r);
      CollapseHead(s);
      assert s == [s[0]] + r;
    }
  }

  /** In a collapsed text the first unit is kept and collapsing goes on with the rest. */
  lemma CollapseHead(s: JString)
    requires Collapsed(s) && s != []
    ensures CollapseWs(s) == [s[0]] + CollapseWs(s[1..])
  {
    if IsWs(s[0]) {
      SingleSpaceHead(s);
      CollapseSpaceHead(s);
    } else {
      CollapsePlainHead(s);
    }
  }

  /** White space at the head of a collapsed text is one space. */
  lemma SingleSpaceHead(s: JString)
    requires Collapsed(s) && s != [] && IsWs(s[0])
    ensures s[0] == SPACE && (|s| > 1 ==> !IsWs(s[1]))
  {
  }

  /** A single leading space is collapsed to itself. */
  lemma CollapseSpaceHead(s: JString)
    requires s != [] && s[0] == SPACE && (|s| > 1 ==> !IsWs(s[1]))
    ensures CollapseWs(s) == [SPACE] + CollapseWs(s[1..])
  {
    var r := s[1..];
    assert DropWs(r) == r;
    assert DropWs(s) == r;
  }

  /** A leading unit that is not white space is kept. */
  lemma CollapsePlainHead(s: JString)
    requires s != [] && !IsWs(s[0])
    ensures CollapseWs(s) == [s[0]] + CollapseWs(s[1..])
  {
  }

  /** Trimming keeps a collapsed text collapsed, and changes nothing when both ends are above U+0020. */
  lemma TrimCollapsed(s: JString)
    requires Collapsed(s)
    ensures Collapsed(TrimUnits(s))
    ensures s == [] || (s[0] > SPACE && s[|s| - 1] > SPACE) ==> TrimUnits(s) == s
  {
    var a := TrimStartUnits(s);
    CollapsedSlice(s, |s| - |a|, |s|);
    CollapsedSlice(a, 0, |TrimEndUnits(a)|);
  }

  /**
    A digest is one line: white space only as single spaces, nothing up to
    U+0020 at either end, at most 200 units plus the "..." mark.
  */
  lemma SummarizeShape(body: Option<JString>)
    ensures Collapsed(Summarize(body))
    ensures Summarize(body) == [] || (Summarize(body)[0] > SPACE && Summarize(body)[|Summarize(body)| - 1] > SPACE)
    ensures |Summarize(body)| <= SummaryLimit || Summarize(body)[SummaryLimit..] == Ellipsis
  {
    if body.Some? {
      var t := TrimUnits(CollapseWs(body.value));
      TrimCollapsed(CollapseWs(body.value));
      if |t| > SummaryLimit {
        CollapsedSlice(t, 0, SummaryLimit);
        CollapsedAppend(t[..SummaryLimit], Ellipsis);
        assert (t[..SummaryLimit] + Ellipsis)[SummaryLimit..] == Ellipsis;
      }
    }
  }

  /** Summarising a digest again gives the same digest. */
  lemma SummarizeIdempotent(body: Option<JString>)
    ensures Summarize(Some(Summarize(body))) == Summarize(body)
  {
    SummarizeShape(body);
    DigestIsFixed(Summarize(body));
  }

  /** A text of the digest's shape is its own digest. */
  lemma DigestIsFixed(r: JString)
    requires Collapsed(r) && (r == [] || (r[0] > SPACE && r[|r| - 1] > SPACE))
    requires |r| <= SummaryLimit || r[SummaryLimit..] == Ellipsis
    ensures Summarize(Some(r)) == r
  {
    CollapseFixed(r);
    TrimCollapsed(r);
    if |r| > SummaryLimit {
      CutDigestIsFixed(r);
    }
  }

  /** A long digest is its first 200 units and the mark. */
  lemma CutDigestIsFixed(r: JString)
    requires |r| > SummaryLimit && r[SummaryLimit..] == Ellipsis
    ensures r[..SummaryLimit] + Ellipsis == r
  {
    assert r[..SummaryLimit] + r[SummaryLimit..] == r;
  }

  // ---------------------------------------------------------------------
  // buildPayload
  // ---------------------------------------------------------------------

  /** One turn of the conversation: who speaks (`system`, `user`, `assistant`) and what. */
  datatype ChatMessage = ChatMessage(role: JString, content: JString)

  const DefaultModel: JString := Units("llama3-70b-versatile")
  const MaxTokens: nat := 600

  /** The instruction that opens every request. */
  const SystemPrompt: ChatMessage := ChatMessage(Units("system"),
    Units("You are a helpful repository assistant embedded inside a Java Swing application. ")
    + Units("Provide concise, actionable answers and include code snippets when needed."))

  /** `{"role":"`, unit by unit. */
  const RoleOpen: JString := ['{' as int, QUOTE, 'r' as int, 'o' as int, 'l' as int, 'e' as int, QUOTE, ':' as int, QUOTE]
  const RoleClose: JString := [QUOTE, COMMA]
  const MessageClose: JString := [QUOTE, '}' as int]

  /**
    `appendMessageJson`: the role as it is, the content escaped.  The content
    is written after `","content":"`, the key `extractContent` looks for.
  */
  function MessageJson(m: ChatMessage): (j: JString)
    ensures |j| == |RoleOpen| + |m.role| + |RoleClose| + |OPEN| + |Escape(m.content)| + |MessageClose|
  {
    RoleOpen + m.role + RoleClose + OPEN + Escape(m.content) + MessageClose
  }

  /** The request up to the opening bracket of the message list. */
  const PayloadHead: JString := Units("{\"model\":\"") + DefaultModel
    + Units("\",\"temperature\":0.2,\"max_tokens\":") + Units(NatToString(MaxTokens))
    + Units(",\"messages\":[")
  const PayloadTail: JString := [']' as int, '}' as int]

  /** The request up to and including the system prompt. */
  const Opening: JString := PayloadHead + MessageJson(SystemPrompt)

  /** `start`, then the first `n` messages, each after a comma. */
  function MessagesText(start: JString, ms: seq<ChatMessage>, n: nat): (t: JString)
    requires n <= |ms|
  {
    Joined(start, Entries(ms), n)
  }

  /** What each message adds to the list: a comma and its JSON object. */
  function Entries(ms: seq<ChatMessage>): (es: seq<JString>)
    ensures |es| == |ms|
  {
    seq(|ms|, i requires 0 <= i < |ms| => [COMMA] + MessageJson(ms[i]))
  }

  /** `buildPayload(messages)`. */
  function Payload(ms: seq<ChatMessage>): JString {
    MessagesText(Opening, ms, |ms|) + PayloadTail
  }

  /** `appendMessageJson(sb, message)`. */
  method AppendMessageJson(sb: JString, message: ChatMessage) returns (r: JString)
    ensures r == sb + MessageJson(message)
  {
    var content := EscapeJson(message.content);
    r := sb + RoleOpen + message.role + RoleClose + OPEN + content + MessageClose;
  }

  /** `buildPayload`: the head, the system prompt, each message after a comma, then `]}`. */
  method BuildPayload(messages: seq<ChatMessage>) returns (payload: JString)
    ensures payload == Payload(messages)
  {
    payload := PayloadHead;
    payload := AppendMessageJson(payload, SystemPrompt);
    payload := AppendMessages(payload, messages);
    payload := payload + PayloadTail;
  }

  /** The loop of `buildPayload`: each message, after a comma, appended to what is already written. */
  method AppendMessages(start: JString, messages: seq<ChatMessage>) returns (payload: JString)
    ensures payload == MessagesText(start, messages, |messages|)
  {
    payload := start;
    var i := 0;
    while i < |messages|
      invariant i <= |messages|
      invariant payload == MessagesText(start, messages, i)
    {
      ghost var before := payload;
      payload := payload + [COMMA];
      payload := AppendMessageJson(payload, messages[i]);
      Regroup(before, [COMMA], MessageJson(messages[i]));
      MessagesTextStep(start, messages, i + 1);
      i := i + 1;
    }
  }

  /** What `{"role":"` + role + `",` at the head of `json` puts at each position. */
  lemma RoleLayout(json: JString, role: JString)
    requires UnitsAt(json, 0, RoleOpen + role + RoleClose)
    requires QUOTE !in role
    ensures forall q | 0 <= q < 9 :: json[q] == RoleOpen[q]
    ensures forall q | 9 <= q < 9 + |role| :: json[q] != QUOTE
    ensures json[9 + |role|] == QUOTE && json[10 + |role|] == COMMA
  {
    var n := |role|;
    var pre := RoleOpen + role + RoleClose;
    assert json[..|pre|] == pre;
    assert forall q | 0 <= q < 9 :: json[q] == pre[q] == RoleOpen[q];
    assert forall q | 9 <= q < 9 + n :: json[q] == pre[q] == role[q - 9];
    assert json[9 + n] == pre[9 + n] && json[10 + n] == pre[10 + n];
  }

  /** The key `"content"` can start in that head only right after `{"role":`, with the role `content`. */
  lemma KeyInRole(json: JString, role: JString, p: nat)
    requires UnitsAt(json, 0, RoleOpen + role + RoleClose)
    requires QUOTE !in role
    requires p < |RoleOpen| + |role| + |RoleClose|
    requires UnitsAt(json, p, KEY)
    ensures p == 8 && |role| == 7
  {
    var n := |role|;
    RoleLayout(json, role);
    assert json[p..p + 9] == KEY;
    assert forall k | 0 <= k < 9 :: json[p + k] == KEY[k];
    assert KEY[1] == ContentWord[0] && KEY[8] == QUOTE;
    assert json[p] == QUOTE && json[p + 1] == 'c' as int && json[p + 8] == QUOTE;
    assert forall k | 1 <= k < 8 :: KEY[k] == ContentWord[k - 1] != QUOTE;
    assert 1 + n < 9 ==> json[p + (1 + n)] == KEY[1 + n];
  }

  /** No `"content"` match starts inside `{"role":"` + role + `",` when the role has no quote. */
  lemma RoleHidesNoContent(json: JString, role: JString, p: nat)
    requires UnitsAt(json, 0, RoleOpen + role + RoleClose)
    requires QUOTE !in role
    requires p < |RoleOpen| + |role| + |RoleClose|
    ensures ContentAt(json, p).None?
  {
    if UnitsAt(json, p, KEY) {
      KeyInRole(json, role, p);
      RoleLayout(json, role);
      assert json[17] == COMMA;
      assert SkipWs(json, 17) == 17;
      assert ColonAt(json, 17).None?;
    }
  }

  /**
    The content of a message whose role has no quote is what `extractContent`
    reads back from the message's own JSON object.
  */
  lemma MessageReadBack(m: ChatMessage)
    requires QUOTE !in m.role
    ensures ExtractContent(MessageJson(m)) == Some(m.content)
  {
    var pre := RoleOpen + m.role + RoleClose;
    var post: JString := ['}' as int];
    var json := MessageJson(m);
    assert json == pre + OPEN + Escape(m.content) + [QUOTE] + post;
    assert UnitsAt(json, 0, pre) by {
      assert json[..|pre|] == pre;
    }
    forall p | 0 <= p < |pre| ensures ContentAt(json, p).None? {
      RoleHidesNoContent(json, m.role, p);
    }
    ContentReadBack(pre, m.content, post);
  }

  /** The text of the first `m` messages is the start of the text of the first `n`. */
  lemma MessagesTextExtends(start: JString, ms: seq<ChatMessage>, m: nat, n: nat)
    requires m <= n <= |ms|
    ensures |MessagesText(start, ms, m)| <= |MessagesText(start, ms, n)|
    ensures MessagesText(start, ms, n)[..|MessagesText(start, ms, m)|] == MessagesText(start, ms, m)
  {
    JoinedExtends(start, Entries(ms), m, n);
  }

  lemma MessagesTextStep(start: JString, ms: seq<ChatMessage>, n: nat)
    requires 0 < n <= |ms|
    ensures MessagesText(start, ms, n) == MessagesText(start, ms, n - 1) + ([COMMA] + MessageJson(ms[n - 1]))
  {
  }

  /** A concatenation at the start of `s` places its second part right after its first. */
  lemma PrefixPlaces(s: JString, a: JString, b: JString)
    requires |a + b| <= |s| && s[..|a + b|] == a + b
    ensures UnitsAt(s, |a|, b)
  {
    assert s[|a|..|a| + |b|] == (a + b)[|a|..];
  }

  /** Message `i` follows the text of the messages before it and a comma. */
  lemma MessageAt(start: JString, ms: seq<ChatMessage>, tail: JString, i: nat)
    requires i < |ms|
    ensures UnitsAt(MessagesText(start, ms, |ms|) + tail, |MessagesText(start, ms, i)|, [COMMA] + MessageJson(ms[i]))
  {
    var text := MessagesText(start, ms, |ms|);
    var all := text + tail;
    var before := MessagesText(start, ms, i);
    var upto := MessagesText(start, ms, i + 1);
    var e := [COMMA] + MessageJson(ms[i]);
    MessagesTextStep(start, ms, i + 1);
    MessagesTextExtends(start, ms, i + 1, |ms|);
    PrefixOfLonger(text, tail, |upto|);
    assert all[..|before + e|] == before + e;
    PrefixPlaces(all, before, e);
  }

  /** The list starts with `start` and ends with the tail. */
  lemma ListEnds(start: JString, ms: seq<ChatMessage>, tail: JString)
    ensures UnitsAt(MessagesText(start, ms, |ms|) + tail, 0, start)
    ensures |MessagesText(start, ms, |ms|) + tail| >= |tail|
    ensures (MessagesText(start, ms, |ms|) + tail)[|MessagesText(start, ms, |ms|) + tail| - |tail|..] == tail
  {
    var text := MessagesText(start, ms, |ms|);
    MessagesTextExtends(start, ms, 0, |ms|);
    assert (text + tail)[..|start|] == text[..|start|];
  }

  /**
    The layout of the request body: the head and the system prompt first,
    then each message, in order, after a comma, and `]}` at the end.
  */
  lemma PayloadLayout(ms: seq<ChatMessage>)
    ensures UnitsAt(Payload(ms), 0, Opening)
    ensures forall i | 0 <= i < |ms| :: UnitsAt(Payload(ms), |MessagesText(Opening, ms, i)|, [COMMA] + MessageJson(ms[i]))
    ensures |Payload(ms)| >= |PayloadTail| && Payload(ms)[|Payload(ms)| - |PayloadTail|..] == PayloadTail
  {
    ListEnds(Opening, ms, PayloadTail);
    forall i | 0 <= i < |ms|
      ensures UnitsAt(Payload(ms), |MessagesText(Opening, ms, i)|, [COMMA] + MessageJson(ms[i]))
    {
      MessageAt(Opening, ms, PayloadTail, i);
    }
  }

  /**
    The role is written without escaping: a role that closes itself and opens
    a content field of its own, `","content":"` + escaped `x`, makes
    `extractContent` read `x`, whatever the message's content is.
  */
  lemma RoleIsNotEscaped(x: JString, content: JString)
    ensures ExtractContent(MessageJson(ChatMessage(RoleClose + OPEN + Escape(x), content))) == Some(x)
  {
    var m := ChatMessage(RoleClose + OPEN + Escape(x), content);
    var json := MessageJson(m);
    var pre := RoleOpen + RoleClose;
    var post := [COMMA] + OPEN + Escape(content) + MessageClose;
    Reassociate(RoleOpen, RoleClose, OPEN, Escape(x), [QUOTE], [COMMA], Escape(content), MessageClose);
    assert json == pre + OPEN + Escape(x) + [QUOTE] + post;
    Regroup(pre, OPEN + Escape(x) + [QUOTE], post);
    Regroup(pre, OPEN + Escape(x), [QUOTE]);
    Regroup(pre, OPEN, Escape(x));
    StartAt(json, pre, OPEN + Escape(x) + [QUOTE] + post);
    AppendNothing(RoleOpen);
    forall p | 0 <= p < |pre| ensures ContentAt(json, p).None? {
      RoleHidesNoContent(json, [], p);
    }
    ContentReadBack(pre, x, post);
  }

  lemma Reassociate<T>(ro: seq<T>, rc: seq<T>, op: seq<T>, ex: seq<T>, q: seq<T>, cm: seq<T>, ec: seq<T>, mc: seq<T>)
    requires rc == q + cm
    ensures ro + (rc + op + ex) + rc + op + ec + mc == ro + rc + op + ex + q + (cm + op + ec + mc)
  {
  }

  lemma StartAt(s: JString, a: JString, b: JString)
    requires s == a + b
    ensures UnitsAt(s, 0, a)
  {
    assert s[..|a|] == a;
  }
}
