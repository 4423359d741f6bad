/**
  Path and source-text helpers shared by the relationship classifier, the
  metrics calculator and the diagram builder: the simple name of a file, the
  comment/literal stripper, and the two self-declaration tests.
*/
module SourceUtils {
  import opened JavaText

  // ---------------------------------------------------------------------
  // simpleName
  // ---------------------------------------------------------------------

  /**
    The last path segment after either separator, with one trailing ".java"
    removed; a null path gives "".
  */
  function SimpleName(path: Option<string>): (r: string)
    ensures path.None? ==> r == ""
    ensures '/' !in r && '\\' !in r
  {
    match path
    case None => ""
    case Some(p) =>
      var normalized := ReplaceChar(p, '\\', '/');
      assert '\\' !in normalized;
      Stem(LastSegment(normalized))
  }

  /** What follows the last '/', the whole text when there is none. */
  function LastSegment(s: string): (r: string)
    ensures '/' !in r
    ensures forall c | c in r :: c in s
  {
    s[LastIndexOfChar(s, '/') + 1..]
  }

  /** What `SimpleName` keeps of a final segment: one ".java" suffix removed. */
  function Stem(segment: string): (r: string)
    ensures forall c | c in r :: c in segment
  {
    if EndsWith(segment, ".java") then segment[..|segment| - 5] else segment
  }

  /** After a '/' the last segment is all that follows it, when that holds no '/'. */
  lemma LastSegmentAfter(dir: string, segment: string)
    requires '/' !in segment
    ensures LastSegment(dir + ['/'] + segment) == segment
  {
    var s := dir + ['/'] + segment;
    assert s[|dir|] == '/';
    forall k | |dir| < k < |s|
      ensures s[k] != '/'
    {
      assert s[k] == segment[k - |dir| - 1];
    }
    assert s[|dir| + 1..] == segment;
  }

  /** Either separator becomes '/', and a segment without separators is left as it is. */
  lemma NormalizeSeparated(dir: string, sep: char, segment: string)
    requires sep == '/' || sep == '\\'
    requires '/' !in segment && '\\' !in segment
    ensures ReplaceChar(dir + [sep] + segment, '\\', '/') == ReplaceChar(dir, '\\', '/') + ['/'] + segment
  {
    var p := dir + [sep] + segment;
    var q := ReplaceChar(dir, '\\', '/') + ['/'] + segment;
    forall k | 0 <= k < |p|
      ensures ReplaceChar(p, '\\', '/')[k] == q[k]
    {
      if k > |dir| {
        assert p[k] == segment[k - |dir| - 1];
      }
    }
  }

  /**
    Whatever directory part precedes it, the simple name of a path is its last
    segment with exactly one ".java" suffix removed: putting the suffix back
    gives the segment again.
  */
  lemma SimpleNameOfSegment(dir: string, sep: char, segment: string)
    requires sep == '/' || sep == '\\'
    requires '/' !in segment && '\\' !in segment
    ensures SimpleName(Some(dir + [sep] + segment)) == Stem(segment)
    ensures SimpleName(Some(segment)) == Stem(segment)
    ensures Stem(segment) + (if EndsWith(segment, ".java") then ".java" else "") == segment
  {
    SimpleNameAfterSeparator(dir, sep, segment);
    SimpleNameOfBareSegment(segment);
    StemRestores(segment);
  }

  lemma SimpleNameAfterSeparator(dir: string, sep: char, segment: string)
    requires sep == '/' || sep == '\\'
    requires '/' !in segment && '\\' !in segment
    ensures SimpleName(Some(dir + [sep] + segment)) == Stem(segment)
  {
    NormalizeSeparated(dir, sep, segment);
    LastSegmentAfter(ReplaceChar(dir, '\\', '/'), segment);
  }

  lemma SimpleNameOfBareSegment(segment: string)
    requires '/' !in segment && '\\' !in segment
    ensures SimpleName(Some(segment)) == Stem(segment)
  {
    assert ReplaceChar(segment, '\\', '/') == segment;
    assert LastIndexOfChar(segment, '/') == -1;
  }

  /** Putting the removed suffix back gives the segment again. */
  lemma StemRestores(segment: string)
    ensures Stem(segment) + (if EndsWith(segment, ".java") then ".java" else "") == segment
  {
    if EndsWith(segment, ".java") {
      assert segment[..|segment| - 5] + ".java" == segment;
    }
  }

  // ---------------------------------------------------------------------
  // stripCommentsAndStrings: four successive replaceAll passes
  // ---------------------------------------------------------------------

  /**
    Pass 1, the reluctant DOTALL block-comment pattern replaced by " ": at each
    comment opener the comment runs to the first closer that starts after the
    opener's two characters; an opener that is never closed is kept.
  */
  function StripBlockComments(s: string): (r: string)
    decreases |s|
  {
    if |s| < 2 then s
    else if s[..2] == "/*" then
      var close := IndexOf(s, "*/", 2);
      if close < 0 then [s[0]] + StripBlockComments(s[1..])
      else " " + StripBlockComments(s[close + 2..])
    else [s[0]] + StripBlockComments(s[1..])
  }

  predicate NotLineTerminator(c: char) {
    !IsLineTerminator(c)
  }

  /**
    Pass 2, `(?m)//.*` replaced by " ": from "//" to just before the next line
    terminator (the regex `.` stops there).
  */
  function StripLineComments(s: string): (r: string)
    decreases |s|
  {
    if |s| < 2 then s
    else if s[..2] == "//" then " " + StripLineComments(s[RunEnd(s, 2, NotLineTerminator)..])
    else [s[0]] + StripLineComments(s[1..])
  }

  /**
    Passes 3 and 4, `"([^"\\]|\\.)*"` replaced by `""` and the same with `'`:
    a literal whose body scans to a closing quote collapses to two quotes; an
    unclosed quote is kept and the scan resumes after it.
  */
  function CollapseLiterals(s: string, q: char): (r: string)
    requires q != '\\'
    decreases |s|
  {
    if s == [] then s
    else if s[0] == q then
      match QuotedBodyEnd(s, 1, q)
      case Some(close) => [q, q] + CollapseLiterals(s[close + 1..], q)
      case None => [s[0]] + CollapseLiterals(s[1..], q)
    else [s[0]] + CollapseLiterals(s[1..], q)
  }

  /**
    `stripCommentsAndStrings`: block comments, then line comments, then
    double-quoted literals, then character literals; null gives "".
  */
  function StripCommentsAndStrings(src: Option<string>): (r: string)
    ensures src.None? ==> r == ""
  {
    match src
    case None => ""
    case Some(s) =>
      CollapseLiterals(CollapseLiterals(StripLineComments(StripBlockComments(s)), '"'), '\'')
  }

  lemma {:induction false} BlockPassKeepsSlashFree(s: string)
    requires '/' !in s
    ensures StripBlockComments(s) == s
    decreases |s|
  {
    if |s| >= 2 {
      assert s[0] != '/';
      BlockPassKeepsSlashFree(s[1..]);
    }
  }

  lemma {:induction false} LinePassKeepsSlashFree(s: string)
    requires '/' !in s
    ensures StripLineComments(s) == s
    decreases |s|
  {
    if |s| >= 2 {
      assert s[0] != '/';
      LinePassKeepsSlashFree(s[1..]);
    }
  }

  lemma {:induction false} CollapseKeepsQuoteFree(s: string, q: char)
    requires q != '\\' && q !in s
    ensures CollapseLiterals(s, q) == s
    decreases |s|
  {
    if s != [] {
      assert s[0] != q;
      CollapseKeepsQuoteFree(s[1..], q);
    }
  }

  /** Four pieces without '/', '"' or '\'' joined: still none of them. */
  lemma PlainJoin(a: string, b: string, c: string, d: string)
    requires '/' !in a && '"' !in a && '\'' !in a
    requires '/' !in b && '"' !in b && '\'' !in b
    requires '/' !in c && '"' !in c && '\'' !in c
    requires '/' !in d && '"' !in d && '\'' !in d
    ensures var s := a + b + c + d; '/' !in s && '"' !in s && '\'' !in s
  {
  }

  /** Text without '/', '"' or '\'' has nothing to strip. */
  lemma StripLeavesPlainText(s: string)
    requires '/' !in s && '"' !in s && '\'' !in s
    ensures StripCommentsAndStrings(Some(s)) == s
  {
    BlockPassKeepsSlashFree(s);
    LinePassKeepsSlashFree(s);
    CollapseKeepsQuoteFree(s, '"');
    CollapseKeepsQuoteFree(s, '\'');
  }

  /** No two adjacent slashes, i.e. no line-comment opener. */
  predicate NoDoubleSlash(s: string) {
    forall k | 0 <= k < |s| - 1 :: !(s[k] == '/' && s[k + 1] == '/')
  }

  lemma {:induction false} LinePassFirstChar(s: string)
    requires s != []
    ensures StripLineComments(s) != []
    ensures StripLineComments(s)[0] == (if |s| >= 2 && s[..2] == "//" then ' ' else s[0])
  {
  }

  /** A line comment, up to but not including its line terminator, becomes one space. */
  lemma LineCommentBecomesSpace(c: string, b: string)
    requires forall k | 0 <= k < |c| :: !IsLineTerminator(c[k])
    requires b == [] || IsLineTerminator(b[0])
    ensures StripLineComments("//" + c + b) == " " + StripLineComments(b)
  {
    var s := "//" + c + b;
    var n := |c| + 2;
    assert s[..2] == "//";
    forall k | 2 <= k < n ensures NotLineTerminator(s[k]) {
      assert s[k] == c[k - 2];
    }
    if b != [] {
      assert s[n] == b[0];
    }
    assert RunEnd(s, 2, NotLineTerminator) == n;
    assert s[n..] == b;
  }

  lemma {:induction false} LinePassRemovesOpeners(s: string)
    ensures NoDoubleSlash(StripLineComments(s))
    decreases |s|
  {
    if |s| >= 2 {
      if s[..2] == "//" {
        var rest := s[RunEnd(s, 2, NotLineTerminator)..];
        LinePassRemovesOpeners(rest);
        if rest != [] {
          LinePassFirstChar(rest);
        }
      } else {
        LinePassRemovesOpeners(s[1..]);
        LinePassFirstChar(s[1..]);
      }
    }
  }

  lemma {:induction false} CollapseFirstChar(s: string, q: char)
    requires q != '\\' && s != []
    ensures CollapseLiterals(s, q) != [] && CollapseLiterals(s, q)[0] == s[0]
  {
  }

  lemma {:induction false} CollapseKeepsNoDoubleSlash(s: string, q: char)
    requires q != '\\' && q != '/'
    requires NoDoubleSlash(s)
    ensures NoDoubleSlash(CollapseLiterals(s, q))
    decreases |s|
  {
    if s != [] {
      if s[0] == q && QuotedBodyEnd(s, 1, q).Some? {
        var close := QuotedBodyEnd(s, 1, q).value;
        CollapseKeepsNoDoubleSlash(s[close + 1..], q);
      } else {
        CollapseKeepsNoDoubleSlash(s[1..], q);
        if |s| >= 2 {
          CollapseFirstChar(s[1..], q);
        }
      }
    }
  }

  /** No "//" survives stripping: every line comment has become one space. */
  lemma StripRemovesLineCommentOpeners(src: Option<string>)
    ensures NoDoubleSlash(StripCommentsAndStrings(src))
  {
    if src.Some? {
      var s := StripLineComments(StripBlockComments(src.value));
      LinePassRemovesOpeners(StripBlockComments(src.value));
      CollapseKeepsNoDoubleSlash(s, '"');
      CollapseKeepsNoDoubleSlash(CollapseLiterals(s, '"'), '\'');
    }
  }

  /**
    A literal whose body is plain characters and escape pairs (so an escaped
    quote does not end it) collapses to two quotes.
  */
  lemma CollapseClosedLiteral(body: string, rest: string, q: char)
    requires q != '\\'
    requires EscapedBody(body, q)
    ensures CollapseLiterals([q] + body + [q] + rest, q) == [q, q] + CollapseLiterals(rest, q)
  {
    var s := [q] + body + [q] + rest;
    assert LitAt(s, 1, body + [q]) by {
      assert s[1..1 + |body| + 1] == body + [q];
    }
    QuotedBodyEndAfter(s, 1, body, q);
    assert s[|body| + 2..] == rest;
  }

  /** "a\"b": the escaped quote stays inside the literal. */
  lemma EscapedQuoteStaysInside(rest: string)
    ensures CollapseLiterals("\"a\\\"b\"" + rest, '"') == "\"\"" + CollapseLiterals(rest, '"')
  {
    var body := "a\\\"b";
    assert EscapedBody(body[3..], '"');
    assert EscapedBody(body[1..], '"');
    assert EscapedBody(body, '"');
    assert "\"a\\\"b\"" + rest == ['"'] + body + ['"'] + rest;
    CollapseClosedLiteral(body, rest, '"');
  }

  /**
    Comments are removed before literals: in the literal `"//"` the two slashes
    start a line comment, which eats the closing quote, and the opening quote
    is left unclosed.
  */
  lemma SlashesInsideStringStartAComment()
    ensures StripCommentsAndStrings(Some("\"//\"")) == "\" "
  {
    var s := "\"//\"";
    assert StripBlockComments(s) == s by {
      assert s[..2] != "/*";
      assert s[1..][..2] != "/*";
      assert s[2..][..2] != "/*";
    }
    assert StripLineComments(s) == "\" " by {
      assert s[1..][..2] == "//";
      assert RunEnd(s[1..], 2, NotLineTerminator) == 3;
    }
    assert QuotedBodyEnd("\" ", 1, '"') == None;
  }

  /** A prefix without '/' passes through the line pass untouched. */
  lemma {:induction false} LineCommentsAfterPlainPrefix(s: string, n: nat)
    requires n <= |s| && '/' !in s[..n]
    ensures StripLineComments(s) == s[..n] + StripLineComments(s[n..])
    decreases n
  {
    if n > 0 {
      assert s[..n][0] == s[0] != '/';
      if |s| >= 2 {
        LinePassPlainStep(s);
        assert s[1..][..n - 1] == s[1..n];
        LineCommentsAfterPlainPrefix(s[1..], n - 1);
        assert s[1..][n - 1..] == s[n..];
        assert s[..n] == [s[0]] + s[1..n];
      } else {
        assert s[n..] == [];
      }
    }
  }

  /** A first character other than '/' is copied by the line pass. */
  lemma LinePassPlainStep(s: string)
    requires |s| >= 2 && s[0] != '/'
    ensures StripLineComments(s) == [s[0]] + StripLineComments(s[1..])
  {
    assert s[..2][0] == s[0];
  }

  /** A prefix without the quote passes through a literal pass untouched. */
  lemma {:induction false} CollapseAfterQuoteFreePrefix(s: string, n: nat, q: char)
    requires q != '\\'
    requires n <= |s| && q !in s[..n]
    ensures CollapseLiterals(s, q) == s[..n] + CollapseLiterals(s[n..], q)
    decreases n
  {
    if n > 0 {
      assert s[0] != q;
      assert s[1..][..n - 1] == s[1..n];
      CollapseAfterQuoteFreePrefix(s[1..], n - 1, q);
      assert s[1..][n - 1..] == s[n..];
    }
  }

  // ---------------------------------------------------------------------
  // Self-declaration tests
  // ---------------------------------------------------------------------

  /** `\binterface\s+NAME\b` matches at position p of `code`. */
  predicate InterfaceAt(code: string, name: string, p: int) {
    Boundary(code, p) && LitAt(code, p, "interface")
    && exists j | p + 9 < j <= |code| ::
         SpacesIn(code, p + 9, j) && LitAt(code, j, name) && Boundary(code, j + |name|)
  }

  /** `Pattern.compile("\\binterface\\s+" + quote(name) + "\\b").matcher(code).find()`. */
  predicate InterfaceDeclared(code: string, name: string) {
    exists p | 0 <= p <= |code| :: InterfaceAt(code, name, p)
  }

  /** `\babstract\s+class\s+NAME\b` matches at position p of `code`. */
  predicate AbstractClassAt(code: string, name: string, p: int) {
    Boundary(code, p) && LitAt(code, p, "abstract")
    && var c := SkipSpaces(code, p + 8);
       c > p + 8 && LitAt(code, c, "class")
       && exists j | c + 5 < j <= |code| ::
            SpacesIn(code, c + 5, j) && LitAt(code, j, name) && Boundary(code, j + |name|)
  }

  /** The `abstract class NAME` pattern is found somewhere in `code`. */
  predicate AbstractClassDeclared(code: string, name: string) {
    exists p | 0 <= p <= |code| - 8 :: AbstractClassAt(code, name, p)
  }

  /**
    `declaresInterface`: false for a null or blank name or null code,
    otherwise the interface pattern on the stripped code.
  */
  function DeclaresInterface(name: Option<string>, code: Option<string>): (r: bool)
    ensures name.None? || IsBlank(name.value) || code.None? ==> !r
    ensures r ==> InterfaceDeclared(StripCommentsAndStrings(code), name.value)
  {
    if name.None? || IsBlank(name.value) || code.None? then false
    else InterfaceDeclared(StripCommentsAndStrings(code), name.value)
  }

  /** `declaresAbstractClass`, with the same guards. */
  function DeclaresAbstractClass(name: Option<string>, code: Option<string>): (r: bool)
    ensures name.None? || IsBlank(name.value) || code.None? ==> !r
    ensures r ==> AbstractClassDeclared(StripCommentsAndStrings(code), name.value)
  {
    if name.None? || IsBlank(name.value) || code.None? then false
    else AbstractClassDeclared(StripCommentsAndStrings(code), name.value)
  }

  /**
    A plain declaration `interface NAME {` preceded by a non-word character is
    detected, whatever surrounds it, as long as nothing needs stripping.
  */
  lemma InterfaceDeclarationDetected(pre: string, name: string, post: string)
    requires '/' !in pre && '"' !in pre && '\'' !in pre
    requires '/' !in name && '"' !in name && '\'' !in name
    requires '/' !in post && '"' !in post && '\'' !in post
    requires !IsBlank(name) && name != [] && IsWordChar(name[|name| - 1])
    requires pre == [] || !IsWordChar(pre[|pre| - 1])
    requires post == [] || !IsWordChar(post[0])
    ensures DeclaresInterface(Some(name), Some(pre + "interface " + name + post))
  {
    var code := pre + "interface " + name + post;
    PlainJoin(pre, "interface ", name, post);
    StripLeavesPlainText(code);
    InterfaceFoundAt(code, pre, name, post);
  }

  lemma InterfaceFoundAt(code: string, pre: string, name: string, post: string)
    requires code == pre + "interface " + name + post
    requires name != [] && IsWordChar(name[|name| - 1])
    requires pre == [] || !IsWordChar(pre[|pre| - 1])
    requires post == [] || !IsWordChar(post[0])
    ensures InterfaceDeclared(code, name)
  {
    var p := |pre|;
    var j := p + 10;
    assert code[..p] == pre;
    assert code[p..j] == "interface ";
    assert code[j..j + |name|] == name;
    assert code[j + |name|..] == post;
    assert LitAt(code, p, "interface ");
    assert LitAt(code, j, name);
    assert p > 0 ==> code[p - 1] == pre[p - 1];
    assert Boundary(code, p);
    assert code[j + |name| - 1] == name[|name| - 1];
    assert j + |name| < |code| ==> code[j + |name|] == post[0];
    assert Boundary(code, j + |name|);
    InterfaceAtOfLayout(code, p, name);
  }

  lemma InterfaceAtOfLayout(code: string, p: nat, name: string)
    requires LitAt(code, p, "interface ") && LitAt(code, p + 10, name)
    requires Boundary(code, p) && Boundary(code, p + 10 + |name|)
    ensures InterfaceAt(code, name, p)
  {
    assert code[p..p + 10] == "interface ";
    assert code[p..p + 9] == code[p..p + 10][..9];
    assert "interface "[..9] == "interface";
    assert LitAt(code, p, "interface");
    assert code[p + 9] == code[p..p + 10][9];
    assert SpacesIn(code, p + 9, p + 10);
  }

  /**
    A plain declaration `abstract class NAME` preceded by a non-word
    character is detected, as long as nothing needs stripping.
  */
  lemma AbstractClassDeclarationDetected(pre: string, name: string, post: string)
    requires '/' !in pre && '"' !in pre && '\'' !in pre
    requires '/' !in name && '"' !in name && '\'' !in name
    requires '/' !in post && '"' !in post && '\'' !in post
    requires !IsBlank(name) && name != [] && IsWordChar(name[|name| - 1])
    requires pre == [] || !IsWordChar(pre[|pre| - 1])
    requires post == [] || !IsWordChar(post[0])
    ensures DeclaresAbstractClass(Some(name), Some(pre + "abstract class " + name + post))
  {
    var code := pre + "abstract class " + name + post;
    PlainJoin(pre, "abstract class ", name, post);
    StripLeavesPlainText(code);
    AbstractClassFoundAt(code, pre, name, post);
  }

  lemma AbstractClassFoundAt(code: string, pre: string, name: string, post: string)
    requires code == pre + "abstract class " + name + post
    requires name != [] && IsWordChar(name[|name| - 1])
    requires pre == [] || !IsWordChar(pre[|pre| - 1])
    requires post == [] || !IsWordChar(post[0])
    ensures AbstractClassDeclared(code, name)
  {
    var p := |pre|;
    var j := p + 15;
    assert code[..p] == pre;
    assert code[p..j] == "abstract class ";
    assert code[j..j + |name|] == name;
    assert code[j + |name|..] == post;
    assert LitAt(code, p, "abstract class ");
    assert LitAt(code, j, name);
    assert p > 0 ==> code[p - 1] == pre[p - 1];
    assert Boundary(code, p);
    assert code[j + |name| - 1] == name[|name| - 1];
    assert j + |name| < |code| ==> code[j + |name|] == post[0];
    assert Boundary(code, j + |name|);
    AbstractClassAtOfLayout(code, p, name);
  }

  lemma AbstractClassAtOfLayout(code: string, p: nat, name: string)
    requires LitAt(code, p, "abstract class ") && LitAt(code, p + 15, name)
    requires Boundary(code, p) && Boundary(code, p + 15 + |name|)
    ensures AbstractClassAt(code, name, p)
  {
    assert code[p..p + 15] == "abstract class ";
    assert code[p..p + 8] == code[p..p + 15][..8];
    assert "abstract class "[..8] == "abstract";
    assert LitAt(code, p, "abstract");
    assert SpacesIn(code, p + 8, p + 9) && !IsSpace(code[p + 9]);
    SkipSpacesExact(code, p + 8, p + 9);
    var cls := code[p + 9..p + 14];
    assert forall k | 0 <= k < 5 :: cls[k] == code[p..p + 15][9 + k];
    assert cls == "class";
    assert LitAt(code, p + 9, "class");
    assert SpacesIn(code, p + 14, p + 15);
    assert AbstractClassAt(code, name, p);
  }
}
