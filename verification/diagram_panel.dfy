/**
  The class diagram panel's model building: the prefix filter that picks the
  `.java` files to draw, the node classification, label escaping, and the
  assembly of the PlantUML text with one aliased node per corpus unit or
  external type and one edge per relationship.
*/
module Diagram {
  import opened JavaText
  import opened SourceUtils
  import opened OrderedSets
  import opened Squares
  import opened Relationships
  import Metrics

  // ---------------------------------------------------------------------
  // matchesPrefix / filterByPrefix
  // ---------------------------------------------------------------------

  /** `prefix != null && !prefix.isBlank()`. */
  predicate HasPrefix(prefix: Option<string>) {
    prefix.Some? && !IsBlank(prefix.value)
  }

  /** The prefix with backslashes turned into slashes. */
  function Normalized(prefix: string): string {
    ReplaceChar(prefix, '\\', '/')
  }

  /**
    `matchesPrefix`: a missing or blank prefix matches every path; otherwise
    the normalised prefix must be followed by a slash somewhere in the path,
    end the path after a slash, or be the whole path.
  */
  function MatchesPrefix(path: string, prefix: Option<string>): bool {
    if !HasPrefix(prefix) then true
    else
      var n := Normalized(prefix.value);
      Contains(path, n + "/") || EndsWith(path, "/" + n) || path == n
  }

  /** A non-blank prefix matches only a path in which it occurs. */
  lemma MatchRequiresOccurrence(path: string, prefix: Option<string>)
    requires HasPrefix(prefix) && MatchesPrefix(path, prefix)
    ensures Contains(path, Normalized(prefix.value))
  {
    var n := Normalized(prefix.value);
    if Contains(path, n + "/") {
      var i :| 0 <= i <= |path| && LitAt(path, i, n + "/");
      assert path[i..i + |n|] == (n + "/")[..|n|] == n;
      assert LitAt(path, i, n);
    } else if EndsWith(path, "/" + n) {
      var i := |path| - |n|;
      assert path[i..i + |n|] == path[|path| - |n| - 1..][1..] == ("/" + n)[1..] == n;
      assert LitAt(path, i, n);
    } else {
      assert path[0..|n|] == n;
      assert LitAt(path, 0, n);
    }
  }

  /** A non-blank prefix matches every path that has it as a directory. */
  lemma DirectoryMatches(before: string, dir: string, after: string)
    requires !IsBlank(dir)
    ensures MatchesPrefix(before + Normalized(dir) + "/" + after, Some(dir))
  {
    var n := Normalized(dir);
    var path := before + n + "/" + after;
    assert path[|before|..|before| + |n| + 1] == n + "/";
    assert LitAt(path, |before|, n + "/");
  }

  /** A non-blank prefix matches every path whose last segments it is. */
  lemma TrailingSegmentsMatch(before: string, dir: string)
    requires !IsBlank(dir)
    ensures MatchesPrefix(before + "/" + Normalized(dir), Some(dir))
  {
    var n := Normalized(dir);
    var path := before + "/" + n;
    assert path[|path| - |"/" + n|..] == "/" + n;
  }

  /** Backslashes and slashes in the prefix are interchangeable. */
  lemma NormalizationIsIdempotent(path: string, dir: string)
    ensures MatchesPrefix(path, Some(Normalized(dir))) == MatchesPrefix(path, Some(dir))
  {
    assert Normalized(Normalized(dir)) == Normalized(dir);
    assert IsBlank(Normalized(dir)) == IsBlank(dir) by {
      if !IsBlank(dir) {
        var k :| 0 <= k < |dir| && !IsJavaWhitespace(dir[k]);
        assert !IsJavaWhitespace(Normalized(dir)[k]);
      }
    }
  }

  /**
    The match is on text, not on whole directory names: a prefix matches a
    directory whose name merely ends with it.
  */
  lemma MatchInsideDirectoryName()
    ensures MatchesPrefix("src/core/A.java", Some("ore"))
  {
    var path := "src/core/A.java";
    assert Normalized("ore") == "ore";
    assert path[5..9] == "ore/";
    assert LitAt(path, 5, "ore" + "/");
  }

  /** A path `filterByPrefix` keeps: a `.java` path that the prefix, if any, matches. */
  predicate Selected(path: Option<string>, prefix: Option<string>) {
    EndsWith(UnixPath(path), ".java") && (!HasPrefix(prefix) || MatchesPrefix(UnixPath(path), prefix))
  }

  /** Whether each path is selected, position by position. */
  function Selections(paths: seq<Option<string>>, prefix: Option<string>): (sel: seq<bool>)
    ensures |sel| == |paths|
    ensures forall i | 0 <= i < |paths| :: sel[i] == Selected(paths[i], prefix)
  {
    seq(|paths|, i requires 0 <= i < |paths| => Selected(paths[i], prefix))
  }

  /** The entries whose flag is set, in list order. */
  function Filter<T>(xs: seq<T>, keep: seq<bool>): seq<T>
    requires |xs| == |keep|
  {
    if xs == [] then []
    else
      var n := |xs| - 1;
      Filter(xs[..n], keep[..n]) + (if keep[n] then [xs[n]] else [])
  }

  /** The entries whose paths are selected, in list order. */
  function Kept<T>(xs: seq<T>, paths: seq<Option<string>>, prefix: Option<string>): seq<T>
    requires |xs| == |paths|
  {
    Filter(xs, Selections(paths, prefix))
  }

  lemma {:induction false} FilterAppend<T>(xs: seq<T>, fs: seq<bool>, ys: seq<T>, gs: seq<bool>)
    requires |xs| == |fs| && |ys| == |gs|
    ensures Filter(xs + ys, fs + gs) == Filter(xs, fs) + Filter(ys, gs)
    decreases |ys|
  {
    if ys == [] {
      assert xs + ys == xs && fs + gs == fs;
    } else {
      var n := |ys| - 1;
      var a, b := xs + ys, fs + gs;
      assert a[..|a| - 1] == xs + ys[..n] && a[|a| - 1] == ys[n];
      assert b[..|a| - 1] == fs + gs[..n] && b[|a| - 1] == gs[n];
      FilterAppend(xs, fs, ys[..n], gs[..n]);
      var tail := if gs[n] then [ys[n]] else [];
      assert Filter(a, b) == Filter(xs, fs) + Filter(ys[..n], gs[..n]) + tail;
      assert Filter(ys, gs) == Filter(ys[..n], gs[..n]) + tail;
    }
  }

  /** Filtering a concatenation filters each part: the kept entries stay in list order. */
  lemma KeptAppend<T>(xs: seq<T>, ps: seq<Option<string>>, ys: seq<T>, qs: seq<Option<string>>, prefix: Option<string>)
    requires |xs| == |ps| && |ys| == |qs|
    ensures Kept(xs + ys, ps + qs, prefix) == Kept(xs, ps, prefix) + Kept(ys, qs, prefix)
  {
    assert Selections(ps + qs, prefix) == Selections(ps, prefix) + Selections(qs, prefix);
    FilterAppend(xs, Selections(ps, prefix), ys, Selections(qs, prefix));
  }

  lemma {:induction false} FilterMembers<T>(xs: seq<T>, keep: seq<bool>)
    requires |xs| == |keep|
    ensures forall x :: x in Filter(xs, keep) <==> exists i | 0 <= i < |xs| :: xs[i] == x && keep[i]
    decreases |xs|
  {
    if xs != [] {
      var n := |xs| - 1;
      FilterMembers(xs[..n], keep[..n]);
      forall x ensures x in Filter(xs, keep) ==> exists i | 0 <= i < |xs| :: xs[i] == x && keep[i] {
        if x in Filter(xs[..n], keep[..n]) {
          var i :| 0 <= i < n && xs[..n][i] == x && keep[..n][i];
          assert xs[i] == x && keep[i];
        }
      }
      forall x, i | 0 <= i < |xs| && xs[i] == x && keep[i] ensures x in Filter(xs, keep) {
        if i < n {
          assert xs[..n][i] == x && keep[..n][i];
        }
      }
    }
  }

  /** An entry is kept exactly when it stands in the list with a selected path. */
  lemma KeptMembers<T>(xs: seq<T>, ps: seq<Option<string>>, prefix: Option<string>)
    requires |xs| == |ps|
    ensures forall x :: x in Kept(xs, ps, prefix) <==> exists i | 0 <= i < |xs| :: xs[i] == x && Selected(ps[i], prefix)
  {
    FilterMembers(xs, Selections(ps, prefix));
  }

  lemma {:induction false} FilterAll<T>(xs: seq<T>, keep: seq<bool>)
    requires |xs| == |keep| && forall i | 0 <= i < |keep| :: keep[i]
    ensures Filter(xs, keep) == xs
    decreases |xs|
  {
    if xs != [] {
      var n := |xs| - 1;
      FilterAll(xs[..n], keep[..n]);
      assert xs[..n] + [xs[n]] == xs;
    }
  }

  /** With no prefix, every `.java` entry is kept. */
  lemma NoPrefixKeepsJavaFiles<T>(xs: seq<T>, ps: seq<Option<string>>, prefix: Option<string>)
    requires |xs| == |ps| && !HasPrefix(prefix)
    requires forall i | 0 <= i < |ps| :: EndsWith(UnixPath(ps[i]), ".java")
    ensures Kept(xs, ps, prefix) == xs
  {
    FilterAll(xs, Selections(ps, prefix));
  }

  /** The path of every entry, read once. */
  function Paths(squares: seq<Square>): (ps: seq<Option<string>>)
    reads squares
    ensures |ps| == |squares|
    ensures forall i | 0 <= i < |squares| :: ps[i] == squares[i].path
  {
    seq(|squares|, i requires 0 <= i < |squares| reads squares => squares[i].path)
  }

  /** `filterByPrefix`: the `.java` squares the prefix matches, in list order. */
  method FilterByPrefix(squares: seq<Square>, prefix: Option<string>) returns (filtered: seq<Square>)
    ensures filtered == Kept(squares, Paths(squares), prefix)
  {
    ghost var sel := Selections(Paths(squares), prefix);
    filtered := [];
    var hasPrefix := prefix.Some? && !IsBlank(prefix.value);
    for i := 0 to |squares|
      invariant filtered == Filter(squares[..i], sel[..i])
    {
      assert squares[..i + 1][..i] == squares[..i] && sel[..i + 1][..i] == sel[..i];
      var keep := SelectPath(squares[i].path, prefix, hasPrefix);
      assert sel[i] == keep;
      if keep {
        filtered := filtered + [squares[i]];
      }
    }
    assert squares[..|squares|] == squares && sel[..|squares|] == sel;
  }

  /** The test of `filterByPrefix`'s loop body: a `.java` path, matched by the prefix when there is one. */
  method SelectPath(p: Option<string>, prefix: Option<string>, hasPrefix: bool) returns (keep: bool)
    requires hasPrefix == (prefix.Some? && !IsBlank(prefix.value))
    ensures keep == Selected(p, prefix)
  {
    var path := ReplaceChar(ValueOf(p), '\\', '/');
    assert path == UnixPath(p);
    if !EndsWith(path, ".java") {
      return false;
    }
    keep := !hasPrefix || MatchesPrefix(path, prefix);
  }

  // ---------------------------------------------------------------------
  // NodeStyle, classify, escape
  // ---------------------------------------------------------------------

  datatype NodeStyle = Class | AbstractClass | Interface | External

  /** The label symbol of each style. */
  function Symbol(st: NodeStyle): string {
    match st
    case Class => "C"
    case AbstractClass => "A"
    case Interface => "I"
    case External => "ext"
  }

  /** The colour each style is declared with. */
  function Color(st: NodeStyle): string {
    match st
    case Class => "#dcead3"
    case AbstractClass => "#cfe7f7"
    case Interface => "#dcd0f7"
    case External => "#e6e6e6"
  }

  /** `s` without any occurrence of `c`. */
  function Without(s: string, c: char): (r: string)
    ensures c !in r
    ensures |r| <= |s|
  {
    if s == [] then [] else (if s[0] == c then [] else [s[0]]) + Without(s[1..], c)
  }

  /** The `NodeStyle` constructor: "" for a blank colour, else one '#' before the colour's other characters. */
  function ColorDirective(color: Option<string>): (d: string)
    ensures color.Some? && !IsBlank(color.value) ==> |d| >= 1 && d[0] == '#' && '#' !in d[1..]
  {
    if color.None? || IsBlank(color.value) then "" else "#" + Without(color.value, '#')
  }

  function Directive(st: NodeStyle): string {
    ColorDirective(Some(Color(st)))
  }

  /** Each style's directive is its colour, written with exactly one leading '#'. */
  lemma DirectivesAreColors(st: NodeStyle)
    ensures Directive(st) == Color(st)
    ensures |Directive(st)| == 7 && Directive(st)[0] == '#' && '#' !in Directive(st)[1..]
  {
    var c := Color(st);
    assert c == ['#'] + c[1..];
    assert |c| == 7 && '#' !in c[1..];
    HexColorDirective(c);
  }

  lemma HexColorDirective(c: string)
    requires |c| >= 1 && c[0] == '#' && '#' !in c[1..]
    ensures ColorDirective(Some(c)) == c
  {
    assert !IsJavaWhitespace(c[0]);
    WithoutAbsent(c[1..], '#');
  }

  lemma {:induction false} WithoutAbsent(s: string, c: char)
    requires c !in s
    ensures Without(s, c) == s
    decreases |s|
  {
    if s != [] {
      WithoutAbsent(s[1..], c);
    }
  }

  /** `classify`: interface first, then abstract class, otherwise class. */
  function StyleOf(name: string, code: string): NodeStyle {
    if DeclaresInterface(Some(name), Some(code)) then Interface
    else if DeclaresAbstractClass(Some(name), Some(code)) then AbstractClass
    else Class
  }

  /**
    A corpus node is never external, and it is drawn as an interface or an
    abstract class exactly when the metrics give the unit abstractness 1.
  */
  lemma StyleAgreesWithAbstractness(name: string, code: string)
    requires !IsBlank(name)
    ensures StyleOf(name, code) != External
    ensures StyleOf(name, code) != Class
        <==> Metrics.Abstractness(StripCommentsAndStrings(Some(code)), name) == 1.0
    ensures StyleOf(name, code) == AbstractClass ==> !DeclaresInterface(Some(name), Some(code))
  {
    Metrics.AbstractnessAgreesWithDeclarations(code, name);
  }

  /** `classify` on a square: its simple name and its source. */
  function Classify(square: Square): NodeStyle
    reads square
  {
    StyleOf(square.SimpleName(), square.source)
  }

  /** `text.replace("\"", "\\\"")`: a backslash before every double quote. */
  function EscapeQuotes(s: string): (r: string)
    ensures |r| >= |s|
  {
    if s == [] then [] else (if s[0] == '"' then "\\\"" else [s[0]]) + EscapeQuotes(s[1..])
  }

  /** `escape`: null is the empty text. */
  function Escape(text: Option<string>): string {
    if text.None? then "" else EscapeQuotes(text.value)
  }

  /** Reads an escaped text back: a backslash-quote pair is one quote. */
  function Unescape(s: string): string
    decreases |s|
  {
    if s == [] then []
    else if |s| >= 2 && s[0] == '\\' && s[1] == '"' then "\"" + Unescape(s[2..])
    else [s[0]] + Unescape(s[1..])
  }

  /** Escaping loses nothing: the text can be read back. */
  lemma {:induction false} UnescapeEscape(s: string)
    ensures Unescape(EscapeQuotes(s)) == s
    decreases |s|
  {
    if s != [] {
      var rest := EscapeQuotes(s[1..]);
      UnescapeEscape(s[1..]);
      if s[0] == '"' {
        assert EscapeQuotes(s) == "\\\"" + rest;
        assert EscapeQuotes(s)[2..] == rest;
      } else {
        assert EscapeQuotes(s) == [s[0]] + rest;
        assert EscapeQuotes(s)[1..] == rest;
        if s[0] == '\\' && rest != [] {
          assert rest[0] != '"' by {
            assert s[1..] != [];
          }
        }
      }
    }
  }

  /** Every double quote of the escaped text follows a backslash. */
  lemma {:induction false} EscapedQuotesFollowBackslash(s: string)
    ensures forall k | 0 <= k < |EscapeQuotes(s)| && EscapeQuotes(s)[k] == '"' :: k > 0 && EscapeQuotes(s)[k - 1] == '\\'
    decreases |s|
  {
    if s != [] {
      var rest := EscapeQuotes(s[1..]);
      var head := if s[0] == '"' then "\\\"" else [s[0]];
      EscapedQuotesFollowBackslash(s[1..]);
      assert EscapeQuotes(s) == head + rest;
      forall k | 0 <= k < |head + rest| && (head + rest)[k] == '"'
        ensures k > 0 && (head + rest)[k - 1] == '\\'
      {
        if k >= |head| {
          assert rest[k - |head|] == '"';
        }
      }
    }
  }

  // ---------------------------------------------------------------------
  // buildModel: what it computes
  // ---------------------------------------------------------------------

  /** The names `buildModel` puts into its first map, in list order, repeats included. */
  function NamedNames(vs: seq<Option<UnitView>>, len: nat): seq<string>
    requires len <= |vs|
  {
    if len == 0 then []
    else NamedNames(vs, len - 1) + (if Named(vs[len - 1]) then [vs[len - 1].value.name] else [])
  }

  /** A name is collected exactly when some named entry carries it. */
  lemma {:induction false} NamedNamesMembers(vs: seq<Option<UnitView>>, len: nat)
    requires len <= |vs|
    ensures forall n :: n in NamedNames(vs, len) <==> exists i | 0 <= i < len :: Named(vs[i]) && vs[i].value.name == n
    decreases len
  {
    if len > 0 {
      NamedNamesMembers(vs, len - 1);
    }
  }

  /** The source of the last named entry of each name: the value a later `put` leaves. */
  function LastSource(vs: seq<Option<UnitView>>, len: nat): map<string, string>
    requires len <= |vs|
  {
    if len == 0 then map[]
    else
      var m := LastSource(vs, len - 1);
      if Named(vs[len - 1]) then m[vs[len - 1].value.name := vs[len - 1].value.source] else m
  }

  lemma {:induction false} LastSourceKeys(vs: seq<Option<UnitView>>, len: nat)
    requires len <= |vs|
    ensures forall n :: n in LastSource(vs, len) <==> n in NamedNames(vs, len)
    decreases len
  {
    if len > 0 {
      LastSourceKeys(vs, len - 1);
    }
  }

  /** The last named entry of a name decides the value kept for it. */
  lemma {:induction false} LastSourceLastWins(vs: seq<Option<UnitView>>, len: nat, i: nat)
    requires len <= |vs| && i < len && Named(vs[i])
    requires forall j | i < j < len :: !(Named(vs[j]) && vs[j].value.name == vs[i].value.name)
    ensures vs[i].value.name in LastSource(vs, len)
    ensures LastSource(vs, len)[vs[i].value.name] == vs[i].value.source
    decreases len
  {
    if i < len - 1 {
      LastSourceLastWins(vs, len - 1, i);
    }
  }

  /** One entry more: its name is inserted and its source recorded when it is named. */
  lemma CollectStep(vs: seq<Option<UnitView>>, i: nat)
    requires i < |vs|
    ensures Dedup(NamedNames(vs, i + 1))
         == if Named(vs[i]) then Insert(Dedup(NamedNames(vs, i)), vs[i].value.name) else Dedup(NamedNames(vs, i))
    ensures LastSource(vs, i + 1)
         == if Named(vs[i]) then LastSource(vs, i)[vs[i].value.name := vs[i].value.source] else LastSource(vs, i)
  {
    if Named(vs[i]) {
      AddAllSnoc([], NamedNames(vs, i), vs[i].value.name);
    } else {
      assert NamedNames(vs, i + 1) == NamedNames(vs, i);
    }
  }

  /** The key order of the insertion-ordered map after `len` entries, one insertion at a time. */
  function KeyOrder(vs: seq<Option<UnitView>>, len: nat): seq<string>
    requires len <= |vs|
  {
    if len == 0 then []
    else
      var keys := KeyOrder(vs, len - 1);
      if Named(vs[len - 1]) then Insert(keys, vs[len - 1].value.name) else keys
  }

  lemma {:induction false} KeyOrderIsDedup(vs: seq<Option<UnitView>>, len: nat)
    requires len <= |vs|
    ensures KeyOrder(vs, len) == Dedup(NamedNames(vs, len))
    decreases len
  {
    if len > 0 {
      KeyOrderIsDedup(vs, len - 1);
      CollectStep(vs, len - 1);
    }
  }

  /** The corpus units: one per distinct name, in first-insertion order. */
  function CorpusNames(vs: seq<Option<UnitView>>): seq<string> {
    Dedup(NamedNames(vs, |vs|))
  }

  /** The style of each corpus name: `classify` on the last entry of that name. */
  function CorpusStyles(vs: seq<Option<UnitView>>): (styles: map<string, NodeStyle>)
    ensures forall n | n in styles :: styles[n] != External
  {
    var src := LastSource(vs, |vs|);
    map n | n in src :: StyleOf(n, src[n])
  }

  lemma CorpusStylesDefined(vs: seq<Option<UnitView>>)
    ensures forall n | n in LastSource(vs, |vs|) ::
      n in CorpusStyles(vs) && CorpusStyles(vs)[n] == StyleOf(n, LastSource(vs, |vs|)[n])
  {
  }

  /** The targets of the relationships, in order. */
  function Targets(rels: seq<Relationship>): (ts: seq<string>)
    ensures |ts| == |rels|
    ensures forall i | 0 <= i < |rels| :: ts[i] == rels[i].to
  {
    seq(|rels|, i requires 0 <= i < |rels| => rels[i].to)
  }

  /** Every name that receives an alias: the corpus names, then the unseen targets in encounter order. */
  function AliasKeys(vs: seq<Option<UnitView>>, rels: seq<Relationship>): seq<string> {
    AddAll(CorpusNames(vs), Targets(rels))
  }

  datatype NodeDef = NodeDef(name: string, alias: string, style: NodeStyle)

  /** `"N" + index` for the corpus node at position t. */
  function CorpusAlias(t: nat): string {
    ['N'] + NatToString(t + 1)
  }

  /** `"X" + externalIndex` for the t-th external node. */
  function ExternalAlias(t: nat): string {
    ['X'] + NatToString(t + 1)
  }

  /** Every corpus name among `names` has a style. */
  predicate Styled(names: seq<string>, corpus: nat, styles: map<string, NodeStyle>) {
    forall t | 0 <= t < |names| && t < corpus :: names[t] in styles
  }

  /**
    The nodes for the alias keys `names`, of which the first `corpus` are
    corpus units and the rest external types.
  */
  function NodesOf(names: seq<string>, corpus: nat, styles: map<string, NodeStyle>): (ds: seq<NodeDef>)
    requires Styled(names, corpus, styles)
    ensures |ds| == |names|
    ensures forall t | 0 <= t < |ds| :: ds[t].name == names[t]
  {
    seq(|names|, t requires 0 <= t < |names| =>
      if t < corpus then NodeDef(names[t], CorpusAlias(t), styles[names[t]])
      else NodeDef(names[t], ExternalAlias(t - corpus), External))
  }

  lemma NodesOfSnoc(names: seq<string>, corpus: nat, styles: map<string, NodeStyle>, x: string)
    requires Styled(names, corpus, styles)
    requires |names| < corpus ==> x in styles
    ensures Styled(names + [x], corpus, styles)
    ensures NodesOf(names + [x], corpus, styles)
         == NodesOf(names, corpus, styles)
            + [if |names| < corpus then NodeDef(x, CorpusAlias(|names|), styles[x])
               else NodeDef(x, ExternalAlias(|names| - corpus), External)]
  {
    assert forall t | 0 <= t < |names| :: (names + [x])[t] == names[t];
  }

  /** The alias keys of a list: its corpus names keep their places and all have a style. */
  lemma AliasKeysStyled(vs: seq<Option<UnitView>>, rels: seq<Relationship>)
    ensures |AliasKeys(vs, rels)| >= |CorpusNames(vs)|
    ensures AliasKeys(vs, rels)[..|CorpusNames(vs)|] == CorpusNames(vs)
    ensures Styled(AliasKeys(vs, rels), |CorpusNames(vs)|, CorpusStyles(vs))
  {
    var keys := CorpusNames(vs);
    var names := AliasKeys(vs, rels);
    AddAllKeepsPrefix(keys, Targets(rels));
    AddAllElements([], NamedNames(vs, |vs|));
    LastSourceKeys(vs, |vs|);
    forall t | 0 <= t < |names| && t < |keys| ensures names[t] in CorpusStyles(vs) {
      assert names[t] == names[..|keys|][t] == keys[t];
      assert keys[t] in NamedNames(vs, |vs|);
    }
  }

  /**
    The nodes for the corpus of `vs` and the relationships `rels`: corpus
    units aliased N1.., then the targets not seen before aliased X1...
  */
  function NodesFor(vs: seq<Option<UnitView>>, rels: seq<Relationship>): seq<NodeDef> {
    AliasKeysStyled(vs, rels);
    NodesOf(AliasKeys(vs, rels), |CorpusNames(vs)|, CorpusStyles(vs))
  }

  /** The diagram's nodes: those for the relationships `extract` finds. */
  function Nodes(vs: seq<Option<UnitView>>): seq<NodeDef> {
    NodesFor(vs, ExtractResult(vs))
  }

  /** The names of a node list, in order. */
  function NodeNames(ds: seq<NodeDef>): (ns: seq<string>)
    ensures |ns| == |ds|
    ensures forall t | 0 <= t < |ds| :: ns[t] == ds[t].name
  {
    seq(|ds|, t requires 0 <= t < |ds| => ds[t].name)
  }

  /** `aliasByName`: each node's name to its alias, a later `put` winning. */
  function AliasMap(ds: seq<NodeDef>): map<string, string> {
    if ds == [] then map[] else AliasMap(ds[..|ds| - 1])[ds[|ds| - 1].name := ds[|ds| - 1].alias]
  }

  lemma AliasMapSnoc(ds: seq<NodeDef>, d: NodeDef)
    ensures AliasMap(ds + [d]) == AliasMap(ds)[d.name := d.alias]
  {
    assert (ds + [d])[..|ds|] == ds;
  }

  /** Exactly the node names have an alias. */
  lemma {:induction false} AliasMapKeys(ds: seq<NodeDef>)
    ensures forall n :: n in AliasMap(ds) <==> n in NodeNames(ds)
    decreases |ds|
  {
    if ds != [] {
      var init := ds[..|ds| - 1];
      AliasMapKeys(init);
      assert NodeNames(ds) == NodeNames(init) + [ds[|ds| - 1].name];
    }
  }

  /** With distinct names, every node's name maps to that node's own alias. */
  lemma {:induction false} AliasMapAt(ds: seq<NodeDef>, t: nat)
    requires NoDup(NodeNames(ds)) && t < |ds|
    ensures ds[t].name in AliasMap(ds) && AliasMap(ds)[ds[t].name] == ds[t].alias
    decreases |ds|
  {
    var init := ds[..|ds| - 1];
    if t < |ds| - 1 {
      assert NodeNames(init) == NodeNames(ds)[..|ds| - 1];
      AliasMapAt(init, t);
      assert ds[t].name != ds[|ds| - 1].name by {
        assert NodeNames(ds)[t] != NodeNames(ds)[|ds| - 1];
      }
    }
  }

  // ---------------------------------------------------------------------
  // buildModel: the PlantUML text
  // ---------------------------------------------------------------------

  const Opening: string := "@startuml\n"

  /** The seven layout and skin lines. */
  const Skin: string :=
    "!pragma layout smetana\n" + "skinparam backgroundColor #f6f4f0\n"
    + "skinparam ArrowColor #444444\n" + "skinparam ArrowThickness 1.2\n"
    + "skinparam defaultFontName Arial\n" + "skinparam Shadowing false\n"
    + "skinparam linetype ortho\n"

  const Header: string := Opening + Skin

  const Footer: string := "@enduml\n"

  /** The label: the style's symbol, a space and the name (the name alone for an empty symbol). */
  function Label(d: NodeDef): string {
    if Symbol(d.style) == [] then d.name else Symbol(d.style) + " " + d.name
  }

  /** `rectangle "<label>" as <alias> <colour>` and a line break. */
  function NodeLine(d: NodeDef): string {
    "rectangle \"" + Escape(Some(Label(d))) + "\" as " + d.alias + " " + Directive(d.style) + "\n"
  }

  /** `text` with the lines of the first `len` nodes appended. */
  function NodeText(text: string, ds: seq<NodeDef>, len: nat): string
    requires len <= |ds|
  {
    Joined(text, NodeLines(ds), len)
  }

  /** The line of each node, in order. */
  function NodeLines(ds: seq<NodeDef>): (ls: seq<string>)
    ensures |ls| == |ds|
  {
    seq(|ds|, i requires 0 <= i < |ds| => NodeLine(ds[i]))
  }

  /** `text` with an edge line appended for each of the first `len` relationships whose two ends have aliases. */
  function EdgeText(text: string, rels: seq<Relationship>, aliases: map<string, string>, len: nat): string
    requires len <= |rels|
  {
    if len == 0 then text
    else
      var prev := EdgeText(text, rels, aliases, len - 1);
      var r := rels[len - 1];
      if r.from in aliases && r.to in aliases then prev + ToPlantUml(r, aliases[r.from], aliases[r.to]) + "\n"
      else prev
  }

  /** The number of the first `len` relationships whose two ends have aliases. */
  function EdgeCount(rels: seq<Relationship>, aliases: map<string, string>, len: nat): nat
    requires len <= |rels|
  {
    if len == 0 then 0
    else
      var r := rels[len - 1];
      EdgeCount(rels, aliases, len - 1) + (if r.from in aliases && r.to in aliases then 1 else 0)
  }

  /** The whole text: header, node lines, edge lines, `@enduml`. */
  function UmlText(ds: seq<NodeDef>, rels: seq<Relationship>): string {
    EdgeText(NodeText(Header, ds, |ds|), rels, AliasMap(ds), |rels|) + Footer
  }

  datatype DiagramModel = DiagramModel(umlSource: string, nodeCount: int, edgeCount: int)

  /** What `buildModel` returns for a list: nothing without a named unit. */
  function Model(vs: seq<Option<UnitView>>): Option<DiagramModel> {
    ModelFor(vs, ExtractResult(vs))
  }

  /** The model drawn for the corpus of `vs` with the relationships `rels`. */
  function ModelFor(vs: seq<Option<UnitView>>, rels: seq<Relationship>): Option<DiagramModel> {
    if CorpusNames(vs) == [] then None
    else
      var ds := NodesFor(vs, rels);
      Some(DiagramModel(UmlText(ds, rels), |ds|, EdgeCount(rels, AliasMap(ds), |rels|)))
  }

  // ---------------------------------------------------------------------
  // buildModel: the method
  // ---------------------------------------------------------------------

  /**
    What the first loop knows after `i` entries, on the entry views: the key
    order, and for each key the position of the entry it holds, which is the
    last entry of that name so far.
  */
  ghost predicate CollectInv(vs: seq<Option<UnitView>>, i: nat, keys: seq<string>, picked: map<string, nat>) {
    i <= |vs| && keys == KeyOrder(vs, i)
    && (forall n :: n in picked <==> n in keys)
    && (forall n | n in picked :: picked[n] < i && n in LastSource(vs, i) && vs[picked[n]] == Some(UnitView(n, LastSource(vs, i)[n])))
  }

  /** One iteration of the first loop keeps `CollectInv`. */
  lemma CollectInvStep(vs: seq<Option<UnitView>>, i: nat, keys: seq<string>, picked: map<string, nat>)
    requires i < |vs| && CollectInv(vs, i, keys, picked)
    ensures Named(vs[i]) ==> CollectInv(vs, i + 1, Insert(keys, vs[i].value.name), picked[vs[i].value.name := i])
    ensures !Named(vs[i]) ==> CollectInv(vs, i + 1, keys, picked)
  {
    CollectStep(vs, i);
    var before, after := LastSource(vs, i), LastSource(vs, i + 1);
    if Named(vs[i]) {
      var name := vs[i].value.name;
      var picked' := picked[name := i];
      assert after == before[name := vs[i].value.source];
      forall n | n in picked'
        ensures picked'[n] < i + 1 && n in after && vs[picked'[n]] == Some(UnitView(n, after[n]))
      {
        if n != name {
          assert picked'[n] == picked[n] && after[n] == before[n];
        }
      }
    } else {
      assert after == before;
    }
  }

  /** An entry without a name leaves the first loop's state as it was. */
  lemma CollectInvSkip(vs: seq<Option<UnitView>>, i: nat, keys: seq<string>, picked: map<string, nat>)
    requires i < |vs| && CollectInv(vs, i, keys, picked) && !Named(vs[i])
    ensures CollectInv(vs, i + 1, keys, picked)
  {
    CollectInvStep(vs, i, keys, picked);
  }

  /** The update of the first loop for a named entry keeps `CollectInv`. */
  lemma CollectInvPut(vs: seq<Option<UnitView>>, i: nat, keys: seq<string>, picked: map<string, nat>, name: string)
    requires i < |vs| && CollectInv(vs, i, keys, picked) && Named(vs[i]) && vs[i].value.name == name
    ensures CollectInv(vs, i + 1, if name in picked then keys else keys + [name], picked[name := i])
  {
    CollectInvStep(vs, i, keys, picked);
    assert Insert(keys, name) == if name in picked then keys else keys + [name];
  }

  /**
    The first loop: the insertion-ordered map from simple name to the last
    square of that name, held as its key order and its entries, with
    `picked` recording which entry each key holds.
  */
  ghost predicate Collected(squares: seq<Square>, vs: seq<Option<UnitView>>, i: nat, keys: seq<string>,
                            byName: map<string, Square>, picked: map<string, nat>) {
    |squares| == |vs| && CollectInv(vs, i, keys, picked)
    && (forall n :: n in byName <==> n in picked)
    && (forall n | n in byName :: picked[n] < |squares| && byName[n] == squares[picked[n]])
  }

  lemma CollectedSkip(squares: seq<Square>, vs: seq<Option<UnitView>>, i: nat, keys: seq<string>,
                      byName: map<string, Square>, picked: map<string, nat>)
    requires i < |vs| && Collected(squares, vs, i, keys, byName, picked) && !Named(vs[i])
    ensures Collected(squares, vs, i + 1, keys, byName, picked)
  {
    CollectInvSkip(vs, i, keys, picked);
  }

  lemma CollectedPut(squares: seq<Square>, vs: seq<Option<UnitView>>, i: nat, keys: seq<string>,
                     byName: map<string, Square>, picked: map<string, nat>, name: string)
    requires i < |vs| && Collected(squares, vs, i, keys, byName, picked) && Named(vs[i]) && vs[i].value.name == name
    ensures Collected(squares, vs, i + 1, if name in byName then keys else keys + [name],
                      byName[name := squares[i]], picked[name := i])
  {
    CollectInvPut(vs, i, keys, picked, name);
  }

  /** When the first loop ends, each key holds the last square of its name. */
  lemma CollectedSquares(squares: seq<Square>, picked: map<string, nat>, byName: map<string, Square>)
    requires forall n | n in picked :: picked[n] < |squares| && n in LastSource(Views(squares), |squares|)
               && Views(squares)[picked[n]] == Some(UnitView(n, LastSource(Views(squares), |squares|)[n]))
    requires forall n :: n in byName <==> n in picked
    requires forall n | n in byName :: picked[n] < |squares| && byName[n] == squares[picked[n]]
    ensures forall n | n in byName ::
              n in LastSource(Views(squares), |squares|)
              && byName[n].SimpleName() == n && byName[n].source == LastSource(Views(squares), |squares|)[n]
  {
    forall n | n in byName
      ensures n in LastSource(Views(squares), |squares|)
              && byName[n].SimpleName() == n && byName[n].source == LastSource(Views(squares), |squares|)[n]
    {
      assert Views(squares)[picked[n]] == View(squares[picked[n]]);
    }
  }

  /** The first loop of `buildModel`, over the squares in list order. */
  method CollectLoop(squares: seq<Square>) returns (keys: seq<string>, byName: map<string, Square>, ghost picked: map<string, nat>)
    ensures Collected(squares, Views(squares), |squares|, keys, byName, picked)
  {
    picked := map[];
    keys := [];
    byName := map[];
    for i := 0 to |squares|
      invariant Collected(squares, Views(squares), i, keys, byName, picked)
    {
      keys, byName, picked := CollectSquare(squares, i, keys, byName, picked);
    }
  }

  /** One iteration of the first loop: a square with a non-blank simple name takes its key's place. */
  method CollectSquare(squares: seq<Square>, i: nat, keys: seq<string>, byName: map<string, Square>, ghost picked: map<string, nat>)
    returns (keys': seq<string>, byName': map<string, Square>, ghost picked': map<string, nat>)
    requires i < |squares| && Collected(squares, Views(squares), i, keys, byName, picked)
    ensures Collected(squares, Views(squares), i + 1, keys', byName', picked')
  {
    ghost var vs := Views(squares);
    var s := squares[i];
    var name := s.SimpleName();
    assert vs[i] == Some(UnitView(name, s.source));
    if !IsBlank(name) {
      CollectedPut(squares, vs, i, keys, byName, picked, name);
      keys' := if name in byName then keys else keys + [name];
      byName' := byName[name := s];
      picked' := picked[name := i];
    } else {
      CollectedSkip(squares, vs, i, keys, byName, picked);
      keys', byName', picked' := keys, byName, picked;
    }
  }

  /** The first loop's result: the named keys in first-appearance order, each holding the last square of its name. */
  method CollectByName(squares: seq<Square>) returns (keys: seq<string>, byName: map<string, Square>)
    ensures keys == CorpusNames(Views(squares))
    ensures forall n :: n in byName <==> n in keys
    ensures forall n | n in byName ::
              n in LastSource(Views(squares), |squares|)
              && byName[n].SimpleName() == n && byName[n].source == LastSource(Views(squares), |squares|)[n]
  {
    ghost var picked;
    keys, byName, picked := CollectLoop(squares);
    KeyOrderIsDedup(Views(squares), |squares|);
    CollectedSquares(squares, picked, byName);
  }

  /** `classify` on the square a key maps to: the style recorded for that key. */
  method ClassifyEntry(byName: map<string, Square>, name: string,
                       ghost sources: map<string, string>, ghost styles: map<string, NodeStyle>)
    returns (style: NodeStyle)
    requires name in byName
    requires forall n | n in byName :: n in sources && byName[n].SimpleName() == n && byName[n].source == sources[n]
    requires forall n | n in sources :: n in styles && styles[n] == StyleOf(n, sources[n])
    ensures name in styles && style == styles[name]
  {
    style := Classify(byName[name]);
  }

  /** What the second loop keeps after `j` keys: their nodes, styled, and the alias map of those nodes. */
  ghost predicate CorpusInv(keys: seq<string>, styles: map<string, NodeStyle>, j: nat,
                            nodes: seq<NodeDef>, aliasByName: map<string, string>) {
    j <= |keys| && Styled(keys[..j], |keys|, styles)
    && nodes == NodesOf(keys[..j], |keys|, styles)
    && aliasByName == AliasMap(nodes)
  }

  /** The second loop: a node aliased `N1`, `N2`, ... for every key, in key order. */
  method CorpusNodes(keys: seq<string>, byName: map<string, Square>,
                     ghost sources: map<string, string>, ghost styles: map<string, NodeStyle>)
    returns (nodes: seq<NodeDef>, aliasByName: map<string, string>)
    requires forall n :: n in byName <==> n in keys
    requires forall n | n in byName :: n in sources && byName[n].SimpleName() == n && byName[n].source == sources[n]
    requires forall n | n in sources :: n in styles && styles[n] == StyleOf(n, sources[n])
    ensures Styled(keys, |keys|, styles)
    ensures nodes == NodesOf(keys, |keys|, styles)
    ensures aliasByName == AliasMap(nodes)
  {
    nodes := [];
    aliasByName := map[];
    var index := 1;
    assert keys[..0] == [];
    for j := 0 to |keys|
      invariant index == j + 1
      invariant CorpusInv(keys, styles, j, nodes, aliasByName)
    {
      var style := ClassifyEntry(byName, keys[j], sources, styles);
      nodes, aliasByName := AddCorpusNode(keys, styles, j, index, nodes, aliasByName, style);
      index := index + 1;
    }
    assert keys[..|keys|] == keys;
  }

  /** One step of the second loop: the key at `j` gets the alias `N(j+1)` and its style. */
  method AddCorpusNode(keys: seq<string>, ghost styles: map<string, NodeStyle>, j: nat, index: nat,
                       nodes: seq<NodeDef>, aliasByName: map<string, string>, style: NodeStyle)
    returns (nodes': seq<NodeDef>, aliasByName': map<string, string>)
    requires j < |keys| && index == j + 1 && keys[j] in styles && style == styles[keys[j]]
    requires CorpusInv(keys, styles, j, nodes, aliasByName)
    ensures CorpusInv(keys, styles, j + 1, nodes', aliasByName')
  {
    var name := keys[j];
    var alias := "N" + NatToString(index);
    assert alias == CorpusAlias(j);
    assert keys[..j + 1] == keys[..j] + [name];
    NodesOfSnoc(keys[..j], |keys|, styles, name);
    AliasMapSnoc(nodes, NodeDef(name, alias, style));
    aliasByName' := aliasByName[name := alias];
    nodes' := nodes + [NodeDef(name, alias, style)];
  }

  /** In the third loop a target has an alias exactly when it is among the names so far. */
  lemma AliasedIffSeen(keys: seq<string>, styles: map<string, NodeStyle>, names: seq<string>, nodes: seq<NodeDef>, to: string)
    requires |names| >= |keys| && Styled(names, |keys|, styles) && nodes == NodesOf(names, |keys|, styles)
    ensures to in AliasMap(nodes) <==> to in names
  {
    AliasMapKeys(nodes);
    assert NodeNames(nodes) == names;
  }

  /** A target not seen before becomes the next external node, and the third loop's account still holds. */
  lemma ExternalStep(keys: seq<string>, styles: map<string, NodeStyle>, names: seq<string>,
                     nodes: seq<NodeDef>, aliasByName: map<string, string>, externalIndex: int, to: string)
    requires ExternalInv(keys, styles, names, nodes, aliasByName, externalIndex) && to !in names
    ensures var d := NodeDef(to, ExternalAlias(|names| - |keys|), External);
      ExternalInv(keys, styles, names + [to], nodes + [d], aliasByName[to := d.alias], externalIndex + 1)
  {
    var d := NodeDef(to, ExternalAlias(|names| - |keys|), External);
    NodesOfSnoc(names, |keys|, styles, to);
    AliasMapSnoc(nodes, d);
  }

  /**
    What the third loop keeps: the names so far start with the keys, carry
    their styles, and the nodes, the alias map and the next external number
    follow from them.
  */
  ghost predicate ExternalInv(keys: seq<string>, styles: map<string, NodeStyle>, names: seq<string>,
                              nodes: seq<NodeDef>, aliasByName: map<string, string>, externalIndex: int) {
    |names| >= |keys| && Styled(names, |keys|, styles)
    && nodes == NodesOf(names, |keys|, styles)
    && aliasByName == AliasMap(nodes)
    && externalIndex == |names| - |keys| + 1
  }

  /** The third loop: an external node aliased `X1`, `X2`, ... for each unseen target, in encounter order. */
  method ExternalNodes(rels: seq<Relationship>, keys: seq<string>, ghost styles: map<string, NodeStyle>,
                       nodes0: seq<NodeDef>, aliases0: map<string, string>)
    returns (nodes: seq<NodeDef>, aliasByName: map<string, string>)
    requires Styled(keys, |keys|, styles)
    requires nodes0 == NodesOf(keys, |keys|, styles) && aliases0 == AliasMap(nodes0)
    ensures Styled(AddAll(keys, Targets(rels)), |keys|, styles)
    ensures nodes == NodesOf(AddAll(keys, Targets(rels)), |keys|, styles)
    ensures aliasByName == AliasMap(nodes)
  {
    nodes := nodes0;
    aliasByName := aliases0;
    ghost var names := keys;
    var externalIndex := 1;
    assert Targets(rels[..0]) == [];
    for i := 0 to |rels|
      invariant names == AddAll(keys, Targets(rels[..i]))
      invariant ExternalInv(keys, styles, names, nodes, aliasByName, externalIndex)
    {
      var to := rels[i].to;
      NamesStep(keys, rels, i);
      names, nodes, aliasByName, externalIndex := AddExternal(keys, styles, names, nodes, aliasByName, externalIndex, to);
    }
    assert rels[..|rels|] == rels;
  }

  /** The names after one more relationship: its target inserted. */
  lemma NamesStep(keys: seq<string>, rels: seq<Relationship>, i: nat)
    requires i < |rels|
    ensures AddAll(keys, Targets(rels[..i + 1])) == Insert(AddAll(keys, Targets(rels[..i])), rels[i].to)
  {
    assert Targets(rels[..i + 1]) == Targets(rels[..i]) + [rels[i].to];
    AddAllSnoc(keys, Targets(rels[..i]), rels[i].to);
  }

  /** One step of the third loop: a target without an alias becomes the next external node. */
  method AddExternal(keys: seq<string>, ghost styles: map<string, NodeStyle>, ghost names: seq<string>,
                     nodes: seq<NodeDef>, aliasByName: map<string, string>, externalIndex: int, to: string)
    returns (ghost names': seq<string>, nodes': seq<NodeDef>, aliasByName': map<string, string>, externalIndex': int)
    requires ExternalInv(keys, styles, names, nodes, aliasByName, externalIndex)
    ensures names' == Insert(names, to)
    ensures ExternalInv(keys, styles, names', nodes', aliasByName', externalIndex')
  {
    AliasedIffSeen(keys, styles, names, nodes, to);
    if to !in aliasByName {
      var alias := ['X'] + NatToString(externalIndex);
      assert alias == ExternalAlias(|names| - |keys|);
      ExternalStep(keys, styles, names, nodes, aliasByName, externalIndex, to);
      externalIndex' := externalIndex + 1;
      aliasByName' := aliasByName[to := alias];
      nodes' := nodes + [NodeDef(to, alias, External)];
      names' := names + [to];
    } else {
      names', nodes', aliasByName', externalIndex' := names, nodes, aliasByName, externalIndex;
    }
  }

  /** The fourth loop: one `rectangle` line per node, appended to `uml0`. */
  method RenderNodes(nodes: seq<NodeDef>, uml0: string) returns (uml: string)
    ensures uml == NodeText(uml0, nodes, |nodes|)
  {
    uml := uml0;
    for j := 0 to |nodes|
      invariant uml == NodeText(uml0, nodes, j)
    {
      uml := uml + NodeLine(nodes[j]);
    }
  }

  /** The last loop: one edge line per relationship whose two ends have aliases, counted. */
  method RenderEdges(rels: seq<Relationship>, aliasByName: map<string, string>, uml0: string)
    returns (uml: string, edges: int)
    ensures uml == EdgeText(uml0, rels, aliasByName, |rels|)
    ensures edges == EdgeCount(rels, aliasByName, |rels|)
  {
    uml := uml0;
    edges := 0;
    for i := 0 to |rels|
      invariant uml == EdgeText(uml0, rels, aliasByName, i)
      invariant edges == EdgeCount(rels, aliasByName, i)
    {
      var rel := rels[i];
      if rel.from !in aliasByName || rel.to !in aliasByName {
        continue;
      }
      var fromAlias := aliasByName[rel.from];
      var toAlias := aliasByName[rel.to];
      uml := uml + ToPlantUml(rel, fromAlias, toAlias) + "\n";
      edges := edges + 1;
    }
  }

  /** `buildModel`: null when no square is named, else the PlantUML text and its node and edge counts. */
  method BuildModel(squares: seq<Square>) returns (model: Option<DiagramModel>)
    ensures model == Model(Views(squares))
  {
    ghost var vs := Views(squares);
    var keys, byName := CollectByName(squares);
    if keys == [] {
      return None;
    }
    var m := AssembleModel(squares, keys, byName, vs);
    model := Some(m);
  }

  /** The node part of `buildModel`: corpus nodes, relationships, then the external nodes. */
  method BuildNodes(squares: seq<Square>, keys: seq<string>, byName: map<string, Square>,
                    ghost vs: seq<Option<UnitView>>)
    returns (rels: seq<Relationship>, nodes: seq<NodeDef>, aliasByName: map<string, string>)
    requires vs == Views(squares) && keys == CorpusNames(vs)
    requires forall n :: n in byName <==> n in keys
    requires forall n | n in byName ::
               n in LastSource(vs, |vs|)
               && byName[n].SimpleName() == n && byName[n].source == LastSource(vs, |vs|)[n]
    ensures rels == ExtractResult(vs) && nodes == NodesFor(vs, rels) && aliasByName == AliasMap(nodes)
  {
    CorpusStylesDefined(vs);
    nodes, aliasByName := CorpusNodes(keys, byName, LastSource(vs, |vs|), CorpusStyles(vs));
    rels := Extract(squares);
    nodes, aliasByName := ExternalNodes(rels, keys, CorpusStyles(vs), nodes, aliasByName);
    NodesAre(vs, rels, nodes);
  }

  /** The nodes the second and third loops build are the diagram's nodes. */
  lemma NodesAre(vs: seq<Option<UnitView>>, rels: seq<Relationship>, nodes: seq<NodeDef>)
    requires Styled(AddAll(CorpusNames(vs), Targets(rels)), |CorpusNames(vs)|, CorpusStyles(vs))
    requires nodes == NodesOf(AddAll(CorpusNames(vs), Targets(rels)), |CorpusNames(vs)|, CorpusStyles(vs))
    ensures nodes == NodesFor(vs, rels)
  {
  }

  /** The rest of `buildModel` once some square is named: nodes, aliases, relationships, text. */
  method AssembleModel(squares: seq<Square>, keys: seq<string>, byName: map<string, Square>,
                       ghost vs: seq<Option<UnitView>>)
    returns (model: DiagramModel)
    requires vs == Views(squares) && keys == CorpusNames(vs) && keys != []
    requires forall n :: n in byName <==> n in keys
    requires forall n | n in byName ::
               n in LastSource(vs, |vs|)
               && byName[n].SimpleName() == n && byName[n].source == LastSource(vs, |vs|)[n]
    ensures Model(vs) == Some(model)
  {
    var rels, nodes, aliasByName := BuildNodes(squares, keys, byName, vs);
    var uml := RenderNodes(nodes, Header);
    var edges;
    uml, edges := RenderEdges(rels, aliasByName, uml);
    uml := uml + Footer;
    model := DiagramModel(uml, |nodes|, edges);
    UmlTextIs(nodes, rels, aliasByName);
    ModelIs(vs, rels, nodes, uml, edges);
  }

  lemma UmlTextIs(ds: seq<NodeDef>, rels: seq<Relationship>, aliases: map<string, string>)
    requires aliases == AliasMap(ds)
    ensures UmlText(ds, rels) == EdgeText(NodeText(Header, ds, |ds|), rels, aliases, |rels|) + Footer
  {
  }

  lemma ModelIs(vs: seq<Option<UnitView>>, rels: seq<Relationship>, ds: seq<NodeDef>, uml: string, edges: int)
    requires CorpusNames(vs) != [] && ds == NodesFor(vs, rels)
    requires uml == UmlText(ds, rels) && edges == EdgeCount(rels, AliasMap(ds), |rels|)
    ensures ModelFor(vs, rels) == Some(DiagramModel(uml, |ds|, edges))
  {
  }

  // ---------------------------------------------------------------------
  // buildModel: properties
  // ---------------------------------------------------------------------

  /** Every named entry's name is a corpus name. */
  lemma NamedInCorpus(vs: seq<Option<UnitView>>, i: nat)
    requires i < |vs| && Named(vs[i])
    ensures vs[i].value.name in CorpusNames(vs)
  {
    NamedNamesMembers(vs, |vs|);
    AddAllElements([], NamedNames(vs, |vs|));
  }

  /** `buildModel` returns null exactly when no square has a non-blank simple name. */
  lemma ModelAbsentIffUnnamed(vs: seq<Option<UnitView>>)
    ensures Model(vs).None? <==> forall i | 0 <= i < |vs| :: !Named(vs[i])
  {
    var named := NamedNames(vs, |vs|);
    AddAllElements([], named);
    NamedNamesMembers(vs, |vs|);
    if CorpusNames(vs) != [] {
      assert CorpusNames(vs)[0] in named;
    }
    forall i | 0 <= i < |vs| && Named(vs[i]) ensures vs[i].value.name in CorpusNames(vs) {
      NamedInCorpus(vs, i);
    }
  }

  /** Aliases with different letters or different numbers differ. */
  lemma AliasesDiffer(p: char, q: char, a: nat, b: nat)
    requires p != q || a != b
    ensures [p] + NatToString(a) != [q] + NatToString(b)
  {
    var s, t := [p] + NatToString(a), [q] + NatToString(b);
    if s == t {
      assert s[0] == p && t[0] == q;
      assert s[1..] == NatToString(a) && t[1..] == NatToString(b);
      NatToStringInjective(a, b);
    }
  }

  /** The alias of the node at `t`, of which the first `corpus` are corpus units. */
  function AliasAt(t: nat, corpus: nat): string {
    if t < corpus then CorpusAlias(t) else ExternalAlias(t - corpus)
  }

  lemma AliasAtDistinct(t1: nat, t2: nat, corpus: nat)
    requires t1 < t2
    ensures AliasAt(t1, corpus) != AliasAt(t2, corpus)
  {
    var p1: char, a1: nat := if t1 < corpus then 'N' else 'X', if t1 < corpus then t1 + 1 else t1 - corpus + 1;
    var p2: char, a2: nat := if t2 < corpus then 'N' else 'X', if t2 < corpus then t2 + 1 else t2 - corpus + 1;
    assert AliasAt(t1, corpus) == [p1] + NatToString(a1);
    assert AliasAt(t2, corpus) == [p2] + NatToString(a2);
    AliasesDiffer(p1, p2, a1, a2);
  }

  /** No two nodes share an alias: N1, N2, ... for the corpus, X1, X2, ... after it. */
  lemma AliasesDistinct(names: seq<string>, corpus: nat, styles: map<string, NodeStyle>)
    requires Styled(names, corpus, styles)
    ensures forall t1, t2 | 0 <= t1 < t2 < |names| ::
      NodesOf(names, corpus, styles)[t1].alias != NodesOf(names, corpus, styles)[t2].alias
  {
    var ds := NodesOf(names, corpus, styles);
    forall t1, t2 | 0 <= t1 < t2 < |names| ensures ds[t1].alias != ds[t2].alias {
      NodesOfAlias(names, corpus, styles, t1);
      NodesOfAlias(names, corpus, styles, t2);
      AliasAtDistinct(t1, t2, corpus);
    }
  }

  lemma NodesOfAlias(names: seq<string>, corpus: nat, styles: map<string, NodeStyle>, t: nat)
    requires Styled(names, corpus, styles) && t < |names|
    ensures NodesOf(names, corpus, styles)[t].alias == AliasAt(t, corpus)
  {
    var d := NodesOf(names, corpus, styles)[t];
    if t < corpus {
      assert d == NodeDef(names[t], CorpusAlias(t), styles[names[t]]);
    } else {
      assert d == NodeDef(names[t], ExternalAlias(t - corpus), External);
    }
  }

  /** The corpus names keep their places, with N aliases and their own styles. */
  lemma NodesOfCorpus(keys: seq<string>, ts: seq<string>, styles: map<string, NodeStyle>)
    requires Styled(AddAll(keys, ts), |keys|, styles)
    ensures var ds := NodesOf(AddAll(keys, ts), |keys|, styles);
      && |keys| <= |ds|
      && forall t | 0 <= t < |keys| ::
           ds[t].name == keys[t] && ds[t].alias == CorpusAlias(t) && keys[t] in styles && ds[t].style == styles[keys[t]]
  {
    var names := AddAll(keys, ts);
    var ds := NodesOf(names, |keys|, styles);
    AddAllKeepsPrefix(keys, ts);
    forall t | 0 <= t < |keys|
      ensures ds[t].name == keys[t] && ds[t].alias == CorpusAlias(t) && keys[t] in styles && ds[t].style == styles[keys[t]]
    {
      assert names[t] == names[..|keys|][t];
      assert ds[t] == NodeDef(names[t], CorpusAlias(t), styles[names[t]]);
    }
  }

  /** After the corpus come the targets outside it, as external nodes with X aliases. */
  lemma NodesOfExternal(keys: seq<string>, ts: seq<string>, styles: map<string, NodeStyle>)
    requires NoDup(keys) && Styled(AddAll(keys, ts), |keys|, styles)
    ensures var ds := NodesOf(AddAll(keys, ts), |keys|, styles);
      forall t | |keys| <= t < |ds| ::
        ds[t].alias == ExternalAlias(t - |keys|) && ds[t].style == External
        && ds[t].name !in keys && ds[t].name in ts
  {
    var names := AddAll(keys, ts);
    var ds := NodesOf(names, |keys|, styles);
    AddAllNoDup(keys, ts);
    AddAllElements(keys, ts);
    AddAllKeepsPrefix(keys, ts);
    forall t | |keys| <= t < |ds|
      ensures ds[t].alias == ExternalAlias(t - |keys|) && ds[t].style == External
        && names[t] !in keys && names[t] in ts
    {
      assert ds[t] == NodeDef(names[t], ExternalAlias(t - |keys|), External);
      forall u | 0 <= u < |keys| ensures keys[u] != names[t] {
        assert names[u] == names[..|keys|][u];
      }
      assert names[t] in names;
    }
  }

  /** Every name appears once, and every target has a node. */
  lemma NodesOfNames(keys: seq<string>, ts: seq<string>, styles: map<string, NodeStyle>)
    requires NoDup(keys) && Styled(AddAll(keys, ts), |keys|, styles)
    ensures var ds := NodesOf(AddAll(keys, ts), |keys|, styles);
      NoDup(NodeNames(ds)) && forall x | x in ts :: x in NodeNames(ds)
  {
    var names := AddAll(keys, ts);
    AddAllNoDup(keys, ts);
    AddAllElements(keys, ts);
    assert NodeNames(NodesOf(names, |keys|, styles)) == names;
  }

  /**
    The diagram's node list: corpus names first, aliased N1, N2, ... and never
    external; then every relationship target outside the corpus once, aliased
    X1, X2, ... and external.  Names and aliases are all distinct, and every
    relationship target has a node.
  */
  lemma NodesLayout(vs: seq<Option<UnitView>>, rels: seq<Relationship>)
    ensures var ds, k := NodesFor(vs, rels), |CorpusNames(vs)|;
      && k <= |ds|
      && NoDup(NodeNames(ds))
      && (forall t | 0 <= t < k ::
            ds[t].name == CorpusNames(vs)[t] && ds[t].alias == CorpusAlias(t) && ds[t].style != External)
      && (forall t | k <= t < |ds| ::
            ds[t].alias == ExternalAlias(t - k) && ds[t].style == External
            && ds[t].name !in CorpusNames(vs) && ds[t].name in Targets(rels))
      && (forall r | r in rels :: r.to in NodeNames(ds))
      && (forall t1, t2 | 0 <= t1 < t2 < |ds| :: ds[t1].alias != ds[t2].alias)
  {
    CorpusNodesLayout(vs, rels);
    ExternalNodesLayout(vs, rels);
    NodeNamesLayout(vs, rels);
    NodeAliasesLayout(vs, rels);
  }

  /** The corpus part of the node list: the corpus names in order, aliased N1, N2, ... and never external. */
  lemma CorpusNodesLayout(vs: seq<Option<UnitView>>, rels: seq<Relationship>)
    ensures var ds, k := NodesFor(vs, rels), |CorpusNames(vs)|;
      && k <= |ds|
      && forall t | 0 <= t < k ::
           ds[t].name == CorpusNames(vs)[t] && ds[t].alias == CorpusAlias(t) && ds[t].style != External
  {
    AliasKeysStyled(vs, rels);
    NodesOfCorpus(CorpusNames(vs), Targets(rels), CorpusStyles(vs));
  }

  /** The rest of the node list: targets outside the corpus, aliased X1, X2, ... and external. */
  lemma ExternalNodesLayout(vs: seq<Option<UnitView>>, rels: seq<Relationship>)
    ensures var ds, k := NodesFor(vs, rels), |CorpusNames(vs)|;
      forall t | k <= t < |ds| ::
        ds[t].alias == ExternalAlias(t - k) && ds[t].style == External
        && ds[t].name !in CorpusNames(vs) && ds[t].name in Targets(rels)
  {
    var keys, ts, styles := CorpusNames(vs), Targets(rels), CorpusStyles(vs);
    NodesForIs(vs, rels);
    CorpusNamesDistinct(vs);
    NodesOfExternal(keys, ts, styles);
    var ds := NodesOf(AddAll(keys, ts), |keys|, styles);
    forall t | |keys| <= t < |ds|
      ensures ds[t].alias == ExternalAlias(t - |keys|) && ds[t].style == External && ds[t].name !in keys && ds[t].name in ts
    {
    }
  }

  /** The node list spelled out: corpus names, then the targets added after them. */
  lemma NodesForIs(vs: seq<Option<UnitView>>, rels: seq<Relationship>)
    ensures Styled(AddAll(CorpusNames(vs), Targets(rels)), |CorpusNames(vs)|, CorpusStyles(vs))
    ensures NodesFor(vs, rels) == NodesOf(AddAll(CorpusNames(vs), Targets(rels)), |CorpusNames(vs)|, CorpusStyles(vs))
  {
    AliasKeysStyled(vs, rels);
  }

  /** Each name is a corpus unit once. */
  lemma CorpusNamesDistinct(vs: seq<Option<UnitView>>)
    ensures NoDup(CorpusNames(vs))
  {
    AddAllNoDup([], NamedNames(vs, |vs|));
  }

  /** Node names are distinct, and every relationship target has a node. */
  lemma NodeNamesLayout(vs: seq<Option<UnitView>>, rels: seq<Relationship>)
    ensures var ds := NodesFor(vs, rels);
      NoDup(NodeNames(ds)) && forall r | r in rels :: r.to in NodeNames(ds)
  {
    AliasKeysStyled(vs, rels);
    CorpusNamesDistinct(vs);
    NodesOfNames(CorpusNames(vs), Targets(rels), CorpusStyles(vs));
    forall r | r in rels ensures r.to in Targets(rels) {
      var i :| 0 <= i < |rels| && rels[i] == r;
      assert Targets(rels)[i] == r.to;
    }
  }

  /** Node aliases are distinct. */
  lemma NodeAliasesLayout(vs: seq<Option<UnitView>>, rels: seq<Relationship>)
    ensures var ds := NodesFor(vs, rels);
      forall t1, t2 | 0 <= t1 < t2 < |ds| :: ds[t1].alias != ds[t2].alias
  {
    AliasKeysStyled(vs, rels);
    AliasesDistinct(AliasKeys(vs, rels), |CorpusNames(vs)|, CorpusStyles(vs));
  }

  /** Corpus nodes follow the order in which their names first occur in the list. */
  lemma CorpusOrder(vs: seq<Option<UnitView>>)
    ensures forall t1, t2 | 0 <= t1 < t2 < |CorpusNames(vs)| ::
      CorpusNames(vs)[t1] in NamedNames(vs, |vs|) && CorpusNames(vs)[t2] in NamedNames(vs, |vs|)
      && FirstIndex(NamedNames(vs, |vs|), CorpusNames(vs)[t1]) < FirstIndex(NamedNames(vs, |vs|), CorpusNames(vs)[t2])
  {
    var named := NamedNames(vs, |vs|);
    var keys := CorpusNames(vs);
    AddAllFirstOccurrenceOrder([], named);
    assert [] + named == named;
    forall t1, t2 | 0 <= t1 < t2 < |keys|
      ensures keys[t1] in named && keys[t2] in named && FirstIndex(named, keys[t1]) < FirstIndex(named, keys[t2])
    {
      assert keys[t1] in [] + named && keys[t2] in [] + named;
      assert FirstIndex([] + named, keys[t1]) < FirstIndex([] + named, keys[t2]);
    }
  }

  /** A name keeps the node of its first entry but is classified on its last entry. */
  lemma LastEntryDecidesStyle(vs: seq<Option<UnitView>>, rels: seq<Relationship>, i: nat, t: nat)
    requires i < |vs| && Named(vs[i])
    requires forall j | i < j < |vs| :: !(Named(vs[j]) && vs[j].value.name == vs[i].value.name)
    requires t < |NodesFor(vs, rels)| && NodesFor(vs, rels)[t].name == vs[i].value.name
    ensures NodesFor(vs, rels)[t].style == StyleOf(vs[i].value.name, vs[i].value.source)
  {
    var n := vs[i].value.name;
    var keys := CorpusNames(vs);
    var styles := CorpusStyles(vs);
    var src := LastSource(vs, |vs|);
    var ds := NodesFor(vs, rels);
    AliasKeysStyled(vs, rels);
    AddAllNoDup([], NamedNames(vs, |vs|));
    NodesOfCorpus(keys, Targets(rels), styles);
    NodesOfExternal(keys, Targets(rels), styles);
    NamedInCorpus(vs, i);
    assert t < |keys|;
    LastSourceLastWins(vs, |vs|, i);
    assert keys[t] == n && ds[t].style == styles[n];
    assert styles[n] == StyleOf(n, src[n]);
  }

  lemma {:induction false} EdgeCountAll(rels: seq<Relationship>, aliases: map<string, string>, len: nat)
    requires len <= |rels|
    requires forall i | 0 <= i < len :: rels[i].from in aliases && rels[i].to in aliases
    ensures EdgeCount(rels, aliases, len) == len
    decreases len
  {
    if len > 0 {
      EdgeCountAll(rels, aliases, len - 1);
    }
  }

  /** Both ends of every extracted relationship have a node, hence an alias. */
  lemma RelationshipEndsHaveAliases(vs: seq<Option<UnitView>>)
    ensures forall r | r in ExtractResult(vs) ::
      r.from in AliasMap(Nodes(vs)) && r.to in AliasMap(Nodes(vs))
  {
    ExtractResultProperties(vs);
    EndsHaveAliases(vs, ExtractResult(vs));
  }

  /** Relationships leaving named entries have both ends among the nodes drawn for them. */
  lemma EndsHaveAliases(vs: seq<Option<UnitView>>, rels: seq<Relationship>)
    requires forall r | r in rels :: exists i | 0 <= i < |vs| :: Named(vs[i]) && r.from == vs[i].value.name
    ensures forall r | r in rels ::
      r.from in AliasMap(NodesFor(vs, rels)) && r.to in AliasMap(NodesFor(vs, rels))
  {
    var keys := CorpusNames(vs);
    var ds := NodesFor(vs, rels);
    NodesLayout(vs, rels);
    AliasMapKeys(ds);
    NamedNamesMembers(vs, |vs|);
    AddAllElements([], NamedNames(vs, |vs|));
    forall r | r in rels ensures r.from in NodeNames(ds) {
      assert r.from in keys;
      var u :| 0 <= u < |keys| && keys[u] == r.from;
      assert NodeNames(ds)[u] == r.from;
    }
  }

  /** Every extracted relationship is drawn, and there is one node per alias key. */
  lemma EveryRelationshipDrawn(vs: seq<Option<UnitView>>)
    requires Model(vs).Some?
    ensures Model(vs).value.edgeCount == |ExtractResult(vs)|
    ensures Model(vs).value.nodeCount == |Nodes(vs)|
  {
    var rels := ExtractResult(vs);
    RelationshipEndsHaveAliases(vs);
    forall i | 0 <= i < |rels| ensures rels[i].from in AliasMap(Nodes(vs)) && rels[i].to in AliasMap(Nodes(vs)) {
      assert rels[i] in rels;
    }
    EdgeCountAll(rels, AliasMap(Nodes(vs)), |rels|);
  }

  /** A text that starts with `p` still does after anything is appended. */
  lemma AppendKeepsPrefix(a: string, b: string, p: string)
    requires |p| <= |a| && a[..|p|] == p
    ensures (a + b)[..|p|] == p
  {
    assert (a + b)[..|p|] == a[..|p|];
  }

  lemma NodeTextExtends(text: string, ds: seq<NodeDef>, m: nat, len: nat)
    requires m <= len <= |ds|
    ensures |NodeText(text, ds, m)| <= |NodeText(text, ds, len)|
    ensures NodeText(text, ds, len)[..|NodeText(text, ds, m)|] == NodeText(text, ds, m)
  {
    JoinedExtends(text, NodeLines(ds), m, len);
  }

  lemma {:induction false} EdgeTextExtends(text: string, rels: seq<Relationship>, aliases: map<string, string>, len: nat)
    requires len <= |rels|
    ensures |text| <= |EdgeText(text, rels, aliases, len)|
    ensures EdgeText(text, rels, aliases, len)[..|text|] == text
    decreases len
  {
    if len > 0 {
      EdgeTextExtends(text, rels, aliases, len - 1);
      var r := rels[len - 1];
      if r.from in aliases && r.to in aliases {
        AppendKeepsPrefix(EdgeText(text, rels, aliases, len - 1), ToPlantUml(r, aliases[r.from], aliases[r.to]) + "\n", text);
      }
    }
  }

  /** The header and node lines come first in the text; the edges and the footer only follow them. */
  lemma NodeTextLeadsUml(ds: seq<NodeDef>, rels: seq<Relationship>, len: nat)
    requires len <= |ds|
    ensures |NodeText(Header, ds, len)| <= |UmlText(ds, rels)|
    ensures UmlText(ds, rels)[..|NodeText(Header, ds, len)|] == NodeText(Header, ds, len)
  {
    var nodeText := NodeText(Header, ds, |ds|);
    var edgeText := EdgeText(nodeText, rels, AliasMap(ds), |rels|);
    var prefix := NodeText(Header, ds, len);
    EdgeTextExtends(nodeText, rels, AliasMap(ds), |rels|);
    AppendKeepsPrefix(edgeText, Footer, nodeText);
    NodeTextExtends(Header, ds, len, |ds|);
    var uml := edgeText + Footer;
    assert uml[..|prefix|] == uml[..|nodeText|][..|prefix|];
  }

  /** Node `t`'s `rectangle` line follows the header and the lines of the nodes before it. */
  lemma NodeLineAt(ds: seq<NodeDef>, rels: seq<Relationship>, t: nat)
    requires t < |ds|
    ensures LitAt(UmlText(ds, rels), |NodeText(Header, ds, t)|, NodeLine(ds[t]))
  {
    NodeTextLeadsUml(ds, rels, t + 1);
    PrefixHoldsParts(UmlText(ds, rels), NodeText(Header, ds, t), NodeLine(ds[t]));
  }

  /** A text starting with `a + b` holds `b` right after `a`. */
  lemma PrefixHoldsParts(s: string, a: string, b: string)
    requires |a + b| <= |s| && s[..|a + b|] == a + b
    ensures LitAt(s, |a|, b)
  {
    assert s[|a|..|a| + |b|] == s[..|a + b|][|a|..];
  }

  /**
    The text opens with `@startuml`, closes with `@enduml`, and holds each
    node's `rectangle` line, in node order, after the header.
  */
  lemma UmlTextFrame(ds: seq<NodeDef>, rels: seq<Relationship>)
    ensures StartsWith(UmlText(ds, rels), Opening)
    ensures EndsWith(UmlText(ds, rels), Footer)
    ensures forall t | 0 <= t < |ds| ::
      LitAt(UmlText(ds, rels), |NodeText(Header, ds, t)|, NodeLine(ds[t]))
  {
    var uml := UmlText(ds, rels);
    NodeTextLeadsUml(ds, rels, 0);
    assert uml[..|Opening|] == Opening by {
      assert uml[..|Opening|] == uml[..|Header|][..|Opening|];
    }
    forall t | 0 <= t < |ds| ensures LitAt(uml, |NodeText(Header, ds, t)|, NodeLine(ds[t])) {
      NodeLineAt(ds, rels, t);
    }
  }

  /** The model's text is framed by `@startuml` and `@enduml` and draws every node. */
  lemma UmlFrame(vs: seq<Option<UnitView>>)
    requires Model(vs).Some?
    ensures StartsWith(Model(vs).value.umlSource, "@startuml\n")
    ensures EndsWith(Model(vs).value.umlSource, "@enduml\n")
    ensures forall t | 0 <= t < |Nodes(vs)| ::
      LitAt(Model(vs).value.umlSource, |NodeText(Header, Nodes(vs), t)|, NodeLine(Nodes(vs)[t]))
  {
    UmlTextFrame(Nodes(vs), ExtractResult(vs));
  }
}
