/**
  The relationship classifier: typed UML edges read off a unit's stripped
  source by three surface-pattern passes (inheritance, fields, constructor
  parameters), each pattern written out as a scanner with the semantics of
  the regular expression it stands for.
*/
module Relationships {
  import opened JavaText
  import opened SourceUtils
  import opened OrderedSets
  import opened Squares

  // ---------------------------------------------------------------------
  // Relationship values
  // ---------------------------------------------------------------------

  datatype Kind = Generalization | Implementation | Composition | Aggregation | Dependency

  /** Equality is structural: two relationships are equal iff from, to and kind agree. */
  datatype Relationship = Relationship(from: string, to: string, kind: Kind)

  /** The PlantUML arrow drawn for each kind. */
  function Arrow(k: Kind): (a: string)
    ensures 3 <= |a| <= 4
  {
    match k
    case Generalization => "--|>"
    case Implementation => "..|>"
    case Composition => "*--"
    case Aggregation => "o--"
    case Dependency => "..>"
  }

  /** `toPlantUml`: one edge line between two aliases. */
  function ToPlantUml(r: Relationship, fromAlias: string, toAlias: string): (line: string)
    ensures LitAt(line, 0, fromAlias) && LitAt(line, |fromAlias| + 1, Arrow(r.kind))
    ensures |line| == |fromAlias| + |Arrow(r.kind)| + |toAlias| + 2
  {
    var line := fromAlias + " " + Arrow(r.kind) + " " + toAlias;
    assert line[|fromAlias| + 1..|fromAlias| + 1 + |Arrow(r.kind)|] == Arrow(r.kind);
    line
  }

  /** The drawn line determines the kind: distinct kinds get distinct lines. */
  lemma ToPlantUmlDeterminesKind(r1: Relationship, r2: Relationship, a: string, b: string)
    requires ToPlantUml(r1, a, b) == ToPlantUml(r2, a, b)
    ensures r1.kind == r2.kind
  {
    var l := ToPlantUml(r1, a, b);
    assert |Arrow(r1.kind)| == |Arrow(r2.kind)|;
    assert Arrow(r1.kind) == l[|a| + 1..|a| + 1 + |Arrow(r1.kind)|] == Arrow(r2.kind);
    match r1.kind
    case Generalization => assert Arrow(r2.kind)[0] == '-';
    case Implementation => assert Arrow(r2.kind)[0] == '.' && |Arrow(r2.kind)| == 4;
    case Composition => assert Arrow(r2.kind)[0] == '*';
    case Aggregation => assert Arrow(r2.kind)[0] == 'o';
    case Dependency => assert Arrow(r2.kind)[0] == '.' && |Arrow(r2.kind)| == 3;
  }

  /**
    `hashCode`: `31 * (31 * from.hashCode() + to.hashCode()) + type.hashCode()`
    in `int` arithmetic.  The enum constant's hash is an identity hash, fixed
    for a run but not by the program, so it is a parameter here.
  */
  function HashCode(r: Relationship, kindHash: Kind -> int): (h: int)
    ensures IsInt32(h)
  {
    Wrap32(31 * Wrap32(31 * StringHash(r.from) + StringHash(r.to)) + kindHash(r.kind))
  }

  /** The hash is the three-term polynomial reduced once to 32 bits. */
  lemma HashCodeIsPolynomial(r: Relationship, kindHash: Kind -> int)
    ensures HashCode(r, kindHash)
         == Wrap32(961 * StringHash(r.from) + 31 * StringHash(r.to) + kindHash(r.kind))
  {
    Wrap32MulAdd(31 * StringHash(r.from) + StringHash(r.to), kindHash(r.kind));
  }

  // ---------------------------------------------------------------------
  // normalizeType
  // ---------------------------------------------------------------------

  /** A normalised type name: non-empty, upper-case initial, word characters only. */
  predicate IsTypeName(t: string) {
    t != [] && IsUpper(t[0]) && forall k | 0 <= k < |t| :: IsWordChar(t[k])
  }

  /** The first '>' at or after `i` reachable without crossing a line terminator. */
  function CloseAngle(s: string, i: nat): (r: Option<nat>)
    ensures r.Some? ==> i <= r.value < |s| && s[r.value] == '>'
    decreases |s| - i
  {
    if i >= |s| then None
    else if s[i] == '>' then Some(i)
    else if IsLineTerminator(s[i]) then None
    else CloseAngle(s, i + 1)
  }

  /** `replaceAll("<.*?>", "")`: each '<' with a reachable '>' is removed up to that '>'. */
  function RemoveGenerics(s: string): (r: string)
    ensures |r| <= |s|
    decreases |s|
  {
    if s == [] then []
    else if s[0] == '<' then
      match CloseAngle(s, 1)
      case Some(c) => RemoveGenerics(s[c + 1..])
      case None => [s[0]] + RemoveGenerics(s[1..])
    else [s[0]] + RemoveGenerics(s[1..])
  }

  /** `replace("[]", "")`: each "[]" pair removed, scanning left to right. */
  function RemoveBrackets(s: string): (r: string)
    decreases |s|
  {
    if |s| < 2 then s
    else if s[0] == '[' && s[1] == ']' then RemoveBrackets(s[2..])
    else [s[0]] + RemoveBrackets(s[1..])
  }

  /** `replaceAll("[^A-Za-z0-9_]", "")`. */
  function KeepWordChars(s: string): (r: string)
    ensures forall k | 0 <= k < |r| :: IsWordChar(r[k])
  {
    if s == [] then []
    else if IsWordChar(s[|s| - 1]) then KeepWordChars(s[..|s| - 1]) + [s[|s| - 1]]
    else KeepWordChars(s[..|s| - 1])
  }

  /**
    `normalizeType`: drop generic arguments and "[]", keep what follows the last
    '.', keep word characters only; no type unless the result starts upper-case.
  */
  function NormalizeType(raw: Option<string>): (r: Option<string>)
    ensures raw.None? ==> r.None?
    ensures r.Some? ==> IsTypeName(r.value)
  {
    if raw.None? then None
    else
      var d := KeepWordChars(Unqualified(RemoveBrackets(RemoveGenerics(raw.value))));
      if d == [] || !IsUpper(d[0]) then None else Some(d)
  }

  /** `substring(lastIndexOf('.') + 1)`: what follows the last '.', or all of `b`. */
  function Unqualified(b: string): (c: string)
    ensures '.' !in c
  {
    if b == [] || b[|b| - 1] == '.' then []
    else Unqualified(b[..|b| - 1]) + [b[|b| - 1]]
  }

  /** The text after the last '.' is the part after the last '.'. */
  lemma {:induction false} UnqualifiedAfterDot(p: string, t: string)
    requires '.' !in t
    ensures Unqualified(p + "." + t) == t && Unqualified(t) == t
    decreases |t|
  {
    if t == [] {
      assert p + "." + t == p + ".";
    } else {
      var init := t[..|t| - 1];
      assert (p + "." + t)[..|p + "." + t| - 1] == p + "." + init;
      assert t[|t| - 1] in t;
      UnqualifiedAfterDot(p, init);
      assert init + [t[|t| - 1]] == t;
    }
  }

  lemma {:induction false} RemoveGenericsPlain(p: string, q: string)
    requires '<' !in p
    ensures RemoveGenerics(p + q) == p + RemoveGenerics(q)
    decreases |p|
  {
    if p != [] {
      assert (p + q)[0] == p[0];
      assert (p + q)[1..] == p[1..] + q;
      RemoveGenericsPlain(p[1..], q);
    } else {
      assert p + q == q;
    }
  }

  lemma {:induction false} ReplaceBracketsPlain(p: string, q: string)
    requires '[' !in p
    ensures RemoveBrackets(p + q) == p + RemoveBrackets(q)
    decreases |p|
  {
    if p != [] {
      var s := p + q;
      assert s[0] == p[0];
      assert s[1..] == p[1..] + q;
      ReplaceBracketsPlain(p[1..], q);
    } else {
      assert p + q == q;
    }
  }

  lemma {:induction false} KeepWordCharsPlain(s: string)
    requires forall k | 0 <= k < |s| :: IsWordChar(s[k])
    ensures KeepWordChars(s) == s
    decreases |s|
  {
    if s != [] {
      KeepWordCharsPlain(s[..|s| - 1]);
    }
  }

  /** A name that is already normalised is left as it is (so normalising twice is normalising once). */
  lemma NormalizeTypeFixesTypeNames(t: string)
    requires IsTypeName(t)
    ensures NormalizeType(Some(t)) == Some(t)
  {
    RemoveGenericsPlain(t, []);
    assert t + [] == t;
    ReplaceBracketsPlain(t, []);
    UnqualifiedAfterDot([], t);
    KeepWordCharsPlain(t);
  }

  lemma NormalizeTypeIdempotent(raw: Option<string>)
    ensures NormalizeType(raw).Some? ==> NormalizeType(Some(NormalizeType(raw).value)) == NormalizeType(raw)
  {
    if NormalizeType(raw).Some? {
      NormalizeTypeFixesTypeNames(NormalizeType(raw).value);
    }
  }

  /** A lower-case-led token such as a primitive type is not a type. */
  lemma NormalizeTypeRejectsLowerCase(t: string)
    requires t != [] && 'a' <= t[0] <= 'z'
    requires forall k | 0 <= k < |t| :: IsWordChar(t[k])
    ensures NormalizeType(Some(t)) == None
  {
    RemoveGenericsPlain(t, []);
    assert t + [] == t;
    ReplaceBracketsPlain(t, []);
    UnqualifiedAfterDot([], t);
    KeepWordCharsPlain(t);
  }

  lemma {:induction false} CloseAngleAt(s: string, i: nat, c: nat)
    requires i <= c < |s| && s[c] == '>'
    requires forall k | i <= k < c :: s[k] != '>' && !IsLineTerminator(s[k])
    ensures CloseAngle(s, i) == Some(c)
    decreases c - i
  {
    if i < c {
      CloseAngleAt(s, i + 1, c);
    }
  }

  /**
    Generic arguments, array brackets and the package are all dropped: a
    qualified generic array type such as `java.util.List<String>[]` normalises
    to its simple name.
  */
  lemma NormalizeQualifiedGenericArray(pkg: string, t: string, args: string)
    requires '<' !in pkg && '[' !in pkg
    requires IsTypeName(t)
    requires forall k | 0 <= k < |args| :: args[k] != '>' && !IsLineTerminator(args[k])
    ensures NormalizeType(Some(pkg + "." + t + "<" + args + ">[]")) == Some(t)
  {
    var head := pkg + "." + t;
    var tail := "<" + args + ">[]";
    var raw := head + tail;
    assert pkg + "." + t + "<" + args + ">[]" == raw;
    assert '<' !in head && '[' !in head by {
      forall k | 0 <= k < |head| ensures head[k] != '<' && head[k] != '[' {
        if k < |pkg| {
          assert head[k] == pkg[k];
        } else if k > |pkg| {
          assert head[k] == t[k - |pkg| - 1];
        }
      }
    }
    RemoveGenericsPlain(head, tail);
    CloseAngleAt(tail, 1, |args| + 1);
    assert tail[|args| + 2..] == "[]";
    RemoveGenericsPlain("[]", []);
    assert "[]" + [] == "[]";
    assert RemoveGenerics(raw) == head + "[]";
    ReplaceBracketsPlain(head, "[]");
    assert RemoveBrackets("[]") == [];
    assert head + [] == head;
    assert head[|pkg|] == '.';
    UnqualifiedAfterDot(pkg, t);
    KeepWordCharsPlain(t);
  }

  // ---------------------------------------------------------------------
  // Shared pattern pieces
  // ---------------------------------------------------------------------

  /** [A-Za-z0-9_$.<>], the characters of a captured type token. */
  predicate IsTypeChar(c: char) {
    IsWordChar(c) || c == '$' || c == '.' || c == '<' || c == '>'
  }

  /**
    `\s+([^{]+)` starting at `i`: where the captured body starts.  The greedy
    run of spaces is kept when a non-'{' character follows it; otherwise one
    space is given back to the body, which needs at least one character.
  */
  function BodyAfterSpaces(s: string, i: nat): (r: Option<nat>)
    requires i <= |s|
    ensures r.Some? ==> i < r.value < |s| && s[r.value] != '{'
  {
    var m := SkipSpaces(s, i);
    if m == i then None
    else if m < |s| && s[m] != '{' then Some(m)
    else if m - i >= 2 then Some(m - 1)
    else None
  }

  /** The body captured by `[^{]+` from `g`: everything up to the next '{'. */
  function BodyFrom(s: string, g: nat): (b: string)
    requires g <= |s|
    ensures '{' !in b
  {
    s[g..FirstOrEnd(s, '{', g)]
  }

  // ---------------------------------------------------------------------
  // Inheritance pass
  // ---------------------------------------------------------------------

  /** `\bclass\s+NAME\s+extends\s+([A-Za-z0-9_$.<>]+)` at `p`: the captured token. */
  function ExtendsMatchAt(code: string, name: string, p: nat): (r: Option<string>)
    ensures r.Some? ==> r.value != [] && forall k | 0 <= k < |r.value| :: IsTypeChar(r.value[k])
  {
    if !(Boundary(code, p) && LitAt(code, p, "class")) then None
    else
      var j := NameStart(code, p + 5, name);
      if !(j > p + 5 && LitAt(code, j, name)) then None
      else
        var m := SkipSpaces(code, j + |name|);
        if !(m > j + |name| && LitAt(code, m, "extends")) then None
        else
          var g := SkipSpaces(code, m + 7);
          var e := RunEnd(code, g, IsTypeChar);
          if g > m + 7 && e > g then Some(code[g..e]) else None
  }

  /**
    Backtracking of `[^{]*implements` after the name: the last "implements"
    at or before `k` (and not past the first '{') whose `\s+([^{]+)` matches.
  */
  function ImplementsFrom(code: string, e: nat, k: int): (r: Option<string>)
    requires k <= |code|
    ensures r.Some? ==> '{' !in r.value
    decreases k
  {
    if k < e then None
    else if LitAt(code, k, "implements") then
      match BodyAfterSpaces(code, k + 10)
      case Some(g) => Some(BodyFrom(code, g))
      case None => ImplementsFrom(code, e, k - 1)
    else ImplementsFrom(code, e, k - 1)
  }

  /** `\bclass\s+NAME[^{]*implements\s+([^\{]+)` at `p`: the captured list. */
  function ImplementsMatchAt(code: string, name: string, p: nat): (r: Option<string>)
    ensures r.Some? ==> '{' !in r.value
  {
    if !(Boundary(code, p) && LitAt(code, p, "class")) then None
    else
      var j := NameStart(code, p + 5, name);
      if !(j > p + 5 && LitAt(code, j, name)) then None
      else
        var e := j + |name|;
        ImplementsFrom(code, e, FirstOrEnd(code, '{', e))
  }

  /** `\binterface\s+NAME\s+extends\s+([^\{]+)` at `p`: the captured list. */
  function InterfaceExtendsMatchAt(code: string, name: string, p: nat): (r: Option<string>)
    ensures r.Some? ==> '{' !in r.value
  {
    if !(Boundary(code, p) && LitAt(code, p, "interface")) then None
    else
      var j := NameStart(code, p + 9, name);
      if !(j > p + 9 && LitAt(code, j, name)) then None
      else
        var m := SkipSpaces(code, j + |name|);
        if !(m > j + |name| && LitAt(code, m, "extends")) then None
        else
          match BodyAfterSpaces(code, m + 7)
          case Some(g) => Some(BodyFrom(code, g))
          case None => None
  }

  /** The first match's capture, as `find()` then `group(1)` give it. */
  function Captured(m: Option<(nat, string)>): Option<string> {
    match m
    case Some((_, g)) => Some(g)
    case None => None
  }

  function ExtendsCapture(code: string, name: string): Option<string> {
    Captured(FirstMatch(|code|, 0, p => ExtendsMatchAt(code, name, p)))
  }

  function ImplementsCapture(code: string, name: string): Option<string> {
    Captured(FirstMatch(|code|, 0, p => ImplementsMatchAt(code, name, p)))
  }

  function InterfaceExtendsCapture(code: string, name: string): Option<string> {
    Captured(FirstMatch(|code|, 0, p => InterfaceExtendsMatchAt(code, name, p)))
  }

  /** The edge one list entry gives, when it normalises to a type. */
  function TypeEdge(from: string, raw: string, kind: Kind): (r: Option<Relationship>)
    ensures r.Some? <==> NormalizeType(Some(raw)).Some?
    ensures r.Some? ==> r.value == Relationship(from, NormalizeType(Some(raw)).value, kind)
  {
    match NormalizeType(Some(raw))
    case Some(t) => Some(Relationship(from, t, kind))
    case None => None
  }

  /** One edge of the given kind per entry that normalises to a type, in order. */
  function TypeEdges(from: string, raws: seq<string>, kind: Kind): (r: seq<Relationship>)
    ensures forall e | e in r :: e.from == from && e.kind == kind && IsTypeName(e.to)
  {
    if raws == [] then []
    else
      var init := TypeEdges(from, raws[..|raws| - 1], kind);
      match TypeEdge(from, raws[|raws| - 1], kind)
      case Some(e) => init + [e]
      case None => init
  }

  lemma TypeEdgesStep(from: string, raws: seq<string>, kind: Kind, e: Relationship)
    requires raws != []
    ensures e in TypeEdges(from, raws, kind)
        <==> e in TypeEdges(from, raws[..|raws| - 1], kind) || TypeEdge(from, raws[|raws| - 1], kind) == Some(e)
  {
  }

  /** Every produced edge is given by some entry. */
  lemma {:induction false} TypeEdgeSource(from: string, raws: seq<string>, kind: Kind, e: Relationship)
    requires e in TypeEdges(from, raws, kind)
    ensures exists k | 0 <= k < |raws| :: TypeEdge(from, raws[k], kind) == Some(e)
    decreases |raws|
  {
    var n := |raws| - 1;
    TypeEdgesStep(from, raws, kind, e);
    if TypeEdge(from, raws[n], kind) != Some(e) {
      var init := raws[..n];
      TypeEdgeSource(from, init, kind, e);
      var k :| 0 <= k < |init| && TypeEdge(from, init[k], kind) == Some(e);
      assert init[k] == raws[k];
    }
  }

  /** The edge an entry gives is produced. */
  lemma {:induction false} TypeEdgeProduced(from: string, raws: seq<string>, kind: Kind, k: nat, e: Relationship)
    requires k < |raws| && TypeEdge(from, raws[k], kind) == Some(e)
    ensures e in TypeEdges(from, raws, kind)
    decreases |raws|
  {
    var n := |raws| - 1;
    TypeEdgesStep(from, raws, kind, e);
    if k < n {
      var init := raws[..n];
      assert init[k] == raws[k];
      TypeEdgeProduced(from, init, kind, k, e);
    }
  }

  /** An edge is produced exactly for an entry that gives it. */
  lemma TypeEdgesMembership(from: string, raws: seq<string>, kind: Kind, e: Relationship)
    ensures e in TypeEdges(from, raws, kind)
        <==> exists k | 0 <= k < |raws| :: TypeEdge(from, raws[k], kind) == Some(e)
  {
    if e in TypeEdges(from, raws, kind) {
      TypeEdgeSource(from, raws, kind, e);
    } else {
      forall k | 0 <= k < |raws| ensures TypeEdge(from, raws[k], kind) != Some(e) {
        if TypeEdge(from, raws[k], kind) == Some(e) {
          TypeEdgeProduced(from, raws, kind, k, e);
        }
      }
    }
  }

  /** The edges an optional capture gives after `split(",")`. */
  function ListEdges(from: string, capture: Option<string>, kind: Kind): seq<Relationship> {
    match capture
    case Some(g) => TypeEdges(from, JavaSplit(g, ','), kind)
    case None => []
  }

  /** The edge of the first `class NAME extends T` match, if `T` normalises to a type. */
  function ExtendsEdges(name: string, code: string): seq<Relationship> {
    match ExtendsCapture(code, name)
    case Some(g) => TypeEdges(name, [g], Generalization)
    case None => []
  }

  /**
    Everything the inheritance pass adds, in order: the first `class NAME
    extends T` edge, one implementation per listed interface, one
    generalisation per parent of `interface NAME extends ...`.
  */
  function InheritanceCandidates(name: string, code: string): (r: seq<Relationship>)
    ensures forall e | e in r :: e.from == name && IsTypeName(e.to)
                                 && (e.kind == Generalization || e.kind == Implementation)
  {
    ExtendsEdges(name, code)
      + ListEdges(name, ImplementsCapture(code, name), Implementation)
      + ListEdges(name, InterfaceExtendsCapture(code, name), Generalization)
  }

  /**
    The loop over one comma-separated list: each entry that normalises to a
    type is added to `rels` as an edge of the given kind.
  */
  method AddTypeEdges(rels: seq<Relationship>, from: string, raws: seq<string>, kind: Kind)
    returns (r: seq<Relationship>)
    ensures r == AddAll(rels, TypeEdges(from, raws, kind))
  {
    r := rels;
    for i := 0 to |raws|
      invariant r == AddAll(rels, TypeEdges(from, raws[..i], kind))
    {
      assert raws[..i + 1][..i] == raws[..i];
      var t := NormalizeType(Some(raws[i]));
      if t.Some? {
        AddAllSnoc(rels, TypeEdges(from, raws[..i], kind), Relationship(from, t.value, kind));
        r := Insert(r, Relationship(from, t.value, kind));
      }
    }
    assert raws[..|raws|] == raws;
  }

  /** A one-entry list gives the edge of that entry, if any. */
  lemma TypeEdgesOfOne(from: string, raw: string, kind: Kind)
    ensures TypeEdges(from, [raw], kind)
         == if NormalizeType(Some(raw)).Some? then [Relationship(from, NormalizeType(Some(raw)).value, kind)] else []
  {
    assert [raw][..0] == [];
  }

  /** `findInheritance`: the three patterns, each list split on commas, collected in order. */
  method FindInheritance(name: string, code: string) returns (rels: seq<Relationship>)
    ensures rels == Dedup(InheritanceCandidates(name, code))
  {
    rels := [];
    var ext := ExtendsCapture(code, name);
    ghost var ee: seq<Relationship> := [];
    if ext.Some? {
      ee := TypeEdges(name, [ext.value], Generalization);
      TypeEdgesOfOne(name, ext.value, Generalization);
      var parent := NormalizeType(Some(ext.value));
      if parent.Some? {
        rels := Insert(rels, Relationship(name, parent.value, Generalization));
        AddAllSnoc([], [], Relationship(name, parent.value, Generalization));
      }
    }
    assert ee == ExtendsEdges(name, code);
    assert rels == AddAll([], ee);
    var impl := ImplementsCapture(code, name);
    if impl.Some? {
      rels := AddTypeEdges(rels, name, JavaSplit(impl.value, ','), Implementation);
    }
    ghost var ie := ListEdges(name, impl, Implementation);
    assert rels == AddAll(AddAll([], ee), ie);
    var iext := InterfaceExtendsCapture(code, name);
    if iext.Some? {
      rels := AddTypeEdges(rels, name, JavaSplit(iext.value, ','), Generalization);
    }
    ghost var ge := ListEdges(name, iext, Generalization);
    assert rels == AddAll(AddAll(AddAll([], ee), ie), ge);
    AddAllAppend([], ee, ie);
    AddAllAppend([], ee + ie, ge);
  }

  /** Where the pieces of `class A extends A` sit. */
  lemma SelfExtendsText(name: string)
    ensures var code := "class " + name + " extends " + name; var n := |name|;
      |code| == 15 + 2 * n && code[0..5] == "class" && code[5] == ' '
      && code[6..6 + n] == name && code[6 + n] == ' ' && code[7 + n..14 + n] == "extends"
      && code[14 + n] == ' ' && code[15 + n..] == name
  {
  }

  /** The scanner positions of the extends pattern on a text laid out as `class A extends A`. */
  lemma SelfExtendsScan(code: string, name: string)
    requires IsTypeName(name)
    requires var n := |name|;
      |code| == 15 + 2 * n && code[0..5] == "class" && code[5] == ' '
      && code[6..6 + n] == name && code[6 + n] == ' ' && code[7 + n..14 + n] == "extends"
      && code[14 + n] == ' ' && code[15 + n..] == name
    ensures var n := |name|;
      Boundary(code, 0) && LitAt(code, 0, "class") && NameStart(code, 5, name) == 6 && LitAt(code, 6, name)
      && SkipSpaces(code, 6 + n) == 7 + n && LitAt(code, 7 + n, "extends")
      && SkipSpaces(code, 14 + n) == 15 + n && RunEnd(code, 15 + n, IsTypeChar) == |code|
  {
    var n := |name|;
    assert !WordAt(code, -1) && WordAt(code, 0);
    assert code[6] == name[0] && code[7 + n] == 'e' && code[15 + n] == name[0];
    SkipSpacesExact(code, 5, 6);
    SkipSpacesExact(name, 0, 0);
    SkipSpacesExact(code, 6 + n, 7 + n);
    SkipSpacesExact(code, 14 + n, 15 + n);
    forall k | 15 + n <= k < |code| ensures IsTypeChar(code[k]) {
      assert code[k] == name[k - 15 - n];
    }
    RunEndExact(code, 15 + n, IsTypeChar);
  }

  /** The extends pattern matches `class A extends A` at its start and captures `A`. */
  lemma SelfExtendsMatch(name: string)
    requires IsTypeName(name)
    ensures ExtendsMatchAt("class " + name + " extends " + name, name, 0) == Some(name)
  {
    var code := "class " + name + " extends " + name;
    var n := |name|;
    SelfExtendsText(name);
    SelfExtendsScan(code, name);
    assert code[15 + n..|code|] == name;
  }

  /** The inheritance pass has no self check: `class A extends A` yields A --|> A. */
  lemma SelfInheritanceIsKept(name: string)
    requires IsTypeName(name)
    ensures Relationship(name, name, Generalization) in InheritanceCandidates(name, "class " + name + " extends " + name)
  {
    SelfExtendsMatch(name);
    NormalizeTypeFixesTypeNames(name);
    assert [name][..0] == [];
  }

  // ---------------------------------------------------------------------
  // Field pass
  // ---------------------------------------------------------------------

  /** What one match of the field pattern captured, and where it ended. */
  datatype FieldMatch = FieldMatch(isStatic: bool, isFinal: bool, typeToken: string, end: nat)

  /**
    `(?m)^` at `p`: the start of a line that has a character; not between the
    '\r' and '\n' of one line break.
  */
  predicate LineStart(s: string, p: nat) {
    p < |s| && (p == 0 || (IsLineTerminator(s[p - 1]) && !(s[p - 1] == '\r' && s[p] == '\n')))
  }

  /** Length of the `public|protected|private` keyword at `k`, or 0. */
  function VisibilityLength(s: string, k: nat): (n: nat)
    ensures n == 0 || n == 6 || n == 7 || n == 9
    ensures n > 0 ==> k + n <= |s|
  {
    if LitAt(s, k, "public") then 6
    else if LitAt(s, k, "protected") then 9
    else if LitAt(s, k, "private") then 7
    else 0
  }

  /** The characters of `[=;,)]`. */
  predicate IsDeclaratorEnd(c: char) {
    c == '=' || c == ';' || c == ',' || c == ')'
  }

  /**
    The field pattern
    `(?m)^\s*(public|protected|private)\s+(static\s+)?(final\s+)?([A-Z][A-Za-z0-9_$.<>]*)\s+[A-Za-z_][A-Za-z0-9_]*(\s*[=;,)])?`
    tried at `p`.  Every optional part and every run is followed by something
    that cannot start with the characters it gave back, so backtracking never
    changes the outcome: the greedy reading below is the match.
  */
  function FieldMatchAt(code: string, p: nat): (r: Option<FieldMatch>)
    ensures r.Some? ==> p < r.value.end <= |code|
    ensures r.Some? ==> r.value.typeToken != [] && IsUpper(r.value.typeToken[0])
  {
    if !LineStart(code, p) then None
    else
      var k := SkipSpaces(code, p);
      var kw := VisibilityLength(code, k);
      if kw == 0 then None
      else
        var m1 := SkipSpaces(code, k + kw);
        if m1 == k + kw then None
        else
          var isStatic := LitAt(code, m1, "static") && SkipSpaces(code, m1 + 6) > m1 + 6;
          var m2 := if isStatic then SkipSpaces(code, m1 + 6) else m1;
          var isFinal := LitAt(code, m2, "final") && SkipSpaces(code, m2 + 5) > m2 + 5;
          var t0 := if isFinal then SkipSpaces(code, m2 + 5) else m2;
          FieldTypeAt(code, t0, isStatic, isFinal)
  }

  /**
    The rest of the field pattern from `t0`, after the modifiers:
    `([A-Z][A-Za-z0-9_$.<>]*)\s+[A-Za-z_][A-Za-z0-9_]*(\s*[=;,)])?`.
  */
  function FieldTypeAt(code: string, t0: nat, isStatic: bool, isFinal: bool): (r: Option<FieldMatch>)
    ensures r.Some? ==> t0 < r.value.end <= |code|
    ensures r.Some? ==> r.value.typeToken != [] && IsUpper(r.value.typeToken[0])
  {
    if !(t0 < |code| && IsUpper(code[t0])) then None
    else
      var tEnd := RunEnd(code, t0 + 1, IsTypeChar);
      var s1 := SkipSpaces(code, tEnd);
      if !(s1 > tEnd && s1 < |code| && IsIdentStart(code[s1])) then None
      else
        var idEnd := RunEnd(code, s1 + 1, IsWordChar);
        var t := SkipSpaces(code, idEnd);
        var end := if t < |code| && IsDeclaratorEnd(code[t]) then t + 1 else idEnd;
        Some(FieldMatch(isStatic, isFinal, code[t0..tEnd], end))
  }

  /** `matcher.find()` for the field pattern, searching from `from`. */
  function NextFieldMatch(code: string, from: nat): (r: Option<(nat, FieldMatch)>)
    ensures r.Some? ==> from <= r.value.0 < r.value.1.end <= |code|
  {
    FirstMatch(|code|, from, p => FieldMatchAt(code, p))
  }

  /** The successive matches of `while (matcher.find())`, each search resuming at the previous end. */
  function FieldMatchesFrom(code: string, from: nat): seq<FieldMatch>
    decreases |code| + 1 - from
  {
    match NextFieldMatch(code, from)
    case None => []
    case Some((_, fm)) => [fm] + FieldMatchesFrom(code, fm.end)
  }

  /** The edge one field match contributes, if any. */
  function FieldEdge(name: string, m: FieldMatch): (r: Option<Relationship>)
    ensures r.Some? <==> !m.isStatic && NormalizeType(Some(m.typeToken)).Some?
                         && NormalizeType(Some(m.typeToken)).value != name
    ensures r.Some? ==> r.value == Relationship(name, NormalizeType(Some(m.typeToken)).value,
                                                if m.isFinal then Composition else Aggregation)
  {
    var t := NormalizeType(Some(m.typeToken));
    if t.None? || t.value == name then None
    else if m.isStatic then None
    else Some(Relationship(name, t.value, if m.isFinal then Composition else Aggregation))
  }

  /**
    The edges of the field matches, in order: composition for a final
    field, aggregation otherwise, never to the unit itself.
  */
  function FieldEdges(name: string, ms: seq<FieldMatch>): (r: seq<Relationship>)
    ensures forall e | e in r ::
      e.from == name && e.to != name && IsTypeName(e.to) && (e.kind == Composition || e.kind == Aggregation)
  {
    if ms == [] then []
    else
      var rest := FieldEdges(name, ms[1..]);
      match FieldEdge(name, ms[0])
      case Some(e) => [e] + rest
      case None => rest
  }

  /** The field pass's edges are exactly the edges of its non-static matches. */
  lemma {:induction false} FieldEdgesMembership(name: string, ms: seq<FieldMatch>, e: Relationship)
    ensures e in FieldEdges(name, ms) <==> exists m | m in ms :: FieldEdge(name, m) == Some(e)
    decreases |ms|
  {
    if ms != [] {
      FieldEdgesMembership(name, ms[1..], e);
      assert ms == [ms[0]] + ms[1..];
      if exists m | m in ms :: FieldEdge(name, m) == Some(e) {
        var m :| m in ms && FieldEdge(name, m) == Some(e);
        if m != ms[0] {
          assert m in ms[1..];
        }
      }
    }
  }

  /** A static field never contributes an edge. */
  lemma StaticFieldsAreSkipped(name: string, m: FieldMatch)
    requires m.isStatic
    ensures FieldEdge(name, m) == None
  {
  }

  /** The edges of `findFieldAssociations`, before deduplication. */
  function FieldCandidates(name: string, code: string): seq<Relationship> {
    FieldEdges(name, FieldMatchesFrom(code, 0))
  }

  /** `findFieldAssociations`: every field-pattern match, in order, through `FieldEdge`. */
  method FindFieldAssociations(name: string, code: string) returns (rels: seq<Relationship>)
    ensures rels == Dedup(FieldCandidates(name, code))
  {
    rels := [];
    var pos: nat := 0;
    while true
      invariant pos <= |code|
      invariant Dedup(FieldCandidates(name, code)) == AddAll(rels, FieldEdges(name, FieldMatchesFrom(code, pos)))
      decreases |code| + 1 - pos
    {
      var found := NextFieldMatch(code, pos);
      FieldMatchesStep(code, pos);
      if found.None? {
        break;
      }
      var fm := found.value.1;
      var rest := FieldMatchesFrom(code, fm.end);
      assert ([fm] + rest)[1..] == rest;
      var edge := FieldEdge(name, fm);
      if edge.Some? {
        AddAllAppend(rels, [edge.value], FieldEdges(name, rest));
        AddAllSnoc(rels, [], edge.value);
        rels := Insert(rels, edge.value);
      }
      pos := fm.end;
    }
  }

  /** One `find()` of the field loop: no match ends the list, a match heads it. */
  lemma FieldMatchesStep(code: string, pos: nat)
    ensures NextFieldMatch(code, pos).None? ==> FieldMatchesFrom(code, pos) == []
    ensures NextFieldMatch(code, pos).Some? ==>
      FieldMatchesFrom(code, pos)
        == [NextFieldMatch(code, pos).value.1] + FieldMatchesFrom(code, NextFieldMatch(code, pos).value.1.end)
  {
  }

  /**
    A method header such as `public String getFrom()` at the start of the
    text matches the field pattern (the declarator end is optional) and
    yields an aggregation to its return type.
  */
  lemma MethodHeaderReadsAsField(code: string, tEnd: nat, idEnd: nat, name: string)
    requires 8 <= tEnd < idEnd < |code| && code[..7] == "public " && IsTypeName(code[7..tEnd])
    requires code[tEnd] == ' ' && IsIdentStart(code[tEnd + 1])
    requires forall k | tEnd + 1 <= k < idEnd :: IsWordChar(code[k])
    requires code[idEnd] == '(' && code[7..tEnd] != name
    ensures FieldMatchAt(code, 0) == Some(FieldMatch(false, false, code[7..tEnd], idEnd))
    ensures FieldEdge(name, FieldMatch(false, false, code[7..tEnd], idEnd))
         == Some(Relationship(name, code[7..tEnd], Aggregation))
  {
    var t := code[7..tEnd];
    assert code[0..6] == "public";
    SkipSpacesExact(code, 0, 0);
    SkipSpacesExact(code, 6, 7);
    assert IsUpper(code[7]) by { assert code[7] == t[0]; }
    forall k | 8 <= k < tEnd ensures IsTypeChar(code[k]) {
      assert code[k] == t[k - 7];
    }
    assert RunEnd(code, 8, IsTypeChar) == tEnd;
    SkipSpacesExact(code, tEnd, tEnd + 1);
    assert RunEnd(code, tEnd + 2, IsWordChar) == idEnd;
    SkipSpacesExact(code, idEnd, idEnd);
    FieldMatchOfLayout(code, tEnd, idEnd);
    NormalizeTypeFixesTypeNames(t);
  }

  /**
    The field pattern on a line `public T id` whose declarator is not
    followed by one of `=;,)`: the match is non-static, non-final, captures
    `T` and ends after `id`.
  */
  lemma FieldMatchOfLayout(code: string, tEnd: nat, idEnd: nat)
    requires 8 <= tEnd < idEnd < |code|
    requires LitAt(code, 0, "public") && SkipSpaces(code, 0) == 0 && SkipSpaces(code, 6) == 7
    requires IsUpper(code[7]) && RunEnd(code, 8, IsTypeChar) == tEnd
    requires SkipSpaces(code, tEnd) == tEnd + 1 && IsIdentStart(code[tEnd + 1])
    requires RunEnd(code, tEnd + 2, IsWordChar) == idEnd
    requires SkipSpaces(code, idEnd) == idEnd && !IsDeclaratorEnd(code[idEnd])
    ensures FieldMatchAt(code, 0) == Some(FieldMatch(false, false, code[7..tEnd], idEnd))
  {
    assert !LitAt(code, 7, "static") && !LitAt(code, 7, "final");
  }

  // ---------------------------------------------------------------------
  // Constructor pass
  // ---------------------------------------------------------------------

  /** What one constructor match captured: the parameter list, and where it ended. */
  datatype CtorMatch = CtorMatch(params: string, end: nat)

  /** `(?:public|protected|private)\s+NAME\s*\(([^)]*)\)` at `p`. */
  function CtorMatchAt(code: string, name: string, p: nat): (r: Option<CtorMatch>)
    ensures r.Some? ==> p < r.value.end <= |code| && ')' !in r.value.params
  {
    var kw := VisibilityLength(code, p);
    if kw == 0 then None
    else
      var j := NameStart(code, p + kw, name);
      if !(j > p + kw && LitAt(code, j, name)) then None
      else
        var m := SkipSpaces(code, j + |name|);
        if !(m < |code| && code[m] == '(') then None
        else
          var c := IndexOfChar(code, ')', m + 1);
          if c < 0 then None else Some(CtorMatch(code[m + 1..c], c + 1))
  }

  /** `matcher.find()` for the constructor pattern, searching from `from`. */
  function NextCtorMatch(code: string, name: string, from: nat): (r: Option<(nat, CtorMatch)>)
    ensures r.Some? ==> from <= r.value.0 < r.value.1.end <= |code|
  {
    FirstMatch(|code|, from, p => CtorMatchAt(code, name, p))
  }

  /** The successive constructor matches, each search resuming at the previous end. */
  function CtorMatchesFrom(code: string, name: string, from: nat): seq<CtorMatch>
    decreases |code| + 1 - from
  {
    match NextCtorMatch(code, name, from)
    case None => []
    case Some((_, cm)) => [cm] + CtorMatchesFrom(code, name, cm.end)
  }

  /** One `find()` of the constructor loop: no match ends the list, a match heads it. */
  lemma CtorMatchesStep(code: string, name: string, pos: nat)
    ensures NextCtorMatch(code, name, pos).None? ==> CtorMatchesFrom(code, name, pos) == []
    ensures NextCtorMatch(code, name, pos).Some? ==>
      CtorMatchesFrom(code, name, pos)
        == [NextCtorMatch(code, name, pos).value.1]
           + CtorMatchesFrom(code, name, NextCtorMatch(code, name, pos).value.1.end)
  {
  }

  /** [A-Za-z0-9_$.], the characters of an annotation name. */
  predicate IsAnnotationChar(c: char) {
    IsWordChar(c) || c == '$' || c == '.'
  }

  /** `replaceAll("@[A-Za-z0-9_$.]+", "")`. */
  function RemoveAnnotations(s: string): (r: string)
    ensures |r| <= |s|
    decreases |s|
  {
    if s == [] then []
    else if s[0] == '@' && RunEnd(s, 1, IsAnnotationChar) > 1 then RemoveAnnotations(s[RunEnd(s, 1, IsAnnotationChar)..])
    else [s[0]] + RemoveAnnotations(s[1..])
  }

  /** `replaceAll("\\bfinal\\b", "")`: word boundaries are judged in the original text. */
  function RemoveFinalFrom(s: string, i: nat): (r: string)
    requires i <= |s|
    decreases |s| - i
  {
    if i == |s| then []
    else if LitAt(s, i, "final") && Boundary(s, i) && Boundary(s, i + 5) then RemoveFinalFrom(s, i + 5)
    else [s[i]] + RemoveFinalFrom(s, i + 1)
  }

  /** Every piece between maximal runs of `\s`, empty pieces included. */
  function SplitOnSpaceRuns(s: string): (r: seq<string>)
    ensures |r| >= 1
    decreases |s|
  {
    var i := FirstSpace(s, 0);
    if i == |s| then [s] else [s[..i]] + SplitOnSpaceRuns(s[SkipSpaces(s, i)..])
  }

  function FirstSpace(s: string, i: nat): (r: nat)
    requires i <= |s|
    ensures i <= r <= |s| && (r < |s| ==> IsSpace(s[r]))
    ensures forall k | i <= k < r :: !IsSpace(s[k])
    decreases |s| - i
  {
    if i == |s| || IsSpace(s[i]) then i else FirstSpace(s, i + 1)
  }

  /** `s.split("\\s+")`: the whole text without a space, else the pieces less trailing empties. */
  function SplitOnSpaces(s: string): seq<string> {
    if FirstSpace(s, 0) == |s| then [s] else DropTrailingEmpty(SplitOnSpaceRuns(s))
  }

  /**
    The type token of one raw constructor parameter: trimmed (an empty one
    is skipped), annotations and `final` removed, split on spaces; with at
    least two tokens, the next-to-last.
  */
  function ParamTypeToken(raw: string): (r: Option<string>)
  {
    var cleaned := Trim(raw);
    if cleaned == [] then None
    else
      var noAnnotations := Trim(RemoveAnnotations(cleaned));
      var noFinal := Trim(RemoveFinalFrom(noAnnotations, 0));
      var tokens := SplitOnSpaces(noFinal);
      if |tokens| < 2 then None else Some(tokens[|tokens| - 2])
  }

  /** The dependency one raw parameter gives: its normalised type token, unless that is the unit itself. */
  function ParamType(raw: string, name: string): (r: Option<string>)
    ensures r.Some? ==> IsTypeName(r.value) && r.value != name
  {
    var t := NormalizeType(ParamTypeToken(raw));
    if t.Some? && t.value != name then t else None
  }

  function ParamEdges(name: string, raws: seq<string>): (r: seq<Relationship>)
    ensures forall e | e in r :: e.from == name && e.to != name && e.kind == Dependency && IsTypeName(e.to)
  {
    if raws == [] then []
    else
      var init := ParamEdges(name, raws[..|raws| - 1]);
      match ParamType(raws[|raws| - 1], name)
      case Some(t) => init + [Relationship(name, t, Dependency)]
      case None => init
  }

  /** The dependencies of the constructor matches, in order, each parameter list split on commas. */
  function CtorEdges(name: string, ms: seq<CtorMatch>): (r: seq<Relationship>)
    ensures forall e | e in r :: e.from == name && e.to != name && e.kind == Dependency && IsTypeName(e.to)
  {
    if ms == [] then []
    else ParamEdges(name, JavaSplit(ms[0].params, ',')) + CtorEdges(name, ms[1..])
  }

  /** The edges of `findConstructorDependencies`, before deduplication. */
  function CtorCandidates(name: string, code: string): seq<Relationship> {
    CtorEdges(name, CtorMatchesFrom(code, name, 0))
  }

  /** A plain `Type ident` parameter depends on its type. */
  lemma PlainParameterIsDependency(t: string, v: string, name: string)
    requires IsTypeName(t) && t != name
    requires v != [] && v != "final" && forall k | 0 <= k < |v| :: IsWordChar(v[k])
    ensures ParamType(t + " " + v, name) == Some(t)
  {
    PlainParameterToken(t, v);
    NormalizeTypeFixesTypeNames(t);
  }

  /** The type token of `Type ident` is `Type`. */
  lemma PlainParameterToken(t: string, v: string)
    requires IsTypeName(t)
    requires v != [] && v != "final" && forall k | 0 <= k < |v| :: IsWordChar(v[k])
    ensures ParamTypeToken(t + " " + v) == Some(t)
  {
    PlainParameterHasNoAnnotation(t, v);
    PlainParameterHasNoFinal(t, v);
    SplitTypeAndName(t, v);
    TokenOfCleanParameter(t + " " + v, t, v);
  }

  /** A parameter text that the cleaning steps leave alone gives its next-to-last word. */
  lemma TokenOfCleanParameter(raw: string, t: string, v: string)
    requires Trim(raw) == raw && Trim(RemoveAnnotations(raw)) == raw && Trim(RemoveFinalFrom(raw, 0)) == raw
    requires raw != [] && SplitOnSpaces(raw) == [t, v]
    ensures ParamTypeToken(raw) == Some(t)
  {
  }

  /** Removing annotations, then trimming, leaves `Type ident` as it is. */
  lemma PlainParameterHasNoAnnotation(t: string, v: string)
    requires IsTypeName(t)
    requires v != [] && forall k | 0 <= k < |v| :: IsWordChar(v[k])
    ensures Trim(RemoveAnnotations(t + " " + v)) == t + " " + v
  {
    var raw := t + " " + v;
    WordsAndSpace(t, v);
    NoAnnotationsKept(raw);
    assert RemoveAnnotations(raw) == raw;
    PlainParameterIsTrimmed(t, v);
  }

  /** Removing `final`, then trimming, leaves `Type ident` as it is. */
  lemma PlainParameterHasNoFinal(t: string, v: string)
    requires IsTypeName(t)
    requires v != [] && v != "final" && forall k | 0 <= k < |v| :: IsWordChar(v[k])
    ensures Trim(RemoveFinalFrom(t + " " + v, 0)) == t + " " + v
  {
    var raw := t + " " + v;
    NoFinalKept(raw, 0, t, v);
    assert RemoveFinalFrom(raw, 0) == raw;
    PlainParameterIsTrimmed(t, v);
  }

  lemma PlainParameterIsTrimmed(t: string, v: string)
    requires t != [] && IsUpper(t[0]) && v != [] && IsWordChar(v[|v| - 1])
    ensures Trim(t + " " + v) == t + " " + v
  {
    var raw := t + " " + v;
    assert raw[0] == t[0] && raw[|raw| - 1] == v[|v| - 1];
    TrimPlain(raw);
  }

  lemma WordsAndSpace(t: string, v: string)
    requires forall k | 0 <= k < |t| :: IsWordChar(t[k])
    requires forall k | 0 <= k < |v| :: IsWordChar(v[k])
    ensures '@' !in t + " " + v
  {
    var head := t + " ";
    assert '@' !in t;
    assert '@' !in head;
    assert '@' !in v;
  }

  /** `split("\\s+")` of `Type ident` gives the two words. */
  lemma SplitTypeAndName(t: string, v: string)
    requires IsTypeName(t) && v != [] && forall k | 0 <= k < |v| :: IsWordChar(v[k])
    ensures SplitOnSpaces(t + " " + v) == [t, v]
  {
    var raw := t + " " + v;
    var n := |t|;
    assert raw[n] == ' ';
    assert forall k | 0 <= k < n :: raw[k] == t[k];
    assert FirstSpace(raw, 0) == n;
    SkipSpacesExact(raw, n, n + 1);
    assert raw[..n] == t && raw[n + 1..] == v;
    assert FirstSpace(v, 0) == |v|;
    assert SplitOnSpaceRuns(raw) == [t, v];
  }

  lemma {:induction false} NoAnnotationsKept(s: string)
    requires '@' !in s
    ensures RemoveAnnotations(s) == s
    decreases |s|
  {
    if s != [] {
      NoAnnotationsKept(s[1..]);
    }
  }

  lemma LitAtFinal(s: string, i: int)
    requires 0 <= i < |s|
    ensures LitAt(s, i, "final") ==> s[i] == 'f'
  {
    if LitAt(s, i, "final") {
      assert s[i..i + 5][0] == s[i];
    }
  }

  /** At no position of `t v` does a bounded `final` start. */
  lemma NoFinalAt(raw: string, i: nat, t: string, v: string)
    requires raw == t + " " + v && i < |raw|
    requires IsTypeName(t) && v != [] && forall k | 0 <= k < |v| :: IsWordChar(v[k])
    requires v != "final"
    ensures !(LitAt(raw, i, "final") && Boundary(raw, i) && Boundary(raw, i + 5))
  {
    var n := |t|;
    LitAtFinal(raw, i);
    if i < n {
      assert raw[i] == t[i];
      if i == 0 {
        assert IsUpper(raw[0]);
      } else {
        assert raw[i - 1] == t[i - 1];
      }
    } else if i == n {
      assert raw[i] == ' ';
    } else if i > n + 1 {
      assert raw[i] == v[i - n - 1] && raw[i - 1] == v[i - n - 2];
    } else if i + 5 < |raw| {
      assert raw[i + 4] == v[4] && raw[i + 5] == v[5];
    } else {
      assert raw[i..] == v;
    }
  }

  /** Neither a type name nor a word token is the keyword `final`, so nothing is removed. */
  lemma {:induction false} NoFinalKept(raw: string, i: nat, t: string, v: string)
    requires raw == t + " " + v && i <= |raw|
    requires IsTypeName(t) && v != [] && forall k | 0 <= k < |v| :: IsWordChar(v[k])
    requires v != "final"
    ensures RemoveFinalFrom(raw, i) == raw[i..]
    decreases |raw| - i
  {
    if i < |raw| {
      NoFinalKept(raw, i + 1, t, v);
      NoFinalAt(raw, i, t, v);
      assert raw[i..] == [raw[i]] + raw[i + 1..];
    }
  }

  /** An annotation `@a` followed by a space is removed, and the space stays. */
  lemma AnnotationRunRemoved(a: string, rest: string)
    requires a != [] && forall k | 0 <= k < |a| :: IsAnnotationChar(a[k])
    ensures RemoveAnnotations("@" + a + " " + rest) == " " + RemoveAnnotations(rest)
  {
    var s := "@" + a + " " + rest;
    var n := |a| + 1;
    assert s[0] == '@' && s[n] == ' ';
    forall k | 1 <= k < n ensures IsAnnotationChar(s[k]) {
      assert s[k] == a[k - 1];
    }
    assert RunEnd(s, 1, IsAnnotationChar) == n;
    assert s[n..] == " " + rest;
    assert (" " + rest)[1..] == rest;
  }

  /** Trimming a text behind one leading space gives the text itself, when it is trimmed already. */
  lemma TrimAfterSpace(s: string)
    requires s != [] && s[0] > ' ' && s[|s| - 1] > ' '
    ensures Trim(" " + s) == s
  {
    assert (" " + s)[1..] == s;
    assert TrimStart(" " + s) == TrimStart(s) == s;
    TrimPlain(s);
  }

  /** A parameter whose three cleaning steps give `t v` has the type token `t`. */
  lemma TokenOfCleaning(raw: string, ann: string, fin: string, t: string, v: string)
    requires raw != [] && Trim(raw) == raw
    requires Trim(RemoveAnnotations(raw)) == ann && Trim(RemoveFinalFrom(ann, 0)) == fin
    requires SplitOnSpaces(fin) == [t, v]
    ensures ParamTypeToken(raw) == Some(t)
  {
  }

  /** A leading bounded `final` is removed, and the space after it stays. */
  lemma LeadingFinalRemoved(plain: string, t: string, v: string)
    requires plain == t + " " + v
    requires IsTypeName(t) && v != [] && forall k | 0 <= k < |v| :: IsWordChar(v[k])
    requires v != "final"
    ensures RemoveFinalFrom("final " + plain, 0) == " " + plain
  {
    var s := "final " + plain;
    assert s[..5] == "final" && s[4] == 'l' && s[5] == ' ';
    assert LitAt(s, 0, "final") && Boundary(s, 0) && Boundary(s, 5);
    assert !LitAt(s, 5, "final") by {
      LitAtFinal(s, 5);
    }
    NoFinalKeptAfter(s, 6, plain, t, v);
    assert s[5..] == [s[5]] + s[6..];
    assert s[6..] == plain;
  }

  /** Behind `final `, no further bounded `final` occurs in `t v`. */
  lemma {:induction false} NoFinalKeptAfter(s: string, i: nat, plain: string, t: string, v: string)
    requires s == "final " + plain && plain == t + " " + v && 6 <= i <= |s|
    requires IsTypeName(t) && v != [] && forall k | 0 <= k < |v| :: IsWordChar(v[k])
    requires v != "final"
    ensures RemoveFinalFrom(s, i) == s[i..]
    decreases |s| - i
  {
    if i < |s| {
      NoFinalKeptAfter(s, i + 1, plain, t, v);
      NoFinalAt(plain, i - 6, t, v);
      FinalShifted(s, i, plain);
      assert s[i..] == [s[i]] + s[i + 1..];
    }
  }

  /** Behind a six-character head ending in a space, `final` and `\b` read the same as in the tail. */
  lemma FinalShifted(s: string, i: nat, plain: string)
    requires |s| == 6 + |plain| && s[6..] == plain && s[5] == ' ' && 6 <= i < |s|
    ensures LitAt(s, i, "final") == LitAt(plain, i - 6, "final")
    ensures Boundary(s, i) == Boundary(plain, i - 6)
    ensures Boundary(s, i + 5) == Boundary(plain, i - 1)
  {
    if i + 5 <= |s| {
      var here, there := s[i..i + 5], plain[i - 6..i - 1];
      forall k | 0 <= k < 5 ensures here[k] == there[k] {
        assert s[i + k] == plain[i - 6 + k];
      }
      assert here == there;
    }
    forall j | 5 <= j ensures WordAt(s, j) == WordAt(plain, j - 6) {
      if j == 5 {
        assert !IsWordChar(s[5]);
      } else if j < |s| {
        assert s[j] == plain[j - 6];
      }
    }
  }

  /** `@A final T v`: the annotation and `final` are removed, and the parameter depends on `T`. */
  lemma AnnotatedFinalParameterIsDependency(a: string, t: string, v: string, name: string)
    requires a != [] && forall k | 0 <= k < |a| :: IsAnnotationChar(a[k])
    requires IsTypeName(t) && t != name
    requires v != [] && v != "final" && forall k | 0 <= k < |v| :: IsWordChar(v[k])
    ensures ParamType("@" + a + " final " + t + " " + v, name) == Some(t)
  {
    AnnotatedFinalToken(a, t, v);
    NormalizeTypeFixesTypeNames(t);
  }

  /** The type token of `@A final T v` is `T`. */
  lemma AnnotatedFinalToken(a: string, t: string, v: string)
    requires a != [] && forall k | 0 <= k < |a| :: IsAnnotationChar(a[k])
    requires IsTypeName(t)
    requires v != [] && v != "final" && forall k | 0 <= k < |v| :: IsWordChar(v[k])
    ensures ParamTypeToken("@" + a + " final " + t + " " + v) == Some(t)
  {
    var plain := t + " " + v;
    var unfinal := "final " + plain;
    var raw := AnnotatedLayout(a, t, v, plain, unfinal);
    assert plain[0] == t[0] && plain[|plain| - 1] == v[|v| - 1];
    WordsAndSpace(t, v);
    AnnotatedIsTrimmed(a, unfinal, plain);
    FinalPlainShape(unfinal, plain);
    AnnotationPassOfAnnotated(a, unfinal);
    FinalPassOfFinal(plain, t, v);
    SplitTypeAndName(t, v);
    TokenOfCleaning(raw, unfinal, plain, t, v);
  }

  /** `@A final T v` is the annotation, a space and `final T v`. */
  lemma AnnotatedLayout(a: string, t: string, v: string, plain: string, unfinal: string) returns (raw: string)
    requires plain == t + " " + v && unfinal == "final " + plain
    ensures raw == "@" + a + " " + unfinal && raw == "@" + a + " final " + t + " " + v
  {
    raw := "@" + a + " " + unfinal;
    assert " " + ("final " + plain) == " final " + plain;
  }

  /** `@A final T v` has no blank at either end. */
  lemma AnnotatedIsTrimmed(a: string, unfinal: string, plain: string)
    requires unfinal == "final " + plain && plain != [] && plain[|plain| - 1] > ' '
    ensures Trim("@" + a + " " + unfinal) == "@" + a + " " + unfinal
  {
    var raw := "@" + a + " " + unfinal;
    assert raw[0] == '@' && raw[|raw| - 1] == plain[|plain| - 1];
    TrimPlain(raw);
  }

  /** The annotation pass turns `@A u`, once trimmed, into `u` when `u` has no annotation and no blank end. */
  lemma AnnotationPassOfAnnotated(a: string, u: string)
    requires a != [] && forall k | 0 <= k < |a| :: IsAnnotationChar(a[k])
    requires '@' !in u && u != [] && u[0] > ' ' && u[|u| - 1] > ' '
    ensures Trim(RemoveAnnotations("@" + a + " " + u)) == u
  {
    AnnotationRunRemoved(a, u);
    NoAnnotationsKept(u);
    TrimAfterSpace(u);
  }

  /** `final T v` holds no `@` and no blank end. */
  lemma FinalPlainShape(unfinal: string, plain: string)
    requires unfinal == "final " + plain && '@' !in plain
    requires plain != [] && plain[|plain| - 1] > ' '
    ensures '@' !in unfinal && unfinal[0] > ' ' && unfinal[|unfinal| - 1] > ' '
  {
    assert '@' !in "final ";
    assert unfinal[0] == 'f' && unfinal[|unfinal| - 1] == plain[|plain| - 1];
  }

  /** The `final` pass turns `final T v`, once trimmed, into `T v`. */
  lemma FinalPassOfFinal(plain: string, t: string, v: string)
    requires plain == t + " " + v
    requires IsTypeName(t) && v != [] && forall k | 0 <= k < |v| :: IsWordChar(v[k])
    requires v != "final"
    ensures Trim(RemoveFinalFrom("final " + plain, 0)) == plain
  {
    LeadingFinalRemoved(plain, t, v);
    assert plain[0] == t[0] && plain[|plain| - 1] == v[|v| - 1];
    TrimAfterSpace(plain);
  }

  /**
    The loop over one parameter list: each parameter whose type normalises
    to a type other than the unit's own is added as a dependency.
  */
  method AddParamEdges(rels: seq<Relationship>, name: string, raws: seq<string>)
    returns (r: seq<Relationship>)
    ensures r == AddAll(rels, ParamEdges(name, raws))
  {
    r := rels;
    for i := 0 to |raws|
      invariant r == AddAll(rels, ParamEdges(name, raws[..i]))
    {
      assert raws[..i + 1][..i] == raws[..i];
      var t := ParamType(raws[i], name);
      if t.Some? {
        AddAllSnoc(rels, ParamEdges(name, raws[..i]), Relationship(name, t.value, Dependency));
        r := Insert(r, Relationship(name, t.value, Dependency));
      }
    }
    assert raws[..|raws|] == raws;
  }

  /** `findConstructorDependencies`: every constructor match, every comma-separated parameter. */
  method FindConstructorDependencies(name: string, code: string) returns (rels: seq<Relationship>)
    ensures rels == Dedup(CtorCandidates(name, code))
  {
    rels := [];
    var pos: nat := 0;
    while true
      invariant pos <= |code|
      invariant Dedup(CtorCandidates(name, code)) == AddAll(rels, CtorEdges(name, CtorMatchesFrom(code, name, pos)))
      decreases |code| + 1 - pos
    {
      var found := NextCtorMatch(code, name, pos);
      CtorMatchesStep(code, name, pos);
      if found.None? {
        break;
      }
      var cm := found.value.1;
      var rest := CtorMatchesFrom(code, name, cm.end);
      assert ([cm] + rest)[1..] == rest;
      var raws := JavaSplit(cm.params, ',');
      AddAllAppend(rels, ParamEdges(name, raws), CtorEdges(name, rest));
      rels := AddParamEdges(rels, name, raws);
      pos := cm.end;
    }
  }

  // ---------------------------------------------------------------------
  // All three passes on one unit
  // ---------------------------------------------------------------------

  /** The candidates of the three passes on one unit, in the order `extract` adds them. */
  function UnitCandidates(name: string, code: string): (r: seq<Relationship>)
    ensures forall e | e in r :: e.from == name && IsTypeName(e.to)
  {
    InheritanceCandidates(name, code) + FieldCandidates(name, code) + CtorCandidates(name, code)
  }

  /** Only the inheritance pass can relate a unit to itself. */
  lemma SelfEdgesAreInheritance(name: string, code: string, e: Relationship)
    requires e in UnitCandidates(name, code) && e.to == name
    ensures e.kind == Generalization || e.kind == Implementation
  {
  }

  // ---------------------------------------------------------------------
  // extract
  // ---------------------------------------------------------------------

  /** What `extract` reads of one list entry: nothing for null, else its simple name and source. */
  datatype UnitView = UnitView(name: string, source: string)

  function View(sq: Square?): (v: Option<UnitView>)
    reads sq
    ensures v.None? <==> sq == null
  {
    if sq == null then None else Some(UnitView(sq.SimpleName(), sq.source))
  }

  /** The list as `extract` sees it, entry by entry. */
  function Views(squares: seq<Square?>): (vs: seq<Option<UnitView>>)
    reads squares
    ensures |vs| == |squares|
    ensures forall i | 0 <= i < |squares| :: vs[i] == View(squares[i])
  {
    seq(|squares|, i requires 0 <= i < |squares| reads squares => View(squares[i]))
  }

  /** An entry that takes part: non-null with a non-blank simple name. */
  predicate Named(v: Option<UnitView>) {
    v.Some? && !IsBlank(v.value.name)
  }

  /**
    The first loop of `extract`: every named entry maps its simple name to its
    stripped source, a later entry overwriting an earlier one of the same name.
  */
  function CodeByName(vs: seq<Option<UnitView>>): (m: map<string, string>)
    ensures forall n | n in m :: !IsBlank(n) && exists i | 0 <= i < |vs| :: Named(vs[i]) && vs[i].value.name == n
    ensures forall i | 0 <= i < |vs| && Named(vs[i]) :: vs[i].value.name in m
  {
    if vs == [] then map[]
    else
      var init := CodeByName(vs[..|vs| - 1]);
      var v := vs[|vs| - 1];
      if Named(v) then init[v.value.name := StripCommentsAndStrings(Some(v.value.source))] else init
  }

  lemma CodeByNameSnoc(vs: seq<Option<UnitView>>, v: Option<UnitView>)
    ensures CodeByName(vs + [v])
         == if Named(v) then CodeByName(vs)[v.value.name := StripCommentsAndStrings(Some(v.value.source))]
            else CodeByName(vs)
  {
    assert (vs + [v])[..|vs|] == vs;
  }

  /** The last named entry of a name decides its code. */
  lemma {:induction false} CodeByNameLastWins(vs: seq<Option<UnitView>>, i: nat)
    requires i < |vs| && Named(vs[i])
    requires forall j | i < j < |vs| :: !(Named(vs[j]) && vs[j].value.name == vs[i].value.name)
    ensures CodeByName(vs)[vs[i].value.name] == StripCommentsAndStrings(Some(vs[i].value.source))
    decreases |vs|
  {
    if i < |vs| - 1 {
      CodeByNameLastWins(vs[..|vs| - 1], i);
    }
  }

  /**
    The candidates of the second loop of `extract`, in order: for each named
    entry, the three passes on the code its name maps to.
  */
  function ExtractCandidates(vs: seq<Option<UnitView>>, codes: map<string, string>): (r: seq<Relationship>)
  {
    if vs == [] then []
    else
      var init := ExtractCandidates(vs[..|vs| - 1], codes);
      var v := vs[|vs| - 1];
      if Named(v) && v.value.name in codes then init + UnitCandidates(v.value.name, codes[v.value.name])
      else init
  }

  /** Every candidate comes from a named entry and points at a type name. */
  lemma {:induction false} ExtractCandidatesFrom(vs: seq<Option<UnitView>>, codes: map<string, string>, e: Relationship)
    requires e in ExtractCandidates(vs, codes)
    ensures IsTypeName(e.to)
    ensures exists i | 0 <= i < |vs| :: Named(vs[i]) && e.from == vs[i].value.name
    decreases |vs|
  {
    var init := vs[..|vs| - 1];
    var v := vs[|vs| - 1];
    if e in ExtractCandidates(init, codes) {
      ExtractCandidatesFrom(init, codes, e);
      var i :| 0 <= i < |init| && Named(init[i]) && e.from == init[i].value.name;
      assert vs[i] == init[i];
    } else {
      assert Named(v) && v.value.name in codes;
      assert e in UnitCandidates(v.value.name, codes[v.value.name]);
    }
  }

  /** The relationships `extract` returns for a list, seen entry by entry. */
  function ExtractResult(vs: seq<Option<UnitView>>): seq<Relationship> {
    Dedup(ExtractCandidates(vs, CodeByName(vs)))
  }

  /**
    `extract`'s result holds each (from, to, kind) once, lists them in the
    order of their first occurrence among the candidates, and relates only
    named entries to type names.
  */
  lemma ExtractResultFrom(vs: seq<Option<UnitView>>, e: Relationship)
    requires e in ExtractResult(vs)
    ensures IsTypeName(e.to)
    ensures exists i | 0 <= i < |vs| :: Named(vs[i]) && e.from == vs[i].value.name
  {
    var c := ExtractCandidates(vs, CodeByName(vs));
    AddAllWithin([], c, e);
    assert [] + c == c;
    ExtractCandidatesFrom(vs, CodeByName(vs), e);
  }

  lemma ExtractResultProperties(vs: seq<Option<UnitView>>)
    ensures NoDup(ExtractResult(vs))
    ensures FirstOccurrenceOrder(ExtractResult(vs), ExtractCandidates(vs, CodeByName(vs)))
    ensures forall e | e in ExtractResult(vs) ::
      IsTypeName(e.to) && exists i | 0 <= i < |vs| :: Named(vs[i]) && e.from == vs[i].value.name
  {
    var c := ExtractCandidates(vs, CodeByName(vs));
    AddAllNoDup([], c);
    AddAllFirstOccurrenceOrder([], c);
    assert [] + c == c;
    forall e | e in ExtractResult(vs)
      ensures IsTypeName(e.to) && exists i | 0 <= i < |vs| :: Named(vs[i]) && e.from == vs[i].value.name
    {
      ExtractResultFrom(vs, e);
    }
  }

  /** The first loop of `extract`: the map from simple name to stripped source. */
  method CollectCode(squares: seq<Square?>) returns (codeByName: map<string, string>)
    ensures codeByName == CodeByName(Views(squares))
  {
    ghost var vs := Views(squares);
    codeByName := map[];
    for i := 0 to |squares|
      invariant codeByName == CodeByName(vs[..i])
    {
      assert vs[..i + 1] == vs[..i] + [View(squares[i])];
      CodeByNameSnoc(vs[..i], View(squares[i]));
      var sq := squares[i];
      if sq != null {
        var name := sq.SimpleName();
        if !IsBlank(name) {
          codeByName := codeByName[name := StripCommentsAndStrings(Some(sq.source))];
        }
      }
    }
    assert vs[..|squares|] == vs;
  }

  /** The three `addAll` calls of `extract` for one unit. */
  method AddUnit(rels: seq<Relationship>, name: string, code: string) returns (r: seq<Relationship>)
    ensures r == AddAll(rels, UnitCandidates(name, code))
  {
    var r1 := FindInheritance(name, code);
    var r2 := FindFieldAssociations(name, code);
    var r3 := FindConstructorDependencies(name, code);
    var ic := InheritanceCandidates(name, code);
    var fc := FieldCandidates(name, code);
    var cc := CtorCandidates(name, code);
    AddAllOfDedup(rels, ic);
    AddAllOfDedup(AddAll(rels, ic), fc);
    AddAllOfDedup(AddAll(AddAll(rels, ic), fc), cc);
    r := AddAll(AddAll(AddAll(rels, r1), r2), r3);
    AddAllAppend(rels, ic, fc);
    AddAllAppend(rels, ic + fc, cc);
  }

  /** One iteration of `extract`'s second loop, on the entry views. */
  lemma ExtractStep(vs: seq<Option<UnitView>>, i: nat, codes: map<string, string>)
    requires i < |vs|
    ensures Dedup(ExtractCandidates(vs[..i + 1], codes))
         == if Named(vs[i]) && vs[i].value.name in codes
            then AddAll(Dedup(ExtractCandidates(vs[..i], codes)), UnitCandidates(vs[i].value.name, codes[vs[i].value.name]))
            else Dedup(ExtractCandidates(vs[..i], codes))
  {
    assert vs[..i + 1][..i] == vs[..i];
    if Named(vs[i]) && vs[i].value.name in codes {
      AddAllAppend([], ExtractCandidates(vs[..i], codes), UnitCandidates(vs[i].value.name, codes[vs[i].value.name]));
    }
  }

  /** The square at `i` is non-null and has the non-blank simple name `name`. */
  predicate NamedSquareAt(squares: seq<Square?>, i: int, name: string)
    reads squares
  {
    0 <= i < |squares| && squares[i] != null && !IsBlank(name) && name == squares[i].SimpleName()
  }

  /** Every relationship `extract` returns starts at a named square of the list. */
  lemma ExtractFromNamedSquare(squares: seq<Square?>, e: Relationship)
    requires e in ExtractResult(Views(squares))
    ensures exists i :: NamedSquareAt(squares, i, e.from)
  {
    var vs := Views(squares);
    ExtractResultFrom(vs, e);
    var i :| 0 <= i < |vs| && Named(vs[i]) && e.from == vs[i].value.name;
    assert vs[i] == View(squares[i]);
    assert NamedSquareAt(squares, i, e.from);
  }

  /** `extract`'s second loop: the three passes over every named square whose name has code. */
  method ExtractUnits(squares: seq<Square?>, codeByName: map<string, string>) returns (rels: seq<Relationship>)
    ensures rels == Dedup(ExtractCandidates(Views(squares), codeByName))
  {
    ghost var vs := Views(squares);
    rels := [];
    for i := 0 to |squares|
      invariant rels == Dedup(ExtractCandidates(vs[..i], codeByName))
    {
      ExtractStep(vs, i, codeByName);
      var sq := squares[i];
      assert vs[i] == View(sq);
      if sq != null {
        var name := sq.SimpleName();
        if !IsBlank(name) && name in codeByName {
          rels := AddUnit(rels, name, codeByName[name]);
        }
      }
    }
    assert vs[..|squares|] == vs;
  }

  /** `extract`: the code of every named square, then the passes over them, collected without repeats. */
  method Extract(squares: seq<Square?>) returns (rels: seq<Relationship>)
    ensures rels == ExtractResult(Views(squares))
    ensures NoDup(rels)
    ensures forall e | e in rels :: exists i :: NamedSquareAt(squares, i, e.from)
  {
    var codeByName := CollectCode(squares);
    rels := ExtractUnits(squares, codeByName);
    AddAllNoDup([], ExtractCandidates(Views(squares), codeByName));
    forall e | e in rels
      ensures exists i :: NamedSquareAt(squares, i, e.from)
    {
      ExtractFromNamedSquare(squares, e);
    }
  }
}
