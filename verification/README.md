# GitHub repository visualiser — a Dafny model of its analysis core

The visualiser loads the Java files of a GitHub repository and shows them
three ways: as a grid of files, as a UML class diagram drawn with PlantUML,
and as a chat with a language model that is told about the repository. This
project models the deterministic core behind those views and proves
properties of it.

- **Source reading** (`SourceUtils`). It takes a file's simple name from its
  path. It blanks comments and collapses string and char literals. It tests
  whether a unit declares itself an interface or an abstract class.
- **Relationship extraction** (`RelationshipExtractor`). Three passes over
  the stripped source produce typed edges:
  - inheritance, giving Generalization and Implementation edges;
  - fields, giving Composition and Aggregation edges;
  - constructor parameters, giving Dependency edges.

  A type-name normaliser feeds all three passes. Edges are kept once, in
  first-insertion order, which is how a `LinkedHashSet` behaves.
- **Coupling metrics** (`AIMetricsCalculator` and the mutable `Square`
  record). For every `.java` unit it computes the units it uses (efferent
  peers) and the units that use it (afferent peers). From these come
  instability `Ce/(Ce+Ca)` and abstractness, which are written back onto the
  `Square` objects.
- **Diagram assembly** (`DiagramPanel`). It filters the files by a directory
  prefix. It gives each corpus unit a node aliased `N1..`, and each outside
  type a node aliased `X1..`. It classifies nodes and writes the PlantUML
  text with one edge line per relationship.
- **Chat context and wire format** (`RepositoryContextBuilder`,
  `GroqChatPanel`).
  - The context message is built from the focus set, the five largest files,
    the dependency hubs and a sample of at most eight edges.
  - JSON string escaping and unescaping follow section 7 of RFC 8259.
  - The hand-built request payload, the regex that reads the reply's
    `"content"`, and the one-line digest `summarize` are modelled too.
- **GitHub plumbing** (`GitHubHandler`, `Delegate`, `TheNanny`).
  - A repository URL is decomposed into owner, repo, branch and directory
    prefix.
  - The tree listing is scanned for blob paths.
  - Non-blank lines are counted.
  - Raw-content addresses are built.
  - The URL typed by the user is validated.

Java values are modelled as follows:

- Strings are `seq<char>`. The chat helpers work on UTF-16 code units, `JChar`.
- `null` is `Option.None` wherever the source tests for it.
- `HashSet` and `HashMap` are Dafny `set` and `map`.
- A `LinkedHashSet` is a duplicate-free `seq` extended by `OrderedSets.Insert`.
- Each Java regex is a dedicated scanner.
  - Word characters are `[A-Za-z0-9_]` and `\b` is a change between word and non-word characters.
  - `\s` is `[ \t\n\x0B\f\r]`.
  - `.` excludes the line terminators.
- Instability is a `real`.
- Hash codes wrap to 32 bits explicitly (`JavaText.Wrap32`).

Two consequences of the patterns as the code writes them:

- The field pattern only matches a declaration that starts a line with
  `public`, `protected` or `private`.
- The constructor pattern needs one of those keywords.

So a one-line class `class Foo extends Bar implements Baz { private final Qux q; Foo(Zap z) {} }`
gives only its two inheritance edges. The inheritance pass has no self check,
so `class A extends A` gives the edge `A --|> A` (`Relationships.SelfInheritanceIsKept`).

Files, in dependency order:

- `java_text.dfy`: the `String` operations the core uses.
- `ordered_set.dfy`: `LinkedHashSet`.
- `square.dfy`, `source_utils.dfy`, `relationship_extractor.dfy`, `metrics_calculator.dfy`, `diagram_panel.dfy`, `repository_context.dfy`, `groq_chat.dfy`, `github_handler.dfy`, `delegate.dfy`, `the_nanny.dfy`.

## Model

| member | source | states |
|---|---|---|
| JavaText.JavaSplit | src/main/java/com/beginsecure/handlers/GitHubHandler.java:48 | no piece of `split` holds the separator |
| JavaText.JavaSplitJoin | src/main/java/com/beginsecure/handlers/GitHubHandler.java:48 | splitting non-empty separator-free pieces joined by the separator gives the pieces back (trailing empties are dropped, so none may be empty) |
| JavaText.DropTrailingEmpty | src/main/java/com/beginsecure/handlers/GitHubHandler.java:48 | `split` keeps a prefix of the raw pieces, whose last is non-empty, and drops only empty pieces |
| JavaText.StringHashIsPolynomial | Square.java:97-99 | `String.hashCode` is the base-31 polynomial of the characters, wrapped to 32 bits |
| JavaText.Trim | src/main/java/com/beginsecure/handlers/Delegate.java:69 | `trim()` is empty exactly when every character is at most U+0020; otherwise both ends are above U+0020 |
| JavaText.IndexOf | src/main/java/com/beginsecure/handlers/GitHubHandler.java:84 | `indexOf` returns the first occurrence at or after `from`, or -1 when there is none |
| JavaText.IndexOfChar | src/main/java/com/beginsecure/handlers/GitHubHandler.java:85-86 | the first occurrence of a character at or after `from`, or -1 when there is none |
| OrderedSets.Insert | src/main/java/com/beginsecure/util/RelationshipExtractor.java:88 | `add` keeps the set duplicate-free and adds exactly the new element |
| OrderedSets.AddAllElements | src/main/java/com/beginsecure/util/RelationshipExtractor.java:95-97 | after `addAll` the members are exactly the old members and the added ones |
| OrderedSets.AddAllNoDup | src/main/java/com/beginsecure/util/RelationshipExtractor.java:95-97 | `addAll` never creates a duplicate |
| OrderedSets.AddAllKeepsPrefix | src/main/java/com/beginsecure/util/RelationshipExtractor.java:95-97 | elements already present keep their positions |
| OrderedSets.AddAllAppend | src/main/java/com/beginsecure/util/RelationshipExtractor.java:95-97 | adding two lists in turn is adding their concatenation |
| OrderedSets.AddAllOfDedup | src/main/java/com/beginsecure/util/RelationshipExtractor.java:95-97 | adding a deduplicated list is adding the list itself |
| OrderedSets.AddAllFirstOccurrenceOrder | src/main/java/com/beginsecure/util/RelationshipExtractor.java:88-99 | the result lists elements in the order of their first occurrence |
| Squares.Square.constructor | Square.java:19-22 | sets path and size; source is empty, metrics are null, both peer sets are empty |
| Squares.Square.SetPath | Square.java:27-29 | replaces the path and nothing else |
| Squares.Square.SetLinesOfCode | Square.java:34-36 | replaces the size and nothing else |
| Squares.Square.SimpleName | Square.java:38-44 | the simple name has no `/` or `\`; a null path gives "" |
| Squares.Square.SetSource | Square.java:55 | stores the source, "" for null, and nothing else |
| Squares.Square.SetInstability | Square.java:58 | replaces instability and nothing else |
| Squares.Square.SetAbstractness | Square.java:61 | replaces abstractness and nothing else |
| Squares.Square.Cin | Square.java:63 | `getCin` is the number of afferent peers |
| Squares.Square.Cout | Square.java:64 | `getCout` is the number of efferent peers |
| Squares.Square.SetEfferentPeers | Square.java:74-77 | the efferent set becomes a copy of the argument, empty for null; nothing else changes |
| Squares.Square.SetAfferentPeers | Square.java:79-82 | the afferent set becomes a copy of the argument, empty for null; nothing else changes |
| Squares.Square.ResetMetrics | Square.java:84-89 | metrics null and peer sets empty (so `getCin == getCout == 0`); path, size and source kept |
| Squares.Square.Key | Square.java:95 | the comparison key is the path itself when there is one (`String.valueOf`) |
| Squares.Square.HashCode | Square.java:97-99 | the hash is a 32-bit value |
| Squares.EqualsIsEquivalence | Square.java:91-99 | `equals` is reflexive, symmetric and transitive, and equal squares have equal hashes |
| Squares.EqualsIgnoresEverythingButPath | Square.java:91-99 | squares with the same path are equal and hash alike, whatever else differs |
| Squares.NullPathEqualsNullText | Square.java:95 | a null path equals the path "null", through `String.valueOf` |
| SourceUtils.SimpleName | src/main/java/com/beginsecure/util/SourceUtils.java:10-16 | null gives ""; the result never holds `/` or `\` |
| SourceUtils.SimpleNameOfSegment | src/main/java/com/beginsecure/util/SourceUtils.java:12-15 | the name is the last segment after either separator, with exactly one trailing `.java` removed |
| SourceUtils.StripCommentsAndStrings | src/main/java/com/beginsecure/util/SourceUtils.java:18-19 | null gives "" |
| SourceUtils.StripLeavesPlainText | src/main/java/com/beginsecure/util/SourceUtils.java:18-25 | text without `/`, `"` or `'` is returned unchanged |
| SourceUtils.StripRemovesLineCommentOpeners | src/main/java/com/beginsecure/util/SourceUtils.java:21-23 | no `//` survives stripping |
| SourceUtils.LineCommentBecomesSpace | src/main/java/com/beginsecure/util/SourceUtils.java:21 | a line comment, from `//` up to its line terminator, is replaced by one space and the rest of the text is stripped on |
| SourceUtils.CollapseClosedLiteral | src/main/java/com/beginsecure/util/SourceUtils.java:22-23 | a closed literal with an escaped body becomes its two quotes |
| SourceUtils.EscapedQuoteStaysInside | src/main/java/com/beginsecure/util/SourceUtils.java:22 | an escaped quote does not end a string literal |
| SourceUtils.SlashesInsideStringStartAComment | src/main/java/com/beginsecure/util/SourceUtils.java:20-22 | comments go first, so `"//"` loses its closing quote |
| SourceUtils.DeclaresInterface | src/main/java/com/beginsecure/util/SourceUtils.java:27-32 | false for a null or blank name or null code; true only if the stripped code declares `interface NAME` with word boundaries |
| SourceUtils.DeclaresAbstractClass | src/main/java/com/beginsecure/util/SourceUtils.java:34-39 | the same for `abstract class NAME` |
| SourceUtils.InterfaceDeclarationDetected | src/main/java/com/beginsecure/util/SourceUtils.java:27-32 | conversely, `interface NAME` between non-word characters is detected |
| SourceUtils.AbstractClassDeclarationDetected | src/main/java/com/beginsecure/util/SourceUtils.java:34-39 | conversely, `abstract class NAME` between non-word characters is detected |
| Relationships.ToPlantUml | src/main/java/com/beginsecure/util/RelationshipExtractor.java:52-60 | the line is `from`, a space, the kind's arrow, a space and `to` |
| Relationships.ToPlantUmlDeterminesKind | src/main/java/com/beginsecure/util/RelationshipExtractor.java:52-60 | distinct kinds draw distinct lines (each kind has its own arrow) |
| Relationships.HashCode | src/main/java/com/beginsecure/util/RelationshipExtractor.java:70-76 | the hash is a 32-bit value |
| Relationships.HashCodeIsPolynomial | src/main/java/com/beginsecure/util/RelationshipExtractor.java:70-76 | the hash is `961*h(from) + 31*h(to) + h(kind)` wrapped once to 32 bits, so it depends only on the triple |
| Relationships.NormalizeType | src/main/java/com/beginsecure/util/RelationshipExtractor.java:176-186 | null gives null; a result is non-empty, upper-case-led and made of word characters |
| Relationships.NormalizeTypeFixesTypeNames | src/main/java/com/beginsecure/util/RelationshipExtractor.java:176-186 | a type name normalises to itself |
| Relationships.NormalizeTypeIdempotent | src/main/java/com/beginsecure/util/RelationshipExtractor.java:176-186 | normalising twice is normalising once |
| Relationships.NormalizeTypeRejectsLowerCase | src/main/java/com/beginsecure/util/RelationshipExtractor.java:184 | a lower-case-led token such as `int` gives null |
| Relationships.NormalizeQualifiedGenericArray | src/main/java/com/beginsecure/util/RelationshipExtractor.java:177-185 | `pkg.T<args>[]` normalises to `T` |
| Relationships.ExtendsMatchAt | src/main/java/com/beginsecure/util/RelationshipExtractor.java:104 | a `class NAME extends T` match captures a non-empty token of `[A-Za-z0-9_$.<>]` |
| Relationships.ImplementsMatchAt | src/main/java/com/beginsecure/util/RelationshipExtractor.java:113 | an `implements` match captures text free of `{` |
| Relationships.InterfaceExtendsMatchAt | src/main/java/com/beginsecure/util/RelationshipExtractor.java:124 | an `interface NAME extends` match captures text free of `{` |
| Relationships.TypeEdge | src/main/java/com/beginsecure/util/RelationshipExtractor.java:116-121 | a list entry gives an edge exactly when it normalises, and the edge points at the normalised name |
| Relationships.TypeEdgesMembership | src/main/java/com/beginsecure/util/RelationshipExtractor.java:116-121 | the comma pass's edges are exactly the edges of its entries |
| Relationships.AddTypeEdges | src/main/java/com/beginsecure/util/RelationshipExtractor.java:116-121 | the loop adds the list's edges to the ordered set |
| Relationships.FindInheritance | src/main/java/com/beginsecure/util/RelationshipExtractor.java:102-135 | the result is the extends, implements and interface-extends edges, deduplicated in order |
| Relationships.SelfInheritanceIsKept | src/main/java/com/beginsecure/util/RelationshipExtractor.java:104-111 | the inheritance pass keeps a self edge |
| Relationships.FieldMatchAt | src/main/java/com/beginsecure/util/RelationshipExtractor.java:139 | a field match ends after it starts and captures an upper-case-led type token |
| Relationships.NextFieldMatch | src/main/java/com/beginsecure/util/RelationshipExtractor.java:141 | `find()` returns the first field match at or after the search start |
| Relationships.FieldEdge | src/main/java/com/beginsecure/util/RelationshipExtractor.java:142-148 | a match gives an edge iff it is not static and its type normalises to a name other than the unit's; final gives Composition, otherwise Aggregation |
| Relationships.FieldEdgesMembership | src/main/java/com/beginsecure/util/RelationshipExtractor.java:141-149 | the pass's edges are exactly the edges of its matches |
| Relationships.StaticFieldsAreSkipped | src/main/java/com/beginsecure/util/RelationshipExtractor.java:146 | a static match gives no edge |
| Relationships.FindFieldAssociations | src/main/java/com/beginsecure/util/RelationshipExtractor.java:137-151 | the loop yields the deduplicated edges of all successive matches |
| Relationships.MethodHeaderReadsAsField | src/main/java/com/beginsecure/util/RelationshipExtractor.java:139 | the optional tail lets `public T name(` match as a field, giving an Aggregation to `T` |
| Relationships.CtorMatchAt | src/main/java/com/beginsecure/util/RelationshipExtractor.java:155 | a constructor match captures a parameter list without `)` |
| Relationships.NextCtorMatch | src/main/java/com/beginsecure/util/RelationshipExtractor.java:157 | `find()` returns the first constructor match at or after the search start |
| Relationships.AnnotationRunRemoved | src/main/java/com/beginsecure/util/RelationshipExtractor.java:162 | an annotation `@name` followed by a space is removed, the space and the rest kept |
| Relationships.LeadingFinalRemoved | src/main/java/com/beginsecure/util/RelationshipExtractor.java:163 | a leading `final` word is removed from `final T v`, the rest kept |
| Relationships.AnnotatedFinalParameterIsDependency | src/main/java/com/beginsecure/util/RelationshipExtractor.java:159-170 | a parameter `@A final T v` gives a Dependency on `T` |
| Relationships.ParamType | src/main/java/com/beginsecure/util/RelationshipExtractor.java:160-168 | a parameter gives a type only if it normalises to a name other than the unit's |
| Relationships.PlainParameterIsDependency | src/main/java/com/beginsecure/util/RelationshipExtractor.java:159-170 | a parameter `T v` gives a Dependency on `T` |
| Relationships.ParamEdges | src/main/java/com/beginsecure/util/RelationshipExtractor.java:159-171 | every parameter edge is a Dependency from the unit to another type name |
| Relationships.AddParamEdges | src/main/java/com/beginsecure/util/RelationshipExtractor.java:159-171 | the parameter loop adds those edges to the ordered set |
| Relationships.FindConstructorDependencies | src/main/java/com/beginsecure/util/RelationshipExtractor.java:153-174 | the loop yields the deduplicated Dependency edges of all matches |
| Relationships.UnitCandidates | src/main/java/com/beginsecure/util/RelationshipExtractor.java:95-97 | every edge of a unit starts at the unit and ends at a type name |
| Relationships.ExtractCandidatesFrom | src/main/java/com/beginsecure/util/RelationshipExtractor.java:89-98 | every candidate edge starts at a named square and ends at a type name |
| Relationships.SelfEdgesAreInheritance | src/main/java/com/beginsecure/util/RelationshipExtractor.java:145-168 | a self edge can only come from the inheritance pass |
| Relationships.View | src/main/java/com/beginsecure/util/RelationshipExtractor.java:82 | a square has a view exactly when it is not null |
| Relationships.Views | src/main/java/com/beginsecure/util/RelationshipExtractor.java:81-84 | one view per square, in order |
| Relationships.CodeByName | src/main/java/com/beginsecure/util/RelationshipExtractor.java:80-86 | keys are exactly the non-blank names of the squares |
| Relationships.CodeByNameLastWins | src/main/java/com/beginsecure/util/RelationshipExtractor.java:85 | with duplicate names, the last square's stripped source wins |
| Relationships.CollectCode | src/main/java/com/beginsecure/util/RelationshipExtractor.java:80-86 | the first loop builds the `codeByName` map |
| Relationships.AddUnit | src/main/java/com/beginsecure/util/RelationshipExtractor.java:95-97 | one unit's three passes are added to the ordered set |
| Relationships.ExtractResultProperties | src/main/java/com/beginsecure/util/RelationshipExtractor.java:88-99 | no triple twice, in first-insertion order; every edge from a named square, to a type name |
| Relationships.Extract | src/main/java/com/beginsecure/util/RelationshipExtractor.java:79-100 | `extract` returns the specified list, without duplicates; every `from` is the simple name of a non-null square with a non-blank name |
| Relationships.ExtractUnits | src/main/java/com/beginsecure/util/RelationshipExtractor.java:88-99 | the second loop leaves each named square's candidate edges, in order, each triple once |
| Metrics.FindPeerDeps | src/main/java/com/beginsecure/AIMetricsCalculator.java:77-92 | the result is a subset of the peers without the unit itself; a peer is in it iff one of the five patterns matches (null code reads as "") |
| Metrics.UsesPeerMentionsPeer | src/main/java/com/beginsecure/AIMetricsCalculator.java:82-86 | every pattern mentions the peer's name |
| Metrics.ConstructorCallIsDependency | src/main/java/com/beginsecure/AIMetricsCalculator.java:84 | `new P(` makes P a dependency |
| Metrics.DeclaredTypeIsDependency | src/main/java/com/beginsecure/AIMetricsCalculator.java:85 | `P ident` makes P a dependency |
| Metrics.ImplementedPeerIsDependency | src/main/java/com/beginsecure/AIMetricsCalculator.java:83 | P in an `implements` list makes P a dependency |
| Metrics.Instability | src/main/java/com/beginsecure/AIMetricsCalculator.java:71-73 | `Ce/(Ce+Ca)`, 0 when both are 0; in [0,1]; 0 iff Ce = 0; 1 iff Ce > 0 and Ca = 0 |
| Metrics.AbstractnessAgreesWithDeclarations | src/main/java/com/beginsecure/AIMetricsCalculator.java:60-64 | abstractness is 0 or 1, and 1 iff the unit declares an interface or an abstract class of its name |
| Metrics.AfferentIsInverseOfEfferent | src/main/java/com/beginsecure/AIMetricsCalculator.java:46-54 | `a ∈ aff(b)` iff `b ∈ eff(a)`; both sets lie within the peer names and never hold the unit itself |
| Metrics.LastIndexOf | src/main/java/com/beginsecure/AIMetricsCalculator.java:27-37 | each name maps to its last `.java` record |
| Metrics.ByNameKeepsLast | src/main/java/com/beginsecure/AIMetricsCalculator.java:33 | `byName` keeps the last square of each name |
| Metrics.StrippedKeepsLast | src/main/java/com/beginsecure/AIMetricsCalculator.java:35 | `strippedSource` keeps the last square's stripped source |
| Metrics.ReadEntry | src/main/java/com/beginsecure/AIMetricsCalculator.java:28-32 | reads whether a square is a `.java` unit, and then its simple name and stripped code, as the entry classification specifies |
| Metrics.CollectUnits | src/main/java/com/beginsecure/AIMetricsCalculator.java:23-37 | the first loop: the three maps as specified; `.java` records are reset, others untouched |
| Metrics.EfferentMap | src/main/java/com/beginsecure/AIMetricsCalculator.java:39-44 | every unit maps to its peer dependencies |
| Metrics.EmptyAfferentMap | src/main/java/com/beginsecure/AIMetricsCalculator.java:46-49 | every peer starts with an empty set |
| Metrics.AddDependent | src/main/java/com/beginsecure/AIMetricsCalculator.java:51-53 | adds the unit to the set of each of its dependencies, and changes nothing else |
| Metrics.AfferentMap | src/main/java/com/beginsecure/AIMetricsCalculator.java:46-54 | every peer maps to the set of units depending on it |
| Metrics.Measure | src/main/java/com/beginsecure/AIMetricsCalculator.java:59-73 | one record receives abstractness, both peer sets and instability; path, size and source unchanged |
| Metrics.ApplyMetrics | src/main/java/com/beginsecure/AIMetricsCalculator.java:56-74 | every kept record carries its name's metrics; nothing else changes |
| Metrics.DependencyMaps | src/main/java/com/beginsecure/AIMetricsCalculator.java:39-54 | the two maps agree with the efferent and afferent specifications |
| Metrics.MeasureUnits | src/main/java/com/beginsecure/AIMetricsCalculator.java:39-74 | kept records are measured, other records keep their readings |
| Metrics.ComputeAll | src/main/java/com/beginsecure/AIMetricsCalculator.java:20-75 | path, size and source never change; null and non-`.java` records are untouched; the last record of each name gets that name's metrics; earlier duplicates stay reset |
| Diagram.MatchRequiresOccurrence | src/main/java/com/beginsecure/panels/DiagramPanel.java:155-159 | a non-blank prefix matches only paths that contain it |
| Diagram.DirectoryMatches | src/main/java/com/beginsecure/panels/DiagramPanel.java:158 | the prefix matches any path holding it as a directory |
| Diagram.TrailingSegmentsMatch | src/main/java/com/beginsecure/panels/DiagramPanel.java:158 | the prefix matches any path ending in `/prefix` |
| Diagram.NormalizationIsIdempotent | src/main/java/com/beginsecure/panels/DiagramPanel.java:157 | backslashes and slashes in the prefix are interchangeable |
| Diagram.MatchInsideDirectoryName | src/main/java/com/beginsecure/panels/DiagramPanel.java:158 | the test is on text: `ore` matches `src/core/A.java` |
| Diagram.KeptAppend | src/main/java/com/beginsecure/panels/DiagramPanel.java:141-153 | filtering commutes with concatenation, so order is kept |
| Diagram.KeptMembers | src/main/java/com/beginsecure/panels/DiagramPanel.java:141-153 | an entry is kept iff it is in the list with a `.java` path the prefix matches |
| Diagram.NoPrefixKeepsJavaFiles | src/main/java/com/beginsecure/panels/DiagramPanel.java:143-149 | with no prefix every `.java` entry is kept |
| Diagram.FilterByPrefix | src/main/java/com/beginsecure/panels/DiagramPanel.java:141-153 | the loop returns the filtered list |
| Diagram.ColorDirective | src/main/java/com/beginsecure/panels/DiagramPanel.java:270 | a non-blank colour gives exactly one leading `#` |
| Diagram.DirectivesAreColors | src/main/java/com/beginsecure/panels/DiagramPanel.java:259-272 | each style's directive is its declared colour, `#` plus six characters |
| Diagram.HexColorDirective | src/main/java/com/beginsecure/panels/DiagramPanel.java:270 | a colour already of the form `#xyz` is kept |
| Diagram.StyleAgreesWithAbstractness | src/main/java/com/beginsecure/panels/DiagramPanel.java:220-231 | classify is never External; it is not Class iff the unit's abstractness is 1; AbstractClass only when no interface is declared |
| Diagram.EscapeQuotes | src/main/java/com/beginsecure/panels/DiagramPanel.java:233-235 | escaping never shortens the text |
| Diagram.UnescapeEscape | src/main/java/com/beginsecure/panels/DiagramPanel.java:233-235 | escaping loses nothing: it can be read back |
| Diagram.EscapedQuotesFollowBackslash | src/main/java/com/beginsecure/panels/DiagramPanel.java:234 | every quote of the escaped label follows a backslash |
| Diagram.NamedNamesMembers | src/main/java/com/beginsecure/panels/DiagramPanel.java:163-167 | a name is collected iff some square carries it |
| Diagram.LastSourceLastWins | src/main/java/com/beginsecure/panels/DiagramPanel.java:166 | a later `put` replaces the value |
| Diagram.CollectByName | src/main/java/com/beginsecure/panels/DiagramPanel.java:162-167 | keys in first-insertion order, each holding its last square |
| Diagram.CorpusNodes | src/main/java/com/beginsecure/panels/DiagramPanel.java:173-179 | one `N` node per key, in key order, and the alias map of those nodes |
| Diagram.AddCorpusNode | src/main/java/com/beginsecure/panels/DiagramPanel.java:174-178 | the key at position j gets alias `N(j+1)` and its style, and the loop's account of nodes and aliases still holds |
| Diagram.ExternalNodes | src/main/java/com/beginsecure/panels/DiagramPanel.java:182-189 | one `X` node per unseen target in encounter order; the alias map covers all nodes |
| Diagram.AddExternal | src/main/java/com/beginsecure/panels/DiagramPanel.java:184-188 | a target without an alias becomes the next `X` node, and one with an alias changes nothing |
| Diagram.RenderNodes | src/main/java/com/beginsecure/panels/DiagramPanel.java:201-205 | one `rectangle` line per node, appended |
| Diagram.RenderEdges | src/main/java/com/beginsecure/panels/DiagramPanel.java:207-214 | one edge line per relationship with both ends aliased, and the count |
| Diagram.BuildModel | src/main/java/com/beginsecure/panels/DiagramPanel.java:161-218 | `buildModel` returns the specified model |
| Diagram.BuildNodes | src/main/java/com/beginsecure/panels/DiagramPanel.java:170-189 | the node list and alias map are those of the specified model: corpus nodes then external targets |
| Diagram.AssembleModel | src/main/java/com/beginsecure/panels/DiagramPanel.java:170-217 | after the name map is built, the rest of `buildModel` yields the specified model |
| Diagram.ModelAbsentIffUnnamed | src/main/java/com/beginsecure/panels/DiagramPanel.java:162-168 | null iff no square has a non-blank simple name |
| Diagram.AliasesDistinct | src/main/java/com/beginsecure/panels/DiagramPanel.java:176-185 | no two nodes share an alias |
| Diagram.NodesLayout | src/main/java/com/beginsecure/panels/DiagramPanel.java:170-189 | for any relationship list: corpus names first (aliased `N1..`, never external), then unseen targets once (aliased `X1..`, external); distinct names and aliases; every target has a node |
| Diagram.CorpusOrder | src/main/java/com/beginsecure/panels/DiagramPanel.java:162-166 | corpus nodes follow the first occurrence of their names |
| Diagram.LastEntryDecidesStyle | src/main/java/com/beginsecure/panels/DiagramPanel.java:166-178 | a node keeps its first position but is classified on the last square of its name |
| Diagram.RelationshipEndsHaveAliases | src/main/java/com/beginsecure/panels/DiagramPanel.java:183-189 | both ends of every relationship have an alias |
| Diagram.EveryRelationshipDrawn | src/main/java/com/beginsecure/panels/DiagramPanel.java:207-217 | `edgeCount` is the number of relationships; `nodeCount` is the number of nodes |
| Diagram.UmlFrame | src/main/java/com/beginsecure/panels/DiagramPanel.java:192-216 | the text starts with `@startuml\n`, ends with `@enduml\n`, and holds each node's `rectangle` line in node order |
| RepositoryContext.MatchingMembers | src/main/java/com/beginsecure/panels/RepositoryContextBuilder.java:112-117 | kept entries are exactly those whose path passes the three-way test |
| RepositoryContext.FilterByPrefixMembers | src/main/java/com/beginsecure/panels/RepositoryContextBuilder.java:107-118 | a blank prefix keeps all; otherwise exactly the matching squares, with no `.java` test |
| RepositoryContext.FocusIsNeverEmpty | src/main/java/com/beginsecure/panels/RepositoryContextBuilder.java:34-44 | no message for an empty list; the focus is the filter's result, or the whole list when that is empty |
| RepositoryContext.InsertDescPermutes | src/main/java/com/beginsecure/panels/RepositoryContextBuilder.java:135 | inserting adds exactly one entry and loses none |
| RepositoryContext.InsertDescSorted | src/main/java/com/beginsecure/panels/RepositoryContextBuilder.java:135 | inserting into a descending list keeps it descending |
| RepositoryContext.SortDescPermutes | src/main/java/com/beginsecure/panels/RepositoryContextBuilder.java:135 | the sort is a permutation |
| RepositoryContext.SortDescSorted | src/main/java/com/beginsecure/panels/RepositoryContextBuilder.java:135 | the sort is non-increasing |
| RepositoryContext.SortDescStable | src/main/java/com/beginsecure/panels/RepositoryContextBuilder.java:135 | entries with equal keys keep their order |
| RepositoryContext.TopIsTop | src/main/java/com/beginsecure/panels/RepositoryContextBuilder.java:135-136 | `limit(n)` keeps `min(n, size)` entries in descending order, none smaller than any left out |
| RepositoryContext.TopTextFallback | src/main/java/com/beginsecure/panels/RepositoryContextBuilder.java:137-139 | the fallback appears iff there is nothing to list |
| RepositoryContext.SizeEntries | src/main/java/com/beginsecure/panels/RepositoryContextBuilder.java:137 | each square's name and line count, in order |
| RepositoryContext.HubEntries | src/main/java/com/beginsecure/panels/RepositoryContextBuilder.java:154 | only squares with `getCout > 0` are candidates |
| RepositoryContext.HubEntriesComplete | src/main/java/com/beginsecure/panels/RepositoryContextBuilder.java:154 | every square with `getCout > 0` is a candidate |
| RepositoryContext.TopFilesListsLargest | src/main/java/com/beginsecure/panels/RepositoryContextBuilder.java:133-140 | "n/a" iff no files; otherwise the five (or fewer) largest, joined |
| RepositoryContext.TopDependenciesListsHubs | src/main/java/com/beginsecure/panels/RepositoryContextBuilder.java:152-160 | the fallback iff no square has peers; at most four hubs, all with `getCout > 0` |
| RepositoryContext.SampleEdges | src/main/java/com/beginsecure/panels/RepositoryContextBuilder.java:163-170 | `min(8, total peers)` edges `A->B`, each B an efferent peer of A, none twice, in list order |
| RepositoryContext.SamplePeers | src/main/java/com/beginsecure/panels/RepositoryContextBuilder.java:165-168 | the inner loop extends the sample by one square's peers up to 8 |
| RepositoryContext.FormatSampleEdges | src/main/java/com/beginsecure/panels/RepositoryContextBuilder.java:162-175 | the text is the sampled `A->B` edges joined by ", " (up to eight, each B an efferent peer of A, in list order), or the fixed text when there are none, which happens iff no square has an efferent peer |
| GroqChat.EscapeJson | src/main/java/com/beginsecure/panels/GroqChatPanel.java:219-239 | the loop returns each unit's escape, in order |
| GroqChat.UnescapeJson | src/main/java/com/beginsecure/panels/GroqChatPanel.java:255-289 | the loop, which advances the index past each escape, returns the specified text |
| GroqChat.ReadEscape | src/main/java/com/beginsecure/panels/GroqChatPanel.java:258-286 | one step of the loop reads exactly the specified piece and advances past it |
| GroqChat.UnescapeEscape | src/main/java/com/beginsecure/panels/GroqChatPanel.java:219-289 | `unescapeJson(escapeJson(s)) == s` for every text |
| GroqChat.EscapeIsBody | src/main/java/com/beginsecure/panels/GroqChatPanel.java:219-239 | an escaped text is always a well-formed body of the content pattern |
| GroqChat.HexDigitsValue | src/main/java/com/beginsecure/panels/GroqChatPanel.java:231 | the four `%04x` digits parse back to the unit |
| GroqChat.UnescapeUnit | src/main/java/com/beginsecure/panels/GroqChatPanel.java:223-283 | one escaped unit reads back as itself, whatever follows |
| GroqChat.EscapeHasNoControl | src/main/java/com/beginsecure/panels/GroqChatPanel.java:223-235 | no unit below U+0020 is left |
| GroqChat.EscapedQuotes | src/main/java/com/beginsecure/panels/GroqChatPanel.java:224-225 | every quote of the output follows a backslash |
| GroqChat.UnescapePlain | src/main/java/com/beginsecure/panels/GroqChatPanel.java:284-285 | text without backslashes passes unchanged |
| GroqChat.UnescapeTrailingBackslash | src/main/java/com/beginsecure/panels/GroqChatPanel.java:259 | a trailing lone backslash is kept |
| GroqChat.UnescapeUnknown | src/main/java/com/beginsecure/panels/GroqChatPanel.java:282 | an unknown escape `\x` gives `x` |
| GroqChat.UnescapeBadHex | src/main/java/com/beginsecure/panels/GroqChatPanel.java:276-278 | a non-hex `\uXXXX` is copied literally |
| GroqChat.UnescapeShortHex | src/main/java/com/beginsecure/panels/GroqChatPanel.java:270-271 | `\u` with fewer than four units left is dropped |
| GroqChat.UnescapeSignedHex | src/main/java/com/beginsecure/panels/GroqChatPanel.java:274 | `parseInt` takes a sign: `\u-001` gives U+FFFF and `\u+04a` gives `J` |
| GroqChat.BodyEndAfter | src/main/java/com/beginsecure/panels/GroqChatPanel.java:31-32 | the group ends exactly at the quote after a well-formed body |
| GroqChat.ExtractContent | src/main/java/com/beginsecure/panels/GroqChatPanel.java:241-247 | null iff the pattern matches nowhere |
| GroqChat.FirstContent | src/main/java/com/beginsecure/panels/GroqChatPanel.java:242-244 | the leftmost match decides, unescaped |
| GroqChat.ContentReadBack | src/main/java/com/beginsecure/panels/GroqChatPanel.java:241-247 | an escaped content field is read back as the original text |
| GroqChat.SummarizeShape | src/main/java/com/beginsecure/panels/GroqChatPanel.java:249-253 | single spaces only, trimmed, and cut at 200 units followed by `...` |
| GroqChat.Summarize | src/main/java/com/beginsecure/panels/GroqChatPanel.java:249-253 | "" for null; at most 203 units |
| GroqChat.SummarizeIdempotent | src/main/java/com/beginsecure/panels/GroqChatPanel.java:249-253 | summarising a digest again changes nothing |
| GroqChat.CollapseFixed | src/main/java/com/beginsecure/panels/GroqChatPanel.java:251 | collapsing white space changes nothing in text with only single spaces |
| GroqChat.MessageJson | src/main/java/com/beginsecure/panels/GroqChatPanel.java:211-217 | the role is written raw and only the content is escaped, as the length shows |
| GroqChat.AppendMessageJson | src/main/java/com/beginsecure/panels/GroqChatPanel.java:211-217 | appends one message object |
| GroqChat.BuildPayload | src/main/java/com/beginsecure/panels/GroqChatPanel.java:195-209 | the request is the head with the system prompt, the message list and `]}`, as specified |
| GroqChat.AppendMessages | src/main/java/com/beginsecure/panels/GroqChatPanel.java:203-206 | the loop appends each message, in order, after a comma |
| GroqChat.MessagesTextExtends | src/main/java/com/beginsecure/panels/GroqChatPanel.java:203-206 | the text written after `m` messages is the start of the text after `n >= m` |
| GroqChat.PayloadLayout | src/main/java/com/beginsecure/panels/GroqChatPanel.java:195-209 | the head and system prompt come first, then each message after a comma in order, then `]}` |
| GroqChat.MessageReadBack | src/main/java/com/beginsecure/panels/GroqChatPanel.java:211-247 | `extractContent` reads a message object's content back |
| GroqChat.RoleIsNotEscaped | src/main/java/com/beginsecure/panels/GroqChatPanel.java:213 | a role holding `","content":"` takes over what `extractContent` reads |
| GitHubHandler.NewRepoRef | src/main/java/com/beginsecure/handlers/GitHubHandler.java:33-38 | the fields are the arguments; a null prefix becomes "" |
| GitHubHandler.FromUrl | src/main/java/com/beginsecure/handlers/GitHubHandler.java:41-67 | the method, with its join loop, returns the specified reference |
| GitHubHandler.JoinDirectories | src/main/java/com/beginsecure/handlers/GitHubHandler.java:56-63 | the loop joins the fifth and later segments with `/` |
| GitHubHandler.SegmentsOfUrl | src/main/java/com/beginsecure/handlers/GitHubHandler.java:42-48 | one trailing slash and the scheme up to `github.com/` are dropped; the segments come back |
| GitHubHandler.FromRepositoryPage | src/main/java/com/beginsecure/handlers/GitHubHandler.java:42-52 | a home page gives its owner and repo, branch `main` and no prefix |
| GitHubHandler.HomePageRef | src/main/java/com/beginsecure/handlers/GitHubHandler.java:41-67 | `https://github.com/owner/repo` gives owner, repo, branch `main` and an empty prefix |
| GitHubHandler.FromBranchPage | src/main/java/com/beginsecure/handlers/GitHubHandler.java:53-63 | a `tree` or `blob` page gives its branch and the directories joined as the prefix |
| GitHubHandler.FromOtherPage | src/main/java/com/beginsecure/handlers/GitHubHandler.java:53-54 | any other third segment keeps `main` and no prefix |
| GitHubHandler.NormalizePrefix | src/main/java/com/beginsecure/handlers/GitHubHandler.java:78-80 | no backslash; empty, or ends in `/`; empty iff the prefix is "", `/` or `\` |
| GitHubHandler.NormalizeKeepsDirectory | src/main/java/com/beginsecure/handlers/GitHubHandler.java:78-80 | a directory already written `dir/` is kept |
| GitHubHandler.NormalizeAddsSlash | src/main/java/com/beginsecure/handlers/GitHubHandler.java:80 | otherwise one `/` is added |
| GitHubHandler.NormalizeReadsBackslashes | src/main/java/com/beginsecure/handlers/GitHubHandler.java:78 | backslashes count as slashes |
| GitHubHandler.NormalizeDropsOneSlash | src/main/java/com/beginsecure/handlers/GitHubHandler.java:79 | only one leading slash is dropped |
| GitHubHandler.Quoted | src/main/java/com/beginsecure/handlers/GitHubHandler.java:85-87 | the next quoted run after the key, or none when the run would be empty |
| GitHubHandler.ObjectEnd | src/main/java/com/beginsecure/handlers/GitHubHandler.java:90-91 | the next `}`, or `end + 1` when there is none |
| GitHubHandler.TypeOfFindsKey | src/main/java/com/beginsecure/handlers/GitHubHandler.java:92-97 | a type is read only from the first `"type":` key before the object's end, and none is read when no such key exists |
| GitHubHandler.ReadEntry | src/main/java/com/beginsecure/handlers/GitHubHandler.java:85-105 | an entry exists iff its path is quoted; the scan resumes after the object's end |
| GitHubHandler.EntriesInOrder | src/main/java/com/beginsecure/handlers/GitHubHandler.java:84-105 | entries come in document order, each read at a `"path":` key |
| GitHubHandler.SelectSound | src/main/java/com/beginsecure/handlers/GitHubHandler.java:98-100 | every listed path comes from a listed entry |
| GitHubHandler.SelectComplete | src/main/java/com/beginsecure/handlers/GitHubHandler.java:98-100 | every listed entry's path is returned |
| GitHubHandler.ScanStops | src/main/java/com/beginsecure/handlers/GitHubHandler.java:84-88 | with no further `"path":` key, or an empty path at the next one, the scan lists nothing more |
| GitHubHandler.ListFilesRecursive | src/main/java/com/beginsecure/handlers/GitHubHandler.java:71-108 | null or empty JSON gives nothing; otherwise the scan's paths, each starting with the normalised prefix |
| GitHubHandler.ScanTree | src/main/java/com/beginsecure/handlers/GitHubHandler.java:83-106 | the while loop, advancing past each object, returns the specified paths |
| GitHubHandler.ReadTreeEntry | src/main/java/com/beginsecure/handlers/GitHubHandler.java:85-91 | reads one entry's path and object end, or reports the break |
| GitHubHandler.ReadType | src/main/java/com/beginsecure/handlers/GitHubHandler.java:92-97 | reads the type as specified |
| GitHubHandler.TreePathsAreListedBlobs | src/main/java/com/beginsecure/handlers/GitHubHandler.java:90-101 | paths start with the prefix, each from an entry whose object says `"type":"blob"`, and every such entry's path is listed |
| Delegate.CountLines | src/main/java/com/beginsecure/handlers/Delegate.java:65-74 | 0 for null or empty text; otherwise the number of non-blank `\r?\n` pieces, at most the number of pieces |
| Delegate.NonBlankCountsLines | src/main/java/com/beginsecure/handlers/Delegate.java:68-72 | the count is the number of lines that are non-empty after `trim()` |
| Delegate.CountIgnoresCarriageReturns | src/main/java/com/beginsecure/handlers/Delegate.java:68 | splitting on `\r?\n` counts the same as splitting on line feeds and keeping every piece |
| Delegate.CountLinesZero | src/main/java/com/beginsecure/handlers/Delegate.java:66-73 | the count is 0 iff every character is at most U+0020 (a space or a C0 control); a text of one DEL, NEL or no-break space counts 1, because `trim()` keeps it |
| Delegate.ConvertToBlobUrl | src/main/java/com/beginsecure/handlers/Delegate.java:76-85 | the address starts with the raw-content host and ends with `/path` |
| Delegate.BlobUrlOfRepositoryPage | src/main/java/com/beginsecure/handlers/Delegate.java:76-85 | a home page gives `raw host/owner/repo/main/path` |
| Delegate.BlobUrlOfTreePage | src/main/java/com/beginsecure/handlers/Delegate.java:76-85 | a tree page gives its branch; the directory does not enter the address |
| TheNanny.MatchGitHubUrl | src/main/java/com/beginsecure/handlers/TheNanny.java:17-18 | a match returns well-formed pieces that render the URL |
| TheNanny.MatchComplete | src/main/java/com/beginsecure/handlers/TheNanny.java:17-18 | every well-formed URL matches, with its own pieces |
| TheNanny.AcceptedIffMatches | src/main/java/com/beginsecure/handlers/TheNanny.java:33 | the scanner accepts exactly the URLs the pattern describes |
| TheNanny.MatchIffPieces | src/main/java/com/beginsecure/handlers/TheNanny.java:17-18 | the match is the pieces iff they are well formed and render the URL |
| TheNanny.ActionPerformed | src/main/java/com/beginsecure/handlers/TheNanny.java:26-40 | empty after trim: only the empty-URL error; not matching: only the invalid-URL error; otherwise loading on, a status, then the load, in that order |
| TheNanny.LowerCaseHostNamesRepository | src/main/java/com/beginsecure/handlers/TheNanny.java:18 | for an accepted URL whose host is `github.com/` in lower case, with the scheme in any case (`HTTPS://github.com/o/r` included), `fromUrl` reads the same owner and repo |
| TheNanny.MixedCaseHostIsMisread | src/main/java/com/beginsecure/handlers/TheNanny.java:18 | when the URL holds no lower-case `github.com/` anywhere (a mixed-case host and none later in the path), `fromUrl` reads the scheme as owner and "" as repo; a later lower-case `github.com/` would be found instead |
| TheNanny.MixedCaseHostExample | src/main/java/com/beginsecure/handlers/TheNanny.java:18 | `https://GitHub.com/o/r` is accepted yet contains no `github.com/` |

## Left out

- Network I/O is not modelled.
  - `GitHubHandler.httpGet` and the API request built at GitHubHandler.java:73 are not modelled. `ListFilesRecursive` takes the reply as a parameter.
  - `getFileContentFromUrl` is not modelled.
  - `GroqChatPanel.fetchCompletion` and its worker are not modelled.
  - `OpenAIChatClient` is not modelled: it is built on a library whose code is not part of this model.
- Threads and the event bus are not modelled: `Blackboard`, `Delegate.run` and the `SwingWorker`s. The square list and prefix are explicit parameters. `TheNanny`'s calls on the blackboard are returned as a list of `Effect` values.
- The Swing UI is not modelled: `DiagramCanvas` rasterisation, `MetricsPanel`, `RepoTreePanel`, `GridPanel`, the bars and tabs, `AppFrame`, `Main`. These are display code.
- Floating-point formatting and averages are not modelled: `averageMetric`, `formatDouble`, `formatTopInstability` and the metric line of `buildContextMessage`. Instability is an exact `real`, not an IEEE double.
- Metrics.ComputeAll: running it twice is not stated as a lemma. Its ensures make the result a function of the paths and sources, which it never changes.
- `HashMap` and `HashSet` iteration order is not modelled. The peer sets are Dafny sets. `SamplePeers` takes the peers of one square in an order it chooses, so `SampleEdges` and `FormatSampleEdges` state which edges may appear and that the text joins them, not which eight are picked.
- `buildContextMessage` is modelled only through its empty and fall-back logic (`Focus`) and its three list helpers. The assembled text and the logging are left out.
- Java `String` is modelled on Unicode scalar values outside the chat helpers. Surrogate code units cannot occur there. The chat helpers model UTF-16 units (`JChar`), so `\uD800` is representable.
- GroqChat.ParseHex: `Integer.parseInt` also accepts non-ASCII Unicode digits. The model accepts ASCII digits and letters only.
- GroqChat.Unit: a character outside the Basic Multilingual Plane becomes U+FFFD instead of a surrogate pair. Only literal texts go through it.
- GitHubHandler.RepoRefOf: the URL, owner, repo and branch are non-null strings, because `fromUrl` dereferences its argument. A null URL would throw, which is not modelled.
- Delegate.ConvertToBlobUrl: the path is a non-null string. Java would append `null`.
- TheNanny.MatchGitHubUrl: `CASE_INSENSITIVE` without `UNICODE_CASE` folds ASCII letters only, which is what `FoldAscii` does.
- Relationships.FindFieldAssociations, Relationships.FindConstructorDependencies and Relationships.FindInheritance model the `(?m)` line start, `\s` and `\b` on ASCII. Java regex constructs beyond the three patterns are out of scope.
- Diagram.RenderNodes: each `rectangle` line ends in "\n". The source formats it with `%n`, the platform line separator, which is "\r\n" on Windows. The header, the edge lines and the footer use "\n" in the source as well.
- Diagram.FilterByPrefix: the list holds no null element. The source calls `getPath()` on each element and would throw on a null one.
- An empty path (`"path":""`) ends the tree scan. The loop `break`s there, and the model stops there too (`ScanStops`).
