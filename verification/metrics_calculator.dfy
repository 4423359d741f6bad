/**
  The coupling metrics of the analysed repository: for every `.java` record,
  the peers its stripped source mentions (efferent), the peers that mention it
  (afferent), its instability Ce / (Ca + Ce) and its abstractness (1 for an
  interface or abstract class declaring the file's own name, 0 otherwise).
  `ComputeAll` writes them back into the records.
*/
module Metrics {
  import opened JavaText
  import opened SourceUtils
  import opened Squares

  // ---------------------------------------------------------------------
  // findPeerDeps: the five ways a peer can be mentioned
  // ---------------------------------------------------------------------

  /** `extends\s+PEER\b` at p. */
  predicate ExtendsPeerAt(code: string, peer: string, p: int) {
    LitAt(code, p, "extends")
    && exists j | p + 7 < j <= |code| ::
         SpacesIn(code, p + 7, j) && LitAt(code, j, peer) && Boundary(code, j + |peer|)
  }

  /** `[^;{]*` spans code[j..k]. */
  predicate NoStops(code: string, j: int, k: int) {
    0 <= j <= k <= |code| && forall m | j <= m < k :: code[m] != ';' && code[m] != '{'
  }

  /** `implements\s+[^;{]*\bPEER\b` at p. */
  predicate ImplementsPeerAt(code: string, peer: string, p: int) {
    LitAt(code, p, "implements")
    && exists j, k | p + 10 < j <= k <= |code| ::
         SpacesIn(code, p + 10, j) && NoStops(code, j, k)
         && Boundary(code, k) && LitAt(code, k, peer) && Boundary(code, k + |peer|)
  }

  /** `new\s+PEER\s*\(` at p. */
  predicate NewPeerAt(code: string, peer: string, p: int) {
    LitAt(code, p, "new")
    && exists j | p + 3 < j <= |code| ::
         SpacesIn(code, p + 3, j) && LitAt(code, j, peer)
         && var m := SkipSpaces(code, j + |peer|); m < |code| && code[m] == '('
  }

  /** `[A-Za-z0-9_]*` spans code[i..k]. */
  predicate WordRun(code: string, i: int, k: int) {
    0 <= i <= k <= |code| && forall m | i <= m < k :: IsWordChar(code[m])
  }

  /** `PEER\s+[A-Za-z_][A-Za-z0-9_]*\b` at p: the peer used as a declared type. */
  predicate TypedNameAt(code: string, peer: string, p: int) {
    LitAt(code, p, peer)
    && exists j, k | p + |peer| < j < k <= |code| ::
         SpacesIn(code, p + |peer|, j) && IsIdentStart(code[j])
         && WordRun(code, j + 1, k) && Boundary(code, k)
  }

  /** `PEER\s*\.` at p: a member of the peer is accessed. */
  predicate MemberAccessAt(code: string, peer: string, p: int) {
    LitAt(code, p, peer)
    && var m := SkipSpaces(code, p + |peer|); m < |code| && code[m] == '.'
  }

  /** The whole pattern `\b(...|...|...|...|...)` matches at p. */
  predicate PeerUsageAt(code: string, peer: string, p: int) {
    0 <= p <= |code| && Boundary(code, p)
    && (ExtendsPeerAt(code, peer, p) || ImplementsPeerAt(code, peer, p)
        || NewPeerAt(code, peer, p) || TypedNameAt(code, peer, p)
        || MemberAccessAt(code, peer, p))
  }

  /** `find()`: the pattern matches somewhere in the code. */
  predicate UsesPeer(code: string, peer: string) {
    exists p | 0 <= p <= |code| :: PeerUsageAt(code, peer, p)
  }

  /** What `findPeerDeps` returns: the other peers the code uses. */
  function PeerDeps(self: string, code: string, peers: set<string>): set<string> {
    set q | q in peers && q != self && UsesPeer(code, q)
  }

  /** `findPeerDeps`: a null code is read as "". */
  method FindPeerDeps(self: string, code: Option<string>, peers: set<string>) returns (deps: set<string>)
    ensures deps == PeerDeps(self, if code.None? then "" else code.value, peers)
    ensures deps <= peers && self !in deps
    ensures forall q | q in peers && q != self :: q in deps <==> UsesPeer(if code.None? then "" else code.value, q)
  {
    var text := if code.None? then "" else code.value;
    deps := {};
    var rest := peers;
    while rest != {}
      invariant rest <= peers
      invariant deps == PeerDeps(self, text, peers - rest)
      decreases |rest|
    {
      var peer :| peer in rest;
      if peer != self && UsesPeer(text, peer) {
        deps := deps + {peer};
      }
      rest := rest - {peer};
    }
    assert peers - rest == peers;
  }

  /**
    After an identifier start, the greedy run of word characters always ends on
    a word boundary, so `PEER\s+` followed by any identifier start is a match.
  */
  lemma TypedNameFound(code: string, peer: string, p: int, j: int)
    requires LitAt(code, p, peer)
    requires p + |peer| < j < |code| && SpacesIn(code, p + |peer|, j) && IsIdentStart(code[j])
    ensures TypedNameAt(code, peer, p)
  {
    var k := RunEnd(code, j + 1, IsWordChar);
    assert WordRun(code, j + 1, k);
    assert WordAt(code, k - 1) && !WordAt(code, k);
    assert Boundary(code, k);
  }

  /** Every way of using a peer names it: a peer absent from the code is never a dependency. */
  lemma UsesPeerMentionsPeer(code: string, peer: string)
    requires UsesPeer(code, peer)
    ensures Contains(code, peer)
  {
    var p :| 0 <= p <= |code| && PeerUsageAt(code, peer, p);
    if ExtendsPeerAt(code, peer, p) {
      var j :| p + 7 < j <= |code| && SpacesIn(code, p + 7, j) && LitAt(code, j, peer) && Boundary(code, j + |peer|);
      assert LitAt(code, j, peer);
    } else if ImplementsPeerAt(code, peer, p) {
      var j, k :| p + 10 < j <= k <= |code| && SpacesIn(code, p + 10, j) && NoStops(code, j, k)
                  && Boundary(code, k) && LitAt(code, k, peer) && Boundary(code, k + |peer|);
      assert LitAt(code, k, peer);
    } else if NewPeerAt(code, peer, p) {
      var j :| p + 3 < j <= |code| && SpacesIn(code, p + 3, j) && LitAt(code, j, peer)
               && var m := SkipSpaces(code, j + |peer|); m < |code| && code[m] == '(';
      assert LitAt(code, j, peer);
    } else {
      assert LitAt(code, p, peer);
    }
  }

  /** `new PEER(` after a non-word character makes PEER a dependency. */
  lemma ConstructorCallIsDependency(code: string, p: nat, peer: string, self: string, peers: set<string>)
    requires p + 4 + |peer| < |code|
    requires p == 0 || !IsWordChar(code[p - 1])
    requires code[p..p + 4] == "new " && code[p + 4..p + 4 + |peer|] == peer
    requires code[p + 4 + |peer|] == '('
    requires peer in peers && peer != self
    ensures peer in PeerDeps(self, code, peers)
  {
    assert LitAt(code, p, "new") by {
      assert code[p..p + 3] == code[p..p + 4][..3];
    }
    assert SpacesIn(code, p + 3, p + 4) by {
      assert code[p + 3] == code[p..p + 4][3];
    }
    assert LitAt(code, p + 4, peer);
    SkipSpacesExact(code, p + 4 + |peer|, p + 4 + |peer|);
    assert NewPeerAt(code, peer, p);
    assert Boundary(code, p) by {
      assert code[p] == code[p..p + 4][0];
    }
    assert PeerUsageAt(code, peer, p);
  }

  /** A field or variable declared with the peer's type makes the peer a dependency. */
  lemma DeclaredTypeIsDependency(code: string, p: nat, peer: string, self: string, peers: set<string>)
    requires p + |peer| + 1 < |code| && LitAt(code, p, peer)
    requires Boundary(code, p)
    requires code[p + |peer|] == ' ' && IsIdentStart(code[p + |peer| + 1])
    requires peer in peers && peer != self
    ensures peer in PeerDeps(self, code, peers)
  {
    TypedNameFound(code, peer, p, p + |peer| + 1);
    assert PeerUsageAt(code, peer, p);
  }

  /** Naming a peer after `implements`, anywhere in the list, makes it a dependency. */
  lemma ImplementedPeerIsDependency(code: string, p: nat, k: nat, peer: string, self: string, peers: set<string>)
    requires p + 11 <= k && LitAt(code, k, peer)
    requires p == 0 || !IsWordChar(code[p - 1])
    requires code[p..p + 11] == "implements "
    requires NoStops(code, p + 11, k)
    requires Boundary(code, k) && Boundary(code, k + |peer|)
    requires peer in peers && peer != self
    ensures peer in PeerDeps(self, code, peers)
  {
    assert LitAt(code, p, "implements") by {
      assert code[p..p + 10] == code[p..p + 11][..10];
    }
    assert SpacesIn(code, p + 10, p + 11) by {
      assert code[p + 10] == code[p..p + 11][10];
    }
    assert ImplementsPeerAt(code, peer, p);
    assert Boundary(code, p) by {
      assert code[p] == code[p..p + 11][0];
    }
    assert PeerUsageAt(code, peer, p);
  }

  // ---------------------------------------------------------------------
  // The two metrics
  // ---------------------------------------------------------------------

  /** Ce / (Ca + Ce), with 0 for a unit that has no coupling at all. */
  function Instability(ce: nat, ca: nat): (r: real)
    ensures 0.0 <= r <= 1.0
    ensures r == 0.0 <==> ce == 0
    ensures r == 1.0 <==> ce > 0 && ca == 0
  {
    if ca + ce == 0 then 0.0 else ce as real / (ca + ce) as real
  }

  /** 1 when the code declares NAME as an interface or an abstract class. */
  function Abstractness(code: string, name: string): real {
    if InterfaceDeclared(code, name) || AbstractClassDeclared(code, name) then 1.0 else 0.0
  }

  /**
    For a non-blank name the abstractness test is the declaration test of the
    shared helpers, applied to the raw source.
  */
  lemma AbstractnessAgreesWithDeclarations(src: string, name: string)
    requires !IsBlank(name)
    ensures Abstractness(StripCommentsAndStrings(Some(src)), name) == 1.0
            <==> DeclaresInterface(Some(name), Some(src)) || DeclaresAbstractClass(Some(name), Some(src))
    ensures Abstractness(StripCommentsAndStrings(Some(src)), name) in {0.0, 1.0}
  {
  }

  // ---------------------------------------------------------------------
  // computeAll: what it reads of the list
  // ---------------------------------------------------------------------

  /**
    The fields of a list entry that `computeAll` never writes: its path, size
    and source (it reads the path and the source).
  */
  datatype Entry = Entry(path: Option<string>, linesOfCode: int, source: string)

  function EntryOf(sq: Square?): (e: Option<Entry>)
    reads sq
    ensures e.None? <==> sq == null
  {
    if sq == null then None else Some(Entry(sq.path, sq.linesOfCode, sq.source))
  }

  function Entries(squares: seq<Square?>): (es: seq<Option<Entry>>)
    reads squares
    ensures |es| == |squares|
    ensures forall i | 0 <= i < |squares| :: es[i] == EntryOf(squares[i])
  {
    if squares == [] then [] else Entries(squares[..|squares| - 1]) + [EntryOf(squares[|squares| - 1])]
  }

  /**
    How `computeAll` reads an entry: whether its printed path ends in ".java",
    the simple name of that path, and the source with comments and literals
    stripped.
  */
  datatype UnitRecord = UnitRecord(isJava: bool, name: string, code: string)

  function Classify(e: Option<Entry>): (r: Option<UnitRecord>)
    ensures r.None? <==> e.None?
  {
    match e
    case None => None
    case Some(entry) =>
      var path := UnixPath(entry.path);
      Some(UnitRecord(HasJavaSuffix(path), SimpleName(Some(path)), StripCommentsAndStrings(Some(entry.source))))
  }

  /** The whole list, classified entry by entry. */
  function Records(es: seq<Option<Entry>>): (rs: seq<Option<UnitRecord>>)
    ensures |rs| == |es|
  {
    if es == [] then [] else Records(es[..|es| - 1]) + [Classify(es[|es| - 1])]
  }

  lemma {:induction false} RecordAt(es: seq<Option<Entry>>, i: nat)
    requires i < |es|
    ensures Records(es)[i] == Classify(es[i])
    decreases |es|
  {
    if i < |es| - 1 {
      RecordAt(es[..|es| - 1], i);
    }
  }

  /** A non-null record of a `.java` path; the others are skipped. */
  predicate IsJavaUnit(r: Option<UnitRecord>) {
    r.Some? && r.value.isJava
  }

  /**
    `byName` after the first `len` records: for each simple name, the position
    of the last Java record with that name (a later `put` replaces an earlier one).
  */
  function LastIndexOf(rs: seq<Option<UnitRecord>>, len: nat): (m: map<string, nat>)
    requires len <= |rs|
    ensures forall n | n in m :: m[n] < len && IsJavaUnit(rs[m[n]]) && rs[m[n]].value.name == n
    ensures forall i | 0 <= i < len && IsJavaUnit(rs[i]) ::
      rs[i].value.name in m && i <= m[rs[i].value.name]
  {
    if len == 0 then map[]
    else
      var m := LastIndexOf(rs, len - 1);
      var r := rs[len - 1];
      if IsJavaUnit(r) then m[r.value.name := len - 1] else m
  }

  /** `byName` once the whole list has been read. */
  function LastIndex(rs: seq<Option<UnitRecord>>): map<string, nat> {
    LastIndexOf(rs, |rs|)
  }

  /** The stripped source kept for a name: that of its last record. */
  function CodeOf(rs: seq<Option<UnitRecord>>, n: string): string
    requires n in LastIndex(rs)
  {
    rs[LastIndex(rs)[n]].value.code
  }

  /** The peers unit n depends on. */
  function Efferent(rs: seq<Option<UnitRecord>>, n: string): set<string>
    requires n in LastIndex(rs)
  {
    PeerDeps(n, CodeOf(rs, n), LastIndex(rs).Keys)
  }

  /** The peers that depend on unit n. */
  function Afferent(rs: seq<Option<UnitRecord>>, n: string): set<string> {
    set a | a in LastIndex(rs) && n in Efferent(rs, a)
  }

  /** The dependency relation seen from both ends: Ca is the inverse of Ce. */
  lemma AfferentIsInverseOfEfferent(rs: seq<Option<UnitRecord>>, a: string, b: string)
    requires a in LastIndex(rs) && b in LastIndex(rs)
    ensures a in Afferent(rs, b) <==> b in Efferent(rs, a)
    ensures Efferent(rs, a) <= LastIndex(rs).Keys && a !in Efferent(rs, a)
    ensures Afferent(rs, a) <= LastIndex(rs).Keys && a !in Afferent(rs, a)
  {
  }

  /** The metrics written into a kept record. */
  predicate Carries(sq: Square, name: string, code: string, eff: set<string>, aff: set<string>)
    reads sq
  {
    sq.abstractness == Some(Abstractness(code, name))
    && sq.efferentPeers == eff && sq.afferentPeers == aff
    && sq.instability == Some(Instability(|eff|, |aff|))
  }

  /** The metrics `computeAll` leaves on the record it keeps for name n. */
  predicate Measured(sq: Square, rs: seq<Option<UnitRecord>>, n: string)
    requires n in LastIndex(rs)
    reads sq
  {
    Carries(sq, n, CodeOf(rs, n), Efferent(rs, n), Afferent(rs, n))
  }

  /** The fields of a record that `computeAll` writes. */
  datatype Reading = Reading(instability: Option<real>, abstractness: Option<real>,
                             efferent: set<string>, afferent: set<string>)

  function ReadingOf(sq: Square): Reading
    reads sq`instability, sq`abstractness, sq`efferentPeers, sq`afferentPeers
  {
    Reading(sq.instability, sq.abstractness, sq.efferentPeers, sq.afferentPeers)
  }

  // ---------------------------------------------------------------------
  // computeAll
  // ---------------------------------------------------------------------

  /** The records `byName` holds after the first `len` entries. */
  function ByName(rs: seq<Option<UnitRecord>>, squares: seq<Square?>, len: nat): map<string, Square?>
    requires len <= |rs| && len <= |squares|
  {
    if len == 0 then map[]
    else
      var m := ByName(rs, squares, len - 1);
      var r := rs[len - 1];
      if IsJavaUnit(r) then m[r.value.name := squares[len - 1]] else m
  }

  /** `strippedSource` after the first `len` entries. */
  function StrippedOf(rs: seq<Option<UnitRecord>>, len: nat): map<string, string>
    requires len <= |rs|
  {
    if len == 0 then map[]
    else
      var m := StrippedOf(rs, len - 1);
      var r := rs[len - 1];
      if IsJavaUnit(r) then m[r.value.name := r.value.code] else m
  }

  /** `byName` holds, for every simple name, the record of the last `.java` entry with that name. */
  lemma {:induction false} ByNameKeepsLast(rs: seq<Option<UnitRecord>>, squares: seq<Square?>, len: nat)
    requires len <= |rs| && len <= |squares|
    ensures ByName(rs, squares, len).Keys == LastIndexOf(rs, len).Keys
    ensures forall n | n in LastIndexOf(rs, len) :: ByName(rs, squares, len)[n] == squares[LastIndexOf(rs, len)[n]]
    decreases len
  {
    if len > 0 {
      ByNameKeepsLast(rs, squares, len - 1);
    }
  }

  /** `strippedSource` holds, for every simple name, the code of the last `.java` entry with that name. */
  lemma {:induction false} StrippedKeepsLast(rs: seq<Option<UnitRecord>>, len: nat)
    requires len <= |rs|
    ensures StrippedOf(rs, len).Keys == LastIndexOf(rs, len).Keys
    ensures forall n | n in LastIndexOf(rs, len) :: StrippedOf(rs, len)[n] == rs[LastIndexOf(rs, len)[n]].value.code
    decreases len
  {
    if len > 0 {
      StrippedKeepsLast(rs, len - 1);
    }
  }

  /** The records among `squares` whose entries are `.java` files. */
  function JavaObjects(squares: seq<Square?>, rs: seq<Option<UnitRecord>>): set<Square>
    requires |rs| == |squares|
  {
    set k | 0 <= k < |squares| && squares[k] != null && IsJavaUnit(rs[k]) :: squares[k]
  }

  /** A record listed twice is read twice alike. */
  lemma JavaObjectsAgree(squares: seq<Square?>, es: seq<Option<Entry>>)
    requires es == Entries(squares)
    ensures forall k | 0 <= k < |squares| && squares[k] != null ::
      squares[k] in JavaObjects(squares, Records(es)) <==> IsJavaUnit(Records(es)[k])
  {
    var rs := Records(es);
    forall k | 0 <= k < |squares| && squares[k] != null
      ensures squares[k] in JavaObjects(squares, rs) <==> IsJavaUnit(rs[k])
    {
      if squares[k] in JavaObjects(squares, rs) {
        var j :| 0 <= j < |squares| && squares[j] != null && IsJavaUnit(rs[j]) && squares[j] == squares[k];
        RecordAt(es, j);
        RecordAt(es, k);
      }
    }
  }

  /** The readings of the whole list, null entries as `None`. */
  function Readings(squares: seq<Square?>): (ms: seq<Option<Reading>>)
    reads squares
    ensures |ms| == |squares|
    ensures forall i | 0 <= i < |squares| ::
      ms[i] == if squares[i] == null then None else Some(ReadingOf(squares[i]))
  {
    if squares == [] then []
    else
      var sq := squares[|squares| - 1];
      Readings(squares[..|squares| - 1]) + [if sq == null then None else Some(ReadingOf(sq))]
  }

  /** No entry of the list has changed since `es` was read. */
  predicate EntriesAre(squares: seq<Square?>, es: seq<Option<Entry>>)
    requires |es| == |squares|
    reads squares
  {
    forall k | 0 <= k < |squares| :: EntryOf(squares[k]) == es[k]
  }

  /** Every Java record among the first `i` entries is reset. */
  predicate ResetUpTo(squares: seq<Square?>, rs: seq<Option<UnitRecord>>, i: nat)
    requires |rs| == |squares| && i <= |squares|
    reads squares
  {
    forall k | 0 <= k < i && squares[k] != null && IsJavaUnit(rs[k]) :: squares[k].IsReset()
  }

  /** The records that are not Java units still hold the readings `before`. */
  predicate OthersAsBefore(squares: seq<Square?>, rs: seq<Option<UnitRecord>>, before: seq<Option<Reading>>)
    requires |rs| == |squares| == |before|
    reads squares
  {
    forall k | 0 <= k < |squares| && squares[k] != null && !IsJavaUnit(rs[k]) ::
      before[k] == Some(ReadingOf(squares[k]))
  }

  /** `resetMetrics` on the Java record at position i. */
  method ResetUnit(squares: seq<Square?>, i: nat, ghost es: seq<Option<Entry>>, ghost rs: seq<Option<UnitRecord>>,
                   ghost before: seq<Option<Reading>>, ghost javaObjs: set<Square>)
    requires i < |squares| == |es| == |rs| == |before| && squares[i] != null && IsJavaUnit(rs[i])
    requires forall k | 0 <= k < |squares| && squares[k] != null :: squares[k] in javaObjs <==> IsJavaUnit(rs[k])
    requires EntriesAre(squares, es) && ResetUpTo(squares, rs, i) && OthersAsBefore(squares, rs, before)
    modifies squares[i]
    ensures EntriesAre(squares, es) && ResetUpTo(squares, rs, i + 1) && OthersAsBefore(squares, rs, before)
  {
    var square := squares[i];
    square.ResetMetrics();
    forall k | 0 <= k < |squares| && squares[k] != null && squares[k] != square
      ensures EntryOf(squares[k]) == old(EntryOf(squares[k]))
      ensures squares[k].IsReset() == old(squares[k].IsReset())
      ensures ReadingOf(squares[k]) == old(ReadingOf(squares[k]))
    {
    }
    assert forall k | 0 <= k < |squares| && squares[k] != null && !IsJavaUnit(rs[k]) :: squares[k] != square;
  }

  /**
    How the first loop reads one record: the printed path with backslashes
    turned into slashes must end in ".java"; then its simple name and its
    stripped source.
  */
  method ReadEntry(square: Square) returns (isJava: bool, name: string, code: string)
    ensures isJava == Classify(EntryOf(square)).value.isJava
    ensures isJava ==> name == Classify(EntryOf(square)).value.name
    ensures isJava ==> code == Classify(EntryOf(square)).value.code
  {
    var path := ReplaceChar(ValueOf(square.path), '\\', '/');
    JavaSuffix(path);
    isJava := EndsWith(path, ".java");
    name, code := "", "";
    if isJava {
      name := SimpleName(Some(path));
      code := StripCommentsAndStrings(Some(square.source));
    }
  }

  /** An entry the first loop skips leaves the reset records as they were. */
  lemma SkipPreservesReset(squares: seq<Square?>, rs: seq<Option<UnitRecord>>, i: nat)
    requires i < |squares| == |rs| && ResetUpTo(squares, rs, i)
    requires squares[i] == null || !IsJavaUnit(rs[i])
    ensures ResetUpTo(squares, rs, i + 1)
  {
  }

  /** The body of the first loop, for the entry at position i. */
  method ReadSquare(squares: seq<Square?>, i: nat, ghost es: seq<Option<Entry>>, ghost rs: seq<Option<UnitRecord>>,
                    ghost before: seq<Option<Reading>>, ghost javaObjs: set<Square>,
                    byName: map<string, Square?>, peerNames: set<string>, stripped: map<string, string>)
    returns (byName': map<string, Square?>, peerNames': set<string>, stripped': map<string, string>)
    requires i < |squares| == |es| == |before| && rs == Records(es)
    requires forall k | 0 <= k < |squares| && squares[k] != null :: squares[k] in javaObjs <==> IsJavaUnit(rs[k])
    requires EntriesAre(squares, es) && ResetUpTo(squares, rs, i) && OthersAsBefore(squares, rs, before)
    requires byName == ByName(rs, squares, i)
    requires peerNames == LastIndexOf(rs, i).Keys
    requires stripped == StrippedOf(rs, i)
    modifies if squares[i] == null then {} else {squares[i]}
    ensures EntriesAre(squares, es)
    ensures ResetUpTo(squares, rs, i + 1)
    ensures OthersAsBefore(squares, rs, before)
    ensures byName' == ByName(rs, squares, i + 1)
    ensures peerNames' == LastIndexOf(rs, i + 1).Keys
    ensures stripped' == StrippedOf(rs, i + 1)
  {
    RecordAt(es, i);
    byName', peerNames', stripped' := byName, peerNames, stripped;
    var square := squares[i];
    if square != null {
      assert rs[i] == Classify(EntryOf(square));
      var isJava, name, code := ReadEntry(square);
      if isJava {
        byName' := byName[name := square];
        peerNames' := peerNames + {name};
        stripped' := stripped[name := code];
        ResetUnit(squares, i, es, rs, before, javaObjs);
      } else {
        SkipPreservesReset(squares, rs, i);
      }
    } else {
      SkipPreservesReset(squares, rs, i);
    }
  }

  /**
    The first loop of `computeAll`: index the Java records by simple name
    (last one wins), keep their stripped sources, and reset their metrics;
    other records are not touched.
  */
  method CollectUnits(squares: seq<Square?>)
    returns (byName: map<string, Square?>, peerNames: set<string>, stripped: map<string, string>)
    modifies squares
    ensures byName == ByName(Records(old(Entries(squares))), squares, |squares|)
    ensures peerNames == LastIndex(Records(old(Entries(squares)))).Keys
    ensures stripped == StrippedOf(Records(old(Entries(squares))), |squares|)
    ensures forall k | 0 <= k < |squares| :: EntryOf(squares[k]) == old(EntryOf(squares[k]))
    ensures forall k | 0 <= k < |squares| && squares[k] != null ::
      if IsJavaUnit(Records(old(Entries(squares)))[k]) then squares[k].IsReset()
      else ReadingOf(squares[k]) == old(ReadingOf(squares[k]))
  {
    ghost var es := Entries(squares);
    ghost var rs := Records(es);
    ghost var before := Readings(squares);
    ghost var javaObjs := JavaObjects(squares, rs);
    JavaObjectsAgree(squares, es);
    byName := map[];
    peerNames := {};
    stripped := map[];
    for i := 0 to |squares|
      invariant byName == ByName(rs, squares, i)
      invariant peerNames == LastIndexOf(rs, i).Keys
      invariant stripped == StrippedOf(rs, i)
      invariant EntriesAre(squares, es) && ResetUpTo(squares, rs, i) && OthersAsBefore(squares, rs, before)
    {
      byName, peerNames, stripped := ReadSquare(squares, i, es, rs, before, javaObjs, byName, peerNames, stripped);
    }
  }

  /** The second loop: each unit's efferent peers, from its stripped source. */
  method EfferentMap(stripped: map<string, string>, peerNames: set<string>)
    returns (efferent: map<string, set<string>>)
    ensures efferent.Keys == stripped.Keys
    ensures forall me | me in efferent :: efferent[me] == PeerDeps(me, stripped[me], peerNames)
  {
    efferent := map[];
    var rest := stripped.Keys;
    while rest != {}
      invariant rest <= stripped.Keys
      invariant efferent.Keys == stripped.Keys - rest
      invariant forall me | me in efferent :: efferent[me] == PeerDeps(me, stripped[me], peerNames)
      decreases |rest|
    {
      var me :| me in rest;
      var deps := FindPeerDeps(me, Some(stripped[me]), peerNames);
      efferent := efferent[me := deps];
      rest := rest - {me};
    }
  }

  /** The third loop: every peer starts with no dependents. */
  method EmptyAfferentMap(peerNames: set<string>) returns (afferent: map<string, set<string>>)
    ensures afferent.Keys == peerNames
    ensures forall q | q in afferent :: afferent[q] == {}
  {
    afferent := map[];
    var pending := peerNames;
    while pending != {}
      invariant pending <= peerNames
      invariant afferent.Keys == peerNames - pending
      invariant forall q | q in afferent :: afferent[q] == {}
      decreases |pending|
    {
      var peer :| peer in pending;
      afferent := afferent[peer := {}];
      pending := pending - {peer};
    }
  }

  /** The inner loop of the fourth: `me` becomes a dependent of each of its dependencies. */
  method AddDependent(afferent: map<string, set<string>>, me: string, deps: set<string>)
    returns (r: map<string, set<string>>)
    requires deps <= afferent.Keys
    ensures r.Keys == afferent.Keys
    ensures forall q, m {:trigger m in r[q]} | q in r :: m in r[q] <==> m in afferent[q] || (m == me && q in deps)
  {
    r := afferent;
    var todo := deps;
    while todo != {}
      invariant todo <= deps
      invariant r.Keys == afferent.Keys
      invariant forall q, m {:trigger m in r[q]} | q in r ::
        m in r[q] <==> m in afferent[q] || (m == me && q in deps && q !in todo)
      decreases |todo|
    {
      var dep :| dep in todo;
      r := r[dep := r[dep] + {me}];
      todo := todo - {dep};
    }
  }

  /** The third and fourth loops: invert the efferent map. */
  method AfferentMap(peerNames: set<string>, efferent: map<string, set<string>>)
    returns (afferent: map<string, set<string>>)
    requires forall me | me in efferent :: efferent[me] <= peerNames
    ensures afferent.Keys == peerNames
    ensures forall q | q in afferent :: afferent[q] == (set me | me in efferent && q in efferent[me])
  {
    afferent := EmptyAfferentMap(peerNames);
    var rest := efferent.Keys;
    ghost var done: set<string> := {};
    while rest != {}
      invariant rest <= efferent.Keys && done == efferent.Keys - rest
      invariant afferent.Keys == peerNames
      invariant forall q, m {:trigger m in afferent[q]} | q in afferent ::
        m in afferent[q] <==> m in done && q in efferent[m]
      decreases |rest|
    {
      var me :| me in rest;
      afferent := AddDependent(afferent, me, efferent[me]);
      rest := rest - {me};
      done := done + {me};
    }
    InverseByMembership(afferent, efferent);
  }

  lemma InverseByMembership(afferent: map<string, set<string>>, efferent: map<string, set<string>>)
    requires forall q, m {:trigger m in afferent[q]} | q in afferent ::
      m in afferent[q] <==> m in efferent && q in efferent[m]
    ensures forall q | q in afferent :: afferent[q] == (set me | me in efferent && q in efferent[me])
  {
    forall q | q in afferent
      ensures afferent[q] == (set me | me in efferent && q in efferent[me])
    {
      var inv := set me | me in efferent && q in efferent[me];
      assert forall m :: m in afferent[q] <==> m in inv;
    }
  }

  /** The body of the last loop, for one kept record. */
  method Measure(square: Square, name: string, code: string, eff: set<string>, aff: set<string>)
    modifies square
    ensures EntryOf(square) == old(EntryOf(square))
    ensures Carries(square, name, code, eff, aff)
  {
    var isInterface := InterfaceDeclared(code, name);
    var isAbstractClass := AbstractClassDeclared(code, name);
    square.SetAbstractness(Some(if isInterface || isAbstractClass then 1.0 else 0.0));
    square.SetEfferentPeers(Some(eff));
    square.SetAfferentPeers(Some(aff));
    var ce := |eff|;
    var ca := |aff|;
    square.SetInstability(Some(if ca + ce == 0 then 0.0 else ce as real / (ca + ce) as real));
  }

  /** `getOrDefault` on the maps of the last loop. */
  function Lookup<T>(m: map<string, T>, key: string, default: T): T {
    if key in m then m[key] else default
  }

  /**
    The last loop: for each peer name whose record is known, write
    abstractness, peers and instability into that record.
  */
  method ApplyMetrics(peerNames: set<string>, byName: map<string, Square?>, stripped: map<string, string>,
                      efferent: map<string, set<string>>, afferent: map<string, set<string>>)
    requires forall n, m | n in byName && m in byName && n != m && byName[n] != null :: byName[n] != byName[m]
    modifies byName.Values
    ensures forall n | n in byName && byName[n] != null :: EntryOf(byName[n]) == old(EntryOf(byName[n]))
    ensures forall n | n in byName && byName[n] != null ::
      if n in peerNames then
        Carries(byName[n], n, Lookup(stripped, n, ""), Lookup(efferent, n, {}), Lookup(afferent, n, {}))
      else unchanged(byName[n])
  {
    var rest := peerNames;
    while rest != {}
      invariant rest <= peerNames
      invariant forall n | n in byName && byName[n] != null :: EntryOf(byName[n]) == old(EntryOf(byName[n]))
      invariant forall n | n in byName && byName[n] != null ::
        if n in peerNames - rest then
          Carries(byName[n], n, Lookup(stripped, n, ""), Lookup(efferent, n, {}), Lookup(afferent, n, {}))
        else unchanged(byName[n])
      decreases |rest|
    {
      var name :| name in rest;
      var square := if name in byName then byName[name] else null;
      if square != null {
        Measure(square, name, Lookup(stripped, name, ""), Lookup(efferent, name, {}), Lookup(afferent, name, {}));
      }
      rest := rest - {name};
    }
  }

  /**
    The same record object listed at two positions has the same path, hence
    the same simple name: the record kept for a name is the record of no
    other name, and it is a Java record with that name wherever it is listed.
  */
  lemma KeptRecords(squares: seq<Square?>, es: seq<Option<Entry>>)
    requires es == Entries(squares)
    ensures forall k, n | 0 <= k < |squares| && squares[k] != null && n in LastIndex(Records(es))
                          && squares[k] == squares[LastIndex(Records(es))[n]] ::
      IsJavaUnit(Records(es)[k]) && Records(es)[k].value.name == n
  {
    var rs := Records(es);
    var last := LastIndex(rs);
    forall k, n | 0 <= k < |squares| && squares[k] != null && n in last && squares[k] == squares[last[n]]
      ensures IsJavaUnit(rs[k]) && rs[k].value.name == n
    {
      RecordAt(es, k);
      RecordAt(es, last[n]);
    }
  }

  /**
    The second and third loops of `computeAll`: the efferent and afferent
    peers of every name, as the records `rs` define them.
  */
  method DependencyMaps(ghost rs: seq<Option<UnitRecord>>, peerNames: set<string>, stripped: map<string, string>)
    returns (efferent: map<string, set<string>>, afferent: map<string, set<string>>)
    requires peerNames == LastIndex(rs).Keys
    requires stripped == StrippedOf(rs, |rs|)
    ensures forall n | n in LastIndex(rs) ::
      n in efferent && efferent[n] == Efferent(rs, n) && n in afferent && afferent[n] == Afferent(rs, n)
  {
    StrippedKeepsLast(rs, |rs|);
    efferent := EfferentMap(stripped, peerNames);
    afferent := AfferentMap(peerNames, efferent);
  }

  /** The records `byName` holds are distinct, and are exactly the kept ones. */
  lemma KeptValues(squares: seq<Square?>, rs: seq<Option<UnitRecord>>)
    requires |rs| == |squares|
    requires forall k, n | 0 <= k < |squares| && squares[k] != null && n in LastIndex(rs)
                           && squares[k] == squares[LastIndex(rs)[n]] ::
      IsJavaUnit(rs[k]) && rs[k].value.name == n
    ensures forall n, m | n in ByName(rs, squares, |squares|) && m in ByName(rs, squares, |squares|) && n != m
                          && ByName(rs, squares, |squares|)[n] != null ::
      ByName(rs, squares, |squares|)[n] != ByName(rs, squares, |squares|)[m]
    ensures forall k | 0 <= k < |squares| && squares[k] != null ::
      squares[k] in ByName(rs, squares, |squares|).Values
      <==> IsJavaUnit(rs[k]) && squares[k] == squares[LastIndex(rs)[rs[k].value.name]]
  {
    var byName := ByName(rs, squares, |squares|);
    var last := LastIndex(rs);
    ByNameKeepsLast(rs, squares, |squares|);
    forall n, m | n in byName && m in byName && n != m && byName[n] != null
      ensures byName[n] != byName[m]
    {
      assert byName[m] == squares[last[m]] && byName[n] == squares[last[n]];
    }
    forall k | 0 <= k < |squares| && squares[k] != null
      ensures squares[k] in byName.Values <==> IsJavaUnit(rs[k]) && squares[k] == squares[last[rs[k].value.name]]
    {
      if squares[k] in byName.Values {
        var n :| n in byName && byName[n] == squares[k];
      }
    }
  }

  /**
    The last three loops of `computeAll`, once the first has read the records
    `rs`: the record kept for each name receives the metrics of that name, and
    no other record changes.
  */
  method MeasureUnits(squares: seq<Square?>, ghost rs: seq<Option<UnitRecord>>, byName: map<string, Square?>,
                      peerNames: set<string>, stripped: map<string, string>)
    requires |rs| == |squares|
    requires byName == ByName(rs, squares, |squares|)
    requires peerNames == LastIndex(rs).Keys
    requires stripped == StrippedOf(rs, |squares|)
    requires forall k, n | 0 <= k < |squares| && squares[k] != null && n in LastIndex(rs)
                           && squares[k] == squares[LastIndex(rs)[n]] ::
      IsJavaUnit(rs[k]) && rs[k].value.name == n
    modifies squares
    ensures forall k | 0 <= k < |squares| :: EntryOf(squares[k]) == old(EntryOf(squares[k]))
    ensures forall k | 0 <= k < |squares| && squares[k] != null ::
      if IsJavaUnit(rs[k]) && squares[k] == squares[LastIndex(rs)[rs[k].value.name]]
      then Measured(squares[k], rs, rs[k].value.name)
      else ReadingOf(squares[k]) == old(ReadingOf(squares[k]))
  {
    ByNameKeepsLast(rs, squares, |squares|);
    StrippedKeepsLast(rs, |squares|);
    KeptValues(squares, rs);
    var efferent, afferent := DependencyMaps(rs, peerNames, stripped);
    ApplyMetrics(peerNames, byName, stripped, efferent, afferent);
  }

  /**
    `computeAll`: no path, size or source changes; records that are null or
    not `.java` files are not touched; the record kept for a simple name (the
    last `.java` record with that name) receives the metrics of that name;
    every other `.java` record is left reset.
  */
  method ComputeAll(squares: seq<Square?>)
    modifies squares
    ensures forall k | 0 <= k < |squares| :: EntryOf(squares[k]) == old(EntryOf(squares[k]))
    ensures forall k | 0 <= k < |squares| && squares[k] != null ::
      var rs := Records(old(Entries(squares)));
      if !IsJavaUnit(rs[k]) then ReadingOf(squares[k]) == old(ReadingOf(squares[k]))
      else if squares[k] == squares[LastIndex(rs)[rs[k].value.name]] then Measured(squares[k], rs, rs[k].value.name)
      else squares[k].IsReset()
  {
    if squares == [] {
      return;
    }
    ghost var es := Entries(squares);
    ghost var rs := Records(es);
    KeptRecords(squares, es);
    var byName, peerNames, stripped := CollectUnits(squares);
    MeasureUnits(squares, rs, byName, peerNames, stripped);
  }
}
