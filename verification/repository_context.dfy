/**
  The helpers the chat panel uses to summarise the loaded repository for the
  chat model: the focus set (a prefix filter with a fall-back to the whole
  list), the largest files, the dependency hubs and a capped sample of
  dependency edges.  The averages and the two-decimal formatting of the
  instability figures are not part of this model.
*/
module RepositoryContext {
  import opened JavaText
  import opened Squares
  import Diagram

  // ---------------------------------------------------------------------
  // filterByPrefix and the focus set
  // ---------------------------------------------------------------------

  /** The entries whose printed, slash-normalised path satisfies the three-way prefix test. */
  function Matching<T>(xs: seq<T>, paths: seq<Option<string>>, prefix: Option<string>): seq<T>
    requires |paths| == |xs|
  {
    if xs == [] then []
    else
      var init := Matching(xs[..|xs| - 1], paths[..|xs| - 1], prefix);
      if Diagram.MatchesPrefix(UnixPath(paths[|xs| - 1]), prefix) then init + [xs[|xs| - 1]] else init
  }

  /** An entry is kept exactly when its path matches; nothing else is added. */
  lemma {:induction false} MatchingMembers<T>(xs: seq<T>, paths: seq<Option<string>>, prefix: Option<string>)
    requires |paths| == |xs|
    ensures |Matching(xs, paths, prefix)| <= |xs|
    ensures forall x | x in Matching(xs, paths, prefix) :: x in xs
    ensures forall x :: x in Matching(xs, paths, prefix) <==>
      exists i | 0 <= i < |xs| :: xs[i] == x && Diagram.MatchesPrefix(UnixPath(paths[i]), prefix)
    decreases |xs|
  {
    if xs != [] {
      var n := |xs| - 1;
      MatchingMembers(xs[..n], paths[..n], prefix);
      forall i | 0 <= i < n ensures xs[..n][i] == xs[i] && paths[..n][i] == paths[i] {
      }
      forall x | x in xs[..n] ensures x in xs {
        var i :| 0 <= i < n && xs[..n][i] == x;
        assert xs[i] == x;
      }
    }
  }

  /**
    `filterByPrefix`: a copy of the whole list for a null or blank prefix,
    otherwise the squares, in order, whose path contains `prefix/`, ends
    with `/prefix` or equals the prefix.  Unlike the diagram's filter there
    is no `.java` test.
  */
  function FilterByPrefix(squares: seq<Square>, prefix: Option<string>): seq<Square>
    reads set sq | sq in squares
  {
    if !Diagram.HasPrefix(prefix) then squares else Matching(squares, Diagram.Paths(squares), prefix)
  }

  /** The filter keeps a square exactly when its path matches (every square for a blank prefix). */
  lemma FilterByPrefixMembers(squares: seq<Square>, prefix: Option<string>)
    ensures |FilterByPrefix(squares, prefix)| <= |squares|
    ensures !Diagram.HasPrefix(prefix) ==> FilterByPrefix(squares, prefix) == squares
    ensures forall sq | sq in FilterByPrefix(squares, prefix) :: sq in squares
    ensures forall sq :: sq in FilterByPrefix(squares, prefix) <==>
      exists i | 0 <= i < |squares| :: squares[i] == sq && Diagram.MatchesPrefix(UnixPath(squares[i].path), prefix)
  {
    if !Diagram.HasPrefix(prefix) {
      forall sq | sq in squares
        ensures exists i | 0 <= i < |squares| :: squares[i] == sq && Diagram.MatchesPrefix(UnixPath(squares[i].path), prefix)
      {
        var i :| 0 <= i < |squares| && squares[i] == sq;
        assert Diagram.MatchesPrefix(UnixPath(squares[i].path), prefix);
      }
    } else {
      var ps := Diagram.Paths(squares);
      MatchingMembers<Square>(squares, ps, prefix);
    }
  }

  /**
    The empty and fall-back logic of `buildContextMessage`: no message for an
    empty list; otherwise the focus is what the prefix filter selects, or
    the whole list when it selects nothing.
  */
  function Focus(squares: seq<Square>, prefix: Option<string>): Option<seq<Square>>
    reads set sq | sq in squares
  {
    if squares == [] then None
    else
      var focused := FilterByPrefix(squares, prefix);
      Some(if focused == [] then squares else focused)
  }

  /** A message exists exactly for a non-empty list, and its focus is never empty. */
  lemma FocusIsNeverEmpty(squares: seq<Square>, prefix: Option<string>)
    ensures Focus(squares, prefix).None? <==> squares == []
    ensures Focus(squares, prefix).Some? ==>
      Focus(squares, prefix).value != [] && forall sq | sq in Focus(squares, prefix).value :: sq in squares
    ensures Focus(squares, prefix).Some? && FilterByPrefix(squares, prefix) != [] ==>
      Focus(squares, prefix).value == FilterByPrefix(squares, prefix)
  {
    FilterByPrefixMembers(squares, prefix);
  }

  // ---------------------------------------------------------------------
  // Stable descending sort, as `sorted(comparingInt(..).reversed())`
  // ---------------------------------------------------------------------

  /** A listed file or hub: its simple name and the figure it is ranked by. */
  datatype Entry = Entry(name: string, key: int)

  predicate Descending(xs: seq<Entry>) {
    forall i, j | 0 <= i < j < |xs| :: xs[i].key >= xs[j].key
  }

  /** Puts `x` before the first entry whose key is not larger, so ties keep their order. */
  function InsertDesc(x: Entry, ys: seq<Entry>): (r: seq<Entry>)
    ensures |r| == |ys| + 1
  {
    if ys == [] || ys[0].key <= x.key then [x] + ys
    else [ys[0]] + InsertDesc(x, ys[1..])
  }

  /** Inserting adds exactly `x` and loses nothing. */
  lemma {:induction false} InsertDescPermutes(x: Entry, ys: seq<Entry>)
    ensures multiset(InsertDesc(x, ys)) == multiset(ys) + multiset{x}
    decreases |ys|
  {
    if !(ys == [] || ys[0].key <= x.key) {
      InsertDescPermutes(x, ys[1..]);
      assert ys == [ys[0]] + ys[1..];
    }
  }

  /** No key above `b` goes in, so none comes out. */
  lemma {:induction false} InsertDescBounded(x: Entry, ys: seq<Entry>, b: int)
    requires x.key <= b && forall i | 0 <= i < |ys| :: ys[i].key <= b
    ensures forall j | 0 <= j < |InsertDesc(x, ys)| :: InsertDesc(x, ys)[j].key <= b
    decreases |ys|
  {
    if !(ys == [] || ys[0].key <= x.key) {
      InsertDescBounded(x, ys[1..], b);
    }
  }

  /** An entry no smaller than every entry of a descending list keeps it descending in front. */
  lemma ConsDescending(y: Entry, tail: seq<Entry>)
    requires Descending(tail) && forall j | 0 <= j < |tail| :: tail[j].key <= y.key
    ensures Descending([y] + tail)
  {
    var s := [y] + tail;
    forall i, j | 0 <= i < j < |s| ensures s[i].key >= s[j].key {
      assert s[j] == tail[j - 1];
      if i > 0 {
        assert s[i] == tail[i - 1];
      }
    }
  }

  lemma {:induction false} InsertDescSorted(x: Entry, ys: seq<Entry>)
    requires Descending(ys)
    ensures Descending(InsertDesc(x, ys))
    decreases |ys|
  {
    if ys == [] || ys[0].key <= x.key {
      ConsDescending(x, ys);
    } else {
      var rest := ys[1..];
      assert Descending(rest);
      InsertDescSorted(x, rest);
      InsertDescBounded(x, rest, ys[0].key);
      ConsDescending(ys[0], InsertDesc(x, rest));
    }
  }

  /** The stable sort by key, largest first. */
  function SortDesc(xs: seq<Entry>): (r: seq<Entry>)
    ensures |r| == |xs|
  {
    if xs == [] then [] else InsertDesc(xs[0], SortDesc(xs[1..]))
  }

  /** The sort is a permutation of its input. */
  lemma {:induction false} SortDescPermutes(xs: seq<Entry>)
    ensures multiset(SortDesc(xs)) == multiset(xs)
    decreases |xs|
  {
    if xs != [] {
      SortDescPermutes(xs[1..]);
      InsertDescPermutes(xs[0], SortDesc(xs[1..]));
      assert xs == [xs[0]] + xs[1..];
    }
  }

  lemma {:induction false} SortDescSorted(xs: seq<Entry>)
    ensures Descending(SortDesc(xs))
    decreases |xs|
  {
    if xs != [] {
      SortDescSorted(xs[1..]);
      InsertDescSorted(xs[0], SortDesc(xs[1..]));
    }
  }

  /** The entries with key `k`, in order. */
  function WithKey(xs: seq<Entry>, k: int): seq<Entry> {
    if xs == [] then [] else (if xs[0].key == k then [xs[0]] else []) + WithKey(xs[1..], k)
  }

  lemma {:induction false} WithKeyAppend(xs: seq<Entry>, ys: seq<Entry>, k: int)
    ensures WithKey(xs + ys, k) == WithKey(xs, k) + WithKey(ys, k)
    decreases |xs|
  {
    if xs != [] {
      var head := if xs[0].key == k then [xs[0]] else [];
      WithKeyAppend(xs[1..], ys, k);
      assert (xs + ys)[0] == xs[0];
      assert (xs + ys)[1..] == xs[1..] + ys;
      assert WithKey(xs + ys, k) == head + WithKey(xs[1..] + ys, k);
      assert WithKey(xs, k) == head + WithKey(xs[1..], k);
    } else {
      assert xs + ys == ys;
    }
  }

  /** The entry `e` put in front contributes itself exactly when its key is `k`. */
  lemma WithKeyCons(e: Entry, rest: seq<Entry>, k: int)
    ensures WithKey([e] + rest, k) == (if e.key == k then [e] else []) + WithKey(rest, k)
  {
    assert ([e] + rest)[0] == e && ([e] + rest)[1..] == rest;
  }

  lemma {:induction false} InsertDescStable(x: Entry, ys: seq<Entry>, k: int)
    ensures WithKey(InsertDesc(x, ys), k) == WithKey([x] + ys, k)
    decreases |ys|
  {
    if !(ys == [] || ys[0].key <= x.key) {
      var y, rest := ys[0], ys[1..];
      var tail := InsertDesc(x, rest);
      assert ys == [y] + rest;
      assert InsertDesc(x, ys) == [y] + tail;
      InsertDescStable(x, rest, k);
      WithKeyCons(y, tail, k);
      WithKeyCons(x, rest, k);
      WithKeyCons(x, ys, k);
      WithKeyCons(y, rest, k);
      // `y` sorts before `x`, so at most one of them has key `k`.
      if y.key == k {
        assert WithKey(InsertDesc(x, ys), k) == [y] + WithKey(rest, k);
      } else if x.key == k {
        assert WithKey(InsertDesc(x, ys), k) == [x] + WithKey(rest, k);
      }
    }
  }

  /** Entries with equal keys come out in the order they went in: the sort is stable. */
  lemma {:induction false} SortDescStable(xs: seq<Entry>, k: int)
    ensures WithKey(SortDesc(xs), k) == WithKey(xs, k)
    decreases |xs|
  {
    if xs != [] {
      SortDescStable(xs[1..], k);
      InsertDescStable(xs[0], SortDesc(xs[1..]), k);
      WithKeyAppend([xs[0]], SortDesc(xs[1..]), k);
      WithKeyAppend([xs[0]], xs[1..], k);
      assert xs == [xs[0]] + xs[1..];
    }
  }

  function Min(a: int, b: int): int {
    if a <= b then a else b
  }

  /** `sorted(...).limit(n)`: the first `n` entries of the stable descending sort. */
  function Top(xs: seq<Entry>, n: nat): seq<Entry> {
    SortDesc(xs)[..Min(n, |xs|)]
  }

  /** In a descending list, whatever follows position `m` is no larger than anything before it. */
  lemma SortedSplit(s: seq<Entry>, m: nat, e: Entry)
    requires Descending(s) && m <= |s|
    requires e in multiset(s[m..])
    ensures forall t | 0 <= t < m :: e.key <= s[t].key
  {
    assert e in s[m..];
    var u :| 0 <= u < |s| - m && s[m..][u] == e;
    assert s[m + u] == e;
  }

  /**
    The listed entries are `min(n, |xs|)` of the given ones, largest first,
    and none left out is larger than any listed one.
  */
  lemma TopIsTop(xs: seq<Entry>, n: nat)
    ensures |Top(xs, n)| == Min(n, |xs|) && |Top(xs, n)| <= n
    ensures Descending(Top(xs, n))
    ensures multiset(Top(xs, n)) <= multiset(xs)
    ensures forall e | e in multiset(xs) - multiset(Top(xs, n)) ::
      forall t | 0 <= t < |Top(xs, n)| :: e.key <= Top(xs, n)[t].key
  {
    var s := SortDesc(xs);
    var m := Min(n, |xs|);
    SortDescSorted(xs);
    SortDescPermutes(xs);
    TopLeavesSmaller(s, m);
  }

  /** Splitting a descending list: the front is part of it, and the rest is no larger than the front. */
  lemma TopLeavesSmaller(s: seq<Entry>, m: nat)
    requires Descending(s) && m <= |s|
    ensures multiset(s[..m]) <= multiset(s)
    ensures forall e | e in multiset(s) - multiset(s[..m]) :: forall t | 0 <= t < m :: e.key <= s[..m][t].key
  {
    assert s == s[..m] + s[m..];
    assert multiset(s) == multiset(s[..m]) + multiset(s[m..]);
    forall e | e in multiset(s) - multiset(s[..m])
      ensures forall t | 0 <= t < m :: e.key <= s[..m][t].key
    {
      SortedSplit(s, m, e);
    }
  }

  // ---------------------------------------------------------------------
  // formatTopFiles and formatTopDependencies
  // ---------------------------------------------------------------------

  /** `name(figure)`. */
  function EntryText(e: Entry): (t: string)
    ensures '(' in t
  {
    var t := e.name + "(" + IntToString(e.key) + ")";
    assert t[|e.name|] == '(';
    t
  }

  function EntryTexts(es: seq<Entry>): (ts: seq<string>)
    ensures |ts| == |es|
    ensures forall i | 0 <= i < |es| :: ts[i] == EntryText(es[i])
  {
    seq(|es|, i requires 0 <= i < |es| => EntryText(es[i]))
  }

  /** The top `n` entries joined by ", ", or `fallback` when that is blank. */
  function TopText(xs: seq<Entry>, n: nat, fallback: string): string {
    var body := Join(EntryTexts(Top(xs, n)), ", ");
    if IsBlank(body) then fallback else body
  }

  /** The fall-back text appears exactly when there is nothing to list (for n > 0). */
  lemma TopTextFallback(xs: seq<Entry>, n: nat, fallback: string)
    requires n > 0 && '(' !in fallback
    ensures TopText(xs, n, fallback) == fallback <==> xs == []
    ensures xs != [] ==> TopText(xs, n, fallback) == Join(EntryTexts(Top(xs, n)), ", ")
  {
    var parts := EntryTexts(Top(xs, n));
    var body := Join(parts, ", ");
    TopIsTop(xs, n);
    if xs != [] {
      JoinStartsWithFirst(parts, ", ");
      var k :| 0 <= k < |parts[0]| && parts[0][k] == '(';
      assert body[k] == '(';
      assert !IsJavaWhitespace(body[k]);
      assert '(' in body;
    }
  }

  /** Each square's simple name and line count, in list order. */
  function SizeEntries(squares: seq<Square>): (es: seq<Entry>)
    reads set sq | sq in squares
    ensures |es| == |squares|
    ensures forall i | 0 <= i < |squares| :: es[i] == Entry(squares[i].SimpleName(), squares[i].linesOfCode)
  {
    seq(|squares|, i requires 0 <= i < |squares| reads squares => Entry(squares[i].SimpleName(), squares[i].linesOfCode))
  }

  /** `formatTopFiles`: the five largest files, largest first, or "n/a". */
  function FormatTopFiles(squares: seq<Square>): string
    reads set sq | sq in squares
  {
    TopText(SizeEntries(squares), 5, "n/a")
  }

  /** Each square's simple name and `getCout`, in list order. */
  function CoutEntries(squares: seq<Square>): (es: seq<Entry>)
    reads set sq | sq in squares
    ensures |es| == |squares|
    ensures forall i | 0 <= i < |squares| :: es[i] == Entry(squares[i].SimpleName(), squares[i].Cout())
  {
    seq(|squares|, i requires 0 <= i < |squares| reads squares => Entry(squares[i].SimpleName(), squares[i].Cout()))
  }

  /** The entries with a positive key, in their order. */
  function Positive(es: seq<Entry>): (r: seq<Entry>)
    ensures forall e | e in r :: e.key > 0 && e in es
  {
    if es == [] then []
    else
      var e := es[|es| - 1];
      var init := Positive(es[..|es| - 1]);
      if e.key > 0 then init + [e] else init
  }

  /** No entry with a positive key is filtered out. */
  lemma {:induction false} PositiveComplete(es: seq<Entry>, i: nat)
    requires i < |es| && es[i].key > 0
    ensures es[i] in Positive(es)
    decreases |es|
  {
    var n := |es| - 1;
    if i < n {
      assert es[..n][i] == es[i];
      PositiveComplete(es[..n], i);
    }
  }

  /** The squares with at least one efferent peer, with their `getCout`, in list order. */
  function HubEntries(squares: seq<Square>): (es: seq<Entry>)
    reads set sq | sq in squares
    ensures forall e | e in es :: e.key > 0
    ensures forall e | e in es :: exists i | 0 <= i < |squares| ::
      e == Entry(squares[i].SimpleName(), squares[i].Cout())
  {
    Positive(CoutEntries(squares))
  }

  /** Every square with a positive `getCout` is a candidate hub. */
  lemma HubEntriesComplete(squares: seq<Square>)
    ensures forall i | 0 <= i < |squares| && squares[i].Cout() > 0 ::
      Entry(squares[i].SimpleName(), squares[i].Cout()) in HubEntries(squares)
  {
    var es := CoutEntries(squares);
    forall i | 0 <= i < |squares| && squares[i].Cout() > 0
      ensures Entry(squares[i].SimpleName(), squares[i].Cout()) in HubEntries(squares)
    {
      PositiveComplete(es, i);
    }
  }

  /** `formatTopDependencies`: up to four squares with `getCout > 0`, most peers first, or "no dependency data". */
  function FormatTopDependencies(squares: seq<Square>): string
    reads set sq | sq in squares
  {
    TopText(HubEntries(squares), 4, "no dependency data")
  }

  /**
    The largest-files line lists `min(5, n)` files, largest first, none left
    out larger than a listed one; it reads "n/a" exactly for an empty list.
  */
  lemma TopFilesListsLargest(squares: seq<Square>)
    ensures FormatTopFiles(squares) == "n/a" <==> squares == []
    ensures squares != [] ==> FormatTopFiles(squares) == Join(EntryTexts(Top(SizeEntries(squares), 5)), ", ")
    ensures |Top(SizeEntries(squares), 5)| == Min(5, |squares|)
  {
    TopTextFallback(SizeEntries(squares), 5, "n/a");
    TopIsTop(SizeEntries(squares), 5);
  }

  /**
    The hubs line lists at most four squares, all with a positive `getCout`,
    most peers first; it reads "no dependency data" exactly when no square
    has an efferent peer.
  */
  lemma TopDependenciesListsHubs(squares: seq<Square>)
    ensures FormatTopDependencies(squares) == "no dependency data" <==>
      forall i | 0 <= i < |squares| :: squares[i].Cout() == 0
    ensures |Top(HubEntries(squares), 4)| <= 4
    ensures forall e | e in Top(HubEntries(squares), 4) :: e.key > 0
  {
    var hubs := HubEntries(squares);
    TopTextFallback(hubs, 4, "no dependency data");
    TopIsTop(hubs, 4);
    HubEntriesComplete(squares);
    forall e | e in Top(hubs, 4) ensures e.key > 0 {
      assert e in multiset(Top(hubs, 4));
      assert e in multiset(hubs);
    }
    if hubs != [] {
      assert hubs[0] in hubs;
    }
  }

  // ---------------------------------------------------------------------
  // formatSampleEdges
  // ---------------------------------------------------------------------

  const MaxSampleEdges: nat := 8

  const NoEdges: string := "no dependency edges captured"

  /** The number of efferent peers of the first `len` squares. */
  function PeerTotal(squares: seq<Square>, len: nat): nat
    requires len <= |squares|
    reads set sq | sq in squares
  {
    if len == 0 then 0 else PeerTotal(squares, len - 1) + |squares[len - 1].efferentPeers|
  }

  /** One sampled edge: the square's index in the list and the peer. */
  datatype Sample = Sample(unit: nat, peer: string)

  /**
    `edges` are `A->B` texts for the samples `picks`: each from a square
    before index `bound` to one of its efferent peers, no sample twice, in
    list order of the squares.
  */
  ghost predicate Sampled(squares: seq<Square>, edges: seq<string>, picks: seq<Sample>, bound: nat)
    reads set sq | sq in squares
  {
    && |picks| == |edges|
    && (forall k | 0 <= k < |edges| ::
          picks[k].unit < bound && picks[k].unit < |squares|
          && picks[k].peer in squares[picks[k].unit].efferentPeers
          && edges[k] == squares[picks[k].unit].SimpleName() + "->" + picks[k].peer)
    && (forall k1, k2 | 0 <= k1 < k2 < |picks| :: picks[k1] != picks[k2] && picks[k1].unit <= picks[k2].unit)
  }

  /**
    The nested loops of `formatSampleEdges`: for each square in turn, one
    `A->B` per efferent peer, stopping at eight.
  */
  method SampleEdges(squares: seq<Square>) returns (edges: seq<string>, ghost picks: seq<Sample>)
    ensures |edges| == Min(MaxSampleEdges, PeerTotal(squares, |squares|))
    ensures Sampled(squares, edges, picks, |squares|)
  {
    edges, picks := [], [];
    var i := 0;
    while i < |squares|
      invariant 0 <= i <= |squares|
      invariant |edges| == PeerTotal(squares, i) < MaxSampleEdges
      invariant Sampled(squares, edges, picks, i)
    {
      edges, picks := SamplePeers(squares, i, edges, picks);
      i := i + 1;
      if |edges| >= MaxSampleEdges {
        PeerTotalGrows(squares, i, |squares|);
        return;
      }
    }
  }

  /**
    The inner loop: the efferent peers of square `i`, appended one by one
    until there are eight edges (the `break` after an append is the loop
    test here, which the first iteration always passes).  The order in which the peers come out of
    the hash set is not specified, so each is chosen arbitrarily among
    those not yet visited.
  */
  method SamplePeers(squares: seq<Square>, i: nat, edges0: seq<string>, ghost picks0: seq<Sample>)
    returns (edges: seq<string>, ghost picks: seq<Sample>)
    requires i < |squares| && |edges0| == PeerTotal(squares, i) < MaxSampleEdges
    requires Sampled(squares, edges0, picks0, i)
    ensures |edges| == Min(MaxSampleEdges, PeerTotal(squares, i + 1))
    ensures Sampled(squares, edges, picks, i + 1)
  {
    edges, picks := edges0, picks0;
    var sq := squares[i];
    var rest := sq.efferentPeers;
    while rest != {} && |edges| < MaxSampleEdges
      invariant rest <= sq.efferentPeers
      invariant |edges| == |edges0| + (|sq.efferentPeers| - |rest|) <= MaxSampleEdges
      invariant Sampled(squares, edges, picks, i + 1)
      invariant forall k | |edges0| <= k < |picks| :: picks[k].unit == i && picks[k].peer !in rest
      invariant forall k | 0 <= k < |edges0| :: picks[k].unit < i
      decreases |rest|
    {
      var dep :| dep in rest;
      edges := edges + [sq.SimpleName() + "->" + dep];
      picks := picks + [Sample(i, dep)];
      rest := rest - {dep};
    }
    assert PeerTotal(squares, i + 1) == |edges0| + |sq.efferentPeers|;
  }

  lemma {:induction false} PeerTotalGrows(squares: seq<Square>, m: nat, len: nat)
    requires m <= len <= |squares|
    ensures PeerTotal(squares, m) <= PeerTotal(squares, len)
    decreases len
  {
    if m < len {
      PeerTotalGrows(squares, m, len - 1);
    }
  }

  /**
    `formatSampleEdges`: the sampled edges joined by ", ", or the fixed text
    when there are none.  The ghost results name the sample the text is
    made of.
  */
  method FormatSampleEdges(squares: seq<Square>) returns (text: string, ghost edges: seq<string>, ghost picks: seq<Sample>)
    ensures |edges| == Min(MaxSampleEdges, PeerTotal(squares, |squares|))
    ensures Sampled(squares, edges, picks, |squares|)
    ensures text == (if edges == [] then NoEdges else Join(edges, ", "))
    ensures text == NoEdges <==> PeerTotal(squares, |squares|) == 0
  {
    var sampled;
    sampled, picks := SampleEdges(squares);
    edges := sampled;
    if sampled == [] {
      return NoEdges, edges, picks;
    }
    text := Join(sampled, ", ");
    JoinStartsWithFirst(sampled, ", ");
    var name := squares[picks[0].unit].SimpleName();
    assert text[|name| + 1] == '>' by {
      assert sampled[0][|name| + 1] == '>';
    }
    assert '>' !in NoEdges;
  }
}
