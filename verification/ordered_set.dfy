/**
  Insertion-ordered sets (the `LinkedHashSet` the analyser collects its edges
  in), represented by a sequence without duplicates.  `Insert` is `add`,
  `AddAll` is `addAll` over a sequence of candidates.
*/
module OrderedSets {

  predicate NoDup<T(==)>(s: seq<T>) {
    forall i, j | 0 <= i < j < |s| :: s[i] != s[j]
  }

  /** `add`: appends `x` unless it is already present. */
  function Insert<T(==)>(s: seq<T>, x: T): (r: seq<T>)
    ensures x in r
    ensures forall y | y in r :: y in s || y == x
    ensures forall y | y in s :: y in r
    ensures NoDup(s) ==> NoDup(r)
  {
    if x in s then s else s + [x]
  }

  /** `addAll`: inserts the candidates one after another. */
  function AddAll<T(==)>(s: seq<T>, xs: seq<T>): seq<T>
  {
    if xs == [] then s else Insert(AddAll(s, xs[..|xs| - 1]), xs[|xs| - 1])
  }

  /** The collection started from nothing. */
  function Dedup<T(==)>(xs: seq<T>): seq<T> {
    AddAll([], xs)
  }

  lemma AddAllSnoc<T>(s: seq<T>, xs: seq<T>, x: T)
    ensures AddAll(s, xs + [x]) == Insert(AddAll(s, xs), x)
  {
    assert (xs + [x])[..|xs|] == xs;
  }

  /** The elements are exactly those already there and the candidates. */
  lemma {:induction false} AddAllElements<T>(s: seq<T>, xs: seq<T>)
    ensures forall y :: y in AddAll(s, xs) <==> y in s || y in xs
    decreases |xs|
  {
    if xs != [] {
      var init := xs[..|xs| - 1];
      AddAllElements(s, init);
      assert xs == init + [xs[|xs| - 1]];
      forall y ensures y in xs <==> y in init || y == xs[|xs| - 1] {
        if y in xs {
          var k :| 0 <= k < |xs| && xs[k] == y;
          if k < |xs| - 1 {
            assert init[k] == y;
          }
        }
      }
    }
  }

  /** Each element is held at most once. */
  lemma {:induction false} AddAllNoDup<T>(s: seq<T>, xs: seq<T>)
    requires NoDup(s)
    ensures NoDup(AddAll(s, xs))
    decreases |xs|
  {
    if xs != [] {
      AddAllNoDup(s, xs[..|xs| - 1]);
    }
  }

  /** Elements already collected keep their positions: insertion only appends. */
  lemma {:induction false} AddAllKeepsPrefix<T>(s: seq<T>, xs: seq<T>)
    ensures |AddAll(s, xs)| >= |s| && AddAll(s, xs)[..|s|] == s
    decreases |xs|
  {
    if xs != [] {
      AddAllKeepsPrefix(s, xs[..|xs| - 1]);
    }
  }

  /** Inserting candidates in two batches is inserting them all at once. */
  lemma {:induction false} AddAllAppend<T>(s: seq<T>, xs: seq<T>, ys: seq<T>)
    ensures AddAll(s, xs + ys) == AddAll(AddAll(s, xs), ys)
    decreases |ys|
  {
    if ys == [] {
      assert xs + ys == xs;
    } else {
      var init := ys[..|ys| - 1];
      var last := ys[|ys| - 1];
      assert xs + ys == (xs + init) + [last];
      AddAllSnoc(s, xs + init, last);
      AddAllAppend(s, xs, init);
      AddAllSnoc(AddAll(s, xs), init, last);
      assert ys == init + [last];
    }
  }

  /** Adding an already-collected set is adding its candidates. */
  lemma {:induction false} AddAllOfDedup<T>(s: seq<T>, xs: seq<T>)
    ensures AddAll(s, Dedup(xs)) == AddAll(s, xs)
    decreases |xs|
  {
    if xs != [] {
      var init := xs[..|xs| - 1];
      var last := xs[|xs| - 1];
      var d := Dedup(init);
      AddAllOfDedup(s, init);
      AddAllElements([], init);
      AddAllElements(s, init);
      if last !in d {
        AddAllSnoc(s, d, last);
      }
    }
  }

  lemma AddAllWithin<T>(s: seq<T>, xs: seq<T>, y: T)
    requires y in AddAll(s, xs)
    ensures y in s + xs
  {
    AddAllElements(s, xs);
    assert y in s || y in xs;
    if y in s {
      var k :| 0 <= k < |s| && s[k] == y;
      assert (s + xs)[k] == y;
    } else {
      var k :| 0 <= k < |xs| && xs[k] == y;
      assert (s + xs)[|s| + k] == y;
    }
  }

  /** Index of the first occurrence of `x`. */
  function FirstIndex<T(==)>(s: seq<T>, x: T): (k: nat)
    requires x in s
    ensures k < |s| && s[k] == x
    ensures forall i | 0 <= i < k :: s[i] != x
  {
    if s[0] == x then 0 else 1 + FirstIndex(s[1..], x)
  }

  lemma FirstIndexPrefix<T>(s: seq<T>, t: seq<T>, x: T)
    requires x in s
    ensures FirstIndex(s + t, x) == FirstIndex(s, x)
  {
    var k := FirstIndex(s, x);
    assert (s + t)[k] == x;
  }

  /** `r` lists elements of `t` in the order of their first occurrence in `t`. */
  predicate FirstOccurrenceOrder<T(==)>(r: seq<T>, t: seq<T>) {
    forall i, j | 0 <= i < j < |r| :: r[i] in t && r[j] in t && FirstIndex(t, r[i]) < FirstIndex(t, r[j])
  }

  lemma NoDupFirstOccurrenceOrder<T>(s: seq<T>)
    requires NoDup(s)
    ensures FirstOccurrenceOrder(s, s)
  {
    forall i, j | 0 <= i < j < |s|
      ensures FirstIndex(s, s[i]) < FirstIndex(s, s[j])
    {
      assert FirstIndex(s, s[i]) == i;
      assert FirstIndex(s, s[j]) == j;
    }
  }

  /** A candidate appended to `t` keeps the order, and is last when it is new. */
  lemma FirstOccurrenceOrderExtend<T>(r: seq<T>, t: seq<T>, x: T)
    requires FirstOccurrenceOrder(r, t)
    requires forall y | y in r :: y in t
    ensures FirstOccurrenceOrder(r, t + [x])
    ensures x !in t ==> FirstOccurrenceOrder(r + [x], t + [x])
  {
    forall y | y in t ensures FirstIndex(t + [x], y) == FirstIndex(t, y) {
      FirstIndexPrefix(t, [x], y);
    }
    if x !in t {
      assert FirstIndex(t + [x], x) == |t|;
      var r' := r + [x];
      forall i, j | 0 <= i < j < |r'|
        ensures r'[i] in t + [x] && r'[j] in t + [x] && FirstIndex(t + [x], r'[i]) < FirstIndex(t + [x], r'[j])
      {
        assert r'[i] == r[i] && r[i] in r;
        if j < |r| {
          assert r'[j] == r[j] && r[j] in r;
        }
      }
    }
  }

  /**
    The collection lists the distinct elements of `s + xs` in the order of their
    first occurrence there (for a duplicate-free start `s`).
  */
  lemma {:induction false} AddAllFirstOccurrenceOrder<T>(s: seq<T>, xs: seq<T>)
    requires NoDup(s)
    ensures FirstOccurrenceOrder(AddAll(s, xs), s + xs)
    decreases |xs|
  {
    if xs == [] {
      assert s + xs == s;
      NoDupFirstOccurrenceOrder(s);
    } else {
      var init := xs[..|xs| - 1];
      var last := xs[|xs| - 1];
      var r0 := AddAll(s, init);
      AddAllFirstOccurrenceOrder(s, init);
      AddAllElements(s, init);
      forall y | y in r0 ensures y in s + init {
        AddAllWithin(s, init, y);
      }
      FirstOccurrenceOrderExtend(r0, s + init, last);
      assert s + xs == (s + init) + [last];
      if last !in r0 {
        assert last !in s + init;
      }
    }
  }
}
