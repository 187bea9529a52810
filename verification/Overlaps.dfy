/** Overlap resolution: a stable sort of the raw matches, then a greedy left-to-right pass. */
module Overlaps {
  import opened Entropy

  function Rank(c: Confidence): nat {
    if c == High then 1 else 0
  }

  /** Earliest start first, then higher confidence, then longer span. */
  predicate Before(a: RawMatch, b: RawMatch) {
    || a.start < b.start
    || (a.start == b.start
        && (Rank(a.confidence) > Rank(b.confidence)
            || (a.confidence == b.confidence && a.end - a.start >= b.end - b.start)))
  }

  /** Inserts `m` in front of its equals, so equal matches keep their input order. */
  function InsertSorted(m: RawMatch, s: seq<RawMatch>): seq<RawMatch> {
    if s == [] || Before(m, s[0]) then [m] + s else [s[0]] + InsertSorted(m, s[1..])
  }

  /** `sort_by`, the library's stable sort. */
  function StableSort(s: seq<RawMatch>): seq<RawMatch> {
    if s == [] then [] else InsertSorted(s[0], StableSort(s[1..]))
  }

  predicate Sorted(s: seq<RawMatch>) {
    forall j, k :: 0 <= j < k < |s| ==> Before(s[j], s[k])
  }

  /** The greedy pass over sorted matches, given the end of the last one kept. */
  function Greedy(s: seq<RawMatch>, lastEnd: nat): seq<RawMatch> {
    if s == [] then []
    else if s[0].start >= lastEnd then [s[0]] + Greedy(s[1..], s[0].end)
    else Greedy(s[1..], lastEnd)
  }

  function Merged(raws: seq<RawMatch>): seq<RawMatch> {
    Greedy(StableSort(raws), 0)
  }

  method MergeNonOverlapping(raws: seq<RawMatch>) returns (kept: seq<RawMatch>)
    ensures kept == Merged(raws)
  {
    var sorted := StableSort(raws);
    kept := [];
    var lastEnd := 0;
    for i := 0 to |sorted|
      invariant kept == [] ==> lastEnd == 0
      invariant kept + Greedy(sorted[i..], lastEnd) == Merged(raws)
    {
      var m := sorted[i];
      assert sorted[i..][1..] == sorted[i + 1..];
      if kept == [] || m.start >= lastEnd {
        assert kept + ([m] + Greedy(sorted[i + 1..], m.end)) == (kept + [m]) + Greedy(sorted[i + 1..], m.end);
        lastEnd := m.end;
        kept := kept + [m];
      }
    }
    assert kept + [] == kept;
  }

  // ----- The sort

  predicate NonEmptySpans(s: seq<RawMatch>) {
    forall m :: m in s ==> m.start < m.end
  }

  lemma {:induction false} InsertSortedKeeps(m: RawMatch, s: seq<RawMatch>)
    ensures multiset(InsertSorted(m, s)) == multiset(s) + multiset{m}
  {
    if s != [] && !Before(m, s[0]) {
      hide Before;
      InsertSortedKeeps(m, s[1..]);
      assert s == [s[0]] + s[1..];
    }
  }

  lemma {:induction false} InsertSortedSorts(m: RawMatch, s: seq<RawMatch>)
    requires Sorted(s)
    ensures Sorted(InsertSorted(m, s))
  {
    if s != [] && !Before(m, s[0]) {
      InsertSortedSorts(m, s[1..]);
      InsertSortedKeeps(m, s[1..]);
      var rest := InsertSorted(m, s[1..]);
      forall k | 0 <= k < |rest|
        ensures Before(s[0], rest[k])
      {
        assert rest[k] in multiset(rest);
        assert rest[k] == m || rest[k] in s[1..];
      }
    }
  }

  lemma {:induction false} StableSortKeeps(s: seq<RawMatch>)
    ensures multiset(StableSort(s)) == multiset(s)
    ensures Sorted(StableSort(s))
  {
    if s != [] {
      StableSortKeeps(s[1..]);
      InsertSortedKeeps(s[0], StableSort(s[1..]));
      InsertSortedSorts(s[0], StableSort(s[1..]));
      assert s == [s[0]] + s[1..];
    }
  }

  lemma SameElements(a: seq<RawMatch>, b: seq<RawMatch>)
    requires multiset(a) == multiset(b)
    ensures |a| == |b|
    ensures forall m :: m in a <==> m in b
  {
    assert |multiset(a)| == |multiset(b)|;
    forall m
      ensures m in a <==> m in b
    {
      assert m in a <==> m in multiset(a);
      assert m in b <==> m in multiset(b);
    }
  }

  // ----- The greedy pass

  predicate Disjoint(s: seq<RawMatch>) {
    forall j, k :: 0 <= j < k < |s| ==> s[j].end <= s[k].start
  }

  /** Some kept match takes precedence over `m`, or is `m`, and contains its start. */
  predicate Covers(kept: seq<RawMatch>, m: RawMatch) {
    exists k :: k in kept && Before(k, m) && m.start < k.end
  }

  lemma {:induction false} GreedySelects(s: seq<RawMatch>, lastEnd: nat)
    ensures multiset(Greedy(s, lastEnd)) <= multiset(s)
  {
    if s != [] {
      assert s == [s[0]] + s[1..];
      GreedySelects(s[1..], if s[0].start >= lastEnd then s[0].end else lastEnd);
    }
  }

  lemma {:induction false} GreedyDisjoint(s: seq<RawMatch>, lastEnd: nat)
    requires NonEmptySpans(s)
    ensures Disjoint(Greedy(s, lastEnd))
    ensures forall m :: m in Greedy(s, lastEnd) ==> m in s && m.start >= lastEnd
  {
    if s != [] {
      assert s == [s[0]] + s[1..];
      GreedyDisjoint(s[1..], if s[0].start >= lastEnd then s[0].end else lastEnd);
    }
  }

  lemma {:induction false} GreedyCovers(s: seq<RawMatch>, lastEnd: nat, m: RawMatch)
    requires Sorted(s) && NonEmptySpans(s)
    requires m in s && m.start >= lastEnd
    ensures Covers(Greedy(s, lastEnd), m)
  {
    var kept := Greedy(s, lastEnd);
    assert s == [s[0]] + s[1..];
    assert m == s[0] || m in s[1..];
    if s[0].start < lastEnd {
      GreedyCovers(s[1..], lastEnd, m);
    } else if m.start < s[0].end {
      var i :| 0 <= i < |s| && s[i] == m;
      assert s[0] in kept && Before(s[0], s[i]);
    } else {
      GreedyCovers(s[1..], s[0].end, m);
      var k :| k in Greedy(s[1..], s[0].end) && Before(k, m) && m.start < k.end;
      assert k in kept;
    }
  }

  /** Overlap resolution keeps a sub-collection of its input, disjoint and in order; every input match
      starts inside a kept one that takes precedence over it; and it keeps something whenever there is
      something. */
  lemma MergedCorrect(raws: seq<RawMatch>)
    requires NonEmptySpans(raws)
    ensures var kept := Merged(raws);
            && NonEmptySpans(kept)
            && Disjoint(kept)
            && multiset(kept) <= multiset(raws)
            && (forall m :: m in kept ==> m in raws)
            && (forall m :: m in raws ==> Covers(kept, m))
            && (kept == [] <==> raws == [])
  {
    var sorted := StableSort(raws);
    StableSortKeeps(raws);
    SameElements(sorted, raws);
    GreedySelects(sorted, 0);
    GreedyDisjoint(sorted, 0);
    forall m | m in raws
      ensures Covers(Merged(raws), m)
    {
      GreedyCovers(sorted, 0, m);
    }
    if raws != [] {
      assert raws[0] in raws;
      assert Covers(Merged(raws), raws[0]);
    }
  }

  lemma CoveringMatch(kept: seq<RawMatch>, m: RawMatch) returns (c: RawMatch)
    requires Covers(kept, m)
    ensures c in kept && Before(c, m) && m.start < c.end
  {
    c :| c in kept && Before(c, m) && m.start < c.end;
  }

  lemma SharedStart(kept: seq<RawMatch>, k: RawMatch, c: RawMatch)
    requires NonEmptySpans(kept) && Disjoint(kept) && k in kept && c in kept
    requires c.start <= k.start < c.end
    ensures k == c
  {
    var i :| 0 <= i < |kept| && kept[i] == k;
    var j :| 0 <= j < |kept| && kept[j] == c;
    assert !(i < j) && !(j < i);
  }

  /** What is kept at a given start is the best that starts there: High if anything High does, and of its
      confidence the longest. */
  lemma KeptIsBest(raws: seq<RawMatch>, k: RawMatch, m: RawMatch)
    requires NonEmptySpans(raws) && k in Merged(raws) && m in raws && m.start == k.start
    ensures m.confidence == High ==> k.confidence == High
    ensures m.confidence == k.confidence ==> m.end <= k.end
  {
    MergedCorrect(raws);
    var kept := Merged(raws);
    assert Covers(kept, m);
    hide Merged, Covers, Disjoint, NonEmptySpans;
    var c := CoveringMatch(kept, m);
    SharedStart(kept, k, c);
  }

  // ----- Input order and kinds never move a span

  /** A match without its kind. */
  datatype Key = Key(start: nat, end: nat, confidence: Confidence)

  function KeyOf(m: RawMatch): Key {
    Key(m.start, m.end, m.confidence)
  }

  function Keys(s: seq<RawMatch>): (ks: seq<Key>)
    ensures |ks| == |s|
    ensures forall i :: 0 <= i < |s| ==> ks[i] == KeyOf(s[i])
  {
    seq(|s|, i requires 0 <= i < |s| => KeyOf(s[i]))
  }

  lemma KeysSplit(s: seq<RawMatch>)
    requires s != []
    ensures Keys(s) == [KeyOf(s[0])] + Keys(s[1..])
  {
  }

  lemma {:induction false} InsertSortedKeys(m: RawMatch, s: seq<RawMatch>)
    ensures multiset(Keys(InsertSorted(m, s))) == multiset(Keys(s)) + multiset{KeyOf(m)}
  {
    var r := InsertSorted(m, s);
    KeysSplit(r);
    if s == [] || Before(m, s[0]) {
      assert r[1..] == s;
    } else {
      InsertSortedKeys(m, s[1..]);
      assert r[1..] == InsertSorted(m, s[1..]);
      KeysSplit(s);
    }
  }

  lemma {:induction false} StableSortKeys(s: seq<RawMatch>)
    ensures multiset(Keys(StableSort(s))) == multiset(Keys(s))
  {
    if s != [] {
      StableSortKeys(s[1..]);
      InsertSortedKeys(s[0], StableSort(s[1..]));
      KeysSplit(s);
    }
  }

  lemma FirstKeyIsLeast(s: seq<RawMatch>, t: seq<RawMatch>)
    requires Sorted(t) && s != [] && t != []
    requires KeyOf(s[0]) in multiset(Keys(t))
    ensures exists m :: m in t && KeyOf(m) == KeyOf(s[0]) && (m == t[0] || Before(t[0], m))
  {
    var i :| 0 <= i < |t| && Keys(t)[i] == KeyOf(s[0]);
    assert t[i] in t && (i > 0 ==> Before(t[0], t[i]));
  }

  lemma SameFirstKey(s: seq<RawMatch>, t: seq<RawMatch>)
    requires Sorted(s) && Sorted(t) && NonEmptySpans(s) && NonEmptySpans(t) && s != [] && t != []
    requires multiset(Keys(s)) == multiset(Keys(t))
    ensures KeyOf(s[0]) == KeyOf(t[0])
  {
    assert Keys(s)[0] in multiset(Keys(s)) && Keys(t)[0] in multiset(Keys(t));
    FirstKeyIsLeast(s, t);
    FirstKeyIsLeast(t, s);
    var m :| m in t && KeyOf(m) == KeyOf(s[0]) && (m == t[0] || Before(t[0], m));
    var n :| n in s && KeyOf(n) == KeyOf(t[0]) && (n == s[0] || Before(s[0], n));
  }

  lemma {:induction false} SortedKeysUnique(s: seq<RawMatch>, t: seq<RawMatch>)
    requires Sorted(s) && Sorted(t) && NonEmptySpans(s) && NonEmptySpans(t)
    requires multiset(Keys(s)) == multiset(Keys(t))
    ensures Keys(s) == Keys(t)
  {
    hide Before;
    assert |multiset(Keys(s))| == |multiset(Keys(t))|;
    if s != [] {
      SameFirstKey(s, t);
      KeysSplit(s);
      KeysSplit(t);
      assert multiset(Keys(s[1..])) == multiset(Keys(s)) - multiset{KeyOf(s[0])};
      assert multiset(Keys(t[1..])) == multiset(Keys(t)) - multiset{KeyOf(t[0])};
      SortedKeysUnique(s[1..], t[1..]);
    }
  }

  lemma {:induction false} GreedySameKeys(s: seq<RawMatch>, t: seq<RawMatch>, lastEnd: nat)
    requires Keys(s) == Keys(t)
    ensures Keys(Greedy(s, lastEnd)) == Keys(Greedy(t, lastEnd))
  {
    if s != [] {
      KeysSplit(s);
      KeysSplit(t);
      assert KeyOf(s[0]) == Keys(s)[0] == Keys(t)[0] == KeyOf(t[0]);
      GreedySameKeys(s[1..], t[1..], if s[0].start >= lastEnd then s[0].end else lastEnd);
    }
  }

  /** The reported spans and confidences depend only on which spans and confidences came in, not on their
      order and not on their kinds. */
  lemma SpansIgnoreOrderAndKind(a: seq<RawMatch>, b: seq<RawMatch>)
    requires NonEmptySpans(a) && NonEmptySpans(b)
    requires multiset(Keys(a)) == multiset(Keys(b))
    ensures Keys(Merged(a)) == Keys(Merged(b))
  {
    StableSortKeeps(a);
    StableSortKeeps(b);
    SameElements(StableSort(a), a);
    SameElements(StableSort(b), b);
    StableSortKeys(a);
    StableSortKeys(b);
    SortedKeysUnique(StableSort(a), StableSort(b));
    GreedySameKeys(StableSort(a), StableSort(b), 0);
  }

  lemma KeysConcat(a: seq<RawMatch>, b: seq<RawMatch>)
    ensures Keys(a + b) == Keys(a) + Keys(b)
  {
  }

  lemma KeysRemoveAt(b: seq<RawMatch>, i: nat)
    requires i < |b|
    ensures multiset(b) == multiset(b[..i] + b[i + 1..]) + multiset{b[i]}
    ensures multiset(Keys(b)) == multiset(Keys(b[..i] + b[i + 1..])) + multiset{KeyOf(b[i])}
  {
    var front, back := b[..i], b[i + 1..];
    assert b == front + ([b[i]] + back);
    KeysConcat(front, back);
    KeysConcat(front, [b[i]] + back);
    KeysConcat([b[i]], back);
    assert Keys([b[i]]) == [KeyOf(b[i])];
  }

  lemma SameRemainder(x: multiset<RawMatch>, y: multiset<RawMatch>, m: RawMatch)
    requires x + multiset{m} == y + multiset{m}
    ensures x == y
  {
    assert x == x + multiset{m} - multiset{m};
    assert y == y + multiset{m} - multiset{m};
  }

  lemma {:induction false} KeysOfPermutation(a: seq<RawMatch>, b: seq<RawMatch>)
    requires multiset(a) == multiset(b)
    ensures multiset(Keys(a)) == multiset(Keys(b))
  {
    hide Keys;
    assert |multiset(a)| == |multiset(b)|;
    if a != [] {
      assert a[0] in multiset(a);
      var i :| 0 <= i < |b| && b[i] == a[0];
      var a', b' := a[..0] + a[1..], b[..i] + b[i + 1..];
      KeysRemoveAt(a, 0);
      KeysRemoveAt(b, i);
      SameRemainder(multiset(a'), multiset(b'), a[0]);
      KeysOfPermutation(a', b');
    }
  }

  /** Permuting the input leaves the reported spans and confidences alone. */
  lemma SpansIgnoreOrder(a: seq<RawMatch>, b: seq<RawMatch>)
    requires NonEmptySpans(a) && multiset(a) == multiset(b)
    ensures Keys(Merged(a)) == Keys(Merged(b))
  {
    SameElements(a, b);
    KeysOfPermutation(a, b);
    SpansIgnoreOrderAndKind(a, b);
  }

  function WithKey(key: Key, s: seq<RawMatch>): seq<RawMatch> {
    if s == [] then [] else (if KeyOf(s[0]) == key then [s[0]] else []) + WithKey(key, s[1..])
  }

  lemma {:induction false} InsertSortedStable(key: Key, m: RawMatch, s: seq<RawMatch>)
    ensures WithKey(key, InsertSorted(m, s)) == WithKey(key, [m]) + WithKey(key, s)
  {
    assert [m][1..] == [];
    if s == [] || Before(m, s[0]) {
      assert ([m] + s)[1..] == s;
    } else {
      InsertSortedStable(key, m, s[1..]);
      assert ([s[0]] + InsertSorted(m, s[1..]))[1..] == InsertSorted(m, s[1..]);
      assert KeyOf(m) == key ==> KeyOf(s[0]) != key;
    }
  }

  /** The sort is stable: matches with the same span and confidence keep their input order. */
  lemma {:induction false} StableSortStable(key: Key, s: seq<RawMatch>)
    ensures WithKey(key, StableSort(s)) == WithKey(key, s)
  {
    if s != [] {
      StableSortStable(key, s[1..]);
      InsertSortedStable(key, s[0], StableSort(s[1..]));
      assert [s[0]][1..] == [];
    }
  }

  lemma {:induction false} GreedyKeepsFirst(s: seq<RawMatch>, lastEnd: nat, m: RawMatch)
    requires NonEmptySpans(s) && m in Greedy(s, lastEnd)
    ensures WithKey(KeyOf(m), s) != [] && WithKey(KeyOf(m), s)[0] == m
  {
    assert s == [s[0]] + s[1..];
    var next := if s[0].start >= lastEnd then s[0].end else lastEnd;
    if !(s[0].start >= lastEnd && m == s[0]) {
      assert m in Greedy(s[1..], next);
      GreedyDisjoint(s[1..], next);
      GreedyKeepsFirst(s[1..], next, m);
      assert KeyOf(s[0]) != KeyOf(m);
    }
  }

  /** Among matches with one span and confidence, the kind kept is the one that came first in the input. */
  lemma TiedKindIsTheFirst(raws: seq<RawMatch>, m: RawMatch)
    requires NonEmptySpans(raws) && m in Merged(raws)
    ensures WithKey(KeyOf(m), raws) != [] && WithKey(KeyOf(m), raws)[0] == m
  {
    StableSortKeeps(raws);
    SameElements(StableSort(raws), raws);
    GreedyKeepsFirst(StableSort(raws), 0, m);
    StableSortStable(KeyOf(m), raws);
  }

  /** So the kind does depend on input order. */
  lemma TiedKindDependsOnOrder(m: RawMatch, kind: SecretKind)
    requires m.start < m.end && kind != m.kind
    ensures Merged([m, m.(kind := kind)]) == [m]
    ensures Merged([m.(kind := kind), m]) == [m.(kind := kind)]
  {
    TiedFirst(m, m.(kind := kind));
    TiedFirst(m.(kind := kind), m);
  }

  lemma TiedFirst(m: RawMatch, n: RawMatch)
    requires m.start < m.end && KeyOf(m) == KeyOf(n)
    ensures Merged([m, n]) == [m]
  {
    assert [m, n][1..] == [n] && [n][1..] == [];
    assert StableSort([n]) == [n];
    assert StableSort([m, n]) == [m, n];
    assert Greedy([n], m.end) == Greedy([], m.end) == [];
  }
}
