/**
 The detector: collect every match, resolve overlaps, convert byte offsets to scalar offsets. The regular
 expressions are not modelled; whatever lists of non-empty High spans they find are the input.
 */
module Detector {
  import opened Base
  import opened Entropy
  import opened Overlaps
  import Utf8

  /** What the pattern sources find in one text. */
  datatype PatternHits = PatternHits(
    provider: seq<RawMatch>,
    gated: seq<RawMatch>,
    urls: seq<RawMatch>,
    kv: seq<RawMatch>,
    user: seq<RawMatch>,
    dataUris: seq<(nat, nat)>)

  /** A match in scalar offsets, end-exclusive. */
  datatype SecretMatch = SecretMatch(kind: SecretKind, start: u32, end: u32, confidence: Confidence)

  // ----- Collecting

  function SpansOf(ms: seq<RawMatch>): seq<(nat, nat)> {
    seq(|ms|, i requires 0 <= i < |ms| => (ms[i].start, ms[i].end))
  }

  /** `kv.retain`: the key-value matches that overlap no URL match. */
  function OutsideSpans(ms: seq<RawMatch>, spans: seq<(nat, nat)>): seq<RawMatch> {
    if ms == [] then []
    else (if OverlapsAny(ms[0].start, ms[0].end, spans) then [] else [ms[0]]) + OutsideSpans(ms[1..], spans)
  }

  /** Every literal match, in the order the sources report them. */
  function Literals(hits: PatternHits): seq<RawMatch> {
    hits.provider + hits.gated + hits.urls + OutsideSpans(hits.kv, SpansOf(hits.urls)) + hits.user
  }

  function Occupied(hits: PatternHits): seq<(nat, nat)> {
    SpansOf(Literals(hits)) + hits.dataUris
  }

  /** The entropy matches of a text: its reportable runs outside the literals and data URIs. */
  function EntropyHits(text: Utf8.String, hits: PatternHits, config: Config): seq<RawMatch> {
    Scan(Utf8.Encode(text), 0, config, Occupied(hits))
  }

  function Collected(text: Utf8.String, hits: PatternHits, config: Config): seq<RawMatch> {
    Literals(hits) + EntropyHits(text, hits, config)
  }

  method CollectRaw(text: Utf8.String, hits: PatternHits, config: Config) returns (all: Vec<RawMatch>)
    ensures fresh(all) && all.items == Collected(text, hits, config)
  {
    all := new Vec<RawMatch>();
    all.Extend(hits.provider);
    all.Extend(hits.gated);
    var kv := OutsideSpans(hits.kv, SpansOf(hits.urls));
    all.Extend(hits.urls);
    all.Extend(kv);
    all.Extend(hits.user);
    assert all.items == Literals(hits);
    var occupied := SpansOf(all.items) + hits.dataUris;
    HighEntropyMatches(Utf8.Encode(text), config, occupied, all);
  }

  /** What the pattern sources guarantee: High confidence and non-empty spans. */
  predicate LiteralHits(ms: seq<RawMatch>) {
    forall m :: m in ms ==> m.start < m.end && m.confidence == High
  }

  predicate ValidHits(hits: PatternHits) {
    && LiteralHits(hits.provider)
    && LiteralHits(hits.gated)
    && LiteralHits(hits.urls)
    && LiteralHits(hits.kv)
    && LiteralHits(hits.user)
  }

  lemma {:induction false} OutsideSpansExactly(ms: seq<RawMatch>, spans: seq<(nat, nat)>)
    ensures forall m :: m in OutsideSpans(ms, spans) <==> m in ms && !OverlapsAny(m.start, m.end, spans)
  {
    if ms != [] {
      assert ms == [ms[0]] + ms[1..];
      OutsideSpansExactly(ms[1..], spans);
    }
  }

  /** What is retained keeps its order: matches are judged one by one. */
  lemma {:induction false} OutsideSpansConcat(a: seq<RawMatch>, b: seq<RawMatch>, spans: seq<(nat, nat)>)
    ensures OutsideSpans(a + b, spans) == OutsideSpans(a, spans) + OutsideSpans(b, spans)
    ensures |a| == 1 ==> OutsideSpans(a, spans) == if OverlapsAny(a[0].start, a[0].end, spans) then [] else a
  {
    if a == [] {
      assert a + b == b;
    } else {
      assert (a + b)[1..] == a[1..] + b;
      OutsideSpansConcat(a[1..], b, spans);
    }
  }

  /** Two matches of which one ends before the other starts, or where it starts. */
  predicate Apart(m: RawMatch, start: nat, end: nat) {
    m.end <= start || end <= m.start
  }

  predicate ApartFromAll(m: RawMatch, ms: seq<RawMatch>) {
    forall x :: x in ms ==> Apart(m, x.start, x.end)
  }

  predicate ApartFromSpans(m: RawMatch, spans: seq<(nat, nat)>) {
    forall s :: s in spans ==> Apart(m, s.0, s.1)
  }

  lemma SpansOfAreSpans(m: RawMatch, ms: seq<RawMatch>)
    ensures OverlapsAny(m.start, m.end, SpansOf(ms)) <==> !ApartFromAll(m, ms)
  {
    var spans := SpansOf(ms);
    if !ApartFromAll(m, ms) {
      var x :| x in ms && !Apart(m, x.start, x.end);
      var i :| 0 <= i < |ms| && ms[i] == x;
      assert spans[i] == (x.start, x.end) && spans[i] in spans;
    }
    if OverlapsAny(m.start, m.end, spans) {
      var s :| s in spans && Overlap(m.start, m.end, s.0, s.1);
      var i :| 0 <= i < |spans| && spans[i] == s;
      assert ms[i] in ms && !Apart(m, ms[i].start, ms[i].end);
    }
  }

  /** What is collected, from the sources alone. First the literals, in the order of the sources: every
      provider, gated, URL and user match, and the key-value matches apart from all URL matches. Then, in
      increasing order, one Medium match for each maximal qualifying run that is apart from every literal
      and every data URI. */
  lemma CollectedExactly(text: Utf8.String, hits: PatternHits, config: Config)
    ensures var all, bytes := Collected(text, hits, config), Utf8.Encode(text);
            var kv := OutsideSpans(hits.kv, SpansOf(hits.urls));
            var literals := hits.provider + hits.gated + hits.urls + kv + hits.user;
            && literals <= all
            && (forall m :: m in literals <==>
                  m in hits.provider || m in hits.gated || m in hits.urls || m in hits.user
                  || (m in hits.kv && ApartFromAll(m, hits.urls)))
            && (forall m :: m in all[|literals|..] <==>
                  && m == RawMatch(m.start, m.end, HighEntropyString, Medium)
                  && MaximalRun(bytes, m.start, m.end) && Qualifies(bytes[m.start..m.end], config)
                  && ApartFromAll(m, literals) && ApartFromSpans(m, hits.dataUris))
            && StrictlyApart(all[|literals|..])
  {
    var all, bytes := Collected(text, hits, config), Utf8.Encode(text);
    var literals := Literals(hits);
    assert all[|literals|..] == EntropyHits(text, hits, config);
    ScanExactly(bytes, config, Occupied(hits));
    LiteralsExactly(hits);
    hide Literals, EntropyHits, Scan, MaximalRun, Qualifies;
    forall m: RawMatch
      ensures OverlapsAny(m.start, m.end, Occupied(hits)) <==>
                !(ApartFromAll(m, literals) && ApartFromSpans(m, hits.dataUris))
    {
      OccupiedExactly(hits, m);
    }
  }

  lemma LiteralsExactly(hits: PatternHits)
    ensures forall m :: m in Literals(hits) <==>
              m in hits.provider || m in hits.gated || m in hits.urls || m in hits.user
              || (m in hits.kv && ApartFromAll(m, hits.urls))
  {
    OutsideSpansExactly(hits.kv, SpansOf(hits.urls));
    forall m: RawMatch
      ensures OverlapsAny(m.start, m.end, SpansOf(hits.urls)) <==> !ApartFromAll(m, hits.urls)
    {
      SpansOfAreSpans(m, hits.urls);
    }
  }

  lemma OccupiedExactly(hits: PatternHits, m: RawMatch)
    ensures OverlapsAny(m.start, m.end, Occupied(hits)) <==>
              !(ApartFromAll(m, Literals(hits)) && ApartFromSpans(m, hits.dataUris))
  {
    SpansOfAreSpans(m, Literals(hits));
    hide Literals, ApartFromAll;
    var spans := SpansOf(Literals(hits));
    assert forall s :: s in Occupied(hits) <==> s in spans || s in hits.dataUris;
  }

  lemma CollectedParts(text: Utf8.String, hits: PatternHits, config: Config)
    requires ValidHits(hits)
    ensures LiteralHits(Literals(hits))
    ensures forall e :: e in EntropyHits(text, hits, config) ==> e.start < e.end && e.confidence == Medium
    ensures StrictlyApart(EntropyHits(text, hits, config))
    ensures forall m, e :: m in Literals(hits) && e in EntropyHits(text, hits, config) ==>
              !Overlap(m.start, m.end, e.start, e.end)
    ensures NonEmptySpans(Collected(text, hits, config))
  {
    OutsideSpansExactly(hits.kv, SpansOf(hits.urls));
    ScanExactly(Utf8.Encode(text), config, Occupied(hits));
    var literals := Literals(hits);
    forall m, e | m in literals && e in EntropyHits(text, hits, config)
      ensures !Overlap(m.start, m.end, e.start, e.end)
    {
      assert !OverlapsAny(e.start, e.end, Occupied(hits));
      var i :| 0 <= i < |literals| && literals[i] == m;
      assert Occupied(hits)[i] == (m.start, m.end);
      assert (m.start, m.end) in Occupied(hits);
    }
  }

  // ----- Entropy matches are conservative

  function Having(c: Confidence, s: seq<RawMatch>): seq<RawMatch> {
    if s == [] then [] else (if s[0].confidence == c then [s[0]] else []) + Having(c, s[1..])
  }

  lemma HavingCons(c: Confidence, m: RawMatch, s: seq<RawMatch>)
    ensures Having(c, [m] + s) == if m.confidence == c then [m] + Having(c, s) else Having(c, s)
  {
    assert ([m] + s)[1..] == s;
  }

  lemma {:induction false} HavingMembers(c: Confidence, s: seq<RawMatch>)
    ensures forall m :: m in Having(c, s) <==> m in s && m.confidence == c
    ensures (forall m :: m in s ==> m.confidence == c) ==> Having(c, s) == s
    ensures (forall m :: m in s ==> m.confidence != c) ==> Having(c, s) == []
  {
    if s != [] {
      assert s == [s[0]] + s[1..];
      HavingMembers(c, s[1..]);
    }
  }

  lemma {:induction false} HavingConcat(c: Confidence, s: seq<RawMatch>, t: seq<RawMatch>)
    ensures Having(c, s + t) == Having(c, s) + Having(c, t)
  {
    if s == [] {
      assert s + t == t;
    } else {
      assert s + t == [s[0]] + (s[1..] + t) && s == [s[0]] + s[1..];
      HavingConcat(c, s[1..], t);
      HavingCons(c, s[0], s[1..] + t);
      HavingCons(c, s[0], s[1..]);
    }
  }

  /** Something that sorts before the first of a sorted list is inserted in front. */
  lemma InsertInFront(m: RawMatch, s: seq<RawMatch>)
    requires forall x :: x in s ==> Before(m, x)
    ensures InsertSorted(m, s) == [m] + s
  {
  }

  lemma BeforeAll(m: RawMatch, s: seq<RawMatch>)
    requires Sorted(s) && (s == [] || Before(m, s[0]))
    ensures forall x :: x in s ==> Before(m, x)
  {
    forall x | x in s
      ensures Before(m, x)
    {
      var i :| 0 <= i < |s| && s[i] == x;
      assert i > 0 ==> Before(s[0], s[i]);
    }
  }

  lemma {:induction false} HavingInsertSorted(c: Confidence, m: RawMatch, s: seq<RawMatch>)
    requires Sorted(s)
    ensures Having(c, InsertSorted(m, s))
         == if m.confidence == c then InsertSorted(m, Having(c, s)) else Having(c, s)
  {
    if s == [] || Before(m, s[0]) {
      BeforeAll(m, s);
      hide Before;
      HavingMembers(c, s);
      HavingCons(c, m, s);
      InsertInFront(m, Having(c, s));
    } else {
      hide Before;
      HavingInsertSorted(c, m, s[1..]);
      assert s == [s[0]] + s[1..];
      HavingCons(c, s[0], s[1..]);
      HavingCons(c, s[0], InsertSorted(m, s[1..]));
    }
  }

  lemma {:induction false} HavingStableSort(c: Confidence, s: seq<RawMatch>)
    ensures Having(c, StableSort(s)) == StableSort(Having(c, s))
  {
    if s != [] {
      hide Before, InsertSorted;
      assert s == [s[0]] + s[1..];
      HavingCons(c, s[0], s[1..]);
      HavingStableSort(c, s[1..]);
      StableSortKeeps(s[1..]);
      HavingInsertSorted(c, s[0], StableSort(s[1..]));
    }
  }

  lemma {:induction false} SortedIsFixed(s: seq<RawMatch>)
    requires Sorted(s)
    ensures StableSort(s) == s
  {
    if s != [] {
      SortedIsFixed(s[1..]);
      InsertInFront(s[0], s[1..]);
    }
  }

  /** High and Medium matches do not overlap, and the Medium ones follow one another. */
  predicate Separated(s: seq<RawMatch>) {
    && (forall m, e :: m in s && e in s && m.confidence == High && e.confidence == Medium ==>
          !Overlap(m.start, m.end, e.start, e.end))
    && (forall j, k :: 0 <= j < k < |s| && s[j].confidence == s[k].confidence == Medium ==> s[j].end <= s[k].start)
  }

  /** What relates the last kept end of the whole pass to that of a pass over the High matches alone. */
  predicate InStep(s: seq<RawMatch>, lastEnd: nat, lastHigh: nat) {
    && (forall m :: m in s && m.confidence == High ==> (m.start >= lastEnd <==> m.start >= lastHigh))
    && (forall m :: m in s && m.confidence == Medium ==> m.start >= lastEnd)
  }

  /** Everything in `rest` starts no earlier than `m`, and past its end unless both are High. */
  predicate Follows(m: RawMatch, rest: seq<RawMatch>) {
    forall x :: x in rest ==>
      m.start <= x.start && (m.confidence == x.confidence == High || m.end <= x.start)
  }

  lemma SortedTail(m: RawMatch, rest: seq<RawMatch>)
    requires Sorted([m] + rest)
    ensures Sorted(rest)
    ensures forall x :: x in rest ==> m.start <= x.start
  {
    var s := [m] + rest;
    forall i, k | 0 <= i < k < |rest|
      ensures Before(rest[i], rest[k])
    {
      assert Before(s[i + 1], s[k + 1]);
    }
    forall i | 0 <= i < |rest|
      ensures m.start <= rest[i].start
    {
      assert Before(s[0], s[i + 1]);
    }
  }

  lemma SeparatedTail(m: RawMatch, rest: seq<RawMatch>)
    requires Sorted([m] + rest) && NonEmptySpans([m] + rest) && Separated([m] + rest)
    ensures Sorted(rest) && NonEmptySpans(rest) && Separated(rest)
    ensures Follows(m, rest)
  {
    SortedTail(m, rest);
    hide Sorted;
    var s := [m] + rest;
    assert m in s && s[0] == m;
    forall x | x in rest
      ensures x in s && m.start <= x.start && x.start < x.end
      ensures m.confidence == x.confidence == High || m.end <= x.start
    {
      var i :| 0 <= i < |rest| && rest[i] == x;
      assert s[i + 1] == x;
    }
    forall j, k | 0 <= j < k < |rest| && rest[j].confidence == rest[k].confidence == Medium
      ensures rest[j].end <= rest[k].start
    {
      assert s[j + 1] == rest[j] && s[k + 1] == rest[k];
    }
  }

  lemma StaysInStep(m: RawMatch, rest: seq<RawMatch>, lastEnd: nat, lastHigh: nat)
    requires m.start < m.end && Follows(m, rest)
    requires InStep([m] + rest, lastEnd, lastHigh)
    ensures m.start >= lastEnd ==> InStep(rest, m.end, if m.confidence == High then m.end else lastHigh)
    ensures m.start < lastEnd ==> m.confidence == High && m.start < lastHigh && InStep(rest, lastEnd, lastHigh)
  {
    var s := [m] + rest;
    assert m in s && forall x :: x in rest ==> x in s;
  }

  /** On separated matches one greedy pass is two: it resolves the High ones as if alone, and keeps all
      the Medium ones. */
  lemma {:induction false} GreedySplits(s: seq<RawMatch>, lastEnd: nat, lastHigh: nat)
    requires Sorted(s) && NonEmptySpans(s) && Separated(s) && InStep(s, lastEnd, lastHigh)
    ensures Having(High, Greedy(s, lastEnd)) == Greedy(Having(High, s), lastHigh)
    ensures Having(Medium, Greedy(s, lastEnd)) == Having(Medium, s)
  {
    if s != [] {
      var m, rest := s[0], s[1..];
      assert s == [m] + rest && m in s && m.start < m.end;
      hide Sorted, Separated, InStep, Follows, NonEmptySpans;
      SeparatedTail(m, rest);
      StaysInStep(m, rest, lastEnd, lastHigh);
      HavingCons(High, m, rest);
      HavingCons(Medium, m, rest);
      if m.start >= lastEnd {
        GreedySplits(rest, m.end, if m.confidence == High then m.end else lastHigh);
        HavingCons(High, m, Greedy(rest, m.end));
        HavingCons(Medium, m, Greedy(rest, m.end));
      } else {
        GreedySplits(rest, lastEnd, lastHigh);
      }
      assert Having(High, rest) == ([m] + Having(High, rest))[1..];
    }
  }

  lemma SortedSeparated(literals: seq<RawMatch>, entropy: seq<RawMatch>, s: seq<RawMatch>)
    requires LiteralHits(literals)
    requires NonEmptySpans(entropy) && (forall e :: e in entropy ==> e.confidence == Medium)
    requires StrictlyApart(entropy)
    requires forall m, e :: m in literals && e in entropy ==> !Overlap(m.start, m.end, e.start, e.end)
    requires s == StableSort(literals + entropy)
    ensures Sorted(s) && NonEmptySpans(s) && Separated(s)
    ensures Having(High, s) == StableSort(literals)
    ensures Having(Medium, s) == entropy
  {
    var all := literals + entropy;
    StableSortKeeps(all);
    SameElements(s, all);
    HavingParts(literals, entropy);
    HavingStableSort(High, all);
    HavingStableSort(Medium, all);
    assert Sorted(entropy);
    SortedIsFixed(entropy);
    forall j, k | 0 <= j < k < |s| && s[j].confidence == s[k].confidence == Medium
      ensures s[j].end <= s[k].start
    {
      MediumApart(s, entropy, j, k);
    }
  }

  lemma HavingParts(literals: seq<RawMatch>, entropy: seq<RawMatch>)
    requires LiteralHits(literals) && (forall e :: e in entropy ==> e.confidence == Medium)
    ensures Having(High, literals + entropy) == literals
    ensures Having(Medium, literals + entropy) == entropy
  {
    HavingConcat(High, literals, entropy);
    HavingConcat(Medium, literals, entropy);
    HavingMembers(High, literals);
    HavingMembers(High, entropy);
    HavingMembers(Medium, literals);
    HavingMembers(Medium, entropy);
  }

  lemma MediumApart(s: seq<RawMatch>, entropy: seq<RawMatch>, j: nat, k: nat)
    requires Having(Medium, s) == entropy && StrictlyApart(entropy)
    requires j < k < |s| && s[j].confidence == s[k].confidence == Medium
    ensures s[j].end <= s[k].start
  {
    var front, back := s[..j + 1], s[j + 1..];
    assert s == front + back;
    HavingConcat(Medium, front, back);
    HavingMembers(Medium, front);
    HavingMembers(Medium, back);
    hide Having;
    assert front[j] == s[j] && back[k - j - 1] == s[k];
    assert s[j] in Having(Medium, front) && s[k] in Having(Medium, back);
    InOrder(Having(Medium, front), Having(Medium, back), s[j], s[k]);
  }

  lemma InOrder(a: seq<RawMatch>, b: seq<RawMatch>, m: RawMatch, n: RawMatch)
    requires StrictlyApart(a + b) && m in a && n in b
    ensures m.end < n.start
  {
    var i :| 0 <= i < |a| && a[i] == m;
    var j :| 0 <= j < |b| && b[j] == n;
    assert (a + b)[i] == m && (a + b)[|a| + j] == n;
  }

  /** Entropy matches neither displace nor are displaced: what overlap resolution keeps of everything
      collected is, of High confidence, exactly what it keeps of the literals alone and, of Medium,
      exactly every entropy match. */
  lemma EntropyIsConservative(text: Utf8.String, hits: PatternHits, config: Config)
    requires ValidHits(hits)
    ensures Having(High, Merged(Collected(text, hits, config))) == Merged(Literals(hits))
    ensures Having(Medium, Merged(Collected(text, hits, config))) == EntropyHits(text, hits, config)
  {
    CollectedParts(text, hits, config);
    var s := StableSort(Collected(text, hits, config));
    SortedSeparated(Literals(hits), EntropyHits(text, hits, config), s);
    GreedySplits(s, 0, 0);
  }

  // ----- The confidence tie-break never decides

  /** The sort order without its confidence key: earliest start first, then longer span. */
  predicate BeforeBySpan(a: RawMatch, b: RawMatch) {
    a.start < b.start || (a.start == b.start && a.end - a.start >= b.end - b.start)
  }

  function InsertBySpan(m: RawMatch, s: seq<RawMatch>): seq<RawMatch> {
    if s == [] || BeforeBySpan(m, s[0]) then [m] + s else [s[0]] + InsertBySpan(m, s[1..])
  }

  function SortBySpan(s: seq<RawMatch>): seq<RawMatch> {
    if s == [] then [] else InsertBySpan(s[0], SortBySpan(s[1..]))
  }

  /** Matches that start together have one confidence. */
  predicate OneConfidencePerStart(s: seq<RawMatch>) {
    forall a, b :: a in s && b in s && a.start == b.start ==> a.confidence == b.confidence
  }

  lemma {:induction false} InsertBySpanAgrees(m: RawMatch, s: seq<RawMatch>)
    requires forall x :: x in s && x.start == m.start ==> x.confidence == m.confidence
    ensures InsertBySpan(m, s) == InsertSorted(m, s)
  {
    if s != [] {
      InsertBySpanAgrees(m, s[1..]);
    }
  }

  lemma {:induction false} SortBySpanAgrees(s: seq<RawMatch>)
    requires OneConfidencePerStart(s)
    ensures SortBySpan(s) == StableSort(s)
  {
    if s != [] {
      assert s == [s[0]] + s[1..];
      SortBySpanAgrees(s[1..]);
      StableSortKeeps(s[1..]);
      SameElements(StableSort(s[1..]), s[1..]);
      InsertBySpanAgrees(s[0], StableSort(s[1..]));
    }
  }

  /** Sorting what was collected by start and length alone gives the same list, and so the same result: two
      matches that start together never differ in confidence. */
  lemma ConfidenceNeverDecides(text: Utf8.String, hits: PatternHits, config: Config)
    requires ValidHits(hits)
    ensures OneConfidencePerStart(Collected(text, hits, config))
    ensures SortBySpan(Collected(text, hits, config)) == StableSort(Collected(text, hits, config))
    ensures Greedy(SortBySpan(Collected(text, hits, config)), 0) == Merged(Collected(text, hits, config))
  {
    CollectedParts(text, hits, config);
    hide Literals, EntropyHits;
    SortBySpanAgrees(Collected(text, hits, config));
  }

  // ----- Offsets

  /** The byte offset at which scalar `k` of the text starts. */
  function Offset(text: Utf8.String, k: nat): nat
    requires k <= |text|
  {
    |Utf8.Encode(text[..k])|
  }

  function ClampU32(n: nat): u32 {
    if n <= U32_MAX then n else U32_MAX
  }

  /** How many scalars of the text start before byte `target`. */
  ghost function CharsBefore(text: Utf8.String, target: nat): nat {
    |set k: nat | k < |text| && Offset(text, k) < target|
  }

  lemma OffsetStep(text: Utf8.String, k: nat)
    requires k < |text|
    ensures Offset(text, k + 1) == Offset(text, k) + |Utf8.EncodeScalar(text[k])|
  {
    assert text[..k + 1] == text[..k] + [text[k]];
    Utf8.EncodeConcat(text[..k], [text[k]]);
    assert Utf8.Encode([text[k]]) == Utf8.EncodeScalar(text[k]) + Utf8.Encode([]);
  }

  lemma {:induction false} OffsetsIncrease(text: Utf8.String, i: nat, k: nat)
    requires i < k <= |text|
    ensures Offset(text, i) < Offset(text, k)
  {
    OffsetStep(text, k - 1);
    if i < k - 1 {
      OffsetsIncrease(text, i, k - 1);
    }
  }

  /** The numbers below `n`. */
  ghost function Below(n: nat): (s: set<nat>)
    ensures |s| == n
    ensures forall k: nat :: k in s <==> k < n
  {
    if n == 0 then {} else Below(n - 1) + {n - 1}
  }

  /** The count is the place where the offsets cross the target. */
  lemma CharsBeforeIs(text: Utf8.String, target: nat, n: nat)
    requires n <= |text|
    requires n > 0 ==> Offset(text, n - 1) < target
    requires n < |text| ==> target <= Offset(text, n)
    ensures CharsBefore(text, target) == n
  {
    forall k: nat | k < |text|
      ensures Offset(text, k) < target <==> k < n
    {
      if k < n - 1 {
        OffsetsIncrease(text, k, n - 1);
      } else if n < k {
        OffsetsIncrease(text, n, k);
      }
    }
    assert (set k: nat | k < |text| && Offset(text, k) < target) == Below(n);
  }

  predicate NonDecreasing(s: seq<nat>) {
    forall j, k :: 0 <= j < k < |s| ==> s[j] <= s[k]
  }

  /** One left-to-right walk: `next` is the byte offset of scalar `charIdx`. */
  method ByteToCharOffsets(text: Utf8.String, boundaries: seq<nat>) returns (out: seq<u32>)
    requires NonDecreasing(boundaries)
    ensures |out| == |boundaries|
    ensures forall j :: 0 <= j < |out| ==> out[j] == ClampU32(CharsBefore(text, boundaries[j]))
  {
    out := [];
    var charIdx, next := 0, 0;
    for j := 0 to |boundaries|
      invariant charIdx <= |text| && next == Offset(text, charIdx)
      invariant charIdx > 0 ==> exists i :: 0 <= i < j && Offset(text, charIdx - 1) < boundaries[i]
      invariant |out| == j
      invariant forall i :: 0 <= i < j ==> out[i] == ClampU32(CharsBefore(text, boundaries[i]))
    {
      var target := boundaries[j];
      while charIdx < |text| && next < target
        invariant charIdx <= |text| && next == Offset(text, charIdx)
        invariant charIdx > 0 ==> Offset(text, charIdx - 1) < target
      {
        OffsetStep(text, charIdx);
        next := next + |Utf8.EncodeScalar(text[charIdx])|;
        charIdx := charIdx + 1;
      }
      CharsBeforeIs(text, target, charIdx);
      out := out + [ClampU32(charIdx)];
    }
  }

  // ----- Detection

  /** Byte boundaries, two a match, in order. */
  predicate BoundariesOf(kept: seq<RawMatch>, boundaries: seq<nat>) {
    && |boundaries| == 2 * |kept|
    && forall k :: 0 <= k < |kept| ==> boundaries[2 * k] == kept[k].start && boundaries[2 * k + 1] == kept[k].end
  }

  lemma BoundariesNonDecreasing(kept: seq<RawMatch>, boundaries: seq<nat>)
    requires NonEmptySpans(kept) && Disjoint(kept) && BoundariesOf(kept, boundaries)
    ensures NonDecreasing(boundaries)
  {
    forall j, k | 0 <= j < k < |boundaries|
      ensures boundaries[j] <= boundaries[k]
    {
      var a, b := j / 2, k / 2;
      assert kept[a] in kept && kept[b] in kept;
      assert boundaries[j] <= kept[a].end && (j == 2 * a ==> boundaries[j] == kept[a].start) by {
        assert j == 2 * a || j == 2 * a + 1;
      }
      assert boundaries[k] >= kept[b].start && (k == 2 * b + 1 ==> boundaries[k] == kept[b].end) by {
        assert k == 2 * b || k == 2 * b + 1;
      }
    }
  }

  /** The boundary loop of `DetectSecrets`. */
  method Boundaries(kept: seq<RawMatch>) returns (boundaries: seq<nat>)
    requires NonEmptySpans(kept) && Disjoint(kept)
    ensures BoundariesOf(kept, boundaries) && NonDecreasing(boundaries)
  {
    boundaries := [];
    for i := 0 to |kept|
      invariant BoundariesOf(kept[..i], boundaries)
    {
      boundaries := boundaries + [kept[i].start, kept[i].end];
    }
    assert kept[..|kept|] == kept;
    BoundariesNonDecreasing(kept, boundaries);
  }

  /** `m` with its byte offsets converted to scalar offsets. */
  ghost function InScalars(text: Utf8.String, m: RawMatch): SecretMatch {
    SecretMatch(m.kind, ClampU32(CharsBefore(text, m.start)), ClampU32(CharsBefore(text, m.end)), m.confidence)
  }

  /** The conversion of `DetectSecrets`: all boundaries in one walk, then two offsets a match. */
  method ConvertOffsets(text: Utf8.String, kept: seq<RawMatch>) returns (r: seq<SecretMatch>)
    requires NonEmptySpans(kept) && Disjoint(kept)
    ensures |r| == |kept|
    ensures forall i :: 0 <= i < |r| ==> r[i] == InScalars(text, kept[i])
    ensures forall i :: 0 <= i < |r| ==> r[i].kind == kept[i].kind && r[i].confidence == kept[i].confidence
  {
    hide CharsBefore, NonEmptySpans, Disjoint, NonDecreasing;
    var boundaries := Boundaries(kept);
    var chars := ByteToCharOffsets(text, boundaries);
    r := seq(|kept|, i requires 0 <= i < |kept| =>
               SecretMatch(kept[i].kind, chars[2 * i], chars[2 * i + 1], kept[i].confidence));
  }

  method DetectSecrets(text: Utf8.String, hits: PatternHits, config: Config) returns (r: seq<SecretMatch>)
    requires ValidHits(hits)
    ensures var kept := Merged(Collected(text, hits, config));
            && |r| == |kept|
            && forall i :: 0 <= i < |r| ==>
                 && r[i] == InScalars(text, kept[i])
                 && r[i].kind == kept[i].kind && r[i].confidence == kept[i].confidence
  {
    CollectedParts(text, hits, config);
    MergedCorrect(Collected(text, hits, config));
    hide Merged, Collected, ValidHits, InScalars, NonEmptySpans, Disjoint;
    var all := CollectRaw(text, hits, config);
    var kept := MergeNonOverlapping(all.items);
    if kept == [] {
      return [];
    }
    r := ConvertOffsets(text, kept);
  }

  method IsSecret(text: Utf8.String, hits: PatternHits, config: Config) returns (r: bool)
    requires ValidHits(hits)
    ensures r <==> Merged(Collected(text, hits, config)) != []
  {
    var all := CollectRaw(text, hits, config);
    CollectedParts(text, hits, config);
    MergedCorrect(all.items);
    r := all.items != [];
  }

  // ----- Reported offsets are exact

  /** `p` is where some scalar starts, or the end of the text. */
  predicate IsBoundary(text: Utf8.String, p: nat) {
    exists k :: 0 <= k <= |text| && Offset(text, k) == p
  }

  predicate OnBoundaries(text: Utf8.String, ms: seq<RawMatch>) {
    forall m :: m in ms ==> IsBoundary(text, m.start) && IsBoundary(text, m.end)
  }

  lemma BoundaryCount(text: Utf8.String, k: nat)
    requires k <= |text|
    ensures CharsBefore(text, Offset(text, k)) == k
  {
    if k > 0 {
      OffsetsIncrease(text, k - 1, k);
    }
    CharsBeforeIs(text, Offset(text, k), k);
  }

  lemma EncodedSlice(text: Utf8.String, a: nat, b: nat)
    requires a <= b <= |text|
    ensures Offset(text, a) <= Offset(text, b) <= |Utf8.Encode(text)|
    ensures Utf8.Encode(text[a..b]) == Utf8.Encode(text)[Offset(text, a)..Offset(text, b)]
  {
    assert text[..b] == text[..a] + text[a..b];
    assert text == text[..b] + text[b..];
    Utf8.EncodeConcat(text[..a], text[a..b]);
    Utf8.EncodeConcat(text[..b], text[b..]);
  }

  lemma AsciiByteOfScalar(c: Utf8.Scalar, i: nat)
    requires i < |Utf8.EncodeScalar(c)| && Utf8.EncodeScalar(c)[i] < 0x80
    ensures i == 0 && |Utf8.EncodeScalar(c)| == 1
  {
  }

  /** An ASCII byte is a whole scalar, so both its sides are boundaries. */
  lemma {:induction false} AsciiIsWhole(text: Utf8.String, p: nat)
    requires p < |Utf8.Encode(text)| && Utf8.Encode(text)[p] < 0x80
    ensures IsBoundary(text, p) && IsBoundary(text, p + 1)
  {
    hide Utf8.EncodeScalar, IsBoundary;
    var n := |text| - 1;
    var init, last := text[..n], [text[n]];
    assert text == init + last;
    Utf8.EncodeConcat(init, last);
    assert Utf8.Encode(last) == Utf8.EncodeScalar(text[n]) + Utf8.Encode([]) == Utf8.EncodeScalar(text[n]);
    var start := |Utf8.Encode(init)|;
    if p < start {
      AsciiIsWhole(init, p);
      PrefixBoundary(text, n, p);
      PrefixBoundary(text, n, p + 1);
    } else {
      AsciiByteOfScalar(text[n], p - start);
      assert text[..n + 1] == text;
      OffsetIsBoundary(text, n);
      OffsetIsBoundary(text, n + 1);
    }
  }

  lemma OffsetIsBoundary(text: Utf8.String, k: nat)
    requires k <= |text|
    ensures IsBoundary(text, Offset(text, k))
  {
  }

  lemma PrefixBoundary(text: Utf8.String, n: nat, p: nat)
    requires n <= |text| && IsBoundary(text[..n], p)
    ensures IsBoundary(text, p)
  {
    var k :| 0 <= k <= n && Offset(text[..n], k) == p;
    assert text[..n][..k] == text[..k];
    assert Offset(text, k) == p;
  }

  lemma EntropyOnBoundaries(text: Utf8.String, hits: PatternHits, config: Config)
    ensures OnBoundaries(text, EntropyHits(text, hits, config))
  {
    var bytes := Utf8.Encode(text);
    ScanExactly(bytes, config, Occupied(hits));
    forall m | m in EntropyHits(text, hits, config)
      ensures IsBoundary(text, m.start) && IsBoundary(text, m.end)
    {
      assert IsTokenByte(bytes[m.start]) && IsTokenByte(bytes[m.end - 1]);
      AsciiIsWhole(text, m.start);
      AsciiIsWhole(text, m.end - 1);
    }
  }

  /** What a caller slices out of the text for a match in byte offsets. */
  ghost function ReportedSlice(text: Utf8.String, m: RawMatch): Option<Utf8.String> {
    var r := InScalars(text, m);
    if r.start <= r.end <= |text| then Some(text[r.start..r.end]) else None
  }

  lemma SliceAtBoundaries(text: Utf8.String, m: RawMatch)
    requires IsBoundary(text, m.start) && IsBoundary(text, m.end) && m.start < m.end
    ensures m.end <= |Utf8.Encode(text)| && ReportedSlice(text, m).Some?
    ensures Utf8.Encode(ReportedSlice(text, m).value) == Utf8.Encode(text)[m.start..m.end] <==>
              CharsBefore(text, m.end) <= U32_MAX
  {
    var a :| 0 <= a <= |text| && Offset(text, a) == m.start;
    var b :| 0 <= b <= |text| && Offset(text, b) == m.end;
    BoundaryCount(text, a);
    BoundaryCount(text, b);
    if b < a {
      OffsetsIncrease(text, b, a);
    }
    EncodedSlice(text, a, b);
    hide CharsBefore, Offset;
    if b > U32_MAX {
      var start := ClampU32(a);
      EncodedSlice(text, start, U32_MAX);
      OffsetsIncrease(text, U32_MAX, b);
      if start < a {
        OffsetsIncrease(text, start, a);
      }
    }
  }

  /** For literal matches on character boundaries, slicing the text's scalars at a match's reported
      offsets gives back exactly the matched bytes, if and only if the match ends within the first
      u32::MAX scalars of the text. */
  lemma ReportedOffsetsExact(text: Utf8.String, hits: PatternHits, config: Config, m: RawMatch)
    requires ValidHits(hits) && OnBoundaries(text, Literals(hits))
    requires m in Merged(Collected(text, hits, config))
    ensures m.start < m.end <= |Utf8.Encode(text)| && ReportedSlice(text, m).Some?
    ensures Utf8.Encode(ReportedSlice(text, m).value) == Utf8.Encode(text)[m.start..m.end] <==>
              CharsBefore(text, m.end) <= U32_MAX
  {
    CollectedParts(text, hits, config);
    MergedCorrect(Collected(text, hits, config));
    EntropyOnBoundaries(text, hits, config);
    hide Merged, IsBoundary, CharsBefore, Literals, EntropyHits, ReportedSlice;
    assert m in Literals(hits) || m in EntropyHits(text, hits, config);
    SliceAtBoundaries(text, m);
  }

  lemma {:induction false} NoUrlsRetainAll(ms: seq<RawMatch>)
    ensures OutsideSpans(ms, []) == ms
  {
    if ms != [] {
      NoUrlsRetainAll(ms[1..]);
    }
  }

  lemma NoLiterals(hits: PatternHits)
    ensures Literals(hits) == [] <==>
              hits.provider == [] && hits.gated == [] && hits.urls == [] && hits.kv == [] && hits.user == []
  {
    if hits.urls == [] {
      NoUrlsRetainAll(hits.kv);
      assert SpansOf(hits.urls) == [];
    }
  }

  /** Some maximal run of the text qualifies outside `spans`. */
  ghost predicate SomeRunQualifies(text: Utf8.String, config: Config, spans: seq<(nat, nat)>) {
    exists m :: Reportable(Utf8.Encode(text), config, spans, m)
  }

  lemma SomeEntropyHit(text: Utf8.String, hits: PatternHits, config: Config)
    requires Literals(hits) == []
    ensures EntropyHits(text, hits, config) != [] <==> SomeRunQualifies(text, config, hits.dataUris)
  {
    assert Occupied(hits) == hits.dataUris;
    var bytes := Utf8.Encode(text);
    ScanExactly(bytes, config, hits.dataUris);
    var ms := Scan(bytes, 0, config, hits.dataUris);
    hide Scan, Reportable, Literals;
    if ms != [] {
      assert ms[0] in ms;
      assert Reportable(bytes, config, hits.dataUris, ms[0]);
    }
  }

  /** The two public queries agree: a text is secret exactly when detection reports something, which is
      exactly when some pattern source found anything, or some maximal run qualifies outside the data URIs. */
  lemma SecretIffDetected(text: Utf8.String, hits: PatternHits, config: Config)
    requires ValidHits(hits)
    ensures Merged(Collected(text, hits, config)) != [] <==>
              || hits.provider != [] || hits.gated != [] || hits.urls != [] || hits.kv != [] || hits.user != []
              || SomeRunQualifies(text, config, hits.dataUris)
  {
    CollectedParts(text, hits, config);
    MergedCorrect(Collected(text, hits, config));
    hide Literals, EntropyHits, Merged, SomeRunQualifies;
    NoLiterals(hits);
    if Literals(hits) == [] {
      SomeEntropyHit(text, hits, config);
    }
  }
}
