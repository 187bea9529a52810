/**
 The high-entropy scan. A text is its UTF-8 bytes here. The entropy test is arithmetic over the reals, with
 the binary logarithm a function value: rounding is not modelled.
 */
module Entropy {
  import opened Base

  datatype SecretKind =
    | GithubToken | OpenAiKey | StripeKey | GitlabToken | AwsAccessKeyId | Jwt | SlackToken | GoogleApiKey
    | PrivateKeyBlock | BearerToken | UrlEmbeddedSecret | KeyValueSecret | ApiToken | HighEntropyString | UserDefined

  datatype Confidence = High | Medium

  /** A match in byte offsets, end-exclusive. */
  datatype RawMatch = RawMatch(start: nat, end: nat, kind: SecretKind, confidence: Confidence)

  const ENTROPY_RATIO: real := 0.85
  const ENTROPY_REF_CAP: real := 6.0

  datatype Config = Config(minEntropyLen: u32, entropyBits: real, log2: real -> real)

  predicate Overlap(start: nat, end: nat, s: nat, e: nat) {
    start < e && s < end
  }

  predicate OverlapsAny(start: nat, end: nat, spans: seq<(nat, nat)>) {
    exists span :: span in spans && Overlap(start, end, span.0, span.1)
  }

  predicate Inside(p: nat, start: nat, end: nat) {
    start <= p < end
  }

  /** Non-empty spans overlap exactly when they share a position; spans that only touch do not. */
  lemma OverlapExactly(start: nat, end: nat, s: nat, e: nat)
    requires start < end && s < e
    ensures Overlap(start, end, s, e) <==> exists p :: 0 <= p && Inside(p, start, end) && Inside(p, s, e)
    ensures !Overlap(start, end, end, e) && !Overlap(end, e, start, end)
  {
    if Overlap(start, end, s, e) {
      var p := if start < s then s else start;
      assert Inside(p, start, end) && Inside(p, s, e);
    }
  }

  datatype CharClass = Lower | Upper | Digit | Special | Other

  function ClassOf(b: u8): CharClass {
    if 0x61 <= b <= 0x7A then Lower
    else if 0x41 <= b <= 0x5A then Upper
    else if 0x30 <= b <= 0x39 then Digit
    else if b == 0x2B || b == 0x3D then Special
    else Other
  }

  predicate IsTokenByte(b: u8) {
    ClassOf(b) != Other
  }

  predicate IsPlainHex(run: seq<u8>) {
    forall b :: b in run ==> 0x30 <= b <= 0x39 || 0x41 <= b <= 0x46 || 0x61 <= b <= 0x66
  }

  /** The character classes a run mixes. */
  function Classes(run: seq<u8>): set<CharClass> {
    set b | b in run && ClassOf(b) != Other :: ClassOf(b)
  }

  /** What a symbol that occurs `count` times among `total` adds to the entropy. */
  function EntropyTerm(count: nat, total: nat, log2: real -> real): real
    requires total > 0
  {
    if count == 0 then 0.0
    else
      var p := count as real / total as real;
      -p * log2(p)
  }

  /** The terms of the byte values below `n`. */
  function EntropyBelow(run: seq<u8>, n: nat, log2: real -> real): real
    requires run != [] && n <= 256
  {
    if n == 0 then 0.0
    else EntropyBelow(run, n - 1, log2) + EntropyTerm(multiset(run)[(n - 1) as u8], |run|, log2)
  }

  /** Shannon entropy in bits per character. */
  function Shannon(run: seq<u8>, log2: real -> real): real {
    if run == [] then 0.0 else EntropyBelow(run, 256, log2)
  }

  /** The entropy floor, and the fraction of the most that the run's length allows. */
  predicate ClearsEntropy(run: seq<u8>, config: Config)
    requires run != []
  {
    var h := Shannon(run, config.log2);
    var possible := config.log2(|run| as real);
    && h >= config.entropyBits
    && h >= ENTROPY_RATIO * (if possible < ENTROPY_REF_CAP then possible else ENTROPY_REF_CAP)
  }

  /** `len as u32` truncates the run's length to 32 bits. */
  predicate Qualifies(run: seq<u8>, config: Config)
    requires run != []
  {
    && LengthField(|run|) >= config.minEntropyLen
    && !IsPlainHex(run)
    && |Classes(run)| >= 3
    && ClearsEntropy(run, config)
  }

  lemma ClassesSize(classes: set<CharClass>)
    requires Other !in classes
    ensures |classes| == (if Lower in classes then 1 else 0) + (if Upper in classes then 1 else 0)
                         + (if Digit in classes then 1 else 0) + (if Special in classes then 1 else 0)
  {
    var a := classes - {Lower};
    var b := a - {Upper};
    var c := b - {Digit};
    var d := c - {Special};
    assert d == {} by {
      forall x
        ensures x !in d
      {
        match x
        case Lower | Upper | Digit | Special | Other =>
      }
    }
    assert |c| == |d| + (if Special in c then 1 else 0);
    assert |b| == |c| + (if Digit in b then 1 else 0);
    assert |a| == |b| + (if Upper in a then 1 else 0);
  }

  lemma ClassesOfNext(run: seq<u8>, i: nat)
    requires i < |run|
    ensures Classes(run[..i + 1])
         == Classes(run[..i]) + (if ClassOf(run[i]) == Other then {} else {ClassOf(run[i])})
  {
    assert run[..i + 1] == run[..i] + [run[i]];
  }

  method ClassCount(run: seq<u8>) returns (n: nat)
    ensures n == |Classes(run)|
  {
    var lower, upper, digit, special := false, false, false, false;
    for i := 0 to |run|
      invariant lower <==> Lower in Classes(run[..i])
      invariant upper <==> Upper in Classes(run[..i])
      invariant digit <==> Digit in Classes(run[..i])
      invariant special <==> Special in Classes(run[..i])
    {
      hide Classes, ClassOf;
      ClassesOfNext(run, i);
      match ClassOf(run[i]) {
        case Lower => lower := true;
        case Upper => upper := true;
        case Digit => digit := true;
        case Special => special := true;
        case Other =>
      }
    }
    assert run[..|run|] == run;
    ClassesSize(Classes(run));
    n := (if lower then 1 else 0) + (if upper then 1 else 0) + (if digit then 1 else 0) + (if special then 1 else 0);
  }

  method ShannonEntropy(run: seq<u8>, log2: real -> real) returns (h: real)
    ensures h == Shannon(run, log2)
  {
    var counts := CountBytes(run);
    if |run| == 0 {
      return 0.0;
    }
    h := 0.0;
    for n := 0 to 256
      invariant h == EntropyBelow(run, n, log2)
    {
      h := h + EntropyTerm(counts[n], |run|, log2);
    }
  }

  /** The counting loop of `ShannonEntropy`. */
  method CountBytes(run: seq<u8>) returns (counts: array<nat>)
    ensures counts.Length == 256
    ensures forall b: u8 :: counts[b] == multiset(run)[b]
  {
    counts := new nat[256](_ => 0);
    for i := 0 to |run|
      invariant forall b: u8 :: counts[b] == multiset(run[..i])[b]
    {
      assert run[..i + 1] == run[..i] + [run[i]];
      counts[run[i]] := counts[run[i]] + 1;
    }
    assert run[..|run|] == run;
  }

  method RunQualifies(run: seq<u8>, config: Config) returns (r: bool)
    requires run != []
    ensures r == Qualifies(run, config)
  {
    if LengthField(|run|) < config.minEntropyLen {
      return false;
    }
    if IsPlainHex(run) {
      return false;
    }
    var classes := ClassCount(run);
    if classes < 3 {
      return false;
    }
    var h := ShannonEntropy(run, config.log2);
    if h < config.entropyBits {
      return false;
    }
    var possible := config.log2(|run| as real);
    r := h >= ENTROPY_RATIO * (if possible < ENTROPY_REF_CAP then possible else ENTROPY_REF_CAP);
  }

  // ----- What the qualification depends on

  lemma {:induction false} EntropyBelowIgnoresOrder(a: seq<u8>, b: seq<u8>, n: nat, log2: real -> real)
    requires a != [] && b != [] && n <= 256 && multiset(a) == multiset(b) && |a| == |b|
    ensures EntropyBelow(a, n, log2) == EntropyBelow(b, n, log2)
  {
    if n > 0 {
      EntropyBelowIgnoresOrder(a, b, n - 1, log2);
    }
  }

  /** Whether a run qualifies depends only on how often each byte occurs in it. */
  lemma QualifiesIgnoresOrder(a: seq<u8>, b: seq<u8>, config: Config)
    requires a != [] && b != [] && multiset(a) == multiset(b)
    ensures Qualifies(a, config) == Qualifies(b, config)
    ensures Shannon(a, config.log2) == Shannon(b, config.log2)
  {
    assert |multiset(a)| == |multiset(b)|;
    forall x
      ensures x in a <==> x in b
    {
      assert x in a <==> x in multiset(a);
      assert x in b <==> x in multiset(b);
    }
    assert Classes(a) == Classes(b);
    EntropyBelowIgnoresOrder(a, b, 256, config.log2);
  }

  // ----- The entropy is the mean surprisal

  /** How surprising byte `b` is in the run: minus the logarithm of its frequency. */
  function Surprisal(run: seq<u8>, b: u8, log2: real -> real): real
    requires run != []
  {
    -log2(multiset(run)[b] as real / |run| as real)
  }

  /** `c` parts out of `total` of `x`. */
  function Share(c: nat, total: nat, x: real): real
    requires total > 0
  {
    c as real / total as real * x
  }

  /** The surprisals of the first `k` characters of the run, added up and divided by the run's length. */
  function SurprisalShare(run: seq<u8>, k: nat, log2: real -> real): real
    requires run != [] && k <= |run|
  {
    if k == 0 then 0.0
    else SurprisalShare(run, k - 1, log2) + Share(1, |run|, Surprisal(run, run[k - 1], log2))
  }

  /** The same with equal characters taken together, for the byte values below `n`. */
  function GroupedShare(run: seq<u8>, k: nat, n: nat, log2: real -> real): real
    requires run != [] && k <= |run| && n <= 256
  {
    if n == 0 then 0.0
    else
      var b: u8 := n - 1;
      GroupedShare(run, k, n - 1, log2) + Share(multiset(run[..k])[b], |run|, Surprisal(run, b, log2))
  }

  lemma OneMore(c: nat, total: nat, x: real)
    requires total > 0
    ensures Share(c + 1, total, x) == Share(c, total, x) + Share(1, total, x)
    ensures Share(0, total, x) == 0.0
  {
    var t := total as real;
    assert (c + 1) as real / t == c as real / t + 1.0 / t;
  }

  lemma CountStep(run: seq<u8>, k: nat, b: u8)
    requires k < |run|
    ensures multiset(run[..k + 1])[b] == multiset(run[..k])[b] + (if run[k] == b then 1 else 0)
  {
    assert run[..k + 1] == run[..k] + [run[k]];
  }

  lemma {:induction false} GroupedStep(run: seq<u8>, k: nat, n: nat, log2: real -> real)
    requires run != [] && k < |run| && n <= 256
    ensures GroupedShare(run, k + 1, n, log2)
         == GroupedShare(run, k, n, log2)
            + (if run[k] < n then Share(1, |run|, Surprisal(run, run[k], log2)) else 0.0)
  {
    hide Surprisal, Share;
    if n > 0 {
      GroupedStep(run, k, n - 1, log2);
      var b: u8 := n - 1;
      CountStep(run, k, b);
      OneMore(multiset(run[..k])[b], |run|, Surprisal(run, b, log2));
    }
  }

  lemma {:induction false} GroupedNone(run: seq<u8>, n: nat, log2: real -> real)
    requires run != [] && n <= 256
    ensures GroupedShare(run, 0, n, log2) == 0.0
  {
    hide Surprisal, Share;
    if n > 0 {
      GroupedNone(run, n - 1, log2);
      assert run[..0] == [];
      OneMore(0, |run|, Surprisal(run, (n - 1) as u8, log2));
    }
  }

  lemma {:induction false} SharesAgree(run: seq<u8>, k: nat, n: nat, log2: real -> real)
    requires run != [] && k <= |run| && n == 256
    ensures SurprisalShare(run, k, log2) == GroupedShare(run, k, n, log2)
  {
    hide Surprisal, Share;
    if k == 0 {
      GroupedNone(run, n, log2);
    } else {
      SharesAgree(run, k - 1, n, log2);
      GroupedStep(run, k - 1, n, log2);
    }
  }

  lemma {:induction false} GroupedIsEntropy(run: seq<u8>, n: nat, log2: real -> real)
    requires run != [] && n <= 256
    ensures GroupedShare(run, |run|, n, log2) == EntropyBelow(run, n, log2)
  {
    if n > 0 {
      GroupedIsEntropy(run, n - 1, log2);
      assert run[..|run|] == run;
    }
  }

  /** The entropy of a run is the mean surprisal of its characters. */
  lemma EntropyIsMeanSurprisal(run: seq<u8>, log2: real -> real)
    ensures Shannon(run, log2) == if run == [] then 0.0 else SurprisalShare(run, |run|, log2)
  {
    if run != [] {
      SharesAgree(run, |run|, 256, log2);
      GroupedIsEntropy(run, 256, log2);
    }
  }

  lemma {:induction false} EqualShares(run: seq<u8>, k: nat, h: real, log2: real -> real)
    requires run != [] && k <= |run|
    requires forall i :: 0 <= i < |run| ==> Surprisal(run, run[i], log2) == h
    ensures SurprisalShare(run, k, log2) == Share(k, |run|, h)
  {
    hide Surprisal, Share;
    OneMore(0, |run|, h);
    if k > 0 {
      EqualShares(run, k - 1, h, log2);
      OneMore(k - 1, |run|, h);
    }
  }

  /** When every byte that occurs does so `c` times, the entropy is minus the logarithm of that frequency. */
  lemma EvenRunEntropy(run: seq<u8>, c: nat, log2: real -> real)
    requires run != [] && forall b :: b in run ==> multiset(run)[b] == c
    ensures Shannon(run, log2) == -log2(c as real / |run| as real)
  {
    EntropyIsMeanSurprisal(run, log2);
    hide Shannon, SurprisalShare;
    var h := -log2(c as real / |run| as real);
    forall i | 0 <= i < |run|
      ensures Surprisal(run, run[i], log2) == h
    {
      assert run[i] in run;
    }
    hide Surprisal;
    EqualShares(run, |run|, h, log2);
    Fraction(|run|, |run|);
  }

  lemma Occurrences(run: seq<u8>, i: nat)
    requires i < |run|
    ensures 0 < multiset(run)[run[i]] <= |run|
  {
    assert run[i] in multiset(run);
    assert multiset(run)[run[i]] <= |multiset(run)|;
  }

  lemma Fraction(c: nat, total: nat)
    requires 0 < c <= total
    ensures 0.0 < c as real / total as real <= 1.0
    ensures c == total ==> c as real / total as real == 1.0
  {
  }

  lemma ShareNonNegative(c: nat, total: nat, x: real)
    requires total > 0 && x >= 0.0
    ensures Share(c, total, x) >= 0.0
  {
    var y := c as real / total as real;
    assert y >= 0.0;
    assert y * x >= 0.0;
  }

  lemma SurprisalNonNegative(run: seq<u8>, i: nat, log2: real -> real)
    requires i < |run|
    requires forall x :: 0.0 < x <= 1.0 ==> log2(x) <= 0.0
    ensures Surprisal(run, run[i], log2) >= 0.0
  {
    Occurrences(run, i);
    Fraction(multiset(run)[run[i]], |run|);
  }

  lemma {:induction false} SharesNonNegative(run: seq<u8>, k: nat, log2: real -> real)
    requires run != [] && k <= |run|
    requires forall x :: 0.0 < x <= 1.0 ==> log2(x) <= 0.0
    ensures SurprisalShare(run, k, log2) >= 0.0
  {
    hide Surprisal, Share;
    if k > 0 {
      SharesNonNegative(run, k - 1, log2);
      SurprisalNonNegative(run, k - 1, log2);
      ShareNonNegative(1, |run|, Surprisal(run, run[k - 1], log2));
    }
  }

  /** Entropy is never negative. */
  lemma EntropyNonNegative(run: seq<u8>, log2: real -> real)
    requires forall x :: 0.0 < x <= 1.0 ==> log2(x) <= 0.0
    ensures Shannon(run, log2) >= 0.0
  {
    EntropyIsMeanSurprisal(run, log2);
    if run != [] {
      SharesNonNegative(run, |run|, log2);
    }
  }

  // ----- What qualifies

  function CharOf(b: u8): char {
    b as char
  }

  predicate InRange(b: u8, first: char, last: char) {
    first <= CharOf(b) <= last
  }

  predicate Mixes(run: seq<u8>, first: char, last: char) {
    exists b :: b in run && InRange(b, first, last)
  }

  /** The alphabet of a candidate run: letters, digits, plus and equals. */
  lemma TokenBytesExactly(b: u8)
    ensures IsTokenByte(b) <==> InRange(b, 'a', 'z') || InRange(b, 'A', 'Z') || InRange(b, '0', '9')
                                || CharOf(b) == '+' || CharOf(b) == '='
  {
  }

  /** The number of kinds of character a run has, among lower case, upper case, digits, and plus or equals. */
  function Kinds(run: seq<u8>): nat {
    (if Mixes(run, 'a', 'z') then 1 else 0) + (if Mixes(run, 'A', 'Z') then 1 else 0)
    + (if Mixes(run, '0', '9') then 1 else 0)
    + (if Mixes(run, '+', '+') || Mixes(run, '=', '=') then 1 else 0)
  }

  lemma ClassesAreKinds(run: seq<u8>)
    ensures |Classes(run)| == Kinds(run)
  {
    ClassesSize(Classes(run));
  }

  /** A run qualifies exactly when its length, as a u32, reaches the minimum, some character is no hex digit,
      three of the four kinds occur, and its entropy reaches the floor and 85 per cent of what its length
      allows, or of six bits. */
  lemma QualifiesExactly(run: seq<u8>, config: Config)
    requires run != []
    ensures Qualifies(run, config) <==>
              && |run| % 0x1_0000_0000 >= config.minEntropyLen
              && (exists b :: b in run && !InRange(b, '0', '9') && !InRange(b, 'A', 'F') && !InRange(b, 'a', 'f'))
              && Kinds(run) >= 3
              && Shannon(run, config.log2) >= config.entropyBits
              && Shannon(run, config.log2)
                 >= 0.85 * (if config.log2(|run| as real) < 6.0 then config.log2(|run| as real) else 6.0)
  {
    hide Shannon;
    ClassesAreKinds(run);
    hide Classes, Kinds;
    assert IsPlainHex(run) <==>
        !exists b :: b in run && !InRange(b, '0', '9') && !InRange(b, 'A', 'F') && !InRange(b, 'a', 'f');
  }

  // ----- Constant runs

  predicate Constant(run: seq<u8>, b: u8) {
    forall i :: 0 <= i < |run| ==> run[i] == b
  }

  lemma {:induction false} CountInConstant(run: seq<u8>, b: u8, x: u8)
    requires Constant(run, b)
    ensures multiset(run)[x] == if x == b then |run| else 0
  {
    if run != [] {
      var init := run[..|run| - 1];
      CountInConstant(init, b, x);
      assert run == init + [b];
    }
  }

  lemma {:induction false} ConstantRunTerms(run: seq<u8>, b: u8, n: nat, log2: real -> real)
    requires run != [] && Constant(run, b) && n <= 256 && log2(1.0) == 0.0
    ensures EntropyBelow(run, n, log2) == 0.0
  {
    if n > 0 {
      ConstantRunTerms(run, b, n - 1, log2);
      CountInConstant(run, b, (n - 1) as u8);
      assert |run| as real / |run| as real == 1.0;
    }
  }

  /** A run of one repeated byte carries no entropy, so any positive floor rejects it. */
  lemma ConstantRunHasNoEntropy(run: seq<u8>, b: u8, log2: real -> real)
    requires Constant(run, b) && log2(1.0) == 0.0
    ensures Shannon(run, log2) == 0.0
  {
    if run != [] {
      ConstantRunTerms(run, b, 256, log2);
    }
  }

  /** The end of the run of token bytes that contains position `i`. */
  function RunEnd(bytes: seq<u8>, i: nat): (end: nat)
    requires i <= |bytes|
    ensures i <= end <= |bytes|
    ensures forall k :: i <= k < end ==> IsTokenByte(bytes[k])
    ensures end < |bytes| ==> !IsTokenByte(bytes[end])
    decreases |bytes| - i
  {
    if i < |bytes| && IsTokenByte(bytes[i]) then RunEnd(bytes, i + 1) else i
  }

  function EntropyMatch(start: nat, end: nat): RawMatch {
    RawMatch(start, end, HighEntropyString, Medium)
  }

  /** The matches the scan reports from position `i` on. */
  function Scan(bytes: seq<u8>, i: nat, config: Config, occupied: seq<(nat, nat)>): seq<RawMatch>
    requires i <= |bytes|
    decreases |bytes| - i
  {
    if i == |bytes| then []
    else if !IsTokenByte(bytes[i]) then Scan(bytes, i + 1, config, occupied)
    else
      var end := RunEnd(bytes, i + 1);
      (if Qualifies(bytes[i..end], config) && !OverlapsAny(i, end, occupied) then [EntropyMatch(i, end)] else [])
      + Scan(bytes, end, config, occupied)
  }

  method HighEntropyMatches(bytes: seq<u8>, config: Config, occupied: seq<(nat, nat)>, out: Vec<RawMatch>)
    modifies out
    ensures out.items == old(out.items) + Scan(bytes, 0, config, occupied)
  {
    var i := 0;
    while i < |bytes|
      invariant i <= |bytes|
      invariant out.items + Scan(bytes, i, config, occupied) == old(out.items) + Scan(bytes, 0, config, occupied)
    {
      if !IsTokenByte(bytes[i]) {
        i := i + 1;
        continue;
      }
      var start := i;
      ghost var before := out.items;
      while i < |bytes| && IsTokenByte(bytes[i])
        invariant start <= i <= |bytes|
        invariant RunEnd(bytes, i) == RunEnd(bytes, start)
      {
        i := i + 1;
      }
      var end := i;
      var qualifies := RunQualifies(bytes[start..end], config);
      if qualifies && !OverlapsAny(start, end, occupied) {
        out.Push(EntropyMatch(start, end));
      }
      assert Scan(bytes, start, config, occupied)
          == out.items[|before|..] + Scan(bytes, end, config, occupied);
    }
  }

  // ----- The scan is exact

  predicate MaximalRun(bytes: seq<u8>, start: nat, end: nat) {
    && start < end <= |bytes|
    && (forall k :: start <= k < end ==> IsTokenByte(bytes[k]))
    && (start > 0 ==> !IsTokenByte(bytes[start - 1]))
    && (end < |bytes| ==> !IsTokenByte(bytes[end]))
  }

  /** What the scan is to report: a maximal run that qualifies and overlaps no occupied span. */
  predicate Reportable(bytes: seq<u8>, config: Config, occupied: seq<(nat, nat)>, m: RawMatch) {
    && m == EntropyMatch(m.start, m.end)
    && MaximalRun(bytes, m.start, m.end)
    && Qualifies(bytes[m.start..m.end], config)
    && !OverlapsAny(m.start, m.end, occupied)
  }

  /** Matches follow one another with a gap between them. */
  predicate StrictlyApart(ms: seq<RawMatch>) {
    forall j, k :: 0 <= j < k < |ms| ==> ms[j].end < ms[k].start
  }

  lemma {:induction false} ScanFrom(bytes: seq<u8>, i: nat, config: Config, occupied: seq<(nat, nat)>)
    requires i <= |bytes|
    requires 0 < i < |bytes| && IsTokenByte(bytes[i]) ==> !IsTokenByte(bytes[i - 1])
    ensures var ms := Scan(bytes, i, config, occupied);
            && (forall m :: m in ms <==> Reportable(bytes, config, occupied, m) && m.start >= i)
            && StrictlyApart(ms)
    decreases |bytes| - i
  {
    hide Qualifies, OverlapsAny, IsTokenByte, RunEnd;
    if i < |bytes| {
      if !IsTokenByte(bytes[i]) {
        ScanFrom(bytes, i + 1, config, occupied);
      } else {
        var end := RunEnd(bytes, i + 1);
        ScanFrom(bytes, end, config, occupied);
        var rest := Scan(bytes, end, config, occupied);
        forall m | Reportable(bytes, config, occupied, m) && i <= m.start < end
          ensures m == EntropyMatch(i, end)
        {
          OneRunAt(bytes, i, end, m);
        }
        forall m | m in rest
          ensures end < m.start
        {
          assert end < |bytes| ==> !IsTokenByte(bytes[end]);
          assert m.start < |bytes| && IsTokenByte(bytes[m.start]);
        }
      }
    }
  }

  lemma OneRunAt(bytes: seq<u8>, i: nat, end: nat, m: RawMatch)
    requires MaximalRun(bytes, i, end) && MaximalRun(bytes, m.start, m.end)
    requires i <= m.start < end
    ensures m.start == i && m.end == end
  {
  }

  /** The scan reports each maximal run of token bytes that qualifies and overlaps no occupied span, and
      nothing else, once, in increasing order, as a Medium match of the entropy kind. */
  lemma ScanExactly(bytes: seq<u8>, config: Config, occupied: seq<(nat, nat)>)
    ensures forall m :: m in Scan(bytes, 0, config, occupied) <==> Reportable(bytes, config, occupied, m)
    ensures StrictlyApart(Scan(bytes, 0, config, occupied))
    ensures forall m :: m in Scan(bytes, 0, config, occupied) ==>
              m.kind == HighEntropyString && m.confidence == Medium
  {
    ScanFrom(bytes, 0, config, occupied);
  }
}
