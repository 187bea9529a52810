/**
 Runs of many devices' clocks. A log interleaves the devices' clock events; a `Receive` may carry any
 remote stamp at all, one that another device of the log published or one made up outside it.
 */
module ClockRuns {
  import opened Base
  import opened Clock

  datatype Event =
    | Publish(dev: Uuid, now: i64)
    | Receive(dev: Uuid, remote: Hlc, now: i64)

  function Advance(clock: Option<Hlc>, e: Event): Hlc {
    match e
    case Publish(dev, now) => HlcNext(clock, now, dev)
    case Receive(dev, remote, now) => HlcReceive(clock, remote, now, dev)
  }

  /** Device `dev`'s clock after the first `n` events. */
  function ClockAt(log: seq<Event>, n: nat, dev: Uuid): Option<Hlc>
    requires n <= |log|
  {
    if n == 0 then None
    else
      var before := ClockAt(log, n - 1, dev);
      if log[n - 1].dev == dev then Some(Advance(before, log[n - 1])) else before
  }

  /** The clock value event `i` leaves on its device: for a `Publish`, the stamp it issues. */
  function Stamp(log: seq<Event>, i: nat): Hlc
    requires i < |log|
  {
    Advance(ClockAt(log, i, log[i].dev), log[i])
  }

  /** How often `dev` published from a saturated counter and so rolled its wall forward. */
  function Rollovers(log: seq<Event>, n: nat, dev: Uuid): nat
    requires n <= |log|
  {
    if n == 0 then 0
    else
      var clock := ClockAt(log, n - 1, dev);
      var e := log[n - 1];
      Rollovers(log, n - 1, dev)
      + (if e.dev == dev && e.Publish? && clock.Some? && e.now <= clock.value.wall && clock.value.counter == U32_MAX
         then 1 else 0)
  }

  lemma {:induction false} RolloversBounded(log: seq<Event>, n: nat, dev: Uuid)
    requires n <= |log|
    ensures Rollovers(log, n, dev) <= n
  {
    if n > 0 {
      RolloversBounded(log, n - 1, dev);
    }
  }

  // ----- Clock poisoning is bounded

  /** No remote stamp, however skewed, can push a clock past the device's own largest reading by more
      than the drift allowance and one millisecond per counter rollover. */
  lemma {:induction false} PoisoningBounded(log: seq<Event>, n: nat, dev: Uuid, largest: int)
    requires n <= |log|
    requires forall i :: 0 <= i < n && log[i].dev == dev ==> log[i].now <= largest
    ensures ClockAt(log, n, dev).Some? ==>
              ClockAt(log, n, dev).value.wall <= largest + MAX_DRIFT_MILLIS + Rollovers(log, n, dev)
  {
    if n > 0 {
      PoisoningBounded(log, n - 1, dev, largest);
    }
  }

  /** A clock's wall never moves back, and so never falls behind a reading its device has taken. */
  lemma {:induction false} ClockCoversReadings(log: seq<Event>, i: nat, n: nat)
    requires i < n <= |log|
    ensures ClockAt(log, n, log[i].dev).Some?
    ensures ClockAt(log, n, log[i].dev).value.wall >= Stamp(log, i).wall >= log[i].now
  {
    if i < n - 1 {
      ClockCoversReadings(log, i, n - 1);
    }
  }

  // ----- Publishing from the exhausted clock

  /** Event `i` publishes from the exhausted clock. A caller can check this on the previous stamp before it
      issues the next one. */
  predicate ExhaustedPublish(log: seq<Event>, i: nat)
    requires i < |log|
  {
    var clock := ClockAt(log, i, log[i].dev);
    log[i].Publish? && clock.Some? && Exhausted(clock.value)
  }

  /** Device `dev` does not publish from the exhausted clock in the events from `lo` up to `hi`. */
  predicate NeverExhausted(log: seq<Event>, lo: nat, hi: nat, dev: Uuid)
    requires hi <= |log|
  {
    forall i :: lo <= i < hi && log[i].dev == dev ==> !ExhaustedPublish(log, i)
  }

  /** Every reading leaves room below i64::MAX for the drift allowance and one rollover an event. */
  predicate ReadingsInRange(log: seq<Event>) {
    forall i :: 0 <= i < |log| ==> log[i].now + MAX_DRIFT_MILLIS + |log| < I64_MAX
  }

  /** Readings in range are one way never to exhaust a clock. */
  lemma InRangeNeverExhausted(log: seq<Event>)
    requires ReadingsInRange(log)
    ensures forall i :: 0 <= i < |log| ==> !ExhaustedPublish(log, i)
  {
    forall i | 0 <= i < |log|
      ensures !ExhaustedPublish(log, i)
    {
      PoisoningBounded(log, i, log[i].dev, I64_MAX - MAX_DRIFT_MILLIS - |log| - 1);
      RolloversBounded(log, i, log[i].dev);
    }
  }

  /** A device's clock never falls behind a value it has held, unless that device publishes from the
      exhausted clock in between. What other devices do does not matter. */
  lemma {:induction false} ClockMonotone(log: seq<Event>, i: nat, n: nat, dev: Uuid)
    requires i <= n <= |log| && NeverExhausted(log, i, n, dev)
    requires ClockAt(log, i, dev).Some?
    ensures ClockAt(log, n, dev).Some?
    ensures AtLeast(ClockAt(log, n, dev).value, ClockAt(log, i, dev).value)
  {
    if i < n {
      ClockMonotone(log, i, n - 1, dev);
      var before := ClockAt(log, n - 1, dev);
      assert log[n - 1].dev == dev ==> !ExhaustedPublish(log, n - 1);
      match log[n - 1]
      case Publish(_, now) => HlcNextAdvances(before.value, now, dev);
      case Receive(_, remote, now) => HlcReceiveDominates(before, remote, now, dev);
    }
  }

  // ----- Causality

  /** Event `i` comes right before `j`: earlier on the same device, or `j` receives what `i` published
      and the receiver's drift clamp does not touch it. */
  predicate Precedes(log: seq<Event>, i: nat, j: nat) {
    && i < j < |log|
    && (log[i].dev == log[j].dev
        || (log[i].Publish? && log[j].Receive?
            && log[j].remote == Stamp(log, i) && Unclamped(log[j].remote, log[j].now)))
  }

  /** A causal chain through the log, any number of devices and messages long. */
  predicate Chain(log: seq<Event>, path: seq<nat>) {
    var n := |path|;
    && n > 0
    && path[n - 1] < |log|
    && (n > 1 ==> Chain(log, path[..n - 1]) && Precedes(log, path[n - 2], path[n - 1]))
  }

  /** `path` is a chain from `i` to `j`. */
  predicate ChainBetween(log: seq<Event>, path: seq<nat>, i: nat, j: nat) {
    Chain(log, path) && path[0] == i && path[|path| - 1] == j
  }

  /** Event `i` is in the causal past of `j`, or is `j`. */
  ghost predicate InPast(log: seq<Event>, i: nat, j: nat) {
    exists path :: ChainBetween(log, path, i, j)
  }

  lemma {:induction false} ChainOrdered(log: seq<Event>, path: seq<nat>)
    requires Chain(log, path)
    ensures path[0] <= path[|path| - 1] < |log|
  {
    if |path| > 1 {
      ChainOrdered(log, path[..|path| - 1]);
    }
  }

  lemma {:induction false} PrependChain(log: seq<Event>, i: nat, path: seq<nat>)
    requires Chain(log, path) && Precedes(log, i, path[0])
    ensures Chain(log, [i] + path)
  {
    var n := |path|;
    if n == 1 {
      assert ([i] + path)[..1] == [i];
      assert Chain(log, [i]);
    } else {
      PrependChain(log, i, path[..n - 1]);
      assert ([i] + path)[..n] == [i] + path[..n - 1];
    }
  }

  lemma PastSelf(log: seq<Event>, j: nat)
    requires j < |log|
    ensures InPast(log, j, j)
  {
    assert ChainBetween(log, [j], j, j);
  }

  lemma PastForward(log: seq<Event>, i: nat, j: nat, k: nat)
    requires InPast(log, i, j) && Precedes(log, j, k)
    ensures InPast(log, i, k)
  {
    var path :| ChainBetween(log, path, i, j);
    assert (path + [k])[..|path|] == path;
    assert ChainBetween(log, path + [k], i, k);
  }

  lemma PastBackward(log: seq<Event>, i: nat, j: nat, k: nat)
    requires Precedes(log, i, j) && InPast(log, j, k)
    ensures InPast(log, i, k)
  {
    var path :| ChainBetween(log, path, j, k);
    PrependChain(log, i, path);
    assert ChainBetween(log, [i] + path, i, k);
  }

  /** Nothing in the causal past of `j`, itself included, publishes from the exhausted clock. */
  ghost predicate SoundPast(log: seq<Event>, j: nat) {
    forall i :: 0 <= i < |log| && InPast(log, i, j) ==> !ExhaustedPublish(log, i)
  }

  lemma SoundPastBefore(log: seq<Event>, i: nat, j: nat)
    requires Precedes(log, i, j) && SoundPast(log, j)
    ensures SoundPast(log, i)
    ensures log[i].dev == log[j].dev ==> NeverExhausted(log, i, j + 1, log[j].dev)
  {
    forall m | 0 <= m < |log| && InPast(log, m, i)
      ensures !ExhaustedPublish(log, m)
    {
      PastForward(log, m, i, j);
    }
    PastSelf(log, j);
    forall m | i <= m < j && log[i].dev == log[j].dev == log[m].dev
      ensures !ExhaustedPublish(log, m)
    {
      PastBackward(log, m, j, j);
    }
  }

  lemma PrecedesMonotone(log: seq<Event>, i: nat, j: nat)
    requires Precedes(log, i, j)
    requires log[i].dev == log[j].dev ==> NeverExhausted(log, i + 1, j + 1, log[j].dev)
    ensures AtLeast(Stamp(log, j), Stamp(log, i))
    ensures log[j].Publish? ==> Ahead(Stamp(log, j), Stamp(log, i))
  {
    var dev := log[j].dev;
    var before := ClockAt(log, j, dev);
    if log[i].dev == dev {
      assert ClockAt(log, i + 1, dev) == Some(Stamp(log, i));
      ClockMonotone(log, i + 1, j, dev);
      assert !ExhaustedPublish(log, j);
    }
    match log[j]
    case Publish(_, now) => HlcNextAdvances(before.value, now, dev);
    case Receive(_, remote, now) => HlcReceiveDominates(before, remote, now, dev);
  }

  lemma {:induction false} ChainMonotone(log: seq<Event>, path: seq<nat>)
    requires Chain(log, path) && SoundPast(log, path[|path| - 1])
    ensures path[0] <= path[|path| - 1]
    ensures AtLeast(Stamp(log, path[|path| - 1]), Stamp(log, path[0]))
  {
    hide SoundPast, Precedes;
    var n := |path|;
    if n > 1 {
      var i, j := path[n - 2], path[n - 1];
      SoundPastBefore(log, i, j);
      ChainMonotone(log, path[..n - 1]);
      OneLink(log, i, j, path[0]);
    }
  }

  lemma OneLink(log: seq<Event>, i: nat, j: nat, first: nat)
    requires Precedes(log, i, j) && first <= i && AtLeast(Stamp(log, i), Stamp(log, first))
    requires log[i].dev == log[j].dev ==> NeverExhausted(log, i, j + 1, log[j].dev)
    ensures first < j && AtLeast(Stamp(log, j), Stamp(log, first))
    ensures log[j].Publish? ==> Ahead(Stamp(log, j), Stamp(log, first))
  {
    PrecedesMonotone(log, i, j);
  }

  /** The clock condition: a published stamp beats, on every device, every stamp that causally precedes it,
      despite clocks stepping back and counters saturating. Only the causal past must not have published
      from the exhausted clock. */
  lemma CausalOrder(log: seq<Event>, path: seq<nat>)
    requires Chain(log, path) && |path| > 1
    requires SoundPast(log, path[|path| - 1])
    requires log[path[|path| - 1]].Publish?
    ensures path[0] < path[|path| - 1]
    ensures Ahead(Stamp(log, path[|path| - 1]), Stamp(log, path[0]))
    ensures HlcCompare(Stamp(log, path[|path| - 1]), Stamp(log, path[0])) == Greater
  {
    var n := |path|;
    var i, j := path[n - 2], path[n - 1];
    SoundPastBefore(log, i, j);
    ChainMonotone(log, path[..n - 1]);
    OneLink(log, i, j, path[0]);
  }

  /** Publication `j` beats everything that causally precedes it. */
  ghost predicate CausalAt(log: seq<Event>, j: nat)
    requires j < |log|
  {
    forall path :: Chain(log, path) && |path| > 1 && path[|path| - 1] == j ==>
      path[0] < |log| && Ahead(Stamp(log, j), Stamp(log, path[0]))
  }

  /** A device that has a clock got it from its latest event. */
  lemma {:induction false} LatestEvent(log: seq<Event>, n: nat, dev: Uuid) returns (j: nat)
    requires n <= |log| && ClockAt(log, n, dev).Some?
    ensures j < n && log[j].dev == dev && ClockAt(log, n, dev) == Some(Stamp(log, j))
  {
    if log[n - 1].dev == dev {
      j := n - 1;
    } else {
      j := LatestEvent(log, n - 1, dev);
    }
  }

  /** The exact condition for one publication: it beats everything that causally precedes it if and only if
      nothing in its causal past, itself included, published from the exhausted clock. */
  lemma CausalAtExactly(log: seq<Event>, j: nat)
    requires j < |log| && log[j].Publish?
    ensures CausalAt(log, j) <==> SoundPast(log, j)
  {
    if SoundPast(log, j) {
      forall path | Chain(log, path) && |path| > 1 && path[|path| - 1] == j
        ensures path[0] < |log| && Ahead(Stamp(log, j), Stamp(log, path[0]))
      {
        CausalOrder(log, path);
      }
    } else {
      var i :| 0 <= i < |log| && InPast(log, i, j) && ExhaustedPublish(log, i);
      var path :| ChainBetween(log, path, i, j);
      var latest := LatestEvent(log, i, log[i].dev);
      PrependChain(log, latest, path);
      assert Chain(log, [latest] + path) && ([latest] + path)[|path|] == j;
      assert Exhausted(Stamp(log, latest)) && !Ahead(Stamp(log, j), Stamp(log, latest));
    }
  }

  /** The exact condition for a whole run: every publication beats everything that causally precedes it if
      and only if no device ever publishes from the exhausted clock. */
  lemma CausalExactly(log: seq<Event>)
    ensures (forall j :: 0 <= j < |log| && log[j].Publish? ==> CausalAt(log, j))
            <==> (forall i :: 0 <= i < |log| ==> !ExhaustedPublish(log, i))
  {
    forall j | 0 <= j < |log| && log[j].Publish?
      ensures CausalAt(log, j) <==> SoundPast(log, j)
      ensures ExhaustedPublish(log, j) ==> !SoundPast(log, j)
    {
      CausalAtExactly(log, j);
      PastSelf(log, j);
    }
  }

  /** The same for a remote stamp from outside the log: whatever a device received unclamped, its later
      publications, and everything causally after the receipt, beat it. */
  lemma PublishBeatsReceived(log: seq<Event>, path: seq<nat>)
    requires Chain(log, path) && |path| > 1
    requires SoundPast(log, path[|path| - 1])
    requires path[0] < |log| && log[path[0]].Receive? && Unclamped(log[path[0]].remote, log[path[0]].now)
    requires log[path[|path| - 1]].Publish?
    ensures Ahead(Stamp(log, path[|path| - 1]), log[path[0]].remote)
  {
    CausalOrder(log, path);
    var r := log[path[0]];
    HlcReceiveDominates(ClockAt(log, path[0], r.dev), r.remote, r.now, r.dev);
  }

  // ----- Stamps do not repeat

  /** Two publications never share a stamp on two devices, nor on one device that does not publish from the
      exhausted clock after the first of them. */
  lemma StampsDistinct(log: seq<Event>, i: nat, j: nat)
    requires i < j < |log| && log[i].Publish? && log[j].Publish?
    requires log[i].dev == log[j].dev ==> NeverExhausted(log, i + 1, j + 1, log[j].dev)
    ensures HlcCompare(Stamp(log, i), Stamp(log, j)) != Equal
  {
    HlcCompareTotal(Stamp(log, i), Stamp(log, j), Stamp(log, i));
    if log[i].dev == log[j].dev {
      PrecedesMonotone(log, i, j);
    }
  }

  /** What a device publishes from the exhausted clock is always one and the same stamp. */
  lemma ExhaustedStampsEqual(log: seq<Event>, i: nat, j: nat)
    requires i < |log| && j < |log| && log[i].dev == log[j].dev
    requires ExhaustedPublish(log, i) && ExhaustedPublish(log, j)
    ensures Stamp(log, i) == Stamp(log, j) == Hlc(I64_MAX, 0, log[i].dev)
  {
  }

  /** A device publishes at the last millisecond, receives a saturated counter, and publishes again. */
  function ExhaustingLog(dev: Uuid, other: Uuid): seq<Event> {
    [Publish(dev, I64_MAX), Receive(dev, Hlc(I64_MAX, U32_MAX, other), I64_MAX), Publish(dev, I64_MAX)]
  }

  /** The guard is needed: one publication from the exhausted clock can repeat a stamp. */
  lemma ExhaustedStampsCollide(dev: Uuid, other: Uuid)
    ensures var log := ExhaustingLog(dev, other);
            ExhaustedPublish(log, 2) && Stamp(log, 0) == Stamp(log, 2)
  {
    var log := ExhaustingLog(dev, other);
    assert ClockAt(log, 0, dev) == None;
    assert ClockAt(log, 1, dev) == Some(Hlc(I64_MAX, 0, dev));
    assert ClockAt(log, 2, dev) == Some(Hlc(I64_MAX, U32_MAX, dev));
  }
}
