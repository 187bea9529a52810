/**
 The clocks of a vault run are the clocks of a log of publications and receipts, so what the clock promises
 about causality holds of the stamps in the vault's files.
 */
module RunClocks {
  import opened Base
  import opened Clock
  import opened ClockRuns
  import opened Delivery
  import opened Merge
  import opened Recopy
  import opened Retention
  import opened Vault

  // ----- The clock log of a run

  ghost function Receipts(dev: Uuid, reading: i64, envs: seq<Incoming>): seq<Event> {
    seq(|envs|, i requires 0 <= i < |envs| => Receive(dev, envs[i].record.hlc, reading))
  }

  /** What a step does to the clocks: it publishes one stamp, or receives the stamp of every file it pulls. */
  ghost function EventsOf(sys: System, a: Action): seq<Event>
    requires Enabled(sys, a)
  {
    match a
    case Capture(dev, reading, _, _) => [Publish(dev, reading)]
    case Delete(dev, reading, _) => [Publish(dev, reading)]
    case Session(dev, reading, _, _) => Receipts(dev, reading, Pulled(sys, a))
    case _ => []
  }

  /** The clock events of the first `k` steps. */
  ghost function LogOf(trace: seq<System>, acts: seq<Action>, k: nat): seq<Event>
    requires k <= |acts| && |trace| == |acts| + 1
    requires forall j :: 0 <= j < |acts| ==> Enabled(trace[j], acts[j])
  {
    if k == 0 then [] else LogOf(trace, acts, k - 1) + EventsOf(trace[k - 1], acts[k - 1])
  }

  lemma {:induction false} ClockOfPrefix(log: seq<Event>, more: seq<Event>, n: nat, dev: Uuid)
    requires n <= |log|
    ensures ClockAt(log + more, n, dev) == ClockAt(log, n, dev)
  {
    if n > 0 {
      ClockOfPrefix(log, more, n - 1, dev);
    }
  }

  lemma {:induction false} LogGrows(trace: seq<System>, acts: seq<Action>, k: nat, n: nat)
    requires k <= n <= |acts| && |trace| == |acts| + 1
    requires forall j :: 0 <= j < |acts| ==> Enabled(trace[j], acts[j])
    ensures LogOf(trace, acts, k) <= LogOf(trace, acts, n)
  {
    hide Enabled, EventsOf;
    if k < n {
      LogGrows(trace, acts, k, n - 1);
    }
  }

  /** Every device's clock is the one the log computes. */
  ghost predicate ClocksAgree(sys: System, log: seq<Event>) {
    forall dev: Uuid ::
      ClockAt(log, |log|, dev) == if dev in sys.devices then sys.devices[dev].clock else None
  }

  lemma OneMoreEvent(log: seq<Event>, e: Event, dev: Uuid)
    ensures ClockAt(log + [e], |log| + 1, dev)
         == if e.dev == dev then Some(Advance(ClockAt(log, |log|, dev), e)) else ClockAt(log, |log|, dev)
  {
    ClockOfPrefix(log, [e], |log|, dev);
  }

  lemma {:induction false} ReceiptsFold(log: seq<Event>, dev: Uuid, reading: i64, envs: seq<Incoming>, other: Uuid)
    ensures ClockAt(log + Receipts(dev, reading, envs), |log| + |envs|, other)
         == if other == dev then ReceiveAll(ClockAt(log, |log|, dev), envs, reading, dev)
            else ClockAt(log, |log|, other)
    decreases |envs|
  {
    if envs == [] {
      assert log + Receipts(dev, reading, envs) == log;
    } else {
      var e := Receive(dev, envs[0].record.hlc, reading);
      OneMoreEvent(log, e, other);
      ReceiptsFold(log + [e], dev, reading, envs[1..], other);
      assert log + Receipts(dev, reading, envs) == log + [e] + Receipts(dev, reading, envs[1..]);
    }
  }

  lemma StepAgrees(sys: System, a: Action, log: seq<Event>)
    requires Enabled(sys, a) && ClocksAgree(sys, log)
    ensures ClocksAgree(Step(sys, a), log + EventsOf(sys, a))
  {
    hide AfterPull, Pulled, ReceiveAll, MergeAll, ClockAt, Receipts;
    var next, events := Step(sys, a), EventsOf(sys, a);
    forall dev: Uuid
      ensures ClockAt(log + events, |log + events|, dev)
           == if dev in next.devices then next.devices[dev].clock else None
    {
      match a
      case Capture(_, _, _, _) => OneMoreEvent(log, events[0], dev);
      case Delete(_, _, _) => OneMoreEvent(log, events[0], dev);
      case Session(d, reading, _, _) => SessionAgrees(sys, a, log, dev);
      case _ => assert log + events == log;
    }
  }

  lemma SessionAgrees(sys: System, a: Action, log: seq<Event>, dev: Uuid)
    requires Enabled(sys, a) && ClocksAgree(sys, log) && a.Session?
    ensures var next, after := Step(sys, a), log + EventsOf(sys, a);
            ClockAt(after, |after|, dev) == if dev in next.devices then next.devices[dev].clock else None
  {
    hide AfterPull, Pulled, ReceiveAll, MergeAll, ClockAt;
    ReceiptsFold(log, a.dev, a.reading, Pulled(sys, a), dev);
  }

  /** In every run the vault's clocks are those of the clock log. */
  lemma {:induction false} RunAgrees(trace: seq<System>, acts: seq<Action>, skew: nat, k: nat)
    requires IsRun(trace, acts, skew) && k <= |acts|
    ensures ClocksAgree(trace[k], LogOf(trace, acts, k))
  {
    if k > 0 {
      RunAgrees(trace, acts, skew, k - 1);
      StepAgrees(trace[k - 1], acts[k - 1], LogOf(trace, acts, k - 1));
    }
  }

  // ----- Files carry the log's stamps

  predicate Publishes(a: Action) {
    a.Capture? || a.Delete?
  }

  /** The stamp that step `k` wrote to the vault. */
  ghost function Issued(trace: seq<System>, acts: seq<Action>, skew: nat, k: nat): Hlc
    requires IsRun(trace, acts, skew) && k < |acts| && Publishes(acts[k])
  {
    if acts[k].Capture? then trace[k + 1].records[acts[k].id].hlc else trace[k + 1].tombs[acts[k].id].hlc
  }

  lemma EventAt(trace: seq<System>, acts: seq<Action>, k: nat, n: nat)
    requires k < |acts| && |trace| == |acts| + 1
    requires forall j :: 0 <= j < |acts| ==> Enabled(trace[j], acts[j])
    requires n < |EventsOf(trace[k], acts[k])|
    ensures var log, p := LogOf(trace, acts, |acts|), |LogOf(trace, acts, k)| + n;
            p < |log| && log[p] == EventsOf(trace[k], acts[k])[n]
  {
    hide Enabled, EventsOf;
    LogGrows(trace, acts, k + 1, |acts|);
  }

  lemma IssuedInLog(trace: seq<System>, acts: seq<Action>, skew: nat, k: nat)
    requires IsRun(trace, acts, skew) && k < |acts| && Publishes(acts[k])
    ensures var log, b := LogOf(trace, acts, |acts|), |LogOf(trace, acts, k)|;
            && b < |log| && log[b] == Publish(acts[k].dev, acts[k].reading)
            && ClockAt(log, b, acts[k].dev) == trace[k].devices[acts[k].dev].clock
            && Stamp(log, b) == Issued(trace, acts, skew, k)
            && |LogOf(trace, acts, k + 1)| == b + 1
  {
    var before := LogOf(trace, acts, k);
    var log := LogOf(trace, acts, |acts|);
    RunAgrees(trace, acts, skew, k);
    EventAt(trace, acts, k, 0);
    LogGrows(trace, acts, k, |acts|);
    assert log == before + log[|before|..];
    ClockOfPrefix(before, log[|before|..], |before|, acts[k].dev);
  }

  /** In step `i` device `dev` issues `h`, or pulls a file stamped `h` without clamping it. */
  ghost predicate Learns(trace: seq<System>, acts: seq<Action>, skew: nat, i: nat, dev: Uuid, h: Hlc)
    requires IsRun(trace, acts, skew) && i < |acts|
  {
    || (Publishes(acts[i]) && acts[i].dev == dev && h == Issued(trace, acts, skew, i))
    || (acts[i].Session? && acts[i].dev == dev && Unclamped(h, acts[i].reading)
        && exists e :: e in Pulled(trace[i], acts[i]) && e.record.hlc == h)
  }

  /** Where the log learns `h`; nothing later in the same step publishes. */
  lemma LearnedAt(trace: seq<System>, acts: seq<Action>, skew: nat, i: nat, dev: Uuid, h: Hlc) returns (p: nat)
    requires IsRun(trace, acts, skew) && i < |acts|
    requires Learns(trace, acts, skew, i, dev, h)
    ensures var log, end := LogOf(trace, acts, |acts|), |LogOf(trace, acts, i + 1)|;
            && p < end <= |log| && log[p].dev == dev
            && (forall q :: p < q < end ==> log[q].Receive?)
            && match log[p]
               case Publish(_, _) => Stamp(log, p) == h
               case Receive(_, remote, now) => remote == h && Unclamped(remote, now)
  {
    hide Step, Within, ClockAt, Pulled, Advance;
    LogGrows(trace, acts, i + 1, |acts|);
    if Publishes(acts[i]) {
      IssuedInLog(trace, acts, skew, i);
      p := |LogOf(trace, acts, i)|;
    } else {
      var envs := Pulled(trace[i], acts[i]);
      var n :| 0 <= n < |envs| && envs[n].record.hlc == h;
      EventAt(trace, acts, i, n);
      p := |LogOf(trace, acts, i)| + n;
      forall q | p < q < |LogOf(trace, acts, i + 1)|
        ensures LogOf(trace, acts, |acts|)[q].Receive?
      {
        EventAt(trace, acts, i, q - |LogOf(trace, acts, i)|);
      }
    }
  }

  /** Step by step: device `dev` publishes from the exhausted clock in none of the steps from `lo` up to `hi`. */
  ghost predicate StepsSound(trace: seq<System>, acts: seq<Action>, lo: nat, hi: nat, dev: Uuid)
    requires hi <= |acts| && |trace| == |acts| + 1
  {
    forall j :: lo <= j < hi && Publishes(acts[j]) && acts[j].dev == dev && dev in trace[j].devices ==>
      var clock := trace[j].devices[dev].clock;
      clock.Some? ==> !Exhausted(clock.value)
  }

  lemma {:induction false} SoundInLog(trace: seq<System>, acts: seq<Action>, skew: nat, lo: nat, hi: nat, dev: Uuid)
    requires IsRun(trace, acts, skew) && lo <= hi <= |acts| && StepsSound(trace, acts, lo, hi, dev)
    ensures var log := LogOf(trace, acts, |acts|);
            |LogOf(trace, acts, hi)| <= |log|
            && NeverExhausted(log, |LogOf(trace, acts, lo)|, |LogOf(trace, acts, hi)|, dev)
  {
    hide Step, Within, ClockAt, Pulled;
    LogGrows(trace, acts, hi, |acts|);
    if lo < hi {
      SoundInLog(trace, acts, skew, lo, hi - 1, dev);
      SoundStep(trace, acts, skew, hi - 1, dev);
    }
  }

  lemma SoundStep(trace: seq<System>, acts: seq<Action>, skew: nat, k: nat, dev: Uuid)
    requires IsRun(trace, acts, skew) && k < |acts| && StepsSound(trace, acts, k, k + 1, dev)
    ensures var log := LogOf(trace, acts, |acts|);
            |LogOf(trace, acts, k + 1)| <= |log|
            && NeverExhausted(log, |LogOf(trace, acts, k)|, |LogOf(trace, acts, k + 1)|, dev)
  {
    hide Step, Within, ClockAt, Pulled;
    LogGrows(trace, acts, k + 1, |acts|);
    if Publishes(acts[k]) {
      IssuedInLog(trace, acts, skew, k);
    }
    forall n | 0 <= n < |EventsOf(trace[k], acts[k])|
      ensures LogOf(trace, acts, |acts|)[|LogOf(trace, acts, k)| + n] == EventsOf(trace[k], acts[k])[n]
    {
      EventAt(trace, acts, k, n);
    }
  }

  lemma ReceiptsAreSound(log: seq<Event>, p: nat, end: nat, hi: nat, dev: Uuid)
    requires p < end <= hi <= |log| && NeverExhausted(log, end, hi, dev)
    requires forall q :: p < q < end ==> log[q].Receive?
    ensures NeverExhausted(log, p + 1, hi, dev)
  {
  }

  lemma PublishBeatsPast(log: seq<Event>, p: nat, b: nat, h: Hlc)
    requires p < b < |log| && log[p].dev == log[b].dev && log[b].Publish?
    requires NeverExhausted(log, p + 1, b + 1, log[b].dev)
    requires match log[p]
             case Publish(_, _) => Stamp(log, p) == h
             case Receive(_, remote, now) => remote == h && Unclamped(remote, now)
    ensures HlcCompare(Stamp(log, b), h) == Greater
  {
    PrecedesMonotone(log, p, b);
    match log[p]
    case Publish(_, _) =>
    case Receive(dev, remote, now) => HlcReceiveDominates(ClockAt(log, p, dev), remote, now, dev);
  }

  /** In every run: what a device publishes beats every stamp it learned at an earlier step, if it did not
      publish from the exhausted clock in between. */
  lemma IssuedBeatsLearned(trace: seq<System>, acts: seq<Action>, skew: nat, i: nat, k: nat, h: Hlc)
    requires IsRun(trace, acts, skew) && i < k < |acts| && Publishes(acts[k])
    requires Learns(trace, acts, skew, i, acts[k].dev, h)
    requires StepsSound(trace, acts, i + 1, k + 1, acts[k].dev)
    ensures HlcCompare(Issued(trace, acts, skew, k), h) == Greater
  {
    hide LogOf, Enabled, Within, Step, ClockAt, Learns, StepsSound, EventsOf, NeverExhausted, Issued;
    var log, b := LogOf(trace, acts, |acts|), |LogOf(trace, acts, k)|;
    var p := LearnedAt(trace, acts, skew, i, acts[k].dev, h);
    LogGrows(trace, acts, i + 1, k);
    IssuedInLog(trace, acts, skew, k);
    SoundInLog(trace, acts, skew, i + 1, k + 1, acts[k].dev);
    LogGrows(trace, acts, k, k + 1);
    ReceiptsAreSound(log, p, |LogOf(trace, acts, i + 1)|, b + 1, log[b].dev);
    PublishBeatsPast(log, p, b, h);
  }

  /** In every run, through any number of devices and messages: what a device publishes beats every stamp in
      its causal past, if nothing there was published from the exhausted clock. */
  lemma IssuedBeatsKnown(trace: seq<System>, acts: seq<Action>, skew: nat, k: nat, h: Hlc)
    requires IsRun(trace, acts, skew) && k < |acts| && Publishes(acts[k])
    ensures var log, b := LogOf(trace, acts, |acts|), |LogOf(trace, acts, k)|;
            SoundPast(log, b) && KnownBefore(log, h, b) ==> HlcCompare(Issued(trace, acts, skew, k), h) == Greater
  {
    hide SoundPast, KnownBefore, Step, Within;
    var log, b := LogOf(trace, acts, |acts|), |LogOf(trace, acts, k)|;
    IssuedInLog(trace, acts, skew, k);
    if SoundPast(log, b) {
      LaterThanKnown(log, h, b);
    }
  }

  // ----- A re-copy reaches the other devices

  /** Publishing at step `k` the device knew `h`: it had learned it itself, or it was in its causal past. */
  ghost predicate KnownTo(trace: seq<System>, acts: seq<Action>, skew: nat, k: nat, h: Hlc)
    requires IsRun(trace, acts, skew) && k < |acts| && Publishes(acts[k])
  {
    || (exists i :: 0 <= i < k && Learns(trace, acts, skew, i, acts[k].dev, h)
                    && StepsSound(trace, acts, i + 1, k + 1, acts[k].dev))
    || (var log, b := LogOf(trace, acts, |acts|), |LogOf(trace, acts, k)|;
        SoundPast(log, b) && KnownBefore(log, h, b))
  }

  lemma IssuedBeatsKnownTo(trace: seq<System>, acts: seq<Action>, skew: nat, k: nat, h: Hlc)
    requires IsRun(trace, acts, skew) && k < |acts| && Publishes(acts[k])
    ensures KnownTo(trace, acts, skew, k, h) ==> HlcCompare(Issued(trace, acts, skew, k), h) == Greater
  {
    hide Learns, StepsSound, Issued, SoundPast, KnownBefore, LogOf, Enabled, Within, Step;
    if i :| 0 <= i < k && Learns(trace, acts, skew, i, acts[k].dev, h)
            && StepsSound(trace, acts, i + 1, k + 1, acts[k].dev) {
      IssuedBeatsLearned(trace, acts, skew, i, k, h);
    }
    IssuedBeatsKnown(trace, acts, skew, k, h);
  }

  /** The file a capture publishes stays as it is, and the device that captured it keeps showing it, while
      nobody deletes the record and the file is not lost. */
  lemma {:induction false} CapturedFileStays(trace: seq<System>, acts: seq<Action>, skew: nat, k: nat, m: nat)
    requires IsRun(trace, acts, skew) && k < m <= |acts| && acts[k].Capture?
    requires forall j :: k < j < m ==> Harmless(acts[j], acts[k].id)
    ensures Kept(trace[m], acts[k].id)
    ensures trace[m].records[acts[k].id] == Record(acts[k].hash, Issued(trace, acts, skew, k))
    ensures Shows(trace[m], acts[k].dev, acts[k].id, Record(acts[k].hash, Issued(trace, acts, skew, k)))
  {
    WellFormedRun(trace, acts, skew, m - 1);
    if m == k + 1 {
      CaptureIsKept(trace[k], acts[k], skew);
    } else {
      CapturedFileStays(trace, acts, skew, k, m - 1);
      KeptFileStays(trace[m - 1], acts[m - 1], acts[k].id, acts[k].dev, skew);
    }
  }

  ghost predicate Shows(sys: System, dev: Uuid, id: Uuid, record: Record) {
    dev in sys.devices && id in sys.devices[dev].replica.live && sys.devices[dev].replica.live[id] == record
  }

  lemma CaptureIsKept(sys: System, a: Action, skew: nat)
    requires WellFormed(sys, skew) && Enabled(sys, a) && a.Capture?
    ensures Kept(Step(sys, a), a.id) && Step(sys, a).records[a.id].hash == a.hash
    ensures Shows(Step(sys, a), a.dev, a.id, Step(sys, a).records[a.id])
  {
  }

  lemma KeptFileStays(sys: System, a: Action, id: Uuid, dev: Uuid, skew: nat)
    requires WellFormed(sys, skew) && Enabled(sys, a) && Kept(sys, id) && Harmless(a, id)
    ensures Kept(Step(sys, a), id) && Step(sys, a).records[id] == sys.records[id]
    ensures RowKept(sys, Step(sys, a), dev, id)
  {
    hide AfterPull, Pulled, ReceiveAll, WellFormed;
    KeptStep(sys, a, id, dev, skew);
  }

  /** Every tombstone of the captured content that the device of session `m` knows, or is about to pull, was
      known to the device that captured it at step `k`. */
  ghost predicate CopierKnew(trace: seq<System>, acts: seq<Action>, skew: nat, k: nat, m: nat)
    requires IsRun(trace, acts, skew) && k < m < |acts| && acts[k].Capture? && acts[m].Session?
  {
    var sys, r := trace[m], trace[m].devices[acts[m].dev].replica;
    && (forall t :: t in r.wipes && r.wipes[t].hash == acts[k].hash ==>
          KnownTo(trace, acts, skew, k, r.wipes[t].hlc))
    && (forall t :: t in sys.tombs && t !in r.deleted && sys.tombs[t].hash == acts[k].hash ==>
          KnownTo(trace, acts, skew, k, sys.tombs[t].hlc))
  }

  /** In every run, a content that is captured again by a device that knew its tombstones is shown by the
      next session of a device that has not applied the new record, whatever happened in between short of
      deleting or losing the record, unless that device is stale and a doomed row suppresses the insert. */
  lemma RecopyDelivered(trace: seq<System>, acts: seq<Action>, skew: nat, k: nat, m: nat)
    requires IsRun(trace, acts, skew) && k < m < |acts| && acts[k].Capture? && acts[m].Session?
    requires forall j :: k < j < m ==> Harmless(acts[j], acts[k].id)
    requires acts[k].id !in trace[m].devices[acts[m].dev].replica.applied
    ensures var d := trace[m].devices[acts[m].dev];
            CopierKnew(trace, acts, skew, k, m) ==>
              (acts[k].hash in trace[m + 1].devices[acts[m].dev].replica.Contents() <==>
                 !(DeviceIsStale(d.lastSeen, Secs(acts[m].reading))
                   && exists x :: DoomedRow(trace[m], d.replica, acts[k].hash, x)))
  {
    hide KnownTo, Issued, AfterPull, Pulled, ReceiveAll, WellFormed, DoomedRow, DeviceIsStale;
    var sys, r, id := trace[m], trace[m].devices[acts[m].dev].replica, acts[k].id;
    if CopierKnew(trace, acts, skew, k, m) {
      CapturedFileStays(trace, acts, skew, k, m);
      forall t | t in r.wipes && r.wipes[t].hash == acts[k].hash
        ensures HlcCompare(sys.records[id].hlc, r.wipes[t].hlc) == Greater
      {
        IssuedBeatsKnownTo(trace, acts, skew, k, r.wipes[t].hlc);
      }
      forall t | t in sys.tombs && t !in r.deleted && sys.tombs[t].hash == acts[k].hash
        ensures HlcCompare(sys.records[id].hlc, sys.tombs[t].hlc) == Greater
      {
        IssuedBeatsKnownTo(trace, acts, skew, k, sys.tombs[t].hlc);
      }
      assert NewsFor(sys, r, id);
      WellFormedRun(trace, acts, skew, m);
      DeliveredExactly(sys, acts[m], id, skew);
    }
  }

  // ----- A wipe covers what the deleter knew

  /** The device has this tombstone among the ones it knows. */
  ghost predicate Remembers(sys: System, dev: Uuid, t: Uuid, tomb: Record) {
    dev in sys.devices && t in sys.devices[dev].replica.wipes && sys.devices[dev].replica.wipes[t] == tomb
  }

  lemma RemembersStep(sys: System, a: Action, skew: nat, dev: Uuid, t: Uuid, tomb: Record)
    requires WellFormed(sys, skew) && Enabled(sys, a) && Remembers(sys, dev, t, tomb)
    ensures Remembers(Step(sys, a), dev, t, tomb)
  {
    hide AfterPull, Pulled, ReceiveAll, Replica.DistinctContent;
    if a.Session? && a.dev == dev {
      WipesAfterPull(sys, a);
    }
  }

  /** In every run, deleting a row replaces its file by a tombstone of its content, and the deleter remembers
      that tombstone for good. */
  lemma {:induction false} DeleterRemembers(trace: seq<System>, acts: seq<Action>, skew: nat, k: nat, m: nat)
    requires IsRun(trace, acts, skew) && k < m < |trace| && acts[k].Delete?
    ensures acts[k].id !in trace[k + 1].records
    ensures Issued(trace, acts, skew, k).wall >= acts[k].reading
    ensures var tomb := Record(trace[k].devices[acts[k].dev].replica.live[acts[k].id].hash,
                               Issued(trace, acts, skew, k));
            trace[k + 1].tombs[acts[k].id] == tomb && Remembers(trace[m], acts[k].dev, acts[k].id, tomb)
  {
    var d := trace[k].devices[acts[k].dev];
    HlcNextCoversNow(d.clock, acts[k].reading, acts[k].dev);
    if k + 1 < m {
      DeleterRemembers(trace, acts, skew, k, m - 1);
      WellFormedRun(trace, acts, skew, m - 1);
      var tomb := Record(d.replica.live[acts[k].id].hash, Issued(trace, acts, skew, k));
      RemembersStep(trace[m - 1], acts[m - 1], skew, acts[k].dev, acts[k].id, tomb);
    }
  }

  /** A session that knows or is given a tombstone newer than a record file of its content does not show it. */
  lemma CoveredStaysOut(sys: System, a: Action, t: Uuid, tomb: Record, id: Uuid)
    requires Enabled(sys, a) && a.Session? && sys.devices[a.dev].replica.Valid()
    requires id in sys.records && id !in sys.devices[a.dev].replica.live
    requires var r := sys.devices[a.dev].replica;
             (t in r.wipes && r.wipes[t] == tomb) || (t in sys.tombs && t !in r.deleted && sys.tombs[t] == tomb)
    requires tomb.hash == sys.records[id].hash && HlcCompare(tomb.hlc, sys.records[id].hlc) == Greater
    ensures id !in Step(sys, a).devices[a.dev].replica.live
  {
    var r, tombs := sys.devices[a.dev].replica, Listed(a.tombOrder, sys.tombs, true);
    var records := Listed(a.recordOrder, sys.records, false);
    ListedIds(a.tombOrder, sys.tombs, true);
    ListedIds(a.recordOrder, sys.records, false);
    WipesAfterPull(sys, a);
    var i :| 0 <= i < |a.recordOrder| && a.recordOrder[i] == id;
    assert records[i] == Incoming(id, false, sys.records[id]);
    hide MergeAll, ReceiveAll, Missing, Replica.Valid, Lists, HlcCompare;
    PullCovered(r, tombs, records, t, records[i]);
  }

  /** In every run, a record that the deleter knew when it wiped a content is not shown by the session of any
      device that knows or is about to pull that tombstone, unless its row was there already. */
  lemma WipeCoversInRun(trace: seq<System>, acts: seq<Action>, skew: nat, k: nat, m: nat, id: Uuid)
    requires IsRun(trace, acts, skew) && k < m < |acts| && acts[k].Delete? && acts[m].Session?
    requires var r, t, tomb := trace[m].devices[acts[m].dev].replica, acts[k].id, trace[k + 1].tombs[acts[k].id];
             || acts[m].dev == acts[k].dev
             || (t in r.wipes && r.wipes[t] == tomb)
             || (t in trace[m].tombs && t !in r.deleted && trace[m].tombs[t] == tomb)
    requires id in trace[m].records && id !in trace[m].devices[acts[m].dev].replica.live
    requires trace[m].records[id].hash == trace[k].devices[acts[k].dev].replica.live[acts[k].id].hash
    ensures KnownTo(trace, acts, skew, k, trace[m].records[id].hlc) ==>
              id !in trace[m + 1].devices[acts[m].dev].replica.live
  {
    hide KnownTo, AfterPull, Pulled, ReceiveAll, Replica.DistinctContent;
    WellFormedRun(trace, acts, skew, m);
    DeleterRemembers(trace, acts, skew, k, m);
    IssuedBeatsKnownTo(trace, acts, skew, k, trace[m].records[id].hlc);
    if KnownTo(trace, acts, skew, k, trace[m].records[id].hlc) {
      CoveredStaysOut(trace[m], acts[m], acts[k].id, trace[k + 1].tombs[acts[k].id], id);
    }
  }
}
