/**
 Whether a published record's content reaches a device: exactly when one session shows it, and the run in
 which a device that was away too long never does.
 */
module Delivery {
  import opened Base
  import opened Clock
  import opened Merge
  import opened Retention
  import opened Scenario
  import opened Vault

  /** A live row of the content whose record is in neither folder. */
  ghost predicate DoomedRow(sys: System, r: Replica, hash: string, x: Uuid) {
    x in r.live && r.live[x].hash == hash && x !in sys.records && x !in sys.tombs
  }

  /** A record file is news to a device: not applied there, not tombstoned, and newer than every tombstone
      of its content that the device knows or is about to pull. */
  ghost predicate NewsFor(sys: System, r: Replica, id: Uuid) {
    && id in sys.records && id !in sys.tombs && id !in r.applied
    && Survives(r.wipes, sys.records[id])
    && forall t :: t in sys.tombs && t !in r.deleted && sys.tombs[t].hash == sys.records[id].hash ==>
         HlcCompare(sys.records[id].hlc, sys.tombs[t].hlc) == Greater
  }

  /** The tombstones known after a pull: those known before, and the folder's for ids not deleted here. */
  lemma WipesAfterPull(sys: System, a: Action)
    requires Enabled(sys, a) && a.Session? && sys.devices[a.dev].replica.Valid()
    ensures var r, wipes := sys.devices[a.dev].replica, AfterPull(sys, a).wipes;
            && (forall t :: t in wipes <==> t in r.wipes || (t in sys.tombs && t !in r.deleted))
            && (forall t :: t in r.wipes ==> wipes[t] == r.wipes[t])
            && (forall t :: t in sys.tombs && t !in r.deleted ==> wipes[t] == sys.tombs[t])
  {
    hide MergeAll, Arrivals, Survivors;
    var r := sys.devices[a.dev].replica;
    var tombs := Listed(a.tombOrder, sys.tombs, true);
    var records := Listed(a.recordOrder, sys.records, false);
    ListedIds(a.tombOrder, sys.tombs, true);
    ListedIds(a.recordOrder, sys.records, false);
    PullResult(r, tombs, records);
    forall t | t in sys.tombs && t !in r.deleted
      ensures Incoming(t, true, sys.tombs[t]) in tombs
    {
      var i :| 0 <= i < |a.tombOrder| && a.tombOrder[i] == t;
      assert tombs[i] == Incoming(t, true, sys.tombs[t]);
    }
  }

  /** Newer than what the device knows after a pull is newer than what it knew and than what it is given. */
  lemma SurvivesPull(sys: System, a: Action, record: Record)
    requires Enabled(sys, a) && a.Session? && sys.devices[a.dev].replica.Valid()
    ensures var r := sys.devices[a.dev].replica;
            Survives(AfterPull(sys, a).wipes, record) <==>
              Survives(r.wipes, record)
              && forall t :: t in sys.tombs && t !in r.deleted && sys.tombs[t].hash == record.hash ==>
                   HlcCompare(record.hlc, sys.tombs[t].hlc) == Greater
  {
    hide AfterPull, HlcCompare, Lists;
    WipesAfterPull(sys, a);
  }

  lemma PulledContentIsShown(sys: System, a: Action, id: Uuid)
    requires Enabled(sys, a) && a.Session? && sys.devices[a.dev].replica.Valid()
    requires NewsFor(sys, sys.devices[a.dev].replica, id)
    ensures sys.records[id].hash in AfterPull(sys, a).Contents()
  {
    SurvivesPull(sys, a, sys.records[id]);
    var tombs := Listed(a.tombOrder, sys.tombs, true);
    var records := Listed(a.recordOrder, sys.records, false);
    ListedIds(a.tombOrder, sys.tombs, true);
    ListedIds(a.recordOrder, sys.records, false);
    PullResult(sys.devices[a.dev].replica, tombs, records);
    var i :| 0 <= i < |a.recordOrder| && a.recordOrder[i] == id;
    assert records[i] == Incoming(id, false, sys.records[id]) && records[i] in records;
  }

  /** What a session does with the content of a record file that is news to the device: it is shown
      afterwards, unless the device was away too long and a row whose file and tombstone are both gone
      suppressed the insert and is then dropped. */
  lemma DeliveredExactly(sys: System, a: Action, id: Uuid, skew: nat)
    requires WellFormed(sys, skew) && Enabled(sys, a) && a.Session?
    requires NewsFor(sys, sys.devices[a.dev].replica, id)
    ensures var d := sys.devices[a.dev];
            sys.records[id].hash in Step(sys, a).devices[a.dev].replica.Contents() <==>
              !(DeviceIsStale(d.lastSeen, Secs(a.reading))
                && exists x :: DoomedRow(sys, d.replica, sys.records[id].hash, x))
  {
    hide Pulled, ReceiveAll, MergeAll;
    var d, s, hash := sys.devices[a.dev], AfterPull(sys, a), sys.records[id].hash;
    PullOutcome(sys, a);
    PulledContentIsShown(sys, a, id);
    var z :| z in s.live && s.live[z].hash == hash;
    var next := Step(sys, a).devices[a.dev].replica;
    if z in d.replica.live && z !in sys.tombs {
      PullKeepsRow(sys, a, z);
    }
    if DeviceIsStale(d.lastSeen, Secs(a.reading)) {
      assert next == DropRows(s, Missing(sys, s));
      if x :| DoomedRow(sys, d.replica, hash, x) {
        PullKeepsRow(sys, a, x);
        assert x == z && z in Missing(sys, s);
      } else {
        assert !DoomedRow(sys, d.replica, hash, z);
        assert z in next.live && next.live[z].hash == hash;
      }
    }
  }

  // ----- A row that is gone stays gone

  /** Applied here, and not shown. */
  ghost predicate Suppressed(sys: System, dev: Uuid, id: Uuid) {
    dev in sys.devices && id in sys.devices[dev].replica.applied && id !in sys.devices[dev].replica.live
  }

  lemma SuppressedSession(sys: System, a: Action, skew: nat, id: Uuid)
    requires WellFormed(sys, skew) && Enabled(sys, a) && a.Session? && Suppressed(sys, a.dev, id)
    ensures Suppressed(Step(sys, a), a.dev, id)
  {
    hide AfterPull, Pulled, ReceiveAll, Replica.DistinctContent;
    PullOutcome(sys, a);
  }

  lemma SuppressedStep(sys: System, a: Action, skew: nat, dev: Uuid, id: Uuid)
    requires WellFormed(sys, skew) && Enabled(sys, a) && Suppressed(sys, dev, id)
    ensures Suppressed(Step(sys, a), dev, id)
  {
    hide AfterPull, Pulled, ReceiveAll, Replica.DistinctContent;
    if a.Session? && a.dev == dev {
      SuppressedSession(sys, a, skew, id);
    }
  }

  /** In every run, a record that a device has applied and does not show is never shown there again. */
  lemma {:induction false} SuppressedForGood(trace: seq<System>, acts: seq<Action>, skew: nat, i: nat, k: nat,
                                             dev: Uuid, id: Uuid)
    requires IsRun(trace, acts, skew) && i <= k < |trace|
    requires Suppressed(trace[i], dev, id)
    ensures Suppressed(trace[k], dev, id)
  {
    if i < k {
      SuppressedForGood(trace, acts, skew, i, k - 1, dev, id);
      WellFormedRun(trace, acts, skew, k - 1);
      SuppressedStep(trace[k - 1], acts[k - 1], skew, dev, id);
    }
  }

  // ----- The run that loses a re-copy on a returning device

  const Y := Uuid([3])
  const LATER := 36 * 86_400_000

  /** Perfect clocks. */
  const START := Clocks(0, 0, 0)

  /** After the opening A copies X's content again as Y; 36 days pass and X's tombstone is collected; B
      syncs. */
  const ACTS: seq<Action> := START.Opening() + [
    Capture(A, 0, Y, CONTENT),
    Tick(LATER),
    Collect(LATER, X, []),
    Session(B, LATER, [], [Y])
  ]

  const RECOPY := Record(CONTENT, START.Stamp(2))
  const COPIER := Replica({X, Y}, {X}, map[X := START.XTomb()], map[Y := RECOPY])
  const SUPPRESSOR := Replica({X, Y}, {}, map[], map[X := START.XRecord()])
  const RETURNED := Replica({X, Y}, {X}, map[], map[])

  ghost function TraceAt(k: nat): System
    requires k <= 8
  {
    if k <= 5 then START.Opened(k)
    else
      System(if k == 6 then 0 else LATER,
             map[A := START.DeviceA(COPIER, Some(START.Stamp(2))), B := START.DeviceB(START.Holder(), START.ClockB())],
             map[Y := RECOPY], if k == 8 then map[] else map[X := START.XTomb()], {X, Y})
  }

  lemma ACopiesAgain()
    ensures Enabled(TraceAt(5), ACTS[5]) && Step(TraceAt(5), ACTS[5]) == TraceAt(6)
  {
    var next := Step(TraceAt(5), ACTS[5]);
    assert START.Deleter().Contents() == {};
    assert next.devices[A].replica == COPIER;
    assert next.devices == TraceAt(6).devices && next.records == TraceAt(6).records;
  }

  lemma HolderSuppresses()
    ensures MergeAll(START.Holder(), [Incoming(Y, false, RECOPY)]) == SUPPRESSOR
  {
    var e := Incoming(Y, false, RECOPY);
    assert [e][1..] == [];
    RowsAreShown(START.Holder());
    assert X in START.Holder().live;
    RecordStep(START.Holder(), e);
    assert MergeStep(START.Holder(), e) == SUPPRESSOR;
    assert MergeAll(START.Holder(), [e]) == MergeAll(SUPPRESSOR, []) == SUPPRESSOR;
  }

  lemma BReturns()
    ensures Enabled(TraceAt(8), ACTS[8]) && Within(TraceAt(8), ACTS[8], 0)
    ensures var last := Step(TraceAt(8), ACTS[8]);
            && Kept(last, Y) && last.records[Y] == RECOPY
            && Suppressed(last, B, Y) && last.devices[B].replica.live == map[]
  {
    hide MergeAll, ReceiveAll;
    var sys, a := TraceAt(8), ACTS[8];
    assert Pulled(sys, a) == [Incoming(Y, false, RECOPY)];
    HolderSuppresses();
    assert AfterPull(sys, a) == SUPPRESSOR && SUPPRESSOR.live.Keys == {X} && sys.records.Keys == {Y};
    assert Missing(sys, SUPPRESSOR) == {X};
    StaleExactly(sys.devices[B].lastSeen, Secs(LATER));
    assert DropRows(SUPPRESSOR, {X}) == RETURNED;
    assert Step(sys, a).devices[B].replica == RETURNED && Step(sys, a).devices[A].replica == COPIER;
  }

  lemma TraceSteps(k: nat)
    requires k < 8
    ensures Enabled(TraceAt(k), ACTS[k]) && Within(TraceAt(k), ACTS[k], 0)
    ensures Step(TraceAt(k), ACTS[k]) == TraceAt(k + 1)
  {
    if k < 5 {
      START.OpeningSteps(k, 0);
    } else if k == 5 {
      ACopiesAgain();
    } else if k == 7 {
      GcIsAgeTest(START.XTomb().hlc, [], Secs(LATER));
      assert map[X := START.XTomb()] - {X} == map[];
    }
  }

  /** With perfect clocks, a run ends with a record published that nobody deleted, and a device that
      synced after it shows nothing and has the record suppressed. */
  lemma ReturningDeviceMissesRecopy()
    ensures exists trace: seq<System> ::
              && IsRun(trace, ACTS, 0)
              && Kept(trace[|ACTS|], Y) && RECOPY == trace[|ACTS|].records[Y]
              && Suppressed(trace[|ACTS|], B, Y)
              && trace[|ACTS|].devices[B].replica.live == map[]
  {
    hide Step, Enabled, Within, Kept, Suppressed;
    BReturns();
    var trace := seq(9, k requires 0 <= k < 9 => TraceAt(k)) + [Step(TraceAt(8), ACTS[8])];
    forall k | 0 <= k < |ACTS|
      ensures Enabled(trace[k], ACTS[k]) && Within(trace[k], ACTS[k], 0) && trace[k + 1] == Step(trace[k], ACTS[k])
    {
      if k < 8 {
        TraceSteps(k);
      }
    }
    assert IsRun(trace, ACTS, 0);
  }
}
