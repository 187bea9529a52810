/**
 Many devices sharing one vault folder: `records/`, `tombs/` and each device's tables and clock.

 Real time `now` is in milliseconds and only the model knows it; a device sees a clock reading within
 `skew` milliseconds of it, and its seconds are that reading rounded down. A session is atomic: it pulls
 tombstones before records, in any listing order, then decides about the rows missing from both
 listings. The provider may lose record files, and may bring back a stale copy of a record file while
 its tombstone is still there; it never touches `tombs/`.
 */
module Vault {
  import opened Base
  import opened Clock
  import opened Merge
  import opened Retention

  datatype Device = Device(replica: Replica, clock: Option<Hlc>, lastSeen: i64)

  datatype System = System(
    now: int,
    devices: map<Uuid, Device>,
    records: map<Uuid, Record>,
    tombs: map<Uuid, Record>,
    issued: set<Uuid>)

  datatype Action =
    | Tick(millis: nat)
    | Join(dev: Uuid, reading: i64)
    | Capture(dev: Uuid, reading: i64, id: Uuid, hash: string)
    | Delete(dev: Uuid, reading: i64, id: Uuid)
    | Session(dev: Uuid, reading: i64, tombOrder: seq<Uuid>, recordOrder: seq<Uuid>)
    | Collect(reading: i64, id: Uuid, presence: seq<DevicePresence>)
    | LoseRecord(id: Uuid)
    | LateRecord(id: Uuid, record: Record)

  function Secs(millis: i64): i64 {
    millis / 1000
  }

  // ----- Sessions

  ghost predicate Lists(order: seq<Uuid>, files: map<Uuid, Record>) {
    forall id :: id in order <==> id in files
  }

  ghost function Listed(order: seq<Uuid>, files: map<Uuid, Record>, deleted: bool): seq<Incoming>
    requires forall id :: id in order ==> id in files
  {
    seq(|order|, i requires 0 <= i < |order| => Incoming(order[i], deleted, files[order[i]]))
  }

  ghost function Pulled(sys: System, a: Action): seq<Incoming>
    requires a.Session? && Lists(a.tombOrder, sys.tombs) && Lists(a.recordOrder, sys.records)
  {
    Listed(a.tombOrder, sys.tombs, true) + Listed(a.recordOrder, sys.records, false)
  }

  ghost function ReceiveAll(clock: Option<Hlc>, envs: seq<Incoming>, reading: i64, node: Uuid): Option<Hlc>
    decreases |envs|
  {
    if envs == [] then clock
    else ReceiveAll(Some(HlcReceive(clock, envs[0].record.hlc, reading, node)), envs[1..], reading, node)
  }

  /** The live rows absent from both listings. */
  ghost function Missing(sys: System, r: Replica): set<Uuid> {
    r.live.Keys - sys.records.Keys - sys.tombs.Keys
  }

  /** `DeleteLocally` for each of `ids`: no tombstone stamp is known. */
  ghost function DropRows(r: Replica, ids: set<Uuid>): Replica {
    r.(deleted := r.deleted + ids, live := r.live - ids)
  }

  ghost function AfterPull(sys: System, a: Action): Replica
    requires Enabled(sys, a) && a.Session?
  {
    MergeAll(sys.devices[a.dev].replica, Pulled(sys, a))
  }

  /** The ids whose record file this step writes back. */
  ghost function Repushed(sys: System, a: Action): set<Uuid>
    requires Enabled(sys, a)
  {
    if a.Session? && RejoinDecision(sys.devices[a.dev].lastSeen, Secs(a.reading)) == Repush then
      Missing(sys, AfterPull(sys, a))
    else {}
  }

  // ----- Steps

  ghost predicate Enabled(sys: System, a: Action) {
    match a
    case Tick(_) => true
    case Join(dev, _) => dev !in sys.devices
    case Capture(dev, _, id, hash) =>
      dev in sys.devices && id !in sys.issued && hash !in sys.devices[dev].replica.Contents()
    case Delete(dev, _, id) =>
      dev in sys.devices && id in sys.devices[dev].replica.live
    case Session(dev, _, tombOrder, recordOrder) =>
      dev in sys.devices && Lists(tombOrder, sys.tombs) && Lists(recordOrder, sys.records)
    case Collect(reading, id, presence) =>
      id in sys.tombs && id !in sys.records && GcEligible(sys.tombs[id].hlc, presence, Secs(reading))
    case LoseRecord(id) => id in sys.records
    case LateRecord(id, _) => id in sys.tombs
  }

  /** The clock readings a step uses are unix times within `skew` of real time. */
  ghost predicate Within(sys: System, a: Action, skew: nat) {
    match a
    case Tick(_) => true
    case LoseRecord(_) => true
    case LateRecord(_, _) => true
    case _ => 0 <= a.reading && sys.now - skew <= a.reading <= sys.now + skew
  }

  ghost function Step(sys: System, a: Action): System
    requires Enabled(sys, a)
  {
    match a
    case Tick(millis) =>
      sys.(now := sys.now + millis)
    case Join(dev, reading) =>
      sys.(devices := sys.devices[dev := Device(Replica({}, {}, map[], map[]), None, Secs(reading))])
    case Capture(dev, reading, id, hash) =>
      var d := sys.devices[dev];
      var stamp := HlcNext(d.clock, reading, dev);
      var r := d.replica;
      var r' := r.(applied := r.applied + {id}, live := r.live[id := Record(hash, stamp)]);
      sys.(devices := sys.devices[dev := d.(replica := r', clock := Some(stamp))],
           records := sys.records[id := Record(hash, stamp)],
           issued := sys.issued + {id})
    case Delete(dev, reading, id) =>
      var d := sys.devices[dev];
      var stamp := HlcNext(d.clock, reading, dev);
      var tomb := Record(d.replica.live[id].hash, stamp);
      var r := d.replica;
      var r' := r.(deleted := r.deleted + {id}, wipes := r.wipes[id := tomb], live := r.live - {id});
      sys.(devices := sys.devices[dev := d.(replica := r', clock := Some(stamp))],
           records := sys.records - {id},
           tombs := sys.tombs[id := tomb])
    case Session(dev, reading, _, _) =>
      var d := sys.devices[dev];
      var pulled := AfterPull(sys, a);
      var clock := ReceiveAll(d.clock, Pulled(sys, a), reading, dev);
      var missing := Missing(sys, pulled);
      match RejoinDecision(d.lastSeen, Secs(reading)) {
        case DeleteLocally =>
          sys.(devices := sys.devices[dev := Device(DropRows(pulled, missing), clock, Secs(reading))])
        case Repush =>
          sys.(devices := sys.devices[dev := Device(pulled, clock, Secs(reading))],
               records := sys.records + map id | id in missing :: pulled.live[id])
      }
    case Collect(_, id, _) =>
      sys.(tombs := sys.tombs - {id})
    case LoseRecord(id) =>
      sys.(records := sys.records - {id})
    case LateRecord(id, record) =>
      sys.(records := sys.records[id := record])
  }

  /** A run from the empty vault: the state before each action and after the last. */
  ghost predicate IsRun(trace: seq<System>, acts: seq<Action>, skew: nat) {
    && |trace| == |acts| + 1
    && trace[0].devices == map[] && trace[0].records == map[] && trace[0].tombs == map[]
    && trace[0].issued == {}
    && forall k :: 0 <= k < |acts| ==>
         Enabled(trace[k], acts[k]) && Within(trace[k], acts[k], skew) && trace[k + 1] == Step(trace[k], acts[k])
  }

  // ----- What every step keeps

  ghost predicate WellFormed(sys: System, skew: nat) {
    && sys.records.Keys <= sys.issued
    && sys.tombs.Keys <= sys.issued
    && forall dev :: dev in sys.devices ==>
         && sys.devices[dev].replica.Valid()
         && sys.devices[dev].replica.DistinctContent()
         && sys.devices[dev].replica.applied <= sys.issued
         && sys.devices[dev].lastSeen * 1000 <= sys.now + skew
  }

  lemma ListedIds(order: seq<Uuid>, files: map<Uuid, Record>, deleted: bool)
    requires Lists(order, files)
    ensures Ids(Listed(order, files, deleted)) == files.Keys
    ensures TombIds(Listed(order, files, deleted)) == if deleted then files.Keys else {}
    ensures OnePerId(Listed(order, files, deleted))
    ensures if deleted then AllTombs(Listed(order, files, deleted)) else AllLive(Listed(order, files, deleted))
  {
    var envs := Listed(order, files, deleted);
    forall id | id in files
      ensures id in Ids(envs) && (deleted ==> id in TombIds(envs))
    {
      var i :| 0 <= i < |order| && order[i] == id;
      assert envs[i] in envs && envs[i].id == id;
    }
  }

  lemma IdsOfConcat(a: seq<Incoming>, b: seq<Incoming>)
    ensures Ids(a + b) == Ids(a) + Ids(b)
    ensures TombIds(a + b) == TombIds(a) + TombIds(b)
  {
    assert forall e :: e in a + b <==> e in a || e in b;
  }

  /** A pull, in any listing order: every tombstoned id of the folder is deleted here afterwards, and the
      only new rows are for untombstoned record files. */
  lemma PullOutcome(sys: System, a: Action)
    requires Enabled(sys, a) && a.Session?
    requires sys.devices[a.dev].replica.Valid()
    ensures var r, s := sys.devices[a.dev].replica, AfterPull(sys, a);
            && s.Valid()
            && s.applied == r.applied + sys.tombs.Keys + sys.records.Keys
            && s.deleted == r.deleted + sys.tombs.Keys
            && s.live.Keys <= r.live.Keys + (sys.records.Keys - r.applied)
            && (r.DistinctContent() ==> s.DistinctContent())
  {
    hide Listed, Ids, TombIds, OnePerId, MergeAll, Replica.DistinctContent;
    var tombs := Listed(a.tombOrder, sys.tombs, true);
    var records := Listed(a.recordOrder, sys.records, false);
    ListedIds(a.tombOrder, sys.tombs, true);
    ListedIds(a.recordOrder, sys.records, false);
    IdsOfConcat(tombs, records);
    DeleteStateOrderFree(sys.devices[a.dev].replica, tombs + records);
  }

  lemma DropRowsKeeps(r: Replica, ids: set<Uuid>)
    requires r.Valid() && r.DistinctContent() && ids <= r.live.Keys
    ensures var s := DropRows(r, ids); s.Valid() && s.DistinctContent() && s.applied == r.applied
  {
  }

  lemma SessionReplica(sys: System, a: Action, skew: nat)
    requires WellFormed(sys, skew) && Enabled(sys, a) && a.Session?
    ensures var r := Step(sys, a).devices[a.dev].replica;
            r.Valid() && r.DistinctContent() && r.applied <= sys.issued
    ensures AfterPull(sys, a).live.Keys <= sys.issued
  {
    PullOutcome(sys, a);
    DropRowsKeeps(AfterPull(sys, a), Missing(sys, AfterPull(sys, a)));
  }

  lemma WellFormedSession(sys: System, a: Action, skew: nat)
    requires WellFormed(sys, skew) && Enabled(sys, a) && Within(sys, a, skew) && a.Session?
    ensures WellFormed(Step(sys, a), skew)
  {
    hide AfterPull, Pulled, ReceiveAll, MergeAll, Replica.DistinctContent, Replica.Valid;
    SessionReplica(sys, a, skew);
    var next := Step(sys, a);
    assert next.records.Keys <= sys.records.Keys + AfterPull(sys, a).live.Keys;
    assert forall dev :: dev in next.devices && dev != a.dev ==> next.devices[dev] == sys.devices[dev];
  }

  lemma WellFormedCapture(sys: System, a: Action, skew: nat)
    requires WellFormed(sys, skew) && Enabled(sys, a) && a.Capture?
    ensures WellFormed(Step(sys, a), skew)
  {
    var d := sys.devices[a.dev];
    CaptureKeepsDistinct(d.replica, a.id, Record(a.hash, HlcNext(d.clock, a.reading, a.dev)));
  }

  lemma WellFormedDelete(sys: System, a: Action, skew: nat)
    requires WellFormed(sys, skew) && Enabled(sys, a) && a.Delete?
    ensures WellFormed(Step(sys, a), skew)
  {
  }

  lemma WellFormedStep(sys: System, a: Action, skew: nat)
    requires WellFormed(sys, skew) && Enabled(sys, a) && Within(sys, a, skew)
    ensures WellFormed(Step(sys, a), skew)
  {
    match a
    case Session(_, _, _, _) => WellFormedSession(sys, a, skew);
    case Capture(_, _, _, _) => WellFormedCapture(sys, a, skew);
    case Delete(_, _, _) => WellFormedDelete(sys, a, skew);
    case _ =>
  }

  lemma CaptureKeepsDistinct(r: Replica, id: Uuid, record: Record)
    requires r.DistinctContent() && record.hash !in r.Contents()
    ensures r.(applied := r.applied + {id}, live := r.live[id := record]).DistinctContent()
  {
    forall x | x in r.live
      ensures r.live[x].hash != record.hash
    {
      assert r.live[x].hash in r.Contents();
    }
  }

  lemma {:induction false} WellFormedRun(trace: seq<System>, acts: seq<Action>, skew: nat, k: nat)
    requires IsRun(trace, acts, skew) && k < |trace|
    ensures WellFormed(trace[k], skew)
  {
    if k > 0 {
      WellFormedRun(trace, acts, skew, k - 1);
      WellFormedStep(trace[k - 1], acts[k - 1], skew);
    }
  }

  // ----- No resurrection

  /** The skew up to which deletion is safe: four times it must fit between the two windows. */
  ghost predicate SkewTolerated(skew: nat) {
    4 * skew <= (RETENTION_SECS - STALE_SECS) * 1000
  }

  /** The earliest real time at which a tombstone written at `written` can be collected. */
  function Horizon(written: int, skew: nat): int {
    1000 * ((written - skew) / 1000 + RETENTION_SECS + 1) - skew
  }

  /** What stays true of an id from the moment its tombstone is written. */
  ghost predicate Buried(sys: System, id: Uuid, written: int, skew: nat) {
    && id in sys.issued
    && written <= sys.now
    && (id in sys.tombs ==> sys.tombs[id].hlc.wall >= written - skew)
    && (id !in sys.tombs ==> id !in sys.records && sys.now >= Horizon(written, skew))
    && forall dev :: dev in sys.devices && id in sys.devices[dev].replica.live ==>
         sys.devices[dev].lastSeen * 1000 <= written + skew
  }

  /** Whoever still shows a buried id once its tombstone is gone has been away too long to repush it. */
  lemma LateHolderIsStale(written: int, skew: nat, now: int, lastSeen: i64, reading: i64)
    requires SkewTolerated(skew)
    requires now >= Horizon(written, skew)
    requires lastSeen * 1000 <= written + skew
    requires reading >= now - skew
    ensures DeviceIsStale(lastSeen, Secs(reading))
  {
    StaleExactly(lastSeen, Secs(reading));
  }

  lemma DeleteBuries(sys: System, a: Action, skew: nat)
    requires WellFormed(sys, skew) && Enabled(sys, a) && Within(sys, a, skew) && a.Delete?
    ensures Buried(Step(sys, a), a.id, sys.now, skew)
  {
    HlcNextCoversNow(sys.devices[a.dev].clock, a.reading, a.dev);
  }

  lemma CollectRespectsHorizon(tombstone: Hlc, presence: seq<DevicePresence>, reading: i64,
                               written: int, skew: nat, now: int)
    requires tombstone.wall >= written - skew
    requires 0 <= reading <= now + skew
    requires GcEligible(tombstone, presence, Secs(reading))
    ensures now >= Horizon(written, skew)
  {
    WrapIsIdentityInRange(Secs(reading) * 1000);
  }

  /** A session neither repushes a buried id nor leaves it live. */
  lemma SessionKeepsBuried(sys: System, a: Action, id: Uuid, written: int, skew: nat)
    requires WellFormed(sys, skew) && Enabled(sys, a) && Within(sys, a, skew) && a.Session?
    requires SkewTolerated(skew) && Buried(sys, id, written, skew)
    ensures id !in Repushed(sys, a)
    ensures id !in Step(sys, a).devices[a.dev].replica.live
    ensures Buried(Step(sys, a), id, written, skew)
  {
    PullOutcome(sys, a);
    if id !in sys.tombs && id in AfterPull(sys, a).live {
      LateHolderIsStale(written, skew, sys.now, sys.devices[a.dev].lastSeen, a.reading);
    }
  }

  lemma BuriedStep(sys: System, a: Action, id: Uuid, written: int, skew: nat)
    requires WellFormed(sys, skew) && Enabled(sys, a) && Within(sys, a, skew)
    requires SkewTolerated(skew) && Buried(sys, id, written, skew)
    ensures Buried(Step(sys, a), id, written, skew)
  {
    match a
    case Session(_, _, _, _) =>
      SessionKeepsBuried(sys, a, id, written, skew);
    case Collect(reading, collected, presence) =>
      if collected == id {
        CollectRespectsHorizon(sys.tombs[id].hlc, presence, reading, written, skew, sys.now);
      }
    case Delete(dev, reading, deleted) =>
      HlcNextCoversNow(sys.devices[dev].clock, reading, dev);
    case _ =>
  }

  lemma {:induction false} BuriedRun(trace: seq<System>, acts: seq<Action>, skew: nat, i: nat, k: nat)
    requires IsRun(trace, acts, skew) && SkewTolerated(skew)
    requires i < k < |trace| && acts[i].Delete?
    ensures Buried(trace[k], acts[i].id, trace[i].now, skew)
  {
    WellFormedRun(trace, acts, skew, k - 1);
    if k - 1 == i {
      DeleteBuries(trace[i], acts[i], skew);
    } else {
      BuriedRun(trace, acts, skew, i, k - 1);
      BuriedStep(trace[k - 1], acts[k - 1], acts[i].id, trace[i].now, skew);
    }
  }

  /** In every run, from the moment a tombstone is written: no device ever writes that record back, no
      device shows it after its next session, and no record file of it exists once its tombstone is
      gone. The presence lists given to GC are arbitrary, so this covers devices they do not mention. */
  lemma NoResurrection(trace: seq<System>, acts: seq<Action>, skew: nat, i: nat, k: nat)
    requires IsRun(trace, acts, skew) && SkewTolerated(skew)
    requires i < k < |acts| && acts[i].Delete?
    ensures acts[i].id !in Repushed(trace[k], acts[k])
    ensures acts[k].Session? ==> acts[i].id !in trace[k + 1].devices[acts[k].dev].replica.live
    ensures acts[i].id in trace[k + 1].records ==> acts[i].id in trace[k + 1].tombs
  {
    WellFormedRun(trace, acts, skew, k);
    BuriedRun(trace, acts, skew, i, k);
    BuriedRun(trace, acts, skew, i, k + 1);
    if acts[k].Session? {
      SessionKeepsBuried(trace[k], acts[k], acts[i].id, trace[i].now, skew);
    }
  }

  // ----- One live row per content

  /** In every run no device ever shows one content twice. */
  lemma OneLiveRowPerContent(trace: seq<System>, acts: seq<Action>, skew: nat, k: nat, dev: Uuid)
    requires IsRun(trace, acts, skew) && k < |trace| && dev in trace[k].devices
    ensures trace[k].devices[dev].replica.DistinctContent()
    ensures trace[k].devices[dev].replica.Valid()
  {
    WellFormedRun(trace, acts, skew, k);
  }

  // ----- Nothing is lost that nobody deleted

  /** `id` is published, and no device has it deleted. */
  ghost predicate Kept(sys: System, id: Uuid) {
    && id in sys.records && id !in sys.tombs && id in sys.issued
    && forall dev :: dev in sys.devices ==> id !in sys.devices[dev].replica.deleted
  }

  ghost predicate Harmless(a: Action, id: Uuid) {
    !(a.Delete? && a.id == id) && !(a.LoseRecord? && a.id == id)
  }

  /** A pull that is given no tombstone of `id` keeps its row. */
  lemma PullKeepsRow(sys: System, a: Action, id: Uuid)
    requires Enabled(sys, a) && a.Session? && sys.devices[a.dev].replica.Valid()
    requires id in sys.devices[a.dev].replica.live && id !in sys.tombs
    ensures id in AfterPull(sys, a).live && AfterPull(sys, a).live[id] == sys.devices[a.dev].replica.live[id]
  {
    ListedIds(a.tombOrder, sys.tombs, true);
    ListedIds(a.recordOrder, sys.records, false);
    IdsOfConcat(Listed(a.tombOrder, sys.tombs, true), Listed(a.recordOrder, sys.records, false));
    UntouchedRowStays(sys.devices[a.dev].replica, Pulled(sys, a), id);
  }

  /** `dev` still exists in `next`, and still shows the row of `id` if it did. */
  ghost predicate RowKept(sys: System, next: System, dev: Uuid, id: Uuid) {
    dev in sys.devices ==>
      && dev in next.devices
      && (id in sys.devices[dev].replica.live ==>
            id in next.devices[dev].replica.live
            && next.devices[dev].replica.live[id] == sys.devices[dev].replica.live[id])
  }

  lemma KeptSession(sys: System, a: Action, id: Uuid, dev: Uuid, skew: nat)
    requires WellFormed(sys, skew) && Enabled(sys, a) && Kept(sys, id) && a.Session?
    ensures Kept(Step(sys, a), id)
    ensures RowKept(sys, Step(sys, a), dev, id)
  {
    hide Pulled, ReceiveAll, MergeAll, Replica.DistinctContent;
    PullOutcome(sys, a);
    if id in sys.devices[a.dev].replica.live {
      PullKeepsRow(sys, a, id);
    }
    assert id !in Missing(sys, AfterPull(sys, a));
  }

  lemma KeptStep(sys: System, a: Action, id: Uuid, dev: Uuid, skew: nat)
    requires WellFormed(sys, skew) && Enabled(sys, a) && Kept(sys, id) && Harmless(a, id)
    ensures Kept(Step(sys, a), id)
    ensures RowKept(sys, Step(sys, a), dev, id)
  {
    match a
    case Session(_, _, _, _) => KeptSession(sys, a, id, dev, skew);
    case _ =>
  }

  /** The converse of the zombie guard: while nobody deletes a record and the provider does not lose its
      file, the file stays, no device ever deletes it, not even one that was away for years, and every
      device that shows the row keeps showing it unchanged. */
  lemma {:induction false} NothingLost(trace: seq<System>, acts: seq<Action>, skew: nat, i: nat, k: nat,
                                       id: Uuid, dev: Uuid)
    requires IsRun(trace, acts, skew) && i <= k < |trace|
    requires Kept(trace[i], id)
    requires forall j :: i <= j < k ==> Harmless(acts[j], id)
    ensures Kept(trace[k], id)
    ensures RowKept(trace[i], trace[k], dev, id)
  {
    if i < k {
      NothingLost(trace, acts, skew, i, k - 1, id, dev);
      WellFormedRun(trace, acts, skew, k - 1);
      KeptStep(trace[k - 1], acts[k - 1], id, dev, skew);
    }
  }

  /** A record file the provider lost is back after the session of any fresh device that shows the row,
      with the record the row holds. */
  lemma FreshHolderRestores(sys: System, a: Action, id: Uuid, skew: nat)
    requires WellFormed(sys, skew) && Enabled(sys, a) && a.Session?
    requires id in sys.devices[a.dev].replica.live && id !in sys.records && id !in sys.tombs
    requires !DeviceIsStale(sys.devices[a.dev].lastSeen, Secs(a.reading))
    ensures id in Step(sys, a).records && Step(sys, a).records[id] == sys.devices[a.dev].replica.live[id]
    ensures id in Repushed(sys, a)
  {
    PullKeepsRow(sys, a, id);
  }
}
