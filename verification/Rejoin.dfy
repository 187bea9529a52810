/**
 What a returning device does over a whole run: it remembers its latest session, and that alone decides
 whether a row that both folders have lost is dropped or written back.
 */
module Rejoin {
  import opened Base
  import opened Merge
  import opened Retention
  import opened Vault

  /** Device `dev` joins or syncs in this step. */
  predicate Appears(a: Action, dev: Uuid) {
    (a.Join? || a.Session?) && a.dev == dev
  }

  /** Device `dev` appears at step `i`, and not again before step `k`. */
  predicate LastAppears(acts: seq<Action>, i: nat, k: nat, dev: Uuid)
    requires k <= |acts|
  {
    i < k && Appears(acts[i], dev) && forall j :: i < j < k ==> !Appears(acts[j], dev)
  }

  lemma StepRemembers(sys: System, a: Action, dev: Uuid)
    requires Enabled(sys, a)
    requires Appears(a, dev) || dev in sys.devices
    ensures var next := Step(sys, a);
            dev in next.devices
            && next.devices[dev].lastSeen == (if Appears(a, dev) then a.reading / 1000 else sys.devices[dev].lastSeen)
  {
    hide AfterPull, Pulled, ReceiveAll, Missing, DropRows;
  }

  /** In every run a device's `lastSeen` is its latest appearance, in whole seconds of its own clock. */
  lemma {:induction false} LastSeenIsLatest(trace: seq<System>, acts: seq<Action>, skew: nat, i: nat, k: nat, dev: Uuid)
    requires IsRun(trace, acts, skew) && k <= |acts| && LastAppears(acts, i, k, dev)
    ensures dev in trace[k].devices && trace[k].devices[dev].lastSeen == acts[i].reading / 1000
  {
    hide Enabled, Within, Step;
    if i < k - 1 {
      LastSeenIsLatest(trace, acts, skew, i, k - 1, dev);
    }
    StepRemembers(trace[k - 1], acts[k - 1], dev);
  }

  /** One session and a row that both folders have lost. */
  lemma LostRow(sys: System, a: Action, id: Uuid, skew: nat)
    requires WellFormed(sys, skew) && Enabled(sys, a) && a.Session?
    requires id in sys.devices[a.dev].replica.live && id !in sys.records && id !in sys.tombs
    ensures var row, next := sys.devices[a.dev].replica.live[id], Step(sys, a);
            var r := next.devices[a.dev].replica;
            if DeviceIsStale(sys.devices[a.dev].lastSeen, Secs(a.reading)) then
              id in r.deleted && id !in r.live && id !in next.records
            else
              id in r.live && r.live[id] == row && id in next.records && next.records[id] == row
  {
    PullKeepsRow(sys, a, id);
    hide AfterPull, Pulled, ReceiveAll;
  }

  /** In every run, a session that finds one of its rows in neither folder: if the device last appeared at
      most thirty days of its own clock before, it keeps the row and writes its file back unchanged;
      otherwise it deletes the row and writes nothing. */
  lemma RejoinExactly(trace: seq<System>, acts: seq<Action>, skew: nat, i: nat, k: nat, id: Uuid)
    requires IsRun(trace, acts, skew) && k < |acts| && acts[k].Session?
    requires LastAppears(acts, i, k, acts[k].dev)
    requires acts[k].dev in trace[k].devices && id in trace[k].devices[acts[k].dev].replica.live
    requires id !in trace[k].records && id !in trace[k].tombs
    ensures acts[k].dev in trace[k + 1].devices
    ensures var row, r := trace[k].devices[acts[k].dev].replica.live[id], trace[k + 1].devices[acts[k].dev].replica;
            if acts[k].reading / 1000 - acts[i].reading / 1000 <= 2_592_000 then
              id in r.live && r.live[id] == row && id in trace[k + 1].records && trace[k + 1].records[id] == row
            else
              id in r.deleted && id !in r.live && id !in trace[k + 1].records
  {
    hide Step, Within, WellFormed, AfterPull, Pulled;
    LastSeenIsLatest(trace, acts, skew, i, k, acts[k].dev);
    StepRemembers(trace[k], acts[k], acts[k].dev);
    WellFormedRun(trace, acts, skew, k);
    StaleExactly(trace[k].devices[acts[k].dev].lastSeen, Secs(acts[k].reading));
    LostRow(trace[k], acts[k], id, skew);
  }
}
