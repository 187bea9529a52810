/**
 How far the devices' clocks may be apart: deletion is safe exactly up to thirty hours from real time,
 a quarter of the gap between the retention and the stale windows.
 */
module SkewBound {
  import opened Base
  import opened Clock
  import opened Merge
  import opened Retention
  import opened Scenario
  import opened Vault

  /** No run with clocks within `skew` of real time ever writes back a deleted record. */
  ghost predicate DeletionSafe(skew: nat) {
    forall trace: seq<System>, acts: seq<Action>, i: nat, k: nat ::
      IsRun(trace, acts, skew) && 0 <= i < k < |acts| && acts[i].Delete? ==>
        acts[i].id !in Repushed(trace[k], acts[k])
  }

  // ----- The run that resurrects a record one millisecond past the bound

  const SKEW := 108_000_001
  const WRITTEN := 1_108_000_000
  const COLLECTED := 3_915_999_999

  /** A's clock runs behind real time and B's ahead. */
  const START := Clocks(WRITTEN, WRITTEN - SKEW, WRITTEN + SKEW)

  /** After the opening the tombstone is collected by a clock running ahead; B, now running behind, syncs
      again and takes itself for fresh. */
  const ACTS: seq<Action> := START.Opening() + [
    Tick(COLLECTED - WRITTEN),
    Collect(COLLECTED + SKEW, X, []),
    Session(B, COLLECTED - SKEW, [], [])
  ]

  ghost function TraceAt(k: nat): System
    requires k <= 7
  {
    if k <= 5 then START.Opened(k)
    else if k == 6 then START.Opened(5).(now := COLLECTED)
    else START.Opened(5).(now := COLLECTED, tombs := map[])
  }

  lemma BRepushesX(skew: nat)
    requires SKEW <= skew
    ensures Enabled(TraceAt(7), ACTS[7]) && Within(TraceAt(7), ACTS[7], skew)
    ensures X in Repushed(TraceAt(7), ACTS[7])
  {
    var sys, a := TraceAt(7), ACTS[7];
    assert Pulled(sys, a) == [];
    assert AfterPull(sys, a) == START.Holder();
    StaleExactly(sys.devices[B].lastSeen, Secs(a.reading));
    assert X in START.Holder().live;
    assert X in Missing(sys, START.Holder());
  }

  lemma TraceSteps(k: nat, skew: nat)
    requires k < 7 && SKEW <= skew
    ensures Enabled(TraceAt(k), ACTS[k]) && Within(TraceAt(k), ACTS[k], skew)
    ensures Step(TraceAt(k), ACTS[k]) == TraceAt(k + 1)
  {
    if k < 5 {
      START.OpeningSteps(k, skew);
    } else if k == 6 {
      GcIsAgeTest(START.XTomb().hlc, [], Secs(COLLECTED + SKEW));
      assert map[X := START.XTomb()] - {X} == map[];
    }
  }

  /** Past thirty hours of skew there is a run that writes a deleted record back. */
  lemma UnsafePastBound(skew: nat)
    requires !SkewTolerated(skew)
    ensures !DeletionSafe(skew)
  {
    hide Step, Enabled, Within, Repushed;
    BRepushesX(skew);
    var trace := seq(8, k requires 0 <= k < 8 => TraceAt(k)) + [Step(TraceAt(7), ACTS[7])];
    forall k | 0 <= k < |ACTS|
      ensures Enabled(trace[k], ACTS[k]) && Within(trace[k], ACTS[k], skew) && trace[k + 1] == Step(trace[k], ACTS[k])
    {
      if k < 7 {
        TraceSteps(k, skew);
      }
    }
    assert IsRun(trace, ACTS, skew);
    assert 4 < 7 < |ACTS| && ACTS[4].Delete? && ACTS[4].id == X;
    assert ACTS[4].id in Repushed(trace[7], ACTS[7]);
  }

  /** The exact tolerance: deletion is safe if and only if every clock stays within thirty hours. */
  lemma DeletionSafeExactly(skew: nat)
    ensures DeletionSafe(skew) <==> skew <= 30 * 3_600_000
  {
    if SkewTolerated(skew) {
      forall trace: seq<System>, acts: seq<Action>, i: nat, k: nat |
          IsRun(trace, acts, skew) && 0 <= i < k < |acts| && acts[i].Delete?
        ensures acts[i].id !in Repushed(trace[k], acts[k])
      {
        NoResurrection(trace, acts, skew, i, k);
      }
    } else {
      UnsafePastBound(skew);
    }
  }
}
