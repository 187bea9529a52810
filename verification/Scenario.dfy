/**
 The opening that the concrete runs share: A and B join, A publishes X, B syncs, A deletes X, all at one
 moment of real time while A's clock reads `a` and B's reads `b`.
 */
module Scenario {
  import opened Base
  import opened Clock
  import opened Merge
  import opened Retention
  import opened Vault

  const A := Uuid([0])
  const B := Uuid([1])
  const X := Uuid([2])
  const CONTENT := "content"
  const EMPTY := Replica({}, {}, map[], map[])

  datatype Clocks = Clocks(now: int, a: i64, b: i64) {
    /** A's stamp after `n` earlier ones at the same reading. */
    function Stamp(n: u32): Hlc {
      Hlc(a, n, A)
    }

    function XRecord(): Record {
      Record(CONTENT, Stamp(0))
    }

    function XTomb(): Record {
      Record(CONTENT, Stamp(1))
    }

    ghost function Holder(): Replica {
      Replica({X}, {}, map[], map[X := XRecord()])
    }

    ghost function Deleter(): Replica {
      Replica({X}, {X}, map[X := XTomb()], map[])
    }

    ghost function DeviceA(r: Replica, clock: Option<Hlc>): Device {
      Device(r, clock, Secs(a))
    }

    ghost function DeviceB(r: Replica, clock: Option<Hlc>): Device {
      Device(r, clock, Secs(b))
    }

    /** B's clock once it has received X's stamp. */
    ghost function ClockB(): Option<Hlc> {
      Some(HlcReceive(None, Stamp(0), b, B))
    }

    function Opening(): seq<Action> {
      [Join(A, a), Join(B, b), Capture(A, a, X, CONTENT), Session(B, b, [], [X]), Delete(A, a, X)]
    }

    /** The state before step `k` of the opening, and after the last. */
    ghost function Opened(k: nat): System
      requires k <= 5
    {
      var published := Some(Stamp(0));
      match k
      case 0 => System(now, map[], map[], map[], {})
      case 1 => System(now, map[A := DeviceA(EMPTY, None)], map[], map[], {})
      case 2 => System(now, map[A := DeviceA(EMPTY, None), B := DeviceB(EMPTY, None)], map[], map[], {})
      case 3 => System(now, map[A := DeviceA(Holder(), published), B := DeviceB(EMPTY, None)],
                       map[X := XRecord()], map[], {X})
      case 4 => System(now, map[A := DeviceA(Holder(), published), B := DeviceB(Holder(), ClockB())],
                       map[X := XRecord()], map[], {X})
      case _ => System(now, map[A := DeviceA(Deleter(), Some(Stamp(1))), B := DeviceB(Holder(), ClockB())],
                       map[], map[X := XTomb()], {X})
    }

    lemma HolderMerges()
      ensures MergeAll(EMPTY, [Incoming(X, false, XRecord())]) == Holder()
    {
      var e := Incoming(X, false, XRecord());
      assert [e][1..] == [];
      assert EMPTY.Contents() == {};
      RecordStep(EMPTY, e);
      assert MergeStep(EMPTY, e) == Holder();
      assert MergeAll(EMPTY, [e]) == MergeAll(Holder(), []) == Holder();
    }

    lemma APublishes()
      ensures Enabled(Opened(2), Opening()[2]) && Step(Opened(2), Opening()[2]) == Opened(3)
    {
      var next := Step(Opened(2), Opening()[2]);
      assert EMPTY.Contents() == {};
      assert next.devices[A].replica == Holder();
      assert next.devices == Opened(3).devices && next.records == Opened(3).records;
    }

    lemma BPullsX()
      ensures Enabled(Opened(3), Opening()[3]) && Step(Opened(3), Opening()[3]) == Opened(4)
    {
      hide MergeAll;
      var sys, session := Opened(3), Opening()[3];
      var e := Incoming(X, false, XRecord());
      assert Pulled(sys, session) == [e] && [e][1..] == [];
      HolderMerges();
      assert Missing(sys, Holder()) == {};
      assert ReceiveAll(None, [e], b, B) == ReceiveAll(ClockB(), [], b, B) == ClockB();
      StaleExactly(Secs(b), Secs(b));
      assert Step(sys, session).records == sys.records;
    }

    lemma ADeletes()
      ensures Enabled(Opened(4), Opening()[4]) && Step(Opened(4), Opening()[4]) == Opened(5)
    {
      var next := Step(Opened(4), Opening()[4]);
      assert X in Holder().live;
      assert next.devices[A].replica == Deleter();
      assert next.devices == Opened(5).devices && next.records == Opened(5).records && next.tombs == Opened(5).tombs;
    }

    lemma OpeningSteps(k: nat, skew: nat)
      requires k < 5
      requires 0 <= a && 0 <= b && now - skew <= a <= now + skew && now - skew <= b <= now + skew
      ensures Enabled(Opened(k), Opening()[k]) && Within(Opened(k), Opening()[k], skew)
      ensures Step(Opened(k), Opening()[k]) == Opened(k + 1)
    {
      match k
      case 2 => APublishes();
      case 3 => BPullsX();
      case 4 => ADeletes();
      case _ =>
    }
  }
}
