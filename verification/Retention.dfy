/** Tombstone garbage collection and the stale-rejoin decision. */
module Retention {
  import opened Base
  import opened Clock

  const RETENTION_SECS: int := 35 * 86_400
  const STALE_SECS: int := 30 * 86_400

  datatype DevicePresence = DevicePresence(lastSeen: i64)

  datatype RejoinAction = DeleteLocally | Repush

  predicate DeviceIsStale(lastSeen: i64, now: i64) {
    SaturateI64(now - lastSeen) > STALE_SECS
  }

  predicate GcEligible(tombstone: Hlc, devices: seq<DevicePresence>, now: i64) {
    var ageMillis := SaturateI64(WrapI64(now * 1000) - tombstone.wall);
    && ageMillis > RETENTION_SECS * 1000
    && forall d :: d in devices && !DeviceIsStale(d.lastSeen, now) ==> WrapI64(d.lastSeen * 1000) >= tombstone.wall
  }

  function RejoinDecision(selfLastSeen: i64, now: i64): RejoinAction {
    if DeviceIsStale(selfLastSeen, now) then DeleteLocally else Repush
  }

  /** The tombstone's age in whole seconds of `now`, past the retention period. */
  predicate PastRetention(tombstone: Hlc, now: int) {
    now * 1000 - tombstone.wall > RETENTION_SECS * 1000
  }

  lemma WrapIsIdentityInRange(x: int)
    ensures WrapI64(x) == x <==> -0x8000_0000_0000_0000 <= x <= 0x7FFF_FFFF_FFFF_FFFF
    ensures (WrapI64(x) - x) % 0x1_0000_0000_0000_0000 == 0
  {
  }

  /** Saturation never changes the staleness verdict. */
  lemma StaleExactly(lastSeen: i64, now: i64)
    ensures DeviceIsStale(lastSeen, now) <==> now - lastSeen > STALE_SECS
    ensures RejoinDecision(lastSeen, now) == DeleteLocally <==> now - lastSeen > STALE_SECS
    ensures DeviceIsStale(lastSeen, now) <==> now - lastSeen > 2_592_000
  {
  }

  /** Every fresh device whose presence converts to milliseconds in range has acknowledged a tombstone
      that is past retention, because RETENTION > STALE. */
  lemma FreshDeviceHasAcknowledged(tombstone: Hlc, d: DevicePresence, now: i64)
    requires PastRetention(tombstone, now)
    requires !DeviceIsStale(d.lastSeen, now) && InI64(d.lastSeen * 1000)
    ensures WrapI64(d.lastSeen * 1000) >= tombstone.wall
  {
    StaleExactly(d.lastSeen, now);
    WrapIsIdentityInRange(d.lastSeen * 1000);
  }

  /** GC is exactly an age test, for every device list whose times convert to milliseconds in range: the
      acknowledgement check never decides. */
  lemma GcIsAgeTest(tombstone: Hlc, devices: seq<DevicePresence>, now: i64)
    requires InI64(now * 1000)
    requires forall d :: d in devices ==> InI64(d.lastSeen * 1000)
    ensures GcEligible(tombstone, devices, now) <==> PastRetention(tombstone, now)
    ensures GcEligible(tombstone, devices, now) <==> now * 1000 - tombstone.wall > 3_024_000_000
  {
    WrapIsIdentityInRange(now * 1000);
    if PastRetention(tombstone, now) {
      forall d | d in devices && !DeviceIsStale(d.lastSeen, now)
        ensures WrapI64(d.lastSeen * 1000) >= tombstone.wall
      {
        FreshDeviceHasAcknowledged(tombstone, d, now);
      }
    }
  }

  /** Without the range assumption on the devices, the only presences that can still block an old
      tombstone are the ones dated so far in the future that their conversion overflows. */
  lemma GcExactly(tombstone: Hlc, devices: seq<DevicePresence>, now: i64)
    requires InI64(now * 1000)
    ensures GcEligible(tombstone, devices, now) <==>
              PastRetention(tombstone, now)
              && forall d :: d in devices && d.lastSeen * 1000 > I64_MAX ==>
                   WrapI64(d.lastSeen * 1000) >= tombstone.wall
  {
    WrapIsIdentityInRange(now * 1000);
    if PastRetention(tombstone, now) {
      forall d | d in devices
        ensures d.lastSeen * 1000 > I64_MAX ==> !DeviceIsStale(d.lastSeen, now)
        ensures !DeviceIsStale(d.lastSeen, now) && d.lastSeen * 1000 <= I64_MAX ==>
                  WrapI64(d.lastSeen * 1000) >= tombstone.wall
      {
        StaleExactly(d.lastSeen, now);
        if !DeviceIsStale(d.lastSeen, now) && InI64(d.lastSeen * 1000) {
          FreshDeviceHasAcknowledged(tombstone, d, now);
        }
      }
    }
  }

  /** Eligibility never goes away: not with time, and not with any change to the presence list. */
  lemma GcMonotone(tombstone: Hlc, devices: seq<DevicePresence>, now: i64, devices': seq<DevicePresence>, now': i64)
    requires now <= now' && InI64(now * 1000) && InI64(now' * 1000)
    requires forall d :: d in devices' ==> InI64(d.lastSeen * 1000)
    requires GcEligible(tombstone, devices, now)
    ensures GcEligible(tombstone, devices', now')
  {
    GcExactly(tombstone, devices, now);
    GcIsAgeTest(tombstone, devices', now');
  }

  /** The age test, over every tombstone. */
  ghost predicate IsAgeTestAt(now: i64) {
    forall t: Hlc :: GcEligible(t, [], now) <==> PastRetention(t, now)
  }

  /** For a unix time, collection is the age test for every tombstone if and only if the time converts to
      milliseconds without overflow. Before 1970 it can also be, by accident, when the wrapped product
      lands so low that nothing is ever eligible. */
  lemma AgeTestExactly(now: i64)
    ensures IsAgeTestAt(now) <==>
              InI64(now * 1000) || (now < 0 && WrapI64(now * 1000) <= I64_MIN + RETENTION_SECS * 1000)
    ensures now >= 0 ==> (IsAgeTestAt(now) <==> now <= I64_MAX / 1000)
  {
    var wrapped := WrapI64(now * 1000);
    if InI64(now * 1000) {
      forall t: Hlc
        ensures GcEligible(t, [], now) <==> PastRetention(t, now)
      {
        GcIsAgeTest(t, [], now);
      }
    } else if now > 0 {
      OverflowedAgeTest(Hlc(wrapped, 0, Uuid([])), now);
    } else {
      var oldest := Hlc(I64_MIN, 0, Uuid([]));
      assert !PastRetention(oldest, now);
      assert GcEligible(oldest, [], now) <==> wrapped > I64_MIN + RETENTION_SECS * 1000;
    }
  }

  lemma OverflowedAgeTest(t: Hlc, now: i64)
    requires now * 1000 > I64_MAX && t.wall == WrapI64(now * 1000)
    ensures PastRetention(t, now) && !GcEligible(t, [], now)
  {
    assert WrapI64(now * 1000) <= now * 1000 - 0x1_0000_0000_0000_0000;
  }

  /** So at one second past i64::MAX / 1000 even a tombstone from 1970 is kept. */
  lemma OverflowKeepsAncientTombstone(node: Uuid)
    ensures var tombstone, now := Hlc(0, 0, node), I64_MAX / 1000 + 1;
            PastRetention(tombstone, now) && !GcEligible(tombstone, [], now)
  {
    assert WrapI64((I64_MAX / 1000 + 1) * 1000) < 0;
  }

  /** One presence dated past i64::MAX / 1000 seconds is enough to block an old tombstone. */
  lemma FutureDatedPresenceBlocks(node: Uuid)
    ensures var tombstone, d := Hlc(0, 0, node), DevicePresence(I64_MAX / 1000 + 1);
            PastRetention(tombstone, RETENTION_SECS + 1) && !GcEligible(tombstone, [d], RETENTION_SECS + 1)
  {
    var d := DevicePresence(I64_MAX / 1000 + 1);
    StaleExactly(d.lastSeen, RETENTION_SECS + 1);
    assert d in [d] && WrapI64(d.lastSeen * 1000) < 0;
  }
}
