/** The Hybrid Logical Clock: its stamps, their order, and the two functions that advance it. */
module Clock {
  import opened Base

  /** A remote wall further ahead of local `now` than this is clamped before merging. */
  const MAX_DRIFT_MILLIS: int := 24 * 3_600_000

  datatype Hlc = Hlc(wall: i64, counter: u32, node: Uuid)

  datatype Ordering = Less | Equal | Greater {
    function Then(next: Ordering): Ordering {
      if this == Equal then next else this
    }

    function Reverse(): Ordering {
      match this
      case Less => Greater
      case Equal => Equal
      case Greater => Less
    }
  }

  function CompareInt(a: int, b: int): Ordering {
    if a < b then Less else if a == b then Equal else Greater
  }

  /** Lexicographic order on byte strings. */
  function CompareBytes(a: seq<u8>, b: seq<u8>): Ordering {
    if a == [] then
      if b == [] then Equal else Less
    else if b == [] then Greater
    else CompareInt(a[0], b[0]).Then(CompareBytes(a[1..], b[1..]))
  }

  function HlcCompare(a: Hlc, b: Hlc): Ordering {
    CompareInt(a.wall, b.wall).Then(CompareInt(a.counter, b.counter)).Then(CompareBytes(a.node.bytes, b.node.bytes))
  }

  function HlcNext(prev: Option<Hlc>, now: i64, node: Uuid): Hlc {
    match prev
    case None => Hlc(now, 0, node)
    case Some(p) =>
      var wall := Max(p.wall, now);
      if wall == p.wall then
        if p.counter < U32_MAX then Hlc(wall, p.counter + 1, node)
        else Hlc(SaturateI64(wall + 1), 0, node)
      else
        Hlc(wall, 0, node)
  }

  /** The remote wall as `HlcReceive` sees it. */
  function Clamped(remote: Hlc, now: i64): i64 {
    Min(remote.wall, SaturateI64(now + MAX_DRIFT_MILLIS))
  }

  predicate Unclamped(remote: Hlc, now: i64) {
    remote.wall <= now + MAX_DRIFT_MILLIS
  }

  function SaturatingIncrement(c: u32): u32 {
    if c < U32_MAX then c + 1 else c
  }

  function HlcReceive(local: Option<Hlc>, remote: Hlc, now: i64, node: Uuid): Hlc {
    var remoteWall := Clamped(remote, now);
    var localWall := if local.Some? then local.value.wall else I64_MIN;
    var wall := Max(Max(localWall, remoteWall), now);
    var localPart := if local.Some? && local.value.wall == wall then Some(local.value.counter) else None;
    var remotePart := if remoteWall == wall then Some(remote.counter) else None;
    var counter :=
      match (localPart, remotePart)
      case (Some(a), Some(b)) => SaturatingIncrement(Max(a, b))
      case (Some(a), None) => SaturatingIncrement(a)
      case (None, Some(b)) => SaturatingIncrement(b)
      case (None, None) => 0;
    Hlc(wall, counter, node)
  }

  // ----- The order is total

  lemma {:induction false} CompareBytesReflects(a: seq<u8>, b: seq<u8>)
    ensures CompareBytes(a, b) == Equal <==> a == b
    ensures CompareBytes(b, a) == CompareBytes(a, b).Reverse()
  {
    if a != [] && b != [] {
      CompareBytesReflects(a[1..], b[1..]);
      assert a == [a[0]] + a[1..] && b == [b[0]] + b[1..];
    }
  }

  /** `a` and `b` agree up to position `k`, where `a` has ended or has the smaller byte. */
  predicate SmallerAt(a: seq<u8>, b: seq<u8>, k: nat) {
    && k <= |a| && k < |b|
    && a[..k] == b[..k]
    && (k < |a| ==> a[k] < b[k])
  }

  /** The first difference decides. */
  lemma {:induction false} CompareBytesLexicographic(a: seq<u8>, b: seq<u8>)
    ensures CompareBytes(a, b) == Less <==> exists k :: 0 <= k <= |a| && SmallerAt(a, b, k)
  {
    if a != [] && b != [] {
      assert a == [a[0]] + a[1..] && b == [b[0]] + b[1..];
      CompareBytesLexicographic(a[1..], b[1..]);
      if CompareBytes(a, b) == Less {
        if a[0] < b[0] {
          assert SmallerAt(a, b, 0);
        } else {
          var k :| 0 <= k <= |a[1..]| && SmallerAt(a[1..], b[1..], k);
          assert a[..k + 1] == [a[0]] + a[1..][..k] && b[..k + 1] == [b[0]] + b[1..][..k];
          assert SmallerAt(a, b, k + 1);
        }
      }
      if k :| 0 <= k <= |a| && SmallerAt(a, b, k) {
        if k > 0 {
          assert a[0] == a[..k][0] == b[..k][0] == b[0];
          assert a[1..][..k - 1] == a[..k][1..] && b[1..][..k - 1] == b[..k][1..];
          assert SmallerAt(a[1..], b[1..], k - 1);
        }
      }
    } else if b != [] {
      assert SmallerAt(a, b, 0);
    }
  }

  lemma {:induction false} CompareBytesTransitive(a: seq<u8>, b: seq<u8>, c: seq<u8>)
    requires CompareBytes(a, b) != Greater && CompareBytes(b, c) != Greater
    ensures CompareBytes(a, c) != Greater
    ensures CompareBytes(a, c) == Equal ==> a == b == c
  {
    CompareBytesReflects(a, b);
    CompareBytesReflects(b, c);
    CompareBytesReflects(a, c);
    if a != [] && b != [] && c != [] && a[0] == b[0] == c[0] {
      CompareBytesTransitive(a[1..], b[1..], c[1..]);
      assert a == [a[0]] + a[1..] && b == [b[0]] + b[1..] && c == [c[0]] + c[1..];
    }
  }

  /** `HlcCompare` is a total order: it tells distinct stamps apart, is antisymmetric, transitive. */
  lemma HlcCompareTotal(a: Hlc, b: Hlc, c: Hlc)
    ensures HlcCompare(a, b) == Equal <==> a == b
    ensures HlcCompare(b, a) == HlcCompare(a, b).Reverse()
    ensures HlcCompare(a, b) != Greater && HlcCompare(b, c) != Greater ==> HlcCompare(a, c) != Greater
    ensures HlcCompare(a, b) == Less && HlcCompare(b, c) != Greater ==> HlcCompare(a, c) == Less
    ensures HlcCompare(a, b) != Greater && HlcCompare(b, c) == Less ==> HlcCompare(a, c) == Less
  {
    CompareBytesReflects(a.node.bytes, b.node.bytes);
    CompareBytesReflects(b.node.bytes, c.node.bytes);
    CompareBytesReflects(a.node.bytes, c.node.bytes);
    if CompareBytes(a.node.bytes, b.node.bytes) != Greater && CompareBytes(b.node.bytes, c.node.bytes) != Greater {
      CompareBytesTransitive(a.node.bytes, b.node.bytes, c.node.bytes);
    }
  }

  /** One stamp is before another exactly when its wall is earlier, or at one wall its counter is smaller, or
      at one wall and counter its node has the smaller byte where the nodes first differ, or ends there. */
  lemma HlcCompareExactly(a: Hlc, b: Hlc)
    ensures HlcCompare(a, b) == Less <==>
              || a.wall < b.wall
              || (a.wall == b.wall && a.counter < b.counter)
              || (a.wall == b.wall && a.counter == b.counter
                  && exists k :: 0 <= k <= |a.node.bytes| && SmallerAt(a.node.bytes, b.node.bytes, k))
    ensures HlcCompare(Hlc(5, 1, Uuid([1])), Hlc(5, 1, Uuid([2]))) == Less
  {
    CompareBytesLexicographic(a.node.bytes, b.node.bytes);
  }

  // ----- Progress, whatever the nodes

  /** `a` is at least `b` on (wall, counter), so no node tie-break can put it before `b`. */
  predicate AtLeast(a: Hlc, b: Hlc) {
    a.wall > b.wall || (a.wall == b.wall && a.counter >= b.counter)
  }

  /** `a` beats `b` on (wall, counter) alone. */
  predicate Ahead(a: Hlc, b: Hlc) {
    a.wall > b.wall || (a.wall == b.wall && a.counter > b.counter)
  }

  /** The one stamp that `HlcNext` cannot advance. */
  predicate Exhausted(h: Hlc) {
    h.wall == I64_MAX && h.counter == U32_MAX
  }

  /** A new stamp beats the previous one exactly when the clock is not exhausted, for any wall clock
      reading; from the exhausted clock it goes strictly backwards. */
  lemma HlcNextAdvances(prev: Hlc, now: i64, node: Uuid)
    ensures Ahead(HlcNext(Some(prev), now, node), prev) <==> !Exhausted(prev)
    ensures Exhausted(prev) ==> HlcCompare(HlcNext(Some(prev), now, node), prev) == Less
    ensures HlcNext(Some(prev), now, node).node == node
  {
  }

  /** The new stamp is the least one that beats the previous stamp and is not older than the reading. */
  lemma HlcNextIsLeast(prev: Option<Hlc>, now: i64, node: Uuid, h: Hlc)
    requires h.wall >= now && (prev.Some? ==> Ahead(h, prev.value))
    ensures AtLeast(h, HlcNext(prev, now, node))
  {
  }

  /** A received stamp moves the clock to the least value that beats both it, as clamped, and the local
      clock, and is not older than the reading. */
  lemma HlcReceiveIsLeast(local: Option<Hlc>, remote: Hlc, now: i64, node: Uuid, h: Hlc)
    requires h.wall >= now
    requires local.Some? ==> Ahead(h, local.value)
    requires Ahead(h, remote.(wall := Clamped(remote, now)))
    ensures AtLeast(h, HlcReceive(local, remote, now, node))
  {
  }

  /** A stamp is never older than the reading it was issued at, and names the device that issued it. */
  lemma HlcNextCoversNow(prev: Option<Hlc>, now: i64, node: Uuid)
    ensures HlcNext(prev, now, node).wall >= now
    ensures HlcNext(prev, now, node).node == node
  {
  }

  /** Receiving dominates the local clock and an unclamped remote; it strictly beats each exactly unless that
      one sits at the resulting wall with a saturated counter. */
  lemma HlcReceiveDominates(local: Option<Hlc>, remote: Hlc, now: i64, node: Uuid)
    ensures var r := HlcReceive(local, remote, now, node);
            && r.wall >= now
            && r.node == node
            && (local.Some? ==> AtLeast(r, local.value))
            && (local.Some? ==> (Ahead(r, local.value) <==>
                                 !(local.value.counter == U32_MAX
                                   && local.value.wall >= Max(Clamped(remote, now), now))))
            && (Unclamped(remote, now) ==> AtLeast(r, remote))
            && (Unclamped(remote, now) ==>
                  (Ahead(r, remote) <==> !(remote.counter == U32_MAX && r.wall == remote.wall)))
            && (!Unclamped(remote, now) && (local.Some? ==> local.value.wall < remote.wall) ==>
                  Ahead(remote, r))
  {
  }

  /** What a received stamp does to the clock, clamped or not: the new wall is the largest of the reading, the
      local wall and the remote wall cut at 24 hours past the reading. The result dominates the remote stamp
      with that wall, strictly unless a saturated counter at the resulting wall stops it. */
  lemma HlcReceiveTakesClamped(local: Option<Hlc>, remote: Hlc, now: i64, node: Uuid)
    ensures var r := HlcReceive(local, remote, now, node);
            var wall := if remote.wall <= now + 86_400_000 then remote.wall else now + 86_400_000;
            var cut := remote.(wall := wall);
            && r.wall >= now && r.wall >= wall && (local.Some? ==> r.wall >= local.value.wall)
            && (r.wall == now || r.wall == wall || (local.Some? && r.wall == local.value.wall))
            && AtLeast(r, cut)
            && (Ahead(r, cut) <==> !(remote.counter == U32_MAX && r.wall == wall))
  {
  }
}
