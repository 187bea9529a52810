/**
 What the clock and the merge rule promise together about wiping and re-copying one content.
 */
module Recopy {
  import opened Base
  import opened Clock
  import opened ClockRuns
  import opened Merge

  /** The device that published event `b` already knew stamp `h` then: `h` was published in its causal
      past, or received there without clamping. */
  ghost predicate KnownBefore(log: seq<Event>, h: Hlc, b: nat) {
    exists path ::
      && Chain(log, path) && |path| > 1 && path[|path| - 1] == b && path[0] < |log|
      && var origin := log[path[0]];
         match origin
         case Publish(_, _) => Stamp(log, path[0]) == h
         case Receive(_, remote, now) => remote == h && Unclamped(remote, now)
  }

  lemma LaterThanKnown(log: seq<Event>, h: Hlc, b: nat)
    requires b < |log| && log[b].Publish? && SoundPast(log, b)
    ensures KnownBefore(log, h, b) ==> HlcCompare(Stamp(log, b), h) == Greater
  {
    if KnownBefore(log, h, b) {
      var path :| Chain(log, path) && |path| > 1 && path[|path| - 1] == b && path[0] < |log|
                  && match log[path[0]]
                     case Publish(_, _) => Stamp(log, path[0]) == h
                     case Receive(_, remote, now) => remote == h && Unclamped(remote, now);
      if log[path[0]].Publish? {
        CausalOrder(log, path);
      } else {
        PublishBeatsReceived(log, path);
      }
    }
  }

  /** A re-copy survives: a record published knowing every tombstone of its content that some device
      knows is inserted there, unless that device already shows the content. */
  lemma RecopySurvives(log: seq<Event>, b: nat, r: Replica, e: Incoming)
    requires b < |log| && log[b].Publish? && SoundPast(log, b)
    requires r.Valid() && !e.deleted && e.id !in r.applied && e.record.hlc == Stamp(log, b)
    requires forall x :: x in r.wipes && r.wipes[x].hash == e.record.hash ==> KnownBefore(log, r.wipes[x].hlc, b)
    ensures MergeDecide(LocalStateFor(r, e.id, e.record.hash), e.deleted, e.record.hlc)
         == (if e.record.hash in r.Contents() then SkipDuplicateContent else ApplyRemote)
    ensures e.record.hash in MergeStep(r, e).Contents()
  {
    forall x | x in r.wipes && r.wipes[x].hash == e.record.hash
      ensures HlcCompare(e.record.hlc, r.wipes[x].hlc) == Greater
    {
      LaterThanKnown(log, r.wipes[x].hlc, b);
    }
    NewestDecides(r, e.id, e.record);
    PullOneRecord(r, e);
  }

  /** And it stays as long as the row that shows it: the record's own, or the one that suppressed it.
      When that row's tombstone comes, the content goes, and the re-copy, already applied, with it. */
  lemma RecopyStaysExactly(log: seq<Event>, b: nat, r: Replica, e: Incoming, shown: Uuid, envs: seq<Incoming>)
    requires b < |log| && log[b].Publish? && SoundPast(log, b)
    requires r.Valid() && r.DistinctContent()
    requires !e.deleted && e.id !in r.applied && e.record.hlc == Stamp(log, b)
    requires forall x :: x in r.wipes && r.wipes[x].hash == e.record.hash ==> KnownBefore(log, r.wipes[x].hlc, b)
    requires shown == e.id || (shown in r.live && r.live[shown].hash == e.record.hash)
    requires shown == e.id ==> e.record.hash !in r.Contents()
    requires BringsNothing(r.applied + {e.id}, envs, e.record.hash)
    ensures e.record.hash in MergeAll(r, [e] + envs).Contents() <==> shown !in TombIds(envs)
    ensures shown in TombIds(envs) ==> e.id !in MergeAll(r, [e] + envs).live
  {
    hide SoundPast, KnownBefore, MergeStep, Survives;
    RecordStep(r, e);
    RecopySurvives(log, b, r, e);
    MergeStepKeeps(r, e);
    PullOneRecord(r, e);
    var s := MergeStep(r, e);
    assert ([e] + envs)[1..] == envs;
    assert MergeAll(r, [e] + envs) == MergeAll(s, envs);
    assert shown in s.live && s.live[shown].hash == e.record.hash;
    ContentStaysExactly(s, envs, shown);
    var last := MergeAll(s, envs);
    if e.id in last.live {
      DeleteStateOrderFree(s, envs);
      UntouchedRowStays(s, envs, e.id);
    }
  }

  /** A row covered by a known tombstone is not inserted, and the tombstone stays known. */
  lemma CoveredByWipe(r: Replica, tombId: Uuid, e: Incoming, f: Incoming)
    requires r.Valid() && !e.deleted && e.id !in r.live
    requires tombId in r.wipes && r.wipes[tombId].hash == e.record.hash
    requires HlcCompare(r.wipes[tombId].hlc, e.record.hlc) == Greater
    requires f.id == e.id && !f.deleted ==> f == e
    ensures var s := MergeStep(r, f);
            s.Valid() && e.id !in s.live && tombId in s.wipes && s.wipes[tombId] == r.wipes[tombId]
  {
    MergeStepKeeps(r, f);
    if f == e && e.id !in r.applied {
      HlcCompareTotal(e.record.hlc, r.wipes[tombId].hlc, e.record.hlc);
      NewestDecides(r, e.id, e.record);
    }
  }

  lemma {:induction false} NewerWipeCovers(r: Replica, tombId: Uuid, e: Incoming, envs: seq<Incoming>)
    requires r.Valid() && !e.deleted && e.id !in r.live
    requires tombId in r.wipes && r.wipes[tombId].hash == e.record.hash
    requires HlcCompare(r.wipes[tombId].hlc, e.record.hlc) == Greater
    requires forall f :: f in envs && f.id == e.id && !f.deleted ==> f == e
    ensures e.id !in MergeAll(r, envs).live
    decreases |envs|
  {
    if envs != [] {
      CoveredByWipe(r, tombId, e, envs[0]);
      NewerWipeCovers(MergeStep(r, envs[0]), tombId, e, envs[1..]);
    }
  }

  /** The same within a tombstones-first pull that ends with the newer tombstone known. */
  lemma PullCovered(r: Replica, tombs: seq<Incoming>, records: seq<Incoming>, t: Uuid, e: Incoming)
    requires r.Valid() && AllTombs(tombs) && AllLive(records) && OnePerId(tombs) && OnePerId(records)
    requires !e.deleted && e.id !in r.live && e in records
    requires var wipes := MergeAll(r, tombs + records).wipes;
             t in wipes && wipes[t].hash == e.record.hash && HlcCompare(wipes[t].hlc, e.record.hlc) == Greater
    ensures e.id !in MergeAll(r, tombs + records).live
  {
    hide TakesIn, Arrivals, IsNews, HlcCompare;
    MergeAllConcat(r, tombs, records);
    DeleteStateOrderFree(r, tombs);
    PullTombstones(r, tombs);
    PullRecords(MergeAll(r, tombs), records);
    NewerWipeCovers(MergeAll(r, tombs), t, e, records);
  }

  /** A wipe covers: if the deleter knew the record when it issued a tombstone of the same content,
      then no device that knows the tombstone ever shows the record, whatever else it takes in. */
  lemma WipeCovers(log: seq<Event>, b: nat, r: Replica, tombId: Uuid, e: Incoming, envs: seq<Incoming>)
    requires b < |log| && log[b].Publish? && SoundPast(log, b)
    requires r.Valid() && !e.deleted && e.id !in r.live
    requires tombId in r.wipes && r.wipes[tombId] == Record(e.record.hash, Stamp(log, b))
    requires forall f :: f in envs && f.id == e.id && !f.deleted ==> f == e
    ensures KnownBefore(log, e.record.hlc, b) ==> e.id !in MergeAll(r, envs).live
  {
    LaterThanKnown(log, e.record.hlc, b);
    if KnownBefore(log, e.record.hlc, b) {
      NewerWipeCovers(r, tombId, e, envs);
    }
  }
}
