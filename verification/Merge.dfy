/**
 The merge rule, and what folding it over a pull does to one device's replica of the vault.
 Executing an action changes the replica as the action's own description promises.
 */
module Merge {
  import opened Base
  import opened Clock

  /** The header fields that merging reads. `hlc` is the stamp of the record or of its tombstone. */
  datatype Record = Record(hash: string, hlc: Hlc)

  /** One incoming file, reduced to what merging reads of it. */
  datatype Incoming = Incoming(id: Uuid, deleted: bool, record: Record)

  datatype LocalState = LocalState(
    applied: bool,
    appliedDeleted: bool,
    liveDuplicate: bool,
    tombstonedDuplicate: Option<Hlc>)

  datatype MergeAction = ApplyRemote | ApplyTombstone | RecordTombstoneOnly | Skip | SkipDuplicateContent

  function MergeDecide(local: LocalState, remoteDeleted: bool, remoteHlc: Hlc): MergeAction {
    if local.applied then
      if remoteDeleted && !local.appliedDeleted then ApplyTombstone else Skip
    else if remoteDeleted then
      RecordTombstoneOnly
    else if local.tombstonedDuplicate.Some? && HlcCompare(remoteHlc, local.tombstonedDuplicate.value) != Greater then
      SkipDuplicateContent
    else if local.liveDuplicate then
      SkipDuplicateContent
    else
      ApplyRemote
  }

  /** One device's tables: the applied ids, which of them are deleted, the tombstones it knows, and the
      live rows. */
  datatype Replica = Replica(
    applied: set<Uuid>,
    deleted: set<Uuid>,
    wipes: map<Uuid, Record>,
    live: map<Uuid, Record>)
  {
    ghost predicate Valid() {
      && deleted <= applied
      && wipes.Keys <= deleted
      && live.Keys <= applied - deleted
    }

    /** At most one live row per content. */
    ghost predicate DistinctContent() {
      forall x, y :: x in live && y in live && live[x].hash == live[y].hash ==> x == y
    }

    ghost function Contents(): set<string> {
      set x | x in live :: live[x].hash
    }
  }

  // ----- Summarising a replica for the decision

  /** The newest of a set of stamps. */
  ghost function Newest(stamps: set<Hlc>): (newest: Option<Hlc>)
    ensures newest.None? <==> stamps == {}
    ensures newest.Some? ==> newest.value in stamps
    ensures newest.Some? ==> forall s :: s in stamps ==> HlcCompare(s, newest.value) != Greater
  {
    if stamps == {} then None
    else
      var s :| s in stamps;
      var rest := Newest(stamps - {s});
      if rest.Some? && HlcCompare(s, rest.value) != Greater then rest
      else
        assert forall x :: x in stamps ==> HlcCompare(x, s) != Greater by {
          HlcCompareTotal(s, s, s);
          if rest.Some? {
            NewerThanAll(stamps - {s}, rest.value, s);
          }
        }
        Some(s)
  }

  lemma NewerThanAll(stamps: set<Hlc>, bound: Hlc, s: Hlc)
    requires forall x :: x in stamps ==> HlcCompare(x, bound) != Greater
    requires HlcCompare(s, bound) == Greater
    ensures forall x :: x in stamps ==> HlcCompare(x, s) != Greater
  {
    forall x | x in stamps
      ensures HlcCompare(x, s) != Greater
    {
      HlcCompareTotal(s, bound, s);
      HlcCompareTotal(x, bound, s);
    }
  }

  ghost function LocalStateFor(r: Replica, id: Uuid, hash: string): LocalState {
    LocalState(
      id in r.applied,
      id in r.deleted,
      exists x :: x in r.live && x != id && r.live[x].hash == hash,
      Newest(set x | x in r.wipes && x != id && r.wipes[x].hash == hash :: r.wipes[x].hlc))
  }

  /** `record` was stamped after every tombstone of its content in `wipes`. */
  ghost predicate Survives(wipes: map<Uuid, Record>, record: Record) {
    forall x :: x in wipes && wipes[x].hash == record.hash ==> HlcCompare(record.hlc, wipes[x].hlc) == Greater
  }

  /** Comparing with the newest tombstone stands for comparing with all of them. */
  lemma NewestDecides(r: Replica, id: Uuid, record: Record)
    requires r.Valid() && id !in r.applied
    ensures var newest := LocalStateFor(r, id, record.hash).tombstonedDuplicate;
            Survives(r.wipes, record) <==> (newest.None? || HlcCompare(record.hlc, newest.value) == Greater)
  {
    var stamps := set x | x in r.wipes && x != id && r.wipes[x].hash == record.hash :: r.wipes[x].hlc;
    var newest := Newest(stamps);
    forall x | x in r.wipes && r.wipes[x].hash == record.hash
      ensures newest.Some? && (HlcCompare(record.hlc, newest.value) == Greater ==>
                                 HlcCompare(record.hlc, r.wipes[x].hlc) == Greater)
    {
      assert r.wipes[x].hlc in stamps;
      HlcCompareTotal(r.wipes[x].hlc, newest.value, record.hlc);
      HlcCompareTotal(record.hlc, newest.value, record.hlc);
      HlcCompareTotal(record.hlc, r.wipes[x].hlc, record.hlc);
    }
  }

  /** Which action is chosen, in terms of the tables: an applied id is skipped unless its tombstone is news;
      an unknown live record is inserted exactly when it is newer than every tombstone of its content and no
      row shows the content. */
  lemma DecisionExactly(r: Replica, e: Incoming)
    requires r.Valid()
    ensures var action := MergeDecide(LocalStateFor(r, e.id, e.record.hash), e.deleted, e.record.hlc);
            && (action == Skip <==> e.id in r.applied && (e.deleted ==> e.id in r.deleted))
            && (action == ApplyTombstone <==> e.deleted && e.id in r.applied && e.id !in r.deleted)
            && (action == RecordTombstoneOnly <==> e.deleted && e.id !in r.applied)
            && (action == ApplyRemote <==>
                  && !e.deleted && e.id !in r.applied
                  && (forall x :: x in r.wipes && r.wipes[x].hash == e.record.hash ==>
                        HlcCompare(r.wipes[x].hlc, e.record.hlc) == Less)
                  && (forall x :: x in r.live ==> r.live[x].hash != e.record.hash))
  {
    if e.id !in r.applied {
      NewestDecides(r, e.id, e.record);
      forall x | x in r.wipes
        ensures HlcCompare(r.wipes[x].hlc, e.record.hlc) == Less <==>
                  HlcCompare(e.record.hlc, r.wipes[x].hlc) == Greater
      {
        HlcCompareTotal(r.wipes[x].hlc, e.record.hlc, e.record.hlc);
      }
    }
  }

  // ----- Executing a decision

  ghost function Execute(r: Replica, env: Incoming, action: MergeAction): Replica {
    match action
    case ApplyRemote =>
      r.(applied := r.applied + {env.id}, live := r.live[env.id := env.record])
    case ApplyTombstone =>
      r.(deleted := r.deleted + {env.id}, wipes := r.wipes[env.id := env.record], live := r.live - {env.id})
    case RecordTombstoneOnly =>
      r.(applied := r.applied + {env.id}, deleted := r.deleted + {env.id}, wipes := r.wipes[env.id := env.record])
    case Skip =>
      r.(applied := r.applied + {env.id})
    case SkipDuplicateContent =>
      r.(applied := r.applied + {env.id})
  }

  ghost function MergeStep(r: Replica, env: Incoming): Replica {
    Execute(r, env, MergeDecide(LocalStateFor(r, env.id, env.record.hash), env.deleted, env.record.hlc))
  }

  ghost function MergeAll(r: Replica, envs: seq<Incoming>): Replica
    decreases |envs|
  {
    if envs == [] then r else MergeAll(MergeStep(r, envs[0]), envs[1..])
  }

  lemma {:induction false} MergeAllConcat(r: Replica, a: seq<Incoming>, b: seq<Incoming>)
    ensures MergeAll(r, a + b) == MergeAll(MergeAll(r, a), b)
    decreases |a|
  {
    if a == [] {
      assert a + b == b;
    } else {
      assert (a + b)[1..] == a[1..] + b;
      MergeAllConcat(MergeStep(r, a[0]), a[1..], b);
    }
  }

  ghost function Ids(envs: seq<Incoming>): set<Uuid> {
    set e | e in envs :: e.id
  }

  ghost function TombIds(envs: seq<Incoming>): set<Uuid> {
    set e | e in envs && e.deleted :: e.id
  }

  // ----- Delete state is order-free

  lemma IdsSplit(e: Incoming, rest: seq<Incoming>)
    ensures Ids([e] + rest) == {e.id} + Ids(rest)
    ensures TombIds([e] + rest) == (if e.deleted then {e.id} else {}) + TombIds(rest)
  {
    var envs := [e] + rest;
    assert e in envs && forall f :: f in envs <==> f == e || f in rest;
  }

  lemma MergeStepKeeps(r: Replica, e: Incoming)
    requires r.Valid()
    ensures var s := MergeStep(r, e);
            && s.Valid()
            && s.applied == r.applied + {e.id}
            && s.deleted == r.deleted + (if e.deleted then {e.id} else {})
            && s.live.Keys <= r.live.Keys + ({e.id} - r.applied)
            && (r.DistinctContent() ==> s.DistinctContent())
  {
  }

  /** Any envelopes in any order, with any repeats: the delete state is exactly the union of what came in,
      rows never come back, and well-formedness and the one-row-per-content rule are kept. */
  lemma {:induction false} DeleteStateOrderFree(r: Replica, envs: seq<Incoming>)
    requires r.Valid()
    ensures var s := MergeAll(r, envs);
            && s.Valid()
            && s.applied == r.applied + Ids(envs)
            && s.deleted == r.deleted + TombIds(envs)
            && s.live.Keys <= r.live.Keys + (Ids(envs) - r.applied)
            && (r.DistinctContent() ==> s.DistinctContent())
    decreases |envs|
  {
    if envs != [] {
      var e, rest := envs[0], envs[1..];
      assert envs == [e] + rest;
      IdsSplit(e, rest);
      MergeStepKeeps(r, e);
      DeleteStateOrderFree(MergeStep(r, e), rest);
    }
  }

  /** An envelope this device has already processed changes nothing. */
  lemma ReplayChangesNothing(r: Replica, env: Incoming)
    requires r.Valid()
    requires if env.deleted then env.id in r.deleted else env.id in r.applied
    ensures MergeStep(r, env) == r
  {
    assert r.applied + {env.id} == r.applied;
  }

  /** A known tombstone is final: whatever arrives later, in whatever order, the id stays deleted and
      is not live. */
  lemma DeletedStaysDeleted(r: Replica, envs: seq<Incoming>, id: Uuid)
    requires r.Valid() && id in r.deleted
    ensures id in MergeAll(r, envs).deleted && id !in MergeAll(r, envs).live
  {
    DeleteStateOrderFree(r, envs);
  }

  // ----- A tombstones-first pull

  ghost predicate AllTombs(envs: seq<Incoming>) {
    forall e :: e in envs ==> e.deleted
  }

  ghost predicate AllLive(envs: seq<Incoming>) {
    forall e :: e in envs ==> !e.deleted
  }

  /** One envelope per id, possibly listed several times. */
  ghost predicate OnePerId(envs: seq<Incoming>) {
    forall e, f :: e in envs && f in envs && e.id == f.id ==> e == f
  }

  /** `after` is `before` plus the tombstones among `tombs` of ids not yet deleted, and nothing else. */
  ghost predicate TakesIn(before: map<Uuid, Record>, deleted: set<Uuid>, tombs: seq<Incoming>,
                          after: map<Uuid, Record>) {
    && after.Keys == before.Keys + (Ids(tombs) - deleted)
    && (forall id :: id in before && id !in Ids(tombs) - deleted ==> after[id] == before[id])
    && (forall e :: e in tombs && e.id !in deleted ==> after[e.id] == e.record)
  }

  lemma TakesInSplit(before: map<Uuid, Record>, deleted: set<Uuid>, e: Incoming, rest: seq<Incoming>,
                     after: map<Uuid, Record>)
    requires OnePerId([e] + rest) && before.Keys <= deleted
    requires TakesIn(if e.id in deleted then before else before[e.id := e.record], deleted + {e.id}, rest, after)
    ensures TakesIn(before, deleted, [e] + rest, after)
  {
    IdsSplit(e, rest);
    forall f | f in [e] + rest && f.id !in deleted
      ensures after[f.id] == f.record
    {
      assert e in [e] + rest;
    }
  }

  /** A tombstone's effect, whatever this device knew of the id. */
  lemma PullOneTombstone(r: Replica, e: Incoming)
    requires r.Valid() && e.deleted
    ensures MergeStep(r, e) == Replica(
              r.applied + {e.id},
              r.deleted + {e.id},
              if e.id in r.deleted then r.wipes else r.wipes[e.id := e.record],
              r.live - {e.id})
  {
    if e.id in r.deleted {
      assert r.deleted + {e.id} == r.deleted && r.live - {e.id} == r.live;
    } else if e.id in r.applied {
      assert r.applied + {e.id} == r.applied;
    } else {
      assert r.live - {e.id} == r.live;
    }
  }

  lemma RemoveTwice(m: map<Uuid, Record>, a: set<Uuid>, b: set<Uuid>)
    ensures (m - a) - b == m - (a + b)
  {
  }

  lemma {:induction false} PullTombstones(r: Replica, tombs: seq<Incoming>)
    requires r.Valid() && AllTombs(tombs) && OnePerId(tombs)
    ensures var s := MergeAll(r, tombs);
            && TakesIn(r.wipes, r.deleted, tombs, s.wipes)
            && s.live == r.live - Ids(tombs)
    decreases |tombs|
  {
    if tombs != [] {
      var e, rest := tombs[0], tombs[1..];
      assert tombs == [e] + rest;
      IdsSplit(e, rest);
      PullOneTombstone(r, e);
      MergeStepKeeps(r, e);
      hide MergeStep, TakesIn;
      PullTombstones(MergeStep(r, e), rest);
      RemoveTwice(r.live, {e.id}, Ids(rest));
      TakesInSplit(r.wipes, r.deleted, e, rest, MergeAll(r, tombs).wipes);
    }
  }

  /** `record` is news to a device with these tables: not applied, and newer than every wipe of its
      content. */
  ghost predicate IsNews(applied: set<Uuid>, wipes: map<Uuid, Record>, e: Incoming) {
    e.id !in applied && Survives(wipes, e.record)
  }

  /** The contents that `records` add to such a device. */
  ghost function Arrivals(applied: set<Uuid>, wipes: map<Uuid, Record>, records: seq<Incoming>): set<string> {
    set e | e in records && IsNews(applied, wipes, e) :: e.record.hash
  }

  /** The contents of the rows that `tombs` leave live. */
  ghost function Survivors(r: Replica, tombs: seq<Incoming>): set<string> {
    set x | x in r.live && x !in Ids(tombs) :: r.live[x].hash
  }

  lemma PullOneRecord(r: Replica, e: Incoming)
    requires r.Valid() && !e.deleted
    ensures var s := MergeStep(r, e);
            && s.Valid()
            && s.wipes == r.wipes && s.applied == r.applied + {e.id}
            && (forall x :: x in r.live ==> x in s.live && s.live[x] == r.live[x])
            && s.Contents() ==
               r.Contents() + (if IsNews(r.applied, r.wipes, e) then {e.record.hash} else {})
  {
    var s := MergeStep(r, e);
    if e.id !in r.applied {
      NewestDecides(r, e.id, e.record);
      if Survives(r.wipes, e.record) && !LocalStateFor(r, e.id, e.record.hash).liveDuplicate {
        assert s.live == r.live[e.id := e.record];
        assert e.record.hash in s.Contents() by { assert e.id in s.live; }
        forall h | h in r.Contents()
          ensures h in s.Contents()
        {
          var x :| x in r.live && r.live[x].hash == h;
          assert x in s.live;
        }
      }
    }
  }

  /** The row a live record adds: its own, unless the record is no news or the content is shown already. */
  lemma RowAdded(r: Replica, e: Incoming)
    requires r.Valid() && !e.deleted
    ensures MergeStep(r, e).live
         == if IsNews(r.applied, r.wipes, e) && e.record.hash !in r.Contents() then r.live[e.id := e.record] else r.live
  {
    if e.id !in r.applied {
      NewestDecides(r, e.id, e.record);
      assert e.id !in r.live;
      assert LocalStateFor(r, e.id, e.record.hash).liveDuplicate <==> e.record.hash in r.Contents();
    }
  }

  lemma {:induction false} PullRecords(r: Replica, records: seq<Incoming>)
    requires r.Valid() && AllLive(records) && OnePerId(records)
    ensures var s := MergeAll(r, records);
            && s.wipes == r.wipes
            && s.Contents() == r.Contents() + Arrivals(r.applied, r.wipes, records)
            && (forall x :: x in r.live ==> x in s.live && s.live[x] == r.live[x])
    decreases |records|
  {
    if records != [] {
      var e, rest := records[0], records[1..];
      var next := MergeStep(r, e);
      assert records == [e] + rest;
      PullOneRecord(r, e);
      PullRecords(next, rest);
      ArrivalsSplit(r.applied, r.wipes, e, rest);
    }
  }

  lemma ArrivalsSplit(applied: set<Uuid>, wipes: map<Uuid, Record>, e: Incoming, rest: seq<Incoming>)
    requires OnePerId([e] + rest)
    ensures Arrivals(applied, wipes, [e] + rest) ==
            (if IsNews(applied, wipes, e) then {e.record.hash} else {}) + Arrivals(applied + {e.id}, wipes, rest)
  {
    forall f | f in rest && f.id == e.id
      ensures f == e
    {
      assert e in [e] + rest && f in [e] + rest;
    }
    forall h | h in Arrivals(applied, wipes, [e] + rest)
      ensures h in (if IsNews(applied, wipes, e) then {e.record.hash} else {}) + Arrivals(applied + {e.id}, wipes, rest)
    {
      var f :| f in [e] + rest && IsNews(applied, wipes, f) && f.record.hash == h;
      assert f != e ==> IsNews(applied + {e.id}, wipes, f);
    }
    forall h | h in Arrivals(applied + {e.id}, wipes, rest)
      ensures h in Arrivals(applied, wipes, [e] + rest)
    {
      var f :| f in rest && IsNews(applied + {e.id}, wipes, f) && f.record.hash == h;
      assert IsNews(applied, wipes, f) && f in [e] + rest;
    }
    if IsNews(applied, wipes, e) {
      assert e in [e] + rest;
    }
  }

  /** The declarative result of one pull, tombstones before live records: it names no order. */
  lemma PullResult(r: Replica, tombs: seq<Incoming>, records: seq<Incoming>)
    requires r.Valid()
    requires AllTombs(tombs) && AllLive(records) && OnePerId(tombs) && OnePerId(records)
    ensures var s := MergeAll(r, tombs + records);
            && s.Valid()
            && s.applied == r.applied + Ids(tombs) + Ids(records)
            && s.deleted == r.deleted + Ids(tombs)
            && TakesIn(r.wipes, r.deleted, tombs, s.wipes)
            && s.Contents() == Survivors(r, tombs) + Arrivals(r.applied + Ids(tombs), s.wipes, records)
  {
    MergeAllConcat(r, tombs, records);
    DeleteStateOrderFree(r, tombs);
    TombIdsOf(tombs);
    TombIdsOf(records);
    PullTombstones(r, tombs);
    var mid := MergeAll(r, tombs);
    assert mid.live == r.live - Ids(tombs);
    SurvivorsAreContents(r, mid, tombs);
    DeleteStateOrderFree(mid, records);
    PullRecords(mid, records);
  }

  lemma TombIdsOf(envs: seq<Incoming>)
    ensures AllTombs(envs) ==> TombIds(envs) == Ids(envs)
    ensures AllLive(envs) ==> TombIds(envs) == {}
  {
  }

  lemma SurvivorsAreContents(r: Replica, s: Replica, tombs: seq<Incoming>)
    requires s.live == r.live - Ids(tombs)
    ensures s.Contents() == Survivors(r, tombs)
  {
    forall h
      ensures h in s.Contents() <==> h in Survivors(r, tombs)
    {
      if h in Survivors(r, tombs) {
        var x :| x in r.live && x !in Ids(tombs) && r.live[x].hash == h;
        assert x in s.live;
      }
    }
  }

  ghost function Members(envs: seq<Incoming>): set<Incoming> {
    set e | e in envs
  }

  /** Two devices in the same state that pull the same folder, each in its own listing order, end with
      the same delete state, the same tombstones and the same live contents. */
  lemma PullConverges(r: Replica, tombs: seq<Incoming>, records: seq<Incoming>,
                      tombs': seq<Incoming>, records': seq<Incoming>)
    requires r.Valid()
    requires AllTombs(tombs) && AllLive(records) && OnePerId(tombs) && OnePerId(records)
    requires Members(tombs) == Members(tombs') && Members(records) == Members(records')
    ensures var s, s' := MergeAll(r, tombs + records), MergeAll(r, tombs' + records');
            && s.applied == s'.applied && s.deleted == s'.deleted
            && s.wipes == s'.wipes && s.Contents() == s'.Contents()
  {
    SameMembers(r, tombs, tombs');
    SameMembers(r, records, records');
    PullResult(r, tombs, records);
    PullResult(r, tombs', records');
    TakesInUnique(r.wipes, r.deleted, tombs, MergeAll(r, tombs + records).wipes, MergeAll(r, tombs' + records').wipes);
  }

  lemma SameMembers(r: Replica, a: seq<Incoming>, b: seq<Incoming>)
    requires Members(a) == Members(b)
    ensures (OnePerId(a) ==> OnePerId(b)) && (AllTombs(a) ==> AllTombs(b)) && (AllLive(a) ==> AllLive(b))
    ensures Ids(a) == Ids(b) && Survivors(r, a) == Survivors(r, b)
    ensures forall before, deleted, after ::
              TakesIn(before, deleted, a, after) <==> TakesIn(before, deleted, b, after)
    ensures forall applied, wipes :: Arrivals(applied, wipes, a) == Arrivals(applied, wipes, b)
  {
    forall e
      ensures e in a <==> e in b
    {
      assert e in a <==> e in Members(a);
      assert e in b <==> e in Members(b);
    }
    assert Ids(a) == Ids(b);
  }

  lemma TakesInUnique(before: map<Uuid, Record>, deleted: set<Uuid>, tombs: seq<Incoming>,
                      x: map<Uuid, Record>, y: map<Uuid, Record>)
    requires TakesIn(before, deleted, tombs, x) && TakesIn(before, deleted, tombs, y)
    ensures x == y
  {
    forall id | id in x
      ensures x[id] == y[id]
    {
      if id in Ids(tombs) - deleted {
        var e :| e in tombs && e.id == id;
      }
    }
  }

  // ----- How long a row and its content stay

  /** A merge never drops a row whose tombstone it is not given. */
  lemma {:induction false} UntouchedRowStays(r: Replica, envs: seq<Incoming>, id: Uuid)
    requires r.Valid() && id in r.live && id !in TombIds(envs)
    ensures id in MergeAll(r, envs).live && MergeAll(r, envs).live[id] == r.live[id]
    decreases |envs|
  {
    if envs != [] {
      var e, rest := envs[0], envs[1..];
      assert envs == [e] + rest;
      IdsSplit(e, rest);
      MergeStepKeeps(r, e);
      UntouchedRowStays(MergeStep(r, e), rest, id);
    }
  }

  /** No record of content `hash` among `envs` is new to a device that has applied these ids. */
  ghost predicate BringsNothing(applied: set<Uuid>, envs: seq<Incoming>, hash: string) {
    forall f :: f in envs && !f.deleted && f.record.hash == hash ==> f.id in applied
  }

  /** Rows of a content only disappear while nothing new of it arrives. */
  lemma {:induction false} NoNewRowOf(r: Replica, envs: seq<Incoming>, hash: string, id: Uuid)
    requires r.Valid() && BringsNothing(r.applied, envs, hash)
    requires id in MergeAll(r, envs).live && MergeAll(r, envs).live[id].hash == hash
    ensures id in r.live && r.live[id].hash == hash
    decreases |envs|
  {
    if envs != [] {
      var e, rest := envs[0], envs[1..];
      assert envs == [e] + rest;
      MergeStepKeeps(r, e);
      StepBringsNothing(r, e, hash);
      NoNewRowOf(MergeStep(r, e), rest, hash, id);
    }
  }

  lemma StepBringsNothing(r: Replica, e: Incoming, hash: string)
    requires r.Valid() && (!e.deleted && e.record.hash == hash ==> e.id in r.applied)
    ensures forall x :: x in MergeStep(r, e).live && MergeStep(r, e).live[x].hash == hash ==>
              x in r.live && r.live[x].hash == hash
  {
    if e.deleted {
      PullOneTombstone(r, e);
    } else {
      RowAdded(r, e);
    }
  }

  /** A content stays exactly as long as the row that shows it: while nothing new of it arrives, it is
      still shown if and only if that row's tombstone did not come. */
  lemma ContentStaysExactly(r: Replica, envs: seq<Incoming>, id: Uuid)
    requires r.Valid() && r.DistinctContent() && id in r.live
    requires BringsNothing(r.applied, envs, r.live[id].hash)
    ensures r.live[id].hash in MergeAll(r, envs).Contents() <==> id !in TombIds(envs)
  {
    var s := MergeAll(r, envs);
    DeleteStateOrderFree(r, envs);
    if id !in TombIds(envs) {
      UntouchedRowStays(r, envs, id);
      assert s.live[id].hash in s.Contents();
    } else if r.live[id].hash in s.Contents() {
      var x :| x in s.live && s.live[x].hash == r.live[id].hash;
      NoNewRowOf(r, envs, r.live[id].hash, x);
    }
  }

  // ----- What depends on order

  lemma MergeAllTwo(r: Replica, e: Incoming, f: Incoming)
    ensures MergeAll(r, [e, f]) == MergeStep(MergeStep(r, e), f)
  {
    assert [e, f][1..] == [f];
    assert MergeAll(MergeStep(r, e), [f]) == MergeAll(MergeStep(MergeStep(r, e), f), []);
  }

  /** The record has the tombstone's content and is not stamped after it. */
  ghost predicate Covered(t: Incoming, e: Incoming) {
    e.record.hash == t.record.hash && HlcCompare(e.record.hlc, t.record.hlc) != Greater
  }

  lemma NewsAfterTombstone(r: Replica, t: Incoming, e: Incoming)
    requires r.Valid() && t.deleted && !e.deleted
    ensures var s := MergeStep(r, t);
            s.Valid() && (IsNews(s.applied, s.wipes, e) <==>
              IsNews(r.applied, r.wipes, e) && t.id != e.id && (t.id in r.deleted || !Covered(t, e)))
  {
    MergeStepKeeps(r, t);
    PullOneTombstone(r, t);
    var s := MergeStep(r, t);
    if t.id !in r.deleted {
      assert s.wipes == r.wipes[t.id := t.record] && t.id in s.wipes && s.wipes[t.id] == t.record;
      assert forall x :: x in r.wipes ==> x in s.wipes && s.wipes[x] == r.wipes[x];
    }
  }

  /** The contents when the tombstone comes first. */
  lemma TombstoneFirst(r: Replica, t: Incoming, e: Incoming)
    requires r.Valid() && t.deleted && !e.deleted
    ensures MergeAll(r, [t, e]).Contents()
         == Survivors(r, [t])
            + (if IsNews(r.applied, r.wipes, e) && t.id != e.id && (t.id in r.deleted || !Covered(t, e))
               then {e.record.hash} else {})
  {
    MergeAllTwo(r, t, e);
    NewsAfterTombstone(r, t, e);
    PullOneTombstone(r, t);
    PullOneRecord(MergeStep(r, t), e);
    IdsSplit(t, []);
    assert [t] + [] == [t] && Ids([]) == {};
    SurvivorsAreContents(r, MergeStep(r, t), [t]);
  }

  /** The contents when the record comes first. */
  lemma RecordFirst(r: Replica, t: Incoming, e: Incoming)
    requires r.Valid() && t.deleted && !e.deleted
    ensures MergeAll(r, [e, t]).Contents()
         == Survivors(r, [t])
            + (if IsNews(r.applied, r.wipes, e) && t.id != e.id && e.record.hash !in r.Contents()
               then {e.record.hash} else {})
  {
    MergeAllTwo(r, e, t);
    MergeStepKeeps(r, e);
    RowAdded(r, e);
    var mid := MergeStep(r, e);
    PullOneTombstone(mid, t);
    IdsSplit(t, []);
    assert [t] + [] == [t] && Ids([]) == {};
    SurvivorsAreContents(mid, MergeStep(mid, t), [t]);
    SurvivorsWithRow(r, mid, t, e);
  }

  lemma SurvivorsWithRow(r: Replica, mid: Replica, t: Incoming, e: Incoming)
    requires e.id in r.live ==> mid.live == r.live
    requires mid.live == r.live || mid.live == r.live[e.id := e.record]
    requires Ids([t]) == {t.id}
    ensures Survivors(mid, [t])
         == Survivors(r, [t]) + (if mid.live != r.live && t.id != e.id then {e.record.hash} else {})
  {
    if mid.live != r.live {
      forall h
        ensures h in Survivors(mid, [t]) <==> h in Survivors(r, [t]) || (t.id != e.id && h == e.record.hash)
      {
        if h in Survivors(r, [t]) {
          var x :| x in r.live && x !in Ids([t]) && r.live[x].hash == h;
          assert x in mid.live && mid.live[x] == r.live[x];
        }
        if t.id != e.id && h == e.record.hash {
          assert e.id in mid.live && mid.live[e.id].hash == h;
        }
      }
    }
  }

  /** When it matters for the live contents which of a tombstone and a record comes first: the record is
      news, the tombstone is for another id and is news too, no other row shows the content, and either
      the tombstone covers the record and no row showed the content before, or it does not cover it and
      the row it deletes did. */
  ghost predicate OrderMatters(r: Replica, t: Incoming, e: Incoming) {
    && IsNews(r.applied, r.wipes, e)
    && t.id != e.id && t.id !in r.deleted
    && e.record.hash !in Survivors(r, [t])
    && (Covered(t, e) <==> e.record.hash !in r.Contents())
  }

  /** A live record's effect on the tables. */
  lemma RecordStep(r: Replica, e: Incoming)
    requires r.Valid() && !e.deleted
    ensures MergeStep(r, e) == Replica(
              r.applied + {e.id},
              r.deleted,
              r.wipes,
              if IsNews(r.applied, r.wipes, e) && e.record.hash !in r.Contents()
              then r.live[e.id := e.record] else r.live)
  {
    RowAdded(r, e);
  }

  /** The tables after a tombstone and a record in either order, with the record's row added or not. */
  ghost function BothTaken(r: Replica, t: Incoming, e: Incoming, added: bool): Replica {
    Replica(
      r.applied + {t.id, e.id},
      r.deleted + {t.id},
      if t.id in r.deleted then r.wipes else r.wipes[t.id := t.record],
      if added then (r.live - {t.id})[e.id := e.record] else r.live - {t.id})
  }

  lemma TablesTombstoneFirst(r: Replica, t: Incoming, e: Incoming)
    requires r.Valid() && t.deleted && !e.deleted
    ensures MergeAll(r, [t, e])
         == BothTaken(r, t, e, IsNews(r.applied, r.wipes, e) && t.id != e.id
                               && (t.id in r.deleted || !Covered(t, e)) && e.record.hash !in Survivors(r, [t]))
  {
    MergeAllTwo(r, t, e);
    NewsAfterTombstone(r, t, e);
    PullOneTombstone(r, t);
    RecordStep(MergeStep(r, t), e);
    IdsSplit(t, []);
    assert [t] + [] == [t] && Ids([]) == {};
    SurvivorsAreContents(r, MergeStep(r, t), [t]);
  }

  lemma AddThenRemove(m: map<Uuid, Record>, added: Uuid, record: Record, removed: Uuid)
    ensures m[added := record] - {removed}
         == if removed == added then m - {removed} else (m - {removed})[added := record]
  {
  }

  lemma TablesRecordFirst(r: Replica, t: Incoming, e: Incoming)
    requires r.Valid() && t.deleted && !e.deleted
    ensures MergeAll(r, [e, t])
         == BothTaken(r, t, e, IsNews(r.applied, r.wipes, e) && t.id != e.id && e.record.hash !in r.Contents())
  {
    hide MergeStep, MergeAll, IsNews, Replica.Contents;
    MergeAllTwo(r, e, t);
    MergeStepKeeps(r, e);
    RecordStep(r, e);
    PullOneTombstone(MergeStep(r, e), t);
    AddThenRemove(r.live, e.id, e.record, t.id);
    assert r.applied + {e.id} + {t.id} == r.applied + {t.id, e.id};
  }

  /** Swapping a tombstone and a record leaves the tables alone exactly unless order matters, and so does
      it the live contents alone. */
  lemma SwapExactly(r: Replica, t: Incoming, e: Incoming)
    requires r.Valid() && t.deleted && !e.deleted
    ensures MergeAll(r, [t, e]) == MergeAll(r, [e, t]) <==> !OrderMatters(r, t, e)
    ensures MergeAll(r, [t, e]).Contents() == MergeAll(r, [e, t]).Contents() <==> !OrderMatters(r, t, e)
  {
    TombstoneFirst(r, t, e);
    RecordFirst(r, t, e);
    TablesTombstoneFirst(r, t, e);
    TablesRecordFirst(r, t, e);
    SurvivorsShown(r, t);
  }

  lemma SurvivorsShown(r: Replica, t: Incoming)
    requires r.Valid()
    ensures Survivors(r, [t]) <= r.Contents()
    ensures t.id in r.deleted ==> Survivors(r, [t]) == r.Contents()
  {
    IdsSplit(t, []);
    assert [t] + [] == [t] && Ids([]) == {};
    if t.id in r.deleted {
      assert r.live == r.live - Ids([t]);
      SurvivorsAreContents(r, r, [t]);
    }
  }

  lemma RowsAreShown(r: Replica)
    ensures forall x :: x in r.live ==> r.live[x].hash in r.Contents()
  {
  }

  /** The first way order matters: a record taken in before an unknown tombstone that covers it stays
      live, while one taken in after it is suppressed. */
  lemma CoveredRecordDependsOnOrder(tomb: Incoming, record: Incoming)
    requires tomb.deleted && !record.deleted && tomb.id != record.id && Covered(tomb, record)
    ensures var r := Replica({}, {}, map[], map[]);
            && OrderMatters(r, tomb, record)
            && MergeAll(r, [record, tomb]).Contents() == {record.record.hash}
            && MergeAll(r, [tomb, record]).Contents() == {}
  {
    var r := Replica({}, {}, map[], map[]);
    TombstoneFirst(r, tomb, record);
    RecordFirst(r, tomb, record);
  }

  /** The second way: a re-copy, newer than the tombstone, that arrives while the doomed row still shows
      the content is suppressed by it, and stays applied. Nothing brings it back. */
  lemma RecopyDependsOnOrder(tomb: Incoming, record: Incoming, doomed: Record, envs: seq<Incoming>)
    requires tomb.deleted && !record.deleted && tomb.id != record.id
    requires doomed.hash == tomb.record.hash == record.record.hash
    requires HlcCompare(record.record.hlc, tomb.record.hlc) == Greater
    ensures var r := Replica({tomb.id}, {}, map[], map[tomb.id := doomed]);
            && OrderMatters(r, tomb, record)
            && MergeAll(r, [tomb, record]).Contents() == {record.record.hash}
            && MergeAll(r, [record, tomb]).Contents() == {}
            && record.id !in MergeAll(MergeAll(r, [record, tomb]), envs).live
  {
    var r := Replica({tomb.id}, {}, map[], map[tomb.id := doomed]);
    assert tomb.id in r.live;
    assert doomed.hash in r.Contents();
    TombstoneFirst(r, tomb, record);
    RecordFirst(r, tomb, record);
    DeleteStateOrderFree(r, [record, tomb]);
    var s := MergeAll(r, [record, tomb]);
    assert record in [record, tomb] && record.id in Ids([record, tomb]);
    RowsAreShown(s);
    DeleteStateOrderFree(s, envs);
  }
}
