/** The two stores a worker feeds before the alarm table: the runtime tables of the database
    and the in-memory state store. Each keeps a ghost log of what it was given. */
module Stores {
  import opened Models

  type Log = seq<DeviceReading>

  /** The readings of one detector, in order. */
  function Entries(log: Log, detectorId: int): (es: Log)
    ensures forall k :: 0 <= k < |es| ==> es[k].detectorId == detectorId
    decreases |log|
  {
    if |log| == 0 then []
    else
      var last := log[|log| - 1];
      Entries(log[..|log| - 1], detectorId) + if last.detectorId == detectorId then [last] else []
  }

  lemma {:induction false} EntriesExtend(log: Log, r: DeviceReading, detectorId: int)
    ensures Entries(log + [r], detectorId)
         == Entries(log, detectorId) + if r.detectorId == detectorId then [r] else []
  {
    assert (log + [r])[..|log|] == log;
  }

  lemma {:induction false} EntriesConcat(a: Log, b: Log, detectorId: int)
    ensures Entries(a + b, detectorId) == Entries(a, detectorId) + Entries(b, detectorId)
    decreases |b|
  {
    if |b| == 0 {
      assert a + b == a;
    } else {
      assert (a + b)[..|a + b| - 1] == a + b[..|b| - 1];
      EntriesConcat(a, b[..|b| - 1], detectorId);
    }
  }

  lemma {:induction false} NoEntries(log: Log, detectorId: int)
    requires forall r :: r in log ==> r.detectorId != detectorId
    ensures Entries(log, detectorId) == []
    decreases |log|
  {
    if |log| > 0 {
      NoEntries(log[..|log| - 1], detectorId);
    }
  }

  /** The readings that carry a usable detector id. */
  function Usable(batch: Log): Log
    decreases |batch|
  {
    if |batch| == 0 then []
    else
      var last := batch[|batch| - 1];
      Usable(batch[..|batch| - 1]) + if last.detectorId > 0 then [last] else []
  }

  lemma {:induction false} UsableNext(batch: Log, i: nat)
    requires i < |batch|
    ensures Usable(batch[..i + 1]) == Usable(batch[..i]) + if batch[i].detectorId > 0 then [batch[i]] else []
  {
    assert batch[..i + 1][..i] == batch[..i];
  }

  /** Readings of configured detectors are all usable. */
  lemma {:induction false} AllUsable(batch: Log)
    requires forall r :: r in batch ==> r.detectorId > 0
    ensures Usable(batch) == batch
    decreases |batch|
  {
    if |batch| > 0 {
      AllUsable(batch[..|batch| - 1]);
      assert batch == batch[..|batch| - 1] + [batch[|batch| - 1]];
    }
  }

  /* ---------- Bounded deques ---------- */

  function LastN<T>(s: seq<T>, n: nat): (t: seq<T>)
    ensures |t| == if |s| <= n then |s| else n
  {
    if |s| <= n then s else s[|s| - n..]
  }

  /** deque(maxlen=n).append */
  function BoundedAppend<T>(s: seq<T>, x: T, n: nat): seq<T> {
    LastN(s + [x], n)
  }

  /** Appending to the last n of a sequence gives the last n of the longer one. */
  lemma {:induction false} BoundedAppendLastN<T>(s: seq<T>, x: T, n: nat)
    ensures BoundedAppend(LastN(s, n), x, n) == LastN(s + [x], n)
  {
    if |s| > n {
      assert LastN(s, n) + [x] == (s + [x])[|s| - n..];
      assert LastN(s + [x], n) == (s + [x])[|s| + 1 - n..];
    }
  }

  /* ---------- StateStore ---------- */

  /** The reading a store that was given this log shows for a detector. */
  function LatestOf(log: Log, detectorId: int): Option<DeviceReading> {
    var es := Entries(log, detectorId);
    if |es| == 0 then None else Some(es[|es| - 1])
  }

  /** The entries of one detector in the two dictionaries are those its log calls for. */
  ghost predicate EntryMatches(
    readings: map<int, DeviceReading>, curveCache: map<int, Log>, log: Log, size: nat, d: int) {
    && (d in readings <==> d > 0 && LatestOf(log, d).Some?)
    && (d in curveCache <==> d in readings)
    && (d in readings ==> Some(readings[d]) == LatestOf(log, d))
    && (d in curveCache ==> curveCache[d] == LastN(Entries(log, d), size))
  }

  lemma {:induction false} PutKeepsEntry(readings: map<int, DeviceReading>, curveCache: map<int, Log>, log: Log,
                                         size: nat, r: DeviceReading, d: int)
    requires EntryMatches(readings, curveCache, log, size, d)
    requires EntryMatches(readings, curveCache, log, size, r.detectorId) && r.detectorId > 0
    ensures var cached := if r.detectorId in curveCache then curveCache[r.detectorId] else [];
            EntryMatches(readings[r.detectorId := r], curveCache[r.detectorId := BoundedAppend(cached, r, size)],
                         log + [r], size, d)
  {
    EntriesExtend(log, r, d);
    if d == r.detectorId {
      BoundedAppendLastN(Entries(log, d), r, size);
    } else {
      assert Entries(log + [r], d) == Entries(log, d);
    }
  }

  class StateStore {
    const curveCacheSize: nat
    const publishInterval: real
    var readings: map<int, DeviceReading>
    var curveCache: map<int, Log>
    var lastPublishAt: real
    ghost var log: Log

    ghost predicate Valid()
      reads this
    {
      forall d :: EntryMatches(readings, curveCache, log, curveCacheSize, d)
    }

    constructor (curveCacheSize: nat, publishInterval: real)
      ensures Valid() && log == [] && this.curveCacheSize == curveCacheSize
      ensures this.publishInterval == publishInterval
    {
      this.curveCacheSize, this.publishInterval := curveCacheSize, publishInterval;
      readings, curveCache, lastPublishAt, log := map[], map[], 0.0, [];
    }

    /** The body of the loop in update_readings, for a reading with a usable detector id. */
    method Put(r: DeviceReading)
      requires Valid() && r.detectorId > 0
      modifies this`readings, this`curveCache, this`log
      ensures Valid() && log == old(log) + [r]
    {
      var cached := if r.detectorId in curveCache then curveCache[r.detectorId] else [];
      readings := readings[r.detectorId := r];
      curveCache := curveCache[r.detectorId := BoundedAppend(cached, r, curveCacheSize)];
      log := log + [r];
      forall d
        ensures EntryMatches(readings, curveCache, log, curveCacheSize, d)
      {
        PutKeepsEntry(old(readings), old(curveCache), old(log), curveCacheSize, r, d);
      }
    }

    /** update_readings; readings without a usable detector id are skipped. Nothing is published
        when the throttle suppresses the event or nothing was usable. */
    method UpdateReadings(batch: Log, now: real) returns (published: Log)
      requires Valid()
      modifies this
      ensures Valid() && log == old(log) + Usable(batch)
      ensures now - old(lastPublishAt) < publishInterval ==> published == [] && lastPublishAt == old(lastPublishAt)
      ensures now - old(lastPublishAt) >= publishInterval ==> published == Usable(batch) && lastPublishAt == now
    {
      var changed: Log := [];
      for i := 0 to |batch|
        invariant Valid() && changed == Usable(batch[..i]) && log == old(log) + changed
        invariant lastPublishAt == old(lastPublishAt)
      {
        UsableNext(batch, i);
        if batch[i].detectorId > 0 {
          Put(batch[i]);
          changed := changed + [batch[i]];
        }
      }
      assert batch[..|batch|] == batch;
      var shouldPublish := now - lastPublishAt >= publishInterval;
      if shouldPublish {
        lastPublishAt := now;
      }
      published := if changed != [] && shouldPublish then changed else [];
    }

    method GetCurveCache(detectorId: int) returns (points: Log)
      requires Valid()
      ensures points == if detectorId > 0 then LastN(Entries(log, detectorId), curveCacheSize) else []
    {
      assert EntryMatches(readings, curveCache, log, curveCacheSize, detectorId);
      points := if detectorId in curveCache then curveCache[detectorId] else [];
    }
  }

  /* ---------- The runtime tables ---------- */

  datatype Quality = ValidQuality | OfflineQuality

  datatype Snapshot = Snapshot(reading: DeviceReading, quality: Quality)

  datatype RunningRecord = RunningRecord(reading: DeviceReading, quality: Quality, at: real)

  /** The row of one detector is the last reading its log has. */
  ghost predicate SnapshotMatches(snapshots: map<int, Snapshot>, log: Log, d: int) {
    && (d in snapshots <==> LatestOf(log, d).Some?)
    && (d in snapshots ==> Some(snapshots[d].reading) == LatestOf(log, d))
  }

  class RuntimeTables {
    var snapshots: map<int, Snapshot>
    var records: seq<RunningRecord>
    ghost var log: Log

    ghost predicate Valid()
      reads this
    {
      forall d :: SnapshotMatches(snapshots, log, d)
    }

    constructor ()
      ensures Valid() && log == [] && records == []
    {
      snapshots, records, log := map[], [], [];
    }

    /** INSERT ... ON CONFLICT(detector_id) DO UPDATE */
    method UpsertReading(r: DeviceReading, quality: Quality)
      requires Valid()
      modifies this`snapshots, this`log
      ensures Valid() && log == old(log) + [r]
      ensures snapshots == old(snapshots)[r.detectorId := Snapshot(r, quality)]
    {
      snapshots := snapshots[r.detectorId := Snapshot(r, quality)];
      log := log + [r];
      forall d
        ensures SnapshotMatches(snapshots, log, d)
      {
        EntriesExtend(old(log), r, d);
        assert SnapshotMatches(old(snapshots), old(log), d);
      }
    }

    method AddReading(r: DeviceReading, quality: Quality, at: real)
      modifies this`records
      ensures records == old(records) + [RunningRecord(r, quality, at)]
    {
      records := records + [RunningRecord(r, quality, at)];
    }
  }
}
