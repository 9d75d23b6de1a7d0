/** The acquisition service: starting and stopping the port workers under the runtime lock. */
module Acquisition {
  import opened RuntimeLocks

  /** The statuses that are stored; reconnecting is only worked out when the status is read. */
  datatype Status = NotStarted | Running | Stopped | Error

  type Port = nat

  /** handles: the worker last submitted for each port. live: the workers that are polling,
      whether or not the service still has a handle for them. */
  datatype Service = Service(
    status: Status,
    handles: map<Port, nat>,
    lockAcquired: bool,
    active: set<Operation>,
    live: set<nat>,
    nextWorker: nat)

  const INITIAL := Service(NotStarted, map[], false, {}, {}, 0)

  /** What can go wrong in start: the configuration cannot be loaded, or an exception comes after
      some number of workers have been submitted. */
  datatype Fault = NoFault | LoadFails | FailsAfter(submitted: nat)

  datatype Event =
    | Start(ports: seq<Port>, fault: Fault)
    | Stop
    | WorkerFailed(worker: nat)
    | OtherAcquires(op: Operation)
    | OtherReleases(op: Operation)

  predicate IsRunning(s: Service) {
    s.status == Running && s.handles != map[]
  }

  function Released(s: Service): Service {
    if s.lockAcquired then s.(lockAcquired := false, active := s.active - {Acquisition}) else s
  }

  function Cancelled(s: Service): Service {
    s.(handles := map[], live := s.live - s.handles.Values)
  }

  function Submitted(s: Service, ports: seq<Port>): Service {
    if |ports| == 0 then s
    else
      var t := Submitted(s, ports[..|ports| - 1]);
      t.(handles := t.handles[ports[|ports| - 1] := t.nextWorker],
         live := t.live + {t.nextWorker},
         nextWorker := t.nextWorker + 1)
  }

  function Failed(s: Service): Service {
    Released(Cancelled(s)).(status := Error)
  }

  function Started(s: Service, ports: seq<Port>, fault: Fault): Service {
    if IsRunning(s) then s
    else if HasConflict(s.active, Acquisition) then s.(status := Error)
    else
      var held := s.(active := s.active + {Acquisition}, lockAcquired := true);
      if fault == LoadFails then Failed(held)
      else if |ports| == 0 then Released(held).(status := Stopped)
      else
        var cleared := held.(handles := map[]);
        if fault.FailsAfter? && fault.submitted <= |ports| then Failed(Submitted(cleared, ports[..fault.submitted]))
        else Submitted(cleared, ports).(status := Running)
  }

  function StoppedBy(s: Service): Service {
    if IsRunning(s) then Released(Cancelled(s)).(status := Stopped)
    else s.(status := Stopped)
  }

  /** Ports are rows of a table, so none comes twice. */
  predicate DistinctPorts(ports: seq<Port>) {
    forall i, j :: 0 <= i < j < |ports| ==> ports[i] != ports[j]
  }

  /** Other callers take and release other operations; they never touch "acquisition". */
  predicate CanHappen(s: Service, e: Event) {
    match e
    case Start(ports, _) => DistinctPorts(ports)
    case Stop => true
    case WorkerFailed(w) => w in s.live
    case OtherAcquires(op) => op != Acquisition && IsSupported(op) && !HasConflict(s.active, op)
    case OtherReleases(op) => op != Acquisition
  }

  function Next(s: Service, e: Event): Service
    requires CanHappen(s, e)
  {
    match e
    case Start(ports, fault) => Started(s, ports, fault)
    case Stop => StoppedBy(s)
    case WorkerFailed(w) => s.(live := s.live - {w}, status := if s.status == Running then Error else s.status)
    case OtherAcquires(op) => s.(active := s.active + {op})
    case OtherReleases(op) => s.(active := s.active - {op})
  }

  /* ---------- What every event keeps ---------- */

  ghost predicate Sound(s: Service) {
    && (s.status == Running ==> s.lockAcquired && s.handles != map[])
    && (s.lockAcquired <==> Acquisition in s.active)
    && NoneInConflict(s.active)
    && (forall w :: w in s.live || w in s.handles.Values ==> w < s.nextWorker)
  }

  lemma {:induction false} SubmittedKeeps(s: Service, ports: seq<Port>)
    requires forall w :: w in s.live || w in s.handles.Values ==> w < s.nextWorker
    ensures var t := Submitted(s, ports);
            && t.status == s.status && t.lockAcquired == s.lockAcquired && t.active == s.active
            && t.nextWorker == s.nextWorker + |ports|
            && (forall w :: w in t.live || w in t.handles.Values ==> w < t.nextWorker)
            && (|ports| > 0 ==> t.handles != map[])
            && t.live == s.live + Fresh(s, |ports|)
  {
    if |ports| > 0 {
      SubmittedKeeps(s, ports[..|ports| - 1]);
      assert ports[|ports| - 1] in Submitted(s, ports).handles;
    }
  }

  lemma {:induction false} ReleasedIsApart(active: set<Operation>, op: Operation)
    requires NoneInConflict(active)
    ensures NoneInConflict(active - {op})
  {
  }

  lemma {:induction false} NextIsSound(s: Service, e: Event)
    requires Sound(s) && CanHappen(s, e)
    ensures Sound(Next(s, e))
  {
    match e
    case Start(ports, fault) => StartedIsSound(s, ports, fault);
    case Stop => ReleasedIsApart(s.active, Acquisition);
    case WorkerFailed(w) =>
    case OtherAcquires(op) => AddKeepsApart(s.active, op);
    case OtherReleases(op) => ReleasedIsApart(s.active, op);
  }

  lemma {:induction false} StartedIsSound(s: Service, ports: seq<Port>, fault: Fault)
    requires Sound(s)
    ensures Sound(Started(s, ports, fault))
  {
    if !IsRunning(s) && !HasConflict(s.active, Acquisition) {
      AddKeepsApart(s.active, Acquisition);
      ReleasedIsApart(s.active + {Acquisition}, Acquisition);
      var cleared := s.(active := s.active + {Acquisition}, lockAcquired := true, handles := map[]);
      SubmittedKeeps(cleared, ports);
      if fault.FailsAfter? && fault.submitted <= |ports| {
        SubmittedKeeps(cleared, ports[..fault.submitted]);
      }
    }
  }

  /** Stored status RUNNING means the lock is held, so no restore and no migration is active. */
  lemma {:induction false} RunningExcludesRestore(s: Service)
    requires Sound(s)
    ensures s.status == Running ==> Acquisition in s.active && Restore !in s.active && Migration !in s.active
  {
    assert InConflict(Acquisition, Restore) && InConflict(Acquisition, Migration);
  }

  /* ---------- Whole runs ---------- */

  ghost predicate IsRun(states: seq<Service>, events: seq<Event>) {
    && |states| == |events| + 1 && states[0] == INITIAL
    && (forall k :: 0 <= k < |events| ==> CanHappen(states[k], events[k]))
    && (forall k :: 0 <= k < |events| && CanHappen(states[k], events[k]) ==>
         states[k + 1] == Next(states[k], events[k]))
  }

  lemma {:induction false} RunsAreSound(states: seq<Service>, events: seq<Event>, k: nat)
    requires IsRun(states, events) && k <= |events|
    ensures Sound(states[k])
    ensures states[k].status == Running ==> Restore !in states[k].active && Migration !in states[k].active
  {
    if k > 0 {
      RunsAreSound(states, events, k - 1);
      assert CanHappen(states[k - 1], events[k - 1]);
      NextIsSound(states[k - 1], events[k - 1]);
      assert states[(k - 1) + 1] == Next(states[k - 1], events[k - 1]);
    }
    RunningExcludesRestore(states[k]);
  }

  /* ---------- Workers without a lock or without a handle ---------- */

  /** Every polling worker has a handle and is covered by the lock. */
  ghost predicate Covered(s: Service) {
    s.live <= s.handles.Values && (s.live != {} ==> s.lockAcquired)
  }

  /** A start that takes the lock while workers from before are still polling. */
  predicate StartsOverLive(s: Service, e: Event) {
    && e.Start? && e.fault != LoadFails
    && !IsRunning(s) && !HasConflict(s.active, Acquisition) && s.live != {}
  }

  /** Of all events only a start over live workers uncovers workers, and every such start does. */
  lemma {:induction false} CoveredAfterIff(s: Service, e: Event)
    requires Sound(s) && Covered(s) && CanHappen(s, e)
    ensures Covered(Next(s, e)) <==> !StartsOverLive(s, e)
  {
    match e
    case Start(ports, fault) =>
      if !IsRunning(s) && !HasConflict(s.active, Acquisition) && fault != LoadFails && |ports| > 0 {
        var held := s.(active := s.active + {Acquisition}, lockAcquired := true, handles := map[]);
        SubmittedCovers(held, ports);
        if fault.FailsAfter? && fault.submitted <= |ports| {
          SubmittedCovers(held, ports[..fault.submitted]);
        }
      }
    case Stop =>
    case WorkerFailed(w) =>
    case OtherAcquires(op) =>
    case OtherReleases(op) =>
  }

  /** The numbers of the workers that are submitted next. */
  function Fresh(s: Service, n: nat): (workers: set<nat>)
    ensures forall w :: w in workers ==> s.nextWorker <= w
  {
    if n == 0 then {} else Fresh(s, n - 1) + {s.nextWorker + (n - 1)}
  }

  lemma {:induction false} SubmittedCovers(s: Service, ports: seq<Port>)
    requires s.handles == map[] && DistinctPorts(ports) && forall w :: w in s.live ==> w < s.nextWorker
    ensures var t := Submitted(s, ports);
            && t.handles.Values == Fresh(s, |ports|) && t.live == s.live + Fresh(s, |ports|)
            && t.live - t.handles.Values == s.live
            && t.lockAcquired == s.lockAcquired && t.active == s.active
  {
    SubmittedKeeps(s, ports);
    SubmittedHandles(s, ports);
  }

  lemma {:induction false} SubmittedPorts(s: Service, ports: seq<Port>)
    requires s.handles == map[]
    ensures forall p :: p in Submitted(s, ports).handles ==> p in ports
    ensures Submitted(s, ports).nextWorker == s.nextWorker + |ports|
  {
    if |ports| > 0 {
      SubmittedPorts(s, ports[..|ports| - 1]);
    }
  }

  lemma {:induction false} SubmittedHandles(s: Service, ports: seq<Port>)
    requires s.handles == map[] && DistinctPorts(ports)
    ensures Submitted(s, ports).handles.Values == Fresh(s, |ports|)
  {
    if |ports| > 0 {
      var front, last := ports[..|ports| - 1], ports[|ports| - 1];
      LastIsNew(s, ports);
      SubmittedHandles(s, front);
      ValuesGrow(Submitted(s, front).handles, last, s.nextWorker + |front|);
    }
  }

  lemma {:induction false} LastIsNew(s: Service, ports: seq<Port>)
    requires s.handles == map[] && |ports| > 0 && DistinctPorts(ports)
    ensures var front, last := ports[..|ports| - 1], ports[|ports| - 1];
            && DistinctPorts(front) && last !in Submitted(s, front).handles
            && Submitted(s, ports).handles == Submitted(s, front).handles[last := s.nextWorker + |front|]
  {
    SubmittedPorts(s, ports[..|ports| - 1]);
  }

  lemma {:induction false} ValuesGrow(m: map<Port, nat>, p: Port, w: nat)
    requires p !in m
    ensures m[p := w].Values == m.Values + {w}
  {
    var grown := m[p := w];
    forall v: nat | v in m.Values || v == w
      ensures v in grown.Values
    {
      if v == w {
        assert grown[p] == w;
      } else {
        var q: Port :| q in m && m[q] == v;
        assert grown[q] == v;
      }
    }
  }

  /** While all workers are covered, none of them polls beside a restore or a migration. */
  lemma {:induction false} CoveredExcludesRestore(s: Service)
    requires Sound(s) && Covered(s) && s.live != {}
    ensures Restore !in s.active && Migration !in s.active
  {
    assert InConflict(Acquisition, Restore) && InConflict(Acquisition, Migration);
  }

  /** In a run in which no worker fails, workers poll only while the service is running, and all
      of them are covered. */
  lemma {:induction false} CoveredWithoutFailures(states: seq<Service>, events: seq<Event>, k: nat)
    requires IsRun(states, events) && k <= |events|
    requires forall i :: 0 <= i < |events| ==> !events[i].WorkerFailed?
    ensures Covered(states[k]) && (states[k].live != {} ==> IsRunning(states[k]))
  {
    if k > 0 {
      CoveredWithoutFailures(states, events, k - 1);
      RunsAreSound(states, events, k - 1);
      var s, e := states[k - 1], events[k - 1];
      assert CanHappen(s, e) && states[(k - 1) + 1] == Next(s, e);
      CoveredAfterIff(s, e);
      LiveMeansRunning(s, e);
    }
  }

  lemma {:induction false} LiveMeansRunning(s: Service, e: Event)
    requires Sound(s) && Covered(s) && CanHappen(s, e) && !e.WorkerFailed?
    requires s.live != {} ==> IsRunning(s)
    ensures Next(s, e).live != {} ==> IsRunning(Next(s, e))
  {
    if e.Start? && !IsRunning(s) && !HasConflict(s.active, Acquisition) && e.fault != LoadFails && |e.ports| > 0 {
      var held := s.(active := s.active + {Acquisition}, lockAcquired := true, handles := map[]);
      SubmittedKeeps(held, e.ports);
      if e.fault.FailsAfter? && e.fault.submitted <= |e.ports| {
        SubmittedCovers(held, e.ports[..e.fault.submitted]);
      }
    }
  }

  /** A stop ends all polling and gives the lock back iff the service is running and every live worker
      has a handle, or there is nothing to stop. */
  lemma {:induction false} StopStopsIff(s: Service)
    requires Sound(s)
    ensures Next(s, Stop).status == Stopped
    ensures Next(s, Stop).live == {} && !Next(s, Stop).lockAcquired
            <==> if IsRunning(s) then s.live <= s.handles.Values else s.live == {} && !s.lockAcquired
  {
    NothingLeftIff(s.live, s.handles.Values);
  }

  lemma {:induction false} NothingLeftIff(a: set<nat>, b: set<nat>)
    ensures a - b == {} <==> a <= b
  {
    forall w | w in a && w !in b
      ensures a - b != {}
    {
      assert w in a - b;
    }
    assert a <= b ==> forall w :: w in a - b ==> w in b;
  }

  /* ---------- The service ---------- */

  /** Where the workers run. */
  class WorkerPool {
    ghost var live: set<nat>
    var nextWorker: nat

    constructor ()
      ensures live == {} && nextWorker == 0
    {
      live := {};
      nextWorker := 0;
    }

    method Submit() returns (worker: nat)
      modifies this
      ensures worker == old(nextWorker) && nextWorker == worker + 1 && live == old(live) + {worker}
    {
      worker := nextWorker;
      nextWorker := nextWorker + 1;
      live := live + {worker};
    }

    /** A cancelled worker is waited for. */
    method Cancel(worker: nat)
      modifies this
      ensures live == old(live) - {worker} && nextWorker == old(nextWorker)
    {
      live := live - {worker};
    }
  }

  class AcquisitionService {
    const locks: RuntimeLockManager
    const pool: WorkerPool
    var status: Status
    var handles: map<Port, nat>
    var lockAcquired: bool

    constructor (locks: RuntimeLockManager, pool: WorkerPool)
      ensures this.locks == locks && this.pool == pool
      ensures status == NotStarted && handles == map[] && !lockAcquired
    {
      this.locks := locks;
      this.pool := pool;
      status := NotStarted;
      handles := map[];
      lockAcquired := false;
    }

    ghost function State(): Service
      reads this, locks, pool
    {
      Service(status, handles, lockAcquired, locks.active, pool.live, pool.nextWorker)
    }

    predicate IsRunningLocked()
      reads this
    {
      status == Running && handles != map[]
    }

    method CancelWorkers()
      modifies this, pool
      ensures State() == Cancelled(old(State()))
    {
      var cancelled := handles.Values;
      ghost var before := pool.live;
      handles := map[];
      var pending := cancelled;
      while pending != {}
        invariant pending <= cancelled
        invariant pool.live == before - (cancelled - pending)
        invariant State() == old(State()).(handles := map[], live := pool.live)
        decreases |pending|
      {
        var worker :| worker in pending;
        pool.Cancel(worker);
        pending := pending - {worker};
      }
      assert cancelled - {} == cancelled;
    }

    method ReleaseRuntimeLock()
      requires locks.Valid()
      modifies this, locks
      ensures locks.Valid()
      ensures State() == Released(old(State()))
    {
      if lockAcquired {
        locks.ReleaseOperation(Acquisition);
        lockAcquired := false;
      }
    }

    method Fail()
      requires locks.Valid()
      modifies this, locks, pool
      ensures locks.Valid() && State() == Failed(old(State()))
    {
      CancelWorkers();
      ReleaseRuntimeLock();
      status := Error;
    }

    method Start(ports: seq<Port>, fault: Fault) returns (ok: bool)
      requires locks.Valid() && DistinctPorts(ports)
      modifies this, locks, pool
      ensures locks.Valid() && State() == Next(old(State()), Event.Start(ports, fault))
      ensures ok <==> IsRunningLocked()
    {
      if IsRunningLocked() {
        return true;
      }
      ghost var first := State();
      var outcome, _ := locks.AcquireOperation(Acquisition, 0);
      if outcome != Granted {
        status := Error;
        return false;
      }
      lockAcquired := true;
      if fault == LoadFails {
        Fail();
        return false;
      }
      if |ports| == 0 {
        ReleaseRuntimeLock();
        status := Stopped;
        return false;
      }
      handles := map[];
      ghost var cleared := State();
      for k := 0 to |ports|
        invariant locks.Valid() && State() == Submitted(cleared, ports[..k])
        invariant fault.FailsAfter? ==> fault.submitted >= k
      {
        if fault == FailsAfter(k) {
          Fail();
          return false;
        }
        assert ports[..k + 1][..k] == ports[..k];
        var worker := pool.Submit();
        handles := handles[ports[k] := worker];
      }
      assert ports[..|ports|] == ports;
      if fault == FailsAfter(|ports|) {
        Fail();
        return false;
      }
      status := Running;
      assert ports[|ports| - 1] in handles;
      return true;
    }

    method Stop()
      requires locks.Valid()
      modifies this, locks, pool
      ensures locks.Valid() && State() == Next(old(State()), Event.Stop)
    {
      if !IsRunningLocked() {
        status := Stopped;
        return;
      }
      CancelWorkers();
      ReleaseRuntimeLock();
      status := Stopped;
    }

    /** Called when a worker ends with an error. */
    method WorkerFailed(worker: nat)
      requires worker in pool.live
      modifies this, pool
      ensures State() == Next(old(State()), Event.WorkerFailed(worker))
    {
      pool.Cancel(worker);
      if status == Running {
        status := Error;
      }
    }
  }
}
