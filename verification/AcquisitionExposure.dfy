/** When a restore or a migration can come beside a worker that is polling: exactly when a worker has
    failed while another one was polling. */
module AcquisitionExposure {
  import opened RuntimeLocks
  import opened Acquisition

  /** Workers poll while the service is not running, or without a handle. */
  ghost predicate Exposed(s: Service) {
    s.live != {} && !(IsRunning(s) && Covered(s))
  }

  predicate Beside(s: Service) {
    s.live != {} && (Restore in s.active || Migration in s.active)
  }

  /** Of all events exactly the failure of a worker beside another one exposes workers. */
  lemma {:induction false} ExposedAfterIff(s: Service, e: Event)
    requires Sound(s) && !Exposed(s) && CanHappen(s, e)
    ensures Exposed(Next(s, e)) <==> e.WorkerFailed? && s.live != {e.worker}
  {
    if e.WorkerFailed? {
      assert s.live - {e.worker} == {} <==> s.live == {e.worker};
    } else {
      CoveredAfterIff(s, e);
      LiveMeansRunning(s, e);
    }
  }

  lemma {:induction false} UnexposedIsNotBeside(s: Service)
    requires Sound(s) && !Exposed(s)
    ensures !Beside(s)
  {
    RunningExcludesRestore(s);
  }

  /* ---------- Runs and their continuations ---------- */

  lemma {:induction false} RunExtends(states: seq<Service>, events: seq<Event>, e: Event) returns (longer: seq<Service>)
    requires IsRun(states, events) && CanHappen(states[|events|], e)
    ensures IsRun(longer, events + [e]) && longer[|events| + 1] == Next(states[|events|], e)
  {
    longer := states + [Next(states[|events|], e)];
  }

  lemma {:induction false} RunPrefix(states: seq<Service>, events: seq<Event>, k: nat)
    requires IsRun(states, events) && k <= |events|
    ensures IsRun(states[..k + 1], events[..k])
  {
  }

  /** What happened decides where a run stands. */
  lemma {:induction false} SameStates(a: seq<Service>, b: seq<Service>, all: seq<Event>, events: seq<Event>, k: nat)
    requires IsRun(a, all) && IsRun(b, events) && k <= |all| && k <= |events| && all[..k] == events[..k]
    ensures a[k] == b[k]
  {
    if k > 0 {
      var l := k - 1;
      assert all[..k][..l] == all[..l] && events[..k][..l] == events[..l];
      SameStates(a, b, all, events, l);
      assert all[..k][l] == events[..k][l];
      assert CanHappen(a[l], all[l]) && CanHappen(b[l], events[l]);
      assert a[l + 1] == Next(a[l], all[l]) && b[l + 1] == Next(b[l], events[l]);
    }
  }

  /** The run goes on from its state k, no worker fails any more, and a restore or a migration ends up
      beside a live worker. */
  ghost predicate EndsBeside(events: seq<Event>, k: nat, states: seq<Service>, all: seq<Event>)
    requires k <= |events|
  {
    && IsRun(states, all) && k <= |all| && all[..k] == events[..k]
    && (forall i :: k <= i < |all| ==> !all[i].WorkerFailed?)
    && Beside(states[|all|])
  }

  ghost predicate CanEndBeside(events: seq<Event>, k: nat)
    requires k <= |events|
  {
    exists states: seq<Service>, all: seq<Event> :: EndsBeside(events, k, states, all)
  }

  lemma {:induction false} StaysUnexposed(states: seq<Service>, all: seq<Event>, k: nat, l: nat)
    requires IsRun(states, all) && k <= l <= |all| && !Exposed(states[k])
    requires forall i :: k <= i < |all| ==> !all[i].WorkerFailed?
    ensures Sound(states[l]) && !Exposed(states[l])
  {
    RunsAreSound(states, all, l);
    if k < l {
      var j := l - 1;
      StaysUnexposed(states, all, k, j);
      assert CanHappen(states[j], all[j]);
      assert states[j + 1] == Next(states[j], all[j]);
      ExposedAfterIff(states[j], all[j]);
    }
  }

  /** The event that makes the service give its lock back, once the others have let go. */
  function GivesBack(s: Service): Event {
    if IsRunning(s) then Stop else Start([], NoFault)
  }

  function AllReleased(s: Service): Service {
    s.(active := s.active - {Backup} - {Migration} - {Restore})
  }

  lemma {:induction false} ExposedLetsIn(s: Service)
    requires Sound(s) && Exposed(s)
    ensures var t := Next(AllReleased(s), GivesBack(s));
            && CanHappen(AllReleased(s), GivesBack(s))
            && CanHappen(t, OtherAcquires(Restore)) && Beside(Next(t, OtherAcquires(Restore)))
  {
    var r := AllReleased(s);
    assert !HasConflict(r.active, Acquisition);
    var t := Next(r, GivesBack(s));
    if IsRunning(s) {
      NothingLeftIff(s.live, s.handles.Values);
    }
    assert t.live != {};
    assert t.active == r.active - {Acquisition};
    assert !HasConflict(t.active, Restore);
  }

  /** From an exposed state of a run a restore can come beside a live worker. */
  lemma {:induction false} ExposedCanEndBeside(states: seq<Service>, events: seq<Event>, k: nat)
    requires IsRun(states, events) && k <= |events| && Exposed(states[k])
    ensures CanEndBeside(events, k)
  {
    RunsAreSound(states, events, k);
    RunPrefix(states, events, k);
    var s := states[k];
    ExposedLetsIn(s);
    var freed := OthersLetGo(states[..k + 1], events[..k]);
    var released := events[..k] + [OtherReleases(Backup)] + [OtherReleases(Migration)] + [OtherReleases(Restore)];
    var given := RunExtends(freed, released, GivesBack(s));
    var beside := RunExtends(given, released + [GivesBack(s)], OtherAcquires(Restore));
    var all := released + [GivesBack(s)] + [OtherAcquires(Restore)];
    assert all[..k] == events[..k];
    assert EndsBeside(events, k, beside, all);
  }

  lemma {:induction false} OthersLetGo(states: seq<Service>, events: seq<Event>) returns (longer: seq<Service>)
    requires IsRun(states, events)
    ensures IsRun(longer, events + [OtherReleases(Backup)] + [OtherReleases(Migration)] + [OtherReleases(Restore)])
    ensures longer[|events| + 3] == AllReleased(states[|events|])
  {
    longer := RunExtends(states, events, OtherReleases(Backup));
    longer := RunExtends(longer, events + [OtherReleases(Backup)], OtherReleases(Migration));
    longer := RunExtends(longer, events + [OtherReleases(Backup)] + [OtherReleases(Migration)], OtherReleases(Restore));
  }

  /** At any point of a run, without further worker failures, a restore or a migration can come
      beside a live worker iff workers are exposed there. */
  lemma {:induction false} CanEndBesideIff(states: seq<Service>, events: seq<Event>, k: nat)
    requires IsRun(states, events) && k <= |events|
    ensures CanEndBeside(events, k) <==> Exposed(states[k])
  {
    if Exposed(states[k]) {
      ExposedCanEndBeside(states, events, k);
    } else {
      forall longer: seq<Service>, all: seq<Event>
        ensures !EndsBeside(events, k, longer, all)
      {
        if IsRun(longer, all) && k <= |all| && all[..k] == events[..k]
           && forall i :: k <= i < |all| ==> !all[i].WorkerFailed? {
          SameStates(longer, states, all, events, k);
          StaysUnexposed(longer, all, k, |all|);
          UnexposedIsNotBeside(longer[|all|]);
        }
      }
    }
  }

  /** Event k is the failure of a worker while another one is polling. */
  predicate FailsBesideAnother(states: seq<Service>, events: seq<Event>, k: nat)
    requires k < |events| && k < |states|
  {
    events[k].WorkerFailed? && states[k].live != {events[k].worker}
  }

  /** A run is safe at every point iff in it no worker fails while another one is polling. */
  lemma {:induction false} SafeThroughoutIff(states: seq<Service>, events: seq<Event>)
    requires IsRun(states, events)
    ensures (forall k :: 0 <= k <= |events| ==> !CanEndBeside(events, k))
            <==> (forall k :: 0 <= k < |events| ==> !FailsBesideAnother(states, events, k))
  {
    if forall k :: 0 <= k < |events| ==> !FailsBesideAnother(states, events, k) {
      forall k | 0 <= k <= |events|
        ensures !CanEndBeside(events, k)
      {
        NeverExposed(states, events, k);
        CanEndBesideIff(states, events, k);
      }
    }
    if forall k :: 0 <= k <= |events| ==> !CanEndBeside(events, k) {
      forall k | 0 <= k < |events|
        ensures !FailsBesideAnother(states, events, k)
      {
        assert !CanEndBeside(events, k) && !CanEndBeside(events, k + 1);
        CanEndBesideIff(states, events, k);
        CanEndBesideIff(states, events, k + 1);
        RunsAreSound(states, events, k);
        assert CanHappen(states[k], events[k]);
        assert states[k + 1] == Next(states[k], events[k]);
        ExposedAfterIff(states[k], events[k]);
      }
    }
  }

  lemma {:induction false} NeverExposed(states: seq<Service>, events: seq<Event>, k: nat)
    requires IsRun(states, events) && k <= |events|
    requires forall i :: 0 <= i < |events| ==> !FailsBesideAnother(states, events, i)
    ensures !Exposed(states[k])
  {
    assert INITIAL.live == {};
    if k > 0 {
      var l := k - 1;
      assert !FailsBesideAnother(states, events, l);
      NeverExposed(states, events, l);
      RunsAreSound(states, events, l);
      assert CanHappen(states[l], events[l]);
      assert states[l + 1] == Next(states[l], events[l]);
      ExposedAfterIff(states[l], events[l]);
    }
  }

  /* ---------- Inputs ---------- */

  /** Two workers start and the first one fails: the second one polls on, though the status is ERROR. */
  lemma {:induction false} FailureLeavesLiveWorker(p: Port, q: Port)
    requires p != q
    ensures var s := Next(INITIAL, Start([p, q], NoFault));
            && 0 in s.live
            && var t := Next(s, WorkerFailed(0));
               && t.status == Error && t.live == {1} && t.handles == map[p := 0, q := 1] && t.nextWorker == 2
               && t.active == {Acquisition} && t.lockAcquired && Exposed(t) && StartsOverLive(t, Start([p], NoFault))
  {
    var held := INITIAL.(active := {} + {Acquisition}, lockAcquired := true);
    assert Started(INITIAL, [p, q], NoFault) == Submitted(held, [p, q]).(status := Running);
    assert [p, q][..1] == [p] && [p][..0] == [];
    assert Submitted(held, [p]).live == {0};
    assert Submitted(held, [p, q]).live == {0, 1};
  }

  /** The port of the failed worker is started again and the service is running, but a stop leaves the
      second worker polling, without the lock, and a restore can come beside it. */
  lemma {:induction false} StopAfterRestartLeavesWorker(p: Port, q: Port)
    requires p != q
    ensures var started := Next(INITIAL, Start([p, q], NoFault));
            && 0 in started.live
            && var again := Next(Next(started, WorkerFailed(0)), Start([p], NoFault));
               && IsRunning(again) && again.live == {1, 2} && again.handles == map[p := 2]
               && var stopped := Next(again, Stop);
                  && stopped.status == Stopped && stopped.live == {1} && !stopped.lockAcquired
                  && CanHappen(stopped, OtherAcquires(Restore)) && Beside(Next(stopped, OtherAcquires(Restore)))
  {
    FailureLeavesLiveWorker(p, q);
    var failed := Next(Next(INITIAL, Start([p, q], NoFault)), WorkerFailed(0));
    var cleared := failed.(active := failed.active + {Acquisition}, lockAcquired := true, handles := map[]);
    assert [p][..0] == [];
    assert Submitted(cleared, [p]) == cleared.(handles := map[p := 2], live := {1} + {2}, nextWorker := 3);
    var again := Next(failed, Start([p], NoFault));
    assert again == Submitted(cleared, [p]).(status := Running);
    var stopped := Next(again, Stop);
    OneValue(p, 2);
    assert stopped.live == {1, 2} - {2} == {1};
    assert stopped.active == {};
  }

  lemma {:induction false} OneValue(p: Port, w: nat)
    ensures map[p := w].Values == {w}
  {
    assert map[p := w][p] == w;
  }
}
