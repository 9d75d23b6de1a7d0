/** The lock manager that keeps conflicting operations apart, and what its callers can rely on. */
module RuntimeLocks {
  import opened Models

  datatype Operation = Acquisition | Backup | Restore | Migration | Unsupported(name: string)

  predicate IsSupported(op: Operation) {
    !op.Unsupported?
  }

  function ConflictsOf(op: Operation): set<Operation> {
    match op
    case Acquisition => {Restore, Migration}
    case Backup => {Restore, Migration}
    case Restore => {Acquisition, Backup, Migration}
    case Migration => {Acquisition, Backup, Restore}
    case Unsupported(_) => {}
  }

  predicate InConflict(a: Operation, b: Operation) {
    b in ConflictsOf(a)
  }

  predicate HasConflict(active: set<Operation>, op: Operation) {
    active * ConflictsOf(op) != {}
  }

  predicate NoneInConflict(active: set<Operation>) {
    forall a, b :: a in active && b in active ==> !InConflict(a, b)
  }

  lemma {:induction false} ConflictsAreMutual(a: Operation, b: Operation)
    ensures InConflict(a, b) <==> InConflict(b, a)
    ensures !InConflict(a, a)
  {
  }

  /** Restores and migrations run alone, and exclude each other; acquisition and backups go together. */
  lemma {:induction false} ConflictIff(a: Operation, b: Operation)
    ensures InConflict(a, b)
            <==> IsSupported(a) && IsSupported(b) && a != b && (a in {Restore, Migration} || b in {Restore, Migration})
  {
  }

  lemma {:induction false} HasConflictIff(active: set<Operation>, op: Operation)
    ensures HasConflict(active, op) <==> exists other :: other in active && InConflict(op, other)
  {
    if HasConflict(active, op) {
      var other :| other in active * ConflictsOf(op);
      assert InConflict(op, other);
    } else {
      forall other | other in active
        ensures !InConflict(op, other)
      {
        assert InConflict(op, other) ==> other in active * ConflictsOf(op);
      }
    }
  }

  lemma {:induction false} AddKeepsApart(active: set<Operation>, op: Operation)
    requires NoneInConflict(active) && !HasConflict(active, op)
    ensures NoneInConflict(active + {op})
  {
    HasConflictIff(active, op);
    forall a, b | a in active + {op} && b in active + {op}
      ensures !InConflict(a, b)
    {
      ConflictsAreMutual(a, b);
      ConflictsAreMutual(op, op);
    }
  }

  /* ---------- The manager ---------- */

  datatype Acquired = Granted | Refused | NotSupported

  class RuntimeLockManager {
    var active: set<Operation>

    ghost predicate Valid()
      reads this
    {
      NoneInConflict(active) && forall op :: op in active ==> IsSupported(op)
    }

    constructor ()
      ensures Valid() && active == {}
    {
      active := {};
    }

    /** While a caller waits, other callers acquire and release; this is all that is known of it. */
    method Wait()
      requires Valid()
      modifies this
      ensures Valid()
    {
      var others: set<Operation> := *;
      if NoneInConflict(others) && forall op :: op in others ==> IsSupported(op) {
        active := others;
      }
    }

    /** wakeUps is how often the caller is woken before its deadline; zero does not wait at all.
        before is what was active when the operation was granted. */
    method AcquireOperation(op: Operation, wakeUps: nat) returns (outcome: Acquired, ghost before: set<Operation>)
      requires Valid()
      modifies this
      ensures Valid()
      ensures outcome == NotSupported <==> !IsSupported(op)
      ensures outcome == Granted ==> active == before + {op} && !HasConflict(before, op) && NoneInConflict(before)
      ensures outcome != Granted ==> active == before
      ensures outcome == Refused ==> HasConflict(active, op)
      ensures wakeUps == 0 || !HasConflict(old(active), op) || !IsSupported(op) ==> before == old(active)
      ensures wakeUps == 0 && IsSupported(op) ==> (outcome == Granted <==> !HasConflict(old(active), op))
    {
      before := active;
      if !IsSupported(op) {
        return NotSupported, before;
      }
      var remaining: nat := wakeUps;
      while HasConflict(active, op)
        invariant Valid() && before == active
        invariant remaining == wakeUps ==> active == old(active)
        invariant remaining <= wakeUps
        invariant remaining < wakeUps ==> HasConflict(old(active), op)
        decreases remaining
      {
        if remaining == 0 {
          return Refused, before;
        }
        Wait();
        before := active;
        remaining := remaining - 1;
      }
      AddKeepsApart(active, op);
      active := active + {op};
      outcome := Granted;
    }

    method ReleaseOperation(op: Operation)
      requires Valid()
      modifies this
      ensures Valid()
      ensures active == old(active) - {op}
    {
      active := active - {op};
    }
  }

  /* ---------- Runs with several callers ---------- */

  /** A grant is named by a number, so that two grants of one operation can be told apart. */
  datatype Step = Acquire(grant: nat, op: Operation) | Release(grant: nat)

  datatype System = System(active: set<Operation>, held: map<nat, Operation>)

  const IDLE := System({}, map[])

  /** A step that the manager and its callers can take: new grants only without a conflict, and a
      caller releases what it was granted. */
  predicate IsStep(s: System, step: Step) {
    match step
    case Acquire(grant, op) => IsSupported(op) && grant !in s.held && !HasConflict(s.active, op)
    case Release(grant) => grant in s.held
  }

  function After(s: System, step: Step): System
    requires IsStep(s, step)
  {
    match step
    case Acquire(grant, op) => System(s.active + {op}, s.held[grant := op])
    case Release(grant) => System(s.active - {s.held[grant]}, s.held - {grant})
  }

  /** Where a sequence of steps leads from the idle system, if each of them can be taken. */
  function Run(steps: seq<Step>): Option<System> {
    if |steps| == 0 then Some(IDLE)
    else
      var s := Run(steps[..|steps| - 1]);
      if s.Some? && IsStep(s.value, steps[|steps| - 1]) then Some(After(s.value, steps[|steps| - 1])) else None
  }

  /** In every reachable state no two active operations are in conflict, and active operations are held. */
  lemma {:induction false} ActiveNeverInConflict(steps: seq<Step>)
    requires Run(steps).Some?
    ensures NoneInConflict(Run(steps).value.active)
    ensures Run(steps).value.active <= Run(steps).value.held.Values
  {
    if |steps| > 0 {
      var front, step := steps[..|steps| - 1], steps[|steps| - 1];
      ActiveNeverInConflict(front);
      var s := Run(front).value;
      match step {
        case Acquire(grant, op) =>
          AddKeepsApart(s.active, op);
          StillHeld(s, grant, op);
        case Release(grant) =>
          forall op | op in s.active - {s.held[grant]}
            ensures op in (s.held - {grant}).Values
          {
            var g :| g in s.held && s.held[g] == op;
            assert (s.held - {grant})[g] == op;
          }
      }
    }
  }

  lemma {:induction false} StillHeld(s: System, grant: nat, op: Operation)
    requires grant !in s.held && s.active <= s.held.Values
    ensures s.active + {op} <= s.held[grant := op].Values
  {
    forall o | o in s.active + {op}
      ensures o in s.held[grant := op].Values
    {
      if o == op {
        assert s.held[grant := op][grant] == op;
      } else {
        var g :| g in s.held && s.held[g] == o;
        assert s.held[grant := op][g] == o;
      }
    }
  }

  ghost predicate HoldersApart(s: System) {
    forall g, h :: g in s.held && h in s.held ==> !InConflict(s.held[g], s.held[h])
  }

  /** From step n on, no operation is acquired while somebody holds it. */
  ghost predicate AcquiresOnlyFree(steps: seq<Step>, n: nat) {
    forall k :: n <= k < |steps| ==> FirstHolder(steps, k)
  }

  ghost predicate FirstHolder(steps: seq<Step>, k: nat)
    requires k < |steps|
  {
    steps[k].Acquire? && Run(steps[..k]).Some? ==> steps[k].op !in Run(steps[..k]).value.held.Values
  }

  /** No operation is acquired again while somebody holds it. */
  ghost predicate NeverHeldTwice(steps: seq<Step>) {
    AcquiresOnlyFree(steps, 0)
  }

  lemma {:induction false} FrontAcquiresOnlyFree(steps: seq<Step>, n: nat)
    requires |steps| > 0 && AcquiresOnlyFree(steps, n)
    ensures AcquiresOnlyFree(steps[..|steps| - 1], n)
  {
    var front := steps[..|steps| - 1];
    forall k | n <= k < |front|
      ensures FirstHolder(front, k)
    {
      assert FirstHolder(steps, k) && front[..k] == steps[..k];
    }
  }

  ghost predicate HeldOnce(s: System) {
    forall g, h :: g in s.held && h in s.held && s.held[g] == s.held[h] ==> g == h
  }

  /** The active operations are the held ones, each held once. */
  ghost predicate InOrder(s: System) {
    s.active == s.held.Values && HeldOnce(s)
  }

  lemma {:induction false} OrderIsKept(steps: seq<Step>, n: nat)
    requires n <= |steps| && Run(steps[..n]).Some? && Run(steps).Some?
    requires InOrder(Run(steps[..n]).value) && AcquiresOnlyFree(steps, n)
    ensures InOrder(Run(steps).value)
  {
    if n == |steps| {
      assert steps[..n] == steps;
    } else {
      var front := steps[..|steps| - 1];
      FrontAcquiresOnlyFree(steps, n);
      assert front[..n] == steps[..n];
      OrderIsKept(front, n);
      assert FirstHolder(steps, |steps| - 1);
      HeldStaysActive(Run(front).value, steps[|steps| - 1]);
    }
  }

  lemma {:induction false} OrderMeansApart(steps: seq<Step>)
    requires Run(steps).Some? && InOrder(Run(steps).value)
    ensures HoldersApart(Run(steps).value)
  {
    ActiveNeverInConflict(steps);
    var s := Run(steps).value;
    forall g, h | g in s.held && h in s.held
      ensures !InConflict(s.held[g], s.held[h])
    {
      assert s.held[g] in s.held.Values && s.held[h] in s.held.Values;
    }
  }

  /** As long as no operation is acquired while held, the active operations are exactly the held
      ones, so no two holders are ever in conflict. */
  lemma {:induction false} HoldersNeverInConflict(steps: seq<Step>)
    requires Run(steps).Some? && NeverHeldTwice(steps)
    ensures InOrder(Run(steps).value) && HoldersApart(Run(steps).value)
  {
    assert Run(steps[..0]) == Some(IDLE);
    OrderIsKept(steps, 0);
    OrderMeansApart(steps);
  }

  lemma {:induction false} HeldStaysActive(s: System, step: Step)
    requires IsStep(s, step) && s.active == s.held.Values && HeldOnce(s)
    requires step.Acquire? ==> step.op !in s.held.Values
    ensures After(s, step).active == After(s, step).held.Values && HeldOnce(After(s, step))
  {
    var t := After(s, step);
    forall g | g in t.held
      ensures t.held[g] in t.active
    {
      assert g in s.held ==> s.held[g] in s.held.Values;
    }
    forall op | op in t.active
      ensures op in t.held.Values
    {
      if step.Acquire? && op == step.op {
        assert t.held[step.grant] == op;
      } else {
        var g :| g in s.held && s.held[g] == op;
        assert g in t.held && t.held[g] == op;
      }
    }
    if step.Acquire? {
      assert forall g :: g in s.held ==> s.held[g] in s.held.Values;
    }
  }

  /* ---------- Exactly when holders can come into conflict ---------- */

  /** In more, which continues the run, callers acquire only what nobody holds, and in the end two
      holders are in conflict. */
  ghost predicate LeadsToConflict(steps: seq<Step>, more: seq<Step>) {
    && Run(steps + more).Some?
    && AcquiresOnlyFree(steps + more, |steps|)
    && !HoldersApart(Run(steps + more).value)
  }

  /** Callers that from now on acquire only what nobody holds can still end up in conflict. */
  ghost predicate CanConflict(steps: seq<Step>) {
    exists more: seq<Step> :: LeadsToConflict(steps, more)
  }

  lemma {:induction false} RunOneMore(steps: seq<Step>, step: Step)
    requires Run(steps).Some? && IsStep(Run(steps).value, step)
    ensures Run(steps + [step]) == Some(After(Run(steps).value, step))
  {
    assert (steps + [step])[..|steps|] == steps;
  }

  /** What is left when everybody but one holder lets go. */
  function Alone(s: System, keep: nat): System
    requires keep in s.held
  {
    System(s.active - (s.held - {keep}).Values, map[keep := s.held[keep]])
  }

  ghost predicate OnlyReleases(steps: seq<Step>) {
    forall k :: 0 <= k < |steps| ==> steps[k].Release?
  }

  lemma {:induction false} Prepended(steps: seq<Step>, first: Step, rest: seq<Step>)
    ensures steps + ([first] + rest) == steps + [first] + rest
    ensures first.Release? && OnlyReleases(rest) ==> OnlyReleases([first] + rest)
  {
  }

  lemma {:induction false} ReleaseOthers(steps: seq<Step>, s: System, keep: nat) returns (more: seq<Step>)
    requires Run(steps) == Some(s) && keep in s.held
    ensures Run(steps + more) == Some(Alone(s, keep)) && OnlyReleases(more)
    decreases |s.held|
  {
    if s.held - {keep} == map[] {
      OnlyOneHeld(s, keep);
      more := [];
      assert steps + more == steps;
    } else {
      var g :| g in s.held - {keep};
      OneReleased(s, keep, g);
      RunOneMore(steps, Release(g));
      var rest := ReleaseOthers(steps + [Release(g)], After(s, Release(g)), keep);
      more := [Release(g)] + rest;
      Prepended(steps, Release(g), rest);
    }
  }

  lemma {:induction false} OnlyOneHeld(s: System, keep: nat)
    requires keep in s.held && s.held - {keep} == map[]
    ensures Alone(s, keep) == s
  {
    forall g | g in s.held
      ensures g == keep
    {
      assert g != keep ==> g in s.held - {keep};
    }
    assert s.held == map[keep := s.held[keep]];
    assert s.active - (s.held - {keep}).Values == s.active;
  }

  lemma {:induction false} OneReleased(s: System, keep: nat, g: nat)
    requires keep in s.held && g in s.held - {keep}
    ensures IsStep(s, Release(g)) && |After(s, Release(g)).held| < |s.held|
    ensures keep in After(s, Release(g)).held && Alone(After(s, Release(g)), keep) == Alone(s, keep)
  {
    var t := After(s, Release(g));
    assert t.held.Keys == s.held.Keys - {g};
    assert t.held - {keep} == (s.held - {keep}) - {g};
    ReleasedValues(s.held - {keep}, g);
    assert t.active - (t.held - {keep}).Values == s.active - (s.held - {keep}).Values;
  }

  lemma {:induction false} ReleasedValues(m: map<nat, Operation>, g: nat)
    requires g in m
    ensures m.Values == (m - {g}).Values + {m[g]}
  {
    forall op | op in m.Values
      ensures op in (m - {g}).Values + {m[g]}
    {
      var h :| h in m && m[h] == op;
      assert h != g ==> h in m - {g} && (m - {g})[h] == op;
    }
  }

  function Opponent(op: Operation): Operation
    requires IsSupported(op)
    ensures InConflict(op, Opponent(op)) && IsSupported(Opponent(op)) && Opponent(op) != op
  {
    if op == Restore then Migration else Restore
  }

  /** When one holder's operation does not survive the release of all others, an opponent gets in. */
  lemma {:induction false} UnprotectedConflicts(steps: seq<Step>, keep: nat)
    requires Run(steps).Some? && keep in Run(steps).value.held
    requires var s := Run(steps).value;
             s.held[keep] !in s.active || s.held[keep] in (s.held - {keep}).Values
    ensures CanConflict(steps)
  {
    var s := Run(steps).value;
    ActiveNeverInConflict(steps);
    HeldAreSupported(steps);
    var releases := ReleaseOthers(steps, s, keep);
    var last := Acquire(keep + 1, Opponent(s.held[keep]));
    ReleasedValues(s.held, keep);
    assert Alone(s, keep).active == {};
    RunOneMore(steps + releases, last);
    var more := releases + [last];
    assert steps + more == steps + releases + [last];
    forall k | |steps| <= k < |steps + more|
      ensures FirstHolder(steps + more, k)
    {
      assert k == |steps + releases| ==> (steps + more)[..k] == steps + releases;
    }
    var end := Run(steps + more).value;
    assert InConflict(end.held[keep], end.held[keep + 1]);
    assert LeadsToConflict(steps, more);
  }

  lemma {:induction false} HeldAreSupported(steps: seq<Step>)
    requires Run(steps).Some?
    ensures forall g :: g in Run(steps).value.held ==> IsSupported(Run(steps).value.held[g])
  {
    if |steps| > 0 {
      HeldAreSupported(steps[..|steps| - 1]);
    }
  }

  /** After any run, callers who acquire only what nobody holds can come into conflict iff some
      operation is held twice, or is held and not active any more. */
  lemma {:induction false} CanConflictIff(steps: seq<Step>)
    requires Run(steps).Some?
    ensures CanConflict(steps) <==> !InOrder(Run(steps).value)
  {
    var s := Run(steps).value;
    if InOrder(s) {
      forall more: seq<Step>
        ensures !LeadsToConflict(steps, more)
      {
        if Run(steps + more).Some? && AcquiresOnlyFree(steps + more, |steps|) {
          assert (steps + more)[..|steps|] == steps;
          OrderIsKept(steps + more, |steps|);
          OrderMeansApart(steps + more);
        }
      }
    } else if HeldOnce(s) {
      ActiveNeverInConflict(steps);
      var op :| op in s.held.Values && op !in s.active;
      var g :| g in s.held && s.held[g] == op;
      UnprotectedConflicts(steps, g);
    } else {
      var g, h :| g in s.held && h in s.held && s.held[g] == s.held[h] && g != h;
      assert (s.held - {g})[h] == s.held[g];
      UnprotectedConflicts(steps, g);
    }
  }

  ghost predicate SafeSoFar(steps: seq<Step>) {
    forall k :: 0 <= k <= |steps| ==> IsSafeAt(steps, k)
  }

  ghost predicate IsSafeAt(steps: seq<Step>, k: nat)
    requires k <= |steps|
  {
    Run(steps[..k]).Some? ==> !CanConflict(steps[..k])
  }

  /** Both halves: no operation is acquired while held iff at no point of the run two holders can
      still come into conflict by acquiring what nobody holds. */
  lemma {:induction false} ExclusionIff(steps: seq<Step>)
    requires Run(steps).Some?
    ensures NeverHeldTwice(steps) <==> SafeSoFar(steps)
  {
    if NeverHeldTwice(steps) {
      forall k | 0 <= k <= |steps|
        ensures IsSafeAt(steps, k)
      {
        PrefixRuns(steps, k);
        PrefixNeverHeldTwice(steps, k);
        HoldersNeverInConflict(steps[..k]);
        CanConflictIff(steps[..k]);
      }
    }
    if SafeSoFar(steps) {
      forall k | 0 <= k < |steps|
        ensures FirstHolder(steps, k)
      {
        PrefixRuns(steps, k);
        PrefixRuns(steps, k + 1);
        assert IsSafeAt(steps, k + 1);
        CanConflictIff(steps[..k + 1]);
        assert steps[..k + 1][..k] == steps[..k];
        HeldOnceMeansFirst(Run(steps[..k]).value, steps[k]);
      }
    }
  }

  lemma {:induction false} HeldOnceMeansFirst(s: System, step: Step)
    requires IsStep(s, step) && HeldOnce(After(s, step))
    ensures step.Acquire? ==> step.op !in s.held.Values
  {
    if step.Acquire? {
      var t := After(s, step);
      forall g | g in s.held
        ensures s.held[g] != step.op
      {
        assert t.held[g] == s.held[g] && t.held[step.grant] == step.op;
      }
    }
  }

  lemma {:induction false} PrefixRuns(steps: seq<Step>, k: nat)
    requires Run(steps).Some? && k <= |steps|
    ensures Run(steps[..k]).Some?
  {
    if k < |steps| {
      PrefixRuns(steps[..|steps| - 1], k);
      assert steps[..|steps| - 1][..k] == steps[..k];
    } else {
      assert steps[..k] == steps;
    }
  }

  lemma {:induction false} PrefixNeverHeldTwice(steps: seq<Step>, k: nat)
    requires NeverHeldTwice(steps) && k <= |steps|
    ensures NeverHeldTwice(steps[..k])
  {
    forall i | 0 <= i < k
      ensures FirstHolder(steps[..k], i)
    {
      assert FirstHolder(steps, i) && steps[..k][..i] == steps[..i];
    }
  }

  /** An operation is active exactly when the last step that concerns it is an acquisition. */
  lemma {:induction false} ActiveIffAcquiredLast(steps: seq<Step>, op: Operation)
    requires Run(steps).Some?
    ensures op in Run(steps).value.active <==> AcquiredLast(steps, op)
  {
    if |steps| > 0 {
      ActiveIffAcquiredLast(steps[..|steps| - 1], op);
    }
  }

  predicate AcquiredLast(steps: seq<Step>, op: Operation)
    requires Run(steps).Some?
  {
    |steps| > 0
    && var front, step := steps[..|steps| - 1], steps[|steps| - 1];
       var concerned := if step.Acquire? then step.op else Run(front).value.held[step.grant];
       if concerned == op then step.Acquire? else AcquiredLast(front, op)
  }
}
