/** When a restore keeps its promises: the exact conditions on the manifest, for success and for
    a failure at any item. */
module RestoreExactness {
  import opened Models
  import opened Restore

  /** One of the items lo, ..., hi - 1 works through p as its temporary name. */
  predicate TempIn(job: Job, p: Path, lo: nat, hi: nat)
    requires hi <= |job.items|
  {
    exists i :: lo <= i < hi && job.TempIs(i, p)
  }

  /** Among the first k items one works through p before any has it as its target. */
  ghost predicate Lost(job: Job, p: Path, k: nat)
    requires k <= |job.items|
  {
    exists j :: 0 <= j < k && job.TempIs(j, p) && !TargetIn(job, p, 0, j)
  }

  /** One of the first k items has target p, and none of them works through p after it. */
  ghost predicate Restored(job: Job, p: Path, k: nat)
    requires k <= |job.items|
  {
    exists i :: 0 <= i < k && IsLastRestore(job, p, i, k)
  }

  ghost predicate IsLastRestore(job: Job, p: Path, i: nat, k: nat)
    requires i < k <= |job.items|
  {
    job.TargetIs(i, p) && !TempIn(job, p, i + 1, k)
  }

  /** Of the first m items one has target p while a restored file is there, which takes the place
      of the rollback copy. */
  ghost predicate Recopied(job: Job, p: Path, m: nat)
    requires m <= |job.items|
  {
    exists j :: 0 <= j < m && job.TargetIs(j, p) && Restored(job, p, j)
  }

  /* ---------- What each path holds, by cases ---------- */

  lemma {:induction false} TargetInNext(job: Job, p: Path, lo: nat, k: nat)
    requires k < |job.items|
    ensures TargetIn(job, p, lo, k + 1) <==> TargetIn(job, p, lo, k) || (lo <= k && job.TargetIs(k, p))
    ensures TempIn(job, p, lo, k + 1) <==> TempIn(job, p, lo, k) || (lo <= k && job.TempIs(k, p))
  {
    if TargetIn(job, p, lo, k) {
      var i :| lo <= i < k && job.TargetIs(i, p);
      assert TargetIn(job, p, lo, k + 1);
    }
    if TempIn(job, p, lo, k) {
      var i :| lo <= i < k && job.TempIs(i, p);
      assert TempIn(job, p, lo, k + 1);
    }
  }

  lemma {:induction false} TargetIsNotTemp(job: Job, i: nat, p: Path)
    requires i < |job.items|
    ensures !(job.TargetIs(i, p) && job.TempIs(i, p))
  {
    if job.HasTarget(i) {
      TargetIsLive(job.paths, job.items[i]);
    }
  }

  lemma {:induction false} RestoredNext(job: Job, p: Path, k: nat)
    requires k < |job.items|
    ensures Restored(job, p, k + 1) <==> job.TargetIs(k, p) || (Restored(job, p, k) && !job.TempIs(k, p))
  {
    TargetIsNotTemp(job, k, p);
    if Restored(job, p, k + 1) {
      var i :| 0 <= i < k + 1 && IsLastRestore(job, p, i, k + 1);
      if i < k {
        TargetInNext(job, p, i + 1, k);
        assert IsLastRestore(job, p, i, k);
      }
    }
    if job.TargetIs(k, p) {
      assert IsLastRestore(job, p, k, k + 1);
    } else if Restored(job, p, k) && !job.TempIs(k, p) {
      var i :| 0 <= i < k && IsLastRestore(job, p, i, k);
      TargetInNext(job, p, i + 1, k);
      assert IsLastRestore(job, p, i, k + 1);
    }
  }

  /** Before any item has target p, it holds what was there, unless it was worked through. */
  lemma {:induction false} HeldBeforeTarget(job: Job, before: map<Path, Content>, p: Path, k: nat)
    requires k <= |job.items| && !TargetIn(job, p, 0, k)
    ensures Held(job, before, p, k) == if TempIn(job, p, 0, k) then None else At(before, p)
  {
    if k > 0 {
      TargetInNext(job, p, 0, k - 1);
      HeldBeforeTarget(job, before, p, k - 1);
    }
  }

  /** After that it holds the staged file of item i, which has target p, or nothing. */
  lemma {:induction false} HeldAfterTarget(job: Job, before: map<Path, Content>, p: Path, k: nat, i: nat)
    requires k <= |job.items| && TargetIn(job, p, 0, k) && i < |job.items| && job.TargetIs(i, p)
    ensures Held(job, before, p, k) == if Restored(job, p, k) then At(before, job.Staged(i)) else None
  {
    TargetInNext(job, p, 0, k - 1);
    RestoredNext(job, p, k - 1);
    if job.TargetIs(k - 1, p) {
      SharedTargetSameItem(job, i, k - 1, p);
    } else {
      HeldAfterTarget(job, before, p, k - 1, i);
    }
  }

  lemma {:induction false} FirstTarget(job: Job, p: Path, m: nat) returns (f: nat)
    requires m <= |job.items| && TargetIn(job, p, 0, m)
    ensures f < m && job.TargetIs(f, p) && !TargetIn(job, p, 0, f)
  {
    TargetInNext(job, p, 0, m - 1);
    if TargetIn(job, p, 0, m - 1) {
      f := FirstTarget(job, p, m - 1);
    } else {
      f := m - 1;
    }
  }

  /** Rolling back leaves what the first entry leads to. */
  lemma {:induction false} RolledIs(job: Job, before: map<Path, Content>, p: Path, r: nat, m: nat, f: nat)
    requires r <= f < m <= |job.items| && job.TargetIs(f, p) && !TargetIn(job, p, 0, f)
    ensures TargetIn(job, p, r, m)
    ensures Rolled(job, before, p, r, m) == if Held(job, before, p, f).None? then None else Copied(job, before, p, m)
    decreases f - r
  {
    if r < f {
      RolledIs(job, before, p, r + 1, m, f);
    }
  }

  /** The rollback copy of a target that existed is the original, until a restored file replaces it. */
  lemma {:induction false} CopiedIs(job: Job, before: map<Path, Content>, p: Path, m: nat, f: nat)
    requires f < m <= |job.items| && job.TargetIs(f, p) && !TargetIn(job, p, 0, f)
    requires p in before && !TempIn(job, p, 0, f) && job.Staged(f) in before
    ensures Copied(job, before, p, m) == if Recopied(job, p, m) then At(before, job.Staged(f)) else At(before, p)
  {
    var l := m - 1;
    RecopiedNext(job, p, l);
    if l == f {
      HeldBeforeTarget(job, before, p, f);
      NotYetRestored(job, p, f);
    } else {
      CopiedIs(job, before, p, l, f);
      assert TargetIn(job, p, 0, l);
      HeldAfterTarget(job, before, p, l, f);
    }
  }

  lemma {:induction false} RecopiedNext(job: Job, p: Path, k: nat)
    requires k < |job.items|
    ensures Recopied(job, p, k + 1) <==> Recopied(job, p, k) || (job.TargetIs(k, p) && Restored(job, p, k))
  {
    if Recopied(job, p, k) {
      var j :| 0 <= j < k && job.TargetIs(j, p) && Restored(job, p, j);
      assert Recopied(job, p, k + 1);
    }
  }

  lemma {:induction false} NotYetRestored(job: Job, p: Path, f: nat)
    requires f <= |job.items| && !TargetIn(job, p, 0, f)
    ensures !Restored(job, p, f) && !Recopied(job, p, f)
  {
  }

  /** Lost is decided before the first target. */
  lemma {:induction false} LostIs(job: Job, p: Path, k: nat, f: nat)
    requires f < |job.items| && job.TargetIs(f, p) && !TargetIn(job, p, 0, f)
    requires k <= |job.items| && f <= k
    ensures Lost(job, p, k) <==> TempIn(job, p, 0, f)
  {
    TargetIsNotTemp(job, f, p);
    if Lost(job, p, k) {
      var j :| 0 <= j < k && job.TempIs(j, p) && !TargetIn(job, p, 0, j);
      if f < j {
        assert false;
      }
    }
    if TempIn(job, p, 0, f) {
      var j :| 0 <= j < f && job.TempIs(j, p);
      assert !TargetIn(job, p, 0, j);
    }
  }

  lemma {:induction false} LostWithoutTarget(job: Job, p: Path, k: nat)
    requires k <= |job.items| && !TargetIn(job, p, 0, k)
    ensures Lost(job, p, k) <==> TempIn(job, p, 0, k)
  {
    if TempIn(job, p, 0, k) {
      var j :| 0 <= j < k && job.TempIs(j, p);
      assert !TargetIn(job, p, 0, j);
    }
  }

  /* ---------- Success ---------- */

  /** After a successful restore a target holds its staged file iff no item works through its name
      after the last one that restores it. */
  lemma {:induction false} SuccessIsCompleteIff(
    job: Job, before: map<Path, Content>, now: map<Path, Content>, healthy: bool, r: Report, i: nat)
    requires job.Valid() && Outcome(job, before, now, healthy, r) && r.ok && i < |job.items|
    ensures job.HasTarget(i) && job.Staged(i) in before
    ensures At(now, job.Target(i).value) == At(before, job.Staged(i))
            <==> Restored(job, job.Target(i).value, |job.items|)
  {
    assert CanRestore(job, before, |job.items|) && job.HasTarget(i);
    var p := job.Target(i).value;
    TargetInScope(job, i);
    assert job.TargetIs(i, p);
    assert TargetIn(job, p, 0, |job.items|);
    HeldAfterTarget(job, before, p, |job.items|, i);
  }

  /* ---------- Failure ---------- */

  /** Some item with target p has p's former content as its staged file. */
  ghost predicate StagedAsBefore(job: Job, before: map<Path, Content>, p: Path) {
    exists i :: 0 <= i < |job.items| && job.TargetIs(i, p) && At(before, job.Staged(i)) == At(before, p)
  }

  /** What a failure and a clean rollback leave at the target of item i: nothing if it was worked
      through before it was backed up, the staged file if it was backed up again while it held that,
      and otherwise what was there. */
  lemma {:induction false} RecoveredIs(job: Job, before: map<Path, Content>, p: Path, k: nat, m: nat, i: nat)
    requires IsFailure(job, before, k, m) && i < |job.items| && job.TargetIs(i, p)
    ensures Recovered(job, before, p, k, m)
            == if p !in before || Lost(job, p, k) then None
               else if Recopied(job, p, m) then At(before, job.Staged(i))
               else At(before, p)
  {
    if TargetIn(job, p, 0, m) {
      var f := FirstTarget(job, p, m);
      RolledIs(job, before, p, 0, m, f);
      HeldBeforeTarget(job, before, p, f);
      LostIs(job, p, k, f);
      SharedTargetSameItem(job, i, f, p);
      if p in before && !TempIn(job, p, 0, f) {
        ListedIs(job, before, p, k, m, f);
      }
    } else {
      assert !TargetIn(job, p, 0, k);
      HeldBeforeTarget(job, before, p, k);
      LostWithoutTarget(job, p, k);
      NotYetRestored(job, p, m);
    }
  }

  lemma {:induction false} ListedIs(job: Job, before: map<Path, Content>, p: Path, k: nat, m: nat, f: nat)
    requires IsFailure(job, before, k, m) && f < m && job.TargetIs(f, p) && !TargetIn(job, p, 0, f)
    requires p in before && !TempIn(job, p, 0, f)
    ensures Copied(job, before, p, m) == if Recopied(job, p, m) then At(before, job.Staged(f)) else At(before, p)
  {
    if f < k {
      CopiedIs(job, before, p, m, f);
    } else {
      HeldBeforeTarget(job, before, p, f);
      RecopiedNext(job, p, f);
      NotYetRestored(job, p, f);
    }
  }

  /** So a target is as before iff nothing was there, or it was neither worked through before it was
      backed up, nor backed up again when it already held a restored file of other content. */
  lemma {:induction false} RecoveredIsExactIff(job: Job, before: map<Path, Content>, p: Path, k: nat, m: nat)
    requires IsFailure(job, before, k, m) && job.IsTarget(p)
    ensures Recovered(job, before, p, k, m) == At(before, p)
            <==> p !in before || (!Lost(job, p, k) && (!Recopied(job, p, m) || StagedAsBefore(job, before, p)))
  {
    var i :| 0 <= i < |job.items| && job.TargetIs(i, p);
    RecoveredIs(job, before, p, k, m, i);
    StagedIsOne(job, before, p, i);
  }

  /** The same of what the restore reports: at every target that the fault itself did not touch. */
  lemma {:induction false} RollbackIsExactIff(
    job: Job, before: map<Path, Content>, now: map<Path, Content>, healthy: bool, r: Report, p: Path)
    requires job.Valid() && Outcome(job, before, now, healthy, r) && !r.ok && r.clean && job.IsTarget(p)
    requires healthy || Settled(job, p, r.restored, r.listed)
    ensures Same(before, now, p)
            <==> p !in before || (!Lost(job, p, r.restored) &&
                   (!Recopied(job, p, r.listed) || StagedAsBefore(job, before, p)))
  {
    var i :| 0 <= i < |job.items| && job.TargetIs(i, p);
    TargetInScope(job, i);
    RecoveredIsExactIff(job, before, p, r.restored, r.listed);
  }

  lemma {:induction false} StagedIsOne(job: Job, before: map<Path, Content>, p: Path, f: nat)
    requires f < |job.items| && job.TargetIs(f, p)
    ensures StagedAsBefore(job, before, p) <==> At(before, job.Staged(f)) == At(before, p)
  {
    if StagedAsBefore(job, before, p) {
      var i :| 0 <= i < |job.items| && job.TargetIs(i, p) && At(before, job.Staged(i)) == At(before, p);
      SharedTargetSameItem(job, i, f, p);
    }
  }

  /** Where the rollback is exact at every target. */
  ghost predicate IsExact(job: Job, before: map<Path, Content>, k: nat, m: nat)
    requires k <= |job.items| && m <= |job.items|
  {
    forall p :: job.IsTarget(p) ==> Recovered(job, before, p, k, m) == At(before, p)
  }

  /** How many rollback entries there can be when item k fails. */
  function MostEntries(job: Job, k: nat): nat
    requires k < |job.items|
  {
    if job.HasTarget(k) then k + 1 else k
  }

  ghost predicate IsSafeUpTo(job: Job, k: nat)
    requires k < |job.items|
  {
    forall p :: job.IsTarget(p) ==> !Lost(job, p, k) && !Recopied(job, p, MostEntries(job, k))
  }

  ghost predicate AlwaysExact(job: Job, k: nat)
    requires k < |job.items|
  {
    forall before: map<Path, Content>, m: nat :: IsFailure(job, before, k, m) ==> IsExact(job, before, k, m)
  }

  /** In terms of the manifest alone: rollback after a failure at item k is exact whatever was on
      disk iff no target is worked through before it is backed up and none is backed up again
      while it holds a restored file. */
  lemma {:induction false} AlwaysExactIff(job: Job, k: nat)
    requires job.Valid() && k < |job.items| && forall i :: 0 <= i < k ==> job.HasTarget(i)
    ensures AlwaysExact(job, k) <==> IsSafeUpTo(job, k)
  {
    if IsSafeUpTo(job, k) {
      forall before: map<Path, Content>, m: nat | IsFailure(job, before, k, m)
        ensures IsExact(job, before, k, m)
      {
        SafeIsExact(job, before, k, m);
      }
    }
    if AlwaysExact(job, k) {
      forall p | job.IsTarget(p)
        ensures !Lost(job, p, k) && !Recopied(job, p, MostEntries(job, k))
      {
        var before := WorstCase(job, p);
        var m := MostEntries(job, k);
        WorstCaseIs(job, p);
        assert IsFailure(job, before, k, m);
        assert IsExact(job, before, k, m);
        RecoveredIsExactIff(job, before, p, k, m);
      }
    }
  }

  lemma {:induction false} SafeIsExact(job: Job, before: map<Path, Content>, k: nat, m: nat)
    requires IsFailure(job, before, k, m) && IsSafeUpTo(job, k)
    ensures IsExact(job, before, k, m)
  {
    forall p | job.IsTarget(p)
      ensures Recovered(job, before, p, k, m) == At(before, p)
    {
      RecoveredIsExactIff(job, before, p, k, m);
      if m < MostEntries(job, k) {
        RecopiedNext(job, p, m);
      }
    }
  }

  /** Every staged file is empty, and p holds something. */
  function WorstCase(job: Job, p: Path): map<Path, Content> {
    (map q | q in StagedPaths(job) :: [])[p := [0]]
  }

  function StagedPaths(job: Job): set<Path> {
    set i | 0 <= i < |job.items| :: job.Staged(i)
  }

  lemma {:induction false} WorstCaseIs(job: Job, p: Path)
    requires job.Valid() && job.IsTarget(p)
    ensures p in WorstCase(job, p) && !StagedAsBefore(job, WorstCase(job, p), p)
    ensures forall i :: 0 <= i < |job.items| ==> job.Staged(i) in WorstCase(job, p)
  {
    var t :| 0 <= t < |job.items| && job.TargetIs(t, p);
    TargetInScope(job, t);
    forall i | 0 <= i < |job.items|
      ensures At(WorstCase(job, p), job.Staged(i)) == Some([])
    {
      StagedApart(job, i);
      assert job.Staged(i) in StagedPaths(job);
    }
  }
}
