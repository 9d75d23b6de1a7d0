/** Several workers, each on its own detectors, feeding the shared stores in three separate
    steps: commit the runtime tables, update the state store, ingest into the alarm table.
    Steps of different workers interleave freely. */
module Pipeline {
  import opened Models
  import opened Stores
  import opened AlarmTable

  type WorkerId = int

  /** How far a worker is inside _persist_and_publish, and with which batch. */
  datatype Phase = Idle | Persisted(batch: Log) | Published(batch: Log)

  /** What each store has been given so far, and where every worker stands. */
  datatype System = System(tables: Log, state: Log, alarms: Log, phases: map<WorkerId, Phase>)

  datatype Step =
    | Persist(worker: WorkerId, batch: Log)
    | Publish(worker: WorkerId)
    | Ingest(worker: WorkerId)

  /** Which worker polls a detector. */
  type Owners = map<int, WorkerId>

  /** Workers publish readings of their own detectors, and none with status INVALID. */
  predicate OwnBatch(owners: Owners, worker: WorkerId, batch: Log) {
    forall r :: r in batch ==>
      r.detectorId in owners && owners[r.detectorId] == worker && r.detectorId > 0 && !r.status.Invalid?
  }

  function PhaseOf(s: System, worker: WorkerId): Phase {
    if worker in s.phases then s.phases[worker] else Idle
  }

  predicate Enabled(owners: Owners, s: System, step: Step) {
    match step
    case Persist(w, batch) => PhaseOf(s, w).Idle? && OwnBatch(owners, w, batch)
    case Publish(w) => PhaseOf(s, w).Persisted?
    case Ingest(w) => PhaseOf(s, w).Published?
  }

  function Next(owners: Owners, s: System, step: Step): System
    requires Enabled(owners, s, step)
  {
    match step
    case Persist(w, batch) => s.(tables := s.tables + batch, phases := s.phases[w := Persisted(batch)])
    case Publish(w) =>
      s.(state := s.state + PhaseOf(s, w).batch, phases := s.phases[w := Published(PhaseOf(s, w).batch)])
    case Ingest(w) => s.(alarms := s.alarms + PhaseOf(s, w).batch, phases := s.phases[w := Idle])
  }

  predicate Run(owners: Owners, s: System, steps: seq<Step>)
    decreases |steps|
  {
    |steps| > 0 ==> Enabled(owners, s, steps[0]) && Run(owners, Next(owners, s, steps[0]), steps[1..])
  }

  function After(owners: Owners, s: System, steps: seq<Step>): System
    requires Run(owners, s, steps)
    decreases |steps|
  {
    if |steps| == 0 then s else After(owners, Next(owners, s, steps[0]), steps[1..])
  }

  const INITIAL := System([], [], [], map[])

  /* ---------- The invariant ---------- */

  /** How the three logs of a detector are related while its worker is in this phase. */
  predicate InStep(phase: Phase, tables: Log, state: Log, alarms: Log, detectorId: int) {
    match phase
    case Idle => Entries(tables, detectorId) == Entries(state, detectorId) == Entries(alarms, detectorId)
    case Persisted(b) =>
      && Entries(tables, detectorId) == Entries(state, detectorId) + Entries(b, detectorId)
      && Entries(state, detectorId) == Entries(alarms, detectorId)
    case Published(b) =>
      && Entries(tables, detectorId) == Entries(state, detectorId)
      && Entries(state, detectorId) == Entries(alarms, detectorId) + Entries(b, detectorId)
  }

  predicate NoInvalid(log: Log) {
    forall r :: r in log ==> !r.status.Invalid?
  }

  ghost predicate Invariant(owners: Owners, s: System) {
    && (forall d :: d in owners ==> InStep(PhaseOf(s, owners[d]), s.tables, s.state, s.alarms, d))
    && (forall w :: w in s.phases && !s.phases[w].Idle? ==> OwnBatch(owners, w, s.phases[w].batch))
    && NoInvalid(s.alarms)
  }

  lemma {:induction false} OtherBatchHasNoEntries(owners: Owners, worker: WorkerId, batch: Log, detectorId: int)
    requires OwnBatch(owners, worker, batch) && detectorId in owners && owners[detectorId] != worker
    ensures Entries(batch, detectorId) == []
  {
    NoEntries(batch, detectorId);
  }

  /** A batch of another worker adds nothing to a detector's entries. */
  lemma {:induction false} OtherWorkerIsInvisible(owners: Owners, worker: WorkerId, batch: Log, log: Log, d: int)
    requires OwnBatch(owners, worker, batch) && d in owners && owners[d] != worker
    ensures Entries(log + batch, d) == Entries(log, d)
  {
    EntriesConcat(log, batch, d);
    OtherBatchHasNoEntries(owners, worker, batch, d);
  }

  lemma {:induction false} OtherStepKeepsDetector(owners: Owners, s: System, step: Step, d: int)
    requires Invariant(owners, s) && Enabled(owners, s, step) && d in owners && owners[d] != step.worker
    ensures var t := Next(owners, s, step); InStep(PhaseOf(t, owners[d]), t.tables, t.state, t.alarms, d)
  {
    var w := step.worker;
    var batch := if step.Persist? then step.batch else PhaseOf(s, w).batch;
    assert PhaseOf(Next(owners, s, step), owners[d]) == PhaseOf(s, owners[d]);
    OtherWorkerIsInvisible(owners, w, batch, s.tables, d);
    OtherWorkerIsInvisible(owners, w, batch, s.state, d);
    OtherWorkerIsInvisible(owners, w, batch, s.alarms, d);
  }

  lemma {:induction false} OwnStepKeepsDetector(owners: Owners, s: System, step: Step, d: int)
    requires Invariant(owners, s) && Enabled(owners, s, step) && d in owners && owners[d] == step.worker
    ensures var t := Next(owners, s, step); InStep(PhaseOf(t, owners[d]), t.tables, t.state, t.alarms, d)
  {
    var w := step.worker;
    match step
    case Persist(_, batch) => EntriesConcat(s.tables, batch, d);
    case Publish(_) => EntriesConcat(s.state, PhaseOf(s, w).batch, d);
    case Ingest(_) => EntriesConcat(s.alarms, PhaseOf(s, w).batch, d);
  }

  lemma {:induction false} StepKeepsInvariant(owners: Owners, s: System, step: Step)
    requires Invariant(owners, s) && Enabled(owners, s, step)
    ensures Invariant(owners, Next(owners, s, step))
  {
    forall d | d in owners
      ensures InStep(PhaseOf(Next(owners, s, step), owners[d]), Next(owners, s, step).tables,
                     Next(owners, s, step).state, Next(owners, s, step).alarms, d)
    {
      if owners[d] == step.worker {
        OwnStepKeepsDetector(owners, s, step, d);
      } else {
        OtherStepKeepsDetector(owners, s, step, d);
      }
    }
  }

  lemma {:induction false} RunKeepsInvariant(owners: Owners, s: System, steps: seq<Step>)
    requires Invariant(owners, s) && Run(owners, s, steps)
    ensures Invariant(owners, After(owners, s, steps))
    decreases |steps|
  {
    if |steps| > 0 {
      StepKeepsInvariant(owners, s, steps[0]);
      RunKeepsInvariant(owners, Next(owners, s, steps[0]), steps[1..]);
    }
  }

  lemma {:induction false} EntriesAreReadings(log: Log, detectorId: int)
    requires NoInvalid(log)
    ensures Entries(log, detectorId) == ReadingsOf(log, detectorId)
    decreases |log|
  {
    if |log| > 0 {
      EntriesAreReadings(log[..|log| - 1], detectorId);
    }
  }

  /** After any interleaving, for every detector whose worker is not in the middle of a
      batch: the snapshot row, the state store entry and the last cached point are the same
      reading, the cache is the last 600 readings, and the active alarms are exactly those
      of that reading's status. */
  lemma {:induction false} StoresAgree(owners: Owners, steps: seq<Step>, d: int)
    requires Run(owners, INITIAL, steps) && d in owners
    requires PhaseOf(After(owners, INITIAL, steps), owners[d]).Idle?
    ensures var s := After(owners, INITIAL, steps);
            var cache := LastN(Entries(s.state, d), 600);
            && LatestOf(s.tables, d) == LatestOf(s.state, d)
            && (LatestOf(s.tables, d).Some? ==> |cache| > 0)
            && (LatestOf(s.tables, d).Some? ==> cache[|cache| - 1] == LatestOf(s.tables, d).value)
            && cache == LastN(Entries(s.tables, d), 600)
            && ActiveTypes(Replay(s.alarms), d) == ImageOfLatest(LatestOf(s.tables, d))
  {
    RunKeepsInvariant(owners, INITIAL, steps);
    var s := After(owners, INITIAL, steps);
    EntriesAreReadings(s.alarms, d);
    ActiveIsImageOfLast(s.alarms, d);
  }

  function ImageOfLatest(latest: Option<DeviceReading>): set<AlarmType> {
    if latest.Some? then AlarmImage(latest.value.status) else {}
  }

  /** While its worker is inside a batch, what the tables have and the alarm table lacks of a
      detector is exactly that batch. */
  lemma {:induction false} LagIsOneBatch(owners: Owners, steps: seq<Step>, d: int)
    requires Run(owners, INITIAL, steps) && d in owners
    requires !PhaseOf(After(owners, INITIAL, steps), owners[d]).Idle?
    ensures var s := After(owners, INITIAL, steps);
            Entries(s.tables, d) == Entries(s.alarms, d) + Entries(PhaseOf(s, owners[d]).batch, d)
  {
    RunKeepsInvariant(owners, INITIAL, steps);
  }
}
