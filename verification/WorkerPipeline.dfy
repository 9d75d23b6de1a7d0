/** The worker seen from the pipeline: what a pass publishes are batches of the worker's own
    detectors, so every pass is a run of pipeline steps, and the fields of the three stores agree. */
module WorkerPipeline {
  import opened Models
  import opened Modbus
  import opened Adapter
  import opened Stores
  import opened AlarmTable
  import opened AlarmService
  import opened PortWorker
  import P = Pipeline

  /** The worker has the configured detectors of its port to itself. */
  ghost predicate Owns(owners: P.Owners, id: P.WorkerId, config: PortPollingConfig) {
    forall d :: IsConfigured(config, |config.groups|, d) ==> d in owners && owners[d] == id
  }

  ghost predicate OwnRequests(owners: P.Owners, id: P.WorkerId, requests: seq<PollRequest>) {
    && AllPollable(requests)
    && (forall q :: q in requests ==> OwnRequest(owners, id, q))
  }

  predicate OwnRequest(owners: P.Owners, id: P.WorkerId, q: PollRequest) {
    q.detectorId.Some? && q.detectorId.value > 0 && q.detectorId.value in owners && owners[q.detectorId.value] == id
  }

  lemma {:induction false} BuiltAreOwn(owners: P.Owners, id: P.WorkerId, config: PortPollingConfig)
    requires Owns(owners, id, config) && BuildRequests(config).Ok?
    ensures OwnRequests(owners, id, BuildRequests(config).value)
  {
    RequestsAreConfigured(config, |config.groups|);
    forall q | q in BuildRequests(config).value
      ensures OwnRequest(owners, id, q)
    {
      assert Pollable(q) && IsConfigured(config, |config.groups|, q.detectorId.value);
    }
  }

  /** The valid readings of a pass are of the worker's detectors, and none is INVALID. */
  lemma {:induction false} ValidIsOwn(
    owners: P.Owners, id: P.WorkerId, requests: seq<PollRequest>, exchanges: seq<Exchange>, k: nat)
    requires k <= |requests| == |exchanges| && OwnRequests(owners, id, requests)
    ensures P.OwnBatch(owners, id, PassValid(requests, exchanges, k))
  {
    if k > 0 {
      ValidIsOwn(owners, id, requests, exchanges, k - 1);
      var q, e := requests[k - 1], exchanges[k - 1];
      assert q in requests;
      ValidsAreOwn(owners, id, q, AnswerTo(PassHistory(requests, exchanges, k - 1), e), e.parsedAt);
    }
  }

  lemma {:induction false} ValidsAreOwn(owners: P.Owners, id: P.WorkerId, q: PollRequest, answer: Answer, at: int)
    requires Pollable(q) && OwnRequest(owners, id, q)
    ensures P.OwnBatch(owners, id, Valids(q, answer, at))
  {
    if answer.Received? && Validate(q, answer.payload).Accepted? {
      PolledReadingIsOwn(q, answer.payload, at);
    }
  }

  /** So are its offline readings. */
  lemma {:induction false} OfflineIsOwn(
    w: PortWorker, owners: P.Owners, id: P.WorkerId, before: seq<Event>,
    requests: seq<PollRequest>, exchanges: seq<Exchange>, k: nat)
    requires k <= |requests| == |exchanges| && OwnRequests(owners, id, requests)
    ensures P.OwnBatch(owners, id, w.PassOffline(before, requests, exchanges, k))
  {
    if k > 0 {
      OfflineIsOwn(w, owners, id, before, requests, exchanges, k - 1);
      assert requests[k - 1] in requests;
    }
  }

  /** What PollOnce reports are own batches, valid first. */
  lemma {:induction false} PassIsOwn(
    w: PortWorker, owners: P.Owners, id: P.WorkerId, before: seq<Event>, now: seq<Event>,
    exchanges: seq<Exchange>, result: PollResult)
    requires Owns(owners, id, w.config) && result.Polled? && BuildRequests(w.config).Ok?
    requires |exchanges| == |BuildRequests(w.config).value| && AllPollable(BuildRequests(w.config).value)
    requires w.PassState(before, BuildRequests(w.config).value, exchanges, |exchanges|, now,
                         result.valid, result.offline, result.failureCount)
    ensures P.OwnBatch(owners, id, result.valid) && P.OwnBatch(owners, id, result.offline)
  {
    var requests := BuildRequests(w.config).value;
    BuiltAreOwn(owners, id, w.config);
    ValidIsOwn(owners, id, requests, exchanges, |requests|);
    OfflineIsOwn(w, owners, id, before, requests, exchanges, |requests|);
  }

  /* ---------- A pass as pipeline steps ---------- */

  /** _persist_and_publish for one batch. */
  function BatchSteps(id: P.WorkerId, batch: Log): seq<P.Step> {
    [P.Persist(id, batch), P.Publish(id), P.Ingest(id)]
  }

  /** The stores hold what the pipeline says they were given. */
  ghost predicate Matches(s: P.System, tables: Log, state: Log, alarms: Log) {
    s.tables == tables && s.state == state && s.alarms == alarms
  }

  lemma {:induction false} RunConcat(owners: P.Owners, s: P.System, a: seq<P.Step>, b: seq<P.Step>)
    requires P.Run(owners, s, a) && P.Run(owners, P.After(owners, s, a), b)
    ensures P.Run(owners, s, a + b) && P.After(owners, s, a + b) == P.After(owners, P.After(owners, s, a), b)
    decreases |a|
  {
    if |a| == 0 {
      assert a + b == b;
    } else {
      assert (a + b)[0] == a[0] && (a + b)[1..] == a[1..] + b;
      RunConcat(owners, P.Next(owners, s, a[0]), a[1..], b);
    }
  }

  lemma {:induction false} BatchRuns(owners: P.Owners, s: P.System, id: P.WorkerId, batch: Log)
    requires P.PhaseOf(s, id).Idle? && P.OwnBatch(owners, id, batch)
    ensures P.Run(owners, s, BatchSteps(id, batch))
    ensures var t := P.After(owners, s, BatchSteps(id, batch));
            && Matches(t, s.tables + batch, s.state + batch, s.alarms + batch)
            && P.PhaseOf(t, id).Idle? && (forall w :: w != id ==> P.PhaseOf(t, w) == P.PhaseOf(s, w))
  {
    var steps := BatchSteps(id, batch);
    var s1 := P.Next(owners, s, steps[0]);
    var s2 := P.Next(owners, s1, steps[1]);
    var s3 := P.Next(owners, s2, steps[2]);
    assert steps[1..] == [steps[1], steps[2]] && steps[1..][1..] == [steps[2]] && [steps[2]][1..] == [];
    assert P.Run(owners, s3, []) && P.Run(owners, s2, [steps[2]]) && P.Run(owners, s1, steps[1..]);
    assert P.After(owners, s3, []) == s3 && P.After(owners, s2, [steps[2]]) == s3;
  }

  /** A pass that PollOnce reports continues a pipeline run whose logs are those of the stores: its
      logs are the stores' afterwards. */
  lemma {:induction false} PassContinuesRun(
    owners: P.Owners, steps: seq<P.Step>, id: P.WorkerId, tables: Log, state: Log, alarms: Log, valid: Log,
    offline: Log)
    returns (more: seq<P.Step>)
    requires P.Run(owners, P.INITIAL, steps) && Matches(P.After(owners, P.INITIAL, steps), tables, state, alarms)
    requires P.PhaseOf(P.After(owners, P.INITIAL, steps), id).Idle?
    requires P.OwnBatch(owners, id, valid) && P.OwnBatch(owners, id, offline)
    ensures P.Run(owners, P.INITIAL, steps + more)
    ensures Matches(P.After(owners, P.INITIAL, steps + more),
                    tables + (valid + offline), state + (valid + offline), alarms + (valid + offline))
    ensures P.PhaseOf(P.After(owners, P.INITIAL, steps + more), id).Idle?
    ensures forall w :: w != id ==>
              P.PhaseOf(P.After(owners, P.INITIAL, steps + more), w) == P.PhaseOf(P.After(owners, P.INITIAL, steps), w)
  {
    var s := P.After(owners, P.INITIAL, steps);
    BatchRuns(owners, s, id, valid);
    var t := P.After(owners, s, BatchSteps(id, valid));
    BatchRuns(owners, t, id, offline);
    RunConcat(owners, s, BatchSteps(id, valid), BatchSteps(id, offline));
    more := BatchSteps(id, valid) + BatchSteps(id, offline);
    RunConcat(owners, P.INITIAL, steps, more);
    assert forall log: Log :: log + valid + offline == log + (valid + offline);
  }

  /* ---------- The fields of the stores ---------- */

  /** The snapshot row, the state store entry and the last cached point of a detector hold one reading,
      and the active alarms are those of its status; or there is none of them. */
  ghost predicate FieldsAgree(tables: RuntimeTables, store: StateStore, service: AlarmService, d: int)
    reads tables, store, service
  {
    && (d in tables.snapshots <==> d in store.readings)
    && (d in store.readings <==> d in store.curveCache)
    && (d in store.readings ==>
          && |store.curveCache[d]| > 0
          && tables.snapshots[d].reading == store.readings[d]
          && store.curveCache[d][|store.curveCache[d]| - 1] == store.readings[d]
          && ActiveTypes(service.alarms, d) == AlarmImage(store.readings[d].status))
    && (d !in store.readings ==> ActiveTypes(service.alarms, d) == {})
  }

  lemma {:induction false} IdsArePositive(owners: P.Owners, s: P.System, steps: seq<P.Step>)
    requires P.Run(owners, s, steps) && forall r :: r in s.tables ==> r.detectorId > 0
    ensures forall r :: r in P.After(owners, s, steps).tables ==> r.detectorId > 0
    decreases |steps|
  {
    if |steps| > 0 {
      IdsArePositive(owners, P.Next(owners, s, steps[0]), steps[1..]);
    }
  }

  lemma {:induction false} EntryMeansPositive(log: Log, d: int)
    requires forall r :: r in log ==> r.detectorId > 0
    ensures LatestOf(log, d).Some? ==> d > 0
  {
    if d <= 0 {
      NoEntries(log, d);
    }
  }

  /** When the stores were given what a pipeline run says, every detector whose worker is between
      batches has one reading in its snapshot row, its state store entry and its last cached point,
      and exactly the active alarms of that reading's status. */
  lemma {:induction false} StoreFieldsAgree(
    tables: RuntimeTables, store: StateStore, service: AlarmService, owners: P.Owners, steps: seq<P.Step>, d: int)
    requires tables.Valid() && store.Valid() && service.Valid() && store.curveCacheSize > 0
    requires P.Run(owners, P.INITIAL, steps)
    requires Matches(P.After(owners, P.INITIAL, steps), tables.log, store.log, service.history)
    requires d in owners && P.PhaseOf(P.After(owners, P.INITIAL, steps), owners[d]).Idle?
    ensures FieldsAgree(tables, store, service, d)
    ensures d in store.curveCache ==> store.curveCache[d] == LastN(Entries(store.log, d), store.curveCacheSize)
  {
    P.StoresAgree(owners, steps, d);
    IdsArePositive(owners, P.INITIAL, steps);
    EntryMeansPositive(tables.log, d);
    assert SnapshotMatches(tables.snapshots, tables.log, d);
    assert EntryMatches(store.readings, store.curveCache, store.log, store.curveCacheSize, d);
  }

  /** One pass of a worker while the pipeline stands where the stores do: afterwards the stores stand
      where a longer pipeline run leads, and agree about every detector of the worker. published is
      what the pass gave to the stores. */
  method PollInPipeline(w: PortWorker, owners: P.Owners, id: P.WorkerId, p: Pass, ghost steps: seq<P.Step>)
    returns (result: PollResult, ghost more: seq<P.Step>, ghost published: Log)
    requires w.Valid() && Owns(owners, id, w.config) && w.store.curveCacheSize > 0
    requires BuildRequests(w.config).Ok? ==> |p.exchanges| == |BuildRequests(w.config).value|
    requires P.Run(owners, P.INITIAL, steps) && P.PhaseOf(P.After(owners, P.INITIAL, steps), id).Idle?
    requires Matches(P.After(owners, P.INITIAL, steps), w.tables.log, w.store.log, w.alarmService.history)
    modifies w, w.tables, w.store, w.alarmService`alarms, w.alarmService`records, w.alarmService`history
    ensures w.Valid()
    ensures published == PublishedBy(result) && P.OwnBatch(owners, id, published)
    ensures w.alarmService.history == old(w.alarmService.history) + published
    ensures P.Run(owners, P.INITIAL, steps + more) && P.PhaseOf(P.After(owners, P.INITIAL, steps + more), id).Idle?
    ensures forall v :: v != id ==>
              P.PhaseOf(P.After(owners, P.INITIAL, steps + more), v) == P.PhaseOf(P.After(owners, P.INITIAL, steps), v)
    ensures Matches(P.After(owners, P.INITIAL, steps + more), w.tables.log, w.store.log, w.alarmService.history)
    ensures forall d :: d in owners && owners[d] == id ==> FieldsAgree(w.tables, w.store, w.alarmService, d)
  {
    ghost var tables, state, alarms, events := w.tables.log, w.store.log, w.alarmService.history, w.events;
    result := w.PollOnce(p.exchanges, p.opens, p.now, p.later);
    published := PublishedBy(result);
    if result.Polled? {
      PassIsOwn(w, owners, id, events, w.events, p.exchanges, result);
      more := PassContinuesRun(owners, steps, id, tables, state, alarms, result.valid, result.offline);
    } else {
      more := [];
      assert steps + more == steps;
    }
    AllFieldsAgree(w, owners, id, steps + more);
  }

  lemma {:induction false} AllFieldsAgree(w: PortWorker, owners: P.Owners, id: P.WorkerId, steps: seq<P.Step>)
    requires w.Valid() && w.store.curveCacheSize > 0
    requires P.Run(owners, P.INITIAL, steps) && P.PhaseOf(P.After(owners, P.INITIAL, steps), id).Idle?
    requires Matches(P.After(owners, P.INITIAL, steps), w.tables.log, w.store.log, w.alarmService.history)
    ensures forall d :: d in owners && owners[d] == id ==> FieldsAgree(w.tables, w.store, w.alarmService, d)
  {
    forall d | d in owners && owners[d] == id
      ensures FieldsAgree(w.tables, w.store, w.alarmService, d)
    {
      StoreFieldsAgree(w.tables, w.store, w.alarmService, owners, steps, d);
    }
  }

  /* ---------- Several workers taking turns ---------- */

  lemma {:induction false} StillOffline(owners: P.Owners, other: P.WorkerId, history: Log, published: Log, d: int)
    requires P.OwnBatch(owners, other, published) && d in owners && owners[d] != other && NeedsOffline(history, d)
    ensures NeedsOffline(history + published, d)
  {
    ReadingsOfConcat(history, published, d);
    NoReadingsOf(published, d);
  }

  /** What holds of a worker whose own fields are as they were survives a pass of another one. */
  lemma {:induction false} SurvivesOthers(
    w: PortWorker, owners: P.Owners, id: P.WorkerId, other: P.WorkerId, before: Log, published: Log)
    requires w.StoresValid() && w.Counted() && w.OfflineIsConfigured()
    requires forall d :: d in w.offline ==> NeedsOffline(before, d)
    requires w.alarmService.history == before + published
    requires P.OwnBatch(owners, other, published) && other != id && Owns(owners, id, w.config)
    ensures w.Valid()
  {
    forall d | d in w.offline
      ensures NeedsOffline(w.alarmService.history, d)
    {
      StillOffline(owners, other, before, published, d);
    }
  }

  /** The workers of a team share the stores; worker i has the detectors of its port to itself. */
  ghost predicate IsTeam(
    workers: seq<PortWorker>, tables: RuntimeTables, store: StateStore, service: AlarmService, owners: P.Owners)
  {
    && (forall i, j :: 0 <= i < j < |workers| ==> workers[i] != workers[j])
    && (forall i :: 0 <= i < |workers| ==>
          workers[i].tables == tables && workers[i].store == store && workers[i].alarmService == service)
    && (forall i :: 0 <= i < |workers| ==> Owns(owners, i, workers[i].config))
    && store.curveCacheSize > 0
  }

  ghost predicate InStep(
    owners: P.Owners, steps: seq<P.Step>, n: nat, tables: RuntimeTables, store: StateStore, service: AlarmService)
    reads tables, store, service
  {
    && P.Run(owners, P.INITIAL, steps)
    && Matches(P.After(owners, P.INITIAL, steps), tables.log, store.log, service.history)
    && (forall i :: 0 <= i < n ==> P.PhaseOf(P.After(owners, P.INITIAL, steps), i).Idle?)
  }

  /** With empty stores, one worker for each port is such a team. */
  method NewTeam(
    configs: seq<PortPollingConfig>, tables: RuntimeTables, store: StateStore, service: AlarmService, owners: P.Owners)
    returns (workers: seq<PortWorker>)
    requires tables.Valid() && store.Valid() && service.Valid() && store.curveCacheSize > 0
    requires tables.log == [] && store.log == [] && service.history == []
    requires forall i :: 0 <= i < |configs| ==> Owns(owners, i, configs[i])
    ensures |workers| == |configs| && fresh(workers) && IsTeam(workers, tables, store, service, owners)
    ensures forall i :: 0 <= i < |workers| ==> workers[i].Valid() && workers[i].config == configs[i]
    ensures InStep(owners, [], |workers|, tables, store, service)
  {
    workers := [];
    for i := 0 to |configs|
      invariant |workers| == i && fresh(workers) && IsTeam(workers, tables, store, service, owners)
      invariant forall j :: 0 <= j < i ==> workers[j].Valid() && workers[j].config == configs[j]
    {
      var w := new PortWorker(configs[i], tables, store, service);
      workers := workers + [w];
    }
  }

  /** Whose turn it is, and what its pass meets. */
  datatype Turn = Turn(worker: nat, pass: Pass)

  /** One worker's turn: it polls, and all workers stay valid. */
  method TakeTurn(
    workers: seq<PortWorker>, tables: RuntimeTables, store: StateStore, service: AlarmService,
    owners: P.Owners, turn: Turn, ghost steps: seq<P.Step>)
    returns (ghost more: seq<P.Step>)
    requires IsTeam(workers, tables, store, service, owners)
    requires forall i :: 0 <= i < |workers| ==> workers[i].Valid()
    requires InStep(owners, steps, |workers|, tables, store, service)
    requires turn.worker < |workers| && FitsPass(workers[turn.worker].config, turn.pass)
    modifies workers[turn.worker], tables, store, service`alarms, service`records, service`history
    ensures forall i :: 0 <= i < |workers| ==> workers[i].Valid()
    ensures InStep(owners, steps + more, |workers|, tables, store, service)
  {
    ghost var before, published := service.history, [];
    var result;
    result, more, published := PollInPipeline(workers[turn.worker], owners, turn.worker, turn.pass, steps);
    forall j | 0 <= j < |workers|
      ensures workers[j].Valid()
    {
      if j != turn.worker {
        SurvivesOthers(workers[j], owners, j, turn.worker, before, published);
      }
    }
  }

  /** Any number of workers poll in any order: all of them stay valid, and in the end the stores agree
      about every detector of every worker. */
  method TakeTurns(
    workers: seq<PortWorker>, tables: RuntimeTables, store: StateStore, service: AlarmService,
    owners: P.Owners, turns: seq<Turn>, ghost steps: seq<P.Step>)
    returns (ghost more: seq<P.Step>)
    requires IsTeam(workers, tables, store, service, owners)
    requires forall i :: 0 <= i < |workers| ==> workers[i].Valid()
    requires tables.Valid() && store.Valid() && service.Valid()
    requires InStep(owners, steps, |workers|, tables, store, service)
    requires forall k :: 0 <= k < |turns| ==>
               turns[k].worker < |workers| && FitsPass(workers[turns[k].worker].config, turns[k].pass)
    modifies set i | 0 <= i < |workers| :: workers[i]
    modifies tables, store, service`alarms, service`records, service`history
    ensures forall i :: 0 <= i < |workers| ==> workers[i].Valid()
    ensures InStep(owners, steps + more, |workers|, tables, store, service)
    ensures forall d :: d in owners && 0 <= owners[d] < |workers| ==> FieldsAgree(tables, store, service, d)
  {
    more := [];
    assert steps + more == steps;
    for k := 0 to |turns|
      invariant forall i :: 0 <= i < |workers| ==> workers[i].Valid()
      invariant tables.Valid() && store.Valid() && service.Valid()
      invariant InStep(owners, steps + more, |workers|, tables, store, service)
    {
      ghost var next := TakeTurn(workers, tables, store, service, owners, turns[k], steps + more);
      assert steps + more + next == steps + (more + next);
      more := more + next;
    }
    forall d | d in owners && 0 <= owners[d] < |workers|
      ensures FieldsAgree(tables, store, service, d)
    {
      StoreFieldsAgree(tables, store, service, owners, steps + more, d);
    }
  }

  predicate FitsPass(config: PortPollingConfig, p: Pass) {
    BuildRequests(config).Ok? ==> |p.exchanges| == |BuildRequests(config).value|
  }
}
