/** The worker that polls one port: failure counts, the offline set, thinning of stored
    records, and publication to the three stores. What the channel answers, and whether a
    reopen succeeds, are inputs. */
module PortWorker {
  import opened Crc
  import opened Models
  import opened Modbus
  import opened Adapter
  import opened Stores
  import opened Thinning
  import opened AlarmTable
  import opened AlarmService

  datatype ChannelErrorCode =
    | NotOpen | OpenFailed | CloseFailed | Timeout | ConnectionFailed | InvalidPayload | IoError

  /** The errors after which the worker closes and reopens its channel. */
  predicate IsLinkError(code: ChannelErrorCode) {
    code == NotOpen || code == ConnectionFailed || code == IoError
  }

  datatype Answer = Received(payload: Bytes) | Failed(code: ChannelErrorCode)

  /** What an open channel would answer to a request, whether a reopen would succeed should
      this exchange call for one, and the time of parsing. */
  datatype Exchange = Exchange(answer: Answer, reopens: bool, parsedAt: int)

  /** A closed channel answers every request with NOT_OPEN. */
  function Transact(channelOpen: bool, e: Exchange): Answer {
    if channelOpen then e.answer else Failed(NotOpen)
  }

  datatype Outcome = ChannelFailure(code: ChannelErrorCode) | InvalidResponse | ValidResponse

  datatype Event = Event(detectorId: int, outcome: Outcome)

  /** The inputs of one pass: what the channel would answer, whether an opening would succeed, and
      the times at which valid and offline readings are persisted. */
  datatype Pass = Pass(exchanges: seq<Exchange>, opens: bool, now: real, later: real)

  datatype PollResult =
    | Raised
    | Polled(valid: seq<DeviceReading>, offline: seq<DeviceReading>, invalidCount: nat, failureCount: nat)

  /** The local variables of a pass; channelOpen says whether its channel can still be used. */
  datatype Collection = Collection(
    valid: seq<DeviceReading>, offline: seq<DeviceReading>, invalidCount: nat, failureCount: nat, channelOpen: bool)

  /** What a pass gives to the stores. */
  function PublishedBy(result: PollResult): seq<DeviceReading> {
    if result.Polled? then result.valid + result.offline else []
  }

  /* ---------- The reference: trailing channel failures ---------- */

  /** How many channel failures a detector has had since its last valid response; invalid
      responses neither count nor reset. */
  function TrailingFailures(events: seq<Event>, detectorId: int): nat
    decreases |events|
  {
    if |events| == 0 then 0
    else
      var last := events[|events| - 1];
      var before := TrailingFailures(events[..|events| - 1], detectorId);
      if last.detectorId != detectorId then before
      else
        match last.outcome
        case ChannelFailure(_) => before + 1
        case InvalidResponse => before
        case ValidResponse => 0
  }

  lemma {:induction false} TrailingExtend(events: seq<Event>, e: Event, detectorId: int)
    ensures TrailingFailures(events + [e], detectorId)
         == if e.detectorId != detectorId || e.outcome.InvalidResponse? then TrailingFailures(events, detectorId)
            else if e.outcome.ValidResponse? then 0
            else TrailingFailures(events, detectorId) + 1
  {
    assert (events + [e])[..|events|] == events;
  }

  function CountOf(failures: map<int, nat>, detectorId: int): nat {
    if detectorId in failures then failures[detectorId] else 0
  }

  /** A threshold below one acts like one: the set is only looked at after a failure. */
  function Threshold(configured: int): int {
    if configured < 1 then 1 else configured
  }

  ghost predicate CountsMatch(failures: map<int, nat>, offline: set<int>, events: seq<Event>, threshold: int, d: int) {
    && CountOf(failures, d) == TrailingFailures(events, d)
    && (d in offline <==> TrailingFailures(events, d) >= Threshold(threshold))
  }

  lemma {:induction false} CountsExtend(failures: map<int, nat>, offline: set<int>, events: seq<Event>, threshold: int,
                                        e: Event, failures': map<int, nat>, offline': set<int>, d: int)
    requires CountsMatch(failures, offline, events, threshold, d)
    requires CountsMatch(failures, offline, events, threshold, e.detectorId)
    requires e.outcome.InvalidResponse? ==> failures' == failures && offline' == offline
    requires e.outcome.ValidResponse? ==>
               failures' == failures[e.detectorId := 0] && offline' == offline - {e.detectorId}
    requires e.outcome.ChannelFailure? ==>
               failures' == failures[e.detectorId := CountOf(failures, e.detectorId) + 1]
    requires e.outcome.ChannelFailure? ==>
               offline' == if CountOf(failures', e.detectorId) < threshold then offline else offline + {e.detectorId}
    ensures CountsMatch(failures', offline', events + [e], threshold, d)
  {
    TrailingExtend(events, e, d);
    TrailingExtend(events, e, e.detectorId);
  }

  /* ---------- Publication ---------- */

  function Stamp(readings: seq<DeviceReading>, now: real): Flow {
    seq(|readings|, i requires 0 <= i < |readings| => Stamped(readings[i], now))
  }

  function AsRecords(kept: Flow, quality: Quality): seq<RunningRecord> {
    seq(|kept|, i requires 0 <= i < |kept| => RunningRecord(kept[i].reading, quality, kept[i].at))
  }

  lemma {:induction false} NextDue(
    last: map<int, real>, intervals: map<int, int>, readings: seq<DeviceReading>, i: nat, now: real, quality: Quality)
    requires i < |readings|
    ensures var before, s := LastAfter(last, intervals, Stamp(readings[..i], now)), Stamped(readings[i], now);
            && readings[..i + 1] == readings[..i] + [readings[i]]
            && LastAfter(last, intervals, Stamp(readings[..i + 1], now))
               == (if Due(before, intervals, s) then before[readings[i].detectorId := now] else before)
            && AsRecords(Kept(last, intervals, Stamp(readings[..i + 1], now)), quality)
               == AsRecords(Kept(last, intervals, Stamp(readings[..i], now)), quality)
                  + (if Due(before, intervals, s) then [RunningRecord(readings[i], quality, now)] else [])
  {
    var flow, s := Stamp(readings[..i], now), Stamped(readings[i], now);
    assert Stamp(readings[..i + 1], now) == flow + [s];
    assert (flow + [s])[..|flow|] == flow;
    KeptSnoc(last, intervals, flow, s);
  }

  /** The snapshot rows of the detectors that were read have this quality, the others are as before. */
  ghost predicate Marked(
    before: map<int, Snapshot>, after: map<int, Snapshot>, readings: seq<DeviceReading>, quality: Quality)
  {
    forall d :: if Mentions(readings, d) then d in after && after[d].quality == quality else SameRow(before, after, d)
  }

  /** The same for valid readings followed by offline ones. */
  ghost predicate MarkedBoth(
    before: map<int, Snapshot>, after: map<int, Snapshot>, valid: seq<DeviceReading>, offline: seq<DeviceReading>)
  {
    forall d ::
      if Mentions(offline, d) then d in after && after[d].quality == OfflineQuality
      else if Mentions(valid, d) then d in after && after[d].quality == ValidQuality
      else SameRow(before, after, d)
  }

  lemma {:induction false} MarkedTwice(
    a: map<int, Snapshot>, b: map<int, Snapshot>, c: map<int, Snapshot>, valid: seq<DeviceReading>,
    offline: seq<DeviceReading>)
    requires Marked(a, b, valid, ValidQuality) && Marked(b, c, offline, OfflineQuality)
    ensures MarkedBoth(a, c, valid, offline)
  {
    forall d
      ensures if Mentions(offline, d) then d in c && c[d].quality == OfflineQuality
              else if Mentions(valid, d) then d in c && c[d].quality == ValidQuality
              else SameRow(a, c, d)
    {
      assert SameRow(b, c, d) || Mentions(offline, d);
      assert SameRow(a, b, d) || Mentions(valid, d);
    }
  }

  predicate SameRow(before: map<int, Snapshot>, after: map<int, Snapshot>, d: int) {
    if d in before then d in after && after[d] == before[d] else d !in after
  }

  lemma {:induction false} MarkedNext(
    before: map<int, Snapshot>, after: map<int, Snapshot>, readings: seq<DeviceReading>, quality: Quality, i: nat)
    requires i < |readings| && Marked(before, after, readings[..i], quality)
    ensures Marked(before, after[readings[i].detectorId := Snapshot(readings[i], quality)], readings[..i + 1], quality)
  {
    var next := after[readings[i].detectorId := Snapshot(readings[i], quality)];
    assert readings[..i + 1] == readings[..i] + [readings[i]];
    assert readings[i] in readings[..i + 1];
    forall d
      ensures if Mentions(readings[..i + 1], d) then d in next && next[d].quality == quality
              else SameRow(before, next, d)
    {
      assert Mentions(readings[..i + 1], d) <==> Mentions(readings[..i], d) || readings[i].detectorId == d;
    }
  }

  predicate HaveIds(readings: seq<DeviceReading>) {
    forall r :: r in readings ==> r.detectorId > 0
  }

  /** A detector whose last reading is OFFLINE has an active offline alarm. */
  lemma {:induction false} LastOfflineRaisesAlarm(history: Log, d: int)
    requires NeedsOffline(history, d)
    ensures OfflineType in ActiveTypes(Replay(history), d)
  {
    ActiveIsImageOfLast(history, d);
  }

  predicate NeedsOffline(history: Log, d: int) {
    var rs := ReadingsOf(history, d);
    |rs| > 0 && rs[|rs| - 1].status.Offline?
  }

  lemma {:induction false} ReadingsOfConcat(a: Log, b: Log, d: int)
    ensures ReadingsOf(a + b, d) == ReadingsOf(a, d) + ReadingsOf(b, d)
    decreases |b|
  {
    if |b| == 0 {
      assert a + b == a;
    } else {
      assert (a + b)[..|a + b| - 1] == a + b[..|b| - 1];
      ReadingsOfConcat(a, b[..|b| - 1], d);
    }
  }

  lemma {:induction false} NoReadingsOf(b: Log, d: int)
    requires forall r :: r in b ==> r.detectorId != d
    ensures ReadingsOf(b, d) == []
    decreases |b|
  {
    if |b| > 0 {
      NoReadingsOf(b[..|b| - 1], d);
    }
  }

  predicate AllOffline(readings: seq<DeviceReading>) {
    forall r :: r in readings ==> r.status.Offline?
  }

  lemma {:induction false} OfflineReadingsOf(b: Log, d: int)
    requires AllOffline(b) && exists r :: r in b && r.detectorId == d
    ensures NeedsOffline(b, d)
    decreases |b|
  {
    var init, last := b[..|b| - 1], b[|b| - 1];
    assert last in b;
    if last.detectorId != d {
      var r :| r in b && r.detectorId == d;
      assert r in init;
      OfflineReadingsOf(init, d);
    }
  }

  predicate Mentions(readings: seq<DeviceReading>, d: int) {
    exists r :: r in readings && r.detectorId == d
  }

  /** What a pass has to have collected so that publishing it leaves d with an offline alarm. */
  predicate WillBeOffline(history: Log, valid: seq<DeviceReading>, offline: seq<DeviceReading>, d: int) {
    Mentions(offline, d) || (NeedsOffline(history, d) && !Mentions(valid, d))
  }

  lemma {:induction false} PublishedOffline(
    history: Log, valid: seq<DeviceReading>, offline: seq<DeviceReading>, d: int)
    requires AllOffline(offline) && WillBeOffline(history, valid, offline, d)
    ensures NeedsOffline(history + valid + offline, d)
  {
    ReadingsOfConcat(history, valid, d);
    ReadingsOfConcat(history + valid, offline, d);
    if Mentions(offline, d) {
      OfflineReadingsOf(offline, d);
    } else {
      NoReadingsOf(valid, d);
      NoReadingsOf(offline, d);
    }
  }

  /** Readings of other detectors, from this or another worker, leave d's alarms alone. */
  lemma {:induction false} OthersDoNotMatter(history: Log, b: Log, d: int)
    requires !Mentions(b, d)
    ensures ActiveTypes(Replay(history + b), d) == ActiveTypes(Replay(history), d)
  {
    ReadingsOfConcat(history, b, d);
    NoReadingsOf(b, d);
    ActiveIsImageOfLast(history, d);
    ActiveIsImageOfLast(history + b, d);
  }

  /* ---------- The reference: what a pass comes to ---------- */

  /** The readings that an answer is worth; none when it is rejected or not a usable status. */
  function Valids(request: PollRequest, answer: Answer, at: int): seq<DeviceReading>
    requires Pollable(request)
  {
    match answer
    case Failed(_) => []
    case Received(payload) =>
      if Validate(request, payload).Accepted? && Parse(request, payload, at).Ok?
      then WithoutInvalid(Parse(request, payload, at).value)
      else []
  }

  function OutcomeOf(request: PollRequest, answer: Answer, at: int): Outcome
    requires Pollable(request)
  {
    match answer
    case Failed(code) => ChannelFailure(code)
    case Received(_) => if Valids(request, answer, at) == [] then InvalidResponse else ValidResponse
  }

  /** The worker's own failure count, which a valid response or a successful reopen clears. */
  function NextConsecutive(count: nat, outcome: Outcome, reopens: bool): nat {
    match outcome
    case ValidResponse => 0
    case InvalidResponse => count
    case ChannelFailure(code) =>
      if !IsLinkError(code) then count + 1 else if reopens then 0 else count + 3
  }

  predicate AllPollable(requests: seq<PollRequest>) {
    forall q :: q in requests ==> Pollable(q)
  }

  /** What the channel of the pass answers to request k, given what happened before in the pass. */
  function AnswerTo(pass: seq<Event>, e: Exchange): Answer {
    Transact(!LinkFailed(pass), e)
  }

  /** The events of the first k exchanges of a pass. */
  function PassHistory(requests: seq<PollRequest>, exchanges: seq<Exchange>, k: nat): (pass: seq<Event>)
    requires k <= |requests| && k <= |exchanges| && AllPollable(requests)
    ensures |pass| == k
  {
    if k == 0 then []
    else
      var pass := PassHistory(requests, exchanges, k - 1);
      var q, e := requests[k - 1], exchanges[k - 1];
      assert q in requests;
      pass + [Event(q.detectorId.value, OutcomeOf(q, AnswerTo(pass, e), e.parsedAt))]
  }

  /** The valid readings of the first k exchanges, in order. */
  function PassValid(requests: seq<PollRequest>, exchanges: seq<Exchange>, k: nat): seq<DeviceReading>
    requires k <= |requests| && k <= |exchanges| && AllPollable(requests)
  {
    if k == 0 then []
    else
      var q, e := requests[k - 1], exchanges[k - 1];
      assert q in requests;
      PassValid(requests, exchanges, k - 1)
      + Valids(q, AnswerTo(PassHistory(requests, exchanges, k - 1), e), e.parsedAt)
  }

  function FailuresIn(pass: seq<Event>): nat {
    if |pass| == 0 then 0
    else FailuresIn(pass[..|pass| - 1]) + if pass[|pass| - 1].outcome.ChannelFailure? then 1 else 0
  }

  lemma {:induction false} FailuresExtend(pass: seq<Event>, e: Event)
    ensures FailuresIn(pass + [e]) == FailuresIn(pass) + if e.outcome.ChannelFailure? then 1 else 0
  {
    assert (pass + [e])[..|pass|] == pass;
  }

  function SuccessEvents(readings: seq<DeviceReading>): seq<Event> {
    seq(|readings|, i requires 0 <= i < |readings| => Event(readings[i].detectorId, ValidResponse))
  }

  lemma {:induction false} OneSuccess(r: DeviceReading)
    ensures SuccessEvents([r]) == [Event(r.detectorId, ValidResponse)] && DetectorsOf([r]) == {r.detectorId}
  {
  }

  function DetectorsOf(readings: seq<DeviceReading>): set<int> {
    set r | r in readings :: r.detectorId
  }

  /* ---------- What is derived from the configuration ---------- */

  /** The targets of the first n groups, in order. */
  function GroupTargets(config: PortPollingConfig, n: nat): seq<PollingTarget>
    requires n <= |config.groups|
  {
    if n == 0 then [] else GroupTargets(config, n - 1) + config.groups[n - 1].targets
  }

  function IntervalsOf(targets: seq<PollingTarget>): map<int, int> {
    if |targets| == 0 then map[]
    else
      var last := targets[|targets| - 1];
      IntervalsOf(targets[..|targets| - 1])[last.target.detectorId :=
        if last.storeIntervalSec < 1 then 1 else last.storeIntervalSec]
  }

  function TargetsOf(targets: seq<PollingTarget>): map<int, PollTarget> {
    if |targets| == 0 then map[]
    else
      var last := targets[|targets| - 1].target;
      TargetsOf(targets[..|targets| - 1])[last.detectorId := last]
  }

  /** Target t of group g is the last one, in the order of the groups, that is for this detector. */
  predicate IsLastTarget(config: PortPollingConfig, g: nat, t: nat, d: int) {
    && g < |config.groups| && t < |config.groups[g].targets|
    && config.groups[g].targets[t].target.detectorId == d
    && !Targets(config.groups[g].targets[t + 1..], d)
    && (forall h :: g < h < |config.groups| ==> !Targets(config.groups[h].targets, d))
  }

  predicate Targets(targets: seq<PollingTarget>, d: int) {
    exists t :: 0 <= t < |targets| && targets[t].target.detectorId == d
  }

  /** What the two dictionaries hold for a detector. */
  predicate EntryIs(targets: seq<PollingTarget>, d: int, interval: Option<int>, target: Option<PollTarget>) {
    && (if interval.Some? then d in IntervalsOf(targets) && IntervalsOf(targets)[d] == interval.value
        else d !in IntervalsOf(targets))
    && (if target.Some? then d in TargetsOf(targets) && TargetsOf(targets)[d] == target.value
        else d !in TargetsOf(targets))
  }

  lemma {:induction false} EntryStays(
    a: seq<PollingTarget>, b: seq<PollingTarget>, d: int, interval: Option<int>, target: Option<PollTarget>)
    requires EntryIs(a, d, interval, target) && !Targets(b, d)
    ensures EntryIs(a + b, d, interval, target)
    decreases |b|
  {
    if |b| == 0 {
      assert a + b == a;
    } else {
      var front := b[..|b| - 1];
      assert b[|b| - 1].target.detectorId != d;
      assert !Targets(front, d) by {
        forall t | 0 <= t < |front|
          ensures front[t].target.detectorId != d
        {
          assert b[t].target.detectorId != d;
        }
      }
      EntryStays(a, front, d, interval, target);
      assert (a + b)[..|a + b| - 1] == a + front;
    }
  }

  lemma {:induction false} LastEntry(a: seq<PollingTarget>, b: seq<PollingTarget>, t: nat)
    requires t < |b| && !Targets(b[t + 1..], b[t].target.detectorId)
    ensures EntryIs(a + b, b[t].target.detectorId, Some(AtLeastOne(b[t].storeIntervalSec)), Some(b[t].target))
  {
    var front := a + b[..t + 1];
    assert front[..|front| - 1] == a + b[..t];
    EntryStays(front, b[t + 1..], b[t].target.detectorId, Some(AtLeastOne(b[t].storeIntervalSec)), Some(b[t].target));
    assert front + b[t + 1..] == a + b;
  }

  function AtLeastOne(seconds: int): int {
    if seconds >= 1 then seconds else 1
  }

  /** The entries of a detector are those of its last target. */
  lemma {:induction false} LastTargetDecides(config: PortPollingConfig, n: nat, g: nat, t: nat, d: int)
    requires IsLastTarget(config, g, t, d) && g < n <= |config.groups|
    ensures var last := config.groups[g].targets[t];
            EntryIs(GroupTargets(config, n), d, Some(AtLeastOne(last.storeIntervalSec)), Some(last.target))
  {
    if n == g + 1 {
      LastEntry(GroupTargets(config, g), config.groups[g].targets, t);
    } else {
      LastTargetDecides(config, n - 1, g, t, d);
      var last := config.groups[g].targets[t];
      EntryStays(GroupTargets(config, n - 1), config.groups[n - 1].targets, d, Some(AtLeastOne(last.storeIntervalSec)),
                 Some(last.target));
    }
  }

  lemma {:induction false} NoTargetNoEntry(config: PortPollingConfig, n: nat, d: int)
    requires n <= |config.groups| && !IsConfigured(config, |config.groups|, d)
    ensures EntryIs(GroupTargets(config, n), d, None, None)
  {
    if n > 0 {
      NoTargetNoEntry(config, n - 1, d);
      assert !InGroup(config.groups[n - 1], d);
      EntryStays(GroupTargets(config, n - 1), config.groups[n - 1].targets, d, None, None);
    }
  }

  /** The request is for target t of group g. */
  predicate IsFor(q: PollRequest, config: PortPollingConfig, g: nat, t: nat)
    requires g < |config.groups| && t < |config.groups[g].targets|
  {
    && q.detectorId == Some(config.groups[g].targets[t].target.detectorId)
    && q.protocol == config.protocol && q.sourceType == config.groups[g].sourceType
    && q.portId == config.portId && q.timeoutMs == config.timeoutMs
  }

  /** Request k is for target t of group g. */
  predicate IsPolledAt(requests: seq<PollRequest>, k: nat, config: PortPollingConfig, g: nat, t: nat)
    requires g < |config.groups| && t < |config.groups[g].targets|
  {
    k < |requests| && IsFor(requests[k], config, g, t)
  }

  /** The requests are for the targets of the first n groups: target t of group g comes after all
      targets of the groups before. */
  ghost predicate Follow(requests: seq<PollRequest>, config: PortPollingConfig, n: nat)
    requires n <= |config.groups|
  {
    && |requests| == |GroupTargets(config, n)|
    && forall g: nat, t: nat :: g < n && t < |config.groups[g].targets| ==> InPlace(requests, config, g, t)
  }

  predicate InPlace(requests: seq<PollRequest>, config: PortPollingConfig, g: nat, t: nat)
    requires g < |config.groups| && t < |config.groups[g].targets|
  {
    IsPolledAt(requests, |GroupTargets(config, g)| + t, config, g, t)
  }

  /** The requests are for the targets of group g, in order. */
  predicate AllFor(requests: seq<PollRequest>, config: PortPollingConfig, g: nat)
    requires g < |config.groups|
  {
    && |requests| == |config.groups[g].targets|
    && forall t :: 0 <= t < |requests| ==> IsFor(requests[t], config, g, t)
  }

  lemma {:induction false} AllForAt(requests: seq<PollRequest>, config: PortPollingConfig, g: nat, t: nat)
    requires g < |config.groups| && t < |config.groups[g].targets| && AllFor(requests, config, g)
    ensures IsPolledAt(requests, t, config, g, t)
  {
  }

  lemma {:induction false} FollowNext(
    before: seq<PollRequest>, more: seq<PollRequest>, config: PortPollingConfig, n: nat)
    requires 0 < n <= |config.groups| && Follow(before, config, n - 1) && AllFor(more, config, n - 1)
    ensures Follow(before + more, config, n)
  {
    forall g: nat, t: nat | g < n && t < |config.groups[g].targets|
      ensures InPlace(before + more, config, g, t)
    {
      if g < n - 1 {
        assert InPlace(before, config, g, t);
      } else {
        AllForAt(more, config, g, t);
      }
    }
  }

  /** Every target of the configuration is polled in its place, and nothing else is. */
  lemma {:induction false} TargetsArePolled(config: PortPollingConfig, n: nat, requests: seq<PollRequest>)
    requires n <= |config.groups| && GroupRequests(config, n) == Ok(requests)
    ensures Follow(requests, config, n)
  {
    if n > 0 {
      var before, more := GroupRequestsSplit(config, n, requests);
      TargetsArePolled(config, n - 1, before);
      AllAreFor(config, n - 1, more);
      FollowNext(before, more, config, n);
    }
  }

  lemma {:induction false} AllAreFor(config: PortPollingConfig, g: nat, requests: seq<PollRequest>)
    requires g < |config.groups| && ValidContext(ContextOf(config, config.groups[g]))
    requires ContextRequests(ContextOf(config, config.groups[g]), |config.groups[g].targets|) == Ok(requests)
    ensures |requests| == |config.groups[g].targets| && AllFor(requests, config, g)
  {
    var context := ContextOf(config, config.groups[g]);
    forall t | 0 <= t < |requests|
      ensures IsFor(requests[t], config, g, t)
    {
      assert IsRequestFor(requests[t], context, context.targets[t]);
    }
  }

  /** The number of seconds between the records of a detector that the configuration asks for. */
  ghost predicate IsInterval(config: PortPollingConfig, d: int, seconds: int) {
    if IsConfigured(config, |config.groups|, d) then
      exists g: nat, t: nat ::
        IsLastTarget(config, g, t, d) && seconds == AtLeastOne(config.groups[g].targets[t].storeIntervalSec)
    else
      seconds == 60
  }

  lemma {:induction false} IntervalIsConfigured(config: PortPollingConfig, d: int, seconds: int)
    requires IsInterval(config, d, seconds)
    ensures IntervalOf(IntervalsOf(GroupTargets(config, |config.groups|)), d) == seconds >= 1
  {
    if IsConfigured(config, |config.groups|, d) {
      var g: nat, t: nat :|
        IsLastTarget(config, g, t, d) && seconds == AtLeastOne(config.groups[g].targets[t].storeIntervalSec);
      LastTargetDecides(config, |config.groups|, g, t, d);
    } else {
      NoTargetNoEntry(config, |config.groups|, d);
    }
  }

  /* ---------- Records and the flow they come from ---------- */

  function FlowOf(records: seq<RunningRecord>): Flow {
    seq(|records|, i requires 0 <= i < |records| => Stamped(records[i].reading, records[i].at))
  }

  lemma {:induction false} FlowOfAdded(records: seq<RunningRecord>, kept: Flow, quality: Quality)
    ensures FlowOf(records + AsRecords(kept, quality)) == FlowOf(records) + kept
  {
  }

  lemma {:induction false} NothingDue(last: map<int, real>, intervals: map<int, int>, now: real)
    ensures Stamp([], now) == [] && Kept(last, intervals, []) == [] && LastAfter(last, intervals, []) == last
  {
  }

  lemma {:induction false} OfflineNeeded(
    history: Log, valid: seq<DeviceReading>, more: seq<DeviceReading>, offline: set<int>)
    requires AllOffline(more) && forall d :: d in offline ==> WillBeOffline(history, valid, more, d)
    ensures forall d :: d in offline ==> NeedsOffline(history + valid + more, d)
  {
    forall d | d in offline
      ensures NeedsOffline(history + valid + more, d)
    {
      PublishedOffline(history, valid, more, d);
    }
  }

  lemma {:induction false} FlowOfTwoAdded(records: seq<RunningRecord>, first: Flow, second: Flow, before: Flow)
    ensures before <= before + first + second
    ensures FlowOf(records + AsRecords(first, ValidQuality) + AsRecords(second, OfflineQuality))
            == FlowOf(records) + (before + first + second)[|before|..]
  {
    FlowOfAdded(records, first, ValidQuality);
    FlowOfAdded(records + AsRecords(first, ValidQuality), second, OfflineQuality);
    assert (before + first + second)[|before|..] == first + second;
  }

  /** What the stores were given so far, what was due of it, and the flow of the records. */
  datatype StoreLogs = StoreLogs(tables: Log, state: Log, history: Log, written: Flow, recorded: Flow) {
    ghost predicate Grew(later: StoreLogs, published: Log) {
      && later.tables == tables + published && later.state == state + published
      && later.history == history + published
      && written <= later.written && later.recorded == recorded + later.written[|written|..]
    }
  }

  lemma {:induction false} FedGrows(a: StoreLogs, b: StoreLogs, c: StoreLogs, p: Log, q: Log)
    requires a.Grew(b, p) && b.Grew(c, q)
    ensures a.Grew(c, p + q)
  {
    assert c.written[|a.written|..] == b.written[|a.written|..] + c.written[|b.written|..];
  }

  /* ---------- The worker ---------- */

  class PortWorker {
    const config: PortPollingConfig
    const intervals: map<int, int> := IntervalsOf(GroupTargets(config, |config.groups|))
    const targets: map<int, PollTarget> := TargetsOf(GroupTargets(config, |config.groups|))
    const tables: RuntimeTables
    const store: StateStore
    const alarmService: AlarmService
    var isOpen: bool
    var consecutiveFailures: nat
    var failures: map<int, nat>
    var offline: set<int>
    var lastRecord: map<int, real>
    ghost var events: seq<Event>
    ghost var flow: Flow
    ghost var written: Flow

    /** flow is what was persisted so far, written what became records. */
    ghost predicate StoresValid()
      reads this`lastRecord, this`flow, this`written, tables, store, alarmService
    {
      && tables.Valid() && store.Valid() && alarmService.Valid()
      && lastRecord == LastAfter(map[], intervals, flow)
      && written == Kept(map[], intervals, flow)
    }

    ghost predicate Counted()
      reads this`failures, this`offline, this`events
    {
      forall d :: CountsMatch(failures, offline, events, config.failureThreshold, d)
    }

    /** Only detectors of the port's configuration are ever offline. */
    ghost predicate OfflineIsConfigured()
      reads this`offline
    {
      forall d :: d in offline ==> IsConfigured(config, |config.groups|, d)
    }

    /** Counts and offline set are those of the event history, and every detector in the
        set has an active offline alarm. */
    ghost predicate Published()
      reads this, tables, store, alarmService
    {
      && StoresValid()
      && Counted()
      && (forall d :: d in offline ==> NeedsOffline(alarmService.history, d))
    }

    ghost predicate Valid()
      reads this, tables, store, alarmService
    {
      Published() && OfflineIsConfigured()
    }

    constructor (config: PortPollingConfig, tables: RuntimeTables, store: StateStore, alarmService: AlarmService)
      requires tables.Valid() && store.Valid() && alarmService.Valid()
      ensures Valid() && events == [] && flow == [] && !isOpen
      ensures this.config == config
      ensures this.tables == tables && this.store == store && this.alarmService == alarmService
    {
      this.config := config;
      this.tables, this.store, this.alarmService := tables, store, alarmService;
      isOpen, consecutiveFailures := false, 0;
      failures, offline, lastRecord := map[], {}, map[];
      events, flow, written := [], [], [];
    }

    /** open(): ok is what the channel does. */
    method Open(ok: bool)
      modifies this`isOpen, this`consecutiveFailures
      ensures isOpen == (old(isOpen) || ok)
      ensures consecutiveFailures == if old(isOpen) then old(consecutiveFailures)
                                     else if ok then 0 else old(consecutiveFailures) + 1
    {
      if !isOpen {
        if ok {
          isOpen, consecutiveFailures := true, 0;
        } else {
          consecutiveFailures := consecutiveFailures + 1;
        }
      }
    }

    method ReopenAfterFailure(ok: bool)
      modifies this`isOpen, this`consecutiveFailures
      ensures isOpen == ok
      ensures consecutiveFailures == if ok then 0 else old(consecutiveFailures) + 2
    {
      isOpen := false;
      Open(ok);
      if !ok {
        consecutiveFailures := consecutiveFailures + 1;
      }
    }

    function OfflineReading(request: PollRequest, now: int): DeviceReading
      requires request.detectorId.Some?
    {
      var detectorId := request.detectorId.value;
      var known := detectorId in targets;
      DeviceReading(
        request.protocol, request.sourceType, request.portId, request.controllerId, detectorId,
        if known then targets[detectorId].controllerAddress else None,
        if known then targets[detectorId].detectorAddress else Some(request.unitAddress),
        Offline, None, None, None, None, RawText("offline"), now)
    }

    /** The offline reading that the event history calls for after a failure. */
    function OfflineAfter(history: seq<Event>, request: PollRequest, at: int): seq<DeviceReading>
      requires request.detectorId.Some?
    {
      if |history| > 0 && history[|history| - 1].outcome.ChannelFailure?
         && TrailingFailures(history, request.detectorId.value) >= Threshold(config.failureThreshold)
      then [OfflineReading(request, at)]
      else []
    }

    /** The offline readings of the first k exchanges of a pass after the given history. */
    function PassOffline(
      before: seq<Event>, requests: seq<PollRequest>, exchanges: seq<Exchange>, k: nat): seq<DeviceReading>
      requires k <= |requests| && k <= |exchanges| && AllPollable(requests)
    {
      if k == 0 then []
      else
        assert requests[k - 1] in requests;
        PassOffline(before, requests, exchanges, k - 1)
        + OfflineAfter(before + PassHistory(requests, exchanges, k), requests[k - 1], exchanges[k - 1].parsedAt)
    }

    method HandleChannelFailure(request: PollRequest, code: ChannelErrorCode, reopens: bool, now: int)
      returns (reading: Option<DeviceReading>)
      requires Counted() && Pollable(request)
      modifies this`isOpen, this`consecutiveFailures, this`failures, this`offline, this`events
      ensures Counted() && events == old(events) + [Event(request.detectorId.value, ChannelFailure(code))]
      ensures reading.Some? <==> CountOf(failures, request.detectorId.value) >= config.failureThreshold
      ensures (if reading.Some? then [reading.value] else []) == OfflineAfter(events, request, now)
      ensures offline == old(offline) + if reading.Some? then {request.detectorId.value} else {}
      ensures isOpen == if code in {NotOpen, ConnectionFailed, IoError} then reopens else old(isOpen)
      ensures consecutiveFailures == if !IsLinkError(code) then old(consecutiveFailures) + 1
                                     else if reopens then 0 else old(consecutiveFailures) + 3
    {
      consecutiveFailures := consecutiveFailures + 1;
      var d := request.detectorId.value;
      failures := failures[d := CountOf(failures, d) + 1];
      if IsLinkError(code) {
        ReopenAfterFailure(reopens);
      }
      if failures[d] < config.failureThreshold {
        reading := None;
      } else {
        offline := offline + {d};
        reading := Some(OfflineReading(request, now));
      }
      events := events + [Event(d, ChannelFailure(code))];
      forall k
        ensures CountsMatch(failures, offline, events, config.failureThreshold, k)
      {
        CountsExtend(old(failures), old(offline), old(events), config.failureThreshold,
                     Event(d, ChannelFailure(code)), failures, offline, k);
      }
      assert CountsMatch(failures, offline, events, config.failureThreshold, d);
    }

    method RecordSuccess(readings: seq<DeviceReading>)
      requires Counted()
      modifies this`consecutiveFailures, this`failures, this`offline, this`events
      ensures Counted() && events == old(events) + SuccessEvents(readings)
      ensures offline == old(offline) - DetectorsOf(readings)
      ensures consecutiveFailures == 0
    {
      consecutiveFailures := 0;
      for i := 0 to |readings|
        invariant Counted() && events == old(events) + SuccessEvents(readings[..i])
        invariant offline == old(offline) - DetectorsOf(readings[..i])
        invariant consecutiveFailures == 0
      {
        ghost var counts, away, before := failures, offline, events;
        var d := readings[i].detectorId;
        failures := failures[d := 0];
        offline := offline - {d};
        events := events + [Event(d, ValidResponse)];
        forall k
          ensures CountsMatch(failures, offline, events, config.failureThreshold, k)
        {
          CountsExtend(counts, away, before, config.failureThreshold, Event(d, ValidResponse), failures, offline, k);
        }
        assert readings[..i + 1] == readings[..i] + [readings[i]];
      }
      assert readings[..|readings|] == readings;
    }

    /** An invalid response changes neither the counts nor the set. */
    ghost method NoteInvalid(d: int)
      requires Counted()
      modifies this`events
      ensures Counted() && events == old(events) + [Event(d, InvalidResponse)]
    {
      events := events + [Event(d, InvalidResponse)];
      forall k
        ensures CountsMatch(failures, offline, events, config.failureThreshold, k)
      {
        CountsExtend(failures, offline, old(events), config.failureThreshold, Event(d, InvalidResponse),
                     failures, offline, k);
      }
    }

    /** The transaction of _persist_and_publish: snapshots for all, records for those due. */
    method Persist(readings: seq<DeviceReading>, quality: Quality, now: real)
      requires tables.Valid()
      modifies this`lastRecord, tables
      ensures tables.Valid() && tables.log == old(tables.log) + readings
      ensures lastRecord == LastAfter(old(lastRecord), intervals, Stamp(readings, now))
      ensures tables.records == old(tables.records)
                                + AsRecords(Kept(old(lastRecord), intervals, Stamp(readings, now)), quality)
      ensures Marked(old(tables.snapshots), tables.snapshots, readings, quality)
    {
      for i := 0 to |readings|
        invariant Marked(old(tables.snapshots), tables.snapshots, readings[..i], quality)
        invariant tables.Valid() && tables.log == old(tables.log) + readings[..i]
        invariant lastRecord == LastAfter(old(lastRecord), intervals, Stamp(readings[..i], now))
        invariant tables.records == old(tables.records)
                                    + AsRecords(Kept(old(lastRecord), intervals, Stamp(readings[..i], now)), quality)
      {
        var reading := readings[i];
        NextDue(old(lastRecord), intervals, readings, i, now, quality);
        MarkedNext(old(tables.snapshots), tables.snapshots, readings, quality, i);
        tables.UpsertReading(reading, quality);
        if Due(lastRecord, intervals, Stamped(reading, now)) {
          tables.AddReading(reading, quality, now);
          lastRecord := lastRecord[reading.detectorId := now];
        }
      }
      assert readings[..|readings|] == readings;
    }

    /** The readings of a batch that are due, as of now. */
    ghost function DueOf(last: map<int, real>, readings: seq<DeviceReading>, now: real): Flow {
      Kept(last, intervals, Stamp(readings, now))
    }

    method PersistAndPublish(readings: seq<DeviceReading>, quality: Quality, now: real)
      requires StoresValid() && HaveIds(readings)
      modifies this`lastRecord, this`flow, this`written
      modifies tables, store, alarmService`alarms, alarmService`records, alarmService`history
      ensures StoresValid()
      ensures tables.log == old(tables.log) + readings
      ensures store.log == old(store.log) + readings
      ensures alarmService.history == old(alarmService.history) + readings
      ensures flow == old(flow) + Stamp(readings, now)
      ensures written == old(written) + DueOf(old(lastRecord), readings, now)
      ensures tables.records == old(tables.records) + AsRecords(DueOf(old(lastRecord), readings, now), quality)
      ensures Marked(old(tables.snapshots), tables.snapshots, readings, quality)
      ensures lastRecord == LastAfter(old(lastRecord), intervals, Stamp(readings, now))
    {
      Persist(readings, quality, now);
      AllUsable(readings);
      var published := store.UpdateReadings(readings, now);
      var created, recovered, linkageIds, ignored := alarmService.IngestReadings(readings);
      KeptConcat(map[], intervals, flow, Stamp(readings, now));
      written := written + DueOf(old(lastRecord), readings, now);
      flow := flow + Stamp(readings, now);
    }

    /** A response that arrived: rejected, of no use, or a success. */
    method Receive(request: PollRequest, payload: Bytes, at: int)
      returns (outcome: Outcome, readings: seq<DeviceReading>)
      requires Counted() && Pollable(request)
      modifies this`consecutiveFailures, this`failures, this`offline, this`events
      ensures Counted() && events == old(events) + [Event(request.detectorId.value, outcome)]
      ensures readings == Valids(request, Received(payload), at)
      ensures outcome == OutcomeOf(request, Received(payload), at)
      ensures |readings| == (if outcome.ValidResponse? then 1 else 0)
      ensures forall r :: r in readings ==> r.detectorId == request.detectorId.value
      ensures offline == if outcome.ValidResponse? then old(offline) - {request.detectorId.value} else old(offline)
      ensures consecutiveFailures == NextConsecutive(old(consecutiveFailures), outcome, false)
    {
      outcome, readings := ReadAnswer(request, payload, at);
      if outcome.ValidResponse? {
        OneSuccess(readings[0]);
        assert readings == [readings[0]];
        RecordSuccess(readings);
      } else {
        NoteInvalid(request.detectorId.value);
      }
    }

    /** Validation, parsing, and the readings that are of use. */
    method ReadAnswer(request: PollRequest, payload: Bytes, at: int)
      returns (outcome: Outcome, readings: seq<DeviceReading>)
      requires Pollable(request)
      ensures readings == Valids(request, Received(payload), at)
      ensures outcome == OutcomeOf(request, Received(payload), at) && !outcome.ChannelFailure?
      ensures |readings| == (if outcome.ValidResponse? then 1 else 0)
      ensures forall r :: r in readings ==> r.detectorId == request.detectorId.value
    {
      outcome, readings := InvalidResponse, [];
      var verdict := ValidateResponse(request, payload);
      if verdict.Accepted? {
        PolledReadingIsOwn(request, payload, at);
        var parsed := ParseResponse(request, payload, at);
        readings := WithoutInvalid(parsed.value);
        if readings != [] {
          outcome := ValidResponse;
        }
      }
    }

    /** One exchange of a pass: what it adds to the valid and offline readings, and how it is
        counted. stillOpen says whether the channel the pass holds can still be used. */
    method PollRequest(request: PollRequest, exchange: Exchange, channelOpen: bool)
      returns (readings: seq<DeviceReading>, offlineReadings: seq<DeviceReading>, outcome: Outcome, stillOpen: bool)
      requires Counted() && Pollable(request)
      modifies this`isOpen, this`consecutiveFailures, this`failures, this`offline, this`events
      ensures Counted() && events == old(events) + [Event(request.detectorId.value, outcome)]
      ensures outcome == OutcomeOf(request, Transact(channelOpen, exchange), exchange.parsedAt)
      ensures readings == Valids(request, Transact(channelOpen, exchange), exchange.parsedAt)
      ensures offlineReadings == OfflineAfter(events, request, exchange.parsedAt)
      ensures isOpen
              == if IsLinkFailure(Event(request.detectorId.value, outcome)) then exchange.reopens else old(isOpen)
      ensures consecutiveFailures == NextConsecutive(old(consecutiveFailures), outcome, exchange.reopens)
      ensures !channelOpen ==> outcome == ChannelFailure(NotOpen)
      ensures stillOpen <==> channelOpen && !IsLinkFailure(Event(request.detectorId.value, outcome))
      ensures PollAdds(request.detectorId.value, outcome, readings, offlineReadings, old(offline), offline)
    {
      readings, offlineReadings, stillOpen := [], [], channelOpen;
      match Transact(channelOpen, exchange) {
        case Failed(code) =>
          outcome := ChannelFailure(code);
          var reading := HandleChannelFailure(request, code, exchange.reopens, exchange.parsedAt);
          if reading.Some? {
            offlineReadings := [reading.value];
          }
          // The pass keeps the channel object it began with; a reopen replaces the worker's only.
          if IsLinkError(code) {
            stillOpen := false;
          }
        case Received(payload) =>
          outcome, readings := Receive(request, payload, exchange.parsedAt);
      }
    }

    /** What a pass does to the flow and the records: the valid readings are thinned first, the
        offline readings after them. */
    ghost predicate Recorded(
      flowBefore: Flow, writtenBefore: Flow, last: map<int, real>, records: seq<RunningRecord>,
      valid: seq<DeviceReading>, now: real, offlineReadings: seq<DeviceReading>, later: real)
      reads this`flow, this`written, tables`records
    {
      var first := DueOf(last, valid, now);
      var second := DueOf(LastAfter(last, intervals, Stamp(valid, now)), offlineReadings, later);
      && flow == flowBefore + Stamp(valid, now) + Stamp(offlineReadings, later)
      && written == writtenBefore + first + second
      && tables.records == records + AsRecords(first, ValidQuality) + AsRecords(second, OfflineQuality)
    }

    /** The three stores were given the same readings, and the records grew by what was due. */
    twostate predicate Fed(published: seq<DeviceReading>)
      reads this, tables, store, alarmService
    {
      && tables.log == old(tables.log) + published
      && store.log == old(store.log) + published
      && alarmService.history == old(alarmService.history) + published
      && old(flow) <= flow && old(written) <= written
      && FlowOf(tables.records) == FlowOf(old(tables.records)) + written[|old(written)|..]
    }

    /** One pass over the port. exchanges holds what the channel would answer to each request. */
    method PollOnce(exchanges: seq<Exchange>, opens: bool, now: real, later: real) returns (result: PollResult)
      requires Valid()
      requires BuildRequests(config).Ok? ==> |exchanges| == |BuildRequests(config).value|
      modifies this, tables, store, alarmService`alarms, alarmService`records, alarmService`history
      ensures Valid()
      ensures result.Raised? <==> (!old(isOpen) && !opens) || BuildRequests(config).ValueError?
      ensures result.Raised? ==> events == old(events) && tables.log == old(tables.log)
      ensures result.Polled? ==> AllPollable(BuildRequests(config).value)
      ensures result.Polled? ==>
                PassState(old(events), BuildRequests(config).value, exchanges, |exchanges|, events,
                          result.valid, result.offline, result.failureCount)
      ensures result.Polled? ==> PassEvents(events, old(events), BuildRequests(config).value)
      ensures result.Polled? ==> |result.valid| + result.invalidCount + result.failureCount == |exchanges|
      ensures Fed(PublishedBy(result))
      ensures result.Polled? ==>
                MarkedBoth(old(tables.snapshots), tables.snapshots, result.valid, result.offline)
      ensures result.Polled? ==>
                Recorded(old(flow), old(written), old(lastRecord), old(tables.records), result.valid, now,
                  result.offline, later)
    {
      if !isOpen {
        Open(opens);
        if !isOpen {
          return Raised;
        }
      }
      var built := BuildRequests(config);
      if built.ValueError? {
        return Raised;
      }
      var valid, offlineReadings, invalidCount, failureCount := CollectBuilt(built.value, exchanges);
      PublishPass(valid, offlineReadings, now, later);
      result := Polled(valid, offlineReadings, invalidCount, failureCount);
    }

    /** One pass of run(); raised says that an exception ends the loop. */
    method NextPass(p: Pass) returns (raised: bool, ghost published: seq<DeviceReading>)
      requires Valid()
      requires BuildRequests(config).Ok? ==> |p.exchanges| == |BuildRequests(config).value|
      modifies this, tables, store, alarmService`alarms, alarmService`records, alarmService`history
      ensures Valid() && Fed(published)
    {
      var result := PollOnce(p.exchanges, p.opens, p.now, p.later);
      return result.Raised?, PublishedBy(result);
    }

    /** run(): opens the port and polls until it is told to stop or a pass raises, then closes it.
        published is everything that went to the stores. */
    method Run(passes: seq<Pass>, opens: bool) returns (ghost published: seq<DeviceReading>)
      requires Valid()
      requires BuildRequests(config).Ok? ==> forall p :: p in passes ==> |p.exchanges| == |BuildRequests(config).value|
      modifies this, tables, store, alarmService`alarms, alarmService`records, alarmService`history
      ensures Valid() && !isOpen && Fed(published)
    {
      published := [];
      ghost var start := StoreLogs(tables.log, store.log, alarmService.history, written, FlowOf(tables.records));
      Open(opens);
      if isOpen {
        for k := 0 to |passes|
          invariant Valid() && Fed(published)
        {
          assert passes[k] in passes;
          ghost var before := StoreLogs(tables.log, store.log, alarmService.history, written, FlowOf(tables.records));
          var raised;
          ghost var more;
          raised, more := NextPass(passes[k]);
          ghost var after := StoreLogs(tables.log, store.log, alarmService.history, written, FlowOf(tables.records));
          FedGrows(start, before, after, published, more);
          published := published + more;
          if raised {
            break;
          }
        }
      }
      isOpen := false;
    }

    /** The end of poll_once: valid readings first, offline readings after them. */
    method PublishPass(valid: seq<DeviceReading>, offlineReadings: seq<DeviceReading>, now: real, later: real)
      requires StoresValid() && Counted()
      requires IsGathered(alarmService.history, valid, offlineReadings, offline)
      modifies this`lastRecord, this`flow, this`written
      modifies tables, store, alarmService`alarms, alarmService`records, alarmService`history
      ensures Published() && Fed(valid + offlineReadings)
      ensures MarkedBoth(old(tables.snapshots), tables.snapshots, valid, offlineReadings)
      ensures Recorded(old(flow), old(written), old(lastRecord), old(tables.records), valid, now, offlineReadings,
                later)
    {
      OfflineNeeded(alarmService.history, valid, offlineReadings, offline);
      PublishFed(valid, offlineReadings, now, later);
      assert alarmService.history == old(alarmService.history) + valid + offlineReadings;
    }

    method PublishFed(valid: seq<DeviceReading>, offlineReadings: seq<DeviceReading>, now: real, later: real)
      requires StoresValid() && HaveIds(valid) && HaveIds(offlineReadings)
      modifies this`lastRecord, this`flow, this`written
      modifies tables, store, alarmService`alarms, alarmService`records, alarmService`history
      ensures StoresValid() && Fed(valid + offlineReadings)
      ensures MarkedBoth(old(tables.snapshots), tables.snapshots, valid, offlineReadings)
      ensures Recorded(
                old(flow), old(written), old(lastRecord), old(tables.records), valid, now, offlineReadings, later)
    {
      FlowOfTwoAdded(tables.records, DueOf(lastRecord, valid, now),
                     DueOf(LastAfter(lastRecord, intervals, Stamp(valid, now)), offlineReadings, later), written);
      PublishBatches(valid, offlineReadings, now, later);
    }

    method PublishBatches(valid: seq<DeviceReading>, offlineReadings: seq<DeviceReading>, now: real, later: real)
      requires StoresValid() && HaveIds(valid) && HaveIds(offlineReadings)
      modifies this`lastRecord, this`flow, this`written
      modifies tables, store, alarmService`alarms, alarmService`records, alarmService`history
      ensures StoresValid()
      ensures tables.log == old(tables.log) + valid + offlineReadings
      ensures store.log == old(store.log) + valid + offlineReadings
      ensures alarmService.history == old(alarmService.history) + valid + offlineReadings
      ensures MarkedBoth(old(tables.snapshots), tables.snapshots, valid, offlineReadings)
      ensures Recorded(old(flow), old(written), old(lastRecord), old(tables.records), valid, now, offlineReadings,
                later)
    {
      PublishSome(valid, ValidQuality, now);
      ghost var between := tables.snapshots;
      PublishSome(offlineReadings, OfflineQuality, later);
      MarkedTwice(old(tables.snapshots), between, tables.snapshots, valid, offlineReadings);
    }

    /** Nothing is published when there is nothing. */
    method PublishSome(readings: seq<DeviceReading>, quality: Quality, now: real)
      requires StoresValid() && HaveIds(readings)
      modifies this`lastRecord, this`flow, this`written
      modifies tables, store, alarmService`alarms, alarmService`records, alarmService`history
      ensures StoresValid()
      ensures tables.log == old(tables.log) + readings
      ensures store.log == old(store.log) + readings
      ensures alarmService.history == old(alarmService.history) + readings
      ensures flow == old(flow) + Stamp(readings, now)
      ensures written == old(written) + DueOf(old(lastRecord), readings, now)
      ensures tables.records == old(tables.records) + AsRecords(DueOf(old(lastRecord), readings, now), quality)
      ensures Marked(old(tables.snapshots), tables.snapshots, readings, quality)
      ensures lastRecord == LastAfter(old(lastRecord), intervals, Stamp(readings, now))
    {
      NothingDue(lastRecord, intervals, now);
      if readings != [] {
        PersistAndPublish(readings, quality, now);
      }
    }

    /** Where the loop over the requests stands after k of them. */
    predicate PassState(
      before: seq<Event>, requests: seq<PollRequest>, exchanges: seq<Exchange>, k: nat,
      now: seq<Event>, valid: seq<DeviceReading>, offlineReadings: seq<DeviceReading>, failureCount: nat)
      requires k <= |requests| == |exchanges| && AllPollable(requests)
    {
      && now == before + PassHistory(requests, exchanges, k)
      && valid == PassValid(requests, exchanges, k)
      && offlineReadings == PassOffline(before, requests, exchanges, k)
      && failureCount == FailuresIn(PassHistory(requests, exchanges, k))
    }

    lemma {:induction false} PassStateNext(
      before: seq<Event>, requests: seq<PollRequest>, exchanges: seq<Exchange>, k: nat,
      now: seq<Event>, valid: seq<DeviceReading>, offlineReadings: seq<DeviceReading>, failureCount: nat,
      outcome: Outcome, readings: seq<DeviceReading>, more: seq<DeviceReading>)
      requires k < |requests| == |exchanges| && AllPollable(requests) && requests[k] in requests
      requires PassState(before, requests, exchanges, k, now, valid, offlineReadings, failureCount)
      requires outcome == OutcomeOf(requests[k], AnswerTo(PassHistory(requests, exchanges, k), exchanges[k]),
                 exchanges[k].parsedAt)
      requires readings == Valids(requests[k], AnswerTo(PassHistory(requests, exchanges, k), exchanges[k]),
                 exchanges[k].parsedAt)
      requires more == OfflineAfter(now + [Event(requests[k].detectorId.value, outcome)], requests[k],
                 exchanges[k].parsedAt)
      ensures var e := Event(requests[k].detectorId.value, outcome);
              && PassState(before, requests, exchanges, k + 1, now + [e], valid + readings, offlineReadings + more,
                           failureCount + if outcome.ChannelFailure? then 1 else 0)
              && (LinkFailed(PassHistory(requests, exchanges, k + 1))
                  <==> LinkFailed(PassHistory(requests, exchanges, k)) || IsLinkFailure(e))
    {
      var e := Event(requests[k].detectorId.value, outcome);
      PassHistoryNext(requests, exchanges, k, e);
      assert now + [e] == before + PassHistory(requests, exchanges, k + 1);
    }

    /** What the counts say of the offline set. */
    lemma {:induction false} CountedOffline()
      requires Counted()
      ensures forall d :: d in offline <==> TrailingFailures(events, d) >= Threshold(config.failureThreshold)
    {
      forall d
        ensures d in offline <==> TrailingFailures(events, d) >= Threshold(config.failureThreshold)
      {
        assert CountsMatch(failures, offline, events, config.failureThreshold, d);
      }
    }

    /** The requests of the configuration, collected. */
    method CollectBuilt(requests: seq<PollRequest>, exchanges: seq<Exchange>)
      returns (valid: seq<DeviceReading>, offlineReadings: seq<DeviceReading>, invalidCount: nat, failureCount: nat)
      requires Published() && OfflineIsConfigured() && |exchanges| == |requests|
      requires BuildRequests(config) == Ok(requests)
      modifies this`isOpen, this`consecutiveFailures, this`failures, this`offline, this`events
      ensures StoresValid() && Counted() && OfflineIsConfigured() && AllPollable(requests)
      ensures PassState(old(events), requests, exchanges, |requests|, events, valid, offlineReadings, failureCount)
      ensures PassEvents(events, old(events), requests)
      ensures |valid| + invalidCount + failureCount == |requests|
      ensures IsGathered(alarmService.history, valid, offlineReadings, offline)
    {
      ghost var away := offline;
      CountedOffline();
      valid, offlineReadings, invalidCount, failureCount := CollectPass(requests, exchanges);
      CountedOffline();
      PassConfigured(config, old(events), exchanges, away, offline);
      PassHistoryEvents(old(events), requests, exchanges, |exchanges|);
      assert requests[..|exchanges|] == requests;
    }

    /** What the loop of poll_once has collected after k requests. */
    ghost predicate Collected(
      start: seq<Event>, requests: seq<PollRequest>, exchanges: seq<Exchange>, k: nat, c: Collection)
      requires k <= |requests| == |exchanges| && AllPollable(requests)
      reads this, tables, store, alarmService
    {
      && StoresValid() && Counted()
      && |c.valid| + c.invalidCount + c.failureCount == k
      && IsGathered(alarmService.history, c.valid, c.offline, offline)
      && PassState(start, requests, exchanges, k, events, c.valid, c.offline, c.failureCount)
      && c.channelOpen == !LinkFailed(PassHistory(requests, exchanges, k))
    }

    /** The loop of poll_once over the requests. */
    method CollectPass(requests: seq<PollRequest>, exchanges: seq<Exchange>)
      returns (valid: seq<DeviceReading>, offlineReadings: seq<DeviceReading>, invalidCount: nat, failureCount: nat)
      requires Published() && |exchanges| == |requests| && AllPollable(requests)
      modifies this`isOpen, this`consecutiveFailures, this`failures, this`offline, this`events
      ensures StoresValid() && Counted()
      ensures PassState(old(events), requests, exchanges, |requests|, events, valid, offlineReadings, failureCount)
      ensures |valid| + invalidCount + failureCount == |requests|
      ensures IsGathered(alarmService.history, valid, offlineReadings, offline)
    {
      NothingGathered(alarmService.history, offline);
      var c := Collection([], [], 0, 0, true);
      for k := 0 to |requests|
        invariant Collected(old(events), requests, exchanges, k, c)
      {
        c := CollectNext(old(events), requests, exchanges, k, c);
      }
      valid, offlineReadings, invalidCount, failureCount := c.valid, c.offline, c.invalidCount, c.failureCount;
    }

    /** One turn of the loop. */
    method CollectNext(
      ghost start: seq<Event>, requests: seq<PollRequest>, exchanges: seq<Exchange>, k: nat, c: Collection)
      returns (next: Collection)
      requires k < |requests| == |exchanges| && AllPollable(requests) && Collected(start, requests, exchanges, k, c)
      modifies this`isOpen, this`consecutiveFailures, this`failures, this`offline, this`events
      ensures Collected(start, requests, exchanges, k + 1, next)
    {
      assert requests[k] in requests;
      ghost var before, offlineBefore := events, offline;
      var readings, more, outcome, stillOpen := PollRequest(requests[k], exchanges[k], c.channelOpen);
      PassStateNext(start, requests, exchanges, k, before, c.valid, c.offline, c.failureCount, outcome, readings, more);
      OfflineSteps(alarmService.history, c.valid, c.offline, requests[k].detectorId.value, outcome,
                   readings, more, offlineBefore, offline);
      next := Collection(c.valid + readings, c.offline + more,
                         c.invalidCount + if outcome.InvalidResponse? then 1 else 0,
                         c.failureCount + if outcome.ChannelFailure? then 1 else 0, stillOpen);
    }
  }

  /** What one exchange with detector d may add. */
  predicate PollAdds(d: int, outcome: Outcome, readings: seq<DeviceReading>, more: seq<DeviceReading>,
                     before: set<int>, after: set<int>)
  {
    && d > 0
    && |readings| == (if outcome.ValidResponse? then 1 else 0)
    && (forall r :: r in readings + more ==> r.detectorId == d)
    && AllOffline(more)
    && match outcome
       case ValidResponse => after == before - {d} && more == []
       case InvalidResponse => after == before && more == []
       case ChannelFailure(_) => after == (if more == [] then before else before + {d})
  }

  lemma {:induction false} OfflineStep(history: Log, valid: seq<DeviceReading>, offline: seq<DeviceReading>, d: int,
                                       outcome: Outcome, readings: seq<DeviceReading>, more: seq<DeviceReading>,
                                       before: set<int>, after: set<int>, k: int)
    requires PollAdds(d, outcome, readings, more, before, after) && k in after
    requires k in before ==> WillBeOffline(history, valid, offline, k)
    ensures WillBeOffline(history, valid + readings, offline + more, k)
  {
    if k !in before || (k == d && more != []) {
      assert more[0] in readings + more;
      assert more[0] in offline + more && more[0].detectorId == k;
    } else if Mentions(offline, k) {
      var r :| r in offline && r.detectorId == k;
      assert r in offline + more;
    } else {
      forall r | r in valid + readings
        ensures r.detectorId != k
      {
        if r in readings {
          assert r in readings + more;
        }
      }
    }
  }

  /** What a pass has gathered is usable, and publishing it leaves every detector of the set offline. */
  ghost predicate IsGathered(history: Log, valid: seq<DeviceReading>, offline: seq<DeviceReading>, away: set<int>) {
    && AllOffline(offline) && HaveIds(valid) && HaveIds(offline)
    && (forall d :: d in away ==> WillBeOffline(history, valid, offline, d))
  }

  lemma {:induction false} NothingGathered(history: Log, away: set<int>)
    requires forall d :: d in away ==> NeedsOffline(history, d)
    ensures IsGathered(history, [], [], away)
  {
  }

  lemma {:induction false} OfflineSteps(history: Log, valid: seq<DeviceReading>, offline: seq<DeviceReading>, d: int,
                                        outcome: Outcome, readings: seq<DeviceReading>, more: seq<DeviceReading>,
                                        before: set<int>, after: set<int>)
    requires PollAdds(d, outcome, readings, more, before, after)
    requires IsGathered(history, valid, offline, before)
    ensures IsGathered(history, valid + readings, offline + more, after)
  {
    assert forall r :: r in readings || r in more ==> r in readings + more;
    forall k | k in after
      ensures WillBeOffline(history, valid + readings, offline + more, k)
    {
      OfflineStep(history, valid, offline, d, outcome, readings, more, before, after, k);
    }
  }

  function WithoutInvalid(readings: seq<DeviceReading>): (rs: seq<DeviceReading>)
    ensures forall r :: r in rs ==> r in readings && !r.status.Invalid?
    ensures |readings| == 1 ==> rs == if readings[0].status.Invalid? then [] else readings
  {
    if |readings| == 0 then []
    else
      var last := readings[|readings| - 1];
      WithoutInvalid(readings[..|readings| - 1]) + if last.status.Invalid? then [] else [last]
  }

  /** Some event of the pass was a link error, so the channel the pass holds is closed. */
  predicate LinkFailed(pass: seq<Event>) {
    exists i :: 0 <= i < |pass| && IsLinkFailure(pass[i])
  }

  predicate IsLinkFailure(e: Event) {
    e.outcome.ChannelFailure? && IsLinkError(e.outcome.code)
  }

  /** The events of a pass: one for each request, in order; and from the first link error on,
      every later request of the pass fails too, even if the port was reopened. */
  ghost predicate PassEvents(events: seq<Event>, before: seq<Event>, requests: seq<PollRequest>) {
    && |events| == |before| + |requests|
    && events[..|before|] == before
    && (forall k :: 0 <= k < |requests| ==> Some(events[|before| + k].detectorId) == requests[k].detectorId)
    && (forall i, j :: |before| <= i < j < |events| && IsLinkFailure(events[i]) ==>
          events[j].outcome == ChannelFailure(NotOpen))
  }

  lemma {:induction false} PassHistoryNext(requests: seq<PollRequest>, exchanges: seq<Exchange>, k: nat, e: Event)
    requires k < |requests| == |exchanges| && AllPollable(requests) && requests[k] in requests
    requires e.detectorId == requests[k].detectorId.value
    requires e.outcome == OutcomeOf(requests[k], AnswerTo(PassHistory(requests, exchanges, k), exchanges[k]),
               exchanges[k].parsedAt)
    ensures PassHistory(requests, exchanges, k + 1) == PassHistory(requests, exchanges, k) + [e]
    ensures FailuresIn(PassHistory(requests, exchanges, k + 1))
            == FailuresIn(PassHistory(requests, exchanges, k)) + if e.outcome.ChannelFailure? then 1 else 0
    ensures LinkFailed(PassHistory(requests, exchanges, k + 1))
            <==> LinkFailed(PassHistory(requests, exchanges, k)) || IsLinkFailure(e)
  {
    FailuresExtend(PassHistory(requests, exchanges, k), e);
    LinkFailedExtend(PassHistory(requests, exchanges, k), e);
  }

  lemma {:induction false} TrailingUnmentioned(before: seq<Event>, pass: seq<Event>, d: int)
    requires forall e :: e in pass ==> e.detectorId != d
    ensures TrailingFailures(before + pass, d) == TrailingFailures(before, d)
    decreases |pass|
  {
    if |pass| == 0 {
      assert before + pass == before;
    } else {
      var front, last := pass[..|pass| - 1], pass[|pass| - 1];
      TrailingUnmentioned(before, front, d);
      TrailingExtend(before + front, last, d);
      assert before + pass == (before + front) + [last];
    }
  }

  lemma {:induction false} PassMentionsRequests(requests: seq<PollRequest>, exchanges: seq<Exchange>, k: nat)
    requires k <= |requests| == |exchanges| && AllPollable(requests)
    ensures forall e :: e in PassHistory(requests, exchanges, k) ==>
              exists q :: q in requests && q.detectorId == Some(e.detectorId)
  {
    if k > 0 {
      PassMentionsRequests(requests, exchanges, k - 1);
      assert requests[k - 1] in requests;
    }
  }

  /** Detectors that a pass takes into the offline set are configured. */
  lemma {:induction false} PassConfigured(
    config: PortPollingConfig, before: seq<Event>, exchanges: seq<Exchange>, away: set<int>, offline: set<int>)
    requires BuildRequests(config).Ok? && |exchanges| == |BuildRequests(config).value|
    requires AllPollable(BuildRequests(config).value)
    requires forall d :: d in away <==> TrailingFailures(before, d) >= Threshold(config.failureThreshold)
    requires forall d :: d in offline <==>
               TrailingFailures(before + PassHistory(BuildRequests(config).value, exchanges, |exchanges|), d)
               >= Threshold(config.failureThreshold)
    requires forall d :: d in away ==> IsConfigured(config, |config.groups|, d)
    ensures forall d :: d in offline ==> IsConfigured(config, |config.groups|, d)
  {
    var requests := BuildRequests(config).value;
    var pass := PassHistory(requests, exchanges, |exchanges|);
    PassMentionsRequests(requests, exchanges, |exchanges|);
    RequestsAreConfigured(config, |config.groups|);
    forall d | d in offline
      ensures IsConfigured(config, |config.groups|, d)
    {
      if e :| e in pass && e.detectorId == d {
        var q: PollRequest :| q in requests && q.detectorId == Some(d);
      } else {
        TrailingUnmentioned(before, pass, d);
        assert d in away;
      }
    }
  }

  lemma {:induction false} LinkFailedExtend(pass: seq<Event>, e: Event)
    ensures LinkFailed(pass + [e]) <==> LinkFailed(pass) || IsLinkFailure(e)
  {
    var more := pass + [e];
    if LinkFailed(pass) {
      var i :| 0 <= i < |pass| && IsLinkFailure(pass[i]);
      assert IsLinkFailure(more[i]);
    }
    if IsLinkFailure(e) {
      assert IsLinkFailure(more[|pass|]);
    }
  }

  /** The events of a pass as its definition makes them: one for each request, in order; and
      from the first link error on every later request fails as not open. */
  lemma {:induction false} PassHistoryEvents(
    before: seq<Event>, requests: seq<PollRequest>, exchanges: seq<Exchange>, k: nat)
    requires k <= |requests| == |exchanges| && AllPollable(requests)
    ensures PassEvents(before + PassHistory(requests, exchanges, k), before, requests[..k])
  {
    if k == 0 {
      assert before + [] == before;
    } else {
      PassHistoryEvents(before, requests, exchanges, k - 1);
      var pass, now := PassHistory(requests, exchanges, k - 1), PassHistory(requests, exchanges, k);
      assert requests[k - 1] in requests;
      assert (before + pass)[|before|..] == pass;
      assert before + now == (before + pass) + [now[k - 1]];
      PassExtends(before + pass, before, now[k - 1], requests, k - 1);
    }
  }

  lemma {:induction false} PassExtends(
    events: seq<Event>, before: seq<Event>, e: Event, requests: seq<PollRequest>, k: nat)
    requires k < |requests| && PassEvents(events, before, requests[..k])
    requires Some(e.detectorId) == requests[k].detectorId
    requires LinkFailed(events[|before|..]) ==> e.outcome == ChannelFailure(NotOpen)
    ensures PassEvents(events + [e], before, requests[..k + 1])
    ensures LinkFailed((events + [e])[|before|..]) <==> LinkFailed(events[|before|..]) || IsLinkFailure(e)
  {
    var pass := events[|before|..];
    var pass' := (events + [e])[|before|..];
    assert pass' == pass + [e];
    if LinkFailed(pass) {
      var i :| 0 <= i < |pass| && IsLinkFailure(pass[i]);
      assert IsLinkFailure(pass'[i]);
    }
    if IsLinkFailure(e) {
      assert IsLinkFailure(pass'[|pass|]);
    }
    forall i | |before| <= i < |events| && IsLinkFailure(events[i])
      ensures LinkFailed(pass)
    {
      assert IsLinkFailure(pass[i - |before|]);
    }
  }

  /* ---------- The records of a worker ---------- */

  /** Whatever a worker has polled, the records it has written of a detector are the greedy thinning
      of the detector's readings by the configured number of seconds, and the first is there. */
  lemma {:induction false} WrittenIsThinning(w: PortWorker, d: int, seconds: int)
    requires w.Valid() && IsInterval(w.config, d, seconds)
    ensures seconds >= 1 && OfDetector(w.written, d) == Thin(OfDetector(w.flow, d), seconds)
    ensures OfDetector(w.flow, d) != [] ==>
              OfDetector(w.written, d) != [] && OfDetector(w.written, d)[0] == OfDetector(w.flow, d)[0]
  {
    IntervalIsConfigured(w.config, d, seconds);
    RecordsAreThinning(w.intervals, w.flow, d);
    if OfDetector(w.flow, d) != [] {
      FirstIsKept(w.intervals, w.flow, d);
    }
  }

  /** A window of time holds no more of them than floor(span / seconds) + 1. */
  lemma {:induction false} WrittenInWindow(w: PortWorker, d: int, seconds: int, i: nat, j: nat, span: real)
    requires w.Valid() && IsInterval(w.config, d, seconds) && i <= j < |OfDetector(w.written, d)|
    requires OfDetector(w.written, d)[j].at - OfDetector(w.written, d)[i].at <= span
    ensures seconds >= 1 && j - i + 1 <= (span / seconds as real).Floor + 1
  {
    WrittenIsThinning(w, d, seconds);
    WindowBound(OfDetector(w.flow, d), seconds, i, j, span);
  }

  /** Every detector has one such number of seconds. */
  lemma {:induction false} IntervalExists(config: PortPollingConfig, d: int) returns (seconds: int)
    ensures IsInterval(config, d, seconds)
    ensures forall other :: IsInterval(config, d, other) ==> other == seconds
  {
    if IsConfigured(config, |config.groups|, d) {
      var g, t := LastTargetOf(config, |config.groups|, d);
      seconds := AtLeastOne(config.groups[g].targets[t].storeIntervalSec);
    } else {
      seconds := 60;
    }
    forall other | IsInterval(config, d, other)
      ensures other == seconds
    {
      IntervalIsConfigured(config, d, other);
      IntervalIsConfigured(config, d, seconds);
    }
  }

  lemma {:induction false} LastTargetOf(config: PortPollingConfig, n: nat, d: int) returns (g: nat, t: nat)
    requires n <= |config.groups| && IsConfigured(config, n, d)
    requires forall h :: n <= h < |config.groups| ==> !Targets(config.groups[h].targets, d)
    ensures IsLastTarget(config, g, t, d)
  {
    if Targets(config.groups[n - 1].targets, d) {
      g := n - 1;
      t := LastIn(config.groups[g].targets, d);
    } else {
      g, t := LastTargetOf(config, n - 1, d);
    }
  }

  lemma {:induction false} LastIn(targets: seq<PollingTarget>, d: int) returns (t: nat)
    requires Targets(targets, d)
    ensures t < |targets| && targets[t].target.detectorId == d && !Targets(targets[t + 1..], d)
  {
    var n := |targets| - 1;
    if targets[n].target.detectorId == d {
      t := n;
    } else {
      var i :| 0 <= i < |targets| && targets[i].target.detectorId == d;
      assert targets[..n][i].target.detectorId == d;
      t := LastIn(targets[..n], d);
      var all, front := targets[t + 1..], targets[..n][t + 1..];
      forall u | 0 <= u < |all|
        ensures all[u].target.detectorId != d
      {
        assert u < |front| ==> front[u].target.detectorId != d;
      }
    }
  }

  /** The offline reading of a detector names the addresses of its last target, and no value. */
  lemma {:induction false} OfflineReadingIs(w: PortWorker, request: PollRequest, now: int, g: nat, t: nat)
    requires request.detectorId.Some? && IsLastTarget(w.config, g, t, request.detectorId.value)
    ensures var r, target := w.OfflineReading(request, now), w.config.groups[g].targets[t].target;
            && r.status == Offline && r.detectorId == target.detectorId == request.detectorId.value
            && r.detectorAddress == target.detectorAddress && r.controllerAddress == target.controllerAddress
            && r.controllerId == request.controllerId && r.portId == request.portId
            && r.sourceType == request.sourceType && r.protocol == request.protocol && r.timestamp == now
            && r.concentration == None && r.alarmLevel == None && r.gasType == None && r.unit == None
            && r.rawStatus == RawText("offline")
  {
    LastTargetDecides(w.config, |w.config.groups|, g, t, request.detectorId.value);
  }
}
