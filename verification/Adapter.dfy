/** The adapter a port is configured with, seen by the worker that polls through it. */
module Adapter {
  import opened Crc
  import opened Models
  import opened Modbus
  import Protocol1
  import Protocol2

  datatype PollingTarget = PollingTarget(target: PollTarget, storeIntervalSec: int)

  datatype PortTargetGroup = PortTargetGroup(sourceType: SourceType, targets: seq<PollingTarget>)

  datatype PortPollingConfig = PortPollingConfig(
    portId: int,
    protocol: ProtocolMode,
    groups: seq<PortTargetGroup>,
    timeoutMs: int,
    failureThreshold: int)

  function RequestForTarget(context: PollBuildContext, target: PollTarget): Result<PollRequest> {
    match context.protocol
    case Protocol1Mode => Protocol1.RequestForTarget(context, target)
    case Protocol2Mode => Protocol2.RequestForTarget(context, target)
  }

  /** What a request built for one target looks like; the adapters need it to parse. */
  predicate Pollable(r: PollRequest) {
    && ValidRequest(r)
    && r.startRegister >= 0
    && r.registerCount >= 1
    && r.detectorId.Some?
    && match r.protocol
       case Protocol1Mode =>
         r.sourceType.Controller? ==> r.registerCount == 2 && r.startRegister / 2 + 1 <= 255
       case Protocol2Mode =>
         r.registerCount == 4 && (r.sourceType.Controller? ==> r.startRegister / 4 + 1 <= 255)
  }

  function Validate(request: PollRequest, response: Bytes): Verdict
    requires Pollable(request)
  {
    match request.protocol
    case Protocol1Mode => Protocol1.Validate(request, response)
    case Protocol2Mode => Protocol2.Validate(request, response)
  }

  function Parse(request: PollRequest, response: Bytes, now: int): Result<seq<DeviceReading>>
    requires Pollable(request)
  {
    match request.protocol
    case Protocol1Mode => Protocol1.Parse(request, response, now)
    case Protocol2Mode => Protocol2.Parse(request, response, now)
  }

  method ValidateResponse(request: PollRequest, response: Bytes) returns (verdict: Verdict)
    requires Pollable(request)
    ensures verdict == Validate(request, response)
  {
    match request.protocol
    case Protocol1Mode => verdict := Protocol1.ValidateResponse(request, response);
    case Protocol2Mode => verdict := Protocol2.ValidateResponse(request, response);
  }

  method ParseResponse(request: PollRequest, response: Bytes, now: int) returns (result: Result<seq<DeviceReading>>)
    requires Pollable(request)
    ensures result == Parse(request, response, now)
  {
    match request.protocol
    case Protocol1Mode => result := Protocol1.ParseResponse(request, response, now);
    case Protocol2Mode => result := Protocol2.ParseResponse(request, response, now);
  }

  lemma {:induction false} TargetRequestsArePollable(context: PollBuildContext, target: PollTarget)
    requires ValidTarget(target) && RequestForTarget(context, target).Ok?
    ensures Pollable(RequestForTarget(context, target).value)
    ensures var r := RequestForTarget(context, target).value;
            && r.detectorId == Some(target.detectorId) && r.protocol == context.protocol
            && r.sourceType == context.sourceType && r.portId == context.portId &&
               r.timeoutMs == context.defaultTimeoutMs
  {
    match context.protocol
    case Protocol1Mode =>
      Protocol1.RequestFields(context, target);
      Protocol1.TargetAsks(context, target);
    case Protocol2Mode =>
      Protocol2.RequestFields(context, target);
      Protocol2.TargetAsks(context, target);
  }

  /** A polled request never makes the parser raise, and whatever is accepted is one reading
      of the detector that was polled. */
  lemma {:induction false} PolledReadingIsOwn(request: PollRequest, response: Bytes, now: int)
    requires Pollable(request) && Validate(request, response).Accepted?
    ensures Parse(request, response, now).Ok?
    ensures |Parse(request, response, now).value| == 1
    ensures Parse(request, response, now).value[0].detectorId == request.detectorId.value
  {
    match request.protocol
    case Protocol1Mode =>
      var reading := Protocol1.OneReading(request, response, now);
    case Protocol2Mode =>
      var b := Protocol2.OneReading(request, response, now);
  }

  /* ---------- The requests of one pass ---------- */

  /** The request is for this target, over this port in this protocol. */
  predicate IsRequestFor(r: PollRequest, context: PollBuildContext, target: PollTarget) {
    && r.detectorId == Some(target.detectorId) && r.protocol == context.protocol
    && r.sourceType == context.sourceType && r.portId == context.portId && r.timeoutMs == context.defaultTimeoutMs
  }

  /** build_poll_requests for the first n targets of a context. */
  function ContextRequests(context: PollBuildContext, n: nat): (r: Result<seq<PollRequest>>)
    requires n <= |context.targets| && (forall t :: t in context.targets ==> ValidTarget(t))
    ensures r.Ok? ==> |r.value| == n
    ensures r.Ok? ==> forall k :: 0 <= k < n ==>
                        Pollable(r.value[k]) && IsRequestFor(r.value[k], context, context.targets[k])
  {
    if n == 0 then Ok([])
    else
      match ContextRequests(context, n - 1)
      case ValueError => ValueError
      case Ok(requests) =>
        match RequestForTarget(context, context.targets[n - 1])
        case ValueError => ValueError
        case Ok(request) =>
          TargetRequestsArePollable(context, context.targets[n - 1]);
          Ok(requests + [request])
  }

  function ContextOf(config: PortPollingConfig, group: PortTargetGroup): PollBuildContext {
    PollBuildContext(config.protocol, group.sourceType, config.portId,
                     seq(|group.targets|, i requires 0 <= i < |group.targets| => group.targets[i].target),
                     config.timeoutMs)
  }

  /** The requests of the first n groups; a refused target or context raises. */
  function GroupRequests(config: PortPollingConfig, n: nat): (r: Result<seq<PollRequest>>)
    requires n <= |config.groups|
    ensures r.Ok? ==> forall q :: q in r.value ==> Pollable(q)
  {
    if n == 0 then Ok([])
    else
      match GroupRequests(config, n - 1)
      case ValueError => ValueError
      case Ok(requests) =>
        var context := ContextOf(config, config.groups[n - 1]);
        if !ValidContext(context) then ValueError
        else
          match ContextRequests(context, |context.targets|)
          case ValueError => ValueError
          case Ok(more) => Ok(requests + more)
  }

  /** The target has the addresses it is polled through, none of them 0. */
  predicate IsAddressed(sourceType: SourceType, target: PollTarget) {
    && target.detectorAddress.GetOr(0) != 0
    && (sourceType.Controller? ==> target.controllerAddress.GetOr(0) != 0)
  }

  lemma {:induction false} ContextIsPolledIff(context: PollBuildContext, n: nat)
    requires ValidContext(context) && n <= |context.targets|
    ensures ContextRequests(context, n).Ok?
            <==> forall k :: 0 <= k < n ==> IsAddressed(context.sourceType, context.targets[k])
  {
    if n > 0 {
      ContextIsPolledIff(context, n - 1);
      Protocol1.TargetIsPolledIff(context, context.targets[n - 1]);
      Protocol2.TargetIsPolledIff(context, context.targets[n - 1]);
    }
  }

  /** What the configuration of a group must be like. */
  predicate CanBePolled(config: PortPollingConfig, group: PortTargetGroup) {
    && config.portId > 0 && 1 <= config.timeoutMs <= 60_000 && group.targets != []
    && forall t :: 0 <= t < |group.targets| ==> IsGoodTarget(group.sourceType, group.targets[t].target)
  }

  predicate IsGoodTarget(sourceType: SourceType, t: PollTarget) {
    && t.detectorId > 0 && (t.controllerId.Some? ==> t.controllerId.value > 0)
    && (t.detectorAddress.Some? && 1 <= t.detectorAddress.value <= 255)
    && (t.controllerAddress.Some? ==> 0 <= t.controllerAddress.value <= 255)
    && (sourceType.Controller? ==> t.controllerAddress.Some? && t.controllerAddress.value != 0)
  }

  lemma {:induction false} GroupIsPolledIff(config: PortPollingConfig, group: PortTargetGroup)
    ensures CanBePolled(config, group)
            <==> ValidContext(ContextOf(config, group))
                 && ContextRequests(ContextOf(config, group), |group.targets|).Ok?
  {
    var context := ContextOf(config, group);
    assert |context.targets| == |group.targets|;
    forall t | 0 <= t < |group.targets|
      ensures IsGoodTarget(group.sourceType, group.targets[t].target)
              <==> ValidTarget(context.targets[t]) && IsAddressed(context.sourceType, context.targets[t])
    {
    }
    if ValidContext(context) {
      ContextIsPolledIff(context, |context.targets|);
      assert forall t :: 0 <= t < |group.targets| ==> context.targets[t] in context.targets;
    }
    if CanBePolled(config, group) {
      assert ValidContext(context);
    }
  }

  lemma {:induction false} GroupRequestsNext(config: PortPollingConfig, n: nat)
    requires 0 < n <= |config.groups|
    ensures GroupRequests(config, n).Ok?
            <==> GroupRequests(config, n - 1).Ok? && CanBePolled(config, config.groups[n - 1])
  {
    GroupIsPolledIff(config, config.groups[n - 1]);
  }

  predicate AllCanBePolled(config: PortPollingConfig, n: nat)
    requires n <= |config.groups|
  {
    forall g :: 0 <= g < n ==> CanBePolled(config, config.groups[g])
  }

  lemma {:induction false} AllCanBePolledNext(config: PortPollingConfig, n: nat)
    requires 0 < n <= |config.groups|
    ensures AllCanBePolled(config, n) <==> AllCanBePolled(config, n - 1) && CanBePolled(config, config.groups[n - 1])
  {
  }

  /** A port is polled iff every group of its configuration can be. */
  lemma {:induction false} ConfigIsPolledIff(config: PortPollingConfig, n: nat)
    requires n <= |config.groups|
    ensures GroupRequests(config, n).Ok? <==> AllCanBePolled(config, n)
  {
    if n > 0 {
      ConfigIsPolledIff(config, n - 1);
      GroupRequestsNext(config, n);
      AllCanBePolledNext(config, n);
    }
  }

  /** The requests of the last of n groups come after those of the others. */
  lemma {:induction false} GroupRequestsSplit(config: PortPollingConfig, n: nat, requests: seq<PollRequest>)
    returns (before: seq<PollRequest>, more: seq<PollRequest>)
    requires 0 < n <= |config.groups| && GroupRequests(config, n) == Ok(requests)
    ensures requests == before + more && GroupRequests(config, n - 1) == Ok(before)
    ensures ValidContext(ContextOf(config, config.groups[n - 1]))
    ensures ContextRequests(ContextOf(config, config.groups[n - 1]), |config.groups[n - 1].targets|) == Ok(more)
  {
    before := GroupRequests(config, n - 1).value;
    more := ContextRequests(ContextOf(config, config.groups[n - 1]), |config.groups[n - 1].targets|).value;
  }

  /** The detector is one that the port is configured to poll. */
  predicate IsConfigured(config: PortPollingConfig, n: nat, d: int)
    requires n <= |config.groups|
  {
    exists g :: 0 <= g < n && InGroup(config.groups[g], d)
  }

  predicate InGroup(group: PortTargetGroup, d: int) {
    exists t :: 0 <= t < |group.targets| && group.targets[t].target.detectorId == d
  }

  /** Only configured detectors are polled. */
  lemma {:induction false} RequestsAreConfigured(config: PortPollingConfig, n: nat)
    requires n <= |config.groups| && GroupRequests(config, n).Ok?
    ensures forall q :: q in GroupRequests(config, n).value ==>
              q.detectorId.Some? && IsConfigured(config, n, q.detectorId.value)
  {
    if n > 0 {
      RequestsAreConfigured(config, n - 1);
      var before := GroupRequests(config, n - 1).value;
      var context := ContextOf(config, config.groups[n - 1]);
      var more := ContextRequests(context, |context.targets|).value;
      assert GroupRequests(config, n).value == before + more;
      ContextIsConfigured(config, n, more);
      forall q: PollRequest | q in before + more
        ensures q.detectorId.Some? && IsConfigured(config, n, q.detectorId.value)
      {
        if q in before {
          StaysConfigured(config, n - 1, q.detectorId.value);
        } else {
          assert q in more;
        }
      }
    }
  }

  lemma {:induction false} ContextIsConfigured(config: PortPollingConfig, n: nat, more: seq<PollRequest>)
    requires 0 < n <= |config.groups| && ValidContext(ContextOf(config, config.groups[n - 1]))
    requires var context := ContextOf(config, config.groups[n - 1]);
             ContextRequests(context, |context.targets|) == Ok(more)
    ensures forall q :: q in more ==> q.detectorId.Some? && IsConfigured(config, n, q.detectorId.value)
  {
    forall q: PollRequest | q in more
      ensures q.detectorId.Some? && IsConfigured(config, n, q.detectorId.value)
    {
      var k :| 0 <= k < |more| && more[k] == q;
      LastGroupIsConfigured(config, n, k);
    }
  }

  lemma {:induction false} StaysConfigured(config: PortPollingConfig, n: nat, d: int)
    requires n < |config.groups| && IsConfigured(config, n, d)
    ensures IsConfigured(config, n + 1, d)
  {
    var g :| 0 <= g < n && InGroup(config.groups[g], d);
  }

  lemma {:induction false} LastGroupIsConfigured(config: PortPollingConfig, n: nat, k: nat)
    requires 0 < n <= |config.groups| && k < |config.groups[n - 1].targets|
    ensures IsConfigured(config, n, config.groups[n - 1].targets[k].target.detectorId)
  {
    assert InGroup(config.groups[n - 1], config.groups[n - 1].targets[k].target.detectorId);
  }

  function BuildRequests(config: PortPollingConfig): (r: Result<seq<PollRequest>>)
    ensures r.Ok? ==> forall q :: q in r.value ==> Pollable(q)
  {
    GroupRequests(config, |config.groups|)
  }
}
