/** The Protocol 1 adapter: high check byte first; probes answer with fifteen registers,
    controllers with two registers a detector. */
module Protocol1 {
  import opened Crc
  import opened Models
  import opened Modbus
  import Float32

  const PROBE_REGISTER_COUNT := 15
  const CONTROLLER_MAX_REGISTERS := 20

  /* ---------- Requests ---------- */

  predicate RegisterRangeValid(startRegister: int, registerCount: int, sourceType: SourceType) {
    && 0 <= startRegister <= 65535
    && 1 <= registerCount
    && startRegister + registerCount <= 65536
    && (sourceType.Controller? ==>
          registerCount <= CONTROLLER_MAX_REGISTERS && registerCount % 2 == 0 && startRegister % 2 == 0)
  }

  function BuildReadRequest(sourceType: SourceType, portId: int, unitAddress: int, startRegister: int,
                            registerCount: int, timeoutMs: int, detectorId: Option<int>, controllerId: Option<int>)
    : (r: Result<PollRequest>)
    ensures r.Ok? ==> ValidRequest(r.value)
    ensures r.Ok? ==> RegisterRangeValid(r.value.startRegister, r.value.registerCount, r.value.sourceType)
  {
    if !(0 <= unitAddress <= 255) || !RegisterRangeValid(startRegister, registerCount, sourceType) then ValueError
    // A count of 65536 from register 0 passes the range check; its frame holds count mod 65536.
    else
      var frame := AppendCrc16(ReadRequestPayload(unitAddress, startRegister, registerCount % 65536), HighByteFirst);
      var request := PollRequest(Protocol1Mode, sourceType, portId, unitAddress, READ_HOLDING_REGISTERS, frame,
                                 timeoutMs, HighByteFirst, detectorId, controllerId, startRegister, registerCount);
      if ValidRequest(request) then Ok(request) else ValueError
  }

  function RequiredAddress(address: Option<int>): Result<int> {
    if address.Some? && 0 < address.value <= 255 then Ok(address.value) else ValueError
  }

  function RequestForTarget(context: PollBuildContext, target: PollTarget): (r: Result<PollRequest>)
    ensures r.Ok? ==> ValidRequest(r.value)
    ensures r.Ok? ==> RegisterRangeValid(r.value.startRegister, r.value.registerCount, r.value.sourceType)
  {
    if context.sourceType.Probe? then
      match RequiredAddress(target.detectorAddress)
      case ValueError => ValueError
      case Ok(unitAddress) =>
        BuildReadRequest(Probe, context.portId, unitAddress, 0, PROBE_REGISTER_COUNT,
                         context.defaultTimeoutMs, Some(target.detectorId), None)
    else
      match RequiredAddress(target.controllerAddress)
      case ValueError => ValueError
      case Ok(controllerAddress) =>
        match RequiredAddress(target.detectorAddress)
        case ValueError => ValueError
        case Ok(detectorNumber) =>
          BuildReadRequest(Controller, context.portId, controllerAddress, (detectorNumber - 1) * 2, 2,
                           context.defaultTimeoutMs, Some(target.detectorId), target.controllerId)
  }

  /** When a request is built. */
  lemma {:induction false} RequestIsBuiltIff(
    sourceType: SourceType, portId: int, unitAddress: int, startRegister: int, registerCount: int, timeoutMs: int,
    detectorId: Option<int>, controllerId: Option<int>)
    ensures BuildReadRequest(sourceType, portId, unitAddress, startRegister, registerCount, timeoutMs, detectorId,
                             controllerId).Ok?
            <==> && 0 <= unitAddress <= 255 && portId > 0 && 1 <= timeoutMs <= 60_000
                 && PositiveOrNone(detectorId) && PositiveOrNone(controllerId)
                 && 0 <= startRegister && 1 <= registerCount && startRegister + registerCount <= 65536
                 && (sourceType.Controller? ==>
                       registerCount <= 20 && startRegister % 2 == 0 && registerCount % 2 == 0)
  {
    if 0 <= unitAddress <= 255 && RegisterRangeValid(startRegister, registerCount, sourceType) {
      RequestFrameAsks(unitAddress, startRegister, registerCount % 65536, HighByteFirst);
    }
  }

  /** What the frame of a request asks for, and what else it says. */
  lemma {:induction false} RequestAsks(
    sourceType: SourceType, portId: int, unitAddress: int, startRegister: int, registerCount: int, timeoutMs: int,
    detectorId: Option<int>, controllerId: Option<int>, r: PollRequest)
    requires BuildReadRequest(sourceType, portId, unitAddress, startRegister, registerCount, timeoutMs, detectorId,
                              controllerId) == Ok(r)
    ensures AsksFor(r.payload, HighByteFirst, unitAddress, startRegister, registerCount % 65536)
    ensures r.unitAddress == unitAddress && r.functionCode == 3
    ensures r.startRegister == startRegister && r.registerCount == registerCount
    ensures r.portId == portId && r.timeoutMs == timeoutMs
    ensures r.sourceType == sourceType && r.crcByteOrder == HighByteFirst
    ensures r.detectorId == detectorId && r.controllerId == controllerId
  {
    RequestFrameAsks(unitAddress, startRegister, registerCount % 65536, HighByteFirst);
  }

  /** A target can be polled iff it has the addresses it needs, none of them 0. */
  lemma {:induction false} TargetIsPolledIff(context: PollBuildContext, target: PollTarget)
    requires ValidContext(context) && ValidTarget(target)
    ensures RequestForTarget(context, target).Ok?
            <==> && target.detectorAddress.GetOr(0) != 0
                 && (context.sourceType.Controller? ==> target.controllerAddress.GetOr(0) != 0)
  {
    var number := target.detectorAddress.GetOr(0);
    if number != 0 {
      RequestIsBuiltIff(Probe, context.portId, number, 0, 15, context.defaultTimeoutMs, Some(target.detectorId), None);
      RequestIsBuiltIff(Controller, context.portId, target.controllerAddress.GetOr(0), 2 * (number - 1), 2,
                        context.defaultTimeoutMs, Some(target.detectorId), target.controllerId);
    }
  }

  /** A target is polled through its own address: a probe for its registers, a controller for the
      two registers of the detector with the target's number. */
  lemma {:induction false} TargetAsks(context: PollBuildContext, target: PollTarget)
    requires ValidTarget(target) && RequestForTarget(context, target).Ok?
    ensures var r, number := RequestForTarget(context, target).value, target.detectorAddress.GetOr(0);
            && target.detectorAddress.Some? && 1 <= number <= 255
            && r.portId == context.portId && r.timeoutMs == context.defaultTimeoutMs && r.functionCode == 3
            && r.sourceType == context.sourceType && r.detectorId == Some(target.detectorId)
            && (context.sourceType.Probe? ==>
                  && AsksFor(r.payload, HighByteFirst, number, 0, 15)
                  && r.unitAddress == number && r.startRegister == 0 && r.registerCount == 15)
            && (context.sourceType.Controller? ==>
                  && target.controllerAddress.Some? && 1 <= target.controllerAddress.value <= 255
                  && AsksFor(r.payload, HighByteFirst, target.controllerAddress.value, 2 * (number - 1), 2)
                  && r.unitAddress == target.controllerAddress.value && r.controllerId == target.controllerId
                  && r.startRegister == 2 * (number - 1) && r.registerCount == 2)
  {
    var number, r := target.detectorAddress.value, RequestForTarget(context, target).value;
    if context.sourceType.Probe? {
      RequestAsks(Probe, context.portId, number, 0, PROBE_REGISTER_COUNT, context.defaultTimeoutMs,
                  Some(target.detectorId), None, r);
    } else {
      RequestAsks(Controller, context.portId, target.controllerAddress.value, 2 * (number - 1), 2,
                  context.defaultTimeoutMs, Some(target.detectorId), target.controllerId, r);
    }
  }

  /* ---------- Validation ---------- */

  /** Verdict on the first n of the registers at even positions. */
  function FirstVerdict(registers: seq<bv16>, n: nat): Verdict
    requires 2 * n <= |registers|
  {
    if n == 0 then Accepted
    else if FirstVerdict(registers, n - 1).Rejected? then FirstVerdict(registers, n - 1)
    else if registers[2 * n - 2] <= 2 then Accepted
    else Rejected(UnknownStatus)
  }

  function ControllerVerdict(registerCount: int, registers: seq<bv16>): Verdict {
    if registerCount > CONTROLLER_MAX_REGISTERS || registerCount % 2 != 0 then Rejected(InvalidData)
    else FirstVerdict(registers, |registers| / 2)
  }

  function Validate(request: PollRequest, response: Bytes): Verdict
    requires ValidRequest(request)
  {
    var base := ValidateBase(request, response, HighByteFirst);
    if base.Rejected? then base
    else if request.sourceType.Controller?
    then ControllerVerdict(request.registerCount, DataRegisters(response))
    else Accepted
  }

  /** The source's loop over registers[0::2]. */
  method ValidateStatuses(registers: seq<bv16>) returns (verdict: Verdict)
    ensures verdict == FirstVerdict(registers, |registers| / 2)
  {
    for k := 0 to |registers| / 2
      invariant FirstVerdict(registers, k).Accepted?
    {
      if !(registers[2 * k] <= 2) {
        RejectionPersists(registers, k + 1, |registers| / 2);
        return Rejected(UnknownStatus);
      }
    }
    verdict := Accepted;
  }

  method ValidateResponse(request: PollRequest, response: Bytes) returns (verdict: Verdict)
    requires ValidRequest(request)
    ensures verdict == Validate(request, response)
  {
    verdict := ValidateBase(request, response, HighByteFirst);
    if verdict.Rejected? {
      return;
    }
    if request.sourceType.Controller? {
      if request.registerCount > CONTROLLER_MAX_REGISTERS || request.registerCount % 2 != 0 {
        return Rejected(InvalidData);
      }
      verdict := ValidateStatuses(DataRegisters(response));
    }
  }

  lemma {:induction false} RejectionPersists(registers: seq<bv16>, k: nat, n: nat)
    requires k <= n && 2 * n <= |registers| && FirstVerdict(registers, k).Rejected?
    ensures FirstVerdict(registers, n) == FirstVerdict(registers, k)
  {
    if k < n {
      RejectionPersists(registers, k, n - 1);
    }
  }

  predicate KnownStatus(registers: seq<bv16>, k: nat)
    requires 2 * k < |registers|
  {
    registers[2 * k] <= 2
  }

  lemma {:induction false} AllStatusesKnown(registers: seq<bv16>, n: nat)
    requires 2 * n <= |registers|
    ensures FirstVerdict(registers, n).Accepted? <==> (forall k :: 0 <= k < n ==> KnownStatus(registers, k))
  {
    if n > 0 {
      AllStatusesKnown(registers, n - 1);
      assert KnownStatus(registers, n - 1) <==> registers[2 * n - 2] <= 2;
    }
  }

  /* ---------- The reference encoder ---------- */

  /** Registers a device of this kind may send: a controller sends at most ten pairs, each
      led by a status 0, 1 or 2; a probe may send anything. */
  predicate ValidRegisters(sourceType: SourceType, registers: seq<bv16>) {
    sourceType.Controller? ==>
      |registers| <= 20 && |registers| % 2 == 0 &&
      (forall k :: 0 <= k < |registers| / 2 ==> KnownStatus(registers, k))
  }

  predicate Encodes(request: PollRequest, registers: seq<bv16>, response: Bytes)
    requires ValidRequest(request)
  {
    CarriesRegisters(request, response, registers, HighByteFirst) && ValidRegisters(request.sourceType, registers)
  }

  lemma {:induction false} ControllerAccepts(registers: seq<bv16>)
    ensures ControllerVerdict(|registers|, registers).Accepted? <==> ValidRegisters(Controller, registers)
  {
    AllStatusesKnown(registers, |registers| / 2);
  }

  /** After the checks that both protocols share, a probe's response is accepted, and a controller's
      is rejected for more than ten detectors or a broken pair, and then for an unknown status. */
  lemma {:induction false} OwnRejections(request: PollRequest, response: Bytes)
    requires ValidRequest(request) && ValidateBase(request, response, HighByteFirst).Accepted?
    ensures |response| >= 5 && |DataRegisters(response)| == request.registerCount
    ensures Validate(request, response) == Rejected(InvalidData)
            <==> request.sourceType.Controller? && (request.registerCount > 20 || request.registerCount % 2 == 1)
    ensures Validate(request, response) == Rejected(UnknownStatus)
            <==> && request.sourceType.Controller? && request.registerCount <= 20 && request.registerCount % 2 == 0
                 && exists k :: 0 <= k < request.registerCount / 2 && !KnownStatus(DataRegisters(response), k)
  {
    AcceptedIsFrame(request, response, HighByteFirst);
    var registers := DataRegisters(response);
    AllStatusesKnown(registers, |registers| / 2);
    OnlyUnknownStatus(registers, |registers| / 2);
  }

  lemma {:induction false} OnlyUnknownStatus(registers: seq<bv16>, n: nat)
    requires 2 * n <= |registers|
    ensures FirstVerdict(registers, n) in {Accepted, Rejected(UnknownStatus)}
  {
    if n > 0 {
      OnlyUnknownStatus(registers, n - 1);
    }
  }

  lemma {:induction false} AcceptedEncodes(request: PollRequest, response: Bytes)
    requires ValidRequest(request) && Validate(request, response).Accepted?
    ensures |response| >= 5 && Encodes(request, DataRegisters(response), response)
  {
    AcceptedIsFrame(request, response, HighByteFirst);
    ControllerAccepts(DataRegisters(response));
  }

  lemma {:induction false} EncodingAccepted(request: PollRequest, registers: seq<bv16>, response: Bytes)
    requires ValidRequest(request) && Encodes(request, registers, response)
    ensures Validate(request, response).Accepted? && |response| >= 5 && DataRegisters(response) == registers
  {
    FrameIsAccepted(request, registers, HighByteFirst);
    ControllerAccepts(registers);
  }

  /** A response is accepted iff it is the encoding of registers valid for the source. */
  lemma {:induction false} AcceptsExactlyEncodings(request: PollRequest, response: Bytes)
    requires ValidRequest(request)
    ensures Validate(request, response).Accepted? <==> (exists registers :: Encodes(request, registers, response))
  {
    if Validate(request, response).Accepted? {
      AcceptedEncodes(request, response);
    }
    if registers :| Encodes(request, registers, response) {
      EncodingAccepted(request, registers, response);
    }
  }

  /* ---------- Probe data ---------- */

  /** Sign in the top bit, magnitude in the other fifteen (value & 0x7FFF). */
  function SignedMagnitude(r: bv16): int {
    var magnitude := ((RegisterHigh(r) & 0x7F) as int) * 256 + RegisterLow(r) as int;
    if r & 0x8000 != 0 then -magnitude else magnitude
  }

  function ProbeStatus(state: bv8): (DeviceStatus, Option<nat>) {
    if state & 0x80 != 0 then (Invalid, None)
    else if state & 0x40 != 0 then (Warming, None)
    else if state & 0x20 != 0 then (Fault, None)
    else if state & 0x0F != 0 then
      (if state & 0x10 != 0 then AlarmHigh else AlarmLow, Some(HighestAlarmBit(state)))
    else (Normal, None)
  }

  /** max(index + 1 for index in range(4) if alarm_bits & (1 << index)) */
  function HighestAlarmBit(state: bv8): nat
    requires state & 0x0F != 0
  {
    if state & 0x08 != 0 then 4 else if state & 0x04 != 0 then 3 else if state & 0x02 != 0 then 2 else 1
  }

  function AlarmBit(state: bv8, index: nat): bool
    requires index < 4
  {
    match index
    case 0 => state & 0x01 != 0
    case 1 => state & 0x02 != 0
    case 2 => state & 0x04 != 0
    case _ => state & 0x08 != 0
  }

  /** The alarm level names the highest alarm bit that is set, and there is a level exactly
      when the probe is in alarm. */
  lemma {:induction false} AlarmLevelIsHighestBit(state: bv8)
    ensures var (status, level) := ProbeStatus(state);
            && (level.Some? <==> status == AlarmHigh || status == AlarmLow)
            && (level.Some? ==> 1 <= level.value <= 4)
            && (level.Some? ==> AlarmBit(state, level.value - 1))
            && (level.Some? ==> forall i :: level.value <= i < 4 ==> !AlarmBit(state, i))
            && (status == Normal ==> forall i :: 0 <= i < 4 ==> !AlarmBit(state, i))
  {
    assert state & 0x0F == 0
           <==> !AlarmBit(state, 0) && !AlarmBit(state, 1) && !AlarmBit(state, 2) && !AlarmBit(state, 3);
  }

  function Pow10(n: nat): real {
    if n == 0 then 1.0 else 10.0 * Pow10(n - 1)
  }

  lemma {:induction false} Pow10Positive(n: nat)
    ensures Pow10(n) > 0.0
  {
    if n > 0 {
      Pow10Positive(n - 1);
    }
  }

  function GasName(code: bv8): Option<string> {
    if code == 0 then Some("可燃气体") else if code == 1 then Some("一氧化碳CO")
    else if code == 2 then Some("硫化氢H2S") else if code == 3 then Some("氨气NH3")
    else if code == 4 then Some("氯气Cl2") else if code == 5 then Some("氧气O2")
    else if code == 6 then Some("甲烷CH4") else if code == 7 then Some("氢气H2")
    else if code == 46 then Some("二氧化硫 SO2") else None
  }

  function UnitName(code: bv8): Option<string> {
    if code == 0 then Some("无") else if code == 1 then Some("%LEL") else if code == 2 then Some("ppm")
    else if code == 3 then Some("%Vol") else if code == 4 then Some("℃") else if code == 5 then Some("%RH")
    else if code == 6 then Some("%") else None
  }

  /** The fields of the first four registers, absent registers taking the source's defaults. */
  datatype ProbeData = ProbeData(value: int, state: bv8, gas: Option<bv8>, unit: Option<bv8>, decimals: nat)

  function ProbeDataOf(registers: seq<bv16>): ProbeData
    requires |registers| > 0
  {
    ProbeData(
      SignedMagnitude(registers[0]),
      if |registers| > 1 then RegisterHigh(registers[1]) else 0,
      if |registers| > 2 then Some(RegisterHigh(registers[2])) else None,
      if |registers| > 2 then Some(RegisterLow(registers[2])) else None,
      if |registers| > 3 then RegisterHigh(registers[3]) as int else 0)
  }

  function ProbeReading(request: PollRequest, d: ProbeData, now: int): DeviceReading {
    var (status, level) := ProbeStatus(d.state);
    var unusable := d.decimals > 6 || status.Invalid?;
    Pow10Positive(d.decimals);
    DeviceReading(
      Protocol1Mode, Probe, request.portId, None,
      request.detectorId.GetOr(request.unitAddress),
      None, Some(request.unitAddress),
      if unusable then Invalid else status,
      if unusable then None else Some(d.value as real / Pow10(d.decimals)),
      if d.gas.Some? then GasName(d.gas.value) else None,
      if d.unit.Some? then UnitName(d.unit.value) else None,
      if unusable then None else level,
      RawCode(d.state as int), now)
  }

  /* ---------- Controller data ---------- */

  function ControllerStatus(code: bv16): (DeviceStatus, Option<nat>) {
    if code == 0 then (Normal, None) else if code == 1 then (Fault, None) else (AlarmLow, Some(1))
  }

  function DetectorNumber(request: PollRequest, k: nat): int
    requires request.startRegister >= 0
  {
    request.startRegister / 2 + 1 + k
  }

  function ControllerReading(request: PollRequest, code: bv16, value: bv16, k: nat, now: int): DeviceReading
    requires request.startRegister >= 0
  {
    var (status, level) := ControllerStatus(code);
    DeviceReading(
      Protocol1Mode, Controller, request.portId, request.controllerId,
      request.detectorId.GetOr(DetectorNumber(request, k)),
      Some(request.unitAddress), Some(DetectorNumber(request, k)),
      status, Some(value as int as real), None, None, level, RawCode(code as int), now)
  }

  /** The readings of the first n pairs; the first one DeviceReading refuses raises. */
  function FirstReadings(request: PollRequest, registers: seq<bv16>, n: nat, now: int): Result<seq<DeviceReading>>
    requires request.startRegister >= 0 && 2 * n <= |registers|
  {
    if n == 0 then Ok([])
    else
      match FirstReadings(request, registers, n - 1, now)
      case ValueError => ValueError
      case Ok(readings) =>
        var reading := ControllerReading(request, registers[2 * n - 2], registers[2 * n - 1], n - 1, now);
        if ReadingFieldsValid(reading) then Ok(readings + [reading]) else ValueError
  }

  /* ---------- Parsing ---------- */

  /** The reading count is that of the registers requested, so an accepted response to a
      request for at least one register has the first probe register. */
  function Parse(request: PollRequest, response: Bytes, now: int): Result<seq<DeviceReading>>
    requires ValidRequest(request) && request.startRegister >= 0 && request.registerCount >= 1
  {
    if Validate(request, response).Rejected? then Ok([])
    else
      AcceptedEncodes(request, response);
      ParseRegisters(request, DataRegisters(response), now)
  }

  function ParseRegisters(request: PollRequest, registers: seq<bv16>, now: int): Result<seq<DeviceReading>>
    requires request.startRegister >= 0 && registers != []
  {
    if request.sourceType.Probe? then
      var reading := ProbeReading(request, ProbeDataOf(registers), now);
      if ReadingFieldsValid(reading) then Ok([reading]) else ValueError
    else
      FirstReadings(request, registers, |registers| / 2, now)
  }

  /** The source's loop over the register pairs. */
  method ParseController(request: PollRequest, registers: seq<bv16>, now: int)
    returns (result: Result<seq<DeviceReading>>)
    requires request.startRegister >= 0
    ensures result == FirstReadings(request, registers, |registers| / 2, now)
  {
    var readings: seq<DeviceReading> := [];
    for k := 0 to |registers| / 2
      invariant FirstReadings(request, registers, k, now) == Ok(readings)
    {
      var reading := ControllerReading(request, registers[2 * k], registers[2 * k + 1], k, now);
      if !ReadingFieldsValid(reading) {
        ErrorPersists(request, registers, k + 1, |registers| / 2, now);
        return ValueError;
      }
      readings := readings + [reading];
    }
    result := Ok(readings);
  }

  lemma {:induction false} ErrorPersists(request: PollRequest, registers: seq<bv16>, k: nat, n: nat, now: int)
    requires request.startRegister >= 0 && k <= n && 2 * n <= |registers|
    requires FirstReadings(request, registers, k, now).ValueError?
    ensures FirstReadings(request, registers, n, now).ValueError?
  {
    if k < n {
      ErrorPersists(request, registers, k, n - 1, now);
    }
  }

  method ParseResponse(request: PollRequest, response: Bytes, now: int) returns (result: Result<seq<DeviceReading>>)
    requires ValidRequest(request) && request.startRegister >= 0 && request.registerCount >= 1
    ensures result == Parse(request, response, now)
  {
    var verdict := ValidateResponse(request, response);
    if verdict.Rejected? {
      return Ok([]);
    }
    AcceptedEncodes(request, response);
    var registers := DataRegisters(response);
    if request.sourceType.Probe? {
      var reading := ProbeReading(request, ProbeDataOf(registers), now);
      return if ReadingFieldsValid(reading) then Ok([reading]) else ValueError;
    }
    result := ParseController(request, registers, now);
  }

  /* ---------- Controllers: parsing inverts encoding ---------- */

  predicate ReadingsMatch(request: PollRequest, registers: seq<bv16>, readings: seq<DeviceReading>, now: int)
    requires request.startRegister >= 0 && |registers| % 2 == 0
  {
    && 2 * |readings| == |registers|
    && forall k :: 0 <= k < |readings| ==>
         readings[k] == ControllerReading(request, registers[2 * k], registers[2 * k + 1], k, now)
  }

  predicate NumbersFit(request: PollRequest, n: nat)
    requires request.startRegister >= 0
  {
    n > 0 ==> DetectorNumber(request, n - 1) <= 255
  }

  lemma {:induction false} FirstReadingsMatch(request: PollRequest, registers: seq<bv16>, n: nat, now: int)
    requires ValidRequest(request) && request.startRegister >= 0 && 2 * n <= |registers|
    ensures var r := FirstReadings(request, registers, n, now);
            && (r.Ok? <==> NumbersFit(request, n))
            && (r.Ok? ==> ReadingsMatch(request, registers[..2 * n], r.value, now))
  {
    if n > 0 {
      FirstReadingsMatch(request, registers, n - 1, now);
      assert ReadingFieldsValid(ControllerReading(request, registers[2 * n - 2], registers[2 * n - 1], n - 1, now))
             <==> NumbersFit(request, n);
      assert registers[..2 * n][..2 * n - 2] == registers[..2 * n - 2];
    }
  }

  /** Parsing inverts the encoder pair by pair; it raises exactly when the read reaches a
      detector number above 255. */
  lemma {:induction false} ControllerParseInverts(request: PollRequest, registers: seq<bv16>, response: Bytes, now: int)
    requires ValidRequest(request) && request.startRegister >= 0 && request.registerCount >= 1
    requires request.sourceType.Controller? && Encodes(request, registers, response)
    ensures var r := Parse(request, response, now);
            && (r.Ok? <==> NumbersFit(request, |registers| / 2))
            && (r.Ok? ==> ReadingsMatch(request, registers, r.value, now))
  {
    EncodingAccepted(request, registers, response);
    FirstReadingsMatch(request, registers, |registers| / 2, now);
    assert registers[..2 * (|registers| / 2)] == registers;
  }

  lemma {:induction false} ReadingDeterminesPair(
    request: PollRequest, c1: bv16, v1: bv16, c2: bv16, v2: bv16, k: nat, now: int)
    requires request.startRegister >= 0
    requires ControllerReading(request, c1, v1, k, now) == ControllerReading(request, c2, v2, k, now)
    ensures c1 == c2 && v1 == v2
  {
    Float32.SameBits16(c1, c2);
    Float32.SameBits16(v1, v2);
  }

  /** Two accepted controller responses with the same readings are the same frame. */
  lemma {:induction false} ControllerReadingsDetermineResponse(request: PollRequest, r1: Bytes, r2: Bytes, now: int)
    requires ValidRequest(request) && request.startRegister >= 0 && request.registerCount >= 1
    requires request.sourceType.Controller?
    requires Validate(request, r1).Accepted? && Validate(request, r2).Accepted?
    requires Parse(request, r1, now).Ok? && Parse(request, r1, now) == Parse(request, r2, now)
    ensures r1 == r2
  {
    AcceptedEncodes(request, r1);
    AcceptedEncodes(request, r2);
    var d1, d2 := DataRegisters(r1), DataRegisters(r2);
    ControllerParseInverts(request, d1, r1, now);
    ControllerParseInverts(request, d2, r2, now);
    SameReadingsSameRegisters(request, d1, d2, Parse(request, r1, now).value, now);
  }

  lemma {:induction false} SameReadingsSameRegisters(request: PollRequest, d1: seq<bv16>, d2: seq<bv16>,
                                  readings: seq<DeviceReading>, now: int)
    requires request.startRegister >= 0 && |d1| % 2 == 0 && |d2| % 2 == 0
    requires ReadingsMatch(request, d1, readings, now) && ReadingsMatch(request, d2, readings, now)
    ensures d1 == d2
  {
    forall i | 0 <= i < |d1|
      ensures d1[i] == d2[i]
    {
      var k := i / 2;
      assert readings[k] == ControllerReading(request, d1[2 * k], d1[2 * k + 1], k, now);
      ReadingDeterminesPair(request, d1[2 * k], d1[2 * k + 1], d2[2 * k], d2[2 * k + 1], k, now);
    }
  }

  /* ---------- Probes: parsing recovers what was encoded ---------- */

  function EncodeSigned(value: int): bv16
    requires -0x8000 < value < 0x8000
  {
    if value < 0
    then RegisterOf(0x80 | ToByte(-value / 256), ToByte(-value % 256))
    else RegisterOf(ToByte(value / 256), ToByte(value % 256))
  }

  lemma {:induction false} SmallByte(b: bv8)
    requires b as int < 128
    ensures b & 0x80 == 0
  {}

  lemma {:induction false} SignBit(high: bv8, low: bv8)
    requires high & 0x80 == 0
    ensures (0x80 | high) & 0x7F == high && high & 0x7F == high
    ensures RegisterOf(0x80 | high, low) & 0x8000 != 0
    ensures RegisterOf(high, low) & 0x8000 == 0
  {}

  lemma {:induction false} SignedFields(high: bv8, low: bv8)
    requires high & 0x80 == 0
    ensures SignedMagnitude(RegisterOf(0x80 | high, low)) == -(high as int * 256 + low as int)
    ensures SignedMagnitude(RegisterOf(high, low)) == high as int * 256 + low as int
  {
    SignBit(high, low);
    JoinSplit(0x80 | high, low);
    JoinSplit(high, low);
  }

  /** Sign and magnitude decode to every integer between -32767 and 32767. */
  lemma {:induction false} SignedRoundTrip(value: int)
    requires -0x8000 < value < 0x8000
    ensures SignedMagnitude(EncodeSigned(value)) == value
  {
    var n := if value < 0 then -value else value;
    ToByteValue(n / 256);
    ToByteValue(n % 256);
    SmallByte(ToByte(n / 256));
    SignedFields(ToByte(n / 256), ToByte(n % 256));
  }

  /** A probe's registers for these data; the low halves of the second and fourth register
      and the eleven registers after them are not read. */
  function ProbeRegisters(value: int, state: bv8, gas: bv8, unit: bv8, decimals: bv8,
                          spare1: bv8, spare3: bv8, rest: seq<bv16>): seq<bv16>
    requires -0x8000 < value < 0x8000
  {
    [EncodeSigned(value), RegisterOf(state, spare1), RegisterOf(gas, unit), RegisterOf(decimals, spare3)] + rest
  }

  lemma {:induction false} ProbeDataRecovered(value: int, state: bv8, gas: bv8, unit: bv8, decimals: bv8,
                           spare1: bv8, spare3: bv8, rest: seq<bv16>)
    requires -0x8000 < value < 0x8000
    ensures ProbeDataOf(ProbeRegisters(value, state, gas, unit, decimals, spare1, spare3, rest))
         == ProbeData(value, state, Some(gas), Some(unit), decimals as int)
  {
    SignedRoundTrip(value);
    JoinSplit(state, spare1);
    JoinSplit(gas, unit);
    JoinSplit(decimals, spare3);
  }

  /** The source raises when a probe request without a detector id has unit address 0. */
  lemma {:induction false} ProbeParse(request: PollRequest, registers: seq<bv16>, response: Bytes, now: int)
    requires ValidRequest(request) && request.startRegister >= 0 && request.registerCount >= 1
    requires request.sourceType.Probe? && Encodes(request, registers, response)
    ensures registers != []
    ensures var reading := ProbeReading(request, ProbeDataOf(registers), now);
            Parse(request, response, now)
            == if request.detectorId.Some? || request.unitAddress > 0 then Ok([reading]) else ValueError
  {
    EncodingAccepted(request, registers, response);
  }

  /** What the reading of a probe says about its data. */
  lemma {:induction false} ProbeReadingMeaning(request: PollRequest, d: ProbeData, now: int)
    ensures var r := ProbeReading(request, d, now);
            && (r.concentration.Some? ==> r.concentration.value * Pow10(d.decimals) == d.value as real)
            && (r.concentration.Some? <==> r.status != Invalid)
            && (r.status == Invalid <==> d.decimals > 6 || d.state & 0x80 != 0)
            && (r.alarmLevel.Some? <==> r.status == AlarmHigh || r.status == AlarmLow)
  {
    Pow10Positive(d.decimals);
    AlarmLevelIsHighestBit(d.state);
    QuotientTimes(d.value as real, Pow10(d.decimals));
  }

  lemma {:induction false} QuotientTimes(x: real, y: real)
    requires y != 0.0
    ensures (x / y) * y == x
  {}

  /** A full probe response: the reading carries exactly the encoded value, scaled. */
  lemma {:induction false} ProbeRoundTrip(
    request: PollRequest, value: int, state: bv8, gas: bv8, unit: bv8, decimals: bv8,
                       spare1: bv8, spare3: bv8, rest: seq<bv16>, response: Bytes, now: int)
    requires ValidRequest(request) && request.startRegister >= 0
    requires request.sourceType.Probe? && request.detectorId.Some?
    requires -0x8000 < value < 0x8000
    requires request.registerCount == 4 + |rest| <= 127
    requires response == ResponseFrame(request.unitAddress, request.functionCode,
                           ProbeRegisters(value, state, gas, unit, decimals, spare1, spare3, rest), HighByteFirst)
    ensures Validate(request, response).Accepted?
    ensures Parse(request, response, now)
         == Ok([ProbeReading(request, ProbeData(value, state, Some(gas), Some(unit), decimals as int), now)])
  {
    var registers := ProbeRegisters(value, state, gas, unit, decimals, spare1, spare3, rest);
    assert Encodes(request, registers, response);
    EncodingAccepted(request, registers, response);
    ProbeParse(request, registers, response, now);
    ProbeDataRecovered(value, state, gas, unit, decimals, spare1, spare3, rest);
  }

  /* ---------- One reading for each polled target ---------- */

  lemma {:induction false} RequestFields(context: PollBuildContext, target: PollTarget)
    requires ValidTarget(target) && RequestForTarget(context, target).Ok?
    ensures var r := RequestForTarget(context, target).value;
            && r.startRegister >= 0 && r.registerCount >= 1 && r.sourceType == context.sourceType
            && r.detectorId == Some(target.detectorId)
            && (context.sourceType.Probe? ==> target.detectorAddress == Some(r.unitAddress))
            && (context.sourceType.Controller? ==>
                  && target.detectorAddress == Some(r.startRegister / 2 + 1) && r.startRegister / 2 + 1 <= 255
                  && r.registerCount == 2
                  && r.controllerId == target.controllerId && target.controllerAddress == Some(r.unitAddress))
  {}

  lemma {:induction false} OneReading(request: PollRequest, response: Bytes, now: int) returns (reading: DeviceReading)
    requires ValidRequest(request) && request.startRegister >= 0 && request.registerCount >= 1
    requires request.detectorId.Some?
    requires request.sourceType.Controller? ==> request.registerCount == 2 && request.startRegister / 2 + 1 <= 255
    requires Validate(request, response).Accepted?
    ensures Parse(request, response, now) == Ok([reading])
    ensures reading.detectorId == request.detectorId.value
    ensures request.sourceType.Probe? ==> reading.detectorAddress == Some(request.unitAddress)
    ensures request.sourceType.Controller? ==>
              && reading.detectorAddress == Some(request.startRegister / 2 + 1)
              && reading.controllerId == request.controllerId
              && reading.controllerAddress == Some(request.unitAddress)
  {
    AcceptedEncodes(request, response);
    var registers := DataRegisters(response);
    if request.sourceType.Probe? {
      ProbeParse(request, registers, response, now);
      reading := ProbeReading(request, ProbeDataOf(registers), now);
    } else {
      ControllerParseInverts(request, registers, response, now);
      reading := ControllerReading(request, registers[2 * 0], registers[2 * 0 + 1], 0, now);
      assert Parse(request, response, now).value == [reading];
    }
  }

  /** The request built for a target yields, from any accepted response, exactly one
      reading, and it carries the target's detector, address and controller. */
  lemma {:induction false} OneReadingForTarget(context: PollBuildContext, target: PollTarget, response: Bytes, now: int)
    requires ValidTarget(target) && RequestForTarget(context, target).Ok?
    requires Validate(RequestForTarget(context, target).value, response).Accepted?
    ensures var request := RequestForTarget(context, target).value;
            && request.startRegister >= 0 && request.registerCount >= 1
            && Parse(request, response, now).Ok?
            && |Parse(request, response, now).value| == 1
            && var r := Parse(request, response, now).value[0];
               && r.detectorId == target.detectorId
               && r.detectorAddress == target.detectorAddress
               && (context.sourceType.Controller? ==>
                     r.controllerId == target.controllerId && r.controllerAddress == target.controllerAddress)
  {
    RequestFields(context, target);
    var reading := OneReading(RequestForTarget(context, target).value, response, now);
  }
}
