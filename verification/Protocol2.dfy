/** The Protocol 2 adapter: standard Modbus RTU byte order, four registers a detector. */
module Protocol2 {
  import opened Crc
  import opened Models
  import opened Modbus
  import opened Float32

  const REGISTERS_PER_DETECTOR := 4
  const MAX_REGISTERS := 124

  /** One detector's registers. */
  datatype Block = Block(status: bv16, unit: bv16, valueHigh: bv16, valueLow: bv16)

  /* ---------- Requests ---------- */

  predicate RegisterRangeValid(startRegister: int, registerCount: int) {
    && 0 <= startRegister <= 65535
    && 1 <= registerCount <= MAX_REGISTERS
    && startRegister + registerCount <= 65536
    && startRegister % REGISTERS_PER_DETECTOR == 0
    && registerCount % REGISTERS_PER_DETECTOR == 0
  }

  function BuildReadRequest(sourceType: SourceType, portId: int, unitAddress: int, startRegister: int,
                            registerCount: int, timeoutMs: int, detectorId: Option<int>, controllerId: Option<int>)
    : (r: Result<PollRequest>)
    ensures r.Ok? ==> ValidRequest(r.value) && RegisterRangeValid(r.value.startRegister, r.value.registerCount)
  {
    if !(0 <= unitAddress <= 255) || !RegisterRangeValid(startRegister, registerCount) then ValueError
    else
      var frame := AppendCrc16(ReadRequestPayload(unitAddress, startRegister, registerCount), LowByteFirst);
      var request := PollRequest(Protocol2Mode, sourceType, portId, unitAddress, READ_HOLDING_REGISTERS, frame,
                                 timeoutMs, LowByteFirst, detectorId, controllerId, startRegister, registerCount);
      if ValidRequest(request) then Ok(request) else ValueError
  }

  function RequiredAddress(address: Option<int>): Result<int> {
    if address.Some? && 0 < address.value <= 255 then Ok(address.value) else ValueError
  }

  function RequestForTarget(context: PollBuildContext, target: PollTarget): (r: Result<PollRequest>)
    ensures r.Ok? ==> ValidRequest(r.value)
  {
    if context.sourceType.Probe? then
      match RequiredAddress(target.detectorAddress)
      case ValueError => ValueError
      case Ok(unitAddress) =>
        BuildReadRequest(Probe, context.portId, unitAddress, 0, REGISTERS_PER_DETECTOR,
                         context.defaultTimeoutMs, Some(target.detectorId), None)
    else
      match RequiredAddress(target.controllerAddress)
      case ValueError => ValueError
      case Ok(controllerAddress) =>
        match RequiredAddress(target.detectorAddress)
        case ValueError => ValueError
        case Ok(detectorNumber) =>
          BuildReadRequest(Controller, context.portId, controllerAddress,
                           (detectorNumber - 1) * REGISTERS_PER_DETECTOR, REGISTERS_PER_DETECTOR,
                           context.defaultTimeoutMs, Some(target.detectorId), target.controllerId)
  }

  /** When a request is built. */
  lemma {:induction false} RequestIsBuiltIff(
    sourceType: SourceType, portId: int, unitAddress: int, startRegister: int, registerCount: int, timeoutMs: int,
    detectorId: Option<int>, controllerId: Option<int>)
    ensures BuildReadRequest(sourceType, portId, unitAddress, startRegister, registerCount, timeoutMs, detectorId,
                             controllerId).Ok?
            <==> && 0 <= unitAddress <= 255 && portId > 0 && 1 <= timeoutMs <= 60_000
                 && PositiveOrNone(detectorId) && PositiveOrNone(controllerId)
                 && 0 <= startRegister && 1 <= registerCount && startRegister + registerCount <= 65536
                 && registerCount <= 124 && startRegister % 4 == 0 && registerCount % 4 == 0
  {
    if 0 <= unitAddress <= 255 && RegisterRangeValid(startRegister, registerCount) {
      RequestFrameAsks(unitAddress, startRegister, registerCount, LowByteFirst);
    }
  }

  /** What the frame of a request asks for, and what else it says. */
  lemma {:induction false} RequestAsks(
    sourceType: SourceType, portId: int, unitAddress: int, startRegister: int, registerCount: int, timeoutMs: int,
    detectorId: Option<int>, controllerId: Option<int>, r: PollRequest)
    requires BuildReadRequest(sourceType, portId, unitAddress, startRegister, registerCount, timeoutMs, detectorId,
                              controllerId) == Ok(r)
    ensures AsksFor(r.payload, LowByteFirst, unitAddress, startRegister, registerCount)
    ensures r.unitAddress == unitAddress && r.functionCode == 3
    ensures r.startRegister == startRegister && r.registerCount == registerCount
    ensures r.portId == portId && r.timeoutMs == timeoutMs
    ensures r.sourceType == sourceType && r.crcByteOrder == LowByteFirst
    ensures r.detectorId == detectorId && r.controllerId == controllerId
  {
    RequestFrameAsks(unitAddress, startRegister, registerCount, LowByteFirst);
  }

  /** A target can be polled iff it has the addresses it needs, none of them 0. */
  lemma {:induction false} TargetIsPolledIff(context: PollBuildContext, target: PollTarget)
    requires ValidContext(context) && ValidTarget(target)
    ensures RequestForTarget(context, target).Ok?
            <==> && target.detectorAddress.GetOr(0) != 0
                 && (context.sourceType.Controller? ==> target.controllerAddress.GetOr(0) != 0)
  {
    var number := target.detectorAddress.GetOr(0);
    if number != 0 {
      RequestIsBuiltIff(Probe, context.portId, number, 0, 4, context.defaultTimeoutMs, Some(target.detectorId), None);
      RequestIsBuiltIff(Controller, context.portId, target.controllerAddress.GetOr(0), 4 * (number - 1), 4,
                        context.defaultTimeoutMs, Some(target.detectorId), target.controllerId);
    }
  }

  /** A target is polled through its own address: a probe for its registers, a controller for the
      four registers of the detector with the target's number. */
  lemma {:induction false} TargetAsks(context: PollBuildContext, target: PollTarget)
    requires ValidTarget(target) && RequestForTarget(context, target).Ok?
    ensures var r, number := RequestForTarget(context, target).value, target.detectorAddress.GetOr(0);
            && target.detectorAddress.Some? && 1 <= number <= 255
            && r.portId == context.portId && r.timeoutMs == context.defaultTimeoutMs && r.functionCode == 3
            && r.sourceType == context.sourceType && r.detectorId == Some(target.detectorId)
            && (context.sourceType.Probe? ==>
                  && AsksFor(r.payload, LowByteFirst, number, 0, 4)
                  && r.unitAddress == number && r.startRegister == 0 && r.registerCount == 4)
            && (context.sourceType.Controller? ==>
                  && target.controllerAddress.Some? && 1 <= target.controllerAddress.value <= 255
                  && AsksFor(r.payload, LowByteFirst, target.controllerAddress.value, 4 * (number - 1), 4)
                  && r.unitAddress == target.controllerAddress.value && r.controllerId == target.controllerId
                  && r.startRegister == 4 * (number - 1) && r.registerCount == 4)
  {
    var number, r := target.detectorAddress.value, RequestForTarget(context, target).value;
    if context.sourceType.Probe? {
      RequestAsks(Probe, context.portId, number, 0, REGISTERS_PER_DETECTOR, context.defaultTimeoutMs,
                  Some(target.detectorId), None, r);
    } else {
      RequestAsks(Controller, context.portId, target.controllerAddress.value, 4 * (number - 1), 4,
                  context.defaultTimeoutMs, Some(target.detectorId), target.controllerId, r);
    }
  }

  /* ---------- Validation ---------- */

  function BlockVerdict(b: Block): Verdict {
    if !(b.status <= 5) then Rejected(UnknownStatus)
    else if !(b.unit <= 4) then Rejected(InvalidData)
    else if !ValidConcentration(b.valueHigh, b.valueLow) then Rejected(InvalidData)
    else Accepted
  }

  function BlockAt(registers: seq<bv16>, k: nat): Block
    requires 4 * k + 4 <= |registers|
  {
    Block(registers[4 * k], registers[4 * k + 1], registers[4 * k + 2], registers[4 * k + 3])
  }

  /** The verdict of the first n blocks: that of the first one rejected. */
  function FirstVerdict(registers: seq<bv16>, n: nat): Verdict
    requires 4 * n <= |registers|
  {
    if n == 0 then Accepted
    else if FirstVerdict(registers, n - 1).Rejected? then FirstVerdict(registers, n - 1)
    else BlockVerdict(BlockAt(registers, n - 1))
  }

  function Validate(request: PollRequest, response: Bytes): Verdict
    requires ValidRequest(request)
  {
    var base := ValidateBase(request, response, LowByteFirst);
    if base.Rejected? then base
    else
      var registers := DataRegisters(response);
      if |registers| % REGISTERS_PER_DETECTOR != 0 then Rejected(LengthMismatch)
      else FirstVerdict(registers, |registers| / REGISTERS_PER_DETECTOR)
  }

  /** The source's loop over the detector blocks. */
  method ValidateBlocks(registers: seq<bv16>) returns (verdict: Verdict)
    requires |registers| % REGISTERS_PER_DETECTOR == 0
    ensures verdict == FirstVerdict(registers, |registers| / REGISTERS_PER_DETECTOR)
  {
    verdict := Accepted;
    var blocks := |registers| / REGISTERS_PER_DETECTOR;
    for k := 0 to blocks
      invariant verdict == Accepted == FirstVerdict(registers, k)
    {
      verdict := BlockVerdict(BlockAt(registers, k));
      if verdict.Rejected? {
        RejectionPersists(registers, k + 1, blocks);
        return;
      }
    }
  }

  method ValidateResponse(request: PollRequest, response: Bytes) returns (verdict: Verdict)
    requires ValidRequest(request)
    ensures verdict == Validate(request, response)
  {
    verdict := ValidateBase(request, response, LowByteFirst);
    if verdict.Rejected? {
      return;
    }
    var registers := DataRegisters(response);
    if |registers| % REGISTERS_PER_DETECTOR != 0 {
      return Rejected(LengthMismatch);
    }
    verdict := ValidateBlocks(registers);
  }

  lemma {:induction false} RejectionPersists(registers: seq<bv16>, k: nat, n: nat)
    requires k <= n && 4 * n <= |registers| && FirstVerdict(registers, k).Rejected?
    ensures FirstVerdict(registers, n) == FirstVerdict(registers, k)
  {
    if k < n {
      RejectionPersists(registers, k, n - 1);
    }
  }

  lemma {:induction false} AllBlocksAccepted(registers: seq<bv16>, n: nat)
    requires 4 * n <= |registers|
    ensures FirstVerdict(registers, n).Accepted?
            <==> (forall k :: 0 <= k < n ==> BlockVerdict(BlockAt(registers, k)).Accepted?)
  {
    if n > 0 {
      AllBlocksAccepted(registers, n - 1);
    }
  }

  /* ---------- The reference encoder ---------- */

  function BlockRegisters(b: Block): (r: seq<bv16>)
    ensures |r| == 4
  {
    [b.status, b.unit, b.valueHigh, b.valueLow]
  }

  function Flatten(blocks: seq<Block>): (r: seq<bv16>)
    ensures |r| == 4 * |blocks|
    decreases |blocks|
  {
    if |blocks| == 0 then [] else Flatten(blocks[..|blocks| - 1]) + BlockRegisters(blocks[|blocks| - 1])
  }

  lemma {:induction false} FlattenAt(blocks: seq<Block>, k: nat)
    requires k < |blocks|
    ensures BlockAt(Flatten(blocks), k) == blocks[k]
    decreases |blocks|
  {
    var init := blocks[..|blocks| - 1];
    if k < |blocks| - 1 {
      FlattenAt(init, k);
      assert BlockAt(Flatten(blocks), k) == BlockAt(Flatten(init), k);
    }
  }

  function BlocksOf(registers: seq<bv16>): (blocks: seq<Block>)
    requires |registers| % 4 == 0
  {
    seq(|registers| / 4, k requires 0 <= k < |registers| / 4 => BlockAt(registers, k))
  }

  lemma {:induction false} FlattenBlocksOf(registers: seq<bv16>)
    requires |registers| % 4 == 0
    ensures Flatten(BlocksOf(registers)) == registers
    decreases |registers|
  {
    if |registers| > 0 {
      var init := registers[..|registers| - 4];
      FlattenBlocksOf(init);
      var blocks := BlocksOf(registers);
      assert blocks[..|blocks| - 1] == BlocksOf(init) by {
        forall k | 0 <= k < |registers| / 4 - 1
          ensures BlockAt(registers, k) == BlockAt(init, k)
        {
        }
      }
      assert registers == init + BlockRegisters(blocks[|blocks| - 1]);
    }
  }

  /** A status from 0 to 5, a unit from 0 to 4, and a finite number of magnitude at most
      one million, read off the exponent and fraction fields. */
  predicate ValidBlock(b: Block) {
    && b.status <= 5
    && b.unit <= 4
    && (Exponent(b.valueHigh) < 146
        || (Exponent(b.valueHigh) == 146 && Fraction(b.valueHigh, b.valueLow) <= 7611392))
  }

  predicate AllValid(blocks: seq<Block>) {
    forall k :: 0 <= k < |blocks| ==> ValidBlock(blocks[k])
  }

  /** The response is the encoding of these blocks, a quarter as many as registers requested. */
  predicate Encodes(request: PollRequest, blocks: seq<Block>, response: Bytes)
    requires ValidRequest(request)
  {
    && 4 * |blocks| == request.registerCount <= 124
    && AllValid(blocks)
    && response == ResponseFrame(request.unitAddress, request.functionCode, Flatten(blocks), LowByteFirst)
  }

  lemma {:induction false} BlockVerdictIsValidBlock(b: Block)
    ensures BlockVerdict(b).Accepted? <==> ValidBlock(b)
  {
    ConcentrationBound(b.valueHigh, b.valueLow);
  }

  lemma {:induction false} AcceptedBlocks(registers: seq<bv16>)
    requires |registers| % 4 == 0
    ensures FirstVerdict(registers, |registers| / 4).Accepted? <==> AllValid(BlocksOf(registers))
  {
    var blocks := BlocksOf(registers);
    AllBlocksAccepted(registers, |blocks|);
    forall k | 0 <= k < |blocks|
      ensures BlockVerdict(BlockAt(registers, k)).Accepted? <==> ValidBlock(blocks[k])
    {
      BlockVerdictIsValidBlock(blocks[k]);
    }
  }

  lemma {:induction false} BlocksOfFlatten(blocks: seq<Block>)
    ensures BlocksOf(Flatten(blocks)) == blocks
  {
    forall k | 0 <= k < |blocks|
      ensures BlocksOf(Flatten(blocks))[k] == blocks[k]
    {
      FlattenAt(blocks, k);
    }
  }

  lemma {:induction false} ValidateParts(request: PollRequest, response: Bytes)
    requires ValidRequest(request)
    ensures Validate(request, response).Accepted?
            <==> (&& ValidateBase(request, response, LowByteFirst).Accepted?
                  && |DataRegisters(response)| % 4 == 0
                  && FirstVerdict(DataRegisters(response), |DataRegisters(response)| / 4).Accepted?)
  {}

  lemma {:induction false} CarriedBlocksEncode(request: PollRequest, response: Bytes, registers: seq<bv16>)
    requires ValidRequest(request) && CarriesRegisters(request, response, registers, LowByteFirst)
    requires |registers| % 4 == 0 && FirstVerdict(registers, |registers| / 4).Accepted?
    ensures Encodes(request, BlocksOf(registers), response)
  {
    AcceptedBlocks(registers);
    FlattenBlocksOf(registers);
  }

  lemma {:induction false} AcceptedEncodes(request: PollRequest, response: Bytes)
    requires ValidRequest(request) && Validate(request, response).Accepted?
    ensures |response| >= 5 && |DataRegisters(response)| % 4 == 0
    ensures Encodes(request, BlocksOf(DataRegisters(response)), response)
  {
    ValidateParts(request, response);
    AcceptedIsFrame(request, response, LowByteFirst);
    CarriedBlocksEncode(request, response, DataRegisters(response));
  }

  lemma {:induction false} EncodingAccepted(request: PollRequest, blocks: seq<Block>, response: Bytes)
    requires ValidRequest(request) && Encodes(request, blocks, response)
    ensures Validate(request, response).Accepted?
    ensures |response| >= 5 && DataRegisters(response) == Flatten(blocks)
  {
    FrameIsAccepted(request, Flatten(blocks), LowByteFirst);
    BlocksOfFlatten(blocks);
    AcceptedBlocks(Flatten(blocks));
    ValidateParts(request, response);
  }

  /** A response is accepted iff it is the encoding of valid blocks. */
  lemma {:induction false} AcceptsExactlyEncodings(request: PollRequest, response: Bytes)
    requires ValidRequest(request)
    ensures Validate(request, response).Accepted? <==> (exists blocks :: Encodes(request, blocks, response))
  {
    if Validate(request, response).Accepted? {
      AcceptedEncodes(request, response);
    }
    if blocks :| Encodes(request, blocks, response) {
      EncodingAccepted(request, blocks, response);
    }
  }

  /* ---------- Parsing ---------- */

  function StatusOf(code: bv16): DeviceStatus {
    if code == 0 then Offline
    else if code == 1 then Fault
    else if code == 2 then Normal
    else if code == 3 then AlarmLow
    else if code == 4 then AlarmHigh
    else OverRange
  }

  function AlarmLevelOf(code: bv16): Option<nat> {
    if code == 3 then Some(1) else if code == 4 then Some(2) else None
  }

  function UnitName(code: bv16): string {
    if code == 0 then "%RH" else if code == 1 then "PPM" else if code == 2 then "%LEL"
    else if code == 3 then "%VOL" else "℃"
  }

  function GasName(code: bv16): string {
    if code == 0 then "湿度" else if code == 1 then "PPM" else if code == 2 then "可燃气"
    else if code == 3 then "体积浓度" else "温度"
  }

  function DetectorNumber(request: PollRequest, k: nat): int
    requires request.startRegister >= 0
  {
    request.startRegister / REGISTERS_PER_DETECTOR + 1 + k
  }

  /** The reading built for block k. */
  function ReadingOf(request: PollRequest, b: Block, k: nat, now: int): DeviceReading
    requires request.startRegister >= 0
  {
    DeviceReading(
      Protocol2Mode, request.sourceType, request.portId, request.controllerId,
      request.detectorId.GetOr(DetectorNumber(request, k)),
      if request.sourceType.Controller? then Some(request.unitAddress) else None,
      if request.sourceType.Controller? then Some(DetectorNumber(request, k)) else Some(request.unitAddress),
      StatusOf(b.status), Some(ValueOf(b.valueHigh, b.valueLow)), Some(GasName(b.unit)), Some(UnitName(b.unit)),
      AlarmLevelOf(b.status), RawCode(b.status as int), now)
  }

  /** The readings of the first n blocks; the first one DeviceReading refuses raises. */
  function FirstReadings(request: PollRequest, blocks: seq<Block>, n: nat, now: int): Result<seq<DeviceReading>>
    requires request.startRegister >= 0 && n <= |blocks|
  {
    if n == 0 then Ok([])
    else
      match FirstReadings(request, blocks, n - 1, now)
      case ValueError => ValueError
      case Ok(readings) =>
        var reading := ReadingOf(request, blocks[n - 1], n - 1, now);
        if ReadingFieldsValid(reading) then Ok(readings + [reading]) else ValueError
  }

  function Parse(request: PollRequest, response: Bytes, now: int): Result<seq<DeviceReading>>
    requires ValidRequest(request) && request.startRegister >= 0
  {
    if Validate(request, response).Rejected? then Ok([])
    else
      AcceptedEncodes(request, response);
      var blocks := BlocksOf(DataRegisters(response));
      FirstReadings(request, blocks, |blocks|, now)
  }

  /** The source's loop over the registers. */
  method ParseBlocks(request: PollRequest, registers: seq<bv16>, now: int) returns (result: Result<seq<DeviceReading>>)
    requires request.startRegister >= 0 && |registers| % REGISTERS_PER_DETECTOR == 0
    ensures result == FirstReadings(request, BlocksOf(registers), |BlocksOf(registers)|, now)
  {
    var readings: seq<DeviceReading> := [];
    var count := |registers| / REGISTERS_PER_DETECTOR;
    for k := 0 to count
      invariant FirstReadings(request, BlocksOf(registers), k, now) == Ok(readings)
    {
      var reading := ReadingOf(request, BlockAt(registers, k), k, now);
      if !ReadingFieldsValid(reading) {
        ErrorPersists(request, BlocksOf(registers), k + 1, count, now);
        return ValueError;
      }
      readings := readings + [reading];
    }
    result := Ok(readings);
  }

  lemma {:induction false} ErrorPersists(request: PollRequest, blocks: seq<Block>, k: nat, n: nat, now: int)
    requires request.startRegister >= 0 && k <= n <= |blocks|
    requires FirstReadings(request, blocks, k, now).ValueError?
    ensures FirstReadings(request, blocks, n, now).ValueError?
  {
    if k < n {
      ErrorPersists(request, blocks, k, n - 1, now);
    }
  }

  method ParseResponse(request: PollRequest, response: Bytes, now: int) returns (result: Result<seq<DeviceReading>>)
    requires ValidRequest(request) && request.startRegister >= 0
    ensures result == Parse(request, response, now)
  {
    var verdict := ValidateResponse(request, response);
    if verdict.Rejected? {
      return Ok([]);
    }
    AcceptedEncodes(request, response);
    result := ParseBlocks(request, DataRegisters(response), now);
  }

  /** The readings of a sequence of blocks, block by block. */
  predicate ReadingsMatch(request: PollRequest, blocks: seq<Block>, readings: seq<DeviceReading>, now: int)
    requires request.startRegister >= 0
  {
    && |readings| == |blocks|
    && forall k :: 0 <= k < |blocks| ==> readings[k] == ReadingOf(request, blocks[k], k, now)
  }

  /** A detector number above 255 is an address DeviceReading refuses. */
  predicate NumbersFit(request: PollRequest, n: nat)
    requires request.startRegister >= 0
  {
    n > 0 && request.sourceType.Controller? ==> DetectorNumber(request, n - 1) <= 255
  }

  lemma {:induction false} FirstReadingsMatch(request: PollRequest, blocks: seq<Block>, n: nat, now: int)
    requires ValidRequest(request) && request.startRegister >= 0 && n <= |blocks|
    ensures var r := FirstReadings(request, blocks, n, now);
            && (r.Ok? <==> NumbersFit(request, n))
            && (r.Ok? ==> ReadingsMatch(request, blocks[..n], r.value, now))
  {
    if n > 0 {
      FirstReadingsMatch(request, blocks, n - 1, now);
      assert ReadingFieldsValid(ReadingOf(request, blocks[n - 1], n - 1, now)) <==> NumbersFit(request, n);
      assert blocks[..n][..n - 1] == blocks[..n - 1];
    }
  }

  /** Parsing inverts the reference encoder, block by block and in order; it raises exactly
      when a controller read reaches a detector number above 255. */
  lemma {:induction false} ParseInvertsEncoding(request: PollRequest, blocks: seq<Block>, response: Bytes, now: int)
    requires ValidRequest(request) && request.startRegister >= 0 && Encodes(request, blocks, response)
    ensures var r := Parse(request, response, now);
            && (r.Ok? <==> NumbersFit(request, |blocks|))
            && (r.Ok? ==> ReadingsMatch(request, blocks, r.value, now))
  {
    EncodingAccepted(request, blocks, response);
    BlocksOfFlatten(blocks);
    FirstReadingsMatch(request, blocks, |blocks|, now);
    assert blocks[..|blocks|] == blocks;
  }

  lemma {:induction false} UnitNamesDistinct(a: bv16, b: bv16)
    requires a <= 4 && b <= 4 && UnitName(a) == UnitName(b)
    ensures a == b
  {
    var x, y := UnitName(a), UnitName(b);
    assert |x| == |y| && x[0] == y[0] && x[|x| - 1] == y[|y| - 1];
  }

  /** The blocks are equal, or differ only in the sign of a zero concentration. */
  predicate SameUpToZeroSign(a: Block, b: Block) {
    a == b
    || (IsZero(a.valueHigh, a.valueLow) && IsZero(b.valueHigh, b.valueLow) && a.(valueHigh := b.valueHigh) == b)
  }

  /** A reading determines its block, up to the sign of a zero concentration. */
  lemma {:induction false} ReadingDeterminesBlock(request: PollRequest, a: Block, b: Block, k: nat, now: int)
    requires request.startRegister >= 0 && ValidBlock(a) && ValidBlock(b)
    requires ReadingOf(request, a, k, now) == ReadingOf(request, b, k, now)
    ensures SameUpToZeroSign(a, b)
    ensures ReadingOf(request, a, k, now).concentration != Some(0.0) ==> a == b
  {
    SameBits16(a.status, b.status);
    UnitNamesDistinct(a.unit, b.unit);
    if ReadingOf(request, a, k, now).concentration == Some(0.0) {
      ZeroIsZero(a.valueHigh, a.valueLow);
      ZeroIsZero(b.valueHigh, b.valueLow);
    } else {
      ValueDeterminesRegisters(a.valueHigh, a.valueLow, b.valueHigh, b.valueLow);
    }
  }

  /** Two accepted responses with the same readings carry the same blocks, up to the signs of zero
      concentrations; without a zero concentration they are the same frame. */
  lemma {:induction false} ReadingsDetermineResponse(request: PollRequest, r1: Bytes, r2: Bytes, now: int)
    requires ValidRequest(request) && request.startRegister >= 0
    requires Validate(request, r1).Accepted? && Validate(request, r2).Accepted?
    requires Parse(request, r1, now).Ok? && Parse(request, r1, now) == Parse(request, r2, now)
    ensures |r1| >= 5 && |r2| >= 5
    ensures var b1, b2 := BlocksOf(DataRegisters(r1)), BlocksOf(DataRegisters(r2));
            && |b1| == |b2| && (forall k :: 0 <= k < |b1| ==> SameUpToZeroSign(b1[k], b2[k]))
            && Encodes(request, b1, r1) && Encodes(request, b2, r2)
    ensures (forall reading :: reading in Parse(request, r1, now).value ==> reading.concentration != Some(0.0)) ==>
              r1 == r2
  {
    AcceptedEncodes(request, r1);
    AcceptedEncodes(request, r2);
    var b1, b2 := BlocksOf(DataRegisters(r1)), BlocksOf(DataRegisters(r2));
    ParseInvertsEncoding(request, b1, r1, now);
    ParseInvertsEncoding(request, b2, r2, now);
    SameReadingsSameBlocks(request, b1, b2, Parse(request, r1, now).value, now);
  }

  lemma {:induction false} SameReadingsSameBlocks(
    request: PollRequest, b1: seq<Block>, b2: seq<Block>, readings: seq<DeviceReading>, now: int)
    requires request.startRegister >= 0 && AllValid(b1) && AllValid(b2)
    requires ReadingsMatch(request, b1, readings, now) && ReadingsMatch(request, b2, readings, now)
    ensures |b1| == |b2| && forall k :: 0 <= k < |b1| ==> SameUpToZeroSign(b1[k], b2[k])
    ensures (forall reading :: reading in readings ==> reading.concentration != Some(0.0)) ==> b1 == b2
  {
    forall k | 0 <= k < |b1|
      ensures SameUpToZeroSign(b1[k], b2[k])
      ensures readings[k].concentration != Some(0.0) ==> b1[k] == b2[k]
    {
      ReadingDeterminesBlock(request, b1[k], b2[k], k, now);
    }
    assert forall k :: 0 <= k < |b1| ==> readings[k] in readings;
  }

  lemma {:induction false} RequestFields(context: PollBuildContext, target: PollTarget)
    requires ValidTarget(target) && RequestForTarget(context, target).Ok?
    ensures var r := RequestForTarget(context, target).value;
            && r.startRegister >= 0 && r.registerCount == 4 && r.sourceType == context.sourceType
            && r.detectorId == Some(target.detectorId)
            && (context.sourceType.Probe? ==> target.detectorAddress == Some(r.unitAddress))
            && (context.sourceType.Controller? ==>
                  && target.detectorAddress == Some(r.startRegister / 4 + 1) && r.startRegister / 4 + 1 <= 255
                  && r.controllerId == target.controllerId && target.controllerAddress == Some(r.unitAddress))
  {}

  /** The request built for a target yields, from any accepted response, exactly one
      reading, and it carries the target's detector, address and controller. */
  lemma {:induction false} OneReadingForTarget(context: PollBuildContext, target: PollTarget, response: Bytes, now: int)
    requires ValidTarget(target) && RequestForTarget(context, target).Ok?
    requires Validate(RequestForTarget(context, target).value, response).Accepted?
    ensures var request := RequestForTarget(context, target).value;
            && request.startRegister >= 0
            && Parse(request, response, now).Ok?
            && |Parse(request, response, now).value| == 1
            && var r := Parse(request, response, now).value[0];
               && r.detectorId == target.detectorId
               && r.detectorAddress == target.detectorAddress
               && (context.sourceType.Controller? ==>
                     r.controllerId == target.controllerId && r.controllerAddress == target.controllerAddress)
  {
    RequestFields(context, target);
    var b := OneReading(RequestForTarget(context, target).value, response, now);
  }

  lemma {:induction false} OneReading(request: PollRequest, response: Bytes, now: int) returns (b: Block)
    requires ValidRequest(request) && request.startRegister >= 0 && request.registerCount == 4
    requires request.sourceType.Controller? ==> request.startRegister / 4 + 1 <= 255
    requires Validate(request, response).Accepted?
    ensures Parse(request, response, now) == Ok([ReadingOf(request, b, 0, now)])
  {
    AcceptedEncodes(request, response);
    var blocks := BlocksOf(DataRegisters(response));
    ParseInvertsEncoding(request, blocks, response, now);
    var readings := Parse(request, response, now).value;
    b := blocks[0];
    assert readings == [ReadingOf(request, b, 0, now)];
  }
}
