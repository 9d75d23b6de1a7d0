/** A Protocol 2 device: what it puts into its registers for each detector, and that polling it
    returns exactly that. */
module Protocol2Device {
  import opened Crc
  import opened Models
  import opened Modbus
  import opened Float32
  import opened Protocol2
  import opened Devices

  datatype Quantity = Humidity | Concentration | Combustible | Volume | Temperature

  /** What a device measures at one detector; the number is given by the fields of the standard's
      32-bit format, the fraction in two parts. */
  datatype Sample = Sample(
    status: DeviceStatus,
    quantity: Quantity,
    negative: bool,
    exponent: bv8,
    fractionTop: bv7,
    fractionLow: bv16)
  {
    function Value(): real {
      IeeeValue(negative, exponent as int, (fractionTop as int) * 0x1_0000 + fractionLow as int)
    }
  }

  /** The statuses that a Protocol 2 device can tell. */
  predicate IsTold(status: DeviceStatus) {
    status in {Offline, Fault, Normal, AlarmLow, AlarmHigh, OverRange}
  }

  function StatusCode(status: DeviceStatus): bv16
    requires IsTold(status)
  {
    match status
    case Offline => 0
    case Fault => 1
    case Normal => 2
    case AlarmLow => 3
    case AlarmHigh => 4
    case OverRange => 5
  }

  function QuantityCode(quantity: Quantity): bv16 {
    match quantity
    case Humidity => 0
    case Concentration => 1
    case Combustible => 2
    case Volume => 3
    case Temperature => 4
  }

  function BlockFor(s: Sample): Block
    requires IsTold(s.status)
  {
    Block(StatusCode(s.status), QuantityCode(s.quantity), HighRegister(s.negative, s.exponent, s.fractionTop),
          s.fractionLow)
  }

  ghost predicate AllTold(samples: seq<Sample>) {
    forall k :: 0 <= k < |samples| ==> IsTold(samples[k].status)
  }

  function BlocksFor(samples: seq<Sample>): seq<Block>
    requires AllTold(samples)
  {
    seq(|samples|, k requires 0 <= k < |samples| => BlockFor(samples[k]))
  }

  /** The registers for these samples. */
  function Bank(samples: seq<Sample>): seq<bv16>
    requires AllTold(samples)
  {
    Flatten(BlocksFor(samples))
  }

  /** A finite number of magnitude at most one million. */
  predicate IsReasonable(s: Sample) {
    s.exponent != 255 && -1_000_000.0 <= s.Value() <= 1_000_000.0
  }

  /* ---------- What a reading of a sample says ---------- */

  function LevelFor(status: DeviceStatus): Option<nat> {
    match status
    case AlarmLow => Some(1)
    case AlarmHigh => Some(2)
    case _ => None
  }

  function UnitFor(quantity: Quantity): string {
    match quantity
    case Humidity => "%RH"
    case Concentration => "PPM"
    case Combustible => "%LEL"
    case Volume => "%VOL"
    case Temperature => "℃"
  }

  function GasFor(quantity: Quantity): string {
    match quantity
    case Humidity => "湿度"
    case Concentration => "PPM"
    case Combustible => "可燃气"
    case Volume => "体积浓度"
    case Temperature => "温度"
  }

  /** The reading tells the sample, and that it is of this detector of this source. */
  predicate Tells(r: DeviceReading, s: Sample, request: PollRequest, number: int, now: int)
    requires IsTold(s.status)
  {
    && r.status == s.status && r.alarmLevel == LevelFor(s.status)
    && r.rawStatus == RawCode(StatusCode(s.status) as int) && r.concentration == Some(s.Value())
    && r.unit == Some(UnitFor(s.quantity)) && r.gasType == Some(GasFor(s.quantity))
    && r.protocol == Protocol2Mode && r.sourceType == request.sourceType && r.portId == request.portId
    && r.controllerId == request.controllerId && r.timestamp == now
    && (match request.sourceType
        case Controller =>
          r.controllerAddress == Some(request.unitAddress) && r.detectorAddress == Some(number)
        case Probe =>
          r.controllerAddress == None && r.detectorAddress == Some(request.unitAddress))
    && r.detectorId == (if request.detectorId.Some? then request.detectorId.value else number)
  }

  lemma {:induction false} ValueOfSample(s: Sample)
    ensures var high := HighRegister(s.negative, s.exponent, s.fractionTop);
            && ValueOf(high, s.fractionLow) == s.Value()
            && Exponent(high) == s.exponent as int
  {
    FieldsOfHigh(s.negative, s.exponent, s.fractionTop);
    ValueIsIeee(HighRegister(s.negative, s.exponent, s.fractionTop), s.fractionLow);
  }

  /** A block is valid iff its number is reasonable. */
  lemma {:induction false} BlockIsValidIff(s: Sample)
    requires IsTold(s.status)
    ensures ValidBlock(BlockFor(s)) <==> IsReasonable(s)
  {
    var b := BlockFor(s);
    ValueOfSample(s);
    ConcentrationBound(b.valueHigh, b.valueLow);
  }

  /** A block is rejected for its status first, and otherwise for its unit or its number. */
  lemma {:induction false} BlockRejections(b: Block)
    ensures BlockVerdict(b) == Rejected(UnknownStatus) <==> b.status > 5
    ensures BlockVerdict(b) == Rejected(InvalidData) <==> b.status <= 5 && !ValidBlock(b)
    ensures BlockVerdict(b) == Accepted <==> ValidBlock(b)
  {
    BlockVerdictIsValidBlock(b);
  }

  lemma {:induction false} ReadingTells(request: PollRequest, s: Sample, k: nat, now: int)
    requires request.startRegister >= 0 && IsTold(s.status)
    ensures Tells(ReadingOf(request, BlockFor(s), k, now), s, request, request.startRegister / 4 + 1 + k, now)
  {
    ValueOfSample(s);
  }

  /** A response that carries samples is accepted iff all their numbers are reasonable. */
  lemma {:induction false} SamplesAcceptedIff(request: PollRequest, samples: seq<Sample>, response: Bytes)
    requires ValidRequest(request) && AllTold(samples) && 4 * |samples| == request.registerCount <= 124
    requires response == ResponseFrame(request.unitAddress, request.functionCode, Bank(samples), LowByteFirst)
    ensures Validate(request, response).Accepted? <==> forall k :: 0 <= k < |samples| ==> IsReasonable(samples[k])
  {
    var blocks := BlocksFor(samples);
    forall k | 0 <= k < |samples|
      ensures ValidBlock(blocks[k]) <==> IsReasonable(samples[k])
    {
      BlockIsValidIff(samples[k]);
    }
    if AllValid(blocks) {
      EncodingAccepted(request, blocks, response);
    }
    if Validate(request, response).Accepted? {
      AcceptedEncodes(request, response);
      FrameIsAccepted(request, Flatten(blocks), LowByteFirst);
      BlocksOfFlatten(blocks);
      assert AllValid(blocks);
    }
  }

  /** What was put into the registers is what the readings tell, sample by sample. */
  lemma {:induction false} SamplesAreRead(request: PollRequest, samples: seq<Sample>, response: Bytes, now: int)
    requires ValidRequest(request) && request.startRegister >= 0
    requires AllTold(samples) && 4 * |samples| == request.registerCount <= 124
    requires response == ResponseFrame(request.unitAddress, request.functionCode, Bank(samples), LowByteFirst)
    requires Validate(request, response).Accepted? && Parse(request, response, now).Ok?
    ensures var readings := Parse(request, response, now).value;
            && |readings| == |samples|
            && forall k :: 0 <= k < |samples| ==>
                 Tells(readings[k], samples[k], request, request.startRegister / 4 + 1 + k, now)
  {
    var blocks := BlocksFor(samples);
    SamplesAcceptedIff(request, samples, response);
    forall k | 0 <= k < |samples|
      ensures ValidBlock(blocks[k])
    {
      BlockIsValidIff(samples[k]);
    }
    assert Encodes(request, blocks, response);
    ParseInvertsEncoding(request, blocks, response, now);
    forall k | 0 <= k < |samples|
      ensures Tells(Parse(request, response, now).value[k], samples[k], request, request.startRegister / 4 + 1 + k, now)
    {
      ReadingTells(request, samples[k], k, now);
    }
  }

  /* ---------- Polling a controller ---------- */

  lemma {:induction false} OneBlockOfBank(blocks: seq<Block>, k: nat)
    requires k < |blocks|
    ensures Flatten(blocks)[4 * k..4 * k + 4] == Flatten([blocks[k]])
  {
    FlattenAt(blocks, k);
    var r := Flatten(blocks);
    assert r[4 * k..4 * k + 4] == BlockRegisters(BlockAt(r, k));
    assert [blocks[k]][..0] == [] && Flatten([]) == [];
    assert Flatten([blocks[k]]) == [] + BlockRegisters(blocks[k]);
  }

  /** The response is accepted iff the sample is reasonable, and then gives one reading, which tells it. */
  predicate ReadsAs(request: PollRequest, response: Bytes, s: Sample, number: int, now: int)
    requires ValidRequest(request) && request.startRegister >= 0 && IsTold(s.status)
  {
    && (Validate(request, response).Accepted? <==> IsReasonable(s))
    && (IsReasonable(s) ==> GivesOne(request, response, s, number, now))
  }

  predicate GivesOne(request: PollRequest, response: Bytes, s: Sample, number: int, now: int)
    requires ValidRequest(request) && request.startRegister >= 0 && IsTold(s.status)
  {
    && Parse(request, response, now).Ok? && |Parse(request, response, now).value| == 1
    && Tells(Parse(request, response, now).value[0], s, request, number, now)
  }

  predicate AnsweredAs(answer: Option<Bytes>, request: PollRequest, s: Sample, number: int, now: int)
    requires ValidRequest(request) && request.startRegister >= 0 && IsTold(s.status)
  {
    answer.Some? && ReadsAs(request, answer.value, s, number, now)
  }

  lemma {:induction false} OneSamplePolled(request: PollRequest, s: Sample, response: Bytes, number: int, now: int)
    requires ValidRequest(request) && request.startRegister >= 0 && request.registerCount == 4 && IsTold(s.status)
    requires number == request.startRegister / 4 + 1 && (request.sourceType.Controller? ==> number <= 255)
    requires response == ResponseFrame(request.unitAddress, request.functionCode, Bank([s]), LowByteFirst)
    ensures ReadsAs(request, response, s, number, now)
  {
    var one := [s];
    SamplesAcceptedIff(request, one, response);
    assert one[0] == s;
    if IsReasonable(s) {
      var b := OneReading(request, response, now);
      SamplesAreRead(request, one, response, now);
      assert Tells(Parse(request, response, now).value[0], one[0], request, request.startRegister / 4 + 1 + 0, now);
    }
  }

  lemma {:induction false} BankAnswers(request: PollRequest, samples: seq<Sample>, k: nat)
    requires AllTold(samples) && k < |samples|
    requires AsksFor(request.payload, LowByteFirst, request.unitAddress, 4 * k, 4)
    ensures 0 <= request.unitAddress <= 255
    ensures Answer(Bank(samples), request.payload, LowByteFirst)
            == Some(ResponseFrame(request.unitAddress, 3, Bank([samples[k]]), LowByteFirst))
  {
    AskedIsInRange(request.payload, LowByteFirst, request.unitAddress, 4 * k, 4);
    AnswerIs(Bank(samples), request.payload, LowByteFirst, request.unitAddress, 4 * k, 4);
    OneBlockOfBank(BlocksFor(samples), k);
    assert BlocksFor([samples[k]]) == [BlocksFor(samples)[k]];
  }

  /** Polling detector n of a controller that has these samples returns one reading, which tells the
      n-th sample; a number that is not reasonable is rejected. */
  lemma {:induction false} ControllerPolled(
    context: PollBuildContext, target: PollTarget, request: PollRequest, samples: seq<Sample>, now: int)
    requires context.sourceType.Controller? && ValidTarget(target) && RequestForTarget(context, target) == Ok(request)
    requires AllTold(samples) && target.detectorAddress.GetOr(0) <= |samples|
    ensures target.detectorAddress.Some? && target.detectorAddress.value >= 1
    ensures request.startRegister >= 0 && request.detectorId == Some(target.detectorId)
    ensures var answer, number := Answer(Bank(samples), request.payload, LowByteFirst), target.detectorAddress.value;
            AnsweredAs(answer, request, samples[number - 1], number, now)
  {
    TargetAsks(context, target);
    RequestPolled(request, samples, target.detectorAddress.value - 1, now);
  }

  lemma {:induction false} RequestPolled(request: PollRequest, samples: seq<Sample>, k: nat, now: int)
    requires AllTold(samples) && k < |samples| && k < 255
    requires ValidRequest(request) && request.sourceType.Controller? && request.functionCode == 3
    requires request.startRegister == 4 * k && request.registerCount == 4
    requires AsksFor(request.payload, LowByteFirst, request.unitAddress, 4 * k, 4)
    ensures var answer := Answer(Bank(samples), request.payload, LowByteFirst);
            AnsweredAs(answer, request, samples[k], k + 1, now)
  {
    BankAnswers(request, samples, k);
    OneSamplePolled(request, samples[k], Answer(Bank(samples), request.payload, LowByteFirst).value, k + 1, now);
  }

  /** The same for a probe, which has one sample. */
  lemma {:induction false} ProbePolled(
    context: PollBuildContext, target: PollTarget, request: PollRequest, s: Sample, now: int)
    requires context.sourceType.Probe? && ValidTarget(target) && RequestForTarget(context, target) == Ok(request)
    requires IsTold(s.status)
    ensures request.startRegister >= 0 && request.detectorId == Some(target.detectorId)
    ensures var answer := Answer(Bank([s]), request.payload, LowByteFirst);
            AnsweredAs(answer, request, s, 1, now)
  {
    TargetAsks(context, target);
    BankAnswers(request, [s], 0);
    OneSamplePolled(request, s, Answer(Bank([s]), request.payload, LowByteFirst).value, 1, now);
  }
}
