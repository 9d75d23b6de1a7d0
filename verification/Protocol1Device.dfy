/** A Protocol 1 device: what a controller and a probe put into their registers, and that polling
    them returns exactly that. */
module Protocol1Device {
  import opened Crc
  import opened Models
  import opened Modbus
  import opened Protocol1
  import opened Devices

  /* ---------- Controllers ---------- */

  /** What a controller tells of one detector. */
  datatype Sample = Sample(status: DeviceStatus, value: bv16)

  predicate IsTold(status: DeviceStatus) {
    status in {Normal, Fault, AlarmLow}
  }

  function StatusCode(status: DeviceStatus): bv16
    requires IsTold(status)
  {
    match status
    case Normal => 0
    case Fault => 1
    case AlarmLow => 2
  }

  ghost predicate AllTold(samples: seq<Sample>) {
    forall k :: 0 <= k < |samples| ==> IsTold(samples[k].status)
  }

  /** Two registers a detector: its status, then its value. */
  function Bank(samples: seq<Sample>): (registers: seq<bv16>)
    requires AllTold(samples)
    ensures |registers| == 2 * |samples|
  {
    if |samples| == 0 then []
    else
      var last := samples[|samples| - 1];
      Bank(samples[..|samples| - 1]) + [StatusCode(last.status), last.value]
  }

  /** The reading tells the sample, and that it is of this detector of this controller. */
  predicate Tells(r: DeviceReading, s: Sample, request: PollRequest, number: int, now: int)
    requires IsTold(s.status)
  {
    && r.status == s.status && r.alarmLevel == (if s.status == AlarmLow then Some(1) else None)
    && r.concentration == Some(s.value as int as real) && r.unit == None && r.gasType == None
    && r.rawStatus == RawCode(StatusCode(s.status) as int)
    && r.protocol == Protocol1Mode && r.sourceType == Controller && r.portId == request.portId
    && r.controllerId == request.controllerId && r.timestamp == now
    && r.controllerAddress == Some(request.unitAddress) && r.detectorAddress == Some(number)
    && r.detectorId == (if request.detectorId.Some? then request.detectorId.value else number)
  }

  lemma {:induction false} BankAt(samples: seq<Sample>, k: nat)
    requires AllTold(samples) && k < |samples|
    ensures Bank(samples)[2 * k] == StatusCode(samples[k].status) && Bank(samples)[2 * k + 1] == samples[k].value
  {
    if k < |samples| - 1 {
      BankAt(samples[..|samples| - 1], k);
    }
  }

  lemma {:induction false} BankIsKnown(samples: seq<Sample>)
    requires AllTold(samples) && |samples| <= 10
    ensures ValidRegisters(Controller, Bank(samples))
  {
    forall k | 0 <= k < |samples|
      ensures KnownStatus(Bank(samples), k)
    {
      BankAt(samples, k);
    }
  }

  /** What a controller put into its registers is what the readings tell, detector by detector. */
  lemma {:induction false} SamplesAreRead(request: PollRequest, samples: seq<Sample>, response: Bytes, now: int)
    requires ValidRequest(request) && request.startRegister >= 0 && request.sourceType.Controller?
    requires AllTold(samples) && 2 * |samples| == request.registerCount && 1 <= |samples| <= 10
    requires response == ResponseFrame(request.unitAddress, request.functionCode, Bank(samples), HighByteFirst)
    ensures Validate(request, response).Accepted?
    ensures Parse(request, response, now).Ok? <==> request.startRegister / 2 + |samples| <= 255
    ensures Parse(request, response, now).Ok? ==> AllTell(Parse(request, response, now).value, samples, request, now)
  {
    BankIsKnown(samples);
    assert Encodes(request, Bank(samples), response);
    EncodingAccepted(request, Bank(samples), response);
    ControllerParseInverts(request, Bank(samples), response, now);
    if Parse(request, response, now).Ok? {
      MatchingTell(request, samples, Parse(request, response, now).value, now);
    }
  }

  predicate AllTell(readings: seq<DeviceReading>, samples: seq<Sample>, request: PollRequest, now: int)
    requires AllTold(samples)
  {
    && |readings| == |samples|
    && forall k :: 0 <= k < |samples| ==>
         Tells(readings[k], samples[k], request, request.startRegister / 2 + 1 + k, now)
  }

  lemma {:induction false} MatchingTell(
    request: PollRequest, samples: seq<Sample>, readings: seq<DeviceReading>, now: int)
    requires request.startRegister >= 0 && AllTold(samples) && ReadingsMatch(request, Bank(samples), readings, now)
    ensures AllTell(readings, samples, request, now)
  {
    forall k | 0 <= k < |samples|
      ensures Tells(readings[k], samples[k], request, request.startRegister / 2 + 1 + k, now)
    {
      BankAt(samples, k);
      PairTells(request, samples[k], k, now);
    }
  }

  lemma {:induction false} PairTells(request: PollRequest, s: Sample, k: nat, now: int)
    requires request.startRegister >= 0 && IsTold(s.status)
    ensures Tells(ControllerReading(request, StatusCode(s.status), s.value, k, now), s, request,
                  request.startRegister / 2 + 1 + k, now)
  {
  }

  /** The response is accepted and gives one reading, which tells the sample. */
  predicate ReadsAs(request: PollRequest, response: Bytes, s: Sample, number: int, now: int)
    requires ValidRequest(request) && request.startRegister >= 0 && request.registerCount >= 1 && IsTold(s.status)
  {
    && Validate(request, response).Accepted?
    && Parse(request, response, now).Ok? && |Parse(request, response, now).value| == 1
    && Tells(Parse(request, response, now).value[0], s, request, number, now)
  }

  predicate AnsweredAs(answer: Option<Bytes>, request: PollRequest, s: Sample, number: int, now: int)
    requires ValidRequest(request) && request.startRegister >= 0 && request.registerCount >= 1 && IsTold(s.status)
  {
    answer.Some? && ReadsAs(request, answer.value, s, number, now)
  }

  lemma {:induction false} OneSamplePolled(request: PollRequest, s: Sample, response: Bytes, number: int, now: int)
    requires ValidRequest(request) && request.startRegister >= 0 && request.sourceType.Controller? && IsTold(s.status)
    requires request.registerCount == 2 && number == request.startRegister / 2 + 1 <= 255
    requires response == ResponseFrame(request.unitAddress, request.functionCode, Bank([s]), HighByteFirst)
    ensures ReadsAs(request, response, s, number, now)
  {
    var one := [s];
    SamplesAreRead(request, one, response, now);
    assert one[0] == s && request.startRegister / 2 + 1 + 0 == request.startRegister / 2 + 1;
  }

  lemma {:induction false} BankAnswers(request: PollRequest, samples: seq<Sample>, k: nat)
    requires AllTold(samples) && k < |samples|
    requires AsksFor(request.payload, HighByteFirst, request.unitAddress, 2 * k, 2)
    ensures 0 <= request.unitAddress <= 255
    ensures Answer(Bank(samples), request.payload, HighByteFirst)
            == Some(ResponseFrame(request.unitAddress, 3, Bank([samples[k]]), HighByteFirst))
  {
    AskedIsInRange(request.payload, HighByteFirst, request.unitAddress, 2 * k, 2);
    AnswerIs(Bank(samples), request.payload, HighByteFirst, request.unitAddress, 2 * k, 2);
    OnePairOfBank(samples, k);
  }

  lemma {:induction false} OnePairOfBank(samples: seq<Sample>, k: nat)
    requires AllTold(samples) && k < |samples|
    ensures Bank(samples)[2 * k..2 * k + 2] == Bank([samples[k]])
  {
    var one := [samples[k]];
    BankAt(samples, k);
    BankAt(one, 0);
    assert Bank(samples)[2 * k..2 * k + 2] == [Bank(samples)[2 * k], Bank(samples)[2 * k + 1]];
    assert Bank(one) == [Bank(one)[2 * 0], Bank(one)[2 * 0 + 1]];
  }

  /** Polling detector n of a controller that has these samples returns one reading, which tells the
      n-th sample. */
  lemma {:induction false} ControllerPolled(
    context: PollBuildContext, target: PollTarget, request: PollRequest, samples: seq<Sample>, now: int)
    requires context.sourceType.Controller? && ValidTarget(target) && RequestForTarget(context, target) == Ok(request)
    requires AllTold(samples) && target.detectorAddress.GetOr(0) <= |samples|
    ensures target.detectorAddress.Some? && target.detectorAddress.value >= 1
    ensures request.startRegister >= 0 && request.registerCount >= 1 && request.detectorId == Some(target.detectorId)
    ensures var answer, number := Answer(Bank(samples), request.payload, HighByteFirst), target.detectorAddress.value;
            AnsweredAs(answer, request, samples[number - 1], number, now)
  {
    TargetAsks(context, target);
    RequestPolled(request, samples, target.detectorAddress.value - 1, now);
  }

  lemma {:induction false} RequestPolled(request: PollRequest, samples: seq<Sample>, k: nat, now: int)
    requires AllTold(samples) && k < |samples| && k < 255
    requires ValidRequest(request) && request.sourceType.Controller? && request.functionCode == 3
    requires request.startRegister == 2 * k && request.registerCount == 2
    requires AsksFor(request.payload, HighByteFirst, request.unitAddress, 2 * k, 2)
    ensures var answer := Answer(Bank(samples), request.payload, HighByteFirst);
            AnsweredAs(answer, request, samples[k], k + 1, now)
  {
    BankAnswers(request, samples, k);
    OneSamplePolled(request, samples[k], Answer(Bank(samples), request.payload, HighByteFirst).value, k + 1, now);
  }

  /* ---------- Probes ---------- */

  datatype Gas =
    | CombustibleGas | CarbonMonoxide | HydrogenSulphide | Ammonia | Chlorine | Oxygen | Methane | Hydrogen
    | SulphurDioxide | OtherGas(code: bv8)

  datatype Unit =
    | NoUnit | PercentLel | PartsPerMillion | PercentVolume | Celsius | Humidity | Percent | OtherUnit(code: bv8)

  /** alarms has a bit for each of the four alarm levels. */
  datatype State = State(invalid: bool, warming: bool, fault: bool, high: bool, alarms: bv4)

  /** value is in units of the last decimal place. */
  datatype ProbeSample = ProbeSample(value: int, decimals: bv8, state: State, gas: Gas, unit: Unit)

  predicate CanBeSent(s: ProbeSample) {
    && -0x8000 < s.value < 0x8000
    && (s.gas.OtherGas? ==> s.gas.code > 7 && s.gas.code != 46)
    && (s.unit.OtherUnit? ==> s.unit.code > 6)
  }

  function GasCode(g: Gas): bv8 {
    match g
    case CombustibleGas => 0
    case CarbonMonoxide => 1
    case HydrogenSulphide => 2
    case Ammonia => 3
    case Chlorine => 4
    case Oxygen => 5
    case Methane => 6
    case Hydrogen => 7
    case SulphurDioxide => 46
    case OtherGas(code) => code
  }

  function UnitCode(u: Unit): bv8 {
    match u
    case NoUnit => 0
    case PercentLel => 1
    case PartsPerMillion => 2
    case PercentVolume => 3
    case Celsius => 4
    case Humidity => 5
    case Percent => 6
    case OtherUnit(code) => code
  }

  function StateByte(s: State): bv8 {
    (if s.invalid then 0x80 else 0) | (if s.warming then 0x40 else 0) | (if s.fault then 0x20 else 0)
    | (if s.high then 0x10 else 0) | (s.alarms as bv8)
  }

  function GasFor(g: Gas): Option<string> {
    match g
    case CombustibleGas => Some("可燃气体")
    case CarbonMonoxide => Some("一氧化碳CO")
    case HydrogenSulphide => Some("硫化氢H2S")
    case Ammonia => Some("氨气NH3")
    case Chlorine => Some("氯气Cl2")
    case Oxygen => Some("氧气O2")
    case Methane => Some("甲烷CH4")
    case Hydrogen => Some("氢气H2")
    case SulphurDioxide => Some("二氧化硫 SO2")
    case OtherGas(_) => None
  }

  function UnitFor(u: Unit): Option<string> {
    match u
    case NoUnit => Some("无")
    case PercentLel => Some("%LEL")
    case PartsPerMillion => Some("ppm")
    case PercentVolume => Some("%Vol")
    case Celsius => Some("℃")
    case Humidity => Some("%RH")
    case Percent => Some("%")
    case OtherUnit(_) => None
  }

  const POWERS_OF_TEN := [1.0, 10.0, 100.0, 1_000.0, 10_000.0, 100_000.0, 1_000_000.0]

  /** A sample that marks itself invalid, or has more than six decimal places, gives no number. */
  predicate IsUsable(s: ProbeSample) {
    !s.state.invalid && s.decimals <= 6
  }

  function StatusFor(s: ProbeSample): DeviceStatus {
    if !IsUsable(s) then Invalid
    else if s.state.warming then Warming
    else if s.state.fault then Fault
    else if s.state.alarms == 0 then Normal
    else if s.state.high then AlarmHigh
    else AlarmLow
  }

  /** The number of the highest alarm bit, from 1 to 4, while in alarm. */
  function LevelFor(s: ProbeSample): Option<nat> {
    if StatusFor(s) != AlarmHigh && StatusFor(s) != AlarmLow then None
    else if s.state.alarms >= 8 then Some(4)
    else if s.state.alarms >= 4 then Some(3)
    else if s.state.alarms >= 2 then Some(2)
    else Some(1)
  }

  predicate TellsProbe(r: DeviceReading, s: ProbeSample, request: PollRequest, now: int) {
    && r.status == StatusFor(s) && r.alarmLevel == LevelFor(s)
    && (if IsUsable(s) then
          r.concentration.Some? && r.concentration.value * POWERS_OF_TEN[s.decimals as int] == s.value as real
        else
          r.concentration == None)
    && r.gasType == GasFor(s.gas) && r.unit == UnitFor(s.unit) && r.rawStatus == RawCode(StateByte(s.state) as int)
    && r.protocol == Protocol1Mode && r.sourceType == Probe && r.portId == request.portId && r.timestamp == now
    && r.controllerId == None && r.controllerAddress == None && r.detectorAddress == Some(request.unitAddress)
    && r.detectorId == (if request.detectorId.Some? then request.detectorId.value else request.unitAddress)
  }

  lemma {:induction false} StateIsRead(s: State)
    ensures var b := StateByte(s);
            && (b & 0x80 != 0 <==> s.invalid) && (b & 0x40 != 0 <==> s.warming) && (b & 0x20 != 0 <==> s.fault)
            && (b & 0x10 != 0 <==> s.high) && (b & 0x0F != 0 <==> s.alarms != 0)
            && (b & 0x08 != 0 <==> s.alarms >= 8)
            && (b & 0x0C != 0 <==> s.alarms >= 4) && (b & 0x0E != 0 <==> s.alarms >= 2)
  {}

  lemma {:induction false} NibbleParts(b: bv8)
    ensures b & 0x0C != 0 <==> b & 0x08 != 0 || b & 0x04 != 0
    ensures b & 0x0E != 0 <==> b & 0x08 != 0 || b & 0x04 != 0 || b & 0x02 != 0
  {}

  lemma {:induction false} PowersOfTen(n: nat)
    requires n <= 6
    ensures Pow10(n) == POWERS_OF_TEN[n]
  {
    if n > 0 {
      PowersOfTen(n - 1);
    }
  }

  lemma {:induction false} SmallNumber(d: bv8)
    ensures d <= 6 <==> d as int <= 6
  {}

  /** The status byte is read as the status and the level that it stands for. */
  lemma {:induction false} StateTells(s: ProbeSample)
    requires s.decimals <= 6
    ensures ProbeStatus(StateByte(s.state)) == (StatusFor(s), LevelFor(s))
  {
    StateIsRead(s.state);
    NibbleParts(StateByte(s.state));
  }

  lemma {:induction false} NamesTell(s: ProbeSample)
    requires CanBeSent(s)
    ensures GasName(GasCode(s.gas)) == GasFor(s.gas) && UnitName(UnitCode(s.unit)) == UnitFor(s.unit)
  {
  }

  function DataFor(s: ProbeSample): ProbeData {
    ProbeData(s.value, StateByte(s.state), Some(GasCode(s.gas)), Some(UnitCode(s.unit)), s.decimals as int)
  }

  lemma {:induction false} ProbeReadingTells(request: PollRequest, s: ProbeSample, now: int)
    requires CanBeSent(s)
    ensures TellsProbe(ProbeReading(request, DataFor(s), now), s, request, now)
  {
    StateIsRead(s.state);
    NamesTell(s);
    SmallNumber(s.decimals);
    ProbeReadingMeaning(request, DataFor(s), now);
    if s.decimals <= 6 {
      StateTells(s);
      PowersOfTen(s.decimals as int);
    }
  }

  /** What a probe has in its registers; the spare bytes and what follows have no meaning. */
  function ProbeBank(s: ProbeSample, spare1: bv8, spare3: bv8, rest: seq<bv16>): seq<bv16>
    requires CanBeSent(s)
  {
    ProbeRegisters(s.value, StateByte(s.state), GasCode(s.gas), UnitCode(s.unit), s.decimals, spare1, spare3, rest)
  }

  predicate ProbeReadsAs(request: PollRequest, response: Bytes, s: ProbeSample, now: int)
    requires ValidRequest(request) && request.startRegister >= 0 && request.registerCount >= 1
  {
    && Validate(request, response).Accepted?
    && Parse(request, response, now).Ok? && |Parse(request, response, now).value| == 1
    && TellsProbe(Parse(request, response, now).value[0], s, request, now)
  }

  lemma {:induction false} ProbeBankRead(
    request: PollRequest, s: ProbeSample, spare1: bv8, spare3: bv8, rest: seq<bv16>, response: Bytes, now: int)
    requires ValidRequest(request) && request.startRegister >= 0
    requires request.sourceType.Probe? && request.detectorId.Some?
    requires CanBeSent(s) && |rest| == 11 && request.registerCount == 15
    requires response
             == ResponseFrame(request.unitAddress, request.functionCode, ProbeBank(s, spare1, spare3, rest),
                              HighByteFirst)
    ensures ProbeReadsAs(request, response, s, now)
  {
    ProbeRoundTrip(request, s.value, StateByte(s.state), GasCode(s.gas), UnitCode(s.unit), s.decimals, spare1, spare3,
                   rest, response, now);
    ProbeReadingTells(request, s, now);
  }

  /** Polling a probe that sends this sample returns one reading, which tells it. */
  lemma {:induction false} ProbePolled(
    context: PollBuildContext, target: PollTarget, request: PollRequest, s: ProbeSample, spare1: bv8, spare3: bv8,
    rest: seq<bv16>, now: int)
    requires context.sourceType.Probe? && ValidTarget(target) && RequestForTarget(context, target) == Ok(request)
    requires CanBeSent(s) && |rest| >= 11
    ensures request.startRegister >= 0 && request.registerCount >= 1 && request.detectorId == Some(target.detectorId)
    ensures var answer := Answer(ProbeBank(s, spare1, spare3, rest), request.payload, HighByteFirst);
            answer.Some? && ProbeReadsAs(request, answer.value, s, now)
  {
    TargetAsks(context, target);
    var bank := ProbeBank(s, spare1, spare3, rest);
    AnswerIs(bank, request.payload, HighByteFirst, request.unitAddress, 0, 15);
    assert bank[0..15] == ProbeBank(s, spare1, spare3, rest[..11]);
    ProbeBankRead(request, s, spare1, spare3, rest[..11], Answer(bank, request.payload, HighByteFirst).value, now);
  }
}
