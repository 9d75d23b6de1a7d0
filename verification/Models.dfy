/** The values that pass between the device layer, the stores and the services. */
module Models {
  import opened Crc

  datatype Option<+T> = None | Some(value: T) {
    function GetOr(default: T): T {
      if Some? then value else default
    }
  }

  /** The outcome of an operation that may raise ValueError. */
  datatype Result<+T> = Ok(value: T) | ValueError

  datatype ProtocolMode = Protocol1Mode | Protocol2Mode

  datatype SourceType = Controller | Probe

  datatype DeviceStatus =
    | Normal | AlarmLow | AlarmHigh | Fault | Offline | Disabled | OverRange | Warming | Invalid

  datatype RawStatus = RawCode(code: int) | RawText(text: string)

  datatype DeviceReading = DeviceReading(
    protocol: ProtocolMode,
    sourceType: SourceType,
    portId: int,
    controllerId: Option<int>,
    detectorId: int,
    controllerAddress: Option<int>,
    detectorAddress: Option<int>,
    status: DeviceStatus,
    concentration: Option<real>,
    gasType: Option<string>,
    unit: Option<string>,
    alarmLevel: Option<nat>,
    rawStatus: RawStatus,
    timestamp: int)

  predicate PositiveOrNone(x: Option<int>) {
    x.Some? ==> x.value > 0
  }

  predicate AddressOrNone(x: Option<int>) {
    x.Some? ==> 0 <= x.value <= 255
  }

  /** The field checks of DeviceReading.__post_init__ that its builders can fail. */
  predicate ReadingFieldsValid(r: DeviceReading) {
    && r.portId > 0
    && PositiveOrNone(r.controllerId)
    && r.detectorId > 0
    && AddressOrNone(r.controllerAddress)
    && AddressOrNone(r.detectorAddress)
  }

  datatype PollTarget = PollTarget(
    detectorId: int,
    detectorAddress: Option<int>,
    controllerId: Option<int>,
    controllerAddress: Option<int>)

  predicate ValidTarget(t: PollTarget) {
    && t.detectorId > 0
    && PositiveOrNone(t.controllerId)
    && AddressOrNone(t.detectorAddress)
    && AddressOrNone(t.controllerAddress)
  }

  datatype PollBuildContext = PollBuildContext(
    protocol: ProtocolMode,
    sourceType: SourceType,
    portId: int,
    targets: seq<PollTarget>,
    defaultTimeoutMs: int)

  predicate ValidContext(c: PollBuildContext) {
    && c.portId > 0
    && c.targets != []
    && (forall t :: t in c.targets ==> ValidTarget(t))
    && 1 <= c.defaultTimeoutMs <= 60_000
  }

  /** startRegister and registerCount are the two integers kept in the metadata. */
  datatype PollRequest = PollRequest(
    protocol: ProtocolMode,
    sourceType: SourceType,
    portId: int,
    unitAddress: int,
    functionCode: int,
    payload: Bytes,
    timeoutMs: int,
    crcByteOrder: ByteOrder,
    detectorId: Option<int>,
    controllerId: Option<int>,
    startRegister: int,
    registerCount: int)

  /** The field checks of PollRequest.__post_init__. */
  predicate ValidRequest(r: PollRequest) {
    && r.portId > 0
    && 0 <= r.unitAddress <= 255
    && 1 <= r.functionCode <= 127
    && 0 < |r.payload| <= 4096
    && 1 <= r.timeoutMs <= 60_000
    && PositiveOrNone(r.detectorId)
    && PositiveOrNone(r.controllerId)
  }
}
