/** What the two protocol adapters share: register lists, the request frame, and the
    validation that precedes any look at the data. */
module Modbus {
  import opened Crc
  import opened Models

  const READ_HOLDING_REGISTERS := 3
  const MAX_FRAME_BYTES := 4096

  datatype ErrorCode =
    | EmptyResponse | FrameTooLarge | LengthMismatch | AddressMismatch
    | FunctionMismatch | CrcMismatch | UnknownStatus | InvalidData

  datatype Verdict = Accepted | Rejected(code: ErrorCode)

  /* ---------- Integers in a byte or a register ---------- */

  /** The byte of value n. */
  function ToByte(n: nat): bv8
    requires n < 256
  {
    if n == 0 then 0 else ToByte(n - 1) + 1
  }

  lemma {:induction false} NextByte(b: bv8)
    requires b as int < 255
    ensures (b + 1) as int == b as int + 1
  {}

  lemma {:induction false} ToByteValue(n: nat)
    requires n < 256
    ensures ToByte(n) as int == n
  {
    if n > 0 {
      ToByteValue(n - 1);
      NextByte(ToByte(n - 1));
    }
  }

  lemma {:induction false} ByteOfValue(b: bv8, n: nat)
    requires n < 256
    ensures b == ToByte(n) <==> b as int == n
  {
    ToByteValue(n);
    assert (b as int) as bv8 == b;
    assert (ToByte(n) as int) as bv8 == ToByte(n);
  }

  /* ---------- Registers: big-endian byte pairs ---------- */

  function RegisterOf(high: bv8, low: bv8): bv16 {
    ((high as bv16) << 8) | (low as bv16)
  }

  function RegisterHigh(r: bv16): bv8 {
    ((r >> 8) & 0xFF) as bv8
  }

  function RegisterLow(r: bv16): bv8 {
    (r & 0xFF) as bv8
  }

  /** The source's comprehension; a trailing single byte becomes a register of its own. */
  function Registers(payload: Bytes): seq<bv16> {
    if |payload| == 0 then []
    else if |payload| == 1 then [payload[0] as bv16]
    else [RegisterOf(payload[0], payload[1])] + Registers(payload[2..])
  }

  function RegisterBytes(registers: seq<bv16>): (bytes: Bytes)
    ensures |bytes| == 2 * |registers|
  {
    if |registers| == 0 then []
    else [RegisterHigh(registers[0]), RegisterLow(registers[0])] + RegisterBytes(registers[1..])
  }

  lemma {:induction false} JoinSplit(high: bv8, low: bv8)
    ensures RegisterHigh(RegisterOf(high, low)) == high
    ensures RegisterLow(RegisterOf(high, low)) == low
  {}

  lemma {:induction false} SplitJoin(r: bv16)
    ensures RegisterOf(RegisterHigh(r), RegisterLow(r)) == r
  {}

  /** A register holds the number that its two bytes make, high byte first. */
  lemma {:induction false} RegisterValue(high: bv8, low: bv8)
    ensures RegisterOf(high, low) as int == 256 * (high as int) + low as int
  {
    assert (((high as bv16) << 8) | (low as bv16)) as int == 256 * (high as int) + (low as bv16) as int;
  }

  lemma {:induction false} RegistersOfBytes(registers: seq<bv16>)
    ensures Registers(RegisterBytes(registers)) == registers
  {
    if |registers| > 0 {
      SplitJoin(registers[0]);
      RegistersOfBytes(registers[1..]);
      assert RegisterBytes(registers)[2..] == RegisterBytes(registers[1..]);
    }
  }

  lemma {:induction false} BytesOfRegisters(payload: Bytes)
    requires |payload| % 2 == 0
    ensures RegisterBytes(Registers(payload)) == payload
    ensures 2 * |Registers(payload)| == |payload|
  {
    if |payload| > 0 {
      JoinSplit(payload[0], payload[1]);
      BytesOfRegisters(payload[2..]);
      assert payload == [payload[0], payload[1]] + payload[2..];
      assert Registers(payload)[1..] == Registers(payload[2..]);
    }
  }

  /* ---------- The request frame ---------- */

  function ReadRequestPayload(unitAddress: int, startRegister: int, registerCount: int): Bytes
    requires 0 <= unitAddress <= 255 && 0 <= startRegister <= 65535 && 0 <= registerCount <= 65535
  {
    [ToByte(unitAddress), ToByte(READ_HOLDING_REGISTERS),
     ToByte(startRegister / 256), ToByte(startRegister % 256),
     ToByte(registerCount / 256), ToByte(registerCount % 256)]
  }

  /** The number in two bytes, high byte first. */
  function WordOf(high: bv8, low: bv8): nat {
    256 * (high as int) + low as int
  }

  lemma {:induction false} WordOfParts(n: nat)
    requires n < 65536
    ensures WordOf(ToByte(n / 256), ToByte(n % 256)) == n
  {
    ToByteValue(n / 256);
    ToByteValue(n % 256);
  }

  /** The frame asks the unit for count registers from start on: function 3, both numbers high byte
      first, and a check field in the adapter's order. */
  predicate AsksFor(frame: Bytes, order: ByteOrder, unitAddress: int, start: int, count: int) {
    && |frame| == 8 && CheckFrameCrc(frame, order)
    && frame[0] as int == unitAddress && frame[1] == 3
    && WordOf(frame[2], frame[3]) == start && WordOf(frame[4], frame[5]) == count
  }

  lemma {:induction false} RequestFrameAsks(unitAddress: int, start: int, count: int, order: ByteOrder)
    requires 0 <= unitAddress <= 255 && 0 <= start <= 65535 && 0 <= count <= 65535
    ensures AsksFor(AppendCrc16(ReadRequestPayload(unitAddress, start, count), order), order, unitAddress, start, count)
  {
    var payload := ReadRequestPayload(unitAddress, start, count);
    var frame := AppendCrc16(payload, order);
    AppendedPasses(payload, order);
    assert forall i :: 0 <= i < 6 ==> frame[i] == payload[i];
    ToByteValue(unitAddress);
    ByteOfValue(3, READ_HOLDING_REGISTERS);
    WordOfParts(start);
    WordOfParts(count);
  }

  /* ---------- Validation before the data ---------- */

  /** _validate_response_base, the same in both adapters up to the byte order. */
  function ValidateBase(request: PollRequest, response: Bytes, order: ByteOrder): Verdict
    requires ValidRequest(request)
  {
    if response == [] then Rejected(EmptyResponse)
    else if |response| > MAX_FRAME_BYTES then Rejected(FrameTooLarge)
    else if |response| < 5 then Rejected(LengthMismatch)
    else if response[0] != ToByte(request.unitAddress) then Rejected(AddressMismatch)
    else if response[1] != ToByte(request.functionCode) then Rejected(FunctionMismatch)
    else if !CheckFrameCrc(response, order) then Rejected(CrcMismatch)
    else if !ByteCountMatches(response[2], |response|, request.registerCount) then Rejected(LengthMismatch)
    else Accepted
  }

  predicate ByteCountMatches(byteCount: bv8, length: nat, registerCount: int) {
    length == 3 + byteCount as int + 2 && byteCount as int == registerCount * 2 && (byteCount as int) % 2 == 0
  }

  lemma {:induction false} ByteCountMatch(byteCount: bv8, length: nat, registerCount: int)
    ensures ByteCountMatches(byteCount, length, registerCount)
       <==> 0 <= registerCount <= 127 && length == 5 + 2 * registerCount && byteCount == ToByte(2 * registerCount)
  {
    if 0 <= registerCount <= 127 {
      ByteOfValue(byteCount, 2 * registerCount);
    }
  }

  /** The response that carries these registers. */
  function ResponseFrame(unitAddress: int, functionCode: int, registers: seq<bv16>, order: ByteOrder): Bytes
    requires 0 <= unitAddress <= 255 && 0 <= functionCode <= 255 && |registers| <= 127
  {
    AppendCrc16([ToByte(unitAddress), ToByte(functionCode), ToByte(2 * |registers|)] + RegisterBytes(registers), order)
  }

  function DataRegisters(response: Bytes): seq<bv16>
    requires |response| >= 5
  {
    Registers(response[3..|response| - 2])
  }

  /** The response is the frame that carries these registers, as many as were requested. */
  predicate CarriesRegisters(request: PollRequest, response: Bytes, registers: seq<bv16>, order: ByteOrder)
    requires ValidRequest(request)
  {
    && |registers| == request.registerCount <= 127
    && response == ResponseFrame(request.unitAddress, request.functionCode, registers, order)
  }

  lemma {:induction false} AppendedPasses(payload: Bytes, order: ByteOrder)
    requires payload != []
    ensures var f := AppendCrc16(payload, order);
            |f| == |payload| + 2 && f[..|f| - 2] == payload && CheckFrameCrc(f, order)
  {}

  lemma {:induction false} ResponseFrameShape(
    unitAddress: int, functionCode: int, registers: seq<bv16>, order: ByteOrder)
    requires 0 <= unitAddress <= 255 && 0 <= functionCode <= 255 && |registers| <= 127
    ensures var f := ResponseFrame(unitAddress, functionCode, registers, order);
            && |f| == 5 + 2 * |registers|
            && f[0] == ToByte(unitAddress) && f[1] == ToByte(functionCode) && f[2] == ToByte(2 * |registers|)
            && CheckFrameCrc(f, order)
            && DataRegisters(f) == registers
  {
    var header := [ToByte(unitAddress), ToByte(functionCode), ToByte(2 * |registers|)];
    var f := ResponseFrame(unitAddress, functionCode, registers, order);
    AppendedPasses(header + RegisterBytes(registers), order);
    assert f[..|f| - 2][3..] == f[3..|f| - 2] == RegisterBytes(registers);
    RegistersOfBytes(registers);
  }

  lemma {:induction false} PassingIsAppended(frame: Bytes, order: ByteOrder)
    requires |frame| > 2 && CheckFrameCrc(frame, order)
    ensures frame == AppendCrc16(frame[..|frame| - 2], order)
  {}

  /** What the checks of base validation leave of a response. */
  lemma {:induction false} AcceptedHeader(request: PollRequest, response: Bytes, order: ByteOrder)
    requires ValidRequest(request) && ValidateBase(request, response, order).Accepted?
    ensures 0 <= request.registerCount <= 127 && |response| == 5 + 2 * request.registerCount
    ensures response[0] == ToByte(request.unitAddress) && response[1] == ToByte(request.functionCode)
    ensures response[2] == ToByte(2 * request.registerCount)
    ensures CheckFrameCrc(response, order)
  {
    ByteCountMatch(response[2], |response|, request.registerCount);
  }

  lemma {:induction false} PayloadOfHeader(response: Bytes, unit: bv8, func: bv8, count: bv8)
    requires |response| >= 5 && |response| % 2 == 1
    requires response[0] == unit && response[1] == func && response[2] == count
    ensures response[..|response| - 2] == [unit, func, count] + RegisterBytes(DataRegisters(response))
    ensures 2 * |DataRegisters(response)| == |response| - 5
  {
    BytesOfRegisters(response[3..|response| - 2]);
    assert response[..|response| - 2] == [response[0], response[1], response[2]] + response[3..|response| - 2];
  }

  lemma {:induction false} FrameFromHeader(
    response: Bytes, unitAddress: int, functionCode: int, count: int, order: ByteOrder)
    requires 0 <= unitAddress <= 255 && 0 <= functionCode <= 255
    requires 0 <= count <= 127 && |response| == 5 + 2 * count
    requires response[0] == ToByte(unitAddress) && response[1] == ToByte(functionCode)
    requires response[2] == ToByte(2 * count)
    requires CheckFrameCrc(response, order)
    ensures |DataRegisters(response)| == count
    ensures response == ResponseFrame(unitAddress, functionCode, DataRegisters(response), order)
  {
    PayloadOfHeader(response, ToByte(unitAddress), ToByte(functionCode), ToByte(2 * count));
    PassingIsAppended(response, order);
  }

  /** An accepted response is the frame that carries its own registers. */
  lemma {:induction false} AcceptedIsFrame(request: PollRequest, response: Bytes, order: ByteOrder)
    requires ValidRequest(request) && ValidateBase(request, response, order).Accepted?
    ensures |response| >= 5 && CarriesRegisters(request, response, DataRegisters(response), order)
  {
    AcceptedHeader(request, response, order);
    FrameFromHeader(response, request.unitAddress, request.functionCode, request.registerCount, order);
  }

  lemma {:induction false} FrameIsAccepted(request: PollRequest, registers: seq<bv16>, order: ByteOrder)
    requires ValidRequest(request) && |registers| == request.registerCount <= 127
    ensures var f := ResponseFrame(request.unitAddress, request.functionCode, registers, order);
            ValidateBase(request, f, order).Accepted? && |f| >= 5 && DataRegisters(f) == registers
  {
    var f := ResponseFrame(request.unitAddress, request.functionCode, registers, order);
    ResponseFrameShape(request.unitAddress, request.functionCode, registers, order);
    ByteCountMatch(f[2], |f|, request.registerCount);
  }

  /** The frame has a length that can be looked at. */
  predicate IsReadable(response: Bytes) {
    5 <= |response| <= 4096
  }

  /** Which error a response is rejected with: the first check that it fails. */
  lemma {:induction false} BaseRejections(request: PollRequest, response: Bytes, order: ByteOrder)
    requires ValidRequest(request)
    ensures var v := ValidateBase(request, response, order);
            && (v == Rejected(EmptyResponse) <==> response == [])
            && (v == Rejected(FrameTooLarge) <==> |response| > 4096)
            && (v == Rejected(AddressMismatch)
                <==> IsReadable(response) && response[0] as int != request.unitAddress)
            && (v == Rejected(FunctionMismatch)
                <==> IsReadable(response) && response[0] as int == request.unitAddress
                     && response[1] as int != request.functionCode)
            && (v == Rejected(CrcMismatch)
                <==> IsReadable(response) && response[0] as int == request.unitAddress
                     && response[1] as int == request.functionCode && !CheckFrameCrc(response, order))
            && v != Rejected(UnknownStatus) && v != Rejected(InvalidData)
  {
    if IsReadable(response) {
      ByteOfValue(response[0], request.unitAddress);
      ByteOfValue(response[1], request.functionCode);
    }
  }

  /** Base validation accepts exactly the frames that carry the requested number of registers. */
  lemma {:induction false} BaseAcceptsExactlyFrames(request: PollRequest, response: Bytes, order: ByteOrder)
    requires ValidRequest(request)
    ensures ValidateBase(request, response, order).Accepted?
            <==> (exists registers :: CarriesRegisters(request, response, registers, order))
  {
    if ValidateBase(request, response, order).Accepted? {
      AcceptedIsFrame(request, response, order);
      assert CarriesRegisters(request, response, DataRegisters(response), order);
    }
    if registers :| CarriesRegisters(request, response, registers, order) {
      FrameIsAccepted(request, registers, order);
    }
  }
}
