/**
 * The wire message contract: the request and response messages the device
 * protocol defines. Their Rust definitions are generated from the device's
 * .proto file at build time; that generated module is not part of this model,
 * so only the fields and enumeration values the client reads or writes appear
 * here.
 */
module Messages {
  import opened Wrappers
  import opened Ints

  /** `Info::Magick`: the byte that opens every frame. Its value lives in the
      generated code; it is left unspecified, so every proof holds for any value. */
  const MAGICK: byte

  /** `Info::LaserSetupId`, unspecified for the same reason. */
  const LASER_SETUP_ID: u32

  /** `Info::ProtocolVersion`, unspecified for the same reason. */
  const PROTOCOL_VERSION: u32

  /** The global status of a response: `Status::Ok` and `Status::I2c` are the
      two the client distinguishes; every other variant of the generated enum
      is `OtherStatus`. */
  datatype Status = StatusOk | StatusI2c | OtherStatus(code: i32)

  /** Valve (vacuum) state and camera actuator state, each carried by its
      integer wire value (`valve as i32`, `ValveState::from_i32`). */
  datatype ValveState = ValveState(value: i32)

  datatype ActuatorState = ActuatorState(value: i32)

  /** Per-operation I2C result codes. The client distinguishes the three
      failures below; every other code, the success code among them, is
      `OtherResultCode`. */
  datatype I2cResultCode = I2cInvalidBus | I2cTooLongData | I2cNak | OtherResultCode(code: i32)

  datatype ControlRequest = ControlRequest(
    valveState: Option<i32>,
    selectChannel: Option<u32>,
    actuatorState: Option<i32>)

  /** `ControlRequest::default()`: every intent absent. */
  const DEFAULT_CONTROL_REQUEST := ControlRequest(None, None, None)

  datatype ControlResponse = ControlResponse(
    valveState: i32,
    selectedChannel: u32,
    actuatorState: i32)

  datatype I2cWriteRequest = I2cWriteRequest(address: u32, data: seq<byte>)

  datatype I2cReadRequest = I2cReadRequest(address: u32, length: u32)

  /** `i2c_operation::Operation`. */
  datatype I2cOperationType = OpWrite(write: I2cWriteRequest) | OpRead(read: I2cReadRequest)

  datatype I2cOperation = I2cOperation(operation: Option<I2cOperationType>)

  datatype I2cSequence = I2cSequence(bus: u32, address: u32, operations: seq<I2cOperation>)

  /** `i2c_request::Request`. */
  datatype I2cRequestKind = Enumerate | Sequence(sequence: I2cSequence)

  datatype I2cRequest = I2cRequest(request: Option<I2cRequestKind>)

  datatype Request = Request(
    id: u32,
    deviceId: u32,
    protocolVersion: u32,
    control: Option<ControlRequest>,
    i2c: Option<I2cRequest>)

  datatype I2cReadResponse = I2cReadResponse(data: seq<byte>, status: I2cResultCode)

  /** `i2c_result::Operation`. */
  datatype I2cResultOperation = ResultWrite(status: I2cResultCode) | ResultRead(read: I2cReadResponse)

  datatype I2cResult = I2cResult(operation: Option<I2cResultOperation>)

  datatype I2cSequenceResult = I2cSequenceResult(operations: seq<I2cResult>, bus: u32, address: u32)

  datatype I2cBusInfo = I2cBusInfo(bus: u32, maxSpeed: u32)

  /** `i2c_response::Response`. */
  datatype I2cResponseKind = EnumerateResult(buses: seq<I2cBusInfo>) | SequenceResult(result: I2cSequenceResult)

  datatype I2cResponse = I2cResponse(response: Option<I2cResponseKind>)

  datatype Response = Response(
    globalStatus: Status,
    control: Option<ControlResponse>,
    i2c: Option<I2cResponse>)
}
