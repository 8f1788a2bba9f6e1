/**
 * The client session with the laser setup: the control facade (write and
 * read the valve / channel / camera state), I2C bus selection and
 * enumeration, and the I2C transaction that tunnels a batch of operations
 * through one request.
 *
 * The serial link is not modelled: an exchange is given as a `Link`, which
 * says whether sending the request failed and what waiting for the next
 * frame produced.
 */
module Lib {
  import opened Wrappers
  import opened Ints
  import opened Messages
  import opened EmbeddedHal
  import opened PbError
  import opened I2cBridge
  import Protobuf

  const CHANNELS_COUNT: u32 := 16

  type CameraState = ActuatorState

  /** The `ControlState` capability, given by its three answers: each intent
      is present (`Some`) or left unchanged (`None`). */
  datatype ControlState = ControlState(
    valve: Option<ValveState>,
    channel: Option<u32>,
    camera: Option<CameraState>)

  datatype CurrentControlState = CurrentControlState(valve: ValveState, channel: u32, camera: CameraState)

  datatype I2CBus = I2CBus(id: u32, speed: u32)

  /** The errors sending a request can end in: the encoder's `EncodeError`,
      or an I/O error of the port. */
  type SendError = e: Error | e.EncodeError? || e.IoError? witness IoError(Io.Error(""))

  /** The errors reading a frame can end in: the decoder's `DecoderError`, or
      an I/O error of the port. */
  type FrameError = e: Error | e.DecoderError? || e.IoError? witness IoError(Io.Error(""))

  /** What waiting (with the session's timeout) for the next frame produced. */
  datatype NextFrame = Frame(frame: Result<Response, FrameError>) | StreamClosed | TimedOut

  /** One request/response exchange over the link: the error sending failed
      with, if any, and what waiting for the response produced. */
  datatype Link = Link(sendError: Option<SendError>, next: NextFrame)

  const NO_CONTROL_PANIC: string := "No control field in response"

  /** `read_responce`: a frame is passed on, a closed stream and a timeout become their errors. */
  function ReadResponse(next: NextFrame): (r: Result<Response, Error>)
    ensures r.Ok? ==> next.Frame?
    ensures next.Frame? ==> r == next.frame
    ensures next.StreamClosed? <==> r == Err(UnexpectedEndOfStream) && !next.Frame?
    ensures next.TimedOut? <==> r == Err(Timeout) && !next.Frame?
  {
    match next
    case Frame(f) => f
    case StreamClosed => Err(UnexpectedEndOfStream)
    case TimedOut => Err(Timeout)
  }

  /** Sending the request and reading the response: a failed send ends the
      exchange with its error before anything is read. */
  function Exchange(link: Link): (r: Result<Response, Error>)
    ensures link.sendError.Some? ==> r == Err(link.sendError.value)
    ensures link.sendError.None? ==> r == ReadResponse(link.next)
    ensures r.Err? ==> !r.error.Protocol? && !r.error.I2C?
  {
    if link.sendError.Some? then Err(link.sendError.value) else ReadResponse(link.next)
  }

  /** `decode_current_state`: `None` stands for the panic the source raises when
      the response has no control payload. */
  function DecodeCurrentState(ctrl: Option<ControlResponse>): (r: Option<CurrentControlState>)
    ensures r.Some? <==> ctrl.Some?
    ensures r.Some? ==> r.value.valve.value == ctrl.value.valveState
    ensures r.Some? ==> r.value.channel == ctrl.value.selectedChannel
    ensures r.Some? ==> r.value.camera.value == ctrl.value.actuatorState
  {
    match ctrl
    case Some(c) => Some(CurrentControlState(ValveState(c.valveState), c.selectedChannel, ActuatorState(c.actuatorState)))
    case None => None
  }

  /** What `write` and `read` make of a response: the decoded state on global
      status `Ok`, a protocol error carrying any other status. */
  function ControlResult(resp: Response): (r: Outcome<CurrentControlState, Error>)
    ensures resp.globalStatus != StatusOk ==> r == Returned(Err(Protocol(resp.globalStatus)))
    ensures resp.globalStatus == StatusOk && resp.control.None? ==> r == Panicked(NO_CONTROL_PANIC)
    ensures resp.globalStatus == StatusOk && resp.control.Some? ==>
              && r.Returned? && r.result.Ok?
              && r.result.value.channel == resp.control.value.selectedChannel
              && r.result.value.valve == ValveState(resp.control.value.valveState)
              && r.result.value.camera == ActuatorState(resp.control.value.actuatorState)
  {
    if resp.globalStatus == StatusOk then
      match DecodeCurrentState(resp.control)
      case Some(state) => Returned(Ok(state))
      case None => Panicked(NO_CONTROL_PANIC)
    else
      Returned(Err(Protocol(resp.globalStatus)))
  }

  /** The outcome of a control exchange (`write` or `read`): an exchange error
      is returned as it is, a response is judged by `ControlResult`. */
  function ControlOutcome(link: Link): (r: Outcome<CurrentControlState, Error>)
    ensures Exchange(link).Err? ==> r == Returned(Err(Exchange(link).error))
    ensures Exchange(link).Ok? ==> r == ControlResult(Exchange(link).value)
  {
    match Exchange(link)
    case Err(e) => Returned(Err(e))
    case Ok(resp) => ControlResult(resp)
  }

  /**
   * The control request `write` sends: an intent the capability gives is
   * copied (an enum by its integer value), an absent one stays absent. The
   * channel is copied as it is, with no check against `CHANNELS_COUNT`.
   */
  function ControlRequestFor(request: ControlState): (c: ControlRequest)
    ensures c.valveState.Some? <==> request.valve.Some?
    ensures c.valveState.Some? ==> c.valveState.value == request.valve.value.value
    ensures c.actuatorState.Some? <==> request.camera.Some?
    ensures c.actuatorState.Some? ==> c.actuatorState.value == request.camera.value.value
    ensures c.selectChannel == request.channel
  {
    ControlRequest(
      if request.valve.Some? then Some(request.valve.value.value) else None,
      request.channel,
      if request.camera.Some? then Some(request.camera.value.value) else None)
  }

  /** `.map(|b| I2CBus { .. }).collect()` over the enumerated buses. */
  function BusesFromEnumerate(buses: seq<I2cBusInfo>): (r: seq<I2CBus>)
    ensures |r| == |buses|
    ensures forall i :: 0 <= i < |buses| ==> r[i] == I2CBus(buses[i].bus, buses[i].maxSpeed)
  {
    seq(|buses|, i requires 0 <= i < |buses| => I2CBus(buses[i].bus, buses[i].maxSpeed))
  }

  /** What `enumerate_i2c_buses` makes of a response. */
  function EnumerateOutcome(resp: Response): (r: Result<seq<I2CBus>, Error>)
    ensures resp.globalStatus != StatusOk ==> r == Err(Protocol(resp.globalStatus))
    ensures r.Ok? <==> resp.globalStatus == StatusOk && resp.i2c.Some? && resp.i2c.value.response.Some?
                       && resp.i2c.value.response.value.EnumerateResult?
    ensures r.Ok? ==> var buses := resp.i2c.value.response.value.buses;
                      && |r.value| == |buses|
                      && forall i :: 0 <= i < |buses| ==> r.value[i].id == buses[i].bus && r.value[i].speed == buses[i].maxSpeed
    ensures resp.globalStatus == StatusOk && r.Err? ==> r.error == Protocol(StatusI2c)
  {
    if resp.globalStatus != StatusOk then Err(Protocol(resp.globalStatus))
    else
      match resp.i2c
      case Some(I2cResponse(Some(EnumerateResult(buses)))) => Ok(BusesFromEnumerate(buses))
      case _ => Err(Protocol(StatusI2c))
  }

  /**
   * A control exchange returns a state exactly when the request went out, a
   * frame came back, its global status is `Ok` and it carries a control
   * payload; the state then reports the payload, the channel verbatim.
   */
  lemma ControlOutcomeReturnsState(link: Link)
    ensures ControlOutcome(link).Returned? && ControlOutcome(link).result.Ok? <==>
              && link.sendError.None?
              && link.next.Frame? && link.next.frame.Ok?
              && link.next.frame.value.globalStatus == StatusOk
              && link.next.frame.value.control.Some?
    ensures ControlOutcome(link).Returned? && ControlOutcome(link).result.Ok? ==>
              DecodeCurrentState(link.next.frame.value.control) == Some(ControlOutcome(link).result.value)
  {
  }

  /**
   * A control exchange fails with a protocol error exactly when a response
   * came back with a global status other than `Ok`, and the error carries that status.
   */
  lemma ControlOutcomeProtocolError(link: Link, status: Status)
    ensures ControlOutcome(link) == Returned(Err(Protocol(status))) <==>
              && link.sendError.None? && link.next.Frame? && link.next.frame.Ok?
              && status != StatusOk && link.next.frame.value.globalStatus == status
  {
  }

  /** `write` with every intent absent sends the same control request as `read`. */
  lemma WriteOfNothingIsRead()
    ensures ControlRequestFor(ControlState(None, None, None)) == DEFAULT_CONTROL_REQUEST
  {
  }

  /** The channel intent reaches the request unchecked, also at and above `CHANNELS_COUNT`. */
  lemma ChannelIsNotRangeChecked(channel: u32)
    requires channel >= CHANNELS_COUNT
    ensures ControlRequestFor(ControlState(None, Some(channel), None)).selectChannel == Some(channel)
  {
  }

  /** An enumeration answer with no buses is an empty list, not an error. */
  lemma EnumerateNoBuses()
    ensures EnumerateOutcome(Response(StatusOk, None, Some(I2cResponse(Some(EnumerateResult([])))))) == Ok([])
  {
  }

  /**
   * One turn of the transaction's pairing loop: checks the pair and, for a
   * read with a success code and data of the buffer's length, copies the data
   * into the caller's buffer. `None` means processing goes on.
   */
  method ApplyResult(op: Operation, res: I2cResult) returns (stop: Option<Outcome<(), Error>>)
    modifies if op.Read? then {op.buffer} else {}
    ensures stop == PairStep(op, res)
    ensures op.Read? ==> op.buffer[..] == if stop.None? then ReadData(res) else old(op.buffer[..])
  {
    match (op, res.operation) {
      case (Read(buffer), Some(ResultRead(read))) =>
        var status := Status2Err(read.status);
        if status.Err? {
          return Some(Returned(Err(status.error)));
        }
        if |read.data| != buffer.Length {
          return Some(Panicked(COPY_PANIC));
        }
        forall k | 0 <= k < buffer.Length {
          buffer[k] := read.data[k];
        }
        assert buffer[..] == read.data;
        return None;
      case (Write(_), Some(ResultWrite(code))) =>
        var status := Status2Err(code);
        if status.Err? {
          return Some(Returned(Err(status.error)));
        }
        return None;
      case _ =>
        return Some(Returned(Err(SHAPE_ERROR)));
    }
  }

  /**
   * The `for ... zip` loop of a transaction: pairs operations with results
   * left to right, filling read buffers, and stops at the first pair that is
   * not fine. Buffers from the stopping position on are left as they were.
   */
  method ProcessResults(ops: seq<Operation>, results: seq<I2cResult>) returns (r: Outcome<(), Error>)
    requires |ops| == |results|
    requires forall i, j :: 0 <= i < j < |ops| && ops[i].Read? && ops[j].Read? ==> ops[i].buffer != ops[j].buffer
    modifies set i | 0 <= i < |ops| && ops[i].Read? :: ops[i].buffer
    ensures var k := StopIndex(ops, results, 0);
            && r == (if k < |ops| then PairStep(ops[k], results[k]).value else Returned(Ok(())))
            && forall j :: 0 <= j < |ops| && ops[j].Read? ==>
                 ops[j].buffer[..] == if j < k then ReadData(results[j]) else old(ops[j].buffer[..])
  {
    var i := 0;
    while i < |ops|
      invariant 0 <= i <= |ops|
      invariant forall j :: 0 <= j < i ==> PairStep(ops[j], results[j]).None?
      invariant forall j :: 0 <= j < |ops| && ops[j].Read? ==>
                  ops[j].buffer[..] == if j < i then ReadData(results[j]) else old(ops[j].buffer[..])
    {
      var stop := ApplyResult(ops[i], results[i]);
      if stop.Some? {
        return stop.value;
      }
      i := i + 1;
    }
    r := Returned(Ok(()));
  }

  /** The session with the device (`LaserSetup`). */
  class LaserSetup {
    /** How long to wait for a response. */
    var timeout: nat
    var selectedI2cBus: u32

    /** `new`: a session starts with bus 0 selected. Opening the port is not modelled. */
    constructor (timeout: nat)
      ensures this.timeout == timeout
      ensures selectedI2cBus == 0
    {
      this.timeout := timeout;
      selectedI2cBus := 0;
    }

    /** `select_i2c_bus`: selects the bus for later transactions and changes nothing else. */
    method SelectI2cBus(busId: u32)
      modifies this
      ensures selectedI2cBus == busId
      ensures timeout == old(timeout)
    {
      selectedI2cBus := busId;
    }

    /** `write`: sends the intents of `request` and returns the state the device reports. */
    method Write(request: ControlState, id: u32, link: Link)
      returns (sent: Request, r: Outcome<CurrentControlState, Error>)
      ensures sent == Protobuf.NewRequest(id).(control := Some(ControlRequestFor(request)))
      ensures r == ControlOutcome(link)
    {
      var req := Protobuf.NewRequest(id);
      var ctrl := DEFAULT_CONTROL_REQUEST;
      if request.valve.Some? {
        ctrl := ctrl.(valveState := Some(request.valve.value.value));
      }
      if request.camera.Some? {
        ctrl := ctrl.(actuatorState := Some(request.camera.value.value));
      }
      ctrl := ctrl.(selectChannel := request.channel);
      req := req.(control := Some(ctrl));
      sent := req;

      if link.sendError.Some? {
        return sent, Returned(Err(link.sendError.value));
      }
      var resp := ReadResponse(link.next);
      if resp.Err? {
        return sent, Returned(Err(resp.error));
      }
      r := ControlResult(resp.value);
    }

    /** `read`: sends a control request with every intent absent and returns the state the device reports. */
    method Read(id: u32, link: Link)
      returns (sent: Request, r: Outcome<CurrentControlState, Error>)
      ensures sent == Protobuf.NewRequest(id).(control := Some(DEFAULT_CONTROL_REQUEST))
      ensures r == ControlOutcome(link)
    {
      sent := Protobuf.NewRequest(id).(control := Some(DEFAULT_CONTROL_REQUEST));
      if link.sendError.Some? {
        return sent, Returned(Err(link.sendError.value));
      }
      var resp := ReadResponse(link.next);
      if resp.Err? {
        return sent, Returned(Err(resp.error));
      }
      r := ControlResult(resp.value);
    }

    /** `enumerate_i2c_buses`: asks the device for its I2C buses. */
    method EnumerateI2cBuses(id: u32, link: Link)
      returns (sent: Request, r: Result<seq<I2CBus>, Error>)
      ensures sent == Protobuf.NewRequest(id).(i2c := Some(I2cRequest(Some(Enumerate))))
      ensures Exchange(link).Err? ==> r == Err(Exchange(link).error)
      ensures Exchange(link).Ok? ==> r == EnumerateOutcome(Exchange(link).value)
    {
      sent := Protobuf.NewRequest(id).(i2c := Some(I2cRequest(Some(Enumerate))));
      if link.sendError.Some? {
        return sent, Err(link.sendError.value);
      }
      var resp := ReadResponse(link.next);
      if resp.Err? {
        return sent, Err(resp.error);
      }
      r := EnumerateOutcome(resp.value);
    }

    /**
     * `transaction`: runs `operations` against the device at `address` on the
     * selected bus as one sequence request, and fills the buffers of the read
     * operations in place from the response.
     */
    method Transaction(address: byte, operations: seq<Operation>, id: u32, link: Link)
      returns (sent: Request, r: Outcome<(), Error>)
      requires forall i, j :: 0 <= i < j < |operations| && operations[i].Read? && operations[j].Read? ==>
                 operations[i].buffer != operations[j].buffer
      modifies set i | 0 <= i < |operations| && operations[i].Read? :: operations[i].buffer
      ensures sent == Protobuf.NewRequest(id).(i2c := Some(I2cRequest(Some(Sequence(
                        BuildSequence(selectedI2cBus, address, operations))))))
      ensures var e := TransactionEffect(selectedI2cBus, operations, Exchange(link));
              && r == e.outcome
              && forall i :: 0 <= i < |operations| && operations[i].Read? ==>
                   operations[i].buffer[..] ==
                     if i < e.filled then ReadData(SequenceResults(Exchange(link))[i])
                     else old(operations[i].buffer[..])
    {
      var sequence := BuildSequence(selectedI2cBus, address, operations);
      sent := Protobuf.NewRequest(id).(i2c := Some(I2cRequest(Some(Sequence(sequence)))));

      if link.sendError.Some? {
        return sent, Returned(Err(link.sendError.value));
      }
      var received := ReadResponse(link.next);
      if received.Err? {
        return sent, Returned(Err(received.error));
      }
      var resp := received.value;

      match resp.globalStatus {
        case StatusOk =>
        case StatusI2c =>
          return sent, Returned(Err(I2cStatusError(resp)));
        case OtherStatus(_) =>
          return sent, Returned(Err(Protocol(resp.globalStatus)));
      }

      match resp.i2c {
        case Some(I2cResponse(Some(SequenceResult(result)))) =>
          // As in the source, the echoed address is compared with itself.
          if |operations| != |result.operations| || result.bus != selectedI2cBus || result.address != result.address {
            return sent, Returned(Err(SHAPE_ERROR));
          }
          r := ProcessResults(operations, result.operations);
        case _ =>
          return sent, Returned(Err(SHAPE_ERROR));
      }
    }
  }
}
