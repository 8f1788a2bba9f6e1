/**
 * The pure part of the I2C bridge: how a transaction's operations become one
 * sequence request, how result codes become errors, and what a response
 * means for the transaction's outcome and for the caller's read buffers.
 * The session method that runs a transaction is `Lib.LaserSetup.Transaction`.
 */
module I2cBridge {
  import opened Wrappers
  import opened Ints
  import opened Messages
  import opened EmbeddedHal
  import opened PbError

  const NAK_ERROR: Error := I2C(NoAcknowledge(Unknown))

  const SHAPE_ERROR: Error := Protocol(StatusI2c)

  /** The panic of `copy_from_slice` when a read result's data does not fit the
      buffer. Rust's message also prints both lengths; the model keeps its
      wording without them. */
  const COPY_PANIC: string := "source slice length does not match destination slice length"

  /** `status2_err`: the three failure codes map to their I2C error kinds, every other code is success. */
  function Status2Err(status: I2cResultCode): (r: Result<(), Error>)
    ensures status == I2cInvalidBus <==> r == Err(I2C(Bus))
    ensures status == I2cTooLongData <==> r == Err(I2C(Overrun))
    ensures status == I2cNak <==> r == Err(NAK_ERROR)
    ensures status.OtherResultCode? <==> r.Ok?
  {
    match status
    case I2cInvalidBus => Err(I2C(Bus))
    case I2cTooLongData => Err(I2C(Overrun))
    case I2cNak => Err(NAK_ERROR)
    case OtherResultCode(_) => Ok(())
  }

  /** The protocol operation sent for one caller operation. */
  function RequestOperation(address: byte, op: Operation): (r: I2cOperation)
  {
    match op
    case Write(bytes) => I2cOperation(Some(OpWrite(I2cWriteRequest(address, bytes))))
    case Read(buffer) => I2cOperation(Some(OpRead(I2cReadRequest(address, AsU32(buffer.Length)))))
  }

  /**
   * The sequence request a transaction sends: the selected bus, the target
   * address, and one operation per caller operation in the same order. A
   * write carries its bytes, a read only its buffer's length; both carry the
   * address.
   */
  function BuildSequence(bus: u32, address: byte, ops: seq<Operation>): (s: I2cSequence)
    ensures s.bus == bus && s.address == address
    ensures |s.operations| == |ops|
    ensures forall i :: 0 <= i < |ops| ==> ops[i].Write? ==>
              s.operations[i] == I2cOperation(Some(OpWrite(I2cWriteRequest(address, ops[i].bytes))))
    ensures forall i :: 0 <= i < |ops| ==> ops[i].Read? ==>
              s.operations[i] == I2cOperation(Some(OpRead(I2cReadRequest(address, AsU32(ops[i].buffer.Length)))))
  {
    I2cSequence(bus, address, seq(|ops|, i requires 0 <= i < |ops| => RequestOperation(address, ops[i])))
  }

  /** A result that reports a NAK: a write or read result whose code is `I2cNak`. */
  predicate IsNakResult(res: I2cResult)
  {
    match res.operation
    case Some(ResultWrite(status)) => status == I2cNak
    case Some(ResultRead(read)) => read.status == I2cNak
    case None => false
  }

  /** The `any` scan over the results for a NAK. */
  function AnyNak(results: seq<I2cResult>): (b: bool)
    ensures b <==> exists i :: 0 <= i < |results| && IsNakResult(results[i])
  {
    if |results| == 0 then false
    else IsNakResult(results[0]) || AnyNak(results[1..])
  }

  /** The sequence result a response carries, if it carries one. */
  function SequencePayload(resp: Response): Option<I2cSequenceResult>
  {
    match resp.i2c
    case Some(I2cResponse(Some(SequenceResult(s)))) => Some(s)
    case _ => None
  }

  /** The sequence results an exchange produced, or none when there is no sequence payload. */
  function SequenceResults(exchange: Result<Response, Error>): seq<I2cResult>
  {
    if exchange.Ok? && SequencePayload(exchange.value).Some? then SequencePayload(exchange.value).value.operations
    else []
  }

  /** The error reported when the global status is `I2c`: a NAK if any result says so, a bus error otherwise. */
  function I2cStatusError(resp: Response): (e: Error)
    ensures e == NAK_ERROR <==> AnyNak(SequenceResults(Ok(resp)))
    ensures e != NAK_ERROR ==> e == I2C(Bus)
  {
    if AnyNak(SequenceResults(Ok(resp))) then NAK_ERROR else I2C(Bus)
  }

  /** The data a read result carries. */
  function ReadData(res: I2cResult): seq<byte>
  {
    match res.operation
    case Some(ResultRead(read)) => read.data
    case _ => []
  }

  /**
   * One step of pairing a caller operation with its result: `None` when the
   * pair is fine and processing goes on, otherwise how the transaction ends.
   * A read whose code is success but whose data does not fit the buffer
   * exactly makes `copy_from_slice` panic.
   */
  function PairStep(op: Operation, res: I2cResult): (r: Option<Outcome<(), Error>>)
    ensures r.None? <==>
              || (op.Read? && res.operation.Some? && res.operation.value.ResultRead?
                  && res.operation.value.read.status.OtherResultCode?
                  && |res.operation.value.read.data| == op.buffer.Length)
              || (op.Write? && res.operation.Some? && res.operation.value.ResultWrite?
                  && res.operation.value.status.OtherResultCode?)
    ensures r.Some? && r.value.Returned? ==> r.value.result.Err?
    ensures || (op.Read? && res.operation.Some? && res.operation.value.ResultRead?)
            || (op.Write? && res.operation.Some? && res.operation.value.ResultWrite?)
            || r == Some(Returned(Err(SHAPE_ERROR)))
    ensures op.Read? && res.operation.Some? && res.operation.value.ResultRead?
            && !res.operation.value.read.status.OtherResultCode? ==>
              r == Some(Returned(Status2Err(res.operation.value.read.status)))
    ensures op.Write? && res.operation.Some? && res.operation.value.ResultWrite?
            && !res.operation.value.status.OtherResultCode? ==>
              r == Some(Returned(Status2Err(res.operation.value.status)))
    ensures r == Some(Panicked(COPY_PANIC)) <==>
              && op.Read? && res.operation.Some? && res.operation.value.ResultRead?
              && res.operation.value.read.status.OtherResultCode?
              && |res.operation.value.read.data| != op.buffer.Length
    ensures r.Some? && r.value.Panicked? ==> r == Some(Panicked(COPY_PANIC))
  {
    match (op, res.operation)
    case (Read(buffer), Some(ResultRead(read))) =>
      var status := Status2Err(read.status);
      if status.Err? then Some(Returned(Err(status.error)))
      else if |read.data| != buffer.Length then Some(Panicked(COPY_PANIC))
      else None
    case (Write(_), Some(ResultWrite(code))) =>
      var status := Status2Err(code);
      if status.Err? then Some(Returned(Err(status.error))) else None
    case _ => Some(Returned(Err(SHAPE_ERROR)))
  }

  /** Where the left-to-right pairing from position `from` on stops: the first
      pair that ends the transaction, or the end of the operations. */
  function StopIndex(ops: seq<Operation>, results: seq<I2cResult>, from: nat): (k: nat)
    requires |ops| == |results| && from <= |ops|
    ensures from <= k <= |ops|
    ensures forall j :: from <= j < k ==> PairStep(ops[j], results[j]).None?
    ensures k < |ops| ==> PairStep(ops[k], results[k]).Some?
    decreases |ops| - from
  {
    if from == |ops| then from
    else if PairStep(ops[from], results[from]).Some? then from
    else StopIndex(ops, results, from + 1)
  }

  /** How a transaction ends, and how many leading operations were processed
      (each read among them has had its buffer filled). */
  datatype Effect = Effect(outcome: Outcome<(), Error>, filled: nat)

  /** The effect of the sequence payload of a response whose global status is `Ok`. */
  function SequenceEffect(bus: u32, ops: seq<Operation>, i2c: Option<I2cResponse>): (e: Effect)
    ensures e.filled <= |ops|
  {
    match i2c
    case Some(I2cResponse(Some(SequenceResult(result)))) =>
      // The source compares the echoed address with itself (the pattern
      // binding shadows the parameter), so that test never rejects.
      if |ops| != |result.operations| || result.bus != bus || result.address != result.address then
        Effect(Returned(Err(SHAPE_ERROR)), 0)
      else
        var k := StopIndex(ops, result.operations, 0);
        if k < |ops| then Effect(PairStep(ops[k], result.operations[k]).value, k)
        else Effect(Returned(Ok(())), k)
    case _ => Effect(Returned(Err(SHAPE_ERROR)), 0)
  }

  /**
   * The effect of a transaction over the operations `ops` on bus `bus`, given
   * what sending the request and reading the response produced.
   */
  function TransactionEffect(bus: u32, ops: seq<Operation>, exchange: Result<Response, Error>): (e: Effect)
    ensures e.filled <= |ops|
    ensures e.filled > 0 ==> |SequenceResults(exchange)| == |ops|
  {
    match exchange
    case Err(err) => Effect(Returned(Err(err)), 0)
    case Ok(resp) =>
      match resp.globalStatus
      case StatusOk => SequenceEffect(bus, ops, resp.i2c)
      case StatusI2c => Effect(Returned(Err(I2cStatusError(resp))), 0)
      case OtherStatus(_) => Effect(Returned(Err(Protocol(resp.globalStatus))), 0)
  }

  /**
   * With global status `I2c` the transaction reports a NAK exactly when some
   * result of the sequence payload carries `I2cNak` (no payload counts as no
   * NAK), a bus error otherwise; no buffer is touched.
   */
  lemma I2cStatusReportsNakOrBus(bus: u32, ops: seq<Operation>, resp: Response)
    requires resp.globalStatus == StatusI2c
    ensures var e := TransactionEffect(bus, ops, Ok(resp));
            var rs := SequenceResults(Ok(resp));
            && e.filled == 0
            && (e.outcome == Returned(Err(NAK_ERROR)) <==> exists i :: 0 <= i < |rs| && IsNakResult(rs[i]))
            && (e.outcome != Returned(Err(NAK_ERROR)) ==> e.outcome == Returned(Err(I2C(Bus))))
  {
  }

  /** Any global status other than `Ok` and `I2c` is a protocol error carrying that status. */
  lemma OtherStatusIsProtocolError(bus: u32, ops: seq<Operation>, resp: Response)
    requires resp.globalStatus.OtherStatus?
    ensures TransactionEffect(bus, ops, Ok(resp)) == Effect(Returned(Err(Protocol(resp.globalStatus))), 0)
  {
  }

  /**
   * With global status `Ok`, a response without a sequence payload, with a
   * result count other than the operation count, or from another bus is a
   * protocol error in the I2C domain, and no buffer is touched.
   */
  lemma StructuralMismatchIsProtocolError(bus: u32, ops: seq<Operation>, resp: Response)
    requires resp.globalStatus == StatusOk
    requires || SequencePayload(resp).None?
             || |SequencePayload(resp).value.operations| != |ops|
             || SequencePayload(resp).value.bus != bus
    ensures TransactionEffect(bus, ops, Ok(resp)) == Effect(Returned(Err(SHAPE_ERROR)), 0)
  {
  }

  /** The address the response echoes plays no part: the source's check compares it with itself. */
  lemma EchoedAddressIgnored(bus: u32, ops: seq<Operation>, resp: Response, address: u32)
    requires SequencePayload(resp).Some?
    ensures var echoed := SequencePayload(resp).value.(address := address);
            TransactionEffect(bus, ops, Ok(resp.(i2c := Some(I2cResponse(Some(SequenceResult(echoed)))))))
            == TransactionEffect(bus, ops, Ok(resp))
  {
  }

  /**
   * Results are processed left to right and processing stops at the first
   * pair that is not fine: every pair before the stop is fine (a read got a
   * success code and exactly its buffer's length of data), and the outcome is
   * what the first failing pair gives, or success when there is none.
   */
  lemma ProcessingStopsAtFirstFailure(bus: u32, ops: seq<Operation>, resp: Response)
    requires resp.globalStatus == StatusOk
    requires SequencePayload(resp).Some?
    requires |SequencePayload(resp).value.operations| == |ops|
    requires SequencePayload(resp).value.bus == bus
    ensures var e := TransactionEffect(bus, ops, Ok(resp));
            var rs := SequencePayload(resp).value.operations;
            && (forall j :: 0 <= j < e.filled ==> PairStep(ops[j], rs[j]).None?)
            && (e.filled < |ops| ==> e.outcome == PairStep(ops[e.filled], rs[e.filled]).value)
            && (e.filled == |ops| ==> e.outcome == Returned(Ok(())))
  {
  }

  /**
   * A transaction succeeds exactly when the global status is `Ok`, the
   * response is a sequence result from the selected bus with one result per
   * operation, and every pair is fine; then every operation was processed.
   */
  lemma TransactionSucceedsIff(bus: u32, ops: seq<Operation>, exchange: Result<Response, Error>)
    ensures var e := TransactionEffect(bus, ops, exchange);
            e.outcome == Returned(Ok(())) <==>
              && exchange.Ok?
              && exchange.value.globalStatus == StatusOk
              && SequencePayload(exchange.value).Some?
              && |SequencePayload(exchange.value).value.operations| == |ops|
              && SequencePayload(exchange.value).value.bus == bus
              && forall j :: 0 <= j < |ops| ==> PairStep(ops[j], SequencePayload(exchange.value).value.operations[j]).None?
    ensures var e := TransactionEffect(bus, ops, exchange);
            e.outcome == Returned(Ok(())) ==> e.filled == |ops|
  {
  }

  /**
   * The transaction `[Write([0x08]), Read(4 bytes)]` to address 0x0B sends one
   * sequence of two operations; a NAK on either operation surfaces as a
   * no-acknowledge error and leaves the read buffer (position 1) untouched.
   */
  lemma WriteThenReadNak(bus: u32, buffer: array<byte>, resp: Response, c0: I2cResultCode, c1: I2cResultCode, data: seq<byte>)
    requires buffer.Length == 4
    requires resp.globalStatus == StatusOk || resp.globalStatus == StatusI2c
    requires SequencePayload(resp) == Some(I2cSequenceResult(
               [I2cResult(Some(ResultWrite(c0))), I2cResult(Some(ResultRead(I2cReadResponse(data, c1))))], bus, 0x0B))
    requires c0 == I2cNak || (c0.OtherResultCode? && c1 == I2cNak)
    ensures var ops := [Write([0x08]), Read(buffer)];
            var s := BuildSequence(bus, 0x0B, ops);
            && s.operations == [I2cOperation(Some(OpWrite(I2cWriteRequest(0x0B, [0x08])))),
                                I2cOperation(Some(OpRead(I2cReadRequest(0x0B, 4))))]
            && TransactionEffect(bus, ops, Ok(resp)).outcome == Returned(Err(NAK_ERROR))
            && TransactionEffect(bus, ops, Ok(resp)).filled <= 1
  {
    var ops := [Write([0x08]), Read(buffer)];
    var s := BuildSequence(bus, 0x0B, ops);
    assert s.operations[1] == I2cOperation(Some(OpRead(I2cReadRequest(0x0B, 4))));
    var rs := SequencePayload(resp).value.operations;
    if resp.globalStatus == StatusI2c {
      assert IsNakResult(rs[0]) || IsNakResult(rs[1]);
    } else if c0 == I2cNak {
      assert StopIndex(ops, rs, 0) == 0;
    } else {
      assert PairStep(ops[0], rs[0]).None?;
      assert StopIndex(ops, rs, 0) == 1;
    }
  }
}
