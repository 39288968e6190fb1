/**
  The controller: each public operation checks its arguments, builds its
  frame, writes it to the serial device and, for a query, reads and checks
  the reply and reads its answer out of the data section.
 */
module Controller {
  import opened Errors
  import opened Codec
  import opened Serial
  import Catalog

  /* ---------------------------------------------------------------------
     What one operation does, as a function of the device's state
     --------------------------------------------------------------------- */

  /** The result of `_receive_response` on a device in this state. */
  function Receive(failRead: bool, response: seq<Byte>): (r: Result<seq<Byte>>)
    ensures r.Ok? <==> !failRead && |response| == FrameLength && HasValidChecksum(response)
    ensures r.Err? ==> r.error.ControllerError?
    ensures r.Err? && !failRead ==> r.error.failure == InvalidResponse
    ensures r.Ok? ==> |r.value| == DataLength && r.value[2] == response[6]
  {
    if failRead then Err(ControllerError(ReadFailed)) else ParseResponse(response)
  }

  /** The frames an operation adds to the device's log. */
  function Sent(op: Catalog.Operation, failWrite: bool): (frames: seq<seq<Byte>>)
    ensures |frames| <= 1
    ensures |frames| == 1 <==> Catalog.ArgsValid(op) && !failWrite
    ensures |frames| == 1 ==> |frames[0]| == FrameLength && HasValidChecksum(frames[0])
    ensures |frames| == 1 ==> frames[0][2..4] == Catalog.CodeOf(op)
  {
    match Catalog.Request(op)
    case Err(_) => []
    case Ok(frame) => if failWrite then [] else [frame]
  }

  /**
    The outcome of an operation: its ValueError, a failed write, a failed
    read, an invalid reply, or the value it returns.
   */
  function Perform(op: Catalog.Operation, failWrite: bool, failRead: bool, response: seq<Byte>)
    : (r: Result<Catalog.Reply>)
    ensures r.Ok? ==> Catalog.Matches(op, r.value)
    ensures r.Ok? ==> Catalog.ArgsValid(op) && !failWrite
    ensures r.Ok? && Catalog.ExpectsReply(op) ==> !failRead && |response| == FrameLength
  {
    match Catalog.Request(op)
    case Err(e) => Err(e)
    case Ok(_) =>
      if failWrite then Err(ControllerError(WriteFailed))
      else if !Catalog.ExpectsReply(op) then Ok(Catalog.Done)
      else
        match Receive(failRead, response)
        case Err(e) => Err(e)
        case Ok(data) => Ok(Catalog.Interpret(op, data))
  }

  function AsUnit(r: Result<Catalog.Reply>): Result<()>
  {
    match r
    case Ok(_) => Ok(())
    case Err(e) => Err(e)
  }

  function AsPort(r: Result<Catalog.Reply>): Result<int>
    requires r.Ok? ==> r.value.PortNumber?
  {
    match r
    case Ok(reply) => Ok(reply.port)
    case Err(e) => Err(e)
  }

  function AsFlag(r: Result<Catalog.Reply>): Result<bool>
    requires r.Ok? ==> r.value.Flag?
  {
    match r
    case Ok(reply) => Ok(reply.on)
    case Err(e) => Err(e)
  }

  /* ---------------------------------------------------------------------
     Properties of the operations
     --------------------------------------------------------------------- */

  /**
    An argument out of range raises ValueError, and only then; the check
    comes before any frame is built, so nothing reaches the device.
   */
  lemma ValidationBeforeIO(op: Catalog.Operation, failWrite: bool, failRead: bool, response: seq<Byte>)
    ensures var r := Perform(op, failWrite, failRead, response);
      (r.Err? && r.error.ValueError?) <==> !Catalog.ArgsValid(op)
    ensures !Catalog.ArgsValid(op) ==>
      Sent(op, failWrite) == [] &&
      Perform(op, failWrite, failRead, response) == Err(Catalog.CheckArgs(op).error)
  {
  }

  /**
    With valid arguments: a failed write raises before any read and logs
    nothing; otherwise the frame is logged, commands succeed, and queries
    fail exactly on a failed read or an invalid reply.
   */
  lemma ExchangeOutcomes(op: Catalog.Operation, failWrite: bool, failRead: bool, response: seq<Byte>)
    requires Catalog.ArgsValid(op)
    ensures var r := Perform(op, failWrite, failRead, response);
      && (failWrite ==> r == Err(ControllerError(WriteFailed)) && Sent(op, failWrite) == [])
      && (!failWrite ==> Sent(op, failWrite) == [Catalog.Request(op).value])
      && (!failWrite && !Catalog.ExpectsReply(op) ==> r == Ok(Catalog.Done))
      && (!failWrite && Catalog.ExpectsReply(op) && failRead ==> r == Err(ControllerError(ReadFailed)))
      && (!failWrite && Catalog.ExpectsReply(op) && !failRead ==>
            (r.Ok? <==> |response| == FrameLength && HasValidChecksum(response)))
      && (!failWrite && Catalog.ExpectsReply(op) && !failRead && r.Err? ==>
            r.error == ControllerError(InvalidResponse))
  {
  }

  /** Operations without a reply never read: the device's reply does not matter. */
  lemma CommandsIgnoreReplies(op: Catalog.Operation, failWrite: bool,
                              failRead: bool, response: seq<Byte>,
                              failRead': bool, response': seq<Byte>)
    requires !Catalog.ExpectsReply(op)
    ensures Perform(op, failWrite, failRead, response) == Perform(op, failWrite, failRead', response')
  {
  }

  /**
    Given a reply built like a request (the way the tests fabricate them),
    every query reads the reply's second argument, data byte 2: the port
    number as it is, HPD and beep as on when it is zero, the cable status as
    connected when it is not.
   */
  lemma QueryReplies(op: Catalog.Operation, code: seq<Byte>, arg1: Byte, result: Byte)
    requires Catalog.ArgsValid(op) && Catalog.ExpectsReply(op)
    requires |code| == CodeLength
    ensures Perform(op, false, false, Frame(code, arg1, result)) == Ok(match op
      case QueryPort(_) => Catalog.PortNumber(result)
      case QueryHdp(_) => Catalog.Flag(result == 0)
      case QueryStatus(_) => Catalog.Flag(result != 0)
      case _ => Catalog.Flag(result == 0))
  {
    ParseGeneratedFrame(code, arg1, result);
  }

  /**
    On every reply the device may send, of any shape, as long as it has 13
    bytes and a valid checksum, each query answers from frame offset 6 (data
    byte 2): the port as it is, HPD and beep as on when it is zero, the cable
    status as connected when it is not.
   */
  lemma QueriesReadDataByteTwo(port: int, response: seq<Byte>)
    requires Catalog.ValidPort(port)
    requires |response| == FrameLength && HasValidChecksum(response)
    ensures Perform(Catalog.QueryPort(port), false, false, response) == Ok(Catalog.PortNumber(response[6]))
    ensures Perform(Catalog.QueryHdp(port), false, false, response) == Ok(Catalog.Flag(response[6] == 0))
    ensures Perform(Catalog.QueryStatus(port), false, false, response) == Ok(Catalog.Flag(response[6] != 0))
    ensures Perform(Catalog.QueryBeep, false, false, response) == Ok(Catalog.Flag(response[6] == 0))
  {
  }

  /** The same reply reads as HPD high exactly when it reads as cable disconnected. */
  lemma HdpAndStatusOpposite(output: int, input: int, response: seq<Byte>)
    requires Catalog.ValidPort(output) && Catalog.ValidPort(input)
    ensures var hdp := Perform(Catalog.QueryHdp(output), false, false, response);
            var status := Perform(Catalog.QueryStatus(input), false, false, response);
      hdp.Ok? == status.Ok? && (hdp.Ok? ==> hdp.value.on == !status.value.on)
  {
  }

  /** A generated reply whose checksum byte is replaced by another value fails every query. */
  lemma QueriesRejectWrongChecksum(op: Catalog.Operation, code: seq<Byte>, arg1: Byte, arg2: Byte, last: Byte)
    requires Catalog.ArgsValid(op) && Catalog.ExpectsReply(op)
    requires |code| == CodeLength
    requires last != Frame(code, arg1, arg2)[12]
    ensures Perform(op, false, false, Frame(code, arg1, arg2)[..12] + [last]) ==
      Err(ControllerError(InvalidResponse))
  {
    ParseRejectsWrongChecksum(code, arg1, arg2, last);
  }

  /* ---------------------------------------------------------------------
     The controller object
     --------------------------------------------------------------------- */

  class HdmiMatrixController {
    const ser: SerialDevice

    constructor (serialDevice: SerialDevice)
      ensures ser == serialDevice
    {
      ser := serialDevice;
    }

    /** `_send_cmd`: a failed write becomes the controller's exception. */
    method SendCmd(cmd: seq<Byte>) returns (r: Result<()>)
      modifies ser`written
      ensures ser.written == if ser.failWrite then old(ser.written) else old(ser.written) + [cmd]
      ensures r == if ser.failWrite then Err(ControllerError(WriteFailed)) else Ok(())
    {
      var ok := ser.Write(cmd);
      r := if ok then Ok(()) else Err(ControllerError(WriteFailed));
    }

    /**
      `_receive_response`: reads one frame; a failed read, a frame of the
      wrong length or with a wrong checksum becomes the controller's
      exception, else the eight data bytes are returned.
     */
    method ReceiveResponse() returns (r: Result<seq<Byte>>)
      ensures r == Receive(ser.failRead, ser.response)
      ensures r.Ok? ==> |r.value| == DataLength
    {
      var ok, response := ser.Read(FrameLength);
      if !ok {
        return Err(ControllerError(ReadFailed));
      }
      if |response| != FrameLength {
        return Err(ControllerError(InvalidResponse));
      }
      var valid := ChecksumValid(response);
      if !valid {
        return Err(ControllerError(InvalidResponse));
      }
      return Ok(response[|Header| + CodeLength..|response| - 1]);
    }

    method ChangePort(inputPort: int, outputPort: int) returns (r: Result<()>)
      modifies ser`written
      ensures ser.written == old(ser.written) + Sent(Catalog.ChangePort(inputPort, outputPort), ser.failWrite)
      ensures r == AsUnit(Perform(Catalog.ChangePort(inputPort, outputPort), ser.failWrite, ser.failRead, ser.response))
    {
      var checked := Catalog.CheckPort(inputPort);
      if checked.Err? {
        return Err(checked.error);
      }
      checked := Catalog.CheckPort(outputPort);
      if checked.Err? {
        return Err(checked.error);
      }
      var cmd := GenerateCmd(Catalog.ChangePortCode, inputPort, outputPort);
      r := SendCmd(cmd);
    }

    method QueryPort(outputPort: int) returns (r: Result<int>)
      modifies ser`written
      ensures ser.written == old(ser.written) + Sent(Catalog.QueryPort(outputPort), ser.failWrite)
      ensures r == AsPort(Perform(Catalog.QueryPort(outputPort), ser.failWrite, ser.failRead, ser.response))
    {
      var checked := Catalog.CheckPort(outputPort);
      if checked.Err? {
        return Err(checked.error);
      }
      var cmd := GenerateCmd(Catalog.QueryPortCode, outputPort, 0);
      var sent := SendCmd(cmd);
      if sent.Err? {
        return Err(sent.error);
      }
      var response := ReceiveResponse();
      if response.Err? {
        return Err(response.error);
      }
      return Ok(response.value[2]);
    }

    method SetEdid(inputPort: int, value: int) returns (r: Result<()>)
      modifies ser`written
      ensures ser.written == old(ser.written) + Sent(Catalog.SetEdid(inputPort, value), ser.failWrite)
      ensures r == AsUnit(Perform(Catalog.SetEdid(inputPort, value), ser.failWrite, ser.failRead, ser.response))
    {
      var checked := Catalog.CheckPort(inputPort);
      if checked.Err? {
        return Err(checked.error);
      }
      checked := Catalog.CheckEdidValue(value);
      if checked.Err? {
        return Err(checked.error);
      }
      var cmd := GenerateCmd(Catalog.SetEdidCode, value, inputPort);
      r := SendCmd(cmd);
    }

    method SetEdidToAll(value: int) returns (r: Result<()>)
      modifies ser`written
      ensures ser.written == old(ser.written) + Sent(Catalog.SetEdidToAll(value), ser.failWrite)
      ensures r == AsUnit(Perform(Catalog.SetEdidToAll(value), ser.failWrite, ser.failRead, ser.response))
    {
      var checked := Catalog.CheckEdidValue(value);
      if checked.Err? {
        return Err(checked.error);
      }
      var cmd := GenerateCmd(Catalog.SetEdidToAllCode, value, 0);
      r := SendCmd(cmd);
    }

    method CopyEdid(outputPort: int, inputPort: int) returns (r: Result<()>)
      modifies ser`written
      ensures ser.written == old(ser.written) + Sent(Catalog.CopyEdid(outputPort, inputPort), ser.failWrite)
      ensures r == AsUnit(Perform(Catalog.CopyEdid(outputPort, inputPort), ser.failWrite, ser.failRead, ser.response))
    {
      var checked := Catalog.CheckPort(outputPort);
      if checked.Err? {
        return Err(checked.error);
      }
      checked := Catalog.CheckPort(inputPort);
      if checked.Err? {
        return Err(checked.error);
      }
      var cmd := GenerateCmd(Catalog.CopyEdidCode, outputPort, inputPort);
      r := SendCmd(cmd);
    }

    method CopyEdidToAll(outputPort: int) returns (r: Result<()>)
      modifies ser`written
      ensures ser.written == old(ser.written) + Sent(Catalog.CopyEdidToAll(outputPort), ser.failWrite)
      ensures r == AsUnit(Perform(Catalog.CopyEdidToAll(outputPort), ser.failWrite, ser.failRead, ser.response))
    {
      var checked := Catalog.CheckPort(outputPort);
      if checked.Err? {
        return Err(checked.error);
      }
      var cmd := GenerateCmd(Catalog.CopyEdidToAllCode, outputPort, 0);
      r := SendCmd(cmd);
    }

    method QueryHdp(outputPort: int) returns (r: Result<bool>)
      modifies ser`written
      ensures ser.written == old(ser.written) + Sent(Catalog.QueryHdp(outputPort), ser.failWrite)
      ensures r == AsFlag(Perform(Catalog.QueryHdp(outputPort), ser.failWrite, ser.failRead, ser.response))
    {
      var checked := Catalog.CheckPort(outputPort);
      if checked.Err? {
        return Err(checked.error);
      }
      var cmd := GenerateCmd(Catalog.QueryHdpCode, outputPort, 0);
      var sent := SendCmd(cmd);
      if sent.Err? {
        return Err(sent.error);
      }
      var response := ReceiveResponse();
      if response.Err? {
        return Err(response.error);
      }
      return Ok(response.value[2] == 0);
    }

    method QueryStatus(inputPort: int) returns (r: Result<bool>)
      modifies ser`written
      ensures ser.written == old(ser.written) + Sent(Catalog.QueryStatus(inputPort), ser.failWrite)
      ensures r == AsFlag(Perform(Catalog.QueryStatus(inputPort), ser.failWrite, ser.failRead, ser.response))
    {
      var checked := Catalog.CheckPort(inputPort);
      if checked.Err? {
        return Err(checked.error);
      }
      var cmd := GenerateCmd(Catalog.QueryStatusCode, inputPort, 0);
      var sent := SendCmd(cmd);
      if sent.Err? {
        return Err(sent.error);
      }
      var response := ReceiveResponse();
      if response.Err? {
        return Err(response.error);
      }
      return Ok(response.value[2] != 0);
    }

    method SetBeep(enable: bool) returns (r: Result<()>)
      modifies ser`written
      ensures ser.written == old(ser.written) + Sent(Catalog.SetBeep(enable), ser.failWrite)
      ensures r == AsUnit(Perform(Catalog.SetBeep(enable), ser.failWrite, ser.failRead, ser.response))
    {
      var beepValue := if enable then Catalog.BeepOn else Catalog.BeepOff;
      var cmd := GenerateCmd(Catalog.SetBeepCode, beepValue, 0);
      r := SendCmd(cmd);
    }

    method QueryBeep() returns (r: Result<bool>)
      modifies ser`written
      ensures ser.written == old(ser.written) + Sent(Catalog.QueryBeep, ser.failWrite)
      ensures r == AsFlag(Perform(Catalog.QueryBeep, ser.failWrite, ser.failRead, ser.response))
    {
      var cmd := GenerateCmd(Catalog.QueryBeepCode, 0, 0);
      var sent := SendCmd(cmd);
      if sent.Err? {
        return Err(sent.error);
      }
      var response := ReceiveResponse();
      if response.Err? {
        return Err(response.error);
      }
      return Ok(response.value[2] == 0);
    }
  }
}
