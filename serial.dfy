/**
  The byte transport the controller writes to and reads from, modelled after
  an in-memory serial device: it keeps every frame written to it, answers
  every read with one queued reply, and can be told to fail either call.
 */
module Serial {
  import opened Codec

  class SerialDevice {
    var written: seq<seq<Byte>>  // every frame written so far, oldest first
    var response: seq<Byte>      // what a read returns
    var failWrite: bool          // a write raises
    var failRead: bool           // a read raises

    constructor ()
      ensures written == [] && response == []
      ensures !failWrite && !failRead
    {
      written := [];
      response := [];
      failWrite := false;
      failRead := false;
    }

    method SetResponse(reply: seq<Byte>)
      modifies this`response
      ensures response == reply
    {
      response := reply;
    }

    method EnableWriteException()
      modifies this`failWrite
      ensures failWrite
    {
      failWrite := true;
    }

    method EnableReadException()
      modifies this`failRead
      ensures failRead
    {
      failRead := true;
    }

    /** Records the frame, unless writing fails. */
    method Write(data: seq<Byte>) returns (ok: bool)
      modifies this`written
      ensures ok == !failWrite
      ensures written == if ok then old(written) + [data] else old(written)
    {
      ok := !failWrite;
      if ok {
        written := written + [data];
      }
    }

    /**
      Returns the queued reply, unless reading fails. Like the device, it may
      hand back more or fewer than the `n` bytes asked for.
     */
    method Read(n: nat) returns (ok: bool, data: seq<Byte>)
      ensures ok == !failRead
      ensures ok ==> data == response
    {
      ok := !failRead;
      data := if ok then response else [];
    }
  }
}
