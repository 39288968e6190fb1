/**
  Client code that drives the controller against an in-memory serial device,
  the way the unit tests do; each assertion follows from the operations'
  contracts and the lemmas about them alone.
 */
module Scenarios {
  import opened Errors
  import opened Codec
  import opened Serial
  import opened Controller
  import Catalog

  method ChangePortScenario() {
    var device := new SerialDevice();
    var controller := new HdmiMatrixController(device);
    var r := controller.ChangePort(1, 2);
    Catalog.ChangePortFrameBytes();
    assert r == Ok(());
    assert device.written ==
      [[0xA5, 0x5B, 0x02, 0x03, 0x01, 0x00, 0x02, 0x00, 0x00, 0x00, 0x00, 0x00, 0xF8]];

    r := controller.ChangePort(0, 1);
    assert r == Err(ValueError(InvalidPort));
    r := controller.ChangePort(1, 5);
    assert r == Err(ValueError(InvalidPort));
    assert |device.written| == 1;
  }

  method EdidScenario() {
    var device := new SerialDevice();
    var controller := new HdmiMatrixController(device);
    var r := controller.SetEdid(1, 0);
    assert r == Err(ValueError(InvalidEdid));
    r := controller.SetEdid(1, 16);
    assert r == Err(ValueError(InvalidEdid));
    r := controller.SetEdid(0, 16);
    assert r == Err(ValueError(InvalidPort));
    assert device.written == [];
    r := controller.SetEdid(1, 15);
    assert r == Ok(());
    Catalog.RequestFrames(Catalog.SetEdid(1, 15));
    assert device.written == [Frame([0x03, 0x02], 15, 1)];
  }

  method QueryPortScenario() {
    var device := new SerialDevice();
    var controller := new HdmiMatrixController(device);
    var reply := GenerateCmd(Catalog.QueryPortCode, 1, 3);
    device.SetResponse(reply);
    var port := controller.QueryPort(1);
    QueryReplies(Catalog.QueryPort(1), Catalog.QueryPortCode, 1, 3);
    assert port == Ok(3);
  }

  /** One reply, read by both queries with their opposite polarities. */
  method HdpAndStatusScenario(result: Byte) {
    var device := new SerialDevice();
    var controller := new HdmiMatrixController(device);
    var reply := GenerateCmd(Catalog.QueryHdpCode, 1, result);
    device.SetResponse(reply);
    var hdp := controller.QueryHdp(1);
    QueryReplies(Catalog.QueryHdp(1), Catalog.QueryHdpCode, 1, result);
    assert hdp == Ok(result == 0);
    var status := controller.QueryStatus(1);
    QueryReplies(Catalog.QueryStatus(1), Catalog.QueryHdpCode, 1, result);
    assert status == Ok(result != 0);
  }

  method QueryBeepScenario() {
    var device := new SerialDevice();
    var controller := new HdmiMatrixController(device);
    var reply := GenerateCmd(Catalog.QueryBeepCode, 0, 0xFF);
    device.SetResponse(reply);
    var beep := controller.QueryBeep();
    QueryReplies(Catalog.QueryBeep, Catalog.QueryBeepCode, 0, 0xFF);
    assert beep == Ok(false);
  }

  method WrongLengthScenario() {
    var device := new SerialDevice();
    var controller := new HdmiMatrixController(device);
    var long := GenerateCmd(Catalog.QueryBeepCode + [0], 0, 0);
    device.SetResponse(long);
    var beep := controller.QueryBeep();
    assert beep == Err(ControllerError(InvalidResponse));
    device.SetResponse(long[..12]);
    beep := controller.QueryBeep();
    assert beep == Err(ControllerError(InvalidResponse));
  }

  method WrongChecksumScenario() {
    var device := new SerialDevice();
    var controller := new HdmiMatrixController(device);
    var good := GenerateCmd(Catalog.QueryBeepCode, 0, 0);
    FrameChecksum(Catalog.QueryBeepCode, 0, 0);
    ParseRejectsWrongChecksum(Catalog.QueryBeepCode, 0, 0, 0);
    device.SetResponse(good[..12] + [0]);
    var beep := controller.QueryBeep();
    assert beep == Err(ControllerError(InvalidResponse));
  }

  method TransportFailureScenario() {
    var device := new SerialDevice();
    var controller := new HdmiMatrixController(device);
    device.EnableReadException();
    var beep := controller.QueryBeep();
    assert beep == Err(ControllerError(ReadFailed));
    assert |device.written| == 1;

    device.EnableWriteException();
    beep := controller.QueryBeep();
    assert beep == Err(ControllerError(WriteFailed));
    assert |device.written| == 1;
  }
}
