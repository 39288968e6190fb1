# HDMI matrix controller: a Dafny model

A model of `HdmiMatrixController`, the Python library that drives a four-port
HDMI matrix switch over RS232. Every exchange is a 13-byte frame: the header
`A5 5B`, a two-byte command code, eight data bytes (first argument at data
index 0, second at data index 2) and a checksum byte. The checksum is
`0x100` minus the sum of the other twelve bytes; when that is negative it is
raised by `0xFF` until it is not, and then one is added.

The project is split the way the library is:

- `errors.dfy` (`Errors`): the `ValueError` raised by the range checks and the
  controller's own exception, with the reason each is raised.
- `codec.dfy` (`Codec`): the checksum rule as a function, the frame layout,
  reply checking, and the imperative codec (`GenerateCmd` fills a zeroed
  eight-byte data array in place; `ComputeChecksum` runs the
  `while checksum < 0` loop) proved equal to the functions.
- `serial.dfy` (`Serial`): the serial device as a class holding the log of
  frames written, the queued reply and two failure switches.
- `catalog.dfy` (`Catalog`): the command table: codes, argument slots, range
  checks in the order each operation makes them, and how a reply is read.
- `controller.dfy` (`Controller`): `Perform`, which gives the outcome of one
  operation as a function of the device's state, and the
  `HdmiMatrixController` class, whose ten public methods are proved to
  append exactly `Sent(op, …)` to the device's log and to return `Perform(op, …)`.
- `scenarios.dfy` (`Scenarios`): client code that drives the controller
  against the in-memory device as the unit tests do.

The model follows the code on three points that are easy to misread:

- every query reads data byte index 2 of the reply (frame offset 6), not data
  byte 0;
- there are two exception types, not three: a transport failure and an
  invalid reply both raise the controller's exception (told apart here only by
  the reason, after the messages in the code);
- frames are built by `_generate_cmd` for a code list of any length; only a
  two-byte code gives a 13-byte frame, and a reply of another length is
  refused even when its checksum is right.

The checksum rule is not the usual 8-bit complement. For prefixes summing to
`0x100`–`0x1FF` the two agree (`ChecksumCompletesModulo256`), and every frame
the controller itself sends is in that range (`Catalog.Request`); from a sum
of `0x200` on they part: for sums in `0x200`–`0x2FE` the checksum is `0x2FF`
minus the sum, so the frame sums to `0x2FF` (`ChecksumLeavesModulo256`). The rule is
modelled as the code has it.

## Model

| member | source | states |
|---|---|---|
| Codec.Checksum | hdmi_matrix_controller.py:97-101 | the checksum is `0x100 - sum` when the sum is at most 0x100, and lies in [1, 0xFF] when it is larger |
| Codec.HasValidChecksum | hdmi_matrix_controller.py:119 | a frame passes exactly when it is its own bytes but the last followed by their checksum |
| Codec.RaiseToNonNegative | hdmi_matrix_controller.py:99-100 | started below zero, the loop stops in [0, 0xFF) |
| Codec.RaiseIsRemainder | hdmi_matrix_controller.py:99-100 | the loop stops at the Euclidean remainder of its start value by 0xFF |
| Codec.ChecksumClosedForm | hdmi_matrix_controller.py:97-101 | the checksum is `0x100 - sum` when that is not negative, else `(0x100 - sum) % 0xFF + 1` |
| Codec.ChecksumOfLargeSum | hdmi_matrix_controller.py:98-101 | when `0x100 - sum` is negative the checksum lies in [1, 0xFF] |
| Codec.ChecksumIsByte | hdmi_matrix_controller.py:97-102 | for any prefix summing to at least 0x100 the checksum is a byte, and it is 0 exactly when the sum is 0x100 |
| Codec.ChecksumCompletesModulo256 | hdmi_matrix_controller.py:97-101 | for prefix sums in [0x100, 0x1FF], prefix plus checksum sums to a multiple of 0x100 |
| Codec.ChecksumLeavesModulo256 | hdmi_matrix_controller.py:97-101 | for prefix sums in [0x200, 0x2FF) the checksum is 0x2FF minus the sum, so the frame sums to 0x2FF, no multiple of 0x100 |
| Codec.ChecksumUnique | hdmi_matrix_controller.py:114-119 | appending `last` to a prefix passes the checksum test if and only if `last` is the prefix's checksum |
| Codec.Frame | hdmi_matrix_controller.py:83-88 | a frame is 11 bytes longer than its code |
| Codec.FrameLayout | hdmi_matrix_controller.py:83-87 | with a two-byte code: length 13, bytes 0-1 `A5 5B`, bytes 2-3 the code, byte 4 arg1, byte 6 arg2, bytes 5 and 7-11 zero, byte 12 the checksum of bytes 0-11 |
| Codec.FrameChecksum | hdmi_matrix_controller.py:97-102 | a frame's checksum is a byte, and 0 exactly when the code and both arguments are zero |
| Codec.FrameChecksumValid | hdmi_matrix_controller.py:114-119 | every generated frame, whatever its code length, passes the checksum test |
| Codec.FrameSumsToMultipleOf256 | hdmi_matrix_controller.py:97-102 | when code and arguments sum to less than 0x100, all bytes of the frame sum to a multiple of 0x100 |
| Codec.ParseResponse | hdmi_matrix_controller.py:362-368 | a reply is accepted exactly when it has 13 bytes and a valid checksum (length tested first); it then yields its 8 data bytes, bytes 4-11, else an invalid-response error |
| Codec.ParseGeneratedFrame | hdmi_matrix_controller_test.py:84-89 | a reply built by the frame builder with a two-byte code is accepted and yields `[arg1, 0, arg2, 0, 0, 0, 0, 0]` |
| Codec.ParseRejectsOtherCodeLengths | hdmi_matrix_controller_test.py:230-235 | a frame built with a code of other than two bytes has a valid checksum and is still refused |
| Codec.ParseRejectsWrongChecksum | hdmi_matrix_controller_test.py:237-244 | replacing the checksum byte of a generated frame by any other byte makes it refused |
| Codec.ComputeChecksum | hdmi_matrix_controller.py:97-101 | the `while` loop computes the checksum rule |
| Codec.AppendChecksum | hdmi_matrix_controller.py:91-102 | the command gains one byte, keeps its bytes, and then passes the checksum test |
| Codec.ChecksumValid | hdmi_matrix_controller.py:105-119 | true exactly when the last byte equals the checksum of the bytes before it |
| Codec.GenerateCmd | hdmi_matrix_controller.py:72-88 | returns the buffer it built (zeroed data array filled in place, header and code in front, checksum appended), and that buffer is exactly `Frame(code, arg1, arg2)` |
| Serial.SerialDevice.constructor | hdmi_matrix_controller_test.py:21-25 | a new device has written nothing, has an empty reply queued and fails neither call |
| Serial.SerialDevice.SetResponse | hdmi_matrix_controller_test.py:27-28 | the reply to every later read is the given bytes |
| Serial.SerialDevice.EnableWriteException | hdmi_matrix_controller_test.py:30-31 | every later write fails |
| Serial.SerialDevice.EnableReadException | hdmi_matrix_controller_test.py:33-34 | every later read fails |
| Serial.SerialDevice.Write | hdmi_matrix_controller_test.py:36-39 | a write succeeds unless writes fail, and then, only then, appends the frame to the log |
| Serial.SerialDevice.Read | hdmi_matrix_controller_test.py:41-44 | a read succeeds unless reads fail, and then returns the queued reply |
| Catalog.CheckPort | hdmi_matrix_controller.py:122-133 | accepts exactly the ports 1 to 4, else an invalid-port ValueError |
| Catalog.CheckEdidValue | hdmi_matrix_controller.py:136-147 | accepts exactly the EDID values 1 to 15, else an invalid-EDID ValueError |
| Catalog.CheckArgs | hdmi_matrix_controller.py:198-199 | an operation's checks pass exactly when all its ports and EDID values are in range; `set_edid` tests the port before the value |
| Catalog.CodeOf | hdmi_matrix_controller.py:16-25 | every operation's command code has two bytes, first byte in [0x01, 0x06], second in [0x01, 0x0B] |
| Catalog.CodesIdentifyOperations | hdmi_matrix_controller.py:16-25 | no two operations share a command code |
| Catalog.Slots | hdmi_matrix_controller.py:163-323 | with valid arguments both slots are bytes; only `change_port`, `set_edid` and `copy_edid` use the second slot; `query_beep` sends (0, 0) |
| Catalog.SlotsAreBytes | hdmi_matrix_controller.py:16-29 | with valid arguments both slots are bytes, and code plus slots sum to less than 0x100 |
| Catalog.Request | hdmi_matrix_controller.py:160-163 | an operation sends a frame exactly when its arguments are valid: 13 bytes, header, its catalog code, its slots at bytes 4 and 6, a valid checksum, all bytes summing to a multiple of 0x100; else the ValueError of its checks |
| Catalog.Interpret | hdmi_matrix_controller.py:183-185 | each query's answer has the kind its operation returns: a port number for `query_port`, a flag for the other three (the value read is stated by `Controller.QueriesReadDataByteTwo`) |
| Catalog.RequestFrames | hdmi_matrix_controller.py:16-29 | the frame of each of the ten operations, with its literal command code and argument placement (`set_beep` sends 0x0F or 0xF0, `query_beep` no arguments) |
| Catalog.ChangePortFrameBytes | hdmi_matrix_controller.py:160-164 | `change_port(1, 2)` sends `A5 5B 02 03 01 00 02 00 00 00 00 00 F8` |
| Controller.Receive | hdmi_matrix_controller.py:355-368 | a read yields data exactly when it succeeds and the reply has 13 bytes and a valid checksum; data byte 2 is then frame byte 6; every failure is the controller's exception, an invalid-response one when the read itself worked |
| Controller.Sent | hdmi_matrix_controller.py:341 | an operation writes at most one frame, one exactly when its arguments are valid and the write succeeds; that frame has 13 bytes, a valid checksum and the operation's code |
| Controller.Perform | hdmi_matrix_controller.py:149-327 | an operation succeeds only with valid arguments and a working write, a query only with a working read of 13 bytes, and returns the kind of value its operation promises |
| Controller.ValidationBeforeIO | hdmi_matrix_controller.py:131-133 | an operation raises ValueError if and only if an argument is out of range, and then writes nothing |
| Controller.ExchangeOutcomes | hdmi_matrix_controller.py:338-368 | with valid arguments: a failed write raises before any read and logs nothing; else the frame is logged, commands succeed, a failed read raises, and a query succeeds exactly on a 13-byte reply with a valid checksum, raising invalid-response otherwise |
| Controller.CommandsIgnoreReplies | hdmi_matrix_controller.py:149-164 | the six operations without a reply do not depend on the reply or on read failures |
| Controller.QueryReplies | hdmi_matrix_controller_test.py:147-218 | on a fabricated reply every query reads its second argument: `query_port` returns it, `query_hdp` and `query_beep` return whether it is 0, `query_status` whether it is not |
| Controller.QueriesReadDataByteTwo | hdmi_matrix_controller.py:183-327 | on every 13-byte reply with a valid checksum, `query_port` returns frame byte 6, `query_hdp` and `query_beep` return whether it is 0, `query_status` whether it is not |
| Controller.HdpAndStatusOpposite | hdmi_matrix_controller.py:274-297 | on the same reply `query_hdp` and `query_status` both succeed or both fail, with opposite flags |
| Controller.QueriesRejectWrongChecksum | hdmi_matrix_controller_test.py:237-244 | every query refuses a generated reply whose checksum byte was replaced |
| Controller.HdmiMatrixController.constructor | hdmi_matrix_controller.py:63-69 | the controller holds the device it was given |
| Controller.HdmiMatrixController.SendCmd | hdmi_matrix_controller.py:329-344 | the frame is logged unless the write fails, which raises the controller's exception |
| Controller.HdmiMatrixController.ReceiveResponse | hdmi_matrix_controller.py:346-368 | a failed read, a wrong length or a wrong checksum raises the controller's exception; else the 8 data bytes |
| Controller.HdmiMatrixController.ChangePort | hdmi_matrix_controller.py:149-164 | logs and returns exactly what `Perform` gives for `change_port` on the device's state |
| Controller.HdmiMatrixController.QueryPort | hdmi_matrix_controller.py:166-185 | logs and returns exactly what `Perform` gives for `query_port` |
| Controller.HdmiMatrixController.SetEdid | hdmi_matrix_controller.py:187-202 | logs and returns exactly what `Perform` gives for `set_edid` |
| Controller.HdmiMatrixController.SetEdidToAll | hdmi_matrix_controller.py:204-217 | logs and returns exactly what `Perform` gives for `set_edid_to_all` |
| Controller.HdmiMatrixController.CopyEdid | hdmi_matrix_controller.py:219-235 | logs and returns exactly what `Perform` gives for `copy_edid` |
| Controller.HdmiMatrixController.CopyEdidToAll | hdmi_matrix_controller.py:237-251 | logs and returns exactly what `Perform` gives for `copy_edid_to_all` |
| Controller.HdmiMatrixController.QueryHdp | hdmi_matrix_controller.py:253-274 | logs and returns exactly what `Perform` gives for `query_hdp` |
| Controller.HdmiMatrixController.QueryStatus | hdmi_matrix_controller.py:276-297 | logs and returns exactly what `Perform` gives for `query_status` |
| Controller.HdmiMatrixController.SetBeep | hdmi_matrix_controller.py:299-311 | logs and returns exactly what `Perform` gives for `set_beep` |
| Controller.HdmiMatrixController.QueryBeep | hdmi_matrix_controller.py:313-327 | logs and returns exactly what `Perform` gives for `query_beep` |

## Left out

- The real serial port (`serial.Serial`) and pyserial's exception types: the transport is the in-memory `Serial.SerialDevice`, whose write and read either succeed or fail.
- Serial.SerialDevice.Read: ignores the byte count it is given and returns the whole queued reply without consuming it, as an in-memory device does; a real port returns at most that many bytes and consumes them.
- Timeouts, baud rate and opening the port: they belong to the serial device, not to the controller.
- Logging and the hex dumps of frames: diagnostics with no effect on the result.
- Python 2 `chr`/`ord` and the frame as a string: frames are sequences of bytes (`Codec.Byte`), so `GenerateCmd` takes byte-valued arguments; `chr` would raise for others, which no public operation can pass.
- The fifteen EDID profile names: only their range, 1 to 15, is used.
- `setport.py` (a command-line entry point) and `setup.py` (packaging): not part of the core.
- Concurrent use of one controller: the library is single-threaded.
