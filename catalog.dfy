/**
  The command table: for each operation of the matrix, its two-byte code,
  which argument goes into which data slot, the range checks on its
  arguments, and how the data section of its reply is read.
 */
module Catalog {
  import opened Errors
  import opened Codec

  const MinPort := 1
  const MaxPort := 4
  const MinEdid := 1   // the first of the fifteen EDID profiles
  const MaxEdid := 15  // the last of them

  const ChangePortCode: seq<Byte> := [0x02, 0x03]
  const QueryPortCode: seq<Byte> := [0x02, 0x01]
  const SetEdidCode: seq<Byte> := [0x03, 0x02]
  const SetEdidToAllCode: seq<Byte> := [0x03, 0x01]
  const CopyEdidCode: seq<Byte> := [0x03, 0x04]
  const CopyEdidToAllCode: seq<Byte> := [0x03, 0x03]
  const QueryHdpCode: seq<Byte> := [0x01, 0x05]
  const QueryStatusCode: seq<Byte> := [0x01, 0x04]
  const SetBeepCode: seq<Byte> := [0x06, 0x01]
  const QueryBeepCode: seq<Byte> := [0x01, 0x0B]

  const BeepOn: Byte := 0x0F
  const BeepOff: Byte := 0xF0

  /** The ten public operations of the controller with their arguments. */
  datatype Operation =
    | ChangePort(input: int, output: int)
    | QueryPort(output: int)
    | SetEdid(input: int, value: int)
    | SetEdidToAll(value: int)
    | CopyEdid(output: int, input: int)
    | CopyEdidToAll(output: int)
    | QueryHdp(output: int)
    | QueryStatus(input: int)
    | SetBeep(enable: bool)
    | QueryBeep

  /** What an operation returns: nothing, a port number, or a flag. */
  datatype Reply = Done | PortNumber(port: int) | Flag(on: bool)

  predicate ValidPort(port: int)
  {
    MinPort <= port <= MaxPort
  }

  predicate ValidEdid(value: int)
  {
    MinEdid <= value <= MaxEdid
  }

  /** `_check_port`. */
  function CheckPort(port: int): (r: Result<()>)
    ensures r.Ok? <==> 1 <= port <= 4
    ensures r.Err? ==> r.error == ValueError(InvalidPort)
  {
    if port < MinPort || port > MaxPort then Err(ValueError(InvalidPort)) else Ok(())
  }

  /** `_check_edid_value`. */
  function CheckEdidValue(value: int): (r: Result<()>)
    ensures r.Ok? <==> 1 <= value <= 15
    ensures r.Err? ==> r.error == ValueError(InvalidEdid)
  {
    if value < MinEdid || value > MaxEdid then Err(ValueError(InvalidEdid)) else Ok(())
  }

  /** Every port and EDID argument of the operation is in range. */
  predicate ArgsValid(op: Operation)
  {
    match op
    case ChangePort(input, output) => ValidPort(input) && ValidPort(output)
    case QueryPort(output) => ValidPort(output)
    case SetEdid(input, value) => ValidPort(input) && ValidEdid(value)
    case SetEdidToAll(value) => ValidEdid(value)
    case CopyEdid(output, input) => ValidPort(output) && ValidPort(input)
    case CopyEdidToAll(output) => ValidPort(output)
    case QueryHdp(output) => ValidPort(output)
    case QueryStatus(input) => ValidPort(input)
    case SetBeep(_) => true
    case QueryBeep => true
  }

  /** `a` then `b`: the first failure wins. */
  function AndThen(a: Result<()>, b: Result<()>): Result<()>
  {
    if a.Err? then a else b
  }

  /** The range checks of each operation, in the order the operation makes them. */
  function CheckArgs(op: Operation): (r: Result<()>)
    ensures r.Ok? <==> ArgsValid(op)
    ensures r.Err? ==> r.error.ValueError?
    ensures op.SetEdid? && !ValidPort(op.input) ==> r == Err(ValueError(InvalidPort))
    ensures op.SetEdid? && ValidPort(op.input) && !ValidEdid(op.value) ==> r == Err(ValueError(InvalidEdid))
  {
    match op
    case ChangePort(input, output) => AndThen(CheckPort(input), CheckPort(output))
    case QueryPort(output) => CheckPort(output)
    case SetEdid(input, value) => AndThen(CheckPort(input), CheckEdidValue(value))
    case SetEdidToAll(value) => CheckEdidValue(value)
    case CopyEdid(output, input) => AndThen(CheckPort(output), CheckPort(input))
    case CopyEdidToAll(output) => CheckPort(output)
    case QueryHdp(output) => CheckPort(output)
    case QueryStatus(input) => CheckPort(input)
    case SetBeep(_) => Ok(())
    case QueryBeep => Ok(())
  }

  function CodeOf(op: Operation): (code: seq<Byte>)
    ensures |code| == CodeLength
    ensures 0x01 <= code[0] <= 0x06 && 0x01 <= code[1] <= 0x0B
  {
    match op
    case ChangePort(_, _) => ChangePortCode
    case QueryPort(_) => QueryPortCode
    case SetEdid(_, _) => SetEdidCode
    case SetEdidToAll(_) => SetEdidToAllCode
    case CopyEdid(_, _) => CopyEdidCode
    case CopyEdidToAll(_) => CopyEdidToAllCode
    case QueryHdp(_) => QueryHdpCode
    case QueryStatus(_) => QueryStatusCode
    case SetBeep(_) => SetBeepCode
    case QueryBeep => QueryBeepCode
  }

  /** The two data slots, at data indices 0 and 2; an unused slot holds 0. */
  function Slots(op: Operation): (slots: (int, int))
    ensures ArgsValid(op) ==> 0 <= slots.0 < 0x100 && 0 <= slots.1 < 0x100
    ensures slots.1 != 0 ==> op.ChangePort? || op.SetEdid? || op.CopyEdid?
    ensures op.QueryBeep? ==> slots == (0, 0)
  {
    match op
    case ChangePort(input, output) => (input, output)
    case QueryPort(output) => (output, 0)
    case SetEdid(input, value) => (value, input)
    case SetEdidToAll(value) => (value, 0)
    case CopyEdid(output, input) => (output, input)
    case CopyEdidToAll(output) => (output, 0)
    case QueryHdp(output) => (output, 0)
    case QueryStatus(input) => (input, 0)
    case SetBeep(enable) => (if enable then BeepOn else BeepOff, 0)
    case QueryBeep => (0, 0)
  }

  lemma SlotsAreBytes(op: Operation)
    requires ArgsValid(op)
    ensures 0 <= Slots(op).0 < 0x100 && 0 <= Slots(op).1 < 0x100
    ensures Sum(CodeOf(op)) + Slots(op).0 + Slots(op).1 < 0x100
  {
    var code := CodeOf(op);
    assert Sum(code) == code[0] as int + code[1] by {
      assert code[1..][1..] == [];
      assert Sum(code[1..]) == code[1];
    }
  }

  /**
    The frame an operation sends, or the ValueError it raises before
    building one.
   */
  function Request(op: Operation): (r: Result<seq<Byte>>)
    ensures r.Ok? <==> ArgsValid(op)
    ensures r.Err? ==> r.error == CheckArgs(op).error
    ensures r.Ok? ==> |r.value| == FrameLength && r.value[..2] == Header
    ensures r.Ok? ==> r.value[2..4] == CodeOf(op)
    ensures r.Ok? ==> r.value[4] == Slots(op).0 && r.value[6] == Slots(op).1
    ensures r.Ok? ==> HasValidChecksum(r.value) && Sum(r.value) % 0x100 == 0
  {
    var checked := CheckArgs(op);
    if checked.Err? then Err(checked.error)
    else
      SlotsAreBytes(op);
      var code, arg1, arg2 := CodeOf(op), Slots(op).0, Slots(op).1;
      FrameLayout(code, arg1, arg2);
      FrameChecksumValid(code, arg1, arg2);
      FrameSumsToMultipleOf256(code, arg1, arg2);
      Ok(Frame(code, arg1, arg2))
  }

  /** No two operations share a command code. */
  lemma CodesIdentifyOperations(a: Operation, b: Operation)
    requires CodeOf(a) == CodeOf(b)
    ensures a.ChangePort? == b.ChangePort? && a.QueryPort? == b.QueryPort?
    ensures a.SetEdid? == b.SetEdid? && a.SetEdidToAll? == b.SetEdidToAll?
    ensures a.CopyEdid? == b.CopyEdid? && a.CopyEdidToAll? == b.CopyEdidToAll?
    ensures a.QueryHdp? == b.QueryHdp? && a.QueryStatus? == b.QueryStatus?
    ensures a.SetBeep? == b.SetBeep? && a.QueryBeep? == b.QueryBeep?
  {
    assert CodeOf(a)[0] == CodeOf(b)[0] && CodeOf(a)[1] == CodeOf(b)[1];
  }

  /** The operations that read a reply after writing their frame. */
  predicate ExpectsReply(op: Operation)
  {
    op.QueryPort? || op.QueryHdp? || op.QueryStatus? || op.QueryBeep?
  }

  /** The kind of value each operation returns. */
  predicate Matches(op: Operation, reply: Reply)
  {
    match op
    case QueryPort(_) => reply.PortNumber?
    case QueryHdp(_) => reply.Flag?
    case QueryStatus(_) => reply.Flag?
    case QueryBeep => reply.Flag?
    case _ => reply.Done?
  }

  /**
    How a query reads the data section of a valid reply: always its byte at
    index 2. HPD and beep are on when that byte is zero, the cable status
    when it is not.
   */
  function Interpret(op: Operation, data: seq<Byte>): (reply: Reply)
    requires |data| == DataLength
    ensures Matches(op, reply)
  {
    match op
    case QueryPort(_) => PortNumber(data[2])
    case QueryHdp(_) => Flag(data[2] == 0)
    case QueryStatus(_) => Flag(data[2] != 0)
    case QueryBeep => Flag(data[2] == 0)
    case _ => Done
  }

  /** Each operation's frame, written out with the codes of the command table. */
  lemma RequestFrames(op: Operation)
    requires ArgsValid(op)
    ensures Request(op) == Ok(match op
      case ChangePort(input, output) => Frame([0x02, 0x03], input, output)
      case QueryPort(output) => Frame([0x02, 0x01], output, 0)
      case SetEdid(input, value) => Frame([0x03, 0x02], value, input)
      case SetEdidToAll(value) => Frame([0x03, 0x01], value, 0)
      case CopyEdid(output, input) => Frame([0x03, 0x04], output, input)
      case CopyEdidToAll(output) => Frame([0x03, 0x03], output, 0)
      case QueryHdp(output) => Frame([0x01, 0x05], output, 0)
      case QueryStatus(input) => Frame([0x01, 0x04], input, 0)
      case SetBeep(enable) => Frame([0x06, 0x01], if enable then 0x0F else 0xF0, 0)
      case QueryBeep => Frame([0x01, 0x0B], 0, 0))
  {
  }

  /** `change_port(1, 2)` sends exactly these thirteen bytes. */
  lemma ChangePortFrameBytes()
    ensures Request(ChangePort(1, 2)) ==
      Ok([0xA5, 0x5B, 0x02, 0x03, 0x01, 0x00, 0x02, 0x00, 0x00, 0x00, 0x00, 0x00, 0xF8])
  {
    var f := Request(ChangePort(1, 2)).value;
    var p := FramePrefix(ChangePortCode, 1, 2);
    PrefixSum(ChangePortCode, 1, 2);
    assert Sum(ChangePortCode) == 5 by {
      assert ChangePortCode[1..][1..] == [];
    }
    assert Sum(p) == 264;
    assert RaiseToNonNegative(-8) == 247;
    assert Checksum(p) == 0xF8;
    assert p == [0xA5, 0x5B, 0x02, 0x03, 0x01, 0x00, 0x02, 0x00, 0x00, 0x00, 0x00, 0x00];
    assert Request(ChangePort(1, 2)) == Ok(Frame(ChangePortCode, 1, 2)) == Ok(p + [0xF8]);
    var expected: seq<Byte> := [0xA5, 0x5B, 0x02, 0x03, 0x01, 0x00, 0x02, 0x00, 0x00, 0x00, 0x00, 0x00, 0xF8];
    assert p + [0xF8] == expected;
  }
}
