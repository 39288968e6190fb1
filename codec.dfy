/**
  The 13-byte frame of the matrix's serial protocol: a two-byte header, a
  two-byte command code, eight data bytes and a trailing checksum byte.
  Requests and replies share the layout.
 */
module Codec {
  import opened Errors

  /** One octet on the wire. */
  type Byte = x: int | 0 <= x < 0x100

  const Header: seq<Byte> := [0xA5, 0x5B]
  const CodeLength := 2
  const DataLength := 8
  const FrameLength := |Header| + CodeLength + DataLength + 1
  const ChecksumBase := 0x100

  /* ---------------------------------------------------------------------
     The checksum rule
     --------------------------------------------------------------------- */

  function Sum(s: seq<int>): int
  {
    if s == [] then 0 else s[0] + Sum(s[1..])
  }

  lemma {:induction false} SumAppend(a: seq<int>, b: seq<int>)
    ensures Sum(a + b) == Sum(a) + Sum(b)
  {
    if a == [] {
      assert a + b == b;
    } else {
      assert (a + b)[1..] == a[1..] + b;
      SumAppend(a[1..], b);
    }
  }

  lemma {:induction false} SumOfBytes(s: seq<Byte>)
    ensures 0 <= Sum(s) <= 0xFF * |s|
  {
    if s != [] {
      SumOfBytes(s[1..]);
    }
  }

  /** The checksum loop: add 0xFF until the value is no longer negative. */
  function RaiseToNonNegative(c: int): (r: int)
    ensures c < 0 ==> 0 <= r < 0xFF
    decreases if c < 0 then -c else 0
  {
    if c >= 0 then c else RaiseToNonNegative(c + 0xFF)
  }

  /**
    The checksum of the bytes preceding it: 0x100 minus their sum, and when
    that is negative, raised by 0xFF until it is not, then plus one.
   */
  function Checksum(prefix: seq<int>): (c: int)
    ensures Sum(prefix) <= ChecksumBase ==> c == ChecksumBase - Sum(prefix)
    ensures Sum(prefix) > ChecksumBase ==> 1 <= c <= 0xFF
  {
    var raw := ChecksumBase - Sum(prefix);
    if raw < 0 then RaiseToNonNegative(raw) + 1 else raw
  }

  /** A frame is valid when its last byte is the checksum of the bytes before it. */
  predicate HasValidChecksum(frame: seq<int>)
    requires |frame| >= 1
    ensures HasValidChecksum(frame) <==>
      frame == frame[..|frame| - 1] + [Checksum(frame[..|frame| - 1])]
  {
    frame[|frame| - 1] == Checksum(frame[..|frame| - 1])
  }

  /** The loop ends on the Euclidean remainder of its start value by 0xFF. */
  lemma {:induction false} RaiseIsRemainder(c: int)
    requires c < 0
    ensures RaiseToNonNegative(c) == c % 0xFF
    decreases -c
  {
    if c + 0xFF < 0 {
      RaiseIsRemainder(c + 0xFF);
      assert (c + 0xFF) % 0xFF == c % 0xFF;
    } else {
      assert 0 <= c + 0xFF < 0xFF;
      assert c == -1 * 0xFF + (c + 0xFF);
    }
  }

  /** The rule in closed form: a remainder by 0xFF, not by 0x100. */
  lemma ChecksumClosedForm(prefix: seq<int>)
    ensures var raw := ChecksumBase - Sum(prefix);
            Checksum(prefix) == if raw >= 0 then raw else raw % 0xFF + 1
  {
    var raw := ChecksumBase - Sum(prefix);
    if raw < 0 {
      RaiseIsRemainder(raw);
    }
  }

  /** A negative start value always ends in [1, 0xFF]. */
  lemma ChecksumOfLargeSum(prefix: seq<int>)
    requires Sum(prefix) > ChecksumBase
    ensures 1 <= Checksum(prefix) <= 0xFF
  {
  }

  /**
    Whenever the prefix sums to at least 0x100 (every frame does, through its
    header), the checksum is a byte, and it is zero exactly when the prefix
    sums to 0x100.
   */
  lemma ChecksumIsByte(prefix: seq<int>)
    requires Sum(prefix) >= ChecksumBase
    ensures 0 <= Checksum(prefix) < 0x100
    ensures Checksum(prefix) == 0 <==> Sum(prefix) == ChecksumBase
  {
    if Sum(prefix) > ChecksumBase {
      ChecksumOfLargeSum(prefix);
    }
  }

  /**
    For prefixes summing to [0x100, 0x1FF] the rule agrees with the usual
    8-bit complement: the whole frame then sums to a multiple of 0x100.
   */
  lemma ChecksumCompletesModulo256(prefix: seq<int>)
    requires ChecksumBase <= Sum(prefix) < 2 * ChecksumBase
    ensures (Sum(prefix) + Checksum(prefix)) % 0x100 == 0
  {
    ChecksumClosedForm(prefix);
    var raw := ChecksumBase - Sum(prefix);
    if raw < 0 {
      assert raw % 0xFF == raw + 0xFF by {
        assert 0 <= raw + 0xFF < 0xFF;
        assert raw == -1 * 0xFF + (raw + 0xFF);
      }
      assert Sum(prefix) + Checksum(prefix) == 2 * 0x100;
    }
  }

  /**
    From a prefix sum of 0x200 on the two rules part: for sums in
    [0x200, 0x2FF) the checksum is 0x2FF minus the sum, so the frame sums to
    0x2FF, which is no multiple of 0x100.
   */
  lemma ChecksumLeavesModulo256(prefix: seq<int>)
    requires 2 * ChecksumBase <= Sum(prefix) < 0x2FF
    ensures Checksum(prefix) == 0x2FF - Sum(prefix)
    ensures (Sum(prefix) + Checksum(prefix)) % 0x100 == 0xFF
  {
    ChecksumClosedForm(prefix);
    var raw := ChecksumBase - Sum(prefix);
    assert raw % 0xFF == raw + 2 * 0xFF by {
      assert 0 <= raw + 2 * 0xFF < 0xFF;
      assert raw == -2 * 0xFF + (raw + 2 * 0xFF);
    }
  }

  /** Exactly one final byte makes a prefix into a frame with a valid checksum. */
  lemma ChecksumUnique(prefix: seq<int>, last: int)
    ensures HasValidChecksum(prefix + [last]) <==> last == Checksum(prefix)
  {
    assert (prefix + [last])[..|prefix|] == prefix;
  }

  /* ---------------------------------------------------------------------
     Building frames
     --------------------------------------------------------------------- */

  /** The data section: the first argument at index 0, the second at index 2. */
  function Data(arg1: Byte, arg2: Byte): seq<Byte>
  {
    [arg1, 0, arg2, 0, 0, 0, 0, 0]
  }

  function FramePrefix(code: seq<Byte>, arg1: Byte, arg2: Byte): seq<Byte>
  {
    Header + code + Data(arg1, arg2)
  }

  lemma PrefixSum(code: seq<Byte>, arg1: Byte, arg2: Byte)
    ensures Sum(FramePrefix(code, arg1, arg2)) == ChecksumBase + Sum(code) + arg1 + arg2
  {
    var d := Data(arg1, arg2);
    SumAppend(Header + code, d);
    SumAppend(Header, code);
    assert Sum(Header) == ChecksumBase by {
      assert Header[1..] == [0x5B];
      assert Header[1..][1..] == [];
    }
    assert Sum(d) == arg1 + arg2 by {
      var zeros: seq<int> := [0, 0, 0, 0, 0];
      SumOfZeros(zeros);
      assert d == [arg1, 0, arg2] + zeros;
      SumAppend([arg1, 0, arg2], zeros);
      var front: seq<int> := [arg1, 0, arg2];
      assert front[1..][1..][1..] == [];
      assert Sum(front[1..][1..]) == arg2;
      assert Sum(front[1..]) == arg2;
    }
  }

  lemma {:induction false} SumOfZeros(s: seq<int>)
    requires forall i :: 0 <= i < |s| ==> s[i] == 0
    ensures Sum(s) == 0
  {
    if s != [] {
      SumOfZeros(s[1..]);
    }
  }

  /** The complete frame `_generate_cmd` builds, checksum appended. */
  function Frame(code: seq<Byte>, arg1: Byte, arg2: Byte): (f: seq<Byte>)
    ensures |f| == |code| + 11
  {
    var prefix := FramePrefix(code, arg1, arg2);
    PrefixSum(code, arg1, arg2);
    SumOfBytes(code);
    ChecksumIsByte(prefix);
    var c: Byte := Checksum(prefix);
    prefix + [c]
  }

  /** Where every byte of a frame with a two-byte code sits. */
  lemma FrameLayout(code: seq<Byte>, arg1: Byte, arg2: Byte)
    requires |code| == CodeLength
    ensures var f := Frame(code, arg1, arg2);
      && |f| == FrameLength == 13
      && f[0] == 0xA5 && f[1] == 0x5B
      && f[2..4] == code
      && f[4] == arg1 && f[6] == arg2
      && f[5] == 0 && f[7] == 0 && f[8] == 0 && f[9] == 0 && f[10] == 0 && f[11] == 0
      && f[12] == Checksum(f[..12])
      && f[4..12] == Data(arg1, arg2)
  {
    var f := Frame(code, arg1, arg2);
    assert f[..12] == FramePrefix(code, arg1, arg2);
  }

  /**
    The checksum of a frame is a byte, zero only when the code and both
    arguments are zero.
   */
  lemma FrameChecksum(code: seq<Byte>, arg1: Byte, arg2: Byte)
    requires |code| == CodeLength
    ensures var f := Frame(code, arg1, arg2);
      && 0 <= f[12] <= 0xFF
      && (f[12] == 0 <==> code == [0, 0] && arg1 == 0 && arg2 == 0)
  {
    var prefix := FramePrefix(code, arg1, arg2);
    PrefixSum(code, arg1, arg2);
    assert Sum(code) == code[0] as int + code[1] by {
      assert code[1..][1..] == [];
      assert Sum(code[1..]) == code[1];
    }
    ChecksumIsByte(prefix);
    FrameLayout(code, arg1, arg2);
    assert Frame(code, arg1, arg2)[..12] == prefix;
  }

  /** Every generated frame passes the checksum test: the round trip the tests rely on. */
  lemma FrameChecksumValid(code: seq<Byte>, arg1: Byte, arg2: Byte)
    ensures HasValidChecksum(Frame(code, arg1, arg2))
  {
    var f := Frame(code, arg1, arg2);
    assert f[..|f| - 1] == FramePrefix(code, arg1, arg2);
  }

  /**
    Frames built by the catalog (code and arguments summing to at most 0xFF)
    sum to a multiple of 0x100 over all thirteen bytes.
   */
  lemma FrameSumsToMultipleOf256(code: seq<Byte>, arg1: Byte, arg2: Byte)
    requires Sum(code) + arg1 + arg2 < 0x100
    ensures Sum(Frame(code, arg1, arg2)) % 0x100 == 0
  {
    var prefix := FramePrefix(code, arg1, arg2);
    PrefixSum(code, arg1, arg2);
    SumOfBytes(code);
    ChecksumCompletesModulo256(prefix);
    SumAppend(prefix, [Checksum(prefix)]);
    assert Sum([Checksum(prefix)]) == Checksum(prefix) by {
      assert [Checksum(prefix)][1..] == [];
    }
  }

  /* ---------------------------------------------------------------------
     Checking replies
     --------------------------------------------------------------------- */

  /**
    What `_receive_response` makes of the bytes it read: the eight data bytes
    of a thirteen-byte frame with a valid checksum, else an invalid-response
    error. The length is tested first, so no checksum is taken of an empty read.
   */
  function ParseResponse(response: seq<Byte>): (r: Result<seq<Byte>>)
    ensures r.Ok? <==> |response| == FrameLength && HasValidChecksum(response)
    ensures r.Err? ==> r.error == ControllerError(InvalidResponse)
    ensures r.Ok? ==> |r.value| == DataLength
    ensures r.Ok? ==> forall i :: 0 <= i < DataLength ==> r.value[i] == response[4 + i]
  {
    if |response| != FrameLength || !HasValidChecksum(response) then
      Err(ControllerError(InvalidResponse))
    else
      Ok(response[|Header| + CodeLength..|response| - 1])
  }

  /** A reply built like a request yields that request's data section. */
  lemma ParseGeneratedFrame(code: seq<Byte>, arg1: Byte, arg2: Byte)
    requires |code| == CodeLength
    ensures ParseResponse(Frame(code, arg1, arg2)) == Ok(Data(arg1, arg2))
  {
    FrameLayout(code, arg1, arg2);
    FrameChecksumValid(code, arg1, arg2);
  }

  /** A frame with a valid checksum but a longer or shorter code is refused on its length. */
  lemma ParseRejectsOtherCodeLengths(code: seq<Byte>, arg1: Byte, arg2: Byte)
    requires |code| != CodeLength
    ensures HasValidChecksum(Frame(code, arg1, arg2))
    ensures ParseResponse(Frame(code, arg1, arg2)) == Err(ControllerError(InvalidResponse))
  {
    FrameChecksumValid(code, arg1, arg2);
  }

  /** Replacing the checksum byte of a generated frame by any other value is refused. */
  lemma ParseRejectsWrongChecksum(code: seq<Byte>, arg1: Byte, arg2: Byte, last: Byte)
    requires |code| == CodeLength
    requires last != Frame(code, arg1, arg2)[12]
    ensures ParseResponse(Frame(code, arg1, arg2)[..12] + [last]) == Err(ControllerError(InvalidResponse))
  {
    var f := Frame(code, arg1, arg2);
    FrameLayout(code, arg1, arg2);
    ChecksumUnique(f[..12], last);
  }

  /* ---------------------------------------------------------------------
     The imperative codec
     --------------------------------------------------------------------- */

  /** The checksum loop shared by `_append_checksum` and `_checksum_valid`. */
  method ComputeChecksum(cmd: seq<int>) returns (checksum: int)
    ensures checksum == Checksum(cmd)
  {
    checksum := ChecksumBase - Sum(cmd);
    if checksum < 0 {
      while checksum < 0
        invariant RaiseToNonNegative(checksum) == RaiseToNonNegative(ChecksumBase - Sum(cmd))
        decreases -checksum
      {
        checksum := checksum + 0xFF;
      }
      checksum := checksum + 1;
    }
  }

  /** `_append_checksum`: the command followed by its checksum. */
  method AppendChecksum(cmd: seq<int>) returns (full: seq<int>)
    ensures |full| == |cmd| + 1 && full[..|cmd|] == cmd
    ensures |full| >= 1 && HasValidChecksum(full)
  {
    var checksum := ComputeChecksum(cmd);
    full := cmd + [checksum];
    ChecksumUnique(cmd, checksum);
  }

  /** `_checksum_valid`: compares the last byte with the checksum of the others. */
  method ChecksumValid(response: seq<Byte>) returns (valid: bool)
    requires |response| >= 1
    ensures valid == HasValidChecksum(response)
  {
    var checksum := ComputeChecksum(response[..|response| - 1]);
    valid := response[|response| - 1] == checksum;
  }

  /**
    `_generate_cmd`: a zeroed data buffer, the arguments stored at indices 0
    and 2, header and code in front, checksum appended.
   */
  method GenerateCmd(code: seq<Byte>, arg1: Byte, arg2: Byte) returns (cmd: seq<Byte>)
    ensures cmd == Frame(code, arg1, arg2)
  {
    var data := new Byte[DataLength](_ => 0);
    data[0] := arg1;
    data[2] := arg2;
    assert data[..] == Data(arg1, arg2);
    var full := AppendChecksum(Header + code + data[..]);
    ChecksumUnique(FramePrefix(code, arg1, arg2), full[|full| - 1]);
    assert full == Frame(code, arg1, arg2) by {
      assert full == full[..|full| - 1] + [full[|full| - 1]];
    }
    cmd := full;
  }
}
