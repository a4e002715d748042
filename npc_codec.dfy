/** The NPC packet codec and the records shared by every transport: the LRC checksum,
    the frame builder, the instruction result and the per-call instruction arguments. */
module NpcCodec {
  import opened Outcomes

  /** A value that fits in one octet, as `bytes(...)` requires of each element. */
  type Byte = x: int | 0 <= x < 256

  /** Start-of-frame byte, ASCII '>'. */
  const START: Byte := 0x3E
  /** End-of-frame byte, ASCII '<'. */
  const END: Byte := 0x3C

  /** The outcome of one instruction cycle. `ackPacket` is the first (ACK) frame and
      `rxPackets` the data frames after it, in arrival order. */
  datatype ComResult = ComResult(status: bool, exception: string, ackPacket: seq<int>, rxPackets: seq<seq<int>>)

  /** `ComResult(False, exception=...)`: a failed result with no packets. */
  function FailedResult(exception: string): (r: ComResult)
    ensures !r.status && r.exception == exception && r.ackPacket == [] && r.rxPackets == []
  {
    ComResult(false, exception, [], [])
  }

  /** The resolved per-call contract: payload, number of frames to read (ACK included) and
      the pin to validate, if any. The function look-up table the original also carries is
      always the device's own table, so the orchestrator reads that table directly. */
  datatype InstructionArguments = InstructionArguments(payload: seq<int>, expectedRxPackets: int, checkPin: Option<int>)

  // ---------------------------------------------------------------------------
  // Checksum

  /** Plain sum of the data, the reference the LRC is checked against. */
  function Sum(data: seq<int>): int
  {
    if |data| == 0 then 0 else data[0] + Sum(data[1..])
  }

  lemma {:induction false} SumAppend(data: seq<int>, x: int)
    ensures Sum(data + [x]) == Sum(data) + x
  {
    if |data| > 0 {
      assert (data + [x])[1..] == data[1..] + [x];
      SumAppend(data[1..], x);
    }
  }

  /** Replacing one element changes the sum by the difference. */
  lemma {:induction false} SumUpdate(data: seq<int>, j: int, v: int)
    requires 0 <= j < |data|
    ensures Sum(data[j := v]) == Sum(data) - data[j] + v
  {
    if j > 0 {
      assert data[j := v][1..] == data[1..][j - 1 := v];
      SumUpdate(data[1..], j - 1, v);
    } else {
      assert data[j := v][1..] == data[1..];
    }
  }

  /** The running accumulator of the checksum loop: `lrc = (lrc + byte) & 0xFF` over the
      data. Python's `& 0xFF` on an int of either sign is the Euclidean remainder mod 256. */
  function RunningLrc(data: seq<int>): (lrc: int)
    ensures 0 <= lrc < 256
  {
    if |data| == 0 then 0 else (RunningLrc(data[..|data| - 1]) + data[|data| - 1]) % 256
  }

  /** Python's `a ^ b` on non-negative integers, bit by bit from the least significant. */
  function Xor(a: nat, b: nat): nat
    decreases a + b
  {
    if a == 0 && b == 0 then 0 else (if a % 2 == b % 2 then 0 else 1) + 2 * Xor(a / 2, b / 2)
  }

  function Pow2(k: nat): nat
  {
    if k == 0 then 1 else 2 * Pow2(k - 1)
  }

  /** XOR with the all-ones mask of `k` bits flips every bit of a `k`-bit number. */
  lemma {:induction false} XorMask(x: nat, k: nat)
    requires x < Pow2(k)
    ensures Xor(x, Pow2(k) - 1) == Pow2(k) - 1 - x
  {
    if k > 0 {
      var m := Pow2(k) - 1;
      assert m % 2 == 1 && m / 2 == Pow2(k - 1) - 1;
      XorMask(x / 2, k - 1);
    }
  }

  /** XOR with 0xFF on an octet is 255 minus the octet. */
  lemma XorAllOnes(x: int)
    requires 0 <= x < 256
    ensures Xor(x, 0xFF) == 255 - x
  {
    assert Pow2(8) == 256;
    XorMask(x, 8);
  }

  /** The finalisation step: the two's complement of the accumulator, so that
      accumulator plus checksum is a multiple of 256. */
  function Finalize(lrc: int): (c: Byte)
    requires 0 <= lrc < 256
    ensures (lrc + c) % 256 == 0
  {
    (256 - lrc) % 256
  }

  /** The finalisation as the checksum routine writes it, `((lrc ^ 0xFF) + 1) & 0xFF`,
      is that two's complement. */
  lemma FinalizeXorForm(lrc: int)
    requires 0 <= lrc < 256
    ensures (Xor(lrc, 0xFF) + 1) % 256 == Finalize(lrc)
  {
    XorAllOnes(lrc);
  }

  /** The NPC longitudinal redundancy check of a list of integers. */
  function Checksum(data: seq<int>): Byte
  {
    Finalize(RunningLrc(data))
  }

  lemma {:induction false} RunningLrcIsSumMod(data: seq<int>)
    ensures RunningLrc(data) == Sum(data) % 256
  {
    if |data| > 0 {
      var init := data[..|data| - 1];
      RunningLrcIsSumMod(init);
      assert data == init + [data[|data| - 1]];
      SumAppend(init, data[|data| - 1]);
    }
  }

  lemma ModAdd(a: int, b: int)
    ensures (a + b) % 256 == (a % 256 + b) % 256
  {
    var q := a / 256;
    assert a == 256 * q + a % 256;
    assert a + b == 256 * q + (a % 256 + b);
  }

  /** LRC cancellation: the data plus its checksum sum to a multiple of 256. */
  lemma LrcCancels(data: seq<int>)
    ensures 0 <= Checksum(data) < 256
    ensures (Sum(data) + Checksum(data)) % 256 == 0
  {
    RunningLrcIsSumMod(data);
    ModAdd(Sum(data), Checksum(data));
  }

  /** The checksum loop of `get_npc_checksum`. */
  method GetNpcChecksum(packetData: seq<int>) returns (checksum: int)
    ensures checksum == Checksum(packetData)
    ensures 0 <= checksum < 256
    ensures (Sum(packetData) + checksum) % 256 == 0
  {
    var lrc := 0;
    for i := 0 to |packetData|
      invariant lrc == RunningLrc(packetData[..i])
    {
      assert packetData[..i + 1][..i] == packetData[..i];
      lrc := (lrc + packetData[i]) % 256;
    }
    assert packetData[..|packetData|] == packetData;
    FinalizeXorForm(lrc);
    checksum := (Xor(lrc, 0xFF) + 1) % 256;
    LrcCancels(packetData);
  }

  lemma KnownRunningLrcs()
    ensures RunningLrc([255]) == 255
    ensures RunningLrc([0]) == 0
    ensures RunningLrc([0, 1, 1, 1]) == 3
    ensures RunningLrc([64, 0, 6, 13, 0, 1, 12, 1, 0]) == 97
    ensures RunningLrc([256, 256, 0]) == 0
  {
    LrcOfSum([0, 1, 1, 1], 3);
    LrcOfSum([64, 0, 6, 13, 0, 1, 12, 1, 0], 97);
    LrcOfSum([256, 256, 0], 512);
    LrcOfSum([255], 255);
    LrcOfSum([0], 0);
  }

  /** The accumulator of data whose sum is known. */
  lemma LrcOfSum(data: seq<int>, total: int)
    requires Sum(data) == total
    ensures RunningLrc(data) == total % 256
  {
    RunningLrcIsSumMod(data);
  }

  lemma KnownChecksums()
    ensures Checksum([255]) == 1
    ensures Checksum([0]) == 0
    ensures Checksum([0, 1, 1, 1]) == 253
    ensures Checksum([64, 0, 6, 13, 0, 1, 12, 1, 0]) == 159
    ensures Checksum([256, 256, 0]) == 0
  {
    KnownRunningLrcs();
  }

  // ---------------------------------------------------------------------------
  // Framing

  predicate IsByte(x: int)
  {
    0 <= x < 256
  }

  predicate AllBytes(s: seq<int>)
  {
    forall i :: 0 <= i < |s| ==> IsByte(s[i])
  }

  /** The range guard of `get_npc_packet`: only the upper bounds are checked. */
  predicate Encodable(toAddr: int, fromAddr: int, payload: seq<int>)
  {
    toAddr < 256 && fromAddr < 256 && |payload| < 256
  }

  /** What `bytes(...)` demands of the fields once the guard has passed: every one is an
      octet (a negative address or a payload element above 255 raises ValueError). */
  predicate FieldsAreBytes(toAddr: int, fromAddr: int, payload: seq<int>)
  {
    0 <= toAddr && 0 <= fromAddr && AllBytes(payload)
  }

  /** The layout of a well-formed NPC frame carrying `payload` from `fromAddr` to `toAddr`:
      `[START, to, from, len, payload..., lrc, END]` where the LRC covers everything from
      the to-address up to the last payload byte. */
  predicate IsFrameOf(packet: seq<int>, toAddr: int, fromAddr: int, payload: seq<int>)
  {
    && |packet| == |payload| + 6
    && packet[0] == START
    && packet[1] == toAddr
    && packet[2] == fromAddr
    && packet[3] == |payload|
    && packet[4..|packet| - 2] == payload
    && packet[1..|packet| - 2] == [toAddr, fromAddr, |payload|] + payload
    && packet[|packet| - 2] == Checksum(packet[1..|packet| - 2])
    && packet[|packet| - 1] == END
  }

  const BYTES_RANGE := "bytes must be in range(0, 256)"

  /** `get_npc_packet`: the frame; no bytes at all when an address or the payload length
      is too large; ValueError from `bytes(...)` when a field in range is not an octet. */
  function GetNpcPacket(toAddr: int, fromAddr: int, payload: seq<int>): (r: Result<seq<Byte>>)
    ensures r.Failure? <==> Encodable(toAddr, fromAddr, payload) && !FieldsAreBytes(toAddr, fromAddr, payload)
    ensures r.Failure? ==> r.error == Error(ValueError, BYTES_RANGE)
    ensures r.Success? ==> (r.value == [] <==> !Encodable(toAddr, fromAddr, payload))
    ensures r.Success? && r.value != [] ==> IsFrameOf(r.value, toAddr, fromAddr, payload)
  {
    if Encodable(toAddr, fromAddr, payload) then
      if FieldsAreBytes(toAddr, fromAddr, payload) then
        var packetData := [toAddr, fromAddr, |payload|] + payload;
        var lrc := Checksum(packetData);
        var packet := [START, toAddr, fromAddr, |payload|] + payload + [lrc, END];
        assert packet[1..|packet| - 2] == packetData;
        assert packet[4..|packet| - 2] == payload;
        Success(packet)
      else
        Failure(Error(ValueError, BYTES_RANGE))
    else
      Success([])
  }

  /** The checksum byte of a frame cancels the bytes it covers. */
  lemma FrameChecksumCancels(packet: seq<int>, toAddr: int, fromAddr: int, payload: seq<int>)
    requires IsFrameOf(packet, toAddr, fromAddr, payload)
    ensures (Sum(packet[1..|packet| - 2]) + packet[|packet| - 2]) % 256 == 0
  {
    LrcCancels(packet[1..|packet| - 2]);
  }

  lemma KnownPackets()
    ensures GetNpcPacket(0, 1, [1]) == Success([0x3E, 0x00, 0x01, 0x01, 0x01, 0xFD, 0x3C])
    ensures GetNpcPacket(64, 0, [13, 0, 1, 12, 1, 0])
         == Success([0x3E, 0x40, 0x00, 0x06, 0x0D, 0x00, 0x01, 0x0C, 0x01, 0x00, 0x9F, 0x3C])
    ensures GetNpcPacket(256, 256, []) == Success([])
    ensures GetNpcPacket(-1, 0, []) == Failure(Error(ValueError, BYTES_RANGE))
  {
    KnownChecksums();
    assert [0, 1, |[1]|] + [1] == [0, 1, 1, 1];
    assert [START, 0, 1, 1] + [1] + [253, END] == [0x3E, 0x00, 0x01, 0x01, 0x01, 0xFD, 0x3C];
    var p := [13, 0, 1, 12, 1, 0];
    assert [64, 0, |p|] + p == [64, 0, 6, 13, 0, 1, 12, 1, 0];
    assert [START, 64, 0, 6] + p + [159, END]
        == [0x3E, 0x40, 0x00, 0x06, 0x0D, 0x00, 0x01, 0x0C, 0x01, 0x00, 0x9F, 0x3C];
  }

  // ---------------------------------------------------------------------------
  // The abstract interface contract

  /** The operations every transport must supply. */
  datatype InterfaceOperation =
    | ExecuteInstructionOp
    | ReadResponseOp
    | HardResetOp
    | OpenOp
    | CloseOp
    | EnumerateDevicesOp

  function OperationName(op: InterfaceOperation): string
  {
    match op
    case ExecuteInstructionOp => "execute_instruction"
    case ReadResponseOp => "read_response"
    case HardResetOp => "hard_reset"
    case OpenOp => "open"
    case CloseOp => "close"
    case EnumerateDevicesOp => "enumerate_devices"
  }

  const OVERRIDE_PREFIX := "UOSInterfaces must over-ride "

  /** Calling an operation on the base interface itself: it raises UOSUnsupportedError,
      naming the operation that the transport failed to override. */
  function BaseInterfaceCall(op: InterfaceOperation): (e: Error)
    ensures e.kind == Unsupported
    ensures |e.message| >= |OVERRIDE_PREFIX| + |OperationName(op)|
    ensures e.message[|OVERRIDE_PREFIX|..|OVERRIDE_PREFIX| + |OperationName(op)|] == OperationName(op)
  {
    // the hard_reset message has no closing full stop in the original
    var suffix := if op == HardResetOp then " prototype" else " prototype.";
    var message := OVERRIDE_PREFIX + OperationName(op) + suffix;
    assert message[|OVERRIDE_PREFIX|..|OVERRIDE_PREFIX| + |OperationName(op)|] == OperationName(op);
    Error(Unsupported, message)
  }
}
