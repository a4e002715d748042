/** The legacy hardware layer: its abstract interface, which raises NotImplementedError,
    and its `UOSDevice`, which splits a `"USB|<port>"` connection string, validates against
    a look-up table read from an ini file, and verifies received frames by recomputing the
    checksum over the whole packet. It has no retry and no pin check. */
module LegacyHardware {
  import opened Outcomes
  import opened NpcCodec
  import opened UosHardware

  // ---------------------------------------------------------------------------
  // The abstract interface

  /** Calling an operation on the legacy base interface raises NotImplementedError with
      the same text the current base interface uses. The legacy base has no device
      enumeration. */
  function LegacyBaseCall(op: InterfaceOperation): (e: Error)
    requires op != EnumerateDevicesOp
    ensures e.kind == NotImplemented
    ensures e.message == BaseInterfaceCall(op).message
  {
    var suffix := if op == HardResetOp then " prototype" else " prototype.";
    Error(NotImplemented, OVERRIDE_PREFIX + OperationName(op) + suffix)
  }

  /** The legacy `get_npc_packet`: the same upper-bound guard, then `bytes(...)` over the
      start byte, the addresses, the length, the payload, the LRC and the end byte, which
      raises ValueError when any of them is not an octet. */
  function LegacyGetNpcPacket(toAddr: int, fromAddr: int, payload: seq<int>): Result<seq<int>>
  {
    if toAddr < 256 && fromAddr < 256 && |payload| < 256 then
      var packetData := [toAddr, fromAddr, |payload|] + payload;
      var octets := [START, packetData[0], packetData[1], |payload|] + payload + [Checksum(packetData), END];
      if AllBytes(octets) then Success(octets) else Failure(Error(ValueError, BYTES_RANGE))
    else
      Success([])
  }

  /** The legacy packet builder behaves as the current one on every input: no bytes
      outside the guard, ValueError for a field in range that is not an octet, and
      otherwise the same frame. */
  lemma LegacyPacketContract(toAddr: int, fromAddr: int, payload: seq<int>)
    ensures LegacyGetNpcPacket(toAddr, fromAddr, payload) == GetNpcPacket(toAddr, fromAddr, payload)
  {
    if Encodable(toAddr, fromAddr, payload) {
      var packetData := [toAddr, fromAddr, |payload|] + payload;
      var octets := [START, packetData[0], packetData[1], |payload|] + payload + [Checksum(packetData), END];
      assert octets[1] == toAddr && octets[2] == fromAddr;
      forall i | 0 <= i < |payload| ensures octets[4 + i] == payload[i] { }
      if FieldsAreBytes(toAddr, fromAddr, payload) {
        forall i | 0 <= i < |octets| ensures IsByte(octets[i]) {
          if 4 <= i < 4 + |payload| {
            assert octets[i] == payload[i - 4];
          }
        }
      } else if !(0 <= toAddr) {
        assert !IsByte(octets[1]);
      } else if !(0 <= fromAddr) {
        assert !IsByte(octets[2]);
      } else {
        var i :| 0 <= i < |payload| && !IsByte(payload[i]);
        assert !IsByte(octets[4 + i]);
      }
    }
  }

  // ---------------------------------------------------------------------------
  // Connection strings

  /** `s.split(sep)`. */
  function Split(s: string, sep: char): (parts: seq<string>)
    ensures |parts| >= 1
  {
    if |s| == 0 then [""]
    else if s[0] == sep then [""] + Split(s[1..], sep)
    else
      var rest := Split(s[1..], sep);
      [[s[0]] + rest[0]] + rest[1..]
  }

  /** `sep.join(parts)`. */
  function Join(parts: seq<string>, sep: char): string
    requires |parts| >= 1
  {
    if |parts| == 1 then parts[0] else parts[0] + [sep] + Join(parts[1..], sep)
  }

  function Occurrences(s: string, c: char): nat
  {
    if |s| == 0 then 0 else (if s[0] == c then 1 else 0) + Occurrences(s[1..], c)
  }

  /** Splitting yields one more part than there are separators, no part holds the
      separator, and joining the parts back gives the original string. */
  lemma {:induction false} SplitJoin(s: string, sep: char)
    ensures |Split(s, sep)| == Occurrences(s, sep) + 1
    ensures forall i | 0 <= i < |Split(s, sep)| :: sep !in Split(s, sep)[i]
    ensures Join(Split(s, sep), sep) == s
  {
    if |s| > 0 {
      SplitJoin(s[1..], sep);
      var rest := Split(s[1..], sep);
      if s[0] == sep {
        assert Split(s, sep)[1..] == rest;
        forall i | 0 <= i < |Split(s, sep)| ensures sep !in Split(s, sep)[i] {
          if i > 0 {
            assert Split(s, sep)[i] == rest[i - 1];
          }
        }
        assert s == [sep] + s[1..];
      } else {
        var parts := Split(s, sep);
        assert parts[1..] == rest[1..];
        forall i | 0 <= i < |parts| ensures sep !in parts[i] {
          if i > 0 {
            assert parts[i] == rest[i];
          }
        }
        if |rest| == 1 {
          assert s == [s[0]] + s[1..];
        } else {
          assert rest == [rest[0]] + rest[1..];
          assert Join(rest, sep) == rest[0] + [sep] + Join(rest[1..], sep);
          assert s == [s[0]] + s[1..];
        }
      }
    }
  }

  /** A string without the separator is a single part. */
  lemma {:induction false} SplitNoSeparator(s: string, sep: char)
    requires sep !in s
    ensures Split(s, sep) == [s]
  {
    if |s| > 0 {
      assert s[0] in s;
      assert forall c | c in s[1..] :: c in s;
      SplitNoSeparator(s[1..], sep);
      assert [s[0]] + s[1..] == s;
    }
  }

  /** The first part ends at the first separator; the rest is split from just after it. */
  lemma {:induction false} SplitFirst(s: string, sep: char, i: int)
    requires 0 <= i < |s| && s[i] == sep && sep !in s[..i]
    ensures Split(s, sep) == [s[..i]] + Split(s[i + 1..], sep)
  {
    if i > 0 {
      assert s[0] in s[..i];
      assert s[1..][..i - 1] == s[1..i];
      assert forall c | c in s[1..i] :: c in s[..i];
      SplitFirst(s[1..], sep, i - 1);
      assert s[1..][i..] == s[i + 1..];
      assert [s[0]] + s[1..i] == s[..i];
    } else {
      assert s[1..] == s[i + 1..];
    }
  }

  /** A well-formed connection string splits into the interface and the port. */
  lemma WellFormedConnection(port: string)
    requires '|' !in port
    ensures Split("USB|" + port, '|') == ["USB", port]
  {
    var s := "USB|" + port;
    assert s[..3] == "USB" && s[3] == '|' && s[4..] == port;
    SplitFirst(s, '|', 3);
    SplitNoSeparator(port, '|');
  }

  /** A connection string with a second separator splits into three parts. */
  lemma OverlongConnection(port: string, extra: string)
    requires '|' !in port && '|' !in extra
    ensures Split("USB|" + port + "|" + extra, '|') == ["USB", port, extra]
  {
    var s := "USB|" + port + "|" + extra;
    var tail := port + "|" + extra;
    assert s[..3] == "USB" && s[3] == '|' && s[4..] == tail;
    SplitFirst(s, '|', 3);
    assert tail[..|port|] == port && tail[|port|] == '|' && tail[|port| + 1..] == extra;
    SplitFirst(tail, '|', |port|);
    SplitNoSeparator(extra, '|');
  }


  // ---------------------------------------------------------------------------
  // Loading modes

  /** Eager loading: the device opens when it is created. */
  predicate IsEager(loading: Option<string>)
  {
    loading.Some? && Upper(loading.value) == "EAGER"
  }

  /** No loading mode is both lazy and eager; absent or any-case "lazy" is lazy, any-case
      "eager" is eager, and any other mode (such as "other") is neither: such a device is
      not opened on creation and not opened around instructions. */
  lemma LoadingModes(loading: Option<string>)
    ensures !(IsLazy(loading) && IsEager(loading))
    ensures IsLazy(None) && IsLazy(Some("lazy")) && IsLazy(Some("Lazy"))
    ensures IsEager(Some("eager")) && IsEager(Some("EAGER"))
    ensures !IsLazy(Some("other")) && !IsEager(Some("other"))
  {
    assert Upper("lazy") == "LAZY";
    assert Upper("Lazy") == "LAZY";
    assert Upper("eager") == "EAGER";
    assert Upper("EAGER") == "EAGER";
    assert Upper("LAZY") == "LAZY";
    assert Upper("other") == "OTHER";
  }

  // ---------------------------------------------------------------------------
  // One legacy instruction

  /** The device definition read from the ini file: enabled functions mapped to their
      schema addresses per volatility, and the baud rate as written in the file. */
  datatype LegacyLut = LegacyLut(
    functions: map<string, map<int, int>>,
    defaultBaudrate: string,
    digitalPins: seq<int>,
    analoguePins: seq<int>,
    interfaces: seq<string>)

  /** The instruction data dictionary; a key a caller leaves out is None. The function
      table it carries is always the device's own. */
  datatype LegacyArgs = LegacyArgs(payload: Option<seq<int>>, expectedPackets: Option<int>)

  const RESULT_NOT_SUBSCRIPTABLE := "'COMresult' object is not subscriptable"

  function MissingKey(key: string): Error
  {
    Error(KeyError, "'" + key + "'")
  }

  /** Only an enabled function at an enabled volatility may run. */
  function LegacyValidate(lut: LegacyLut, identity: string, functionName: string, volatility: int): (o: Outcome)
    ensures o.Pass? <==> functionName in lut.functions && volatility in lut.functions[functionName]
    ensures o.Fail? ==> o.error.kind == NotImplemented
  {
    if functionName !in lut.functions || volatility !in lut.functions[functionName] then
      Fail(Error(NotImplemented, functionName + " at volatility:" + IntText(volatility) + " has not been implemented for " + identity))
    else
      Pass
  }

  /** The legacy wire path: the payload is looked up before the transmit and the
      expected packet count only after a successful one; a successful read is verified
      over whole packets. */
  function LegacyWirePath(address: int, args: LegacyArgs, link: Link): (Result<ComResult>, Link)
  {
    if args.payload.None? then (Failure(MissingKey("payload")), link)
    else
      var (tx, l1) := LinkExecute(link, address, args.payload.value);
      if tx.Failure? then (tx, l1)
      else if !tx.value.status then (Success(FailedResult("")), l1)
      else if args.expectedPackets.None? then (Failure(MissingKey("expected_packets")), l1)
      else
        var (rx, l2) := LinkRead(l1, args.expectedPackets.value, 2);
        if !rx.status then (Success(rx), l2) else (VerifiedResponse(Whole, rx), l2)
  }

  /** The legacy `__execute_instruction`: validate, open if lazy (a refusal raises
      RuntimeError), the wire or special path, close if lazy (a refusal raises
      RuntimeError). One attempt only. */
  function LegacyExecuteSpec(lut: LegacyLut, identity: string, lazy: bool, link: Link,
                             functionName: string, volatility: int, args: LegacyArgs): (Result<ComResult>, Link)
  {
    match LegacyValidate(lut, identity, functionName, volatility)
    case Fail(e) => (Failure(e), link)
    case Pass =>
      var (isOpen, l1) := AfterOpen(lazy, link);
      if !isOpen then (Failure(Error(RuntimeError, OPEN_FAILED)), l1)
      else
        var address := lut.functions[functionName][volatility];
        var (outcome, l2) := if address >= 0 then LegacyWirePath(address, args, l1) else SpecialPath(functionName, l1);
        if outcome.Failure? then (outcome, l2)
        else
          var (closed, l3) := if lazy then LinkClose(l2) else (true, l2);
          if !closed then (Failure(Error(RuntimeError, CLOSE_FAILED)), l3)
          else (outcome, l3)
  }

  /** The calls of the legacy wire path: at most one transmit, followed by a read only
      when the transmit reply succeeded and the expected count was given. */
  lemma LegacyWirePathCalls(address: int, args: LegacyArgs, link: Link)
    ensures Extends(link, LegacyWirePath(address, args, link).1)
    ensures var tx := NextSend(link);
            Added(link, LegacyWirePath(address, args, link).1)
              == if args.payload.None? then []
                 else if tx.Success? && tx.value.status && args.expectedPackets.Some? then
                   [ExecuteCall(address, args.payload.value), ReadCall(args.expectedPackets.value, 2)]
                 else [ExecuteCall(address, args.payload.value)]
  {
  }

  /** A failed validation raises before the transport is touched. */
  lemma LegacyValidationFirst(lut: LegacyLut, identity: string, lazy: bool, link: Link,
                              functionName: string, volatility: int, args: LegacyArgs)
    requires LegacyValidate(lut, identity, functionName, volatility).Fail?
    ensures LegacyExecuteSpec(lut, identity, lazy, link, functionName, volatility, args).1 == link
    ensures LegacyExecuteSpec(lut, identity, lazy, link, functionName, volatility, args).0.Failure?
    ensures LegacyExecuteSpec(lut, identity, lazy, link, functionName, volatility, args).0.error.kind == NotImplemented
  {
  }

  /** The calls of the path a legacy instruction takes once the port is open: the wire
      path's calls for a non-negative address, the special action's call otherwise. */
  lemma LegacyPathPieces(address: int, functionName: string, args: LegacyArgs, l1: Link)
    returns (middle: seq<Call>)
    ensures address >= 0 ==> Extends(l1, LegacyWirePath(address, args, l1).1)
    ensures (if address >= 0 then LegacyWirePath(address, args, l1) else SpecialPath(functionName, l1)).1.trace
              == l1.trace + middle
    ensures middle == if address < 0 then (if SpecialActionNamed(functionName).Some? then [SpecialCall(HardResetAction)] else [])
                      else Added(l1, LegacyWirePath(address, args, l1).1)
  {
    if address >= 0 {
      LegacyWirePathCalls(address, args, l1);
      middle := Added(l1, LegacyWirePath(address, args, l1).1);
    } else {
      middle := if SpecialActionNamed(functionName).Some? then [SpecialCall(HardResetAction)] else [];
    }
  }

  /** The calls of a legacy instruction split into the open, the path and the close. */
  lemma LegacyPieces(lut: LegacyLut, identity: string, lazy: bool, link: Link,
                     functionName: string, volatility: int, args: LegacyArgs)
    returns (front: seq<Call>, middle: seq<Call>, back: seq<Call>)
    requires LegacyValidate(lut, identity, functionName, volatility).Pass?
    ensures Extends(link, LegacyExecuteSpec(lut, identity, lazy, link, functionName, volatility, args).1)
    ensures Added(link, LegacyExecuteSpec(lut, identity, lazy, link, functionName, volatility, args).1) == front + middle + back
    ensures front == if lazy then [OpenCall] else []
    ensures back == [] || back == [CloseCall]
    ensures !lazy ==> back == []
    ensures lazy && LegacyExecuteSpec(lut, identity, lazy, link, functionName, volatility, args).0.Success? ==> back == [CloseCall]
    ensures var l1 := AfterOpen(lazy, link).1;
            var address := lut.functions[functionName][volatility];
            middle == if !AfterOpen(lazy, link).0 then []
                      else if address < 0 then (if SpecialActionNamed(functionName).Some? then [SpecialCall(HardResetAction)] else [])
                      else Added(l1, LegacyWirePath(address, args, l1).1)
  {
    var opening := AfterOpen(lazy, link);
    var isOpen, l1 := opening.0, opening.1;
    front := if lazy then [OpenCall] else [];
    assert l1.trace == link.trace + front;
    var r := LegacyExecuteSpec(lut, identity, lazy, link, functionName, volatility, args);
    if !isOpen {
      middle, back := [], [];
      assert r.1 == l1;
      TraceSteps(link, l1, l1, l1, front, middle, back);
    } else {
      var address := lut.functions[functionName][volatility];
      var path := if address >= 0 then LegacyWirePath(address, args, l1) else SpecialPath(functionName, l1);
      middle := LegacyPathPieces(address, functionName, args, l1);
      back := if lazy && path.0.Success? then [CloseCall] else [];
      assert r.1 == if lazy && path.0.Success? then LinkClose(path.1).1 else path.1;
      TraceSteps(link, l1, path.1, r.1, front, middle, back);
    }
  }

  /** No retry: a legacy instruction transmits at most once, reads only after a transmit
      whose reply succeeded, never opens or closes unless lazy, and when lazy opens once
      and, if it returns a result, closes once at the end. */
  lemma LegacyExecuteCalls(lut: LegacyLut, identity: string, lazy: bool, link: Link,
                           functionName: string, volatility: int, args: LegacyArgs)
    ensures Extends(link, LegacyExecuteSpec(lut, identity, lazy, link, functionName, volatility, args).1)
    ensures var run := LegacyExecuteSpec(lut, identity, lazy, link, functionName, volatility, args);
            var added := Added(link, run.1);
            && Count(added, IsTransmission) <= 1
            && Count(added, IsRead) <= Count(added, IsTransmission)
            && (Count(added, IsRead) == 1 ==> NextSend(AfterOpen(lazy, link).1).Success? && NextSend(AfterOpen(lazy, link).1).value.status)
            && (!lazy ==> Count(added, IsOpen) == 0 && Count(added, IsClose) == 0)
            && (lazy && run.0.Success? ==> Count(added, IsOpen) == 1 && Count(added, IsClose) == 1 && added[|added| - 1] == CloseCall)
  {
    var run := LegacyExecuteSpec(lut, identity, lazy, link, functionName, volatility, args);
    if LegacyValidate(lut, identity, functionName, volatility).Fail? {
      assert Added(link, link) == [];
      return;
    }
    var front, middle, back := LegacyPieces(lut, identity, lazy, link, functionName, volatility, args);
    var l1 := AfterOpen(lazy, link).1;
    var address := lut.functions[functionName][volatility];
    if AfterOpen(lazy, link).0 && address >= 0 {
      LegacyWirePathCalls(address, args, l1);
    }
    assert |middle| == 2 ==> NextSend(l1).Success? && NextSend(l1).value.status;
    BracketCounts(lazy, front, middle, back);
  }

  // ---------------------------------------------------------------------------
  // The whole-packet checksum

  /** As written, the legacy check recomputes the checksum over the whole received frame,
      START, checksum and END included. For a frame the codec builds, the covered bytes
      and the checksum sum to 0 modulo 256, so the whole frame sums to START + END = 122
      and the recomputed value is always 134: the check passes exactly when the frame's
      own checksum happens to be 134. */
  lemma WholePacketCheckAsWritten(packet: seq<int>, toAddr: int, fromAddr: int, payload: seq<int>)
    requires IsFrameOf(packet, toAddr, fromAddr, payload)
    ensures |packet| >= 2
    ensures Checksum(Covered(Whole, packet)) == 134
    ensures PacketChecksumOk(Whole, packet) <==> packet[|packet| - 2] == 134
  {
    var n := |packet|;
    var covered := Sum(packet[1..n - 2]) + packet[n - 2];
    FrameChecksumCancels(packet, toAddr, fromAddr, payload);
    SumAroundInner(packet);
    assert Sum(packet) == covered + (START + END);
    RunningLrcIsSumMod(packet);
    ModAdd(covered, START + END);
    assert RunningLrc(packet) == START + END;
  }

  /** A frame's sum splits into START, the covered bytes with the checksum, and END. */
  lemma {:induction false} SumAroundInner(packet: seq<int>)
    requires |packet| >= 3
    ensures Sum(packet) == packet[0] + (Sum(packet[1..|packet| - 2]) + packet[|packet| - 2]) + packet[|packet| - 1]
  {
    var n := |packet|;
    var inner := packet[1..n - 2];
    var withChecksum := inner + [packet[n - 2]];
    assert packet[1..] == withChecksum + [packet[n - 1]];
    SumAppend(withChecksum, packet[n - 1]);
    SumAppend(inner, packet[n - 2]);
    assert Sum(packet) == packet[0] + Sum(packet[1..]);
  }

  /** The discrepancy on a concrete frame: `get_npc_packet(0, 1, (1,))` has checksum 0xFD,
      and a response carrying it as its ACK fails the legacy check, so a correct reply
      is reported as a failure; the current check accepts it. */
  lemma WholePacketRejectsValidFrame()
    ensures var frame := [0x3E, 0x00, 0x01, 0x01, 0x01, 0xFD, 0x3C];
            && GetNpcPacket(0, 1, [1]) == Success(frame)
            && !PacketChecksumOk(Whole, frame)
            && PacketChecksumOk(Inner, frame)
            && VerifiedResponse(Whole, ComResult(true, "", frame, [])) == Success(ComResult(false, "", frame, []))
            && VerifiedResponse(Inner, ComResult(true, "", frame, [])) == Success(ComResult(true, "", frame, []))
  {
    var frame := [0x3E, 0x00, 0x01, 0x01, 0x01, 0xFD, 0x3C];
    KnownPackets();
    WholePacketCheckAsWritten(frame, 0, 1, [1]);
    EncodedFramePasses(frame, 0, 1, [1]);
    var response := ComResult(true, "", frame, []);
    assert Packets(response) == [frame];
    CheckPacketsMeaning(Whole, true, [frame]);
    CheckPacketsMeaning(Inner, true, [frame]);
    assert !HasShortPacket([frame]);
  }

  // ---------------------------------------------------------------------------
  // The legacy device

  /** The guards of the legacy `__init__` that a USB device passes: a look-up table, a
      connection string of two `|`-separated parts, and the interface USB. */
  predicate UsbConnection(connection: string, lut: Option<LegacyLut>)
  {
    lut.Some? && |Split(connection, '|')| == 2 && Upper(Split(connection, '|')[0]) == "USB"
  }

  const ABSTRACT_TRANSPORT := "Can't instantiate abstract class NPCSerialPort with abstract methods hard_reset"

  /** The legacy `__init__` as written. The `NPCSerialPort` it imports is the serial driver
      package's class, which never implements the abstract `hard_reset` of the interface
      (and whose constructor takes no `baudrate` either), so building the transport raises
      TypeError. The constructor therefore raises on every input; this is the error. */
  function LegacyInitAsWritten(identity: string, connection: string, lut: Option<LegacyLut>): (e: Error)
    ensures e.kind == TypeError <==> UsbConnection(connection, lut)
    ensures e.kind == TypeError ==> e.message == ABSTRACT_TRANSPORT
    ensures lut.None? ==> e == Error(NotImplemented, "'" + identity + "' does not have a valid look up table")
    ensures lut.Some? && |Split(connection, '|')| != 2 ==> e.kind == ValueError
    ensures lut.Some? && |Split(connection, '|')| == 2 && Upper(Split(connection, '|')[0]) != "USB" ==>
              e.kind == AttributeError
  {
    if lut.None? then Error(NotImplemented, "'" + identity + "' does not have a valid look up table")
    else
      var parts := Split(connection, '|');
      if |parts| != 2 then
        Error(ValueError, "NPC connection string was incorrectly formatted, length=" + IntText(|parts|))
      else if Upper(parts[0]) != "USB" then
        Error(AttributeError, "Could not correctly open a connection to " + identity + " - " + connection)
      else
        Error(TypeError, ABSTRACT_TRANSPORT)
  }

  /** Every well-formed USB connection string, the form the legacy device is meant to be
      built from, passes the guards and so makes the constructor as written raise
      TypeError, where `LegacyDevice.Create` builds the device. */
  lemma UsbConstructionRaises(identity: string, port: string, lut: LegacyLut)
    requires '|' !in port
    ensures UsbConnection("USB|" + port, Some(lut))
    ensures LegacyInitAsWritten(identity, "USB|" + port, Some(lut)) == Error(TypeError, ABSTRACT_TRANSPORT)
  {
    WellFormedConnection(port);
    assert Upper("USB") == "USB";
  }

  /** The legacy `UOSDevice`, bound to a serial transport on the port named by the
      connection string. */
  class LegacyDevice {
    const identity: string
    const connection: string
    const lut: LegacyLut
    const loading: Option<string>
    /** The serial port: the connection string's second segment. */
    const port: string
    var link: Link

    constructor (identity: string, connection: string, lut: LegacyLut, loading: Option<string>, port: string, link: Link)
      ensures this.identity == identity && this.connection == connection && this.lut == lut
      ensures this.loading == loading && this.port == port && this.link == link
    {
      this.identity := identity;
      this.connection := connection;
      this.lut := lut;
      this.loading := loading;
      this.port := port;
      this.link := link;
    }

    /** The legacy `__init__` as intended: an empty look-up table is refused first, then
        a connection string that is not two `|`-separated parts, then any interface but
        USB; otherwise the device is bound to a transport that honours the interface
        contract, and an eager device opens at once. */
    static method Create(identity: string, connection: string, loading: Option<string>,
                         lut: Option<LegacyLut>, link: Link) returns (r: Result<LegacyDevice>)
      ensures lut.None? ==> r == Failure(Error(NotImplemented, "'" + identity + "' does not have a valid look up table"))
      ensures lut.Some? && |Split(connection, '|')| != 2 ==>
                r == Failure(Error(ValueError, "NPC connection string was incorrectly formatted, length="
                                               + IntText(|Split(connection, '|')|)))
      ensures lut.Some? && |Split(connection, '|')| == 2 && Upper(Split(connection, '|')[0]) != "USB" ==>
                r == Failure(Error(AttributeError, "Could not correctly open a connection to " + identity + " - " + connection))
      ensures r.Success? <==> UsbConnection(connection, lut) && (IsEager(loading) ==> LinkOpen(link).0)
      ensures r.Failure? && UsbConnection(connection, lut) ==> r == Failure(Error(RuntimeError, OPEN_FAILED))
      ensures r.Success? ==>
                && fresh(r.value)
                && r.value.identity == identity && r.value.connection == connection
                && r.value.lut == lut.value && r.value.loading == loading
                && r.value.port == Split(connection, '|')[1]
                && r.value.link == (if IsEager(loading) then LinkOpen(link).1 else link)
    {
      if lut.None? {
        return Failure(Error(NotImplemented, "'" + identity + "' does not have a valid look up table"));
      }
      var parts := Split(connection, '|');
      if |parts| != 2 {
        return Failure(Error(ValueError, "NPC connection string was incorrectly formatted, length=" + IntText(|parts|)));
      }
      if Upper(parts[0]) != "USB" {
        return Failure(Error(AttributeError, "Could not correctly open a connection to " + identity + " - " + connection));
      }
      var created := new LegacyDevice(identity, connection, lut.value, loading, parts[1], link);
      if IsEager(loading) {
        var opening := created.Open();
        if opening.Fail? {
          return Failure(opening.error);
        }
      }
      return Success(created);
    }

    /** `open`: a refusal raises RuntimeError. */
    method Open() returns (o: Outcome)
      modifies this
      ensures link == LinkOpen(old(link)).1
      ensures o.Pass? <==> |old(link).opens| > 0 && old(link).opens[0]
      ensures o.Fail? ==> o.error == Error(RuntimeError, OPEN_FAILED)
    {
      var opening := LinkOpen(link);
      link := opening.1;
      if !opening.0 {
        return Fail(Error(RuntimeError, OPEN_FAILED));
      }
      return Pass;
    }

    /** `close`: a refusal raises RuntimeError. */
    method Close() returns (o: Outcome)
      modifies this
      ensures link == LinkClose(old(link)).1
      ensures o.Pass? <==> |old(link).closes| > 0 && old(link).closes[0]
      ensures o.Fail? ==> o.error == Error(RuntimeError, CLOSE_FAILED)
    {
      var closing := LinkClose(link);
      link := closing.1;
      if !closing.0 {
        return Fail(Error(RuntimeError, CLOSE_FAILED));
      }
      return Pass;
    }

    /** The legacy `__execute_instruction`, step by step on the transport. */
    method ExecuteInstruction(functionName: string, volatility: int, args: LegacyArgs) returns (r: Result<ComResult>)
      modifies this
      ensures (r, link) == LegacyExecuteSpec(lut, identity, IsLazy(loading), old(link), functionName, volatility, args)
    {
      var valid := LegacyValidate(lut, identity, functionName, volatility);
      if valid.Fail? {
        return Failure(valid.error);
      }
      var lazy := IsLazy(loading);
      var rxResponse := FailedResult("");
      if lazy {
        var opening := Open();
        if opening.Fail? {
          return Failure(opening.error);
        }
      }
      ghost var afterOpen := link;
      var target := lut.functions[functionName][volatility];
      if target >= 0 {
        if args.payload.None? {
          return Failure(MissingKey("payload"));
        }
        var tx := LinkExecute(link, target, args.payload.value);
        link := tx.1;
        if tx.0.Failure? {
          return tx.0;
        }
        if tx.0.value.status {
          if args.expectedPackets.None? {
            return Failure(MissingKey("expected_packets"));
          }
          var rx := LinkRead(link, args.expectedPackets.value, 2);
          link := rx.1;
          rxResponse := rx.0;
          if rxResponse.status {
            var verified := VerifyChecksums(Whole, rxResponse);
            if verified.Failure? {
              return verified;
            }
            rxResponse := verified.value;
          }
        }
        assert (Success(rxResponse), link) == LegacyWirePath(target, args, afterOpen);
      } else {
        var action := SpecialActionNamed(functionName);
        if action.None? {
          return Failure(NoSuchAttribute(functionName));
        }
        var special := LinkSpecial(link, action.value);
        link := special.1;
        rxResponse := special.0;
      }
      if lazy {
        var closing := Close();
        if closing.Fail? {
          return Failure(closing.error);
        }
      }
      return Success(rxResponse);
    }

    /** One of the legacy public instructions. `get_adc_input` and `reset_all_io` call
        the helper without its instruction data and raise TypeError before doing
        anything; `hard_reset` indexes its result, which is not subscriptable, so it
        raises TypeError after the instruction has run. */
    method Perform(op: LegacyOperation, volatility: int) returns (r: Result<ComResult>)
      modifies this
      ensures r == LegacyPerformSpec(lut, identity, IsLazy(loading), old(link), op, volatility).0
      ensures link == LegacyPerformSpec(lut, identity, IsLazy(loading), old(link), op, volatility).1
    {
      match op {
        case LegacySetGpioOutput(pin, level) =>
          r := ExecuteInstruction("set_gpio_output", volatility, LegacyArgs(Some([pin, 0, level]), Some(1)));
        case LegacyGetGpioInput(pin, level) =>
          r := ExecuteInstruction("get_gpio_input", volatility, LegacyArgs(Some([pin, 1, level]), Some(2)));
        case LegacyGetAdcInput(_, _) =>
          r := Failure(MissingInstructionData());
        case LegacyResetAllIo =>
          r := Failure(MissingInstructionData());
        case LegacyHardReset =>
          var response := ExecuteInstruction("hard_reset", 0, LegacyArgs(None, None));
          r := if response.Success? then Failure(Error(TypeError, RESULT_NOT_SUBSCRIPTABLE)) else response;
      }
    }
  }

  /** The legacy public instructions. */
  datatype LegacyOperation =
    | LegacySetGpioOutput(pin: int, level: int)
    | LegacyGetGpioInput(pin: int, level: int)
    | LegacyGetAdcInput(pin: int, level: int)
    | LegacyResetAllIo
    | LegacyHardReset

  function MissingInstructionData(): Error
  {
    Error(TypeError, "__execute_instruction() missing 1 required positional argument: 'instruction_data'")
  }

  /** What each legacy public instruction does to the transport and returns. */
  function LegacyPerformSpec(lut: LegacyLut, identity: string, lazy: bool, link: Link,
                             op: LegacyOperation, volatility: int): (Result<ComResult>, Link)
  {
    match op
    case LegacySetGpioOutput(pin, level) =>
      LegacyExecuteSpec(lut, identity, lazy, link, "set_gpio_output", volatility, LegacyArgs(Some([pin, 0, level]), Some(1)))
    case LegacyGetGpioInput(pin, level) =>
      LegacyExecuteSpec(lut, identity, lazy, link, "get_gpio_input", volatility, LegacyArgs(Some([pin, 1, level]), Some(2)))
    case LegacyGetAdcInput(_, _) => (Failure(MissingInstructionData()), link)
    case LegacyResetAllIo => (Failure(MissingInstructionData()), link)
    case LegacyHardReset =>
      var (response, l1) := LegacyExecuteSpec(lut, identity, lazy, link, "hard_reset", 0, LegacyArgs(None, None));
      (if response.Success? then Failure(Error(TypeError, RESULT_NOT_SUBSCRIPTABLE)) else response, l1)
  }

  /** None of the legacy public instructions ever returns normally except the two GPIO
      ones: the ADC read and the IO reset raise TypeError without touching the
      transport, and the hard reset raises whatever happens. */
  lemma LegacyBrokenInstructions(lut: LegacyLut, identity: string, lazy: bool, link: Link, volatility: int, pin: int, level: int)
    ensures LegacyPerformSpec(lut, identity, lazy, link, LegacyGetAdcInput(pin, level), volatility) == (Failure(MissingInstructionData()), link)
    ensures LegacyPerformSpec(lut, identity, lazy, link, LegacyResetAllIo, volatility) == (Failure(MissingInstructionData()), link)
    ensures LegacyPerformSpec(lut, identity, lazy, link, LegacyHardReset, volatility).0.Failure?
  {
  }
}
